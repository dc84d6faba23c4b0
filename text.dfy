/**
 * The two string operations the solver uses to normalise its input,
 * `str.upper()` and `str.isalpha()`, restricted to ASCII.
 */
module Text {

  predicate IsLower(c: char) { 'a' <= c <= 'z' }

  predicate IsLetter(c: char) { 'A' <= c <= 'Z' || 'a' <= c <= 'z' }

  /** Upper-cases one ASCII letter and leaves every other character alone. */
  function UpperChar(c: char): (u: char)
    ensures !IsLower(u)
    ensures IsLetter(u) <==> IsLetter(c)
    ensures !IsLower(c) ==> u == c
    ensures IsLower(c) ==> u as int - 'A' as int == c as int - 'a' as int
  {
    if IsLower(c) then (c as int - 32) as char else c
  }

  /** `s.upper()`: same length, each character upper-cased in place. */
  function Upper(s: string): (r: string)
    ensures |r| == |s|
    ensures forall i | 0 <= i < |s| :: r[i] == UpperChar(s[i])
  {
    if s == [] then [] else [UpperChar(s[0])] + Upper(s[1..])
  }

  /** No lower-case letter anywhere: what `Upper` produces. */
  predicate IsUpperCase(s: string)
  {
    forall i | 0 <= i < |s| :: !IsLower(s[i])
  }

  /** `s.isalpha()`: non-empty and made of letters only. */
  predicate IsAlpha(s: string)
  {
    |s| > 0 && forall i | 0 <= i < |s| :: IsLetter(s[i])
  }

  /** Upper-casing is idempotent and changes neither length nor alphabeticity. */
  lemma UpperFacts(s: string)
    ensures IsUpperCase(Upper(s))
    ensures Upper(Upper(s)) == Upper(s)
    ensures IsAlpha(Upper(s)) <==> IsAlpha(s)
  {
  }

  /** A string already in upper case is its own upper-case form. */
  lemma UpperOfUpperCase(s: string)
    requires IsUpperCase(s)
    ensures Upper(s) == s
  {
  }
}
