/**
 * Python's ordering of `str` values and the `sorted(...)` call that turns the
 * solver's set of found words into its result list.
 */
module Ordering {

  /**
   * `a < b` on Python strings: compare code points from the left; a proper
   * prefix comes first.
   */
  predicate Below(a: string, b: string)
  {
    |b| > 0 && (|a| == 0 || a[0] < b[0] || (a[0] == b[0] && Below(a[1..], b[1..])))
  }

  lemma {:induction false} BelowIrreflexive(a: string)
    ensures !Below(a, a)
  {
    if |a| > 0 {
      BelowIrreflexive(a[1..]);
    }
  }

  lemma {:induction false} BelowTransitive(a: string, b: string, c: string)
    requires Below(a, b) && Below(b, c)
    ensures Below(a, c)
  {
    if |a| > 0 && a[0] == b[0] && b[0] == c[0] {
      BelowTransitive(a[1..], b[1..], c[1..]);
    }
  }

  lemma {:induction false} BelowTotal(a: string, b: string)
    requires a != b
    ensures Below(a, b) || Below(b, a)
  {
    if |a| > 0 && |b| > 0 && a[0] == b[0] {
      assert a == [a[0]] + a[1..] && b == [b[0]] + b[1..];
      BelowTotal(a[1..], b[1..]);
    }
  }

  lemma BelowAsymmetric(a: string, b: string)
    requires Below(a, b)
    ensures !Below(b, a)
  {
    if Below(b, a) {
      BelowTransitive(a, b, a);
      BelowIrreflexive(a);
    }
  }

  /** Sorted without duplicates: every earlier element is strictly below every later one. */
  predicate StrictlyAscending(s: seq<string>)
  {
    forall i, j | 0 <= i < j < |s| :: Below(s[i], s[j])
  }

  /** The least element of a non-empty set of strings. */
  method Least(s: set<string>) returns (m: string)
    requires s != {}
    ensures m in s
    ensures forall w | w in s && w != m :: Below(m, w)
  {
    m :| m in s;
    var rest := s - {m};
    while rest != {}
      invariant rest <= s && m in s && m !in rest
      invariant forall w | w in s && w !in rest && w != m :: Below(m, w)
      decreases rest
    {
      var w :| w in rest;
      rest := rest - {w};
      if Below(w, m) {
        forall x | x in s && x !in rest && x != w
          ensures Below(w, x)
        {
          if x != m {
            BelowTransitive(w, m, x);
          }
        }
        m := w;
      } else {
        BelowTotal(m, w);
      }
    }
  }

  /** `sorted(list(s))`: the elements of `s`, each once, in ascending order. */
  method SortedList(s: set<string>) returns (r: seq<string>)
    ensures StrictlyAscending(r)
    ensures forall w :: w in r <==> w in s
    ensures |r| == |s|
  {
    r := [];
    var rest := s;
    while rest != {}
      invariant rest <= s
      invariant forall w :: w in s <==> w in r || w in rest
      invariant forall w | w in r :: w !in rest
      invariant |r| + |rest| == |s|
      invariant StrictlyAscending(r)
      invariant forall i, w | 0 <= i < |r| && w in rest :: Below(r[i], w)
      decreases rest
    {
      var m := Least(rest);
      r := r + [m];
      rest := rest - {m};
    }
  }

  /** Two strictly ascending lists with the same elements are the same list. */
  lemma {:induction false} AscendingUnique(a: seq<string>, b: seq<string>)
    requires StrictlyAscending(a) && StrictlyAscending(b)
    requires forall w :: w in a <==> w in b
    ensures a == b
  {
    if a != [] { assert a[0] in b; }
    if b != [] { assert b[0] in a; }
    if a != [] && b != [] {
      if a[0] != b[0] {
        assert b[0] in a && a[0] in b;
        var j :| 0 <= j < |a| && a[j] == b[0];
        var k :| 0 <= k < |b| && b[k] == a[0];
        assert j > 0 && k > 0;
        BelowAsymmetric(a[0], b[0]);
        assert false;
      }
      forall w
        ensures w in a[1..] <==> w in b[1..]
      {
        if w in a[1..] {
          var i :| 0 <= i < |a| - 1 && a[1..][i] == w;
          BelowIrreflexive(a[0]);
          assert w in b && w != b[0];
          var k :| 0 <= k < |b| && b[k] == w;
          assert b[1..][k - 1] == w;
        }
        if w in b[1..] {
          var i :| 0 <= i < |b| - 1 && b[1..][i] == w;
          BelowIrreflexive(b[0]);
          assert w in a && w != a[0];
          var k :| 0 <= k < |a| && a[k] == w;
          assert a[1..][k - 1] == w;
        }
      }
      AscendingUnique(a[1..], b[1..]);
      assert a == [a[0]] + a[1..] && b == [b[0]] + b[1..];
    }
  }
}
