/**
 * The scenarios of test_boggle_solver.py, each a run of the solver on a
 * fixed grid and word list with the outcome the test expects, proved from
 * the contracts of `Boggle` and the lemmas about what lies on a grid.
 */
module Scenarios {
  import opened Text
  import opened Ordering
  import opened Board
  import opened BoggleSolver

  /** A grid with no rows: nothing is searched and the answer is empty. */
  method EmptyGrid() returns (solution: seq<string>)
    ensures solution == []
  {
    var game := new Boggle([], ["HELLO", "WORLD"]);
    solution := game.GetSolution();
  }

  /** Words with digits are dropped by `setDictionary`, so nothing is left to find. */
  method Number() returns (solution: seq<string>)
    ensures solution == []
  {
    var words := ["A1B", "C2D"];
    var game := new Boggle([["A", "B"], ["C", "D"]], words);
    assert game.dictionary == {};
    solution := game.GetSolution();
  }

  /** The two-letter tile "QU" matches two letters of the word at once. */
  method SpecialTile() returns (solution: seq<string>)
    ensures "QUART" in solution
  {
    var raw, words := [["Qu", "A"], ["R", "T"]], ["QUART"];
    var game := new Boggle(raw, words);
    QuartSolved(raw, words);
    solution := game.GetSolution();
  }

  lemma QuartSolved(raw: Grid, words: seq<string>)
    requires raw == [["Qu", "A"], ["R", "T"]] && words == ["QUART"]
    ensures Rectangular(UpperTiles(raw))
    ensures "QUART" in Solutions(UpperTiles(raw), Admitted(words))
  {
    var g := UpperTiles(raw);
    QuartGrid(raw);
    ZigZag(g, "QUART");
    UpperOfUpperCase(words[0]);
  }

  lemma QuartGrid(raw: Grid)
    requires raw == [["Qu", "A"], ["R", "T"]]
    ensures UpperTiles(raw) == [["QU", "A"], ["R", "T"]]
  {
    var u := UpperTiles(raw);
    assert Upper("Qu")[1] == UpperChar('u') == 'U';
    assert u[0][0] == "QU";
    UpperOfUpperCase("A");
    UpperOfUpperCase("R");
    UpperOfUpperCase("T");
    assert u[0] == ["QU", "A"];
    assert u[1] == ["R", "T"];
  }

  /** No word of the list can even start on a grid of other letters. */
  method NoWordsFound() returns (solution: seq<string>)
    ensures solution == []
  {
    var raw, words := [["X", "Y"], ["Z", "W"]], ["APPLE", "BANANA"];
    var game := new Boggle(raw, words);
    NothingOnGrid(raw, words);
    solution := game.GetSolution();
  }

  lemma NothingOnGrid(g: Grid, words: seq<string>)
    requires g == [["X", "Y"], ["Z", "W"]] && words == ["APPLE", "BANANA"]
    ensures UpperTiles(g) == g && Rectangular(g)
    ensures Solutions(g, Admitted(words)) == {}
  {
    OtherLetters(g);
    NoneKept(words);
    forall w | w in Admitted(words)
      ensures !OnGrid(g, w)
    {
      NotOnGrid(g, w);
    }
  }

  lemma OtherLetters(raw: Grid)
    requires raw == [["X", "Y"], ["Z", "W"]]
    ensures UpperTiles(raw) == raw && Rectangular(raw)
    ensures forall r, c | 0 <= r < |raw| && 0 <= c < Width(raw) :: 'A' !in raw[r][c] && 'B' !in raw[r][c]
  {
    AlreadyUpper(raw);
  }

  lemma NoneKept(words: seq<string>)
    requires words == ["APPLE", "BANANA"]
    ensures forall w | w in Admitted(words) :: |w| > 0 && (w[0] == 'A' || w[0] == 'B')
  {
    forall w | w in Admitted(words)
      ensures |w| > 0 && (w[0] == 'A' || w[0] == 'B')
    {
      var i :| 0 <= i < |words| && Upper(words[i]) == w;
      assert w[0] == UpperChar(words[i][0]);
    }
  }

  /** A word whose first letter is on no tile does not lie on the grid. */
  lemma NotOnGrid(g: Grid, w: string)
    requires Rectangular(g) && |w| > 0
    requires forall r, c | 0 <= r < |g| && 0 <= c < Width(g) :: w[0] !in g[r][c]
    ensures !OnGrid(g, w)
  {
    if OnGrid(g, w) {
      OnGridLetters(g, w, 0);
    }
  }

  /** "AB" is too short to be kept; "ABC" runs along the row. */
  method WordLength() returns (solution: seq<string>)
    ensures "AB" !in solution
    ensures "ABC" in solution
  {
    var raw, words := [["A", "B", "C"]], ["AB", "BC", "ABC"];
    var game := new Boggle(raw, words);
    OneRow(raw);
    Kept(words, 2);
    solution := game.GetSolution();
  }

  lemma OneRow(g: Grid)
    requires g == [["A", "B", "C"]]
    ensures UpperTiles(g) == g && Rectangular(g) && OnGrid(g, "ABC")
  {
    AlreadyUpper(g);
    Line(g, (0, 0), (0, 1), (0, 2), "ABC");
  }

  /** A tile is used at most once, so "ABA" does not lie on a two-tile grid. */
  method TileReuse() returns (solution: seq<string>)
    ensures "ABA" !in solution
  {
    var raw, words := [["A", "B"]], ["ABA"];
    var game := new Boggle(raw, words);
    NoRevisit(raw);
    solution := game.GetSolution();
  }

  lemma NoRevisit(g: Grid)
    requires g == [["A", "B"]]
    ensures UpperTiles(g) == g && Rectangular(g) && !OnGrid(g, "ABA")
  {
    AlreadyUpper(g);
    assert Unvisited(g, {}) == {(0, 0), (0, 1)} by {
      forall c | c in Unvisited(g, {})
        ensures c == (0, 0) || c == (0, 1)
      {
      }
      assert (0, 0) in Unvisited(g, {}) && (0, 1) in Unvisited(g, {});
    }
    if OnGrid(g, "ABA") {
      OnGridLength(g, "ABA", 1);
      assert false;
    }
  }

  /** Downwards, diagonally and along the top row of a 3 x 3 grid. */
  method EvenGrid() returns (solution: seq<string>)
    ensures "ADG" in solution && "AEI" in solution && "ABC" in solution
  {
    var raw := [["A", "B", "C"], ["D", "E", "F"], ["G", "H", "I"]];
    var words := ["ADG", "AEI", "ABC"];
    var game := new Boggle(raw, words);
    ThreeByThree(raw);
    ThreeWords(words);
    solution := game.GetSolution();
  }

  lemma ThreeWords(words: seq<string>)
    requires words == ["ADG", "AEI", "ABC"]
    ensures "ADG" in Admitted(words) && "AEI" in Admitted(words) && "ABC" in Admitted(words)
  {
    Kept(words, 0);
    Kept(words, 1);
    Kept(words, 2);
  }

  lemma ThreeByThree(g: Grid)
    requires g == [["A", "B", "C"], ["D", "E", "F"], ["G", "H", "I"]]
    ensures UpperTiles(g) == g && Rectangular(g)
    ensures OnGrid(g, "ADG") && OnGrid(g, "AEI") && OnGrid(g, "ABC")
  {
    AlreadyUpper(g);
    Column(g);
    Diagonal(g);
    TopRow(g);
  }

  lemma Column(g: Grid)
    requires g == [["A", "B", "C"], ["D", "E", "F"], ["G", "H", "I"]]
    ensures OnGrid(g, "ADG")
  {
    Line(g, (0, 0), (1, 0), (2, 0), "ADG");
  }

  lemma Diagonal(g: Grid)
    requires g == [["A", "B", "C"], ["D", "E", "F"], ["G", "H", "I"]]
    ensures OnGrid(g, "AEI")
  {
    Line(g, (0, 0), (1, 1), (2, 2), "AEI");
  }

  lemma TopRow(g: Grid)
    requires g == [["A", "B", "C"], ["D", "E", "F"], ["G", "H", "I"]]
    ensures OnGrid(g, "ABC")
  {
    Line(g, (0, 0), (0, 1), (0, 2), "ABC");
  }

  /** Three adjacent, distinct cells whose tiles spell `w`. */
  lemma Line(g: Grid, a: Cell, b: Cell, c: Cell, w: string)
    requires Rectangular(g) && InBounds(g, a) && InBounds(g, b) && InBounds(g, c)
    requires a != c && Adjacent(a, b) && Adjacent(b, c)
    requires Tile(g, a) + Tile(g, b) + Tile(g, c) == w
    ensures OnGrid(g, w)
  {
    var p := [a, b, c];
    assert IsTrail(g, p, {});
    assert Spelled(g, p[2..]) == Tile(g, c);
    assert Spelled(g, p) == Tile(g, a) + (Tile(g, b) + Tile(g, c));
    OnGridIffTrail(g, w);
  }

  /** Four adjacent, pairwise-distinct cells whose tiles spell `w`. */
  lemma Path4(g: Grid, a: Cell, b: Cell, c: Cell, d: Cell, w: string)
    requires Rectangular(g) && InBounds(g, a) && InBounds(g, b) && InBounds(g, c) && InBounds(g, d)
    requires a != c && a != d && b != d && Adjacent(a, b) && Adjacent(b, c) && Adjacent(c, d)
    requires Tile(g, a) + Tile(g, b) + Tile(g, c) + Tile(g, d) == w
    ensures OnGrid(g, w)
  {
    var p := [a, b, c, d];
    assert IsTrail(g, p, {});
    assert Spelled(g, p[3..]) == Tile(g, d);
    assert Spelled(g, p[2..]) == Tile(g, c) + Tile(g, d);
    assert Spelled(g, p) == Tile(g, a) + (Tile(g, b) + (Tile(g, c) + Tile(g, d)));
    OnGridIffTrail(g, w);
  }

  /** An upper-case word of three or more letters is kept by `setDictionary`. */
  lemma Kept(words: seq<string>, i: int)
    requires 0 <= i < |words| && IsUpperCase(words[i]) && Admissible(words[i])
    ensures words[i] in Admitted(words)
  {
    UpperOfUpperCase(words[i]);
  }

  /** Lower-case tiles and words are upper-cased before the search. */
  method UpperCase() returns (solution: seq<string>)
    ensures "ABCD" in solution
  {
    var raw, words := [["a", "b"], ["c", "d"]], ["abcd"];
    var game := new Boggle(raw, words);
    LowerGrid(raw);
    LowerWord(words);
    ZigZag(game.grid, "ABCD");
    solution := game.GetSolution();
  }

  lemma LowerGrid(raw: Grid)
    requires raw == [["a", "b"], ["c", "d"]]
    ensures UpperTiles(raw) == [["A", "B"], ["C", "D"]]
  {
    var g := UpperTiles(raw);
    assert Upper("a") == "A" && Upper("b") == "B" && Upper("c") == "C" && Upper("d") == "D";
    assert g[0] == ["A", "B"] && g[1] == ["C", "D"];
  }

  lemma LowerWord(words: seq<string>)
    requires words == ["abcd"]
    ensures "ABCD" in Admitted(words)
  {
    var u := Upper(words[0]);
    assert u[0] == 'A' && u[1] == 'B' && u[2] == 'C' && u[3] == 'D';
    assert u == "ABCD";
  }

  /** Round a 2 x 2 grid: along the top, diagonally back, along the bottom. */
  lemma ZigZag(g: Grid, w: string)
    requires Rectangular(g) && |g| == 2 && Width(g) == 2
    requires g[0][0] + g[0][1] + g[1][0] + g[1][1] == w
    ensures OnGrid(g, w)
  {
    Path4(g, (0, 0), (0, 1), (1, 0), (1, 1), w);
  }

  /** A one-letter word is dropped even though its letter is on the grid. */
  method RawI() returns (solution: seq<string>)
    ensures "I" !in solution
  {
    var raw, words := [["A", "B"], ["C", "I"]], ["I", "ABC"];
    var game := new Boggle(raw, words);
    AlreadyUpper(raw);
    assert "I" !in game.dictionary;
    solution := game.GetSolution();
  }

  /** A grid already in upper case is kept as it is. */
  lemma AlreadyUpper(raw: Grid)
    requires forall i, j | 0 <= i < |raw| && 0 <= j < |raw[i]| :: IsUpperCase(raw[i][j])
    ensures UpperTiles(raw) == raw
  {
    var g := UpperTiles(raw);
    forall i, j | 0 <= i < |raw| && 0 <= j < |raw[i]|
      ensures g[i][j] == raw[i][j]
    {
      UpperOfUpperCase(raw[i][j]);
    }
    assert forall i | 0 <= i < |raw| :: g[i] == raw[i];
  }

  /**
   * `getSolution` twice on the same game gives the same list: it starts
   * each search from an empty `solutions`.
   */
  method SolveTwice(game: Boggle) returns (first: seq<string>, second: seq<string>)
    requires Rectangular(game.grid)
    modifies game
    ensures first == second
  {
    first := game.GetSolution();
    second := game.GetSolution();
    AscendingUnique(first, second);
  }
}
