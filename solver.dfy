/**
 * The `Boggle` class of boggle_solver.py: it normalises a grid and a word
 * list, then finds the words that lie on the grid by backtracking.
 */
module BoggleSolver {
  import opened Text
  import opened Ordering
  import opened Board

  /** The grid `setGrid` builds: the same shape, every tile upper-cased. */
  function UpperTiles(rawGrid: Grid): (g: Grid)
    ensures |g| == |rawGrid|
    ensures forall i | 0 <= i < |g| :: |g[i]| == |rawGrid[i]|
    ensures forall i, j | 0 <= i < |g| && 0 <= j < |g[i]| :: g[i][j] == Upper(rawGrid[i][j])
  {
    seq(|rawGrid|, i requires 0 <= i < |rawGrid| =>
      seq(|rawGrid[i]|, j requires 0 <= j < |rawGrid[i]| => Upper(rawGrid[i][j])))
  }

  /** Upper-casing keeps a grid rectangular. */
  lemma UpperTilesRectangular(rawGrid: Grid)
    requires Rectangular(rawGrid)
    ensures Rectangular(UpperTiles(rawGrid)) && Width(UpperTiles(rawGrid)) == Width(rawGrid)
  {
  }

  /** Normalising a grid twice is the same as normalising it once. */
  lemma UpperTilesIdempotent(rawGrid: Grid)
    ensures UpperTiles(UpperTiles(rawGrid)) == UpperTiles(rawGrid)
  {
    var g := UpperTiles(rawGrid);
    var h := UpperTiles(g);
    forall i | 0 <= i < |g|
      ensures h[i] == g[i]
    {
      forall j | 0 <= j < |g[i]|
        ensures h[i][j] == g[i][j]
      {
        UpperFacts(rawGrid[i][j]);
      }
    }
  }

  /** A word the solver keeps: (already upper-cased,) at least 3 long and all letters. */
  predicate Admissible(word: string)
  {
    |word| >= 3 && IsAlpha(word)
  }

  /**
   * The set `setDictionary` builds from a word list: the upper-cased form of
   * each word that is admissible once upper-cased.
   */
  function Admitted(words: seq<string>): (d: set<string>)
    ensures forall w | w in d :: Admissible(w) && IsUpperCase(w)
    ensures forall w | w in d :: exists i | 0 <= i < |words| :: Upper(words[i]) == w
    ensures forall i | 0 <= i < |words| && |words[i]| >= 3 && IsAlpha(words[i]) :: Upper(words[i]) in d
  {
    if words == [] then {}
    else
      var rest := Admitted(words[..|words| - 1]);
      var last := Upper(words[|words| - 1]);
      UpperFacts(words[|words| - 1]);
      assert forall i | 0 <= i < |words| - 1 :: words[..|words| - 1][i] == words[i];
      if Admissible(last) then rest + {last} else rest
  }

  /**
   * The words of `dictionary` that lie on `g`: those some path attempt,
   * started at a cell of the grid with nothing visited, traces in full.
   */
  function Solutions(g: Grid, dictionary: set<string>): set<string>
    requires Rectangular(g)
  {
    set w | w in dictionary && OnGrid(g, w)
  }

  /** Some starting cell of `g` traces the whole of `word`. */
  predicate OnGrid(g: Grid, word: string)
    requires Rectangular(g)
  {
    exists r, c | 0 <= r < |g| && 0 <= c < Width(g) :: Found(g, word, 0, (r, c), {})
  }

  /** Adding one word to the dictionary adds it to the solutions exactly when it is on the grid. */
  lemma SolutionsAdd(g: Grid, dictionary: set<string>, word: string)
    requires Rectangular(g)
    ensures Solutions(g, dictionary + {word}) ==
      if OnGrid(g, word) then Solutions(g, dictionary) + {word} else Solutions(g, dictionary)
  {
  }

  /** Some attempt started at one of the first `c` cells of row `r` traces `word`. */
  predicate FoundInRow(g: Grid, word: string, r: int, c: nat)
    requires Rectangular(g)
  {
    c > 0 && (FoundInRow(g, word, r, c - 1) || Found(g, word, 0, (r, c - 1), {}))
  }

  /** Some attempt started in one of the first `r` rows traces `word`. */
  predicate FoundInRows(g: Grid, word: string, r: nat)
    requires Rectangular(g)
  {
    r > 0 && (FoundInRows(g, word, r - 1) || FoundInRow(g, word, r - 1, Width(g)))
  }

  lemma {:induction false} FoundInRowIff(g: Grid, word: string, r: int, c: nat)
    requires Rectangular(g)
    ensures FoundInRow(g, word, r, c) <==> exists j | 0 <= j < c :: Found(g, word, 0, (r, j), {})
  {
    if c > 0 {
      FoundInRowIff(g, word, r, c - 1);
    }
  }

  /** The row-major scan finds `word` exactly when some cell of the first `r` rows does. */
  lemma {:induction false} FoundInRowsIff(g: Grid, word: string, r: nat)
    requires Rectangular(g)
    ensures FoundInRows(g, word, r) <==>
      exists i, j | 0 <= i < r && 0 <= j < Width(g) :: Found(g, word, 0, (i, j), {})
  {
    if r > 0 {
      FoundInRowsIff(g, word, r - 1);
      FoundInRowIff(g, word, r - 1, Width(g));
      if exists i, j | 0 <= i < r && 0 <= j < Width(g) :: Found(g, word, 0, (i, j), {}) {
        var i, j :| 0 <= i < r && 0 <= j < Width(g) && Found(g, word, 0, (i, j), {});
        if i == r - 1 {
          assert FoundInRow(g, word, r - 1, Width(g));
        }
      }
    }
  }

  /**
   * A word lies on the grid exactly when some trail of pairwise-distinct,
   * adjacent, in-bounds cells spells it.
   */
  lemma OnGridIffTrail(g: Grid, word: string)
    requires Rectangular(g)
    ensures OnGrid(g, word) <==> exists p :: IsTrail(g, p, {}) && Spelled(g, p) == word
  {
    assert word[0..] == word;
    if OnGrid(g, word) {
      var r, c :| 0 <= r < |g| && 0 <= c < Width(g) && Found(g, word, 0, (r, c), {});
      FoundIffTraceable(g, word, 0, (r, c), {});
    }
    if exists p :: IsTrail(g, p, {}) && Spelled(g, p) == word {
      var p: seq<Cell> :| IsTrail(g, p, {}) && Spelled(g, p) == word;
      FoundIffTraceable(g, word, 0, p[0], {});
      assert Found(g, word, 0, (p[0].0, p[0].1), {});
    }
  }

  /**
   * The result in the source's own terms: a word is a solution exactly when
   * it is in the dictionary and some trail spells it.
   */
  lemma SolutionsAreTraceable(g: Grid, dictionary: set<string>, word: string)
    requires Rectangular(g)
    ensures word in Solutions(g, dictionary) <==>
      word in dictionary && exists p :: IsTrail(g, p, {}) && Spelled(g, p) == word
  {
    OnGridIffTrail(g, word);
  }

  /**
   * No cell is used twice, so a word on a grid whose tiles have at most `k`
   * letters has at most `k` letters per cell of the grid.
   */
  lemma OnGridLength(g: Grid, word: string, k: nat)
    requires Rectangular(g)
    requires forall r, c | 0 <= r < |g| && 0 <= c < Width(g) :: |g[r][c]| <= k
    requires OnGrid(g, word)
    ensures |word| <= k * |Unvisited(g, {})|
  {
    OnGridIffTrail(g, word);
    var p: seq<Cell> :| IsTrail(g, p, {}) && Spelled(g, p) == word;
    TrailBound(g, p, {});
    SpelledLength(g, p, k);
    MulMonotonic(k, |p|, |Unvisited(g, {})|);
  }

  lemma MulMonotonic(k: nat, a: nat, b: nat)
    requires a <= b
    ensures k * a <= k * b
  {
  }

  /** Every letter of a word on the grid is a letter of one of its tiles. */
  lemma OnGridLetters(g: Grid, word: string, i: int)
    requires Rectangular(g) && OnGrid(g, word) && 0 <= i < |word|
    ensures exists r, c | 0 <= r < |g| && 0 <= c < Width(g) :: word[i] in g[r][c]
  {
    OnGridIffTrail(g, word);
    var p: seq<Cell> :| IsTrail(g, p, {}) && Spelled(g, p) == word;
    var j := SpelledFrom(g, p, i);
    assert word[i] in g[p[j].0][p[j].1];
  }

  /** The cells marked by one path attempt; `findWords` adds and removes them in place. */
  class CellSet {
    var cells: set<Cell>

    constructor ()
      ensures cells == {}
    {
      cells := {};
    }
  }

  class Boggle {
    var grid: Grid
    var dictionary: set<string>
    var solutions: set<string>

    /** `Boggle(grid, dictionary)`: no solutions yet, both inputs normalised. */
    constructor (rawGrid: Grid, words: seq<string>)
      ensures solutions == {}
      ensures grid == UpperTiles(rawGrid)
      ensures dictionary == Admitted(words)
    {
      new;
      solutions := {};
      SetGrid(rawGrid);
      SetDictionary(words);
    }

    /** `setGrid`: the same shape as the input, every tile upper-cased. */
    method SetGrid(rawGrid: Grid)
      modifies this`grid
      ensures grid == UpperTiles(rawGrid)
    {
      grid := [];
      for i := 0 to |rawGrid|
        invariant grid == UpperTiles(rawGrid)[..i]
      {
        var row := rawGrid[i];
        var cleanRow := seq(|row|, j requires 0 <= j < |row| => Upper(row[j]));
        grid := grid + [cleanRow];
      }
    }

    /** `setDictionary`: upper-case each word and keep the admissible ones. */
    method SetDictionary(words: seq<string>)
      modifies this`dictionary
      ensures dictionary == Admitted(words)
    {
      dictionary := {};
      for i := 0 to |words|
        invariant dictionary == Admitted(words[..i])
      {
        assert words[..i + 1][..i] == words[..i];
        var word := Upper(words[i]);
        if |word| < 3 || !IsAlpha(word) {
          continue;
        }
        dictionary := dictionary + {word};
      }
      assert words[..|words|] == words;
    }

    /**
     * `findWords`: one step of a path attempt at `(row, col)`. `solutions`
     * gains `word` exactly when the attempt traces the rest of it from there
     * (reported in `found`), and `visited` is as it was on entry.
     */
    method FindWords(word: string, row: int, col: int, index: nat, visited: CellSet) returns (ghost found: bool)
      requires Rectangular(grid) && index <= |word|
      modifies this`solutions, visited
      ensures visited.cells == old(visited.cells)
      ensures found == Found(grid, word, index, (row, col), old(visited.cells))
      ensures !InBounds(grid, (row, col)) || (row, col) in old(visited.cells) ==> solutions == old(solutions)
      ensures solutions == if found then old(solutions) + {word} else old(solutions)
      decreases |Unvisited(grid, visited.cells)|, 0
    {
      if row < 0 || row >= |grid| || col < 0 || col >= |grid[0]| {
        return false;
      }
      if (row, col) in visited.cells {
        return false;
      }
      ghost var before := visited.cells;
      var tile := grid[row][col];
      var newIndex := index + |tile|;
      FoundUnfold(grid, word, index, (row, col), before, newIndex);
      if Slice(word, index, newIndex) != tile {
        return false;
      }
      if newIndex == |word| {
        solutions := solutions + {word};
      }
      visited.cells := visited.cells + {(row, col)};
      UnvisitedShrinks(grid, before, (row, col));
      ghost var any := TryNeighbours(word, row, col, newIndex, visited);
      visited.cells := visited.cells - {(row, col)};
      found := newIndex == |word| || any;
    }

    /**
     * The direction loops of `findWords`: continue the attempt from each of
     * the eight neighbours of `(row, col)` in turn, `(row, col)` itself
     * being marked. `any` reports whether one of them traced the rest.
     */
    method TryNeighbours(word: string, row: int, col: int, index: nat, visited: CellSet) returns (ghost any: bool)
      requires Rectangular(grid) && index <= |word|
      modifies this`solutions, visited
      ensures visited.cells == old(visited.cells)
      ensures any == FoundAmong(grid, word, index, (row, col), old(visited.cells), 9)
      ensures solutions == if any then old(solutions) + {word} else old(solutions)
      decreases |Unvisited(grid, visited.cells)|, 1
    {
      ghost var g, cell, marked, start := grid, (row, col), visited.cells, solutions;
      ghost var k := 0;
      any := false;
      for dr := -1 to 2
        invariant visited.cells == marked
        invariant k == 3 * (dr + 1)
        invariant any == FoundAmong(g, word, index, cell, marked, k)
        invariant solutions == if any then start + {word} else start
      {
        for dc := -1 to 2
          invariant visited.cells == marked
          invariant k == 3 * (dr + 1) + (dc + 1)
          invariant any == FoundAmong(g, word, index, cell, marked, k)
          invariant solutions == if any then start + {word} else start
        {
          FoundAmongNext(g, word, index, cell, marked, k);
          if dr == 0 && dc == 0 {
            k := k + 1;
            continue;
          }
          NeighbourAt(row, col, dr, dc, k);
          ghost var hit := FindWords(word, row + dr, col + dc, index, visited);
          assert grid == g;
          assert hit == Found(g, word, index, Neighbour(cell, k), marked);
          any, k := any || hit, k + 1;
        }
      }
    }

    /**
     * The two position loops of `getSolution` for one dictionary word: a
     * path attempt from every cell, each with a fresh empty `visited`.
     * `onGrid` reports whether one of them traced the word.
     */
    method SearchGrid(word: string) returns (ghost onGrid: bool)
      requires Rectangular(grid)
      modifies this`solutions
      ensures onGrid == OnGrid(grid, word)
      ensures solutions == if onGrid then old(solutions) + {word} else old(solutions)
    {
      ghost var g, start := grid, solutions;
      onGrid := false;
      for r := 0 to |grid|
        invariant onGrid == FoundInRows(g, word, r)
        invariant solutions == if onGrid then start + {word} else start
      {
        for c := 0 to |grid[0]|
          invariant onGrid == (FoundInRows(g, word, r) || FoundInRow(g, word, r, c))
          invariant solutions == if onGrid then start + {word} else start
        {
          var visited := new CellSet();
          ghost var hit := FindWords(word, r, c, 0, visited);
          onGrid := onGrid || hit;
        }
      }
      FoundInRowsIff(g, word, |g|);
    }

    /**
     * `getSolution`: the solutions as a strictly ascending list; nothing is
     * searched (and `solutions` is left alone) when the grid has no rows or
     * the dictionary is empty.
     */
    method GetSolution() returns (result: seq<string>)
      requires Rectangular(grid)
      modifies this`solutions
      ensures StrictlyAscending(result)
      ensures forall w :: w in result <==> w in Solutions(grid, dictionary)
      ensures forall w | w in result :: w in dictionary
      ensures forall w :: w in result <==> w in dictionary && exists p :: IsTrail(grid, p, {}) && Spelled(grid, p) == w
      ensures |result| == |Solutions(grid, dictionary)|
      ensures |grid| == 0 || dictionary == {} ==> result == [] && solutions == old(solutions)
      ensures |grid| != 0 && dictionary != {} ==> solutions == Solutions(grid, dictionary)
    {
      if |grid| == 0 || |dictionary| == 0 {
        assert Solutions(grid, dictionary) == {};
        forall w {
          SolutionsAreTraceable(grid, dictionary, w);
        }
        return [];
      }
      solutions := {};
      var remaining := dictionary;
      while remaining != {}
        invariant remaining <= dictionary
        invariant solutions == Solutions(grid, dictionary - remaining)
        decreases remaining
      {
        var word :| word in remaining;
        ghost var onGrid := SearchGrid(word);
        SolutionsAdd(grid, dictionary - remaining, word);
        assert dictionary - (remaining - {word}) == (dictionary - remaining) + {word};
        remaining := remaining - {word};
      }
      assert dictionary - remaining == dictionary;
      result := SortedList(solutions);
      forall w {
        SolutionsAreTraceable(grid, dictionary, w);
      }
    }
  }
}
