/**
 * The grid of tiles, what it means for a word to lie on it, and the
 * backtracking trace of `Boggle.findWords` as a function.
 *
 * A trail is a non-empty sequence of pairwise-distinct, in-bounds cells in
 * which each cell is one of the eight neighbours of the one before; a word
 * lies on the grid when the tiles of some trail, concatenated, spell it.
 * `Found` follows the source's recursion step by step; `FoundIffTraceable`
 * proves that it decides exactly that.
 */
module Board {

  /** Rows of tiles; a tile is a string, usually one letter ("QU" for the Qu die). */
  type Grid = seq<seq<string>>

  /** A (row, column) position, possibly off the grid. */
  type Cell = (int, int)

  /** `len(grid[0])`, or 0 for a grid without rows. */
  function Width(g: Grid): nat
  {
    if |g| == 0 then 0 else |g[0]|
  }

  predicate Rectangular(g: Grid)
  {
    forall i | 0 <= i < |g| :: |g[i]| == Width(g)
  }

  predicate InBounds(g: Grid, c: Cell)
  {
    0 <= c.0 < |g| && 0 <= c.1 < Width(g)
  }

  function Tile(g: Grid, c: Cell): string
    requires Rectangular(g) && InBounds(g, c)
  {
    g[c.0][c.1]
  }

  /**
   * The `k`-th cell visited by the source's direction loops around `c`
   * (`for dr in [-1,0,1]: for dc in [-1,0,1]`, so `k == 3 * (dr + 1) + (dc + 1)`);
   * `k == 4` is `c` itself, which the loops skip.
   */
  function Neighbour(c: Cell, k: int): Cell
  {
    var dr := if k < 3 then -1 else if k < 6 then 0 else 1;
    (c.0 + dr, c.1 + k - 3 * (dr + 1) - 1)
  }

  /** One of the eight neighbours: differs by at most one in each coordinate. */
  predicate Adjacent(a: Cell, b: Cell)
  {
    a != b && -1 <= b.0 - a.0 <= 1 && -1 <= b.1 - a.1 <= 1
  }

  /**
   * Python's `s[lo:hi]` for `0 <= lo <= hi`: the slice is cut short at the
   * end of the string and is empty when `lo` is past it.
   */
  function Slice(s: string, lo: nat, hi: nat): (r: string)
    requires lo <= hi
    ensures |r| == if hi <= |s| then hi - lo else if lo <= |s| then |s| - lo else 0
    ensures hi <= |s| ==> r == s[lo..hi]
    ensures lo <= |s| < hi ==> r == s[lo..]
  {
    if lo >= |s| then [] else if hi <= |s| then s[lo..hi] else s[lo..]
  }

  /** Matching a whole tile against the clamped slice never reads past the word. */
  lemma SliceMatch(word: string, index: nat, tile: string)
    requires index <= |word|
    ensures Slice(word, index, index + |tile|) == tile
        <==> index + |tile| <= |word| && word[index..index + |tile|] == tile
  {
  }

  /** The in-bounds cells a path attempt may still step on. */
  ghost function Unvisited(g: Grid, visited: set<Cell>): set<Cell>
  {
    set r: int, c: int | 0 <= r < |g| && 0 <= c < Width(g) && (r, c) !in visited :: (r, c)
  }

  /** Marking an in-bounds, unvisited cell removes exactly one cell from `Unvisited`. */
  lemma UnvisitedShrinks(g: Grid, visited: set<Cell>, c: Cell)
    requires InBounds(g, c) && c !in visited
    ensures c in Unvisited(g, visited)
    ensures Unvisited(g, visited + {c}) == Unvisited(g, visited) - {c}
    ensures |Unvisited(g, visited + {c})| == |Unvisited(g, visited)| - 1
  {
    assert c == (c.0, c.1);
  }

  /** Direction `(dr, dc)` of the loops is the cell `(dr, dc)` away. */
  lemma NeighbourAt(row: int, col: int, dr: int, dc: int, k: int)
    requires -1 <= dr <= 1 && -1 <= dc <= 1 && k == 3 * (dr + 1) + (dc + 1)
    ensures Neighbour((row, col), k) == (row + dr, col + dc)
  {
  }

  /** The loops' eight directions are exactly the eight neighbours. */
  lemma NeighbourAdjacent(c: Cell, d: Cell)
    ensures Adjacent(c, d) <==> exists k | 0 <= k < 9 && k != 4 :: Neighbour(c, k) == d
  {
    if Adjacent(c, d) {
      var k := 3 * (d.0 - c.0 + 1) + (d.1 - c.1 + 1);
      assert Neighbour(c, k) == d;
    }
  }

  /**
   * What `findWords(word, row, col, index, visited)` decides: whether the
   * rest of `word` from `index` on can be traced starting at `c` without
   * stepping on a cell of `visited`. Out of bounds, already visited, or a
   * tile that is not exactly the next slice of the word: no. Otherwise yes
   * when the tile completes the word, or when one of the eight neighbours
   * can trace the remainder with `c` marked as visited.
   */
  function Found(g: Grid, word: string, index: nat, c: Cell, visited: set<Cell>): bool
    requires Rectangular(g) && index <= |word|
    decreases |Unvisited(g, visited)|, 0
  {
    if !InBounds(g, c) || c in visited then false
    else
      var tile := Tile(g, c);
      if Slice(word, index, index + |tile|) != tile then false
      else
        var next := index + |tile|;
        UnvisitedShrinks(g, visited, c);
        next == |word| || FoundAmong(g, word, next, c, visited + {c}, 9)
  }

  /**
   * Whether one of the first `k` directions of the loops (leaving out the
   * zero offset) leads from `c` to a trace of the rest of `word`.
   */
  function FoundAmong(g: Grid, word: string, index: nat, c: Cell, visited: set<Cell>, k: nat): bool
    requires Rectangular(g) && index <= |word| && k <= 9
    decreases |Unvisited(g, visited)|, k + 1
  {
    if k == 0 then false
    else
      FoundAmong(g, word, index, c, visited, k - 1) ||
      (k - 1 != 4 && Found(g, word, index, Neighbour(c, k - 1), visited))
  }

  /** A direction that leads on, among the first `k`. */
  lemma {:induction false} FoundAmongWitness(g: Grid, word: string, index: nat, c: Cell, visited: set<Cell>, k: nat)
    returns (j: nat)
    requires Rectangular(g) && index <= |word| && k <= 9
    requires FoundAmong(g, word, index, c, visited, k)
    ensures j < k && j != 4 && Found(g, word, index, Neighbour(c, j), visited)
  {
    if FoundAmong(g, word, index, c, visited, k - 1) {
      j := FoundAmongWitness(g, word, index, c, visited, k - 1);
    } else {
      j := k - 1;
    }
  }

  /** A direction that leads on makes every longer prefix of the loops succeed. */
  lemma {:induction false} FoundAmongIntro(g: Grid, word: string, index: nat, c: Cell, visited: set<Cell>, k: nat, j: nat)
    requires Rectangular(g) && index <= |word| && k <= 9
    requires j < k && j != 4 && Found(g, word, index, Neighbour(c, j), visited)
    ensures FoundAmong(g, word, index, c, visited, k)
  {
    if j < k - 1 {
      FoundAmongIntro(g, word, index, c, visited, k - 1, j);
    }
  }

  /** Trying direction `k` after the first `k` directions. */
  lemma FoundAmongNext(g: Grid, word: string, index: nat, c: Cell, visited: set<Cell>, k: nat)
    requires Rectangular(g) && index <= |word| && k < 9
    ensures FoundAmong(g, word, index, c, visited, k + 1) <==>
      FoundAmong(g, word, index, c, visited, k) || (k != 4 && Found(g, word, index, Neighbour(c, k), visited))
  {
  }

  /** One step of `Found` at an in-bounds, unvisited cell, with `next` the index after its tile. */
  lemma FoundUnfold(g: Grid, word: string, index: nat, c: Cell, visited: set<Cell>, next: nat)
    requires Rectangular(g) && index <= |word|
    requires InBounds(g, c) && c !in visited && next == index + |Tile(g, c)|
    ensures Found(g, word, index, c, visited) <==>
      Slice(word, index, next) == Tile(g, c) && next <= |word| &&
      (next == |word| || FoundAmong(g, word, next, c, visited + {c}, 9))
  {
    SliceMatch(word, index, Tile(g, c));
  }

  /** Pairwise-distinct, in-bounds cells avoiding `visited`, each adjacent to the next. */
  ghost predicate IsTrail(g: Grid, p: seq<Cell>, visited: set<Cell>)
  {
    && |p| > 0
    && (forall i | 0 <= i < |p| :: InBounds(g, p[i]) && p[i] !in visited)
    && (forall i, j | 0 <= i < j < |p| :: p[i] != p[j])
    && (forall i | 0 <= i < |p| - 1 :: Adjacent(p[i], p[i + 1]))
  }

  /** The tiles along `p`, concatenated. */
  function Spelled(g: Grid, p: seq<Cell>): string
    requires Rectangular(g)
    requires forall i | 0 <= i < |p| :: InBounds(g, p[i])
  {
    if p == [] then [] else Tile(g, p[0]) + Spelled(g, p[1..])
  }

  /** Some trail from `c` avoiding `visited` spells `word[index..]`. */
  ghost predicate Traceable(g: Grid, word: string, index: nat, c: Cell, visited: set<Cell>)
    requires Rectangular(g) && index <= |word|
  {
    exists p :: IsTrail(g, p, visited) && p[0] == c && Spelled(g, p) == word[index..]
  }

  /** Prepending an unvisited neighbour of the head to a trail gives a trail. */
  lemma TrailCons(g: Grid, c: Cell, q: seq<Cell>, visited: set<Cell>)
    requires IsTrail(g, q, visited + {c})
    requires InBounds(g, c) && c !in visited && Adjacent(c, q[0])
    ensures IsTrail(g, [c] + q, visited)
  {
    var p := [c] + q;
    forall i, j | 0 <= i < j < |p|
      ensures p[i] != p[j]
    {
      if i > 0 {
        assert p[i] == q[i - 1] && p[j] == q[j - 1];
      }
    }
    forall i | 0 <= i < |p| - 1
      ensures Adjacent(p[i], p[i + 1])
    {
      if i > 0 {
        assert p[i] == q[i - 1] && p[i + 1] == q[i];
      }
    }
  }

  /** The tail of a trail of two or more cells is a trail that also avoids its head. */
  lemma TrailTail(g: Grid, p: seq<Cell>, visited: set<Cell>)
    requires IsTrail(g, p, visited) && |p| > 1
    ensures IsTrail(g, p[1..], visited + {p[0]})
    ensures Adjacent(p[0], p[1])
  {
    var q := p[1..];
    forall i | 0 <= i < |q|
      ensures InBounds(g, q[i]) && q[i] !in visited + {p[0]}
    {
      assert q[i] == p[i + 1];
    }
    forall i, j | 0 <= i < j < |q|
      ensures q[i] != q[j]
    {
      assert q[i] == p[i + 1] && q[j] == p[j + 1];
    }
    forall i | 0 <= i < |q| - 1
      ensures Adjacent(q[i], q[i + 1])
    {
      assert q[i] == p[i + 1] && q[i + 1] == p[i + 2];
    }
  }

  /** A matching tile in front of a trail that spells the rest gives a trail for the whole. */
  lemma TraceableCons(g: Grid, word: string, index: nat, c: Cell, visited: set<Cell>, q: seq<Cell>)
    requires Rectangular(g) && index <= |word|
    requires InBounds(g, c) && c !in visited
    requires index + |Tile(g, c)| <= |word| && word[index..index + |Tile(g, c)|] == Tile(g, c)
    requires q == [] || (IsTrail(g, q, visited + {c}) && Adjacent(c, q[0]))
    requires forall i | 0 <= i < |q| :: InBounds(g, q[i])
    requires Spelled(g, q) == word[index + |Tile(g, c)|..]
    ensures Traceable(g, word, index, c, visited)
  {
    var p := [c] + q;
    if q != [] {
      TrailCons(g, c, q, visited);
    }
    assert p[1..] == q;
    assert Spelled(g, p) == Tile(g, c) + Spelled(g, q);
    assert word[index..] == word[index..index + |Tile(g, c)|] + word[index + |Tile(g, c)|..];
    assert IsTrail(g, p, visited) && p[0] == c && Spelled(g, p) == word[index..];
  }

  /** Soundness of the trace: a word `Found` from `c` has a trail that spells it. */
  lemma {:induction false} FoundSound(g: Grid, word: string, index: nat, c: Cell, visited: set<Cell>)
    requires Rectangular(g) && index <= |word|
    requires Found(g, word, index, c, visited)
    ensures Traceable(g, word, index, c, visited)
    decreases |Unvisited(g, visited)|
  {
    var tile := Tile(g, c);
    var next := index + |tile|;
    SliceMatch(word, index, tile);
    if next == |word| {
      TraceableCons(g, word, index, c, visited, []);
    } else {
      var j := FoundAmongWitness(g, word, next, c, visited + {c}, 9);
      UnvisitedShrinks(g, visited, c);
      FoundSound(g, word, next, Neighbour(c, j), visited + {c});
      var q :| IsTrail(g, q, visited + {c}) && q[0] == Neighbour(c, j) && Spelled(g, q) == word[next..];
      NeighbourAdjacent(c, q[0]);
      TraceableCons(g, word, index, c, visited, q);
    }
  }

  /** The last step of the trace: a tile that matches the end of the word. */
  lemma FoundLast(g: Grid, word: string, index: nat, c: Cell, visited: set<Cell>)
    requires Rectangular(g) && index <= |word|
    requires InBounds(g, c) && c !in visited
    requires index + |Tile(g, c)| == |word| && word[index..] == Tile(g, c)
    ensures Found(g, word, index, c, visited)
  {
    SliceMatch(word, index, Tile(g, c));
  }

  /** A middle step of the trace: a matching tile followed by a neighbour that finishes the word. */
  lemma FoundStep(g: Grid, word: string, index: nat, c: Cell, visited: set<Cell>, next: nat, d: Cell)
    requires Rectangular(g) && next <= |word|
    requires InBounds(g, c) && c !in visited
    requires next == index + |Tile(g, c)| && word[index..next] == Tile(g, c)
    requires Adjacent(c, d) && Found(g, word, next, d, visited + {c})
    ensures Found(g, word, index, c, visited)
  {
    SliceMatch(word, index, Tile(g, c));
    NeighbourAdjacent(c, d);
    var j :| 0 <= j < 9 && j != 4 && Neighbour(c, j) == d;
    FoundAmongIntro(g, word, next, c, visited + {c}, 9, j);
  }

  /** The head tile of a trail that spells `word[index..]` is the next slice of the word. */
  lemma SpelledHead(g: Grid, word: string, index: nat, p: seq<Cell>)
    requires Rectangular(g) && index <= |word|
    requires |p| > 0 && forall i | 0 <= i < |p| :: InBounds(g, p[i])
    requires Spelled(g, p) == word[index..]
    ensures index + |Tile(g, p[0])| <= |word|
    ensures word[index..index + |Tile(g, p[0])|] == Tile(g, p[0])
    ensures word[index + |Tile(g, p[0])|..] == Spelled(g, p[1..])
  {
    var tile := Tile(g, p[0]);
    assert word[index..] == tile + Spelled(g, p[1..]);
    assert word[index..index + |tile|] == (word[index..])[..|tile|];
    assert word[index + |tile|..] == (word[index..])[|tile|..];
  }

  /** Completeness of the trace: a trail that spells the word makes `Found` true at its head. */
  lemma {:induction false} TrailFound(g: Grid, word: string, index: nat, p: seq<Cell>, visited: set<Cell>)
    requires Rectangular(g) && index <= |word|
    requires IsTrail(g, p, visited) && Spelled(g, p) == word[index..]
    ensures Found(g, word, index, p[0], visited)
    decreases |p|
  {
    var c, q := p[0], p[1..];
    SpelledHead(g, word, index, p);
    var next := index + |Tile(g, c)|;
    assert InBounds(g, c) && c !in visited;
    if next < |word| {
      TrailTail(g, p, visited);
      assert q[0] == p[1];
      TrailFound(g, word, next, q, visited + {c});
      FoundStep(g, word, index, c, visited, next, q[0]);
    } else {
      FoundLast(g, word, index, c, visited);
    }
  }

  /** The trace decides exactly whether a trail spells the rest of the word. */
  lemma FoundIffTraceable(g: Grid, word: string, index: nat, c: Cell, visited: set<Cell>)
    requires Rectangular(g) && index <= |word|
    ensures Found(g, word, index, c, visited) <==> Traceable(g, word, index, c, visited)
  {
    if Found(g, word, index, c, visited) {
      FoundSound(g, word, index, c, visited);
    }
    if Traceable(g, word, index, c, visited) {
      var p :| IsTrail(g, p, visited) && p[0] == c && Spelled(g, p) == word[index..];
      TrailFound(g, word, index, p, visited);
    }
  }

  /** A trail never repeats a cell, so it is no longer than the cells left to visit. */
  lemma {:induction false} TrailBound(g: Grid, p: seq<Cell>, visited: set<Cell>)
    requires IsTrail(g, p, visited)
    ensures |p| <= |Unvisited(g, visited)|
    decreases |p|
  {
    UnvisitedShrinks(g, visited, p[0]);
    if |p| > 1 {
      TrailTail(g, p, visited);
      TrailBound(g, p[1..], visited + {p[0]});
    }
  }

  /** With tiles of at most `k` letters, a trail spells at most `k` letters per cell. */
  lemma {:induction false} SpelledLength(g: Grid, p: seq<Cell>, k: nat)
    requires Rectangular(g)
    requires forall i | 0 <= i < |p| :: InBounds(g, p[i])
    requires forall r, c | 0 <= r < |g| && 0 <= c < Width(g) :: |g[r][c]| <= k
    ensures |Spelled(g, p)| <= k * |p|
  {
    if p != [] {
      SpelledLength(g, p[1..], k);
      assert |Spelled(g, p)| == |Tile(g, p[0])| + |Spelled(g, p[1..])|;
      assert k * |p| == k + k * (|p| - 1);
    }
  }

  /** Each letter a trail spells comes from the tile of one of its cells. */
  lemma {:induction false} SpelledFrom(g: Grid, p: seq<Cell>, i: int) returns (j: int)
    requires Rectangular(g)
    requires forall n | 0 <= n < |p| :: InBounds(g, p[n])
    requires 0 <= i < |Spelled(g, p)|
    ensures 0 <= j < |p| && Spelled(g, p)[i] in Tile(g, p[j])
  {
    var head := Tile(g, p[0]);
    if i < |head| {
      assert Spelled(g, p)[i] == head[i];
      j := 0;
    } else {
      assert Spelled(g, p)[i] == Spelled(g, p[1..])[i - |head|];
      j := SpelledFrom(g, p[1..], i - |head|);
      j := j + 1;
    }
  }
}
