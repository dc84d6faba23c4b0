# Boggle solver

A model of the `Boggle` class in `boggle_solver.py`. The class takes a grid of
letter tiles and a word list. `setGrid` upper-cases every tile. `setDictionary`
upper-cases every word and keeps only those with at least three characters that
are all letters. `getSolution` then runs a backtracking search (`findWords`)
from every cell for every kept word. It collects the words that some path of
adjacent, pairwise-distinct cells spells, and returns them sorted. A tile may
hold more than one letter (the "Qu" die).

The project has five modules:

- `Text` (`text.dfy`) models ASCII `str.upper()` and `str.isalpha()`.
- `Ordering` (`ordering.dfy`) models Python's `<` on strings and the
  `sorted(list(...))` call that produces the result.
- `Board` (`board.dfy`) holds the grid, its cells and the eight neighbour
  directions. It also defines `Found`, the path attempt of `findWords` written
  as a recursive function. It defines an independent specification as well:
  a *trail* is a sequence of in-bounds, pairwise-distinct, adjacent cells, and
  the word it spells is the concatenation of its tiles.
  `FoundIffTraceable` proves that the two agree.
- `BoggleSolver` (`solver.dfy`) is the class `Boggle` itself. Its fields
  `grid`, `dictionary` and `solutions` are updated in place, and a `CellSet`
  object plays the role of the `visited` set that `findWords` adds to and
  removes from. Each method is proved against a specification function:
  - `UpperTiles` and `Admitted` for the grid and the dictionary;
  - `Found` for one path attempt;
  - `OnGrid` and `Solutions` for the whole search.
- `Scenarios` (`scenarios.dfy`) restates the cases of `test_boggle_solver.py`.
  Each case is a method that builds the game and calls `GetSolution`. The
  outcome the test expects is that method's postcondition.

## Model

| member | source | states |
|---|---|---|
| BoggleSolver.Boggle.constructor | boggle_solver.py:2-5 | a new game has no solutions, the normalised grid and the admitted dictionary |
| BoggleSolver.Boggle.SetGrid | boggle_solver.py:7-11 | the grid becomes the input row by row with every tile upper-cased (loop invariant: the rows built so far) |
| BoggleSolver.UpperTiles | boggle_solver.py:7-11 | the normalised grid has the input's shape, and each tile is the upper-case form of the input tile |
| BoggleSolver.UpperTilesIdempotent | boggle_solver.py:7-11 | normalising an already normalised grid changes nothing |
| BoggleSolver.UpperTilesRectangular | boggle_solver.py:7-11 | normalising keeps a rectangular grid rectangular, with the same width |
| BoggleSolver.Boggle.SetDictionary | boggle_solver.py:14-21 | the dictionary becomes the set of admitted words (loop invariant: the words of the prefix seen so far) |
| BoggleSolver.Admitted | boggle_solver.py:14-21 | every kept word is upper case, has at least 3 letters, all alphabetic, and is the upper-case form of some input word; every input word of at least 3 letters, all alphabetic, is kept in upper case |
| Text.UpperFacts | boggle_solver.py:10 | upper-casing yields an upper-case string, is idempotent, and a string is all letters after upper-casing exactly when it was before |
| Text.UpperOfUpperCase | boggle_solver.py:17 | a string already in upper case is its own upper-case form |
| Text.UpperChar | boggle_solver.py:10 | one character upper-cased: never a lower-case letter, a letter exactly when the input is, unchanged unless a lower-case letter, and otherwise the capital at the same alphabet position |
| Text.Upper | boggle_solver.py:17 | `s.upper()`: the same length, each character upper-cased in place |
| Text.IsAlpha | boggle_solver.py:18 | `s.isalpha()`: non-empty and made of letters only (a definition; no ensures) |
| BoggleSolver.Admissible | boggle_solver.py:18 | the filter of `setDictionary`: at least 3 characters, all letters (a definition; no ensures) |
| Ordering.Below | boggle_solver.py:55 | Python's `<` on strings, the order `sorted` uses: compare from the left, a proper prefix first (a definition; its order laws are the Below lemmas) |
| Board.Found | boggle_solver.py:23-41 | what one call of `findWords` decides: out of bounds, visited, or a tile that is not the word's next slice fails; a tile completing the word succeeds; otherwise some neighbour must continue with the cell marked (a definition; specified by `Board.FoundIffTraceable`) |
| Board.FoundAmong | boggle_solver.py:36-40 | the first k of the nine `dr`, `dc` directions, the centre skipped, include one whose attempt succeeds (a definition; specified by `Board.FoundAmongWitness` and `Board.FoundAmongIntro`) |
| BoggleSolver.OnGrid | boggle_solver.py:52-54 | some attempt started from a cell of the grid with nothing visited traces the whole word (a definition; specified by `BoggleSolver.OnGridIffTrail`) |
| BoggleSolver.Solutions | boggle_solver.py:50-54 | the dictionary words on the grid, which the loops collect into `solutions` (a definition; specified by `BoggleSolver.SolutionsAreTraceable`) |
| BoggleSolver.CellSet.constructor | boggle_solver.py:54 | the fresh `set()` each start of `getSolution` passes as `visited`: no cell marked; `findWords` adds to and removes from its `cells` in place (lines 35 and 41) |
| Board.Width | boggle_solver.py:24 | `len(self.grid[0])`, the number of columns every bounds test and column loop uses, 0 for a grid with no rows (a definition; no ensures) |
| Board.InBounds | boggle_solver.py:24 | the bounds test: the row is within the rows and the column within the first row's width (a definition; no ensures) |
| Board.Tile | boggle_solver.py:28 | `self.grid[row][col]`, the tile at an in-bounds cell (a definition; no ensures) |
| Board.Neighbour | boggle_solver.py:36-40 | the k-th cell the `dr`, `dc` loops visit, row-major from the upper left (a definition; specified by `Board.NeighbourAt` and `Board.NeighbourAdjacent`) |
| BoggleSolver.FoundInRow | boggle_solver.py:53-54 | the column loop for one row: an attempt from one of its first c cells succeeds (a definition; specified by `BoggleSolver.FoundInRowIff`) |
| BoggleSolver.FoundInRows | boggle_solver.py:52-54 | the row loop: an attempt from a cell of one of the first r rows succeeds (a definition; specified by `BoggleSolver.FoundInRowsIff`) |
| BoggleSolver.Boggle.FindWords | boggle_solver.py:23-41 | the attempt at (row, col) adds the word to `solutions` exactly when `Found` holds; off the grid or on a visited cell nothing changes; `visited` is restored on return |
| BoggleSolver.Boggle.TryNeighbours | boggle_solver.py:35-40 | trying the eight neighbours in order adds the word exactly when one of them traces the rest of it; `visited` is unchanged afterwards |
| Board.FoundUnfold | boggle_solver.py:28-40 | an attempt at an unvisited in-bounds cell succeeds exactly when the tile matches the word's next slice and either ends the word or some neighbour continues with the cell marked |
| Board.SliceMatch | boggle_solver.py:30 | the clamped slice equals the tile exactly when the tile fits inside the word and matches it there |
| Board.Slice | boggle_solver.py:30 | Python's clamped slice: its length; the exact sub-sequence when the upper bound is in range; the rest of the string when only the lower bound is |
| Board.FoundAmongNext | boggle_solver.py:36-40 | adding direction k to the directions tried adds exactly the attempt from neighbour k, and skips the centre |
| Board.NeighbourAt | boggle_solver.py:36-40 | the k-th direction in the `dr`, `dc` loop order is the cell (row + dr, col + dc) |
| Board.NeighbourAdjacent | boggle_solver.py:36-40 | the eight directions other than the centre reach exactly the adjacent cells |
| Board.UnvisitedShrinks | boggle_solver.py:35 | marking an unvisited in-bounds cell removes exactly that cell from the unvisited ones, so their number drops by one and the recursion ends |
| Board.FoundIffTraceable | boggle_solver.py:23-41 | the backtracking attempt succeeds exactly when some trail of distinct adjacent unvisited cells, starting at that cell, spells the rest of the word |
| Board.FoundSound | boggle_solver.py:23-41 | a successful attempt yields a trail spelling the rest of the word |
| Board.TrailFound | boggle_solver.py:23-41 | a trail spelling the rest of the word makes the attempt from its first cell succeed |
| Board.FoundAmongWitness | boggle_solver.py:36-40 | when some direction succeeds, one particular non-centre direction does |
| Board.FoundAmongIntro | boggle_solver.py:36-40 | a succeeding non-centre direction makes the direction loop succeed |
| Board.TrailBound | boggle_solver.py:26-27 | a trail never repeats a cell, so it is no longer than the number of unvisited cells |
| Board.SpelledLength | boggle_solver.py:30-31 | a trail spells at most k letters per cell when every tile has at most k letters |
| Board.SpelledFrom | boggle_solver.py:30-31 | every letter a trail spells comes from the tile of one of its cells |
| BoggleSolver.Boggle.SearchGrid | boggle_solver.py:52-54 | starting an attempt from every cell with a fresh `visited` adds the word exactly when it lies on the grid |
| BoggleSolver.FoundInRowsIff | boggle_solver.py:52-54 | the row-major scan succeeds exactly when some cell in the rows scanned succeeds |
| BoggleSolver.FoundInRowIff | boggle_solver.py:53-54 | the scan along one row succeeds exactly when some cell in the columns scanned succeeds |
| BoggleSolver.Boggle.GetSolution | boggle_solver.py:47-55 | the result is strictly ascending, and holds exactly the dictionary words on the grid, each once, which are exactly the dictionary words some trail of distinct adjacent cells spells; with no rows or no words it is empty and `solutions` is untouched, otherwise `solutions` becomes that set |
| BoggleSolver.SolutionsAdd | boggle_solver.py:51-54 | searching one more word adds it to the solutions exactly when it is on the grid |
| BoggleSolver.OnGridIffTrail | boggle_solver.py:47-55 | a word lies on the grid exactly when some trail of distinct adjacent cells spells it |
| BoggleSolver.SolutionsAreTraceable | boggle_solver.py:47-55 | a word is a solution exactly when it is in the dictionary and some trail spells it |
| BoggleSolver.OnGridLength | boggle_solver.py:26-27 | since no tile is reused, a word on the grid has at most k letters per grid cell when tiles have at most k letters |
| BoggleSolver.OnGridLetters | boggle_solver.py:30 | every letter of a word on the grid occurs in some tile |
| Ordering.SortedList | boggle_solver.py:55 | `sorted(list(s))`: strictly ascending, the same elements as the set, each exactly once |
| Ordering.Least | boggle_solver.py:55 | the least element of a non-empty set of strings, below every other element |
| Ordering.AscendingUnique | boggle_solver.py:55 | two strictly ascending lists with the same elements are equal, so the sorted result is determined by the set |
| Ordering.BelowIrreflexive | boggle_solver.py:55 | no string is below itself |
| Ordering.BelowTransitive | boggle_solver.py:55 | string order is transitive |
| Ordering.BelowTotal | boggle_solver.py:55 | any two different strings are ordered one way or the other |
| Ordering.BelowAsymmetric | boggle_solver.py:55 | string order is asymmetric |
| Scenarios.SolveTwice | boggle_solver.py:50 | calling `getSolution` twice on one game gives the same list, because `solutions` is reset first |
| Scenarios.EmptyGrid | test_boggle_solver.py:3-7 | a grid with no rows gives an empty result |
| Scenarios.Number | test_boggle_solver.py:9-13 | words containing digits are dropped, so the result is empty |
| Scenarios.SpecialTile | test_boggle_solver.py:15-20 | the "Qu" tile matches two letters, so "QUART" is found |
| Scenarios.QuartSolved | test_boggle_solver.py:15-20 | "QUART" is a solution of the normalised "Qu" grid |
| Scenarios.NoWordsFound | test_boggle_solver.py:22-26 | words whose letters are not on the grid give an empty result |
| Scenarios.NotOnGrid | test_boggle_solver.py:22-26 | a word whose first letter is on no tile is not on the grid |
| Scenarios.WordLength | test_boggle_solver.py:28-34 | the two-letter word is not returned, and the three-letter word along the row is |
| Scenarios.TileReuse | test_boggle_solver.py:36-40 | "ABA" needs a tile twice on a two-cell grid, so it is not found |
| Scenarios.EvenGrid | test_boggle_solver.py:41-58 | a column, a diagonal and a row of the 3x3 grid are all found |
| Scenarios.UpperCase | test_boggle_solver.py:62-71 | a lower-case grid and word are upper-cased, and "ABCD" is found |
| Scenarios.RawI | test_boggle_solver.py:73-78 | the one-letter word "I" is not returned |
| Scenarios.AlreadyUpper | boggle_solver.py:7-11 | a grid whose tiles are already upper case, ragged or not, is kept as it is |
| Scenarios.Line | boggle_solver.py:23-41 | three distinct, adjacent cells whose tiles spell a word put that word on the grid |
| Scenarios.Path4 | boggle_solver.py:23-41 | four distinct cells, each adjacent to the next, whose tiles spell a word put that word on the grid |
| Scenarios.ZigZag | boggle_solver.py:23-41 | on a 2 x 2 grid, the four tiles read top row, then bottom row, spell a word on the grid |

## Left out

- `main` (boggle_solver.py:57-67) only prints the result for one fixed game. Printing is not modelled.
- `str.upper()` and `str.isalpha()` are modelled for ASCII only. Python's Unicode case mapping is left out: for example, "ß" becoming "SS", and non-Latin letters counting as alphabetic.
- A ragged grid (rows of different lengths) makes the source raise `IndexError` or skip cells. `Boggle.FindWords`, `Boggle.SearchGrid` and `Boggle.GetSolution` require a rectangular grid instead.
- Tiles and words are Python strings. The model uses `seq<char>` and does not model non-string tiles.
- Python iterates a `set` in an order of its own. `Boggle.GetSolution` takes the dictionary words in an arbitrary order (`:|`). The result does not depend on that order, because it is sorted.
- `sorted` is Python's built-in sort. It is modelled by `Ordering.SortedList`, a selection of the least remaining element, and proved against the same ordering.
- `Boggle.FindWords`, `Boggle.TryNeighbours` and `Boggle.SearchGrid` return a ghost boolean that reports what was found. It exists only for the proof: the source returns nothing.
- The two direction loops of `findWords` are the separate method `Boggle.TryNeighbours`, and the two position loops of `getSolution` are `Boggle.SearchGrid`. The statements and their order are those of the source.
- `visited` is a Python `set` of tuples passed by reference. It is modelled as a `CellSet` object whose `cells` field is updated in place.
- test_boggle_solver.py is not a runnable test module: its functions take `self` outside a class, and the file has no import of `Boggle`. Its cases are restated as `Scenarios` methods regardless.
- `test_raw_i` checks a misspelt name (`solutions`). `Scenarios.RawI` states the evident intent, that "I" is not in the result.
- `test_invalid_word` (test_boggle_solver.py:80-85) builds its grid with a malformed expression (`["A","B"]["C","D"]` indexes a list with a tuple), so Python fails before the solver runs. It has no scenario.
- `test_upper_case` builds and solves the same game twice. `Scenarios.UpperCase` does it once, and `Scenarios.SolveTwice` proves that a second call gives the same list.
