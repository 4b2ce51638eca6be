# Number puzzle engine

A Dafny model of the puzzle engine of a terminal sliding-tile puzzle (the
N-puzzle, 3×3 by default). The board is a `size × size` grid held in
row-major order in the vector `pieces`, with `0` as the blank and
`blank_index` recording where the blank is. The engine consists of:

- the neighbour arithmetic `getIndexUp/Down/Left/Right`, which returns the
  adjacent index or the sentinel `-1` at the grid edge;
- four moves, named by the direction the blank appears to travel, each of
  which swaps the blank with the opposite neighbour in place (Up pulls the
  tile *below* the blank) or does nothing at the edge;
- the completion test `isComplete`;
- the constructor's board set-up: tiles `1 .. size²-1` in ascending order,
  shuffled, the first two exchanged unconditionally, then the blank appended
  in the last cell.

Layout:

- `grid.dfy`, module `Grid`: rows, columns and the four neighbour functions,
  each with its geometric meaning (row/column of the result) as a contract.
- `tiles.dfy`, module `Tiles`: arrangements of `0 .. n-1` (`IsPermutation`,
  defined by multisets), `Swap`, the solved arrangement and the completion
  condition `InOrder`.
- `moves.dfy`, module `Moves`: the board as a value (`Board`), the board
  invariant `ValidBoard`, one move as a pure function `Move`, the initial
  board `Initial`, and the lemmas about them.
- `puzzle.dfy`, module `Engine`: class `Puzzle` with the fields `size`,
  `blankIndex` and `pieces: array<int>`, the object invariant `Valid()`, the
  constructor, the four move methods and the scanning `IsComplete`. Every
  method is proved against the functions of `Moves` and `Tiles`.

The random shuffle is represented by its outcome: the constructor receives
the order `shuffled` that `std::random_shuffle` produced, and requires only
what the library guarantees, that it is a rearrangement of the ascending
tiles.

`moveUp` takes its tile from `getIndexDown` (puzzle.cc:116), so it is a
no-op when the blank is in the bottom row; likewise `moveDown` in the top
row, `moveLeft` in the rightmost column and `moveRight` in the leftmost
column.

## Model

| member | source | states |
|---|---|---|
| Grid.IndexUp | puzzle.cc:39 | returns -1 exactly in row 0; otherwise `index - size`, inside the grid, one row up in the same column |
| Grid.IndexDown | puzzle.cc:40 | returns -1 exactly in the last row; otherwise `index + size`, inside the grid, one row down in the same column |
| Grid.IndexLeft | puzzle.cc:41 | returns -1 exactly in column 0; otherwise `index - 1`, inside the grid, same row, one column left |
| Grid.IndexRight | puzzle.cc:42 | returns -1 exactly in the last column; otherwise `index + 1`, inside the grid, same row, one column right |
| Grid.UpDownInverse | puzzle.cc:39-40 | up then down, and down then up, return to the starting cell whenever the first step exists |
| Grid.LeftRightInverse | puzzle.cc:41-42 | left then right, and right then left, return to the starting cell whenever the first step exists |
| Grid.NeighboursAdjacent | puzzle.cc:39-42 | every neighbour that exists shares a side with the cell |
| Tiles.Range | puzzle.cc:65-66 | the ascending values `lo .. hi-1`: length `hi - lo` and element k equal to `lo + k` |
| Tiles.PermutationDistinct | puzzle.cc:26 | an arrangement of `0 .. n-1` holds no value twice |
| Tiles.Swap | puzzle.cc:120 | exchanging two cells keeps the multiset of tiles and changes no other cell |
| Tiles.SolvedIsPermutation | puzzle.cc:163-169 | the solved arrangement `1, …, n-1, 0` is an arrangement of `0 .. n-1` with the blank last |
| Tiles.CompleteIffSolved | puzzle.cc:163-169 | on an arrangement of `0 .. n-1`, "every cell but the last holds its index + 1" holds exactly for `1, …, n-1, 0` |
| Tiles.TranspositionNotComplete | puzzle.cc:163-169 | exchanging any two cells of the solved arrangement fails the completion test |
| Moves.BlankIsUnique | puzzle.cc:25-26 | on a valid board the blank index is the only cell holding 0 |
| Moves.Source | puzzle.cc:116 | the cell a move takes its tile from is -1 or an in-grid cell adjacent to the blank: for Up the cell below it, for Down the cell above, for Left the cell to its right, for Right the cell to its left |
| Moves.Move | puzzle.cc:114-161 | a move keeps the board shape and the multiset of tiles |
| Moves.MovePreservesValid | puzzle.cc:114-161 | every move keeps the board invariant: a permutation of `0 .. size²-1` with 0 at the blank index |
| Moves.MoveNoOpIffAtEdge | puzzle.cc:116-118 | a move leaves tiles and blank unchanged exactly when the blank is on the edge that stops it (bottom row for Up, top row for Down, rightmost column for Left, leftmost column for Right) |
| Moves.MoveSlidesOneTile | puzzle.cc:120-121 | a move that is not stopped puts the neighbour's (non-blank) tile into the old blank cell, 0 into the neighbour cell, moves the blank index to the neighbour, and changes no other cell |
| Moves.MoveThenOppositeRestores | puzzle.cc:114-161 | a move that is not stopped followed by the opposite move restores the tiles and the blank index (Up/Down, Down/Up, Left/Right, Right/Left) |
| Moves.Initial | puzzle.cc:68-70 | the initial board has one more cell than the shuffled tiles, the blank in that last cell |
| Moves.InitialMultiset | puzzle.cc:68-69 | the initial board holds exactly the shuffled tiles and one blank |
| Moves.InitialValid | puzzle.cc:65-70 | for every shuffle outcome, the first-two exchange and the appended blank give a valid board with the blank at `size²-1` |
| Moves.ExchangeFirstTwo | puzzle.cc:68-70 | a shuffle outcome with its first two tiles exchanged is a rearrangement of the same tiles, and the constructor's exchange and appended blank turn it back into those tiles followed by the blank |
| Moves.InitialMayBeSolved | puzzle.cc:68 | the unconditional exchange does not keep the solved board out: on every board of n ≥ 3 cells, `2, 1, 3, …, n-1` is a rearrangement of the tiles `1 .. n-1` (so a possible shuffle outcome) and it starts the game solved |
| Moves.MoveRightExample | puzzle.cc:151-161 | on `[1..7, 0, 8]` with blank 7, Right gives `[1..6, 0, 7, 8]` with blank 6 |
| Moves.MoveDownTopRowExample | puzzle.cc:127-137 | on `[0, 1, …, 8]` with blank 0, Down is a no-op |
| Engine.BoardSize | puzzle.cc:45 | the grid side is the requested size, raised to 3 when smaller |
| Engine.Rearrange | puzzle.cc:67 | after the shuffle the first m cells hold the shuffle outcome and the rest are untouched |
| Engine.Arrange | puzzle.cc:65-70 | the ascending fill, the shuffle, the first-two exchange and the appended blank yield a fresh array holding `Initial(shuffled)` |
| Engine.Puzzle.constructor | puzzle.cc:45-70 | builds a valid board of side `max(size, 3)` equal to `Initial(shuffled)`, blank index `size²-1` |
| Engine.Puzzle.MoveUp | puzzle.cc:114-125 | keeps `Valid()`; the new board is `Move(size, old board, Up)` (tile below the blank slides up) |
| Engine.Puzzle.MoveDown | puzzle.cc:127-137 | keeps `Valid()`; the new board is `Move(size, old board, Down)` (tile above the blank slides down) |
| Engine.Puzzle.MoveLeft | puzzle.cc:139-149 | keeps `Valid()`; the new board is `Move(size, old board, Left)` (tile right of the blank slides left) |
| Engine.Puzzle.MoveRight | puzzle.cc:151-161 | keeps `Valid()`; the new board is `Move(size, old board, Right)` (tile left of the blank slides right) |
| Engine.Puzzle.IsComplete | puzzle.cc:163-169 | returns true exactly when every cell but the last holds its index + 1, and so exactly when the board is `1, …, size²-1, 0` |

## Left out

- Terminal rendering with ncurses (`initscr`, `newwin`, `box`, `printw`, `wrefresh`, `displayPiece`, and the screen-coordinate helpers `getY`/`getX`): display only, no engine state.
- The key-reading loop `start()` and `main`: they only read key codes and dispatch to the moves and the completion test.
- Randomness: `myrandom`, `std::random_device` and the distribution of `std::random_shuffle` are not modelled; the shuffle outcome is a constructor parameter constrained only to be a rearrangement of the ascending tiles.
- Engine.Rearrange: models only what `std::random_shuffle` promises about its result, not the library's own swap loop.
- Solvability and permutation parity: the exchange of the first two tiles is unconditional, and the model states no reachability property about the starting board.
- The leftover debug loop writing to `dbg`, which refers to a stream that is commented out.
- Fixed-width `int` arithmetic: `size * size` and the index arithmetic are unbounded integers; overflow for very large requested sizes is not modelled.
- The `-1` sentinel is kept as in the code rather than replaced by an option type.
