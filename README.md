# Othello engine core, modelled in Dafny

This project models the core of a small Othello (Reversi) engine written in
Rust, and proves properties of that model. The engine has five parts:

- **Move generator and position model** (`src/move_generator.rs`). A position
  is a 10x10 grid of characters: `'O'` is white (the maximiser), `'X'` is black
  and `'E'` is an empty cell. The playable 8x8 area is surrounded by a ring of
  empty cells. The generator parses a 65-character position string and builds
  child positions with `add_piece`. It lists legal placements with `getMoves`:
  a square is first filtered with `isCandidate`, then checked with per-direction
  bracket scans. It can also recover a move from two boards with
  `get_move_from_board_diff`.
- **Static evaluator** (`src/evaluator.rs`). It computes five integer features:
  piece count, corners, corner-adjacent squares, immediate mobility and
  potential (frontier) mobility. Each is normalised as `100*(a-b)/(a+b)` with
  Rust's truncating division, and the five are combined by a weighted sum with
  fixed default weights.
- **Alpha-beta search** (`src/alphabeta.rs`). It has three layers:
  - fail-soft minimax with alpha-beta cut-offs;
  - a root pass that memoises child values in a map keyed by the board's text
    and records a score on every child;
  - an iterative-deepening driver that re-sorts the root children between
    passes.
- **Older board and row scanner** (`src/board.rs`, `src/moves.rs`). The board
  is a plain sequence of rows with `'e'` for empty, white `'w'` and black `'b'`.
  This part has:
  - `add_piece`, `empty_board`, `start_board`, `read` and `transpose`;
  - a one-pass row scanner `valid_pos_in_row`, also applied to the transposed
    board to find column moves.

## Modules

| module | file | models |
|---|---|---|
| `Wrappers` | `Wrappers.dfy` | `Option`; `Result` whose `Panic` stands for a Rust panic |
| `MoveGenerator` | `MoveGenerator.dfy` | `src/move_generator.rs` |
| `Evaluator` | `Evaluator.dfy` | `src/evaluator.rs` |
| `AlphaBeta` | `AlphaBeta.dfy` | `src/alphabeta.rs` |
| `Board` | `Board.dfy` | `src/board.rs` |
| `Moves` | `Moves.dfy` | `src/moves.rs` |

### How the model is built

Each loop of the Rust code is a Dafny method with a `while` or `for` loop. Each
method is proved equal to a specification function, for example
`GetMoves` against `Moves`, `PotentialMobility` against `FrontierBalance` and
`ValidPosInRow` against `PosInRow`. Lemmas then state what the source promises
about those functions. The search is stated over its own reference
definition: depth-limited `Minimax`.

The model keeps the code's behaviour where it departs from the natural
reading:
- `isMove` never runs the West scan (`WestIsNeverConsulted`).
- `checkEast` stops before column 8 (`EastStopsBeforeColumnEight`).
- `getMoves` reports 0-based coordinates, while `add_piece` writes the raw
  index (`MoveWritesRawIndex`).
- In `potential_mobility`, `below` reads the row above, so interior cells only
  test the cell above (`FrontierInterior`).
- Ties at the root go to the last best child (`AlphaBeta.BestSoFar` with
  `>=`/`<=`).
- Memoised values are reused whatever the depth they were computed at.
  After the first pass, every root score is the depth-1 minimax value
  (`AlphabetaMoveGen`).
- `valid_pos_in_row` accepts a square next to a leading opponent run even
  when nothing brackets it (`OpensWithOpponentExample`).

`Move::new` in both files is the datatype constructor `Move(...)`.

Rust's `/` truncates toward zero, so it is modelled by `Evaluator.TruncDiv`.
Every run-away index in `valid_pos_in_row` is a panic, and is modelled as the
`Panic` result.

## Model

| member | source | states |
|---|---|---|
| MoveGenerator.Empty | src/move_generator.rs:20-24 | every one of the 100 cells is empty and the maximiser is to move |
| MoveGenerator.New | src/move_generator.rs:26-43 | a string whose length is not 65 gives the empty position; otherwise the maximiser moves iff the first character is `'O'`, character i (1..64) lands at row (i-1)/8+1, column (i-1)%8+1, and the ring stays empty |
| MoveGenerator.SquareUnique | src/move_generator.rs:36-40 | the index-to-square layout of `new` is a bijection between 1..64 and the playable squares |
| MoveGenerator.AddPiece | src/move_generator.rs:45-49 | the child has the piece on the named cell, every other cell unchanged and the side to move flipped |
| MoveGenerator.MakeMove | src/move_generator.rs:58-63 | no move gives no position; a move gives exactly `add_piece` of its row, column and player |
| MoveGenerator.SquareKindsDisjoint | src/move_generator.rs:235-255 | no cell is both an opponent square and an own square, and neither is free |
| MoveGenerator.RayFindsBracket | src/move_generator.rs:95-232 | from a given step, the scan loop succeeds iff, within the cells it visits, it meets an own piece and every cell before that is neither free nor own |
| MoveGenerator.CheckNorth | src/move_generator.rs:95-109 | the North loop decides exactly the North bracket scan up to row 0 |
| MoveGenerator.CheckEast | src/move_generator.rs:111-125 | the East loop decides the East bracket scan, which stops at column 7 |
| MoveGenerator.CheckSouth | src/move_generator.rs:127-141 | the South loop decides exactly the South bracket scan up to row 8 |
| MoveGenerator.CheckWest | src/move_generator.rs:143-158 | the West loop decides exactly the West bracket scan |
| MoveGenerator.CheckNorthEast | src/move_generator.rs:160-177 | the North-East loop decides exactly the North-East bracket scan |
| MoveGenerator.CheckSouthEast | src/move_generator.rs:179-195 | the South-East loop decides exactly the South-East bracket scan |
| MoveGenerator.CheckSouthWest | src/move_generator.rs:197-213 | the South-West loop decides exactly the South-West bracket scan |
| MoveGenerator.CheckNorthWest | src/move_generator.rs:215-232 | the North-West loop, whose guard ignores the step, decides the scan that the ring cell ends |
| MoveGenerator.IsMove | src/move_generator.rs:91-93 | a square is a move iff one of the seven scans other than West brackets |
| MoveGenerator.ReporterPerSquare | src/move_generator.rs:75-86 | each square contributes at most one move, and only a move naming that square |
| MoveGenerator.CollectMembers | src/move_generator.rs:75-86 | the row-major sweep collects exactly the moves reported at the squares it has passed |
| MoveGenerator.CollectOrdered | src/move_generator.rs:75-86 | the sweep's moves are in strictly increasing row-major order |
| MoveGenerator.MoveAtCharacterised | src/move_generator.rs:77-83 | a square yields a move iff it is a candidate and legal, and the move carries the side to move |
| MoveGenerator.MovesCharacterised | src/move_generator.rs:67-89 | `getMoves` lists exactly the 0-based squares in 0..7 whose inner cell is a candidate and legal, carrying `'O'` iff the maximiser moves, in row-major order with no repeated square |
| MoveGenerator.MoveWritesRawIndex | src/move_generator.rs:45-49 | making a generated move writes the raw 0-based index and leaves the inner cell it was checked at empty; a move in row or column 0 writes the border ring |
| MoveGenerator.MoveIsLegal | src/move_generator.rs:67-89 | every generated move is on the board, carries the side to move, and its inner cell is a legal candidate |
| MoveGenerator.MarkCandidates | src/move_generator.rs:69-74 | the candidates table holds `isCandidate` of every inner cell |
| MoveGenerator.VisitSquare | src/move_generator.rs:77-83 | one step of the move loop appends exactly that square's move, if any |
| MoveGenerator.GetMoves | src/move_generator.rs:67-89 | the nested loops produce exactly the reference list of moves |
| MoveGenerator.FirstDiffIndex | src/move_generator.rs:289-296 | the first index where two rows differ, with all earlier entries equal |
| MoveGenerator.DiffFromCharacterised | src/move_generator.rs:277-286 | from a given row on, the recovered move is the first differing cell in row-major order and carries the new value; there is none iff the remaining rows agree |
| MoveGenerator.BoardDiffCharacterised | src/move_generator.rs:277-286 | the recovered move is the first row-major cell where the boards differ and carries the `to` value; there is none iff the boards are equal |
| MoveGenerator.VecDiffers | src/move_generator.rs:289-296 | rows differ iff some index differs; then the index is the first such and the value is the new one; otherwise index -1 and an empty cell |
| MoveGenerator.GetMoveFromBoardDiff | src/move_generator.rs:277-286 | the method returns the recovered move: none iff the boards are equal, else a cell where they differ with the `to` value |
| MoveGenerator.RayMirrored | src/move_generator.rs:95-232 | swapping every colour and the side to move leaves each ray scan's answer unchanged |
| MoveGenerator.ScanMirrored | src/move_generator.rs:95-232 | swapping colours and side leaves every direction scan unchanged |
| MoveGenerator.LegalMirrored | src/move_generator.rs:91-93 | swapping colours and side leaves candidacy and legality of every square unchanged |
| MoveGenerator.MoveAtMirrored | src/move_generator.rs:77-83 | swapping colours and side recolours the move of each square |
| MoveGenerator.CollectRecoloured | src/move_generator.rs:75-86 | sweeping recoloured reports gives the recoloured sweep |
| MoveGenerator.MovesMirrored | src/move_generator.rs:67-89 | the moves of the colour-swapped position are the same squares, recoloured |
| MoveGenerator.WestIsNeverConsulted | src/move_generator.rs:91-93 | a square whose only bracket is to the West is not a move |
| MoveGenerator.EastStopsBeforeColumnEight | src/move_generator.rs:111-125 | an own piece in column 8 closing an East run is not seen |
| MoveGenerator.EastClosesBeforeColumnEight | src/move_generator.rs:115-122 | for every position and square, a successful East scan is closed by an own piece in columns c+2 to 7, never in column 8 |
| Evaluator.TruncDiv | src/evaluator.rs:69 | Rust's truncating quotient lies between 0 and the dividend |
| Evaluator.Normalised | src/evaluator.rs:69 | `100*(a-b)/(a+b)` lies in [-100,100]; it is positive only if a > b and negative only if a < b, and conversely when a+b <= 100; it is 0 when equal and ±100 when one side is absent |
| Evaluator.QuotientBound | src/evaluator.rs:69 | a truncated quotient of a bounded dividend stays within [-100,100] and keeps its sign |
| Evaluator.Percentage | src/evaluator.rs:406-409 | the guarded normalisation returns the normalised difference, 0 when both counts are 0 |
| Evaluator.NormalisedAntisymmetric | src/evaluator.rs:69 | swapping the two counts negates the normalised difference |
| Evaluator.PieceCountValue | src/evaluator.rs:56-70 | the nested loops return the normalised difference of white and black piece counts; the board must hold a piece, since the division is unguarded |
| Evaluator.CornersHeld | src/evaluator.rs:458-486 | a player holds at most the four corners |
| Evaluator.CornerAdjacentHeld | src/evaluator.rs:82-147 | a player holds at most the twelve corner-adjacent squares |
| Evaluator.HeldDisjoint | src/evaluator.rs:82-147 | together the players hold at most four corners and twelve corner-adjacent squares |
| Evaluator.CountSquare | src/evaluator.rs:467-471 | one `match` adds one to the counter of the corner's owner and nothing otherwise |
| Evaluator.CornersValue | src/evaluator.rs:458-493 | the corner feature is the normalised difference of white and black corners, 0 when none is held |
| Evaluator.CornerBalanceSign | src/evaluator.rs:458-493 | the corner feature is positive iff white holds more corners and negative iff black does |
| Evaluator.GivingAwayCorners | src/evaluator.rs:82-150 | the corner-adjacent feature is the negated normalised difference over the twelve squares |
| Evaluator.CornerAdjacentBalanceSign | src/evaluator.rs:82-150 | the corner-adjacent feature is negative iff white holds more of those squares and positive iff black does |
| Evaluator.FrontierAt | src/evaluator.rs:172-402 | one piece contributes at most five empty neighbours |
| Evaluator.FrontierInterior | src/evaluator.rs:251-281 | an interior piece counts only the cell above, twice, and the real cell below never matters |
| Evaluator.PotentialMobility | src/evaluator.rs:158-410 | the nested loops return the normalised frontier balance, where empties next to black count for white and next to white for black |
| Evaluator.ImmediateMobility | src/evaluator.rs:418-447 | the normalised difference of white's and black's move counts, independent of the side to move |
| Evaluator.WeightedNegates | src/evaluator.rs:41-47 | negating all five features negates the weighted sum |
| Evaluator.Evaluate | src/evaluator.rs:41-47 | the evaluation is the weighted sum of the five features and depends only on the cells |
| Evaluator.EvaluationBound | src/evaluator.rs:24-47 | with the default weights the evaluation lies in [-550000, 550000] |
| Evaluator.CountRowMirrored | src/evaluator.rs:59-67 | swapping colours swaps the white and black counts of a row |
| Evaluator.CountRowsMirrored | src/evaluator.rs:59-67 | swapping colours swaps the white and black counts of the board |
| Evaluator.FrontierRowMirrored | src/evaluator.rs:161-405 | swapping colours swaps the frontier counts of a row |
| Evaluator.FrontierRowsMirrored | src/evaluator.rs:161-405 | swapping colours swaps the frontier counts of the board |
| Evaluator.PieceBalanceMirrored | src/evaluator.rs:56-70 | swapping colours negates the piece feature |
| Evaluator.HoldsMirrored | src/evaluator.rs:467-471 | swapping the colour of a square swaps which counter it feeds |
| Evaluator.CornersMirrored | src/evaluator.rs:458-493 | swapping colours negates the corner feature |
| Evaluator.CornerAdjacentMirrored | src/evaluator.rs:82-150 | swapping colours negates the corner-adjacent feature |
| Evaluator.FrontierBalanceMirrored | src/evaluator.rs:158-410 | swapping colours negates the frontier feature |
| Evaluator.MobilityBalanceMirrored | src/evaluator.rs:418-447 | swapping colours negates the mobility feature |
| Evaluator.EvaluationMirrored | src/evaluator.rs:41-47 | swapping colours negates the evaluation |
| AlphaBeta.ScoreBounded | src/alphabeta.rs:12-13 | every evaluation lies strictly inside (`VERY_LOW`, `VERY_HIGH`) |
| AlphaBeta.ScoreIsSearchLeaf | src/alphabeta.rs:161-167 | the default evaluation is a valid leaf valuation for the search |
| AlphaBeta.Minimax | src/alphabeta.rs:140-159 | the reference depth-limited minimax value lies in [`VERY_LOW`, `VERY_HIGH`] |
| AlphaBeta.BestMaxBounds | src/alphabeta.rs:169-184 | the running maximum never decreases and bounds every child examined |
| AlphaBeta.BestMinBounds | src/alphabeta.rs:185-201 | the running minimum never increases and bounds every child examined |
| AlphaBeta.FullWindowIsExact | src/alphabeta.rs:140-159 | a fail-soft value under the full window is the exact value |
| AlphaBeta.MaxStep | src/alphabeta.rs:172-182 | one child of a max node keeps the fail-soft invariant of the running maximum and alpha |
| AlphaBeta.MinStep | src/alphabeta.rs:188-198 | one child of a min node keeps the fail-soft invariant of the running minimum and beta |
| AlphaBeta.Alphabeta | src/alphabeta.rs:152-202 | at depth 0, at game end or past the deadline the result is the leaf evaluation; otherwise, without a deadline, it is a fail-soft bound of minimax inside (alpha, beta) and equals minimax under the full window |
| AlphaBeta.MaxNode | src/alphabeta.rs:169-184 | a max node returns a fail-soft bound of the best child value; a childless one returns `VERY_LOW` |
| AlphaBeta.MaxChild | src/alphabeta.rs:171-183 | one loop step searches the child: its value is the child's evaluation at depth 1 or game end, and fail-soft for the child's minimax value in (a, beta) without a deadline; the new running value is the larger of the child's value and the old one (`>=`); it cuts iff the value reaches beta, and alpha rises only to a value below beta |
| AlphaBeta.MinNode | src/alphabeta.rs:185-201 | a min node returns a fail-soft bound of the worst child value; a childless one returns `VERY_HIGH` |
| AlphaBeta.MinChild | src/alphabeta.rs:187-199 | one loop step searches the child: its value is the child's evaluation at depth 1 or game end, and fail-soft for the child's minimax value in (alpha, b) without a deadline; the new running value is the smaller of the child's value and the old one (`<=`); it cuts iff the value falls to alpha, and beta falls only to a value above alpha |
| AlphaBeta.ScoreChild | src/alphabeta.rs:89-103 | a stored value is reused unchanged; otherwise the full-window search value is stored under the child's key; no entry is overwritten |
| AlphaBeta.RescoredStep | src/alphabeta.rs:104 | writing a child's score keeps every other child |
| AlphaBeta.RootTableStep | src/alphabeta.rs:89-104 | the memo table after one more child holds that child's key and its score |
| AlphaBeta.BestSoFarStep | src/alphabeta.rs:105-108 | the root keeps the best value so far, and a tie moves the choice to the later child |
| AlphaBeta.VisitChild | src/alphabeta.rs:88-109 | one root child is scored from the memo or the search, and the best-so-far and memo invariants are kept |
| AlphaBeta.AlphabetaAtRoot | src/alphabeta.rs:74-138 | no children gives no move; otherwise every child is scored, the memo contains every child's key with old entries kept, and the move leads to the last best child; without a deadline each score is minimax when the memo was exact |
| AlphaBeta.Swap | src/alphabeta.rs:49-53 | two adjacent children trade places and the multiset is kept |
| AlphaBeta.InsertAt | src/alphabeta.rs:49-53 | one insertion step extends the ordered prefix and keeps the multiset |
| AlphaBeta.SortByScore | src/alphabeta.rs:49-53 | the children are a permutation sorted descending by score for the maximiser and ascending for the minimiser |
| AlphaBeta.Positions | src/alphabeta.rs:35 | the positions of the children, in order |
| AlphaBeta.PositionsAppend | src/alphabeta.rs:35 | positions of a concatenation are the concatenated positions |
| AlphaBeta.PositionsPermuted | src/alphabeta.rs:49-53 | permuting the children permutes their positions |
| AlphaBeta.PermutedKeeps | src/alphabeta.rs:49-53 | sorting keeps the positions, the lead child and the exact scores |
| AlphaBeta.ChosenLeads | src/alphabeta.rs:105-108 | the chosen child has a best score among all children |
| AlphaBeta.ScoredAtOne | src/alphabeta.rs:88-104 | after a root pass every score is the depth-1 minimax value, whatever the pass's depth, because memoised values are reused |
| AlphaBeta.ScorePass | src/alphabeta.rs:74-138 | one root pass keeps the children's positions and returns the move to a best child |
| AlphaBeta.DeepeningPass | src/alphabeta.rs:40-53 | one pass of the driver scores, chooses and re-sorts the children by a permutation |
| AlphaBeta.AlphabetaMoveGen | src/alphabeta.rs:27-57 | at most `max_depth` passes from depth 1 upward, none if time is up at the start; the last pass's move leads the ordered children, which are a permutation of the root's children; without a deadline all passes run and every score is the depth-1 minimax value |
| Board.AddPiece | src/board.rs:7-18 | within bounds only the named cell changes and dimensions are kept; out of bounds the copy is identical |
| Board.EmptyBoard | src/board.rs:20-25 | the requested number of rows and columns, all `'e'` |
| Board.StartBoard | src/board.rs:27-34 | an 8x8 board with `'w'` at (3,3) and (4,4), `'b'` at (3,4) and (4,3), and `'e'` elsewhere |
| Board.CursorAdvances | src/board.rs:49-60 | each byte moves the reading cursor strictly forward |
| Board.OneWriter | src/board.rs:49-60 | no square is written by two bytes |
| Board.CellAfterCharacterised | src/board.rs:49-60 | a square holds the byte written at it, and `'e'` when none is |
| Board.Read | src/board.rs:44-64 | a non-empty text yields an 8x8 board whose in-bounds squares hold the bytes placed there by the row/column cursor, out-of-bounds bytes dropped |
| Board.Transpose | src/board.rs:68-79 | entry (i, j) of the result is entry (j, i) of the board |
| Board.TransposeInvolution | src/board.rs:68-79 | transposing a non-empty rectangular board twice gives it back |
| Board.TransposeAddPiece | src/board.rs:7-18 | on a square board, placing then transposing equals transposing then placing at the mirrored square |
| Moves.MakeMove | src/moves.rs:17-22 | no move gives no board; a move gives `add_piece` of its row, column and player: dimensions kept, only the named cell set when both coordinates are below the row count, and the board unchanged otherwise |
| Moves.RunEnd | src/moves.rs:74-76 | the end of a run: every earlier cell is in the run and the cell there is not |
| Moves.PosInRow | src/moves.rs:69-115 | at most one index, which is an empty cell of the row; an all-empty or empty row gives none |
| Moves.SkipRun | src/moves.rs:89-91 | the scan panics iff the run reaches the end of the row, and otherwise stops at the run's end |
| Moves.ValidPosInRow | src/moves.rs:69-115 | the cursor loops compute the reference row scan, panics included |
| Moves.OpponentFirst | src/moves.rs:84-96 | when the first piece, at k > 0, is the opponent's, the result is [k-1] iff the opponent run from k ends on a player piece, and a panic iff it reaches the end |
| Moves.PosInRowSound | src/moves.rs:84-111 | a returned square brackets an opponent run with a player piece unless the row opens with an opponent piece |
| Moves.OpensWithOpponentScan | src/moves.rs:97-111 | a row opening with an opponent piece returns the empty cell that ends the first opponent run |
| Moves.OpensWithOpponentExample | src/moves.rs:97-111 | in `['w','e']` for `'b'` index 1 is returned though nothing brackets it |
| Moves.MovesOnRow | src/moves.rs:55-59 | one move per returned index, in order, on the current row and for the player |
| Moves.PanicPersists | src/moves.rs:53-61 | once a row panics, the whole scan panics |
| Moves.ScannedRowsStep | src/moves.rs:53-61 | one more row adds exactly its moves, after the moves of earlier rows |
| Moves.RowMovesCharacterised | src/moves.rs:50-64 | the row scan panics iff some row panics; otherwise it lists exactly each row's moves, ordered by row |
| Moves.PushRowMoves | src/moves.rs:55-59 | the inner loop appends the row's moves |
| Moves.GenValidMovesHelper | src/moves.rs:50-64 | the loops compute the reference row scan |
| Moves.Exchanged | src/moves.rs:28-32 | each move with its row and column exchanged, in order |
| Moves.ExchangeAll | src/moves.rs:28-32 | the in-place swap loop exchanges row and column of every move |
| Moves.GenValidMoves | src/moves.rs:25-36 | the row moves followed by the transpose's moves with row and column swapped |
| Moves.Column | src/moves.rs:27 | a column of the board, read from every row |
| Moves.ValidMovesCharacterised | src/moves.rs:25-36 | the result is defined iff no row or column scan panics; a move is listed iff it carries the player and its row's scan returns its column or its column's scan returns its row |
| Moves.ValidMovesSound | src/moves.rs:25-36 | each move is for the player on an empty in-bounds square that brackets in its row or column, unless that line opens with an opponent piece |

## Left out

- `src/main.rs`: argument parsing, `unwrap` and printing the answer are input and output.
- `Board::print` and `impl Display for Move`: output only.
- The wall clock is modelled as a `Clock` oracle: the k-th reading returns a given number of nanoseconds. Real time is not modelled.
- The unused `crossbeam` import.
- Hashing inside `HashMap`: the memo is a Dafny `map<string, int>`.
- `generate_children`, `is_game_over` and `string_rep` are not part of this model. They are the fields of a `Game` value, with no body. Where a result needs it, the model requires that children of evaluable positions are evaluable (`Closed`) and that `string_rep` is injective (`KeyInjective`). `Closed` excludes children built by `make_move` from a `getMoves` move in row 0 or column 0: such a move writes the border ring (`MoveWritesRawIndex`), so the child is not `Bordered`, and the search theorems do not cover games that produce such children.
- `worst_for_max` / `worst_for_min`: not part of this model. No root pass ever returns them, because every child value lies within (`VERY_LOW`, `VERY_HIGH`) and the root comparisons are `>=`/`<=`.
- The `score` field of an `OthelloPosition` is held in the root `Child` record. Scores written to children inside `alphabeta` are discarded by the source, and so are not modelled.
- `isize` and `usize` widths: all values are unbounded integers. The evaluation stays within ±550000 and the search constants fit `isize`, so no overflow is possible.
- The `usize` underflow panics of the direction scans: the scans and `getMoves` require `Bordered` (the ring is all empty), which every position `new` builds satisfies.
- AlphaBeta.SortByScore: stated as a sorted permutation. Rust's `sort_by` is also stable; stability is not stated.
- AlphaBeta.Alphabeta: the agreement with minimax is stated only when the deadline never passes; after it passes, only the bounds and the leaf case are stated. It is stated over any leaf valuation that equals the default evaluation on evaluable positions.
- AlphaBeta.Score gives 0 on a board without pieces only to be total. `piece_count_value` panics there, and the search never evaluates such a board.
- Evaluator.PieceCountValue: the division by zero on a board without pieces is a precondition, not a modelled panic.
- Board.Read: the `assert!` on an empty string is a precondition. Bytes are `int` values in 0..255, and a byte becomes a `char` by its code.
- Board.Transpose: the `assert!` on an empty board and the index panic on a short row are precondition `Transposable`.
- Board.AddPiece: a row shorter than the board's row count would panic on indexing; the precondition `Fits` excludes it.
- MoveGenerator.New: the position text is a sequence of characters and its length is compared with 65 as a character count. Rust's `len()` counts bytes, so the model agrees with the source only on ASCII text. For non-ASCII text the source returns `empty()` for a 65-character string of more than 65 bytes, and panics on a 64-character string of 65 bytes; neither case is modelled.
- MoveGenerator.AddPiece: requires the cell to be inside the 10x10 grid, where the source would panic on the index.
- Moves.GenValidMoves: requires `Transposable`, as `transpose` does.
- `Board::add_piece` clones the board and writes one cell; it is modelled as a function returning a new board value.
