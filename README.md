# A verified model of the caei board engine

The board engine in `caei-core/src/lib.rs` runs a 2048-style sliding-tile
puzzle. A `Board` holds sixteen cells in row-major order (0 is an empty cell)
and, beside them, the set `free` of the positions of the empty cells. A
round moves every row (for Left and Right) or every column (for Up and
Down) toward one edge, merging equal tiles, then writes a 2 into a random
free cell and reports whether the game is over. The board prints as four
`[a b c d]` lines.

The model has five modules.

- `Line` (line.dfy) is one lane of a move as the engine's loops run it. A
  lane is a row or column read from the target edge inward. It carries the
  `combined` flags of the positions that have absorbed a merge. `Step` is one
  window of the inner loop, `Sweep` one pass (the windows w, ..., 1) and
  `Passes` all passes in order; `Compact` is the lane after a whole move. The
  lemmas state what a move does to a lane: it keeps the sum, never adds a
  tile, leaves the tiles packed against the edge, lets each position absorb
  at most one merge, and changes nothing exactly when the lane is already
  packed and has no equal neighbours.
- `Grid` (grid.dfy) is the board as a sequence of 16 integers: `Index`,
  `Move`, the four lanes of each move and `Apply`, the board after a move as
  a function. Its lemmas lift the lane facts to the board and relate the
  four moves to each other. They also state when the game is over (`Terminal`).
- `Text` (text.dfy) is the printed form of a board and a reader for it. The
  round trip `Parse(Render(g)) == Some(g)` shows the text loses nothing.
- `Game` (game.dfy) is the class `Board`, with the array `values` and the
  set `free` updated in place. Each method follows the loops of its Rust
  counterpart and is proved against the functions above; `Valid()` is the
  invariant that `free` holds exactly the empty positions.
- `Examples` (examples.dfy) holds the boards of the engine's unit tests,
  proved as lemmas about `Apply` and `Terminal`, and a few lanes and boards
  that show how the merge rule behaves.

Four behaviours of the code are easy to miss; the model keeps them as the
code has them, except where the last bullet says otherwise:

- There is no score and a move reports nothing. `round` always writes a 2
  after the move, whether or not the move changed the board.
- The `combined` flag guards only the position a merge lands in, so a tile
  that a merge produced can merge again in the same move: the lane
  `[4, 2, 2, 0]` moved toward the 4 becomes `[8, 0, 0, 0]`
  (`Examples.MergedTileMergesAgain`), and `[8, 4, 2, 2]` takes three merges
  to become `[16, 0, 0, 0]` (`Examples.ChainMergesWholeLane`).
  `[2, 2, 2, 2]` still becomes `[4, 4, 0, 0]` (`Examples.FourEqualTiles`).
- `set_free_random` panics on an empty `free` set (the random range
  `0..0` is empty) instead of doing nothing, so `SetFreeRandom` requires a
  free cell. `Round` therefore requires that the move leave a free cell. A
  full board can fail that although the game is not over
  (`Examples.CrowdedLeftLeavesNoFreeCell`): its move changes nothing and
  `round` would panic.
- Cells are signed and the moves are the shift-based nested loops. The
  model keeps the sign and the loops; the `i32` width is listed under
  "Left out".

## Model

| member | source | states |
|---|---|---|
| Grid.Index | caei-core/src/lib.rs:9-11 | the position of (row, column) lies in the board and gives back the row and column by division and remainder by 4 |
| Grid.Cell | caei-core/src/lib.rs:125-234 | position k of lane i of a move belongs to lane i and lies k cells from the move's target edge |
| Grid.Apply | caei-core/src/lib.rs:115-234 | the board after a move of any of the four `Move` values (the enum of lib.rs:13-18): every cell takes its value from the compaction of its own lane, and the result is again a 16-cell board; its properties are the lemmas below |
| Grid.WithLane | caei-core/src/lib.rs:125-234 | replacing lane i of a move gives a board whose lane i is the new lane and whose cells outside lane i are unchanged |
| Grid.WindowRead | caei-core/src/lib.rs:131-132 | the two cells a window compares are the lane's cells at positions w and w - 1 |
| Grid.WindowSlides | caei-core/src/lib.rs:136-139 | when the cell nearer the edge is empty, the window moves the current value into it and empties the current cell, with no merge |
| Grid.WindowMerges | caei-core/src/lib.rs:142-146 | a merging window writes the sum into the cell nearer the edge, empties the current cell and flags the receiving position |
| Grid.WindowStays | caei-core/src/lib.rs:131-146 | a window whose previous cell is occupied and which cannot merge changes neither the cells nor the flags |
| Grid.ProgressEnds | caei-core/src/lib.rs:125-234 | before any lane is moved the board is the original, and after all four it is the move's result |
| Grid.ProgressStep | caei-core/src/lib.rs:126-149 | compacting lane n of the partly moved board, which still holds the original lane n, gives the board with lanes 0..n done |
| Grid.MoveActsOnLanes | caei-core/src/lib.rs:125-234 | each lane of the moved board is the compaction of the same lane before: lanes move independently |
| Grid.ApplyFromLanes | caei-core/src/lib.rs:125-234 | a board whose every lane is the compaction of the original lane is the move's result |
| Grid.MovePacksLanes | caei-core/src/lib.rs:125-234 | after a move, no tile of a lane sits behind an empty cell |
| Grid.LaneKeepsSum | caei-core/src/lib.rs:125-234 | one lane of a move keeps its total and gains no tile |
| Grid.MoveKeepsSum | caei-core/src/lib.rs:125-234 | a move never changes the sum of the board's cells |
| Grid.MoveAddsNoTile | caei-core/src/lib.rs:125-234 | a move never increases the number of occupied cells |
| Grid.MoveUnchangedIff | caei-core/src/lib.rs:125-234 | a move leaves the board unchanged exactly when every lane is packed against the edge with no two equal occupied neighbours |
| Grid.RightMirrorsLeft | caei-core/src/lib.rs:153-178 | moving right is moving left on the board with its rows reversed, reversed back |
| Grid.UpTransposesLeft | caei-core/src/lib.rs:181-206 | moving up is moving left on the transposed board, transposed back |
| Grid.DownTransposesRight | caei-core/src/lib.rs:209-234 | moving down is moving right on the transposed board, transposed back |
| Grid.NoFreeCells | caei-core/src/lib.rs:89-91 | no position is free exactly when every cell holds a tile |
| Grid.MergeableScan | caei-core/src/lib.rs:94-112 | comparing every cell with the cell below it and the cell to its right finds an equal pair exactly when two neighbouring cells are equal |
| Grid.TerminalIsStuck | caei-core/src/lib.rs:89-112 | on a board that is over, no move changes anything |
| Grid.FullBoardOverIff | caei-core/src/lib.rs:89-112 | on a board with no empty cell, the game is over exactly when no move changes the board |
| Line.Step | caei-core/src/lib.rs:131-146 | one window: an empty previous cell takes the current value and the current cell empties; equal occupied cells whose previous position is unflagged merge into the previous cell, which is flagged; otherwise nothing changes; the lane keeps its length |
| Line.Sweep | caei-core/src/lib.rs:130-147 | one pass: the windows w, w - 1, ..., 1 in that order, as `(1..=column).rev()` runs them; the lane keeps its length |
| Line.Passes | caei-core/src/lib.rs:129-148 | the passes c, c + 1, ..., 3 in that order, as the `column` loop runs them; the lane keeps its length |
| Line.Start | caei-core/src/lib.rs:127 | a move starts each lane with no position flagged as combined |
| Line.StepAccounting | caei-core/src/lib.rs:131-146 | a window keeps the lane's sum and loses a tile exactly when it merges |
| Line.SweepKeepsSum | caei-core/src/lib.rs:130-147 | one pass keeps the lane's sum and adds no tile |
| Line.PassesKeepSum | caei-core/src/lib.rs:129-148 | the remaining passes of a move keep the lane's sum and add no tile |
| Line.SweepCarries | caei-core/src/lib.rs:130-147 | if the first w cells are packed and settled and the cells after w up to c are empty, one pass leaves the first c + 1 cells packed and settled |
| Line.PassesPack | caei-core/src/lib.rs:129-148 | after the remaining passes the whole lane is packed and no merge is left undone |
| Line.Compact | caei-core/src/lib.rs:125-150 | the moved lane has the same length and sum, no more tiles, and its tiles are packed against the edge |
| Line.FirstPairLosesTile | caei-core/src/lib.rs:142-146 | when cells m - 2 and m - 1 hold equal tiles after a packed, settled prefix, the move merges them and the lane ends with fewer tiles |
| Line.CompactUnchangedIff | caei-core/src/lib.rs:125-150 | a move leaves a lane unchanged exactly when its tiles are packed against the edge and no two occupied neighbours are equal |
| Line.AbsorbsAtMostOnce | caei-core/src/lib.rs:142-144 | over a whole move, each position of a lane absorbs at most one merge |
| Text.IntText | caei-core/src/lib.rs:244 | the text `to_string` writes for a value: a '-' for a negative value, then its decimal digits; it is never empty and starts with '-' or a digit |
| Text.Render | caei-core/src/lib.rs:238-255 | the text `Display::fmt` writes: four "[a b c d]" rows joined by newlines and the newline `writeln!` adds; it starts with '[' and ends with a newline |
| Text.NatTextValue | caei-core/src/lib.rs:244 | the decimal digits written for n read back as n |
| Text.ReadIntText | caei-core/src/lib.rs:244 | reading a value's text, followed by a non-digit, gives back the value and the rest of the text |
| Text.RowsOf | caei-core/src/lib.rs:241-244 | the board splits into four rows of four cells |
| Text.WriteCell | caei-core/src/lib.rs:244-247 | writing cell j of a row, and a space unless it is the last, moves it from the text still to come to the text written |
| Text.WriteRow | caei-core/src/lib.rs:241-252 | writing "[", the cells, "]" and a newline unless it is the last row moves row i from the text to come to the text written |
| Text.RenderRoundTrip | caei-core/src/lib.rs:238-255 | reading the printed board gives the board back |
| Text.RenderInjective | caei-core/src/lib.rs:238-255 | two boards that print the same are the same board |
| Game.Board.Default | caei-core/src/lib.rs:258-264 | every cell is 0 and every position is free |
| Game.Board.WithValues | caei-core/src/lib.rs:38-47 | the board holds the given cells and `free` holds exactly the positions of its zeros |
| Game.Board.Get | caei-core/src/lib.rs:50-52 | a cell's value is 0 exactly when its position is free |
| Game.Board.SetIndex | caei-core/src/lib.rs:70-78 | writes the one cell, keeps the invariant, and adds the position to `free` for a 0 or removes it otherwise |
| Game.Board.Set | caei-core/src/lib.rs:55-58 | writes exactly the cell at (row, column) and keeps the invariant |
| Game.Board.Slide | caei-core/src/lib.rs:131-146 | the window's writes take the board from lane state s to Step(s, w) and set the flag exactly when it merges |
| Game.Board.PassRowLeft | caei-core/src/lib.rs:130-147 | the windows column, ..., 1 take the row to one Sweep of its lane state, flags included |
| Game.Board.MoveRowLeft | caei-core/src/lib.rs:126-149 | row `row` becomes the compaction of itself and every other cell is unchanged |
| Game.Board.MoveLeft | caei-core/src/lib.rs:125-150 | the board becomes Apply(board, Left) |
| Game.Board.PassRowRight | caei-core/src/lib.rs:158-175 | the windows column, ..., 2 take the row to one Sweep of its lane read from the right, with the flags indexed by column |
| Game.Board.MoveRowRight | caei-core/src/lib.rs:154-177 | row `row`, read from the right, becomes its compaction and every other cell is unchanged |
| Game.Board.MoveRight | caei-core/src/lib.rs:153-178 | the board becomes Apply(board, Right) |
| Game.Board.PassColumnUp | caei-core/src/lib.rs:186-203 | the windows row, ..., 1 take the column to one Sweep of its lane state |
| Game.Board.MoveColumnUp | caei-core/src/lib.rs:182-205 | column `column` becomes its compaction and every other cell is unchanged |
| Game.Board.MoveUp | caei-core/src/lib.rs:181-206 | the board becomes Apply(board, Up) |
| Game.Board.PassColumnDown | caei-core/src/lib.rs:214-231 | the windows row, ..., 2 take the column to one Sweep of its lane read from the bottom, with the flags indexed by row |
| Game.Board.MoveColumnDown | caei-core/src/lib.rs:210-233 | column `column`, read from the bottom, becomes its compaction and every other cell is unchanged |
| Game.Board.MoveDown | caei-core/src/lib.rs:209-234 | the board becomes Apply(board, Down) |
| Game.Board.ApplyMove | caei-core/src/lib.rs:115-122 | the board becomes Apply(board, movement) and the invariant holds |
| Game.Board.CanMerge | caei-core/src/lib.rs:94-112 | the scan answers true exactly when two neighbouring cells hold the same value |
| Game.Board.IsOver | caei-core/src/lib.rs:89-91 | true exactly when `free` is empty and no neighbours can merge, that is when the board is Terminal |
| Game.Board.SetFreeRandom | caei-core/src/lib.rs:61-67 | with a free cell present, writes the value into one previously free cell, changes no other cell and updates `free` to match |
| Game.Board.Round | caei-core/src/lib.rs:81-86 | the board becomes the moved board with a 2 in one of its empty cells, and the answer is whether that board is over |
| Game.Board.New | caei-core/src/lib.rs:28-35 | a fresh board holding a 2 and a 4 in two different cells and zeros elsewhere |
| Game.Board.Fmt | caei-core/src/lib.rs:238-255 | the text built row by row is Render of the board, the text that Text.RenderRoundTrip reads back to the board |
| Game.Board.PushCells | caei-core/src/lib.rs:243-248 | the inner loop appends the cells of row i with single spaces between them |
| Game.MirrorStep | caei-core/src/lib.rs:155-171 | for a move toward the right or bottom edge, the flag of lane position k lives at index 3 - k, and one window keeps that correspondence |
| Examples.EmptyLaneStaysEmpty | caei-core/src/lib.rs:125-150 | a lane without tiles stays empty |
| Examples.TileSlidesToEdge | caei-core/src/lib.rs:125-150 | a lone tile slides to the edge |
| Examples.PairSlidesAndMerges | caei-core/src/lib.rs:125-150 | two equal neighbours merge and the sum reaches the edge |
| Examples.PairMergesAcrossGap | caei-core/src/lib.rs:125-150 | equal tiles separated by an empty cell merge |
| Examples.DistantPairMerges | caei-core/src/lib.rs:125-150 | equal tiles at the two ends of a lane merge |
| Examples.UnequalTilesKeepOrder | caei-core/src/lib.rs:125-150 | unequal tiles close up in their order |
| Examples.TileAtEdgeStays | caei-core/src/lib.rs:125-150 | a tile at the edge stays |
| Examples.PairNearestEdgeMerges | caei-core/src/lib.rs:125-150 | of three equal tiles, the two nearest the edge merge |
| Examples.AbsorbedPositionTakesOneMerge | caei-core/src/lib.rs:125-150 | [2,2,0,4] becomes [4,4,0,0]: the position holding the merged 4 takes no second merge |
| Examples.ThreeEqualTiles | caei-core/src/lib.rs:125-150 | [2,2,2,0] becomes [4,2,0,0] |
| Examples.FourEqualTiles | caei-core/src/lib.rs:125-150 | [2,2,2,2] becomes [4,4,0,0] |
| Examples.MergeStopsAtUnequalTile | caei-core/src/lib.rs:125-150 | [8,0,2,2] becomes [8,4,0,0] |
| Examples.MergedTileMergesAgain | caei-core/src/lib.rs:142-146 | [4,2,2,0] becomes [8,0,0,0]: a merged tile can merge again in the same move |
| Examples.ChainMergesWholeLane | caei-core/src/lib.rs:129-148 | [8,4,2,2] becomes [16,0,0,0]: three merges in one move, each absorbing the tile the previous one produced |
| Examples.MoveLeftCase1 | caei-core/src/lib.rs:273-280 | the test board moved left gives the expected board |
| Examples.MoveLeftCase2 | caei-core/src/lib.rs:282-289 | the test board moved left gives the expected board |
| Examples.MoveLeftCase3 | caei-core/src/lib.rs:291-298 | the test board moved left gives the expected board |
| Examples.MoveRightCase1 | caei-core/src/lib.rs:303-310 | the test board moved right gives the expected board |
| Examples.MoveRightCase2 | caei-core/src/lib.rs:312-319 | the test board moved right gives the expected board |
| Examples.MoveRightCase3 | caei-core/src/lib.rs:321-328 | the test board moved right gives the expected board |
| Examples.MoveUpCase1 | caei-core/src/lib.rs:333-340 | the test board moved up gives the expected board |
| Examples.MoveUpCase2 | caei-core/src/lib.rs:342-349 | the test board moved up gives the expected board |
| Examples.MoveUpCase3 | caei-core/src/lib.rs:351-358 | the test board moved up gives the expected board |
| Examples.MoveDownCase1 | caei-core/src/lib.rs:363-370 | the test board moved down gives the expected board |
| Examples.MoveDownCase2 | caei-core/src/lib.rs:372-379 | the test board moved down gives the expected board |
| Examples.MoveDownCase3 | caei-core/src/lib.rs:381-388 | the test board moved down gives the expected board |
| Examples.PairInLastRowIsNotOver | caei-core/src/lib.rs:393-395 | the full board with two 4s ending its last row is not over |
| Examples.PairInFirstRowIsNotOver | caei-core/src/lib.rs:397-399 | the full board with two 4s starting its first row is not over |
| Examples.PairInThirdRowIsNotOver | caei-core/src/lib.rs:401-403 | the full board with three 4s in its third row is not over |
| Examples.CheckerboardIsOver | caei-core/src/lib.rs:405-407 | the full board with no equal neighbours is over |
| Examples.DistinctFullLaneStays | caei-core/src/lib.rs:125-150 | a full lane with no equal neighbours does not change |
| Examples.CrowdedLeftLeavesNoFreeCell | caei-core/src/lib.rs:81-83 | a full board that is not over whose left move changes nothing, so a round with that move has no free cell for its 2 |

## Left out

- The random choice in `set_free_random` (`rand::thread_rng` and the
  order of the `IndexSet`): `SetFreeRandom` writes into some free cell,
  chosen arbitrarily, and proves its result for every choice. The
  distribution is not modelled.
- `free` is a Dafny `set<int>` rather than an insertion-ordered `IndexSet`;
  only which positions it holds matters to the engine's results.
- Game.Board.Slide: does not model `i32` overflow of `previous_value +
  current_value` (a panic in debug builds, wrap-around in release builds),
  because cells are unbounded integers here. Every move method inherits this.
- Game.Board.Fmt: returns the string that `writeln!` hands to the
  `Formatter`; formatter errors are not modelled.
- The derived `Debug` and `PartialEq` of `Board` are not modelled. The
  derived `PartialEq` compares `values` and `free`. `IndexSet` equality
  ignores order and `free` follows from `values` by `Valid()`, so two boards
  are equal exactly when their `values` are.
- Game.Board.Round: requires that the move leave an empty cell, because
  `round` panics otherwise. The model does not capture the panic itself.
- The HTTP server (`caei-server`), the terminal client (`caei-cli`) and the
  web UI (`caei-ui`) are not part of this model. Neither are a score,
  change reporting by moves and `as_rows`, which this `lib.rs` does not have.
