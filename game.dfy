/** The board engine: a 4 x 4 grid of cells updated in place (0 is an empty
    cell) and, beside it, the set of empty positions that random spawning
    picks from. Every write goes through SetIndex, which keeps the two in step. */
module Game {
  import opened Line
  import opened Grid
  import opened Text

  class Board {
    var values: array<int>
    var free: set<int>

    /** `free` holds exactly the positions of the empty cells. */
    ghost predicate Valid()
      reads this, values
    {
      values.Length == LENGTH && free == FreeCells(values[..])
    }

    /** An empty board: every position is free. */
    constructor Default()
      ensures Valid() && fresh(values)
      ensures values[..] == seq(LENGTH, _ => 0)
      ensures forall p :: p in free <==> 0 <= p < LENGTH
    {
      values := new int[LENGTH](_ => 0);
      var positions: set<int> := {};
      for index := 0 to LENGTH
        invariant forall p :: p in positions <==> 0 <= p < index
      {
        positions := positions + {index};
      }
      free := positions;
    }

    /** A board holding the given cells; the empty ones are free. */
    constructor WithValues(cells: seq<int>)
      requires |cells| == LENGTH
      ensures Valid() && fresh(values)
      ensures values[..] == cells
    {
      values := new int[LENGTH](p requires 0 <= p < LENGTH => cells[p]);
      free := set p | 0 <= p < LENGTH && cells[p] == 0;
    }

    /** The value of a cell; it is 0 exactly when its position is free. */
    function Get(row: nat, column: nat): (v: int)
      reads this, values
      requires Valid() && Index(row, column) < LENGTH
      ensures v == 0 <==> Index(row, column) in free
    {
      values[Index(row, column)]
    }

    /** Writes one cell and records whether its position is now free. */
    method SetIndex(index: nat, value: int)
      requires Valid() && index < LENGTH
      modifies this, values
      ensures Valid() && values == old(values)
      ensures values[..] == old(values[..])[index := value]
      ensures free == if value == 0 then old(free) + {index} else old(free) - {index}
    {
      values[index] := value;
      if value == 0 {
        free := free + {index};
      } else {
        free := free - {index};
      }
    }

    method Set(row: nat, column: nat, value: int)
      requires Valid() && Index(row, column) < LENGTH
      modifies this, values
      ensures Valid() && values == old(values)
      ensures values[..] == old(values[..])[Index(row, column) := value]
    {
      var index := Index(row, column);
      SetIndex(index, value);
    }

    /** The window step every move repeats: the tile at (row, column) slides
        into the empty cell at (toRow, toColumn), or merges into an equal tile
        there whose position has not absorbed a merge yet (`combined[slot]`),
        or stays. On lane `i` of move `m` this is window `w` of the lane's
        state machine, with (toRow, toColumn) the lane position w - 1. */
    method Slide(row: nat, column: nat, toRow: nat, toColumn: nat, combined: array<bool>, slot: nat,
                 ghost m: Move, ghost i: nat, ghost start: seq<int>, ghost lane: State, ghost w: nat)
      requires Valid() && |start| == LENGTH && i < LANES && Shaped(lane) && |lane.cells| == LANES && 1 <= w < LANES
      requires Index(row, column) == Cell(m, i, w) && Index(toRow, toColumn) == Cell(m, i, w - 1)
      requires slot < combined.Length && combined[slot] == lane.combined[w - 1]
      requires values[..] == WithLane(start, m, i, lane.cells)
      modifies this, values, combined
      ensures Valid() && values == old(values)
      ensures values[..] == WithLane(start, m, i, Step(lane, w).cells)
      ensures combined[..] == if Merges(lane, w) then old(combined[..])[slot := true] else old(combined[..])
    {
      WindowRead(start, m, i, lane.cells, w);
      var current := Get(row, column);
      var previous := Get(toRow, toColumn);
      if previous == 0 {
        WindowSlides(start, m, i, lane, w);
        Set(toRow, toColumn, current);
        Set(row, column, 0);
      } else if previous == current && !combined[slot] {
        WindowMerges(start, m, i, lane, w);
        Set(toRow, toColumn, previous + current);
        combined[slot] := true;
        Set(row, column, 0);
      } else {
        WindowStays(lane, w);
      }
    }

    /** Moves every row toward its left edge. */
    method MoveLeft()
      requires Valid()
      modifies this, values
      ensures Valid() && values == old(values)
      ensures values[..] == Apply(old(values[..]), Left)
    {
      ghost var g := values[..];
      ProgressEnds(g, Left);
      for row := 0 to ROWS
        invariant Valid() && values == old(values)
        invariant values[..] == Progress(g, Left, row)
      {
        ProgressStep(g, Left, row);
        MoveRowLeft(row);
      }
    }

    /** One row of MoveLeft: pass `column` for `column` = 0, 1, 2, 3 in turn,
        on a fresh `combined` array indexed by column. */
    method MoveRowLeft(row: nat)
      requires Valid() && row < ROWS
      modifies this, values
      ensures Valid() && values == old(values)
      ensures values[..] == WithLane(old(values[..]), Left, row, Compact(Lane(old(values[..]), Left, row)))
    {
      var combined := new bool[COLUMNS](_ => false);
      ghost var start := values[..];
      ghost var lane := Start(Lane(start, Left, row));
      WithOwnLane(start, Left, row);
      for column := 0 to COLUMNS
        invariant Valid() && values == old(values)
        invariant Shaped(lane) && |lane.cells| == LANES
        invariant values[..] == WithLane(start, Left, row, lane.cells) && combined[..] == lane.combined
        invariant Passes(lane, column) == Passes(Start(Lane(start, Left, row)), 0)
      {
        PassRowLeft(row, column, combined, start, lane);
        lane := Sweep(lane, column);
      }
    }

    /** Pass `column` of MoveRowLeft: the windows column, ..., 1 carry the tile
        at `column` as far left as it goes; on the lane this is Sweep. */
    method PassRowLeft(row: nat, column: nat, combined: array<bool>, ghost start: seq<int>, ghost lane: State)
      requires Valid() && row < ROWS && column < COLUMNS && |start| == LENGTH
      requires Shaped(lane) && |lane.cells| == LANES
      requires combined.Length == COLUMNS && combined[..] == lane.combined
      requires values[..] == WithLane(start, Left, row, lane.cells)
      modifies this, values, combined
      ensures Valid() && values == old(values)
      ensures values[..] == WithLane(start, Left, row, Sweep(lane, column).cells)
      ensures combined[..] == Sweep(lane, column).combined
    {
      ghost var state := lane;
      for window := column + 1 downto 1
        invariant Valid() && values == old(values)
        invariant Shaped(state) && |state.cells| == LANES
        invariant values[..] == WithLane(start, Left, row, state.cells) && combined[..] == state.combined
        invariant Sweep(state, window - 1) == Sweep(lane, column)
      {
        Slide(row, window, row, window - 1, combined, window - 1, Left, row, start, state, window);
        state := Step(state, window);
      }
    }

    /** Moves every row toward its right edge. */
    method MoveRight()
      requires Valid()
      modifies this, values
      ensures Valid() && values == old(values)
      ensures values[..] == Apply(old(values[..]), Right)
    {
      ghost var g := values[..];
      ProgressEnds(g, Right);
      for row := 0 to ROWS
        invariant Valid() && values == old(values)
        invariant values[..] == Progress(g, Right, row)
      {
        ProgressStep(g, Right, row);
        MoveRowRight(row);
      }
    }

    /** One row of MoveRight, the mirror image of MoveRowLeft: columns are
        visited from the right edge, and `combined` is indexed by column. */
    method MoveRowRight(row: nat)
      requires Valid() && row < ROWS
      modifies this, values
      ensures Valid() && values == old(values)
      ensures values[..] == WithLane(old(values[..]), Right, row, Compact(Lane(old(values[..]), Right, row)))
    {
      var combined := new bool[COLUMNS](_ => false);
      ghost var start := values[..];
      ghost var lane := Start(Lane(start, Right, row));
      WithOwnLane(start, Right, row);
      for column := COLUMNS downto 0
        invariant Valid() && values == old(values)
        invariant Shaped(lane) && |lane.cells| == LANES
        invariant values[..] == WithLane(start, Right, row, lane.cells) && Mirrored(combined[..], lane.combined)
        invariant Passes(lane, COLUMNS - column) == Passes(Start(Lane(start, Right, row)), 0)
      {
        PassRowRight(row, column, combined, start, lane);
        lane := Sweep(lane, COLUMNS - 1 - column);
      }
    }

    /** Pass `column` of MoveRowRight: the windows column, ..., 2 carry the tile
        at `column` as far right as it goes. On the lane, read from the right
        edge, this is Sweep at lane position 3 - column. */
    method PassRowRight(row: nat, column: nat, combined: array<bool>, ghost start: seq<int>, ghost lane: State)
      requires Valid() && row < ROWS && column < COLUMNS && |start| == LENGTH
      requires Shaped(lane) && |lane.cells| == LANES
      requires combined.Length == COLUMNS && Mirrored(combined[..], lane.combined)
      requires values[..] == WithLane(start, Right, row, lane.cells)
      modifies this, values, combined
      ensures Valid() && values == old(values)
      ensures values[..] == WithLane(start, Right, row, Sweep(lane, COLUMNS - 1 - column).cells)
      ensures Mirrored(combined[..], Sweep(lane, COLUMNS - 1 - column).combined)
    {
      ghost var state := lane;
      for window := column to COLUMNS - 1
        invariant Valid() && values == old(values)
        invariant Shaped(state) && |state.cells| == LANES
        invariant values[..] == WithLane(start, Right, row, state.cells) && Mirrored(combined[..], state.combined)
        invariant Sweep(state, COLUMNS - 1 - window) == Sweep(lane, COLUMNS - 1 - column)
      {
        ghost var w := COLUMNS - 1 - window;
        MirrorStep(combined[..], state, w, window + 1);
        Slide(row, window, row, window + 1, combined, window + 1, Right, row, start, state, w);
        state := Step(state, w);
      }
    }

    /** Moves every column toward the top edge. */
    method MoveUp()
      requires Valid()
      modifies this, values
      ensures Valid() && values == old(values)
      ensures values[..] == Apply(old(values[..]), Up)
    {
      ghost var g := values[..];
      ProgressEnds(g, Up);
      for column := 0 to COLUMNS
        invariant Valid() && values == old(values)
        invariant values[..] == Progress(g, Up, column)
      {
        ProgressStep(g, Up, column);
        MoveColumnUp(column);
      }
    }

    /** One column of MoveUp: pass `row` for `row` = 0, 1, 2, 3 in turn, on a
        fresh `combined` array indexed by row. */
    method MoveColumnUp(column: nat)
      requires Valid() && column < COLUMNS
      modifies this, values
      ensures Valid() && values == old(values)
      ensures values[..] == WithLane(old(values[..]), Up, column, Compact(Lane(old(values[..]), Up, column)))
    {
      var combined := new bool[ROWS](_ => false);
      ghost var start := values[..];
      ghost var lane := Start(Lane(start, Up, column));
      WithOwnLane(start, Up, column);
      for row := 0 to ROWS
        invariant Valid() && values == old(values)
        invariant Shaped(lane) && |lane.cells| == LANES
        invariant values[..] == WithLane(start, Up, column, lane.cells) && combined[..] == lane.combined
        invariant Passes(lane, row) == Passes(Start(Lane(start, Up, column)), 0)
      {
        PassColumnUp(row, column, combined, start, lane);
        lane := Sweep(lane, row);
      }
    }

    /** Pass `row` of MoveColumnUp: the windows row, ..., 1 carry the tile at
        `row` as far up as it goes; on the lane this is Sweep. */
    method PassColumnUp(row: nat, column: nat, combined: array<bool>, ghost start: seq<int>, ghost lane: State)
      requires Valid() && row < ROWS && column < COLUMNS && |start| == LENGTH
      requires Shaped(lane) && |lane.cells| == LANES
      requires combined.Length == ROWS && combined[..] == lane.combined
      requires values[..] == WithLane(start, Up, column, lane.cells)
      modifies this, values, combined
      ensures Valid() && values == old(values)
      ensures values[..] == WithLane(start, Up, column, Sweep(lane, row).cells)
      ensures combined[..] == Sweep(lane, row).combined
    {
      ghost var state := lane;
      for window := row + 1 downto 1
        invariant Valid() && values == old(values)
        invariant Shaped(state) && |state.cells| == LANES
        invariant values[..] == WithLane(start, Up, column, state.cells) && combined[..] == state.combined
        invariant Sweep(state, window - 1) == Sweep(lane, row)
      {
        Slide(window, column, window - 1, column, combined, window - 1, Up, column, start, state, window);
        state := Step(state, window);
      }
    }

    /** Moves every column toward the bottom edge. */
    method MoveDown()
      requires Valid()
      modifies this, values
      ensures Valid() && values == old(values)
      ensures values[..] == Apply(old(values[..]), Down)
    {
      ghost var g := values[..];
      ProgressEnds(g, Down);
      for column := 0 to COLUMNS
        invariant Valid() && values == old(values)
        invariant values[..] == Progress(g, Down, column)
      {
        ProgressStep(g, Down, column);
        MoveColumnDown(column);
      }
    }

    /** One column of MoveDown, the mirror image of MoveColumnUp: rows are
        visited from the bottom edge, and `combined` is indexed by row. */
    method MoveColumnDown(column: nat)
      requires Valid() && column < COLUMNS
      modifies this, values
      ensures Valid() && values == old(values)
      ensures values[..] == WithLane(old(values[..]), Down, column, Compact(Lane(old(values[..]), Down, column)))
    {
      var combined := new bool[ROWS](_ => false);
      ghost var start := values[..];
      ghost var lane := Start(Lane(start, Down, column));
      WithOwnLane(start, Down, column);
      for row := ROWS downto 0
        invariant Valid() && values == old(values)
        invariant Shaped(lane) && |lane.cells| == LANES
        invariant values[..] == WithLane(start, Down, column, lane.cells) && Mirrored(combined[..], lane.combined)
        invariant Passes(lane, ROWS - row) == Passes(Start(Lane(start, Down, column)), 0)
      {
        PassColumnDown(row, column, combined, start, lane);
        lane := Sweep(lane, ROWS - 1 - row);
      }
    }

    /** Pass `row` of MoveColumnDown: the windows row, ..., 2 carry the tile at
        `row` as far down as it goes. On the lane, read from the bottom edge,
        this is Sweep at lane position 3 - row. */
    method PassColumnDown(row: nat, column: nat, combined: array<bool>, ghost start: seq<int>, ghost lane: State)
      requires Valid() && row < ROWS && column < COLUMNS && |start| == LENGTH
      requires Shaped(lane) && |lane.cells| == LANES
      requires combined.Length == ROWS && Mirrored(combined[..], lane.combined)
      requires values[..] == WithLane(start, Down, column, lane.cells)
      modifies this, values, combined
      ensures Valid() && values == old(values)
      ensures values[..] == WithLane(start, Down, column, Sweep(lane, ROWS - 1 - row).cells)
      ensures Mirrored(combined[..], Sweep(lane, ROWS - 1 - row).combined)
    {
      ghost var state := lane;
      for window := row to ROWS - 1
        invariant Valid() && values == old(values)
        invariant Shaped(state) && |state.cells| == LANES
        invariant values[..] == WithLane(start, Down, column, state.cells) && Mirrored(combined[..], state.combined)
        invariant Sweep(state, ROWS - 1 - window) == Sweep(lane, ROWS - 1 - row)
      {
        ghost var w := ROWS - 1 - window;
        MirrorStep(combined[..], state, w, window + 1);
        Slide(window, column, window + 1, column, combined, window + 1, Down, column, start, state, w);
        state := Step(state, w);
      }
    }

    /** Runs the move in the given direction. */
    method ApplyMove(movement: Move)
      requires Valid()
      modifies this, values
      ensures Valid() && values == old(values)
      ensures values[..] == Apply(old(values[..]), movement)
    {
      match movement
      case Left => MoveLeft();
      case Right => MoveRight();
      case Up => MoveUp();
      case Down => MoveDown();
    }

    /** Whether two neighbouring cells hold the same value: a scan in row-major
        order that compares each cell with the one below it (`horizontally`)
        and the one to its right (`vertically`) and stops at the first match. */
    method CanMerge() returns (can: bool)
      requires Valid()
      ensures can == Mergeable(values[..])
    {
      MergeableScan(values[..]);
      for row := 0 to ROWS
        invariant forall p :: 0 <= p < Index(row, 0) ==> !PairsForward(values[..], p)
      {
        for column := 0 to COLUMNS
          invariant forall p :: 0 <= p < Index(row, column) ==> !PairsForward(values[..], p)
        {
          ghost var p := Index(row, column);
          var horizontally := row < ROWS - 1 && Get(row, column) == Get(row + 1, column);
          if horizontally {
            assert PairsForward(values[..], p);
            return true;
          }
          var vertically := column < COLUMNS - 1 && Get(row, column) == Get(row, column + 1);
          if vertically {
            assert PairsForward(values[..], p);
            return true;
          }
          assert !PairsForward(values[..], p);
        }
      }
      return false;
    }

    /** The game is over when no cell is free and no two neighbours are equal. */
    method IsOver() returns (over: bool)
      requires Valid()
      ensures over <==> free == {} && !Mergeable(values[..])
      ensures over == Terminal(values[..])
    {
      NoFreeCells(values[..]);
      over := free == {};
      if over {
        var can := CanMerge();
        over := !can;
      }
    }

    /** Writes `value` into one of the free cells. Which one is random; the
        choice is left open here. There must be a free cell. */
    method SetFreeRandom(value: int)
      requires Valid() && free != {}
      modifies this, values
      ensures Valid() && values == old(values)
      ensures exists index :: index in old(free) && values[..] == old(values[..])[index := value] &&
                              free == if value == 0 then old(free) else old(free) - {index}
    {
      var index :| index in free;
      SetIndex(index, value);
    }

    /** Plays one round: the move, then a 2 in a free cell, then whether the
        game is over. The move must leave a free cell. */
    method Round(movement: Move) returns (over: bool)
      requires Valid() && 0 in Apply(values[..], movement)
      modifies this, values
      ensures Valid() && values == old(values)
      ensures exists index :: 0 <= index < LENGTH && Apply(old(values[..]), movement)[index] == 0 &&
                               values[..] == Apply(old(values[..]), movement)[index := 2]
      ensures over == Terminal(values[..])
    {
      ApplyMove(movement);
      ghost var moved := values[..];
      ghost var zero :| 0 <= zero < LENGTH && moved[zero] == 0;
      assert zero in free;
      SetFreeRandom(2);
      over := IsOver();
    }

    /** A new game: an empty board with a 2 and a 4 in two different cells. */
    static method New() returns (board: Board)
      ensures fresh(board) && fresh(board.values) && board.Valid()
      ensures exists i, j :: 0 <= i < LENGTH && 0 <= j < LENGTH && i != j &&
                             board.values[i] == 2 && board.values[j] == 4 &&
                             forall p :: 0 <= p < LENGTH && p != i && p != j ==> board.values[p] == 0
    {
      board := new Board.Default();
      ghost var empty := board.values[..];
      assert 0 in board.free;
      board.SetFreeRandom(2);
      ghost var two := board.values[..];
      ghost var i :| 0 <= i < LENGTH && two == empty[i := 2];
      assert (if i == 0 then 1 else 0) in board.free;
      board.SetFreeRandom(4);
      ghost var j :| j in FreeCells(two) && board.values[..] == two[j := 4];
      assert board.values[i] == 2 && board.values[j] == 4;
    }

    /** The text of the board, row by row: "[a b c d]" lines separated by
        newlines, and a final newline. */
    method Fmt() returns (text: string)
      requires Valid()
      ensures text == Render(values[..])
    {
      ghost var rows := RowsOf(values[..]);
      var board := "";
      AppendEmpty(RowsFrom(rows, 0));
      for i := 0 to ROWS
        invariant board + RowsFrom(rows, i) == RowsFrom(rows, 0)
      {
        WriteRow(board, rows, i);
        board := board + "[";
        board := PushCells(board, i);
        board := board + "]";
        if i < ROWS - 1 {
          board := board + "\n";
        } else {
          AppendEmpty(board);
        }
      }
      AppendEmpty(board);
      text := board + "\n";
    }

    /** The inner loop of Fmt: appends the cells of row i, each followed by a
        space unless it is in the last column. */
    method PushCells(board: string, i: nat) returns (written: string)
      requires Valid() && i < ROWS
      ensures written == board + CellsFrom(RowsOf(values[..])[i], 0)
    {
      ghost var row := RowsOf(values[..])[i];
      written := board;
      for j := 0 to COLUMNS
        invariant written + CellsFrom(row, j) == board + CellsFrom(row, 0)
      {
        WriteCell(written, row, j);
        var value := Get(i, j);
        assert value == row[j];
        written := written + IntText(value);
        if j < COLUMNS - 1 {
          written := written + " ";
        } else {
          AppendEmpty(written);
        }
      }
      AppendEmpty(written);
    }
  }

  /** The `combined` flags of a move toward the right or the bottom edge, as
      the board's scan holds them: indexed from the far edge, so position k of
      the lane sits at index |lane| - 1 - k. */
  ghost predicate Mirrored(flags: seq<bool>, lane: seq<bool>)
  {
    |flags| == |lane| && forall k :: 0 <= k < |lane| ==> flags[|lane| - 1 - k] == lane[k]
  }

  /** A window of a move toward the right or the bottom edge reads the flag of
      its previous cell at `slot`, and sets it there exactly when the window
      merges. */
  lemma MirrorStep(flags: seq<bool>, s: State, w: nat, slot: nat)
    requires Shaped(s) && 1 <= w < |s.cells| && slot == |s.cells| - w
    requires Mirrored(flags, s.combined)
    ensures slot < |flags| && flags[slot] == s.combined[w - 1]
    ensures Mirrored(if Merges(s, w) then flags[slot := true] else flags, Step(s, w).combined)
  {
    assert flags[|s.cells| - 1 - (w - 1)] == s.combined[w - 1];
  }
}
