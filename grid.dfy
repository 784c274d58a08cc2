/** The board as a row-major sequence of 16 cells, its lanes, and what each of
    the four moves does to the whole board. */
module Grid {
  import opened Line

  const ROWS: nat := 4
  const COLUMNS: nat := 4
  const LENGTH: nat := ROWS * COLUMNS

  /** Every move has four lanes of four cells (the board is square). */
  const LANES: nat := 4

  /** The row-major position of a cell. */
  function Index(row: nat, column: nat): (p: nat)
    ensures row < ROWS && column < COLUMNS ==> p < LENGTH && p / COLUMNS == row && p % COLUMNS == column
  {
    row * ROWS + column
  }

  datatype Move = Left | Right | Up | Down

  /** The lane of move `m` that holds position p: its row for Left and Right,
      its column for Up and Down. */
  function LaneOf(m: Move, p: nat): (i: nat)
    requires p < LENGTH
    ensures i < LANES
  {
    if m == Left || m == Right then p / COLUMNS else p % COLUMNS
  }

  /** How far position p lies from the edge that move `m` pushes toward. */
  function OffsetOf(m: Move, p: nat): (k: nat)
    requires p < LENGTH
    ensures k < LANES
  {
    match m
    case Left => p % COLUMNS
    case Right => COLUMNS - 1 - p % COLUMNS
    case Up => p / COLUMNS
    case Down => ROWS - 1 - p / COLUMNS
  }

  /** The position at distance k from the target edge in lane i of move `m`. */
  function Cell(m: Move, i: nat, k: nat): (p: nat)
    requires i < LANES && k < LANES
    ensures p < LENGTH && LaneOf(m, p) == i && OffsetOf(m, p) == k
  {
    match m
    case Left => Index(i, k)
    case Right => Index(i, COLUMNS - 1 - k)
    case Up => Index(k, i)
    case Down => Index(ROWS - 1 - k, i)
  }

  lemma CellOfPosition(m: Move, p: nat)
    requires p < LENGTH
    ensures Cell(m, LaneOf(m, p), OffsetOf(m, p)) == p
  {
  }

  /** Lane i of move `m`, read from the target edge inward. */
  function Lane(g: seq<int>, m: Move, i: nat): (line: seq<int>)
    requires |g| == LENGTH && i < LANES
    ensures |line| == LANES
  {
    seq(LANES, k requires 0 <= k < LANES => g[Cell(m, i, k)])
  }

  /** The board after move `m`: every lane compacted on its own. */
  function Apply(g: seq<int>, m: Move): (r: seq<int>)
    requires |g| == LENGTH
    ensures |r| == LENGTH
  {
    seq(LENGTH, p requires 0 <= p < LENGTH => Compact(Lane(g, m, LaneOf(m, p)))[OffsetOf(m, p)])
  }

  /** The board g with lane i of move `m` replaced by `line`. */
  function WithLane(g: seq<int>, m: Move, i: nat, line: seq<int>): (r: seq<int>)
    requires |g| == LENGTH && i < LANES && |line| == LANES
    ensures |r| == LENGTH
    ensures Lane(r, m, i) == line
    ensures forall p :: 0 <= p < LENGTH && LaneOf(m, p) != i ==> r[p] == g[p]
  {
    seq(LENGTH, p requires 0 <= p < LENGTH => if LaneOf(m, p) == i then line[OffsetOf(m, p)] else g[p])
  }

  lemma WithOwnLane(g: seq<int>, m: Move, i: nat)
    requires |g| == LENGTH && i < LANES
    ensures WithLane(g, m, i, Lane(g, m, i)) == g
  {
    forall p | 0 <= p < LENGTH
      ensures WithLane(g, m, i, Lane(g, m, i))[p] == g[p]
    {
      CellOfPosition(m, p);
    }
  }

  /** Writing a cell of the replaced lane is writing that cell of the lane. */
  lemma WithLaneWrite(g: seq<int>, m: Move, i: nat, line: seq<int>, k: nat, v: int)
    requires |g| == LENGTH && i < LANES && |line| == LANES && k < LANES
    ensures WithLane(g, m, i, line)[Cell(m, i, k) := v] == WithLane(g, m, i, line[k := v])
  {
    forall p | 0 <= p < LENGTH
      ensures WithLane(g, m, i, line[k := v])[p] == if p == Cell(m, i, k) then v else WithLane(g, m, i, line)[p]
    {
      CellOfPosition(m, p);
    }
  }

  /** The two cells a window of lane i compares, read off the board. */
  lemma WindowRead(g: seq<int>, m: Move, i: nat, line: seq<int>, w: nat)
    requires |g| == LENGTH && i < LANES && |line| == LANES && 1 <= w < LANES
    ensures WithLane(g, m, i, line)[Cell(m, i, w)] == line[w]
    ensures WithLane(g, m, i, line)[Cell(m, i, w - 1)] == line[w - 1]
  {
  }

  /** A window whose previous cell is empty moves the current value into it. */
  lemma WindowSlides(g: seq<int>, m: Move, i: nat, s: State, w: nat)
    requires |g| == LENGTH && i < LANES && Shaped(s) && |s.cells| == LANES && 1 <= w < LANES
    requires s.cells[w - 1] == 0
    ensures WithLane(g, m, i, Step(s, w).cells) ==
            WithLane(g, m, i, s.cells)[Cell(m, i, w - 1) := s.cells[w]][Cell(m, i, w) := 0]
    ensures Step(s, w).combined == s.combined && !Merges(s, w)
  {
    WithLaneWrite(g, m, i, s.cells, w - 1, s.cells[w]);
    WithLaneWrite(g, m, i, s.cells[w - 1 := s.cells[w]], w, 0);
  }

  /** A merging window puts the sum into the previous cell, empties the current
      one and marks the previous position as having absorbed a merge. */
  lemma WindowMerges(g: seq<int>, m: Move, i: nat, s: State, w: nat)
    requires |g| == LENGTH && i < LANES && Shaped(s) && |s.cells| == LANES && 1 <= w < LANES
    requires Merges(s, w)
    ensures WithLane(g, m, i, Step(s, w).cells) ==
            WithLane(g, m, i, s.cells)[Cell(m, i, w - 1) := s.cells[w - 1] + s.cells[w]][Cell(m, i, w) := 0]
    ensures Step(s, w).combined == s.combined[w - 1 := true]
  {
    var a := s.cells[w - 1] + s.cells[w];
    WithLaneWrite(g, m, i, s.cells, w - 1, a);
    WithLaneWrite(g, m, i, s.cells[w - 1 := a], w, 0);
  }

  /** Any other window changes nothing. */
  lemma WindowStays(s: State, w: nat)
    requires Shaped(s) && 1 <= w < |s.cells|
    requires s.cells[w - 1] != 0 && !Merges(s, w)
    ensures Step(s, w) == s
  {
  }

  /** The board part-way through a move: lanes before n are done, the rest untouched. */
  function Progress(g: seq<int>, m: Move, n: nat): (r: seq<int>)
    requires |g| == LENGTH
    ensures |r| == LENGTH
  {
    seq(LENGTH, p requires 0 <= p < LENGTH => if LaneOf(m, p) < n then Apply(g, m)[p] else g[p])
  }

  lemma ProgressEnds(g: seq<int>, m: Move)
    requires |g| == LENGTH
    ensures Progress(g, m, 0) == g
    ensures Progress(g, m, LANES) == Apply(g, m)
  {
  }

  /** Moving lane n on its own takes the board from one stage of the move to the next. */
  lemma ProgressStep(g: seq<int>, m: Move, n: nat)
    requires |g| == LENGTH && n < LANES
    ensures Lane(Progress(g, m, n), m, n) == Lane(g, m, n)
    ensures WithLane(Progress(g, m, n), m, n, Compact(Lane(g, m, n))) == Progress(g, m, n + 1)
  {
    var before := Progress(g, m, n);
    var after := WithLane(before, m, n, Compact(Lane(g, m, n)));
    forall p | 0 <= p < LENGTH
      ensures after[p] == Progress(g, m, n + 1)[p]
    {
      CellOfPosition(m, p);
    }
  }

  // ---------------------------------------------------------------------
  // Properties of a move

  /** Each lane of the result is the compaction of the same lane before: lanes
      move independently, and a lane depends on nothing but itself. */
  lemma MoveActsOnLanes(g: seq<int>, m: Move, i: nat)
    requires |g| == LENGTH && i < LANES
    ensures Lane(Apply(g, m), m, i) == Compact(Lane(g, m, i))
  {
  }

  /** A board whose every lane is the compaction of the same lane of g is the
      move's result: the lanes of a move cover the board. */
  lemma ApplyFromLanes(g: seq<int>, m: Move, h: seq<int>)
    requires |g| == LENGTH && |h| == LENGTH
    requires forall i :: 0 <= i < LANES ==> Lane(h, m, i) == Compact(Lane(g, m, i))
    ensures Apply(g, m) == h
  {
    forall p | 0 <= p < LENGTH
      ensures Apply(g, m)[p] == h[p]
    {
      CellOfPosition(m, p);
      assert Lane(h, m, LaneOf(m, p))[OffsetOf(m, p)] == h[p];
    }
  }

  /** The lanes of move Left, spelled out cell by cell. */
  lemma LeftLanes(g: seq<int>)
    requires |g| == LENGTH
    ensures Lane(g, Left, 0) == [g[0], g[1], g[2], g[3]]
    ensures Lane(g, Left, 1) == [g[4], g[5], g[6], g[7]]
    ensures Lane(g, Left, 2) == [g[8], g[9], g[10], g[11]]
    ensures Lane(g, Left, 3) == [g[12], g[13], g[14], g[15]]
  {
  }

  /** ApplyFromLanes for move Left on a board given cell by cell. */
  lemma LeftFromCells(a0: int, a1: int, a2: int, a3: int, a4: int, a5: int, a6: int, a7: int, a8: int, a9: int, a10: int, a11: int, a12: int, a13: int, a14: int, a15: int,
                     b0: int, b1: int, b2: int, b3: int, b4: int, b5: int, b6: int, b7: int, b8: int, b9: int, b10: int, b11: int, b12: int, b13: int, b14: int, b15: int)
    requires Compact([a0, a1, a2, a3]) == [b0, b1, b2, b3]
    requires Compact([a4, a5, a6, a7]) == [b4, b5, b6, b7]
    requires Compact([a8, a9, a10, a11]) == [b8, b9, b10, b11]
    requires Compact([a12, a13, a14, a15]) == [b12, b13, b14, b15]
    ensures Apply([a0, a1, a2, a3, a4, a5, a6, a7, a8, a9, a10, a11, a12, a13, a14, a15], Left) == [b0, b1, b2, b3, b4, b5, b6, b7, b8, b9, b10, b11, b12, b13, b14, b15]
  {
    var g := [a0, a1, a2, a3, a4, a5, a6, a7, a8, a9, a10, a11, a12, a13, a14, a15];
    var h := [b0, b1, b2, b3, b4, b5, b6, b7, b8, b9, b10, b11, b12, b13, b14, b15];
    LeftLanes(g);
    LeftLanes(h);
    forall i | 0 <= i < LANES
      ensures Lane(h, Left, i) == Compact(Lane(g, Left, i))
    {
      if i == 0 {} else if i == 1 {} else if i == 2 {} else {}
    }
    ApplyFromLanes(g, Left, h);
  }

  /** The lanes of move Right, spelled out cell by cell. */
  lemma RightLanes(g: seq<int>)
    requires |g| == LENGTH
    ensures Lane(g, Right, 0) == [g[3], g[2], g[1], g[0]]
    ensures Lane(g, Right, 1) == [g[7], g[6], g[5], g[4]]
    ensures Lane(g, Right, 2) == [g[11], g[10], g[9], g[8]]
    ensures Lane(g, Right, 3) == [g[15], g[14], g[13], g[12]]
  {
  }

  /** ApplyFromLanes for move Right on a board given cell by cell. */
  lemma RightFromCells(a0: int, a1: int, a2: int, a3: int, a4: int, a5: int, a6: int, a7: int, a8: int, a9: int, a10: int, a11: int, a12: int, a13: int, a14: int, a15: int,
                     b0: int, b1: int, b2: int, b3: int, b4: int, b5: int, b6: int, b7: int, b8: int, b9: int, b10: int, b11: int, b12: int, b13: int, b14: int, b15: int)
    requires Compact([a3, a2, a1, a0]) == [b3, b2, b1, b0]
    requires Compact([a7, a6, a5, a4]) == [b7, b6, b5, b4]
    requires Compact([a11, a10, a9, a8]) == [b11, b10, b9, b8]
    requires Compact([a15, a14, a13, a12]) == [b15, b14, b13, b12]
    ensures Apply([a0, a1, a2, a3, a4, a5, a6, a7, a8, a9, a10, a11, a12, a13, a14, a15], Right) == [b0, b1, b2, b3, b4, b5, b6, b7, b8, b9, b10, b11, b12, b13, b14, b15]
  {
    var g := [a0, a1, a2, a3, a4, a5, a6, a7, a8, a9, a10, a11, a12, a13, a14, a15];
    var h := [b0, b1, b2, b3, b4, b5, b6, b7, b8, b9, b10, b11, b12, b13, b14, b15];
    RightLanes(g);
    RightLanes(h);
    forall i | 0 <= i < LANES
      ensures Lane(h, Right, i) == Compact(Lane(g, Right, i))
    {
      if i == 0 {} else if i == 1 {} else if i == 2 {} else {}
    }
    ApplyFromLanes(g, Right, h);
  }

  /** The lanes of move Up, spelled out cell by cell. */
  lemma UpLanes(g: seq<int>)
    requires |g| == LENGTH
    ensures Lane(g, Up, 0) == [g[0], g[4], g[8], g[12]]
    ensures Lane(g, Up, 1) == [g[1], g[5], g[9], g[13]]
    ensures Lane(g, Up, 2) == [g[2], g[6], g[10], g[14]]
    ensures Lane(g, Up, 3) == [g[3], g[7], g[11], g[15]]
  {
  }

  /** ApplyFromLanes for move Up on a board given cell by cell. */
  lemma UpFromCells(a0: int, a1: int, a2: int, a3: int, a4: int, a5: int, a6: int, a7: int, a8: int, a9: int, a10: int, a11: int, a12: int, a13: int, a14: int, a15: int,
                     b0: int, b1: int, b2: int, b3: int, b4: int, b5: int, b6: int, b7: int, b8: int, b9: int, b10: int, b11: int, b12: int, b13: int, b14: int, b15: int)
    requires Compact([a0, a4, a8, a12]) == [b0, b4, b8, b12]
    requires Compact([a1, a5, a9, a13]) == [b1, b5, b9, b13]
    requires Compact([a2, a6, a10, a14]) == [b2, b6, b10, b14]
    requires Compact([a3, a7, a11, a15]) == [b3, b7, b11, b15]
    ensures Apply([a0, a1, a2, a3, a4, a5, a6, a7, a8, a9, a10, a11, a12, a13, a14, a15], Up) == [b0, b1, b2, b3, b4, b5, b6, b7, b8, b9, b10, b11, b12, b13, b14, b15]
  {
    var g := [a0, a1, a2, a3, a4, a5, a6, a7, a8, a9, a10, a11, a12, a13, a14, a15];
    var h := [b0, b1, b2, b3, b4, b5, b6, b7, b8, b9, b10, b11, b12, b13, b14, b15];
    UpLanes(g);
    UpLanes(h);
    forall i | 0 <= i < LANES
      ensures Lane(h, Up, i) == Compact(Lane(g, Up, i))
    {
      if i == 0 {} else if i == 1 {} else if i == 2 {} else {}
    }
    ApplyFromLanes(g, Up, h);
  }

  /** The lanes of move Down, spelled out cell by cell. */
  lemma DownLanes(g: seq<int>)
    requires |g| == LENGTH
    ensures Lane(g, Down, 0) == [g[12], g[8], g[4], g[0]]
    ensures Lane(g, Down, 1) == [g[13], g[9], g[5], g[1]]
    ensures Lane(g, Down, 2) == [g[14], g[10], g[6], g[2]]
    ensures Lane(g, Down, 3) == [g[15], g[11], g[7], g[3]]
  {
  }

  /** ApplyFromLanes for move Down on a board given cell by cell. */
  lemma DownFromCells(a0: int, a1: int, a2: int, a3: int, a4: int, a5: int, a6: int, a7: int, a8: int, a9: int, a10: int, a11: int, a12: int, a13: int, a14: int, a15: int,
                     b0: int, b1: int, b2: int, b3: int, b4: int, b5: int, b6: int, b7: int, b8: int, b9: int, b10: int, b11: int, b12: int, b13: int, b14: int, b15: int)
    requires Compact([a12, a8, a4, a0]) == [b12, b8, b4, b0]
    requires Compact([a13, a9, a5, a1]) == [b13, b9, b5, b1]
    requires Compact([a14, a10, a6, a2]) == [b14, b10, b6, b2]
    requires Compact([a15, a11, a7, a3]) == [b15, b11, b7, b3]
    ensures Apply([a0, a1, a2, a3, a4, a5, a6, a7, a8, a9, a10, a11, a12, a13, a14, a15], Down) == [b0, b1, b2, b3, b4, b5, b6, b7, b8, b9, b10, b11, b12, b13, b14, b15]
  {
    var g := [a0, a1, a2, a3, a4, a5, a6, a7, a8, a9, a10, a11, a12, a13, a14, a15];
    var h := [b0, b1, b2, b3, b4, b5, b6, b7, b8, b9, b10, b11, b12, b13, b14, b15];
    DownLanes(g);
    DownLanes(h);
    forall i | 0 <= i < LANES
      ensures Lane(h, Down, i) == Compact(Lane(g, Down, i))
    {
      if i == 0 {} else if i == 1 {} else if i == 2 {} else {}
    }
    ApplyFromLanes(g, Down, h);
  }

  /** After a move every lane has its tiles against the target edge and its
      empty cells behind them. */
  lemma MovePacksLanes(g: seq<int>, m: Move, i: nat)
    requires |g| == LENGTH && i < LANES
    ensures Packed(Lane(Apply(g, m), m, i), LANES)
  {
    MoveActsOnLanes(g, m, i);
  }

  lemma Sum4(s: seq<int>)
    requires |s| == 4
    ensures Sum(s) == s[0] + s[1] + s[2] + s[3]
  {
    assert s[3..][1..] == [];
    assert Sum(s[3..]) == s[3];
    assert s[2..][1..] == s[3..];
    assert Sum(s[2..]) == s[2] + Sum(s[3..]);
    assert s[1..][1..] == s[2..];
    assert Sum(s[1..]) == s[1] + Sum(s[2..]);
  }

  /** The rows of a board, in order, make up the board. */
  lemma RowsMakeBoard(g: seq<int>)
    requires |g| == LENGTH
    ensures g == g[0..4] + g[4..8] + g[8..12] + g[12..16]
  {
  }

  /** The total of a board, cell by cell. */
  lemma Sum16(g: seq<int>)
    requires |g| == LENGTH
    ensures Sum(g) == g[0] + g[1] + g[2] + g[3] + g[4] + g[5] + g[6] + g[7]
                    + g[8] + g[9] + g[10] + g[11] + g[12] + g[13] + g[14] + g[15]
  {
    var a, b, c, d := g[0..4], g[4..8], g[8..12], g[12..16];
    RowsMakeBoard(g);
    SumConcat(a + b + c, d);
    SumConcat(a + b, c);
    SumConcat(a, b);
    Sum4(a);
    Sum4(b);
    Sum4(c);
    Sum4(d);
  }

  /** The board's total is the sum of the totals of the lanes of any move. */
  lemma SumByLanes(g: seq<int>, m: Move)
    requires |g| == LENGTH
    ensures Sum(g) == Sum(Lane(g, m, 0)) + Sum(Lane(g, m, 1)) + Sum(Lane(g, m, 2)) + Sum(Lane(g, m, 3))
  {
    Sum16(g);
    Sum4(Lane(g, m, 0));
    Sum4(Lane(g, m, 1));
    Sum4(Lane(g, m, 2));
    Sum4(Lane(g, m, 3));
  }

  /** The board's tile count is the sum of the tile counts of the lanes of any move. */
  lemma TilesByLanes(g: seq<int>, m: Move)
    requires |g| == LENGTH
    ensures Tiles(g) == Tiles(Lane(g, m, 0)) + Tiles(Lane(g, m, 1)) + Tiles(Lane(g, m, 2)) + Tiles(Lane(g, m, 3))
  {
    var occupied := Occupancy(g);
    SumByLanes(occupied, m);
    TilesAreOccupancy(g);
    forall i | 0 <= i < LANES
      ensures Tiles(Lane(g, m, i)) == Sum(Lane(occupied, m, i))
    {
      assert Lane(occupied, m, i) == Occupancy(Lane(g, m, i));
      TilesAreOccupancy(Lane(g, m, i));
    }
  }

  /** A move never changes the board's total. */
  lemma MoveKeepsSum(g: seq<int>, m: Move)
    requires |g| == LENGTH
    ensures Sum(Apply(g, m)) == Sum(g)
  {
    var r := Apply(g, m);
    SumByLanes(g, m);
    SumByLanes(r, m);
    LaneKeepsSum(g, m, 0);
    LaneKeepsSum(g, m, 1);
    LaneKeepsSum(g, m, 2);
    LaneKeepsSum(g, m, 3);
  }

  /** A move never adds a tile. */
  lemma MoveAddsNoTile(g: seq<int>, m: Move)
    requires |g| == LENGTH
    ensures Tiles(Apply(g, m)) <= Tiles(g)
  {
    var r := Apply(g, m);
    TilesByLanes(g, m);
    TilesByLanes(r, m);
    LaneKeepsSum(g, m, 0);
    LaneKeepsSum(g, m, 1);
    LaneKeepsSum(g, m, 2);
    LaneKeepsSum(g, m, 3);
  }

  /** One lane of a move keeps its total and gains no tile. */
  lemma LaneKeepsSum(g: seq<int>, m: Move, i: nat)
    requires |g| == LENGTH && i < LANES
    ensures Sum(Lane(Apply(g, m), m, i)) == Sum(Lane(g, m, i))
    ensures Tiles(Lane(Apply(g, m), m, i)) <= Tiles(Lane(g, m, i))
  {
    MoveActsOnLanes(g, m, i);
  }

  /** A move leaves the board unchanged exactly when, in every lane, the tiles
      already sit against the target edge with no two equal tiles adjacent. */
  lemma MoveUnchangedIff(g: seq<int>, m: Move)
    requires |g| == LENGTH
    ensures Apply(g, m) == g <==>
      forall i :: 0 <= i < LANES ==> Packed(Lane(g, m, i), LANES) && Mergeless(Lane(g, m, i))
  {
    if Apply(g, m) == g {
      forall i | 0 <= i < LANES
        ensures Packed(Lane(g, m, i), LANES) && Mergeless(Lane(g, m, i))
      {
        MoveActsOnLanes(g, m, i);
        CompactUnchangedIff(Lane(g, m, i));
      }
    }
    if forall i :: 0 <= i < LANES ==> Packed(Lane(g, m, i), LANES) && Mergeless(Lane(g, m, i)) {
      forall p | 0 <= p < LENGTH
        ensures Apply(g, m)[p] == g[p]
      {
        CompactUnchangedIff(Lane(g, m, LaneOf(m, p)));
        CellOfPosition(m, p);
      }
    }
  }

  // ---------------------------------------------------------------------
  // The four moves are one algorithm

  /** The board with every row reversed. */
  function MirrorRows(g: seq<int>): (r: seq<int>)
    requires |g| == LENGTH
    ensures |r| == LENGTH
  {
    seq(LENGTH, p requires 0 <= p < LENGTH => g[Index(p / COLUMNS, COLUMNS - 1 - p % COLUMNS)])
  }

  /** The board with rows and columns exchanged. */
  function Transpose(g: seq<int>): (r: seq<int>)
    requires |g| == LENGTH
    ensures |r| == LENGTH
  {
    seq(LENGTH, p requires 0 <= p < LENGTH => g[Index(p % COLUMNS, p / COLUMNS)])
  }

  /** Moving right is moving left on the mirrored board, mirrored back. */
  lemma RightMirrorsLeft(g: seq<int>)
    requires |g| == LENGTH
    ensures Apply(g, Right) == MirrorRows(Apply(MirrorRows(g), Left))
  {
    forall i | 0 <= i < LANES
      ensures Lane(MirrorRows(g), Left, i) == Lane(g, Right, i)
    {
    }
  }

  /** Moving up is moving left on the transposed board, transposed back. */
  lemma UpTransposesLeft(g: seq<int>)
    requires |g| == LENGTH
    ensures Apply(g, Up) == Transpose(Apply(Transpose(g), Left))
  {
    forall i | 0 <= i < LANES
      ensures Lane(Transpose(g), Left, i) == Lane(g, Up, i)
    {
    }
  }

  /** Moving down is moving right on the transposed board, transposed back. */
  lemma DownTransposesRight(g: seq<int>)
    requires |g| == LENGTH
    ensures Apply(g, Down) == Transpose(Apply(Transpose(g), Right))
  {
    forall i | 0 <= i < LANES
      ensures Lane(Transpose(g), Right, i) == Lane(g, Down, i)
    {
    }
  }

  // ---------------------------------------------------------------------
  // Free cells and the end of the game

  /** The positions of the empty cells. */
  function FreeCells(g: seq<int>): set<int>
  {
    set p | 0 <= p < |g| && g[p] == 0
  }

  /** No position is free exactly when every cell holds a tile. */
  lemma NoFreeCells(g: seq<int>)
    ensures FreeCells(g) == {} <==> forall p :: 0 <= p < |g| ==> g[p] != 0
  {
    if exists p :: 0 <= p < |g| && g[p] == 0 {
      var p :| 0 <= p < |g| && g[p] == 0;
      assert p in FreeCells(g);
    }
  }

  /** Positions p < q that are horizontal or vertical neighbours. */
  predicate Adjacent(p: int, q: int)
  {
    q == p + COLUMNS || (q == p + 1 && q % COLUMNS != 0)
  }

  /** Some two neighbouring cells hold the same value. */
  ghost predicate Mergeable(g: seq<int>)
    requires |g| == LENGTH
  {
    exists p, q :: 0 <= p < q < LENGTH && Adjacent(p, q) && g[p] == g[q]
  }

  /** Position p equals the cell below it or the cell to its right. */
  predicate PairsForward(g: seq<int>, p: nat)
    requires |g| == LENGTH && p < LENGTH
  {
    (p + COLUMNS < LENGTH && g[p] == g[p + COLUMNS]) || ((p + 1) % COLUMNS != 0 && g[p] == g[p + 1])
  }

  /** Looking at every cell's lower and right neighbour finds every equal pair. */
  lemma MergeableScan(g: seq<int>)
    requires |g| == LENGTH
    ensures Mergeable(g) <==> exists p :: 0 <= p < LENGTH && PairsForward(g, p)
  {
    if Mergeable(g) {
      var p, q :| 0 <= p < q < LENGTH && Adjacent(p, q) && g[p] == g[q];
      assert PairsForward(g, p);
    }
    if exists p :: 0 <= p < LENGTH && PairsForward(g, p) {
      var p :| 0 <= p < LENGTH && PairsForward(g, p);
      if p + COLUMNS < LENGTH && g[p] == g[p + COLUMNS] {
        assert Adjacent(p, p + COLUMNS);
      } else {
        assert Adjacent(p, p + 1);
      }
    }
  }

  /** The game is over: no cell is empty and no two neighbours are equal. */
  ghost predicate Terminal(g: seq<int>)
    requires |g| == LENGTH
  {
    (forall p :: 0 <= p < LENGTH ==> g[p] != 0) && !Mergeable(g)
  }

  /** Consecutive cells of a lane are neighbours on the board. */
  lemma LaneNeighbours(m: Move, i: nat, k: nat)
    requires i < LANES && k + 1 < LANES
    ensures Adjacent(Cell(m, i, k), Cell(m, i, k + 1)) || Adjacent(Cell(m, i, k + 1), Cell(m, i, k))
  {
  }

  /** On a finished board no move changes anything. */
  lemma TerminalIsStuck(g: seq<int>, m: Move)
    requires |g| == LENGTH && Terminal(g)
    ensures Apply(g, m) == g
  {
    forall i | 0 <= i < LANES
      ensures Packed(Lane(g, m, i), LANES) && Mergeless(Lane(g, m, i))
    {
      forall k | 0 <= k < LANES - 1
        ensures Lane(g, m, i)[k] != Lane(g, m, i)[k + 1]
      {
        LaneNeighbours(m, i, k);
      }
    }
    MoveUnchangedIff(g, m);
  }

  /** On a board with no empty cell, the game is over exactly when no move
      changes anything. */
  lemma FullBoardOverIff(g: seq<int>)
    requires |g| == LENGTH && forall p :: 0 <= p < LENGTH ==> g[p] != 0
    ensures Terminal(g) <==> forall m :: Apply(g, m) == g
  {
    if Terminal(g) {
      forall m
        ensures Apply(g, m) == g
      {
        TerminalIsStuck(g, m);
      }
    } else {
      var p, q :| 0 <= p < q < LENGTH && Adjacent(p, q) && g[p] == g[q];
      var m, i, k := if q == p + COLUMNS then Up else Left, 0, 0;
      if q == p + COLUMNS {
        i, k := p % COLUMNS, p / COLUMNS;
      } else {
        i, k := p / COLUMNS, p % COLUMNS;
      }
      assert Cell(m, i, k) == p && Cell(m, i, k + 1) == q;
      assert Lane(g, m, i)[k] == g[p] && Lane(g, m, i)[k + 1] == g[q];
      assert !Mergeless(Lane(g, m, i));
      MoveUnchangedIff(g, m);
    }
  }
}
