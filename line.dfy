/** The compaction state machine that every directional move of the board runs
    on one lane: a row or a column, read from the target edge inward, so that
    position 0 is the cell the tiles slide toward.

    A move runs one pass per position c (in order 0, 1, ...). Pass c runs the
    windows c, c - 1, ..., 1; window w compares the cell at w with the cell at
    w - 1 ("previous", one step closer to the target edge) and either slides the
    current value into an empty previous cell, or merges two equal values into
    the previous cell when that cell has not yet absorbed a merge in this move,
    or does nothing. */
module Line {

  /** The cells of one lane and the per-position `combined` flags of the move. */
  datatype State = State(cells: seq<int>, combined: seq<bool>)

  predicate Shaped(s: State) {
    |s.cells| == |s.combined|
  }

  /** One for true, zero for false. */
  function Flag(b: bool): nat
  {
    if b then 1 else 0
  }

  /** The state a move starts from: no position has absorbed a merge yet. */
  function Start(line: seq<int>): (s: State)
    ensures Shaped(s) && s.cells == line
    ensures forall k :: 0 <= k < |line| ==> !s.combined[k]
  {
    State(line, seq(|line|, _ => false))
  }

  /** Window `w` merges the cell at `w` into the cell at `w - 1`. */
  predicate Merges(s: State, w: nat)
    requires Shaped(s) && 1 <= w < |s.cells|
  {
    s.cells[w - 1] != 0 && s.cells[w - 1] == s.cells[w] && !s.combined[w - 1]
  }

  /** One window of a pass. */
  function Step(s: State, w: nat): (r: State)
    requires Shaped(s) && 1 <= w < |s.cells|
    ensures Shaped(r) && |r.cells| == |s.cells|
  {
    var previous := s.cells[w - 1];
    var current := s.cells[w];
    if previous == 0 then
      State(s.cells[w - 1 := current][w := 0], s.combined)
    else if previous == current && !s.combined[w - 1] then
      State(s.cells[w - 1 := previous + current][w := 0], s.combined[w - 1 := true])
    else
      s
  }

  /** The windows w, w - 1, ..., 1, in that order. */
  function Sweep(s: State, w: nat): (r: State)
    requires Shaped(s) && w < |s.cells|
    ensures Shaped(r) && |r.cells| == |s.cells|
    decreases w
  {
    if w == 0 then s else Sweep(Step(s, w), w - 1)
  }

  /** The passes c, c + 1, ..., |cells| - 1, in that order. */
  function Passes(s: State, c: nat): (r: State)
    requires Shaped(s) && c <= |s.cells|
    ensures Shaped(r) && |r.cells| == |s.cells|
    decreases |s.cells| - c
  {
    if c == |s.cells| then s else Passes(Sweep(s, c), c + 1)
  }

  /** The lane after a whole move. */
  function Compact(line: seq<int>): (r: seq<int>)
    ensures |r| == |line|
    ensures Sum(r) == Sum(line)
    ensures Tiles(r) <= Tiles(line)
    ensures Packed(r, |r|)
  {
    PassesKeepSum(Start(line), 0);
    PassesPack(Start(line), 0);
    Passes(Start(line), 0).cells
  }

  // ---------------------------------------------------------------------
  // Sums and tile counts

  function Sum(s: seq<int>): int
  {
    if s == [] then 0 else s[0] + Sum(s[1..])
  }

  /** The number of occupied (nonzero) cells. */
  function Tiles(s: seq<int>): nat
  {
    if s == [] then 0 else Flag(s[0] != 0) + Tiles(s[1..])
  }

  /** One for every occupied cell, zero for every empty one. */
  function Occupancy(s: seq<int>): (r: seq<int>)
    ensures |r| == |s|
  {
    seq(|s|, i requires 0 <= i < |s| => Flag(s[i] != 0))
  }

  lemma {:induction false} TilesAreOccupancy(s: seq<int>)
    ensures Tiles(s) == Sum(Occupancy(s))
  {
    if s != [] {
      assert Occupancy(s)[1..] == Occupancy(s[1..]);
      TilesAreOccupancy(s[1..]);
    }
  }

  lemma {:induction false} SumConcat(a: seq<int>, b: seq<int>)
    ensures Sum(a + b) == Sum(a) + Sum(b)
  {
    if a == [] {
      assert a + b == b;
    } else {
      assert (a + b)[1..] == a[1..] + b;
      SumConcat(a[1..], b);
    }
  }

  lemma {:induction false} SumUpdate(a: seq<int>, i: nat, v: int)
    requires i < |a|
    ensures Sum(a[i := v]) == Sum(a) - a[i] + v
  {
    if i == 0 {
      assert a[i := v][1..] == a[1..];
    } else {
      assert a[i := v][1..] == a[1..][i - 1 := v];
      SumUpdate(a[1..], i - 1, v);
    }
  }

  lemma {:induction false} TilesUpdate(a: seq<int>, i: nat, v: int)
    requires i < |a|
    ensures Tiles(a[i := v]) == Tiles(a) - Flag(a[i] != 0) + Flag(v != 0)
  {
    if i == 0 {
      assert a[i := v][1..] == a[1..];
    } else {
      assert a[i := v][1..] == a[1..][i - 1 := v];
      TilesUpdate(a[1..], i - 1, v);
    }
  }

  /** A slide moves a value and a merge adds the source into the target: either
      way the lane's total is unchanged. A merge empties one cell and fills none. */
  lemma StepAccounting(s: State, w: nat)
    requires Shaped(s) && 1 <= w < |s.cells|
    ensures Sum(Step(s, w).cells) == Sum(s.cells)
    ensures Tiles(Step(s, w).cells) == Tiles(s.cells) - Flag(Merges(s, w))
  {
    var a := s.cells;
    if a[w - 1] == 0 {
      SumUpdate(a, w - 1, a[w]);
      SumUpdate(a[w - 1 := a[w]], w, 0);
      TilesUpdate(a, w - 1, a[w]);
      TilesUpdate(a[w - 1 := a[w]], w, 0);
    } else if a[w - 1] == a[w] && !s.combined[w - 1] {
      SumUpdate(a, w - 1, a[w - 1] + a[w]);
      SumUpdate(a[w - 1 := a[w - 1] + a[w]], w, 0);
      TilesUpdate(a, w - 1, a[w - 1] + a[w]);
      TilesUpdate(a[w - 1 := a[w - 1] + a[w]], w, 0);
    }
  }

  lemma {:induction false} SweepKeepsSum(s: State, w: nat)
    requires Shaped(s) && w < |s.cells|
    ensures Sum(Sweep(s, w).cells) == Sum(s.cells)
    ensures Tiles(Sweep(s, w).cells) <= Tiles(s.cells)
    decreases w
  {
    if w > 0 {
      StepAccounting(s, w);
      SweepKeepsSum(Step(s, w), w - 1);
    }
  }

  lemma {:induction false} PassesKeepSum(s: State, c: nat)
    requires Shaped(s) && c <= |s.cells|
    ensures Sum(Passes(s, c).cells) == Sum(s.cells)
    ensures Tiles(Passes(s, c).cells) <= Tiles(s.cells)
    decreases |s.cells| - c
  {
    if c < |s.cells| {
      SweepKeepsSum(s, c);
      PassesKeepSum(Sweep(s, c), c + 1);
    }
  }

  // ---------------------------------------------------------------------
  // Packing: after a move the occupied cells come first, the empty ones last.

  /** Among the first n cells, no occupied cell follows an empty one. */
  ghost predicate Packed(a: seq<int>, n: nat)
    requires n <= |a|
  {
    forall i, j :: 0 <= i < j < n && a[i] == 0 ==> a[j] == 0
  }

  /** Among the first n cells, every pair of equal occupied neighbours is
      blocked by the flag of the cell nearer the edge, so no window there can
      merge any more. */
  ghost predicate Settled(s: State, n: nat)
    requires Shaped(s) && n <= |s.cells|
  {
    forall k :: 0 <= k < n - 1 && s.cells[k] != 0 && s.cells[k] == s.cells[k + 1] ==> s.combined[k]
  }

  /** Once the first w + 1 cells are packed and settled, the windows w..1 change nothing. */
  lemma {:induction false} SweepSettled(s: State, w: nat)
    requires Shaped(s) && w < |s.cells|
    requires Packed(s.cells, w + 1) && Settled(s, w + 1)
    ensures Sweep(s, w) == s
    decreases w
  {
    if w > 0 {
      if s.cells[w - 1] == 0 {
        assert s.cells[w] == 0;
        assert s.cells[w - 1 := s.cells[w]][w := 0] == s.cells;
      }
      assert Step(s, w) == s;
      SweepSettled(s, w - 1);
    }
  }

  /** The value that entered the sweep at position c travels toward the edge
      through empty cells and merges; the cells behind it are empty. When it
      stops, the first c + 1 cells are packed and settled. */
  lemma {:induction false} SweepCarries(s: State, w: nat, c: nat)
    requires Shaped(s) && w <= c < |s.cells|
    requires Packed(s.cells, w) && Settled(s, w)
    requires forall j :: w < j <= c ==> s.cells[j] == 0
    ensures Packed(Sweep(s, w).cells, c + 1) && Settled(Sweep(s, w), c + 1)
    decreases w
  {
    if w > 0 {
      var t := Step(s, w);
      if s.cells[w - 1] == 0 || Merges(s, w) {
        assert forall i :: 0 <= i < w - 1 ==> t.cells[i] == s.cells[i] && t.combined[i] == s.combined[i];
        assert t.cells[w] == 0;
        assert forall j :: w < j <= c ==> t.cells[j] == s.cells[j];
        SweepCarries(t, w - 1, c);
      } else {
        // The carried value stopped at w: everything nearer the edge is occupied.
        assert t == s;
        assert s.cells[w - 1] != s.cells[w] || s.combined[w - 1];
        SweepSettled(s, w - 1);
      }
    }
  }

  lemma {:induction false} PassesPack(s: State, c: nat)
    requires Shaped(s) && c <= |s.cells|
    requires Packed(s.cells, c) && Settled(s, c)
    ensures Packed(Passes(s, c).cells, |s.cells|) && Settled(Passes(s, c), |s.cells|)
    decreases |s.cells| - c
  {
    if c < |s.cells| {
      SweepCarries(s, c, c);
      PassesPack(Sweep(s, c), c + 1);
    }
  }

  // ---------------------------------------------------------------------
  // When a move leaves a lane unchanged

  /** No occupied cell has an equal neighbour farther from the edge. */
  ghost predicate Mergeless(a: seq<int>)
  {
    forall k :: 0 <= k < |a| - 1 && a[k] != 0 ==> a[k] != a[k + 1]
  }

  /** Passes over a prefix that is already packed and settled change nothing. */
  lemma {:induction false} PassesSkip(s: State, c: nat, m: nat)
    requires Shaped(s) && c <= m <= |s.cells|
    requires Packed(s.cells, m) && Settled(s, m)
    ensures Passes(s, c) == Passes(s, m)
    decreases m - c
  {
    if c < m {
      SweepSettled(s, c);
      PassesSkip(s, c + 1, m);
    }
  }

  /** If a move leaves the lane as it was, the first m cells of the lane hold no
      equal occupied neighbours: the first such pair would merge and lose a tile. */
  lemma {:induction false} UnchangedIsSettled(a: seq<int>, m: nat)
    requires Compact(a) == a && 1 <= m <= |a|
    ensures Settled(Start(a), m)
    decreases m
  {
    var s := Start(a);
    if m > 1 {
      UnchangedIsSettled(a, m - 1);
      if a[m - 2] != 0 && a[m - 2] == a[m - 1] {
        FirstPairLosesTile(a, m);
        assert false;
      }
    }
  }

  /** When the first m - 1 cells are packed and settled and cells m - 2 and
      m - 1 hold equal tiles, the move merges them and so loses a tile. */
  lemma FirstPairLosesTile(a: seq<int>, m: nat)
    requires 2 <= m <= |a| && Packed(a, m - 1) && Settled(Start(a), m - 1)
    requires a[m - 2] != 0 && a[m - 2] == a[m - 1]
    ensures Tiles(Compact(a)) < Tiles(a)
  {
    var s := Start(a);
    PassesSkip(s, 0, m - 1);
    assert Passes(s, m - 1) == Passes(Sweep(s, m - 1), m);
    assert Sweep(s, m - 1) == Sweep(Step(s, m - 1), m - 2);
    assert Merges(s, m - 1);
    StepAccounting(s, m - 1);
    SweepKeepsSum(Step(s, m - 1), m - 2);
    PassesKeepSum(Sweep(s, m - 1), m);
  }

  /** A move leaves a lane unchanged exactly when its tiles already sit against
      the edge with no two equal tiles next to each other. */
  lemma CompactUnchangedIff(a: seq<int>)
    ensures Compact(a) == a <==> Packed(a, |a|) && Mergeless(a)
  {
    var s := Start(a);
    if Compact(a) == a {
      if |a| > 0 {
        UnchangedIsSettled(a, |a|);
      }
    }
    if Packed(a, |a|) && Mergeless(a) {
      PassesSkip(s, 0, |a|);
    }
  }

  // ---------------------------------------------------------------------
  // Each position absorbs at most one merge per move

  /** The number of merges into position k made by the windows w, ..., 1. */
  ghost function SweepAbsorbs(s: State, w: nat, k: nat): nat
    requires Shaped(s) && w < |s.cells|
    decreases w
  {
    if w == 0 then 0
    else (if Merges(s, w) && k == w - 1 then 1 else 0) + SweepAbsorbs(Step(s, w), w - 1, k)
  }

  /** The number of merges into position k made by the passes c, ..., |cells| - 1. */
  ghost function PassesAbsorb(s: State, c: nat, k: nat): nat
    requires Shaped(s) && c <= |s.cells|
    decreases |s.cells| - c
  {
    if c == |s.cells| then 0 else SweepAbsorbs(s, c, k) + PassesAbsorb(Sweep(s, c), c + 1, k)
  }

  lemma {:induction false} SweepAbsorbsBound(s: State, w: nat, k: nat)
    requires Shaped(s) && w < |s.cells| && k < |s.cells|
    ensures SweepAbsorbs(s, w, k) + Flag(s.combined[k]) <= Flag(Sweep(s, w).combined[k])
    decreases w
  {
    if w > 0 {
      SweepAbsorbsBound(Step(s, w), w - 1, k);
    }
  }

  lemma {:induction false} PassesAbsorbBound(s: State, c: nat, k: nat)
    requires Shaped(s) && c <= |s.cells| && k < |s.cells|
    ensures PassesAbsorb(s, c, k) + Flag(s.combined[k]) <= Flag(Passes(s, c).combined[k])
    decreases |s.cells| - c
  {
    if c < |s.cells| {
      SweepAbsorbsBound(s, c, k);
      PassesAbsorbBound(Sweep(s, c), c + 1, k);
    }
  }

  /** Over a whole move, no position takes part in more than one merge as its target. */
  lemma AbsorbsAtMostOnce(line: seq<int>, k: nat)
    requires k < |line|
    ensures PassesAbsorb(Start(line), 0, k) <= 1
  {
    PassesAbsorbBound(Start(line), 0, k);
  }
}
