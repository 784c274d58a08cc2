/** Concrete lanes and boards: the cases exercised by the engine's unit tests in
    caei-core/src/lib.rs,
    and boards that show where the engine departs from the usual rules of the
    game. */
module Examples {
  import opened Line
  import opened Grid

  // ---------------------------------------------------------------------
  // Lanes

  /** A lane without tiles stays empty. */
  lemma EmptyLaneStaysEmpty()
    ensures Compact([0, 0, 0, 0]) == [0, 0, 0, 0]
  {
  }

  /** A lone tile slides all the way to the edge. */
  lemma TileSlidesToEdge()
    ensures Compact([0, 0, 0, 2]) == [2, 0, 0, 0]
  {
  }

  /** Two equal neighbours merge and the sum reaches the edge. */
  lemma PairSlidesAndMerges()
    ensures Compact([0, 0, 2, 2]) == [4, 0, 0, 0]
  {
  }

  /** Equal tiles with an empty cell between them merge. */
  lemma PairMergesAcrossGap()
    ensures Compact([0, 2, 0, 2]) == [4, 0, 0, 0]
  {
  }

  /** Equal tiles at the two ends of a lane merge. */
  lemma DistantPairMerges()
    ensures Compact([2, 0, 0, 2]) == [4, 0, 0, 0]
  {
  }

  /** Unequal tiles close up in their original order. */
  lemma UnequalTilesKeepOrder()
    ensures Compact([0, 2, 4, 0]) == [2, 4, 0, 0]
  {
  }

  /** A tile already at the edge stays there. */
  lemma TileAtEdgeStays()
    ensures Compact([2, 0, 0, 0]) == [2, 0, 0, 0]
  {
  }

  /** Of three equal tiles, the two nearest the edge merge. */
  lemma PairNearestEdgeMerges()
    ensures Compact([2, 2, 0, 2]) == [4, 2, 0, 0]
  {
  }

  /** A position that has absorbed a merge takes no second one, even from an equal tile: [2,2,0,4] becomes [4,4,0,0]. */
  lemma AbsorbedPositionTakesOneMerge()
    ensures Compact([2, 2, 0, 4]) == [4, 4, 0, 0]
  {
  }

  /** Three equal tiles: the two nearest the edge merge, the third follows. */
  lemma ThreeEqualTiles()
    ensures Compact([2, 2, 2, 0]) == [4, 2, 0, 0]
  {
  }

  /** Four equal tiles make two merges: [2,2,2,2] becomes [4,4,0,0]. */
  lemma FourEqualTiles()
    ensures Compact([2, 2, 2, 2]) == [4, 4, 0, 0]
  {
  }

  /** A merged tile stops against an unequal one. */
  lemma MergeStopsAtUnequalTile()
    ensures Compact([8, 0, 2, 2]) == [8, 4, 0, 0]
  {
  }

  /** The tile a merge produces can merge again in the same move, because the
      flag guards only the position that absorbed the merge: [4,2,2,0] becomes
      [8,0,0,0]. */
  lemma MergedTileMergesAgain()
    ensures Compact([4, 2, 2, 0]) == [8, 0, 0, 0]
  {
  }

  /** The chain goes on across the whole lane: each pass merges the tile just
      produced into the next one, so [8,4,2,2] takes three merges and becomes
      [16,0,0,0]. */
  lemma ChainMergesWholeLane()
    ensures Compact([8, 4, 2, 2]) == [16, 0, 0, 0]
  {
  }

  // ---------------------------------------------------------------------
  // Boards (caei-core/src/lib.rs, module tests)

  lemma MoveLeftCase1()
    ensures Apply([0, 0, 0, 2, 0, 2, 0, 2, 2, 2, 0, 2, 2, 2, 2, 0], Left) ==
            [2, 0, 0, 0, 4, 0, 0, 0, 4, 2, 0, 0, 4, 2, 0, 0]
  {
    TileSlidesToEdge();
    PairMergesAcrossGap();
    PairNearestEdgeMerges();
    ThreeEqualTiles();
    LeftFromCells(0, 0, 0, 2, 0, 2, 0, 2, 2, 2, 0, 2, 2, 2, 2, 0,
                   2, 0, 0, 0, 4, 0, 0, 0, 4, 2, 0, 0, 4, 2, 0, 0);
  }

  lemma MoveLeftCase2()
    ensures Apply([0, 0, 0, 0, 2, 2, 2, 2, 2, 0, 0, 0, 0, 0, 2, 2], Left) ==
            [0, 0, 0, 0, 4, 4, 0, 0, 2, 0, 0, 0, 4, 0, 0, 0]
  {
    EmptyLaneStaysEmpty();
    FourEqualTiles();
    TileAtEdgeStays();
    PairSlidesAndMerges();
    LeftFromCells(0, 0, 0, 0, 2, 2, 2, 2, 2, 0, 0, 0, 0, 0, 2, 2,
                   0, 0, 0, 0, 4, 4, 0, 0, 2, 0, 0, 0, 4, 0, 0, 0);
  }

  lemma MoveLeftCase3()
    ensures Apply([0, 2, 4, 0, 8, 0, 2, 2, 2, 2, 0, 4, 2, 0, 0, 2], Left) ==
            [2, 4, 0, 0, 8, 4, 0, 0, 4, 4, 0, 0, 4, 0, 0, 0]
  {
    UnequalTilesKeepOrder();
    MergeStopsAtUnequalTile();
    AbsorbedPositionTakesOneMerge();
    DistantPairMerges();
    LeftFromCells(0, 2, 4, 0, 8, 0, 2, 2, 2, 2, 0, 4, 2, 0, 0, 2,
                   2, 4, 0, 0, 8, 4, 0, 0, 4, 4, 0, 0, 4, 0, 0, 0);
  }

  lemma MoveRightCase1()
    ensures Apply([2, 0, 0, 0, 2, 0, 2, 0, 2, 0, 2, 2, 0, 2, 2, 2], Right) ==
            [0, 0, 0, 2, 0, 0, 0, 4, 0, 0, 2, 4, 0, 0, 2, 4]
  {
    TileSlidesToEdge();
    PairMergesAcrossGap();
    PairNearestEdgeMerges();
    ThreeEqualTiles();
    RightFromCells(2, 0, 0, 0, 2, 0, 2, 0, 2, 0, 2, 2, 0, 2, 2, 2,
                    0, 0, 0, 2, 0, 0, 0, 4, 0, 0, 2, 4, 0, 0, 2, 4);
  }

  lemma MoveRightCase2()
    ensures Apply([0, 0, 0, 0, 2, 2, 2, 2, 0, 0, 0, 2, 2, 2, 0, 0], Right) ==
            [0, 0, 0, 0, 0, 0, 4, 4, 0, 0, 0, 2, 0, 0, 0, 4]
  {
    EmptyLaneStaysEmpty();
    FourEqualTiles();
    TileAtEdgeStays();
    PairSlidesAndMerges();
    RightFromCells(0, 0, 0, 0, 2, 2, 2, 2, 0, 0, 0, 2, 2, 2, 0, 0,
                    0, 0, 0, 0, 0, 0, 4, 4, 0, 0, 0, 2, 0, 0, 0, 4);
  }

  lemma MoveRightCase3()
    ensures Apply([0, 4, 2, 0, 2, 2, 0, 8, 4, 0, 2, 2, 2, 0, 0, 2], Right) ==
            [0, 0, 4, 2, 0, 0, 4, 8, 0, 0, 4, 4, 0, 0, 0, 4]
  {
    UnequalTilesKeepOrder();
    MergeStopsAtUnequalTile();
    AbsorbedPositionTakesOneMerge();
    DistantPairMerges();
    RightFromCells(0, 4, 2, 0, 2, 2, 0, 8, 4, 0, 2, 2, 2, 0, 0, 2,
                    0, 0, 4, 2, 0, 0, 4, 8, 0, 0, 4, 4, 0, 0, 0, 4);
  }

  lemma MoveUpCase1()
    ensures Apply([0, 0, 2, 2, 0, 2, 2, 2, 0, 0, 0, 2, 2, 2, 2, 0], Up) ==
            [2, 4, 4, 4, 0, 0, 2, 2, 0, 0, 0, 0, 0, 0, 0, 0]
  {
    TileSlidesToEdge();
    PairMergesAcrossGap();
    PairNearestEdgeMerges();
    ThreeEqualTiles();
    UpFromCells(0, 0, 2, 2, 0, 2, 2, 2, 0, 0, 0, 2, 2, 2, 2, 0,
                 2, 4, 4, 4, 0, 0, 2, 2, 0, 0, 0, 0, 0, 0, 0, 0);
  }

  lemma MoveUpCase2()
    ensures Apply([0, 2, 2, 0, 0, 2, 0, 0, 0, 2, 0, 2, 0, 2, 0, 2], Up) ==
            [0, 4, 2, 4, 0, 4, 0, 0, 0, 0, 0, 0, 0, 0, 0, 0]
  {
    EmptyLaneStaysEmpty();
    FourEqualTiles();
    TileAtEdgeStays();
    PairSlidesAndMerges();
    UpFromCells(0, 2, 2, 0, 0, 2, 0, 0, 0, 2, 0, 2, 0, 2, 0, 2,
                 0, 4, 2, 4, 0, 4, 0, 0, 0, 0, 0, 0, 0, 0, 0, 0);
  }

  lemma MoveUpCase3()
    ensures Apply([0, 8, 2, 2, 2, 0, 2, 0, 4, 2, 0, 0, 0, 2, 4, 2], Up) ==
            [2, 8, 4, 4, 4, 4, 4, 0, 0, 0, 0, 0, 0, 0, 0, 0]
  {
    UnequalTilesKeepOrder();
    MergeStopsAtUnequalTile();
    AbsorbedPositionTakesOneMerge();
    DistantPairMerges();
    UpFromCells(0, 8, 2, 2, 2, 0, 2, 0, 4, 2, 0, 0, 0, 2, 4, 2,
                 2, 8, 4, 4, 4, 4, 4, 0, 0, 0, 0, 0, 0, 0, 0, 0);
  }

  lemma MoveDownCase1()
    ensures Apply([2, 2, 2, 0, 0, 0, 0, 2, 0, 2, 2, 2, 0, 0, 2, 2], Down) ==
            [0, 0, 0, 0, 0, 0, 0, 0, 0, 0, 2, 2, 2, 4, 4, 4]
  {
    TileSlidesToEdge();
    PairMergesAcrossGap();
    PairNearestEdgeMerges();
    ThreeEqualTiles();
    DownFromCells(2, 2, 2, 0, 0, 0, 0, 2, 0, 2, 2, 2, 0, 0, 2, 2,
                   0, 0, 0, 0, 0, 0, 0, 0, 0, 0, 2, 2, 2, 4, 4, 4);
  }

  lemma MoveDownCase2()
    ensures Apply([0, 2, 0, 2, 0, 2, 0, 2, 0, 2, 0, 0, 0, 2, 2, 0], Down) ==
            [0, 0, 0, 0, 0, 0, 0, 0, 0, 4, 0, 0, 0, 4, 2, 4]
  {
    EmptyLaneStaysEmpty();
    FourEqualTiles();
    TileAtEdgeStays();
    PairSlidesAndMerges();
    DownFromCells(0, 2, 0, 2, 0, 2, 0, 2, 0, 2, 0, 0, 0, 2, 2, 0,
                   0, 0, 0, 0, 0, 0, 0, 0, 0, 4, 0, 0, 0, 4, 2, 4);
  }

  lemma MoveDownCase3()
    ensures Apply([0, 2, 4, 2, 4, 2, 0, 0, 2, 0, 2, 0, 0, 8, 2, 2], Down) ==
            [0, 0, 0, 0, 0, 0, 0, 0, 4, 4, 4, 0, 2, 8, 4, 4]
  {
    UnequalTilesKeepOrder();
    MergeStopsAtUnequalTile();
    AbsorbedPositionTakesOneMerge();
    DistantPairMerges();
    DownFromCells(0, 2, 4, 2, 4, 2, 0, 0, 2, 0, 2, 0, 0, 8, 2, 2,
                   0, 0, 0, 0, 0, 0, 0, 0, 4, 4, 4, 0, 2, 8, 4, 4);
  }

  // ---------------------------------------------------------------------
  // End of the game (caei-core/src/lib.rs, test is_over)

  /** Full, but the two 4s at the end of the last row can merge. */
  lemma PairInLastRowIsNotOver()
    ensures !Terminal([8, 4, 2, 4, 2, 8, 4, 2, 8, 4, 2, 4, 2, 8, 4, 4])
  {
    var g := [8, 4, 2, 4, 2, 8, 4, 2, 8, 4, 2, 4, 2, 8, 4, 4];
    assert Adjacent(14, 15) && g[14] == g[15];
  }

  /** Full, but the two 4s at the start of the first row can merge. */
  lemma PairInFirstRowIsNotOver()
    ensures !Terminal([4, 4, 2, 4, 2, 8, 4, 2, 8, 4, 2, 4, 2, 8, 4, 2])
  {
    var g := [4, 4, 2, 4, 2, 8, 4, 2, 8, 4, 2, 4, 2, 8, 4, 2];
    assert Adjacent(0, 1) && g[0] == g[1];
  }

  /** Full, but the third row holds three 4s side by side. */
  lemma PairInThirdRowIsNotOver()
    ensures !Terminal([8, 4, 2, 4, 2, 8, 4, 2, 8, 4, 4, 4, 2, 8, 4, 2])
  {
    var g := [8, 4, 2, 4, 2, 8, 4, 2, 8, 4, 4, 4, 2, 8, 4, 2];
    assert Adjacent(10, 11) && g[10] == g[11];
  }

  /** Full, and no two neighbours agree: the game is over. */
  lemma CheckerboardIsOver()
    ensures Terminal([8, 4, 2, 4, 2, 8, 4, 2, 8, 4, 2, 4, 2, 8, 4, 2])
  {
    var g := [8, 4, 2, 4, 2, 8, 4, 2, 8, 4, 2, 4, 2, 8, 4, 2];
    MergeableScan(g);
    forall p | 0 <= p < LENGTH
      ensures !PairsForward(g, p)
    {
    }
  }

  // ---------------------------------------------------------------------
  // A round whose move frees no cell

  /** Four distinct tiles that no two neighbours share fill their lane and
      stay where they are. */
  lemma DistinctFullLaneStays(a: int, b: int, c: int, d: int)
    requires a != 0 && b != 0 && c != 0 && d != 0
    requires a != b && b != c && c != d
    ensures Compact([a, b, c, d]) == [a, b, c, d]
  {
    CompactUnchangedIff([a, b, c, d]);
  }

  /** A full board that is not over, since its first column starts with two
      2s, but whose rows are all stuck. */
  const Crowded := [2, 4, 8, 16, 2, 32, 64, 128, 4, 8, 16, 32, 8, 16, 32, 64]

  /** Moving Crowded to the left changes nothing and leaves no free cell for
      the tile a round places, although the game is not over: a round with
      that move has no cell to fill. */
  lemma CrowdedLeftLeavesNoFreeCell()
    ensures !Terminal(Crowded)
    ensures Apply(Crowded, Left) == Crowded
    ensures 0 !in Apply(Crowded, Left)
  {
    assert Adjacent(0, 4) && Crowded[0] == Crowded[4];
    DistinctFullLaneStays(2, 4, 8, 16);
    DistinctFullLaneStays(2, 32, 64, 128);
    DistinctFullLaneStays(4, 8, 16, 32);
    DistinctFullLaneStays(8, 16, 32, 64);
    LeftFromCells(2, 4, 8, 16, 2, 32, 64, 128, 4, 8, 16, 32, 8, 16, 32, 64,
                  2, 4, 8, 16, 2, 32, 64, 128, 4, 8, 16, 32, 8, 16, 32, 64);
  }
}
