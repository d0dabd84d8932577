/** Known Game of Life patterns, checked against the next-generation
    function: the block is a still life, the blinker has period 2, the
    glider moves one cell diagonally every four generations, and two
    diagonal cells in a corner both die. A board of such a pattern is
    described by a predicate on positions that says which cells are live. */
module Patterns {
  import opened Grids
  import opened Rules

  /** A w x h board of pieces on which (x, y) is a live cell exactly when
      live(x, y) holds, and a dead cell otherwise. */
  function WithLive(w: nat, h: nat, live: (int, int) -> bool): (g: Grid)
    ensures g.Valid() && g.width == w && g.height == h
    ensures Full(g)
  {
    Grid(w, h, seq(h, y => seq(w, x => Piece(if live(x, y) then ALIVE else DEAD))))
  }

  /** 1 when (x, y) is on the w x h board and live there, 0 otherwise. */
  function Listed(w: nat, h: nat, live: (int, int) -> bool, x: int, y: int): nat {
    if 0 <= x < w && 0 <= y < h && live(x, y) then 1 else 0
  }

  lemma AliveInWithLive(w: nat, h: nat, live: (int, int) -> bool, x: int, y: int)
    ensures AliveAt(WithLive(w, h, live), x, y) <==> Listed(w, h, live, x, y) == 1
  {
  }

  lemma LiveBitWithLive(w: nat, h: nat, live: (int, int) -> bool, x: int, y: int)
    ensures LiveBit(WithLive(w, h, live), x, y) == Listed(w, h, live, x, y)
  {
  }

  /** The rule on such a board, in terms of the predicate alone. */
  lemma NextSlotWithLive(w: nat, h: nat, live: (int, int) -> bool, x: int, y: int)
    ensures NextSlot(WithLive(w, h, live), x, y) ==
      Piece(if Rule(Listed(w, h, live, x, y) == 1,
                    Listed(w, h, live, x - 1, y - 1) + Listed(w, h, live, x - 1, y) + Listed(w, h, live, x - 1, y + 1) +
                    Listed(w, h, live, x, y - 1) + Listed(w, h, live, x, y + 1) +
                    Listed(w, h, live, x + 1, y - 1) + Listed(w, h, live, x + 1, y) + Listed(w, h, live, x + 1, y + 1))
            then ALIVE else DEAD)
  {
    var g := WithLive(w, h, live);
    NeighborCountSum(g, x, y);
    LiveBitWithLive(w, h, live, x - 1, y - 1);
    LiveBitWithLive(w, h, live, x - 1, y);
    LiveBitWithLive(w, h, live, x - 1, y + 1);
    LiveBitWithLive(w, h, live, x, y - 1);
    LiveBitWithLive(w, h, live, x, y);
    LiveBitWithLive(w, h, live, x, y + 1);
    LiveBitWithLive(w, h, live, x + 1, y - 1);
    LiveBitWithLive(w, h, live, x + 1, y);
    LiveBitWithLive(w, h, live, x + 1, y + 1);
  }

  /** The rule, applied to the cells live describes, makes (x, y) live in
      the next generation exactly when next(x, y) holds. */
  predicate CellFollows(w: nat, h: nat, live: (int, int) -> bool, next: (int, int) -> bool, x: int, y: int) {
    next(x, y) ==
      Rule(Listed(w, h, live, x, y) == 1,
           Listed(w, h, live, x - 1, y - 1) + Listed(w, h, live, x - 1, y) + Listed(w, h, live, x - 1, y + 1) +
           Listed(w, h, live, x, y - 1) + Listed(w, h, live, x, y + 1) +
           Listed(w, h, live, x + 1, y - 1) + Listed(w, h, live, x + 1, y) + Listed(w, h, live, x + 1, y + 1))
  }

  /** When every cell of the board follows the rule from live to next, one
      generation step takes the board of live to the board of next. */
  lemma StepOfWithLive(w: nat, h: nat, live: (int, int) -> bool, next: (int, int) -> bool)
    requires forall x, y | 0 <= x < w && 0 <= y < h :: CellFollows(w, h, live, next, x, y)
    ensures Step(WithLive(w, h, live)) == WithLive(w, h, next)
  {
    var g1, g2 := WithLive(w, h, live), WithLive(w, h, next);
    forall x, y | g1.InBounds(x, y) ensures Step(g1).Get(x, y) == g2.Get(x, y) {
      StepAt(g1, x, y);
      NextSlotWithLive(w, h, live, x, y);
      assert CellFollows(w, h, live, next, x, y);
    }
    Extensionality(Step(g1), g2);
  }

  /** When live holds exactly at the n distinct positions of cells, all of
      them on the board, the board of live has n live cells. */
  lemma AliveTotalWithLive(w: nat, h: nat, live: (int, int) -> bool, cells: set<(int, int)>)
    requires forall x, y | 0 <= x < w && 0 <= y < h :: live(x, y) <==> (x, y) in cells
    requires forall p | p in cells :: 0 <= p.0 < w && 0 <= p.1 < h
    ensures AliveTotal(WithLive(w, h, live)) == |cells|
  {
    var g := WithLive(w, h, live);
    AliveTotalIsCardinality(g);
    forall p | p in LiveCells(g) ensures p in cells {
      AliveInWithLive(w, h, live, p.0, p.1);
    }
    forall p | p in cells ensures p in LiveCells(g) {
      AliveInWithLive(w, h, live, p.0, p.1);
    }
    assert LiveCells(g) == cells;
  }

  /** The 2 x 2 block with corners (1, 1) and (2, 2). */
  predicate Block(x: int, y: int) { 1 <= x <= 2 && 1 <= y <= 2 }

  /** A block on an otherwise dead board of at least 4 x 4 does not change. */
  lemma BlockIsStillLife(w: nat, h: nat)
    requires w >= 4 && h >= 4
    ensures Step(WithLive(w, h, Block)) == WithLive(w, h, Block)
  {
    StepOfWithLive(w, h, Block, Block);
  }

  /** The block has 4 live cells. */
  lemma BlockHasFourCells(w: nat, h: nat)
    requires w >= 4 && h >= 4
    ensures AliveTotal(WithLive(w, h, Block)) == 4
  {
    AliveTotalWithLive(w, h, Block, {(1, 1), (2, 1), (1, 2), (2, 2)});
  }

  /** The blinker lying along row 2, and standing along column 2. */
  predicate Horizontal(x: int, y: int) { y == 2 && 1 <= x <= 3 }
  predicate Vertical(x: int, y: int) { x == 2 && 1 <= y <= 3 }

  /** On an otherwise dead board of at least 5 x 5, a horizontal blinker
      turns vertical about its centre. */
  lemma BlinkerTurnsVertical(w: nat, h: nat)
    requires w >= 5 && h >= 5
    ensures Step(WithLive(w, h, Horizontal)) == WithLive(w, h, Vertical)
  {
    StepOfWithLive(w, h, Horizontal, Vertical);
  }

  /** ... and the vertical one turns horizontal again. */
  lemma BlinkerTurnsHorizontal(w: nat, h: nat)
    requires w >= 5 && h >= 5
    ensures Step(WithLive(w, h, Vertical)) == WithLive(w, h, Horizontal)
  {
    StepOfWithLive(w, h, Vertical, Horizontal);
  }

  /** So the blinker oscillates with period exactly 2. */
  lemma BlinkerHasPeriodTwo(w: nat, h: nat)
    requires w >= 5 && h >= 5
    ensures Step(Step(WithLive(w, h, Horizontal))) == WithLive(w, h, Horizontal)
    ensures Step(WithLive(w, h, Horizontal)) != WithLive(w, h, Horizontal)
  {
    BlinkerTurnsVertical(w, h);
    BlinkerTurnsHorizontal(w, h);
    AliveInWithLive(w, h, Vertical, 2, 1);
    AliveInWithLive(w, h, Horizontal, 2, 1);
    assert AliveAt(WithLive(w, h, Vertical), 2, 1) && !AliveAt(WithLive(w, h, Horizontal), 2, 1);
  }

  /** The glider's first phase, heading towards larger x and y, and the
      three phases that follow it. */
  predicate Glider0(x: int, y: int) {
    (x == 1 && y == 0) || (x == 2 && y == 1) || (x == 0 && y == 2) || (x == 1 && y == 2) || (x == 2 && y == 2)
  }
  predicate Glider1(x: int, y: int) {
    (x == 0 && y == 1) || (x == 2 && y == 1) || (x == 1 && y == 2) || (x == 2 && y == 2) || (x == 1 && y == 3)
  }
  predicate Glider2(x: int, y: int) {
    (x == 2 && y == 1) || (x == 0 && y == 2) || (x == 2 && y == 2) || (x == 1 && y == 3) || (x == 2 && y == 3)
  }
  predicate Glider3(x: int, y: int) {
    (x == 1 && y == 1) || (x == 2 && y == 2) || (x == 3 && y == 2) || (x == 1 && y == 3) || (x == 2 && y == 3)
  }

  /** The first phase moved by (+1, +1). */
  predicate Glider0Moved(x: int, y: int) {
    Glider0(x - 1, y - 1)
  }

  /** Each of the four generations, on an otherwise dead board of at least
      6 x 6 (8 x 8 among them). */
  lemma GliderStepOne(w: nat, h: nat)
    requires w >= 6 && h >= 6
    ensures Step(WithLive(w, h, Glider0)) == WithLive(w, h, Glider1)
  {
    StepOfWithLive(w, h, Glider0, Glider1);
  }

  lemma GliderStepTwo(w: nat, h: nat)
    requires w >= 6 && h >= 6
    ensures Step(WithLive(w, h, Glider1)) == WithLive(w, h, Glider2)
  {
    StepOfWithLive(w, h, Glider1, Glider2);
  }

  lemma GliderStepThree(w: nat, h: nat)
    requires w >= 6 && h >= 6
    ensures Step(WithLive(w, h, Glider2)) == WithLive(w, h, Glider3)
  {
    StepOfWithLive(w, h, Glider2, Glider3);
  }

  lemma GliderStepFour(w: nat, h: nat)
    requires w >= 6 && h >= 6
    ensures Step(WithLive(w, h, Glider3)) == WithLive(w, h, Glider0Moved)
  {
    StepOfWithLive(w, h, Glider3, Glider0Moved);
  }

  /** Four generations take the glider to its first phase moved one cell
      right and one cell down. */
  lemma GliderMovesDiagonally(w: nat, h: nat)
    requires w >= 6 && h >= 6
    ensures Step(Step(Step(Step(WithLive(w, h, Glider0))))) == WithLive(w, h, Glider0Moved)
  {
    GliderStepOne(w, h);
    GliderStepTwo(w, h);
    GliderStepThree(w, h);
    GliderStepFour(w, h);
  }

  /** The glider has 5 live cells in each of its phases. */
  lemma GliderHasFiveCells(w: nat, h: nat)
    requires w >= 6 && h >= 6
    ensures AliveTotal(WithLive(w, h, Glider0)) == 5
  {
    AliveTotalWithLive(w, h, Glider0, {(1, 0), (2, 1), (0, 2), (1, 2), (2, 2)});
  }

  lemma GliderPhaseOneHasFiveCells(w: nat, h: nat)
    requires w >= 6 && h >= 6
    ensures AliveTotal(WithLive(w, h, Glider1)) == 5
  {
    AliveTotalWithLive(w, h, Glider1, {(0, 1), (2, 1), (1, 2), (2, 2), (1, 3)});
  }

  lemma GliderPhaseTwoHasFiveCells(w: nat, h: nat)
    requires w >= 6 && h >= 6
    ensures AliveTotal(WithLive(w, h, Glider2)) == 5
  {
    AliveTotalWithLive(w, h, Glider2, {(2, 1), (0, 2), (2, 2), (1, 3), (2, 3)});
  }

  lemma GliderPhaseThreeHasFiveCells(w: nat, h: nat)
    requires w >= 6 && h >= 6
    ensures AliveTotal(WithLive(w, h, Glider3)) == 5
  {
    AliveTotalWithLive(w, h, Glider3, {(1, 1), (2, 2), (3, 2), (1, 3), (2, 3)});
  }

  lemma GliderMovedHasFiveCells(w: nat, h: nat)
    requires w >= 6 && h >= 6
    ensures AliveTotal(WithLive(w, h, Glider0Moved)) == 5
  {
    AliveTotalWithLive(w, h, Glider0Moved, {(2, 1), (3, 2), (1, 3), (2, 3), (3, 3)});
  }

  /** A single live cell in the top-left corner. */
  predicate LoneCorner(x: int, y: int) { x == 0 && y == 0 }

  /** A lone live cell dies of underpopulation, and leaves a board with no
      live cell at all, whatever the board's size. */
  lemma LoneCornerDies(w: nat, h: nat)
    requires w >= 1 && h >= 1
    ensures !AliveAt(Step(WithLive(w, h, LoneCorner)), 0, 0)
    ensures Step(WithLive(w, h, LoneCorner)) == Uniform(w, h, Piece(DEAD))
    ensures AliveTotal(Step(WithLive(w, h, LoneCorner))) == 0
  {
    var g := WithLive(w, h, LoneCorner);
    forall x, y | g.InBounds(x, y) ensures Step(g).Get(x, y) == Uniform(w, h, Piece(DEAD)).Get(x, y) {
      StepAt(g, x, y);
      NextSlotWithLive(w, h, LoneCorner, x, y);
    }
    Extensionality(Step(g), Uniform(w, h, Piece(DEAD)));
    DeadFillCountsZero(g);
  }

  /** Two diagonal live cells in the top-left corner. */
  predicate CornerPair(x: int, y: int) { (x == 0 && y == 0) || (x == 1 && y == 1) }

  /** Two diagonal live cells in the corner of any board of at least 2 x 2
      both die: each has a single live neighbour. */
  lemma CornerPairDies(w: nat, h: nat)
    requires w >= 2 && h >= 2
    ensures !AliveAt(Step(WithLive(w, h, CornerPair)), 0, 0)
    ensures !AliveAt(Step(WithLive(w, h, CornerPair)), 1, 1)
  {
    var g := WithLive(w, h, CornerPair);
    NextSlotWithLive(w, h, CornerPair, 0, 0);
    NextSlotWithLive(w, h, CornerPair, 1, 1);
    StepAt(g, 0, 0);
    StepAt(g, 1, 1);
  }
}
