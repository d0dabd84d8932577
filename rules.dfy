/** Conway's rule stated on board values: liveness, the 8-neighbour count
    with a dead border, the birth/survival rule, the next generation and the
    number of live cells. The engine (engine.dfy) is proved against these. */
module Rules {
  import opened Grids

  /** (x, y) holds a piece whose type is ALIVE; off the board nothing is alive. */
  predicate AliveAt(g: Grid, x: int, y: int)
    requires g.Valid()
  {
    g.Get(x, y) != Empty && g.Get(x, y).kind == ALIVE
  }

  /** The positions of column i of the 3 x 3 block around (x, y), from row
      y - 1 up to (not including) row j, leaving out (x, y) itself. */
  function ScanColumn(x: int, y: int, i: int, j: int): seq<(int, int)>
    requires y - 1 <= j <= y + 2
    decreases j - y
  {
    if j == y - 1 then []
    else ScanColumn(x, y, i, j - 1) + (if i == x && j - 1 == y then [] else [(i, j - 1)])
  }

  /** The positions of the columns x - 1 up to (not including) i of the
      3 x 3 block around (x, y), column after column, leaving out (x, y). */
  function ScanBlock(x: int, y: int, i: int): seq<(int, int)>
    requires x - 1 <= i <= x + 2
    decreases i - x
  {
    if i == x - 1 then [] else ScanBlock(x, y, i - 1) + ScanColumn(x, y, i - 1, y + 2)
  }

  /** The 8 neighbours of (x, y) in the order the engine visits them. */
  function Neighborhood(x: int, y: int): seq<(int, int)> {
    ScanBlock(x, y, x + 2)
  }

  /** How many of the positions ps are alive on g (a position listed twice
      counts twice). */
  function CountAlive(g: Grid, ps: seq<(int, int)>): nat
    requires g.Valid()
  {
    if ps == [] then 0
    else CountAlive(g, ps[..|ps| - 1]) + (if AliveAt(g, ps[|ps| - 1].0, ps[|ps| - 1].1) then 1 else 0)
  }

  /** The live neighbours of (x, y); positions off the board count as dead. */
  function NeighborCount(g: Grid, x: int, y: int): nat
    requires g.Valid()
  {
    CountAlive(g, Neighborhood(x, y))
  }

  /** Conway's rule: born with exactly 3 live neighbours, survives with 2. */
  predicate Rule(alive: bool, neighbors: int) {
    neighbors == 3 || (alive && neighbors == 2)
  }

  /** (x, y) is alive in the next generation of g. */
  predicate WillLive(g: Grid, x: int, y: int)
    requires g.Valid()
  {
    Rule(AliveAt(g, x, y), NeighborCount(g, x, y))
  }

  /** The fresh piece the next generation puts at (x, y). */
  function NextSlot(g: Grid, x: int, y: int): Slot
    requires g.Valid()
  {
    Piece(if WillLive(g, x, y) then ALIVE else DEAD)
  }

  /** The next generation: a new board of the same dimensions, every cell
      decided from the old board g alone. */
  function Step(g: Grid): (r: Grid)
    requires g.Valid()
    ensures r.Valid() && r.width == g.width && r.height == g.height
  {
    Grid(g.width, g.height, seq(g.height, y => seq(g.width, x => NextSlot(g, x, y))))
  }

  /** Live cells of column x among rows 0 up to (not including) y. */
  function ColumnAlive(g: Grid, x: int, y: nat): nat
    requires g.Valid()
  {
    if y == 0 then 0 else ColumnAlive(g, x, y - 1) + (if AliveAt(g, x, y - 1) then 1 else 0)
  }

  /** Live cells among columns 0 up to (not including) x, column by column. */
  function AliveUpTo(g: Grid, x: nat): nat
    requires g.Valid()
  {
    if x == 0 then 0 else AliveUpTo(g, x - 1) + ColumnAlive(g, x - 1, g.height)
  }

  /** The number of live cells on the board. */
  function AliveTotal(g: Grid): nat
    requires g.Valid()
  {
    AliveUpTo(g, g.width)
  }

  /** The set of live positions on the board. */
  ghost function LiveCells(g: Grid): set<(int, int)>
    requires g.Valid()
  {
    set x, y | 0 <= x < g.width && 0 <= y < g.height && AliveAt(g, x, y) :: (x, y)
  }

  /** The board after toggling (x, y): a live cell becomes DEAD, anything
      else (a dead cell, or a piece of another type) becomes ALIVE. */
  function Swapped(g: Grid, x: int, y: int): Grid
    requires g.Valid()
  {
    g.Set(x, y, Piece(if AliveAt(g, x, y) then DEAD else ALIVE))
  }

  // ---------------------------------------------------------------------
  // Liveness

  /** Alive exactly when the location is on the board and holds Piece(ALIVE). */
  lemma AliveAtIff(g: Grid, x: int, y: int)
    requires g.Valid()
    ensures AliveAt(g, x, y) <==> g.InBounds(x, y) && g.rows[y][x] == Piece(ALIVE)
  {
  }

  /** Writing Piece(k) at (x, y) makes (x, y) alive exactly when k is ALIVE
      (if it is on the board) and leaves the liveness of every other
      location as it was. */
  lemma AliveAfterSet(g: Grid, x: int, y: int, k: int, i: int, j: int)
    requires g.Valid()
    ensures AliveAt(g.Set(x, y, Piece(k)), i, j) ==
      if g.InBounds(x, y) && i == x && j == y then k == ALIVE else AliveAt(g, i, j)
  {
    GetAfterSet(g, x, y, Piece(k), i, j);
  }

  /** Toggling flips the liveness of (x, y) when it is on the board and
      leaves every other location as it was. */
  lemma SwappedFlips(g: Grid, x: int, y: int, i: int, j: int)
    requires g.Valid()
    ensures g.InBounds(x, y) ==> (AliveAt(Swapped(g, x, y), x, y) <==> !AliveAt(g, x, y))
    ensures (i, j) != (x, y) ==> Swapped(g, x, y).Get(i, j) == g.Get(i, j)
  {
    GetAfterSet(g, x, y, Piece(if AliveAt(g, x, y) then DEAD else ALIVE), i, j);
  }

  /** Toggling twice restores the liveness of every location, and restores
      the board itself when (x, y) held a dead or live cell. */
  lemma SwappedTwice(g: Grid, x: int, y: int)
    requires g.Valid()
    ensures forall i, j :: AliveAt(Swapped(Swapped(g, x, y), x, y), i, j) == AliveAt(g, i, j)
    ensures g.Get(x, y) == Piece(DEAD) || g.Get(x, y) == Piece(ALIVE) ==>
      Swapped(Swapped(g, x, y), x, y) == g
  {
    var once := Swapped(g, x, y);
    var twice := Swapped(once, x, y);
    forall i, j ensures AliveAt(twice, i, j) == AliveAt(g, i, j) {
      SwappedFlips(g, x, y, i, j);
      SwappedFlips(once, x, y, i, j);
    }
    if g.Get(x, y) == Piece(DEAD) || g.Get(x, y) == Piece(ALIVE) {
      forall i, j | g.InBounds(i, j) ensures twice.Get(i, j) == g.Get(i, j) {
        GetAfterSet(g, x, y, Piece(if AliveAt(g, x, y) then DEAD else ALIVE), i, j);
        GetAfterSet(once, x, y, Piece(if AliveAt(once, x, y) then DEAD else ALIVE), i, j);
      }
      Extensionality(twice, g);
    }
  }

  // ---------------------------------------------------------------------
  // Neighbour count

  /** Counting a concatenation is adding the counts of its parts. */
  lemma {:induction false} CountAliveAppend(g: Grid, a: seq<(int, int)>, b: seq<(int, int)>)
    requires g.Valid()
    ensures CountAlive(g, a + b) == CountAlive(g, a) + CountAlive(g, b)
    decreases |b|
  {
    if b == [] {
      assert a + b == a;
    } else {
      var init := b[..|b| - 1];
      assert (a + b)[..|a + b| - 1] == a + init;
      assert (a + b)[|a + b| - 1] == b[|b| - 1];
      CountAliveAppend(g, a, init);
    }
  }

  /** The live cells among the first positions of ScanColumn(x, y, i, j),
      counted one row at a time. */
  function ColumnCount(g: Grid, x: int, y: int, i: int, j: int): nat
    requires g.Valid() && y - 1 <= j <= y + 2
    decreases j - y
  {
    if j == y - 1 then 0
    else ColumnCount(g, x, y, i, j - 1) + (if !(i == x && j - 1 == y) && AliveAt(g, i, j - 1) then 1 else 0)
  }

  /** The live cells among ScanBlock(x, y, i), counted one column at a time. */
  function BlockCount(g: Grid, x: int, y: int, i: int): nat
    requires g.Valid() && x - 1 <= i <= x + 2
    decreases i - x
  {
    if i == x - 1 then 0 else BlockCount(g, x, y, i - 1) + ColumnCount(g, x, y, i - 1, y + 2)
  }

  /** Counting a column row by row agrees with counting its positions. */
  lemma {:induction false} ColumnCountIsCountAlive(g: Grid, x: int, y: int, i: int, j: int)
    requires g.Valid() && y - 1 <= j <= y + 2
    ensures ColumnCount(g, x, y, i, j) == CountAlive(g, ScanColumn(x, y, i, j))
    decreases j - y
  {
    if j != y - 1 {
      ColumnCountIsCountAlive(g, x, y, i, j - 1);
      var visit := if i == x && j - 1 == y then [] else [(i, j - 1)];
      CountAliveAppend(g, ScanColumn(x, y, i, j - 1), visit);
      assert CountAlive(g, [(i, j - 1)]) == CountAlive(g, [(i, j - 1)][..0]) + (if AliveAt(g, i, j - 1) then 1 else 0);
    }
  }

  /** Counting the block column by column agrees with counting its positions. */
  lemma {:induction false} BlockCountIsCountAlive(g: Grid, x: int, y: int, i: int)
    requires g.Valid() && x - 1 <= i <= x + 2
    ensures BlockCount(g, x, y, i) == CountAlive(g, ScanBlock(x, y, i))
    decreases i - x
  {
    if i != x - 1 {
      var done, column := ScanBlock(x, y, i - 1), ScanColumn(x, y, i - 1, y + 2);
      assert ScanBlock(x, y, i) == done + column;
      BlockCountIsCountAlive(g, x, y, i - 1);
      ColumnCountIsCountAlive(g, x, y, i - 1, y + 2);
      CountAliveAppend(g, done, column);
    }
  }

  /** Over the whole block, the column-by-column count is the neighbour count. */
  lemma NeighborCountByColumns(g: Grid, x: int, y: int)
    requires g.Valid()
    ensures BlockCount(g, x, y, x + 2) == NeighborCount(g, x, y)
  {
    BlockCountIsCountAlive(g, x, y, x + 2);
  }

  /** Never more than one per listed position. */
  lemma {:induction false} CountAliveAtMostLength(g: Grid, ps: seq<(int, int)>)
    requires g.Valid()
    ensures CountAlive(g, ps) <= |ps|
  {
    if ps != [] {
      CountAliveAtMostLength(g, ps[..|ps| - 1]);
    }
  }

  /** Taking position k out of the list lowers the count by that
      position's own contribution. */
  lemma CountAliveRemove(g: Grid, qs: seq<(int, int)>, k: nat)
    requires g.Valid() && k < |qs|
    ensures CountAlive(g, qs) ==
      CountAlive(g, qs[..k] + qs[k + 1..]) + (if AliveAt(g, qs[k].0, qs[k].1) then 1 else 0)
  {
    var before, after := qs[..k], qs[k + 1..];
    assert qs == (before + [qs[k]]) + after;
    CountAliveAppend(g, before + [qs[k]], after);
    CountAliveAppend(g, before, [qs[k]]);
    CountAliveAppend(g, before, after);
    assert [qs[k]][..0] == [];
  }

  /** Taking the same element out of two equal multisets leaves equal ones. */
  lemma MultisetWithout(init: seq<(int, int)>, qs: seq<(int, int)>, k: nat)
    requires k < |qs| && multiset(init + [qs[k]]) == multiset(qs)
    ensures multiset(init) == multiset(qs[..k] + qs[k + 1..])
  {
    var last, rest := qs[k], qs[..k] + qs[k + 1..];
    assert qs == qs[..k] + [last] + qs[k + 1..];
    assert multiset(rest) + multiset{last} == multiset(init) + multiset{last};
    forall e ensures multiset(init)[e] == multiset(rest)[e] {
      assert (multiset(init) + multiset{last})[e] == (multiset(rest) + multiset{last})[e];
    }
  }

  /** The count does not depend on the order in which positions are visited. */
  lemma {:induction false} CountAlivePermutation(g: Grid, ps: seq<(int, int)>, qs: seq<(int, int)>)
    requires g.Valid()
    requires multiset(ps) == multiset(qs)
    ensures CountAlive(g, ps) == CountAlive(g, qs)
    decreases |ps|
  {
    if ps == [] {
      assert |qs| == |multiset(qs)| == 0;
    } else {
      var init, last := ps[..|ps| - 1], ps[|ps| - 1];
      assert ps == init + [last];
      assert last in multiset(qs);
      var k :| 0 <= k < |qs| && qs[k] == last;
      MultisetWithout(init, qs, k);
      CountAlivePermutation(g, init, qs[..k] + qs[k + 1..]);
      CountAliveRemove(g, qs, k);
    }
  }

  /** The living positions among ps, as a set. */
  ghost function LiveAmong(g: Grid, ps: seq<(int, int)>): set<(int, int)>
    requires g.Valid()
  {
    set p | p in ps && AliveAt(g, p.0, p.1)
  }

  /** Over a list without repetitions the count is the number of distinct
      living positions listed. */
  lemma {:induction false} CountAliveIsCardinality(g: Grid, ps: seq<(int, int)>)
    requires g.Valid()
    requires forall k, l :: 0 <= k < l < |ps| ==> ps[k] != ps[l]
    ensures CountAlive(g, ps) == |LiveAmong(g, ps)|
  {
    if ps != [] {
      var init, last := ps[..|ps| - 1], ps[|ps| - 1];
      CountAliveIsCardinality(g, init);
      assert last !in init by {
        forall k | 0 <= k < |init| ensures init[k] != last {
          assert ps[k] != ps[|ps| - 1];
        }
      }
      assert ps == init + [last];
      if AliveAt(g, last.0, last.1) {
        assert LiveAmong(g, ps) == LiveAmong(g, init) + {last};
      } else {
        assert LiveAmong(g, ps) == LiveAmong(g, init);
      }
    }
  }

  /** Column i of the block around (x, y), written out. */
  lemma ScanColumnInOrder(x: int, y: int, i: int)
    ensures ScanColumn(x, y, i, y + 2) ==
      if i == x then [(i, y - 1), (i, y + 1)] else [(i, y - 1), (i, y), (i, y + 1)]
  {
    assert ScanColumn(x, y, i, y - 1) == [];
    assert ScanColumn(x, y, i, y) == [(i, y - 1)];
    assert ScanColumn(x, y, i, y + 1) == if i == x then [(i, y - 1)] else [(i, y - 1), (i, y)];
  }

  /** The visit order, written out: column x - 1, then x, then x + 1, each
      from row y - 1 to y + 1, skipping (x, y). */
  lemma NeighborhoodInOrder(x: int, y: int)
    ensures Neighborhood(x, y) ==
      [(x - 1, y - 1), (x - 1, y), (x - 1, y + 1),
       (x, y - 1), (x, y + 1),
       (x + 1, y - 1), (x + 1, y), (x + 1, y + 1)]
  {
    ScanColumnInOrder(x, y, x - 1);
    ScanColumnInOrder(x, y, x);
    ScanColumnInOrder(x, y, x + 1);
    assert ScanBlock(x, y, x - 1) == [];
    assert ScanBlock(x, y, x) == ScanColumn(x, y, x - 1, y + 2);
    assert ScanBlock(x, y, x + 1) == ScanBlock(x, y, x) + ScanColumn(x, y, x, y + 2);
  }

  /** The neighbourhood is exactly the 8 positions at Chebyshev distance 1
      from (x, y), each listed once. */
  lemma NeighborhoodIsChebyshev(x: int, y: int)
    ensures |Neighborhood(x, y)| == 8
    ensures forall k, l :: 0 <= k < l < 8 ==> Neighborhood(x, y)[k] != Neighborhood(x, y)[l]
    ensures forall i, j :: (i, j) in Neighborhood(x, y) <==>
      (i, j) != (x, y) && x - 1 <= i <= x + 1 && y - 1 <= j <= y + 1
  {
    NeighborhoodInOrder(x, y);
  }

  /** The count lies in [0, 8]. */
  lemma NeighborCountRange(g: Grid, x: int, y: int)
    requires g.Valid()
    ensures 0 <= NeighborCount(g, x, y) <= 8
  {
    NeighborhoodIsChebyshev(x, y);
    CountAliveAtMostLength(g, Neighborhood(x, y));
  }

  /** The count is the number of live positions at Chebyshev distance 1
      from (x, y), (x, y) itself excluded. */
  lemma NeighborCountIsCardinality(g: Grid, x: int, y: int)
    requires g.Valid()
    ensures NeighborCount(g, x, y) ==
      |set i, j | x - 1 <= i <= x + 1 && y - 1 <= j <= y + 1 && (i, j) != (x, y) && AliveAt(g, i, j) :: (i, j)|
  {
    NeighborhoodIsChebyshev(x, y);
    CountAliveIsCardinality(g, Neighborhood(x, y));
    assert LiveAmong(g, Neighborhood(x, y)) ==
      set i, j | x - 1 <= i <= x + 1 && y - 1 <= j <= y + 1 && (i, j) != (x, y) && AliveAt(g, i, j) :: (i, j);
  }

  /** 1 for a live location, 0 otherwise. */
  function LiveBit(g: Grid, x: int, y: int): nat
    requires g.Valid()
  {
    if AliveAt(g, x, y) then 1 else 0
  }

  /** One column of the block, written out as a sum. */
  lemma ColumnCountSum(g: Grid, x: int, y: int, i: int)
    requires g.Valid()
    ensures ColumnCount(g, x, y, i, y + 2) ==
      LiveBit(g, i, y - 1) + (if i == x then 0 else LiveBit(g, i, y)) + LiveBit(g, i, y + 1)
  {
    assert ColumnCount(g, x, y, i, y) == LiveBit(g, i, y - 1);
  }

  /** The count written out as a sum over the 8 neighbours. */
  lemma NeighborCountSum(g: Grid, x: int, y: int)
    requires g.Valid()
    ensures NeighborCount(g, x, y) ==
      LiveBit(g, x - 1, y - 1) + LiveBit(g, x - 1, y) + LiveBit(g, x - 1, y + 1) +
      LiveBit(g, x, y - 1) + LiveBit(g, x, y + 1) +
      LiveBit(g, x + 1, y - 1) + LiveBit(g, x + 1, y) + LiveBit(g, x + 1, y + 1)
  {
    NeighborCountByColumns(g, x, y);
    ColumnCountSum(g, x, y, x - 1);
    ColumnCountSum(g, x, y, x);
    ColumnCountSum(g, x, y, x + 1);
    assert BlockCount(g, x, y, x) == ColumnCount(g, x, y, x - 1, y + 2);
  }

  /** Visiting the neighbours in any other order gives the same count. */
  lemma NeighborCountAnyOrder(g: Grid, x: int, y: int, order: seq<(int, int)>)
    requires g.Valid()
    requires multiset(order) == multiset(Neighborhood(x, y))
    ensures CountAlive(g, order) == NeighborCount(g, x, y)
  {
    CountAlivePermutation(g, order, Neighborhood(x, y));
  }

  // ---------------------------------------------------------------------
  // The rule and the next generation

  /** The rule in its usual form: a live cell survives with 2 or 3 live
      neighbours, a dead one is born with exactly 3. */
  lemma RuleIsB3S23(alive: bool, n: int)
    ensures Rule(alive, n) <==> if alive then n == 2 || n == 3 else n == 3
  {
  }

  /** Every on-board location of the next generation holds a fresh DEAD or
      ALIVE piece, which is alive exactly when the rule held for it on the
      old board; off the board there is nothing. */
  lemma StepAt(g: Grid, x: int, y: int)
    requires g.Valid()
    ensures g.InBounds(x, y) ==> Step(g).Get(x, y) == Piece(if WillLive(g, x, y) then ALIVE else DEAD)
    ensures g.InBounds(x, y) ==> (AliveAt(Step(g), x, y) <==> WillLive(g, x, y))
    ensures !g.InBounds(x, y) ==> Step(g).Get(x, y) == Empty
  {
  }

  /** The next generation has no empty slots. */
  lemma StepIsFull(g: Grid)
    requires g.Valid()
    ensures Full(Step(g))
  {
  }

  // ---------------------------------------------------------------------
  // Counting live cells

  lemma {:induction false} ColumnAliveAtMost(g: Grid, x: int, y: nat)
    requires g.Valid()
    ensures ColumnAlive(g, x, y) <= y
  {
    if y > 0 {
      ColumnAliveAtMost(g, x, y - 1);
    }
  }

  lemma {:induction false} AliveUpToAtMost(g: Grid, x: nat)
    requires g.Valid()
    ensures AliveUpTo(g, x) <= x * g.height
  {
    if x > 0 {
      AliveUpToAtMost(g, x - 1);
      ColumnAliveAtMost(g, x - 1, g.height);
      assert (x - 1) * g.height + g.height == x * g.height;
    }
  }

  /** The number of live cells lies in [0, width * height]. */
  lemma AliveTotalRange(g: Grid)
    requires g.Valid()
    ensures 0 <= AliveTotal(g) <= g.width * g.height
  {
    AliveUpToAtMost(g, g.width);
  }

  lemma {:induction false} ColumnAliveIsCardinality(g: Grid, x: int, y: nat)
    requires g.Valid()
    ensures ColumnAlive(g, x, y) == |set j | 0 <= j < y && AliveAt(g, x, j) :: (x, j)|
  {
    if y > 0 {
      ColumnAliveIsCardinality(g, x, y - 1);
      var before := set j | 0 <= j < y - 1 && AliveAt(g, x, j) :: (x, j);
      var now := set j | 0 <= j < y && AliveAt(g, x, j) :: (x, j);
      assert (x, y - 1) !in before;
      if AliveAt(g, x, y - 1) {
        assert now == before + {(x, y - 1)};
      } else {
        assert now == before;
      }
    }
  }

  lemma {:induction false} AliveUpToIsCardinality(g: Grid, x: nat)
    requires g.Valid()
    ensures AliveUpTo(g, x) ==
      |set i, j | 0 <= i < x && 0 <= j < g.height && AliveAt(g, i, j) :: (i, j)|
  {
    if x > 0 {
      var c := x - 1;
      AliveUpToIsCardinality(g, c);
      ColumnAliveIsCardinality(g, c, g.height);
      var before := set i, j | 0 <= i < c && 0 <= j < g.height && AliveAt(g, i, j) :: (i, j);
      var column := set j | 0 <= j < g.height && AliveAt(g, c, j) :: (c, j);
      var now := set i, j | 0 <= i < x && 0 <= j < g.height && AliveAt(g, i, j) :: (i, j);
      assert now == before + column;
      assert before * column == {};
    }
  }

  /** The number of live cells is the size of the set of live positions. */
  lemma AliveTotalIsCardinality(g: Grid)
    requires g.Valid()
    ensures AliveTotal(g) == |LiveCells(g)|
  {
    AliveUpToIsCardinality(g, g.width);
  }

  /** A board with no live cell has a live count of 0. */
  lemma {:induction false} NoLifeCountsZero(g: Grid)
    requires g.Valid()
    requires forall x, y :: !AliveAt(g, x, y)
    ensures AliveTotal(g) == 0
  {
    AliveTotalIsCardinality(g);
    assert LiveCells(g) == {};
  }

  /** A board filled with dead cells has no live cell. */
  lemma DeadFillCountsZero(g: Grid)
    requires g.Valid()
    ensures Full(g.Fill(Piece(DEAD)))
    ensures AliveTotal(g.Fill(Piece(DEAD))) == 0
  {
    NoLifeCountsZero(g.Fill(Piece(DEAD)));
  }

  /** The on-board positions of columns 0 up to (not including) x. */
  ghost function PositionsUpTo(x: nat, h: nat): set<(int, int)> {
    set i, j | 0 <= i < x && 0 <= j < h :: (i, j)
  }

  lemma {:induction false} ColumnPositionsCount(c: int, y: nat)
    ensures |set j | 0 <= j < y :: (c, j)| == y
  {
    if y > 0 {
      ColumnPositionsCount(c, y - 1);
      var before := set j | 0 <= j < y - 1 :: (c, j);
      assert (set j | 0 <= j < y :: (c, j)) == before + {(c, y - 1)};
      assert (c, y - 1) !in before;
    }
  }

  lemma {:induction false} PositionsUpToCount(x: nat, h: nat)
    ensures |PositionsUpTo(x, h)| == x * h
  {
    if x > 0 {
      var c := x - 1;
      PositionsUpToCount(c, h);
      ColumnPositionsCount(c, h);
      var column := set j | 0 <= j < h :: (c, j);
      var before, now := PositionsUpTo(c, h), PositionsUpTo(x, h);
      assert now == before + column by {
        forall p | p in now ensures p in before + column {
          if p.0 < c { assert p in before; } else { assert p in column; }
        }
      }
      assert before * column == {} by {
        forall p | p in column ensures p !in before { }
      }
      assert |now| == c * h + h;
      assert c * h + h == x * h by {
        assert (c + 1) * h == c * h + h;
      }
    }
  }

  /** The on-board positions that are not live cells (dead cells and empty
      slots alike). */
  ghost function NotAliveCells(g: Grid): set<(int, int)>
    requires g.Valid()
  {
    set x, y | 0 <= x < g.width && 0 <= y < g.height && !AliveAt(g, x, y) :: (x, y)
  }

  /** width * height minus the live count is the number of on-board
      positions that are not alive. */
  lemma NotAliveCount(g: Grid)
    requires g.Valid()
    ensures |NotAliveCells(g)| == g.width * g.height - AliveTotal(g)
  {
    AliveTotalIsCardinality(g);
    PositionsUpToCount(g.width, g.height);
    assert PositionsUpTo(g.width, g.height) == LiveCells(g) + NotAliveCells(g);
    assert LiveCells(g) * NotAliveCells(g) == {};
  }
}
