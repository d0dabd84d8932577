/** Values of a Game of Life board: what one location holds, and a whole
    rectangular board as an immutable value. The Board class (boards.dfy)
    and the engine (engine.dfy) are specified in terms of these values. */
module Grids {

  /** Cell types stored in a piece: 0 is a dead cell, 1 a live one. */
  const DEAD: int := 0
  const ALIVE: int := 1

  /** One board location: no piece at all (a null slot), or a piece with its
      integer type. A piece's type is any int; only 1 counts as alive. */
  datatype Slot = Empty | Piece(kind: int)

  /** A board of the given dimensions, stored row-major: rows[y][x]. */
  datatype Grid = Grid(width: nat, height: nat, rows: seq<seq<Slot>>)
  {
    /** Exactly height rows, each exactly width slots long. */
    predicate Valid() {
      |rows| == height && forall y :: 0 <= y < height ==> |rows[y]| == width
    }

    /** The location (x, y) lies on the board. */
    predicate InBounds(x: int, y: int) {
      0 <= x < width && 0 <= y < height
    }

    /** What (x, y) holds; every location off the board reads as empty. */
    function Get(x: int, y: int): Slot
      requires Valid()
    {
      if InBounds(x, y) then rows[y][x] else Empty
    }

    /** (x, y) is on the board and holds a piece. */
    predicate Has(x: int, y: int)
      requires Valid()
    {
      InBounds(x, y) && rows[y][x] != Empty
    }

    /** The board with (x, y) replaced by s; off the board nothing changes. */
    function Set(x: int, y: int, s: Slot): (g: Grid)
      requires Valid()
      ensures g.Valid() && g.width == width && g.height == height
    {
      if InBounds(x, y) then Grid(width, height, rows[y := rows[y][x := s]]) else this
    }

    /** The board of the same dimensions with every location holding s. */
    function Fill(s: Slot): (g: Grid)
      ensures g.Valid() && g.width == width && g.height == height
    {
      Uniform(width, height, s)
    }
  }

  /** A w x h board with every location holding s. */
  function Uniform(w: nat, h: nat, s: Slot): (g: Grid)
    ensures g.Valid() && g.width == w && g.height == h
  {
    Grid(w, h, seq(h, _ => seq(w, _ => s)))
  }

  /** Every location on the board holds a piece (no null slots). */
  predicate Full(g: Grid)
    requires g.Valid()
  {
    forall x, y :: 0 <= x < g.width && 0 <= y < g.height ==> g.Has(x, y)
  }

  /** Two well-formed boards with the same dimensions that agree on every
      on-board location are the same board. */
  lemma Extensionality(a: Grid, b: Grid)
    requires a.Valid() && b.Valid()
    requires a.width == b.width && a.height == b.height
    requires forall x, y :: a.InBounds(x, y) ==> a.Get(x, y) == b.Get(x, y)
    ensures a == b
  {
    forall y | 0 <= y < a.height
      ensures a.rows[y] == b.rows[y]
    {
      forall x | 0 <= x < a.width
        ensures a.rows[y][x] == b.rows[y][x]
      {
        assert a.Get(x, y) == b.Get(x, y);
      }
    }
  }

  /** Reading back after a write: (x, y) holds the new slot if it is on the
      board, and every other location is as before. */
  lemma GetAfterSet(g: Grid, x: int, y: int, s: Slot, i: int, j: int)
    requires g.Valid()
    ensures g.Set(x, y, s).Get(i, j) == if g.InBounds(x, y) && i == x && j == y then s else g.Get(i, j)
  {
  }

  /** A write off the board changes nothing. */
  lemma SetOutside(g: Grid, x: int, y: int, s: Slot)
    requires g.Valid() && !g.InBounds(x, y)
    ensures g.Set(x, y, s) == g
  {
  }

  /** Removing (writing Empty) leaves no piece at (x, y). */
  lemma HasAfterRemove(g: Grid, x: int, y: int)
    requires g.Valid()
    ensures !g.Set(x, y, Empty).Has(x, y)
    ensures g.Set(x, y, Empty).Get(x, y) == Empty
  {
  }

  /** A location holds a piece exactly when reading it does not give Empty. */
  lemma HasIffGet(g: Grid, x: int, y: int)
    requires g.Valid()
    ensures g.Has(x, y) <==> g.Get(x, y) != Empty
  {
  }

  /** Every on-board location of Uniform(w, h, s) holds s. */
  lemma UniformGet(w: nat, h: nat, s: Slot, x: int, y: int)
    ensures Uniform(w, h, s).Get(x, y) == if 0 <= x < w && 0 <= y < h then s else Empty
  {
  }

  /** Filling twice with the same slot is the same as filling once. */
  lemma FillIdempotent(g: Grid, s: Slot)
    ensures g.Fill(s).Fill(s) == g.Fill(s)
  {
  }
}
