/** The fixed-size board: a two-dimensional array of slots, cells[y, x],
    with bounds-checked reads and writes. Off-board reads give Empty and
    off-board writes are silent no-ops that also give Empty. */
module Boards {
  import opened Grids

  class Board {
    const width: nat
    const height: nat
    /** The storage, indexed [y, x] (row-major, as the source's board[y][x]). */
    const cells: array2<Slot>

    /** The storage has height rows of width slots. */
    ghost predicate Valid() {
      cells.Length0 == height && cells.Length1 == width
    }

    /** The board's current contents as a value. */
    ghost function Model(): (g: Grid)
      reads cells
      requires Valid()
      ensures g.Valid() && g.width == width && g.height == height
      ensures forall x, y :: g.InBounds(x, y) ==> g.Get(x, y) == cells[y, x]
    {
      Grid(width, height,
        seq(height, y reads cells requires 0 <= y < height =>
          seq(width, x reads cells requires 0 <= x < width => cells[y, x])))
    }

    /** A width x height board with no pieces on it. */
    constructor (width: int, height: int)
      requires 0 <= width && 0 <= height
      ensures Valid() && fresh(cells)
      ensures this.width == width && this.height == height
      ensures Model() == Uniform(width, height, Empty)
    {
      this.width := width;
      this.height := height;
      this.cells := new Slot[height, width]((_, _) => Empty);
      new;
      Extensionality(Model(), Uniform(width, height, Empty));
    }

    /** A square board of the given side with no pieces on it: the same
        board as Board(sideLength, sideLength). */
    constructor Square(sideLength: int)
      requires 0 <= sideLength
      ensures Valid() && fresh(cells)
      ensures width == sideLength && height == sideLength
      ensures Model() == Uniform(sideLength, sideLength, Empty)
    {
      width := sideLength;
      height := sideLength;
      cells := new Slot[sideLength, sideLength]((_, _) => Empty);
      new;
      Extensionality(Model(), Uniform(sideLength, sideLength, Empty));
    }

    /** A board over the caller's own array (kept, not copied): its width is
        the length of the first row and its height the number of rows. The
        first row must exist. */
    constructor FromArray(board: array2<Slot>)
      requires board.Length0 > 0
      ensures Valid() && cells == board
      ensures width == board.Length1 && height == board.Length0
    {
      cells := board;
      width := board.Length1;
      height := board.Length0;
    }

    /** (x, y) lies on the board. These are exactly the indices that are
        safe for the storage array. */
    predicate InBounds(x: int, y: int)
      requires Valid()
      ensures InBounds(x, y) <==> 0 <= y < cells.Length0 && 0 <= x < cells.Length1
    {
      x >= 0 && x < GetWidth() && y >= 0 && y < GetHeight()
    }

    function GetWidth(): (w: nat)
      requires Valid()
      ensures w == cells.Length1
    {
      width
    }

    function GetHeight(): (h: nat)
      requires Valid()
      ensures h == cells.Length0
    {
      height
    }

    /** The slot at (x, y), or Empty off the board; never fails. */
    function GetPiece(x: int, y: int): (s: Slot)
      reads cells
      requires Valid()
      ensures s == Model().Get(x, y)
      ensures !InBounds(x, y) ==> s == Empty
    {
      if InBounds(x, y) then cells[y, x] else Empty
    }

    /** There is a piece at (x, y): exactly when GetPiece does not give Empty. */
    predicate HasPiece(x: int, y: int)
      reads cells
      requires Valid()
      ensures HasPiece(x, y) <==> GetPiece(x, y) != Empty
      ensures HasPiece(x, y) <==> Model().Has(x, y)
    {
      if InBounds(x, y) then cells[y, x] != Empty else false
    }

    /** Removes every piece: all on-board slots become Empty. */
    method Clear()
      requires Valid()
      modifies cells
      ensures Model() == old(Model()).Fill(Empty)
    {
      var x := 0;
      while x < GetWidth()
        invariant 0 <= x <= width
        invariant forall i, j :: 0 <= i < height && 0 <= j < width ==>
          cells[i, j] == if j < x then Empty else old(cells[i, j])
      {
        var y := 0;
        while y < GetHeight()
          invariant 0 <= y <= height
          invariant forall i, j :: 0 <= i < height && 0 <= j < width ==>
            cells[i, j] == if j < x || (j == x && i < y) then Empty else old(cells[i, j])
        {
          cells[y, x] := Empty;
          y := y + 1;
        }
        x := x + 1;
      }
      Extensionality(Model(), old(Model()).Fill(Empty));
    }

    /** Places piece at (x, y) and gives back what was there. Off the board
        nothing changes and the result is Empty. */
    method SetPiece(x: int, y: int, piece: Slot) returns (initialPiece: Slot)
      requires Valid()
      modifies cells
      ensures initialPiece == old(Model()).Get(x, y)
      ensures Model() == old(Model()).Set(x, y, piece)
    {
      initialPiece := Empty;
      if InBounds(x, y) {
        initialPiece := cells[y, x];
        cells[y, x] := piece;
      }
      Extensionality(Model(), old(Model()).Set(x, y, piece));
    }

    /** Takes the piece off (x, y) and gives it back. Off the board nothing
        changes and the result is Empty. */
    method RemovePiece(x: int, y: int) returns (initialPiece: Slot)
      requires Valid()
      modifies cells
      ensures initialPiece == old(Model()).Get(x, y)
      ensures Model() == old(Model()).Set(x, y, Empty)
    {
      initialPiece := Empty;
      if InBounds(x, y) {
        initialPiece := cells[y, x];
        cells[y, x] := Empty;
      }
      Extensionality(Model(), old(Model()).Set(x, y, Empty));
    }
  }
}
