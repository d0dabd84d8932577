/** The Game of Life engine: a board of cells and a generation counter.
    Cells are the board's slots; a slot holding Piece(ALIVE) is a live cell,
    Piece(DEAD) a dead one. */
module Engine {
  import opened Grids
  import opened Rules
  import opened Boards

  /** Puts a dead cell at every (i, j) with 0 <= i <= width and
      0 <= j <= height. The loops run one past the last column and the last
      row; those writes land off the board, where SetPiece changes nothing,
      so the board ends up exactly filled with dead cells. */
  method PlaceDeadCells(board: Board, width: int, height: int)
    requires board.Valid() && board.width == width && board.height == height
    modifies board.cells
    ensures board.Model() == old(board.Model()).Fill(Piece(DEAD))
  {
    var i := 0;
    while i <= width
      invariant 0 <= i <= width + 1
      invariant forall c, r :: 0 <= c < width && 0 <= r < height ==>
        board.Model().Get(c, r) == if c < i then Piece(DEAD) else old(board.Model()).Get(c, r)
    {
      var j := 0;
      while j <= height
        invariant 0 <= j <= height + 1
        invariant forall c, r :: 0 <= c < width && 0 <= r < height ==>
          board.Model().Get(c, r) ==
            if c < i || (c == i && r < j) then Piece(DEAD) else old(board.Model()).Get(c, r)
      {
        ghost var before := board.Model();
        var previous := board.SetPiece(i, j, Piece(DEAD));
        forall c, r | 0 <= c < width && 0 <= r < height
          ensures board.Model().Get(c, r) == if c == i && r == j then Piece(DEAD) else before.Get(c, r)
        {
          GetAfterSet(before, i, j, Piece(DEAD), c, r);
        }
        j := j + 1;
      }
      i := i + 1;
    }
    Extensionality(board.Model(), old(board.Model()).Fill(Piece(DEAD)));
  }

  class GameOfLife {
    var board: Board
    var generationNumber: int

    ghost predicate Valid()
      reads this
    {
      board.Valid()
    }

    /** The current board as a value. */
    ghost function Model(): (g: Grid)
      reads this, board.cells
      requires Valid()
      ensures g.Valid() && g.width == board.width && g.height == board.height
    {
      board.Model()
    }

    /** A width x height game with every cell dead, at generation 0. */
    constructor (width: int, height: int)
      requires 0 <= width && 0 <= height
      ensures Valid() && fresh(board) && fresh(board.cells)
      ensures Model() == Uniform(width, height, Piece(DEAD))
      ensures Full(Model()) && AliveTotal(Model()) == 0
      ensures generationNumber == 0
    {
      var b := new Board(width, height);
      PlaceDeadCells(b, width, height);
      board := b;
      generationNumber := 0;
      new;
      DeadFillCountsZero(Model());
    }

    /** A square game: the same as GameOfLife(width, width). */
    constructor Square(width: int)
      requires 0 <= width
      ensures Valid() && fresh(board) && fresh(board.cells)
      ensures Model() == Uniform(width, width, Piece(DEAD))
      ensures Full(Model()) && AliveTotal(Model()) == 0
      ensures generationNumber == 0
    {
      var b := new Board(width, width);
      PlaceDeadCells(b, width, width);
      board := b;
      generationNumber := 0;
      new;
      DeadFillCountsZero(Model());
    }

    /** A game over the caller's array of cells, at generation 0. */
    constructor FromCells(initialState: array2<Slot>)
      requires initialState.Length0 > 0
      ensures Valid() && board.cells == initialState
      ensures board.width == initialState.Length1 && board.height == initialState.Length0
      ensures generationNumber == 0
    {
      board := new Board.FromArray(initialState);
      generationNumber := 0;
    }

    /** The generation the game is on. */
    function GetGenNumber(): (n: int)
      reads this
      ensures n == generationNumber
    {
      generationNumber
    }

    function GetWidth(): (w: nat)
      reads this
      requires Valid()
      ensures w == board.width
    {
      board.GetWidth()
    }

    function GetHeight(): (h: nat)
      reads this
      requires Valid()
      ensures h == board.height
    {
      board.GetHeight()
    }

    /** (x, y) holds a live cell; positions off the board are never alive. */
    predicate IsAlive(x: int, y: int)
      reads this, board.cells
      requires Valid()
      ensures IsAlive(x, y) <==> AliveAt(Model(), x, y)
      ensures IsAlive(x, y) ==> board.InBounds(x, y)
    {
      board.GetPiece(x, y) != Empty && board.GetPiece(x, y).kind == ALIVE
    }

    /** The live cells among the 8 neighbours of (x, y), scanning the 3 x 3
        block column by column; positions off the board count as dead. */
    method CountLivingNeighbors(x: int, y: int) returns (liveCellCount: int)
      requires Valid()
      ensures liveCellCount == NeighborCount(Model(), x, y)
      ensures 0 <= liveCellCount <= 8
    {
      ghost var g := Model();
      liveCellCount := 0;
      var i := x - 1;
      while i <= x + 1
        invariant x - 1 <= i <= x + 2
        invariant liveCellCount == BlockCount(g, x, y, i)
      {
        var j := y - 1;
        while j <= y + 1
          invariant y - 1 <= j <= y + 2
          invariant liveCellCount == BlockCount(g, x, y, i) + ColumnCount(g, x, y, i, j)
        {
          if !(i == x && j == y) && board.InBounds(i, j) && IsAlive(i, j) {
            liveCellCount := liveCellCount + 1;
          }
          j := j + 1;
        }
        i := i + 1;
      }
      NeighborCountByColumns(g, x, y);
      NeighborCountRange(g, x, y);
    }

    /** (x, y) is alive in the next generation: 3 live neighbours, or alive
        now with 2. */
    method WillBeAlive(x: int, y: int) returns (willLive: bool)
      requires Valid()
      ensures willLive == WillLive(Model(), x, y)
    {
      var count := CountLivingNeighbors(x, y);
      willLive := count == 3 || (IsAlive(x, y) && count == 2);
    }

    /** Sets the type of the cell at (x, y) to state. There must be a cell
        there: the source dereferences the slot without a check. */
    method SetCell(x: int, y: int, state: int)
      requires Valid() && board.HasPiece(x, y)
      modifies board.cells
      ensures Model() == old(Model()).Set(x, y, Piece(state))
    {
      board.cells[y, x] := board.GetPiece(x, y).(kind := state);
      Extensionality(Model(), old(Model()).Set(x, y, Piece(state)));
    }

    /** Makes the cell at (x, y) alive; no other location changes. */
    method Revive(x: int, y: int)
      requires Valid() && board.HasPiece(x, y)
      modifies board.cells
      ensures Model() == old(Model()).Set(x, y, Piece(ALIVE))
      ensures IsAlive(x, y)
      ensures forall i, j :: (i, j) != (x, y) ==> board.GetPiece(i, j) == old(board.GetPiece(i, j))
    {
      SetCell(x, y, ALIVE);
      forall i, j ensures board.GetPiece(i, j) == if (i, j) == (x, y) then Piece(ALIVE) else old(board.GetPiece(i, j)) {
        GetAfterSet(old(Model()), x, y, Piece(ALIVE), i, j);
      }
    }

    /** Makes the cell at (x, y) dead; no other location changes. */
    method Kill(x: int, y: int)
      requires Valid() && board.HasPiece(x, y)
      modifies board.cells
      ensures Model() == old(Model()).Set(x, y, Piece(DEAD))
      ensures !IsAlive(x, y) && board.HasPiece(x, y)
      ensures forall i, j :: (i, j) != (x, y) ==> board.GetPiece(i, j) == old(board.GetPiece(i, j))
    {
      SetCell(x, y, DEAD);
      forall i, j ensures board.GetPiece(i, j) == if (i, j) == (x, y) then Piece(DEAD) else old(board.GetPiece(i, j)) {
        GetAfterSet(old(Model()), x, y, Piece(DEAD), i, j);
      }
    }

    /** Toggles the cell at (x, y): a live cell becomes dead and any other
        cell becomes alive; no other location changes. */
    method SwapStatus(x: int, y: int)
      requires Valid() && board.HasPiece(x, y)
      modifies board.cells
      ensures Model() == Swapped(old(Model()), x, y)
      ensures IsAlive(x, y) == !old(IsAlive(x, y)) && board.HasPiece(x, y)
      ensures forall i, j :: (i, j) != (x, y) ==> board.GetPiece(i, j) == old(board.GetPiece(i, j))
    {
      if IsAlive(x, y) {
        board.cells[y, x] := board.GetPiece(x, y).(kind := DEAD);
      } else {
        board.cells[y, x] := board.GetPiece(x, y).(kind := ALIVE);
      }
      Extensionality(Model(), Swapped(old(Model()), x, y));
      forall i, j ensures (i, j) != (x, y) ==> board.GetPiece(i, j) == old(board.GetPiece(i, j)) {
        SwappedFlips(old(Model()), x, y, i, j);
      }
      SwappedFlips(old(Model()), x, y, x, y);
    }

    /** The number of live cells, counted column by column. */
    method AliveCount() returns (aliveCellCount: int)
      requires Valid()
      ensures aliveCellCount == AliveTotal(Model())
      ensures 0 <= aliveCellCount <= GetWidth() * GetHeight()
    {
      ghost var g := Model();
      aliveCellCount := 0;
      var x := 0;
      while x < GetWidth()
        invariant 0 <= x <= board.width
        invariant aliveCellCount == AliveUpTo(g, x)
      {
        var y := 0;
        while y < GetHeight()
          invariant 0 <= y <= board.height
          invariant aliveCellCount == AliveUpTo(g, x) + ColumnAlive(g, x, y)
        {
          if IsAlive(x, y) {
            aliveCellCount := aliveCellCount + 1;
          }
          y := y + 1;
        }
        x := x + 1;
      }
      AliveTotalRange(g);
    }

    /** The number of locations that are not live cells: together with the
        live count it makes up the whole board. */
    method DeadCount() returns (deadCellCount: int)
      requires Valid()
      ensures deadCellCount + AliveTotal(Model()) == GetWidth() * GetHeight()
      ensures deadCellCount == |NotAliveCells(Model())|
    {
      var alive := AliveCount();
      deadCellCount := (GetWidth() * GetHeight()) - alive;
      NotAliveCount(Model());
    }

    /** Kills every cell. Every location must hold a cell: the source sets
        the type of each one without a check. */
    method Clear()
      requires Valid() && Full(Model())
      modifies board.cells
      ensures Model() == old(Model()).Fill(Piece(DEAD))
      ensures Full(Model()) && AliveTotal(Model()) == 0
      ensures generationNumber == old(generationNumber)
    {
      var x := 0;
      while x < GetWidth()
        invariant 0 <= x <= board.width
        invariant forall c, r :: 0 <= c < board.width && 0 <= r < board.height ==>
          Model().Get(c, r) == if c < x then Piece(DEAD) else old(Model()).Get(c, r)
      {
        var y := 0;
        while y < GetHeight()
          invariant 0 <= y <= board.height
          invariant forall c, r :: 0 <= c < board.width && 0 <= r < board.height ==>
            Model().Get(c, r) == if c < x || (c == x && r < y) then Piece(DEAD) else old(Model()).Get(c, r)
        {
          ghost var before := Model();
          assert old(Model()).Has(x, y);
          SetCell(x, y, DEAD);
          forall c, r | 0 <= c < board.width && 0 <= r < board.height
            ensures Model().Get(c, r) == if c == x && r == y then Piece(DEAD) else before.Get(c, r)
          {
            GetAfterSet(before, x, y, Piece(DEAD), c, r);
          }
          y := y + 1;
        }
        x := x + 1;
      }
      Extensionality(Model(), old(Model()).Fill(Piece(DEAD)));
      DeadFillCountsZero(old(Model()));
    }

    /** Advances one generation: every cell of a fresh board is decided from
        the current board alone, then the fresh board replaces the current
        one and the generation number goes up by one. */
    method NextGen()
      requires Valid()
      modifies this
      ensures Valid() && fresh(board) && fresh(board.cells)
      ensures Model() == Step(old(Model()))
      ensures board.width == old(board.width) && board.height == old(board.height)
      ensures Full(Model())
      ensures generationNumber == old(generationNumber) + 1
    {
      var newBoard := new Board(GetWidth(), GetHeight());
      ghost var g := Model();
      var x := 0;
      while x < GetWidth()
        modifies newBoard.cells
        invariant 0 <= x <= board.width
        invariant forall c, r :: 0 <= c < board.width && 0 <= r < board.height ==>
          newBoard.Model().Get(c, r) == if c < x then NextSlot(g, c, r) else Empty
      {
        var y := 0;
        while y < GetHeight()
          modifies newBoard.cells
          invariant 0 <= y <= board.height
          invariant forall c, r :: 0 <= c < board.width && 0 <= r < board.height ==>
            newBoard.Model().Get(c, r) == if c < x || (c == x && r < y) then NextSlot(g, c, r) else Empty
        {
          ghost var before := newBoard.Model();
          var willLive := WillBeAlive(x, y);
          var previous;
          if willLive {
            previous := newBoard.SetPiece(x, y, Piece(ALIVE));
          } else {
            previous := newBoard.SetPiece(x, y, Piece(DEAD));
          }
          forall c, r | 0 <= c < board.width && 0 <= r < board.height
            ensures newBoard.Model().Get(c, r) == if c == x && r == y then NextSlot(g, x, y) else before.Get(c, r)
          {
            GetAfterSet(before, x, y, NextSlot(g, x, y), c, r);
          }
          y := y + 1;
        }
        x := x + 1;
      }
      forall c, r | newBoard.Model().InBounds(c, r)
        ensures newBoard.Model().Get(c, r) == Step(g).Get(c, r)
      {
        StepAt(g, c, r);
      }
      Extensionality(newBoard.Model(), Step(g));
      StepIsFull(g);
      board := newBoard;
      generationNumber := generationNumber + 1;
    }
  }
}
