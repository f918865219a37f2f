/** The game engine: board generation, flood-fill reveal, flag toggling and
    the win check, over the state the browser script keeps in module-level
    variables (the board, the revealed grid, the mine set and the flag set). */
module Minesweeper {
  import opened Grid

  /** What one reveal step reports to its caller. */
  datatype RevealEvent =
    | Ignored                       // cell already revealed, or flagged
    | HitMine                       // the caller ends the game (gameOver)
    | Cleared(count: int, won: bool) // the cell's count, and this frame's win check

  /** The flag set after a right click on an unrevealed cell p. */
  function Toggled(flags: set<Coord>, p: Coord): (r: set<Coord>)
    ensures p in r <==> p !in flags
    ensures forall q :: q != p ==> (q in r <==> q in flags)
  {
    if p in flags then flags - {p} else flags + {p}
  }

  /** Toggling the same flag twice restores the flag set. */
  lemma ToggledTwice(flags: set<Coord>, p: Coord)
    ensures Toggled(Toggled(flags, p), p) == flags
  {
  }

  class Game {
    const size: nat
    const numMines: nat
    var board: array2<Cell>
    var revealed: array2<bool>
    var mines: set<Coord>
    var flagged: set<Coord>

    ghost predicate Shaped()
      reads this
    {
      board.Length0 == size && board.Length1 == size &&
      revealed.Length0 == size && revealed.Length1 == size
    }

    /** The board holds, at every cell, the value the mine set gives it. */
    ghost predicate Valid()
      reads this, board
    {
      Shaped() &&
      numMines < size * size &&
      |mines| == numMines &&
      (forall m :: m in mines ==> InBounds(size, m)) &&
      IsBoardOf(board, mines)
    }

    /** b holds, at every cell, the value the mine set m gives it. */
    ghost predicate IsBoardOf(b: array2<Cell>, m: set<Coord>)
      reads b
      requires b.Length0 == size && b.Length1 == size
    {
      forall r, c :: 0 <= r < size && 0 <= c < size ==> b[r, c] == Expected(m, (r, c))
    }

    ghost function RevealedCells(): set<Coord>
      reads this, revealed
      requires Shaped()
    {
      RevealedBefore(size, 0)
    }

    ghost function Unrevealed(): set<Coord>
      reads this, revealed
      requires Shaped()
    {
      set r, c | 0 <= r < size && 0 <= c < size && !revealed[r, c] :: (r, c)
    }

    /** The revealed cells in rows before `row`, and in row `row` before `col`. */
    ghost function RevealedBefore(row: int, col: int): set<Coord>
      reads this, revealed
      requires Shaped()
    {
      set r, c | 0 <= r < size && 0 <= c < size && revealed[r, c] && (r < row || (r == row && c < col)) :: (r, c)
    }

    ghost predicate WinCondition()
      reads this, revealed
      requires Shaped()
    {
      |RevealedCells()| == size * size - numMines
    }

    /** An out-of-bounds position, or a cell revealed or flagged. */
    ghost predicate Settled(r: int, c: int)
      reads this, revealed
      requires Shaped()
    {
      0 <= r < size && 0 <= c < size ==> revealed[r, c] || (r, c) in flagged
    }

    ghost predicate NeighboursSettled(r: int, c: int)
      reads this, revealed
      requires Shaped()
    {
      forall r2, c2 :: Near((r2, c2), (r, c)) ==> Settled(r2, c2)
    }

    constructor (size: nat, numMines: nat, draws: seq<Coord>)
      requires numMines < size * size
      requires forall p :: p in draws ==> InBounds(size, p)
      requires numMines <= |Drawn(draws)|
      ensures this.size == size && this.numMines == numMines
      ensures Valid() && fresh(board) && fresh(revealed)
      ensures mines <= Drawn(draws) && flagged == {}
      ensures RevealedCells() == {} && !WinCondition()
    {
      this.size := size;
      this.numMines := numMines;
      board := new Cell[0, 0];
      revealed := new bool[0, 0];
      new;
      InitGame(draws);
    }

    /** Starts a new game: a fresh board from the draws, nothing revealed,
        no flags. */
    method InitGame(draws: seq<Coord>)
      requires numMines < size * size
      requires forall p :: p in draws ==> InBounds(size, p)
      requires numMines <= |Drawn(draws)|
      modifies this
      ensures Valid() && fresh(board) && fresh(revealed)
      ensures mines <= Drawn(draws) && flagged == {}
      ensures forall r, c :: 0 <= r < size && 0 <= c < size ==> !revealed[r, c]
      ensures RevealedCells() == {} && !WinCondition()
    {
      var b, used := CreateBoard(draws);
      board := b;
      revealed := new bool[size, size]((r, c) => false);
      flagged := {};
      assert RevealedCells() == {};
    }

    /** Places mines from the draws until numMines distinct ones are placed,
        skipping draws that are already mines, and returns the board and the
        number of draws consumed. */
    method CreateBoard(draws: seq<Coord>) returns (b: array2<Cell>, used: nat)
      requires forall p :: p in draws ==> InBounds(size, p)
      requires numMines <= |Drawn(draws)|
      modifies this`mines
      ensures fresh(b) && b.Length0 == size && b.Length1 == size
      ensures used <= |draws| && mines == Drawn(draws[..used])
      ensures |mines| == numMines
      ensures used > 0 ==> |Drawn(draws[..used - 1])| < numMines
      ensures forall r, c :: 0 <= r < size && 0 <= c < size ==>
        b[r, c] == Replay(draws[..used], (r, c)) == Expected(mines, (r, c))
    {
      b := new Cell[size, size]((r, c) => Count(0));
      mines := {};
      used := 0;
      while |mines| < numMines
        invariant used <= |draws| && mines == Drawn(draws[..used])
        invariant |mines| <= numMines
        invariant used > 0 ==> |Drawn(draws[..used - 1])| < numMines
        invariant IsBoardOf(b, mines)
        decreases |draws| - used
      {
        assert draws[..|draws|] == draws;
        var p := draws[used];
        assert p in draws;
        assert draws[..used + 1] == draws[..used] + [p];
        DrawnAppend(draws[..used], p);
        PlaceDraw(b, p);
        used := used + 1;
      }
      forall r, c | 0 <= r < size && 0 <= c < size
        ensures b[r, c] == Replay(draws[..used], (r, c))
      {
        ReplayIsExpected(draws[..used], (r, c));
      }
    }

    /** One round of the placement loop: a drawn coordinate that is not yet a
        mine becomes one and the counts around it go up; a coordinate that is
        already a mine changes nothing. Either way b stays the board of the
        mine set. */
    method PlaceDraw(b: array2<Cell>, p: Coord)
      requires b.Length0 == size && b.Length1 == size && InBounds(size, p)
      requires IsBoardOf(b, mines)
      modifies this`mines, b
      ensures mines == old(mines) + {p}
      ensures p in old(mines) ==> unchanged(b)
      ensures IsBoardOf(b, mines)
    {
      if p !in mines {
        ghost var was := mines;
        mines := mines + {p};
        b[p.0, p.1] := Mine;
        assert forall r, c :: 0 <= r < size && 0 <= c < size ==>
          b[r, c] == if (r, c) == p then Mine else Expected(was, (r, c));
        UpdateNeighbors(b, p.0, p.1);
        forall r, c | 0 <= r < size && 0 <= c < size
          ensures b[r, c] == Expected(mines, (r, c))
        {
          PlacingOneMine(was, p, (r, c));
        }
      }
    }

    /** Adds one to every non-mine cell of b in the 3x3 window around
        (row, col) that lies on the board. */
    method UpdateNeighbors(b: array2<Cell>, row: int, col: int)
      requires b.Length0 == size && b.Length1 == size
      modifies b
      ensures forall r, c :: 0 <= r < size && 0 <= c < size ==>
        b[r, c] == if Near((r, c), (row, col)) then Bumped(old(b[r, c])) else old(b[r, c])
    {
      for i := -1 to 2
        invariant forall r, c :: 0 <= r < size && 0 <= c < size ==>
          b[r, c] == if Near((r, c), (row, col)) && r - row < i then Bumped(old(b[r, c])) else old(b[r, c])
      {
        for j := -1 to 2
          invariant forall r, c :: 0 <= r < size && 0 <= c < size ==>
            b[r, c] == if Near((r, c), (row, col)) && (r - row < i || (r - row == i && c - col < j))
                       then Bumped(old(b[r, c])) else old(b[r, c])
        {
          var r, c := row + i, col + j;
          if 0 <= r < size && 0 <= c < size && b[r, c] != Mine {
            b[r, c] := Count(b[r, c].n + 1);
          }
        }
      }
    }

    /** Reveals (row, col); a zero-count cell then cascades into its
        neighbours. `trace` lists the cells this call reveals, in the order it
        reveals them. */
    method RevealCell(row: int, col: int) returns (ev: RevealEvent, ghost trace: seq<Coord>)
      requires Valid() && InBounds(size, (row, col))
      modifies revealed
      decreases Unrevealed(), 2
      ensures Valid() && Unrevealed() <= old(Unrevealed())
      ensures ev == Ignored <==> old(revealed[row, col]) || (row, col) in flagged
      ensures ev == Ignored <==> trace == []
      ensures ev != Ignored ==> trace[0] == (row, col) && revealed[row, col]
      ensures ev == HitMine <==> ev != Ignored && (row, col) in mines
      ensures ev == HitMine || (ev.Cleared? && ev.count != 0) ==> trace == [(row, col)]
      ensures ev.Cleared? ==> board[row, col] == Count(ev.count) && (ev.won <==> WinCondition())
      // exactly the traced cells become revealed
      ensures forall r, c :: 0 <= r < size && 0 <= c < size ==>
        revealed[r, c] == (old(revealed[r, c]) || (r, c) in trace)
      // each was hidden and unflagged, and only the clicked cell may be a mine
      ensures forall p :: p in trace ==>
        InBounds(size, p) && !old(revealed[p.0, p.1]) && p !in flagged && (p == (row, col) || p !in mines)
      // the cascade moves only through zero-count cells ...
      ensures FloodOrder(mines, trace)
      // ... and stops only where it must
      ensures forall p :: p in trace && Expected(mines, p) == Count(0) ==> NeighboursSettled(p.0, p.1)
    {
      if revealed[row, col] || (row, col) in flagged {
        return Ignored, [];
      }
      ghost var entry := Unrevealed();
      revealed[row, col] := true;
      assert Unrevealed() == entry - {(row, col)};
      trace := [(row, col)];
      assert board[row, col] == Expected(mines, (row, col));
      if board[row, col] == Mine {
        ev := HitMine;
        return;
      }
      if board[row, col] == Count(0) {
        var sub := RevealNeighbours(row, col, entry);
        trace := [(row, col)] + sub;
      }
      var won := CheckWin();
      ev := Cleared(board[row, col].n, won);
    }

    /** The cascade from the zero-count cell (row, col), just revealed: every
        neighbour on the board is revealed in turn. `bound` is the set of
        unrevealed cells before (row, col) was revealed; `trace` lists the
        cells the cascade reveals, in order. */
    method RevealNeighbours(row: int, col: int, ghost bound: set<Coord>) returns (ghost trace: seq<Coord>)
      requires Valid() && InBounds(size, (row, col)) && revealed[row, col]
      requires board[row, col] == Count(0)
      requires Unrevealed() < bound
      modifies revealed
      decreases bound, 1
      ensures Unrevealed() <= old(Unrevealed())
      ensures forall r, c :: 0 <= r < size && 0 <= c < size ==>
        revealed[r, c] == (old(revealed[r, c]) || (r, c) in trace)
      ensures forall p :: p in trace ==>
        InBounds(size, p) && !old(revealed[p.0, p.1]) && p !in flagged && p !in mines
      ensures FloodOrder(mines, [(row, col)] + trace)
      ensures forall p :: p in trace && Expected(mines, p) == Count(0) ==> NeighboursSettled(p.0, p.1)
      ensures NeighboursSettled(row, col)
    {
      assert board[row, col] == Expected(mines, (row, col));
      trace := [];
      for i := -1 to 2
        invariant Unrevealed() <= old(Unrevealed())
        invariant forall r, c :: 0 <= r < size && 0 <= c < size ==>
          revealed[r, c] == (old(revealed[r, c]) || (r, c) in trace)
        invariant forall p :: p in trace ==>
          InBounds(size, p) && !old(revealed[p.0, p.1]) && p !in flagged && p !in mines
        invariant FloodOrder(mines, [(row, col)] + trace)
        invariant forall p :: p in trace && Expected(mines, p) == Count(0) ==> NeighboursSettled(p.0, p.1)
        invariant forall r, c :: Near((r, c), (row, col)) && r - row < i ==> Settled(r, c)
      {
        for j := -1 to 2
          invariant Unrevealed() <= old(Unrevealed())
          invariant forall r, c :: 0 <= r < size && 0 <= c < size ==>
            revealed[r, c] == (old(revealed[r, c]) || (r, c) in trace)
          invariant forall p :: p in trace ==>
            InBounds(size, p) && !old(revealed[p.0, p.1]) && p !in flagged && p !in mines
          invariant FloodOrder(mines, [(row, col)] + trace)
          invariant forall p :: p in trace && Expected(mines, p) == Count(0) ==> NeighboursSettled(p.0, p.1)
          invariant forall r, c :: Near((r, c), (row, col)) && (r - row < i || (r - row == i && c - col < j)) ==>
            Settled(r, c)
        {
          var sub := RevealNeighbour(row, col, row + i, col + j, bound);
          FloodOrderAppend(mines, (row, col), trace, sub);
          trace := trace + sub;
        }
      }
    }

    /** One step of the cascade: the neighbour (r, c) of the zero-count cell
        (row, col) is revealed if it lies on the board. */
    method RevealNeighbour(row: int, col: int, r: int, c: int, ghost bound: set<Coord>) returns (ghost trace: seq<Coord>)
      requires Valid() && InBounds(size, (row, col)) && board[row, col] == Count(0)
      requires Near((r, c), (row, col))
      requires Unrevealed() < bound
      modifies revealed
      decreases bound, 0
      ensures Unrevealed() <= old(Unrevealed())
      ensures Settled(r, c)
      ensures trace != [] ==> trace[0] == (r, c)
      ensures forall r, c :: 0 <= r < size && 0 <= c < size ==>
        revealed[r, c] == (old(revealed[r, c]) || (r, c) in trace)
      ensures forall p :: p in trace ==>
        InBounds(size, p) && !old(revealed[p.0, p.1]) && p !in flagged && p !in mines
      ensures FloodOrder(mines, trace)
      ensures forall p :: p in trace && Expected(mines, p) == Count(0) ==> NeighboursSettled(p.0, p.1)
    {
      trace := [];
      if 0 <= r < size && 0 <= c < size {
        assert board[row, col] == Expected(mines, (row, col));
        ZeroCellHasNoMineNeighbour(mines, (row, col), (r, c));
        var _, sub := RevealCell(r, c);
        trace := sub;
      }
    }

    /** Flips the flag on (row, col) unless the cell is revealed. */
    method ToggleFlag(row: int, col: int)
      requires Shaped() && InBounds(size, (row, col))
      modifies this`flagged
      ensures flagged == if revealed[row, col] then old(flagged) else Toggled(old(flagged), (row, col))
    {
      if revealed[row, col] {
        return;
      }
      if (row, col) in flagged {
        flagged := flagged - {(row, col)};
      } else {
        flagged := flagged + {(row, col)};
      }
    }

    /** Counts the revealed cells and compares the count with the number of
        non-mine cells. */
    method CheckWin() returns (won: bool)
      requires Shaped()
      ensures won <==> |RevealedCells()| == size * size - numMines
    {
      var cellsRevealed := 0;
      for row := 0 to size
        invariant cellsRevealed == |RevealedBefore(row, 0)|
      {
        for col := 0 to size
          invariant cellsRevealed == |RevealedBefore(row, col)|
        {
          if revealed[row, col] {
            assert RevealedBefore(row, col + 1) == RevealedBefore(row, col) + {(row, col)};
            cellsRevealed := cellsRevealed + 1;
          } else {
            assert RevealedBefore(row, col + 1) == RevealedBefore(row, col);
          }
        }
        assert RevealedBefore(row, size) == RevealedBefore(row + 1, 0);
      }
      won := cellsRevealed == size * size - numMines;
    }

    /** The mine coordinates, each once, for the caller to expose after a loss;
        nothing in the game state changes. */
    method GameOver() returns (exposed: seq<Coord>)
      requires Valid()
      ensures |exposed| == numMines
      ensures forall m :: m in mines <==> m in exposed
      ensures forall i, j :: 0 <= i < j < |exposed| ==> exposed[i] != exposed[j]
    {
      exposed := [];
      var rest := mines;
      while rest != {}
        invariant rest <= mines
        invariant forall m :: m in mines <==> m in rest || m in exposed
        invariant forall m :: m in exposed ==> m !in rest
        invariant forall i, j :: 0 <= i < j < |exposed| ==> exposed[i] != exposed[j]
        invariant |exposed| + |rest| == |mines|
        decreases rest
      {
        var m :| m in rest;
        exposed := exposed + [m];
        rest := rest - {m};
      }
    }

    /** With no mine revealed, the win condition holds exactly when every
        non-mine cell is revealed. */
    lemma WinMeansAllSafeCellsRevealed()
      requires Valid()
      requires RevealedCells() * mines == {}
      ensures WinCondition() <==> RevealedCells() == Cells(size) - mines
    {
      forall p | p in mines ensures p in Cells(size) {
        InCells(size, p);
      }
      forall p | p in RevealedCells() ensures p in Cells(size) {
        InCells(size, p);
      }
      WinMeansCleared(size, mines, RevealedCells());
    }
  }
}
