/** Coordinates, the Moore neighbourhood, and the value every cell of a
    correctly generated board holds, with the facts about them that the game
    engine relies on: counts are order independent, lie in [0, 8], and a
    zero-count cell has no mine next to it. */
module Grid {

  /** A cell coordinate: (row, column). */
  type Coord = (int, int)

  /** What a board cell holds: a mine, or the number of mines around it. */
  datatype Cell = Mine | Count(n: int)

  predicate InBounds(size: int, p: Coord) {
    0 <= p.0 < size && 0 <= p.1 < size
  }

  /** p lies in the 3x3 window centred on q (q itself included). */
  predicate Near(p: Coord, q: Coord) {
    -1 <= p.0 - q.0 <= 1 && -1 <= p.1 - q.1 <= 1
  }

  /** Every coordinate of a size x size board. */
  function Cells(size: nat): set<Coord> {
    Rows(size, size)
  }

  /** The distinct coordinates occurring in a sequence of draws. */
  function Drawn(draws: seq<Coord>): set<Coord> {
    set p | p in draws
  }

  /** The mines in the 3x3 window around p. */
  function MinesAround(mines: set<Coord>, p: Coord): set<Coord> {
    set m | m in mines && Near(m, p)
  }

  /** The value the cell at p holds once exactly the given mines are placed. */
  function Expected(mines: set<Coord>, p: Coord): Cell {
    if p in mines then Mine else Count(|MinesAround(mines, p)|)
  }

  /** The increment applied around a new mine: mine cells are left alone. */
  function Bumped(cell: Cell): Cell {
    match cell
    case Mine => Mine
    case Count(n) => Count(n + 1)
  }

  /** The value of the cell at p after the draws have been placed one at a
      time, starting from an all-zero board: a draw that is already a mine is
      skipped; otherwise its own cell becomes a mine and every non-mine cell
      in its 3x3 window goes up by one. */
  function Replay(order: seq<Coord>, p: Coord): Cell
    decreases |order|
  {
    if order == [] then Count(0)
    else
      var m, before := order[|order| - 1], order[..|order| - 1];
      if m in before then Replay(before, p)
      else if p == m then Mine
      else if Near(p, m) then Bumped(Replay(before, p))
      else Replay(before, p)
  }

  lemma DrawnAppend(draws: seq<Coord>, p: Coord)
    ensures Drawn(draws + [p]) == Drawn(draws) + {p}
  {
  }

  /** One more draw, as the placement loop handles it. */
  lemma ReplayStep(order: seq<Coord>, m: Coord, p: Coord)
    ensures Replay(order + [m], p) ==
      if m in order then Replay(order, p)
      else if p == m then Mine
      else if Near(p, m) then Bumped(Replay(order, p))
      else Replay(order, p)
  {
    assert (order + [m])[..|order|] == order;
  }

  lemma InCells(size: nat, p: Coord)
    ensures p in Cells(size) <==> InBounds(size, p)
  {
    if InBounds(size, p) {
      assert (p.0, p.1) in Cells(size);
    }
  }

  /** Placing one new mine changes exactly the cells that the incremental
      update touches, and in the way it touches them. */
  lemma PlacingOneMine(mines: set<Coord>, m: Coord, p: Coord)
    requires m !in mines
    ensures Expected(mines + {m}, p) ==
      if p == m then Mine
      else if Near(p, m) then Bumped(Expected(mines, p))
      else Expected(mines, p)
  {
    if p != m && p !in mines {
      if Near(m, p) {
        assert MinesAround(mines + {m}, p) == MinesAround(mines, p) + {m};
      } else {
        assert MinesAround(mines + {m}, p) == MinesAround(mines, p);
      }
    }
  }

  /** Incremental placement computes, cell by cell, the count taken from the
      final mine layout. */
  lemma {:induction false} ReplayIsExpected(order: seq<Coord>, p: Coord)
    ensures Replay(order, p) == Expected(Drawn(order), p)
    decreases |order|
  {
    if order == [] {
      assert MinesAround({}, p) == {};
    } else {
      var m, before := order[|order| - 1], order[..|order| - 1];
      assert order == before + [m];
      DrawnAppend(before, m);
      ReplayStep(before, m, p);
      ReplayIsExpected(before, p);
      if m in before {
        assert Drawn(order) == Drawn(before);
      } else {
        PlacingOneMine(Drawn(before), m, p);
      }
    }
  }

  /** The board does not depend on the order in which the mines were drawn,
      nor on how many duplicates were rejected along the way. */
  lemma PlacementOrderIrrelevant(order1: seq<Coord>, order2: seq<Coord>, p: Coord)
    requires Drawn(order1) == Drawn(order2)
    ensures Replay(order1, p) == Replay(order2, p)
  {
    ReplayIsExpected(order1, p);
    ReplayIsExpected(order2, p);
  }

  /** A flood-fill trace: every step after the first lies in the 3x3 window
      of an earlier step whose count is zero. */
  ghost predicate FloodOrder(mines: set<Coord>, trace: seq<Coord>) {
    forall k :: 0 < k < |trace| ==>
      exists j :: 0 <= j < k && Near(trace[k], trace[j]) && Expected(mines, trace[j]) == Count(0)
  }

  /** A trace that starts next to the zero-count origin of another trace
      continues it. */
  lemma FloodOrderAppend(mines: set<Coord>, o: Coord, t: seq<Coord>, s: seq<Coord>)
    requires Expected(mines, o) == Count(0)
    requires FloodOrder(mines, [o] + t) && FloodOrder(mines, s)
    requires s != [] ==> Near(s[0], o)
    ensures FloodOrder(mines, [o] + (t + s))
  {
    var a, r := [o] + t, [o] + (t + s);
    forall k | 0 < k < |r|
      ensures exists j :: 0 <= j < k && Near(r[k], r[j]) && Expected(mines, r[j]) == Count(0)
    {
      var j;
      if k < |a| {
        assert r[k] == a[k];
        j :| 0 <= j < k && Near(a[k], a[j]) && Expected(mines, a[j]) == Count(0);
        assert r[j] == a[j];
      } else if k == |a| {
        assert r[k] == s[0];
        j := 0;
      } else {
        var i := k - |a|;
        assert r[k] == s[i];
        var h :| 0 <= h < i && Near(s[i], s[h]) && Expected(mines, s[h]) == Count(0);
        j := |a| + h;
        assert r[j] == s[h];
      }
      assert 0 <= j < k && Near(r[k], r[j]) && Expected(mines, r[j]) == Count(0);
    }
    assert forall k :: 0 < k < |r| ==>
      exists j :: 0 <= j < k && Near(r[k], r[j]) && Expected(mines, r[j]) == Count(0);
  }

  lemma SubsetCard(a: set<Coord>, b: set<Coord>)
    requires a <= b
    ensures |a| <= |b| && |b - a| == |b| - |a|
  {
    assert b == a + (b - a);
    assert a * (b - a) == {};
  }

  /** A non-mine cell counts at most its eight neighbours. */
  lemma CountAtMostEight(mines: set<Coord>, p: Coord)
    requires p !in mines
    ensures 0 <= Expected(mines, p).n <= 8
  {
    var (r, c) := p;
    var ring := {(r - 1, c - 1), (r - 1, c), (r - 1, c + 1), (r, c - 1),
                 (r, c + 1), (r + 1, c - 1), (r + 1, c), (r + 1, c + 1)};
    assert |ring| == 8;
    forall m | m in MinesAround(mines, p) ensures m in ring {
      assert m != p;
    }
    SubsetCard(MinesAround(mines, p), ring);
  }

  /** A non-mine cell whose count is zero has no mine in its 3x3 window; this
      is why the cascade never steps onto a mine. */
  lemma ZeroCellHasNoMineNeighbour(mines: set<Coord>, p: Coord, q: Coord)
    requires Expected(mines, p) == Count(0)
    requires Near(q, p)
    ensures q !in mines
  {
    assert MinesAround(mines, p) == {};
    assert q in mines ==> q in MinesAround(mines, p);
  }

  /** Row r of the board, columns 0 .. cols - 1. */
  function RowCells(r: int, cols: nat): set<Coord> {
    set c | 0 <= c < cols :: (r, c)
  }

  /** The first `rows` rows of a board `cols` wide. */
  function Rows(rows: nat, cols: nat): set<Coord> {
    set r, c | 0 <= r < rows && 0 <= c < cols :: (r, c)
  }

  lemma {:induction false} RowCellsSize(r: int, cols: nat)
    ensures |RowCells(r, cols)| == cols
  {
    if cols > 0 {
      RowCellsSize(r, cols - 1);
      assert RowCells(r, cols) == RowCells(r, cols - 1) + {(r, cols - 1)};
    }
  }

  lemma {:induction false} RowsSize(rows: nat, cols: nat)
    ensures |Rows(rows, cols)| == rows * cols
  {
    if rows > 0 {
      RowsSize(rows - 1, cols);
      RowCellsSize(rows - 1, cols);
      RowsSplit(rows - 1, cols);
      assert (rows - 1) * cols + cols == rows * cols;
    }
  }

  lemma RowsSplit(rows: nat, cols: nat)
    ensures Rows(rows + 1, cols) == Rows(rows, cols) + RowCells(rows, cols)
    ensures Rows(rows, cols) * RowCells(rows, cols) == {}
  {
  }

  /** A size x size board has size * size cells. */
  lemma CellsSize(size: nat)
    ensures |Cells(size)| == size * size
  {
    RowsSize(size, size);
  }

  /** With no mine among the revealed cells, "size * size - |mines| cells are
      revealed" holds exactly when every non-mine cell is revealed. */
  lemma WinMeansCleared(size: nat, mines: set<Coord>, shown: set<Coord>)
    requires mines <= Cells(size) && shown <= Cells(size)
    requires shown * mines == {}
    ensures |shown| == size * size - |mines| <==> shown == Cells(size) - mines
  {
    var safe := Cells(size) - mines;
    CellsSize(size);
    SubsetCard(mines, Cells(size));
    assert shown <= safe;
    SubsetCard(shown, safe);
    if |shown| == |safe| {
      assert |safe - shown| == 0;
      assert safe - shown == {};
    }
  }

  /** The first example of a 3x3 board with one mine in the corner. */
  lemma CornerMineExample()
    ensures Expected({(0, 0)}, (1, 1)) == Count(1)
    ensures Expected({(0, 0)}, (0, 1)) == Count(1)
    ensures Expected({(0, 0)}, (2, 2)) == Count(0)
    ensures Expected({(0, 0)}, (1, 2)) == Count(0)
  {
    assert MinesAround({(0, 0)}, (1, 1)) == {(0, 0)};
    assert MinesAround({(0, 0)}, (0, 1)) == {(0, 0)};
    assert MinesAround({(0, 0)}, (2, 2)) == {};
    assert MinesAround({(0, 0)}, (1, 2)) == {};
  }
}
