/** What a reader of a sheet sees at a place, said of its rows and rectangles, and that flattening yields
    exactly this. */
module Sheets {
  import opened Wrappers
  import opened CodeUnits
  import opened Flattening
  import Flatten

  /** The sheet's own cell at a place. */
  ghost predicate Own(rows: seq<Row>, number: nat, column: nat, cell: Cell) {
    || (exists i :: OwnAt(rows, i, number, column, cell))
    || (cell.None? && forall i | 0 <= i < |rows| && rows[i].number == number :: column > |rows[i].cells|)
  }

  ghost predicate OwnAt(rows: seq<Row>, i: nat, number: nat, column: nat, cell: Cell) {
    i < |rows| && rows[i].number == number && 1 <= column <= |rows[i].cells| && rows[i].cells[column - 1] == cell
  }

  ghost predicate Inside(m: Merge, number: nat, column: nat) {
    m.firstRow <= number && number <= m.lastRow && m.firstColumn <= column && column <= m.lastColumn
  }

  /** The reader sees the top left cell of every rectangle around the place, and the own cell if there is none. */
  ghost predicate Sees(rows: seq<Row>, merges: seq<Merge>, number: nat, column: nat, cell: Cell) {
    && (forall m | m in merges && Inside(m, number, column) :: Own(rows, m.firstRow, m.firstColumn, cell))
    && ((forall m | m in merges :: !Inside(m, number, column)) ==> Own(rows, number, column, cell))
  }

  ghost predicate HasOwn(rows: seq<Row>, number: nat, column: nat) {
    exists i :: 0 <= i < |rows| && rows[i].number == number && column <= |rows[i].cells|
  }

  /** There is a cell or a rectangle in this column or behind it. */
  ghost predicate Reaches(rows: seq<Row>, merges: seq<Merge>, number: nat, column: nat) {
    || HasOwn(rows, number, column)
    || (exists m | m in merges :: m.firstRow <= number && number <= m.lastRow && column <= m.lastColumn)
  }

  /** The cells are what a reader sees in the row, up to the last cell or rectangle. */
  ghost predicate RowSeen(rows: seq<Row>, merges: seq<Merge>, number: nat, cells: seq<Cell>) {
    && (forall column: nat | column >= 1 :: Reaches(rows, merges, number, column) <==> column <= |cells|)
    && forall i | 0 <= i < |cells| :: Sees(rows, merges, number, i + 1, cells[i])
  }

  // ----- The specification of the sweep -----

  lemma {:induction false} OwnExact(rows: seq<Row>, number: nat, column: nat)
    requires RowsOk(rows) && column >= 1
    ensures forall cell :: Own(rows, number, column, cell) <==> cell == CellAt(RawCells(rows, number), column)
    decreases |rows|
  {
    if rows != [] {
      var rest := rows[1..];
      assert RowsOk(rest);
      OwnExact(rest, number, column);
      forall cell
        ensures Own(rows, number, column, cell) <==> cell == CellAt(RawCells(rows, number), column)
      {
        if rows[0].number == number {
          assert forall i | 0 < i < |rows| :: rows[i].number != number;
          assert column <= |rows[0].cells| ==> OwnAt(rows, 0, number, column, rows[0].cells[column - 1]);
        } else {
          OwnTail(rows, number, column, cell);
        }
      }
    }
  }

  lemma OwnTail(rows: seq<Row>, number: nat, column: nat, cell: Cell)
    requires rows != [] && rows[0].number != number
    ensures Own(rows, number, column, cell) <==> Own(rows[1..], number, column, cell)
  {
    var rest := rows[1..];
    if i: nat :| OwnAt(rows, i, number, column, cell) {
      assert OwnAt(rest, i - 1, number, column, cell);
    }
    if i: nat :| OwnAt(rest, i, number, column, cell) {
      assert OwnAt(rows, i + 1, number, column, cell);
    }
    assert forall i | 0 <= i < |rest| :: rest[i] == rows[i + 1];
    assert forall i | 0 < i < |rows| :: rows[i] == rest[i - 1];
  }

  lemma {:induction false} WidthExact(rows: seq<Row>, number: nat, column: nat)
    requires RowsOk(rows) && column >= 1
    ensures HasOwn(rows, number, column) <==> column <= |RawCells(rows, number)|
    decreases |rows|
  {
    if rows != [] {
      var rest := rows[1..];
      assert RowsOk(rest);
      WidthExact(rest, number, column);
      if rows[0].number == number {
        assert forall i | 0 < i < |rows| :: rows[i].number != number;
      } else {
        if i :| 0 <= i < |rest| && rest[i].number == number && column <= |rest[i].cells| {
          assert rows[i + 1] == rest[i];
        }
        if i :| 0 <= i < |rows| && rows[i].number == number && column <= |rows[i].cells| {
          assert rest[i - 1] == rows[i];
        }
      }
    }
  }

  lemma InsideExact(m: Merge, number: nat, column: nat)
    ensures Inside(m, number, column) <==> CoversRow(m, number) && CoversColumn(m, column)
  {
  }

  lemma SeesExact(rows: seq<Row>, merges: seq<Merge>, number: nat, column: nat, cell: Cell)
    requires RowsOk(rows) && MergesOk(merges) && column >= 1
    ensures Sees(rows, merges, number, column, cell) <==> IsExpandedCell(rows, merges, number, column, cell)
  {
    hide Own, RawCells, CellAt, CoversRow, CoversColumn, Inside;
    OwnExact(rows, number, column);
    forall m | m in merges
      ensures Inside(m, number, column) <==> CoversRow(m, number) && CoversColumn(m, column)
      ensures Own(rows, m.firstRow, m.firstColumn, cell) <==> cell == Anchor(rows, m)
    {
      InsideExact(m, number, column);
      OwnExact(rows, m.firstRow, m.firstColumn);
    }
  }

  /** A row expanded by the specification is the row a reader sees. */
  lemma ExpandedExact(rows: seq<Row>, merges: seq<Merge>, number: nat, cells: seq<Cell>)
    requires RowsOk(rows) && MergesOk(merges)
    ensures IsExpanded(rows, merges, number, cells) <==> RowSeen(rows, merges, number, cells)
  {
    hide Sees, IsExpandedCell, RawCells, Reaches, IsWidth;
    ReachesExact(rows, merges, number, |cells|);
    forall i | 0 <= i < |cells|
      ensures Sees(rows, merges, number, i + 1, cells[i]) <==> IsExpandedCell(rows, merges, number, i + 1, cells[i])
    {
      SeesExact(rows, merges, number, i + 1, cells[i]);
    }
  }

  lemma ReachesExact(rows: seq<Row>, merges: seq<Merge>, number: nat, w: nat)
    requires RowsOk(rows) && MergesOk(merges)
    ensures (forall column: nat | column >= 1 :: Reaches(rows, merges, number, column) <==> column <= w)
      <==> IsWidth(merges, number, |RawCells(rows, number)|, w)
  {
    var own := |RawCells(rows, number)|;
    forall column: nat | column >= 1
      ensures Reaches(rows, merges, number, column)
        <==> column <= own || exists m | m in merges :: CoversRow(m, number) && column <= m.lastColumn
    {
      WidthExact(rows, number, column);
      if m :| m in merges && m.firstRow <= number && number <= m.lastRow && column <= m.lastColumn {
        assert CoversRow(m, number);
      }
    }
    if forall column: nat | column >= 1 :: Reaches(rows, merges, number, column) <==> column <= w {
      assert own >= 1 ==> Reaches(rows, merges, number, own);
      forall m | m in merges && CoversRow(m, number)
        ensures m.lastColumn <= w
      {
        assert Reaches(rows, merges, number, m.lastColumn);
      }
      assert w >= 1 ==> Reaches(rows, merges, number, w);
    }
  }

  // ----- When a row fits -----

  function UnitsIn(cell: Cell): nat {
    if cell.Some? then |Encoded(cell.value.text)| else 0
  }

  function UnitsOf(cells: seq<Cell>): nat {
    if cells == [] then 0 else UnitsIn(cells[0]) + UnitsOf(cells[1..])
  }

  /** The top left cells of the rectangles that cover the row. */
  function AnchorUnits(rows: seq<Row>, merges: seq<Merge>, number: nat): nat
    requires MergesOk(merges)
  {
    if merges == [] then 0
    else
      assert merges[0] in merges && forall m | m in merges[1..] :: m in merges;
      (if merges[0].firstRow <= number && number <= merges[0].lastRow
       then UnitsIn(CellAt(RawCells(rows, merges[0].firstRow), merges[0].firstColumn)) else 0)
      + AnchorUnits(rows, merges[1..], number)
  }

  /** A place of the row lies in two rectangles. */
  ghost predicate TwiceCovered(merges: seq<Merge>, number: nat) {
    exists i, j, column :: TwiceAt(merges, number, i, j, column)
  }

  ghost predicate TwiceAt(merges: seq<Merge>, number: nat, i: nat, j: nat, column: nat) {
    i < j < |merges| && Inside(merges[i], number, column) && Inside(merges[j], number, column)
  }

  /** No place lies in two rectangles, and the limits of the anchors and of the row hold. */
  ghost predicate Fits(rows: seq<Row>, merges: seq<Merge>, number: nat)
    requires MergesOk(merges)
  {
    && !TwiceCovered(merges, number)
    && AnchorUnits(rows, merges, number) <= 8_388_608
    && forall cells | RowSeen(rows, merges, number, cells) :: UnitsOf(cells) <= 1_048_576
  }

  lemma {:induction false} MultiplicityTwo<T>(s: seq<T>, x: T) returns (i: nat, j: nat)
    requires multiset(s)[x] > 1
    ensures i < j < |s| && s[i] == x && s[j] == x
  {
    var front := s[..|s| - 1];
    assert s == front + [s[|s| - 1]];
    if s[|s| - 1] == x {
      assert x in multiset(front);
      i :| 0 <= i < |front| && front[i] == x;
      j := |s| - 1;
    } else {
      i, j := MultiplicityTwo(front, x);
    }
  }

  lemma TwoIndices<T>(s: seq<T>, i: nat, j: nat)
    requires i < j < |s| && s[i] == s[j]
    ensures multiset(s)[s[i]] > 1
  {
    assert s == s[..j] + s[j..];
    assert s[i] in s[..j] by {
      assert s[..j][i] == s[i];
    }
    assert s[j] in s[j..] by {
      assert s[j..][0] == s[j];
    }
  }

  lemma ClashExact(merges: seq<Merge>, number: nat)
    requires MergesOk(merges)
    ensures Clash(multiset(merges), number) <==> TwiceCovered(merges, number)
  {
    if Clash(multiset(merges), number) {
      var m, n :| m in multiset(merges) && n in multiset(merges)
        && CoversRow(m, number) && CoversRow(n, number) && ColumnsOverlap(m, n) && (m != n || multiset(merges)[m] > 1);
      var column := if m.firstColumn > n.firstColumn then m.firstColumn else n.firstColumn;
      assert m in merges && n in merges;
      if m != n {
        var i :| 0 <= i < |merges| && merges[i] == m;
        var j :| 0 <= j < |merges| && merges[j] == n;
        assert TwiceAt(merges, number, if i < j then i else j, if i < j then j else i, column);
      } else {
        var i, j := MultiplicityTwo(merges, m);
        assert TwiceAt(merges, number, i, j, column);
      }
    }
    if i: nat, j: nat, column: nat :| TwiceAt(merges, number, i, j, column) {
      var m, n := merges[i], merges[j];
      assert m in multiset(merges) && n in multiset(merges);
      if m == n {
        TwoIndices(merges, i, j);
      }
      assert CoversRow(m, number) && CoversRow(n, number) && ColumnsOverlap(m, n);
    }
  }

  lemma SizeExact(cell: Cell)
    ensures TextSize(cell) == UnitsIn(cell)
  {
    if cell.Some? {
      LengthExact(cell.value.text);
    }
  }

  lemma {:induction false} RowSizeExact(cells: seq<Cell>)
    ensures RowSize(cells) == UnitsOf(cells)
    decreases |cells|
  {
    if |cells| >= 1 {
      var front, last := cells[..|cells| - 1], cells[|cells| - 1];
      RowSizeExact(front);
      SizeExact(last);
      UnitsMore(front, last);
      assert cells == front + [last];
    }
  }

  lemma {:induction false} UnitsMore(cells: seq<Cell>, last: Cell)
    ensures UnitsOf(cells + [last]) == UnitsOf(cells) + UnitsIn(last)
  {
    if cells != [] {
      assert (cells + [last])[1..] == cells[1..] + [last];
      UnitsMore(cells[1..], last);
    } else {
      assert (cells + [last])[1..] == [];
    }
  }

  lemma {:induction false} AnchorSizeExact(rows: seq<Row>, merges: seq<Merge>, number: nat)
    requires MergesOk(merges)
    ensures AnchorSize(rows, merges, number) == AnchorUnits(rows, merges, number)
    decreases |merges|
  {
    hide RawCells;
    if merges != [] {
      var first, rest := merges[0], merges[1..];
      assert first in merges && forall m | m in rest :: m in merges;
      assert [first] + rest == merges;
      AnchorSizeSplit(rows, [first], rest, number);
      AnchorSizeExact(rows, rest, number);
      OneAnchor(rows, first, number);
    }
  }

  lemma OneAnchor(rows: seq<Row>, m: Merge, number: nat)
    requires MergeOk(m)
    ensures AnchorSize(rows, [m], number) ==
      if m.firstRow <= number && number <= m.lastRow then UnitsIn(CellAt(RawCells(rows, m.firstRow), m.firstColumn)) else 0
  {
    SizeExact(Anchor(rows, m));
    var none: seq<Merge> := [];
    assert [m][..0] == none && AnchorSize(rows, none, number) == 0;
  }

  lemma FitsExact(rows: seq<Row>, merges: seq<Merge>, number: nat)
    requires RowsOk(rows) && MergesOk(merges)
    ensures RowFits(rows, merges, number) <==> Fits(rows, merges, number)
  {
    hide IsExpanded, RowSeen, AnchorSize, AnchorUnits, RowSize, UnitsOf;
    ClashExact(merges, number);
    AnchorSizeExact(rows, merges, number);
    forall cells
      ensures IsExpanded(rows, merges, number, cells) <==> RowSeen(rows, merges, number, cells)
      ensures RowSize(cells) == UnitsOf(cells)
    {
      ExpandedExact(rows, merges, number, cells);
      RowSizeExact(cells);
    }
  }

  // ----- The whole sheet -----

  /** The rows from the first one on as a reader sees them; all of them up to the last row or rectangle, or
      those before the first one that does not fit. */
  ghost predicate SheetSeen(rows: seq<Row>, merges: seq<Merge>, out: seq<Row>, ok: bool)
    requires MergesOk(merges)
  {
    && (forall k | 0 <= k < |out| :: AsSeen(rows, merges, out[k], k + 1))
    && (ok ==> !MoreBelow(rows, merges, |out|) && (out != [] ==> MoreBelow(rows, merges, |out| - 1)))
    && (!ok ==> MoreBelow(rows, merges, |out|) && !Fits(rows, merges, |out| + 1))
  }

  ghost predicate AsSeen(rows: seq<Row>, merges: seq<Merge>, r: Row, number: nat)
    requires MergesOk(merges)
  {
    r.number == number && RowSeen(rows, merges, number, r.cells) && Fits(rows, merges, number)
  }

  /** A row or a rectangle reaches below this one. */
  ghost predicate MoreBelow(rows: seq<Row>, merges: seq<Merge>, number: nat) {
    (exists r | r in rows :: r.number > number) || exists m | m in merges :: m.lastRow > number
  }

  /** Flattening yields what a reader sees. */
  lemma OutcomeExact(rows: seq<Row>, merges: seq<Merge>, out: seq<Row>, ok: bool)
    requires RowsOk(rows) && MergesOk(merges)
    ensures Flatten.Outcome(rows, merges, out, ok) <==> SheetSeen(rows, merges, out, ok)
  {
    hide Flatten.RowYielded, Flatten.Stuck, AsSeen, RowFits, Fits, IsLastRow, MoreBelow;
    FitsExact(rows, merges, |out| + 1);
    StuckExact(rows, merges, |out|);
    forall k | 0 <= k < |out|
      ensures Flatten.RowYielded(rows, merges, out[k], k + 1) <==> AsSeen(rows, merges, out[k], k + 1)
    {
      YieldedExact(rows, merges, out[k], k + 1);
    }
    LastExact(rows, merges, |out|);
  }

  lemma YieldedExact(rows: seq<Row>, merges: seq<Merge>, r: Row, number: nat)
    requires RowsOk(rows) && MergesOk(merges)
    ensures Flatten.RowYielded(rows, merges, r, number) <==> AsSeen(rows, merges, r, number)
  {
    hide IsExpanded, RowSeen, RowFits, Fits;
    FitsExact(rows, merges, number);
    ExpandedExact(rows, merges, number, r.cells);
  }

  lemma StuckExact(rows: seq<Row>, merges: seq<Merge>, yielded: nat)
    requires MergesOk(merges)
    ensures Flatten.Stuck(rows, merges, yielded) <==> MoreBelow(rows, merges, yielded) && !RowFits(rows, merges, yielded + 1)
  {
    hide RowFits;
  }

  lemma LastExact(rows: seq<Row>, merges: seq<Merge>, last: nat)
    requires RowsOk(rows) && MergesOk(merges)
    ensures IsLastRow(rows, merges, last) <==> !MoreBelow(rows, merges, last) && (last > 0 ==> MoreBelow(rows, merges, last - 1))
  {
  }
}
