/** `flattened`: a sweep over the rows of a sheet that carries the merged ranges reaching the current
    row, against the plain reading of a merged cell: every cell of the rectangle shows its top left. */
module Flattening {
  import opened Wrappers
  import opened Ordering
  import opened Chars

  datatype CellKind = TextCell | NumberCell | BooleanCell | DateCell

  datatype CellValue = CellValue(text: string, kind: CellKind)

  type Cell = Option<CellValue>

  datatype Row = Row(number: nat, cells: seq<Cell>)

  datatype Merge = Merge(firstRow: nat, lastRow: nat, firstColumn: nat, lastColumn: nat)

  const ANCHOR_LIMIT: nat := 8 * 1024 * 1024
  const ROW_LIMIT: nat := 1048576

  /** What the workbook reader guarantees: one-based rectangles, and rows in order. */
  ghost predicate MergeOk(m: Merge) {
    1 <= m.firstRow <= m.lastRow && 1 <= m.firstColumn <= m.lastColumn
  }

  ghost predicate RowsOk(rows: seq<Row>) {
    && (forall i | 0 <= i < |rows| :: rows[i].number >= 1)
    && (forall i, j | 0 <= i < j < |rows| :: rows[i].number < rows[j].number)
  }

  ghost predicate MergesOk(merges: seq<Merge>) {
    forall m | m in merges :: MergeOk(m)
  }

  // ----- Specification -----

  /** The cells the sheet itself has in a row; none if the row is absent. */
  function RawCells(rows: seq<Row>, number: nat): seq<Cell> {
    if rows == [] then [] else if rows[0].number == number then rows[0].cells else RawCells(rows[1..], number)
  }

  function CellAt(cells: seq<Cell>, column: nat): Cell
    requires column >= 1
  {
    if column <= |cells| then cells[column - 1] else None
  }

  predicate CoversRow(m: Merge, number: nat) {
    m.firstRow <= number <= m.lastRow
  }

  predicate CoversColumn(m: Merge, column: nat) {
    m.firstColumn <= column <= m.lastColumn
  }

  predicate ColumnsOverlap(m: Merge, n: Merge) {
    m.firstColumn <= n.lastColumn && m.lastColumn >= n.firstColumn
  }

  function Anchor(rows: seq<Row>, m: Merge): Cell
    requires m.firstColumn >= 1
  {
    CellAt(RawCells(rows, m.firstRow), m.firstColumn)
  }

  function TextSize(c: Cell): nat {
    if c.None? then 0 else Utf16Length(c.value.text)
  }

  function RowSize(cells: seq<Cell>): nat {
    if cells == [] then 0 else RowSize(cells[..|cells| - 1]) + TextSize(cells[|cells| - 1])
  }

  /** Width of a row: that of its own cells, or the right edge of the widest range that covers it. */
  ghost predicate IsWidth(merges: seq<Merge>, number: nat, own: nat, w: nat) {
    && own <= w
    && (forall m | m in merges && CoversRow(m, number) :: m.lastColumn <= w)
    && (w == own || exists m | m in merges :: CoversRow(m, number) && m.lastColumn == w)
  }

  /** The row as a reader of the sheet sees it. */
  ghost predicate IsExpanded(rows: seq<Row>, merges: seq<Merge>, number: nat, cells: seq<Cell>)
    requires MergesOk(merges)
  {
    && IsWidth(merges, number, |RawCells(rows, number)|, |cells|)
    && forall i | 0 <= i < |cells| :: IsExpandedCell(rows, merges, number, i + 1, cells[i])
  }

  /** The anchor of every range that covers the place, or the sheet's own cell if there is none. */
  ghost predicate IsExpandedCell(rows: seq<Row>, merges: seq<Merge>, number: nat, column: nat, cell: Cell)
    requires MergesOk(merges) && column >= 1
  {
    && (forall m | m in merges && CoversRow(m, number) && CoversColumn(m, column) :: cell == Anchor(rows, m))
    && ((forall m | m in merges && CoversRow(m, number) :: !CoversColumn(m, column))
        ==> cell == CellAt(RawCells(rows, number), column))
  }

  /** Total size of the anchors of the ranges that cover a row. */
  function AnchorSize(rows: seq<Row>, merges: seq<Merge>, number: nat): nat
    requires forall m | m in merges :: m.firstColumn >= 1
  {
    if merges == [] then 0
    else
      var m := merges[|merges| - 1];
      AnchorSize(rows, merges[..|merges| - 1], number) + if CoversRow(m, number) then TextSize(Anchor(rows, m)) else 0
  }

  /** Two ranges that both cover the row share a column. */
  ghost predicate Clash(merges: multiset<Merge>, number: nat) {
    exists m, n | m in merges && n in merges ::
      && CoversRow(m, number) && CoversRow(n, number) && ColumnsOverlap(m, n)
      && (m != n || merges[m] > 1)
  }

  /** The row can be expanded within the limits. */
  ghost predicate RowFits(rows: seq<Row>, merges: seq<Merge>, number: nat)
    requires MergesOk(merges)
  {
    && !Clash(multiset(merges), number)
    && AnchorSize(rows, merges, number) <= ANCHOR_LIMIT
    && forall cells | IsExpanded(rows, merges, number, cells) :: RowSize(cells) <= ROW_LIMIT
  }

  /** The last row there is anything to emit for. */
  ghost predicate IsLastRow(rows: seq<Row>, merges: seq<Merge>, last: nat) {
    && (forall r | r in rows :: r.number <= last)
    && (forall m | m in merges :: m.lastRow <= last)
    && (last == 0 || (exists r | r in rows :: r.number == last) || exists m | m in merges :: m.lastRow == last)
  }

  // ----- The order of the ranges does not matter -----

  predicate FirstRowLeq(m: Merge, n: Merge) {
    m.firstRow <= n.firstRow
  }

  lemma {:induction false} AnchorSizeSplit(rows: seq<Row>, a: seq<Merge>, b: seq<Merge>, number: nat)
    requires MergesOk(a) && MergesOk(b)
    ensures MergesOk(a + b)
    ensures AnchorSize(rows, a + b, number) == AnchorSize(rows, a, number) + AnchorSize(rows, b, number)
    decreases |b|
  {
    if b == [] {
      assert a + b == a;
    } else {
      assert (a + b)[..|a + b| - 1] == a + b[..|b| - 1];
      AnchorSizeSplit(rows, a, b[..|b| - 1], number);
    }
  }

  lemma AnchorSizeRemove(rows: seq<Row>, b: seq<Merge>, j: nat, number: nat)
    requires MergesOk(b) && j < |b|
    ensures MergesOk(b[..j] + b[j + 1..]) && MergesOk([b[j]])
    ensures AnchorSize(rows, b, number) == AnchorSize(rows, [b[j]], number) + AnchorSize(rows, b[..j] + b[j + 1..], number)
  {
    var front, back := b[..j], b[j + 1..];
    assert b == front + ([b[j]] + back);
    assert b[j] in b;
    AnchorSizeSplit(rows, [b[j]], back, number);
    AnchorSizeSplit(rows, front, [b[j]] + back, number);
    AnchorSizeSplit(rows, front, back, number);
  }

  lemma {:induction false} AnchorSizePermutation(rows: seq<Row>, a: seq<Merge>, b: seq<Merge>, number: nat)
    requires MergesOk(a) && MergesOk(b) && multiset(a) == multiset(b)
    ensures AnchorSize(rows, a, number) == AnchorSize(rows, b, number)
    decreases |a|
  {
    hide AnchorSize;
    SameLength(a, b);
    if a == [] {
      assert b == [];
    } else {
      var j :| 0 <= j < |b| && b[j] == a[0];
      RemoveBoth(a, 0, b, j);
      AnchorSizeRemove(rows, a, 0, number);
      AnchorSizeRemove(rows, b, j, number);
      AnchorSizePermutation(rows, a[..0] + a[1..], b[..j] + b[j + 1..], number);
    }
  }

  /** The specification says the same of the ranges in any order. */
  lemma SpecificationPermutation(rows: seq<Row>, a: seq<Merge>, b: seq<Merge>, number: nat)
    requires MergesOk(a) && MergesOk(b) && multiset(a) == multiset(b)
    ensures forall m :: m in a <==> m in b
    ensures forall cells :: IsExpanded(rows, a, number, cells) <==> IsExpanded(rows, b, number, cells)
    ensures RowFits(rows, a, number) <==> RowFits(rows, b, number)
  {
    forall m
      ensures m in a <==> m in b
    {
      assert m in multiset(a) <==> m in multiset(b);
    }
    AnchorSizePermutation(rows, a, b, number);
    forall cells
      ensures IsExpanded(rows, a, number, cells) <==> IsExpanded(rows, b, number, cells)
    {
    }
  }
}
