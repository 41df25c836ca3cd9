/** `SpreadsheetExtractor`: a first pass that finds the header and infers a type for every column, and a
    second pass that writes the rows in those types. */
module Extraction {
  import opened Wrappers
  import opened Flattening
  import Flatten
  import ColumnNames

  datatype ColumnType = TEXT | NUMERIC | BOOLEAN | DATE

  /** What `inferCell` makes of a cell that is not null. */
  datatype Inferred = Inferred(columnType: ColumnType, value: string)

  type Inference = CellValue -> Inferred

  datatype Verification = Verification(column: string, value: string)

  datatype Rule = Rule(headerRow: nat, verify: Option<Verification>)

  datatype Refusal = HeaderMerged | HeaderEmpty | HeaderAbsent | VerificationColumn | Disagreement
    | NothingToVerify | Changed | Malformed

  datatype Column = Column(header: Option<string>, columnType: ColumnType)

  datatype Summary = Summary(headerRow: nat, rowCount: nat, columns: seq<Column>, names: seq<string>)

  /** What the flattened sheet gives: rows numbered from one, and then its end or an exception. */
  datatype Sheet = Sheet(merges: seq<Merge>, rows: seq<Row>, complete: bool)

  /** The rows of the worksheet as it stores them, and its merged ranges. */
  datatype Workbook = Workbook(rows: seq<Row>, merges: seq<Merge>)

  ghost predicate WorkbookOk(workbook: Workbook) {
    RowsOk(workbook.rows) && MergesOk(workbook.merges)
  }

  /** The flattened sheet of a workbook. */
  ghost predicate SheetOf(workbook: Workbook, sheet: Sheet)
    requires WorkbookOk(workbook)
  {
    sheet.merges == workbook.merges && Flatten.Outcome(workbook.rows, workbook.merges, sheet.rows, sheet.complete)
  }

  /** There is only one. */
  lemma SheetUnique(workbook: Workbook, a: Sheet, b: Sheet)
    requires WorkbookOk(workbook) && SheetOf(workbook, a) && SheetOf(workbook, b)
    ensures a == b
  {
    Flatten.OutcomeUnique(workbook.rows, workbook.merges, a.rows, a.complete, b.rows, b.complete);
  }

  method ReadSheet(workbook: Workbook) returns (sheet: Sheet)
    requires WorkbookOk(workbook)
    ensures SheetOf(workbook, sheet) && SheetOk(sheet)
    ensures forall other | SheetOf(workbook, other) :: other == sheet
  {
    hide Flatten.Outcome, RowsOk, MergesOk;
    var rows, complete := Flatten.Flattened(workbook.rows, workbook.merges);
    sheet := Sheet(workbook.merges, rows, complete);
    Numbered(workbook, sheet);
    forall other | SheetOf(workbook, other)
      ensures other == sheet
    {
      SheetUnique(workbook, other, sheet);
    }
  }

  lemma Numbered(workbook: Workbook, sheet: Sheet)
    requires WorkbookOk(workbook) && SheetOf(workbook, sheet)
    ensures SheetOk(sheet)
  {
  }

  ghost predicate SheetOk(sheet: Sheet) {
    forall k | 0 <= k < |sheet.rows| :: sheet.rows[k].number == k + 1
  }

  // ----- Types as a lattice: nothing below every type, TEXT above every type -----

  predicate Below(a: Option<ColumnType>, b: Option<ColumnType>) {
    a == b || a.None? || b == Some(TEXT)
  }

  ghost predicate Bounds(types: set<ColumnType>, t: Option<ColumnType>) {
    forall x | x in types :: Below(Some(x), t)
  }

  /** `t` is the join of the types: their least upper bound. */
  ghost predicate IsJoin(types: set<ColumnType>, t: Option<ColumnType>) {
    Bounds(types, t) && forall u | Bounds(types, u) :: Below(t, u)
  }

  /** The assignment to `types[index]`. */
  function Widened(t: Option<ColumnType>, inferred: ColumnType): ColumnType {
    if t.None? || t.value == inferred then inferred else TEXT
  }

  lemma WidenedJoins(types: set<ColumnType>, t: Option<ColumnType>, inferred: ColumnType)
    requires IsJoin(types, t)
    ensures IsJoin(types + {inferred}, Some(Widened(t, inferred)))
  {
    forall u | Bounds(types + {inferred}, u)
      ensures Below(Some(Widened(t, inferred)), u)
    {
      assert inferred in types + {inferred};
      assert forall x | x in types :: x in types + {inferred};
      assert Bounds(types, u);
    }
  }

  /** A join that is not TEXT is the only type there is. */
  lemma JoinSingle(types: set<ColumnType>, t: Option<ColumnType>)
    requires IsJoin(types, t) && t != Some(TEXT)
    ensures forall x | x in types :: t == Some(x)
    ensures t.None? <==> types == {}
  {
    if types == {} {
      assert Bounds(types, None);
    }
  }

  // ----- What the two passes see -----

  predicate Blank(cells: seq<Cell>) {
    forall i | 0 <= i < |cells| :: cells[i].None? || cells[i].value.text == ""
  }

  function CellText(cells: seq<Cell>, index: nat): string {
    if index < |cells| && cells[index].Some? then cells[index].value.text else ""
  }

  function HeaderText(c: Cell): Option<string> {
    if c.Some? then Some(c.value.text) else None
  }

  /** The rows from `start` on, up to the first blank one. */
  function UntilBlank(rows: seq<Row>, start: nat): (r: seq<Row>)
    ensures start + |r| <= |rows| || (start > |rows| && r == [])
    decreases |rows| - start
  {
    if start >= |rows| || Blank(rows[start].cells) then [] else [rows[start]] + UntilBlank(rows, start + 1)
  }

  /** The types the cells of a column infer. */
  function InferredAt(infer: Inference, data: seq<Row>, index: nat): set<ColumnType> {
    if data == [] then {} else InferredAt(infer, data[..|data| - 1], index) + InferredIn(infer, data[|data| - 1].cells, index)
  }

  function InferredIn(infer: Inference, cells: seq<Cell>, index: nat): set<ColumnType> {
    if index < |cells| && cells[index].Some? then {infer(cells[index].value).columnType} else {}
  }

  lemma {:induction false} InferredAtExact(infer: Inference, data: seq<Row>, index: nat, t: ColumnType)
    ensures t in InferredAt(infer, data, index) <==> exists r | r in data :: t in InferredIn(infer, r.cells, index)
  {
    if data != [] {
      var front, last := data[..|data| - 1], data[|data| - 1];
      assert data == front + [last];
      InferredAtExact(infer, front, index, t);
    }
  }

  /** The columns of a sheet: as wide as its header and its data, each of the join of the inferred types. */
  ghost predicate IsColumns(infer: Inference, header: seq<Cell>, data: seq<Row>, columns: seq<Column>) {
    && |columns| >= |header|
    && (forall i: nat | i >= |columns| :: InferredAt(infer, data, i) == {})
    && (|columns| > |header| ==> InferredAt(infer, data, |columns| - 1) != {})
    && (forall i | 0 <= i < |columns| :: IsColumn(infer, header, data, i, columns[i]))
  }

  ghost predicate IsColumn(infer: Inference, header: seq<Cell>, data: seq<Row>, i: nat, column: Column) {
    && column.header == (if i < |header| then HeaderText(header[i]) else None)
    && IsJoin(InferredAt(infer, data, i), if InferredAt(infer, data, i) == {} then None else Some(column.columnType))
    && (InferredAt(infer, data, i) == {} ==> column.columnType == TEXT)
  }

  /** Whether the inspection refuses the sheet, and why. */
  ghost function Refused(sheet: Sheet, rule: Rule, same: bool): Option<Refusal>
    requires rule.headerRow >= 1
  {
    var header := if rule.headerRow <= |sheet.rows| then sheet.rows[rule.headerRow - 1].cells else [];
    var data := UntilBlank(sheet.rows, rule.headerRow);
    if exists m | m in sheet.merges :: CoversRow(m, rule.headerRow) then Some(HeaderMerged)
    else if rule.headerRow > |sheet.rows| then Some(if sheet.complete then HeaderAbsent else Malformed)
    else if Blank(header) then Some(HeaderEmpty)
    else if rule.verify.Some? && !Found(header, rule.verify.value.column) then Some(VerificationColumn)
    else if rule.verify.Some? && !AllAgree(header, data, rule.verify.value) then Some(Disagreement)
    else if rule.headerRow + |data| == |sheet.rows| && !sheet.complete then Some(Malformed)
    else if rule.verify.Some? && data == [] then Some(NothingToVerify)
    else if !same then Some(Changed)
    else None
  }

  predicate Disagrees(r: Row, index: nat, value: string) {
    CellText(r.cells, index) != value
  }

  ghost predicate Found(header: seq<Cell>, text: string) {
    exists i :: OnlyHeader(header, text, i)
  }

  ghost predicate AllAgree(header: seq<Cell>, data: seq<Row>, verify: Verification) {
    forall i, r | OnlyHeader(header, verify.column, i) && r in data :: !Disagrees(r, i, verify.value)
  }

  /** The one place where the header is this text. */
  ghost predicate OnlyHeader(header: seq<Cell>, text: string, i: nat) {
    && i < |header| && HeaderText(header[i]) == Some(text)
    && forall j | 0 <= j < |header| && HeaderText(header[j]) == Some(text) :: j == i
  }

  // ----- First pass -----

  function TypeAt(types: seq<Option<ColumnType>>, i: nat): Option<ColumnType> {
    if i < |types| then types[i] else None
  }

  /** `types[index] = t`, where a gap before it reads as undefined. */
  function Put(types: seq<Option<ColumnType>>, index: nat, t: ColumnType): (r: seq<Option<ColumnType>>)
    ensures forall i: nat :: TypeAt(r, i) == if i == index then Some(t) else TypeAt(types, i)
  {
    if index < |types| then types[index := Some(t)]
    else types + seq(index - |types|, i => None) + [Some(t)]
  }

  /** The types so far: those of the rows before, and of the first `k` cells of the current one. */
  ghost predicate Joined(infer: Inference, data: seq<Row>, cells: seq<Cell>, k: nat, types: seq<Option<ColumnType>>)
    requires k <= |cells|
  {
    && (types == [] || types[|types| - 1].Some?)
    && forall i: nat :: IsJoin(InferredAt(infer, data, i) + InferredIn(infer, cells[..k], i), TypeAt(types, i))
  }

  /** The loop over the cells of a data row. */
  method InferRow(infer: Inference, ghost data: seq<Row>, row: Row, types: seq<Option<ColumnType>>)
    returns (r: seq<Option<ColumnType>>)
    requires Joined(infer, data, [], 0, types)
    ensures Joined(infer, data + [row], [], 0, r)
  {
    r := types;
    assert Joined(infer, data, row.cells, 0, r) by {
      assert row.cells[..0] == [];
    }
    for index := 0 to |row.cells|
      invariant Joined(infer, data, row.cells, index, r)
    {
      JoinedMore(infer, data, row.cells, index, r);
      if row.cells[index].Some? {
        r := Put(r, index, Widened(TypeAt(r, index), infer(row.cells[index].value).columnType));
      }
    }
    assert row.cells[..|row.cells|] == row.cells;
    assert (data + [row])[..|data + [row]| - 1] == data;
    forall i: nat
      ensures InferredAt(infer, data + [row], i) + InferredIn(infer, [], i)
           == InferredAt(infer, data, i) + InferredIn(infer, row.cells, i)
    {
    }
  }

  lemma JoinedMore(infer: Inference, data: seq<Row>, cells: seq<Cell>, k: nat, types: seq<Option<ColumnType>>)
    requires k < |cells| && Joined(infer, data, cells, k, types)
    ensures Joined(infer, data, cells, k + 1,
      if cells[k].Some? then Put(types, k, Widened(TypeAt(types, k), infer(cells[k].value).columnType)) else types)
  {
    var more := if cells[k].Some? then Put(types, k, Widened(TypeAt(types, k), infer(cells[k].value).columnType)) else types;
    forall i: nat
      ensures IsJoin(InferredAt(infer, data, i) + InferredIn(infer, cells[..k + 1], i), TypeAt(more, i))
    {
      assert IsJoin(InferredAt(infer, data, i) + InferredIn(infer, cells[..k], i), TypeAt(types, i));
      if i == k && cells[k].Some? {
        WidenedJoins(InferredAt(infer, data, i), TypeAt(types, i), infer(cells[k].value).columnType);
      }
    }
  }

  lemma {:induction false} UntilBlankAt(rows: seq<Row>, start: nat, k: nat)
    requires start <= k <= |rows|
    requires forall j | start <= j < k :: !Blank(rows[j].cells)
    ensures UntilBlank(rows, start) == rows[start..k] + UntilBlank(rows, k)
    decreases k - start
  {
    if start < k {
      var rest := UntilBlank(rows, k);
      UntilBlankAt(rows, start + 1, k);
      assert UntilBlank(rows, start) == [rows[start]] + UntilBlank(rows, start + 1);
      assert [rows[start]] + (rows[start + 1..k] + rest) == ([rows[start]] + rows[start + 1..k]) + rest;
      assert rows[start..k] == [rows[start]] + rows[start + 1..k];
    } else {
      assert rows[start..k] + UntilBlank(rows, k) == UntilBlank(rows, k);
    }
  }

  lemma BlankEnds(rows: seq<Row>, k: nat)
    requires k < |rows| && Blank(rows[k].cells)
    ensures UntilBlank(rows, k) == []
  {
  }

  lemma NothingLeft(rows: seq<Row>, start: nat)
    ensures UntilBlank(rows, |rows|) == [] && (start > |rows| ==> UntilBlank(rows, start) == [])
  {
  }

  /** `headers.flatMap(...)`: where the header is this text. */
  method Matches(header: seq<Cell>, text: string) returns (matches: seq<nat>)
    ensures |matches| == 1 ==> OnlyHeader(header, text, matches[0]) && Found(header, text)
    ensures |matches| != 1 ==> !Found(header, text)
  {
    matches := [];
    for index := 0 to |header|
      invariant forall k | 0 <= k < |matches| :: matches[k] < index && HeaderText(header[matches[k]]) == Some(text)
      invariant forall j, k | 0 <= j < k < |matches| :: matches[j] < matches[k]
      invariant forall i | 0 <= i < index && HeaderText(header[i]) == Some(text) :: i in matches
    {
      if HeaderText(header[index]) == Some(text) {
        matches := matches + [index];
      }
    }
    if |matches| >= 2 {
      assert matches[0] < matches[1];
    }
  }

  /** The data loop of the inspection: counts the rows, joins their types and checks the attribution. */
  method InferRows(infer: Inference, rows: seq<Row>, start: nat, verify: Option<(nat, string)>)
    returns (types: seq<Option<ColumnType>>, rowCount: nat, agrees: bool, ended: bool)
    requires start <= |rows|
    ensures agrees <==> verify.None? || forall r | r in UntilBlank(rows, start) :: !Disagrees(r, verify.value.0, verify.value.1)
    ensures agrees ==> rowCount == |UntilBlank(rows, start)| && Joined(infer, UntilBlank(rows, start), [], 0, types)
    ensures agrees ==> ended == (start + rowCount == |rows|)
  {
    types, rowCount := [], 0;
    var k := start;
    while k < |rows|
      invariant start <= k <= |rows| && rowCount == k - start
      invariant forall j | start <= j < k :: !Blank(rows[j].cells)
      invariant Joined(infer, rows[start..k], [], 0, types)
      invariant verify.Some? ==> forall r | r in rows[start..k] :: !Disagrees(r, verify.value.0, verify.value.1)
    {
      UntilBlankAt(rows, start, k);
      if Blank(rows[k].cells) {
        assert rows[start..k] + [] == rows[start..k];
        return types, rowCount, true, false;
      }
      if verify.Some? && Disagrees(rows[k], verify.value.0, verify.value.1) {
        assert rows[k] in UntilBlank(rows, k);
        return types, rowCount, false, false;
      }
      assert rows[start..k + 1] == rows[start..k] + [rows[k]];
      types := InferRow(infer, rows[start..k], rows[k], types);
      rowCount := rowCount + 1;
      k := k + 1;
    }
    UntilBlankAt(rows, start, k);
    assert rows[start..k] + [] == rows[start..k];
    return types, rowCount, true, true;
  }

  /** The columns of the summary: the header padded to the width of the data. */
  function Columns(header: seq<Cell>, types: seq<Option<ColumnType>>): seq<Column> {
    seq(if |header| > |types| then |header| else |types|, i requires 0 <= i =>
      Column(if i < |header| then HeaderText(header[i]) else None, if TypeAt(types, i).Some? then TypeAt(types, i).value else TEXT))
  }

  function HeadersOf(columns: seq<Column>): (r: seq<Option<string>>)
    ensures |r| == |columns|
  {
    seq(|columns|, i requires 0 <= i < |columns| => columns[i].header)
  }

  lemma ColumnsJoined(infer: Inference, header: seq<Cell>, data: seq<Row>, types: seq<Option<ColumnType>>)
    requires Joined(infer, data, [], 0, types)
    ensures IsColumns(infer, header, data, Columns(header, types))
  {
    var columns := Columns(header, types);
    forall i: nat
      ensures IsJoin(InferredAt(infer, data, i), TypeAt(types, i))
      ensures TypeAt(types, i).None? <==> InferredAt(infer, data, i) == {}
    {
      var inferred := InferredAt(infer, data, i);
      assert IsJoin(inferred + InferredIn(infer, [], i), TypeAt(types, i));
      assert inferred + {} == inferred;
      if TypeAt(types, i) != Some(TEXT) {
        JoinSingle(inferred, TypeAt(types, i));
      } else if inferred == {} {
        assert Bounds(inferred, None);
      }
    }
    forall i: nat | i >= |columns|
      ensures InferredAt(infer, data, i) == {}
    {
      assert TypeAt(types, i) == None;
    }
    if |columns| > |header| {
      assert TypeAt(types, |columns| - 1).Some?;
    }
  }

  /** First pass over the flattened sheet. */
  method InspectSheet(infer: Inference, sheet: Sheet, rule: Rule, same: bool) returns (summary: Option<Summary>,
      refusal: Option<Refusal>)
    requires SheetOk(sheet) && rule.headerRow >= 1
    ensures refusal == Refused(sheet, rule, same)
    ensures summary.Some? <==> refusal.None?
    ensures summary.Some? ==> IsSummary(infer, sheet, rule.headerRow, summary.value)
  {
    hide UntilBlank, InferredAt, Joined, IsColumns, Columns, Blank, HeaderText;
    if exists m | m in sheet.merges :: CoversRow(m, rule.headerRow) {
      return None, Some(HeaderMerged);
    }
    if rule.headerRow > |sheet.rows| {
      return None, Some(if sheet.complete then HeaderAbsent else Malformed);
    }
    var header := sheet.rows[rule.headerRow - 1].cells;
    if Blank(header) {
      return None, Some(HeaderEmpty);
    }
    var verify := None;
    if rule.verify.Some? {
      var matches := Matches(header, rule.verify.value.column);
      if |matches| != 1 {
        return None, Some(VerificationColumn);
      }
      verify := Some((matches[0], rule.verify.value.value));
    }
    var types, rowCount, agrees, ended := InferRows(infer, sheet.rows, rule.headerRow, verify);
    if !agrees {
      ghost var r :| r in UntilBlank(sheet.rows, rule.headerRow) && Disagrees(r, verify.value.0, verify.value.1);
      assert OnlyHeader(header, rule.verify.value.column, verify.value.0);
      assert !AllAgree(header, UntilBlank(sheet.rows, rule.headerRow), rule.verify.value);
      return None, Some(Disagreement);
    }
    if ended && !sheet.complete {
      return None, Some(Malformed);
    }
    if verify.Some? && rowCount == 0 {
      return None, Some(NothingToVerify);
    }
    if !same {
      return None, Some(Changed);
    }
    ColumnsJoined(infer, header, UntilBlank(sheet.rows, rule.headerRow), types);
    var columns := Columns(header, types);
    var names := ColumnNames.Names(HeadersOf(columns));
    return Some(Summary(rule.headerRow, rowCount, columns, names)), None;
  }

  ghost predicate IsSummary(infer: Inference, sheet: Sheet, headerRow: nat, summary: Summary) {
    && summary.headerRow == headerRow && 1 <= headerRow <= |sheet.rows|
    && summary.rowCount == |UntilBlank(sheet.rows, headerRow)|
    && IsColumns(infer, sheet.rows[headerRow - 1].cells, UntilBlank(sheet.rows, headerRow), summary.columns)
    && |summary.names| == |summary.columns| && ColumnNames.IsNames(HeadersOf(summary.columns), summary.names)
  }

  // ----- Second pass -----

  /** A cell in the type of its column. */
  function Written(infer: Inference, column: Column, c: Cell): Option<string> {
    if c.None? then None else if column.columnType == TEXT then Some(c.value.text) else Some(infer(c.value).value)
  }

  function WrittenRow(infer: Inference, columns: seq<Column>, cells: seq<Cell>): seq<Option<string>> {
    seq(|columns|, i requires 0 <= i < |columns| => Written(infer, columns[i], if i < |cells| then cells[i] else None))
  }

  method WriteRows(infer: Inference, sheet: Sheet, summary: Summary, same: bool)
    returns (out: seq<seq<Option<string>>>, failure: Option<Refusal>)
    requires SheetOk(sheet)
    ensures |out| == |UntilBlank(sheet.rows, summary.headerRow)|
    ensures forall k | 0 <= k < |out| :: out[k] == WrittenRow(infer, summary.columns, UntilBlank(sheet.rows, summary.headerRow)[k].cells)
    ensures failure == if summary.headerRow + |out| >= |sheet.rows| && !sheet.complete then Some(Malformed)
      else if !same then Some(Changed) else None
  {
    hide Blank, WrittenRow, UntilBlank;
    out := [];
    var k := 0;
    while k < |sheet.rows|
      invariant 0 <= k <= |sheet.rows|
      invariant |out| == if k <= summary.headerRow then 0 else k - summary.headerRow
      invariant forall j | summary.headerRow <= j < k :: !Blank(sheet.rows[j].cells)
      invariant forall j | 0 <= j < |out| ::
        out[j] == WrittenRow(infer, summary.columns, sheet.rows[summary.headerRow + j].cells)
    {
      var row := sheet.rows[k];
      if row.number > summary.headerRow {
        UntilBlankAt(sheet.rows, summary.headerRow, k);
        if Blank(row.cells) {
          BlankEnds(sheet.rows, k);
          return out, if !same then Some(Changed) else None;
        }
        out := out + [WrittenRow(infer, summary.columns, row.cells)];
      }
      k := k + 1;
    }
    if summary.headerRow <= |sheet.rows| {
      UntilBlankAt(sheet.rows, summary.headerRow, k);
    }
    NothingLeft(sheet.rows, summary.headerRow);
    return out, if !sheet.complete then Some(Malformed) else if !same then Some(Changed) else None;
  }

  /** Both passes over flattened sheets. Nothing is written when the inspection refuses. */
  method SheetRows(infer: Inference, inspected: Sheet, read: Sheet, rule: Rule, sameThen: bool, sameNow: bool)
    returns (out: seq<seq<Option<string>>>, failure: Option<Refusal>)
    requires SheetOk(inspected) && SheetOk(read) && rule.headerRow >= 1
    ensures Refused(inspected, rule, sameThen).Some? ==> out == [] && failure == Refused(inspected, rule, sameThen)
    ensures Refused(inspected, rule, sameThen).None? && read == inspected ==> failure == if sameNow then None else Some(Changed)
    ensures Refused(inspected, rule, sameThen).None? && read == inspected ==>
      exists summary :: IsSummary(infer, read, rule.headerRow, summary) && Agrees(infer, read, summary, out)
  {
    hide Refused, IsSummary, Agrees, WrittenRow;
    var s, refusal := InspectSheet(infer, inspected, rule, sameThen);
    if s.None? {
      return [], refusal;
    }
    out, failure := WriteRows(infer, read, s.value, sameNow);
    if read == inspected {
      SummaryHeader(infer, read, rule, sameThen, s.value);
      PassesAgree(infer, read, s.value, out);
    }
  }

  // ----- What the inspection finds, said of the cells -----

  ghost predicate Filled(cells: seq<Cell>) {
    exists i :: FilledAt(cells, i)
  }

  ghost predicate FilledAt(cells: seq<Cell>, i: nat) {
    i < |cells| && cells[i].Some? && cells[i].value.text != ""
  }

  /** The cell shows the text; a null cell, and one that is not there, show the empty text. */
  ghost predicate Shows(cells: seq<Cell>, i: nat, text: string) {
    || (i < |cells| && cells[i].Some? && cells[i].value.text == text)
    || ((i >= |cells| || cells[i].None?) && text == "")
  }

  /** The header cell holds the text, and no other one does. */
  ghost predicate OnlyCell(header: seq<Cell>, text: string, i: nat) {
    && i < |header| && header[i].Some? && header[i].value.text == text
    && forall j | 0 <= j < |header| && j != i && header[j].Some? :: header[j].value.text != text
  }

  ghost predicate HasOnly(header: seq<Cell>, text: string) {
    exists i :: OnlyCell(header, text, i)
  }

  /** A row behind the header with no empty row between. */
  ghost predicate DataAt(rows: seq<Row>, headerRow: nat, k: nat) {
    headerRow <= k < |rows| && forall j | headerRow <= j <= k :: Filled(rows[j].cells)
  }

  ghost predicate MergedHeader(sheet: Sheet, rule: Rule) {
    exists m | m in sheet.merges :: m.firstRow <= rule.headerRow <= m.lastRow
  }

  /** There is a header, and it is not merged and not empty. */
  ghost predicate HeaderOk(sheet: Sheet, rule: Rule) {
    !MergedHeader(sheet, rule) && 1 <= rule.headerRow <= |sheet.rows| && Filled(sheet.rows[rule.headerRow - 1].cells)
  }

  /** The rule names no column, or exactly one header cell holds its name. */
  ghost predicate ColumnOk(sheet: Sheet, rule: Rule)
    requires HeaderOk(sheet, rule)
  {
    rule.verify.Some? ==> HasOnly(sheet.rows[rule.headerRow - 1].cells, rule.verify.value.column)
  }

  /** A data row shows another text in that column than the one the rule declares. */
  ghost predicate Contradicted(sheet: Sheet, rule: Rule)
    requires HeaderOk(sheet, rule)
  {
    rule.verify.Some? && exists i, k :: ContradictedAt(sheet, rule, i, k)
  }

  ghost predicate ContradictedAt(sheet: Sheet, rule: Rule, i: nat, k: nat)
    requires HeaderOk(sheet, rule) && rule.verify.Some?
  {
    && OnlyCell(sheet.rows[rule.headerRow - 1].cells, rule.verify.value.column, i)
    && DataAt(sheet.rows, rule.headerRow, k) && !Shows(sheet.rows[k].cells, i, rule.verify.value.value)
  }

  /** Every row behind the header has data, and then the sheet cannot be read on. */
  ghost predicate BrokenOff(sheet: Sheet, rule: Rule) {
    !sheet.complete && forall k | rule.headerRow <= k < |sheet.rows| :: Filled(sheet.rows[k].cells)
  }

  ghost predicate NoData(sheet: Sheet, rule: Rule) {
    forall k: nat :: !DataAt(sheet.rows, rule.headerRow, k)
  }

  /** The one reason for which the inspection refuses. */
  ghost predicate Refuses(sheet: Sheet, rule: Rule, same: bool, why: Refusal) {
    match why
    case HeaderMerged => MergedHeader(sheet, rule)
    case HeaderAbsent => !MergedHeader(sheet, rule) && rule.headerRow > |sheet.rows| && sheet.complete
    case HeaderEmpty => !MergedHeader(sheet, rule) && 1 <= rule.headerRow <= |sheet.rows| && !Filled(sheet.rows[rule.headerRow - 1].cells)
    case VerificationColumn => HeaderOk(sheet, rule) && !ColumnOk(sheet, rule)
    case Disagreement => HeaderOk(sheet, rule) && Contradicted(sheet, rule)
    case Malformed =>
      || (!MergedHeader(sheet, rule) && rule.headerRow > |sheet.rows| && !sheet.complete)
      || (HeaderOk(sheet, rule) && ColumnOk(sheet, rule) && !Contradicted(sheet, rule) && BrokenOff(sheet, rule))
    case NothingToVerify => Sound(sheet, rule) && rule.verify.Some? && NoData(sheet, rule)
    case Changed => Sound(sheet, rule) && (rule.verify.Some? ==> !NoData(sheet, rule)) && !same
  }

  ghost predicate Sound(sheet: Sheet, rule: Rule) {
    HeaderOk(sheet, rule) && ColumnOk(sheet, rule) && !Contradicted(sheet, rule) && !BrokenOff(sheet, rule)
  }

  lemma BlankExact(cells: seq<Cell>)
    ensures Blank(cells) <==> !Filled(cells)
  {
    if !Blank(cells) {
      var i: nat :| i < |cells| && !(cells[i].None? || cells[i].value.text == "");
      assert FilledAt(cells, i);
    }
  }

  lemma {:induction false} UntilBlankExact(rows: seq<Row>, start: nat)
    ensures start <= |rows| ==> UntilBlank(rows, start) == rows[start..start + |UntilBlank(rows, start)|]
    ensures forall k: nat :: DataAt(rows, start, k) <==> start <= k < start + |UntilBlank(rows, start)|
    decreases |rows| - start
  {
    if start < |rows| {
      BlankExact(rows[start].cells);
      if !Blank(rows[start].cells) {
        UntilBlankExact(rows, start + 1);
        var n := |UntilBlank(rows, start + 1)|;
        assert rows[start..start + 1 + n] == [rows[start]] + rows[start + 1..start + 1 + n];
        forall k: nat
          ensures DataAt(rows, start, k) <==> k == start || DataAt(rows, start + 1, k)
        {
        }
      }
    }
  }

  lemma OnlyExact(header: seq<Cell>, text: string)
    ensures forall i: nat :: OnlyHeader(header, text, i) <==> OnlyCell(header, text, i)
    ensures Found(header, text) <==> HasOnly(header, text)
  {
  }

  lemma ShowsExact(r: Row, i: nat, text: string)
    ensures Disagrees(r, i, text) <==> !Shows(r.cells, i, text)
  {
  }

  lemma ContradictedExact(sheet: Sheet, rule: Rule)
    requires HeaderOk(sheet, rule) && rule.verify.Some?
    ensures var header, data := sheet.rows[rule.headerRow - 1].cells, UntilBlank(sheet.rows, rule.headerRow);
      Contradicted(sheet, rule) <==> !AllAgree(header, data, rule.verify.value)
  {
    hide UntilBlank, Disagrees, Shows, OnlyCell, OnlyHeader, DataAt, HeaderOk;
    HeaderInside(sheet, rule);
    var header, data := sheet.rows[rule.headerRow - 1].cells, UntilBlank(sheet.rows, rule.headerRow);
    var verify := rule.verify.value;
    UntilBlankExact(sheet.rows, rule.headerRow);
    OnlyExact(header, verify.column);
    if i: nat, k: nat :| ContradictedAt(sheet, rule, i, k) {
      ShowsExact(sheet.rows[k], i, verify.value);
      assert sheet.rows[k] == data[k - rule.headerRow];
    }
    if !AllAgree(header, data, verify) {
      var i: nat, r :| OnlyHeader(header, verify.column, i) && r in data && Disagrees(r, i, verify.value);
      var k :| 0 <= k < |data| && data[k] == r;
      ShowsExact(r, i, verify.value);
      assert DataAt(sheet.rows, rule.headerRow, rule.headerRow + k);
      assert ContradictedAt(sheet, rule, i, rule.headerRow + k);
    }
  }

  lemma HeaderInside(sheet: Sheet, rule: Rule)
    requires HeaderOk(sheet, rule)
    ensures 1 <= rule.headerRow <= |sheet.rows|
  {
  }

  lemma BrokenOffExact(sheet: Sheet, rule: Rule)
    requires rule.headerRow <= |sheet.rows|
    ensures BrokenOff(sheet, rule)
      <==> rule.headerRow + |UntilBlank(sheet.rows, rule.headerRow)| == |sheet.rows| && !sheet.complete
    ensures NoData(sheet, rule) <==> UntilBlank(sheet.rows, rule.headerRow) == []
  {
    hide UntilBlank, Filled;
    var n := |UntilBlank(sheet.rows, rule.headerRow)|;
    UntilBlankExact(sheet.rows, rule.headerRow);
    if n > 0 {
      assert DataAt(sheet.rows, rule.headerRow, rule.headerRow + n - 1);
    }
    if rule.headerRow + n < |sheet.rows| {
      assert !DataAt(sheet.rows, rule.headerRow, rule.headerRow + n);
    }
  }

  lemma ContradictedColumn(sheet: Sheet, rule: Rule)
    requires HeaderOk(sheet, rule) && rule.verify.Some?
    ensures Contradicted(sheet, rule) ==> HasOnly(sheet.rows[rule.headerRow - 1].cells, rule.verify.value.column)
  {
  }

  lemma NothingContradicted(sheet: Sheet, rule: Rule)
    requires HeaderOk(sheet, rule) && rule.verify.None?
    ensures !Contradicted(sheet, rule)
  {
  }

  /** The inspection refuses exactly for these reasons, each excluding the others. */
  lemma RefusedExact(sheet: Sheet, rule: Rule, same: bool, why: Refusal)
    requires rule.headerRow >= 1
    ensures Refused(sheet, rule, same) == Some(why) <==> Refuses(sheet, rule, same, why)
  {
    hide UntilBlank, Blank, Filled, AllAgree, Contradicted, HasOnly, Found, BrokenOff, NoData;
    assert MergedHeader(sheet, rule) <==> exists m | m in sheet.merges :: CoversRow(m, rule.headerRow);
    if rule.headerRow <= |sheet.rows| {
      var header := sheet.rows[rule.headerRow - 1].cells;
      BlankExact(header);
      BrokenOffExact(sheet, rule);
      if rule.verify.Some? {
        OnlyExact(header, rule.verify.value.column);
      }
      if HeaderOk(sheet, rule) {
        if rule.verify.Some? {
          ContradictedExact(sheet, rule);
          ContradictedColumn(sheet, rule);
        } else {
          NothingContradicted(sheet, rule);
        }
      }
    }
  }

  /** A data row has this value in the column. */
  ghost predicate HoldsValue(rows: seq<Row>, headerRow: nat, k: nat, i: nat, value: CellValue) {
    DataAt(rows, headerRow, k) && i < |rows[k].cells| && rows[k].cells[i] == Some(value)
  }

  /** The one type that all values of the column infer, or TEXT if they infer none or several. */
  ghost predicate HasType(infer: Inference, rows: seq<Row>, headerRow: nat, i: nat, t: ColumnType) {
    if NoValues(rows, headerRow, i) then t.TEXT?
    else AllInfer(infer, rows, headerRow, i, t) || (t.TEXT? && forall u :: !AllInfer(infer, rows, headerRow, i, u))
  }

  ghost predicate NoValues(rows: seq<Row>, headerRow: nat, i: nat) {
    forall k, value :: !HoldsValue(rows, headerRow, k, i, value)
  }

  ghost predicate AllInfer(infer: Inference, rows: seq<Row>, headerRow: nat, i: nat, t: ColumnType) {
    forall k, value | HoldsValue(rows, headerRow, k, i, value) :: infer(value).columnType == t
  }

  /** The summary of a sheet: it is not refused, all data rows are counted, and there is a column for every
      header cell and every value, with its header, its type and a name. */
  ghost predicate Summarises(infer: Inference, sheet: Sheet, rule: Rule, summary: Summary) {
    && summary.headerRow == rule.headerRow && Sound(sheet, rule) && (rule.verify.Some? ==> !NoData(sheet, rule))
    && (forall k: nat :: DataAt(sheet.rows, rule.headerRow, k) <==> rule.headerRow <= k < rule.headerRow + summary.rowCount)
    && WideEnough(sheet, rule, |summary.columns|)
    && (forall i | 0 <= i < |summary.columns| ::
          && HasHeader(sheet.rows[rule.headerRow - 1].cells, i, summary.columns[i].header)
          && HasType(infer, sheet.rows, rule.headerRow, i, summary.columns[i].columnType))
    && |summary.names| == |summary.columns| && ColumnNames.IsNames(HeadersOf(summary.columns), summary.names)
  }

  /** As wide as the header, or as the last value of the data. */
  ghost predicate WideEnough(sheet: Sheet, rule: Rule, width: nat)
    requires HeaderOk(sheet, rule)
  {
    && |sheet.rows[rule.headerRow - 1].cells| <= width
    && (forall i: nat | i >= width :: NoValues(sheet.rows, rule.headerRow, i))
    && (width > |sheet.rows[rule.headerRow - 1].cells| ==> !NoValues(sheet.rows, rule.headerRow, width - 1))
  }

  ghost predicate HasHeader(header: seq<Cell>, i: nat, text: Option<string>) {
    if i < |header| && header[i].Some? then text == Some(header[i].value.text) else text.None?
  }

  lemma ValuesInferred(infer: Inference, rows: seq<Row>, headerRow: nat, i: nat)
    requires headerRow <= |rows|
    ensures forall t :: t in InferredAt(infer, UntilBlank(rows, headerRow), i) <==>
      exists k, value :: HoldsValue(rows, headerRow, k, i, value) && infer(value).columnType == t
  {
    hide UntilBlank, InferredAt, DataAt;
    var data := UntilBlank(rows, headerRow);
    UntilBlankExact(rows, headerRow);
    forall t
      ensures t in InferredAt(infer, data, i) <==> exists k, value :: HoldsValue(rows, headerRow, k, i, value) && infer(value).columnType == t
    {
      InferredAtExact(infer, data, i, t);
      if r :| r in data && t in InferredIn(infer, r.cells, i) {
        var k :| 0 <= k < |data| && data[k] == r;
        assert HoldsValue(rows, headerRow, headerRow + k, i, r.cells[i].value);
      }
      if k: nat, value :| HoldsValue(rows, headerRow, k, i, value) && infer(value).columnType == t {
        assert rows[k] == data[k - headerRow];
        assert rows[k] in data;
      }
    }
  }

  lemma TypeExact(infer: Inference, rows: seq<Row>, headerRow: nat, header: seq<Cell>, i: nat, column: Column)
    requires headerRow <= |rows| && IsColumn(infer, header, UntilBlank(rows, headerRow), i, column)
    ensures HasType(infer, rows, headerRow, i, column.columnType)
  {
    hide UntilBlank, InferredAt, HoldsValue;
    var inferred := InferredAt(infer, UntilBlank(rows, headerRow), i);
    ValuesInferred(infer, rows, headerRow, i);
    NoValuesExact(infer, rows, headerRow, i);
    forall k, value | HoldsValue(rows, headerRow, k, i, value)
      ensures infer(value).columnType in inferred
    {
    }
    if inferred != {} {
      if column.columnType != TEXT {
        JoinSingle(inferred, Some(column.columnType));
      } else if u :| AllInfer(infer, rows, headerRow, i, u) {
        OneType(inferred, u);
      }
    }
  }

  lemma NoValuesExact(infer: Inference, rows: seq<Row>, headerRow: nat, i: nat)
    requires headerRow <= |rows|
    ensures NoValues(rows, headerRow, i) <==> InferredAt(infer, UntilBlank(rows, headerRow), i) == {}
  {
    hide UntilBlank, InferredAt, HoldsValue;
    var inferred := InferredAt(infer, UntilBlank(rows, headerRow), i);
    ValuesInferred(infer, rows, headerRow, i);
    if k: nat, value :| HoldsValue(rows, headerRow, k, i, value) {
      assert infer(value).columnType in inferred;
    }
    if t :| t in inferred {
      var k: nat, value :| HoldsValue(rows, headerRow, k, i, value) && infer(value).columnType == t;
    }
  }

  /** If all types are one, the join is that one. */
  lemma OneType(types: set<ColumnType>, u: ColumnType)
    requires types != {} && forall t | t in types :: t == u
    ensures forall t :: IsJoin(types, Some(t)) ==> t == u
  {
    assert Bounds(types, Some(u));
    assert u in types;
  }

  lemma SummaryExact(infer: Inference, sheet: Sheet, rule: Rule, same: bool, summary: Summary)
    requires rule.headerRow >= 1 && Refused(sheet, rule, same).None? && IsSummary(infer, sheet, rule.headerRow, summary)
    ensures Summarises(infer, sheet, rule, summary)
  {
    hide UntilBlank, InferredAt, IsColumn, HasType, Refused, Refuses;
    NotRefused(sheet, rule, same);
    UntilBlankExact(sheet.rows, rule.headerRow);
    var header, data := sheet.rows[rule.headerRow - 1].cells, UntilBlank(sheet.rows, rule.headerRow);
    forall i: nat
      ensures NoValues(sheet.rows, rule.headerRow, i) <==> InferredAt(infer, data, i) == {}
    {
      NoValuesExact(infer, sheet.rows, rule.headerRow, i);
    }
    forall i | 0 <= i < |summary.columns|
      ensures HasHeader(header, i, summary.columns[i].header) && HasType(infer, sheet.rows, rule.headerRow, i, summary.columns[i].columnType)
    {
      TypeExact(infer, sheet.rows, rule.headerRow, header, i, summary.columns[i]);
      HeaderExact(infer, header, data, i, summary.columns[i]);
    }
  }

  lemma HeaderExact(infer: Inference, header: seq<Cell>, data: seq<Row>, i: nat, column: Column)
    requires IsColumn(infer, header, data, i, column)
    ensures HasHeader(header, i, column.header)
  {
  }

  lemma NotRefused(sheet: Sheet, rule: Rule, same: bool)
    requires rule.headerRow >= 1 && Refused(sheet, rule, same).None?
    ensures Sound(sheet, rule) && same && (rule.verify.Some? ==> !NoData(sheet, rule))
  {
    hide Refused, Sound, HeaderOk, NoData, Contradicted, ColumnOk;
    forall why {
      RefusedExact(sheet, rule, same, why);
    }
    if !(Sound(sheet, rule) && same && (rule.verify.Some? ==> !NoData(sheet, rule))) {
      SomeReason(sheet, rule, same);
    }
  }

  /** A sheet that is not sound is refused for some reason. */
  lemma SomeReason(sheet: Sheet, rule: Rule, same: bool)
    requires rule.headerRow >= 1 && !(Sound(sheet, rule) && same && (rule.verify.Some? ==> !NoData(sheet, rule)))
    ensures exists why :: Refuses(sheet, rule, same, why)
  {
    hide Filled, HasOnly, Contradicted, BrokenOff, NoData, MergedHeader;
    if MergedHeader(sheet, rule) {
      assert Refuses(sheet, rule, same, HeaderMerged);
    } else if rule.headerRow > |sheet.rows| {
      assert Refuses(sheet, rule, same, HeaderAbsent) || Refuses(sheet, rule, same, Malformed);
    } else if !HeaderOk(sheet, rule) {
      assert Refuses(sheet, rule, same, HeaderEmpty);
    } else if !ColumnOk(sheet, rule) {
      assert Refuses(sheet, rule, same, VerificationColumn);
    } else if Contradicted(sheet, rule) {
      assert Refuses(sheet, rule, same, Disagreement);
    } else if BrokenOff(sheet, rule) {
      assert Refuses(sheet, rule, same, Malformed);
    } else if rule.verify.Some? && NoData(sheet, rule) {
      assert Refuses(sheet, rule, same, NothingToVerify);
    } else {
      assert Refuses(sheet, rule, same, Changed);
    }
  }

  // ----- On workbooks -----

  /** `inspect` on the rows and merged ranges of a workbook. */
  method Inspect(infer: Inference, workbook: Workbook, rule: Rule, same: bool) returns (summary: Option<Summary>,
      refusal: Option<Refusal>)
    requires WorkbookOk(workbook) && rule.headerRow >= 1
    ensures exists sheet :: SheetOf(workbook, sheet)
    ensures forall sheet | SheetOf(workbook, sheet) ::
      && refusal == Refused(sheet, rule, same)
      && (summary.Some? <==> refusal.None?)
      && (summary.Some? ==> IsSummary(infer, sheet, rule.headerRow, summary.value))
    ensures forall sheet | SheetOf(workbook, sheet) ::
      && (refusal.Some? ==> Refuses(sheet, rule, same, refusal.value))
      && (summary.Some? ==> same && Summarises(infer, sheet, rule, summary.value))
  {
    hide Refused, IsSummary, SheetOf, WorkbookOk, Refuses, Summarises;
    var sheet := ReadSheet(workbook);
    summary, refusal := InspectSheet(infer, sheet, rule, same);
    if refusal.Some? {
      RefusedExact(sheet, rule, same, refusal.value);
    } else {
      SummaryExact(infer, sheet, rule, same, summary.value);
      NotRefused(sheet, rule, same);
    }
  }

  /** `rows`: the workbook is flattened and inspected, and flattened again to be written. */
  method Rows(infer: Inference, inspected: Workbook, read: Workbook, rule: Rule, sameThen: bool, sameNow: bool)
    returns (out: seq<seq<Option<string>>>, failure: Option<Refusal>)
    requires WorkbookOk(inspected) && WorkbookOk(read) && rule.headerRow >= 1
    ensures forall sheet, why | SheetOf(inspected, sheet) && Refuses(sheet, rule, sameThen, why) ::
      out == [] && failure == Some(why)
    ensures read == inspected ==> forall sheet | SheetOf(read, sheet) && (forall why :: !Refuses(sheet, rule, sameThen, why)) ::
      && failure == (if sameNow then None else Some(Changed))
      && exists summary :: Summarises(infer, sheet, rule, summary) && Agrees(infer, sheet, summary, out)
  {
    hide Refused, IsSummary, Agrees, SheetOf, WorkbookOk, Refuses, Summarises;
    var first := ReadSheet(inspected);
    var second := ReadSheet(read);
    out, failure := SheetRows(infer, first, second, rule, sameThen, sameNow);
    forall why {
      RefusedExact(first, rule, sameThen, why);
    }
    if Refused(first, rule, sameThen).None? && read == inspected {
      var summary :| IsSummary(infer, second, rule.headerRow, summary) && Agrees(infer, second, summary, out);
      SummaryExact(infer, second, rule, sameThen, summary);
    }
  }

  lemma SummaryHeader(infer: Inference, sheet: Sheet, rule: Rule, same: bool, summary: Summary)
    requires rule.headerRow >= 1 && Refused(sheet, rule, same).None? && IsSummary(infer, sheet, rule.headerRow, summary)
    ensures summary.headerRow == rule.headerRow
    ensures rule.headerRow + |UntilBlank(sheet.rows, rule.headerRow)| < |sheet.rows| || sheet.complete
  {
  }

  /** The rows written are those inspected: as many, as wide, and no value lost or of another type. */
  ghost predicate Agrees(infer: Inference, sheet: Sheet, summary: Summary, out: seq<seq<Option<string>>>)
  {
    var data := UntilBlank(sheet.rows, summary.headerRow);
    && |out| == summary.rowCount == |data|
    && forall k | 0 <= k < |out| ::
      && |out[k]| == |summary.columns|
      && (forall i: nat | i < |data[k].cells| && data[k].cells[i].Some? :: i < |summary.columns|)
      && forall i | 0 <= i < |summary.columns| :: WrittenAs(infer, summary.columns[i].columnType,
          if i < |data[k].cells| then data[k].cells[i] else None, out[k][i])
  }

  /** Null stays null; a column of text keeps the text; in any other column the value is of its type. */
  ghost predicate WrittenAs(infer: Inference, t: ColumnType, c: Cell, w: Option<string>) {
    if c.None? then w.None?
    else if t == TEXT then w == Some(c.value.text)
    else infer(c.value).columnType == t && w == Some(infer(c.value).value)
  }

  lemma PassesAgree(infer: Inference, sheet: Sheet, summary: Summary, out: seq<seq<Option<string>>>)
    requires IsSummary(infer, sheet, summary.headerRow, summary)
    requires |out| == |UntilBlank(sheet.rows, summary.headerRow)|
    requires forall k | 0 <= k < |out| :: out[k] == WrittenRow(infer, summary.columns, UntilBlank(sheet.rows, summary.headerRow)[k].cells)
    ensures Agrees(infer, sheet, summary, out)
  {
    var data := UntilBlank(sheet.rows, summary.headerRow);
    forall k | 0 <= k < |out|
      ensures forall i: nat | i < |data[k].cells| && data[k].cells[i].Some? :: i < |summary.columns|
      ensures forall i | 0 <= i < |summary.columns| :: WrittenAs(infer, summary.columns[i].columnType,
          if i < |data[k].cells| then data[k].cells[i] else None, out[k][i])
    {
      forall i: nat | i < |data[k].cells| && data[k].cells[i].Some?
        ensures i < |summary.columns|
        ensures summary.columns[i].columnType == TEXT || infer(data[k].cells[i].value).columnType == summary.columns[i].columnType
      {
        CellTyped(infer, sheet.rows[summary.headerRow - 1].cells, data, summary.columns, k, i);
      }
    }
  }

  /** A cell that is not null stands in a column, of its own type or of text. */
  lemma CellTyped(infer: Inference, header: seq<Cell>, data: seq<Row>, columns: seq<Column>, k: nat, i: nat)
    requires IsColumns(infer, header, data, columns) && k < |data| && i < |data[k].cells| && data[k].cells[i].Some?
    ensures i < |columns|
    ensures columns[i].columnType == TEXT || infer(data[k].cells[i].value).columnType == columns[i].columnType
  {
    var t := infer(data[k].cells[i].value).columnType;
    assert data[k] in data && t in InferredIn(infer, data[k].cells, i);
    InferredAtExact(infer, data, i, t);
    var inferred := InferredAt(infer, data, i);
    assert t in inferred;
    assert IsColumn(infer, header, data, i, columns[i]);
    if columns[i].columnType != TEXT {
      JoinSingle(inferred, Some(columns[i].columnType));
    }
  }

  /** The columns do not depend on the order of the data rows. */
  lemma ColumnsOrderIrrelevant(infer: Inference, header: seq<Cell>, a: seq<Row>, b: seq<Row>, ca: seq<Column>,
      cb: seq<Column>)
    requires forall r :: r in a <==> r in b
    requires IsColumns(infer, header, a, ca) && IsColumns(infer, header, b, cb)
    ensures ca == cb
  {
    forall i: nat
      ensures InferredAt(infer, a, i) == InferredAt(infer, b, i)
    {
      forall t
        ensures t in InferredAt(infer, a, i) <==> t in InferredAt(infer, b, i)
      {
        InferredAtExact(infer, a, i, t);
        InferredAtExact(infer, b, i, t);
      }
    }
    forall i | 0 <= i < |ca|
      ensures ca[i] == cb[i]
    {
      assert IsColumn(infer, header, a, i, ca[i]) && IsColumn(infer, header, b, i, cb[i]);
    }
  }
}
