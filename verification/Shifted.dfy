/** Temporal literals that `parsePredicate` accepts and then cannot read: the shift to UTC takes them
    out of the years 1 to 9999. */
module Shifted {
  import opened Wrappers
  import opened Ordering
  import opened Chars
  import Calendar
  import opened ColumnTypes
  import opened Predicates
  import opened Normalisation
  import opened Evaluation
  import opened Grammar
  import opened RoundTrip
  import opened Reparse
  import Temporal
  import Timestamps

  /** '0001-01-01T00:00:00+05:00' */
  function Early(): string {
    Temporal.Start(Temporal.FIRST_DAY) + "+05:00"
  }

  /** What is kept of it. */
  ghost function EarlyKept(): string {
    Temporal.UtcText((Calendar.FIRST_SECOND - 5 * 3600) * 1000000)
  }

  /** A column of the zoned type, found by its id. */
  ghost predicate ZonedColumn(g: Context, c: Column) {
    && Lawful(g.readers) && ColumnsOk(g.columns) && FindColumn(g.columns, c.id) == Some(c)
    && Temporal.Zoned(c.kind) && g.readers.family(c.kind) == FamilyOf(c.kind)
  }

  lemma ZonedIsTime(kind: string)
    requires Temporal.Zoned(kind)
    ensures FamilyOf(kind) == Time
  {
    assert |kind| == 11 && kind[0] == 'T' && kind[2] == 'M';
    NotInteger(kind);
    NotInherited(kind);
  }

  lemma NotInteger(kind: string)
    requires |kind| == 11 && kind[0] == 'T'
    ensures kind !in INTEGER_TYPES && !IsDecimalType(kind)
  {
    assert "DECIMAL("[0] == 'D';
  }

  lemma NotInherited(kind: string)
    requires |kind| == 11 && kind[0] == 'T'
    ensures kind !in INHERITED_NAMES
  {
    assert "constructor"[0] == 'c';
  }

  lemma EarlyRead(g: Context, c: Column)
    requires ZonedColumn(g, c)
    ensures RereadLiteral(g.readers, Some(Early()), c.kind) == Some(Some(EarlyKept()))
    ensures g.readers.instant(EarlyKept(), c.kind) == None && RereadLiteral(g.readers, Some(EarlyKept()), c.kind) == None
  {
    hide FamilyOf, Temporal.Temporal, Temporal.UtcText, Temporal.Start;
    ZonedIsTime(c.kind);
    Temporal.ShiftedBeforeYearOne(Early(), c.kind);
    Temporal.FirstDayText();
  }

  lemma EarlyNotInYears(g: Context, c: Column)
    requires ZonedColumn(g, c)
    ensures !InYears(EarlyKept(), c.kind)
  {
    hide FamilyOf, Temporal.Temporal, Temporal.UtcText, EarlyKept;
    ZonedIsTime(c.kind);
    EarlyRead(g, c);
    if InYears(EarlyKept(), c.kind) {
      var micros :| Timestamps.InRange(micros) && EarlyKept() == Temporal.UtcText(micros);
      Temporal.InRangeText(micros);
      Temporal.CanonicalTemporal(micros, EarlyKept(), c.kind);
    }
  }

  lemma EarlyThrows(g: Context, c: Column, operator: Operator, row: Row)
    requires ZonedColumn(g, c) && c.id in row && !row[c.id].RawNull? && !IsInfinity(StringOf(row[c.id]))
    ensures Evaluate(g.readers, Compare(c.id, operator, Some(EarlyKept())), g.columns, row) == None
  {
    hide FamilyOf, EarlyKept, Lawful, ColumnsOk;
    ZonedIsTime(c.kind);
    EarlyRead(g, c);
    assert CompareCell(g.readers, row[c.id], EarlyKept(), c.kind) == None;
  }

  lemma ParsesComparison(g: Context, c: Column, operator: Operator, value: string)
    requires ZonedColumn(g, c)
    ensures var p, read := Compare(c.id, operator, Some(value)), RereadLiteral(g.readers, Some(value), c.kind);
      && Known(p, g.columns) && Height(p) == 1
      && (read == None ==> Parse(g, Printed(g, p)) == None)
      && (read.Some? && Utf16Length(Printed(g, p)) <= MAX_LENGTH ==>
            Parse(g, Printed(g, p)) == Some(Compare(c.id, operator, read.value)))
  {
    hide FamilyOf, Lawful, Parse, Printed, RereadLiteral;
    ZonedIsTime(c.kind);
    ParsePrinted(g, Compare(c.id, operator, Some(value)));
  }

  /** The literal is accepted, and the printed text of the result is refused, although it nests no deeper;
      nor can the result be evaluated on a cell that holds an instant. */
  lemma EarlyNotReparsed(g: Context, c: Column, operator: Operator)
    requires ZonedColumn(g, c)
    requires Utf16Length(Printed(g, Compare(c.id, operator, Some(Early())))) <= MAX_LENGTH
    ensures var p := Compare(c.id, operator, Some(EarlyKept()));
      && Parse(g, Printed(g, Compare(c.id, operator, Some(Early())))) == Some(p)
      && Height(p) == 1 && !Dated(g, p) && Parse(g, Printed(g, p)) == None
      && forall row: Row | c.id in row && !row[c.id].RawNull? && !IsInfinity(StringOf(row[c.id])) ::
           Evaluate(g.readers, p, g.columns, row) == None
  {
    hide FamilyOf, Early, EarlyKept, Parse, Printed, Evaluate, Lawful, ColumnsOk, InYears, Utf16Length;
    ZonedIsTime(c.kind);
    var p := Compare(c.id, operator, Some(EarlyKept()));
    EarlyRead(g, c);
    ParsesComparison(g, c, operator, Early());
    ParsesComparison(g, c, operator, EarlyKept());
    EarlyNotInYears(g, c);
    assert Some(EarlyKept()) in LiteralsOf(p);
    forall row: Row | c.id in row && !row[c.id].RawNull? && !IsInfinity(StringOf(row[c.id]))
      ensures Evaluate(g.readers, p, g.columns, row) == None
    {
      EarlyThrows(g, c, operator, row);
    }
  }

  // ----- An unreadable value in an IN list -----

  const SECOND_DAY := Calendar.Civil(1, 1, 2, 0, 0, 0)

  /** '0001-01-02T00:00:00Z' */
  function Second(): string {
    Temporal.Start(SECOND_DAY) + "Z"
  }

  ghost function SecondKept(): string {
    Temporal.UtcText(SecondMicros())
  }

  function SecondMicros(): int {
    (Calendar.FIRST_SECOND + 86400) * 1000000
  }

  lemma SecondOnDay(first: Calendar.Civil, second: Calendar.Civil)
    requires first == Temporal.FIRST_DAY && second == SECOND_DAY
    ensures Temporal.OnDay(second, 1)
  {
    hide Temporal.OnDay, Calendar.NextDay;
    Temporal.FirstDay();
    FirstOfMonth(first, second);
    Temporal.NextOnDay(first, 0);
  }

  lemma FirstOfMonth(first: Calendar.Civil, second: Calendar.Civil)
    requires first == Temporal.FIRST_DAY && second == SECOND_DAY
    ensures Calendar.NextDay(first) == second
  {
  }

  lemma SecondSeconds(c: Calendar.Civil)
    requires c == SECOND_DAY
    ensures Calendar.ValidCivil(c) && Calendar.Seconds(c) == Calendar.FIRST_SECOND + 86400
  {
    hide Temporal.OnDay, Calendar.ValidCivil, Calendar.Seconds, Calendar.TimeOfDay;
    SecondOnDay(Temporal.FIRST_DAY, c);
    Temporal.OnDaySeconds(c, 1);
    AtMidnight(c);
    assert Calendar.Seconds(c) == (1 - Calendar.EPOCH_DAY) * 86400;
  }

  lemma AtMidnight(c: Calendar.Civil)
    requires c == SECOND_DAY
    ensures Calendar.TimeOfDay(c) == 0
  {
  }

  lemma SecondRead(g: Context, c: Column)
    requires ZonedColumn(g, c)
    ensures RereadLiteral(g.readers, Some(Second()), c.kind) == Some(Some(SecondKept()))
    ensures g.readers.instant(Second(), c.kind) == g.readers.instant(SecondKept(), c.kind) == Some(SecondMicros())
  {
    hide FamilyOf, Temporal.Temporal, Temporal.UtcText, Temporal.Start, Calendar.ValidCivil, Calendar.Seconds;
    ZonedIsTime(c.kind);
    SecondSeconds(SECOND_DAY);
    Temporal.StartDenotes(SECOND_DAY, "Z", c.kind);
    SecondText();
    Temporal.LiteralStable(Second(), c.kind);
  }

  lemma SecondText()
    ensures Second() == "0001-01-02T00:00:00Z"
  {
    assert Calendar.Decimal(1) == "1" && Calendar.Decimal(0) == "0" && Calendar.Decimal(2) == "2";
    assert Calendar.Pad(1, 4) == "0001" && Calendar.Pad(1, 2) == "01" && Calendar.Pad(2, 2) == "02" && Calendar.Pad(0, 2) == "00";
  }

  /** The kept texts start with the year, or with a sign before the year 0. */
  lemma KeptSorted()
    ensures Less(EarlyKept(), SecondKept())
  {
    hide EarlyKept, Temporal.UtcText, Less;
    EarlyStart();
    SecondStart(SECOND_DAY, SecondMicros(), SecondKept());
    YearsSorted(EarlyKept(), SecondKept());
  }

  lemma YearsSorted(a: string, b: string)
    requires |a| > 4 && |b| > 4 && (a[0] == '-' || a[..4] == "0000") && b[..4] == "0001"
    ensures Less(a, b)
  {
    assert b[0] == b[..4][0] == '0' && b[3] == b[..4][3] == '1';
    if a[0] != '-' {
      assert a[3] == a[..4][3] == '0' && a[..3] == a[..4][..3] && b[..3] == b[..4][..3];
      LessAfter(a, b, a[..3]);
    }
  }

  lemma {:induction false} LessAfter(a: string, b: string, common: string)
    requires common <= a && common <= b && |a| > |common| && |b| > |common|
    requires a[|common|] == '0' && b[|common|] == '1'
    ensures Less(a, b)
    decreases |common|
  {
    if common != "" {
      LessAfter(a[1..], b[1..], common[1..]);
    }
  }

  lemma EarlyStart()
    ensures |EarlyKept()| > 4 && (EarlyKept()[0] == '-' || EarlyKept()[..4] == "0000")
  {
    hide Temporal.PartsAt, Calendar.Pad;
    var t := Calendar.FIRST_SECOND - 5 * 3600;
    assert (t * 1000000) / 1000000 == t;
    assert Temporal.DayOf(t) / Temporal.DAYS_IN_CYCLE == -1;
    assert Temporal.YearAt(t) <= 0;
    FourZeros();
  }

  lemma FourZeros()
    ensures Calendar.Pad(0, 4) == "0000"
  {
    assert Calendar.Decimal(0) == "0";
  }

  lemma SecondStart(c: Calendar.Civil, micros: int, kept: string)
    requires c == SECOND_DAY && micros == SecondMicros() && kept == Temporal.UtcText(micros)
    ensures |kept| > 4 && kept[..4] == "0001"
  {
    hide Temporal.UtcText, Calendar.Pad, Calendar.ValidCivil, Calendar.Seconds;
    Temporal.InRangeText(micros);
    var d, fraction :| Timestamps.TextOf(micros, kept, d, fraction);
    SecondSeconds(c);
    Timestamps.SixDigits(fraction);
    assert Calendar.Seconds(d) == Calendar.Seconds(c);
    Calendar.SecondsInjective(d, c);
    YearOne();
  }

  lemma YearOne()
    ensures Calendar.Pad(1, 4) == "0001"
  {
    assert Calendar.Decimal(1) == "1";
  }

  lemma {:induction false} NoSpaces(s: string)
    requires ' ' !in s
    ensures SpaceToT(s) == s
  {
    if s != "" {
      assert s == [s[0]] + s[1..] && s[0] in s;
      NoSpaces(s[1..]);
    }
  }

  /** The cell text stays as it is. */
  lemma SecondCell(s: string, kind: string)
    requires s == "0001-01-02T00:00:00Z"
    ensures TemporalText(RawText(s), kind) == s && !IsInfinity(s)
  {
    hide SpaceToT, IsInfinity;
    SecondSpaceless(s);
    NoSpaces(s);
    DigitFirst(s);
    assert s[17] == '0';
  }

  lemma SecondSpaceless(s: string)
    requires s == "0001-01-02T00:00:00Z"
    ensures ' ' !in s && |s| == 20 && s[0] == '0'
  {
  }

  lemma DigitFirst(s: string)
    requires |s| == 20 && s[0] == '0'
    ensures !IsInfinity(s)
  {
    assert |Lower(s)| == 20;
  }

  /** A cell equals the second value, and the first makes the comparison throw. */
  lemma CellCompares(g: Context, c: Column)
    requires ZonedColumn(g, c)
    ensures CompareCell(g.readers, RawText(Second()), SecondKept(), c.kind) == Some(0)
    ensures CompareCell(g.readers, RawText(Second()), EarlyKept(), c.kind) == None
  {
    hide FamilyOf, Second, EarlyKept, SecondKept, TemporalText, IsInfinity, Lawful, ColumnsOk, SecondMicros;
    ZonedIsTime(c.kind);
    EarlyRead(g, c);
    SecondRead(g, c);
    SecondText();
    SecondCell(Second(), c.kind);
  }

  /** So normalising can make evaluation throw: the parser sorts the unreadable value before the one that
      matched, and a row that the list as written lets through stops the evaluation. */
  lemma UnreadableLiteralMatters(g: Context, c: Column, row: Row)
    requires ZonedColumn(g, c) && c.id in row && row[c.id] == RawText(Second())
    requires Utf16Length(Printed(g, In(c.id, [Some(Second()), Some(Early())]))) <= MAX_LENGTH
    ensures var written, kept := In(c.id, [Some(Second()), Some(Early())]), In(c.id, [Some(SecondKept()), Some(EarlyKept())]);
      && Reread(g, written) == Some(kept)
      && Parse(g, Printed(g, written)) == Some(Normalise(kept))
      && Evaluate(g.readers, kept, g.columns, row) == Some(True)
      && Evaluate(g.readers, Normalise(kept), g.columns, row) == None
  {
    hide FamilyOf, Early, EarlyKept, Second, SecondKept, Parse, Printed, Lawful, ColumnsOk, RereadLiteral, CompareCell, Utf16Length;
    ZonedIsTime(c.kind);
    var first, second := Some(Second()), Some(Early());
    var written, kept := In(c.id, [first, second]), In(c.id, [Some(SecondKept()), Some(EarlyKept())]);
    ListReread(g, c, first, second);
    KeptSorted();
    SortedPair(SecondKept(), EarlyKept());
    ParsePrinted(g, written);
    CellCompares(g, c);
    SearchPair(g.readers, row[c.id], SecondKept(), EarlyKept(), c.kind);
  }

  lemma ListReread(g: Context, c: Column, a: Option<string>, b: Option<string>)
    requires ZonedColumn(g, c) && a == Some(Second()) && b == Some(Early())
    ensures RereadLiterals(g.readers, [a, b], c.kind) == Some([Some(SecondKept()), Some(EarlyKept())])
  {
    hide FamilyOf, Early, EarlyKept, Second, SecondKept, Lawful, ColumnsOk, RereadLiteral;
    ZonedIsTime(c.kind);
    EarlyRead(g, c);
    SecondRead(g, c);
    var none: seq<Option<string>> := [];
    assert [a, b][1..] == [b] && [b][1..] == none;
    assert [Some(EarlyKept())] + none == [Some(EarlyKept())];
    assert RereadLiterals(g.readers, [b], c.kind) == Some([Some(EarlyKept())]);
    assert [Some(SecondKept())] + [Some(EarlyKept())] == [Some(SecondKept()), Some(EarlyKept())];
  }

  /** A list of a matching and a throwing value, in both orders. */
  lemma SearchPair(r: Readers, raw: Raw, a: string, b: string, kind: string)
    requires CompareCell(r, raw, a, kind) == Some(0) && CompareCell(r, raw, b, kind) == None
    ensures Search(r, raw, [Some(a), Some(b)], kind, false) == Some(True)
    ensures Search(r, raw, [Some(b), Some(a)], kind, false) == None
  {
  }
}
