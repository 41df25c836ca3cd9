/** `temporal` and the temporal arm of `typedLiteral`: the microseconds of a literal, and the text that
    is kept of it, which is a fixed point exactly where the shift to UTC stays within the years of the pattern. */
module Temporal {
  import opened Wrappers
  import opened Chars
  import opened Arithmetic
  import opened Calendar
  import opened Timestamps
  import opened Numbers

  /** The type whose literals are shifted to UTC. */
  predicate Zoned(kind: string) {
    kind == "TIMESTAMPTZ"
  }

  // ----- temporal -----

  /** What the pattern of a type matches. A date is at midnight; a time is on the day that the source gives it. */
  function MatchTemporal(value: string, kind: string): (r: Option<Stamp>)
    ensures r.Some? ==> |r.value.fraction| <= 6
  {
    if kind == "DATE" then
      if |value| == 10 then
        StampFraction(value + "T00:00:00");
        MatchStamp(value + "T00:00:00")
      else None
    else
      var text := if kind == "TIME" then "2000-01-01T" + value else value;
      var stamp :- MatchStamp(text);
      StampFraction(text);
      if text[10] == 'T' && OffsetFits(text, stamp.offset, kind) then Some(stamp) else None
  }

  lemma StampFraction(value: string)
    ensures MatchStamp(value).Some? ==> |value| >= 19 && |MatchStamp(value).value.fraction| <= 6
  {
  }

  /** Only a zoned timestamp has an offset, `Z` or `+00:00`. */
  predicate OffsetFits(text: string, offset: Offset, kind: string)
    requires |text| >= 19
  {
    if Zoned(kind) then !offset.Unstated? && (offset.Shift? ==> text[|text| - 3] == ':') else offset.Unstated?
  }

  /** The microseconds since 1970 that a literal denotes, in UTC if it has a zone. */
  function Temporal(value: string, kind: string): Option<int> {
    var stamp :- MatchTemporal(value, kind);
    if !ValidCivil(stamp.civil) then None
    else
      var local := Seconds(stamp.civil) * 1000000 + FractionMicros(stamp.fraction);
      match stamp.offset
      case Shift(ahead, hours, minutes) =>
        if hours > 15 || minutes > 59 then None
        else Some(local - (if ahead then 1000000 else -1000000) * ((hours * 60 + minutes) * 60))
      case _ => Some(local)
  }

  // ----- toISOString -----

  const DAYS_IN_CYCLE: nat := 146097 // of 400 years

  ghost predicate OnDay(c: Civil, day: nat) {
    ValidCivil(c) && DayNumber(c.year, c.month, c.day) == day
  }

  lemma {:induction false} DayExists(day: nat)
    requires day < DAYS_IN_CYCLE
    ensures exists c :: OnDay(c, day)
  {
    hide OnDay, NextDay;
    if day == 0 {
      FirstDay();
      assert OnDay(FIRST_DAY, day);
    } else {
      DayExists(day - 1);
      var c :| OnDay(c, day - 1);
      NextOnDay(c, day - 1);
      assert OnDay(NextDay(c), day);
    }
  }

  lemma NextOnDay(c: Civil, day: nat)
    requires OnDay(c, day) && day < DAYS_IN_CYCLE
    ensures OnDay(NextDay(c), day + 1)
  {
    hide DayNumber, Lengths, NextDay;
    NotLastDay(c);
    NextDayIsNext(c);
  }

  lemma FirstDay()
    ensures OnDay(Civil(1, 1, 1, 0, 0, 0), 0)
  {
    YearLength(1);
  }

  lemma NotLastDay(c: Civil)
    requires ValidCivil(c) && DayNumber(c.year, c.month, c.day) < DAYS_IN_CYCLE
    ensures c.year <= 400
  {
    hide DayNumber;
    DayInYear(c.year, c.month, c.day);
    if c.year > 400 {
      BeforeYearMonotone(401, c.year);
    }
  }

  /** The date of a day of the first 400 years, at a second of the day. */
  ghost function CivilAt(day: nat, time: nat): (c: Civil)
    requires day < DAYS_IN_CYCLE && time < 86400
    ensures OnDay(c, day) && c.year <= 400 && TimeOfDay(c) == time
  {
    DayExists(day);
    var d :| OnDay(d, day);
    NotLastDay(d);
    Civil(d.year, d.month, d.day, time / 3600, time % 3600 / 60, time % 60)
  }

  /** Four digits, or a sign and six for the years that four digits do not reach. */
  function YearText(year: int): string {
    if 0 <= year <= 9999 then Pad(year, 4) else if year < 0 then "-" + Pad(-year, 6) else "+" + Pad(year, 6)
  }

  /** The day and the time of day of a number of seconds since 1970, and the year, of any sign. */
  function DayOf(t: int): int {
    t / 86400 + EPOCH_DAY
  }

  ghost function PartsAt(t: int): (c: Civil)
    ensures ValidCivil(c) && c.year <= 400
  {
    CivilAt(DayOf(t) % DAYS_IN_CYCLE, t % 86400)
  }

  ghost function YearAt(t: int): int {
    PartsAt(t).year + 400 * (DayOf(t) / DAYS_IN_CYCLE)
  }

  /** `toISOString` up to the milliseconds. */
  ghost function IsoText(t: int): string {
    var c := PartsAt(t);
    YearText(YearAt(t)) + "-" + Pad(c.month, 2) + "-" + Pad(c.day, 2) + "T"
    + Pad(c.hour, 2) + ":" + Pad(c.minute, 2) + ":" + Pad(c.second, 2)
  }

  /** `slice(0, 19)`, and the microseconds. */
  ghost function UtcText(micros: int): string {
    var iso := IsoText(micros / 1000000);
    (if |iso| > 19 then iso[..19] else iso) + "." + Pad(micros % 1000000, 6) + "Z"
  }

  /** The temporal arm of `typedLiteral`. */
  ghost function TemporalLiteral(value: string, kind: string): Option<string> {
    var micros :- Temporal(value, kind);
    Some(if Zoned(kind) then UtcText(micros) else value)
  }

  // ----- The calendar repeats after 400 years -----

  lemma Cycles(year: nat, k: nat)
    requires year >= 1
    ensures BeforeYear(year + 400 * k) == BeforeYear(year) + DAYS_IN_CYCLE * k
    ensures Lengths(year + 400 * k) == Lengths(year)
  {
    Later(year - 1, 4, 100 * k);
    Later(year - 1, 100, 4 * k);
    Later(year - 1, 400, k);
    Later(year, 4, 100 * k);
    Later(year, 100, 4 * k);
    Later(year, 400, k);
  }

  lemma Later(x: nat, m: nat, a: nat)
    requires m >= 1
    ensures (x + m * a) / m == x / m + a && (x + m * a) % m == x % m
  {
    Distributes(x / m, a, m);
    Residue(x + m * a, m, x / m + a, x % m);
  }

  lemma MonthsRepeat(year: nat, k: nat, month: nat)
    requires year >= 1 && 1 <= month <= 13
    ensures BeforeMonth(year + 400 * k, month) == BeforeMonth(year, month)
  {
    Cycles(year, k);
  }

  /** The year is one of the pattern exactly in the range of the seconds. */
  lemma YearInRange(t: int)
    ensures 1 <= YearAt(t) <= 9999 <==> FIRST_SECOND <= t <= LAST_SECOND
    ensures FIRST_SECOND <= t <= LAST_SECOND ==>
      var c := PartsAt(t).(year := YearAt(t));
      ValidCivil(c) && Seconds(c) == t
  {
    hide BeforeYear, BeforeMonth, Lengths, CivilAt;
    var c, k, d := PartsAt(t), DayOf(t) / DAYS_IN_CYCLE, DayOf(t) % DAYS_IN_CYCLE;
    assert DayOf(t) == DAYS_IN_CYCLE * k + d && d < DAYS_IN_CYCLE;
    assert FIRST_SECOND <= t <= LAST_SECOND <==> 0 <= DayOf(t) < 3652059;
    DayInYear(c.year, c.month, c.day);
    if k >= 0 {
      Cycles(c.year, k);
      LastDay();
      if c.year + 400 * k <= 9999 {
        Cycles(c.year + 1, k);
        BeforeYearMonotone(c.year + 400 * k + 1, 10000);
        MonthsRepeat(c.year, k, c.month);
      } else {
        BeforeYearMonotone(10000, c.year + 400 * k);
      }
    }
  }

  lemma LastDay()
    ensures BeforeYear(10000) == 3652059
  {
  }

  // ----- When a kept literal is accepted again -----

  /** What the text starts with, and that it holds no NUL. */
  lemma PadDigits(n: nat, width: nat)
    ensures AllDigits(Pad(n, width))
  {
    DecimalValue(n);
    if |Decimal(n)| < width {
      ZerosValue(width - |Decimal(n)|, Decimal(n));
    }
  }

  predicate Plain(s: string) {
    forall c | c in s :: c != '\0'
  }

  lemma DigitsPlain(n: nat, width: nat)
    ensures Plain(Pad(n, width))
  {
    PadDigits(n, width);
  }

  lemma PlainParts(y: string, m: string, d: string, h: string, i: string, s: string)
    requires Plain(y) && Plain(m) && Plain(d) && Plain(h) && Plain(i) && Plain(s)
    ensures Plain(y + "-" + m + "-" + d + "T" + h + ":" + i + ":" + s)
  {
  }

  lemma PlainEnd(iso: string, n: nat, fraction: string)
    requires n <= |iso| && Plain(iso) && Plain(fraction)
    ensures Plain(iso[..n] + "." + fraction + "Z")
  {
    assert forall c | c in iso[..n] :: c in iso;
  }

  lemma YearPlain(year: int)
    ensures Plain(YearText(year))
  {
    hide Pad;
    DigitsPlain(if year < 0 then -year else year, 4);
    DigitsPlain(if year < 0 then -year else year, 6);
  }

  lemma UtcTextPlain(micros: int)
    ensures Plain(UtcText(micros))
  {
    hide Pad, Plain, PartsAt, YearAt;
    var t := micros / 1000000;
    var c, year := PartsAt(t), YearAt(t);
    DigitsPlain(c.month, 2);
    DigitsPlain(c.day, 2);
    DigitsPlain(c.hour, 2);
    DigitsPlain(c.minute, 2);
    DigitsPlain(c.second, 2);
    DigitsPlain(micros % 1000000, 6);
    YearPlain(year);
    PlainParts(YearText(year), Pad(c.month, 2), Pad(c.day, 2), Pad(c.hour, 2), Pad(c.minute, 2), Pad(c.second, 2));
    var iso := IsoText(t);
    assert iso[..|iso|] == iso;
    PlainEnd(iso, if |iso| > 19 then 19 else |iso|, Pad(micros % 1000000, 6));
  }

  /** Within the years of the pattern the text is the canonical one of its microsecond. */
  lemma InRangeText(micros: int)
    requires InRange(micros)
    ensures IsText(micros, UtcText(micros))
  {
    hide Pad, ValidDate, Seconds, PartsAt, YearAt;
    var t := micros / 1000000;
    YearInRange(t);
    var c, fraction := PartsAt(t).(year := YearAt(t)), Pad(micros % 1000000, 6);
    SixPlaces(micros % 1000000);
    FieldsPadded(c);
    assert |IsoText(t)| == 19;
    assert UtcText(micros) == Printed(c, fraction);
    assert TextOf(micros, UtcText(micros), c, fraction);
  }

  /** Beyond them it starts with a sign, or with the year 0, which `temporal` refuses. */
  lemma OutOfRangeText(micros: int, kind: string)
    requires !InRange(micros) && Zoned(kind)
    ensures Temporal(UtcText(micros), kind) == None
  {
    hide Pad, PartsAt, YearAt, Seconds;
    var t, s := micros / 1000000, UtcText(micros);
    YearInRange(t);
    var year := YearAt(t);
    if year == 0 {
      PowersOfTen();
      PadReads(0, 4);
      assert s[..4] == Pad(0, 4);
      YearZeroRefused(s, kind);
    } else {
      assert s[0] == '-' || s[0] == '+';
    }
  }

  lemma YearZeroRefused(s: string, kind: string)
    requires Zoned(kind) && |s| >= 4 && Value(s[..4]) == 0
    ensures Temporal(s, kind) == None
  {
    assert s[0..4] == s[..4];
  }

  /** A canonical text denotes its own microsecond. */
  lemma CanonicalTemporal(micros: int, text: string, kind: string)
    requires IsText(micros, text) && Zoned(kind)
    ensures Temporal(text, kind) == Some(micros)
  {
    hide MatchStamp, Pad, ValidCivil, Seconds, Value;
    var c, fraction :| TextOf(micros, text, c, fraction);
    PrintedMatches(c, fraction);
    FieldsPadded(c);
    PrintedParts(Pad(c.year, 4), Pad(c.month, 2), Pad(c.day, 2), Pad(c.hour, 2), Pad(c.minute, 2), Pad(c.second, 2), fraction);
    assert Pow(10, 0) == 1;
    assert FractionMicros(fraction) == Value(fraction);
  }

  /** The kept text of an accepted literal denotes the same microsecond and is kept as it is, except
      where the shift to UTC leaves the years 1 to 9999: then it is refused. */
  lemma LiteralStable(value: string, kind: string)
    requires Temporal(value, kind).Some? && Plain(value)
    ensures var micros, text := Temporal(value, kind).value, TemporalLiteral(value, kind).value;
      && Plain(text)
      && Temporal(text, kind) == (if Zoned(kind) && !InRange(micros) then None else Some(micros))
      && TemporalLiteral(text, kind) == (if Zoned(kind) && !InRange(micros) then None else Some(text))
  {
    hide Temporal, UtcText;
    var micros := Temporal(value, kind).value;
    if Zoned(kind) {
      UtcTextPlain(micros);
      if InRange(micros) {
        InRangeText(micros);
        CanonicalTemporal(micros, UtcText(micros), kind);
      } else {
        OutOfRangeText(micros, kind);
      }
    }
  }

  // ----- Two literals on either side of the first second -----

  /** A civil time to the second, as the pattern of a timestamp begins. */
  function Start(c: Civil): string {
    Pad(c.year, 4) + "-" + Pad(c.month, 2) + "-" + Pad(c.day, 2) + "T"
    + Pad(c.hour, 2) + ":" + Pad(c.minute, 2) + ":" + Pad(c.second, 2)
  }

  lemma StartParts(y: string, m: string, d: string, h: string, i: string, sec: string, tail: string)
    requires |y| == 4 && |m| == |d| == |h| == |i| == |sec| == 2 && tail != ""
    ensures var t := y + "-" + m + "-" + d + "T" + h + ":" + i + ":" + sec + tail;
      && |t| == 19 + |tail| && t[0..4] == y && t[5..7] == m && t[8..10] == d && t[11..13] == h && t[14..16] == i && t[17..19] == sec
      && t[19..] == tail && t[19] == tail[0]
      && t[4] == '-' && t[7] == '-' && t[10] == 'T' && t[13] == ':' && t[16] == ':'
  {
  }

  lemma StartMatches(c: Civil, tail: string)
    requires ValidCivil(c) && tail != "" && !IsDigit(tail[0]) && tail[0] != '.' && MatchOffset(tail).Some?
    ensures MatchStamp(Start(c) + tail) == Some(Stamp(c, "", MatchOffset(tail).value))
  {
    hide Pad, ValidCivil, Value, AllDigits, MatchOffset;
    var s := Start(c) + tail;
    FieldsPadded(c);
    StartParts(Pad(c.year, 4), Pad(c.month, 2), Pad(c.day, 2), Pad(c.hour, 2), Pad(c.minute, 2), Pad(c.second, 2), tail);
    DigitsRun(s, 0, 4);
    DigitsRun(s, 5, 2);
    DigitsRun(s, 8, 2);
    DigitsRun(s, 11, 2);
    DigitsRun(s, 14, 2);
    DigitsRun(s, 17, 2);
  }

  /** The text of a civil time with a zone denotes its seconds less the zone. */
  lemma StartDenotes(c: Civil, tail: string, kind: string)
    requires ValidCivil(c) && Zoned(kind) && (tail == "Z" || tail == "+05:00")
    ensures Temporal(Start(c) + tail, kind) == Some((Seconds(c) - (if tail == "Z" then 0 else 18000)) * 1000000)
  {
    hide MatchStamp, Pad, ValidCivil, Seconds;
    if tail != "Z" {
      MatchesOffset(tail);
    }
    StartMatches(c, tail);
    FieldsPadded(c);
    StartParts(Pad(c.year, 4), Pad(c.month, 2), Pad(c.day, 2), Pad(c.hour, 2), Pad(c.minute, 2), Pad(c.second, 2), tail);
  }

  lemma MatchesOffset(s: string)
    requires s == "+05:00"
    ensures MatchOffset(s) == Some(Shift(true, 5, 0))
  {
    DigitsRun(s, 1, 2);
    DigitsEndAt(s, 4, 6);
    TwoDigits(s[1..3]);
    TwoDigits(s[4..6]);
  }

  lemma TwoDigits(s: string)
    requires |s| == 2
    ensures Value(s) == (s[0] as int - 48) * 10 + s[1] as int - 48
  {
    assert s[..1][..0] == "";
    assert Value(s[..1]) == Value("") * 10 + s[0] as int - 48;
  }

  const FIRST_DAY := Civil(1, 1, 1, 0, 0, 0)

  /** Midnight of the first day five hours ahead of UTC is accepted and lies in the year 0, so that its
      kept text is refused. */
  lemma ShiftedBeforeYearOne(s: string, kind: string)
    requires s == Start(FIRST_DAY) + "+05:00" && Zoned(kind)
    ensures Temporal(s, kind) == Some((FIRST_SECOND - 5 * 3600) * 1000000)
    ensures TemporalLiteral(s, kind).Some? && Temporal(TemporalLiteral(s, kind).value, kind) == None
  {
    hide Temporal, UtcText, Start, Seconds, ValidDate;
    FirstDaySeconds(FIRST_DAY);
    StartDenotes(FIRST_DAY, "+05:00", kind);
    OutOfRangeText((FIRST_SECOND - 5 * 3600) * 1000000, kind);
  }

  lemma OnDaySeconds(c: Civil, day: nat)
    requires OnDay(c, day)
    ensures ValidCivil(c) && Seconds(c) == (day - EPOCH_DAY) * 86400 + TimeOfDay(c)
  {
    hide ValidDate, DayNumber;
  }

  lemma NoTime(c: Civil)
    requires c == FIRST_DAY
    ensures TimeOfDay(c) == 0
  {
  }

  lemma FirstDaySeconds(c: Civil)
    requires c == FIRST_DAY
    ensures ValidCivil(c) && Seconds(c) == FIRST_SECOND
  {
    hide OnDay, ValidCivil, Seconds, TimeOfDay;
    FirstDay();
    OnDaySeconds(c, 0);
    NoTime(c);
    assert Seconds(c) == (0 - EPOCH_DAY) * 86400;
  }

  lemma FirstDayText()
    ensures Start(FIRST_DAY) == "0001-01-01T00:00:00"
  {
    assert Decimal(1) == "1" && Decimal(0) == "0";
    assert Pad(1, 4) == "0001" && Pad(1, 2) == "01" && Pad(0, 2) == "00";
  }
}
