/** The offsets and epochs of timestamps, said of civil times: which way they shift, in every form in which
    they may be written. */
module Offsets {
  import opened Wrappers
  import opened Chars
  import opened Arithmetic
  import opened Calendar
  import opened Numbers
  import opened Timestamps
  import Temporal

  // ----- Offsets -----

  /** How an offset may be written: `+hh:mm`, `+hhmm` or, for whole hours, `+hh`. */
  datatype Form = Extended | Basic | HoursOnly

  function OffsetText(ahead: bool, hours: nat, minutes: nat, form: Form): string {
    (if ahead then "+" else "-") + Pad(hours, 2)
    + (match form
       case Extended => ":" + Pad(minutes, 2)
       case Basic => Pad(minutes, 2)
       case HoursOnly => "")
  }

  ghost predicate OffsetOk(hours: nat, minutes: nat, form: Form) {
    hours < 24 && minutes < 60 && (form.HoursOnly? ==> minutes == 0)
  }

  /** A fraction with its point, or nothing. */
  function FractionText(fraction: string): string {
    if fraction == "" then "" else "." + fraction
  }

  lemma TwoDigitsAt(s: string, i: nat, n: nat)
    requires n < 100 && i + 2 <= |s| && s[i..i + 2] == Pad(n, 2)
    ensures DigitsAt(s, i, 2) && NatAt(s, i, 2) == n
  {
    hide Pad;
    PowersOfTen();
    PadReads(n, 2);
    assert s[i] == s[i..i + 2][0] && s[i + 1] == s[i..i + 2][1];
  }

  lemma OffsetMatches(ahead: bool, hours: nat, minutes: nat, form: Form)
    requires hours < 100 && minutes < 100 && (form.HoursOnly? ==> minutes == 0)
    ensures var s := OffsetText(ahead, hours, minutes, form);
      && MatchOffset(s) == Some(Shift(ahead, hours, minutes))
      && s != "" && !IsDigit(s[0]) && s[0] != '.'
  {
    hide Pad;
    PowersOfTen();
    PadReads(hours, 2);
    PadReads(minutes, 2);
    var s := OffsetText(ahead, hours, minutes, form);
    assert s[1..3] == Pad(hours, 2);
    TwoDigitsAt(s, 1, hours);
    match form
    case Extended =>
      assert |s| == 6 && s[3] == ':' && s[4..6] == Pad(minutes, 2);
      TwoDigitsAt(s, 4, minutes);
    case Basic =>
      assert |s| == 5 && s[3..5] == Pad(minutes, 2);
      assert s[3] == s[3..5][0];
      TwoDigitsAt(s, 3, minutes);
    case HoursOnly =>
      assert |s| == 3;
  }

  /** A civil time with a fraction and an offset, as the pattern reads it. */
  lemma TailMatches(c: Civil, fraction: string, tail: string)
    requires ValidCivil(c) && |fraction| <= 6 && AllDigits(fraction)
    requires tail != "" && !IsDigit(tail[0]) && tail[0] != '.' && MatchOffset(tail).Some?
    ensures MatchStamp(Temporal.Start(c) + (FractionText(fraction) + tail)) == Some(Stamp(c, fraction, MatchOffset(tail).value))
  {
    hide Pad, ValidCivil, Value, MatchOffset, Temporal.Start;
    if fraction == "" {
      assert FractionText(fraction) + tail == tail;
      Temporal.StartMatches(c, tail);
    } else {
      FractionMatches(c, fraction, tail);
    }
  }

  lemma FractionMatches(c: Civil, fraction: string, tail: string)
    requires ValidCivil(c) && 1 <= |fraction| <= 6 && AllDigits(fraction)
    requires tail != "" && !IsDigit(tail[0]) && MatchOffset(tail).Some?
    ensures MatchStamp(Temporal.Start(c) + ("." + fraction + tail)) == Some(Stamp(c, fraction, MatchOffset(tail).value))
  {
    hide Pad, ValidCivil, Value, MatchOffset;
    var more := "." + fraction + tail;
    var s := Temporal.Start(c) + more;
    FieldsPadded(c);
    Temporal.StartParts(Pad(c.year, 4), Pad(c.month, 2), Pad(c.day, 2), Pad(c.hour, 2), Pad(c.minute, 2), Pad(c.second, 2), more);
    DigitsRun(s, 0, 4);
    DigitsRun(s, 5, 2);
    DigitsRun(s, 8, 2);
    DigitsRun(s, 11, 2);
    DigitsRun(s, 14, 2);
    DigitsRun(s, 17, 2);
    FractionPlaces(s[..19], fraction, tail);
    assert s == s[..19] + more;
    DigitsRun(s, 20, |fraction|);
  }

  lemma FractionPlaces(head: string, fraction: string, tail: string)
    requires |head| == 19 && tail != ""
    ensures var s := head + ("." + fraction + tail);
      && s[20..20 + |fraction|] == fraction && s[20 + |fraction|..] == tail && s[20 + |fraction|] == tail[0] && |s| > 20 + |fraction|
  {
  }

  /** The text that is `ahead` of UTC by an offset, or behind it, denotes the time less, or plus, the offset. */
  lemma OffsetDenotes(c: Civil, fraction: string, ahead: bool, hours: nat, minutes: nat, form: Form, config: Config)
    requires ValidCivil(c) && |fraction| <= 6 && AllDigits(fraction) && OffsetOk(hours, minutes, form) && config.epochUnit.None?
    ensures Instant(Temporal.Start(c) + (FractionText(fraction) + OffsetText(ahead, hours, minutes, form)), config)
      == Some((Seconds(c) - (if ahead then hours * 3600 + minutes * 60 else -(hours * 3600 + minutes * 60))) * 1000000
              + FractionMicros(fraction))
  {
    hide Pad, ValidCivil, Seconds, MatchOffset, MatchStamp, OffsetText, FractionText, FractionMicros;
    OffsetMatches(ahead, hours, minutes, form);
    TailMatches(c, fraction, OffsetText(ahead, hours, minutes, form));
  }

  /** With `Z` it denotes itself. */
  lemma UtcDenotes(c: Civil, fraction: string, config: Config)
    requires ValidCivil(c) && |fraction| <= 6 && AllDigits(fraction) && config.epochUnit.None?
    ensures Instant(Temporal.Start(c) + (FractionText(fraction) + "Z"), config) == Some(Seconds(c) * 1000000 + FractionMicros(fraction))
  {
    hide Pad, ValidCivil, Seconds, MatchStamp, FractionText, FractionMicros;
    TailMatches(c, fraction, "Z");
  }

  /** `d` is the time in UTC of a clock that shows `c` and is ahead of UTC, or behind it, by the offset. */
  ghost predicate ShowsAt(c: Civil, d: Civil, ahead: bool, hours: nat, minutes: nat)
    requires ValidCivil(c) && ValidCivil(d)
  {
    if ahead then Seconds(d) + hours * 3600 + minutes * 60 == Seconds(c)
    else Seconds(c) + hours * 3600 + minutes * 60 == Seconds(d)
  }

  /** Canonicalising what a clock shows with its offset gives the canonical text of the time in UTC: hours
      and minutes ahead are taken off, hours and minutes behind are added. */
  method CanonicalOffset(c: Civil, d: Civil, fraction: string, ahead: bool, hours: nat, minutes: nat, form: Form,
      config: Config) returns (r: Option<string>)
    requires ValidCivil(c) && ValidCivil(d) && |fraction| <= 6 && AllDigits(fraction) && OffsetOk(hours, minutes, form)
    requires config.epochUnit.None? && ShowsAt(c, d, ahead, hours, minutes)
    ensures r == Some(Printed(d, PadEnd(fraction, 6)))
  {
    hide Pad, ValidCivil, Seconds, Printed, Instant, Temporal.Start, OffsetText, FractionText, PadEnd, FractionMicros;
    OffsetDenotes(c, fraction, ahead, hours, minutes, form, config);
    r := CanonicalTimestamp(Temporal.Start(c) + (FractionText(fraction) + OffsetText(ahead, hours, minutes, form)), config);
    CivilText(d, fraction);
    if r.Some? {
      TextsAreInstants(Seconds(d) * 1000000 + FractionMicros(fraction), r.value,
        Seconds(d) * 1000000 + FractionMicros(fraction), Printed(d, PadEnd(fraction, 6)));
    }
  }

  /** The canonical text of a civil time and a fraction. */
  lemma CivilText(d: Civil, fraction: string)
    requires ValidCivil(d) && |fraction| <= 6 && AllDigits(fraction)
    ensures var instant := Seconds(d) * 1000000 + FractionMicros(fraction);
      InRange(instant) && IsText(instant, Printed(d, PadEnd(fraction, 6)))
  {
    hide ValidCivil, Seconds, Printed, PadEnd, FractionMicros;
    PadEndReads(fraction);
    SixDigits(PadEnd(fraction, 6));
    SecondsRange(d);
    assert TextOf(Seconds(d) * 1000000 + FractionMicros(fraction), Printed(d, PadEnd(fraction, 6)), d, PadEnd(fraction, 6));
  }

  /** It is refused exactly if there is no such time within the years 1 to 9999. */
  method OffsetRefused(c: Civil, fraction: string, ahead: bool, hours: nat, minutes: nat, form: Form, config: Config)
      returns (r: Option<string>)
    requires ValidCivil(c) && |fraction| <= 6 && AllDigits(fraction) && OffsetOk(hours, minutes, form) && config.epochUnit.None?
    ensures r.None? <==> !exists d :: ValidCivil(d) && ShowsAt(c, d, ahead, hours, minutes)
  {
    hide Pad, ValidCivil, Seconds, Instant, Temporal.Start, OffsetText, FractionText, FractionMicros;
    OffsetDenotes(c, fraction, ahead, hours, minutes, form, config);
    r := CanonicalTimestamp(Temporal.Start(c) + (FractionText(fraction) + OffsetText(ahead, hours, minutes, form)), config);
    var shift: int := if ahead then hours * 3600 + minutes * 60 else -(hours * 3600 + minutes * 60);
    FractionBelowSecond(fraction);
    forall d | ValidCivil(d)
      ensures FIRST_SECOND <= Seconds(d) <= LAST_SECOND
    {
      SecondsRange(d);
    }
    Temporal.YearInRange(Seconds(c) - shift);
  }

  lemma FractionBelowSecond(fraction: string)
    requires |fraction| <= 6 && AllDigits(fraction)
    ensures 0 <= FractionMicros(fraction) < 1000000
  {
    PadEndReads(fraction);
    SixDigits(PadEnd(fraction, 6));
  }

  // ----- The two readers of zoned texts -----

  /** Where both the literals of predicates and this mode accept a text with a zone, it is the same
      microsecond to both. */
  lemma ReadersAgree(value: string, kind: string, config: Config)
    requires Temporal.Zoned(kind) && config.epochUnit.None?
    requires Temporal.Temporal(value, kind).Some? && Instant(value, config).Some?
    ensures Temporal.Temporal(value, kind) == Instant(value, config)
  {
    hide MatchStamp, ValidCivil, Seconds, FractionMicros;
  }

  /** This mode accepts all that the literals accept, except beyond the range. */
  lemma ReaderAccepts(value: string, kind: string, config: Config)
    requires Temporal.Zoned(kind) && config.epochUnit.None? && Temporal.Temporal(value, kind).Some?
    ensures Instant(value, config).Some?
  {
    hide MatchStamp, ValidCivil, Seconds, FractionMicros;
  }

  // ----- Epochs -----

  /** An integer as the pattern of numbers reads it. */
  function IntegerText(n: int): string {
    if n < 0 then "-" + Decimal(-n) else Decimal(n)
  }

  lemma {:induction false} DecimalLeads(n: nat)
    ensures n > 0 ==> Decimal(n)[0] != '0'
    ensures NoLeadingZero(Decimal(n))
  {
    if n >= 10 {
      DecimalLeads(n / 10);
      assert Decimal(n)[0] == Decimal(n / 10)[0];
    }
  }

  lemma IntegerMatches(n: int)
    ensures var m := Match(IntegerText(n));
      m.Some? && m.value.fraction == "" && m.value.negative == (n < 0) && Value(m.value.integer) == if n < 0 then -n else n
  {
    hide Match, Accepted, Value;
    var size := if n < 0 then -n else n;
    var number := Number(n < 0, Decimal(size), "");
    DecimalValue(size);
    AcceptedInteger(n);
    assert Text(number) == IntegerText(n) by {
      assert "-" + Decimal(size) + "" == "-" + Decimal(size);
      assert "" + Decimal(size) + "" == Decimal(size);
    }
    MatchComplete(number);
  }

  lemma AcceptedInteger(n: int)
    ensures Accepted(Number(n < 0, Decimal(if n < 0 then -n else n), ""))
  {
    DecimalLeads(if n < 0 then -n else n);
  }

  lemma EpochDenotes(n: int, unit: Unit, zone: Option<int -> Option<int>>)
    ensures Instant(IntegerText(n), Config(Some(unit), zone)) == Some(n * (if unit.InSeconds? then 1000000 else 1000))
  {
    hide Match, Value, Decimal, IntegerText;
    IntegerMatches(n);
    NoPoint(n);
  }

  lemma NoPoint(n: int)
    ensures '.' !in IntegerText(n)
  {
    var digits := Decimal(if n < 0 then -n else n);
    assert forall i | 0 <= i < |digits| :: digits[i] != '.';
  }

  /** A second of the epoch, a thousand times as many milliseconds, and the civil time with that count have
      one canonical text. */
  method CanonicalEpochs(n: int, c: Civil, zone: Option<int -> Option<int>>) returns (seconds: Option<string>,
      milliseconds: Option<string>, stamp: Option<string>)
    requires ValidCivil(c) && Seconds(c) == n
    ensures seconds == milliseconds == stamp == Some(Printed(c, "000000"))
  {
    hide ValidCivil, Seconds, Printed, Instant, Temporal.Start, IntegerText, PadEnd, FractionMicros;
    EpochDenotes(n, InSeconds, zone);
    EpochDenotes(n * 1000, InMilliseconds, zone);
    UtcDenotes(c, "", Config(None, zone));
    NoFraction();
    CivilText(c, "");
    seconds := CanonicalTimestamp(IntegerText(n), Config(Some(InSeconds), zone));
    milliseconds := CanonicalTimestamp(IntegerText(n * 1000), Config(Some(InMilliseconds), zone));
    stamp := CanonicalTimestamp(Temporal.Start(c) + (FractionText("") + "Z"), Config(None, zone));
    SameText(n * 1000000, seconds, c);
    SameText(n * 1000000, milliseconds, c);
    SameText(n * 1000000, stamp, c);
  }

  lemma FirstEpochSecond(c: Civil)
    requires c == Civil(1970, 1, 1, 0, 0, 1)
    ensures ValidCivil(c) && Seconds(c) == 1
  {
    hide DayNumber, ValidDate;
    EpochDay();
  }

  lemma NoFraction()
    ensures PadEnd("", 6) == "000000" && FractionMicros("") == 0
  {
    assert Zeros(6) == "000000" && "" + Zeros(6) == Zeros(6);
    assert Value("") == 0;
  }

  lemma SameText(instant: int, text: Option<string>, c: Civil)
    requires ValidCivil(c) && InRange(instant) && IsText(instant, Printed(c, "000000"))
    requires (text.Some? <==> InRange(instant)) && (text.Some? ==> IsText(instant, text.value))
    ensures text == Some(Printed(c, "000000"))
  {
    hide ValidCivil, Seconds, Printed, IsText;
    TextsAreInstants(instant, text.value, instant, Printed(c, "000000"));
  }
}
