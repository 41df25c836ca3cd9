/** The texts that the patterns of timestamps and temporal literals match, spelled out from their parts. */
module Patterns {
  import opened Wrappers
  import opened Chars
  import opened Arithmetic
  import opened Calendar
  import opened Numbers
  import opened Timestamps
  import opened Offsets
  import Temporal

  /** Two or four digits. */
  ghost predicate Field(s: string, i: nat, width: nat, n: nat) {
    i + width <= |s| && s[i..i + width] == Pad(n, width) && n < Pow(10, width)
  }

  /** A date and a time to the second, with one of these characters between them. */
  ghost predicate Head(s: string, c: Civil, separators: set<char>) {
    && |s| == 19
    && Field(s, 0, 4, c.year) && s[4] == '-' && Field(s, 5, 2, c.month) && s[7] == '-' && Field(s, 8, 2, c.day)
    && s[10] in separators
    && Field(s, 11, 2, c.hour) && s[13] == ':' && Field(s, 14, 2, c.minute) && s[16] == ':' && Field(s, 17, 2, c.second)
  }

  /** At most six digits, and their point if there are any. */
  ghost predicate Fraction(s: string, fraction: string) {
    s == FractionText(fraction) && |fraction| <= 6 && forall i | 0 <= i < |fraction| :: '0' <= fraction[i] && fraction[i] <= '9'
  }

  /** How an offset may be written. */
  ghost predicate Zone(s: string, offset: Offset) {
    match offset
    case Unstated => s == ""
    case Utc => s == "Z"
    case Shift(ahead, hours, minutes) =>
      hours < 100 && minutes < 100 && exists form: Form :: (form.HoursOnly? ==> minutes == 0) && s == OffsetText(ahead, hours, minutes, form)
  }

  /** A date, `T` or a space, a time, perhaps a fraction, and perhaps an offset. */
  ghost predicate StampText(s: string, stamp: Stamp) {
    exists head, fraction, zone :: Parts(s, stamp, head, fraction, zone, {'T', ' '})
  }

  ghost predicate Parts(s: string, stamp: Stamp, head: string, fraction: string, zone: string, separators: set<char>) {
    s == head + (fraction + zone) && Head(head, stamp.civil, separators) && Fraction(fraction, stamp.fraction) && Zone(zone, stamp.offset)
  }

  // ----- Fields -----

  lemma {:induction false} DigitsPad(s: string)
    requires s != "" && AllDigits(s)
    ensures 0 <= Value(s) < Pow(10, |s|) && Pad(Value(s), |s|) == s
  {
    hide Pad;
    ValueBound(s);
    PadReads(Value(s), |s|);
    ValueInjective(Pad(Value(s), |s|), s);
  }

  lemma FieldExact(s: string, i: nat, width: nat, n: nat)
    requires i + width <= |s| && width >= 1
    ensures Field(s, i, width, n) <==> DigitsAt(s, i, width) && NatAt(s, i, width) == n
  {
    hide Pad;
    var t := s[i..i + width];
    if Field(s, i, width, n) {
      PadReads(n, width);
      forall k | i <= k < i + width
        ensures IsDigit(s[k])
      {
        assert s[k] == t[k - i];
      }
      DigitsReach(s, i, i + width);
    }
    if DigitsAt(s, i, width) {
      DigitsNatural(s, i, width);
      DigitsPad(t);
    }
  }

  lemma {:induction false} DigitsReach(s: string, i: nat, e: nat)
    requires i <= e <= |s| && forall k | i <= k < e :: IsDigit(s[k])
    ensures DigitsEnd(s, i) >= e
    decreases e - i
  {
    if i < e {
      DigitsReach(s, i + 1, e);
    }
  }

  // ----- Offsets -----

  lemma TwoPad(s: string, i: nat)
    requires DigitsAt(s, i, 2)
    ensures s[i..i + 2] == Pad(NatAt(s, i, 2), 2) && NatAt(s, i, 2) < 100
  {
    PowersOfTen();
    DigitsNatural(s, i, 2);
    DigitsPad(s[i..i + 2]);
  }

  lemma OffsetSound(s: string)
    requires MatchOffset(s).Some? && MatchOffset(s).value.Shift?
    ensures Zone(s, MatchOffset(s).value)
  {
    hide Pad;
    var Shift(ahead, hours, minutes) := MatchOffset(s).value;
    var sign := if ahead then "+" else "-";
    TwoPad(s, 1);
    assert s[..1] == sign && s[1..3] == Pad(hours, 2);
    if |s| == 3 {
      assert s == sign + Pad(hours, 2) + "";
      assert s == OffsetText(ahead, hours, minutes, HoursOnly);
    } else if s[3] == ':' {
      TwoPad(s, 4);
      assert s == sign + Pad(hours, 2) + (":" + Pad(minutes, 2));
      assert s == OffsetText(ahead, hours, minutes, Extended);
    } else {
      TwoPad(s, 3);
      assert s == sign + Pad(hours, 2) + Pad(minutes, 2);
      assert s == OffsetText(ahead, hours, minutes, Basic);
    }
  }

  lemma ZoneExact(s: string, offset: Offset)
    ensures Zone(s, offset) <==> MatchOffset(s) == Some(offset)
  {
    hide OffsetText;
    if MatchOffset(s).Some? && MatchOffset(s).value.Shift? {
      OffsetSound(s);
    }
    if offset.Shift? && Zone(s, offset) {
      var form: Form :| (form.HoursOnly? ==> offset.minutes == 0) && s == OffsetText(offset.ahead, offset.hours, offset.minutes, form);
      OffsetMatches(offset.ahead, offset.hours, offset.minutes, form);
    }
  }

  lemma ZoneStart(s: string, offset: Offset)
    requires Zone(s, offset)
    ensures s == "" || (!IsDigit(s[0]) && s[0] != '.')
  {
    if offset.Shift? {
      var form: Form :| (form.HoursOnly? ==> offset.minutes == 0) && s == OffsetText(offset.ahead, offset.hours, offset.minutes, form);
      OffsetMatches(offset.ahead, offset.hours, offset.minutes, form);
    }
  }

  // ----- The pattern -----

  predicate HeadMatches(s: string) {
    && |s| >= 19 && DigitsAt(s, 0, 4) && DigitsAt(s, 5, 2) && DigitsAt(s, 8, 2) && DigitsAt(s, 11, 2)
    && DigitsAt(s, 14, 2) && DigitsAt(s, 17, 2)
    && s[4] == '-' && s[7] == '-' && (s[10] == 'T' || s[10] == ' ') && s[13] == ':' && s[16] == ':'
  }

  function HeadCivil(s: string): Civil
    requires HeadMatches(s)
  {
    Civil(NatAt(s, 0, 4), NatAt(s, 5, 2), NatAt(s, 8, 2), NatAt(s, 11, 2), NatAt(s, 14, 2), NatAt(s, 17, 2))
  }

  lemma FieldPrefix(s: string, i: nat, width: nat, n: nat)
    requires i + width <= 19 <= |s|
    ensures Field(s[..19], i, width, n) <==> Field(s, i, width, n)
  {
    assert s[..19][i..i + width] == s[i..i + width];
  }

  lemma HeadExact(s: string, c: Civil)
    requires |s| >= 19
    ensures Head(s[..19], c, {'T', ' '}) <==> HeadMatches(s) && HeadCivil(s) == c
  {
    hide Field, DigitsAt, NatAt;
    FieldPrefix(s, 0, 4, c.year);
    FieldPrefix(s, 5, 2, c.month);
    FieldPrefix(s, 8, 2, c.day);
    FieldPrefix(s, 11, 2, c.hour);
    FieldPrefix(s, 14, 2, c.minute);
    FieldPrefix(s, 17, 2, c.second);
    FieldExact(s, 0, 4, c.year);
    FieldExact(s, 5, 2, c.month);
    FieldExact(s, 8, 2, c.day);
    FieldExact(s, 11, 2, c.hour);
    FieldExact(s, 14, 2, c.minute);
    FieldExact(s, 17, 2, c.second);
    assert forall k | k in {4, 7, 10, 13, 16} :: s[..19][k] == s[k];
  }

  /** The part behind the seconds, as the pattern reads it. */
  function TailOf(s: string): Option<(string, Offset)>
    requires |s| >= 19
  {
    if |s| > 19 && s[19] == '.' then
      var end := DigitsEnd(s, 20);
      if end == 20 || end > 26 then None
      else
        var offset :- MatchOffset(s[end..]);
        Some((s[20..end], offset))
    else
      var offset :- MatchOffset(s[19..]);
      Some(("", offset))
  }

  lemma MatchSplit(s: string)
    ensures MatchStamp(s) ==
      if !HeadMatches(s) || TailOf(s).None? then None
      else Some(Stamp(HeadCivil(s), TailOf(s).value.0, TailOf(s).value.1))
  {
    hide MatchOffset, NatAt, DigitsAt;
  }

  lemma TailSound(s: string)
    requires |s| >= 19 && TailOf(s).Some?
    ensures exists fraction, zone :: s[19..] == fraction + zone && Fraction(fraction, TailOf(s).value.0) && Zone(zone, TailOf(s).value.1)
  {
    hide Zone, MatchOffset;
    var (f, offset) := TailOf(s).value;
    if |s| > 19 && s[19] == '.' {
      var end := DigitsEnd(s, 20);
      ZoneExact(s[end..], offset);
      assert s[19..] == FractionText(f) + s[end..];
      assert Fraction(FractionText(f), f);
    } else {
      ZoneExact(s[19..], offset);
      assert s[19..] == "" + s[19..];
      assert Fraction("", "");
    }
  }

  lemma TailComplete(s: string, fraction: string, zone: string, f: string, offset: Offset)
    requires |s| >= 19 && s[19..] == fraction + zone && Fraction(fraction, f) && Zone(zone, offset)
    ensures TailOf(s) == Some((f, offset))
  {
    hide Zone, MatchOffset;
    ZoneExact(zone, offset);
    ZoneStart(zone, offset);
    assert s == s[..19] + (fraction + zone);
    if f == "" {
      assert fraction + zone == zone;
      assert |s| > 19 ==> s[19] == zone[0];
    } else {
      var end := 20 + |f|;
      assert s[19] == fraction[0] == '.';
      assert s[20..end] == f && s[end..] == zone;
      forall k | 20 <= k < end
        ensures IsDigit(s[k])
      {
        assert s[k] == s[20..end][k - 20];
      }
      assert end < |s| ==> s[end] == zone[0];
      DigitsEndAt(s, 20, end);
    }
  }

  /** The pattern of timestamps matches exactly these texts, and gives their parts. */
  lemma StampExact(s: string, stamp: Stamp)
    ensures StampText(s, stamp) <==> MatchStamp(s) == Some(stamp)
  {
    hide Head, Fraction, Zone, HeadMatches, TailOf, MatchStamp;
    MatchSplit(s);
    if |s| >= 19 {
      HeadExact(s, stamp.civil);
      if MatchStamp(s) == Some(stamp) {
        TailSound(s);
        var fraction, zone :| s[19..] == fraction + zone && Fraction(fraction, stamp.fraction) && Zone(zone, stamp.offset);
        assert s == s[..19] + (fraction + zone);
        assert Parts(s, stamp, s[..19], fraction, zone, {'T', ' '});
      }
    } else {
      TooShort(s);
    }
    if head, fraction, zone :| Parts(s, stamp, head, fraction, zone, {'T', ' '}) {
      HeadLength(head, stamp.civil, {'T', ' '});
      assert s[..19] == head && s[19..] == fraction + zone;
      TailComplete(s, fraction, zone, stamp.fraction, stamp.offset);
    }
  }

  lemma HeadLength(s: string, c: Civil, separators: set<char>)
    requires Head(s, c, separators)
    ensures |s| == 19
  {
  }

  lemma TooShort(s: string)
    ensures HeadMatches(s) ==> |s| >= 19
  {
  }

  // ----- What is accepted -----

  /** The time in UTC that the parts of a text stand for: what the clock shows less its offset, or what the
      zone of the column makes of it. */
  ghost predicate Denotes(stamp: Stamp, config: Config, utc: int)
    requires ValidCivil(stamp.civil)
  {
    match stamp.offset
    case Unstated => config.zone.Some? && config.zone.value(Seconds(stamp.civil)) == Some(utc)
    case Utc => utc == Seconds(stamp.civil)
    case Shift(true, hours, minutes) => hours < 24 && minutes < 60 && utc + hours * 3600 + minutes * 60 == Seconds(stamp.civil)
    case Shift(false, hours, minutes) => hours < 24 && minutes < 60 && utc == Seconds(stamp.civil) + hours * 3600 + minutes * 60
  }

  /** A text denotes a microsecond exactly if it is written so, its civil time is valid, and its offset or the
      zone gives a time in UTC. */
  lemma InstantExact(value: string, config: Config, instant: int)
    requires config.epochUnit.None?
    ensures Instant(value, config) == Some(instant) <==>
      exists stamp, utc ::
        StampText(value, stamp) && ValidCivil(stamp.civil) && Denotes(stamp, config, utc)
        && instant == utc * 1000000 + Value(PadEnd(stamp.fraction, 6))
  {
    hide StampText, MatchStamp, ValidCivil, Seconds, Value, PadEnd;
    forall stamp
      ensures StampText(value, stamp) <==> MatchStamp(value) == Some(stamp)
    {
      StampExact(value, stamp);
    }
    if MatchStamp(value).Some? {
      var stamp := MatchStamp(value).value;
      StampFraction(value);
      PadEndReads(stamp.fraction);
      if ValidCivil(stamp.civil) {
        DenotesExact(stamp, config);
      }
    }
  }

  lemma DenotesExact(stamp: Stamp, config: Config)
    requires ValidCivil(stamp.civil)
    ensures forall utc :: Denotes(stamp, config, utc) <==> UtcSeconds(stamp, config) == Some(utc)
  {
    hide ValidCivil, Seconds;
  }

  // ----- Temporal literals -----

  ghost predicate DateText(s: string, c: Civil) {
    |s| == 10 && Field(s, 0, 4, c.year) && s[4] == '-' && Field(s, 5, 2, c.month) && s[7] == '-' && Field(s, 8, 2, c.day)
  }

  ghost predicate TimeText(s: string, c: Civil) {
    |s| == 8 && Field(s, 0, 2, c.hour) && s[2] == ':' && Field(s, 3, 2, c.minute) && s[5] == ':' && Field(s, 6, 2, c.second)
  }

  /** `Z`, or hours and minutes with a colon. */
  ghost predicate ExplicitZone(s: string, offset: Offset) {
    match offset
    case Unstated => false
    case Utc => s == "Z"
    case Shift(ahead, hours, minutes) => hours < 100 && minutes < 100 && s == OffsetText(ahead, hours, minutes, Extended)
  }

  /** How a literal of the type is written: a date, a time, both with `T` between them, or both with a zone. */
  ghost predicate LiteralText(s: string, kind: string, stamp: Stamp) {
    if kind == "DATE" then
      DateText(s, stamp.civil) && stamp.civil.hour == stamp.civil.minute == stamp.civil.second == 0 && stamp.fraction == "" && stamp.offset.Unstated?
    else if kind == "TIME" then
      && stamp.civil.year == 2000 && stamp.civil.month == stamp.civil.day == 1 && stamp.offset.Unstated?
      && exists head, fraction :: s == head + fraction && TimeText(head, stamp.civil) && Fraction(fraction, stamp.fraction)
    else if kind == "TIMESTAMPTZ" then
      exists head, fraction, zone ::
        s == head + (fraction + zone) && Head(head, stamp.civil, {'T'}) && Fraction(fraction, stamp.fraction) && ExplicitZone(zone, stamp.offset)
    else
      stamp.offset.Unstated? && exists head, fraction :: s == head + fraction && Head(head, stamp.civil, {'T'}) && Fraction(fraction, stamp.fraction)
  }

  /** The third character from the end tells the forms of a zone apart. */
  lemma ColonAt(s: string, ahead: bool, hours: nat, minutes: nat, form: Form)
    requires hours < 100 && minutes < 100 && s == OffsetText(ahead, hours, minutes, form)
    ensures |s| >= 3 && (s[|s| - 3] == ':' <==> form.Extended?)
  {
    hide Pad;
    PowersOfTen();
    PadReads(hours, 2);
    PadReads(minutes, 2);
    assert s[1..3] == Pad(hours, 2);
    assert s[1] == s[1..3][0] && s[2] == s[1..3][1];
  }

  lemma ExplicitExact(head: string, fraction: string, zone: string, offset: Offset, kind: string)
    requires |head| == 19 && Zone(zone, offset) && Temporal.Zoned(kind)
    ensures var text := head + (fraction + zone);
      ExplicitZone(zone, offset) <==> Temporal.OffsetFits(text, offset, kind)
  {
    hide OffsetText;
    var text := head + (fraction + zone);
    if offset.Shift? {
      var form: Form :| (form.HoursOnly? ==> offset.minutes == 0) && zone == OffsetText(offset.ahead, offset.hours, offset.minutes, form);
      ColonAt(zone, offset.ahead, offset.hours, offset.minutes, form);
      assert text[|text| - 3] == zone[|zone| - 3];
      if zone == OffsetText(offset.ahead, offset.hours, offset.minutes, Extended) {
        ColonAt(zone, offset.ahead, offset.hours, offset.minutes, Extended);
      }
    }
  }

  lemma ExplicitIsZone(zone: string, offset: Offset)
    requires ExplicitZone(zone, offset)
    ensures Zone(zone, offset)
  {
  }

  lemma HeadT(s: string, c: Civil)
    ensures Head(s, c, {'T'}) <==> Head(s, c, {'T', ' '}) && s[10] == 'T'
  {
    hide Field;
  }

  lemma ZonedExact(s: string, kind: string, stamp: Stamp)
    requires Temporal.Zoned(kind)
    ensures LiteralText(s, kind, stamp) <==> Temporal.MatchTemporal(s, kind) == Some(stamp)
  {
    hide Head, Fraction, Zone, ExplicitZone, MatchStamp, Temporal.OffsetFits;
    StampExact(s, stamp);
    KindsDiffer(kind);
    if Temporal.MatchTemporal(s, kind) == Some(stamp) {
      var head, fraction, zone :| Parts(s, stamp, head, fraction, zone, {'T', ' '});
      HeadLength(head, stamp.civil, {'T', ' '});
      assert s[10] == head[10];
      HeadT(head, stamp.civil);
      ExplicitExact(head, fraction, zone, stamp.offset, kind);
    }
    if LiteralText(s, kind, stamp) {
      var head, fraction, zone :|
        s == head + (fraction + zone) && Head(head, stamp.civil, {'T'}) && Fraction(fraction, stamp.fraction) && ExplicitZone(zone, stamp.offset);
      HeadT(head, stamp.civil);
      HeadLength(head, stamp.civil, {'T'});
      ExplicitIsZone(zone, stamp.offset);
      assert Parts(s, stamp, head, fraction, zone, {'T', ' '});
      assert s[10] == head[10];
      ExplicitExact(head, fraction, zone, stamp.offset, kind);
    }
  }

  lemma KindsDiffer(kind: string)
    ensures Temporal.Zoned(kind) ==> kind != "DATE" && kind != "TIME"
    ensures "DATE" != "TIME"
  {
    assert |"TIMESTAMPTZ"| == 11 && |"DATE"| == 4 && |"TIME"| == 4 && "DATE"[0] == 'D' && "TIME"[0] == 'T';
  }

  lemma PlainExact(s: string, kind: string, stamp: Stamp)
    requires !Temporal.Zoned(kind) && kind != "DATE" && kind != "TIME"
    ensures LiteralText(s, kind, stamp) <==> Temporal.MatchTemporal(s, kind) == Some(stamp)
  {
    hide Head, Fraction, Zone, MatchStamp;
    StampExact(s, stamp);
    if Temporal.MatchTemporal(s, kind) == Some(stamp) {
      var head, fraction, zone :| Parts(s, stamp, head, fraction, zone, {'T', ' '});
      HeadLength(head, stamp.civil, {'T', ' '});
      HeadT(head, stamp.civil);
      NoZone(zone, stamp.offset);
      assert s[10] == head[10] && fraction + zone == fraction;
    }
    if LiteralText(s, kind, stamp) {
      var head, fraction :| s == head + fraction && Head(head, stamp.civil, {'T'}) && Fraction(fraction, stamp.fraction);
      HeadT(head, stamp.civil);
      HeadLength(head, stamp.civil, {'T'});
      NoZone("", stamp.offset);
      assert fraction + "" == fraction;
      assert Parts(s, stamp, head, fraction, "", {'T', ' '});
      assert s[10] == head[10];
    }
  }

  lemma NoZone(zone: string, offset: Offset)
    requires offset.Unstated?
    ensures Zone(zone, offset) <==> zone == ""
  {
  }

  /** A date with midnight behind it. */
  lemma MidnightHead(s: string, c: Civil)
    requires |s| == 10
    ensures Head(s + "T00:00:00", c, {'T', ' '}) <==> DateText(s, c) && c.hour == c.minute == c.second == 0
  {
    hide Pad;
    var t := s + "T00:00:00";
    assert t[0..4] == s[0..4] && t[5..7] == s[5..7] && t[8..10] == s[8..10];
    assert t[11..13] == "00" && t[14..16] == "00" && t[17..19] == "00";
    ZeroField(c.hour);
    ZeroField(c.minute);
    ZeroField(c.second);
  }

  lemma ZeroField(n: nat)
    ensures Pad(n, 2) == "00" && n < Pow(10, 2) <==> n == 0
  {
    PowersOfTen();
    if n < 100 {
      PadReads(n, 2);
      TwoZeros();
    }
  }

  lemma TwoZeros()
    ensures Pad(0, 2) == "00" && Value("00") == 0 && Value("01") == 1 && Pad(1, 2) == "01" && Pad(2000, 4) == "2000" && Value("2000") == 2000
  {
    assert Decimal(0) == "0" && Decimal(1) == "1";
    Temporal.TwoDigits("00");
    Temporal.TwoDigits("01");
    assert Decimal(20) == "20" && Decimal(200) == "200" && Decimal(2000) == "2000";
    PowersOfTen();
    PadReads(2000, 4);
  }

  lemma DateExact(s: string, stamp: Stamp)
    ensures LiteralText(s, "DATE", stamp) <==> Temporal.MatchTemporal(s, "DATE") == Some(stamp)
  {
    hide Head, Fraction, Zone, MatchStamp, DateText;
    if |s| == 10 {
      var t := s + "T00:00:00";
      StampExact(t, stamp);
      MidnightHead(s, stamp.civil);
      assert |t| == 19;
      if head, fraction, zone :| Parts(t, stamp, head, fraction, zone, {'T', ' '}) {
        HeadLength(head, stamp.civil, {'T', ' '});
        assert head == t[..19] == t && fraction == "" && zone == "";
        NothingBehind(stamp);
      }
      if LiteralText(s, "DATE", stamp) {
        NothingBehind(stamp);
        assert t == t + ("" + "");
        assert Parts(t, stamp, t, "", "", {'T', ' '});
      }
    } else if LiteralText(s, "DATE", stamp) {
      DateLength(s, stamp.civil);
    }
  }

  lemma DateLength(s: string, c: Civil)
    requires DateText(s, c)
    ensures |s| == 10
  {
  }

  lemma NothingBehind(stamp: Stamp)
    ensures Fraction("", stamp.fraction) <==> stamp.fraction == ""
    ensures Zone("", stamp.offset) <==> stamp.offset.Unstated?
  {
    if stamp.offset.Shift? && Zone("", stamp.offset) {
      var form: Form :| (form.HoursOnly? ==> stamp.offset.minutes == 0) && "" == OffsetText(stamp.offset.ahead, stamp.offset.hours, stamp.offset.minutes, form);
    }
  }

  /** A time on the first of January 2000. */
  lemma DayHead(s: string, c: Civil)
    requires |s| == 8
    ensures Head("2000-01-01T" + s, c, {'T', ' '}) <==> TimeText(s, c) && c.year == 2000 && c.month == c.day == 1
  {
    hide Pad;
    var t := "2000-01-01T" + s;
    assert t[0..4] == "2000" && t[5..7] == "01" && t[8..10] == "01" && t[4] == '-' && t[7] == '-' && t[10] == 'T';
    assert t[11..13] == s[0..2] && t[14..16] == s[3..5] && t[17..19] == s[6..8];
    DayFields(c);
  }

  lemma DayFields(c: Civil)
    ensures Pad(c.year, 4) == "2000" && c.year < Pow(10, 4) <==> c.year == 2000
    ensures Pad(c.month, 2) == "01" && c.month < Pow(10, 2) <==> c.month == 1
    ensures Pad(c.day, 2) == "01" && c.day < Pow(10, 2) <==> c.day == 1
  {
    PowersOfTen();
    TwoZeros();
    if c.year < 10000 {
      PadReads(c.year, 4);
    }
    if c.month < 100 {
      PadReads(c.month, 2);
    }
    if c.day < 100 {
      PadReads(c.day, 2);
    }
  }

  lemma TimeExact(s: string, stamp: Stamp)
    ensures LiteralText(s, "TIME", stamp) <==> Temporal.MatchTemporal(s, "TIME") == Some(stamp)
  {
    hide Head, Fraction, Zone, MatchStamp, TimeText;
    KindsDiffer("TIME");
    var day := "2000-01-01T";
    var t := day + s;
    StampExact(t, stamp);
    if Temporal.MatchTemporal(s, "TIME") == Some(stamp) {
      var head, fraction, zone :| Parts(t, stamp, head, fraction, zone, {'T', ' '});
      HeadLength(head, stamp.civil, {'T', ' '});
      NoZone(zone, stamp.offset);
      var time := head[11..];
      assert head[..11] == t[..11] == day;
      assert head == day + time && s == t[11..] == time + fraction;
      DayHead(time, stamp.civil);
    }
    if LiteralText(s, "TIME", stamp) {
      var time, fraction :| s == time + fraction && TimeText(time, stamp.civil) && Fraction(fraction, stamp.fraction);
      TimeLength(time, stamp.civil);
      DayHead(time, stamp.civil);
      NoZone("", stamp.offset);
      assert t == (day + time) + (fraction + "");
      assert Parts(t, stamp, day + time, fraction, "", {'T', ' '});
      assert t[10] == 'T';
    }
  }

  lemma TimeLength(s: string, c: Civil)
    requires TimeText(s, c)
    ensures |s| == 8
  {
  }

  lemma LiteralExact(s: string, kind: string, stamp: Stamp)
    ensures LiteralText(s, kind, stamp) <==> Temporal.MatchTemporal(s, kind) == Some(stamp)
  {
    hide LiteralText, Temporal.MatchTemporal;
    if kind == "DATE" {
      DateExact(s, stamp);
    } else if kind == "TIME" {
      TimeExact(s, stamp);
    } else if Temporal.Zoned(kind) {
      ZonedExact(s, kind, stamp);
    } else {
      PlainExact(s, kind, stamp);
    }
  }

  /** What the parts stand for: hours and minutes ahead of UTC are taken off, those behind are added. */
  ghost predicate LiteralDenotes(stamp: Stamp, micros: int)
    requires ValidCivil(stamp.civil)
  {
    var local := Seconds(stamp.civil) * 1000000 + Value(PadEnd(stamp.fraction, 6));
    match stamp.offset
    case Shift(true, hours, minutes) => hours < 16 && minutes < 60 && micros + (hours * 3600 + minutes * 60) * 1000000 == local
    case Shift(false, hours, minutes) => hours < 16 && minutes < 60 && micros == local + (hours * 3600 + minutes * 60) * 1000000
    case _ => micros == local
  }

  /** A literal has a value exactly if it is written so and its date, time and zone are valid. */
  lemma TemporalExact(s: string, kind: string, micros: int)
    ensures Temporal.Temporal(s, kind) == Some(micros) <==>
      exists stamp :: LiteralText(s, kind, stamp) && ValidCivil(stamp.civil) && LiteralDenotes(stamp, micros)
  {
    hide LiteralText, Temporal.MatchTemporal, ValidCivil, Seconds, Value, PadEnd, FractionMicros;
    forall stamp
      ensures LiteralText(s, kind, stamp) <==> Temporal.MatchTemporal(s, kind) == Some(stamp)
    {
      LiteralExact(s, kind, stamp);
    }
    if Temporal.MatchTemporal(s, kind).Some? {
      FractionDigits(s, kind);
      PadEndReads(Temporal.MatchTemporal(s, kind).value.fraction);
    }
  }

  lemma FractionDigits(s: string, kind: string)
    requires Temporal.MatchTemporal(s, kind).Some?
    ensures var f := Temporal.MatchTemporal(s, kind).value.fraction; |f| <= 6 && AllDigits(f)
  {
    hide MatchStamp;
    forall t | MatchStamp(t).Some?
      ensures |MatchStamp(t).value.fraction| <= 6 && AllDigits(MatchStamp(t).value.fraction)
    {
      StampFraction(t);
    }
  }
}
