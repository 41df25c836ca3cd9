/** The `timestamp` mode of canonicalisation: one text for every microsecond. */
module Timestamps {
  import opened Wrappers
  import opened Chars
  import opened Calendar
  import opened Arithmetic
  import opened Numbers

  datatype Unit = InSeconds | InMilliseconds

  /** The declaration of the column. Without an offset in the text the resolver of the declared zone
      gives the UTC seconds of a local time, or refuses it. */
  datatype Config = Config(epochUnit: Option<Unit>, zone: Option<int -> Option<int>>)

  /** What the regular expression captures. */
  datatype Stamp = Stamp(civil: Civil, fraction: string, offset: Offset)

  datatype Offset = Unstated | Utc | Shift(ahead: bool, hours: nat, minutes: nat)

  predicate DigitsAt(s: string, i: nat, n: nat) {
    i + n <= |s| && DigitsEnd(s, i) >= i + n
  }

  function NatAt(s: string, i: nat, n: nat): nat
    requires DigitsAt(s, i, n)
  {
    DigitsNatural(s, i, n);
    Value(s[i..i + n])
  }

  lemma DigitsNatural(s: string, i: nat, n: nat)
    requires DigitsAt(s, i, n)
    ensures 0 <= Value(s[i..i + n]) < Pow(10, n) && AllDigits(s[i..i + n])
  {
    ValueBound(s[i..i + n]);
  }

  /** The tail of the pattern: `Z`, or a sign, two digits and perhaps two more after an optional colon. */
  function MatchOffset(s: string): Option<Offset> {
    if s == "" then Some(Unstated)
    else if s == "Z" then Some(Utc)
    else if (s[0] != '+' && s[0] != '-') || !DigitsAt(s, 1, 2) then None
    else if |s| == 3 then Some(Shift(s[0] == '+', NatAt(s, 1, 2), 0))
    else
      var minutes := if s[3] == ':' then 4 else 3;
      if |s| == minutes + 2 && DigitsAt(s, minutes, 2) then Some(Shift(s[0] == '+', NatAt(s, 1, 2), NatAt(s, minutes, 2))) else None
  }

  function MatchStamp(s: string): Option<Stamp> {
    if |s| < 19 || !DigitsAt(s, 0, 4) || !DigitsAt(s, 5, 2) || !DigitsAt(s, 8, 2) || !DigitsAt(s, 11, 2)
       || !DigitsAt(s, 14, 2) || !DigitsAt(s, 17, 2)
       || s[4] != '-' || s[7] != '-' || (s[10] != 'T' && s[10] != ' ') || s[13] != ':' || s[16] != ':' then None
    else
      var civil := Civil(NatAt(s, 0, 4), NatAt(s, 5, 2), NatAt(s, 8, 2), NatAt(s, 11, 2), NatAt(s, 14, 2), NatAt(s, 17, 2));
      if |s| > 19 && s[19] == '.' then
        var end := DigitsEnd(s, 20);
        if end == 20 || end > 26 then None
        else
          var offset :- MatchOffset(s[end..]);
          Some(Stamp(civil, s[20..end], offset))
      else
        var offset :- MatchOffset(s[19..]);
        Some(Stamp(civil, "", offset))
  }

  // ----- What a text denotes -----

  function Signed(n: Number): int {
    (if n.negative then -1 else 1) * Value(n.integer)
  }

  function Micros(unit: Unit): nat {
    if unit.InSeconds? then 1000000 else 1000
  }

  /** The fraction of a second in microseconds. */
  function FractionMicros(fraction: string): int
    requires |fraction| <= 6
  {
    Value(fraction) * Pow(10, 6 - |fraction|)
  }

  /** The UTC seconds of a stamp, if it is a civil time and its offset or the zone of the column is good. */
  function UtcSeconds(stamp: Stamp, config: Config): Option<int> {
    if !ValidCivil(stamp.civil) then None
    else match stamp.offset
      case Unstated => if config.zone.None? then None else config.zone.value(Seconds(stamp.civil))
      case Utc => Some(Seconds(stamp.civil))
      case Shift(ahead, hours, minutes) =>
        if hours >= 24 || minutes >= 60 then None
        else Some(Seconds(stamp.civil) - (if ahead then 1 else -1) * (hours * 3600 + minutes * 60))
  }

  /** The microsecond a text denotes; none if it is not one of the accepted forms. */
  function Instant(value: string, config: Config): Option<int> {
    if config.epochUnit.Some? then
      var n :- Match(value);
      if n.fraction == "" && '.' !in value then Some(Signed(n) * Micros(config.epochUnit.value)) else None
    else
      var stamp :- MatchStamp(value);
      var utc :- UtcSeconds(stamp, config);
      if |stamp.fraction| <= 6 then Some(utc * 1000000 + FractionMicros(stamp.fraction)) else None
  }

  /** Within the years 1 to 9999. */
  predicate InRange(instant: int) {
    FIRST_SECOND * 1000000 <= instant < (LAST_SECOND + 1) * 1000000
  }

  /** The text of a microsecond: its civil time and six digits. */
  ghost predicate IsText(instant: int, text: string) {
    exists c, fraction :: TextOf(instant, text, c, fraction)
  }

  ghost predicate TextOf(instant: int, text: string, c: Civil, fraction: string) {
    && ValidCivil(c) && |fraction| == 6 && AllDigits(fraction)
    && instant == Seconds(c) * 1000000 + Value(fraction) && text == Printed(c, fraction)
  }

  /** A microsecond has one text and a text one microsecond. */
  lemma TextsAreInstants(a: int, s: string, b: int, t: string)
    requires IsText(a, s) && IsText(b, t)
    ensures s == t <==> a == b
  {
    hide Printed, ValidCivil, Seconds;
    var c, f :| TextOf(a, s, c, f);
    var d, g :| TextOf(b, t, d, g);
    SixDigits(f);
    SixDigits(g);
    if s == t {
      PrintedInjective(c, f, d, g);
    }
    if a == b {
      DivMod(Seconds(c), Value(f), Seconds(d), Value(g), 1000000);
      SecondsInjective(c, d);
      ValueInjective(f, g);
    }
  }

  lemma SixDigits(f: string)
    requires |f| == 6 && AllDigits(f)
    ensures 0 <= Value(f) < 1000000
  {
    ValueBound(f);
    PowersOfTen();
    PowSum(10, 3, 3);
  }

  // ----- The operation -----

  /** Division and remainder of ECMAScript bigints, which truncate. */
  function Quotient(a: int, b: nat): int
    requires b > 0
  {
    if a >= 0 then a / b else -((-a) / b)
  }

  lemma TruncatedDivision(a: int, b: nat)
    requires b > 0
    ensures a == Quotient(a, b) * b + Remainder(a, b) && 0 < Remainder(a, b) + b < 2 * b && (Remainder(a, b) < 0 ==> a < 0)
  {
    var m := if a >= 0 then a else -a;
    assert m == m / b * b + m % b;
    assert a < 0 ==> a == -(m / b) * b - m % b;
  }

  /** `padEnd(6, '0')`. */
  function PadEnd(s: string, width: nat): string {
    if |s| >= width then s else s + Zeros(width - |s|)
  }

  lemma PadEndReads(s: string)
    requires |s| <= 6 && AllDigits(s)
    ensures |PadEnd(s, 6)| == 6 && AllDigits(PadEnd(s, 6)) && Value(PadEnd(s, 6)) == FractionMicros(s)
  {
    var zeros := Zeros(6 - |s|);
    ValueConcat(s, zeros);
    ZerosValue(6 - |s|, "");
    assert zeros + "" == zeros;
    assert Value(s) * 1 == Value(s);
  }

  /** `formatSeconds` and the check of its result. */
  method Format(whole: int, fraction: string, ghost instant: int) returns (r: Option<string>)
    requires |fraction| == 6 && AllDigits(fraction) && instant == whole * 1000000 + Value(fraction)
    ensures r.Some? <==> InRange(instant)
    ensures r.Some? ==> IsText(instant, r.value)
  {
    hide Printed, ValidCivil, Seconds;
    SixDigits(fraction);
    r := FormatSeconds(whole, fraction);
    if r.Some? {
      var c :| ValidCivil(c) && Seconds(c) == whole && r.value == Printed(c, fraction);
      assert TextOf(instant, r.value, c, fraction);
    }
  }

  /** Floor division of the microseconds. */
  method SplitMicros(micros: int) returns (whole: int, remainder: nat)
    ensures micros == whole * 1000000 + remainder && remainder < 1000000
  {
    TruncatedDivision(micros, 1000000);
    var r := Remainder(micros, 1000000);
    whole := Quotient(micros, 1000000);
    if r < 0 {
      whole := whole - 1;
      r := r + 1000000;
    }
    remainder := r;
  }

  method CanonicalEpoch(value: string, unit: Unit) returns (r: Option<string>)
    ensures var instant := Instant(value, Config(Some(unit), None));
      && (r.Some? <==> instant.Some? && InRange(instant.value))
      && (r.Some? ==> IsText(instant.value, r.value))
  {
    hide Match, MatchStamp, Value, Decimal, AllDigits, IsText, Pad;
    var n := Match(value);
    if n.None? || n.value.fraction != "" || '.' in value {
      return None;
    }
    var magnitude := Digits(n.value.integer);
    var micros := (if n.value.negative then -1 else 1) * magnitude * Micros(unit);
    var whole, remainder := SplitMicros(micros);
    if whole < FIRST_SECOND || whole > LAST_SECOND {
      return None;
    }
    var size := if whole < 0 then -whole else whole;
    DecimalValue(size);
    var exact := Digits(Decimal(size));
    SixPlaces(remainder);
    r := Format(if whole < 0 then -exact else exact, Pad(remainder, 6), micros);
  }

  lemma SixPlaces(n: nat)
    requires n < 1000000
    ensures |Pad(n, 6)| == 6 && AllDigits(Pad(n, 6)) && Value(Pad(n, 6)) == n
  {
    PowersOfTen();
    PowSum(10, 3, 3);
    PadReads(n, 6);
  }

  method CanonicalTimestamp(value: string, config: Config) returns (r: Option<string>)
    ensures r.Some? <==> Instant(value, config).Some? && InRange(Instant(value, config).value)
    ensures r.Some? ==> IsText(Instant(value, config).value, r.value)
  {
    hide MatchStamp, Match, ValidCivil, Seconds, Decimal;
    if config.epochUnit.Some? {
      r := CanonicalEpoch(value, config.epochUnit.value);
      return;
    }
    var stamp := MatchStamp(value);
    if stamp.None? || !ValidCivil(stamp.value.civil) {
      return None;
    }
    StampFraction(value);
    var utc := Seconds(stamp.value.civil);
    if stamp.value.offset.Unstated? {
      if config.zone.None? {
        return None;
      }
      var resolved := config.zone.value(utc);
      if resolved.None? {
        return None;
      }
      utc := resolved.value;
    } else if stamp.value.offset.Shift? {
      var hours, minutes := stamp.value.offset.hours, stamp.value.offset.minutes;
      if hours >= 24 || minutes >= 60 {
        return None;
      }
      var shift: int := hours * 3600 + minutes * 60;
      utc := if stamp.value.offset.ahead then utc - shift else utc + shift;
    }
    PadEndReads(stamp.value.fraction);
    r := Format(utc, PadEnd(stamp.value.fraction, 6), utc * 1000000 + FractionMicros(stamp.value.fraction));
  }

  lemma StampFraction(value: string)
    requires MatchStamp(value).Some?
    ensures |MatchStamp(value).value.fraction| <= 6 && AllDigits(MatchStamp(value).value.fraction)
  {
  }

  // ----- The canonical text is accepted and denotes the same microsecond -----

  lemma DigitsRun(s: string, i: nat, n: nat)
    requires i + n < |s| && AllDigits(s[i..i + n]) && !IsDigit(s[i + n])
    ensures DigitsAt(s, i, n) && DigitsEnd(s, i) == i + n
  {
    forall k | i <= k < i + n
      ensures IsDigit(s[k])
    {
      assert s[k] == s[i..i + n][k - i];
    }
    DigitsEndAt(s, i, i + n);
  }

  /** The parts of a printed time and what stands between them. */
  lemma PrintedParts(y: string, m: string, d: string, h: string, i: string, sec: string, fraction: string)
    requires |y| == 4 && |m| == |d| == |h| == |i| == |sec| == 2 && |fraction| == 6
    ensures var t := y + "-" + m + "-" + d + "T" + h + ":" + i + ":" + sec + "." + fraction + "Z";
      && |t| == 27 && t[0..4] == y && t[5..7] == m && t[8..10] == d && t[11..13] == h && t[14..16] == i && t[17..19] == sec
      && t[20..26] == fraction && t[26..] == "Z"
      && t[4] == '-' && t[7] == '-' && t[10] == 'T' && t[13] == ':' && t[16] == ':' && t[19] == '.' && t[26] == 'Z'
  {
  }

  lemma FieldsPadded(c: Civil)
    requires ValidCivil(c)
    ensures |Pad(c.year, 4)| == 4 && Value(Pad(c.year, 4)) == c.year && AllDigits(Pad(c.year, 4))
    ensures forall n | n in {c.month, c.day, c.hour, c.minute, c.second} ::
      |Pad(n, 2)| == 2 && Value(Pad(n, 2)) == n && AllDigits(Pad(n, 2))
  {
    hide Pad, ValidDate;
    PowersOfTen();
    DateBounds(c.year, c.month, c.day);
    PadReads(c.year, 4);
    forall n | n in {c.month, c.day, c.hour, c.minute, c.second}
      ensures |Pad(n, 2)| == 2 && Value(Pad(n, 2)) == n && AllDigits(Pad(n, 2))
    {
      PadReads(n, 2);
    }
  }

  lemma PrintedMatches(c: Civil, fraction: string)
    requires ValidCivil(c) && |fraction| == 6 && AllDigits(fraction)
    ensures MatchStamp(Printed(c, fraction)) == Some(Stamp(c, fraction, Utc))
  {
    hide Pad, ValidCivil, Value, AllDigits;
    var s := Printed(c, fraction);
    FieldsPadded(c);
    PrintedParts(Pad(c.year, 4), Pad(c.month, 2), Pad(c.day, 2), Pad(c.hour, 2), Pad(c.minute, 2), Pad(c.second, 2), fraction);
    DigitsRun(s, 0, 4);
    DigitsRun(s, 5, 2);
    DigitsRun(s, 8, 2);
    DigitsRun(s, 11, 2);
    DigitsRun(s, 14, 2);
    DigitsRun(s, 17, 2);
    DigitsRun(s, 20, 6);
  }

  /** So canonicalising a canonical timestamp changes nothing. */
  lemma TimestampFixedPoint(instant: int, text: string, config: Config)
    requires IsText(instant, text) && config.epochUnit.None?
    ensures Instant(text, config) == Some(instant)
    ensures forall again | IsText(instant, again) :: again == text
  {
    hide Printed, MatchStamp, ValidCivil, Seconds, Value;
    var c, fraction :| TextOf(instant, text, c, fraction);
    PrintedMatches(c, fraction);
    assert Pow(10, 0) == 1;
    assert FractionMicros(fraction) == Value(fraction);
    forall again | IsText(instant, again)
      ensures again == text
    {
      TextsAreInstants(instant, again, instant, text);
    }
  }
}
