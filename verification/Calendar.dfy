/** Civil times and the seconds since 1970, both ways. */
module Calendar {
  import opened Wrappers
  import opened Chars
  import opened Arithmetic

  datatype Civil = Civil(year: nat, month: nat, day: nat, hour: nat, minute: nat, second: nat)

  const FIRST_SECOND: int := -62135596800
  const LAST_SECOND: int := 253402300799
  const EPOCH_DAY: nat := 719162

  predicate Leap(y: nat) {
    y % 4 == 0 && (y % 100 != 0 || y % 400 == 0)
  }

  function Lengths(y: nat): (r: seq<nat>)
    ensures |r| == 12 && forall m | 0 <= m < 12 :: 28 <= r[m] <= 31
  {
    [31, if Leap(y) then 29 else 28, 31, 30, 31, 30, 31, 31, 30, 31, 30, 31]
  }

  function BeforeYear(y: nat): nat
    requires y >= 1
  {
    365 * (y - 1) + (y - 1) / 4 - (y - 1) / 100 + (y - 1) / 400
  }

  predicate ValidDate(year: nat, month: nat, day: nat) {
    1 <= year <= 9999 && 1 <= month <= 12 && 1 <= day <= Lengths(year)[month - 1]
  }

  predicate ValidCivil(c: Civil) {
    ValidDate(c.year, c.month, c.day) && c.hour < 24 && c.minute < 60 && c.second < 60
  }

  function Sum(s: seq<nat>): nat {
    if s == [] then 0 else Sum(s[..|s| - 1]) + s[|s| - 1]
  }

  function BeforeMonth(year: nat, month: nat): nat
    requires 1 <= month <= 13
  {
    Sum(Lengths(year)[..month - 1])
  }

  function DayNumber(year: nat, month: nat, day: nat): nat
    requires 1 <= year && 1 <= month <= 13 && 1 <= day
  {
    BeforeYear(year) + BeforeMonth(year, month) + day - 1
  }

  function TimeOfDay(c: Civil): nat {
    c.hour * 3600 + c.minute * 60 + c.second
  }

  function Seconds(c: Civil): int
    requires ValidCivil(c)
  {
    (DayNumber(c.year, c.month, c.day) - EPOCH_DAY) * 86400 + TimeOfDay(c)
  }

  // ----- The calendar as a clock that ticks -----

  /** The next day by the rules of the calendar. */
  function NextDay(c: Civil): Civil {
    if c.day < Lengths(c.year)[if 1 <= c.month <= 12 then c.month - 1 else 0] then c.(day := c.day + 1)
    else if c.month < 12 then c.(month := c.month + 1, day := 1)
    else c.(year := c.year + 1, month := 1, day := 1)
  }

  function Tick(c: Civil): Civil {
    if c.second < 59 then c.(second := c.second + 1)
    else if c.minute < 59 then c.(minute := c.minute + 1, second := 0)
    else if c.hour < 23 then c.(hour := c.hour + 1, minute := 0, second := 0)
    else NextDay(c.(hour := 0, minute := 0, second := 0))
  }

  lemma BeforeMonthStep(year: nat, month: nat)
    requires 1 <= month <= 12
    ensures BeforeMonth(year, month + 1) == BeforeMonth(year, month) + Lengths(year)[month - 1]
  {
    assert Lengths(year)[..month][..month - 1] == Lengths(year)[..month - 1];
  }

  lemma YearLength(year: nat)
    ensures BeforeMonth(year, 1) == 0
    ensures BeforeMonth(year, 13) == if Leap(year) then 366 else 365
  {
    var month := 1;
    while month < 13
      invariant 1 <= month <= 13
      invariant BeforeMonth(year, month) == [0, 31, 59, 90, 120, 151, 181, 212, 243, 273, 304, 334, 365][month - 1]
        + if month > 2 && Leap(year) then 1 else 0
    {
      BeforeMonthStep(year, month);
      month := month + 1;
    }
  }

  lemma FloorStep(y: nat, k: nat)
    requires y >= 1 && k >= 1
    ensures y / k == (y - 1) / k + if y % k == 0 then 1 else 0
  {
    var q, r := (y - 1) / k, (y - 1) % k;
    assert y - 1 == q * k + r;
    if r + 1 == k {
      assert y == (q + 1) * k;
      Residue(y, k, q + 1, 0);
    } else {
      Residue(y, k, q, r + 1);
    }
  }

  /** Year lengths telescope. */
  lemma BeforeYearStep(year: nat)
    requires year >= 1
    ensures BeforeYear(year + 1) == BeforeYear(year) + BeforeMonth(year, 13)
  {
    FloorStep(year, 4);
    FloorStep(year, 100);
    FloorStep(year, 400);
    YearLength(year);
    assert year % 400 == 0 ==> year % 100 == 0;
    assert year % 100 == 0 ==> year % 4 == 0;
  }

  lemma NextDayIsNext(c: Civil)
    requires ValidCivil(c) && !(c.year == 9999 && c.month == 12 && c.day == 31)
    ensures var n := NextDay(c);
      && ValidCivil(n) && TimeOfDay(n) == TimeOfDay(c)
      && DayNumber(n.year, n.month, n.day) == DayNumber(c.year, c.month, c.day) + 1
  {
    hide BeforeYear, BeforeMonth, Leap;
    if c.day == Lengths(c.year)[c.month - 1] {
      if c.month < 12 {
        BeforeMonthStep(c.year, c.month);
      } else {
        BeforeMonthStep(c.year, 12);
        BeforeYearStep(c.year);
        YearLength(c.year + 1);
      }
    }
  }

  /** A tick of the clock is one second. */
  lemma TickIsOneSecond(c: Civil)
    requires ValidCivil(c) && c != Civil(9999, 12, 31, 23, 59, 59)
    ensures ValidCivil(Tick(c)) && Seconds(Tick(c)) == Seconds(c) + 1
  {
    hide DayNumber, NextDay, ValidDate;
    if c.second == 59 && c.minute == 59 && c.hour == 23 {
      NextDayIsNext(c.(hour := 0, minute := 0, second := 0));
    }
  }

  /** The day that is subtracted is the first of 1970. */
  lemma EpochDay()
    ensures ValidDate(1970, 1, 1) && DayNumber(1970, 1, 1) == EPOCH_DAY
  {
    hide Leap;
    assert Sum([]) == 0;
  }

  // ----- Injectivity -----

  lemma {:induction false} BeforeYearMonotone(a: nat, b: nat)
    requires 1 <= a <= b
    ensures BeforeYear(a) + 365 * (b - a) <= BeforeYear(b)
    decreases b - a
  {
    if a < b {
      BeforeYearMonotone(a, b - 1);
      BeforeYearStep(b - 1);
      YearLength(b - 1);
    }
  }

  lemma {:induction false} BeforeMonthMonotone(year: nat, a: nat, b: nat)
    requires 1 <= a <= b <= 13
    ensures BeforeMonth(year, a) + 28 * (b - a) <= BeforeMonth(year, b)
    ensures a < b ==> BeforeMonth(year, a) + Lengths(year)[a - 1] <= BeforeMonth(year, b)
    decreases b - a
  {
    if a < b {
      BeforeMonthMonotone(year, a, b - 1);
      BeforeMonthStep(year, b - 1);
    }
  }

  lemma DayInYear(year: nat, month: nat, day: nat)
    requires ValidDate(year, month, day)
    ensures BeforeYear(year) <= DayNumber(year, month, day) < BeforeYear(year + 1)
  {
    BeforeMonthMonotone(year, month, 13);
    BeforeYearStep(year);
  }

  lemma DayNumberInjective(y: nat, m: nat, d: nat, y': nat, m': nat, d': nat)
    requires ValidDate(y, m, d) && ValidDate(y', m', d') && DayNumber(y, m, d) == DayNumber(y', m', d')
    ensures y == y' && m == m' && d == d'
  {
    hide BeforeYear, BeforeMonth;
    DayInYear(y, m, d);
    DayInYear(y', m', d');
    if y < y' {
      BeforeYearMonotone(y + 1, y');
    } else if y' < y {
      BeforeYearMonotone(y' + 1, y);
    } else if m < m' {
      BeforeMonthMonotone(y, m, m');
    } else if m' < m {
      BeforeMonthMonotone(y, m', m);
    }
  }

  /** Different civil times are different seconds, all of them in the range. */
  lemma SecondsInjective(a: Civil, b: Civil)
    requires ValidCivil(a) && ValidCivil(b) && Seconds(a) == Seconds(b)
    ensures a == b
  {
    SplitDay(DayNumber(a.year, a.month, a.day), TimeOfDay(a), DayNumber(b.year, b.month, b.day), TimeOfDay(b));
    DayNumberInjective(a.year, a.month, a.day, b.year, b.month, b.day);
  }

  lemma SplitDay(d: nat, t: nat, d': nat, t': nat)
    requires d * 86400 + t == d' * 86400 + t' && t < 86400 && t' < 86400
    ensures d == d' && t == t'
  {
  }

  lemma SecondsRange(c: Civil)
    requires ValidCivil(c)
    ensures FIRST_SECOND <= Seconds(c) <= LAST_SECOND
  {
    DayInYear(c.year, c.month, c.day);
    BeforeYearMonotone(1, c.year);
    BeforeYearMonotone(c.year + 1, 10000);
  }

  // ----- Printing -----

  function DigitChar(d: nat): char
    requires d < 10
  {
    '0' + d as char
  }

  /** `String(value)` for a natural number. */
  function Decimal(n: nat): (s: string)
    ensures s != "" && forall i | 0 <= i < |s| :: IsDigit(s[i])
  {
    if n < 10 then [DigitChar(n)] else Decimal(n / 10) + [DigitChar(n % 10)]
  }

  function PadStart(s: string, width: nat): string {
    if |s| >= width then s else Zeros(width - |s|) + s
  }

  function Zeros(n: nat): (s: string)
    ensures |s| == n && forall i | 0 <= i < n :: s[i] == '0'
  {
    seq(n, i => '0')
  }

  function Pad(n: nat, width: nat): string {
    PadStart(Decimal(n), width)
  }

  /** What `digits` computes. */
  function Value(s: string): int {
    if s == "" then 0 else Value(s[..|s| - 1]) * 10 + (s[|s| - 1] as int - 48)
  }

  method Digits(text: string) returns (value: int)
    ensures value == Value(text)
  {
    value := 0;
    for i := 0 to |text|
      invariant value == Value(text[..i])
    {
      assert text[..i + 1][..i] == text[..i];
      value := value * 10 + text[i] as int - 48;
    }
    assert text[..|text|] == text;
  }

  lemma {:induction false} DecimalValue(n: nat)
    ensures Value(Decimal(n)) == n
  {
    if n >= 10 {
      DecimalValue(n / 10);
      var s := Decimal(n);
      assert s[..|s| - 1] == Decimal(n / 10);
    }
  }

  lemma {:induction false} DecimalLength(n: nat, width: nat)
    requires width >= 1 && n < Pow(10, width)
    ensures |Decimal(n)| <= width
    decreases width
  {
    if n >= 10 {
      assert Pow(10, 1) == 10 * Pow(10, 0);
      assert n / 10 < Pow(10, width - 1);
      DecimalLength(n / 10, width - 1);
    }
  }

  lemma {:induction false} ZerosValue(n: nat, s: string)
    ensures Value(Zeros(n) + s) == Value(s)
    decreases n + |s|
  {
    var t := Zeros(n) + s;
    if s != "" {
      assert t[..|t| - 1] == Zeros(n) + s[..|s| - 1];
      ZerosValue(n, s[..|s| - 1]);
    } else if n > 0 {
      assert t[..|t| - 1] == Zeros(n - 1) + s;
      ZerosValue(n - 1, s);
    }
  }

  lemma PadReads(n: nat, width: nat)
    requires width >= 1 && n < Pow(10, width)
    ensures |Pad(n, width)| == width && Value(Pad(n, width)) == n
    ensures forall i | 0 <= i < width :: IsDigit(Pad(n, width)[i])
  {
    DecimalLength(n, width);
    DecimalValue(n);
    if |Decimal(n)| < width {
      ZerosValue(width - |Decimal(n)|, Decimal(n));
    }
  }

  /** The time of section 5.6 of RFC 3339, in UTC. */
  function Printed(c: Civil, fraction: string): string {
    Pad(c.year, 4) + "-" + Pad(c.month, 2) + "-" + Pad(c.day, 2) + "T"
    + Pad(c.hour, 2) + ":" + Pad(c.minute, 2) + ":" + Pad(c.second, 2) + "." + fraction + "Z"
  }

  lemma PowersOfTen()
    ensures Pow(10, 0) == 1 && Pow(10, 1) == 10 && Pow(10, 2) == 100 && Pow(10, 3) == 1000 && Pow(10, 4) == 10000
  {
    assert Pow(10, 1) == 10 * Pow(10, 0) && Pow(10, 2) == 10 * Pow(10, 1) && Pow(10, 3) == 10 * Pow(10, 2) && Pow(10, 4) == 10 * Pow(10, 3);
  }

  /** The fields stand at fixed places of the text and read back. */
  lemma PrintedReads(c: Civil, fraction: string)
    requires ValidCivil(c)
    ensures var s := Printed(c, fraction);
      && |s| == 21 + |fraction|
      && Value(s[..4]) == c.year && Value(s[5..7]) == c.month && Value(s[8..10]) == c.day
      && Value(s[11..13]) == c.hour && Value(s[14..16]) == c.minute && Value(s[17..19]) == c.second
      && s[20..|s| - 1] == fraction
  {
    hide Pad, ValidDate;
    PowersOfTen();
    assert c.year < 10000 && c.month < 100 && c.day < 100 by {
      DateBounds(c.year, c.month, c.day);
    }
    PadReads(c.year, 4);
    PadReads(c.month, 2);
    PadReads(c.day, 2);
    PadReads(c.hour, 2);
    PadReads(c.minute, 2);
    PadReads(c.second, 2);
    PrintedPlaces(Pad(c.year, 4), Pad(c.month, 2), Pad(c.day, 2), Pad(c.hour, 2), Pad(c.minute, 2), Pad(c.second, 2), fraction);
  }

  lemma DateBounds(year: nat, month: nat, day: nat)
    requires ValidDate(year, month, day)
    ensures year < 10000 && month < 100 && day < 100
  {
  }

  lemma PrintedPlaces(y: string, m: string, d: string, h: string, i: string, s: string, fraction: string)
    requires |y| == 4 && |m| == |d| == |h| == |i| == |s| == 2
    ensures var t := y + "-" + m + "-" + d + "T" + h + ":" + i + ":" + s + "." + fraction + "Z";
      && |t| == 21 + |fraction| && t[..4] == y && t[5..7] == m && t[8..10] == d
      && t[11..13] == h && t[14..16] == i && t[17..19] == s && t[20..|t| - 1] == fraction
  {
  }

  /** The text determines the time. */
  lemma PrintedInjective(a: Civil, f: string, b: Civil, g: string)
    requires ValidCivil(a) && ValidCivil(b) && Printed(a, f) == Printed(b, g)
    ensures a == b && f == g
  {
    hide Printed, ValidCivil;
    PrintedReads(a, f);
    PrintedReads(b, g);
  }

  // ----- formatSeconds -----

  /** The remainder of ECMAScript, which takes the sign of the dividend. */
  function Remainder(a: int, b: nat): int
    requires b > 0
  {
    if a >= 0 then a % b else -((-a) % b)
  }

  lemma TimeWithinDay(value: int)
    ensures (Remainder(value, 86400) + 86400) % 86400 == value - value / 86400 * 86400
  {
  }

  /** The binary search for the year. */
  method YearOf(day: nat) returns (low: nat)
    requires day < BeforeYear(10000)
    ensures 1 <= low <= 9999 && BeforeYear(low) <= day < BeforeYear(low + 1)
  {
    low := 1;
    var high: nat := 10000;
    while low + 1 < high
      invariant 1 <= low < high <= 10000
      invariant BeforeYear(low) <= day < BeforeYear(high)
      decreases high - low
    {
      var mid := (low + high) / 2;
      if BeforeYear(mid) <= day {
        low := mid;
      } else {
        high := mid;
      }
    }
  }

  /** The walk over the months. */
  method MonthOf(year: nat, dayOfYear: nat) returns (month: nat, remainder: nat)
    requires dayOfYear < BeforeMonth(year, 13)
    ensures 1 <= month <= 12 && remainder < Lengths(year)[month - 1]
    ensures dayOfYear == BeforeMonth(year, month) + remainder
  {
    month, remainder := 1, dayOfYear;
    var lengths := Lengths(year);
    YearLength(year);
    while month <= 12
      invariant 1 <= month <= 13
      invariant dayOfYear == BeforeMonth(year, month) + remainder
      decreases 13 - month
    {
      if remainder < lengths[month - 1] {
        return;
      }
      BeforeMonthStep(year, month);
      remainder := remainder - lengths[month - 1];
      month := month + 1;
    }
  }

  lemma DayInRange(value: int, c: Civil)
    requires ValidCivil(c) && Seconds(c) == value
    ensures 0 <= value / 86400 + EPOCH_DAY < BeforeYear(10000)
  {
    DayInYear(c.year, c.month, c.day);
    BeforeYearMonotone(c.year + 1, 10000);
  }

  lemma OutOfRange(day: int, value: int)
    requires day == value / 86400 + EPOCH_DAY && (day < 0 || day >= BeforeYear(10000))
    ensures !(FIRST_SECOND <= value <= LAST_SECOND)
  {
  }

  lemma WithinRange(value: int)
    requires 0 <= value / 86400 + EPOCH_DAY < BeforeYear(10000)
    ensures FIRST_SECOND <= value <= LAST_SECOND
  {
  }

  /** The fields that are printed. */
  lemma FieldsOf(value: int, year: nat, month: nat, remainder: nat, time: nat, c: Civil)
    requires 1 <= year <= 9999 && 1 <= month <= 12 && remainder < Lengths(year)[month - 1]
    requires value / 86400 + EPOCH_DAY == BeforeYear(year) + BeforeMonth(year, month) + remainder
    requires time == value - value / 86400 * 86400
    requires c == Civil(year, month, remainder + 1, time / 3600, time % 3600 / 60, time % 60)
    ensures ValidCivil(c) && Seconds(c) == value
  {
    hide BeforeYear, BeforeMonth, Lengths;
    assert TimeOfDay(c) == time;
  }

  lemma OnlyCivil(c: Civil)
    requires ValidCivil(c)
    ensures forall d | ValidCivil(d) && Seconds(d) == Seconds(c) :: d == c
  {
    hide ValidCivil, Seconds;
    forall d | ValidCivil(d) && Seconds(d) == Seconds(c)
      ensures d == c
    {
      SecondsInjective(c, d);
    }
  }

  method FormatSeconds(value: int, fraction: string) returns (r: Option<string>)
    ensures r.Some? <==> FIRST_SECOND <= value <= LAST_SECOND
    ensures r.Some? ==> exists c :: ValidCivil(c) && Seconds(c) == value && r.value == Printed(c, fraction)
    ensures forall c | ValidCivil(c) && Seconds(c) == value :: r == Some(Printed(c, fraction))
  {
    hide Printed, ValidCivil, Seconds, BeforeYear, BeforeMonth, Lengths, TimeOfDay;
    var day := value / 86400 + EPOCH_DAY;
    if day < 0 || day >= BeforeYear(10000) {
      OutOfRange(day, value);
      forall c | ValidCivil(c)
        ensures Seconds(c) != value
      {
        if Seconds(c) == value {
          DayInRange(value, c);
        }
      }
      return None;
    }
    WithinRange(value);
    var low := YearOf(day);
    BeforeYearStep(low);
    var month, remainder := MonthOf(low, day - BeforeYear(low));
    TimeWithinDay(value);
    var time := (Remainder(value, 86400) + 86400) % 86400;
    var c := Civil(low, month, remainder + 1, time / 3600, time % 3600 / 60, time % 60);
    FieldsOf(value, low, month, remainder, time, c);
    OnlyCivil(c);
    return Some(Printed(c, fraction));
  }
}
