/** The `number` mode of canonicalisation: one text for every rational. */
module Numbers {
  import opened Wrappers
  import opened Chars
  import opened Calendar
  import opened Arithmetic

  datatype Number = Number(negative: bool, integer: string, fraction: string)

  predicate AllDigits(s: string) {
    forall i | 0 <= i < |s| :: IsDigit(s[i])
  }

  predicate NoLeadingZero(s: string) {
    s != "" && (s[0] == '0' ==> |s| == 1)
  }

  /** What the regular expression `-?(0|[1-9][0-9]*)(\.[0-9]+)?` matches, in parts. */
  ghost predicate Accepted(n: Number) {
    AllDigits(n.integer) && NoLeadingZero(n.integer) && AllDigits(n.fraction)
  }

  function Text(n: Number): string {
    (if n.negative then "-" else "") + n.integer + if n.fraction == "" then "" else "." + n.fraction
  }

  /** The regular expression. */
  function Match(s: string): Option<Number> {
    var start := if s != "" && s[0] == '-' then 1 else 0;
    var end := DigitsEnd(s, start);
    if !NoLeadingZero(s[start..end]) then None
    else if end == |s| then Some(Number(start == 1, s[start..], ""))
    else if s[end] == '.' && end + 1 < |s| && DigitsEnd(s, end + 1) == |s| then Some(Number(start == 1, s[start..end], s[end + 1..]))
    else None
  }

  /** It matches exactly the texts of accepted numbers. */
  lemma MatchSound(s: string)
    requires Match(s).Some?
    ensures Accepted(Match(s).value) && Text(Match(s).value) == s
  {
    hide Text, NoLeadingZero, AllDigits;
    var start := if s != "" && s[0] == '-' then 1 else 0;
    var end := DigitsEnd(s, start);
    DigitsBetween(s, start, end);
    if end == |s| {
      assert s[start..end] == s[start..];
      WholeText(s, start);
    } else {
      DigitsBetween(s, end + 1, |s|);
      assert s[end + 1..|s|] == s[end + 1..];
      PointText(s, start, end);
    }
  }

  lemma DigitsBetween(s: string, i: nat, e: nat)
    requires i <= e <= |s| && forall k | i <= k < e :: IsDigit(s[k])
    ensures AllDigits(s[i..e]) && AllDigits("")
  {
  }

  lemma WholeText(s: string, start: nat)
    requires start <= |s| && start == if s != "" && s[0] == '-' then 1 else 0
    ensures Text(Number(start == 1, s[start..], "")) == s
  {
    SplitSign(s, start);
    TextAs(Number(start == 1, s[start..], ""), if start == 1 then "-" else "", "");
    assert s[start..] + "" == s[start..];
  }

  lemma PointText(s: string, start: nat, end: nat)
    requires start <= end < |s| - 1 && start == (if s != "" && s[0] == '-' then 1 else 0) && s[end] == '.'
    ensures Text(Number(start == 1, s[start..end], s[end + 1..])) == s
  {
    SplitSign(s, start);
    assert s[end..] == "." + s[end + 1..];
    assert s[start..] == s[start..end] + s[end..];
    TextAs(Number(start == 1, s[start..end], s[end + 1..]), if start == 1 then "-" else "", "." + s[end + 1..]);
  }

  lemma TextAs(n: Number, sign: string, rest: string)
    requires sign == if n.negative then "-" else ""
    requires rest == if n.fraction == "" then "" else "." + n.fraction
    ensures Text(n) == sign + (n.integer + rest)
  {
    assert (sign + n.integer) + rest == sign + (n.integer + rest);
  }

  lemma SplitSign(s: string, start: nat)
    requires start == if s != "" && s[0] == '-' then 1 else 0
    ensures s == (if start == 1 then "-" else "") + s[start..]
  {
  }

  lemma {:induction false} DigitsEndAt(s: string, i: nat, e: nat)
    requires i <= e <= |s| && (forall k | i <= k < e :: IsDigit(s[k])) && (e < |s| ==> !IsDigit(s[e]))
    ensures DigitsEnd(s, i) == e
    decreases e - i
  {
    if i < e {
      DigitsEndAt(s, i + 1, e);
    }
  }

  lemma MatchComplete(n: Number)
    requires Accepted(n)
    ensures Match(Text(n)) == Some(n)
  {
    var s := Text(n);
    var start := if n.negative then 1 else 0;
    var end := start + |n.integer|;
    assert s[start..end] == n.integer;
    forall k | start <= k < end
      ensures IsDigit(s[k])
    {
      assert s[k] == n.integer[k - start];
    }
    assert n.negative <==> s[0] == '-' by {
      assert !n.negative ==> s[0] == n.integer[0];
    }
    DigitsEndAt(s, start, end);
    if n.fraction == "" {
      assert s[start..] == n.integer;
    } else {
      assert s[end] == '.' && s[end + 1..] == n.fraction;
      forall k | end + 1 <= k < |s|
        ensures IsDigit(s[k])
      {
        assert s[k] == n.fraction[k - end - 1];
      }
      DigitsEndAt(s, end + 1, |s|);
    }
  }

  // ----- The canonical form -----

  /** `fraction.replace(/0+$/, '')`. */
  function Significant(s: string): (r: string)
    ensures |r| <= |s| && r == s[..|r|]
  {
    if s != "" && s[|s| - 1] == '0' then Significant(s[..|s| - 1]) else s
  }

  function Canonical(n: Number): Number {
    var fraction := Significant(n.fraction);
    Number(n.negative && !(n.integer == "0" && fraction == ""), n.integer, fraction)
  }

  /** The `number` mode. */
  function CanonicalNumber(value: string): Option<string> {
    var n :- Match(value);
    var fraction := Significant(n.fraction);
    var result := n.integer + if fraction != "" then "." + fraction else "";
    Some(if result == "0" then "0" else (if n.negative then "-" else "") + result)
  }

  lemma CanonicalNumberText(n: Number)
    requires Accepted(n)
    ensures CanonicalNumber(Text(n)) == Some(Text(Canonical(n))) && Accepted(Canonical(n))
  {
    hide Match, Text;
    MatchComplete(n);
    var fraction := Significant(n.fraction);
    ZeroText(n.integer, fraction);
    TextParts(Canonical(n));
  }

  lemma ZeroText(integer: string, fraction: string)
    requires integer != ""
    ensures integer + (if fraction != "" then "." + fraction else "") == "0" <==> integer == "0" && fraction == ""
  {
    if fraction == "" {
      assert integer + "" == integer;
    } else {
      assert |integer + ("." + fraction)| >= 3;
    }
  }

  lemma TextParts(n: Number)
    ensures Text(n) == (if n.negative then "-" else "") + (n.integer + if n.fraction != "" then "." + n.fraction else "")
    ensures n == Number(false, "0", "") ==> Text(n) == "0"
  {
    var sign, rest := if n.negative then "-" else "", if n.fraction != "" then "." + n.fraction else "";
    assert (sign + n.integer) + rest == sign + (n.integer + rest);
  }

  // ----- The rational a number denotes -----

  /** Its digits read as one integer, to be divided by ten to the number of fraction digits. */
  function Scaled(n: Number): int {
    (if n.negative then -1 else 1) * Value(n.integer + n.fraction)
  }

  function Scale(n: Number): (r: nat)
    ensures r >= 1
  {
    Pow(10, |n.fraction|)
  }

  /** Equal as fractions. */
  predicate SameRational(a: Number, b: Number) {
    Scaled(a) * Scale(b) == Scaled(b) * Scale(a)
  }

  lemma SameRationalTransitive(a: Number, b: Number, c: Number)
    requires SameRational(a, b) && SameRational(b, c)
    ensures SameRational(a, c)
  {
    hide Scaled, Scale;
    CrossTransitive(Scaled(a), Scale(a), Scaled(b), Scale(b), Scaled(c), Scale(c));
  }

  lemma CrossTransitive(x: int, p: nat, y: int, q: nat, z: int, r: nat)
    requires x * q == y * p && y * r == z * q && q > 0
    ensures x * r == z * p
  {
    calc {
      (x * r) * q;
      (x * q) * r;
      (y * p) * r;
      (y * r) * p;
      (z * q) * p;
      (z * p) * q;
    }
    Cancel(x * r, z * p, q);
  }

  lemma {:induction false} ValueConcat(a: string, b: string)
    ensures Value(a + b) == Value(a) * Pow(10, |b|) + Value(b)
    decreases |b|
  {
    if b == "" {
      assert a + b == a;
    } else {
      var front := b[..|b| - 1];
      assert (a + b)[..|a + b| - 1] == a + front;
      ValueConcat(a, front);
      Distribute(Value(a), Pow(10, |front|), Value(front));
    }
  }

  lemma Distribute(a: int, p: int, v: int)
    ensures (a * p + v) * 10 == a * (10 * p) + v * 10
  {
  }

  lemma {:induction false} ValueBound(s: string)
    requires AllDigits(s)
    ensures 0 <= Value(s) < Pow(10, |s|)
  {
    if s != "" {
      ValueBound(s[..|s| - 1]);
    }
  }

  lemma {:induction false} ValueInjective(a: string, b: string)
    requires AllDigits(a) && AllDigits(b) && |a| == |b| && Value(a) == Value(b)
    ensures a == b
  {
    if a != "" {
      var x, y := a[..|a| - 1], b[..|b| - 1];
      ValueBound(x);
      ValueBound(y);
      assert Value(x) == Value(y) && a[|a| - 1] == b[|b| - 1];
      ValueInjective(x, y);
      assert a == x + [a[|a| - 1]] && b == y + [b[|b| - 1]];
    }
  }

  lemma LeadingDigit(s: string)
    requires AllDigits(s) && s != "" && s[0] != '0'
    ensures Value(s) >= Pow(10, |s| - 1)
  {
    hide Value, Pow;
    assert s == [s[0]] + s[1..];
    assert IsDigit(s[0]);
    ValueConcat([s[0]], s[1..]);
    ValueBound(s[1..]);
    OneDigit(s[0]);
    AtLeast(Value([s[0]]), Pow(10, |s| - 1));
  }

  lemma OneDigit(c: char)
    requires IsDigit(c)
    ensures Value([c]) == c as int - 48
  {
    assert [c][..0] == "";
  }

  /** A number without leading zeros is determined by its value. */
  lemma IntegerInjective(a: string, b: string)
    requires AllDigits(a) && AllDigits(b) && NoLeadingZero(a) && NoLeadingZero(b) && Value(a) == Value(b)
    ensures a == b
  {
    NotShorter(a, b);
    NotShorter(b, a);
    ValueInjective(a, b);
  }

  lemma NotShorter(a: string, b: string)
    requires AllDigits(a) && AllDigits(b) && NoLeadingZero(a) && NoLeadingZero(b) && Value(a) == Value(b)
    ensures |b| <= |a|
  {
    ValueBound(a);
    if |b| > 1 {
      LeadingDigit(b);
      if |b| > |a| {
        PowMonotone(10, |a|, |b| - 1);
      }
    }
  }

  // ----- Canonical form and denotation -----

  lemma {:induction false} SignificantValue(integer: string, s: string)
    ensures Value(integer + s) * Pow(10, |Significant(s)|) == Value(integer + Significant(s)) * Pow(10, |s|)
    decreases |s|
  {
    if s != "" && s[|s| - 1] == '0' {
      var front, r := s[..|s| - 1], Significant(s);
      SignificantValue(integer, front);
      assert (integer + s)[..|integer + s| - 1] == integer + front;
      TimesTen(Value(integer + front), Pow(10, |r|), Value(integer + r), Pow(10, |front|));
    }
  }

  lemma TimesTen(v: int, p: int, w: int, q: int)
    requires v * p == w * q
    ensures (v * 10) * p == w * (10 * q)
  {
    assert (v * 10) * p == 10 * (v * p);
    assert w * (10 * q) == 10 * (w * q);
  }

  /** The canonical form denotes the same rational. */
  lemma CanonicalSameRational(n: Number)
    requires Accepted(n)
    ensures SameRational(n, Canonical(n))
  {
    hide Value, Significant, Pow;
    SignificantValue(n.integer, n.fraction);
    if n.integer == "0" && Significant(n.fraction) == "" {
      ZeroValue(n);
    }
  }

  lemma ZeroValue(n: Number)
    requires n.integer == "0" && Significant(n.fraction) == ""
    ensures Value(n.integer + n.fraction) == 0 && Value(n.integer + Significant(n.fraction)) == 0
  {
    SignificantValue(n.integer, n.fraction);
    OneDigit('0');
    assert n.integer + "" == "0";
    var v := Value(n.integer + n.fraction);
    assert v * Pow(10, 0) == Value("0") * Pow(10, |n.fraction|);
    assert v * 1 == v;
  }

  ghost predicate IsCanonical(n: Number) {
    && Accepted(n)
    && (n.fraction != "" ==> n.fraction[|n.fraction| - 1] != '0')
    && !(n.negative && n.integer == "0" && n.fraction == "")
  }

  lemma {:induction false} SignificantEnds(s: string)
    ensures var r := Significant(s); (r != "" ==> r[|r| - 1] != '0') && Significant(r) == r
  {
    if s != "" && s[|s| - 1] == '0' {
      SignificantEnds(s[..|s| - 1]);
    }
  }

  lemma CanonicalIsCanonical(n: Number)
    requires Accepted(n)
    ensures IsCanonical(Canonical(n)) && Canonical(Canonical(n)) == Canonical(n)
  {
    SignificantEnds(n.fraction);
  }

  lemma LastDigit(n: Number)
    requires IsCanonical(n) && n.fraction != ""
    ensures Value(n.integer + n.fraction) % 10 != 0 && Value(n.integer + n.fraction) > 0
  {
    var s := n.integer + n.fraction;
    assert s[|s| - 1] == n.fraction[|n.fraction| - 1];
    assert AllDigits(s);
    ValueBound(s[..|s| - 1]);
  }

  lemma SignedMultiple(v: nat, negative: bool, a: int)
    requires (if negative then -1 else 1) * v == 10 * a
    ensures v % 10 == 0
  {
    assert v == 10 * (if negative then -a else a);
  }

  lemma SameScale(a: Number, b: Number)
    requires IsCanonical(a) && IsCanonical(b) && SameRational(a, b)
    ensures |b.fraction| <= |a.fraction|
  {
    var i, j := |a.fraction|, |b.fraction|;
    if i < j {
      PowSum(10, j - i, i);
        var more := Pow(10, j - i - 1);
      assert Pow(10, j - i) == 10 * more;
      var x, p := Scaled(a), Pow(10, i);
      assert x * ((10 * more) * p) == (10 * (x * more)) * p by {
        Regroup(x, more, p);
      }
      Cancel(10 * (x * more), Scaled(b), p);
      LastDigit(b);
      SignedMultiple(Value(b.integer + b.fraction), b.negative, x * more);
    }
  }

  lemma Regroup(x: int, m: int, p: int)
    ensures x * ((10 * m) * p) == (10 * (x * m)) * p
  {
    assert x * ((10 * m) * p) == (x * (10 * m)) * p;
    assert x * (10 * m) == 10 * (x * m);
  }

  lemma ZeroIsZero(n: Number)
    requires IsCanonical(n) && Value(n.integer + n.fraction) == 0
    ensures n == Number(false, "0", "")
  {
    if n.fraction != "" {
      LastDigit(n);
    } else {
      assert n.integer + n.fraction == n.integer;
      OneDigit('0');
      IntegerInjective(n.integer, "0");
    }
  }

  /** Canonical numbers that denote the same rational are the same. */
  lemma CanonicalUnique(a: Number, b: Number)
    requires IsCanonical(a) && IsCanonical(b) && SameRational(a, b)
    ensures a == b
  {
    SameScale(a, b);
    SameScale(b, a);
    var p := Pow(10, |a.fraction|);
    Cancel(Scaled(a), Scaled(b), p);
    var v, w := Value(a.integer + a.fraction), Value(b.integer + b.fraction);
    assert AllDigits(a.integer + a.fraction) && AllDigits(b.integer + b.fraction);
    ValueBound(a.integer + a.fraction);
    ValueBound(b.integer + b.fraction);
    if v == 0 {
      ZeroIsZero(a);
      ZeroIsZero(b);
    } else {
      assert v == w && a.negative == b.negative;
      ValueConcat(a.integer, a.fraction);
      ValueConcat(b.integer, b.fraction);
      ValueBound(a.fraction);
      ValueBound(b.fraction);
      DivMod(Value(a.integer), Value(a.fraction), Value(b.integer), Value(b.fraction), p);
      IntegerInjective(a.integer, b.integer);
      ValueInjective(a.fraction, b.fraction);
    }
  }

  lemma DivMod(x: int, r: int, y: int, s: int, p: nat)
    requires x * p + r == y * p + s && 0 <= r < p && 0 <= s < p
    ensures x == y && r == s
  {
    var d := x - y;
    assert d * p == s - r;
    assert d >= 1 ==> d * p >= p;
    assert d <= -1 ==> d * p + p <= 0;
  }

  /** Two accepted texts have the same canonical text exactly if they denote the same rational. */
  lemma NumberEquality(a: string, b: string)
    requires Match(a).Some? && Match(b).Some?
    ensures CanonicalNumber(a).Some? && CanonicalNumber(b).Some?
    ensures CanonicalNumber(a) == CanonicalNumber(b) <==> SameRational(Match(a).value, Match(b).value)
  {
    hide CanonicalNumber, Canonical, Text, SameRational, Accepted;
    var x, y := Match(a).value, Match(b).value;
    MatchSound(a);
    MatchSound(b);
    CanonicalNumberText(x);
    CanonicalNumberText(y);
    var cx, cy := Canonical(x), Canonical(y);
    CanonicalSameRational(x);
    CanonicalSameRational(y);
    SameRationalSymmetric(x, cx);
    SameRationalSymmetric(y, cy);
    if Text(cx) == Text(cy) {
      MatchComplete(cx);
      MatchComplete(cy);
      SameRationalTransitive(x, cx, y);
    }
    if SameRational(x, y) {
      SameRationalTransitive(cx, x, y);
      SameRationalTransitive(cx, y, cy);
      CanonicalIsCanonical(x);
      CanonicalIsCanonical(y);
      CanonicalUnique(cx, cy);
    }
  }

  lemma SameRationalSymmetric(a: Number, b: Number)
    ensures SameRational(a, b) <==> SameRational(b, a)
  {
  }

  /** The canonical text is its own canonical text. */
  lemma NumberFixedPoint(value: string)
    requires CanonicalNumber(value).Some?
    ensures CanonicalNumber(CanonicalNumber(value).value) == CanonicalNumber(value)
  {
    hide Canonical, Text, Accepted;
    var n := Match(value).value;
    MatchSound(value);
    CanonicalNumberText(n);
    CanonicalIsCanonical(n);
    CanonicalNumberText(Canonical(n));
  }
}
