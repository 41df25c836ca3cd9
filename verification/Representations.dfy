/** The written forms of a binary value: hexadecimal and the two base64 alphabets of RFC 4648. */
module Representations {
  import opened Wrappers
  import opened Needles
  import opened Arithmetic

  const PAD: Byte := 61

  function HexDigit(n: nat): (r: Byte)
    requires n < 16
    ensures 48 <= r <= 57 || 97 <= r <= 102
  {
    if n < 10 then (48 + n) as Byte else (87 + n) as Byte
  }

  /** `value.hex().encode()` */
  function Hex(v: Bytes): (r: Bytes)
    ensures |r| == 2 * |v| && forall i | 0 <= i < |r| :: 48 <= r[i] <= 57 || 97 <= r[i] <= 102
  {
    if v == [] then [] else [HexDigit(v[0] as nat / 16), HexDigit(v[0] as nat % 16)] + Hex(v[1..])
  }

  /** The digits of sections 4 and 5 of RFC 4648, which differ in the last two. */
  function Digit64(n: nat, url: bool): (r: Byte)
    requires n < 64
    ensures r != PAD
  {
    if n < 26 then (65 + n) as Byte
    else if n < 52 then (71 + n) as Byte
    else if n < 62 then (n - 4) as Byte
    else if n == 62 then (if url then 45 else 43)
    else (if url then 95 else 47)
  }

  /** The value in groups of six bits, the last one filled with zeros. */
  function Sextets(v: Bytes): (r: seq<nat>)
    ensures |r| == (4 * |v| + 2) / 3 && forall i | 0 <= i < |r| :: r[i] < 64
  {
    if v == [] then []
    else
      var a := v[0] as nat;
      if |v| == 1 then [a / 4, a % 4 * 16]
      else
        var b := v[1] as nat;
        if |v| == 2 then [a / 4, a % 4 * 16 + b / 16, b % 16 * 4]
        else
          var c := v[2] as nat;
          [a / 4, a % 4 * 16 + b / 16, b % 16 * 4 + c / 64, c % 64] + Sextets(v[3..])
  }

  function Written(sextets: seq<nat>, url: bool): (r: Bytes)
    requires forall i | 0 <= i < |sextets| :: sextets[i] < 64
    ensures |r| == |sextets| && forall i | 0 <= i < |r| :: r[i] == Digit64(sextets[i], url)
  {
    seq(|sextets|, i requires 0 <= i < |sextets| => Digit64(sextets[i], url))
  }

  function Padding(n: nat): Bytes {
    if n % 3 == 0 then [] else if n % 3 == 1 then [PAD, PAD] else [PAD]
  }

  /** `base64.b64encode` and `base64.urlsafe_b64encode`. */
  function Base64(v: Bytes, url: bool): Bytes {
    Written(Sextets(v), url) + Padding(|v|)
  }

  /** `rstrip(b"=")` */
  function Unpadded(s: Bytes): Bytes {
    if s != [] && s[|s| - 1] == PAD then Unpadded(s[..|s| - 1]) else s
  }

  /** The dictionary of `add_binary`, in its order. */
  function WrittenForms(v: Bytes): seq<(string, Bytes)> {
    [("raw", v), ("hex", Hex(v)), ("base64url", Unpadded(Base64(v, true))), ("base64", Base64(v, false))]
  }

  /** The padding is all that is stripped. */
  lemma UnpaddedWritten(v: Bytes, url: bool)
    ensures Unpadded(Base64(v, url)) == Written(Sextets(v), url)
  {
    var w := Written(Sextets(v), url);
    assert Unpadded(w) == w;
    assert w + [] == w && (w + [PAD])[..|w|] == w && (w + [PAD, PAD])[..|w| + 1] == w + [PAD];
    assert Unpadded(w + [PAD]) == w;
    assert Unpadded(w + [PAD, PAD]) == Unpadded(w + [PAD]);
  }

  /** The sextets determine the value. */
  lemma {:induction false} SextetsInjective(a: Bytes, b: Bytes)
    requires Sextets(a) == Sextets(b)
    ensures a == b
  {
    assert |a| == |b|;
    var s, t := Sextets(a), Sextets(b);
    if |a| >= 3 {
      FirstBytes(a);
      FirstBytes(b);
      assert s[4..] == Sextets(a[3..]) && t[4..] == Sextets(b[3..]);
      SextetsInjective(a[3..], b[3..]);
      assert a == [a[0], a[1], a[2]] + a[3..] && b == [b[0], b[1], b[2]] + b[3..];
    } else if |a| == 2 {
      assert s[0] == a[0] as nat / 4 && s[1] == a[0] as nat % 4 * 16 + a[1] as nat / 16 && s[2] == a[1] as nat % 16 * 4;
      assert t[0] == b[0] as nat / 4 && t[1] == b[0] as nat % 4 * 16 + b[1] as nat / 16 && t[2] == b[1] as nat % 16 * 4;
      assert a == [a[0], a[1]] && b == [b[0], b[1]];
    } else if |a| == 1 {
      assert s[0] == a[0] as nat / 4 && s[1] == a[0] as nat % 4 * 16;
      assert t[0] == b[0] as nat / 4 && t[1] == b[0] as nat % 4 * 16;
      assert a == [a[0]] && b == [b[0]];
    }
  }

  /** Three bytes from four sextets. */
  lemma FirstBytes(v: Bytes)
    requires |v| >= 3
    ensures var s := Sextets(v);
      && v[0] as nat == s[0] * 4 + s[1] / 16 && v[1] as nat == s[1] % 16 * 16 + s[2] / 4 && v[2] as nat == s[2] % 4 * 64 + s[3]
  {
    var s := Sextets(v);
    assert s[0] == v[0] as nat / 4 && s[1] == v[0] as nat % 4 * 16 + v[1] as nat / 16;
    assert s[2] == v[1] as nat % 16 * 4 + v[2] as nat / 64 && s[3] == v[2] as nat % 64;
  }

  lemma {:induction false} HexInjective(a: Bytes, b: Bytes)
    requires Hex(a) == Hex(b)
    ensures a == b
  {
    assert |a| == |b|;
    if a != [] {
      assert Hex(a)[2..] == Hex(a[1..]) && Hex(b)[2..] == Hex(b[1..]);
      HexInjective(a[1..], b[1..]);
      assert Hex(a)[0] == HexDigit(a[0] as nat / 16) && Hex(a)[1] == HexDigit(a[0] as nat % 16);
      HexDigits(a[0] as nat / 16, b[0] as nat / 16);
      HexDigits(a[0] as nat % 16, b[0] as nat % 16);
      assert a == [a[0]] + a[1..] && b == [b[0]] + b[1..];
    }
  }

  lemma HexDigits(m: nat, n: nat)
    requires m < 16 && n < 16 && HexDigit(m) == HexDigit(n)
    ensures m == n
  {
  }

  lemma WrittenInjective(a: seq<nat>, b: seq<nat>, url: bool)
    requires (forall i | 0 <= i < |a| :: a[i] < 64) && (forall i | 0 <= i < |b| :: b[i] < 64)
    requires Written(a, url) == Written(b, url)
    ensures a == b
  {
    assert |a| == |b|;
    forall i | 0 <= i < |a|
      ensures a[i] == b[i]
    {
      assert Written(a, url)[i] == Written(b, url)[i];
      Digits64(a[i], b[i], url);
    }
  }

  lemma Digits64(m: nat, n: nat, url: bool)
    requires m < 64 && n < 64 && Digit64(m, url) == Digit64(n, url)
    ensures m == n
  {
  }

  /** Every form of a value determines it. */
  lemma FormsInjective(a: Bytes, b: Bytes, k: nat)
    requires k < 4 && WrittenForms(a)[k] == WrittenForms(b)[k]
    ensures a == b
  {
    if k == 1 {
      HexInjective(a, b);
    } else if k >= 2 {
      var url := k == 2;
      UnpaddedWritten(a, url);
      UnpaddedWritten(b, url);
      WrittenInjective(Sextets(a), Sextets(b), url);
      SextetsInjective(a, b);
    }
  }

  /** No padding is needed and no digit differs between the alphabets. */
  predicate SameForms(v: Bytes) {
    |v| % 3 == 0 && forall i | 0 <= i < |Sextets(v)| :: Sextets(v)[i] < 62
  }

  /** The two base64 forms are one text exactly then. */
  lemma SameFormsExact(v: Bytes)
    ensures Unpadded(Base64(v, true)) == Base64(v, false) <==> SameForms(v)
  {
    var s := Sextets(v);
    UnpaddedWritten(v, true);
    if SameForms(v) {
      assert Written(s, true) == Written(s, false);
    } else if |v| % 3 == 0 {
      var i :| 0 <= i < |s| && s[i] >= 62;
      assert Written(s, true)[i] != Base64(v, false)[i];
    }
  }

  /** A hexadecimal text is no base64 text of the same value. */
  lemma HexDiffers(v: Bytes)
    requires v != []
    ensures Hex(v) != Base64(v, false) && Hex(v) != Unpadded(Base64(v, true))
  {
    UnpaddedWritten(v, true);
    if |v| == 1 {
      assert Written(Sextets(v), true)[1] == Digit64(v[0] as nat % 4 * 16, true);
    }
    if |v| % 3 != 0 {
      var b := Base64(v, false);
      assert b[|b| - 1] == PAD;
    }
  }

  /** All other forms of a value differ. */
  lemma FormsDiffer(v: Bytes)
    requires v != []
    ensures v != Hex(v) && v != Base64(v, false) && v != Unpadded(Base64(v, true))
    ensures Hex(v) != Base64(v, false) && Hex(v) != Unpadded(Base64(v, true))
  {
    HexDiffers(v);
    UnpaddedWritten(v, true);
  }

  // ----- The forms in other words -----

  /** The value of a character of the alphabets, by its place in them. */
  function Value64(c: char, url: bool): int {
    if 'A' <= c <= 'Z' then c as int - 'A' as int
    else if 'a' <= c <= 'z' then c as int - 'a' as int + 26
    else if '0' <= c <= '9' then c as int - '0' as int + 52
    else if c == (if url then '-' else '+') then 62
    else if c == (if url then '_' else '/') then 63
    else -1
  }

  function Value16(c: char): int {
    if '0' <= c <= '9' then c as int - '0' as int else if 'a' <= c <= 'f' then c as int - 'a' as int + 10 else -1
  }

  lemma DigitOfAlphabet(n: nat, url: bool)
    requires n < 64
    ensures Value64(Digit64(n, url) as char, url) == n
  {
  }

  lemma HexOfAlphabet(n: nat)
    requires n < 16
    ensures Value16(HexDigit(n) as char) == n
  {
  }

  /** Each byte is two hexadecimal digits, the higher one first. */
  lemma {:induction false} HexExact(v: Bytes, i: nat)
    requires i < |v|
    ensures 16 * Value16(Hex(v)[2 * i] as char) + Value16(Hex(v)[2 * i + 1] as char) == v[i] as int
  {
    if i == 0 {
      HexOfAlphabet(v[0] as nat / 16);
      HexOfAlphabet(v[0] as nat % 16);
    } else {
      HexExact(v[1..], i - 1);
      assert Hex(v)[2 * i] == Hex(v[1..])[2 * (i - 1)] && Hex(v)[2 * i + 1] == Hex(v[1..])[2 * (i - 1) + 1];
    }
  }

  /** The bit of a value, the highest one of each byte first; zero behind its end. */
  function Bit(v: Bytes, k: nat): nat {
    if k / 8 < |v| then BitOf(v[k / 8] as nat, k % 8) else 0
  }

  function BitOf(b: nat, k: nat): nat
    requires k < 8
  {
    match k
    case 0 => b / 128 % 2
    case 1 => b / 64 % 2
    case 2 => b / 32 % 2
    case 3 => b / 16 % 2
    case 4 => b / 8 % 2
    case 5 => b / 4 % 2
    case 6 => b / 2 % 2
    case 7 => b % 2
  }

  function SixBits(v: Bytes, k: nat): nat {
    32 * Bit(v, k) + 16 * Bit(v, k + 1) + 8 * Bit(v, k + 2) + 4 * Bit(v, k + 3) + 2 * Bit(v, k + 4) + Bit(v, k + 5)
  }

  /** A sextet is six bits in order. */
  lemma {:induction false} SextetExact(v: Bytes, i: nat)
    requires i < |Sextets(v)|
    ensures Sextets(v)[i] == SixBits(v, 6 * i)
  {
    hide SixBits;
    if i >= 4 {
      SextetExact(v[3..], i - 4);
      assert Sextets(v)[i] == Sextets(v[3..])[i - 4];
      LaterBits(v, 6 * (i - 4));
      assert 6 * i == 6 * (i - 4) + 24;
    } else {
      FirstSextets(v, i);
    }
  }

  lemma LaterBit(v: Bytes, k: nat)
    requires |v| >= 3
    ensures Bit(v, k + 24) == Bit(v[3..], k)
  {
    assert (k + 24) / 8 == k / 8 + 3 && (k + 24) % 8 == k % 8;
  }

  lemma LaterBits(v: Bytes, k: nat)
    requires |v| >= 3
    ensures SixBits(v, k + 24) == SixBits(v[3..], k)
  {
    hide Bit;
    LaterBit(v, k);
    LaterBit(v, k + 1);
    LaterBit(v, k + 2);
    LaterBit(v, k + 3);
    LaterBit(v, k + 4);
    LaterBit(v, k + 5);
  }

  lemma Half(b: nat, k: nat)
    requires k >= 1
    ensures b / (2 * k) == b / k / 2 && b / k == 2 * (b / (2 * k)) + b / k % 2
  {
    var x, r := b / k, b % k;
    Distributes(2 * (x / 2), x % 2, k);
    Associates(x / 2, 2, k);
    assert x % 2 * k <= k by {
      assert x % 2 == 0 || x % 2 == 1;
    }
    Residue(b, 2 * k, x / 2, x % 2 * k + r);
  }

  lemma Halves(b: nat)
    requires b < 256
    ensures b == 2 * (b / 2) + b % 2 && b / 2 == 2 * (b / 4) + b / 2 % 2 && b / 4 == 2 * (b / 8) + b / 4 % 2
    ensures b / 8 == 2 * (b / 16) + b / 8 % 2 && b / 16 == 2 * (b / 32) + b / 16 % 2 && b / 32 == 2 * (b / 64) + b / 32 % 2
    ensures b / 64 == 2 * (b / 128) + b / 64 % 2 && b / 128 == b / 128 % 2
  {
    Half(b, 2);
    Half(b, 4);
    Half(b, 8);
    Half(b, 16);
    Half(b, 32);
    Half(b, 64);
    TopBit(b);
  }

  lemma TopBit(b: nat)
    requires b < 256
    ensures b / 128 == b / 128 % 2
  {
  }

  lemma ByteBits(b: nat)
    requires b < 256
    ensures b / 4 == 32 * BitOf(b, 0) + 16 * BitOf(b, 1) + 8 * BitOf(b, 2) + 4 * BitOf(b, 3) + 2 * BitOf(b, 4) + BitOf(b, 5)
    ensures b / 16 == 8 * BitOf(b, 0) + 4 * BitOf(b, 1) + 2 * BitOf(b, 2) + BitOf(b, 3)
    ensures b / 64 == 2 * BitOf(b, 0) + BitOf(b, 1)
    ensures b % 4 == 2 * BitOf(b, 6) + BitOf(b, 7)
    ensures b % 16 == 8 * BitOf(b, 4) + 4 * BitOf(b, 5) + 2 * BitOf(b, 6) + BitOf(b, 7)
    ensures b % 64 == 32 * BitOf(b, 2) + 16 * BitOf(b, 3) + 8 * BitOf(b, 4) + 4 * BitOf(b, 5) + 2 * BitOf(b, 6) + BitOf(b, 7)
  {
    Halves(b);
    assert b % 4 == b - 4 * (b / 4) && b % 16 == b - 16 * (b / 16) && b % 64 == b - 64 * (b / 64);
  }

  lemma FirstSextets(v: Bytes, i: nat)
    requires i < 4 && i < |Sextets(v)|
    ensures Sextets(v)[i] == SixBits(v, 6 * i)
  {
    hide BitOf, SixBits, Sextets;
    ByteBits(v[0] as nat);
    if |v| > 1 {
      ByteBits(v[1] as nat);
    }
    if |v| > 2 {
      ByteBits(v[2] as nat);
    }
    SextetOf(v, i);
    BitPlaces(v, i);
    PlacesOfBits(v);
    BitOfZero();
  }

  lemma BitOfZero()
    ensures 0 / 16 == 0 && 0 / 64 == 0
  {
  }

  lemma PlacesOfBits(v: Bytes)
    requires v != []
    ensures forall k: nat | k < 8 :: Bit(v, k) == BitOf(v[0] as nat, k)
    ensures forall k: nat | 8 <= k < 16 :: Bit(v, k) == if |v| > 1 then BitOf(v[1] as nat, k - 8) else 0
    ensures forall k: nat | 16 <= k < 24 :: Bit(v, k) == if |v| > 2 then BitOf(v[2] as nat, k - 16) else 0
  {
  }

  lemma SextetOf(v: Bytes, i: nat)
    requires i < 4 && i < |Sextets(v)|
    ensures var b, c := if |v| > 1 then v[1] as nat else 0, if |v| > 2 then v[2] as nat else 0;
      Sextets(v)[i] == (match i
                        case 0 => v[0] as nat / 4
                        case 1 => v[0] as nat % 4 * 16 + b / 16
                        case 2 => b % 16 * 4 + c / 64
                        case _ => c % 64)
  {
  }

  lemma BitPlaces(v: Bytes, i: nat)
    requires i < 4 && v != []
    ensures SixBits(v, 6 * i) ==
      match i
      case 0 => 32 * Bit(v, 0) + 16 * Bit(v, 1) + 8 * Bit(v, 2) + 4 * Bit(v, 3) + 2 * Bit(v, 4) + Bit(v, 5)
      case 1 => 32 * Bit(v, 6) + 16 * Bit(v, 7) + 8 * Bit(v, 8) + 4 * Bit(v, 9) + 2 * Bit(v, 10) + Bit(v, 11)
      case 2 => 32 * Bit(v, 12) + 16 * Bit(v, 13) + 8 * Bit(v, 14) + 4 * Bit(v, 15) + 2 * Bit(v, 16) + Bit(v, 17)
      case _ => 32 * Bit(v, 18) + 16 * Bit(v, 19) + 8 * Bit(v, 20) + 4 * Bit(v, 21) + 2 * Bit(v, 22) + Bit(v, 23)
  {
  }

  /** The text of a value: a character for every six bits, and `=` up to a multiple of four. */
  lemma Base64Exact(v: Bytes, url: bool)
    ensures var s, n := Base64(v, url), (8 * |v| + 5) / 6;
      && |Sextets(v)| == n && |s| == (n + 3) / 4 * 4
      && (forall i | 0 <= i < n :: Value64(s[i] as char, url) == Sextets(v)[i])
      && forall i | n <= i < |s| :: s[i] as char == '='
  {
    hide Sextets, Digit64, Value64;
    var w := Written(Sextets(v), url);
    forall i | 0 <= i < |w|
      ensures Value64(Base64(v, url)[i] as char, url) == Sextets(v)[i]
    {
      DigitOfAlphabet(Sextets(v)[i], url);
      assert Base64(v, url)[i] == w[i];
    }
    PaddedLength(|v|);
    forall i | |w| <= i < |Base64(v, url)|
      ensures Base64(v, url)[i] as char == '='
    {
      assert Base64(v, url)[i] == Padding(|v|)[i - |w|];
    }
  }

  lemma PaddedLength(n: nat)
    ensures (4 * n + 2) / 3 == (8 * n + 5) / 6
    ensures (4 * n + 2) / 3 + |Padding(n)| == ((8 * n + 5) / 6 + 3) / 4 * 4
  {
    var q, r := n / 3, n % 3;
    assert n == 3 * q + r;
    if r == 0 {
      Thirds(q, 0, 0);
    } else if r == 1 {
      Thirds(q, 1, 2);
    } else {
      Thirds(q, 2, 3);
    }
  }

  lemma Thirds(q: nat, r: nat, s: nat)
    requires r < 3 && s == (4 * r + 2) / 3
    ensures (4 * (3 * q + r) + 2) / 3 == 4 * q + s && (8 * (3 * q + r) + 5) / 6 == 4 * q + s
    ensures (4 * q + s + 3) / 4 == q + if s == 0 then 0 else 1
  {
    Residue(4 * (3 * q + r) + 2, 3, 4 * q + s, 4 * r + 2 - 3 * s);
    Residue(8 * (3 * q + r) + 5, 6, 4 * q + s, 8 * r + 5 - 6 * s);
    Residue(4 * q + s + 3, 4, q + if s == 0 then 0 else 1, if s == 0 then 3 else s - 1);
  }
}
