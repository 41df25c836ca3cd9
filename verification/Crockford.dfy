/** `crockford`: a bit buffer that turns bytes into base 32, against the digits of one big number. */
module Crockford {

  import opened Wrappers
  import opened Arithmetic

  /** The alphabet without the letters that look like digits. */
  const ALPHABET: string := "0123456789ABCDEFGHJKMNPQRSTVWXYZ"

  /** The bytes read as a big-endian number. */
  function Number(bytes: seq<Byte>): nat {
    if bytes == [] then 0 else Number(bytes[..|bytes| - 1]) * 256 + bytes[|bytes| - 1] as nat
  }

  /** The last `length` digits of a number in base 32, as values. */
  function Digits32(value: nat, length: nat): (r: seq<nat>)
    ensures |r| == length && forall i | 0 <= i < length :: r[i] < 32
  {
    if length == 0 then [] else Digits32(value / 32, length - 1) + [value % 32]
  }

  function Spelled(digits: seq<nat>): (r: string)
    requires forall i | 0 <= i < |digits| :: digits[i] < 32
    ensures |r| == |digits|
  {
    seq(|digits|, i requires 0 <= i < |digits| => Letter(digits[i]))
  }

  function Letter(d: nat): char
    requires d < 32
  {
    assert |ALPHABET| == 32;
    ALPHABET[d]
  }

  /** Number of characters for a number of bytes: eight fifths, rounded up. */
  function Length(n: nat): nat {
    (8 * n + 4) / 5
  }

  /** The zero bits that fill the last character. */
  function Padding(n: nat): nat {
    5 * Length(n) - 8 * n
  }

  /** The encoding, as section 6 of RFC 4648 groups the bits: the digits of the number with the padding
      shifted in. */
  function Encoding(bytes: seq<Byte>): string {
    Spelled(Digits32(Number(bytes) * Pow(2, Padding(|bytes|)), Length(|bytes|)))
  }

  // ----- Arithmetic -----

  lemma SmallPowers()
    ensures Pow(2, 0) == 1 && Pow(2, 1) == 2 && Pow(2, 2) == 4 && Pow(2, 3) == 8 && Pow(2, 4) == 16 && Pow(2, 5) == 32
    ensures Pow(2, 6) == 64 && Pow(2, 7) == 128 && Pow(2, 8) == 256 && Pow(2, 9) == 512
    ensures Pow(2, 10) == 1024 && Pow(2, 11) == 2048 && Pow(2, 12) == 4096
  {
    assert Pow(2, 4) == 2 * Pow(2, 3) && Pow(2, 3) == 2 * Pow(2, 2) && Pow(2, 2) == 2 * Pow(2, 1) && Pow(2, 1) == 2 * Pow(2, 0);
    assert Pow(2, 8) == 2 * Pow(2, 7) && Pow(2, 7) == 2 * Pow(2, 6) && Pow(2, 6) == 2 * Pow(2, 5) && Pow(2, 5) == 2 * Pow(2, 4);
    assert Pow(2, 12) == 2 * Pow(2, 11) && Pow(2, 11) == 2 * Pow(2, 10) && Pow(2, 10) == 2 * Pow(2, 9) && Pow(2, 9) == 2 * Pow(2, 8);
  }

  /** The five bits taken and the bits left below them. */
  lemma TakeFive(buffer: nat, p: nat)
    requires p >= 1
    ensures buffer % (32 * p) == (buffer / p) % 32 * p + buffer % p
  {
    TakeFiveAt(buffer, p, buffer / p, buffer % p, buffer / p / 32, buffer / p % 32);
  }

  lemma TakeFiveAt(buffer: nat, p: nat, q: nat, r: nat, a: nat, d: nat)
    requires buffer == q * p + r && r < p && q == a * 32 + d && d < 32
    ensures buffer % (32 * p) == d * p + r
  {
    Composed(a, 32, d, p);
    Below(d, 32, p, r);
    assert p * 32 == 32 * p;
    Residue(buffer, 32 * p, a, d * p + r);
  }

  // ----- The loop -----

  /** So far: the characters are the digits of what stands above the `bits` lowest bits of the number. */
  ghost predicate Emitted(number: nat, output: string, above: nat, bits: nat, buffer: nat) {
    && number == above * Pow(2, bits) + buffer % Pow(2, bits)
    && output == Spelled(Digits32(above, |output|))
  }

  lemma SpelledMore(above: nat, digit: nat, length: nat)
    requires digit < 32
    ensures Spelled(Digits32(above * 32 + digit, length + 1)) == Spelled(Digits32(above, length)) + [Letter(digit)]
  {
    Residue(above * 32 + digit, 32, above, digit);
  }

  /** Taking five bits appends one digit. */
  lemma EmitFive(number: nat, output: string, above: nat, bits: nat, buffer: nat)
    requires 5 <= bits <= 12 && Emitted(number, output, above, bits, buffer)
    ensures var digit := (buffer / Pow(2, bits - 5)) % 32;
      Emitted(number, output + [Letter(digit)], above * 32 + digit, bits - 5, buffer)
  {
    hide Spelled, Digits32, Pow;
    var p := Pow(2, bits - 5);
    SmallPowers();
    assert Pow(2, bits) == 32 * p;
    TakeFive(buffer, p);
    var digit := (buffer / p) % 32;
    SpelledMore(above, digit, |output|);
    Shift(above, digit, p);
  }

  lemma Shift(above: nat, digit: nat, p: nat)
    ensures (above * 32 + digit) * p == above * (32 * p) + digit * p
  {
  }

  /** A byte moves what is in the buffer up by eight bits. */
  lemma NextByte(number: nat, output: string, above: nat, bits: nat, buffer: nat, byte: Byte)
    requires bits < 5 && Emitted(number, output, above, bits, buffer) && buffer < Pow(2, bits)
    ensures Emitted(number * 256 + byte as nat, output, above, bits + 8, buffer * 256 + byte as nat)
    ensures buffer * 256 + byte as nat < Pow(2, bits + 8)
  {
    hide Spelled, Digits32;
    SmallPowers();
    var p := Pow(2, bits);
    assert Pow(2, bits + 8) == 256 * p;
    Residue(buffer, p, 0, buffer);
    Residue(buffer * 256 + byte as nat, 256 * p, 0, buffer * 256 + byte as nat);
    assert (above * p) * 256 == above * (256 * p);
  }

  /** The loop over the bits of one byte. */
  method EmitBits(output: string, buffer: nat, bits: nat, ghost number: nat, ghost above: nat)
    returns (output': string, bits': nat, ghost above': nat)
    requires bits <= 12 && Emitted(number, output, above, bits, buffer)
    ensures bits' < 5 && 5 * |output'| + bits' == 5 * |output| + bits
    ensures Emitted(number, output', above', bits', buffer)
  {
    hide Emitted;
    output', bits', above' := output, bits, above;
    while bits' >= 5
      invariant bits' <= 12 && 5 * |output'| + bits' == 5 * |output| + bits
      invariant Emitted(number, output', above', bits', buffer)
      decreases bits'
    {
      EmitFive(number, output', above', bits', buffer);
      bits' := bits' - 5;
      output' := output' + [Letter((buffer / Pow(2, bits')) % 32)];
      above' := above' * 32 + (buffer / Pow(2, bits')) % 32;
    }
  }

  lemma Masked(number: nat, output: string, above: nat, bits: nat, buffer: nat)
    requires Emitted(number, output, above, bits, buffer)
    ensures Emitted(number, output, above, bits, buffer % Pow(2, bits)) && buffer % Pow(2, bits) < Pow(2, bits)
  {
    hide Spelled, Digits32;
    Residue(buffer % Pow(2, bits), Pow(2, bits), 0, buffer % Pow(2, bits));
  }

  /** The last character holds the bits left over, with zeros below. */
  lemma EmitRest(number: nat, output: string, above: nat, bits: nat, buffer: nat)
    requires 0 < bits < 5 && Emitted(number, output, above, bits, buffer) && buffer < Pow(2, bits)
    ensures buffer * Pow(2, 5 - bits) < 32
    ensures output + [Letter(buffer * Pow(2, 5 - bits))] == Spelled(Digits32(number * Pow(2, 5 - bits), |output| + 1))
  {
    hide Spelled, Digits32, Pow;
    var p, q := Pow(2, bits), Pow(2, 5 - bits);
    PowSum(2, bits, 5 - bits);
    SmallPowers();
    Residue(buffer, p, 0, buffer);
    RestFits(number, above, buffer, p, q);
    SpelledMore(above, buffer * q, |output|);
  }

  lemma RestFits(number: nat, above: nat, buffer: nat, p: nat, q: nat)
    requires p * q == 32 && number == above * p + buffer && buffer < p
    ensures buffer * q < 32 && number * q == above * 32 + buffer * q
  {
    Distributes(above * p, buffer, q);
    Associates(above, p, q);
    assert (p - buffer) * q == p * q - buffer * q;
    AtLeast(p - buffer, q);
  }

  /** `buffer` stays below 2^12, so the 32-bit shifts of the source lose nothing. */
  method Encode(bytes: seq<Byte>) returns (output: string)
    ensures output == Encoding(bytes)
  {
    hide Emitted, Spelled, Digits32;
    var bits: nat, buffer: nat := 0, 0;
    output := "";
    ghost var above := 0;
    EmptyEmitted();
    for i := 0 to |bytes|
      invariant bits < 5 && buffer < Pow(2, bits) && 5 * |output| + bits == 8 * i
      invariant Emitted(Number(bytes[..i]), output, above, bits, buffer)
    {
      assert bytes[..i + 1][..i] == bytes[..i];
      NextByte(Number(bytes[..i]), output, above, bits, buffer, bytes[i]);
      buffer := buffer * 256 + bytes[i] as nat;
      SmallPowers();
      assert buffer < 4096;
      output, bits, above := EmitBits(output, buffer, bits + 8, Number(bytes[..i + 1]), above);
      Masked(Number(bytes[..i + 1]), output, above, bits, buffer);
      buffer := buffer % Pow(2, bits);
    }
    assert bytes[..|bytes|] == bytes;
    if bits > 0 {
      EmitRest(Number(bytes), output, above, bits, buffer);
      output := output + [Letter(buffer * Pow(2, 5 - bits))];
    } else {
      NoRest(Number(bytes), output, above, buffer);
    }
  }

  lemma EmptyEmitted()
    ensures Emitted(Number([]), "", 0, 0, 0) && Pow(2, 0) == 1
  {
  }

  lemma NoRest(number: nat, output: string, above: nat, buffer: nat)
    requires Emitted(number, output, above, 0, buffer)
    ensures Pow(2, 0) == 1 && number * 1 == number && output == Spelled(Digits32(number, |output|))
  {
  }

  // ----- The closed form -----

  lemma {:induction false} DigitAt(value: nat, length: nat, i: nat)
    requires i < length
    ensures Digits32(value, length)[i] == (value / Pow(32, length - 1 - i)) % 32
  {
    if i < length - 1 {
      DigitAt(value / 32, length - 1, i);
      DivDiv(value, 32, Pow(32, length - 2 - i));
    } else {
      assert value / 1 == value;
    }
  }

  lemma DivDiv(x: nat, a: nat, b: nat)
    requires a >= 1 && b >= 1
    ensures a * b >= 1 && x / a / b == x / (a * b)
  {
    DivDivAt(x, a, b, x / a, x % a, x / a / b, x / a % b);
  }

  lemma DivDivAt(x: nat, a: nat, b: nat, q: nat, r: nat, s: nat, t: nat)
    requires x == q * a + r && r < a && q == s * b + t && t < b
    ensures a * b >= 1 && x / (a * b) == s
  {
    AtLeast(a, b);
    Composed(s, b, t, a);
    Below(t, b, a, r);
    Residue(x, a * b, s, t * a + r);
  }

  lemma Composed(s: nat, b: nat, t: nat, a: nat)
    ensures (s * b + t) * a == s * (a * b) + t * a
  {
  }

  lemma Below(t: nat, b: nat, a: nat, r: nat)
    requires t < b && r < a
    ensures t * a + r < a * b
  {
    assert t * a <= (b - 1) * a;
    assert (b - 1) * a == a * b - a;
  }

  /** The closed form for a digest of sixteen bytes: shift by two, then five bits at a time. */
  lemma SixteenBytes(bytes: seq<Byte>, i: nat)
    requires |bytes| == 16 && i < 26
    ensures |Encoding(bytes)| == 26
    ensures Encoding(bytes)[i] == Letter((Number(bytes) * 4 / Pow(32, 25 - i)) % 32)
  {
    SmallPowers();
    DigitAt(Number(bytes) * 4, 26, i);
  }

  // ----- Injectivity -----

  /** The digit a letter stands for. */
  function Digit(c: char): int {
    if c <= '9' then c as int - 48
    else if c <= 'H' then c as int - 55
    else if c <= 'K' then c as int - 56
    else if c <= 'N' then c as int - 57
    else if c <= 'T' then c as int - 58
    else c as int - 59
  }

  lemma LetterDigit(d: nat)
    requires d < 32
    ensures Digit(Letter(d)) == d
  {
  }

  lemma LettersDiffer(d: nat, e: nat)
    requires d < 32 && e < 32 && Letter(d) == Letter(e)
    ensures d == e
  {
    hide Letter, Digit;
    LetterDigit(d);
    LetterDigit(e);
  }

  lemma {:induction false} Digits32Injective(v: nat, w: nat, length: nat)
    requires v < Pow(32, length) && w < Pow(32, length) && Digits32(v, length) == Digits32(w, length)
    ensures v == w
  {
    if length > 0 {
      var a, b := Digits32(v, length), Digits32(w, length);
      assert a[length - 1] == v % 32 && b[length - 1] == w % 32;
      assert a[..length - 1] == Digits32(v / 32, length - 1) && b[..length - 1] == Digits32(w / 32, length - 1);
      Digits32Injective(v / 32, w / 32, length - 1);
    }
  }

  lemma {:induction false} NumberBound(bytes: seq<Byte>)
    ensures Number(bytes) < Pow(2, 8 * |bytes|)
  {
    if bytes != [] {
      var front := bytes[..|bytes| - 1];
      NumberBound(front);
      PowSum(2, 8, 8 * |front|);
      SmallPowers();
    }
  }

  lemma {:induction false} Pow32IsPow2(n: nat)
    ensures Pow(32, n) == Pow(2, 5 * n)
  {
    if n > 0 {
      Pow32IsPow2(n - 1);
      PowSum(2, 5, 5 * (n - 1));
      SmallPowers();
    }
  }

  lemma {:induction false} NumberInjective(a: seq<Byte>, b: seq<Byte>)
    requires |a| == |b| && Number(a) == Number(b)
    ensures a == b
  {
    if a != [] {
      var x, y := a[..|a| - 1], b[..|b| - 1];
      assert Number(x) == Number(y) && a[|a| - 1] == b[|b| - 1];
      NumberInjective(x, y);
      assert a == x + [a[|a| - 1]] && b == y + [b[|b| - 1]];
    }
  }

  lemma Smaller(n: nat, q: nat, p: nat)
    requires n < q && p >= 1
    ensures n * p < q * p
  {
    var d: nat := q - n;
    assert (n + d) * p == n * p + d * p;
    AtLeast(d, p);
  }

  lemma PaddedPowers(n: nat)
    ensures Pow(32, Length(n)) == Pow(2, 8 * n) * Pow(2, Padding(n))
  {
    assert 5 * Length(n) == 8 * n + Padding(n);
    PowSum(2, 8 * n, Padding(n));
    Pow32IsPow2(Length(n));
  }

  /** The number with its padding fits in the characters. */
  lemma PaddedFits(bytes: seq<Byte>)
    ensures Number(bytes) * Pow(2, Padding(|bytes|)) < Pow(32, Length(|bytes|))
  {
    hide Pow, Number, Length, Padding;
    NumberBound(bytes);
    PaddedPowers(|bytes|);
    Smaller(Number(bytes), Pow(2, 8 * |bytes|), Pow(2, Padding(|bytes|)));
  }

  lemma {:induction false} SpelledInjective(a: seq<nat>, b: seq<nat>)
    requires (forall i | 0 <= i < |a| :: a[i] < 32) && forall i | 0 <= i < |b| :: b[i] < 32
    requires Spelled(a) == Spelled(b)
    ensures a == b
  {
    assert |Spelled(a)| == |a| && |Spelled(b)| == |b|;
    forall i | 0 <= i < |a|
      ensures a[i] == b[i]
    {
      assert Spelled(a)[i] == Spelled(b)[i];
      LettersDiffer(a[i], b[i]);
    }
  }

  /** Different bytes have different encodings, whatever their lengths. */
  lemma EncodingInjective(a: seq<Byte>, b: seq<Byte>)
    requires Encoding(a) == Encoding(b)
    ensures a == b
  {
    hide Spelled, Digits32, Number, Pow;
    assert |Encoding(a)| == Length(|a|) && |Encoding(b)| == Length(|b|);
    assert |a| == |b|;
    var p := Pow(2, Padding(|a|));
    PaddedFits(a);
    PaddedFits(b);
    SpelledInjective(Digits32(Number(a) * p, Length(|a|)), Digits32(Number(b) * p, Length(|b|)));
    Digits32Injective(Number(a) * p, Number(b) * p, Length(|a|));
    Cancel(Number(a), Number(b), p);
    NumberInjective(a, b);
  }
}
