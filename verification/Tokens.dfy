/** Token domains, the payload that is digested and the token made of the digest. */
module Tokens {
  import opened Wrappers
  import opened Chars
  import opened Crockford
  import Arithmetic

  const ISOLATED: string := "opintelisolated"
  const SEALED: string := "opintelsealed"
  const SENTINEL: string := "sentinel"

  // ----- Domains -----

  predicate DomainChars(s: string) {
    s != "" && forall i | 0 <= i < |s| :: IsDigit(s[i]) || 'a' <= s[i] <= 'z'
  }

  /** What the schema of a declared domain accepts. */
  predicate Declarable(domain: string) {
    DomainChars(domain) && domain != SENTINEL && !StartsWith(domain, ISOLATED) && !StartsWith(domain, SEALED)
  }

  datatype Identity = Identity(project: string, element: string)

  predicate IdentityOk(id: Identity) {
    IsUuid(id.project) && IsUuid(id.element)
  }

  /** `replaceAll('-', '')`. */
  function WithoutDashes(s: string): string {
    if s == "" then ""
    else WithoutDashes(s[..|s| - 1]) + if s[|s| - 1] == '-' then "" else [s[|s| - 1]]
  }

  function Compact(uuid: string): string {
    Lower(WithoutDashes(uuid))
  }

  function DerivedDomain(id: Identity): string {
    ISOLATED + Compact(id.project) + Compact(id.element)
  }

  function EffectiveDomain(declared: Option<string>, id: Identity): string {
    if declared.Some? then declared.value else DerivedDomain(id)
  }

  /** How many dashes stand before a place of a UUID. */
  function DashesBefore(i: nat): nat {
    (if i > 8 then 1 else 0) + (if i > 13 then 1 else 0) + (if i > 18 then 1 else 0) + if i > 23 then 1 else 0
  }

  lemma {:induction false} CompactAt(uuid: string, n: nat)
    requires IsUuid(uuid) && n <= 36
    ensures |WithoutDashes(uuid[..n])| == n - DashesBefore(n)
    ensures forall i | 0 <= i < n && uuid[i] != '-' ::
      i - DashesBefore(i) < n - DashesBefore(n) && WithoutDashes(uuid[..n])[i - DashesBefore(i)] == uuid[i]
  {
    if n > 0 {
      CompactAt(uuid, n - 1);
      assert uuid[..n][..n - 1] == uuid[..n - 1];
    }
  }

  lemma CompactLength(uuid: string)
    requires IsUuid(uuid)
    ensures |Compact(uuid)| == 32
    ensures forall i | 0 <= i < 36 && uuid[i] != '-' :: i - DashesBefore(i) < 32 && Compact(uuid)[i - DashesBefore(i)] == LowerChar(uuid[i])
  {
    CompactAt(uuid, 36);
    assert uuid[..36] == uuid;
  }

  /** Dropping the dashes loses nothing but the case. */
  lemma CompactInjective(a: string, b: string)
    requires IsUuid(a) && IsUuid(b)
    ensures Compact(a) == Compact(b) <==> Lower(a) == Lower(b)
  {
    CompactLength(a);
    CompactLength(b);
    if Compact(a) == Compact(b) {
      forall i | 0 <= i < 36
        ensures LowerChar(a[i]) == LowerChar(b[i])
      {
        assert a[i] == '-' <==> b[i] == '-';
      }
      assert Lower(a) == Lower(b);
    }
    if Lower(a) == Lower(b) {
      SameCompact(a, b, 36);
      assert a[..36] == a && b[..36] == b;
    }
  }

  lemma {:induction false} SameCompact(a: string, b: string, n: nat)
    requires IsUuid(a) && IsUuid(b) && Lower(a) == Lower(b) && n <= 36
    ensures Lower(WithoutDashes(a[..n])) == Lower(WithoutDashes(b[..n]))
  {
    if n > 0 {
      SameCompact(a, b, n - 1);
      assert a[..n][..n - 1] == a[..n - 1] && b[..n][..n - 1] == b[..n - 1];
      assert LowerChar(a[n - 1]) == Lower(a)[n - 1] && LowerChar(b[n - 1]) == Lower(b)[n - 1];
      LowerMore(WithoutDashes(a[..n - 1]), a[n - 1]);
      LowerMore(WithoutDashes(b[..n - 1]), b[n - 1]);
    }
  }

  lemma LowerMore(s: string, c: char)
    ensures Lower(s + [c]) == Lower(s) + [LowerChar(c)] && s + "" == s
  {
  }

  predicate SameIdentity(a: Identity, b: Identity) {
    Lower(a.project) == Lower(b.project) && Lower(a.element) == Lower(b.element)
  }

  lemma DerivedInjective(a: Identity, b: Identity)
    requires IdentityOk(a) && IdentityOk(b)
    ensures DerivedDomain(a) == DerivedDomain(b) <==> SameIdentity(a, b)
  {
    hide Compact, Lower, IsUuid;
    CompactLength(a.project);
    CompactLength(a.element);
    CompactLength(b.project);
    CompactLength(b.element);
    CompactInjective(a.project, b.project);
    CompactInjective(a.element, b.element);
    ThreeParts(ISOLATED, Compact(a.project), Compact(a.element), Compact(b.project), Compact(b.element));
  }

  lemma ThreeParts(p: string, x: string, y: string, x': string, y': string)
    requires |x| == |x'|
    ensures p + x + y == p + x' + y' <==> x == x' && y == y'
  {
    var s, t := p + x + y, p + x' + y';
    assert s[|p|..|p| + |x|] == x && t[|p|..|p| + |x|] == x';
    assert s[|p| + |x|..] == y && t[|p| + |x|..] == y';
  }

  /** A derived domain has the form of a domain and is never one that may be declared, nor the sentinel. */
  lemma DerivedReserved(id: Identity)
    requires IdentityOk(id)
    ensures DomainChars(DerivedDomain(id)) && |DerivedDomain(id)| == 79
    ensures !Declarable(DerivedDomain(id)) && DerivedDomain(id) != SENTINEL
  {
    hide IsUuid;
    CompactLength(id.project);
    CompactLength(id.element);
    CompactChars(id.project);
    CompactChars(id.element);
    var d := DerivedDomain(id);
    assert |ISOLATED| == 15 && |SENTINEL| == 8;
    assert d[..15] == ISOLATED;
    IsolatedChars();
    forall i | 0 <= i < |d|
      ensures IsDigit(d[i]) || 'a' <= d[i] <= 'z'
    {
      if 15 <= i < 47 {
        assert d[i] == Compact(id.project)[i - 15];
      } else if i >= 47 {
        assert d[i] == Compact(id.element)[i - 47];
      } else {
        assert d[i] == ISOLATED[i];
      }
    }
  }

  lemma IsolatedChars()
    ensures DomainChars(ISOLATED)
  {
  }

  lemma CompactChars(uuid: string)
    requires IsUuid(uuid)
    ensures forall i | 0 <= i < |Compact(uuid)| :: IsDigit(Compact(uuid)[i]) || 'a' <= Compact(uuid)[i] <= 'f'
  {
    HexOnly(uuid, 36);
    assert uuid[..36] == uuid;
  }

  lemma {:induction false} HexOnly(uuid: string, n: nat)
    requires IsUuid(uuid) && n <= 36
    ensures forall i | 0 <= i < |WithoutDashes(uuid[..n])| :: IsHex(WithoutDashes(uuid[..n])[i])
  {
    if n > 0 {
      HexOnly(uuid, n - 1);
      assert uuid[..n][..n - 1] == uuid[..n - 1];
    }
  }

  /** Two columns share a domain exactly if both declare the same one or both are the same isolated column. */
  lemma DomainsShared(d: Option<string>, a: Identity, e: Option<string>, b: Identity)
    requires IdentityOk(a) && IdentityOk(b) && (d.Some? ==> Declarable(d.value)) && (e.Some? ==> Declarable(e.value))
    ensures EffectiveDomain(d, a) == EffectiveDomain(e, b) <==>
      (d.Some? && d == e) || (d.None? && e.None? && SameIdentity(a, b))
  {
    hide DerivedDomain, Declarable, SameIdentity;
    DerivedInjective(a, b);
    DerivedReserved(a);
    DerivedReserved(b);
  }

  // ----- Payload and token -----

  predicate NoNul(s: string) {
    forall i | 0 <= i < |s| :: s[i] != '\0'
  }

  function Payload(canonId: string, domain: string, value: string): string {
    "v1" + "\0" + canonId + "\0" + domain + "\0" + value
  }

  /** A part without the separator ends where the separator is. */
  lemma PartsUnique(a: string, x: string, b: string, y: string)
    requires NoNul(a) && NoNul(b) && a + "\0" + x == b + "\0" + y
    ensures a == b && x == y
  {
    var s, t := a + "\0" + x, b + "\0" + y;
    assert s[|a|] == '\0' && t[|b|] == '\0';
    assert forall i | 0 <= i < |a| :: s[i] == a[i];
    assert forall i | 0 <= i < |b| :: t[i] == b[i];
    assert |a| == |b|;
    assert s[..|a|] == a && t[..|b|] == b;
    assert s[|a| + 1..] == x && t[|b| + 1..] == y;
  }

  /** The payload determines its parts; the value may hold anything. */
  lemma PayloadInjective(canon: string, domain: string, value: string, canon': string, domain': string, value': string)
    requires NoNul(canon) && NoNul(domain) && NoNul(canon') && NoNul(domain')
    requires Payload(canon, domain, value) == Payload(canon', domain', value')
    ensures canon == canon' && domain == domain' && value == value'
  {
    var front := "v1" + "\0";
    assert Payload(canon, domain, value) == front + (canon + "\0" + (domain + "\0" + value));
    assert Payload(canon', domain', value') == front + (canon' + "\0" + (domain' + "\0" + value'));
    SameFront(front, canon + "\0" + (domain + "\0" + value), canon' + "\0" + (domain' + "\0" + value'));
    PartsUnique(canon, domain + "\0" + value, canon', domain' + "\0" + value');
    PartsUnique(domain, value, domain', value');
  }

  lemma SameFront(front: string, x: string, y: string)
    requires front + x == front + y
    ensures x == y
  {
    assert (front + x)[|front|..] == x && (front + y)[|front|..] == y;
  }

  function Token(domain: string, digest: seq<Byte>): string
    requires |digest| >= 16
  {
    "v1_" + domain + "_" + Encoding(digest[..16])
  }

  /** Tokens are equal exactly for equal domains and equal first halves of the digests. */
  lemma TokensCoincide(d: string, x: seq<Byte>, e: string, y: seq<Byte>)
    requires |x| >= 16 && |y| >= 16
    ensures Token(d, x) == Token(e, y) <==> d == e && x[..16] == y[..16]
  {
    hide Encoding;
    EncodingLength(x[..16]);
    EncodingLength(y[..16]);
    if Token(d, x) == Token(e, y) {
      TokenParts(d, Encoding(x[..16]), e, Encoding(y[..16]));
      EncodingInjective(x[..16], y[..16]);
    }
  }

  lemma EncodingLength(bytes: seq<Byte>)
    requires |bytes| == 16
    ensures |Encoding(bytes)| == 26
  {
  }

  lemma TokenParts(d: string, x: string, e: string, y: string)
    requires |x| == |y| && "v1_" + d + "_" + x == "v1_" + e + "_" + y
    ensures d == e && x == y
  {
    var s, t := "v1_" + d + "_" + x, "v1_" + e + "_" + y;
    assert |s| == |d| + |x| + 4 && |t| == |e| + |y| + 4;
    assert s[3..3 + |d|] == d && t[3..3 + |e|] == e;
    assert s[4 + |d|..] == x && t[4 + |e|..] == y;
  }

  /** The token of a canonical value. */
  method Tokenize(digest: string -> seq<Byte>, canonId: string, domain: string, value: string) returns (token: string)
    requires |digest(Payload(canonId, domain, value))| >= 16
    ensures token == Token(domain, digest(Payload(canonId, domain, value)))
  {
    hide Encoding;
    var hash := digest(Payload(canonId, domain, value));
    var text := Encode(hash[..16]);
    token := "v1_" + domain + "_" + text;
  }

  /** Where the digest does not collide, values share a token exactly if they are the same value of the
      same domain in the same canonical form. */
  lemma TokensAreValues(digest: string -> seq<Byte>, canon: string, domain: string, value: string,
                        canon': string, domain': string, value': string)
    requires NoNul(canon) && NoNul(domain) && NoNul(canon') && NoNul(domain')
    requires |digest(Payload(canon, domain, value))| >= 16 && |digest(Payload(canon', domain', value'))| >= 16
    requires digest(Payload(canon, domain, value))[..16] == digest(Payload(canon', domain', value'))[..16]
      ==> Payload(canon, domain, value) == Payload(canon', domain', value')
    ensures Token(domain, digest(Payload(canon, domain, value))) == Token(domain', digest(Payload(canon', domain', value')))
      <==> canon == canon' && domain == domain' && value == value'
  {
    hide Payload, Token;
    TokensCoincide(domain, digest(Payload(canon, domain, value)), domain', digest(Payload(canon', domain', value')));
    if Payload(canon, domain, value) == Payload(canon', domain', value') {
      PayloadInjective(canon, domain, value, canon', domain', value');
    }
  }

  // ----- The texts in other words -----

  /** What may be declared: lower-case letters and digits, and none of the reserved words. */
  lemma DeclarableExact(domain: string)
    ensures Declarable(domain) <==>
      && domain != "" && (forall c | c in domain :: ('0' <= c && c <= '9') || ('a' <= c && c <= 'z'))
      && domain != "sentinel"
      && !(exists rest :: domain == "opintelisolated" + rest) && !(exists rest :: domain == "opintelsealed" + rest)
  {
    CharsExact(domain);
    StartsExact(domain, ISOLATED);
    StartsExact(domain, SEALED);
  }

  lemma CharsExact(s: string)
    ensures DomainChars(s) <==> s != "" && forall c | c in s :: ('0' <= c && c <= '9') || ('a' <= c && c <= 'z')
  {
    if forall c | c in s :: ('0' <= c && c <= '9') || ('a' <= c && c <= 'z') {
      forall i | 0 <= i < |s|
        ensures IsDigit(s[i]) || 'a' <= s[i] <= 'z'
      {
        assert s[i] in s;
      }
    }
  }

  lemma StartsExact(s: string, prefix: string)
    ensures StartsWith(s, prefix) <==> exists rest :: s == prefix + rest
  {
    if StartsWith(s, prefix) {
      assert s == prefix + s[|prefix|..];
    }
  }

  /** The five groups of a UUID. */
  function Groups(uuid: string): string
    requires |uuid| == 36
  {
    uuid[..8] + uuid[9..13] + uuid[14..18] + uuid[19..23] + uuid[24..]
  }

  lemma CompactExact(uuid: string)
    requires IsUuid(uuid)
    ensures |Compact(uuid)| == 32
    ensures forall i | 0 <= i < 32 ::
      var c := Groups(uuid)[i];
      if 'A' <= c && c <= 'F' then Compact(uuid)[i] as int == c as int + 32 else Compact(uuid)[i] == c
  {
    hide Compact, LowerChar;
    CompactLength(uuid);
    forall i | 0 <= i < 32
      ensures Compact(uuid)[i] == LowerChar(Groups(uuid)[i]) && IsHex(Groups(uuid)[i])
    {
      var k := PlaceOf(i);
      GroupPlace(uuid, i);
      assert k - DashesBefore(k) == i;
    }
    forall i | 0 <= i < 32 {
      LowerExact(Groups(uuid)[i]);
    }
  }

  lemma LowerExact(c: char)
    requires IsHex(c)
    ensures if 'A' <= c && c <= 'F' then LowerChar(c) as int == c as int + 32 else LowerChar(c) == c
  {
  }

  /** The place of a digit of the UUID. */
  function PlaceOf(i: nat): nat {
    if i < 8 then i else if i < 12 then i + 1 else if i < 16 then i + 2 else if i < 20 then i + 3 else i + 4
  }

  lemma GroupPlace(uuid: string, i: nat)
    requires IsUuid(uuid) && i < 32
    ensures Groups(uuid)[i] == uuid[PlaceOf(i)] && IsHex(uuid[PlaceOf(i)]) && uuid[PlaceOf(i)] != '-'
  {
  }

  /** The domain in which a value is tokenised: the declared one, or the fixed prefix with both UUIDs. */
  lemma EffectiveExact(declared: Option<string>, id: Identity)
    requires IdentityOk(id)
    ensures declared.Some? ==> EffectiveDomain(declared, id) == declared.value
    ensures declared.None? ==> EffectiveDomain(declared, id) == "opintelisolated" + Compact(id.project) + Compact(id.element)
  {
  }

  /** The bytes that are digested, separated by NUL. */
  lemma PayloadExact(canonId: string, domain: string, value: string)
    ensures Payload(canonId, domain, value) == ['v', '1', '\0'] + canonId + ['\0'] + domain + ['\0'] + value
  {
    assert "v1" + "\0" == ['v', '1', '\0'];
  }

  ghost predicate SpellsToken(domain: string, digest: seq<Byte>, text: string)
    requires |digest| >= 16
  {
    && Token(domain, digest) == ['v', '1', '_'] + domain + ['_'] + text && |text| == 26
    && forall i: nat | i < 26 :: Digit(text[i]) == Number(digest[..16]) * 4 / Arithmetic.Pow(32, 25 - i) % 32
  }

  /** A token: its version, the domain, and 26 characters of the first sixteen bytes of the digest, five bits
      each, the highest first. */
  lemma TokenExact(domain: string, digest: seq<Byte>)
    requires |digest| >= 16
    ensures exists text :: SpellsToken(domain, digest, text)
  {
    hide Encoding, Number, Digit, Letter;
    var text := Encoding(digest[..16]);
    EncodingLength(digest[..16]);
    forall i: nat | i < 26
      ensures Digit(text[i]) == Number(digest[..16]) * 4 / Arithmetic.Pow(32, 25 - i) % 32
    {
      SixteenBytes(digest[..16], i);
      LetterDigit((Number(digest[..16]) * 4 / Arithmetic.Pow(32, 25 - i)) % 32);
    }
    assert "v1_" == ['v', '1', '_'] && "_" == ['_'];
    assert SpellsToken(domain, digest, text);
  }
}
