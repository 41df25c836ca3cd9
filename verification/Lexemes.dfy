/** The tokens of a text, said of the text alone: white space apart, it is cut from left to right into the
    longest matches of the patterns. The lexer computes exactly this. */
module Lexemes {
  import opened Wrappers
  import opened Chars
  import opened Lexer

  // ----- The patterns -----

  ghost predicate White(c: char) {
    || c in {'\t', '\n', '\U{b}', '\U{c}', '\r', ' ', '\U{a0}', '\U{1680}', '\U{2028}', '\U{2029}', '\U{202f}', '\U{205f}', '\U{3000}', '\U{feff}'}
    || '\U{2000}' <= c <= '\U{200a}'
  }

  /** The value, in which each quote stands twice. */
  ghost predicate Spells(q: char, inner: string, value: string)
    decreases |value|
  {
    if value == "" then inner == ""
    else if value[0] == q then |inner| >= 2 && inner[0] == q && inner[1] == q && Spells(q, inner[2..], value[1..])
    else inner != "" && inner[0] == value[0] && Spells(q, inner[1..], value[1..])
  }

  ghost predicate QuotedText(q: char, raw: string, value: string) {
    |raw| >= 2 && raw[0] == q && raw[|raw| - 1] == q && Spells(q, raw[1..|raw| - 1], value)
  }

  ghost predicate DigitsIn(s: string, i: nat, e: nat) {
    i <= e <= |s| && forall k | i <= k < e :: '0' <= s[k] <= '9'
  }

  /** A sign at `i`, or nothing. */
  ghost predicate SignIn(s: string, i: nat, e: nat) {
    e == i || (e == i + 1 <= |s| && (s[i] == '+' || s[i] == '-'))
  }

  /** A sign or none up to `a`, digits up to `b`, and a point with digits or nothing up to `c`: at least one
      digit in all. */
  ghost predicate MantissaIn(s: string, a: nat, b: nat, c: nat) {
    && SignIn(s, 0, a) && DigitsIn(s, a, b)
    && (c == b || (b < c && b < |s| && s[b] == '.' && DigitsIn(s, b + 1, c)))
    && (b > a || c > b + 1)
  }

  /** Nothing, or `e`, a sign or none up to `d`, and digits. */
  ghost predicate ExponentIn(s: string, c: nat, d: nat, e: nat) {
    || (d == c && e == c)
    || (c < |s| && (s[c] == 'e' || s[c] == 'E') && SignIn(s, c + 1, d) && d < e && DigitsIn(s, d, e))
  }

  ghost predicate NumberIn(s: string, a: nat, b: nat, c: nat, d: nat, e: nat) {
    MantissaIn(s, a, b, c) && ExponentIn(s, c, d, e) && e <= |s|
  }

  ghost predicate NumberText(raw: string) {
    exists a, b, c, d :: NumberIn(raw, a, b, c, d, |raw|)
  }

  ghost predicate WordText(raw: string) {
    && raw != "" && !('0' <= raw[0] <= '9')
    && forall i | 0 <= i < |raw| :: 'a' <= raw[i] <= 'z' || 'A' <= raw[i] <= 'Z' || '0' <= raw[i] <= '9' || raw[i] == '_'
  }

  /** The raw text matches the pattern of the kind with this value. */
  ghost predicate Pattern(kind: TokenKind, raw: string, value: string) {
    match kind
    case StringToken => QuotedText('\'', raw, value)
    case IdentifierToken => QuotedText('\"', raw, value) && value != ""
    case NumberToken => NumberText(raw) && value == raw
    case WordToken => WordText(raw) && value == raw
    case SymbolToken => raw in {"<=", ">=", "<>", "=", "<", ">", "(", ")", ","} && value == raw
  }

  /** The text begins with this token: no longer beginning matches its pattern. */
  ghost predicate Lexeme(s: string, t: Token, n: nat) {
    n <= |s| && Pattern(t.kind, s[..n], t.value) && NoLonger(s, t.kind, n)
  }

  ghost predicate NoLonger(s: string, kind: TokenKind, n: nat) {
    forall m, value | n < m <= |s| :: !Pattern(kind, s[..m], value)
  }

  /** The text is white space and these tokens, one after the other. */
  ghost predicate Lexes(s: string, ts: seq<Token>)
    decreases |s|
  {
    if s == "" then ts == []
    else if White(s[0]) then Lexes(s[1..], ts)
    else ts != [] && exists n: nat :: 0 < n <= |s| && Lexeme(s, ts[0], n) && Lexes(s[n..], ts[1..])
  }

  // ----- Quotes -----

  /** Made of characters that are no quote, and of pairs of quotes. */
  predicate Pairs(q: char, t: string)
    decreases |t|
  {
    if t == "" then true
    else if t[0] != q then Pairs(q, t[1..])
    else |t| >= 2 && t[1] == q && Pairs(q, t[2..])
  }

  lemma {:induction false} PairsConcat(q: char, a: string, b: string)
    requires Pairs(q, a)
    ensures Pairs(q, a + b) <==> Pairs(q, b)
    decreases |a|
  {
    if a == "" {
      assert a + b == b;
    } else if a[0] != q {
      assert (a + b)[1..] == a[1..] + b;
      PairsConcat(q, a[1..], b);
    } else {
      assert (a + b)[2..] == a[2..] + b && (a + b)[1] == a[1];
      PairsConcat(q, a[2..], b);
    }
  }

  lemma {:induction false} SpellsPairs(q: char, inner: string, value: string)
    ensures Spells(q, inner, value) <==> Pairs(q, inner) && value == Undoubled(q, inner)
    decreases |inner|
  {
    if inner == "" {
    } else if inner[0] != q {
      if value != "" {
        SpellsPairs(q, inner[1..], value[1..]);
        assert value == [value[0]] + value[1..];
      }
      assert Undoubled(q, inner) == [inner[0]] + Undoubled(q, inner[1..]);
    } else if |inner| >= 2 && inner[1] == q {
      if value != "" {
        SpellsPairs(q, inner[2..], value[1..]);
        assert value == [value[0]] + value[1..];
      }
      assert Undoubled(q, inner) == [q] + Undoubled(q, inner[2..]);
    }
  }

  /** A quote that closes what began with the first character. */
  ghost predicate Closes(q: char, s: string, m: nat) {
    1 <= m < |s| && s[m] == q && Pairs(q, s[1..m])
  }

  lemma QuotedCloses(q: char, s: string, n: nat, value: string)
    requires s != "" && s[0] == q && n <= |s|
    ensures QuotedText(q, s[..n], value) <==> n >= 2 && Closes(q, s, n - 1) && value == Undoubled(q, s[1..n - 1])
  {
    if n >= 2 {
      assert s[..n][1..n - 1] == s[1..n - 1] && s[..n][n - 1] == s[n - 1];
      SpellsPairs(q, s[1..n - 1], value);
    }
  }

  lemma PairsSplit(q: char, s: string, i: nat, m: nat)
    requires 1 <= i <= m <= |s| && Pairs(q, s[1..i])
    ensures Pairs(q, s[1..m]) <==> Pairs(q, s[i..m])
  {
    assert s[1..m] == s[1..i] + s[i..m];
    PairsConcat(q, s[1..i], s[i..m]);
  }

  /** `QuoteEnd` is the last closing quote, or zero if there is none. */
  lemma {:induction false} QuoteEndLast(q: char, s: string, i: nat, last: nat)
    requires s != "" && s[0] == q && 1 <= i <= |s| && Pairs(q, s[1..i]) && last < i
    requires last > 0 ==> Closes(q, s, last)
    requires forall m: nat | m < i && Closes(q, s, m) :: m <= last
    ensures var e := QuoteEnd(q, s, i, last);
      && (e > 0 ==> Closes(q, s, e))
      && forall m: nat | Closes(q, s, m) :: 1 <= m <= e
    decreases |s| - i
  {
    if i < |s| {
      if s[i] != q {
        PairsPast(q, s, i);
        QuoteEndLast(q, s, i + 1, last);
      } else if i + 1 < |s| && s[i + 1] == q {
        PairsPastTwo(q, s, i);
        QuoteEndLast(q, s, i + 2, i);
      } else {
        forall m: nat | Closes(q, s, m)
          ensures m <= i
        {
          NoneBehind(q, s, i, m);
        }
      }
    }
  }

  lemma PairsPast(q: char, s: string, i: nat)
    requires 1 <= i < |s| && Pairs(q, s[1..i]) && s[i] != q
    ensures Pairs(q, s[1..i + 1])
  {
    PairsSplit(q, s, i, i + 1);
    assert s[i..i + 1][1..] == "";
  }

  lemma PairsPastTwo(q: char, s: string, i: nat)
    requires 1 <= i && i + 1 < |s| && Pairs(q, s[1..i]) && s[i] == s[i + 1] == q
    ensures Pairs(q, s[1..i + 2]) && Closes(q, s, i) && !Closes(q, s, i + 1)
  {
    PairsSplit(q, s, i, i + 2);
    PairsSplit(q, s, i, i + 1);
    assert s[i..i + 2][2..] == "";
  }

  /** Behind a quote that stands alone nothing closes. */
  lemma NoneBehind(q: char, s: string, i: nat, m: nat)
    requires 1 <= i < |s| && Pairs(q, s[1..i]) && s[i] == q && (i + 1 < |s| ==> s[i + 1] != q)
    ensures Closes(q, s, m) ==> m <= i
  {
    if i < m < |s| {
      PairsSplit(q, s, i, m);
    }
  }

  // ----- Numbers -----

  /** What `NumberEnd` matches is a number text. */
  lemma NumberMatched(s: string)
    requires NumberEnd(s) > 0
    ensures exists a, b, c, d :: NumberIn(s, a, b, c, d, NumberEnd(s))
  {
    var a := SignEnd(s, 0);
    var b := DigitsEnd(s, a);
    var c := MantissaEnd(s, b);
    var n := ExponentEnd(s, c);
    assert MantissaIn(s, a, b, c);
    if n > c {
      assert NumberIn(s, a, b, c, SignEnd(s, c + 1), n);
    } else {
      assert NumberIn(s, a, b, c, c, n);
    }
  }

  lemma RunLongest(s: string, i: nat, e: nat)
    requires DigitsIn(s, i, e)
    ensures e <= DigitsEnd(s, i)
    ensures e < |s| && !IsDigit(s[e]) ==> e == DigitsEnd(s, i)
  {
  }

  /** No longer beginning is one. */
  lemma NumberLongest(s: string, a: nat, b: nat, c: nat, d: nat, e: nat)
    requires NumberIn(s, a, b, c, d, e)
    ensures e <= NumberEnd(s)
  {
    hide DigitsEnd;
    assert SignEnd(s, 0) == a;
    RunLongest(s, a, b);
    if c > b {
      RunLongest(s, b + 1, c);
    }
    if e > c {
      assert SignEnd(s, c + 1) == d;
      RunLongest(s, d, e);
      assert c == b ==> DigitsEnd(s, a) == b;
    }
  }

  /** A beginning of a text reads like the text. */
  lemma NumberPrefix(s: string, n: nat)
    requires n <= |s|
    ensures NumberText(s[..n]) <==> exists a, b, c, d :: NumberIn(s, a, b, c, d, n)
  {
    hide NumberIn;
    var raw := s[..n];
    if a: nat, b: nat, c: nat, d: nat :| NumberIn(raw, a, b, c, d, n) {
      NumberInPrefix(s, n, a, b, c, d);
    }
    if a: nat, b: nat, c: nat, d: nat :| NumberIn(s, a, b, c, d, n) {
      NumberInPrefix(s, n, a, b, c, d);
      assert NumberIn(raw, a, b, c, d, |raw|);
    }
  }

  lemma NumberInPrefix(s: string, n: nat, a: nat, b: nat, c: nat, d: nat)
    requires n <= |s|
    ensures NumberIn(s[..n], a, b, c, d, n) == NumberIn(s, a, b, c, d, n)
  {
    ExponentPrefix(s, n, c, d);
    if c <= n {
      MantissaPrefix(s, n, a, b, c);
    }
    hide MantissaIn;
  }

  lemma ExponentPrefix(s: string, n: nat, c: nat, d: nat)
    requires n <= |s|
    ensures ExponentIn(s[..n], c, d, n) == ExponentIn(s, c, d, n)
  {
  }

  lemma MantissaPrefix(s: string, n: nat, a: nat, b: nat, c: nat)
    requires c <= n <= |s|
    ensures MantissaIn(s[..n], a, b, c) == MantissaIn(s, a, b, c)
  {
  }

  lemma NumberExact(s: string, n: nat)
    requires n <= |s|
    ensures NumberText(s[..n]) && NoLonger(s, NumberToken, n) <==> n > 0 && NumberEnd(s) == n
  {
    hide NumberIn, NumberEnd, NumberText;
    NumberPrefix(s, n);
    forall m: nat | m <= |s| && NumberText(s[..m])
      ensures 0 < m <= NumberEnd(s)
    {
      NumberBounded(s, m);
    }
    if NumberEnd(s) > 0 {
      NumberMatched(s);
      NumberPrefix(s, NumberEnd(s));
      assert NumberText(s[..NumberEnd(s)]);
      assert Pattern(NumberToken, s[..NumberEnd(s)], s[..NumberEnd(s)]);
    }
  }

  lemma NumberBounded(s: string, m: nat)
    requires m <= |s| && NumberText(s[..m])
    ensures 0 < m <= NumberEnd(s)
  {
    hide NumberEnd;
    NumberPrefix(s, m);
    var a: nat, b: nat, c: nat, d: nat :| NumberIn(s, a, b, c, d, m);
    NumberLongest(s, a, b, c, d, m);
  }

  // ----- The other patterns -----

  ghost predicate WordChar(c: char) {
    'a' <= c <= 'z' || 'A' <= c <= 'Z' || '0' <= c <= '9' || c == '_'
  }

  lemma WordExact(s: string, n: nat)
    requires n <= |s|
    ensures WordText(s[..n]) && NoLonger(s, WordToken, n) <==> s != "" && IsWordStart(s[0]) && n == WordEnd(s, 1)
  {
    hide WordEnd;
    if s != "" && IsWordStart(s[0]) {
      var e := WordEnd(s, 1);
      WordPrefix(s, e);
      assert Pattern(WordToken, s[..e], s[..e]);
      forall m: nat | e < m <= |s|
        ensures !WordText(s[..m])
      {
        WordStops(s, e, m);
      }
    } else if n > 0 {
      assert s[..n][0] == s[0];
    }
  }

  lemma WordStops(s: string, e: nat, m: nat)
    requires e < m <= |s| && !IsWordPart(s[e])
    ensures !WordText(s[..m])
  {
    assert s[..m][e] == s[e];
  }

  lemma WordPrefix(s: string, n: nat)
    requires 0 < n <= |s| && IsWordStart(s[0]) && forall k | 1 <= k < n :: IsWordPart(s[k])
    ensures WordText(s[..n])
  {
  }

  const SYMBOLS: set<string> := {"<=", ">=", "<>", "=", "<", ">", "(", ")", ","}

  lemma SymbolPrefix(s: string, m: nat)
    requires m <= |s|
    ensures s[..m] in SYMBOLS <==>
      || (m == 1 && s[0] in "=<>(),")
      || (m == 2 && ((s[0] == '<' && (s[1] == '=' || s[1] == '>')) || (s[0] == '>' && s[1] == '=')))
  {
    if m == 1 {
      assert s[..m] == [s[0]];
    } else if m == 2 {
      assert s[..m] == [s[0], s[1]];
    }
  }

  lemma SymbolExact(s: string, n: nat)
    requires n <= |s|
    ensures s[..n] in SYMBOLS && NoLonger(s, SymbolToken, n) <==> n > 0 && n == SymbolEnd(s)
  {
    forall m: nat, value | m <= |s|
      ensures Pattern(SymbolToken, s[..m], value) <==> value == s[..m] && s[..m] in SYMBOLS
    {
    }
    forall m: nat | m <= |s| {
      SymbolPrefix(s, m);
    }
    TwoSymbols(s);
    hide SymbolEnd;
    if SymbolEnd(s) == 1 {
      assert Pattern(SymbolToken, s[..1], s[..1]);
    } else if SymbolEnd(s) == 2 {
      assert Pattern(SymbolToken, s[..2], s[..2]);
    }
  }

  lemma TwoSymbols(s: string)
    ensures SymbolEnd(s) ==
      if |s| >= 2 && ((s[0] == '<' && (s[1] == '=' || s[1] == '>')) || (s[0] == '>' && s[1] == '=')) then 2
      else if s != "" && s[0] in "=<>()," then 1 else 0
  {
  }

  lemma QuotedExact(q: char, kind: TokenKind, s: string, n: nat, value: string)
    requires s != "" && s[0] == q && n <= |s| && ((q == '\'' && kind == StringToken) || (q == '\"' && kind == IdentifierToken))
    ensures var e := QuoteEnd(q, s, 1, 0);
      (Pattern(kind, s[..n], value) && NoLonger(s, kind, n))
      <==> e >= (if kind == StringToken then 1 else 2) && n == e + 1 && value == Undoubled(q, s[1..e])
  {
    hide QuoteEnd, Closes, Undoubled, QuotedText;
    var e := QuoteEnd(q, s, 1, 0);
    assert s[1..1] == "";
    assert forall m: nat | m < 1 :: !Closes(q, s, m) by {
      NotBefore(q, s);
    }
    QuoteEndLast(q, s, 1, 0);
    forall m: nat, v | m <= |s|
      ensures Pattern(kind, s[..m], v) <==> m >= 2 && Closes(q, s, m - 1) && v == Undoubled(q, s[1..m - 1]) && (kind == IdentifierToken ==> v != "")
    {
      QuotedCloses(q, s, m, v);
    }
    if e > 0 {
      ClosesBounds(q, s, e);
      UndoubledEmpty(q, s[1..e]);
      assert e >= 2 || kind == StringToken ==> Pattern(kind, s[..e + 1], Undoubled(q, s[1..e]));
    }
  }

  lemma NotBefore(q: char, s: string)
    ensures !Closes(q, s, 0)
  {
  }

  lemma ClosesBounds(q: char, s: string, e: nat)
    requires Closes(q, s, e)
    ensures 1 <= e < |s|
  {
  }

  lemma UndoubledEmpty(q: char, t: string)
    ensures Undoubled(q, t) == "" <==> t == ""
  {
  }

  // ----- The lexer computes it -----

  lemma WhiteExact(c: char)
    ensures White(c) <==> IsSpace(c)
  {
  }

  /** What the first character says of the kind. */
  lemma FirstCharacter(kind: TokenKind, raw: string, value: string)
    requires Pattern(kind, raw, value)
    ensures raw != ""
    ensures match kind
      case StringToken => raw[0] == '\''
      case IdentifierToken => raw[0] == '\"'
      case NumberToken => IsDigit(raw[0]) || raw[0] == '+' || raw[0] == '-' || raw[0] == '.'
      case WordToken => IsWordStart(raw[0])
      case SymbolToken => raw[0] in "=<>(),"
  {
    if kind == SymbolToken {
      assert raw[..|raw|] == raw;
      SymbolPrefix(raw, |raw|);
    }
  }

  lemma LexemeStart(s: string, t: Token, n: nat)
    requires Lexeme(s, t, n)
    ensures n > 0 && s[..n][0] == s[0]
  {
    FirstCharacter(t.kind, s[..n], t.value);
  }

  lemma NumberStart(s: string)
    requires NumberEnd(s) > 0
    ensures IsDigit(s[0]) || s[0] == '+' || s[0] == '-' || s[0] == '.'
  {
  }

  /** The lexer's next token is the one the text begins with. */
  lemma NextTokenExact(s: string, t: Token, n: nat)
    ensures NextToken(s) == Some((t, n)) <==> Lexeme(s, t, n)
  {
    hide QuoteEnd, NumberEnd, WordEnd, SymbolEnd, Undoubled, NoLonger, QuotedText, NumberText, WordText;
    if s != "" && n <= |s| {
      if Lexeme(s, t, n) {
        LexemeStart(s, t, n);
        FirstCharacter(t.kind, s[..n], t.value);
      }
      if NumberEnd(s) > 0 {
        NumberStart(s);
      }
      NumberExact(s, n);
      WordExact(s, n);
      SymbolExact(s, n);
      if s[0] == '\'' {
        QuotedExact('\'', StringToken, s, n, t.value);
      } else if s[0] == '\"' {
        QuotedExact('\"', IdentifierToken, s, n, t.value);
      }
    }
    if s == "" && Lexeme(s, t, n) {
      LexemeStart(s, t, n);
    }
  }

  /** The lexer gives these tokens exactly if the text is made of them; it refuses exactly a text that is
      made of none. */
  lemma {:induction false} LexExact(s: string, ts: seq<Token>)
    ensures Tokens(s) == Some(ts) <==> Lexes(s, ts)
    decreases |s|
  {
    hide NextToken, Lexeme, IsSpace, White;
    if s != "" {
      WhiteExact(s[0]);
      if IsSpace(s[0]) {
        LexExact(s[1..], ts);
      } else {
        var next := NextToken(s);
        forall t, n: nat {
          NextTokenExact(s, t, n);
        }
        if next.Some? {
          var (t, n) := next.value;
          if ts != [] {
            LexExact(s[n..], ts[1..]);
            assert ts == [ts[0]] + ts[1..];
            PrependOne(t, Tokens(s[n..]), ts);
          }
        }
      }
    }
  }

  lemma PrependOne(t: Token, rest: Option<seq<Token>>, ts: seq<Token>)
    requires ts != []
    ensures Prepend([t], rest) == Some(ts) <==> t == ts[0] && rest == Some(ts[1..])
  {
    if rest.Some? {
      assert ([t] + rest.value)[0] == t && ([t] + rest.value)[1..] == rest.value;
    }
    assert ts == [ts[0]] + ts[1..];
  }
}
