/** The lexer of `parsePredicate`: the first matching pattern of quoted string, quoted identifier,
    number, word and symbol, at every position that is not white space. */
module Lexer {
  import opened Wrappers
  import opened Chars

  datatype TokenKind = IdentifierToken | StringToken | NumberToken | WordToken | SymbolToken

  datatype Token = Token(kind: TokenKind, value: string)

  // ----- The patterns -----

  /** Index of the closing quote when matching content and doubled quotes from `i` on, or 0. When the
      text ends first, matching steps back to the last doubled quote, whose first half then closes. */
  function QuoteEnd(q: char, s: string, i: nat, last: nat): (e: nat)
    requires last < |s|
    ensures e < |s|
    decreases |s| - i
  {
    if i >= |s| then last
    else if s[i] != q then QuoteEnd(q, s, i + 1, last)
    else if i + 1 < |s| && s[i + 1] == q then QuoteEnd(q, s, i + 2, i)
    else i
  }

  function SignEnd(s: string, i: nat): (e: nat)
    requires i <= |s|
    ensures i <= e <= |s|
  {
    if i < |s| && (s[i] == '+' || s[i] == '-') then i + 1 else i
  }

  function MantissaEnd(s: string, whole: nat): (e: nat)
    requires whole <= |s|
    ensures whole <= e <= |s|
  {
    if whole < |s| && s[whole] == '.' then DigitsEnd(s, whole + 1) else whole
  }

  function ExponentEnd(s: string, mantissa: nat): (e: nat)
    requires mantissa <= |s|
    ensures mantissa <= e <= |s|
  {
    if mantissa < |s| && (s[mantissa] == 'e' || s[mantissa] == 'E') then
      var digits := SignEnd(s, mantissa + 1);
      var end := DigitsEnd(s, digits);
      if end > digits then end else mantissa
    else mantissa
  }

  /** Length of the match of `[+-]?(?:\d+(?:\.\d*)?|\.\d+)(?:[eE][+-]?\d+)?` at the start, or 0. */
  function NumberEnd(s: string): (e: nat)
    ensures e <= |s|
  {
    var sign := SignEnd(s, 0);
    var whole := DigitsEnd(s, sign);
    var mantissa := MantissaEnd(s, whole);
    if whole == sign && mantissa <= whole + 1 then 0 else ExponentEnd(s, mantissa)
  }

  predicate IsWordStart(c: char) {
    'A' <= c <= 'Z' || 'a' <= c <= 'z' || c == '_'
  }

  predicate IsWordPart(c: char) {
    IsWordStart(c) || IsDigit(c)
  }

  function WordEnd(s: string, i: nat): (e: nat)
    requires i <= |s|
    ensures i <= e <= |s|
    ensures forall k | i <= k < e :: IsWordPart(s[k])
    ensures e < |s| ==> !IsWordPart(s[e])
    decreases |s| - i
  {
    if i < |s| && IsWordPart(s[i]) then WordEnd(s, i + 1) else i
  }

  function SymbolEnd(s: string): (e: nat)
    ensures e <= |s|
  {
    if "<=" <= s || ">=" <= s || "<>" <= s then 2
    else if s != "" && s[0] in "=<>()," then 1
    else 0
  }

  /** `replaceAll(qq, q)` */
  function Undoubled(q: char, s: string): string {
    if s == "" then ""
    else if |s| >= 2 && s[0] == q && s[1] == q then [q] + Undoubled(q, s[2..])
    else [s[0]] + Undoubled(q, s[1..])
  }

  /** `replaceAll(q, qq)` */
  function Doubled(q: char, s: string): string {
    if s == "" then "" else (if s[0] == q then [q, q] else [s[0]]) + Doubled(q, s[1..])
  }

  /** The token at the start of the text and the length of its match. */
  function NextToken(s: string): (r: Option<(Token, nat)>)
    ensures r.Some? ==> 0 < r.value.1 <= |s|
  {
    if s == "" then None
    else if s[0] == '\'' && QuoteEnd('\'', s, 1, 0) >= 1 then
      var e := QuoteEnd('\'', s, 1, 0);
      Some((Token(StringToken, Undoubled('\'', s[1..e])), e + 1))
    else if s[0] == '\"' && QuoteEnd('\"', s, 1, 0) >= 2 then
      var e := QuoteEnd('\"', s, 1, 0);
      Some((Token(IdentifierToken, Undoubled('\"', s[1..e])), e + 1))
    else if NumberEnd(s) > 0 then Some((Token(NumberToken, s[..NumberEnd(s)]), NumberEnd(s)))
    else if IsWordStart(s[0]) then Some((Token(WordToken, s[..WordEnd(s, 1)]), WordEnd(s, 1)))
    else if SymbolEnd(s) > 0 then Some((Token(SymbolToken, s[..SymbolEnd(s)]), SymbolEnd(s)))
    else None
  }

  function Prepend(ts: seq<Token>, o: Option<seq<Token>>): Option<seq<Token>> {
    if o.None? then None else Some(ts + o.value)
  }

  function Tokens(s: string): Option<seq<Token>>
    decreases |s|
  {
    if s == "" then Some([])
    else if IsSpace(s[0]) then Tokens(s[1..])
    else
      var next :- NextToken(s);
      Prepend([next.0], Tokens(s[next.1..]))
  }

  lemma PrependNothing(o: Option<seq<Token>>)
    ensures Prepend([], o) == o
  {
    if o.Some? {
      assert [] + o.value == o.value;
    }
  }

  lemma PrependMore(a: seq<Token>, b: seq<Token>, o: Option<seq<Token>>)
    ensures Prepend(a, Prepend(b, o)) == Prepend(a + b, o)
  {
    if o.Some? {
      assert a + (b + o.value) == (a + b) + o.value;
    }
  }

  lemma TokensSpace(s: string, at: nat)
    requires at < |s| && IsSpace(s[at])
    ensures Tokens(s[at..]) == Tokens(s[at + 1..])
  {
    var t := s[at..];
    assert t[0] == s[at] && t[1..] == s[at + 1..];
  }

  lemma TokensStep(s: string, at: nat)
    requires at < |s| && !IsSpace(s[at])
    ensures var next := NextToken(s[at..]);
      Tokens(s[at..]) == if next.None? then None else Prepend([next.value.0], Tokens(s[at + next.value.1..]))
  {
    var t := s[at..];
    assert t[0] == s[at];
    var next := NextToken(t);
    if next.Some? {
      assert t[next.value.1..] == s[at + next.value.1..];
    }
  }

  lemma {:induction false} TokensSpaces(s: string, from: nat, to: nat)
    requires from <= to <= |s| && forall k | from <= k < to :: IsSpace(s[k])
    ensures Tokens(s[from..]) == Tokens(s[to..])
    decreases |s| - from
  {
    if from < to {
      TokensSpace(s, from);
      TokensSpaces(s, from + 1, to);
    }
  }

  method SkipSpace(s: string, start: nat) returns (at: nat)
    requires start <= |s|
    ensures start <= at <= |s| && (at < |s| ==> !IsSpace(s[at]))
    ensures forall k | start <= k < at :: IsSpace(s[k])
  {
    at := start;
    while at < |s| && IsSpace(s[at])
      invariant start <= at <= |s| && forall k | start <= k < at :: IsSpace(s[k])
    {
      at := at + 1;
    }
  }

  lemma SpacesAdvance(s: string, at: nat, next: nat)
    requires at <= next <= |s| && forall k | at <= k < next :: IsSpace(s[k])
    ensures Tokens(s[at..]) == Prepend([], Tokens(s[next..]))
  {
    TokensSpaces(s, at, next);
    PrependNothing(Tokens(s[next..]));
  }

  /** One round of the loop: white space or a token is passed, or nothing matches. */
  method Advance(s: string, at: nat) returns (ok: bool, passed: seq<Token>, next: nat)
    requires at < |s|
    ensures ok ==> at < next <= |s| && Tokens(s[at..]) == Prepend(passed, Tokens(s[next..]))
    ensures !ok ==> Tokens(s[at..]) == None
    ensures IsSpace(s[at]) ==> ok && passed == [] && (forall k | at <= k < next :: IsSpace(s[k])) && (next < |s| ==> !IsSpace(s[next]))
    ensures !IsSpace(s[at]) ==> (ok <==> NextToken(s[at..]).Some?)
    ensures ok && !IsSpace(s[at]) ==> |passed| == 1 && NextToken(s[at..]) == Some((passed[0], next - at))
  {
    hide Tokens;
    next := SkipSpace(s, at);
    if next > at {
      SpacesAdvance(s, at, next);
      return true, [], next;
    }
    var found := NextToken(s[at..]);
    TokensStep(s, at);
    if found.None? {
      return false, [], at;
    }
    return true, [found.value.0], at + found.value.1;
  }

  ghost predicate LexedTo(all: Option<seq<Token>>, tokens: seq<Token>, rest: Option<seq<Token>>) {
    all == Prepend(tokens, rest)
  }

  lemma LexedMore(all: Option<seq<Token>>, tokens: seq<Token>, rest: Option<seq<Token>>, passed: seq<Token>,
      rest': Option<seq<Token>>)
    requires LexedTo(all, tokens, rest) && LexedTo(rest, passed, rest')
    ensures LexedTo(all, tokens + passed, rest')
  {
    PrependMore(tokens, passed, rest');
  }

  lemma TokensNone()
    ensures Tokens("") == Some([])
  {
  }

  method Lex(expression: string) returns (r: Option<seq<Token>>)
    ensures r == Tokens(expression)
  {
    var tokens: seq<Token>, at := [], 0;
    assert expression[0..] == expression;
    PrependNothing(Tokens(expression));
    while at < |expression|
      invariant at <= |expression|
      invariant LexedTo(Tokens(expression), tokens, Tokens(expression[at..]))
    {
      var ok, passed, next := Advance(expression, at);
      if !ok {
        return None;
      }
      LexedMore(Tokens(expression), tokens, Tokens(expression[at..]), passed, Tokens(expression[next..]));
      tokens, at := tokens + passed, next;
    }
    assert expression[at..] == "";
    TokensNone();
    assert tokens + [] == tokens;
    return Some(tokens);
  }

  // ----- Reading back what is printed -----

  /** What can follow a printed token: nothing that would extend it. */
  predicate SafeStart(s: string) {
    s == "" || s[0] == ' ' || s[0] == ')' || s[0] == ',' || s[0] == '('
  }

  /** The text lexes to the tokens whatever follows (`closed`), or whatever safely follows. */
  ghost predicate Reads(text: string, tokens: seq<Token>, closed: bool) {
    forall rest | closed || SafeStart(rest) :: Tokens(text + rest) == Prepend(tokens, Tokens(rest))
  }

  lemma ReadsAt(a: string, ta: seq<Token>, ca: bool, rest: string)
    requires Reads(a, ta, ca) && (ca || SafeStart(rest))
    ensures Tokens(a + rest) == Prepend(ta, Tokens(rest))
  {
  }

  lemma SafeConcat(b: string, rest: string)
    requires b != "" && SafeStart(b)
    ensures SafeStart(b + rest)
  {
    assert (b + rest)[0] == b[0];
  }

  lemma Associate(a: string, b: string, c: string)
    ensures (a + b) + c == a + (b + c)
  {
  }

  lemma ReadsThen(a: string, ta: seq<Token>, ca: bool, b: string, tb: seq<Token>, cb: bool)
    requires Reads(a, ta, ca) && Reads(b, tb, cb)
    requires ca || (b != "" && SafeStart(b))
    ensures Reads(a + b, ta + tb, cb)
  {
    forall rest | cb || SafeStart(rest)
      ensures Tokens((a + b) + rest) == Prepend(ta + tb, Tokens(rest))
    {
      Associate(a, b, rest);
      ReadsAt(b, tb, cb, rest);
      if !ca {
        SafeConcat(b, rest);
      }
      ReadsAt(a, ta, ca, b + rest);
      PrependMore(ta, tb, Tokens(rest));
    }
  }

  /** Enough for `Reads`: the first token of the text, followed by anything allowed, is that text. */
  lemma ReadsOne(text: string, t: Token, closed: bool)
    requires text != "" && !IsSpace(text[0])
    requires forall rest | closed || SafeStart(rest) :: NextToken(text + rest) == Some((t, |text|))
    ensures Reads(text, [t], closed)
  {
    forall rest | closed || SafeStart(rest)
      ensures Tokens(text + rest) == Prepend([t], Tokens(rest))
    {
      assert NextToken(text + rest) == Some((t, |text|));
      assert (text + rest)[0] == text[0] && (text + rest)[|text|..] == rest;
    }
  }

  lemma ReadsSpace()
    ensures Reads(" ", [], true)
  {
    forall rest
      ensures Tokens(" " + rest) == Prepend([], Tokens(rest))
    {
      assert (" " + rest)[1..] == rest;
      assert Tokens(rest).Some? ==> [] + Tokens(rest).value == Tokens(rest).value;
    }
  }

  lemma ReadsBracket(c: char)
    requires c == '(' || c == ')' || c == ','
    ensures Reads([c], [Token(SymbolToken, [c])], true)
  {
    forall rest: string
      ensures NextToken([c] + rest) == Some((Token(SymbolToken, [c]), 1))
    {
      var s := [c] + rest;
      assert s[0] == c && DigitsEnd(s, 0) == 0 && NumberEnd(s) == 0;
      assert s[..1] == [c];
    }
    ReadsOne([c], Token(SymbolToken, [c]), true);
  }

  lemma ReadsOperator(text: string)
    requires text in {"=", "<>", "<", "<=", ">", ">="}
    ensures Reads(text, [Token(SymbolToken, text)], false)
  {
    hide NextToken, SafeStart;
    forall rest: string | SafeStart(rest)
      ensures NextToken(text + rest) == Some((Token(SymbolToken, text), |text|))
    {
      OperatorToken(text, rest);
    }
    ReadsOne(text, Token(SymbolToken, text), false);
  }

  lemma OperatorToken(text: string, rest: string)
    requires text in {"=", "<>", "<", "<=", ">", ">="} && SafeStart(rest)
    ensures NextToken(text + rest) == Some((Token(SymbolToken, text), |text|))
  {
    var s := text + rest;
    assert s[0] == text[0] && NumberEnd(s) == 0 by {
      assert DigitsEnd(s, 0) == 0;
    }
    OperatorEnd(text, rest);
    assert s[..|text|] == text;
  }

  lemma OperatorEnd(text: string, rest: string)
    requires text in {"=", "<>", "<", "<=", ">", ">="} && SafeStart(rest)
    ensures SymbolEnd(text + rest) == |text|
  {
    var s := text + rest;
    assert |s| > |text| ==> s[|text|] == rest[0];
    assert |text| == 2 ==> s[1] == text[1];
  }

  predicate IsWord(w: string) {
    w != "" && IsWordStart(w[0]) && forall i | 0 <= i < |w| :: IsWordPart(w[i])
  }

  lemma {:induction false} WordEndExact(s: string, i: nat, n: nat)
    requires i <= n <= |s|
    requires forall k | i <= k < n :: IsWordPart(s[k])
    requires n < |s| ==> !IsWordPart(s[n])
    ensures WordEnd(s, i) == n
    decreases n - i
  {
    if i < n {
      WordEndExact(s, i + 1, n);
    }
  }

  lemma ReadsWord(w: string)
    requires IsWord(w)
    ensures Reads(w, [Token(WordToken, w)], false)
  {
    forall rest: string | SafeStart(rest)
      ensures NextToken(w + rest) == Some((Token(WordToken, w), |w|))
    {
      var s := w + rest;
      assert s[0] == w[0] && DigitsEnd(s, 0) == 0 && NumberEnd(s) == 0;
      forall k | 1 <= k < |w|
        ensures IsWordPart(s[k])
      {
        assert s[k] == w[k];
      }
      assert |w| < |s| ==> s[|w|] == rest[0];
      WordEndExact(s, 1, |w|);
      assert s[..|w|] == w;
    }
    ReadsOne(w, Token(WordToken, w), false);
  }

  /** The whole text is one number. */
  predicate IsNumberText(v: string) {
    v != "" && NumberEnd(v) == |v|
  }

  lemma {:induction false} DigitsEndPrefix(v: string, rest: string, i: nat)
    requires i <= |v| && SafeStart(rest)
    ensures DigitsEnd(v + rest, i) == DigitsEnd(v, i)
    decreases |v| - i
  {
    var s := v + rest;
    if i < |v| {
      assert s[i] == v[i];
      if IsDigit(v[i]) {
        DigitsEndPrefix(v, rest, i + 1);
      }
    } else if i < |s| {
      assert s[i] == rest[0];
    }
  }

  /** What follows a text safely is none of the characters a number goes on with. */
  lemma PrefixChars(v: string, rest: string, i: nat)
    requires i <= |v| && SafeStart(rest)
    ensures i < |v| ==> (v + rest)[i] == v[i]
    ensures i == |v| && i < |v + rest| ==> (v + rest)[i] == rest[0] && rest[0] !in "+-.eE"
  {
  }

  lemma MantissaEndPrefix(v: string, rest: string, whole: nat)
    requires whole <= |v| && SafeStart(rest)
    ensures MantissaEnd(v + rest, whole) == MantissaEnd(v, whole)
  {
    PrefixChars(v, rest, whole);
    if whole < |v| && v[whole] == '.' {
      DigitsEndPrefix(v, rest, whole + 1);
    }
  }

  lemma ExponentEndPrefix(v: string, rest: string, mantissa: nat)
    requires mantissa <= |v| && SafeStart(rest)
    ensures ExponentEnd(v + rest, mantissa) == ExponentEnd(v, mantissa)
  {
    PrefixChars(v, rest, mantissa);
    if mantissa < |v| {
      PrefixChars(v, rest, mantissa + 1);
      DigitsEndPrefix(v, rest, SignEnd(v, mantissa + 1));
    }
  }

  lemma NumberEndPrefix(v: string, rest: string)
    requires v != "" && SafeStart(rest)
    ensures NumberEnd(v + rest) == NumberEnd(v)
  {
    PrefixChars(v, rest, 0);
    var sign := SignEnd(v, 0);
    DigitsEndPrefix(v, rest, sign);
    var whole := DigitsEnd(v, sign);
    MantissaEndPrefix(v, rest, whole);
    PrefixChars(v, rest, whole);
    ExponentEndPrefix(v, rest, MantissaEnd(v, whole));
  }

  lemma ReadsNumber(v: string)
    requires IsNumberText(v)
    ensures Reads(v, [Token(NumberToken, v)], false)
  {
    assert v[0] == '+' || v[0] == '-' || v[0] == '.' || IsDigit(v[0]);
    forall rest: string | SafeStart(rest)
      ensures NextToken(v + rest) == Some((Token(NumberToken, v), |v|))
    {
      NumberEndPrefix(v, rest);
      assert (v + rest)[0] == v[0] && (v + rest)[..|v|] == v;
    }
    ReadsOne(v, Token(NumberToken, v), false);
  }

  // ----- Doubled quotes -----

  lemma {:induction false} UndoubledDoubled(q: char, x: string)
    ensures Undoubled(q, Doubled(q, x)) == x
  {
    if x != "" {
      var d := Doubled(q, x[1..]);
      UndoubledDoubled(q, x[1..]);
      if x[0] == q {
        assert ([q, q] + d)[2..] == d;
      } else {
        assert ([x[0]] + d)[1..] == d;
      }
      assert x == [x[0]] + x[1..];
    }
  }

  /** Scanning past doubled content stops at the single quote behind it. */
  lemma {:induction false} QuoteEndDoubled(q: char, before: string, x: string, rest: string, last: nat)
    requires rest != "" ==> rest[0] != q
    requires last < |before|
    ensures var s := before + Doubled(q, x) + [q] + rest;
      QuoteEnd(q, s, |before|, last) == |before| + |Doubled(q, x)|
    decreases |x|
  {
    var s := before + Doubled(q, x) + [q] + rest;
    if x == "" {
      assert s[|before|] == q;
      assert |before| + 1 < |s| ==> s[|before| + 1] == rest[0];
    } else {
      var d := Doubled(q, x[1..]);
      var head := if x[0] == q then [q, q] else [x[0]];
      assert s == (before + head) + d + [q] + rest;
      assert s[|before|] == head[0];
      if x[0] == q {
        assert s[|before| + 1] == q;
        QuoteEndDoubled(q, before + head, x[1..], rest, |before|);
      } else {
        QuoteEndDoubled(q, before + head, x[1..], rest, last);
      }
    }
  }

  function Quoted(q: char, x: string): string {
    [q] + Doubled(q, x) + [q]
  }

  /** Lexing recovers a quoted string or identifier, whatever its characters. */
  lemma ReadsQuoted(q: char, x: string)
    requires q == '\'' || (q == '\"' && x != "")
    ensures Reads(Quoted(q, x), [Token(if q == '\'' then StringToken else IdentifierToken, x)], false)
  {
    var t := Token(if q == '\'' then StringToken else IdentifierToken, x);
    var text := Quoted(q, x);
    forall rest: string | SafeStart(rest)
      ensures NextToken(text + rest) == Some((t, |text|))
    {
      var s := text + rest;
      assert s == [q] + Doubled(q, x) + [q] + rest;
      QuoteEndDoubled(q, [q], x, rest, 0);
      assert s[0] == q && s[1..1 + |Doubled(q, x)|] == Doubled(q, x);
      UndoubledDoubled(q, x);
    }
    ReadsOne(text, t, false);
  }
}
