/** Printing and parsing are inverse: parsing the printed text of a predicate gives its normal form,
    and what the parser accepts can be printed and parsed again. */
module RoundTrip {
  import opened Wrappers
  import opened Ordering
  import opened Chars
  import opened ColumnTypes
  import opened Predicates
  import opened Normalisation
  import opened Evaluation
  import opened Lexer
  import opened Grammar
  import Composition

  // ----- What can be printed and read back -----

  /** A literal that is printed as one token. */
  ghost predicate LiteralOk(r: Readers, v: Option<string>, kind: string) {
    v.Some? ==>
      match r.family(kind)
      case Number => IsNumberText(v.value)
      case Float => IsNumberText(v.value)
      case Boolean => IsWord(Upper(v.value)) && Upper(Upper(v.value)) != "NULL"
      case Unsupported => false
      case _ => true
  }

  /** Column names are non-empty and no two columns share a name. */
  ghost predicate ColumnsOk(columns: seq<Column>) {
    && (forall c | c in columns :: c.name != "")
    && (forall i, j | 0 <= i < j < |columns| :: columns[i].name != columns[j].name)
  }

  ghost predicate TestOk(g: Context, p: Predicate) {
    && !p.Group? && !p.Not?
    && FindColumn(g.columns, p.column).Some?
    && var kind := FindColumn(g.columns, p.column).value.kind;
    && g.readers.family(kind) != Unsupported
    && match p
       case Compare(_, _, value) => LiteralOk(g.readers, value, kind)
       case In(_, values) => values != [] && forall v | v in values :: LiteralOk(g.readers, v, kind)
       case Scope(_, domain) => IsWord(domain)
       case _ => true
  }

  ghost predicate Printable(g: Context, p: Predicate)
    decreases p
  {
    match p
    case Group(_, terms) => |terms| >= 2 && forall t | t in terms :: Printable(g, t)
    case Not(term) => Printable(g, term)
    case _ => TestOk(g, p)
  }

  lemma {:induction false} PrintableKnown(g: Context, p: Predicate)
    requires Printable(g, p)
    ensures Known(p, g.columns)
    decreases p
  {
    match p
    case Group(_, terms) =>
      forall t | t in terms
        ensures Known(t, g.columns)
      {
        PrintableKnown(g, t);
      }
    case Not(term) => PrintableKnown(g, term);
    case _ =>
  }

  // ----- The tokens of the printed text -----

  function WordOf(w: string): Token {
    Token(WordToken, w)
  }

  function SymbolOf(s: string): Token {
    Token(SymbolToken, s)
  }

  function LiteralToken(v: Option<string>, f: Family): Token {
    match v
    case None => WordOf("NULL")
    case Some(value) =>
      match f
      case Number => Token(NumberToken, value)
      case Float => Token(NumberToken, value)
      case Boolean => WordOf(Upper(value))
      case _ => Token(StringToken, value)
  }

  /** What `typedLiteral` makes of a printed literal. */
  function RereadLiteral(r: Readers, v: Option<string>, kind: string): Option<Option<string>> {
    if v.None? then Some(None)
    else
      var t := LiteralToken(v, r.family(kind));
      var w :- TypedLiteral(r, t.value, t.kind, kind);
      Some(Some(w))
  }

  function RereadLiterals(r: Readers, vs: seq<Option<string>>, kind: string): Option<seq<Option<string>>> {
    if vs == [] then Some([])
    else
      var v :- RereadLiteral(r, vs[0], kind);
      var more :- RereadLiterals(r, vs[1..], kind);
      Some([v] + more)
  }

  /** The predicate with `typedLiteral` applied to all its literals. */
  function Reread(g: Context, p: Predicate): Option<Predicate>
    decreases p, 1
  {
    match p
    case Group(kind, terms) =>
      var ts :- RereadAll(g, terms);
      Some(Group(kind, ts))
    case Not(term) =>
      var t :- Reread(g, term);
      Some(Not(t))
    case Compare(column, operator, value) =>
      var c :- FindColumn(g.columns, column);
      var v :- RereadLiteral(g.readers, value, c.kind);
      Some(Compare(column, operator, v))
    case In(column, values) =>
      var c :- FindColumn(g.columns, column);
      var vs :- RereadLiterals(g.readers, values, c.kind);
      Some(In(column, vs))
    case _ => Some(p)
  }

  function RereadAll(g: Context, terms: seq<Predicate>): (r: Option<seq<Predicate>>)
    ensures r.Some? ==> |r.value| == |terms|
    decreases terms, 0
  {
    if terms == [] then Some([])
    else
      var t :- Reread(g, terms[0]);
      var ts :- RereadAll(g, terms[1..]);
      Some([t] + ts)
  }

  function BracketedTokens(ts: seq<Token>): seq<Token> {
    [SymbolOf("(")] + (ts + [SymbolOf(")")])
  }

  function ValueTokens(vs: seq<Option<string>>, f: Family): seq<Token>
    requires vs != []
  {
    if |vs| == 1 then [LiteralToken(vs[0], f)]
    else [LiteralToken(vs[0], f)] + ([SymbolOf(",")] + ValueTokens(vs[1..], f))
  }

  function TailTokens(p: Predicate, f: Family): seq<Token>
    requires !p.Group? && !p.Not? && (p.In? ==> p.values != [])
  {
    match p
    case Null(_, negated) => [WordOf("IS")] + (if negated then [WordOf("NOT")] + [WordOf("NULL")] else [WordOf("NULL")])
    case Scope(_, domain) => [WordOf("IN")] + ([WordOf("scope")] + BracketedTokens([WordOf(domain)]))
    case In(_, values) => [WordOf("IN")] + BracketedTokens(ValueTokens(values, f))
    case Compare(_, operator, value) => [SymbolOf(OperatorText(operator))] + [LiteralToken(value, f)]
  }

  ghost function TokensOf(g: Context, p: Predicate): seq<Token>
    requires Printable(g, p)
    decreases p, 1
  {
    match p
    case Group(kind, terms) => BracketedTokens(TokensOfTerms(g, kind, terms))
    case Not(term) => [WordOf("NOT")] + BracketedTokens(TokensOf(g, term))
    case _ =>
      var c := FindColumn(g.columns, p.column).value;
      [Token(IdentifierToken, c.name)] + TailTokens(p, g.readers.family(c.kind))
  }

  ghost function TokensOfTerms(g: Context, kind: GroupKind, terms: seq<Predicate>): seq<Token>
    requires terms != [] && forall t | t in terms :: Printable(g, t)
    decreases terms, 0
  {
    if |terms| == 1 then TokensOf(g, terms[0])
    else TokensOf(g, terms[0]) + ([WordOf(Separator(kind))] + TokensOfTerms(g, kind, terms[1..]))
  }

  // ----- Lexing the printed text -----

  lemma ReadsLiteral(r: Readers, v: Option<string>, kind: string)
    requires LiteralOk(r, v, kind)
    ensures Reads(LiteralText(v, r.family(kind)), [LiteralToken(v, r.family(kind))], false)
  {
    if v.None? {
      ReadsWord("NULL");
    } else {
      match r.family(kind)
      case Number => ReadsNumber(v.value);
      case Float => ReadsNumber(v.value);
      case Boolean =>
        ReadsWord(Upper(v.value));
      case Text => ReadsQuoted('\'', v.value);
      case Uuid => ReadsQuoted('\'', v.value);
      case Time => ReadsQuoted('\'', v.value);
    }
  }

  lemma ReadsSpaced(a: string, ta: seq<Token>, closed: bool)
    requires Reads(a, ta, closed)
    ensures Reads(Spaced(a), ta, closed) && Spaced(a) != "" && SafeStart(Spaced(a))
  {
    ReadsSpace();
    ReadsThen(" ", [], true, a, ta, closed);
    assert [] + ta == ta;
  }

  /** A word, a space, and a text. */
  lemma ReadsWordThen(w: string, a: string, ta: seq<Token>, closed: bool)
    requires IsWord(w) && Reads(a, ta, closed)
    ensures Reads(w + Spaced(a), [WordOf(w)] + ta, closed)
  {
    ReadsWord(w);
    ReadsSpaced(a, ta, closed);
    ReadsThen(w, [WordOf(w)], false, Spaced(a), ta, closed);
  }

  lemma ReadsBracketed(a: string, ta: seq<Token>, closed: bool)
    requires Reads(a, ta, closed)
    ensures Reads(Bracketed(a), BracketedTokens(ta), false)
    ensures Bracketed(a) != "" && SafeStart(Bracketed(a))
  {
    ReadsBracket(')');
    ReadsThen(a, ta, closed, ")", [SymbolOf(")")], true);
    ReadsBracket('(');
    ReadsThen("(", [SymbolOf("(")], true, a + ")", ta + [SymbolOf(")")], false);
  }

  lemma {:induction false} ReadsValues(r: Readers, vs: seq<Option<string>>, kind: string)
    requires vs != [] && forall v | v in vs :: LiteralOk(r, v, kind)
    ensures Reads(ValuesText(vs, r.family(kind)), ValueTokens(vs, r.family(kind)), false)
  {
    assert vs[0] in vs;
    ReadsLiteral(r, vs[0], kind);
    if |vs| > 1 {
      var rest, tr := ValuesText(vs[1..], r.family(kind)), ValueTokens(vs[1..], r.family(kind));
      assert forall v | v in vs[1..] :: v in vs;
      ReadsValues(r, vs[1..], kind);
      ReadsSpaced(rest, tr, false);
      ReadsBracket(',');
      ReadsThen(",", [SymbolOf(",")], true, Spaced(rest), tr, false);
      ReadsThen(LiteralText(vs[0], r.family(kind)), [LiteralToken(vs[0], r.family(kind))], false, "," + Spaced(rest), [SymbolOf(",")] + tr, false);
    }
  }

  /** A word with a text behind it, after the space that follows the column name. */
  lemma ReadsClause(w: string, a: string, ta: seq<Token>)
    requires IsWord(w) && Reads(a, ta, false)
    ensures Reads(Spaced(w + Spaced(a)), [WordOf(w)] + ta, false)
  {
    ReadsWordThen(w, a, ta, false);
    ReadsSpaced(w + Spaced(a), [WordOf(w)] + ta, false);
  }

  lemma ReadsNull(negated: bool)
    ensures var s := if negated then "NOT" + Spaced("NULL") else "NULL";
      var t := if negated then [WordOf("NOT")] + [WordOf("NULL")] else [WordOf("NULL")];
      Reads(Spaced("IS" + Spaced(s)), [WordOf("IS")] + t, false)
  {
    ReadsWord("NULL");
    if negated {
      ReadsWordThen("NOT", "NULL", [WordOf("NULL")], false);
      ReadsClause("IS", "NOT" + Spaced("NULL"), [WordOf("NOT")] + [WordOf("NULL")]);
    } else {
      ReadsClause("IS", "NULL", [WordOf("NULL")]);
    }
  }

  /** A word with a bracket directly behind it. */
  lemma ReadsCall(w: string, a: string, ta: seq<Token>)
    requires IsWord(w) && Reads(a, ta, false)
    ensures Reads(w + Bracketed(a), [WordOf(w)] + BracketedTokens(ta), false)
  {
    ReadsWord(w);
    ReadsBracketed(a, ta, false);
    ReadsThen(w, [WordOf(w)], false, Bracketed(a), BracketedTokens(ta), false);
  }

  lemma ReadsScope(domain: string)
    requires IsWord(domain)
    ensures Reads(Spaced("IN" + Spaced("scope" + Bracketed(domain))),
      [WordOf("IN")] + ([WordOf("scope")] + BracketedTokens([WordOf(domain)])), false)
  {
    ReadsWord(domain);
    ReadsCall("scope", domain, [WordOf(domain)]);
    ReadsClause("IN", "scope" + Bracketed(domain), [WordOf("scope")] + BracketedTokens([WordOf(domain)]));
  }

  lemma ReadsCompare(r: Readers, operator: Operator, value: Option<string>, kind: string)
    requires LiteralOk(r, value, kind)
    ensures var o := OperatorText(operator);
      Reads(Spaced(o + Spaced(LiteralText(value, r.family(kind)))), [SymbolOf(o)] + [LiteralToken(value, r.family(kind))], false)
  {
    var o, s, t := OperatorText(operator), LiteralText(value, r.family(kind)), [LiteralToken(value, r.family(kind))];
    ReadsLiteral(r, value, kind);
    ReadsSpaced(s, t, false);
    ReadsOperator(o);
    ReadsThen(o, [SymbolOf(o)], false, Spaced(s), t, false);
    ReadsSpaced(o + Spaced(s), [SymbolOf(o)] + t, false);
  }

  lemma ReadsTail(g: Context, p: Predicate, kind: string)
    requires TestOk(g, p) && kind == FindColumn(g.columns, p.column).value.kind
    ensures Reads(TailText(p, g.readers.family(kind)), TailTokens(p, g.readers.family(kind)), false)
    ensures TailText(p, g.readers.family(kind)) != "" && SafeStart(TailText(p, g.readers.family(kind)))
  {
    match p
    case Null(_, negated) => ReadsNull(negated);
    case Scope(_, domain) => ReadsScope(domain);
    case In(_, values) =>
      ReadsValues(g.readers, values, kind);
      ReadsBracketed(ValuesText(values, g.readers.family(kind)), ValueTokens(values, g.readers.family(kind)), false);
      ReadsClause("IN", Bracketed(ValuesText(values, g.readers.family(kind))), BracketedTokens(ValueTokens(values, g.readers.family(kind))));
    case Compare(_, operator, value) => ReadsCompare(g.readers, operator, value, kind);
  }

  lemma {:induction false} ReadsTerms(g: Context, kind: GroupKind, terms: seq<Predicate>)
    requires terms != [] && ColumnsOk(g.columns)
    requires forall t | t in terms :: Printable(g, t) && Known(t, g.columns)
    ensures Reads(PrintedTerms(g, kind, terms), TokensOfTerms(g, kind, terms), false)
    decreases terms, 0
  {
    var first := terms[0];
    assert first in terms;
    ReadsPredicate(g, first);
    if |terms| > 1 {
      assert forall t | t in terms[1..] :: t in terms;
      ReadsTerms(g, kind, terms[1..]);
      var s, t := PrintedTerms(g, kind, terms[1..]), TokensOfTerms(g, kind, terms[1..]);
      var w := Separator(kind);
      ReadsWordThen(w, s, t, false);
      ReadsSpaced(w + Spaced(s), [WordOf(w)] + t, false);
      ReadsThen(Printed(g, first), TokensOf(g, first), false, Spaced(w + Spaced(s)), [WordOf(w)] + t, false);
    }
  }

  /** The printed text lexes to the tokens of the predicate. */
  lemma {:induction false} ReadsPredicate(g: Context, p: Predicate)
    requires Printable(g, p) && Known(p, g.columns) && ColumnsOk(g.columns)
    ensures Reads(Printed(g, p), TokensOf(g, p), false)
    decreases p, 1
  {
    hide Reads, Tokens, LiteralOk, TailText, TailTokens;
    match p
    case Group(kind, terms) =>
      ReadsTerms(g, kind, terms);
      ReadsBracketed(PrintedTerms(g, kind, terms), TokensOfTerms(g, kind, terms), false);
    case Not(term) =>
      ReadsPredicate(g, term);
      ReadsBracketed(Printed(g, term), TokensOf(g, term), false);
      ReadsWordThen("NOT", Bracketed(Printed(g, term)), BracketedTokens(TokensOf(g, term)), false);
    case _ =>
      var c := FindColumn(g.columns, p.column).value;
      Composition.FindColumnId(g.columns, p.column);
      ReadsTail(g, p, c.kind);
      ReadsQuoted('\"', c.name);
      var f := g.readers.family(c.kind);
      ReadsThen(Quoted('\"', c.name), [Token(IdentifierToken, c.name)], false, TailText(p, f), TailTokens(p, f), false);
  }

  // ----- Parsing the tokens -----

  /** How deeply the printed text nests atoms. */
  function Height(p: Predicate): nat
    decreases p, 1
  {
    match p
    case Group(_, terms) => 1 + HeightOf(terms)
    case Not(term) => 2 + Height(term)
    case _ => 1
  }

  function HeightOf(terms: seq<Predicate>): nat
    decreases terms, 0
  {
    if terms == [] then 0 else
      var a, b := Height(terms[0]), HeightOf(terms[1..]);
      if a > b then a else b
  }

  /** No IN list is longer than the parser accepts. */
  predicate Sized(p: Predicate)
    decreases p
  {
    match p
    case Group(_, terms) => forall t | t in terms :: Sized(t)
    case Not(term) => Sized(term)
    case In(_, values) => |values| <= MAX_VALUES
    case _ => true
  }

  /** The parser reaches the end of the predicate at this depth. */
  predicate Fits(p: Predicate, depth: nat) {
    depth + Height(p) <= MAX_DEPTH && Sized(p)
  }

  predicate AllFit(terms: seq<Predicate>, depth: nat) {
    depth + HeightOf(terms) <= MAX_DEPTH && forall t | t in terms :: Sized(t)
  }

  /** What is read, if the limits hold and no literal is refused, and the tokens behind it. */
  function Outcome<T>(fits: bool, read: Option<T>, rest: seq<Token>): Parsed<T> {
    if fits && read.Some? then Some((read.value, rest)) else None
  }

  lemma ParsesLiteral(g: Context, c: Column, v: Option<string>, rest: seq<Token>)
    requires LiteralOk(g.readers, v, c.kind) && g.readers.family(c.kind) != Unsupported
    ensures ParseLiteral(g, c, [LiteralToken(v, g.readers.family(c.kind))] + rest)
      == Outcome(true, RereadLiteral(g.readers, v, c.kind), rest)
  {
    var t := LiteralToken(v, g.readers.family(c.kind));
    assert ([t] + rest)[1..] == rest;
    assert Upper("NULL") == "NULL";
  }

  lemma TakesSymbol(c: char, rest: seq<Token>)
    requires c == '(' || c == ')' || c == ','
    ensures Takes([SymbolOf([c])] + rest, [c])
    ensures forall s: string :: s != [c] ==> !Takes([SymbolOf([c])] + rest, s)
    ensures ([SymbolOf([c])] + rest)[1..] == rest
  {
    assert Upper([c]) == [c];
  }

  lemma TakesWord(w: string, rest: seq<Token>)
    ensures forall s: string :: Takes([WordOf(w)] + rest, s) <==> s == Upper(w)
    ensures ([WordOf(w)] + rest)[1..] == rest
  {
  }

  lemma ValuesUnfold(g: Context, c: Column, ts: seq<Token>, count: nat)
    ensures !Takes(ts, ",") ==> ParseValues(g, c, ts, count) == Some(([], ts))
    ensures Takes(ts, ",") && count >= MAX_VALUES ==> ParseValues(g, c, ts, count) == None
    ensures Takes(ts, ",") && count < MAX_VALUES ==>
      var v := ParseLiteral(g, c, ts[1..]);
      if v.None? then ParseValues(g, c, ts, count) == None
      else
        var vs := ParseValues(g, c, v.value.1, count + 1);
        ParseValues(g, c, ts, count) == if vs.None? then None else Some(([v.value.0] + vs.value.0, vs.value.1))
  {
  }

  lemma {:induction false} ParsesValues(g: Context, c: Column, vs: seq<Option<string>>, count: nat, rest: seq<Token>)
    requires forall v | v in vs :: LiteralOk(g.readers, v, c.kind)
    requires g.readers.family(c.kind) != Unsupported && !Takes(rest, ",")
    ensures ParseValues(g, c, MoreValues(vs, g.readers.family(c.kind)) + rest, count)
      == Outcome(count + |vs| <= MAX_VALUES || vs == [], RereadLiterals(g.readers, vs, c.kind), rest)
    decreases |vs|
  {
    hide LiteralOk, ParseLiteral, RereadLiteral, LiteralToken, Takes;
    var f := g.readers.family(c.kind);
    ValuesUnfold(g, c, MoreValues(vs, f) + rest, count);
    if vs == [] {
      assert MoreValues(vs, f) + rest == rest;
    } else {
      assert vs[0] in vs && forall v | v in vs[1..] :: v in vs;
      var comma, first, more := [SymbolOf(",")], [LiteralToken(vs[0], f)], MoreValues(vs[1..], f);
      Associated(comma, first + more, rest);
      Associated(first, more, rest);
      TakesSymbol(',', first + (more + rest));
      ParsesLiteral(g, c, vs[0], more + rest);
      ParsesValues(g, c, vs[1..], count + 1, rest);
    }
  }

  /** The values after the first, each behind its comma. */
  function MoreValues(vs: seq<Option<string>>, f: Family): seq<Token> {
    if vs == [] then [] else [SymbolOf(",")] + ([LiteralToken(vs[0], f)] + MoreValues(vs[1..], f))
  }

  lemma {:induction false} ValueTokensSplit(vs: seq<Option<string>>, f: Family)
    requires vs != []
    ensures ValueTokens(vs, f) == [LiteralToken(vs[0], f)] + MoreValues(vs[1..], f)
  {
    if |vs| > 1 {
      ValueTokensSplit(vs[1..], f);
    }
  }

  lemma ParsesList(g: Context, c: Column, values: seq<Option<string>>, rest: seq<Token>)
    requires values != [] && forall v | v in values :: LiteralOk(g.readers, v, c.kind)
    requires g.readers.family(c.kind) != Unsupported && !Takes(rest, ",")
    ensures ParseList(g, c, ValueTokens(values, g.readers.family(c.kind)) + rest)
      == Outcome(|values| <= MAX_VALUES, RereadLiterals(g.readers, values, c.kind), rest)
  {
    hide LiteralOk, ParseLiteral, RereadLiteral, LiteralToken, Takes, ParseList, ParseValues;
    var first, more := [LiteralToken(values[0], g.readers.family(c.kind))], MoreValues(values[1..], g.readers.family(c.kind));
    ValueTokensSplit(values, g.readers.family(c.kind));
    Associated(first, more, rest);
    assert values[0] in values && forall v | v in values[1..] :: v in values;
    ParsesLiteral(g, c, values[0], more + rest);
    ParsesValues(g, c, values[1..], 1, rest);
    ListUnfold(g, c, first + (more + rest));
  }

  lemma ListUnfold(g: Context, c: Column, ts: seq<Token>)
    ensures var v, all := ParseLiteral(g, c, ts), ParseList(g, c, ts);
      if v.None? then all == None
      else
        var vs := ParseValues(g, c, v.value.1, 1);
        all == if vs.None? then None else Some(([v.value.0] + vs.value.0, vs.value.1))
  {
  }

  lemma ParsesIn(g: Context, c: Column, values: seq<Option<string>>, rest: seq<Token>)
    requires values != [] && forall v | v in values :: LiteralOk(g.readers, v, c.kind)
    requires g.readers.family(c.kind) != Unsupported && FindColumn(g.columns, c.id) == Some(c)
    ensures ParseIn(g, c, BracketedTokens(ValueTokens(values, g.readers.family(c.kind))) + rest)
      == Outcome(|values| <= MAX_VALUES, Reread(g, In(c.id, values)), rest)
  {
    var close, inner := [SymbolOf(")")] + rest, ValueTokens(values, g.readers.family(c.kind));
    BracketedSplit(inner, rest);
    TakesSymbol('(', inner + close);
    TakesSymbol(')', rest);
    ParsesList(g, c, values, close);
    InUnfold(g, c, [SymbolOf("(")] + (inner + close));
  }

  lemma InUnfold(g: Context, c: Column, ts: seq<Token>)
    requires Takes(ts, "(") && !Takes(ts, "SCOPE")
    ensures var vs := ParseList(g, c, ts[1..]);
      ParseIn(g, c, ts) == if vs.None? || !Takes(vs.value.1, ")") then None else Some((In(c.id, vs.value.0), vs.value.1[1..]))
  {
  }

  lemma HeadAndRest<T>(s: seq<T>)
    requires s != []
    ensures s == [s[0]] + s[1..]
  {
  }

  lemma BracketedSplit(inner: seq<Token>, rest: seq<Token>)
    ensures BracketedTokens(inner) + rest == [SymbolOf("(")] + (inner + ([SymbolOf(")")] + rest))
  {
  }

  lemma ParsesScope(g: Context, c: Column, domain: string, rest: seq<Token>)
    requires IsWord(domain)
    ensures ParseIn(g, c, [WordOf("scope")] + BracketedTokens([WordOf(domain)]) + rest) == Some((Scope(c.id, domain), rest))
  {
    var close := [SymbolOf(")")] + rest;
    var inner := [WordOf(domain)] + close;
    var ts := [WordOf("scope")] + ([SymbolOf("(")] + inner);
    assert [WordOf("scope")] + BracketedTokens([WordOf(domain)]) + rest == ts;
    assert Upper("scope") == "SCOPE";
    TakesWord("scope", [SymbolOf("(")] + inner);
    TakesSymbol('(', inner);
    TakesSymbol(')', rest);
    assert ts[2] == WordOf(domain) && ts[3..] == close && ts[4..] == rest;
  }

  lemma ParsesNull(c: Column, negated: bool, rest: seq<Token>)
    ensures var t := if negated then [WordOf("NOT")] + [WordOf("NULL")] else [WordOf("NULL")];
      ParseNull(c, t + rest) == Some((Null(c.id, negated), rest))
  {
    assert Upper("NULL") == "NULL" && Upper("NOT") == "NOT";
    TakesWord("NULL", rest);
    if negated {
      assert ([WordOf("NOT")] + [WordOf("NULL")]) + rest == [WordOf("NOT")] + ([WordOf("NULL")] + rest);
      TakesWord("NOT", [WordOf("NULL")] + rest);
    }
  }

  lemma ParsesOperator(o: Operator)
    ensures ParseOperator(OperatorText(o)) == Some(o)
    ensures Upper(OperatorText(o)) == OperatorText(o)
  {
  }

  lemma TailUnfold(g: Context, c: Column, ts: seq<Token>)
    ensures Takes(ts, "IS") ==> ParseTail(g, c, ts) == ParseNull(c, ts[1..])
    ensures !Takes(ts, "IS") && !Takes(ts, "NOT") && Takes(ts, "IN") ==> ParseTail(g, c, ts) == ParseIn(g, c, ts[1..])
    ensures !Takes(ts, "IS") && !Takes(ts, "NOT") && !Takes(ts, "IN") ==> ParseTail(g, c, ts) == ParseComparison(g, c, ts)
  {
  }

  lemma ParsesCompare(g: Context, c: Column, operator: Operator, value: Option<string>, rest: seq<Token>)
    requires LiteralOk(g.readers, value, c.kind) && g.readers.family(c.kind) != Unsupported
    requires FindColumn(g.columns, c.id) == Some(c)
    ensures var ts := [SymbolOf(OperatorText(operator))] + ([LiteralToken(value, g.readers.family(c.kind))] + rest);
      ParseTail(g, c, ts) == Outcome(true, Reread(g, Compare(c.id, operator, value)), rest)
  {
    var more := [LiteralToken(value, g.readers.family(c.kind))] + rest;
    var ts := [SymbolOf(OperatorText(operator))] + more;
    assert ts[1..] == more;
    ParsesOperator(operator);
    TailUnfold(g, c, ts);
    ParsesLiteral(g, c, value, rest);
  }

  /** Behind the column name. */
  lemma ParsesTail(g: Context, p: Predicate, c: Column, rest: seq<Token>)
    requires TestOk(g, p) && c == FindColumn(g.columns, p.column).value && c.id == p.column
    ensures ParseTail(g, c, TailTokens(p, g.readers.family(c.kind)) + rest) == Outcome(Sized(p), Reread(g, p), rest)
  {
    var f := g.readers.family(c.kind);
    TailUnfold(g, c, TailTokens(p, f) + rest);
    match p
    case Null(_, negated) =>
      var t := if negated then [WordOf("NOT")] + [WordOf("NULL")] else [WordOf("NULL")];
      Associated([WordOf("IS")], t, rest);
      TakesWord("IS", t + rest);
      assert Upper("IS") == "IS";
      ParsesNull(c, negated, rest);
    case Scope(_, domain) =>
      var t := [WordOf("scope")] + BracketedTokens([WordOf(domain)]);
      Associated([WordOf("IN")], t, rest);
      TakesWord("IN", t + rest);
      assert Upper("IN") == "IN";
      ParsesScope(g, c, domain, rest);
    case In(_, values) =>
      var t := BracketedTokens(ValueTokens(values, f));
      Associated([WordOf("IN")], t, rest);
      TakesWord("IN", t + rest);
      assert Upper("IN") == "IN";
      ParsesIn(g, c, values, rest);
    case Compare(_, operator, value) =>
      Associated([SymbolOf(OperatorText(operator))], [LiteralToken(value, f)], rest);
      ParsesCompare(g, c, operator, value, rest);
  }

  lemma {:induction false} FindNameOf(columns: seq<Column>, id: string)
    requires ColumnsOk(columns) && FindColumn(columns, id).Some?
    ensures FindName(columns, FindColumn(columns, id).value.name) == FindColumn(columns, id)
  {
    if columns[0].id != id {
      var c := FindColumn(columns[1..], id).value;
      Composition.FindColumnId(columns[1..], id);
      var j :| 0 <= j < |columns[1..]| && columns[1..][j] == c;
      assert columns[j + 1] == c;
      assert ColumnsOk(columns[1..]);
      FindNameOf(columns[1..], id);
    }
  }

  lemma ParsesTest(g: Context, p: Predicate, rest: seq<Token>, depth: nat)
    requires TestOk(g, p) && ColumnsOk(g.columns)
    ensures ParseAtom(g, TokensOf(g, p) + rest, depth) == Outcome(Fits(p, depth), Reread(g, p), rest)
  {
    hide ParseTail, TailTokens, Reread, ColumnsOk, FindName, LiteralOk;
    var c := FindColumn(g.columns, p.column).value;
    var name, tail := Token(IdentifierToken, c.name), TailTokens(p, g.readers.family(c.kind));
    Composition.FindColumnId(g.columns, p.column);
    FindNameOf(g.columns, p.column);
    assert ([name] + tail) + rest == [name] + (tail + rest);
    assert ([name] + (tail + rest))[1..] == tail + rest;
    ParsesTail(g, p, c, rest);
  }

  /** A single atom with no AND behind it is a conjunction of one. */
  lemma AtomAlone(g: Context, ts: seq<Token>, depth: nat)
    requires var r := ParseAtom(g, ts, depth); r.Some? ==> !Takes(r.value.1, "AND")
    ensures ParseGroup(g, All, ts, depth) == ParseAtom(g, ts, depth)
  {
    assert ParseTerm(g, All, ts, depth) == ParseAtom(g, ts, depth);
  }

  /** A single conjunction with no OR behind it is a disjunction of one. */
  lemma ConjunctionAlone(g: Context, ts: seq<Token>, depth: nat)
    requires var r := ParseGroup(g, All, ts, depth); r.Some? ==> !Takes(r.value.1, "OR")
    ensures ParseGroup(g, Any, ts, depth) == ParseGroup(g, All, ts, depth)
  {
    assert ParseTerm(g, Any, ts, depth) == ParseGroup(g, All, ts, depth);
  }

  /** A term of a group followed by the separator or by the closing bracket. */
  lemma {:induction false} ParsesTerm(g: Context, kind: GroupKind, p: Predicate, rest: seq<Token>, depth: nat)
    requires Printable(g, p) && ColumnsOk(g.columns)
    requires kind == Any ==> !Takes(rest, "AND")
    ensures ParseTerm(g, kind, TokensOf(g, p) + rest, depth) == Outcome(Fits(p, depth), Reread(g, p), rest)
    decreases p, 3
  {
    ParsesPredicate(g, p, rest, depth);
    if kind == Any {
      AtomAlone(g, TokensOf(g, p) + rest, depth);
    }
  }

  /** A predicate with neither separator behind it. */
  lemma {:induction false} ParsesAlone(g: Context, p: Predicate, rest: seq<Token>, depth: nat)
    requires Printable(g, p) && ColumnsOk(g.columns)
    requires !Takes(rest, "AND") && !Takes(rest, "OR")
    ensures ParseGroup(g, Any, TokensOf(g, p) + rest, depth) == Outcome(Fits(p, depth), Reread(g, p), rest)
    decreases p, 3
  {
    ParsesPredicate(g, p, rest, depth);
    AtomAlone(g, TokensOf(g, p) + rest, depth);
    ConjunctionAlone(g, TokensOf(g, p) + rest, depth);
  }

  /** One round of the loop over the terms of a group. */
  lemma TermsUnfold(g: Context, kind: GroupKind, ts: seq<Token>, depth: nat)
    ensures var p, all := ParseTerm(g, kind, ts, depth), ParseTerms(g, kind, ts, depth);
      if p.None? then all == None
      else if !Takes(p.value.1, Separator(kind)) then all == Some(([p.value.0], p.value.1))
      else
        var more := ParseTerms(g, kind, p.value.1[1..], depth);
        all == if more.None? then None else Some(([p.value.0] + more.value.0, more.value.1))
  {
  }

  lemma AllFitSplit(terms: seq<Predicate>, depth: nat)
    requires terms != []
    ensures AllFit(terms, depth) <==> Fits(terms[0], depth) && (|terms| > 1 ==> AllFit(terms[1..], depth))
  {
    assert terms == [terms[0]] + terms[1..];
    assert forall t :: t in terms <==> t == terms[0] || t in terms[1..];
  }

  lemma RereadOne(g: Context, terms: seq<Predicate>)
    requires |terms| == 1
    ensures RereadAll(g, terms) == if Reread(g, terms[0]).None? then None else Some([Reread(g, terms[0]).value])
  {
    var none: seq<Predicate> := [];
    assert terms[1..] == none && RereadAll(g, none) == Some(none);
    assert Reread(g, terms[0]).Some? ==> [Reread(g, terms[0]).value] + none == [Reread(g, terms[0]).value];
  }

  lemma TakesSeparator(kind: GroupKind, rest: seq<Token>)
    ensures var ts := [WordOf(Separator(kind))] + rest;
      Takes(ts, Separator(kind)) && ts[1..] == rest && (kind == Any ==> !Takes(ts, "AND"))
  {
    assert Upper("AND") == "AND" && Upper("OR") == "OR";
    TakesWord(Separator(kind), rest);
  }

  lemma {:induction false} ParsesTerms(g: Context, kind: GroupKind, terms: seq<Predicate>, rest: seq<Token>, depth: nat)
    requires terms != [] && ColumnsOk(g.columns) && forall t | t in terms :: Printable(g, t)
    requires !Takes(rest, "AND") && (kind == Any ==> !Takes(rest, "OR"))
    ensures ParseTerms(g, kind, TokensOfTerms(g, kind, terms) + rest, depth) == Outcome(AllFit(terms, depth), RereadAll(g, terms), rest)
    decreases terms, 0
  {
    hide Takes, ParseTerm, Height, Sized, Printable, ColumnsOk;
    assert terms[0] in terms;
    AllFitSplit(terms, depth);
    TermsUnfold(g, kind, TokensOfTerms(g, kind, terms) + rest, depth);
    if |terms| == 1 {
      ParsesTerm(g, kind, terms[0], rest, depth);
      RereadOne(g, terms);
    } else {
      assert forall t | t in terms[1..] :: t in terms;
      var w, more := [WordOf(Separator(kind))], TokensOfTerms(g, kind, terms[1..]);
      var behind := w + (more + rest);
      Associated(TokensOf(g, terms[0]), w + more, rest);
      Associated(w, more, rest);
      TakesSeparator(kind, more + rest);
      ParsesTerm(g, kind, terms[0], behind, depth);
      ParsesTerms(g, kind, terms[1..], rest, depth);
      HeadAndRest(terms);
    }
  }

  lemma ParsesBracketed(g: Context, inner: seq<Token>, rest: seq<Token>, depth: nat)
    ensures ParseAtom(g, BracketedTokens(inner) + rest, depth) ==
      if depth + 1 > MAX_DEPTH then None
      else
        var p := ParseGroup(g, Any, inner + ([SymbolOf(")")] + rest), depth + 1);
        if p.None? || !Takes(p.value.1, ")") then None else Some((p.value.0, p.value.1[1..]))
  {
    BracketedSplit(inner, rest);
    TakesSymbol('(', inner + ([SymbolOf(")")] + rest));
  }

  /** The terms of a group, up to the closing bracket. */
  lemma {:induction false} ParsesGroup(g: Context, kind: GroupKind, terms: seq<Predicate>, rest: seq<Token>, depth: nat)
    requires |terms| >= 2 && ColumnsOk(g.columns) && forall t | t in terms :: Printable(g, t)
    requires !Takes(rest, "AND") && !Takes(rest, "OR")
    ensures ParseGroup(g, Any, TokensOfTerms(g, kind, terms) + rest, depth)
      == Outcome(AllFit(terms, depth), Reread(g, Group(kind, terms)), rest)
    decreases terms, 1
  {
    ParsesTerms(g, kind, terms, rest, depth);
    if kind == All {
      ConjunctionAlone(g, TokensOfTerms(g, kind, terms) + rest, depth);
    }
  }

  /** Parsing the tokens of a predicate gives the predicate and leaves what follows, if it fits; and
      is refused otherwise. */
  lemma {:induction false} ParsesPredicate(g: Context, p: Predicate, rest: seq<Token>, depth: nat)
    requires Printable(g, p) && ColumnsOk(g.columns)
    ensures ParseAtom(g, TokensOf(g, p) + rest, depth) == Outcome(Fits(p, depth), Reread(g, p), rest)
    decreases p, 2
  {
    hide Takes, ColumnsOk, ParseTerms, ParseGroup, ParseAtom, TestOk;
    match p
    case Group(kind, terms) =>
      var close, inner := [SymbolOf(")")] + rest, TokensOfTerms(g, kind, terms);
      TakesSymbol(')', rest);
      ParsesBracketed(g, inner, rest, depth);
      ParsesGroup(g, kind, terms, close, depth + 1);
    case Not(term) =>
      var close, inner := [SymbolOf(")")] + rest, TokensOf(g, term);
      ParsesNegation(g, BracketedTokens(inner), rest, depth);
      TakesSymbol(')', rest);
      ParsesBracketed(g, inner, rest, depth + 1);
      ParsesAlone(g, term, close, depth + 2);
    case _ =>
      ParsesTest(g, p, rest, depth);
  }

  lemma ParsesNegation(g: Context, inner: seq<Token>, rest: seq<Token>, depth: nat)
    ensures ParseAtom(g, ([WordOf("NOT")] + inner) + rest, depth) ==
      if depth + 1 > MAX_DEPTH then None
      else
        var p := ParseAtom(g, inner + rest, depth + 1);
        if p.None? then None else Some((Not(p.value.0), p.value.1))
  {
    Associated([WordOf("NOT")], inner, rest);
    assert Upper("NOT") == "NOT";
    TakesWord("NOT", inner + rest);
  }

  lemma Associated(a: seq<Token>, b: seq<Token>, c: seq<Token>)
    ensures (a + b) + c == a + (b + c)
  {
  }

  // ----- The main result -----

  /** The printed text is within the limits of the parser, and no literal is refused. */
  predicate WithinLimits(g: Context, p: Predicate)
    requires Known(p, g.columns)
  {
    Utf16Length(Printed(g, p)) <= MAX_LENGTH && Fits(p, 0) && Reread(g, p).Some? && SchemaOk(Normalise(Reread(g, p).value))
  }

  lemma NotBlank(g: Context, p: Predicate)
    requires Known(p, g.columns)
    ensures !IsBlank(Printed(g, p))
  {
    var s := Printed(g, p);
    assert s[0] in s && (s[0] == '(' || s[0] == 'N' || s[0] == '\"');
  }

  lemma TokensPrinted(g: Context, p: Predicate)
    requires Printable(g, p) && ColumnsOk(g.columns) && Known(p, g.columns)
    ensures Tokens(Printed(g, p)) == Some(TokensOf(g, p))
  {
    var text, ts := Printed(g, p), TokensOf(g, p);
    ReadsPredicate(g, p);
    ReadsAt(text, ts, false, "");
    assert text + "" == text && ts + [] == ts;
  }

  /** Parsing the printed text of any predicate gives the normal form of the predicate with canonical
      literals, exactly within the limits and if no literal is refused. */
  lemma ParsePrinted(g: Context, p: Predicate)
    requires Printable(g, p) && ColumnsOk(g.columns)
    ensures Known(p, g.columns)
    ensures Parse(g, Printed(g, p)) == if WithinLimits(g, p) then Some(Normalise(Reread(g, p).value)) else None
  {
    PrintableKnown(g, p);
    NotBlank(g, p);
    TokensPrinted(g, p);
    ParsesAlone(g, p, [], 0);
    assert TokensOf(g, p) + [] == TokensOf(g, p);
  }

  /** Every literal is canonical: `typedLiteral` leaves it as it is. */
  ghost predicate Canonical(g: Context, p: Predicate)
    decreases p
  {
    match p
    case Group(_, terms) => forall t | t in terms :: Canonical(g, t)
    case Not(term) => Canonical(g, term)
    case Compare(column, _, value) =>
      var c := FindColumn(g.columns, column);
      c.Some? && RereadLiteral(g.readers, value, c.value.kind) == Some(value)
    case In(column, values) =>
      var c := FindColumn(g.columns, column);
      c.Some? && forall v | v in values :: RereadLiteral(g.readers, v, c.value.kind) == Some(v)
    case _ => true
  }

  lemma {:induction false} CanonicalLiterals(r: Readers, vs: seq<Option<string>>, kind: string)
    ensures RereadLiterals(r, vs, kind) == Some(vs) <==> forall v | v in vs :: RereadLiteral(r, v, kind) == Some(v)
  {
    if vs != [] {
      HeadAndRest(vs);
      assert vs[0] in vs && forall v :: v in vs <==> v == vs[0] || v in vs[1..];
      CanonicalLiterals(r, vs[1..], kind);
    }
  }

  lemma {:induction false} CanonicalTerms(g: Context, terms: seq<Predicate>)
    ensures RereadAll(g, terms) == Some(terms) <==> forall t | t in terms :: Canonical(g, t)
    decreases terms, 0
  {
    if terms != [] {
      HeadAndRest(terms);
      assert terms[0] in terms && forall t :: t in terms <==> t == terms[0] || t in terms[1..];
      CanonicalReread(g, terms[0]);
      CanonicalTerms(g, terms[1..]);
    }
  }

  lemma {:induction false} CanonicalReread(g: Context, p: Predicate)
    ensures Reread(g, p) == Some(p) <==> Canonical(g, p)
    decreases p, 1
  {
    match p
    case Group(_, terms) => CanonicalTerms(g, terms);
    case Not(term) => CanonicalReread(g, term);
    case In(column, values) =>
      var c := FindColumn(g.columns, column);
      if c.Some? {
        CanonicalLiterals(g.readers, values, c.value.kind);
      }
    case _ =>
  }

  /** With canonical literals, as the parser makes them, it gives exactly the normal form. */
  lemma ParseCanonical(g: Context, p: Predicate)
    requires Printable(g, p) && ColumnsOk(g.columns) && Canonical(g, p)
    ensures Known(p, g.columns)
    ensures Parse(g, Printed(g, p)) ==
      if Utf16Length(Printed(g, p)) <= MAX_LENGTH && Fits(p, 0) && SchemaOk(Normalise(p)) then Some(Normalise(p)) else None
  {
    CanonicalReread(g, p);
    ParsePrinted(g, p);
  }
}
