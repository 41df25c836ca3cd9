/** Which token sequences are the text of a predicate, said without the parser: tests, negations, brackets,
    and terms joined by AND and OR. The parser accepts exactly the texts of which every token is used. */
module Derivations {
  import opened Wrappers
  import opened Chars
  import opened ColumnTypes
  import opened Predicates
  import opened Normalisation
  import opened Evaluation
  import opened Lexer
  import opened Lexemes
  import opened Grammar

  // ----- Tokens -----

  /** The text in any mixture of cases. */
  ghost predicate AnyCase(s: string, capital: string) {
    |s| == |capital| && forall i | 0 <= i < |s| ::
      s[i] == capital[i] || ('A' <= capital[i] && capital[i] <= 'Z' && s[i] as int == capital[i] as int + 32)
  }

  /** A keyword in any case, or a symbol; quoted texts are neither. */
  ghost predicate Keyword(t: Token, s: string) {
    (t.kind.WordToken? || t.kind.SymbolToken? || t.kind.NumberToken?) && AnyCase(t.value, s)
  }

  ghost predicate HexDigit(c: char) {
    ('0' <= c && c <= '9') || ('a' <= c && c <= 'f') || ('A' <= c && c <= 'F')
  }

  /** The literal as it is kept: numbers and times as their readers give them, booleans and UUIDs in lower
      case, texts as they are. */
  ghost predicate Kept(r: Readers, value: string, token: TokenKind, kind: string, v: string) {
    && (forall c | c in value :: c != '\0')
    && match r.family(kind)
       case Number => token.NumberToken? && r.numeric(value, kind) == Some(v)
       case Float => token.NumberToken? && r.numeric(value, kind) == Some(v)
       case Boolean => token.WordToken? && ((AnyCase(value, "TRUE") && v == "true") || (AnyCase(value, "FALSE") && v == "false"))
       case Uuid => token.StringToken? && UuidText(value) && LowerText(value, v)
       case Time => token.StringToken? && r.moment(value, kind) == Some(v)
       case Text => token.StringToken? && v == value
       case Unsupported => false
  }

  /** Groups of eight, four, four, four and twelve hexadecimal digits. */
  ghost predicate UuidText(s: string) {
    && |s| == 36 && s[8] == '-' && s[13] == '-' && s[18] == '-' && s[23] == '-'
    && forall i | 0 <= i < 36 && i != 8 && i != 13 && i != 18 && i != 23 :: HexDigit(s[i])
  }

  ghost predicate LowerText(s: string, lower: string) {
    |s| == |lower| && forall i | 0 <= i < |s| ::
      if 'A' <= s[i] && s[i] <= 'Z' then lower[i] as int == s[i] as int + 32 else lower[i] == s[i]
  }

  /** The token stands for the literal in a column of the type; NULL for none. */
  ghost predicate LiteralAt(g: Context, c: Column, t: Token, v: Option<string>) {
    if t.kind.WordToken? && AnyCase(t.value, "NULL") then v.None?
    else v.Some? && Kept(g.readers, t.value, t.kind, c.kind, v.value)
  }

  ghost predicate OperatorAt(t: Token, operator: Operator) {
    match operator
    case Eq => t.value == "="
    case Ne => t.value == "<>"
    case Lt => t.value == "<"
    case Le => t.value == "<="
    case Gt => t.value == ">"
    case Ge => t.value == ">="
  }

  /** Literals with commas between them. */
  ghost predicate ListOf(g: Context, c: Column, ts: seq<Token>, values: seq<Option<string>>) {
    && 1 <= |values| <= MAX_VALUES && |ts| == 2 * |values| - 1
    && (forall k | 0 <= k < |values| :: LiteralAt(g, c, ts[2 * k], values[k]))
    && (forall k | 0 < k < |values| :: Keyword(ts[2 * k - 1], ","))
  }

  // ----- Tests -----

  /** What follows IN: `scope(domain)`, or values in brackets. */
  ghost predicate SetOf(g: Context, c: Column, ts: seq<Token>, p: Predicate) {
    || (|ts| == 4 && Keyword(ts[0], "SCOPE") && Keyword(ts[1], "(") && ts[2].kind.WordToken? && Keyword(ts[3], ")")
        && p == Scope(c.id, ts[2].value))
    || (|ts| >= 2 && Keyword(ts[0], "(") && Keyword(ts[|ts| - 1], ")") && p.In? && p.column == c.id
        && ListOf(g, c, ts[1..|ts| - 1], p.values))
  }

  /** What follows the name of a column. */
  ghost predicate TailOf(g: Context, c: Column, ts: seq<Token>, p: Predicate) {
    || (|ts| == 2 && Keyword(ts[0], "IS") && Keyword(ts[1], "NULL") && p == Null(c.id, false))
    || (|ts| == 3 && Keyword(ts[0], "IS") && Keyword(ts[1], "NOT") && Keyword(ts[2], "NULL") && p == Null(c.id, true))
    || (|ts| >= 1 && Keyword(ts[0], "IN") && SetOf(g, c, ts[1..], p))
    || (|ts| >= 2 && Keyword(ts[0], "NOT") && Keyword(ts[1], "IN") && p.Not? && SetOf(g, c, ts[2..], p.term))
    || (|ts| == 2 && p.Compare? && p.column == c.id && OperatorAt(ts[0], p.operator) && LiteralAt(g, c, ts[1], p.value))
  }

  /** The column of this name, which no earlier column has. */
  ghost predicate NamedColumn(columns: seq<Column>, name: string, c: Column) {
    exists i :: NamedAt(columns, name, c, i)
  }

  ghost predicate NamedAt(columns: seq<Column>, name: string, c: Column, i: nat) {
    i < |columns| && columns[i] == c && c.name == name && forall j | 0 <= j < i :: columns[j].name != name
  }

  ghost predicate TestOf(g: Context, ts: seq<Token>, p: Predicate) {
    && ts != [] && (ts[0].kind.IdentifierToken? || ts[0].kind.WordToken?) && !Keyword(ts[0], "NOT") && !Keyword(ts[0], "(")
    && exists c :: NamedColumn(g.columns, ts[0].value, c) && g.readers.family(c.kind) != Unsupported && TailOf(g, c, ts[1..], p)
  }

  // ----- Predicates -----

  /** A test, a negation, or a predicate in brackets, with the nesting so far. */
  ghost predicate AtomOf(g: Context, ts: seq<Token>, p: Predicate, depth: nat)
    decreases |ts|, 0
  {
    && depth < MAX_DEPTH
    && (|| TestOf(g, ts, p)
        || (|ts| >= 1 && Keyword(ts[0], "NOT") && p.Not? && AtomOf(g, ts[1..], p.term, depth + 1))
        || (|ts| >= 2 && Keyword(ts[0], "(") && Keyword(ts[|ts| - 1], ")") && GroupOf(g, Any, ts[1..|ts| - 1], p, depth + 1)))
  }

  /** An atom for AND, a conjunction for OR. */
  ghost predicate TermOf(g: Context, kind: GroupKind, ts: seq<Token>, p: Predicate, depth: nat)
    decreases |ts|, if kind == All then 1 else 4
  {
    if kind == All then AtomOf(g, ts, p, depth) else GroupOf(g, All, ts, p, depth)
  }

  /** A single term, or at least two, joined. */
  ghost predicate GroupOf(g: Context, kind: GroupKind, ts: seq<Token>, p: Predicate, depth: nat)
    decreases |ts|, if kind == All then 3 else 6
  {
    || TermOf(g, kind, ts, p, depth)
    || (p.Group? && p.kind == kind && |p.terms| >= 2 && TermsOf(g, kind, ts, p.terms, depth))
  }

  /** One term, or a term, the word between, and the other terms. */
  ghost predicate TermsOf(g: Context, kind: GroupKind, ts: seq<Token>, terms: seq<Predicate>, depth: nat)
    decreases |ts|, if kind == All then 2 else 5
  {
    && terms != []
    && if |terms| == 1 then TermOf(g, kind, ts, terms[0], depth)
       else exists i: nat :: i < |ts| && JoinedAt(g, kind, ts, terms, depth, i)
  }

  ghost predicate JoinedAt(g: Context, kind: GroupKind, ts: seq<Token>, terms: seq<Predicate>, depth: nat, i: nat)
    requires i < |ts| && terms != []
    decreases |ts|, if kind == All then 2 else 5, 0
  {
    Keyword(ts[i], if kind == All then "AND" else "OR") && TermOf(g, kind, ts[..i], terms[0], depth)
    && TermsOf(g, kind, ts[i + 1..], terms[1..], depth)
  }

  // ----- What the parser reads is a derivation -----

  ghost predicate Capital(s: string) {
    forall i | 0 <= i < |s| :: !('a' <= s[i] <= 'z')
  }

  lemma UpperExact(s: string, capital: string)
    requires Capital(capital)
    ensures Upper(s) == capital <==> AnyCase(s, capital)
  {
    if |s| == |capital| {
      forall i | 0 <= i < |s|
        ensures UpperChar(s[i]) == capital[i]
          <==> s[i] == capital[i] || ('A' <= capital[i] && capital[i] <= 'Z' && s[i] as int == capital[i] as int + 32)
      {
      }
    }
  }

  const KEYWORDS: set<string> := {"IS", "NOT", "NULL", "IN", "SCOPE", "AND", "OR", "TRUE", "FALSE", "(", ")", ","}

  lemma KeywordsCapital(s: string)
    requires s in KEYWORDS
    ensures Capital(s)
  {
  }

  lemma TakesKeyword(ts: seq<Token>, s: string)
    requires s in KEYWORDS
    ensures Takes(ts, s) <==> ts != [] && Keyword(ts[0], s)
  {
    KeywordsCapital(s);
    if ts != [] {
      UpperExact(ts[0].value, s);
    }
  }

  lemma KeptExact(r: Readers, value: string, token: TokenKind, kind: string)
    ensures forall v :: Kept(r, value, token, kind, v) <==> TypedLiteral(r, value, token, kind) == Some(v)
    ensures token.SymbolToken? || token.IdentifierToken? ==> forall v :: !Kept(r, value, token, kind, v)
  {
    hide Upper, Lower, IsUuid, UuidText, LowerText, AnyCase;
    KeywordsCapital("TRUE");
    KeywordsCapital("FALSE");
    UpperExact(value, "TRUE");
    UpperExact(value, "FALSE");
    TruthTexts(value);
    UuidExact(value);
    LowerExact(value);
    assert '\0' in value <==> !forall c | c in value :: c != '\0';
  }

  lemma TruthTexts(value: string)
    ensures Upper(value) == "TRUE" ==> Lower(value) == "true"
    ensures Upper(value) == "FALSE" ==> Lower(value) == "false"
    ensures !(Upper(value) == "TRUE" && Upper(value) == "FALSE")
  {
    if Upper(value) == "TRUE" {
      LowerTrue(value);
      assert |"TRUE"| == 4 && |"FALSE"| == 5;
    } else if Upper(value) == "FALSE" {
      LowerFalse(value);
    }
  }

  lemma LetterCases(c: char, capital: char)
    requires UpperChar(c) == capital && 'A' <= capital <= 'Z'
    ensures LowerChar(c) as int == capital as int + 32
  {
  }

  lemma LowerTrue(v: string)
    requires Upper(v) == "TRUE"
    ensures Lower(v) == "true"
  {
    assert |v| == 4 && Upper(v)[0] == 'T' && Upper(v)[1] == 'R' && Upper(v)[2] == 'U' && Upper(v)[3] == 'E';
    forall i | 0 <= i < 4 {
      LetterCases(v[i], Upper(v)[i]);
    }
  }

  lemma LowerFalse(v: string)
    requires Upper(v) == "FALSE"
    ensures Lower(v) == "false"
  {
    assert |v| == 5 && Upper(v)[0] == 'F' && Upper(v)[1] == 'A' && Upper(v)[2] == 'L' && Upper(v)[3] == 'S' && Upper(v)[4] == 'E';
    forall i | 0 <= i < 5 {
      LetterCases(v[i], Upper(v)[i]);
    }
  }

  lemma UuidExact(s: string)
    ensures UuidText(s) <==> IsUuid(s)
  {
  }

  lemma LowerExact(s: string)
    ensures forall lower :: LowerText(s, lower) <==> lower == Lower(s)
  {
    forall lower
      ensures LowerText(s, lower) <==> lower == Lower(s)
    {
      if |lower| == |s| {
        forall i | 0 <= i < |s|
          ensures LowerChar(s[i]) == lower[i]
            <==> if 'A' <= s[i] && s[i] <= 'Z' then lower[i] as int == s[i] as int + 32 else lower[i] == s[i]
        {
        }
      }
    }
  }

  /** The tokens before the rest. */
  function Used(ts: seq<Token>, rest: seq<Token>): (r: seq<Token>)
    requires |rest| <= |ts|
  {
    ts[..|ts| - |rest|]
  }

  ghost predicate Behind(ts: seq<Token>, rest: seq<Token>) {
    |rest| <= |ts| && ts[|ts| - |rest|..] == rest
  }

  lemma BehindSplit(ts: seq<Token>, rest: seq<Token>)
    requires Behind(ts, rest)
    ensures ts == Used(ts, rest) + rest
  {
  }

  /** Reading on from behind. */
  lemma BehindMore(ts: seq<Token>, n: nat, rest: seq<Token>)
    requires n <= |ts| && Behind(ts[n..], rest)
    ensures Behind(ts, rest) && Used(ts, rest) == ts[..n] + Used(ts[n..], rest)
    ensures forall i | 0 <= i < n :: Used(ts, rest)[i] == ts[i]
    ensures Used(ts, rest)[n..] == Used(ts[n..], rest)
  {
  }

  lemma LiteralSound(g: Context, c: Column, ts: seq<Token>)
    requires ParseLiteral(g, c, ts).Some?
    ensures var (v, rest) := ParseLiteral(g, c, ts).value; ts != [] && rest == ts[1..] && LiteralAt(g, c, ts[0], v)
  {
    hide TypedLiteral, Kept, Upper, AnyCase;
    KeywordsCapital("NULL");
    UpperExact(ts[0].value, "NULL");
    KeptExact(g.readers, ts[0].value, ts[0].kind, c.kind);
  }

  lemma LiteralComplete(g: Context, c: Column, t: Token, v: Option<string>, rest: seq<Token>)
    requires LiteralAt(g, c, t, v)
    ensures ParseLiteral(g, c, [t] + rest) == Some((v, rest))
  {
    hide TypedLiteral, Kept, Upper, AnyCase;
    KeywordsCapital("NULL");
    UpperExact(t.value, "NULL");
    KeptExact(g.readers, t.value, t.kind, c.kind);
    assert ([t] + rest)[1..] == rest;
  }

  /** Values behind the first, each with its comma. */
  ghost predicate MoreOf(g: Context, c: Column, ts: seq<Token>, values: seq<Option<string>>) {
    && |ts| == 2 * |values|
    && forall k | 0 <= k < |values| :: Keyword(ts[2 * k], ",") && LiteralAt(g, c, ts[2 * k + 1], values[k])
  }

  lemma {:induction false} ValuesSound(g: Context, c: Column, ts: seq<Token>, count: nat)
    requires ParseValues(g, c, ts, count).Some? && count >= 1
    ensures var (vs, rest) := ParseValues(g, c, ts, count).value;
      Behind(ts, rest) && MoreOf(g, c, Used(ts, rest), vs) && (vs == [] || count + |vs| <= MAX_VALUES)
    decreases |ts|
  {
    hide LiteralAt, Keyword, Takes, ParseLiteral;
    var (vs, rest) := ParseValues(g, c, ts, count).value;
    TakesKeyword(ts, ",");
    if Takes(ts, ",") {
      LiteralSound(g, c, ts[1..]);
      var v := ParseLiteral(g, c, ts[1..]).value;
      assert v.1 == ts[2..];
      ValuesSound(g, c, ts[2..], count + 1);
      BehindMore(ts, 2, rest);
      var more := ParseValues(g, c, ts[2..], count + 1).value.0;
      assert vs == [v.0] + more;
      forall k | 0 <= k < |vs|
        ensures Keyword(Used(ts, rest)[2 * k], ",") && LiteralAt(g, c, Used(ts, rest)[2 * k + 1], vs[k])
      {
        if k > 0 {
          assert Used(ts, rest)[2 * k] == Used(ts[2..], rest)[2 * (k - 1)];
          assert Used(ts, rest)[2 * k + 1] == Used(ts[2..], rest)[2 * (k - 1) + 1];
        }
      }
    }
  }

  lemma {:induction false} ValuesComplete(g: Context, c: Column, ts: seq<Token>, values: seq<Option<string>>, rest: seq<Token>, count: nat)
    requires MoreOf(g, c, ts, values) && !Takes(rest, ",") && count + |values| <= MAX_VALUES
    ensures ParseValues(g, c, ts + rest, count) == Some((values, rest))
    decreases |values|
  {
    hide LiteralAt, Keyword, Takes, ParseLiteral;
    if values == [] {
      assert ts + rest == rest;
    } else {
      TakesKeyword(ts + rest, ",");
      assert Keyword(ts[2 * 0], ",") && LiteralAt(g, c, ts[2 * 0 + 1], values[0]);
      var tail := ts[2..];
      assert (ts + rest)[1..] == [ts[1]] + (tail + rest);
      LiteralComplete(g, c, ts[1], values[0], tail + rest);
      forall k | 0 <= k < |values[1..]|
        ensures Keyword(tail[2 * k], ",") && LiteralAt(g, c, tail[2 * k + 1], values[1..][k])
      {
        assert Keyword(ts[2 * (k + 1)], ",") && LiteralAt(g, c, ts[2 * (k + 1) + 1], values[k + 1]);
      }
      ValuesComplete(g, c, tail, values[1..], rest, count + 1);
      assert values == [values[0]] + values[1..];
    }
  }

  lemma ListParts(g: Context, c: Column, ts: seq<Token>, values: seq<Option<string>>)
    requires ts != [] && values != []
    ensures ListOf(g, c, ts, values) <==>
      |values| <= MAX_VALUES && LiteralAt(g, c, ts[0], values[0]) && MoreOf(g, c, ts[1..], values[1..])
  {
    hide LiteralAt, Keyword;
    if ListOf(g, c, ts, values) {
      assert LiteralAt(g, c, ts[2 * 0], values[0]);
      forall k | 0 <= k < |values[1..]|
        ensures Keyword(ts[1..][2 * k], ",") && LiteralAt(g, c, ts[1..][2 * k + 1], values[1..][k])
      {
        assert LiteralAt(g, c, ts[2 * (k + 1)], values[k + 1]) && Keyword(ts[2 * (k + 1) - 1], ",");
      }
    }
    if LiteralAt(g, c, ts[0], values[0]) && MoreOf(g, c, ts[1..], values[1..]) {
      forall k | 0 < k < |values|
        ensures Keyword(ts[2 * k - 1], ",") && LiteralAt(g, c, ts[2 * k], values[k])
      {
        assert Keyword(ts[1..][2 * (k - 1)], ",") && LiteralAt(g, c, ts[1..][2 * (k - 1) + 1], values[1..][k - 1]);
      }
    }
  }

  lemma ListSound(g: Context, c: Column, ts: seq<Token>)
    requires ParseList(g, c, ts).Some?
    ensures var (vs, rest) := ParseList(g, c, ts).value; Behind(ts, rest) && ListOf(g, c, Used(ts, rest), vs)
  {
    hide LiteralAt, ParseLiteral, ListOf, MoreOf;
    var (vs, rest) := ParseList(g, c, ts).value;
    LiteralSound(g, c, ts);
    var v := ParseLiteral(g, c, ts).value;
    ValuesSound(g, c, ts[1..], 1);
    BehindMore(ts, 1, rest);
    assert vs == [v.0] + ParseValues(g, c, ts[1..], 1).value.0;
    assert vs[1..] == ParseValues(g, c, ts[1..], 1).value.0;
    ListParts(g, c, Used(ts, rest), vs);
  }

  lemma ListComplete(g: Context, c: Column, ts: seq<Token>, values: seq<Option<string>>, rest: seq<Token>)
    requires ListOf(g, c, ts, values) && !Takes(rest, ",")
    ensures ParseList(g, c, ts + rest) == Some((values, rest))
  {
    hide LiteralAt, ParseLiteral, MoreOf;
    ListParts(g, c, ts, values);
    assert ts + rest == [ts[0]] + (ts[1..] + rest);
    LiteralComplete(g, c, ts[0], values[0], ts[1..] + rest);
    ValuesComplete(g, c, ts[1..], values[1..], rest, 1);
    assert values == [values[0]] + values[1..];
  }

  lemma SetSound(g: Context, c: Column, ts: seq<Token>)
    requires ParseIn(g, c, ts).Some?
    ensures var (p, rest) := ParseIn(g, c, ts).value; Behind(ts, rest) && SetOf(g, c, Used(ts, rest), p)
  {
    hide ListOf, ParseList;
    var (p, rest) := ParseIn(g, c, ts).value;
    if Takes(ts, "SCOPE") {
      assert ts[1..][0] == ts[1] && ts[3..][0] == ts[3];
    } else {
      ListSound(g, c, ts[1..]);
      var (vs, close) := ParseList(g, c, ts[1..]).value;
      BracketsUsed(ts, close);
    }
  }

  /** An opening bracket, what is read behind it, and a closing one. */
  lemma BracketsUsed(ts: seq<Token>, close: seq<Token>)
    requires ts != [] && Behind(ts[1..], close) && close != []
    ensures Behind(ts, close[1..])
    ensures var used := Used(ts, close[1..]);
      |used| >= 2 && used[0] == ts[0] && used[|used| - 1] == close[0] && used[1..|used| - 1] == Used(ts[1..], close)
  {
    BehindSplit(ts[1..], close);
    var used := Used(ts, close[1..]);
    assert ts == [ts[0]] + (Used(ts[1..], close) + close);
    assert used == [ts[0]] + Used(ts[1..], close) + [close[0]];
  }

  lemma BracketsBack(ts: seq<Token>, rest: seq<Token>)
    requires |ts| >= 2
    ensures (ts + rest)[1..] == ts[1..|ts| - 1] + ([ts[|ts| - 1]] + rest)
    ensures (ts + rest)[0] == ts[0] && ([ts[|ts| - 1]] + rest)[1..] == rest
  {
  }

  lemma KeywordsApart(t: Token)
    ensures Keyword(t, "(") ==> !Keyword(t, "SCOPE") && !Keyword(t, "NOT") && !Keyword(t, ")")
    ensures Keyword(t, ")") ==> !Keyword(t, ",") && !Keyword(t, "AND") && !Keyword(t, "OR")
    ensures Keyword(t, "IN") ==> !Keyword(t, "IS") && !Keyword(t, "NOT")
    ensures Keyword(t, "NOT") ==> !Keyword(t, "IS")
    ensures Keyword(t, "OR") ==> !Keyword(t, "AND")
    ensures forall o | OperatorAt(t, o) :: !Keyword(t, "IS") && !Keyword(t, "NOT") && !Keyword(t, "IN")
  {
    assert |"("| == 1 && |")"| == 1 && |","| == 1 && |"SCOPE"| == 5 && |"NOT"| == 3 && |"AND"| == 3 && |"OR"| == 2 && |"IS"| == 2 && |"IN"| == 2;
    assert "("[0] == '(' && ")"[0] == ')' && ","[0] == ',' && "IS"[1] == 'S' && "IN"[1] == 'N';
    forall o | OperatorAt(t, o)
      ensures !Keyword(t, "IS") && !Keyword(t, "NOT") && !Keyword(t, "IN")
    {
      OperatorUpper(t, o);
    }
  }

  lemma OperatorUpper(t: Token, o: Operator)
    requires OperatorAt(t, o)
    ensures !Keyword(t, "IS") && !Keyword(t, "NOT") && !Keyword(t, "IN")
  {
    assert "IS"[0] == 'I' && "NOT"[0] == 'N' && "IN"[0] == 'I';
    assert t.value[0] == '=' || t.value[0] == '<' || t.value[0] == '>';
  }

  lemma SetComplete(g: Context, c: Column, ts: seq<Token>, p: Predicate, rest: seq<Token>)
    requires SetOf(g, c, ts, p)
    ensures ParseIn(g, c, ts + rest) == Some((p, rest))
  {
    hide ListOf, ParseList, Keyword, Takes;
    var all := ts + rest;
    TakesKeyword(all, "SCOPE");
    TakesKeyword(all, "(");
    KeywordsApart(ts[0]);
    if Keyword(ts[0], "SCOPE") {
      assert all[1..][0] == ts[1] && all[3..][0] == ts[3] && all[2] == ts[2] && all[4..] == rest;
      TakesKeyword(all[1..], "(");
      TakesKeyword(all[3..], ")");
    } else {
      var close := [ts[|ts| - 1]] + rest;
      BracketsBack(ts, rest);
      KeywordsApart(ts[|ts| - 1]);
      TakesKeyword(close, ")");
      TakesKeyword(close, ",");
      ListComplete(g, c, ts[1..|ts| - 1], p.values, close);
    }
  }

  lemma ParseOperatorExact(t: Token)
    ensures forall o :: ParseOperator(t.value) == Some(o) <==> OperatorAt(t, o)
  {
  }

  lemma TailSound(g: Context, c: Column, ts: seq<Token>)
    requires ParseTail(g, c, ts).Some?
    ensures var (p, rest) := ParseTail(g, c, ts).value; Behind(ts, rest) && TailOf(g, c, Used(ts, rest), p)
  {
    hide ParseTail, TailOf, Behind, Used;
    if Takes(ts, "IS") {
      NullSound(g, c, ts);
    } else if Takes(ts, "NOT") {
      NotInSound(g, c, ts);
    } else if Takes(ts, "IN") {
      InSound(g, c, ts);
    } else {
      ComparisonSound(g, c, ts);
    }
  }

  lemma InSound(g: Context, c: Column, ts: seq<Token>)
    requires !Takes(ts, "IS") && !Takes(ts, "NOT") && Takes(ts, "IN") && ParseTail(g, c, ts).Some?
    ensures var (p, rest) := ParseTail(g, c, ts).value; Behind(ts, rest) && TailOf(g, c, Used(ts, rest), p)
  {
    var (p, rest) := ParseTail(g, c, ts).value;
    hide SetOf, ParseIn, Behind, Used;
    SetSound(g, c, ts[1..]);
    NegationUsed(ts, rest);
  }

  lemma NotInSound(g: Context, c: Column, ts: seq<Token>)
    requires !Takes(ts, "IS") && Takes(ts, "NOT") && ParseTail(g, c, ts).Some?
    ensures var (p, rest) := ParseTail(g, c, ts).value; Behind(ts, rest) && TailOf(g, c, Used(ts, rest), p)
  {
    var (p, rest) := ParseTail(g, c, ts).value;
    hide SetOf, ParseIn, Behind, Used;
    var behind := ts[1..];
    SetSound(g, c, behind[1..]);
    NegationUsed(behind, rest);
    NegationUsed(ts, rest);
    var used := Used(ts, rest);
    assert used[1] == used[1..][0] && used[2..] == used[1..][1..];
  }

  lemma ComparisonSound(g: Context, c: Column, ts: seq<Token>)
    requires !Takes(ts, "IS") && !Takes(ts, "NOT") && !Takes(ts, "IN") && ParseTail(g, c, ts).Some?
    ensures var (p, rest) := ParseTail(g, c, ts).value; Behind(ts, rest) && TailOf(g, c, Used(ts, rest), p)
  {
    hide SetOf, ParseIn, LiteralAt, ParseLiteral, ParseOperator, Takes, Keyword;
    var (p, rest) := ParseTail(g, c, ts).value;
    ParseOperatorExact(ts[0]);
    LiteralSound(g, c, ts[1..]);
    assert rest == ts[2..] && ts[1..][0] == ts[1];
  }

  lemma NullSound(g: Context, c: Column, ts: seq<Token>)
    requires Takes(ts, "IS") && ParseTail(g, c, ts).Some?
    ensures var (p, rest) := ParseTail(g, c, ts).value; Behind(ts, rest) && TailOf(g, c, Used(ts, rest), p)
  {
    var (p, rest) := ParseTail(g, c, ts).value;
    var n := if Takes(ts[1..], "NOT") then 2 else 1;
    assert n == 2 ==> ts[1..][1..] == ts[2..] && ts[1..][0] == ts[1];
    assert ts[n..][0] == ts[n] && ts[n..][1..] == ts[n + 1..];
    assert rest == ts[n + 1..];
  }

  lemma TailComplete(g: Context, c: Column, ts: seq<Token>, p: Predicate, rest: seq<Token>)
    requires TailOf(g, c, ts, p)
    ensures ParseTail(g, c, ts + rest) == Some((p, rest))
  {
    hide SetOf, ParseIn, LiteralAt, ParseLiteral, ParseOperator, Keyword, Takes;
    var all := ts + rest;
    TakesKeyword(all, "IS");
    TakesKeyword(all, "NOT");
    TakesKeyword(all, "IN");
    KeywordsApart(ts[0]);
    if Keyword(ts[0], "IS") {
      NullComplete(g, c, ts, p, rest);
    } else if Keyword(ts[0], "IN") {
      assert all[1..] == ts[1..] + rest;
      SetComplete(g, c, ts[1..], p, rest);
    } else if Keyword(ts[0], "NOT") {
      assert all[1..][0] == ts[1] && all[1..][1..] == ts[2..] + rest;
      TakesKeyword(all[1..], "IN");
      SetComplete(g, c, ts[2..], p.term, rest);
    } else {
      ParseOperatorExact(ts[0]);
      assert all[1..] == [ts[1]] + rest;
      LiteralComplete(g, c, ts[1], p.value, rest);
    }
  }

  lemma NullComplete(g: Context, c: Column, ts: seq<Token>, p: Predicate, rest: seq<Token>)
    requires TailOf(g, c, ts, p) && Keyword(ts[0], "IS")
    ensures ParseTail(g, c, ts + rest) == Some((p, rest))
  {
    hide SetOf, ParseIn, LiteralAt, ParseLiteral, ParseOperator, Keyword, Takes, OperatorAt;
    var all := ts + rest;
    KeywordsApart(ts[0]);
    TakesKeyword(all, "IS");
    TakesKeyword(all[1..], "NOT");
    TakesKeyword(all[1..], "NULL");
    assert all[1..][0] == ts[1];
    NullNotNot(ts[1]);
    if |ts| == 3 {
      assert all[1..][1..] == [ts[2]] + rest;
      TakesKeyword([ts[2]] + rest, "NULL");
      assert ([ts[2]] + rest)[1..] == rest;
    } else {
      assert all[1..][1..] == rest;
    }
  }

  lemma NullNotNot(t: Token)
    ensures Keyword(t, "NULL") ==> !Keyword(t, "NOT")
  {
    assert |"NULL"| == 4 && |"NOT"| == 3;
  }

  lemma {:induction false} NamedExact(columns: seq<Column>, name: string)
    ensures forall c :: NamedColumn(columns, name, c) <==> FindName(columns, name) == Some(c)
    decreases |columns|
  {
    if columns != [] {
      NamedExact(columns[1..], name);
      forall c
        ensures NamedColumn(columns, name, c) <==> FindName(columns, name) == Some(c)
      {
        if columns[0].name == name {
          assert NamedAt(columns, name, columns[0], 0);
        } else {
          NamedTail(columns, name, c);
        }
      }
    }
  }

  lemma NamedTail(columns: seq<Column>, name: string, c: Column)
    requires columns != [] && columns[0].name != name
    ensures NamedColumn(columns, name, c) <==> NamedColumn(columns[1..], name, c)
  {
    if i: nat :| NamedAt(columns, name, c, i) {
      assert NamedAt(columns[1..], name, c, i - 1);
    }
    if i: nat :| NamedAt(columns[1..], name, c, i) {
      forall j | 0 <= j < i + 1
        ensures columns[j].name != name
      {
        assert j > 0 ==> columns[j] == columns[1..][j - 1];
      }
      assert NamedAt(columns, name, c, i + 1);
    }
  }

  lemma TestSound(g: Context, ts: seq<Token>)
    requires ParseTest(g, ts).Some? && !Takes(ts, "NOT") && !Takes(ts, "(")
    ensures var (p, rest) := ParseTest(g, ts).value; Behind(ts, rest) && TestOf(g, Used(ts, rest), p)
  {
    hide TailOf, ParseTail, NamedColumn, FindName, Keyword, Takes;
    var (p, rest) := ParseTest(g, ts).value;
    TakesKeyword(ts, "NOT");
    TakesKeyword(ts, "(");
    NamedExact(g.columns, ts[0].value);
    var c := FindName(g.columns, ts[0].value).value;
    TailSound(g, c, ts[1..]);
    BehindMore(ts, 1, rest);
  }

  lemma TestComplete(g: Context, ts: seq<Token>, p: Predicate, rest: seq<Token>)
    requires TestOf(g, ts, p)
    ensures ParseTest(g, ts + rest) == Some((p, rest)) && !Takes(ts + rest, "NOT") && !Takes(ts + rest, "(")
  {
    hide TailOf, ParseTail, NamedColumn, FindName, Keyword, Takes;
    TakesKeyword(ts + rest, "NOT");
    TakesKeyword(ts + rest, "(");
    NamedExact(g.columns, ts[0].value);
    var c :| NamedColumn(g.columns, ts[0].value, c) && g.readers.family(c.kind) != Unsupported && TailOf(g, c, ts[1..], p);
    assert (ts + rest)[1..] == ts[1..] + rest;
    TailComplete(g, c, ts[1..], p, rest);
  }

  ghost predicate ReadsAtom(g: Context, ts: seq<Token>, r: Parsed<Predicate>, depth: nat) {
    r.Some? ==> Behind(ts, r.value.1) && AtomOf(g, Used(ts, r.value.1), r.value.0, depth)
  }

  ghost predicate ReadsGroup(g: Context, kind: GroupKind, ts: seq<Token>, r: Parsed<Predicate>, depth: nat) {
    r.Some? ==> Behind(ts, r.value.1) && GroupOf(g, kind, Used(ts, r.value.1), r.value.0, depth)
  }

  lemma {:induction false} AtomSound(g: Context, ts: seq<Token>, depth: nat)
    ensures ReadsAtom(g, ts, ParseAtom(g, ts, depth), depth)
    decreases |ts|, 0
  {
    hide Keyword, Takes, TestOf, ParseTest, Behind, Used;
    var r := ParseAtom(g, ts, depth);
    if r.Some? {
      var (p, rest) := r.value;
      TakesKeyword(ts, "NOT");
      TakesKeyword(ts, "(");
      if Takes(ts, "NOT") {
        AtomSound(g, ts[1..], depth + 1);
        NegationUsed(ts, rest);
      } else if Takes(ts, "(") {
        GroupSound(g, Any, ts[1..], depth + 1);
        var close := ParseGroup(g, Any, ts[1..], depth + 1).value.1;
        TakesKeyword(close, ")");
        BracketsUsed(ts, close);
      } else {
        TestSound(g, ts);
      }
    }
  }

  lemma NegationUsed(ts: seq<Token>, rest: seq<Token>)
    requires ts != [] && Behind(ts[1..], rest)
    ensures Behind(ts, rest) && |Used(ts, rest)| >= 1 && Used(ts, rest)[0] == ts[0] && Used(ts, rest)[1..] == Used(ts[1..], rest)
  {
    BehindMore(ts, 1, rest);
    hide Behind, Used;
    var used := Used(ts[1..], rest);
    assert ts[..1] == [ts[0]];
    assert Used(ts, rest) == [ts[0]] + used;
  }

  lemma {:induction false} TermSound(g: Context, kind: GroupKind, ts: seq<Token>, depth: nat)
    ensures var r := ParseTerm(g, kind, ts, depth);
      r.Some? ==> Behind(ts, r.value.1) && TermOf(g, kind, Used(ts, r.value.1), r.value.0, depth)
    decreases |ts|, if kind == All then 1 else 4
  {
    hide Behind, Used;
    if kind == All {
      AtomSound(g, ts, depth);
    } else {
      GroupSound(g, All, ts, depth);
    }
  }

  lemma {:induction false} TermsSound(g: Context, kind: GroupKind, ts: seq<Token>, depth: nat)
    ensures var r := ParseTerms(g, kind, ts, depth);
      r.Some? ==> Behind(ts, r.value.1) && TermsOf(g, kind, Used(ts, r.value.1), r.value.0, depth)
    decreases |ts|, if kind == All then 2 else 5
  {
    hide Keyword, Takes, TermOf, ParseTerm, Behind, Used;
    var r := ParseTerms(g, kind, ts, depth);
    if r.Some? {
      TermSound(g, kind, ts, depth);
      var (p, behind) := ParseTerm(g, kind, ts, depth).value;
      TakesKeyword(behind, Separator(kind));
      if Takes(behind, Separator(kind)) {
        TermsSound(g, kind, behind[1..], depth);
        var (terms, rest) := r.value;
        var more := ParseTerms(g, kind, behind[1..], depth).value.0;
        assert terms == [p] + more && terms[1..] == more;
        var i := JoinedUsed(ts, behind, rest);
        assert JoinedAt(g, kind, Used(ts, rest), terms, depth, i);
      }
    }
  }

  lemma JoinedUsed(ts: seq<Token>, behind: seq<Token>, rest: seq<Token>) returns (i: nat)
    requires Behind(ts, behind) && behind != [] && Behind(behind[1..], rest)
    ensures Behind(ts, rest) && i < |Used(ts, rest)| && Used(ts, rest)[i] == behind[0]
    ensures Used(ts, rest)[..i] == Used(ts, behind) && Used(ts, rest)[i + 1..] == Used(behind[1..], rest)
  {
    BehindSplit(ts, behind);
    BehindSplit(behind[1..], rest);
    i := |ts| - |behind|;
    assert ts == Used(ts, behind) + [behind[0]] + Used(behind[1..], rest) + rest;
  }

  lemma {:induction false} GroupSound(g: Context, kind: GroupKind, ts: seq<Token>, depth: nat)
    ensures ReadsGroup(g, kind, ts, ParseGroup(g, kind, ts, depth), depth)
    decreases |ts|, if kind == All then 3 else 6
  {
    hide Behind, Used, TermOf, JoinedAt;
    TermsSound(g, kind, ts, depth);
  }

  // ----- Every derivation is what the parser reads -----

  lemma {:induction false} AtomComplete(g: Context, ts: seq<Token>, p: Predicate, depth: nat, rest: seq<Token>)
    requires AtomOf(g, ts, p, depth)
    ensures ParseAtom(g, ts + rest, depth) == Some((p, rest))
    decreases |ts|, 0
  {
    hide Keyword, Takes, TestOf, ParseTest;
    var all := ts + rest;
    if TestOf(g, ts, p) {
      TestComplete(g, ts, p, rest);
    } else {
      TakesKeyword(all, "NOT");
      TakesKeyword(all, "(");
      KeywordsApart(ts[0]);
      if Keyword(ts[0], "NOT") {
        assert all[1..] == ts[1..] + rest;
        AtomComplete(g, ts[1..], p.term, depth + 1, rest);
      } else {
        var close := [ts[|ts| - 1]] + rest;
        BracketsBack(ts, rest);
        CloseTakes(ts[|ts| - 1], rest);
        GroupComplete(g, Any, ts[1..|ts| - 1], p, depth + 1, close);
      }
    }
  }

  lemma CloseTakes(t: Token, rest: seq<Token>)
    requires Keyword(t, ")")
    ensures Takes([t] + rest, ")") && !Takes([t] + rest, "AND") && !Takes([t] + rest, "OR")
  {
    KeywordsApart(t);
  }

  lemma {:induction false} TermComplete(g: Context, kind: GroupKind, ts: seq<Token>, p: Predicate, depth: nat, rest: seq<Token>)
    requires TermOf(g, kind, ts, p, depth) && (kind == Any ==> !Takes(rest, "AND"))
    ensures ParseTerm(g, kind, ts + rest, depth) == Some((p, rest))
    decreases |ts|, if kind == All then 1 else 4
  {
    if kind == All {
      AtomComplete(g, ts, p, depth, rest);
    } else {
      GroupComplete(g, All, ts, p, depth, rest);
    }
  }

  lemma SeparatorTakes(kind: GroupKind, t: Token, rest: seq<Token>)
    requires Keyword(t, if kind == All then "AND" else "OR")
    ensures Takes([t] + rest, Separator(kind)) && (kind == Any ==> !Takes([t] + rest, "AND")) && ([t] + rest)[1..] == rest
  {
    KeywordsApart(t);
  }

  lemma {:induction false} TermsComplete(g: Context, kind: GroupKind, ts: seq<Token>, terms: seq<Predicate>, depth: nat, rest: seq<Token>)
    requires TermsOf(g, kind, ts, terms, depth) && !Takes(rest, "AND") && (kind == Any ==> !Takes(rest, "OR"))
    ensures ParseTerms(g, kind, ts + rest, depth) == Some((terms, rest))
    decreases |ts|, if kind == All then 2 else 5
  {
    hide Keyword, Takes, ParseTerm, TermOf;
    if |terms| == 1 {
      TermComplete(g, kind, ts, terms[0], depth, rest);
      assert terms == [terms[0]];
    } else {
      var i: nat :| i < |ts| && JoinedAt(g, kind, ts, terms, depth, i);
      var behind := [ts[i]] + (ts[i + 1..] + rest);
      assert ts + rest == ts[..i] + behind;
      SeparatorTakes(kind, ts[i], ts[i + 1..] + rest);
      TermComplete(g, kind, ts[..i], terms[0], depth, behind);
      TermsComplete(g, kind, ts[i + 1..], terms[1..], depth, rest);
      assert terms == [terms[0]] + terms[1..];
    }
  }

  lemma {:induction false} GroupComplete(g: Context, kind: GroupKind, ts: seq<Token>, p: Predicate, depth: nat, rest: seq<Token>)
    requires GroupOf(g, kind, ts, p, depth) && !Takes(rest, "AND") && (kind == Any ==> !Takes(rest, "OR"))
    ensures ParseGroup(g, kind, ts + rest, depth) == Some((p, rest))
    decreases |ts|, if kind == All then 3 else 6
  {
    hide Keyword, Takes, ParseTerm;
    if TermOf(g, kind, ts, p, depth) {
      TermComplete(g, kind, ts, p, depth, rest);
    } else {
      TermsComplete(g, kind, ts, p.terms, depth, rest);
    }
  }

  // ----- The main result -----

  /** The tokens are the text of the predicate. */
  ghost predicate TextOf(g: Context, ts: seq<Token>, p: Predicate) {
    GroupOf(g, Any, ts, p, 0)
  }

  lemma ParsesExactly(g: Context, ts: seq<Token>, p: Predicate)
    ensures ParseGroup(g, Any, ts, 0) == Some((p, [])) <==> TextOf(g, ts, p)
  {
    var none: seq<Token> := [];
    assert ts + none == ts;
    if TextOf(g, ts, p) {
      GroupComplete(g, Any, ts, p, 0, none);
    }
    if ParseGroup(g, Any, ts, 0) == Some((p, none)) {
      GroupSound(g, Any, ts, 0);
      assert Used(ts, none) == ts;
    }
  }

  /** The group limits of the schema. */
  ghost predicate TermsBounded(p: Predicate)
    decreases p
  {
    match p
    case Group(_, terms) => 2 <= |terms| <= 128 && forall t | t in terms :: TermsBounded(t)
    case Not(term) => TermsBounded(term)
    case In(_, values) => 1 <= |values| <= 1000
    case _ => true
  }

  lemma {:induction false} BoundedExact(p: Predicate)
    ensures TermsBounded(p) <==> SchemaOk(p)
    decreases p
  {
    match p
    case Group(_, terms) =>
      forall t | t in terms
        ensures TermsBounded(t) <==> SchemaOk(t)
      {
        BoundedExact(t);
      }
    case Not(term) => BoundedExact(term);
    case _ =>
  }

  /** A text is accepted exactly if it is not blank, has at most 8192 code units, and all of it, cut into its
      tokens, is the text of a predicate whose normal form is within the limits; the result is that normal
      form. */
  lemma ParseExact(g: Context, expression: string, n: Predicate)
    ensures Parse(g, expression) == Some(n) <==>
      && (exists c | c in expression :: !White(c)) && Utf16Length(expression) <= 8192
      && exists ts, q :: Lexes(expression, ts) && TextOf(g, ts, q) && n == Normalise(q) && TermsBounded(n)
  {
    hide Lexes, TextOf, Tokens, ParseGroup, Normalise, SchemaOk, TermsBounded, White, IsSpace;
    BoundedExact(n);
    BlankExact(expression);
    forall ts {
      LexExact(expression, ts);
    }
    forall ts, q {
      ParsesExactly(g, ts, q);
    }
  }

  lemma BlankExact(expression: string)
    ensures IsBlank(expression) <==> !exists c | c in expression :: !White(c)
  {
    forall c {
      WhiteExact(c);
    }
  }

  /** A text stands for one predicate. */
  lemma TextUnique(g: Context, ts: seq<Token>, p: Predicate, q: Predicate)
    requires TextOf(g, ts, p) && TextOf(g, ts, q)
    ensures p == q
  {
    ParsesExactly(g, ts, p);
    ParsesExactly(g, ts, q);
  }
}
