/** What `parsePredicate` accepts: its results are normal and printable, and printed again they parse to
    themselves, except where printing nests too deeply or a literal left the years 1 to 9999. */
module Reparse {
  import opened Wrappers
  import opened Ordering
  import opened Chars
  import opened ColumnTypes
  import opened Predicates
  import opened Normalisation
  import opened Evaluation
  import opened Lexer
  import opened Grammar
  import opened RoundTrip
  import Composition
  import Temporal
  import Timestamps

  /** The temporal readers are those of the source. Of the decimal library: a canonical numeric text is
      read as itself. */
  ghost predicate Lawful(r: Readers) {
    && (forall s, k {:trigger r.numeric(s, k)} | r.numeric(s, k).Some? ::
          var v := r.numeric(s, k).value;
          IsNumberText(v) && '\0' !in v && r.numeric(v, k) == Some(v) && r.exact(v).Some?)
    && (forall s, k {:trigger r.moment(s, k)} :: r.moment(s, k) == Temporal.TemporalLiteral(s, k))
    && (forall s, k {:trigger r.instant(s, k)} :: r.instant(s, k) == Temporal.Temporal(s, k))
  }

  ghost predicate IdsUnique(columns: seq<Column>) {
    forall i, j | 0 <= i < j < |columns| :: columns[i].id != columns[j].id
  }

  lemma {:induction false} FindUnique(columns: seq<Column>, name: string)
    requires IdsUnique(columns) && FindName(columns, name).Some?
    ensures FindColumn(columns, FindName(columns, name).value.id) == FindName(columns, name)
    ensures FindName(columns, name).value in columns
  {
    if columns[0].name != name {
      FindUnique(columns[1..], name);
      var c := FindName(columns[1..], name).value;
      var j :| 0 <= j < |columns[1..]| && columns[1..][j] == c;
      assert columns[j + 1] == c;
      assert columns[0].id != c.id;
    }
  }

  // ----- Words the lexer makes -----

  ghost predicate WordsOk(ts: seq<Token>) {
    forall t | t in ts && t.kind == WordToken :: IsWord(t.value)
  }

  lemma NextTokenWord(s: string)
    requires NextToken(s).Some? && NextToken(s).value.0.kind == WordToken
    ensures IsWord(NextToken(s).value.0.value)
  {
    var e := WordEnd(s, 1);
    assert NextToken(s).value.0.value == s[..e];
    forall i | 0 <= i < e
      ensures IsWordPart(s[..e][i])
    {
      assert s[..e][i] == s[i];
    }
  }

  lemma {:induction false} TokensWords(s: string)
    requires Tokens(s).Some?
    ensures WordsOk(Tokens(s).value)
    decreases |s|
  {
    if s == "" {
    } else if IsSpace(s[0]) {
      TokensWords(s[1..]);
    } else {
      var next := NextToken(s).value;
      TokensWords(s[next.1..]);
      if next.0.kind == WordToken {
        NextTokenWord(s);
      }
    }
  }

  lemma SuffixWords(ts: seq<Token>, i: nat)
    requires WordsOk(ts) && i <= |ts|
    ensures WordsOk(ts[i..])
  {
    assert forall t | t in ts[i..] :: t in ts;
  }

  // ----- Canonical literals -----

  lemma CaseChars(c: char)
    ensures UpperChar(c) == 'T' ==> LowerChar(c) == 't'
    ensures UpperChar(c) == 'R' ==> LowerChar(c) == 'r'
    ensures UpperChar(c) == 'U' ==> LowerChar(c) == 'u'
    ensures UpperChar(c) == 'E' ==> LowerChar(c) == 'e'
    ensures UpperChar(c) == 'F' ==> LowerChar(c) == 'f'
    ensures UpperChar(c) == 'A' ==> LowerChar(c) == 'a'
    ensures UpperChar(c) == 'L' ==> LowerChar(c) == 'l'
    ensures UpperChar(c) == 'S' ==> LowerChar(c) == 's'
    ensures LowerChar(LowerChar(c)) == LowerChar(c)
    ensures IsHex(c) ==> IsHex(LowerChar(c))
    ensures LowerChar(c) == '\0' ==> c == '\0'
  {
  }

  lemma LowerTrue(v: string)
    requires Upper(v) == "TRUE"
    ensures Lower(v) == "true"
  {
    assert |v| == 4 && Upper(v)[0] == 'T' && Upper(v)[1] == 'R' && Upper(v)[2] == 'U' && Upper(v)[3] == 'E';
    forall i | 0 <= i < 4 {
      CaseChars(v[i]);
    }
  }

  lemma LowerFalse(v: string)
    requires Upper(v) == "FALSE"
    ensures Lower(v) == "false"
  {
    assert |v| == 5 && Upper(v)[0] == 'F' && Upper(v)[1] == 'A' && Upper(v)[2] == 'L' && Upper(v)[3] == 'S' && Upper(v)[4] == 'E';
    forall i | 0 <= i < 5 {
      CaseChars(v[i]);
    }
  }

  lemma LowerUuid(v: string)
    requires IsUuid(v) && '\0' !in v
    ensures IsUuid(Lower(v)) && Lower(Lower(v)) == Lower(v) && '\0' !in Lower(v)
  {
    forall i | 0 <= i < |v|
      ensures Lower(v)[i] == LowerChar(v[i]) && LowerChar(Lower(v)[i]) == Lower(v)[i]
      ensures IsHex(v[i]) ==> IsHex(Lower(v)[i])
      ensures Lower(v)[i] != '\0'
    {
      CaseChars(v[i]);
      assert v[i] in v;
    }
  }

  /** The literal is in the years 1 to 9999 of UTC: if its type has a zone, it is the text of a
      microsecond of those years. */
  ghost predicate InYears(v: string, kind: string) {
    Temporal.Zoned(kind) ==> exists micros :: Timestamps.InRange(micros) && v == Temporal.UtcText(micros)
  }

  /** What `typedLiteral` gives is accepted again, and has a value, exactly if it is in the years 1 to 9999. */
  lemma KeptMoment(value: string, kind: string)
    requires Temporal.TemporalLiteral(value, kind).Some? && '\0' !in value
    ensures var v := Temporal.TemporalLiteral(value, kind).value;
      && '\0' !in v
      && Temporal.TemporalLiteral(v, kind) == (if InYears(v, kind) then Some(v) else None)
      && (Temporal.Temporal(v, kind).Some? <==> InYears(v, kind))
  {
    hide Temporal.UtcText, Temporal.Temporal;
    var v := Temporal.TemporalLiteral(value, kind).value;
    Temporal.LiteralStable(value, kind);
    if Temporal.Zoned(kind) && InYears(v, kind) {
      var micros :| Timestamps.InRange(micros) && v == Temporal.UtcText(micros);
      Temporal.InRangeText(micros);
      Temporal.CanonicalTemporal(micros, v, kind);
    }
  }

  /** A literal that prints, is accepted again exactly in the years 1 to 9999, and evaluates then. */
  ghost predicate LiteralGood(r: Readers, v: Option<string>, kind: string) {
    var dated := v.Some? && r.family(kind) == Time ==> InYears(v.value, kind);
    && LiteralOk(r, v, kind)
    && RereadLiteral(r, v, kind) == (if dated then Some(v) else None)
    && (v.Some? ==> (LiteralReads(r, v.value, kind) <==> dated))
  }

  lemma BooleanKept(r: Readers, v: string, kind: string)
    requires r.family(kind) == Boolean && (v == "true" || v == "false")
    ensures LiteralOk(r, Some(v), kind) && RereadLiteral(r, Some(v), kind) == Some(Some(v))
  {
    var u := if v == "true" then "TRUE" else "FALSE";
    assert Upper(v) == u && Upper(u) == u && Lower(u) == v;
    assert IsWord(u) && '\0' !in u && u != "NULL" by {
      assert u[0] != "NULL"[0];
    }
  }

  lemma TypedLiteralGood(r: Readers, value: string, token: TokenKind, kind: string)
    requires Lawful(r) && TypedLiteral(r, value, token, kind).Some?
    ensures LiteralGood(r, TypedLiteral(r, value, token, kind), kind)
  {
    hide InYears;
    match r.family(kind)
    case Boolean =>
      if Upper(value) == "TRUE" {
        LowerTrue(value);
        BooleanKept(r, "true", kind);
      } else {
        LowerFalse(value);
        BooleanKept(r, "false", kind);
      }
    case Uuid => LowerUuid(value);
    case Time => KeptMoment(value, kind);
    case _ =>
  }

  // ----- What the productions build -----

  ghost predicate GoodLiterals(r: Readers, vs: seq<Option<string>>, kind: string) {
    forall v | v in vs :: LiteralGood(r, v, kind)
  }

  /** The literals of a test of one column. */
  function LiteralsOf(p: Predicate): seq<Option<string>> {
    match p
    case Compare(_, _, value) => [value]
    case In(_, values) => values
    case _ => []
  }

  ghost predicate GoodTest(g: Context, p: Predicate) {
    && TestOk(g, p)
    && GoodLiterals(g.readers, LiteralsOf(p), FindColumn(g.columns, p.column).value.kind)
  }

  /** The literals of a test that have a temporal type are in the years 1 to 9999. */
  ghost predicate TestDated(g: Context, p: Predicate) {
    !p.Group? && !p.Not? && FindColumn(g.columns, p.column).Some? ==>
      var kind := FindColumn(g.columns, p.column).value.kind;
      g.readers.family(kind) == Time ==> forall v | v in LiteralsOf(p) && v.Some? :: InYears(v.value, kind)
  }

  ghost predicate Dated(g: Context, p: Predicate)
    decreases p
  {
    match p
    case Group(_, terms) => forall t | t in terms :: Dated(g, t)
    case Not(term) => Dated(g, term)
    case _ => TestDated(g, p)
  }

  ghost predicate Good(g: Context, p: Predicate)
    decreases p
  {
    match p
    case Group(_, terms) => |terms| >= 2 && forall t | t in terms :: Good(g, t)
    case Not(term) => Good(g, term)
    case _ => GoodTest(g, p)
  }

  lemma {:induction false} LiteralsGood(r: Readers, vs: seq<Option<string>>, kind: string)
    requires GoodLiterals(r, vs, kind)
    ensures var dated := r.family(kind) == Time ==> forall v | v in vs && v.Some? :: InYears(v.value, kind);
      RereadLiterals(r, vs, kind) == if dated then Some(vs) else None
  {
    hide InYears, RereadLiteral, LiteralOk, LiteralReads;
    if vs != [] {
      HeadAndRest(vs);
      assert vs[0] in vs && forall v :: v in vs <==> v == vs[0] || v in vs[1..];
      LiteralsGood(r, vs[1..], kind);
    }
  }

  lemma TestReread(g: Context, p: Predicate)
    requires GoodTest(g, p)
    ensures Reread(g, p) == if TestDated(g, p) then Some(p) else None
    ensures TestDated(g, p) ==> LiteralsRead(g.readers, p, g.columns)
  {
    hide InYears, LiteralOk;
    var c := FindColumn(g.columns, p.column).value;
    LiteralsGood(g.readers, LiteralsOf(p), c.kind);
    if p.Compare? {
      assert p.value in LiteralsOf(p);
    }
  }

  lemma {:induction false} GoodTerms(g: Context, terms: seq<Predicate>)
    requires forall t | t in terms :: Good(g, t)
    ensures forall t | t in terms :: Printable(g, t) && (Dated(g, t) ==> LiteralsRead(g.readers, t, g.columns))
    ensures RereadAll(g, terms) == if forall t | t in terms :: Dated(g, t) then Some(terms) else None
    decreases terms, 0
  {
    if terms != [] {
      HeadAndRest(terms);
      assert terms[0] in terms && forall t :: t in terms <==> t == terms[0] || t in terms[1..];
      GoodPrintable(g, terms[0]);
      GoodTerms(g, terms[1..]);
    }
  }

  lemma {:induction false} GoodPrintable(g: Context, p: Predicate)
    requires Good(g, p)
    ensures Printable(g, p) && (Dated(g, p) ==> LiteralsRead(g.readers, p, g.columns))
    ensures Reread(g, p) == if Dated(g, p) then Some(p) else None
    decreases p, 1
  {
    match p
    case Group(_, terms) => GoodTerms(g, terms);
    case Not(term) => GoodPrintable(g, term);
    case _ => TestReread(g, p);
  }

  lemma ParsedLiteralGood(g: Context, c: Column, ts: seq<Token>)
    requires Lawful(g.readers) && WordsOk(ts) && ParseLiteral(g, c, ts).Some?
    ensures GoodLiterals(g.readers, [ParseLiteral(g, c, ts).value.0], c.kind)
    ensures WordsOk(ParseLiteral(g, c, ts).value.1)
  {
    SuffixWords(ts, 1);
    var t := ts[0];
    if !(t.kind == WordToken && Upper(t.value) == "NULL") {
      TypedLiteralGood(g.readers, t.value, t.kind, c.kind);
    }
  }

  lemma {:induction false} ValuesGood(g: Context, c: Column, ts: seq<Token>, count: nat)
    requires Lawful(g.readers) && WordsOk(ts) && ParseValues(g, c, ts, count).Some?
    ensures GoodLiterals(g.readers, ParseValues(g, c, ts, count).value.0, c.kind)
    ensures WordsOk(ParseValues(g, c, ts, count).value.1)
    decreases |ts|
  {
    ValuesUnfold(g, c, ts, count);
    if Takes(ts, ",") {
      SuffixWords(ts, 1);
      ParsedLiteralGood(g, c, ts[1..]);
      var v := ParseLiteral(g, c, ts[1..]).value;
      ValuesGood(g, c, v.1, count + 1);
      assert v.0 in [v.0];
    }
  }

  lemma InGood(g: Context, c: Column, ts: seq<Token>)
    requires Lawful(g.readers) && WordsOk(ts) && ParseIn(g, c, ts).Some?
    requires FindColumn(g.columns, c.id) == Some(c) && g.readers.family(c.kind) != Unsupported
    ensures GoodTest(g, ParseIn(g, c, ts).value.0) && WordsOk(ParseIn(g, c, ts).value.1)
  {
    if Takes(ts, "SCOPE") {
      SuffixWords(ts, 4);
      assert ts[2] in ts;
    } else {
      SuffixWords(ts, 1);
      ParsedLiteralGood(g, c, ts[1..]);
      var v := ParseLiteral(g, c, ts[1..]).value;
      ValuesGood(g, c, v.1, 1);
      var vs := ParseValues(g, c, v.1, 1).value;
      SuffixWords(vs.1, 1);
      assert v.0 in [v.0];
      assert forall x | x in [v.0] + vs.0 :: x == v.0 || x in vs.0;
    }
  }

  lemma TailGood(g: Context, c: Column, ts: seq<Token>)
    requires Lawful(g.readers) && WordsOk(ts) && ParseTail(g, c, ts).Some?
    requires FindColumn(g.columns, c.id) == Some(c) && g.readers.family(c.kind) != Unsupported
    ensures Good(g, ParseTail(g, c, ts).value.0) && WordsOk(ParseTail(g, c, ts).value.1)
  {
    if Takes(ts, "IS") {
      SuffixWords(ts, if Takes(ts[1..], "NOT") then 3 else 2);
      assert ts[1..][1..] == ts[2..];
      if Takes(ts[1..], "NOT") {
        assert ts[1..][1..][1..] == ts[3..];
      }
    } else {
      var negate := Takes(ts, "NOT");
      var rest := if negate then ts[1..] else ts;
      SuffixWords(ts, if negate then 1 else 0);
      assert ts[0..] == ts;
      if Takes(rest, "IN") {
        SuffixWords(rest, 1);
        InGood(g, c, rest[1..]);
      } else {
        SuffixWords(ts, 1);
        ParsedLiteralGood(g, c, ts[1..]);
        var v := ParseLiteral(g, c, ts[1..]).value.0;
        assert v in [v];
      }
    }
  }

  lemma TestGood(g: Context, ts: seq<Token>)
    requires Lawful(g.readers) && IdsUnique(g.columns) && WordsOk(ts) && ParseTest(g, ts).Some?
    ensures Good(g, ParseTest(g, ts).value.0) && WordsOk(ParseTest(g, ts).value.1)
  {
    FindUnique(g.columns, ts[0].value);
    SuffixWords(ts, 1);
    TailGood(g, FindName(g.columns, ts[0].value).value, ts[1..]);
  }

  lemma {:induction false} AtomGood(g: Context, ts: seq<Token>, depth: nat)
    requires Lawful(g.readers) && IdsUnique(g.columns) && WordsOk(ts) && ParseAtom(g, ts, depth).Some?
    ensures Good(g, ParseAtom(g, ts, depth).value.0) && WordsOk(ParseAtom(g, ts, depth).value.1)
    decreases |ts|, 0
  {
    if Takes(ts, "NOT") {
      SuffixWords(ts, 1);
      AtomGood(g, ts[1..], depth + 1);
    } else if Takes(ts, "(") {
      SuffixWords(ts, 1);
      GroupGood(g, Any, ts[1..], depth + 1);
      var p := ParseGroup(g, Any, ts[1..], depth + 1).value;
      SuffixWords(p.1, 1);
    } else {
      TestGood(g, ts);
    }
  }

  lemma {:induction false} TermGood(g: Context, kind: GroupKind, ts: seq<Token>, depth: nat)
    requires Lawful(g.readers) && IdsUnique(g.columns) && WordsOk(ts) && ParseTerm(g, kind, ts, depth).Some?
    ensures Good(g, ParseTerm(g, kind, ts, depth).value.0) && WordsOk(ParseTerm(g, kind, ts, depth).value.1)
    decreases |ts|, if kind == All then 1 else 4
  {
    if kind == All {
      AtomGood(g, ts, depth);
    } else {
      GroupGood(g, All, ts, depth);
    }
  }

  lemma {:induction false} TermsGood(g: Context, kind: GroupKind, ts: seq<Token>, depth: nat)
    requires Lawful(g.readers) && IdsUnique(g.columns) && WordsOk(ts) && ParseTerms(g, kind, ts, depth).Some?
    ensures forall t | t in ParseTerms(g, kind, ts, depth).value.0 :: Good(g, t)
    ensures WordsOk(ParseTerms(g, kind, ts, depth).value.1)
    decreases |ts|, if kind == All then 2 else 5
  {
    TermsUnfold(g, kind, ts, depth);
    TermGood(g, kind, ts, depth);
    var p := ParseTerm(g, kind, ts, depth).value;
    if Takes(p.1, Separator(kind)) {
      SuffixWords(p.1, 1);
      TermsGood(g, kind, p.1[1..], depth);
    }
  }

  lemma {:induction false} GroupGood(g: Context, kind: GroupKind, ts: seq<Token>, depth: nat)
    requires Lawful(g.readers) && IdsUnique(g.columns) && WordsOk(ts) && ParseGroup(g, kind, ts, depth).Some?
    ensures Good(g, ParseGroup(g, kind, ts, depth).value.0) && WordsOk(ParseGroup(g, kind, ts, depth).value.1)
    decreases |ts|, if kind == All then 3 else 6
  {
    TermsGood(g, kind, ts, depth);
    var ps := ParseTerms(g, kind, ts, depth).value.0;
    assert ps[0] in ps;
  }

  // ----- Normalising keeps it -----

  lemma {:induction false} FlattenedGood(g: Context, kind: GroupKind, terms: seq<Predicate>)
    requires forall t | t in terms :: Good(g, t)
    ensures |Flattened(kind, terms)| >= |terms|
    ensures forall t | t in Flattened(kind, terms) :: Good(g, t)
    decreases terms, 0
  {
    if terms != [] {
      assert terms[0] in terms && forall t | t in terms[1..] :: t in terms;
      NormaliseGood(g, terms[0]);
      FlattenedGood(g, kind, terms[1..]);
    }
  }

  lemma {:induction false} NormaliseGood(g: Context, p: Predicate)
    requires Good(g, p)
    ensures Good(g, Normalise(p))
    decreases p, 1
  {
    match p
    case Group(kind, terms) =>
      var flat := Flattened(kind, terms);
      FlattenedGood(g, kind, terms);
      TermOrder();
      SortSorts(TermLeq, flat);
      assert |Sort(TermLeq, flat)| == |multiset(Sort(TermLeq, flat))| == |multiset(flat)| == |flat|;
    case Not(term) =>
      NormaliseGood(g, term);
    case In(_, values) =>
      DistinctSorted(values);
      var sorted := Sort(ValueLeq, Distinct(values));
      assert values[0] in values;
      assert sorted != [] by {
        assert values[0] in sorted;
      }
    case _ =>
  }

  lemma {:induction false} SchemaSized(p: Predicate)
    requires SchemaOk(p)
    ensures Sized(p)
    decreases p
  {
    match p
    case Group(_, terms) =>
      forall t | t in terms
        ensures Sized(t)
      {
        SchemaSized(t);
      }
    case Not(term) => SchemaSized(term);
    case _ =>
  }

  // ----- Main results -----

  /** Whatever text is accepted, the result is a normal form that can be printed. Its printed text is
      accepted and gives the same predicate again exactly if it is short and flat enough and no literal
      left the years 1 to 9999 on its way to UTC; then the IN lists also evaluate on every row alike. */
  lemma ParseStable(g: Context, expression: string)
    requires Lawful(g.readers) && IdsUnique(g.columns) && ColumnsOk(g.columns)
    requires Parse(g, expression).Some?
    ensures var p := Parse(g, expression).value;
      && Normalise(p) == p
      && Printable(g, p) && Known(p, g.columns)
      && (Dated(g, p) ==> LiteralsRead(g.readers, p, g.columns))
      && Parse(g, Printed(g, p)) ==
           if Utf16Length(Printed(g, p)) <= MAX_LENGTH && Height(p) <= MAX_DEPTH && Dated(g, p) then Some(p) else None
  {
    var tokens := Tokens(expression).value;
    var q := ParseGroup(g, Any, tokens, 0).value.0;
    var p := Parse(g, expression).value;
    TokensWords(expression);
    GroupGood(g, Any, tokens, 0);
    NormaliseGood(g, q);
    GoodPrintable(g, p);
    NormaliseIdempotent(q);
    ParsePrinted(g, p);
    SchemaSized(p);
  }

  /** Printing writes `NOT (t)` for every negation, which nests two levels where `NOT t` nests one. */
  function Negated(p: Predicate, k: nat): Predicate {
    if k == 0 then p else Not(Negated(p, k - 1))
  }

  function NegatedText(text: string, k: nat): string {
    if k == 0 then text else "NOT" + Spaced(NegatedText(text, k - 1))
  }

  lemma ParsesNot(g: Context, ts: seq<Token>, depth: nat)
    requires depth + 1 <= MAX_DEPTH && Takes(ts, "NOT")
    ensures var inner := ParseAtom(g, ts[1..], depth + 1);
      ParseAtom(g, ts, depth) == if inner.None? then None else Some((Not(inner.value.0), inner.value.1))
  {
  }

  lemma {:induction false} NegatedParses(g: Context, p: Predicate, ts: seq<Token>, k: nat, depth: nat)
    requires depth + k + 1 <= MAX_DEPTH
    requires ParseAtom(g, ts, depth + k) == Some((p, []))
    ensures ParseAtom(g, NegatedTokens(ts, k), depth) == Some((Negated(p, k), []))
    decreases k
  {
    hide ParseAtom, Takes;
    if k > 0 {
      assert Upper("NOT") == "NOT";
      TakesWord("NOT", NegatedTokens(ts, k - 1));
      ParsesNot(g, NegatedTokens(ts, k), depth);
      NegatedParses(g, p, ts, k - 1, depth + 1);
    }
  }

  function NegatedTokens(ts: seq<Token>, k: nat): seq<Token> {
    if k == 0 then ts else [WordOf("NOT")] + NegatedTokens(ts, k - 1)
  }

  lemma {:induction false} NegatedReads(text: string, ts: seq<Token>, k: nat)
    requires Reads(text, ts, false)
    ensures Reads(NegatedText(text, k), NegatedTokens(ts, k), false)
  {
    hide Reads;
    if k > 0 {
      NegatedReads(text, ts, k - 1);
      ReadsWordThen("NOT", NegatedText(text, k - 1), NegatedTokens(ts, k - 1), false);
    }
  }

  lemma NegatedLexes(text: string, ts: seq<Token>, k: nat)
    requires Reads(text, ts, false)
    ensures Tokens(NegatedText(text, k)) == Some(NegatedTokens(ts, k))
  {
    hide NegatedText, NegatedTokens, Reads;
    NegatedReads(text, ts, k);
    ReadsAt(NegatedText(text, k), NegatedTokens(ts, k), false, "");
    assert NegatedText(text, k) + "" == NegatedText(text, k);
    assert NegatedTokens(ts, k) + [] == NegatedTokens(ts, k);
  }

  lemma {:induction false} NegatedShape(g: Context, p: Predicate, k: nat)
    requires p.Null? && TestOk(g, p)
    ensures Height(Negated(p, k)) == 2 * k + 1
    ensures Printable(g, Negated(p, k)) && SchemaOk(Negated(p, k)) && Normalise(Negated(p, k)) == Negated(p, k)
  {
    if k > 0 {
      NegatedShape(g, p, k - 1);
    }
  }

  /** So printing is not always undone by parsing: a text of 16 to 31 negations is accepted, and the
      printed text of its result is refused. */
  lemma DeepNegationsNotReparsed(g: Context, column: string, k: nat)
    requires ColumnsOk(g.columns) && TestOk(g, Null(column, false)) && 16 <= k <= 31
    requires var text := NegatedText(Printed(g, Null(column, false)), k); Utf16Length(text) <= MAX_LENGTH && !IsBlank(text)
    ensures var p := Negated(Null(column, false), k);
      && Known(p, g.columns)
      && Parse(g, NegatedText(Printed(g, Null(column, false)), k)) == Some(p)
      && Parse(g, Printed(g, p)) == None
  {
    hide Reads, NegatedText, NegatedTokens, TokensOf, Tokens;
    var leaf := Null(column, false);
    var p, text, ts := Negated(leaf, k), Printed(g, leaf), TokensOf(g, leaf);
    NegatedShape(g, leaf, k);
    ReadsPredicate(g, leaf);
    NegatedLexes(text, ts, k);
    ParsesPredicate(g, leaf, [], k);
    assert ts + [] == ts;
    NegatedParses(g, leaf, ts, k, 0);
    AtomAlone(g, NegatedTokens(ts, k), 0);
    ConjunctionAlone(g, NegatedTokens(ts, k), 0);
    ParsePrinted(g, p);
  }
}
