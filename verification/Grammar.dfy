/** The printer and the recursive-descent parser of the row-predicate language, as functions. */
module Grammar {
  import opened Wrappers
  import opened Chars
  import opened ColumnTypes
  import opened Predicates
  import opened Normalisation
  import opened Evaluation
  import opened Lexer

  const MAX_LENGTH: nat := 8192
  const MAX_DEPTH: nat := 32
  const MAX_VALUES: nat := 1000
  const MAX_TERMS: nat := 128

  /** What a text is parsed against. */
  datatype Context = Context(readers: Readers, columns: seq<Column>)

  // ----- typedLiteral -----

  /** The canonical form of a literal token for a column type; `None` refuses it. */
  function TypedLiteral(r: Readers, value: string, token: TokenKind, kind: string): Option<string> {
    var f := r.family(kind);
    if '\0' in value || f == Unsupported then None
    else if f == Number || f == Float then
      if token != NumberToken then None else r.numeric(value, kind)
    else if f == Boolean then
      if token != WordToken || Upper(value) !in {"TRUE", "FALSE"} then None else Some(Lower(value))
    else if token != StringToken then None
    else match f
      case Uuid => if IsUuid(value) then Some(Lower(value)) else None
      case Time => r.moment(value, kind)
      case _ => Some(value)
  }

  // ----- Parser -----

  /** Is the next token this keyword or symbol? Quoted tokens never are. */
  predicate Takes(ts: seq<Token>, s: string) {
    ts != [] && ts[0].kind != IdentifierToken && ts[0].kind != StringToken && Upper(ts[0].value) == s
  }

  function FindName(columns: seq<Column>, name: string): Option<Column> {
    if columns == [] then None else if columns[0].name == name then Some(columns[0]) else FindName(columns[1..], name)
  }

  function ParseOperator(text: string): Option<Operator> {
    match text
    case "=" => Some(Eq)
    case "<>" => Some(Ne)
    case "<" => Some(Lt)
    case "<=" => Some(Le)
    case ">" => Some(Gt)
    case ">=" => Some(Ge)
    case _ => None
  }

  /** A result and the tokens after it. */
  type Parsed<T> = Option<(T, seq<Token>)>

  function ParseLiteral(g: Context, c: Column, ts: seq<Token>): (r: Parsed<Option<string>>)
    ensures r.Some? ==> |r.value.1| < |ts|
  {
    if ts == [] then None
    else
      var t := ts[0];
      if t.kind == WordToken && Upper(t.value) == "NULL" then Some((None, ts[1..]))
      else if t.kind == SymbolToken || t.kind == IdentifierToken then None
      else
        var v :- TypedLiteral(g.readers, t.value, t.kind, c.kind);
        Some((Some(v), ts[1..]))
  }

  /** The values after the first of an IN list, up to the closing bracket; `count` are read already. */
  function ParseValues(g: Context, c: Column, ts: seq<Token>, count: nat): (r: Parsed<seq<Option<string>>>)
    ensures r.Some? ==> |r.value.1| <= |ts|
    decreases |ts|
  {
    if Takes(ts, ",") then
      if count >= MAX_VALUES then None
      else
        var v :- ParseLiteral(g, c, ts[1..]);
        var vs :- ParseValues(g, c, v.1, count + 1);
        Some(([v.0] + vs.0, vs.1))
    else Some(([], ts))
  }

  /** The values of an IN list, at least one. */
  function ParseList(g: Context, c: Column, ts: seq<Token>): (r: Parsed<seq<Option<string>>>)
    ensures r.Some? ==> |r.value.1| < |ts|
  {
    var v :- ParseLiteral(g, c, ts);
    var vs :- ParseValues(g, c, v.1, 1);
    Some(([v.0] + vs.0, vs.1))
  }

  function ParseIn(g: Context, c: Column, ts: seq<Token>): (r: Parsed<Predicate>)
    ensures r.Some? ==> |r.value.1| < |ts|
  {
    if Takes(ts, "SCOPE") then
      if Takes(ts[1..], "(") && |ts| >= 3 && ts[2].kind == WordToken && Takes(ts[3..], ")")
      then Some((Scope(c.id, ts[2].value), ts[4..])) else None
    else if Takes(ts, "(") then
      var vs :- ParseList(g, c, ts[1..]);
      if Takes(vs.1, ")") then Some((In(c.id, vs.0), vs.1[1..])) else None
    else None
  }

  function ParseComparison(g: Context, c: Column, ts: seq<Token>): (r: Parsed<Predicate>)
    ensures r.Some? ==> |r.value.1| < |ts|
  {
    if ts == [] then None
    else
      var operator :- ParseOperator(ts[0].value);
      var v :- ParseLiteral(g, c, ts[1..]);
      Some((Compare(c.id, operator, v.0), v.1))
  }

  function ParseNull(c: Column, ts: seq<Token>): (r: Parsed<Predicate>)
    ensures r.Some? ==> |r.value.1| < |ts|
  {
    var negated := Takes(ts, "NOT");
    var rest := if negated then ts[1..] else ts;
    if Takes(rest, "NULL") then Some((Null(c.id, negated), rest[1..])) else None
  }

  /** What follows a column name. */
  function ParseTail(g: Context, c: Column, ts: seq<Token>): (r: Parsed<Predicate>)
    ensures r.Some? ==> |r.value.1| < |ts|
  {
    if Takes(ts, "IS") then ParseNull(c, ts[1..])
    else
      var negate := Takes(ts, "NOT");
      var rest := if negate then ts[1..] else ts;
      if Takes(rest, "IN") then
        var p :- ParseIn(g, c, rest[1..]);
        Some((if negate then Not(p.0) else p.0, p.1))
      else if negate then None
      else ParseComparison(g, c, rest)
  }

  function ParseTest(g: Context, ts: seq<Token>): (r: Parsed<Predicate>)
    ensures r.Some? ==> |r.value.1| < |ts|
  {
    if ts == [] || (ts[0].kind != WordToken && ts[0].kind != IdentifierToken) then None
    else
      var c :- FindName(g.columns, ts[0].value);
      if g.readers.family(c.kind) == Unsupported then None else ParseTail(g, c, ts[1..])
  }

  function ParseAtom(g: Context, ts: seq<Token>, depth: nat): (r: Parsed<Predicate>)
    ensures r.Some? ==> |r.value.1| < |ts|
    decreases |ts|, 0
  {
    if depth + 1 > MAX_DEPTH then None
    else if Takes(ts, "NOT") then
      var p :- ParseAtom(g, ts[1..], depth + 1);
      Some((Not(p.0), p.1))
    else if Takes(ts, "(") then
      var p :- ParseGroup(g, Any, ts[1..], depth + 1);
      if Takes(p.1, ")") then Some((p.0, p.1[1..])) else None
    else ParseTest(g, ts)
  }

  function Separator(kind: GroupKind): string {
    if kind == All then "AND" else "OR"
  }

  /** One term of a group: an atom of a conjunction, a conjunction of a disjunction. */
  function ParseTerm(g: Context, kind: GroupKind, ts: seq<Token>, depth: nat): (r: Parsed<Predicate>)
    ensures r.Some? ==> |r.value.1| < |ts|
    decreases |ts|, if kind == All then 1 else 4
  {
    if kind == All then ParseAtom(g, ts, depth) else ParseGroup(g, All, ts, depth)
  }

  function ParseTerms(g: Context, kind: GroupKind, ts: seq<Token>, depth: nat): (r: Parsed<seq<Predicate>>)
    ensures r.Some? ==> |r.value.1| < |ts| && |r.value.0| >= 1
    decreases |ts|, if kind == All then 2 else 5
  {
    var p :- ParseTerm(g, kind, ts, depth);
    if Takes(p.1, Separator(kind)) then
      var ps :- ParseTerms(g, kind, p.1[1..], depth);
      Some(([p.0] + ps.0, ps.1))
    else Some(([p.0], p.1))
  }

  function Grouped(kind: GroupKind, terms: seq<Predicate>): Predicate
    requires terms != []
  {
    if |terms| == 1 then terms[0] else Group(kind, terms)
  }

  function ParseGroup(g: Context, kind: GroupKind, ts: seq<Token>, depth: nat): (r: Parsed<Predicate>)
    ensures r.Some? ==> |r.value.1| < |ts|
    decreases |ts|, if kind == All then 3 else 6
  {
    var ps :- ParseTerms(g, kind, ts, depth);
    Some((Grouped(kind, ps.0), ps.1))
  }

  /** The limits of `predicateSchema`. */
  predicate SchemaOk(p: Predicate)
    decreases p
  {
    match p
    case Group(_, terms) => 2 <= |terms| <= MAX_TERMS && forall t | t in terms :: SchemaOk(t)
    case Not(term) => SchemaOk(term)
    case In(_, values) => 1 <= |values| <= MAX_VALUES
    case _ => true
  }

  predicate IsBlank(s: string) {
    forall c | c in s :: IsSpace(c)
  }

  /** `parsePredicate`; every refusal is the one error `validation_failed`. */
  function Parse(g: Context, expression: string): Option<Predicate> {
    if IsBlank(expression) || Utf16Length(expression) > MAX_LENGTH then None
    else
      var tokens :- Tokens(expression);
      var p :- ParseGroup(g, Any, tokens, 0);
      if p.1 != [] then None
      else
        var normal := Normalise(p.0);
        if SchemaOk(normal) then Some(normal) else None
  }

  // ----- Printer -----

  predicate Known(p: Predicate, columns: seq<Column>)
    decreases p
  {
    match p
    case Group(_, terms) => forall t | t in terms :: Known(t, columns)
    case Not(term) => Known(term, columns)
    case _ => FindColumn(columns, p.column).Some?
  }

  function LiteralText(v: Option<string>, f: Family): string {
    match v
    case None => "NULL"
    case Some(value) =>
      match f
      case Number => value
      case Float => value
      case Boolean => Upper(value)
      case _ => Quoted('\'', value)
  }

  function Spaced(s: string): string {
    " " + s
  }

  function Bracketed(s: string): string {
    "(" + (s + ")")
  }

  /** `values.map(literal).join(', ')` */
  function ValuesText(vs: seq<Option<string>>, f: Family): string {
    if vs == [] then ""
    else if |vs| == 1 then LiteralText(vs[0], f)
    else LiteralText(vs[0], f) + ("," + Spaced(ValuesText(vs[1..], f)))
  }

  /** What is printed behind the name of the column. */
  function TailText(p: Predicate, f: Family): string
    requires !p.Group? && !p.Not?
  {
    match p
    case Null(_, negated) => Spaced("IS" + Spaced(if negated then "NOT" + Spaced("NULL") else "NULL"))
    case Scope(_, domain) => Spaced("IN" + Spaced("scope" + Bracketed(domain)))
    case In(_, values) => Spaced("IN" + Spaced(Bracketed(ValuesText(values, f))))
    case Compare(_, operator, value) => Spaced(OperatorText(operator) + Spaced(LiteralText(value, f)))
  }

  function Printed(g: Context, p: Predicate): string
    requires Known(p, g.columns)
    decreases p, 1
  {
    match p
    case Group(kind, terms) => Bracketed(PrintedTerms(g, kind, terms))
    case Not(term) => "NOT" + Spaced(Bracketed(Printed(g, term)))
    case _ =>
      var c := FindColumn(g.columns, p.column).value;
      Quoted('\"', c.name) + TailText(p, g.readers.family(c.kind))
  }

  /** `terms.map(predicateText).join(' AND ')`, or with ` OR `. */
  function PrintedTerms(g: Context, kind: GroupKind, terms: seq<Predicate>): string
    requires forall t | t in terms :: Known(t, g.columns)
    decreases terms, 0
  {
    if terms == [] then ""
    else if |terms| == 1 then Printed(g, terms[0])
    else Printed(g, terms[0]) + Spaced(Separator(kind) + Spaced(PrintedTerms(g, kind, terms[1..])))
  }
}
