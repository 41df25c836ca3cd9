/** Row predicates, their JSON text, and the canonical form that `predicateHash` digests. */
module Predicates {
  import opened Wrappers
  import opened Ordering

  /** `kind: 'and'` is `All`, `kind: 'or'` is `Any`. */
  datatype GroupKind = All | Any

  datatype Operator = Eq | Ne | Lt | Le | Gt | Ge

  datatype Predicate =
    | Group(kind: GroupKind, terms: seq<Predicate>)
    | Not(term: Predicate)
    | Null(column: string, negated: bool)
    | Compare(column: string, operator: Operator, value: Option<string>)
    | In(column: string, values: seq<Option<string>>)
    | Scope(column: string, domain: string)

  datatype Column = Column(id: string, name: string, sourceIdentifier: string, kind: string)

  function OperatorText(o: Operator): string {
    match o
    case Eq => "="
    case Ne => "<>"
    case Lt => "<"
    case Le => "<="
    case Gt => ">"
    case Ge => ">="
  }

  // ----- JSON.stringify -----

  function HexDigit(n: nat): char
    requires n < 16
  {
    "0123456789abcdef"[n]
  }

  /** Escaping of one character by `JSON.stringify`. */
  function Escaped(c: char): string {
    if c == '\"' then "\\\""
    else if c == '\\' then "\\\\"
    else if c == '\U{08}' then "\\b"
    else if c == '\t' then "\\t"
    else if c == '\n' then "\\n"
    else if c == '\U{0c}' then "\\f"
    else if c == '\r' then "\\r"
    else if c < ' ' then "\\u00" + [HexDigit(c as nat / 16), HexDigit(c as nat % 16)]
    else [c]
  }

  function Escapes(s: string): string {
    if s == "" then "" else Escaped(s[0]) + Escapes(s[1..])
  }

  const QUOTE: string := "\""

  function JsonString(s: string): string {
    QUOTE + (Escapes(s) + QUOTE)
  }

  function Comma(first: bool): string {
    if first then "" else ","
  }

  function JsonLiteral(v: Option<string>): string {
    if v.None? then "null" else JsonString(v.value)
  }

  /** The elements of an array from some point on, with the closing bracket. */
  function JsonLiterals(vs: seq<Option<string>>, first: bool): string {
    if vs == [] then "]" else Comma(first) + (JsonLiteral(vs[0]) + JsonLiterals(vs[1..], false))
  }

  function JsonBool(b: bool): string {
    if b then "true}" else "false}"
  }

  function KindName(p: Predicate): string {
    match p
    case Group(All, _) => "and"
    case Group(Any, _) => "or"
    case Not(_) => "not"
    case Null(_, _) => "null"
    case Compare(_, _, _) => "compare"
    case In(_, _) => "in"
    case Scope(_, _) => "scope"
  }

  /** The text `JSON.stringify` gives a predicate whose properties stand in the order in which the
      parser creates them. */
  function Json(p: Predicate): string
    decreases p, 1
  {
    "{\"kind\":" + (JsonString(KindName(p)) + JsonFields(p))
  }

  function JsonFields(p: Predicate): string
    decreases p, 0
  {
    match p
    case Group(_, terms) => ",\"terms\":[" + (JsonTerms(terms, true) + "}")
    case Not(term) => ",\"term\":" + (Json(term) + "}")
    case Null(column, negated) => ",\"column\":" + (JsonString(column) + (",\"negated\":" + JsonBool(negated)))
    case Compare(column, operator, value) =>
      ",\"column\":" + (JsonString(column) + (",\"operator\":" + (JsonString(OperatorText(operator)) +
      (",\"value\":" + (JsonLiteral(value) + "}")))))
    case In(column, values) =>
      ",\"column\":" + (JsonString(column) + (",\"values\":[" + (JsonLiterals(values, true) + "}")))
    case Scope(column, domain) =>
      ",\"column\":" + (JsonString(column) + (",\"domain\":" + (JsonString(domain) + "}")))
  }

  function JsonTerms(ps: seq<Predicate>, first: bool): string
    decreases ps, 0
  {
    if ps == [] then "]" else Comma(first) + (Json(ps[0]) + JsonTerms(ps[1..], false))
  }

  // ----- JSON text determines the predicate -----

  lemma Cancel(u: string, a: string, b: string)
    requires u + a == u + b
    ensures a == b
  {
    assert (u + a)[|u|..] == a && (u + b)[|u|..] == b;
  }

  lemma Regroup(a: string, b: string, s: string)
    ensures (a + b) + s == a + (b + s)
  {
  }

  /** Two texts that start with the same key agree after it, whatever follows. */
  lemma CancelKey(key: string, a: string, b: string, s: string, t: string)
    requires (key + a) + s == (key + b) + t
    ensures a + s == b + t
  {
    Regroup(key, a, s);
    Regroup(key, b, t);
    Cancel(key, a + s, b + t);
  }

  lemma HexDigitUnique(m: nat, n: nat)
    requires m < 16 && n < 16 && HexDigit(m) == HexDigit(n)
    ensures m == n
  {
  }

  predicate IsControl(c: char) {
    Escaped(c) != [c] && |Escaped(c)| == 6
  }

  lemma ControlEscape(c: char)
    requires IsControl(c)
    ensures c < ' '
    ensures Escaped(c)[4] == HexDigit(c as nat / 16) && Escaped(c)[5] == HexDigit(c as nat % 16)
    ensures Escaped(c)[1] == 'u'
  {
  }

  lemma EscapedShape(c: char)
    ensures |Escaped(c)| > 0 && Escaped(c)[0] != '\"'
    ensures Escaped(c)[0] != '\\' ==> Escaped(c) == [c]
    ensures Escaped(c)[0] == '\\' ==> |Escaped(c)| == 2 || IsControl(c)
    ensures |Escaped(c)| == 2 ==> Escaped(c)[0] == '\\' && Escaped(c)[1] != 'u'
  {
  }

  lemma ShortEscapeUnique(c: char, d: char)
    requires |Escaped(c)| == 2 && |Escaped(d)| == 2 && Escaped(c)[1] == Escaped(d)[1]
    ensures c == d
  {
  }

  lemma ControlUnique(c: char, d: char)
    requires IsControl(c) && IsControl(d)
    requires Escaped(c)[4] == Escaped(d)[4] && Escaped(c)[5] == Escaped(d)[5]
    ensures c == d
  {
    ControlEscape(c);
    ControlEscape(d);
    HexDigitUnique(c as nat / 16, d as nat / 16);
    HexDigitUnique(c as nat % 16, d as nat % 16);
  }

  lemma EscapedUnique(c: char, d: char, s: string, t: string)
    requires Escaped(c) + s == Escaped(d) + t
    ensures c == d && s == t
  {
    EscapedShape(c);
    EscapedShape(d);
    var a, b := Escaped(c), Escaped(d);
    assert (a + s)[0] == a[0] && (b + t)[0] == b[0];
    if a[0] == '\\' {
      assert (a + s)[1] == a[1] && (b + t)[1] == b[1];
      if |a| == 2 {
        ShortEscapeUnique(c, d);
      } else {
        ControlEscape(c);
        assert IsControl(d);
        assert (a + s)[4] == a[4] && (b + t)[4] == b[4];
        assert (a + s)[5] == a[5] && (b + t)[5] == b[5];
        ControlUnique(c, d);
      }
    }
    Cancel(a, s, t);
  }

  /** Only the closing quote is a quote. */
  lemma StartsPlain(a: string, s: string)
    ensures (Escapes(a) + (QUOTE + s))[0] == '\"' <==> a == ""
  {
    if a != "" {
      EscapedShape(a[0]);
    }
  }

  lemma {:induction false} EscapesUnique(a: string, b: string, s: string, t: string)
    requires Escapes(a) + (QUOTE + s) == Escapes(b) + (QUOTE + t)
    ensures a == b && s == t
  {
    StartsPlain(a, s);
    StartsPlain(b, t);
    if a == "" || b == "" {
      assert "" + (QUOTE + s) == QUOTE + s && "" + (QUOTE + t) == QUOTE + t;
      Cancel(QUOTE, s, t);
    } else {
      var u, v := Escapes(a[1..]) + (QUOTE + s), Escapes(b[1..]) + (QUOTE + t);
      Regroup(Escaped(a[0]), Escapes(a[1..]), QUOTE + s);
      Regroup(Escaped(b[0]), Escapes(b[1..]), QUOTE + t);
      EscapedUnique(a[0], b[0], u, v);
      EscapesUnique(a[1..], b[1..], s, t);
      assert a == [a[0]] + a[1..] && b == [b[0]] + b[1..];
    }
  }

  lemma JsonStringUnique(a: string, b: string, s: string, t: string)
    requires JsonString(a) + s == JsonString(b) + t
    ensures a == b && s == t
  {
    CancelKey(QUOTE, Escapes(a) + QUOTE, Escapes(b) + QUOTE, s, t);
    Regroup(Escapes(a), QUOTE, s);
    Regroup(Escapes(b), QUOTE, t);
    EscapesUnique(a, b, s, t);
  }

  lemma JsonLiteralUnique(a: Option<string>, b: Option<string>, s: string, t: string)
    requires JsonLiteral(a) + s == JsonLiteral(b) + t
    ensures a == b && s == t
  {
    assert (JsonLiteral(a) + s)[0] == JsonLiteral(a)[0] && (JsonLiteral(b) + t)[0] == JsonLiteral(b)[0];
    if a.None? {
      Cancel("null", s, t);
    } else {
      JsonStringUnique(a.value, b.value, s, t);
    }
  }

  lemma {:induction false} JsonLiteralsUnique(a: seq<Option<string>>, b: seq<Option<string>>, first: bool, s: string,
      t: string)
    requires JsonLiterals(a, first) + s == JsonLiterals(b, first) + t
    ensures a == b && s == t
    decreases |a|
  {
    if a == [] || b == [] {
      assert (JsonLiterals(a, first) + s)[0] == JsonLiterals(a, first)[0];
      assert (JsonLiterals(b, first) + t)[0] == JsonLiterals(b, first)[0];
      Cancel("]", s, t);
    } else {
      var u, v := JsonLiterals(a[1..], false), JsonLiterals(b[1..], false);
      CancelKey(Comma(first), JsonLiteral(a[0]) + u, JsonLiteral(b[0]) + v, s, t);
      Regroup(JsonLiteral(a[0]), u, s);
      Regroup(JsonLiteral(b[0]), v, t);
      JsonLiteralUnique(a[0], b[0], u + s, v + t);
      JsonLiteralsUnique(a[1..], b[1..], false, s, t);
      assert a == [a[0]] + a[1..] && b == [b[0]] + b[1..];
    }
  }

  /** A key, a string and a rest, against another such text. */
  lemma StringField(key: string, x: string, y: string, a: string, b: string, s: string, t: string)
    requires (key + (JsonString(x) + a)) + s == (key + (JsonString(y) + b)) + t
    ensures x == y && a + s == b + t
  {
    CancelKey(key, JsonString(x) + a, JsonString(y) + b, s, t);
    Regroup(JsonString(x), a, s);
    Regroup(JsonString(y), b, t);
    JsonStringUnique(x, y, a + s, b + t);
  }

  lemma LiteralField(key: string, x: Option<string>, y: Option<string>, close: string, s: string, t: string)
    requires (key + (JsonLiteral(x) + close)) + s == (key + (JsonLiteral(y) + close)) + t
    ensures x == y && s == t
  {
    CancelKey(key, JsonLiteral(x) + close, JsonLiteral(y) + close, s, t);
    Regroup(JsonLiteral(x), close, s);
    Regroup(JsonLiteral(y), close, t);
    JsonLiteralUnique(x, y, close + s, close + t);
    Cancel(close, s, t);
  }

  lemma LiteralsField(key: string, x: seq<Option<string>>, y: seq<Option<string>>, close: string, s: string, t: string)
    requires (key + (JsonLiterals(x, true) + close)) + s == (key + (JsonLiterals(y, true) + close)) + t
    ensures x == y && s == t
  {
    CancelKey(key, JsonLiterals(x, true) + close, JsonLiterals(y, true) + close, s, t);
    Regroup(JsonLiterals(x, true), close, s);
    Regroup(JsonLiterals(y, true), close, t);
    JsonLiteralsUnique(x, y, true, close + s, close + t);
    Cancel(close, s, t);
  }

  ghost predicate SameKind(p: Predicate, q: Predicate) {
    match p
    case Group(k, _) => q.Group? && q.kind == k
    case Not(_) => q.Not?
    case Null(_, _) => q.Null?
    case Compare(_, _, _) => q.Compare?
    case In(_, _) => q.In?
    case Scope(_, _) => q.Scope?
  }

  lemma KindNameUnique(p: Predicate, q: Predicate)
    requires KindName(p) == KindName(q)
    ensures SameKind(p, q)
  {
    var n, m := KindName(p), KindName(q);
    assert |n| == |m| && n[0] == m[0] && n[1] == m[1];
  }

  lemma OperatorTextUnique(a: Operator, b: Operator)
    requires OperatorText(a) == OperatorText(b)
    ensures a == b
  {
    var n, m := OperatorText(a), OperatorText(b);
    assert |n| == |m| && n[0] == m[0] && n[|n| - 1] == m[|m| - 1];
  }

  /** JSON text is self-delimiting: it ends where it ends, whatever follows. */
  lemma {:induction false} JsonUnique(p: Predicate, q: Predicate, s: string, t: string)
    requires Json(p) + s == Json(q) + t
    ensures p == q && s == t
    decreases p, 1
  {
    StringField("{\"kind\":", KindName(p), KindName(q), JsonFields(p), JsonFields(q), s, t);
    KindNameUnique(p, q);
    JsonFieldsUnique(p, q, s, t);
  }

  lemma {:induction false} JsonFieldsUnique(p: Predicate, q: Predicate, s: string, t: string)
    requires SameKind(p, q)
    requires JsonFields(p) + s == JsonFields(q) + t
    ensures p == q && s == t
    decreases p, 0
  {
    match p
    case Group(_, terms) =>
      var a, b := JsonTerms(terms, true), JsonTerms(q.terms, true);
      CancelKey(",\"terms\":[", a + "}", b + "}", s, t);
      Regroup(a, "}", s);
      Regroup(b, "}", t);
      JsonTermsUnique(terms, q.terms, true, "}" + s, "}" + t);
      Cancel("}", s, t);
    case Not(term) =>
      var a, b := Json(term), Json(q.term);
      CancelKey(",\"term\":", a + "}", b + "}", s, t);
      Regroup(a, "}", s);
      Regroup(b, "}", t);
      JsonUnique(term, q.term, "}" + s, "}" + t);
      Cancel("}", s, t);
    case Null(column, negated) =>
      var a, b := ",\"negated\":" + JsonBool(negated), ",\"negated\":" + JsonBool(q.negated);
      StringField(",\"column\":", column, q.column, a, b, s, t);
      CancelKey(",\"negated\":", JsonBool(negated), JsonBool(q.negated), s, t);
      assert (JsonBool(negated) + s)[0] == JsonBool(negated)[0];
      assert (JsonBool(q.negated) + t)[0] == JsonBool(q.negated)[0];
      Cancel(JsonBool(negated), s, t);
    case Compare(_, _, _) =>
      CompareUnique(p, q, s, t);
    case In(column, values) =>
      var key := ",\"values\":[";
      StringField(",\"column\":", column, q.column,
        key + (JsonLiterals(values, true) + "}"), key + (JsonLiterals(q.values, true) + "}"), s, t);
      LiteralsField(key, values, q.values, "}", s, t);
    case Scope(column, domain) =>
      var key := ",\"domain\":";
      StringField(",\"column\":", column, q.column,
        key + (JsonString(domain) + "}"), key + (JsonString(q.domain) + "}"), s, t);
      StringField(key, domain, q.domain, "}", "}", s, t);
      Cancel("}", s, t);
  }

  lemma CompareUnique(p: Predicate, q: Predicate, s: string, t: string)
    requires p.Compare? && q.Compare?
    requires JsonFields(p) + s == JsonFields(q) + t
    ensures p == q && s == t
  {
    var value := ",\"value\":";
    var a, b := value + (JsonLiteral(p.value) + "}"), value + (JsonLiteral(q.value) + "}");
    var operator := ",\"operator\":";
    var m, n := OperatorText(p.operator), OperatorText(q.operator);
    StringField(",\"column\":", p.column, q.column, operator + (JsonString(m) + a), operator + (JsonString(n) + b), s, t);
    StringField(operator, m, n, a, b, s, t);
    OperatorTextUnique(p.operator, q.operator);
    LiteralField(value, p.value, q.value, "}", s, t);
  }

  lemma {:induction false} JsonTermsUnique(a: seq<Predicate>, b: seq<Predicate>, first: bool, s: string, t: string)
    requires JsonTerms(a, first) + s == JsonTerms(b, first) + t
    ensures a == b && s == t
    decreases a, 0
  {
    if a == [] || b == [] {
      assert (JsonTerms(a, first) + s)[0] == JsonTerms(a, first)[0];
      assert (JsonTerms(b, first) + t)[0] == JsonTerms(b, first)[0];
      Cancel("]", s, t);
    } else {
      var u, v := JsonTerms(a[1..], false), JsonTerms(b[1..], false);
      CancelKey(Comma(first), Json(a[0]) + u, Json(b[0]) + v, s, t);
      Regroup(Json(a[0]), u, s);
      Regroup(Json(b[0]), v, t);
      JsonUnique(a[0], b[0], u + s, v + t);
      JsonTermsUnique(a[1..], b[1..], false, s, t);
      assert a == [a[0]] + a[1..] && b == [b[0]] + b[1..];
    }
  }

  /** Two predicates with the same JSON text are the same predicate. */
  lemma JsonInjective(p: Predicate, q: Predicate)
    requires Json(p) == Json(q)
    ensures p == q
  {
    assert Json(p) + "" == Json(q) + "";
    JsonUnique(p, q, "", "");
  }
}
