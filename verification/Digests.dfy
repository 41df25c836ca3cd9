/** The text that is digested, said in terms of JSON documents and code units. */
module Digests {
  import opened Wrappers
  import opened Ordering
  import opened CodeUnits
  import opened Predicates
  import opened Normalisation

  // ----- JSON documents -----

  datatype Document =
    | Object(members: seq<Member>)
    | Array(elements: seq<Document>)
    | Text(value: string)
    | Flag(flag: bool)
    | Absent

  datatype Member = Member(key: string, value: Document)

  /** A string as section 7 of RFC 8259 requires it and ECMAScript writes it: short escapes where there are
      some, and lower-case hexadecimal digits. */
  ghost predicate Writes(c: char, s: string) {
    if c == '\"' then s == "\\\""
    else if c == '\\' then s == "\\\\"
    else if c == '\U{8}' then s == "\\b"
    else if c == '\t' then s == "\\t"
    else if c == '\n' then s == "\\n"
    else if c == '\U{c}' then s == "\\f"
    else if c == '\r' then s == "\\r"
    else if c < ' ' then exists h, l :: HexPair(c as nat, h, l) && s == "\\u00" + [h, l]
    else s == [c]
  }

  ghost predicate HexPair(n: nat, h: char, l: char) {
    HexValue(h) * 16 + HexValue(l) == n && IsLowerHex(h) && IsLowerHex(l)
  }

  ghost predicate IsLowerHex(c: char) {
    '0' <= c <= '9' || 'a' <= c <= 'f'
  }

  ghost function HexValue(c: char): int {
    if c <= '9' then c as int - '0' as int else c as int - 'a' as int + 10
  }

  function Joined(texts: seq<string>): string {
    if texts == [] then "" else if |texts| == 1 then texts[0] else texts[0] + "," + Joined(texts[1..])
  }

  function Quoted(s: string): string {
    "\"" + Inside(s) + "\""
  }

  function Inside(s: string): string {
    if s == "" then "" else Escaped(s[0]) + Inside(s[1..])
  }

  /** A document without any white space. */
  function Stringify(d: Document): string
    decreases d, 1
  {
    match d
    case Object(members) => "{" + Joined(MemberTexts(members)) + "}"
    case Array(elements) => "[" + Joined(Texts(elements)) + "]"
    case Text(value) => Quoted(value)
    case Flag(flag) => if flag then "true" else "false"
    case Absent => "null"
  }

  function MemberTexts(members: seq<Member>): (r: seq<string>)
    ensures |r| == |members|
    decreases members, 0
  {
    if members == [] then [] else [Quoted(members[0].key) + ":" + Stringify(members[0].value)] + MemberTexts(members[1..])
  }

  function Texts(elements: seq<Document>): (r: seq<string>)
    ensures |r| == |elements|
    decreases elements, 0
  {
    if elements == [] then [] else [Stringify(elements[0])] + Texts(elements[1..])
  }

  /** The document of a predicate. */
  function DocumentOf(p: Predicate): Document
    decreases p, 1
  {
    match p
    case Group(kind, terms) =>
      Object([Member("kind", Text(if kind == All then "and" else "or")), Member("terms", Array(Documents(terms)))])
    case Not(term) => Object([Member("kind", Text("not")), Member("term", DocumentOf(term))])
    case Null(column, negated) =>
      Object([Member("kind", Text("null")), Member("column", Text(column)), Member("negated", Flag(negated))])
    case Compare(column, operator, value) =>
      Object([Member("kind", Text("compare")), Member("column", Text(column)),
              Member("operator", Text(Symbol(operator))), Member("value", Literal(value))])
    case In(column, values) =>
      Object([Member("kind", Text("in")), Member("column", Text(column)), Member("values", Array(Literals(values)))])
    case Scope(column, domain) =>
      Object([Member("kind", Text("scope")), Member("column", Text(column)), Member("domain", Text(domain))])
  }

  function Symbol(operator: Operator): string {
    match operator
    case Eq => "="
    case Ne => "<>"
    case Lt => "<"
    case Le => "<="
    case Gt => ">"
    case Ge => ">="
  }

  function Literal(v: Option<string>): Document {
    if v.None? then Absent else Text(v.value)
  }

  function Literals(vs: seq<Option<string>>): seq<Document> {
    if vs == [] then [] else [Literal(vs[0])] + Literals(vs[1..])
  }

  function Documents(terms: seq<Predicate>): seq<Document>
    decreases terms, 0
  {
    if terms == [] then [] else [DocumentOf(terms[0])] + Documents(terms[1..])
  }

  // ----- The JSON text is that of the document -----

  lemma EscapedExact(c: char)
    ensures forall s :: Writes(c, s) <==> s == Escaped(c)
  {
    if c < ' ' && |Escaped(c)| == 6 {
      HexExact(c as nat);
      forall s | Writes(c, s)
        ensures s == Escaped(c)
      {
        var h, l :| HexPair(c as nat, h, l) && s == "\\u00" + [h, l];
        HexUnique(c as nat, h, l);
      }
      assert Writes(c, Escaped(c));
    }
  }

  lemma HexExact(n: nat)
    requires n < 32
    ensures HexPair(n, HexDigit(n / 16), HexDigit(n % 16))
  {
  }

  lemma HexUnique(n: nat, h: char, l: char)
    requires n < 32 && HexPair(n, h, l)
    ensures h == HexDigit(n / 16) && l == HexDigit(n % 16)
  {
  }

  lemma {:induction false} InsideExact(s: string)
    ensures Inside(s) == Escapes(s)
  {
    if s != "" {
      InsideExact(s[1..]);
    }
  }

  lemma QuotedExact(s: string)
    ensures Quoted(s) == JsonString(s)
  {
    InsideExact(s);
    assert "\"" + Escapes(s) + "\"" == "\"" + (Escapes(s) + "\"");
  }

  lemma LiteralExact(v: Option<string>)
    ensures Stringify(Literal(v)) == JsonLiteral(v)
  {
    if v.Some? {
      QuotedExact(v.value);
    }
  }

  lemma {:induction false} LiteralsExact(vs: seq<Option<string>>, first: bool)
    ensures JsonLiterals(vs, first) == (if first || vs == [] then "" else ",") + Joined(Texts(Literals(vs))) + "]"
  {
    if vs != [] {
      LiteralExact(vs[0]);
      LiteralsExact(vs[1..], false);
      JoinedMore(Stringify(Literal(vs[0])), Texts(Literals(vs[1..])), first);
    }
  }

  /** One more text in front of the others. */
  lemma JoinedMore(t: string, more: seq<string>, first: bool)
    ensures (if first then "" else ",") + Joined([t] + more) + "]"
      == (if first then "" else ",") + (t + ((if more == [] then "" else ",") + Joined(more) + "]"))
  {
    assert ([t] + more)[1..] == more;
    if more == [] {
      assert Joined(more) == "";
      assert t + ("" + "" + "]") == t + "]";
    } else {
      assert Joined([t] + more) == t + "," + Joined(more);
    }
  }

  lemma {:induction false} TermsExact(terms: seq<Predicate>, first: bool)
    ensures JsonTerms(terms, first) == (if first || terms == [] then "" else ",") + Joined(Texts(Documents(terms))) + "]"
    decreases terms, 0
  {
    if terms != [] {
      JsonExact(terms[0]);
      TermsExact(terms[1..], false);
      JoinedMore(Stringify(DocumentOf(terms[0])), Texts(Documents(terms[1..])), first);
    }
  }

  function MemberText(m: Member): string {
    Quoted(m.key) + ":" + Stringify(m.value)
  }

  /** The members of an object from some point on, with the closing brace. */
  function Rest(members: seq<Member>): string {
    if members == [] then "}" else "," + (MemberText(members[0]) + Rest(members[1..]))
  }

  lemma {:induction false} JoinedRest(members: seq<Member>)
    requires members != []
    ensures Joined(MemberTexts(members)) + "}" == MemberText(members[0]) + Rest(members[1..])
  {
    var first, texts := MemberText(members[0]), MemberTexts(members[1..]);
    assert MemberTexts(members) == [first] + texts;
    hide MemberText, MemberTexts;
    if |members| > 1 {
      JoinedRest(members[1..]);
      assert ([first] + texts)[1..] == texts;
      Enclosed(first, Joined(texts));
    }
  }

  lemma Enclosed(first: string, more: string)
    ensures first + "," + more + "}" == first + ("," + (more + "}"))
  {
  }

  /** One member, and what follows it. */
  lemma RestOne(key: string, value: Document, more: seq<Member>, label_: string)
    requires label_ == "," + Quoted(key) + ":"
    ensures Rest([Member(key, value)] + more) == label_ + (Stringify(value) + Rest(more))
  {
    hide Quoted, Stringify;
    var m := Member(key, value);
    assert ([m] + more)[1..] == more && ([m] + more)[0] == m;
    Regrouped(Quoted(key), ":", Stringify(value), Rest(more));
    assert Rest([m] + more) == "," + (MemberText(m) + Rest(more));
  }

  lemma Regrouped(a: string, b: string, c: string, d: string)
    ensures "," + ((a + b + c) + d) == ("," + a + b) + (c + d)
    ensures "{" + ((a + b + c) + d) == ("{" + a + b) + (c + d)
  {
  }

  lemma ObjectText(kind: string, more: seq<Member>)
    ensures Stringify(Object([Member("kind", Text(kind))] + more)) == "{\"kind\":" + (JsonString(kind) + Rest(more))
  {
    hide Quoted, Rest, JsonString, Joined, MemberTexts;
    var m := Member("kind", Text(kind));
    var members := [m] + more;
    JoinedRest(members);
    assert members[1..] == more && members[0] == m;
    QuotedExact(kind);
    Keys();
    Regrouped(Quoted("kind"), ":", Quoted(kind), Rest(more));
    Braces(Joined(MemberTexts(members)));
    assert MemberText(m) == Quoted("kind") + ":" + Quoted(kind);
  }

  lemma Braces(s: string)
    ensures "{" + s + "}" == "{" + (s + "}")
  {
  }

  lemma Key(key: string)
    requires forall i | 0 <= i < |key| :: 'a' <= key[i] <= 'z'
    ensures Quoted(key) == "\"" + key + "\""
  {
    Plain(key);
  }

  lemma {:induction false} Plain(key: string)
    requires forall i | 0 <= i < |key| :: 'a' <= key[i] <= 'z'
    ensures Inside(key) == key
  {
    if key != "" {
      assert Escaped(key[0]) == [key[0]];
      Plain(key[1..]);
    }
  }

  lemma Keys()
    ensures "{" + Quoted("kind") + ":" == "{\"kind\":"
    ensures "," + Quoted("terms") + ":" == ",\"terms\":" && "," + Quoted("term") + ":" == ",\"term\":"
    ensures "," + Quoted("column") + ":" == ",\"column\":" && "," + Quoted("negated") + ":" == ",\"negated\":"
    ensures "," + Quoted("operator") + ":" == ",\"operator\":" && "," + Quoted("value") + ":" == ",\"value\":"
    ensures "," + Quoted("values") + ":" == ",\"values\":" && "," + Quoted("domain") + ":" == ",\"domain\":"
  {
    hide Quoted;
    GroupKeys();
    TestKeys();
    ValueKeys();
  }

  lemma GroupKeys()
    ensures "{" + Quoted("kind") + ":" == "{\"kind\":"
    ensures "," + Quoted("terms") + ":" == ",\"terms\":" && "," + Quoted("term") + ":" == ",\"term\":"
  {
    hide Quoted;
    Key("kind");
    Key("terms");
    Key("term");
  }

  lemma TestKeys()
    ensures "," + Quoted("column") + ":" == ",\"column\":" && "," + Quoted("negated") + ":" == ",\"negated\":"
    ensures "," + Quoted("operator") + ":" == ",\"operator\":"
  {
    hide Quoted;
    Key("column");
    Key("negated");
    Key("operator");
  }

  lemma ValueKeys()
    ensures "," + Quoted("value") + ":" == ",\"value\":" && "," + Quoted("values") + ":" == ",\"values\":"
    ensures "," + Quoted("domain") + ":" == ",\"domain\":"
  {
    hide Quoted;
    Key("value");
    Key("values");
    Key("domain");
  }

  lemma NullExact(column: string, negated: bool)
    ensures Json(Null(column, negated)) == Stringify(DocumentOf(Null(column, negated)))
  {
    hide Quoted, Stringify, Rest, JsonString;
    var c, n := Member("column", Text(column)), Member("negated", Flag(negated));
    ObjectText("null", [c] + [n]);
    assert [Member("kind", Text("null"))] + ([c] + [n]) == [Member("kind", Text("null")), c, n];
    Keys();
    TextExact(column);
    FlagExact(negated);
    RestOne("column", Text(column), [n], ",\"column\":");
    RestOne("negated", Flag(negated), [], ",\"negated\":");
    assert [n] + [] == [n];
    assert Rest([]) == "}" by {
      RestNothing();
    }
  }

  lemma RestNothing()
    ensures Rest([]) == "}"
  {
  }

  lemma TextExact(s: string)
    ensures Stringify(Text(s)) == JsonString(s)
  {
    QuotedExact(s);
  }

  lemma FlagExact(flag: bool)
    ensures Stringify(Flag(flag)) + "}" == JsonBool(flag)
  {
  }

  lemma CompareExact(column: string, operator: Operator, value: Option<string>)
    ensures Json(Compare(column, operator, value)) == Stringify(DocumentOf(Compare(column, operator, value)))
  {
    hide Quoted, Stringify, Rest, JsonString, JsonLiteral, Literal, Symbol;
    var c, o, v := Member("column", Text(column)), Member("operator", Text(Symbol(operator))), Member("value", Literal(value));
    ObjectText("compare", [c] + ([o] + [v]));
    assert [Member("kind", Text("compare"))] + ([c] + ([o] + [v])) == [Member("kind", Text("compare")), c, o, v];
    Keys();
    TextExact(column);
    TextExact(Symbol(operator));
    SymbolExact(operator);
    LiteralExact(value);
    RestOne("column", Text(column), [o] + [v], ",\"column\":");
    RestOne("operator", Text(Symbol(operator)), [v], ",\"operator\":");
    RestOne("value", Literal(value), [], ",\"value\":");
    assert [v] + [] == [v];
    RestNothing();
  }

  lemma SymbolExact(operator: Operator)
    ensures Symbol(operator) == OperatorText(operator)
  {
  }

  lemma InExact(column: string, values: seq<Option<string>>)
    ensures Json(In(column, values)) == Stringify(DocumentOf(In(column, values)))
  {
    hide Quoted, Stringify, Rest, JsonString, JsonLiterals, Literals;
    var c, v := Member("column", Text(column)), Member("values", Array(Literals(values)));
    ObjectText("in", [c] + [v]);
    assert [Member("kind", Text("in"))] + ([c] + [v]) == [Member("kind", Text("in")), c, v];
    Keys();
    TextExact(column);
    ValuesExact(values);
    RestOne("column", Text(column), [v], ",\"column\":");
    RestOne("values", Array(Literals(values)), [], ",\"values\":");
    assert [v] + [] == [v];
    RestNothing();
    var list := JsonLiterals(values, true);
    assert ",\"values\":" + (("[" + list) + "}") == ",\"values\":[" + (list + "}");
  }

  lemma ValuesExact(values: seq<Option<string>>)
    ensures Stringify(Array(Literals(values))) == "[" + JsonLiterals(values, true)
  {
    LiteralsExact(values, true);
    var inner := Joined(Texts(Literals(values)));
    assert "[" + inner + "]" == "[" + ("" + inner + "]");
  }

  lemma ScopeExact(column: string, domain: string)
    ensures Json(Scope(column, domain)) == Stringify(DocumentOf(Scope(column, domain)))
  {
    hide Quoted, Stringify, Rest, JsonString;
    var c, d := Member("column", Text(column)), Member("domain", Text(domain));
    ObjectText("scope", [c] + [d]);
    assert [Member("kind", Text("scope"))] + ([c] + [d]) == [Member("kind", Text("scope")), c, d];
    Keys();
    TextExact(column);
    TextExact(domain);
    RestOne("column", Text(column), [d], ",\"column\":");
    RestOne("domain", Text(domain), [], ",\"domain\":");
    assert [d] + [] == [d];
    RestNothing();
  }

  lemma NotExact(term: Predicate)
    requires Json(term) == Stringify(DocumentOf(term))
    ensures Json(Not(term)) == Stringify(DocumentOf(Not(term)))
  {
    hide Quoted, Stringify, Rest, JsonString;
    var t := Member("term", DocumentOf(term));
    ObjectText("not", [t]);
    assert [Member("kind", Text("not"))] + [t] == [Member("kind", Text("not")), t];
    Keys();
    RestOne("term", DocumentOf(term), [], ",\"term\":");
    assert [t] + [] == [t];
    RestNothing();
  }

  lemma GroupExact(kind: GroupKind, terms: seq<Predicate>, name: string)
    requires JsonTerms(terms, true) == Joined(Texts(Documents(terms))) + "]" && name == if kind == All then "and" else "or"
    ensures Json(Group(kind, terms)) == Stringify(DocumentOf(Group(kind, terms)))
  {
    hide Quoted, Rest, JsonString, JsonTerms, Documents, Texts;
    var t := Member("terms", Array(Documents(terms)));
    ObjectText(name, [t]);
    assert [Member("kind", Text(name))] + [t] == [Member("kind", Text(name)), t];
    Keys();
    RestOne("terms", Array(Documents(terms)), [], ",\"terms\":");
    assert [t] + [] == [t];
    RestNothing();
    var inner := Joined(Texts(Documents(terms)));
    assert ",\"terms\":" + (("[" + inner + "]") + "}") == ",\"terms\":[" + ((inner + "]") + "}");
  }

  /** The JSON text of a predicate is its document, written without white space. */
  lemma {:induction false} JsonExact(p: Predicate)
    ensures Json(p) == Stringify(DocumentOf(p))
    decreases p, 1
  {
    hide Json, Stringify, DocumentOf;
    match p
    case Group(kind, terms) =>
      TermsExact(terms, true);
      NothingInFront(Joined(Texts(Documents(terms))));
      GroupExact(kind, terms, if kind == All then "and" else "or");
    case Not(term) =>
      JsonExact(term);
      NotExact(term);
    case Null(column, negated) => NullExact(column, negated);
    case Compare(column, operator, value) => CompareExact(column, operator, value);
    case In(column, values) => InExact(column, values);
    case Scope(column, domain) => ScopeExact(column, domain);
  }

  lemma NothingInFront(s: string)
    ensures "" + s + "]" == s + "]"
  {
  }

  // ----- The digested text and its order -----

  /** All terms stand in the order of their JSON texts, and all values in theirs with NULL first, each once. */
  ghost predicate Ordered(p: Predicate)
    decreases p
  {
    match p
    case Group(_, terms) =>
      && (forall t | t in terms :: Ordered(t))
      && forall i, j | 0 <= i < j < |terms| :: !Before(Encoded(Stringify(DocumentOf(terms[j]))), Encoded(Stringify(DocumentOf(terms[i]))))
    case Not(term) => Ordered(term)
    case In(_, values) => forall i, j | 0 <= i < j < |values| :: ValueBefore(values[i], values[j])
    case _ => true
  }

  ghost predicate ValueBefore(a: Option<string>, b: Option<string>) {
    b.Some? && (a.None? || Before(Encoded(a.value), Encoded(b.value)))
  }

  lemma {:induction false} NormalOrdered(p: Predicate)
    requires IsNormal(p)
    ensures Ordered(p)
    decreases p
  {
    hide Before, Json, Encoded, DocumentOf, Stringify;
    match p
    case Group(kind, terms) =>
      forall t | t in terms
        ensures Ordered(t)
      {
        NormalOrdered(t);
      }
      forall i, j | 0 <= i < j < |terms|
        ensures !Before(Encoded(Stringify(DocumentOf(terms[j]))), Encoded(Stringify(DocumentOf(terms[i]))))
      {
        assert TermLeq(terms[i], terms[j]);
        JsonExact(terms[i]);
        JsonExact(terms[j]);
        LessExact(Json(terms[j]), Json(terms[i]));
      }
    case Not(term) => NormalOrdered(term);
    case In(_, values) =>
      forall i, j | 0 <= i < j < |values|
        ensures ValueBefore(values[i], values[j])
      {
        assert ValueLeq(values[i], values[j]) && values[i] != values[j];
        if values[i].Some? {
          LessExact(values[i].value, values[j].value);
        }
      }
    case _ =>
  }

  /** What is digested is the JSON document of the normal form, whose groups and lists are in order. */
  lemma HashedText(p: Predicate)
    ensures HashInput(p) == Stringify(DocumentOf(Normalise(p))) && Ordered(Normalise(p))
  {
    JsonExact(Normalise(p));
    NormaliseNormal(p);
    NormalOrdered(Normalise(p));
  }
}
