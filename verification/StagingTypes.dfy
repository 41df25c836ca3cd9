/** `stagingType`: the closed grammar of exposed column types and its translation. */
module StagingTypes {
  import opened Wrappers
  import opened Chars
  import Calendar
  import Lexer
  import Numbers

  datatype Tree =
    | List(element: Tree)
    | Struct(fields: seq<Field>)
    | Decimal(precision: string, scale: string)
    | Scalar(name: string)

  datatype Field = Field(name: string, kind: Tree)

  datatype Translation = Translation(duck: string, postgres: Option<string>, complex: bool)

  const MAX_DEPTH: nat := 32

  /** In the order of the alternatives of the regular expression. */
  const SCALARS: seq<string> := ["TIMESTAMPTZ", "TIMESTAMP", "VARCHAR", "BOOLEAN", "TINYINT", "SMALLINT", "INTEGER", "BIGINT",
    "HUGEINT", "FLOAT", "DOUBLE", "DATE", "TIME", "UUID", "JSON"]

  // ----- The grammar as a printer of trees -----

  /** A field name as it stands in the text, with the space after it. */
  function Quoted(name: string): string {
    ['"'] + Lexer.Doubled('"', name) + ['"', ' ']
  }

  predicate NameOk(name: string) {
    name != "" && '\0' !in name
  }

  predicate BoundsOk(precision: string, scale: string) {
    && precision != "" && Numbers.AllDigits(precision) && scale != "" && Numbers.AllDigits(scale)
    && 1 <= Calendar.Value(precision) <= 38 && 0 <= Calendar.Value(scale) <= Calendar.Value(precision)
  }

  predicate WellFormed(t: Tree) {
    match t
    case List(element) => WellFormed(element)
    case Struct(fields) => fields != [] && forall f | f in fields :: NameOk(f.name) && WellFormed(f.kind)
    case Decimal(precision, scale) => BoundsOk(precision, scale)
    case Scalar(name) => name in SCALARS
  }

  function Height(t: Tree): nat {
    match t
    case List(element) => 1 + Height(element)
    case Struct(fields) => 1 + FieldsHeight(fields)
    case Decimal(_, _) => 0
    case Scalar(_) => 0
  }

  function FieldsHeight(fields: seq<Field>): nat {
    if fields == [] then 0
    else
      var head, tail := Height(fields[0].kind), FieldsHeight(fields[1..]);
      if head > tail then head else tail
  }

  function DecimalText(precision: string, scale: string): string {
    "DECIMAL(" + precision + "," + scale + ")"
  }

  function Print(t: Tree): string {
    match t
    case List(element) => "LIST(" + Print(element) + ")"
    case Struct(fields) => "STRUCT(" + PrintFields(fields) + ")"
    case Decimal(precision, scale) => DecimalText(precision, scale)
    case Scalar(name) => name
  }

  function PrintFields(fields: seq<Field>): string {
    if fields == [] then ""
    else Quoted(fields[0].name) + Print(fields[0].kind) + if |fields| == 1 then "" else ", " + PrintFields(fields[1..])
  }

  // ----- The translation -----

  function Duck(t: Tree): string {
    match t
    case List(element) => Duck(element) + "[]"
    case Struct(fields) => "STRUCT(" + DuckFields(fields) + ")"
    case Decimal(precision, scale) => DecimalText(precision, scale)
    case Scalar(name) => name
  }

  function DuckFields(fields: seq<Field>): string {
    if fields == [] then ""
    else Quoted(fields[0].name) + Duck(fields[0].kind) + if |fields| == 1 then "" else ", " + DuckFields(fields[1..])
  }

  function PostgresScalar(name: string): string {
    if name == "DOUBLE" then "double precision"
    else if name == "TINYINT" then "smallint"
    else if name == "HUGEINT" then "numeric(38,0)"
    else if name == "FLOAT" then "real"
    else name
  }

  function Postgres(t: Tree): Option<string> {
    match t
    case List(element) => if Postgres(element).Some? then Some(Postgres(element).value + "[]") else None
    case Struct(_) => None
    case Decimal(precision, scale) => Some(DecimalText(precision, scale))
    case Scalar(name) => Some(PostgresScalar(name))
  }

  function Translate(t: Tree): Translation {
    Translation(Duck(t), Postgres(t), t.List? || t.Struct? || t == Scalar("JSON"))
  }

  // ----- Recognition, as a function of the text that is left -----

  /** The rest of a quoted name after its opening quote, up to a quote and a space. */
  function ReadName(s: string): Option<(string, string)> {
    if s == "" || s[0] == '\0' then None
    else if s[0] == '"' then
      if |s| > 1 && s[1] == '"' then
        var r :- ReadName(s[2..]);
        Some((['"'] + r.0, r.1))
      else if |s| > 1 && s[1] == ' ' then Some(("", s[2..]))
      else None
    else
      var r :- ReadName(s[1..]);
      Some(([s[0]] + r.0, r.1))
  }

  /** `/^"(?:[^"\0]|"")+" /`. */
  function ReadQuoted(s: string): Option<(string, string)> {
    if s == "" || s[0] != '"' then None
    else
      var r :- ReadName(s[1..]);
      if r.0 == "" then None else Some(r)
  }

  /** `/^DECIMAL\((\d+),(\d+)\)/`. */
  function ReadDecimal(s: string): Option<(string, string, string)> {
    if !StartsWith(s, "DECIMAL(") then None
    else
      var a := DigitsEnd(s, 8);
      if a == 8 || a >= |s| || s[a] != ',' then None
      else
        var b := DigitsEnd(s, a + 1);
        if b == a + 1 || b >= |s| || s[b] != ')' then None else Some((s[8..a], s[a + 1..b], s[b + 1..]))
  }

  function FirstPrefix(names: seq<string>, s: string): (r: Option<string>)
    ensures r.Some? ==> r.value in names && StartsWith(s, r.value)
  {
    if names == [] then None else if StartsWith(s, names[0]) then Some(names[0]) else FirstPrefix(names[1..], s)
  }

  function ReadType(s: string, depth: nat): (r: Option<(Tree, string)>)
    requires depth <= MAX_DEPTH + 1
    ensures r.Some? ==> |r.value.1| < |s|
    decreases MAX_DEPTH + 1 - depth, 0, 0
  {
    if depth > MAX_DEPTH then None
    else if StartsWith(s, "LIST(") then
      var r :- ReadType(s[5..], depth + 1);
      if StartsWith(r.1, ")") then Some((List(r.0), r.1[1..])) else None
    else if StartsWith(s, "STRUCT(") then
      var r :- ReadFields(s[7..], depth + 1);
      Some((Struct(r.0), r.1))
    else if ReadDecimal(s).Some? then
      var d := ReadDecimal(s).value;
      if BoundsOk(d.0, d.1) then Some((Decimal(d.0, d.1), d.2)) else None
    else
      var name :- FirstPrefix(SCALARS, s);
      ScalarsNotEmpty(name);
      Some((Scalar(name), s[|name|..]))
  }

  /** The fields with their closing bracket. */
  function ReadFields(s: string, depth: nat): (r: Option<(seq<Field>, string)>)
    requires depth <= MAX_DEPTH + 1
    ensures r.Some? ==> |r.value.1| < |s| && r.value.0 != []
    decreases MAX_DEPTH + 1 - depth, 1, |s|
  {
    var n :- ReadQuoted(s);
    QuotedShorter(s);
    var t :- ReadType(n.1, depth);
    if StartsWith(t.1, ")") then Some(([Field(n.0, t.0)], t.1[1..]))
    else if StartsWith(t.1, ", ") then
      var r :- ReadFields(t.1[2..], depth);
      Some(([Field(n.0, t.0)] + r.0, r.1))
    else None
  }

  lemma ScalarsNotEmpty(name: string)
    requires name in SCALARS
    ensures name != ""
  {
  }

  lemma {:induction false} NameShorter(s: string)
    requires ReadName(s).Some?
    ensures |ReadName(s).value.1| < |s|
  {
    if s[0] != '"' {
      NameShorter(s[1..]);
    } else if s[1] == '"' {
      NameShorter(s[2..]);
    }
  }

  lemma QuotedShorter(s: string)
    requires ReadQuoted(s).Some?
    ensures |ReadQuoted(s).value.1| < |s|
  {
    NameShorter(s[1..]);
  }

  // ----- Words: the names of scalars and the keywords end where the capitals end -----

  predicate IsCapital(c: char) {
    'A' <= c <= 'Z'
  }

  ghost predicate IsWord(w: string) {
    w != "" && forall i | 0 <= i < |w| :: IsCapital(w[i])
  }

  ghost predicate WordEnds(rest: string) {
    rest == "" || !IsCapital(rest[0])
  }

  /** No name is a prefix of a later one. */
  ghost predicate PrefixFree(names: seq<string>) {
    forall i, j | 0 <= i < j < |names| :: !StartsWith(names[j], names[i])
  }

  lemma ScalarWords()
    ensures forall n | n in SCALARS :: IsWord(n)
    ensures "LIST" !in SCALARS && "STRUCT" !in SCALARS && "DECIMAL" !in SCALARS
  {
    hide IsWord;
    forall i | 0 <= i < |SCALARS|
      ensures IsWord(SCALARS[i])
    {
      ScalarWord(i);
    }
    NotScalars();
  }

  lemma ScalarWord(i: nat)
    requires i < |SCALARS|
    ensures IsWord(SCALARS[i])
  {
  }

  lemma NotScalars()
    ensures "LIST" !in SCALARS && "STRUCT" !in SCALARS && "DECIMAL" !in SCALARS
  {
    assert "LIST"[0] == 'L' && "STRUCT"[1] == 'T' && "DECIMAL"[0] == 'D';
  }

  /** The first letters of the names, and their lengths. */
  lemma ScalarInitials(i: nat)
    requires i < |SCALARS|
    ensures |SCALARS[i]| == [11, 9, 7, 7, 7, 8, 7, 6, 7, 5, 6, 4, 4, 4, 4][i]
    ensures SCALARS[i][0] == "TTVBTSIBHFDDTUJ"[i]
    ensures SCALARS[i][1] == "IIAOIMNIULOAIUS"[i]
    ensures SCALARS[i][2] == "MMRONATGGOUTMIO"[i]
  {
  }

  lemma InitialsDiffer(i: nat, j: nat)
    requires i < j < 15
    ensures [11, 9, 7, 7, 7, 8, 7, 6, 7, 5, 6, 4, 4, 4, 4][i] > [11, 9, 7, 7, 7, 8, 7, 6, 7, 5, 6, 4, 4, 4, 4][j]
      || "TTVBTSIBHFDDTUJ"[i] != "TTVBTSIBHFDDTUJ"[j]
      || "IIAOIMNIULOAIUS"[i] != "IIAOIMNIULOAIUS"[j]
      || "MMRONATGGOUTMIO"[i] != "MMRONATGGOUTMIO"[j]
  {
  }

  lemma NotPrefix(a: string, b: string)
    requires |a| >= 3 && |b| >= 3 && (|a| > |b| || a[0] != b[0] || a[1] != b[1] || a[2] != b[2])
    ensures !StartsWith(b, a)
  {
  }

  lemma ScalarsPrefixFree()
    ensures PrefixFree(SCALARS)
  {
    forall i, j | 0 <= i < j < |SCALARS|
      ensures !StartsWith(SCALARS[j], SCALARS[i])
    {
      ScalarNotPrefix(i, j);
    }
  }

  lemma ScalarNotPrefix(i: nat, j: nat)
    requires i < j < |SCALARS|
    ensures !StartsWith(SCALARS[j], SCALARS[i])
  {
    ScalarInitials(i);
    ScalarInitials(j);
    InitialsDiffer(i, j);
    NotPrefix(SCALARS[i], SCALARS[j]);
  }

  // ----- What is read is what was printed -----

  lemma {:induction false} ReadNameSound(s: string)
    requires ReadName(s).Some?
    ensures var (name, rest) := ReadName(s).value;
      s == Lexer.Doubled('"', name) + ['"', ' '] + rest && '\0' !in name
  {
    var (name, rest) := ReadName(s).value;
    if s[0] != '"' {
      ReadNameSound(s[1..]);
      assert name[1..] == ReadName(s[1..]).value.0;
      assert s == [s[0]] + s[1..];
    } else if s[1] == '"' {
      ReadNameSound(s[2..]);
      assert name[1..] == ReadName(s[2..]).value.0;
      assert s == [s[0], s[1]] + s[2..];
    } else {
      assert s == ['"', ' '] + s[2..];
    }
  }

  lemma ReadNameQuote(tail: string)
    ensures ReadName(['"', '"'] + tail) ==
      if ReadName(tail).None? then None else Some((['"'] + ReadName(tail).value.0, ReadName(tail).value.1))
  {
    assert (['"', '"'] + tail)[2..] == tail;
  }

  lemma ReadNameOther(c: char, tail: string)
    requires c != '"' && c != '\0'
    ensures ReadName([c] + tail) ==
      if ReadName(tail).None? then None else Some(([c] + ReadName(tail).value.0, ReadName(tail).value.1))
  {
    assert ([c] + tail)[1..] == tail;
  }

  lemma {:induction false} ReadNameComplete(name: string, rest: string)
    requires '\0' !in name
    ensures ReadName(Lexer.Doubled('"', name) + ['"', ' '] + rest) == Some((name, rest))
  {
    var s := Lexer.Doubled('"', name) + ['"', ' '] + rest;
    if name == "" {
      assert s == ['"', ' '] + rest && s[2..] == rest;
    } else {
      var tail := Lexer.Doubled('"', name[1..]) + ['"', ' '] + rest;
      ReadNameComplete(name[1..], rest);
      assert name == [name[0]] + name[1..];
      if name[0] == '"' {
        assert s == ['"', '"'] + tail;
        ReadNameQuote(tail);
      } else {
        assert s == [name[0]] + tail;
        ReadNameOther(name[0], tail);
      }
    }
  }

  lemma ReadQuotedSound(s: string)
    requires ReadQuoted(s).Some?
    ensures var (name, rest) := ReadQuoted(s).value; s == Quoted(name) + rest && NameOk(name)
  {
    ReadNameSound(s[1..]);
    assert s == ['"'] + s[1..];
  }

  lemma ReadQuotedComplete(name: string, rest: string)
    requires NameOk(name)
    ensures ReadQuoted(Quoted(name) + rest) == Some((name, rest))
  {
    var s := Quoted(name) + rest;
    assert s[1..] == Lexer.Doubled('"', name) + ['"', ' '] + rest;
    ReadNameComplete(name, rest);
  }

  lemma ReadDecimalSound(s: string)
    requires ReadDecimal(s).Some?
    ensures var (p, q, rest) := ReadDecimal(s).value;
      s == DecimalText(p, q) + rest && p != "" && q != "" && Numbers.AllDigits(p) && Numbers.AllDigits(q)
  {
    var a := DigitsEnd(s, 8);
    var b := DigitsEnd(s, a + 1);
    assert s[..8] == "DECIMAL(";
    assert s == s[..8] + s[8..a] + [s[a]] + s[a + 1..b] + [s[b]] + s[b + 1..];
  }

  lemma ReadDecimalComplete(p: string, q: string, rest: string)
    requires p != "" && q != "" && Numbers.AllDigits(p) && Numbers.AllDigits(q)
    ensures ReadDecimal(DecimalText(p, q) + rest) == Some((p, q, rest))
  {
    var s := DecimalText(p, q) + rest;
    var a := 8 + |p|;
    var b := a + 1 + |q|;
    assert s[..8] == "DECIMAL(" && s[8..a] == p && s[a] == ',' && s[a + 1..b] == q && s[b] == ')' && s[b + 1..] == rest;
    forall k | 8 <= k < a
      ensures IsDigit(s[k])
    {
      assert s[k] == p[k - 8];
    }
    forall k | a + 1 <= k < b
      ensures IsDigit(s[k])
    {
      assert s[k] == q[k - a - 1];
    }
    Numbers.DigitsEndAt(s, 8, a);
    Numbers.DigitsEndAt(s, a + 1, b);
  }

  // ----- Keywords -----

  lemma StartsAt(s: string, w: string, i: nat)
    requires StartsWith(s, w) && i < |w|
    ensures i < |s| && s[i] == w[i]
  {
  }

  lemma NotLonger(s: string, a: string, b: string, rest: string)
    requires IsWord(a) && WordEnds(rest) && s == b + rest && StartsWith(s, a)
    ensures |a| <= |b|
  {
    if |a| > |b| {
      StartsAt(s, a, |b|);
    }
  }

  /** A text that starts with a word and then no capital starts with no other such word. */
  lemma OneWord(s: string, v: string, w: string, rest: string)
    requires IsWord(v) && IsWord(w) && WordEnds(rest) && s == w + rest
    requires StartsWith(s, v) && WordEnds(s[|v|..])
    ensures v == w
  {
    NotLonger(s, v, w, rest);
    assert s == v + s[|v|..];
    NotLonger(s, w, v, s[|v|..]);
    assert s[..|v|] == v && s[..|w|] == w;
  }

  lemma Keyword(s: string, v: string, bracketed: string)
    requires IsWord(v) && bracketed == v + "(" && StartsWith(s, bracketed)
    ensures StartsWith(s, v) && WordEnds(s[|v|..])
  {
    assert s[..|bracketed|] == bracketed;
    assert s[|v|] == bracketed[|v|];
  }

  lemma KeywordWords()
    ensures IsWord("LIST") && IsWord("STRUCT") && IsWord("DECIMAL")
    ensures "LIST" + "(" == "LIST(" && "STRUCT" + "(" == "STRUCT(" && "DECIMAL" + "(" == "DECIMAL("
  {
  }

  /** A scalar is not taken for one of the other forms. */
  lemma ScalarIsNoKeyword(name: string, rest: string)
    requires name in SCALARS && WordEnds(rest)
    ensures !StartsWith(name + rest, "LIST(") && !StartsWith(name + rest, "STRUCT(") && !StartsWith(name + rest, "DECIMAL(")
  {
    hide StartsWith, IsWord, WordEnds;
    ScalarWords();
    KeywordWords();
    NoKeyword(name, rest, "LIST", "LIST(");
    NoKeyword(name, rest, "STRUCT", "STRUCT(");
    NoKeyword(name, rest, "DECIMAL", "DECIMAL(");
  }

  lemma NoKeyword(name: string, rest: string, v: string, bracketed: string)
    requires IsWord(name) && IsWord(v) && bracketed == v + "(" && WordEnds(rest) && v != name
    ensures !StartsWith(name + rest, bracketed)
  {
    if StartsWith(name + rest, bracketed) {
      Keyword(name + rest, v, bracketed);
      OneWord(name + rest, v, name, rest);
    }
  }

  /** A word at the start of a text does not reach past the word that stands there. */
  lemma PrefixWithin(a: string, b: string, rest: string)
    requires IsWord(a) && IsWord(b) && WordEnds(rest) && StartsWith(b + rest, a)
    ensures StartsWith(b, a)
  {
    NotLonger(b + rest, a, b, rest);
    assert (b + rest)[..|a|] == b[..|a|];
  }

  /** The ordered alternatives find the longest name. */
  lemma {:induction false} FirstPrefixComplete(names: seq<string>, k: nat, rest: string)
    requires PrefixFree(names) && (forall n | n in names :: IsWord(n)) && k < |names| && WordEnds(rest)
    ensures FirstPrefix(names, names[k] + rest) == Some(names[k])
  {
    var s := names[k] + rest;
    if k == 0 {
      assert StartsWith(s, names[0]);
    } else {
      assert names[0] in names && names[k] in names;
      if StartsWith(s, names[0]) {
        PrefixWithin(names[0], names[k], rest);
        assert false;
      }
      assert names[1..][k - 1] == names[k];
      forall i, j | 0 <= i < j < |names[1..]|
        ensures !StartsWith(names[1..][j], names[1..][i])
      {
        assert !StartsWith(names[j + 1], names[i + 1]);
      }
      FirstPrefixComplete(names[1..], k - 1, rest);
    }
  }

  lemma ReadScalar(name: string, rest: string, depth: nat)
    requires name in SCALARS && WordEnds(rest) && depth <= MAX_DEPTH
    ensures ReadType(name + rest, depth) == Some((Scalar(name), rest))
  {
    ScalarIsNoKeyword(name, rest);
    var k :| 0 <= k < |SCALARS| && SCALARS[k] == name;
    ScalarWords();
    ScalarsPrefixFree();
    FirstPrefixComplete(SCALARS, k, rest);
    assert (name + rest)[|name|..] == rest;
  }

  // ----- Sound and complete -----

  /** What may stand behind a type. */
  ghost predicate Follows(rest: string) {
    rest == "" || rest[0] == ')' || rest[0] == ','
  }

  /** A keyword, what it brackets and what follows. */
  lemma Framed(keyword: string, inner: string, rest: string)
    ensures var s := keyword + inner + ")" + rest;
      && StartsWith(s, keyword) && s[|keyword|..] == inner + (")" + rest) == inner + ")" + rest
      && s == keyword + (inner + (")" + rest)) && (")" + rest)[1..] == rest
  {
  }

  lemma Split(s: string, front: string)
    requires StartsWith(s, front)
    ensures |front| <= |s| && s == front + s[|front|..]
  {
  }

  lemma OneKeyword(s: string)
    ensures StartsWith(s, "STRUCT(") ==> !StartsWith(s, "LIST(")
    ensures StartsWith(s, "DECIMAL(") ==> !StartsWith(s, "LIST(") && !StartsWith(s, "STRUCT(")
  {
    if StartsWith(s, "LIST(") {
      StartsAt(s, "LIST(", 0);
    }
    if StartsWith(s, "STRUCT(") {
      StartsAt(s, "STRUCT(", 0);
    }
    if StartsWith(s, "DECIMAL(") {
      StartsAt(s, "DECIMAL(", 0);
    }
  }

  lemma KeywordLengths()
    ensures |"LIST("| == 5 && |"STRUCT("| == 7
  {
  }

  lemma {:induction false} ReadTypeSound(s: string, depth: nat)
    requires depth <= MAX_DEPTH + 1 && ReadType(s, depth).Some?
    ensures var (t, rest) := ReadType(s, depth).value;
      s == Print(t) + rest && WellFormed(t) && Height(t) + depth <= MAX_DEPTH
    decreases MAX_DEPTH + 1 - depth, 0, 0
  {
    hide StartsWith, ReadDecimal, BoundsOk, ReadFields, FirstPrefix, PrintFields, DecimalText;
    KeywordLengths();
    if StartsWith(s, "LIST(") {
      Split(s, "LIST(");
      var r := ReadType(s[5..], depth + 1).value;
      ReadTypeSound(s[5..], depth + 1);
      Split(r.1, ")");
      Framed("LIST(", Print(r.0), r.1[1..]);
    } else if StartsWith(s, "STRUCT(") {
      Split(s, "STRUCT(");
      var r := ReadFields(s[7..], depth + 1).value;
      ReadFieldsSound(s[7..], depth + 1);
      Framed("STRUCT(", PrintFields(r.0), r.1);
    } else if ReadDecimal(s).Some? {
      ReadDecimalSound(s);
    } else {
      Split(s, FirstPrefix(SCALARS, s).value);
    }
  }

  ghost predicate FieldsOk(fields: seq<Field>) {
    forall f | f in fields :: NameOk(f.name) && WellFormed(f.kind)
  }

  lemma FieldsUnfold(f: Field, more: seq<Field>)
    ensures PrintFields([f] + more) == Quoted(f.name) + Print(f.kind) + if more == [] then "" else ", " + PrintFields(more)
    ensures DuckFields([f] + more) == Quoted(f.name) + Duck(f.kind) + if more == [] then "" else ", " + DuckFields(more)
    ensures FieldsHeight([f] + more) == if Height(f.kind) > FieldsHeight(more) then Height(f.kind) else FieldsHeight(more)
    ensures FieldsOk([f] + more) <==> NameOk(f.name) && WellFormed(f.kind) && FieldsOk(more)
  {
    var all := [f] + more;
    assert all[1..] == more;
    assert forall g :: g in all <==> g == f || g in more;
  }

  lemma Rejoined(head: string, more: string, rest: string)
    ensures head + "" + ")" + rest == head + (")" + rest)
    ensures head + (", " + more) + ")" + rest == head + (", " + (more + ")" + rest))
  {
  }

  lemma {:induction false} ReadFieldsSound(s: string, depth: nat)
    requires depth <= MAX_DEPTH + 1 && ReadFields(s, depth).Some?
    ensures var (fields, rest) := ReadFields(s, depth).value;
      s == PrintFields(fields) + ")" + rest && FieldsOk(fields) && FieldsHeight(fields) + depth <= MAX_DEPTH
    decreases MAX_DEPTH + 1 - depth, 1, |s|
  {
    hide StartsWith, ReadQuoted, ReadType, PrintFields, Print, Quoted, FieldsOk, NameOk, WellFormed, Height,
      FieldsHeight;
    var n := ReadQuoted(s).value;
    ReadQuotedSound(s);
    QuotedShorter(s);
    var t := ReadType(n.1, depth).value;
    ReadTypeSound(n.1, depth);
    var f := Field(n.0, t.0);
    var head := Quoted(n.0) + Print(t.0);
    assert s == head + t.1;
    if StartsWith(t.1, ")") {
      Split(t.1, ")");
      FieldsUnfold(f, []);
      NoFields();
      Rejoined(head, "", t.1[1..]);
      assert [f] + [] == [f];
    } else {
      Split(t.1, ", ");
      ReadFieldsSound(t.1[2..], depth);
      var r := ReadFields(t.1[2..], depth).value;
      FieldsUnfold(f, r.0);
      Rejoined(head, PrintFields(r.0), r.1);
    }
  }

  lemma NoFields()
    ensures FieldsOk([]) && FieldsHeight([]) == 0
  {
  }

  lemma {:induction false} ReadTypeComplete(t: Tree, rest: string, depth: nat)
    requires WellFormed(t) && Height(t) + depth <= MAX_DEPTH && Follows(rest)
    ensures ReadType(Print(t) + rest, depth) == Some((t, rest))
    decreases t, 0
  {
    hide StartsWith, ReadDecimal, BoundsOk, ReadFields, FirstPrefix, PrintFields, DecimalText;
    var s := Print(t) + rest;
    KeywordLengths();
    OneKeyword(s);
    match t
    case List(element) =>
      Framed("LIST(", Print(element), rest);
      ReadTypeComplete(element, ")" + rest, depth + 1);
      Bracket(rest);
    case Struct(fields) =>
      Framed("STRUCT(", PrintFields(fields), rest);
      ReadFieldsComplete(fields, rest, depth + 1);
    case Decimal(p, q) =>
      DigitsOfBounds(p, q);
      ReadDecimalComplete(p, q, rest);
      ReadDecimalKeyword(s);
    case Scalar(name) =>
      ReadScalar(name, rest, depth);
  }

  lemma Bracket(rest: string)
    ensures StartsWith(")" + rest, ")")
  {
  }

  lemma DigitsOfBounds(p: string, q: string)
    requires BoundsOk(p, q)
    ensures p != "" && q != "" && Numbers.AllDigits(p) && Numbers.AllDigits(q)
  {
  }

  lemma ReadDecimalKeyword(s: string)
    requires ReadDecimal(s).Some?
    ensures StartsWith(s, "DECIMAL(")
  {
  }

  /** What follows the first field. */
  function FieldRest(more: seq<Field>, rest: string): string {
    if more == [] then ")" + rest else ", " + (PrintFields(more) + ")" + rest)
  }

  lemma FieldsText(fields: seq<Field>, rest: string)
    requires fields != []
    ensures PrintFields(fields) + ")" + rest == Quoted(fields[0].name) + (Print(fields[0].kind) + FieldRest(fields[1..], rest))
    ensures Follows(FieldRest(fields[1..], rest))
  {
    hide Quoted, Print;
    Rejoined(Quoted(fields[0].name) + Print(fields[0].kind), PrintFields(fields[1..]), rest);
    Regrouped(Quoted(fields[0].name), Print(fields[0].kind), FieldRest(fields[1..], rest));
  }

  lemma CommaTail(text: string)
    ensures var s := ", " + text; !StartsWith(s, ")") && StartsWith(s, ", ") && s[2..] == text
  {
    assert (", " + text)[0] == ',' && ")"[0] == ')';
  }

  /** Reading a field, then what follows it. */
  lemma ReadFieldThen(s: string, depth: nat, f: Field, more: seq<Field>, rest: string, tail: string)
    requires depth <= MAX_DEPTH + 1 && ReadQuoted(s) == Some((f.name, tail)) && ReadType(tail, depth) == Some((f.kind, FieldRest(more, rest)))
    requires more != [] ==> ReadFields(PrintFields(more) + ")" + rest, depth) == Some((more, rest))
    ensures ReadFields(s, depth) == Some(([f] + more, rest))
  {
    hide ReadQuoted, ReadType, PrintFields;
    QuotedShorter(s);
    if more == [] {
      assert (")" + rest)[1..] == rest && [f] + more == [f];
    } else {
      var text := PrintFields(more) + ")" + rest;
      CommaTail(text);
    }
  }

  lemma {:induction false} ReadFieldsComplete(fields: seq<Field>, rest: string, depth: nat)
    requires fields != [] && FieldsOk(fields) && FieldsHeight(fields) + depth <= MAX_DEPTH
    ensures ReadFields(PrintFields(fields) + ")" + rest, depth) == Some((fields, rest))
    decreases fields, 1
  {
    hide ReadFields, ReadType, ReadQuoted, PrintFields, Print, Quoted, Follows, NameOk, WellFormed, Height;
    var f, more := fields[0], fields[1..];
    FieldsText(fields, rest);
    ReadQuotedComplete(f.name, Print(f.kind) + FieldRest(more, rest));
    ReadTypeComplete(f.kind, FieldRest(more, rest), depth);
    if more != [] {
      ReadFieldsComplete(more, rest, depth);
    }
    ReadFieldThen(PrintFields(fields) + ")" + rest, depth, f, more, rest, Print(f.kind) + FieldRest(more, rest));
    assert fields == [f] + more;
  }

  // ----- The grammar is unambiguous, and so is its translation -----

  /** A text is accepted exactly if it prints a tree within the bounds, and that tree is the one read. */
  lemma AcceptsPrinted(input: string)
    ensures Accepted(input).Some? ==>
      var t := Accepted(input).value; input == Print(t) && WellFormed(t) && Height(t) <= MAX_DEPTH
    ensures forall t | WellFormed(t) && Height(t) <= MAX_DEPTH && Print(t) == input :: Accepted(input) == Some(t)
  {
    hide ReadType, Print, WellFormed, Height;
    var r := ReadType(input, 0);
    if r.Some? {
      ReadTypeSound(input, 0);
      if r.value.1 == "" {
        assert Print(r.value.0) + "" == Print(r.value.0);
      }
    }
    forall t | WellFormed(t) && Height(t) <= MAX_DEPTH && Print(t) == input
      ensures r == Some((t, ""))
    {
      assert Print(t) + "" == input;
      ReadTypeComplete(t, "", 0);
    }
  }

  /** The tree the whole input is read as. */
  function Accepted(input: string): Option<Tree> {
    var r :- ReadType(input, 0);
    if r.1 == "" then Some(r.0) else None
  }

  /** The innermost type that is no list, and how many lists stand around it. */
  function Base(t: Tree): Tree {
    if t.List? then Base(t.element) else t
  }

  function Levels(t: Tree): nat {
    if t.List? then 1 + Levels(t.element) else 0
  }

  function Brackets(n: nat): string {
    if n == 0 then "" else Brackets(n - 1) + "[]"
  }

  lemma {:induction false} DuckBase(t: Tree)
    ensures Duck(t) == Duck(Base(t)) + Brackets(Levels(t)) && !Base(t).List? && (WellFormed(t) ==> WellFormed(Base(t)))
    ensures Base(t) == t || Base(t) < t
  {
    if t.List? {
      DuckBase(t.element);
      assert Duck(Base(t)) + Brackets(Levels(t.element)) + "[]" == Duck(Base(t)) + (Brackets(Levels(t.element)) + "[]");
    } else {
      assert Duck(t) + "" == Duck(t);
    }
  }

  lemma {:induction false} SameLevels(t: Tree, u: Tree)
    requires Base(t) == Base(u) && Levels(t) == Levels(u)
    ensures t == u
  {
    if t.List? {
      SameLevels(t.element, u.element);
    }
  }

  lemma {:induction false} BracketsFront(n: nat)
    requires n > 0
    ensures Brackets(n) == "[]" + Brackets(n - 1)
  {
    if n > 1 {
      BracketsFront(n - 1);
      assert "[]" + Brackets(n - 2) + "[]" == "[]" + (Brackets(n - 2) + "[]");
    }
  }

  lemma {:induction false} BracketsUnique(m: nat, x: string, n: nat, y: string)
    requires Brackets(m) + x == Brackets(n) + y && Follows(x) && Follows(y)
    ensures m == n && x == y
    decreases m
  {
    var s := Brackets(m) + x;
    if m > 0 {
      BracketsFront(m);
      assert s[0] == '[';
    } else {
      assert s == x;
    }
    if n > 0 {
      BracketsFront(n);
      assert s[0] == '[';
    } else {
      assert s == y;
    }
    if m > 0 && n > 0 {
      assert s[2..] == Brackets(m - 1) + x && s[2..] == Brackets(n - 1) + y;
      BracketsUnique(m - 1, x, n - 1, y);
    }
  }

  lemma WordsUnique(v: string, x: string, w: string, y: string)
    requires IsWord(v) && IsWord(w) && WordEnds(x) && WordEnds(y) && v + x == w + y
    ensures v == w && x == y
  {
    NotLonger(v + x, v, w, y);
    NotLonger(v + x, w, v, x);
    assert (v + x)[..|v|] == v && (w + y)[..|w|] == w;
    assert (v + x)[|v|..] == x && (w + y)[|w|..] == y;
  }

  /** The word a type that is no list starts with in the translation, and what follows it. */
  function Word(t: Tree): string
    requires !t.List?
  {
    match t
    case Struct(_) => "STRUCT"
    case Decimal(_, _) => "DECIMAL"
    case Scalar(name) => name
  }

  function AfterWord(t: Tree): string
    requires !t.List?
  {
    match t
    case Struct(fields) => "(" + DuckFields(fields) + ")"
    case Decimal(p, q) => "(" + p + "," + q + ")"
    case Scalar(name) => ""
  }

  lemma DuckWord(t: Tree, x: string)
    requires !t.List? && WellFormed(t) && WordEnds(x)
    ensures Duck(t) + x == Word(t) + (AfterWord(t) + x) && IsWord(Word(t)) && WordEnds(AfterWord(t) + x)
    ensures Word(t) in SCALARS <==> t.Scalar?
  {
    hide IsWord, WordEnds;
    match t
    case Struct(fields) => StructWord(fields, x);
    case Decimal(p, q) => DecimalWord(p, q, x);
    case Scalar(name) => ScalarStart(name, x);
  }

  lemma StructWord(fields: seq<Field>, x: string)
    requires WellFormed(Struct(fields))
    ensures Duck(Struct(fields)) + x == "STRUCT" + ("(" + DuckFields(fields) + ")" + x)
    ensures IsWord("STRUCT") && "STRUCT" !in SCALARS && WordEnds("(" + DuckFields(fields) + ")" + x)
  {
    hide DuckFields, IsWord;
    KeywordWords();
    NotScalars();
    assert "STRUCT(" + DuckFields(fields) + ")" + x == "STRUCT" + ("(" + DuckFields(fields) + ")" + x);
  }

  lemma DecimalWord(p: string, q: string, x: string)
    ensures Duck(Decimal(p, q)) + x == "DECIMAL" + ("(" + p + "," + q + ")" + x)
    ensures IsWord("DECIMAL") && "DECIMAL" !in SCALARS && WordEnds("(" + p + "," + q + ")" + x)
  {
    hide IsWord;
    KeywordWords();
    NotScalars();
    assert DecimalText(p, q) + x == "DECIMAL" + ("(" + p + "," + q + ")" + x);
  }

  lemma ScalarStart(name: string, x: string)
    requires name in SCALARS && WordEnds(x)
    ensures name + x == name + ("" + x) && IsWord(name) && WordEnds("" + x)
  {
    hide IsWord, WordEnds;
    ScalarWords();
    assert "" + x == x;
  }

  lemma DifferentKeywords()
    ensures "STRUCT" != "DECIMAL"
  {
    assert "STRUCT"[0] == 'S' && "DECIMAL"[0] == 'D';
  }

  lemma {:induction false} BaseUnique(t: Tree, x: string, u: Tree, y: string)
    requires !t.List? && !u.List? && WellFormed(t) && WellFormed(u) && WordEnds(x) && WordEnds(y)
    requires Duck(t) + x == Duck(u) + y
    ensures t == u && x == y
    decreases t, 0
  {
    hide Word, AfterWord, DuckFields, DecimalText, IsWord, WordEnds;
    DuckWord(t, x);
    DuckWord(u, y);
    WordsUnique(Word(t), AfterWord(t) + x, Word(u), AfterWord(u) + y);
    DifferentKeywords();
    WordKinds(t);
    WordKinds(u);
    match t
    case Struct(fields) =>
      Framed("STRUCT(", DuckFields(fields), x);
      Framed("STRUCT(", DuckFields(u.fields), y);
      DuckFieldsUnique(fields, x, u.fields, y);
    case Decimal(p, q) =>
      DigitsOfBounds(p, q);
      DigitsOfBounds(u.precision, u.scale);
      ReadDecimalComplete(p, q, x);
      ReadDecimalComplete(u.precision, u.scale, y);
    case Scalar(name) =>
      assert x == AfterWord(t) + x && y == AfterWord(u) + y by {
        NothingAfter(t, x);
        NothingAfter(u, y);
      }
  }

  lemma WordKinds(t: Tree)
    requires !t.List?
    ensures t.Struct? ==> Word(t) == "STRUCT"
    ensures t.Decimal? ==> Word(t) == "DECIMAL"
    ensures t.Scalar? ==> Word(t) == t.name
  {
  }

  lemma NothingAfter(t: Tree, x: string)
    requires t.Scalar?
    ensures AfterWord(t) + x == x
  {
  }

  /** A translation determines its type and where it ends. */
  lemma {:induction false} DuckUnique(t: Tree, x: string, u: Tree, y: string)
    requires WellFormed(t) && WellFormed(u) && Follows(x) && Follows(y) && Duck(t) + x == Duck(u) + y
    ensures t == u && x == y
    decreases t, 1
  {
    hide Duck, WellFormed, Brackets;
    DuckBase(t);
    DuckBase(u);
    var i, j := Brackets(Levels(t)), Brackets(Levels(u));
    Regrouped(Duck(Base(t)), i, x);
    Regrouped(Duck(Base(u)), j, y);
    BracketsEnd(Levels(t), x);
    BracketsEnd(Levels(u), y);
    BaseUnique(Base(t), i + x, Base(u), j + y);
    BracketsUnique(Levels(t), x, Levels(u), y);
    SameLevels(t, u);
  }

  lemma Regrouped(a: string, b: string, c: string)
    ensures a + b + c == a + (b + c)
  {
  }

  lemma BracketsEnd(n: nat, x: string)
    requires Follows(x)
    ensures WordEnds(Brackets(n) + x)
  {
    if n > 0 {
      BracketsFront(n);
    } else {
      assert Brackets(n) + x == x;
    }
  }

  lemma {:induction false} DuckFieldsUnique(fs: seq<Field>, x: string, gs: seq<Field>, y: string)
    requires fs != [] && gs != [] && FieldsOk(fs) && FieldsOk(gs)
    requires DuckFields(fs) + ")" + x == DuckFields(gs) + ")" + y
    ensures fs == gs && x == y
    decreases fs, 2
  {
    hide DuckFields, Quoted, Duck, WellFormed, NameOk;
    var tail, tail' := FieldTail(fs, x), FieldTail(gs, y);
    FieldFront(fs, x);
    FieldFront(gs, y);
    assert fs[0] in fs && gs[0] in gs;
    ReadQuotedComplete(fs[0].name, Duck(fs[0].kind) + tail);
    ReadQuotedComplete(gs[0].name, Duck(gs[0].kind) + tail');
    DuckUnique(fs[0].kind, tail, gs[0].kind, tail');
    assert fs == [fs[0]] + fs[1..] && gs == [gs[0]] + gs[1..];
    TailsUnique(fs, x, gs, y);
    if |fs| > 1 {
      DuckFieldsUnique(fs[1..], x, gs[1..], y);
    }
  }

  /** What follows the first field in the translation. */
  function FieldTail(fs: seq<Field>, x: string): string
    requires fs != []
  {
    if |fs| == 1 then ")" + x else ", " + (DuckFields(fs[1..]) + ")" + x)
  }

  lemma FieldFront(fs: seq<Field>, x: string)
    requires fs != []
    ensures DuckFields(fs) + ")" + x == Quoted(fs[0].name) + (Duck(fs[0].kind) + FieldTail(fs, x))
    ensures Follows(FieldTail(fs, x))
  {
    hide Duck, Quoted;
    Rejoined(Quoted(fs[0].name) + Duck(fs[0].kind), DuckFields(fs[1..]), x);
    Regrouped(Quoted(fs[0].name), Duck(fs[0].kind), FieldTail(fs, x));
  }

  lemma TailsUnique(fs: seq<Field>, x: string, gs: seq<Field>, y: string)
    requires fs != [] && gs != [] && FieldTail(fs, x) == FieldTail(gs, y)
    ensures |fs| == 1 <==> |gs| == 1
    ensures |fs| == 1 ==> x == y
    ensures |fs| > 1 ==> DuckFields(fs[1..]) + ")" + x == DuckFields(gs[1..]) + ")" + y
  {
    var s := FieldTail(fs, x);
    assert |fs| == 1 <==> s[0] == ')';
    assert |gs| == 1 <==> s[0] == ')';
    if |fs| == 1 {
      assert s[1..] == x && s[1..] == y;
    } else {
      assert s[2..] == DuckFields(fs[1..]) + ")" + x && s[2..] == DuckFields(gs[1..]) + ")" + y;
    }
  }

  /** Two accepted texts with the same translation are the same text. */
  lemma TranslationInjective(a: string, b: string)
    requires Accepted(a).Some? && Accepted(b).Some? && Duck(Accepted(a).value) == Duck(Accepted(b).value)
    ensures a == b
  {
    hide Duck, Accepted;
    AcceptsPrinted(a);
    AcceptsPrinted(b);
    var t, u := Accepted(a).value, Accepted(b).value;
    assert Duck(t) + "" == Duck(t) && Duck(u) + "" == Duck(u);
    DuckUnique(t, "", u, "");
  }

  // ----- Which types are accepted, and what they become -----

  /** The names that differ in Postgres. */
  const RENAMED: map<string, string> :=
    map["DOUBLE" := "double precision", "TINYINT" := "smallint", "HUGEINT" := "numeric(38,0)", "FLOAT" := "real"]

  const NAMES: set<string> := {"TIMESTAMPTZ", "TIMESTAMP", "VARCHAR", "BOOLEAN", "TINYINT", "SMALLINT", "INTEGER", "BIGINT",
    "HUGEINT", "FLOAT", "DOUBLE", "DATE", "TIME", "UUID", "JSON"}

  lemma ScalarNames(name: string)
    ensures name in SCALARS <==> name in NAMES
  {
  }

  lemma ScalarTranslated(name: string)
    requires name in NAMES
    ensures var t := Translate(Scalar(name));
      t.duck == name && t.postgres == Some(if name in RENAMED then RENAMED[name] else name) && (t.complex <==> name == "JSON")
  {
  }

  /** How many dimensions of arrays stand around a type. */
  function Dimensions(n: nat): string {
    if n == 0 then "" else "[]" + Dimensions(n - 1)
  }

  function Listed(t: Tree, n: nat): Tree {
    if n == 0 then t else List(Listed(t, n - 1))
  }

  lemma {:induction false} DimensionsEnd(n: nat)
    ensures Dimensions(n) + "[]" == Dimensions(n + 1)
  {
    if n > 0 {
      DimensionsEnd(n - 1);
      assert ("[]" + Dimensions(n - 1)) + "[]" == "[]" + (Dimensions(n - 1) + "[]");
    }
  }

  /** An array of any number of dimensions is its element with as many brackets, and has a Postgres type
      exactly if the element has one. */
  lemma {:induction false} ListTranslated(t: Tree, n: nat)
    requires n > 0
    ensures var a, b := Translate(Listed(t, n)), Translate(t);
      && a.duck == b.duck + Dimensions(n) && a.complex
      && a.postgres == if b.postgres.None? then None else Some(b.postgres.value + Dimensions(n))
    ensures Height(Listed(t, n)) == Height(t) + n && (WellFormed(Listed(t, n)) <==> WellFormed(t))
  {
    var a, b := Translate(Listed(t, n - 1)), Translate(t);
    if n > 1 {
      ListTranslated(t, n - 1);
      DimensionsEnd(n - 1);
      assert (b.duck + Dimensions(n - 1)) + "[]" == b.duck + (Dimensions(n - 1) + "[]");
      assert b.postgres.Some? ==> (b.postgres.value + Dimensions(n - 1)) + "[]" == b.postgres.value + (Dimensions(n - 1) + "[]");
    } else {
      assert Dimensions(1) == "[]" + Dimensions(0);
      assert Dimensions(1) == "[]";
    }
  }

  /** A structure has no Postgres type; its fields stand with their names and types. */
  lemma StructTranslated(fields: seq<Field>)
    ensures var t := Translate(Struct(fields));
      t.postgres.None? && t.complex && t.duck == "STRUCT(" + DuckFields(fields) + ")"
  {
  }

  lemma FieldsTranslated(f: Field, g: Field, more: seq<Field>)
    ensures DuckFields([f]) == Quoted(f.name) + Translate(f.kind).duck
    ensures DuckFields([f, g] + more) == Quoted(f.name) + Translate(f.kind).duck + ", " + DuckFields([g] + more)
  {
    assert ([f, g] + more)[1..] == [g] + more;
  }

  /** A decimal type is accepted exactly with a precision from 1 to 38 and a scale from 0 to the precision. */
  lemma DecimalAccepted(p: string, q: string)
    requires p != "" && q != "" && (forall c | c in p :: '0' <= c && c <= '9') && forall c | c in q :: '0' <= c && c <= '9'
    ensures var input, m, n := "DECIMAL(" + p + "," + q + ")", Calendar.Value(p), Calendar.Value(q);
      if 1 <= m && m < 39 && n < m + 1 then
        Accepted(input) == Some(Decimal(p, q)) && Translate(Decimal(p, q)) == Translation(input, Some(input), false)
      else Accepted(input) == None
  {
    var input := "DECIMAL(" + p + "," + q + ")";
    DecimalDigits(p, q);
    Numbers.ValueBound(p);
    Numbers.ValueBound(q);
    assert input == DecimalText(p, q) == Print(Decimal(p, q));
    hide ReadDecimal, BoundsOk, Print, WellFormed, ReadType;
    AcceptsPrinted(input);
    BoundsExact(p, q);
    if BoundsOk(p, q) {
      DecimalSound(p, q);
    } else {
      DecimalRefused(input, p, q);
    }
  }

  lemma DecimalDigits(p: string, q: string)
    requires (forall c | c in p :: '0' <= c && c <= '9') && forall c | c in q :: '0' <= c && c <= '9'
    ensures Numbers.AllDigits(p) && Numbers.AllDigits(q)
  {
    assert forall i | 0 <= i < |p| :: p[i] in p;
    assert forall i | 0 <= i < |q| :: q[i] in q;
  }

  lemma BoundsExact(p: string, q: string)
    requires p != "" && q != "" && Numbers.AllDigits(p) && Numbers.AllDigits(q)
    ensures BoundsOk(p, q) <==> 1 <= Calendar.Value(p) && Calendar.Value(p) < 39 && Calendar.Value(q) < Calendar.Value(p) + 1
  {
    Numbers.ValueBound(q);
  }

  lemma DecimalSound(p: string, q: string)
    requires BoundsOk(p, q)
    ensures WellFormed(Decimal(p, q)) && Height(Decimal(p, q)) <= MAX_DEPTH && Print(Decimal(p, q)) == "DECIMAL(" + p + "," + q + ")"
  {
  }

  lemma DecimalRefused(input: string, p: string, q: string)
    requires input == "DECIMAL(" + p + "," + q + ")" && p != "" && q != "" && Numbers.AllDigits(p) && Numbers.AllDigits(q) && !BoundsOk(p, q)
    ensures Accepted(input) == None
  {
    hide ReadDecimal, BoundsOk;
    ReadDecimalComplete(p, q, "");
    assert DecimalText(p, q) + "" == input;
    assert input[0] == 'D' && "LIST("[0] == 'L' && "STRUCT("[0] == 'S';
  }
}
