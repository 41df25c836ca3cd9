/** `evaluatePredicate`: three-valued evaluation of a predicate on one row, where `None` is a thrown
    error. Normalisation changes neither the truth value nor whether evaluation throws. */
module Evaluation {
  import opened Wrappers
  import opened Ordering
  import opened Chars
  import opened ColumnTypes
  import opened Predicates
  import opened Normalisation

  datatype Truth = True | False | Unknown

  /** A cell as the driver returns it. */
  datatype Raw = RawNull | RawBool(flag: bool) | RawText(text: string)

  /** Cells by column id; a missing key is `undefined`. */
  type Row = map<string, Raw>

  // ----- compare -----

  function StringOf(raw: Raw): string {
    match raw
    case RawNull => "null"
    case RawBool(flag) => if flag then "true" else "false"
    case RawText(text) => text
  }

  /** `/^[+-]?infinity$/iu` */
  predicate IsInfinity(s: string) {
    s != "" && Lower(if s[0] == '+' || s[0] == '-' then s[1..] else s) == "infinity"
  }

  function CompareMagnitude(a: Magnitude, b: Magnitude): int {
    match (a, b)
    case (Finite(x), Finite(y)) => if x < y then -1 else if x == y then 0 else 1
    case (MinusInfinity, MinusInfinity) => 0
    case (PlusInfinity, PlusInfinity) => 0
    case (MinusInfinity, _) => -1
    case (_, MinusInfinity) => 1
    case (PlusInfinity, _) => 1
    case (_, PlusInfinity) => -1
  }

  /** `Buffer.compare` of the UTF-8 texts, whose byte order is the order of scalar values. */
  function CompareBytes(a: string, b: string): int {
    if a == "" || b == "" then (if a == b then 0 else if a == "" then -1 else 1)
    else if a[0] == b[0] then CompareBytes(a[1..], b[1..])
    else if a[0] < b[0] then -1 else 1
  }

  /** `replace(' ', 'T')`: the first space only. */
  function SpaceToT(s: string): string {
    if s == "" then "" else if s[0] == ' ' then "T" + s[1..] else [s[0]] + SpaceToT(s[1..])
  }

  /** A cell's temporal text as ISO 8601. */
  function TemporalText(raw: Raw, kind: string): string {
    var text := SpaceToT(StringOf(raw));
    var n := |text|;
    if kind == "TIMESTAMPTZ" && n >= 3 && text[n - 3] in "+-" && IsDigit(text[n - 2]) && IsDigit(text[n - 1])
    then text + ":00" else text
  }

  const BOOLEAN_CELLS: set<Raw> :=
    {RawBool(true), RawBool(false), RawText("true"), RawText("false"), RawText("t"), RawText("f")}

  function CompareCell(r: Readers, raw: Raw, literal: string, kind: string): Option<int> {
    var f := r.family(kind);
    var text := StringOf(raw);
    if (f == Number || f == Float) && text == "NaN" then Some(1)
    else if (f == Float || f == Time) && IsInfinity(text) then Some(if text[0] == '-' then -1 else 1)
    else match f
      case Number =>
        var a :- r.exact(text);
        var b :- r.exact(literal);
        Some(CompareMagnitude(a, b))
      case Float =>
        var a :- r.binary(text, kind);
        var b :- r.exact(literal);
        Some(CompareMagnitude(a, b))
      case Time =>
        var a :- r.instant(TemporalText(raw, kind), kind);
        var b :- r.instant(literal, kind);
        Some(if a < b then -1 else if a == b then 0 else 1)
      case Boolean =>
        if raw !in BOOLEAN_CELLS then None
        else Some((if raw in {RawBool(true), RawText("true"), RawText("t")} then 1 else 0) - (if literal == "true" then 1 else 0))
      case _ => Some(CompareBytes(text, literal))
  }

  // ----- evaluatePredicate -----

  function FindColumn(columns: seq<Column>, id: string): Option<Column> {
    if columns == [] then None else if columns[0].id == id then Some(columns[0]) else FindColumn(columns[1..], id)
  }

  /** Truth of a group from the truth of its terms. */
  function Combine(kind: GroupKind, results: seq<Truth>): Truth {
    match kind
    case All => if False in results then False else if Unknown in results then Unknown else True
    case Any => if True in results then True else if Unknown in results then Unknown else False
  }

  function Negate(t: Truth): Truth {
    match t
    case True => False
    case False => True
    case Unknown => Unknown
  }

  /** The IN arm from some value on, `unknown` saying whether a NULL came before. */
  function Search(r: Readers, raw: Raw, values: seq<Option<string>>, kind: string, unknown: bool): Option<Truth> {
    if values == [] then Some(if unknown then Unknown else False)
    else if values[0].None? then Search(r, raw, values[1..], kind, true)
    else
      var n :- CompareCell(r, raw, values[0].value, kind);
      if n == 0 then Some(True) else Search(r, raw, values[1..], kind, unknown)
  }

  predicate Holds(operator: Operator, n: int) {
    match operator
    case Eq => n == 0
    case Ne => n != 0
    case Lt => n < 0
    case Le => n <= 0
    case Gt => n > 0
    case Ge => n >= 0
  }

  function Truthful(b: bool): Truth {
    if b then True else False
  }

  /** The tests of a single column. */
  function EvaluateTest(r: Readers, p: Predicate, columns: seq<Column>, row: Row): Option<Truth> {
    match p
    case Null(column, negated) =>
      var c :- FindColumn(columns, column);
      if c.id !in row then None else Some(Truthful(row[c.id].RawNull? != negated))
    case In(column, values) =>
      var c :- FindColumn(columns, column);
      if c.id !in row then None
      else if row[c.id].RawNull? then Some(Unknown)
      else Search(r, row[c.id], values, c.kind, false)
    case Compare(column, operator, value) =>
      var c :- FindColumn(columns, column);
      if c.id !in row then None
      else if row[c.id].RawNull? || value.None? then Some(Unknown)
      else
        var n :- CompareCell(r, row[c.id], value.value, c.kind);
        Some(Truthful(Holds(operator, n)))
    case _ => None // scope references are refused at this stage
  }

  function Evaluate(r: Readers, p: Predicate, columns: seq<Column>, row: Row): Option<Truth>
    decreases p, 1
  {
    match p
    case Group(kind, terms) =>
      var results :- EvaluateAll(r, terms, columns, row);
      Some(Combine(kind, results))
    case Not(term) =>
      var t :- Evaluate(r, term, columns, row);
      Some(Negate(t))
    case _ => EvaluateTest(r, p, columns, row)
  }

  function EvaluateAll(r: Readers, terms: seq<Predicate>, columns: seq<Column>, row: Row): Option<seq<Truth>>
    decreases terms, 0
  {
    if terms == [] then Some([])
    else
      var t :- Evaluate(r, terms[0], columns, row);
      var ts :- EvaluateAll(r, terms[1..], columns, row);
      Some([t] + ts)
  }

  /** The loop of the IN arm, with its early return. */
  method EvaluateIn(r: Readers, raw: Raw, values: seq<Option<string>>, kind: string) returns (t: Option<Truth>)
    ensures t == Search(r, raw, values, kind, false)
  {
    var unknown := false;
    for i := 0 to |values|
      invariant Search(r, raw, values, kind, false) == Search(r, raw, values[i..], kind, unknown)
    {
      assert values[i..][0] == values[i] && values[i..][1..] == values[i + 1..];
      if values[i].None? {
        unknown := true;
      } else {
        var n := CompareCell(r, raw, values[i].value, kind);
        if n.None? {
          return None;
        }
        if n.value == 0 {
          return Some(True);
        }
      }
    }
    return Some(if unknown then Unknown else False);
  }

  // ----- When a comparison throws -----

  /** The literal has a value of the column's type, as the literals of a parsed predicate do. */
  predicate LiteralReads(r: Readers, literal: string, kind: string) {
    match r.family(kind)
    case Number => r.exact(literal).Some?
    case Float => r.exact(literal).Some?
    case Time => r.instant(literal, kind).Some?
    case _ => true
  }

  predicate CellReads(r: Readers, raw: Raw, kind: string) {
    var f := r.family(kind);
    var text := StringOf(raw);
    || ((f == Number || f == Float) && text == "NaN")
    || ((f == Float || f == Time) && IsInfinity(text))
    || match f
       case Number => r.exact(text).Some?
       case Float => r.binary(text, kind).Some?
       case Time => r.instant(TemporalText(raw, kind), kind).Some?
       case Boolean => raw in BOOLEAN_CELLS
       case _ => true
  }

  /** With a readable literal, only the cell decides whether a comparison throws. */
  lemma CompareThrows(r: Readers, raw: Raw, literal: string, kind: string)
    requires LiteralReads(r, literal, kind)
    ensures CompareCell(r, raw, literal, kind).Some? <==> CellReads(r, raw, kind)
  {
  }

  // ----- IN depends on the set of its values -----

  predicate Equals(r: Readers, raw: Raw, v: Option<string>, kind: string) {
    v.Some? && CompareCell(r, raw, v.value, kind) == Some(0)
  }

  predicate Throws(r: Readers, raw: Raw, v: Option<string>, kind: string) {
    v.Some? && CompareCell(r, raw, v.value, kind).None?
  }

  /** What a search says about the values, whatever their order. */
  ghost predicate Found(r: Readers, raw: Raw, values: seq<Option<string>>, kind: string, unknown: bool,
      t: Option<Truth>)
  {
    match t
    case None => exists v | v in values :: Throws(r, raw, v, kind)
    case Some(True) => exists v | v in values :: Equals(r, raw, v, kind)
    case Some(u) =>
      && (forall v | v in values :: !Equals(r, raw, v, kind) && !Throws(r, raw, v, kind))
      && (u == Unknown <==> unknown || None in values)
  }

  lemma {:induction false} SearchMeaning(r: Readers, raw: Raw, values: seq<Option<string>>, kind: string, unknown: bool)
    ensures Found(r, raw, values, kind, unknown, Search(r, raw, values, kind, unknown))
  {
    if values != [] {
      var rest := values[1..];
      assert values == [values[0]] + rest;
      assert values[0] in values;
      assert forall v :: v in values <==> v == values[0] || v in rest;
      SearchMeaning(r, raw, rest, kind, unknown || values[0].None?);
    }
  }

  /** No value makes the comparison throw, or none equals the cell. */
  ghost predicate ValuesSettled(r: Readers, raw: Raw, values: seq<Option<string>>, kind: string) {
    (forall v | v in values :: !Throws(r, raw, v, kind)) || (forall v | v in values :: !Equals(r, raw, v, kind))
  }

  /** Two lists of the same values give the same truth value if they give one; and if the values are
      settled, one list throws exactly when the other does. */
  lemma SearchSet(r: Readers, raw: Raw, a: seq<Option<string>>, b: seq<Option<string>>, kind: string)
    requires forall v :: v in a <==> v in b
    ensures Agree(Search(r, raw, a, kind, false), Search(r, raw, b, kind, false))
    ensures ValuesSettled(r, raw, a, kind) ==> Search(r, raw, a, kind, false) == Search(r, raw, b, kind, false)
  {
    var ta, tb := Search(r, raw, a, kind, false), Search(r, raw, b, kind, false);
    SearchMeaning(r, raw, a, kind, false);
    SearchMeaning(r, raw, b, kind, false);
    FoundSame(r, raw, a, b, kind, ta, tb);
    if ValuesSettled(r, raw, a, kind) {
      FoundThrows(r, raw, a, b, kind, ta, tb);
    }
  }

  /** Literals that are readable are settled at every cell. */
  lemma ReadableSettled(r: Readers, raw: Raw, values: seq<Option<string>>, kind: string)
    requires forall v | v in values && v.Some? :: LiteralReads(r, v.value, kind)
    ensures ValuesSettled(r, raw, values, kind)
  {
    forall v | v in values && v.Some?
      ensures Throws(r, raw, v, kind) <==> !CellReads(r, raw, kind)
    {
      CompareThrows(r, raw, v.value, kind);
    }
  }

  ghost predicate Reordered(a: seq<Option<string>>, b: seq<Option<string>>) {
    multiset(a) == multiset(b)
  }

  /** A value moved to the front. */
  function Fronted(values: seq<Option<string>>, i: nat): (r: seq<Option<string>>)
    requires i < |values|
  {
    [values[i]] + (values[..i] + values[i + 1..])
  }

  lemma FrontedReordered(values: seq<Option<string>>, i: nat)
    requires i < |values|
    ensures Reordered(Fronted(values, i), values)
  {
    MultisetRemove(values, i);
    assert multiset(values) == multiset{values[i]} + multiset(values[..i] + values[i + 1..]);
  }

  /** The order of the values is irrelevant at a cell exactly if no value throws there or none equals it. */
  lemma ValuesOrderExact(r: Readers, raw: Raw, values: seq<Option<string>>, kind: string)
    ensures ValuesSettled(r, raw, values, kind)
      <==> forall other | Reordered(other, values) :: Search(r, raw, other, kind, false) == Search(r, raw, values, kind, false)
  {
    if ValuesSettled(r, raw, values, kind) {
      forall other | Reordered(other, values)
        ensures Search(r, raw, other, kind, false) == Search(r, raw, values, kind, false)
      {
        assert forall v :: v in other <==> v in multiset(other);
        assert forall v :: v in values <==> v in multiset(values);
        SearchSet(r, raw, values, other, kind);
      }
    } else {
      var i: nat :| i < |values| && Throws(r, raw, values[i], kind);
      var j: nat :| j < |values| && Equals(r, raw, values[j], kind);
      FrontedReordered(values, i);
      FrontedReordered(values, j);
      assert Search(r, raw, Fronted(values, i), kind, false) == None;
      assert Search(r, raw, Fronted(values, j), kind, false) == Some(True);
    }
  }

  lemma FoundSame(r: Readers, raw: Raw, a: seq<Option<string>>, b: seq<Option<string>>, kind: string,
      ta: Option<Truth>, tb: Option<Truth>)
    requires forall v :: v in a <==> v in b
    requires Found(r, raw, a, kind, false, ta) && Found(r, raw, b, kind, false, tb)
    ensures Agree(ta, tb)
  {
    if ta == Some(True) {
      var v :| v in a && Equals(r, raw, v, kind);
      assert v in b;
    }
    if tb == Some(True) {
      var v :| v in b && Equals(r, raw, v, kind);
      assert v in a;
    }
    var n: Option<string> := None;
    assert n in a <==> n in b;
  }

  lemma FoundThrows(r: Readers, raw: Raw, a: seq<Option<string>>, b: seq<Option<string>>, kind: string,
      ta: Option<Truth>, tb: Option<Truth>)
    requires forall v :: v in a <==> v in b
    requires ValuesSettled(r, raw, a, kind)
    requires Found(r, raw, a, kind, false, ta) && Found(r, raw, b, kind, false, tb)
    ensures ta.None? <==> tb.None?
  {
    FoundSame(r, raw, a, b, kind, ta, tb);
    if ta.None? {
      var v :| v in a && Throws(r, raw, v, kind);
      assert v in b;
    }
    if tb.None? {
      var v :| v in b && Throws(r, raw, v, kind);
      assert v in a;
    }
  }

  // ----- Groups as a commutative, associative combination -----

  ghost predicate Agree(a: Option<Truth>, b: Option<Truth>) {
    a.Some? && b.Some? ==> a == b
  }

  function Unit(kind: GroupKind): Truth {
    if kind == All then True else False
  }

  /** Conjunction or disjunction of two outcomes; a throw wins. */
  function Join(kind: GroupKind, a: Option<Truth>, b: Option<Truth>): Option<Truth> {
    if a.None? || b.None? then None else Some(Combine(kind, [a.value, b.value]))
  }

  function Fold(r: Readers, kind: GroupKind, terms: seq<Predicate>, columns: seq<Column>, row: Row): Option<Truth> {
    if terms == [] then Some(Unit(kind))
    else Join(kind, Evaluate(r, terms[0], columns, row), Fold(r, kind, terms[1..], columns, row))
  }

  lemma CombineCons(kind: GroupKind, t: Truth, ts: seq<Truth>)
    ensures Combine(kind, [t] + ts) == Combine(kind, [t, Combine(kind, ts)])
  {
    assert forall x :: x in [t] + ts <==> x == t || x in ts;
  }

  lemma CombineTwo(kind: GroupKind, a: Truth, b: Truth)
    ensures Combine(All, [a, b]) == if a == False || b == False then False else if a == Unknown || b == Unknown then Unknown else True
    ensures Combine(Any, [a, b]) == if a == True || b == True then True else if a == Unknown || b == Unknown then Unknown else False
  {
    assert forall t :: t in [a, b] <==> t == a || t == b;
  }

  lemma JoinLaws(kind: GroupKind, a: Option<Truth>, b: Option<Truth>, c: Option<Truth>)
    ensures Join(kind, a, b) == Join(kind, b, a)
    ensures Join(kind, a, Join(kind, b, c)) == Join(kind, Join(kind, a, b), c)
    ensures Join(kind, a, Some(Unit(kind))) == a
  {
    forall x, y {
      CombineTwo(kind, x, y);
    }
  }

  lemma {:induction false} GroupIsFold(r: Readers, kind: GroupKind, terms: seq<Predicate>, columns: seq<Column>,
      row: Row)
    ensures Evaluate(r, Group(kind, terms), columns, row) == Fold(r, kind, terms, columns, row)
  {
    if terms != [] {
      GroupIsFold(r, kind, terms[1..], columns, row);
      var rest := EvaluateAll(r, terms[1..], columns, row);
      var first := Evaluate(r, terms[0], columns, row);
      if first.Some? && rest.Some? {
        CombineCons(kind, first.value, rest.value);
      }
    }
  }

  lemma {:induction false} FoldConcat(r: Readers, kind: GroupKind, a: seq<Predicate>, b: seq<Predicate>,
      columns: seq<Column>, row: Row)
    ensures Fold(r, kind, a + b, columns, row) == Join(kind, Fold(r, kind, a, columns, row), Fold(r, kind, b, columns, row))
    decreases |a|
  {
    var fb := Fold(r, kind, b, columns, row);
    if a == [] {
      assert a + b == b;
      JoinLaws(kind, fb, Some(Unit(kind)), fb);
    } else {
      assert (a + b)[0] == a[0] && (a + b)[1..] == a[1..] + b;
      FoldConcat(r, kind, a[1..], b, columns, row);
      JoinLaws(kind, Evaluate(r, a[0], columns, row), Fold(r, kind, a[1..], columns, row), fb);
    }
  }

  lemma {:induction false} FoldPermutation(r: Readers, kind: GroupKind, a: seq<Predicate>, b: seq<Predicate>,
      columns: seq<Column>, row: Row)
    requires multiset(a) == multiset(b)
    ensures Fold(r, kind, a, columns, row) == Fold(r, kind, b, columns, row)
    decreases |a|
  {
    assert |multiset(a)| == |a| && |multiset(b)| == |b|;
    if a != [] {
      assert a[0] in multiset(b);
      var j :| 0 <= j < |b| && b[j] == a[0];
      MultisetRemove(a, 0);
      MultisetRemove(b, j);
      assert multiset(a[1..]) == multiset(a) - multiset{a[0]};
      assert multiset(b[..j] + b[j + 1..]) == multiset(b) - multiset{b[j]};
      FoldPermutation(r, kind, a[1..], b[..j] + b[j + 1..], columns, row);
      FoldRemove(r, kind, b, j, columns, row);
    }
  }

  lemma FoldRemove(r: Readers, kind: GroupKind, b: seq<Predicate>, j: nat, columns: seq<Column>, row: Row)
    requires j < |b|
    ensures Fold(r, kind, b, columns, row)
      == Join(kind, Evaluate(r, b[j], columns, row), Fold(r, kind, b[..j] + b[j + 1..], columns, row))
  {
    var front, back := b[..j], b[j + 1..];
    assert b == front + ([b[j]] + back);
    FoldConcat(r, kind, front, [b[j]] + back, columns, row);
    FoldConcat(r, kind, front, back, columns, row);
    assert ([b[j]] + back)[1..] == back;
    var x, f, k := Evaluate(r, b[j], columns, row), Fold(r, kind, front, columns, row), Fold(r, kind, back, columns, row);
    JoinLaws(kind, x, f, k);
    JoinLaws(kind, f, x, k);
  }

  // ----- Normalisation preserves meaning -----

  /** Every literal of the predicate has a value of its column's type. */
  ghost predicate LiteralsRead(r: Readers, p: Predicate, columns: seq<Column>)
    decreases p
  {
    match p
    case Group(_, terms) => forall t | t in terms :: LiteralsRead(r, t, columns)
    case Not(term) => LiteralsRead(r, term, columns)
    case In(column, values) =>
      var c := FindColumn(columns, column);
      c.Some? ==> forall v | v in values && v.Some? :: LiteralReads(r, v.value, c.value.kind)
    case _ => true // a comparison is not moved, so its literal cannot change what happens
  }

  /** Every IN list of the predicate is settled at its cell of the row. */
  ghost predicate Settled(r: Readers, p: Predicate, columns: seq<Column>, row: Row)
    decreases p
  {
    match p
    case Group(_, terms) => forall t | t in terms :: Settled(r, t, columns, row)
    case Not(term) => Settled(r, term, columns, row)
    case In(column, values) =>
      var c := FindColumn(columns, column);
      c.Some? && c.value.id in row && !row[c.value.id].RawNull? ==> ValuesSettled(r, row[c.value.id], values, c.value.kind)
    case _ => true
  }

  lemma {:induction false} LiteralsSettled(r: Readers, p: Predicate, columns: seq<Column>, row: Row)
    requires LiteralsRead(r, p, columns)
    ensures Settled(r, p, columns, row)
    decreases p
  {
    match p
    case Group(_, terms) =>
      forall t | t in terms
        ensures Settled(r, t, columns, row)
      {
        LiteralsSettled(r, t, columns, row);
      }
    case Not(term) =>
      LiteralsSettled(r, term, columns, row);
    case In(column, values) =>
      var c := FindColumn(columns, column);
      if c.Some? && c.value.id in row {
        ReadableSettled(r, row[c.value.id], values, c.value.kind);
      }
    case _ =>
  }

  function NormalisedAll(terms: seq<Predicate>): (r: seq<Predicate>)
    ensures |r| == |terms| && forall i | 0 <= i < |terms| :: r[i] == Normalise(terms[i])
  {
    seq(|terms|, i requires 0 <= i < |terms| => Normalise(terms[i]))
  }

  /** Splicing the terms of nested groups changes nothing, not even whether evaluation throws. */
  lemma {:induction false} FlattenedMeaning(r: Readers, kind: GroupKind, terms: seq<Predicate>, columns: seq<Column>,
      row: Row)
    ensures Fold(r, kind, Flattened(kind, terms), columns, row) == Fold(r, kind, NormalisedAll(terms), columns, row)
    decreases |terms|
  {
    if terms != [] {
      var n := Normalise(terms[0]);
      FlattenedMeaning(r, kind, terms[1..], columns, row);
      FoldConcat(r, kind, Spliced(kind, n), Flattened(kind, terms[1..]), columns, row);
      assert NormalisedAll(terms)[0] == n && NormalisedAll(terms)[1..] == NormalisedAll(terms[1..]);
      if n.Group? && n.kind == kind {
        GroupIsFold(r, kind, n.terms, columns, row);
      } else {
        JoinLaws(kind, Evaluate(r, n, columns, row), None, None);
        assert Fold(r, kind, [n], columns, row) == Evaluate(r, n, columns, row);
      }
    }
  }

  /** A normalised group evaluates like the group of its normalised terms. */
  lemma GroupMeaning(r: Readers, kind: GroupKind, terms: seq<Predicate>, columns: seq<Column>, row: Row)
    ensures Evaluate(r, Normalise(Group(kind, terms)), columns, row) == Fold(r, kind, NormalisedAll(terms), columns, row)
  {
    var flat := Flattened(kind, terms);
    FlattenedMeaning(r, kind, terms, columns, row);
    TermOrder();
    SortSorts(TermLeq, flat);
    FoldPermutation(r, kind, Sort(TermLeq, flat), flat, columns, row);
    GroupIsFold(r, kind, Sort(TermLeq, flat), columns, row);
  }

  lemma {:induction false} TermsMeaning(r: Readers, kind: GroupKind, terms: seq<Predicate>, columns: seq<Column>, row: Row)
    ensures Agree(Fold(r, kind, NormalisedAll(terms), columns, row), Fold(r, kind, terms, columns, row))
    ensures (forall t | t in terms :: Settled(r, t, columns, row))
      ==> Fold(r, kind, NormalisedAll(terms), columns, row) == Fold(r, kind, terms, columns, row)
    decreases terms, 0
  {
    if terms != [] {
      NormaliseMeaning(r, terms[0], columns, row);
      TermsMeaning(r, kind, terms[1..], columns, row);
      assert NormalisedAll(terms)[0] == Normalise(terms[0]) && NormalisedAll(terms)[1..] == NormalisedAll(terms[1..]);
      assert terms[0] in terms && forall t | t in terms[1..] :: t in terms;
    }
  }

  /** The normal form has the same truth value wherever both have one. Where every IN list is settled
      the two agree also on whether evaluation throws. */
  lemma {:induction false} NormaliseMeaning(r: Readers, p: Predicate, columns: seq<Column>, row: Row)
    ensures Agree(Evaluate(r, Normalise(p), columns, row), Evaluate(r, p, columns, row))
    ensures Settled(r, p, columns, row) ==> Evaluate(r, Normalise(p), columns, row) == Evaluate(r, p, columns, row)
    decreases p, 1
  {
    match p
    case Group(kind, terms) =>
      GroupMeaning(r, kind, terms, columns, row);
      TermsMeaning(r, kind, terms, columns, row);
      GroupIsFold(r, kind, terms, columns, row);
    case Not(term) =>
      NormaliseMeaning(r, term, columns, row);
    case In(column, values) =>
      var c := FindColumn(columns, column);
      DistinctSorted(values);
      var sorted := Sort(ValueLeq, Distinct(values));
      if c.Some? && c.value.id in row {
        SearchSet(r, row[c.value.id], values, sorted, c.value.kind);
      }
    case _ =>
  }

  /** Two values in the wrong order are exchanged. */
  lemma SortedPair(a: string, b: string)
    requires Less(b, a)
    ensures Sort(ValueLeq, Distinct([Some(a), Some(b)])) == [Some(b), Some(a)]
  {
    var values := [Some(a), Some(b)];
    var r := Sort(ValueLeq, Distinct(values));
    LessIrreflexive(a);
    DistinctSorted(values);
    assert r[0] in values && r[1] in values by {
      assert Some(a) in r && Some(b) in r;
    }
    ValueOrder();
    SortSorts(ValueLeq, Distinct(values));
    assert |r| == |multiset(r)| == |multiset(Distinct(values))| == 2 by {
      assert values[..1] == [Some(a)] && values[..1][..0] == [];
      assert Distinct(values[..1]) == [Some(a)];
    }
    if Less(a, b) {
      LessTransitive(a, b, a);
    }
  }
}
