/** Laws of the three-valued evaluation that tie its cases to one another. */
module Logic {
  import opened Wrappers
  import Chars
  import opened ColumnTypes
  import opened Predicates
  import opened Evaluation

  function Dual(kind: GroupKind): GroupKind {
    if kind == All then Any else All
  }

  function Negations(terms: seq<Predicate>): seq<Predicate> {
    if terms == [] then [] else [Not(terms[0])] + Negations(terms[1..])
  }

  function Opposite(t: Option<Truth>): Option<Truth> {
    if t.None? then None else Some(Negate(t.value))
  }

  lemma JoinDual(kind: GroupKind, a: Option<Truth>, b: Option<Truth>)
    ensures Opposite(Join(kind, a, b)) == Join(Dual(kind), Opposite(a), Opposite(b))
  {
    if a.Some? && b.Some? {
      CombineTwo(kind, a.value, b.value);
      CombineTwo(kind, Negate(a.value), Negate(b.value));
    }
  }

  lemma {:induction false} FoldDual(r: Readers, kind: GroupKind, terms: seq<Predicate>, columns: seq<Column>, row: Row)
    ensures Opposite(Fold(r, kind, terms, columns, row)) == Fold(r, Dual(kind), Negations(terms), columns, row)
  {
    if terms != [] {
      FoldDual(r, kind, terms[1..], columns, row);
      JoinDual(kind, Evaluate(r, terms[0], columns, row), Fold(r, kind, terms[1..], columns, row));
    }
  }

  /** De Morgan, with unknown and with errors: a negated group is the other group of the negated terms. */
  lemma DeMorgan(r: Readers, kind: GroupKind, terms: seq<Predicate>, columns: seq<Column>, row: Row)
    ensures Evaluate(r, Not(Group(kind, terms)), columns, row) == Evaluate(r, Group(Dual(kind), Negations(terms)), columns, row)
  {
    GroupIsFold(r, kind, terms, columns, row);
    GroupIsFold(r, Dual(kind), Negations(terms), columns, row);
    FoldDual(r, kind, terms, columns, row);
  }

  function Complement(operator: Operator): Operator {
    match operator
    case Eq => Ne
    case Ne => Eq
    case Lt => Ge
    case Ge => Lt
    case Gt => Le
    case Le => Gt
  }

  /** A negated comparison is the complementary comparison, unknown where that is unknown. */
  lemma NegatedComparison(r: Readers, column: string, operator: Operator, value: Option<string>,
      columns: seq<Column>, row: Row)
    ensures Evaluate(r, Not(Compare(column, operator, value)), columns, row)
         == Evaluate(r, Compare(column, Complement(operator), value), columns, row)
  {
  }

  /** At most is less or equal, and at least is greater or equal. */
  lemma OrEqual(r: Readers, column: string, operator: Operator, value: Option<string>, columns: seq<Column>, row: Row)
    requires operator == Lt || operator == Gt
    ensures Evaluate(r, Group(Any, [Compare(column, operator, value), Compare(column, Eq, value)]), columns, row)
         == Evaluate(r, Compare(column, if operator == Lt then Le else Ge, value), columns, row)
  {
    var terms := [Compare(column, operator, value), Compare(column, Eq, value)];
    var a, b := Evaluate(r, terms[0], columns, row), Evaluate(r, terms[1], columns, row);
    GroupIsFold(r, Any, terms, columns, row);
    assert terms[1..] == [terms[1]] && [terms[1]][1..] == [];
    assert Fold(r, Any, [terms[1]], columns, row) == Join(Any, b, Some(False));
    JoinLaws(Any, b, a, a);
    assert Fold(r, Any, terms, columns, row) == Join(Any, a, b);
    if a.Some? && b.Some? {
      CombineTwo(Any, a.value, b.value);
    }
  }

  /** IS NOT NULL negates IS NULL, and neither is ever unknown. */
  lemma NullTest(r: Readers, column: string, columns: seq<Column>, row: Row)
    ensures Evaluate(r, Not(Null(column, false)), columns, row) == Evaluate(r, Null(column, true), columns, row)
    ensures Evaluate(r, Null(column, true), columns, row) != Some(Unknown)
  {
  }

  function Equalities(column: string, values: seq<Option<string>>): seq<Predicate> {
    if values == [] then [] else [Compare(column, Eq, values[0])] + Equalities(column, values[1..])
  }

  lemma {:induction false} SearchIsFold(r: Readers, c: Column, values: seq<Option<string>>, columns: seq<Column>,
      row: Row, column: string, unknown: bool)
    requires FindColumn(columns, column) == Some(c) && c.id in row && !row[c.id].RawNull?
    ensures var either := Join(Any, Some(if unknown then Unknown else False), Fold(r, Any, Equalities(column, values), columns, row));
      either.Some? ==> Search(r, row[c.id], values, c.kind, unknown) == either
  {
    var start := Some(if unknown then Unknown else False);
    if values == [] {
      JoinLaws(Any, start, start, start);
    } else {
      var rest := Fold(r, Any, Equalities(column, values[1..]), columns, row);
      var first := Evaluate(r, Compare(column, Eq, values[0]), columns, row);
      assert Equalities(column, values)[1..] == Equalities(column, values[1..]);
      assert Fold(r, Any, Equalities(column, values), columns, row) == Join(Any, first, rest);
      SearchIsFold(r, c, values[1..], columns, row, column, values[0].None? || unknown);
      if first.Some? && rest.Some? {
        CombineTwo(Any, first.value, rest.value);
        CombineTwo(Any, start.value, Combine(Any, [first.value, rest.value]));
        CombineTwo(Any, start.value, rest.value);
        CombineTwo(Any, Unknown, rest.value);
      }
    }
  }

  lemma {:induction false} UnknownEqualities(r: Readers, column: string, values: seq<Option<string>>,
      columns: seq<Column>, row: Row)
    requires FindColumn(columns, column).Some? && FindColumn(columns, column).value.id in row
    requires row[FindColumn(columns, column).value.id].RawNull? && values != []
    ensures Fold(r, Any, Equalities(column, values), columns, row) == Some(Unknown)
  {
    var rest := Equalities(column, values[1..]);
    assert Equalities(column, values)[1..] == rest;
    if values[1..] == [] {
      JoinLaws(Any, Some(Unknown), Some(Unknown), Some(Unknown));
    } else {
      UnknownEqualities(r, column, values[1..], columns, row);
      CombineTwo(Any, Unknown, Unknown);
    }
  }

  /** IN is the disjunction of the equalities wherever that evaluates; it stops at the first match, so it
      may succeed where a later value would be an error. */
  lemma InIsDisjunction(r: Readers, column: string, values: seq<Option<string>>, columns: seq<Column>, row: Row)
    requires values != []
    ensures var either := Evaluate(r, Group(Any, Equalities(column, values)), columns, row);
      either.Some? ==> Evaluate(r, In(column, values), columns, row) == either
  {
    GroupIsFold(r, Any, Equalities(column, values), columns, row);
    var fold := Fold(r, Any, Equalities(column, values), columns, row);
    var c := FindColumn(columns, column);
    if c.None? || c.value.id !in row {
      assert Evaluate(r, Compare(column, Eq, values[0]), columns, row) == None;
      assert fold == None;
    } else if row[c.value.id].RawNull? {
      UnknownEqualities(r, column, values, columns, row);
    } else {
      SearchIsFold(r, c.value, values, columns, row, column, false);
      JoinLaws(Any, Some(False), fold, fold);
    }
  }

  /** Of less, equal and greater exactly one holds where the comparison is known, and none is known otherwise. */
  lemma Trichotomy(r: Readers, column: string, value: Option<string>, columns: seq<Column>, row: Row)
    ensures var less, equal, greater := Evaluate(r, Compare(column, Lt, value), columns, row),
        Evaluate(r, Compare(column, Eq, value), columns, row), Evaluate(r, Compare(column, Gt, value), columns, row);
      || less == equal == greater == None
      || less == equal == greater == Some(Unknown)
      || (less == Some(True) && equal == greater == Some(False))
      || (equal == Some(True) && less == greater == Some(False))
      || (greater == Some(True) && less == equal == Some(False))
  {
  }

  /** A cell that is not a number lies above every literal, and in no IN list; it is not an error. */
  lemma NotANumber(r: Readers, c: Column, value: string, values: seq<Option<string>>, row: Row)
    requires c.id in row && row[c.id] == RawText("NaN") && r.family(c.kind) in {Number, Float}
    ensures Evaluate(r, Compare(c.id, Gt, Some(value)), [c], row) == Some(True)
    ensures Evaluate(r, In(c.id, values), [c], row) in {Some(False), Some(Unknown)}
  {
    NowhereFound(r, c, values, false);
  }

  lemma {:induction false} NowhereFound(r: Readers, c: Column, values: seq<Option<string>>, unknown: bool)
    requires r.family(c.kind) in {Number, Float}
    ensures Search(r, RawText("NaN"), values, c.kind, unknown) in {Some(False), Some(Unknown)}
  {
    if values != [] {
      NowhereFound(r, c, values[1..], values[0].None? || unknown);
    }
  }

  /** Infinite cells lie beyond every finite literal on their side. */
  lemma InfiniteCell(r: Readers, c: Column, value: string, row: Row)
    requires c.id in row && row[c.id] in {RawText("Infinity"), RawText("-Infinity")} && r.family(c.kind) in {Float, Time}
    ensures Evaluate(r, Compare(c.id, if row[c.id] == RawText("Infinity") then Gt else Lt, Some(value)), [c], row) == Some(True)
  {
    InfinityTexts();
  }

  lemma InfinityTexts()
    ensures IsInfinity("Infinity") && IsInfinity("-Infinity") && "Infinity"[0] == 'I' && "-Infinity"[0] == '-'
    ensures "Infinity" != "NaN" && "-Infinity" != "NaN"
  {
    assert "-Infinity"[1..] == "Infinity";
    assert |"Infinity"| == 8 && |"NaN"| == 3;
    assert Chars.Lower("Infinity") == "infinity";
  }

  /** A boolean cell is compared the same in each of its spellings. */
  lemma BooleanSpellings(r: Readers, c: Column, operator: Operator, value: Option<string>, row: Row, row': Row)
    requires c.id in row && c.id in row' && r.family(c.kind) == Boolean
    requires (row[c.id] in {RawBool(true), RawText("true"), RawText("t")} && row'[c.id] in {RawBool(true), RawText("true"), RawText("t")})
      || (row[c.id] in {RawBool(false), RawText("false"), RawText("f")} && row'[c.id] in {RawBool(false), RawText("false"), RawText("f")})
    ensures Evaluate(r, Compare(c.id, operator, value), [c], row) == Evaluate(r, Compare(c.id, operator, value), [c], row')
  {
  }
}
