/** `composeRowDecisions`: the conjunction of the decisions that apply to a pool, and what it reads. */
module Composition {
  import opened Wrappers
  import opened Ordering
  import opened ColumnTypes
  import opened Predicates
  import opened Normalisation
  import opened Evaluation

  // ----- referencedColumns -----

  predicate NameLeq(a: string, b: string) {
    !Less(b, a)
  }

  function ReferencedColumns(p: Predicate): seq<string>
    decreases p, 1
  {
    match p
    case Group(_, terms) => Sort(NameLeq, Distinct(ReferencedByAll(terms)))
    case Not(term) => Sort(NameLeq, Distinct(ReferencedColumns(term)))
    case _ => [p.column]
  }

  function ReferencedByAll(terms: seq<Predicate>): seq<string>
    decreases terms, 0
  {
    if terms == [] then [] else ReferencedColumns(terms[0]) + ReferencedByAll(terms[1..])
  }

  /** The columns some test of the predicate names. */
  ghost predicate Mentions(p: Predicate, id: string)
    decreases p
  {
    match p
    case Group(_, terms) => exists t | t in terms :: Mentions(t, id)
    case Not(term) => Mentions(term, id)
    case _ => p.column == id
  }

  lemma NameOrder()
    ensures TotalOrder(NameLeq)
  {
    forall x, y
      ensures NameLeq(x, y) || NameLeq(y, x)
      ensures NameLeq(x, y) && NameLeq(y, x) ==> x == y
    {
      LessConnected(x, y);
      if Less(x, y) && Less(y, x) {
        LessTransitive(x, y, x);
        LessIrreflexive(x);
      }
    }
    forall x, y, z | NameLeq(x, y) && NameLeq(y, z)
      ensures NameLeq(x, z)
    {
      if Less(z, x) {
        LessConnected(x, y);
        if Less(x, y) {
          LessTransitive(z, x, y);
        }
      }
    }
  }

  lemma SortedNames(names: seq<string>)
    ensures var r := Sort(NameLeq, Distinct(names));
      Sorted(NameLeq, r) && (forall i, j | 0 <= i < j < |r| :: r[i] != r[j]) && forall n :: n in r <==> n in names
  {
    var d := Distinct(names);
    var r := Sort(NameLeq, d);
    NameOrder();
    SortSorts(NameLeq, d);
    assert forall v :: v in multiset(r) <==> v in multiset(d);
    NoRepeats(d);
    NoRepeatsBack(r);
  }

  lemma {:induction false} ReferencedByAllExact(terms: seq<Predicate>)
    ensures forall id :: id in ReferencedByAll(terms) <==> exists t | t in terms :: Mentions(t, id)
    decreases terms, 0
  {
    if terms != [] {
      ReferencedColumnsExact(terms[0]);
      ReferencedByAllExact(terms[1..]);
      assert terms == [terms[0]] + terms[1..];
      assert forall t :: t in terms <==> t == terms[0] || t in terms[1..];
      forall id
        ensures id in ReferencedByAll(terms) <==> exists t | t in terms :: Mentions(t, id)
      {
        assert id in ReferencedByAll(terms) <==> id in ReferencedColumns(terms[0]) || id in ReferencedByAll(terms[1..]);
        if Mentions(terms[0], id) {
          assert terms[0] in terms;
        }
      }
    }
  }

  /** Exactly the columns named in the predicate, sorted, each once. */
  lemma {:induction false} ReferencedColumnsExact(p: Predicate)
    ensures forall id :: id in ReferencedColumns(p) <==> Mentions(p, id)
    ensures Sorted(NameLeq, ReferencedColumns(p))
    ensures forall i, j | 0 <= i < j < |ReferencedColumns(p)| :: ReferencedColumns(p)[i] != ReferencedColumns(p)[j]
    decreases p, 1
  {
    match p
    case Group(_, terms) =>
      ReferencedByAllExact(terms);
      SortedNames(ReferencedByAll(terms));
    case Not(term) =>
      ReferencedColumnsExact(term);
      SortedNames(ReferencedColumns(term));
    case _ =>
  }

  lemma ReferencedSame(p: Predicate, q: Predicate)
    requires forall id :: Mentions(p, id) <==> Mentions(q, id)
    ensures ReferencedColumns(p) == ReferencedColumns(q)
  {
    var a, b := ReferencedColumns(p), ReferencedColumns(q);
    ReferencedColumnsExact(p);
    ReferencedColumnsExact(q);
    var c, d := set v | v in a, set v | v in b;
    assert forall v :: v in c <==> v in d;
    assert c == d;
    SameElements(a, b);
    NameOrder();
    SortedUnique(NameLeq, a, b);
  }

  lemma {:induction false} FlattenedMentions(kind: GroupKind, terms: seq<Predicate>, id: string)
    ensures (exists t | t in Flattened(kind, terms) :: Mentions(t, id)) <==> (exists t | t in terms :: Mentions(t, id))
    decreases terms, 0
  {
    if terms != [] {
      var n := Normalise(terms[0]);
      NormaliseMentions(terms[0], id);
      FlattenedMentions(kind, terms[1..], id);
      assert terms == [terms[0]] + terms[1..];
      assert forall t :: t in terms <==> t == terms[0] || t in terms[1..];
      var s, f := Spliced(kind, n), Flattened(kind, terms[1..]);
      assert forall t :: t in s + f <==> t in s || t in f;
      assert (exists t | t in s :: Mentions(t, id)) <==> Mentions(n, id) by {
        if !(n.Group? && n.kind == kind) {
          assert forall t :: t in [n] <==> t == n;
        }
      }
    }
  }

  lemma {:induction false} NormaliseMentions(p: Predicate, id: string)
    ensures Mentions(Normalise(p), id) <==> Mentions(p, id)
    decreases p, 1
  {
    match p
    case Group(kind, terms) =>
      var flat := Flattened(kind, terms);
      FlattenedMentions(kind, terms, id);
      TermOrder();
      SortSorts(TermLeq, flat);
    case Not(term) =>
      NormaliseMentions(term, id);
    case _ =>
  }

  // ----- Evaluation reads nothing else -----

  /** Two column lists that find the same types for the columns of the predicate. */
  ghost predicate SameTypes(p: Predicate, a: seq<Column>, b: seq<Column>) {
    forall id | Mentions(p, id) ::
      var c, d := FindColumn(a, id), FindColumn(b, id);
      c.Some? == d.Some? && (c.Some? ==> c.value.kind == d.value.kind)
  }

  lemma {:induction false} FindColumnId(columns: seq<Column>, id: string)
    ensures FindColumn(columns, id).Some? <==> exists c | c in columns :: c.id == id
    ensures FindColumn(columns, id).Some? ==> FindColumn(columns, id).value in columns && FindColumn(columns, id).value.id == id
  {
    if columns != [] {
      assert columns == [columns[0]] + columns[1..];
      FindColumnId(columns[1..], id);
    }
  }

  lemma {:induction false} EvaluateAllReads(r: Readers, terms: seq<Predicate>, a: seq<Column>, b: seq<Column>,
      row: Row, row': Row)
    requires forall t | t in terms :: SameTypes(t, a, b)
    requires forall t, id | t in terms && Mentions(t, id) :: (id in row <==> id in row') && (id in row ==> row[id] == row'[id])
    ensures EvaluateAll(r, terms, a, row) == EvaluateAll(r, terms, b, row')
    decreases terms, 0
  {
    if terms != [] {
      assert terms[0] in terms && forall t | t in terms[1..] :: t in terms;
      EvaluateReads(r, terms[0], a, b, row, row');
      EvaluateAllReads(r, terms[1..], a, b, row, row');
    }
  }

  /** Evaluation depends only on the types and cells of the columns the predicate names. */
  lemma {:induction false} EvaluateReads(r: Readers, p: Predicate, a: seq<Column>, b: seq<Column>, row: Row, row': Row)
    requires SameTypes(p, a, b)
    requires forall id | Mentions(p, id) :: (id in row <==> id in row') && (id in row ==> row[id] == row'[id])
    ensures Evaluate(r, p, a, row) == Evaluate(r, p, b, row')
    decreases p, 1
  {
    match p
    case Group(_, terms) =>
      forall t, id | t in terms && Mentions(t, id)
        ensures Mentions(p, id)
      {
      }
      EvaluateAllReads(r, terms, a, b, row, row');
    case Not(term) =>
      assert forall id | Mentions(term, id) :: Mentions(p, id);
      EvaluateReads(r, term, a, b, row, row');
    case _ =>
      assert Mentions(p, p.column);
      FindColumnId(a, p.column);
      FindColumnId(b, p.column);
  }

  // ----- composeRowDecisions -----

  datatype Level = TagRule | ObjectDefault | PoolOverride

  datatype Decision = Decision(id: string, level: Level, predicate_: Predicate, columns: seq<Column>)

  datatype Composed = Composed(
    decisionId: Option<string>, decisionIds: seq<string>, predicate_: Option<Predicate>, hashInput: Option<string>, columns: seq<Column>)

  function PredicatesOf(ds: seq<Decision>): (ps: seq<Predicate>)
    ensures |ps| == |ds| && forall i | 0 <= i < |ds| :: ps[i] == ds[i].predicate_
  {
    seq(|ds|, i requires 0 <= i < |ds| => ds[i].predicate_)
  }

  function IdsOf(ds: seq<Decision>): seq<string> {
    seq(|ds|, i requires 0 <= i < |ds| => ds[i].id)
  }

  function ColumnsOf(ds: seq<Decision>): seq<Column> {
    if ds == [] then [] else ColumnsOf(ds[..|ds| - 1]) + ds[|ds| - 1].columns
  }

  /** The predicate before it is normalised. */
  function Conjunction(ds: seq<Decision>): Predicate
    requires ds != []
  {
    if |ds| == 1 then ds[0].predicate_ else Group(All, PredicatesOf(ds))
  }

  /** No column id stands with two types. */
  ghost predicate Consistent(columns: seq<Column>) {
    forall c, d | c in columns && d in columns && c.id == d.id :: c.kind == d.kind
  }

  /** No record of the same id follows this one. */
  ghost predicate IsLast(columns: seq<Column>, c: Column) {
    exists i | 0 <= i < |columns| :: columns[i] == c && NoneAfter(columns, i, c.id)
  }

  ghost predicate NoneAfter(columns: seq<Column>, i: nat, id: string) {
    forall j | i < j < |columns| :: columns[j].id != id
  }

  ghost predicate HasRecord(columns: seq<Column>, id: string) {
    exists c | c in columns :: c.id == id
  }

  /** The map the loop over the decisions fills: the last record of each id. */
  ghost predicate HoldsLast(columns: seq<Column>, m: map<string, Column>) {
    && (forall id :: id in m <==> HasRecord(columns, id))
    && (forall id | id in m :: m[id].id == id && IsLast(columns, m[id]))
  }

  lemma HoldsLastIn(columns: seq<Column>, m: map<string, Column>, id: string)
    requires HoldsLast(columns, m) && id in m
    ensures m[id] in columns && m[id].id == id
  {
  }

  lemma HoldsLastStep(columns: seq<Column>, m: map<string, Column>, c: Column)
    requires HoldsLast(columns, m)
    ensures HoldsLast(columns + [c], m[c.id := c])
  {
    var next, n := columns + [c], m[c.id := c];
    assert next[|columns|] == c && NoneAfter(next, |columns|, c.id);
    forall id | id in n
      ensures n[id].id == id && IsLast(next, n[id])
    {
      if id != c.id {
        var i :| 0 <= i < |columns| && columns[i] == m[id] && NoneAfter(columns, i, id);
        assert next[i] == n[id] && NoneAfter(next, i, id);
      }
    }
    assert forall d :: d in next <==> d in columns || d == c;
  }

  /** One record for each column the predicate names, in the order of their ids: the last one given. */
  ghost predicate IsLookup(found: seq<Column>, p: Predicate, given: seq<Column>) {
    var names := ReferencedColumns(p);
    && |found| == |names|
    && forall k | 0 <= k < |names| :: found[k].id == names[k] && IsLast(given, found[k])
  }

  /** The nested loops over the decisions and their columns; refuses a second type for an id. */
  method CollectColumns(ds: seq<Decision>) returns (result: Option<map<string, Column>>)
    ensures result.Some? <==> Consistent(ColumnsOf(ds))
    ensures result.Some? ==> HoldsLast(ColumnsOf(ds), result.value)
  {
    var m: map<string, Column> := map[];
    for i := 0 to |ds|
      invariant HoldsLast(ColumnsOf(ds[..i]), m) && Consistent(ColumnsOf(ds[..i]))
    {
      ghost var seen := ColumnsOf(ds[..i]);
      var own := ds[i].columns;
      assert ds[..i + 1][..i] == ds[..i];
      assert seen + own[..0] == seen;
      for j := 0 to |own|
        invariant HoldsLast(seen + own[..j], m) && Consistent(seen + own[..j])
      {
        var c := own[j];
        ghost var before := seen + own[..j];
        assert seen + own[..j + 1] == before + [c];
        if c.id in m && m[c.id].kind != c.kind {
          HoldsLastIn(before, m, c.id);
          InconsistentStep(before, m[c.id], c);
          InconsistentPrefix(ds, i, j);
          return None;
        }
        HoldsLastStep(before, m, c);
        ConsistentStep(before, m, c);
        m := m[c.id := c];
      }
      assert own[..|own|] == own;
    }
    assert ds[..|ds|] == ds;
    return Some(m);
  }

  /** The records of the named columns; refuses a name without a record. */
  method Lookup(names: seq<string>, m: map<string, Column>) returns (result: Option<seq<Column>>)
    ensures result.Some? <==> forall n | n in names :: n in m
    ensures result.Some? ==> |result.value| == |names| && forall k | 0 <= k < |names| :: names[k] in m && result.value[k] == m[names[k]]
  {
    var columns := [];
    for i := 0 to |names|
      invariant |columns| == i
      invariant forall k | 0 <= k < i :: names[k] in m && columns[k] == m[names[k]]
    {
      if names[i] !in m {
        return None;
      }
      columns := columns + [m[names[i]]];
    }
    return Some(columns);
  }

  /** Throws if two records of one id have different types, or if a column the conjunction names has no
      record; otherwise composes. */
  method ComposeRowDecisions(ds: seq<Decision>) returns (result: Option<Composed>)
    ensures ds == [] ==> result == Some(Composed(None, [], None, None, []))
    ensures ds != [] ==> (result.Some? <==>
      Consistent(ColumnsOf(ds)) && forall id | id in ReferencedColumns(Conjunction(ds)) :: HasRecord(ColumnsOf(ds), id))
    ensures ds != [] && result.Some? ==>
      && result.value.decisionId == Some(ds[0].id)
      && result.value.decisionIds == IdsOf(ds)
      && result.value.predicate_ == Some(Normalise(Conjunction(ds)))
      && result.value.hashInput == Some(HashInput(Conjunction(ds)))
      && IsLookup(result.value.columns, Conjunction(ds), ColumnsOf(ds))
  {
    if ds == [] {
      return Some(Composed(None, [], None, None, []));
    }
    var combined := Normalise(Conjunction(ds));
    NormaliseIdempotent(Conjunction(ds));
    NormaliseReferences(Conjunction(ds));
    var collected := CollectColumns(ds);
    if collected.None? {
      return None;
    }
    var m := collected.value;
    var columns := Lookup(ReferencedColumns(combined), m);
    if columns.None? {
      return None;
    }
    assert IsLookup(columns.value, Conjunction(ds), ColumnsOf(ds));
    return Some(Composed(Some(ds[0].id), IdsOf(ds), Some(combined), Some(HashInput(combined)), columns.value));
  }

  lemma NormaliseReferences(p: Predicate)
    ensures ReferencedColumns(Normalise(p)) == ReferencedColumns(p)
    ensures forall id :: id in ReferencedColumns(p) <==> Mentions(p, id)
  {
    forall id
      ensures Mentions(Normalise(p), id) <==> Mentions(p, id)
    {
      NormaliseMentions(p, id);
    }
    ReferencedSame(Normalise(p), p);
    ReferencedColumnsExact(p);
  }

  lemma InconsistentStep(before: seq<Column>, d: Column, c: Column)
    requires d in before && d.id == c.id && d.kind != c.kind
    ensures !Consistent(before + [c])
  {
    assert d in before + [c] && c in before + [c];
  }

  lemma ConsistentStep(before: seq<Column>, m: map<string, Column>, c: Column)
    requires HoldsLast(before, m) && Consistent(before)
    requires c.id in m ==> m[c.id].kind == c.kind
    ensures Consistent(before + [c])
  {
    forall d | d in before && d.id == c.id
      ensures d.kind == c.kind
    {
      assert c.id in m;
      HoldsLastIn(before, m, c.id);
    }
    assert forall d :: d in before + [c] <==> d in before || d == c;
  }

  lemma {:induction false} ColumnsOfPrefix(ds: seq<Decision>, i: nat)
    requires i <= |ds|
    ensures forall c | c in ColumnsOf(ds[..i]) :: c in ColumnsOf(ds)
    decreases |ds| - i
  {
    if i < |ds| {
      ColumnsOfPrefix(ds, i + 1);
      assert ds[..i + 1][..i] == ds[..i];
    } else {
      assert ds[..i] == ds;
    }
  }

  lemma InconsistentPrefix(ds: seq<Decision>, i: nat, j: nat)
    requires i < |ds| && j < |ds[i].columns|
    requires !Consistent(ColumnsOf(ds[..i]) + ds[i].columns[..j] + [ds[i].columns[j]])
    ensures !Consistent(ColumnsOf(ds))
  {
    ColumnsOfPrefix(ds, i + 1);
    assert ds[..i + 1][..i] == ds[..i];
    var part := ColumnsOf(ds[..i]) + ds[i].columns[..j] + [ds[i].columns[j]];
    assert forall c | c in part :: c in ColumnsOf(ds[..i + 1]);
  }

  // ----- Composition is conjunction -----

  /** The decision's own columns cover its predicate. */
  ghost predicate Covers(d: Decision) {
    forall id | Mentions(d.predicate_, id) :: HasRecord(d.columns, id)
  }

  /** The row passes the decision's predicate as normalising writes it, with these columns. */
  ghost predicate Admits(r: Readers, d: Decision, columns: seq<Column>, row: Row) {
    Evaluate(r, Normalise(d.predicate_), columns, row) == Some(True)
  }

  lemma {:induction false} ColumnsOfMember(ds: seq<Decision>, d: Decision)
    requires d in ds
    ensures forall c | c in d.columns :: c in ColumnsOf(ds)
  {
    var front := ds[..|ds| - 1];
    assert ds == front + [ds[|ds| - 1]];
    if d != ds[|ds| - 1] {
      ColumnsOfMember(front, d);
    }
  }

  lemma {:induction false} ColumnsOfIn(ds: seq<Decision>)
    ensures forall c :: c in ColumnsOf(ds) <==> exists d | d in ds :: c in d.columns
    decreases |ds|
  {
    if ds != [] {
      var front, d := ds[..|ds| - 1], ds[|ds| - 1];
      ColumnsOfIn(front);
      assert ds == front + [d];
      assert forall e :: e in ds <==> e in front || e == d;
    }
  }

  lemma ConjunctionMentions(ds: seq<Decision>, d: Decision, id: string)
    requires d in ds && Mentions(d.predicate_, id)
    ensures Mentions(Conjunction(ds), id)
  {
    var i :| 0 <= i < |ds| && ds[i] == d;
    if |ds| > 1 {
      assert PredicatesOf(ds)[i] == d.predicate_;
    }
  }

  lemma LookupFinds(ds: seq<Decision>, found: seq<Column>, id: string)
    requires ds != [] && IsLookup(found, Conjunction(ds), ColumnsOf(ds)) && Mentions(Conjunction(ds), id)
    ensures FindColumn(found, id).Some? && FindColumn(found, id).value in ColumnsOf(ds) && FindColumn(found, id).value.id == id
  {
    ReferencedColumnsExact(Conjunction(ds));
    FindColumnId(found, id);
    var names := ReferencedColumns(Conjunction(ds));
    var k :| 0 <= k < |names| && names[k] == id;
    assert found[k].id == id && found[k] in found;
    var c := FindColumn(found, id).value;
    var j :| 0 <= j < |found| && found[j] == c;
    assert found[j].id == names[j];
  }

  /** Records taken from the decisions find the types that the composed columns do. */
  lemma SameFound(ds: seq<Decision>, p: Predicate, own: seq<Column>, found: seq<Column>)
    requires ds != [] && Consistent(ColumnsOf(ds)) && IsLookup(found, Conjunction(ds), ColumnsOf(ds))
    requires forall c | c in own :: c in ColumnsOf(ds)
    requires forall id | Mentions(p, id) :: Mentions(Conjunction(ds), id) && HasRecord(own, id)
    ensures SameTypes(p, own, found)
  {
    hide IsLookup;
    forall id | Mentions(p, id)
      ensures FindColumn(own, id).Some? && FindColumn(found, id).Some?
      ensures FindColumn(own, id).value.kind == FindColumn(found, id).value.kind
    {
      FindColumnId(own, id);
      LookupFinds(ds, found, id);
    }
  }

  /** A decision whose own columns cover its predicate means the same with them as with the composed columns. */
  lemma OwnColumns(r: Readers, ds: seq<Decision>, d: Decision, found: seq<Column>, row: Row)
    requires d in ds && Covers(d) && Consistent(ColumnsOf(ds)) && IsLookup(found, Conjunction(ds), ColumnsOf(ds))
    ensures Evaluate(r, Normalise(d.predicate_), d.columns, row) == Evaluate(r, Normalise(d.predicate_), found, row)
  {
    var p := Normalise(d.predicate_);
    ColumnsOfMember(ds, d);
    forall id | Mentions(p, id)
      ensures Mentions(Conjunction(ds), id) && HasRecord(d.columns, id)
    {
      NormaliseMentions(d.predicate_, id);
      ConjunctionMentions(ds, d, id);
    }
    SameFound(ds, p, d.columns, found);
    EvaluateReads(r, p, d.columns, found, row, row);
  }

  lemma {:induction false} FoldTrue(r: Readers, terms: seq<Predicate>, columns: seq<Column>, row: Row)
    ensures Fold(r, All, terms, columns, row) == Some(True) <==> forall t | t in terms :: Evaluate(r, t, columns, row) == Some(True)
  {
    if terms != [] {
      FoldTrue(r, terms[1..], columns, row);
      var a, b := Evaluate(r, terms[0], columns, row), Fold(r, All, terms[1..], columns, row);
      if a.Some? && b.Some? {
        CombineTwo(All, a.value, b.value);
      }
      assert Fold(r, All, terms, columns, row) == Some(True) <==> a == Some(True) && b == Some(True);
      assert terms == [terms[0]] + terms[1..];
      assert terms[0] in terms && forall t | t in terms[1..] :: t in terms;
    }
  }

  /** A row passes the composed predicate exactly when every decision admits it with the composed columns,
      and a decision that brings the columns of its predicate admits the same rows with its own. */
  lemma ComposedIsConjunction(r: Readers, ds: seq<Decision>, found: seq<Column>, row: Row)
    requires ds != [] && Consistent(ColumnsOf(ds)) && IsLookup(found, Conjunction(ds), ColumnsOf(ds))
    ensures Evaluate(r, Normalise(Conjunction(ds)), found, row) == Some(True)
      <==> forall d | d in ds :: Admits(r, d, found, row)
    ensures forall d | d in ds && Covers(d) :: Admits(r, d, found, row) <==> Admits(r, d, d.columns, row)
  {
    forall d | d in ds && Covers(d)
      ensures Admits(r, d, found, row) <==> Admits(r, d, d.columns, row)
    {
      OwnColumns(r, ds, d, found, row);
    }
    if |ds| == 1 {
      assert forall d :: d in ds <==> d == ds[0];
      assert Admits(r, ds[0], found, row) <==> Evaluate(r, Normalise(Conjunction(ds)), found, row) == Some(True);
    } else {
      GroupMeaning(r, All, PredicatesOf(ds), found, row);
      FoldTrue(r, NormalisedAll(PredicatesOf(ds)), found, row);
      TermsAdmit(r, ds, found, row);
    }
  }

  lemma TermsAdmit(r: Readers, ds: seq<Decision>, found: seq<Column>, row: Row)
    ensures (forall t | t in NormalisedAll(PredicatesOf(ds)) :: Evaluate(r, t, found, row) == Some(True))
      <==> forall d | d in ds :: Admits(r, d, found, row)
  {
    var ps := NormalisedAll(PredicatesOf(ds));
    forall i | 0 <= i < |ds|
      ensures ps[i] == Normalise(ds[i].predicate_) && ps[i] in ps && ds[i] in ds
    {
    }
    if forall t | t in ps :: Evaluate(r, t, found, row) == Some(True) {
      forall d | d in ds
        ensures Admits(r, d, found, row)
      {
        var i :| 0 <= i < |ds| && ds[i] == d;
        assert ps[i] in ps;
      }
    }
  }

  /** One more decision never admits a row. */
  lemma AddingNeverAdmits(r: Readers, ds: seq<Decision>, d: Decision, before: seq<Column>, after: seq<Column>, row: Row)
    requires ds != []
    requires Consistent(ColumnsOf(ds)) && IsLookup(before, Conjunction(ds), ColumnsOf(ds))
    requires Consistent(ColumnsOf(ds + [d])) && IsLookup(after, Conjunction(ds + [d]), ColumnsOf(ds + [d]))
    requires Evaluate(r, Normalise(Conjunction(ds + [d])), after, row) == Some(True)
    ensures Evaluate(r, Normalise(Conjunction(ds)), before, row) == Some(True)
  {
    ComposedIsConjunction(r, ds, before, row);
    ComposedIsConjunction(r, ds + [d], after, row);
    forall e | e in ds
      ensures Admits(r, e, before, row)
    {
      assert e in ds + [d];
      EarlierColumns(ds, d, e, before, after);
      EvaluateReads(r, Normalise(e.predicate_), before, after, row, row);
    }
  }

  lemma EarlierColumns(ds: seq<Decision>, d: Decision, e: Decision, before: seq<Column>, after: seq<Column>)
    requires e in ds && IsLookup(before, Conjunction(ds), ColumnsOf(ds))
    requires Consistent(ColumnsOf(ds + [d])) && IsLookup(after, Conjunction(ds + [d]), ColumnsOf(ds + [d]))
    ensures SameTypes(Normalise(e.predicate_), before, after)
  {
    var p := Normalise(e.predicate_);
    assert (ds + [d])[..|ds|] == ds && e in ds + [d];
    forall id | Mentions(p, id)
      ensures Mentions(Conjunction(ds + [d]), id) && HasRecord(before, id)
    {
      NormaliseMentions(e.predicate_, id);
      ConjunctionMentions(ds, e, id);
      ConjunctionMentions(ds + [d], e, id);
      LookupFinds(ds, before, id);
      FindColumnId(before, id);
    }
    forall c | c in before
      ensures c in ColumnsOf(ds + [d])
    {
      var j :| 0 <= j < |before| && before[j] == c;
      assert before[j].id == ReferencedColumns(Conjunction(ds))[j];
      assert c in ColumnsOf(ds);
    }
    SameFound(ds + [d], p, before, after);
  }

  // ----- Decision order -----

  lemma {:induction false} PredicatesOfPermutation(a: seq<Decision>, b: seq<Decision>)
    requires multiset(a) == multiset(b)
    ensures multiset(PredicatesOf(a)) == multiset(PredicatesOf(b))
    decreases |a|
  {
    hide PredicatesOf;
    SameLength(a, b);
    if a == [] {
      assert b == [];
    } else {
      var j :| 0 <= j < |b| && b[j] == a[0];
      var tail, rest := a[..0] + a[1..], b[..j] + b[j + 1..];
      RemoveBoth(a, 0, b, j);
      PredicatesOfPermutation(tail, rest);
      PredicatesOfRemove(a, 0);
      PredicatesOfRemove(b, j);
    }
  }

  lemma PredicatesOfRemove(b: seq<Decision>, j: nat)
    requires j < |b|
    ensures multiset(PredicatesOf(b)) == multiset{b[j].predicate_} + multiset(PredicatesOf(b[..j] + b[j + 1..]))
  {
    MultisetRemove(PredicatesOf(b), j);
    assert PredicatesOf(b[..j] + b[j + 1..]) == PredicatesOf(b)[..j] + PredicatesOf(b)[j + 1..];
  }

  lemma SameRecords(a: seq<Decision>, b: seq<Decision>)
    requires multiset(a) == multiset(b)
    ensures forall c :: c in ColumnsOf(a) <==> c in ColumnsOf(b)
  {
    hide ColumnsOf;
    ColumnsOfIn(a);
    ColumnsOfIn(b);
    assert forall d :: d in a <==> d in multiset(a);
    assert forall d :: d in b <==> d in multiset(b);
  }

  lemma CombinedAlike(a: seq<Decision>, b: seq<Decision>)
    requires a != [] && multiset(a) == multiset(b)
    ensures b != [] && Normalise(Conjunction(a)) == Normalise(Conjunction(b))
  {
    hide Normalise;
    SameLength(a, b);
    if |a| == 1 {
      assert a[0] in multiset(b);
    } else {
      PredicatesOfPermutation(a, b);
      NormaliseReordered(All, PredicatesOf(a), PredicatesOf(b));
    }
  }

  /** The order of the decisions changes neither the composed predicate, nor the digested text, nor
      the ids of the columns, nor the set of records they are looked up in. */
  lemma OrderIrrelevant(a: seq<Decision>, b: seq<Decision>)
    requires a != [] && multiset(a) == multiset(b)
    ensures b != []
    ensures Normalise(Conjunction(a)) == Normalise(Conjunction(b))
    ensures HashInput(Conjunction(a)) == HashInput(Conjunction(b))
    ensures ReferencedColumns(Conjunction(a)) == ReferencedColumns(Conjunction(b))
    ensures forall c :: c in ColumnsOf(a) <==> c in ColumnsOf(b)
  {
    SameRecords(a, b);
    hide ColumnsOf, Conjunction;
    CombinedAlike(a, b);
    forall id
      ensures Mentions(Conjunction(a), id) <==> Mentions(Conjunction(b), id)
    {
      NormaliseMentions(Conjunction(a), id);
      NormaliseMentions(Conjunction(b), id);
    }
    ReferencedSame(Conjunction(a), Conjunction(b));
  }

  // ----- Which record stands for a column -----

  function LastRecord(columns: seq<Column>, id: string): Option<Column> {
    if columns == [] then None
    else if columns[|columns| - 1].id == id then Some(columns[|columns| - 1])
    else LastRecord(columns[..|columns| - 1], id)
  }

  /** The record for each name, if there is one. */
  function Records(names: seq<string>, ds: seq<Decision>): (r: seq<Option<Column>>)
    ensures |r| == |names| && forall k | 0 <= k < |names| :: r[k] == LastRecord(ColumnsOf(ds), names[k])
  {
    seq(|names|, k requires 0 <= k < |names| => LastRecord(ColumnsOf(ds), names[k]))
  }

  function Given(found: seq<Column>): (r: seq<Option<Column>>)
    ensures |r| == |found| && forall k | 0 <= k < |found| :: r[k] == Some(found[k])
  {
    seq(|found|, k requires 0 <= k < |found| => Some(found[k]))
  }

  lemma {:induction false} LastRecordIsLast(columns: seq<Column>, c: Column)
    ensures IsLast(columns, c) <==> LastRecord(columns, c.id) == Some(c)
    decreases |columns|
  {
    if columns != [] {
      var n := |columns| - 1;
      var front := columns[..n];
      if columns[n].id == c.id {
        assert NoneAfter(columns, n, c.id);
        assert forall i | 0 <= i < n :: !NoneAfter(columns, i, c.id);
      } else {
        LastRecordIsLast(front, c);
        assert forall i | 0 <= i < n :: front[i] == columns[i] && (NoneAfter(front, i, c.id) <==> NoneAfter(columns, i, c.id));
      }
    }
  }

  lemma {:induction false} LastRecordId(columns: seq<Column>, id: string)
    ensures LastRecord(columns, id).Some? ==> LastRecord(columns, id).value.id == id
  {
    if columns != [] {
      LastRecordId(columns[..|columns| - 1], id);
    }
  }

  /** The columns of a composition are the last records. */
  lemma LookupIsRecords(ds: seq<Decision>, found: seq<Column>)
    requires ds != []
    ensures IsLookup(found, Conjunction(ds), ColumnsOf(ds))
      <==> Given(found) == Records(ReferencedColumns(Conjunction(ds)), ds)
  {
    hide IsLast, Conjunction;
    var names, given := ReferencedColumns(Conjunction(ds)), ColumnsOf(ds);
    if |found| == |names| {
      forall k | 0 <= k < |names|
        ensures found[k].id == names[k] && IsLast(given, found[k]) <==> Given(found)[k] == Records(names, ds)[k]
      {
        LastRecordIsLast(given, found[k]);
        LastRecordId(given, names[k]);
      }
    }
  }

  lemma {:induction false} LastRecordConcat(a: seq<Column>, b: seq<Column>, id: string)
    ensures LastRecord(a + b, id) == if LastRecord(b, id).Some? then LastRecord(b, id) else LastRecord(a, id)
    decreases |b|
  {
    if b == [] {
      assert a + b == a;
    } else {
      assert (a + b)[..|a + b| - 1] == a + b[..|b| - 1];
      LastRecordConcat(a, b[..|b| - 1], id);
    }
  }

  /** The last record of all decisions is the last one of some decision. */
  lemma {:induction false} LastOfSome(ds: seq<Decision>, id: string)
    ensures LastRecord(ColumnsOf(ds), id).None? <==> forall d | d in ds :: LastRecord(d.columns, id).None?
    ensures LastRecord(ColumnsOf(ds), id).Some? ==> exists d | d in ds :: LastRecord(d.columns, id) == LastRecord(ColumnsOf(ds), id)
    decreases |ds|
  {
    if ds != [] {
      var front, d := ds[..|ds| - 1], ds[|ds| - 1];
      LastRecordConcat(ColumnsOf(front), d.columns, id);
      LastOfSome(front, id);
      assert ds == front + [d];
      assert forall e :: e in ds <==> e in front || e == d;
    }
  }

  ghost predicate SameDecisions(a: seq<Decision>, b: seq<Decision>) {
    multiset(a) == multiset(b)
  }

  /** All decisions with a record for the column end in the same one. */
  ghost predicate EndAlike(ds: seq<Decision>, id: string) {
    forall d, e | d in ds && e in ds && LastRecord(d.columns, id).Some? && LastRecord(e.columns, id).Some? ::
      LastRecord(d.columns, id) == LastRecord(e.columns, id)
  }

  /** The decision moved to the end. */
  function LastOf(ds: seq<Decision>, i: nat): seq<Decision>
    requires i < |ds|
  {
    ds[..i] + ds[i + 1..] + [ds[i]]
  }

  lemma LastOfRecord(ds: seq<Decision>, i: nat, id: string)
    requires i < |ds| && LastRecord(ds[i].columns, id).Some?
    ensures SameDecisions(LastOf(ds, i), ds)
    ensures LastRecord(ColumnsOf(LastOf(ds, i)), id) == LastRecord(ds[i].columns, id)
  {
    var rest, all := ds[..i] + ds[i + 1..], LastOf(ds, i);
    MultisetRemove(ds, i);
    assert all[..|all| - 1] == rest;
    LastRecordConcat(ColumnsOf(rest), ds[i].columns, id);
  }

  /** The order of the decisions is irrelevant for the columns exactly if, for every column that is
      looked up, all decisions with a record for it end in the same one. */
  lemma RecordsOrderExact(names: seq<string>, ds: seq<Decision>)
    ensures (forall other | SameDecisions(other, ds) :: Records(names, other) == Records(names, ds))
      <==> forall id | id in names :: EndAlike(ds, id)
  {
    hide LastRecord, ColumnsOf;
    if forall id | id in names :: EndAlike(ds, id) {
      forall other | SameDecisions(other, ds)
        ensures Records(names, other) == Records(names, ds)
      {
        forall k | 0 <= k < |names|
          ensures Records(names, other)[k] == Records(names, ds)[k]
        {
          EndsAlike(other, ds, names[k]);
        }
      }
    }
    if forall other | SameDecisions(other, ds) :: Records(names, other) == Records(names, ds) {
      forall k | 0 <= k < |names|
        ensures EndAlike(ds, names[k])
      {
        forall d, e | d in ds && e in ds && LastRecord(d.columns, names[k]).Some? && LastRecord(e.columns, names[k]).Some?
          ensures LastRecord(d.columns, names[k]) == LastRecord(e.columns, names[k])
        {
          EndsInRecord(names, ds, k, d);
          EndsInRecord(names, ds, k, e);
        }
      }
    }
  }

  lemma EndsAlike(other: seq<Decision>, ds: seq<Decision>, id: string)
    requires SameDecisions(other, ds) && EndAlike(ds, id)
    ensures LastRecord(ColumnsOf(other), id) == LastRecord(ColumnsOf(ds), id)
  {
    hide LastRecord, ColumnsOf;
    assert forall d :: d in other <==> d in multiset(other);
    assert forall d :: d in ds <==> d in multiset(ds);
    LastOfSome(other, id);
    LastOfSome(ds, id);
  }

  lemma EndsInRecord(names: seq<string>, ds: seq<Decision>, k: nat, d: Decision)
    requires forall other | SameDecisions(other, ds) :: Records(names, other) == Records(names, ds)
    requires k < |names| && d in ds && LastRecord(d.columns, names[k]).Some?
    ensures LastRecord(d.columns, names[k]) == Records(names, ds)[k]
  {
    hide LastRecord, ColumnsOf;
    var i: nat :| i < |ds| && ds[i] == d;
    LastOfRecord(ds, i, names[k]);
    assert Records(names, LastOf(ds, i))[k] == LastRecord(ColumnsOf(LastOf(ds, i)), names[k]);
  }

  /** So the composed columns are those of every other order exactly if all decisions with a record for a
      column that the conjunction names end in the same one. */
  lemma ComposedColumnsOrder(ds: seq<Decision>, found: seq<Column>)
    requires ds != [] && IsLookup(found, Conjunction(ds), ColumnsOf(ds))
    ensures (forall other | SameDecisions(other, ds) && other != [] :: IsLookup(found, Conjunction(other), ColumnsOf(other)))
      <==> forall id | Mentions(Conjunction(ds), id) :: EndAlike(ds, id)
  {
    hide IsLookup, ColumnsOf, Conjunction, Mentions, EndAlike;
    var names := ReferencedColumns(Conjunction(ds));
    LookupIsRecords(ds, found);
    RecordsOrderExact(names, ds);
    ReferencedColumnsExact(Conjunction(ds));
    forall other | SameDecisions(other, ds)
      ensures other != []
      ensures IsLookup(found, Conjunction(other), ColumnsOf(other)) <==> Records(names, other) == Records(names, ds)
    {
      SameLength(ds, other);
      OrderIrrelevant(ds, other);
      LookupIsRecords(other, found);
    }
  }

  /** It matters for two decisions that name a column differently: the last one's record is returned. */
  lemma RecordsDependOnOrder(x: Decision, y: Decision, id: string)
    requires LastRecord(x.columns, id).Some? && LastRecord(y.columns, id).Some?
    ensures Records([id], [x, y]) == [LastRecord(y.columns, id)] && Records([id], [y, x]) == [LastRecord(x.columns, id)]
  {
    assert LastOf([x, y], 1) == [x, y] && LastOf([y, x], 1) == [y, x];
    LastOfRecord([x, y], 1, id);
    LastOfRecord([y, x], 1, id);
  }
}
