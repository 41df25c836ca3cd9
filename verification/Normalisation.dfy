/** `normalise`, and the proof that its results are canonical: two predicates have the same normal
    form exactly when they have the same shape, a tree in which groups are multisets without directly
    nested groups of their own kind and IN lists are sets. */
module Normalisation {
  import opened Wrappers
  import opened Ordering
  import opened Predicates

  // ----- The two orders that `normalise` sorts by -----

  predicate TermLeq(a: Predicate, b: Predicate) {
    !Less(Json(b), Json(a))
  }

  /** `null` first, then the strings in order. */
  predicate ValueLeq(a: Option<string>, b: Option<string>) {
    a == b || a.None? || (b.Some? && Less(a.value, b.value))
  }

  lemma TermOrder()
    ensures TotalOrder(TermLeq)
  {
    forall x, y
      ensures TermLeq(x, y) || TermLeq(y, x)
      ensures TermLeq(x, y) && TermLeq(y, x) ==> x == y
    {
      LessConnected(Json(x), Json(y));
      if Less(Json(x), Json(y)) && Less(Json(y), Json(x)) {
        LessTransitive(Json(x), Json(y), Json(x));
        LessIrreflexive(Json(x));
      }
      if Json(x) == Json(y) {
        JsonInjective(x, y);
      }
    }
    forall x, y, z | TermLeq(x, y) && TermLeq(y, z)
      ensures TermLeq(x, z)
    {
      var a, b, c := Json(x), Json(y), Json(z);
      if Less(c, a) {
        LessConnected(a, b);
        if Less(a, b) {
          LessTransitive(c, a, b);
        }
      }
    }
  }

  lemma ValueOrder()
    ensures TotalOrder(ValueLeq)
  {
    forall x, y
      ensures ValueLeq(x, y) || ValueLeq(y, x)
      ensures ValueLeq(x, y) && ValueLeq(y, x) ==> x == y
    {
      if x.Some? && y.Some? {
        LessConnected(x.value, y.value);
        if Less(x.value, y.value) && Less(y.value, x.value) {
          LessTransitive(x.value, y.value, x.value);
          LessIrreflexive(x.value);
        }
      }
    }
    forall x, y, z | ValueLeq(x, y) && ValueLeq(y, z)
      ensures ValueLeq(x, z)
    {
      if x.Some? && y.Some? && z.Some? && x != y && y != z {
        LessTransitive(x.value, y.value, z.value);
      }
    }
  }

  // ----- normalise -----

  /** `[...new Set(values)]`: the first occurrence of each value. */
  function Distinct<T(==, !new)>(vs: seq<T>): (r: seq<T>)
    ensures forall v :: v in r <==> v in vs
    ensures forall i, j | 0 <= i < j < |r| :: r[i] != r[j]
  {
    if vs == [] then []
    else
      var init := Distinct(vs[..|vs| - 1]);
      var last := vs[|vs| - 1];
      assert vs == vs[..|vs| - 1] + [last];
      if last in init then init else init + [last]
  }

  /** The terms a normalised term contributes to a group of the given kind. */
  function Spliced(kind: GroupKind, t: Predicate): seq<Predicate> {
    if t.Group? && t.kind == kind then t.terms else [t]
  }

  /** `terms.map(normalise).flatMap(...)` */
  function Flattened(kind: GroupKind, terms: seq<Predicate>): seq<Predicate>
    decreases terms, 0
  {
    if terms == [] then [] else Spliced(kind, Normalise(terms[0])) + Flattened(kind, terms[1..])
  }

  function Normalise(p: Predicate): Predicate
    decreases p, 1
  {
    match p
    case Group(kind, terms) => Group(kind, Sort(TermLeq, Flattened(kind, terms)))
    case Not(term) => Not(Normalise(term))
    case In(column, values) => In(column, Sort(ValueLeq, Distinct(values)))
    case _ => p
  }

  /** What `predicateHash` digests. */
  function HashInput(p: Predicate): string {
    Json(Normalise(p))
  }

  // ----- Shapes: predicates up to order, nesting and repetition -----

  datatype Shape =
    | Bag(kind: GroupKind, parts: multiset<Shape>)
    | Negation(inner: Shape)
    | Membership(column: string, values: set<Option<string>>)
    | Test(test: Predicate)

  /** What a term of a group adds to the group's bag. */
  ghost function Parts(kind: GroupKind, s: Shape): multiset<Shape> {
    if s.Bag? && s.kind == kind then s.parts else multiset{s}
  }

  ghost function BagOf(kind: GroupKind, terms: seq<Predicate>): multiset<Shape>
    decreases terms, 0
  {
    if terms == [] then multiset{} else Parts(kind, ShapeOf(terms[0])) + BagOf(kind, terms[1..])
  }

  ghost function ShapeOf(p: Predicate): Shape
    decreases p, 1
  {
    match p
    case Group(kind, terms) => Bag(kind, BagOf(kind, terms))
    case Not(term) => Negation(ShapeOf(term))
    case In(column, values) => Membership(column, set v | v in values)
    case _ => Test(p)
  }

  lemma {:induction false} BagConcat(kind: GroupKind, a: seq<Predicate>, b: seq<Predicate>)
    ensures BagOf(kind, a + b) == BagOf(kind, a) + BagOf(kind, b)
    decreases |a|
  {
    if a == [] {
      assert a + b == b;
    } else {
      assert (a + b)[0] == a[0] && (a + b)[1..] == a[1..] + b;
      BagConcat(kind, a[1..], b);
    }
  }

  lemma BagRemove(kind: GroupKind, b: seq<Predicate>, j: nat)
    requires j < |b|
    ensures BagOf(kind, b) == Parts(kind, ShapeOf(b[j])) + BagOf(kind, b[..j] + b[j + 1..])
  {
    assert b == b[..j] + ([b[j]] + b[j + 1..]);
    BagConcat(kind, b[..j], [b[j]] + b[j + 1..]);
    BagConcat(kind, [b[j]], b[j + 1..]);
    BagConcat(kind, b[..j], b[j + 1..]);
    assert BagOf(kind, [b[j]]) == Parts(kind, ShapeOf(b[j]));
  }

  lemma {:induction false} BagPermutation(kind: GroupKind, a: seq<Predicate>, b: seq<Predicate>)
    requires multiset(a) == multiset(b)
    ensures BagOf(kind, a) == BagOf(kind, b)
    decreases |a|
  {
    hide BagOf;
    SameLength(a, b);
    if a == [] {
      assert b == [];
    } else {
      var j :| 0 <= j < |b| && b[j] == a[0];
      RemoveBoth(a, 0, b, j);
      BagPermutation(kind, a[..0] + a[1..], b[..j] + b[j + 1..]);
      BagRemove(kind, a, 0);
      BagRemove(kind, b, j);
    }
  }

  // ----- Normal forms -----

  ghost predicate NormalTerms(kind: GroupKind, terms: seq<Predicate>)
    decreases terms, 0
  {
    forall t | t in terms :: IsNormal(t) && !(t.Group? && t.kind == kind)
  }

  ghost predicate IsNormal(p: Predicate)
    decreases p, 1
  {
    match p
    case Group(kind, terms) => NormalTerms(kind, terms) && Sorted(TermLeq, terms)
    case Not(term) => IsNormal(term)
    case In(_, values) => Sorted(ValueLeq, values) && forall i, j | 0 <= i < j < |values| :: values[i] != values[j]
    case _ => true
  }

  lemma {:induction false} FlattenedNormal(kind: GroupKind, terms: seq<Predicate>)
    ensures NormalTerms(kind, Flattened(kind, terms))
    ensures BagOf(kind, Flattened(kind, terms)) == BagOf(kind, terms)
    decreases terms, 0
  {
    if terms != [] {
      var n := Normalise(terms[0]);
      NormaliseNormal(terms[0]);
      FlattenedNormal(kind, terms[1..]);
      BagConcat(kind, Spliced(kind, n), Flattened(kind, terms[1..]));
      if !(n.Group? && n.kind == kind) {
        assert BagOf(kind, [n]) == Parts(kind, ShapeOf(n));
      }
    }
  }

  /** Normalising gives a normal form of the same shape. */
  lemma {:induction false} NormaliseNormal(p: Predicate)
    ensures IsNormal(Normalise(p))
    ensures ShapeOf(Normalise(p)) == ShapeOf(p)
    decreases p, 1
  {
    match p
    case Group(kind, terms) =>
      var flat := Flattened(kind, terms);
      FlattenedNormal(kind, terms);
      TermOrder();
      SortSorts(TermLeq, flat);
      assert forall t :: t in multiset(Sort(TermLeq, flat)) <==> t in flat;
      BagPermutation(kind, Sort(TermLeq, flat), flat);
    case Not(term) =>
      NormaliseNormal(term);
    case In(_, values) =>
      DistinctSorted(values);
    case _ =>
  }

  lemma DistinctSorted(values: seq<Option<string>>)
    ensures var r := Sort(ValueLeq, Distinct(values));
      && Sorted(ValueLeq, r)
      && (forall i, j | 0 <= i < j < |r| :: r[i] != r[j])
      && (forall v :: v in r <==> v in values)
      && (set v | v in r) == (set v | v in values)
  {
    var d := Distinct(values);
    var r := Sort(ValueLeq, d);
    ValueOrder();
    SortSorts(ValueLeq, d);
    assert forall v :: v in multiset(r) <==> v in multiset(d);
    NoRepeats(d);
    NoRepeatsBack(r);
  }

  lemma {:induction false} NoRepeats<T>(s: seq<T>)
    requires forall i, j | 0 <= i < j < |s| :: s[i] != s[j]
    ensures forall x :: multiset(s)[x] == if x in s then 1 else 0
  {
    if s != [] {
      NoRepeats(s[1..]);
      assert s == [s[0]] + s[1..];
    }
  }

  lemma NoRepeatsBack<T>(s: seq<T>)
    requires forall x | x in s :: multiset(s)[x] == 1
    ensures forall i, j | 0 <= i < j < |s| :: s[i] != s[j]
  {
    forall i, j | 0 <= i < j < |s| ensures s[i] != s[j] {
      MultisetRemove(s, i);
      var rest := s[..i] + s[i + 1..];
      assert rest[j - 1] == s[j];
      assert s[j] in multiset(rest);
      assert s[i] in s;
    }
  }

  lemma SameElements<T>(a: seq<T>, b: seq<T>)
    requires forall i, j | 0 <= i < j < |a| :: a[i] != a[j]
    requires forall i, j | 0 <= i < j < |b| :: b[i] != b[j]
    requires (set v | v in a) == (set v | v in b)
    ensures multiset(a) == multiset(b)
  {
    NoRepeats(a);
    NoRepeats(b);
    var c, d := set v | v in a, set v | v in b;
    forall v
      ensures multiset(a)[v] == multiset(b)[v]
    {
      assert v in c <==> v in d;
      assert v in a <==> v in b;
      assert multiset(a)[v] == if v in a then 1 else 0;
      assert multiset(b)[v] == if v in b then 1 else 0;
    }
  }

  // ----- A normal form is determined by its shape -----

  lemma {:induction false} NormalUnique(p: Predicate, q: Predicate)
    requires IsNormal(p) && IsNormal(q) && ShapeOf(p) == ShapeOf(q)
    ensures p == q
    decreases p, 1
  {
    match p
    case Group(kind, terms) =>
      assert q.Group? && q.kind == kind;
      NormalTermsUnique(kind, terms, q.terms);
      TermOrder();
      SortedUnique(TermLeq, terms, q.terms);
    case Not(term) =>
      NormalUnique(term, q.term);
    case In(_, values) =>
      SameElements(values, q.values);
      ValueOrder();
      SortedUnique(ValueLeq, values, q.values);
    case _ =>
  }

  lemma NormalTermShape(kind: GroupKind, terms: seq<Predicate>)
    requires NormalTerms(kind, terms) && terms != []
    ensures !ShapeOf(terms[0]).Bag? || ShapeOf(terms[0]).kind != kind
  {
    assert terms[0] in terms;
  }

  lemma {:induction false} BagWitness(kind: GroupKind, terms: seq<Predicate>, s: Shape) returns (j: nat)
    requires NormalTerms(kind, terms) && s in BagOf(kind, terms)
    ensures j < |terms| && ShapeOf(terms[j]) == s
    decreases |terms|
  {
    hide ShapeOf, IsNormal;
    if ShapeOf(terms[0]) == s {
      j := 0;
    } else {
      assert NormalTerms(kind, terms[1..]);
      assert !ShapeOf(terms[0]).Bag? || ShapeOf(terms[0]).kind != kind by {
        NormalTermShape(kind, terms);
      }
      var k := BagWitness(kind, terms[1..], s);
      j := k + 1;
    }
  }

  lemma {:induction false} NormalTermsUnique(kind: GroupKind, a: seq<Predicate>, b: seq<Predicate>)
    requires NormalTerms(kind, a) && NormalTerms(kind, b)
    requires BagOf(kind, a) == BagOf(kind, b)
    ensures multiset(a) == multiset(b)
    decreases a, 0
  {
    hide BagOf, ShapeOf, Parts, NormalTerms, IsNormal;
    BagEmpty(kind);
    if a == [] {
      if b != [] {
        BagHead(kind, b);
      }
    } else {
      var s := ShapeOf(a[0]);
      BagHead(kind, a);
      var j := BagWitness(kind, b, s);
      NormalAt(kind, b, j);
      NormalUnique(a[0], b[j]);
      var rest := b[..j] + b[j + 1..];
      BagDrop(kind, b, j);
      BagCancel(s, BagOf(kind, a[1..]), BagOf(kind, rest));
      NormalTermsUnique(kind, a[1..], rest);
      MultisetRemove(b, j);
      assert a == [a[0]] + a[1..];
    }
  }

  lemma NormalAt(kind: GroupKind, b: seq<Predicate>, j: nat)
    requires NormalTerms(kind, b) && j < |b|
    ensures IsNormal(b[j])
  {
    assert b[j] in b;
  }

  lemma BagDrop(kind: GroupKind, b: seq<Predicate>, j: nat)
    requires NormalTerms(kind, b) && j < |b|
    ensures var rest := b[..j] + b[j + 1..];
      NormalTerms(kind, rest) && BagOf(kind, b) == multiset{ShapeOf(b[j])} + BagOf(kind, rest)
  {
    BagRemove(kind, b, j);
    assert b[j] in b;
    var rest := b[..j] + b[j + 1..];
    assert forall t | t in rest :: t in b;
  }

  lemma BagEmpty(kind: GroupKind)
    ensures BagOf(kind, []) == multiset{}
  {
  }

  lemma BagHead(kind: GroupKind, a: seq<Predicate>)
    requires NormalTerms(kind, a) && a != []
    ensures ShapeOf(a[0]) in BagOf(kind, a)
    ensures Parts(kind, ShapeOf(a[0])) == multiset{ShapeOf(a[0])}
    ensures BagOf(kind, a) == multiset{ShapeOf(a[0])} + BagOf(kind, a[1..])
    ensures NormalTerms(kind, a[1..]) && IsNormal(a[0])
  {
    assert a[0] in a;
  }

  lemma BagCancel(s: Shape, a: multiset<Shape>, b: multiset<Shape>)
    requires multiset{s} + a == multiset{s} + b
    ensures a == b
  {
    assert a == (multiset{s} + a) - multiset{s};
    assert b == (multiset{s} + b) - multiset{s};
  }

  // ----- Main results -----

  /** Normalisation is a canonical form: equal normal forms are exactly equal shapes. */
  lemma NormaliseCanonical(p: Predicate, q: Predicate)
    ensures Normalise(p) == Normalise(q) <==> ShapeOf(p) == ShapeOf(q)
  {
    NormaliseNormal(p);
    NormaliseNormal(q);
    if ShapeOf(p) == ShapeOf(q) {
      NormalUnique(Normalise(p), Normalise(q));
    }
  }

  /** The digested text agrees exactly when the shapes do. */
  lemma HashInputCanonical(p: Predicate, q: Predicate)
    ensures HashInput(p) == HashInput(q) <==> ShapeOf(p) == ShapeOf(q)
  {
    NormaliseCanonical(p, q);
    if HashInput(p) == HashInput(q) {
      JsonInjective(Normalise(p), Normalise(q));
    }
  }

  lemma NormaliseIdempotent(p: Predicate)
    ensures Normalise(Normalise(p)) == Normalise(p)
  {
    NormaliseNormal(p);
    NormaliseCanonical(Normalise(p), p);
  }

  /** Reordering the terms of a group. */
  lemma NormaliseReordered(kind: GroupKind, a: seq<Predicate>, b: seq<Predicate>)
    requires multiset(a) == multiset(b)
    ensures Normalise(Group(kind, a)) == Normalise(Group(kind, b))
  {
    BagPermutation(kind, a, b);
    NormaliseCanonical(Group(kind, a), Group(kind, b));
  }

  /** Dissolving a group nested in a group of its own kind. */
  lemma NormaliseRenested(kind: GroupKind, before: seq<Predicate>, inner: seq<Predicate>, after: seq<Predicate>)
    ensures Normalise(Group(kind, before + [Group(kind, inner)] + after)) == Normalise(Group(kind, before + inner + after))
  {
    var g := [Group(kind, inner)];
    BagConcat(kind, before + g, after);
    BagConcat(kind, before, g);
    BagConcat(kind, before + inner, after);
    BagConcat(kind, before, inner);
    assert BagOf(kind, g) == BagOf(kind, inner);
    NormaliseCanonical(Group(kind, before + g + after), Group(kind, before + inner + after));
  }

  /** IN lists count as sets. */
  lemma NormaliseValues(column: string, a: seq<Option<string>>, b: seq<Option<string>>)
    ensures Normalise(In(column, a)) == Normalise(In(column, b)) <==> (forall v :: v in a <==> v in b)
  {
    NormaliseCanonical(In(column, a), In(column, b));
    var c, d := set v | v in a, set v | v in b;
    assert ShapeOf(In(column, a)) == Membership(column, c) && ShapeOf(In(column, b)) == Membership(column, d);
    if c == d {
      forall v ensures v in a <==> v in b {
        assert v in c <==> v in d;
      }
    }
  }

  /** Equal parts may be exchanged anywhere: in a group, and under a negation. */
  lemma NormaliseCongruent(kind: GroupKind, before: seq<Predicate>, p: Predicate, q: Predicate, after: seq<Predicate>)
    requires Normalise(p) == Normalise(q)
    ensures Normalise(Group(kind, before + [p] + after)) == Normalise(Group(kind, before + [q] + after))
    ensures Normalise(Not(p)) == Normalise(Not(q))
  {
    NormaliseCanonical(p, q);
    BagConcat(kind, before + [p], after);
    BagConcat(kind, before, [p]);
    BagConcat(kind, before + [q], after);
    BagConcat(kind, before, [q]);
    assert BagOf(kind, [p]) == BagOf(kind, [q]);
    NormaliseCanonical(Group(kind, before + [p] + after), Group(kind, before + [q] + after));
  }
}
