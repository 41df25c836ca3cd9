/** `columnNames`: a distinct name for every column, where a header that is given keeps its text. */
module ColumnNames {
  import opened Wrappers
  import opened Calendar

  predicate Given(header: Option<string>) {
    header.Some? && header.value != ""
  }

  function BaseName(header: Option<string>, index: nat): string {
    if Given(header) then header.value else "column_" + Decimal(index + 1)
  }

  /** The names tried in turn for a column. */
  function Candidate(base: string, n: nat): string {
    if n <= 1 then base else base + "_" + Decimal(n)
  }

  lemma CandidatesDiffer(base: string, m: nat, n: nat)
    requires 1 <= m && 1 <= n && Candidate(base, m) == Candidate(base, n)
    ensures m == n
  {
    hide Decimal;
    var c := Candidate(base, m);
    if m > 1 && n > 1 {
      assert c[|base| + 1..] == Decimal(m) && c[|base| + 1..] == Decimal(n);
      DecimalValue(m);
      DecimalValue(n);
    } else {
      assert m > 1 ==> |Candidate(base, m)| > |base|;
      assert n > 1 ==> |Candidate(base, n)| > |base|;
    }
  }

  /** Some column has this text as its header. */
  ghost predicate IsHeader(headers: seq<Option<string>>, s: string) {
    exists i :: 0 <= i < |headers| && headers[i] == Some(s) && s != ""
  }

  /** A candidate is taken by an earlier column or by a header, unless it is the column's own header. */
  ghost predicate Taken(headers: seq<Option<string>>, names: seq<string>, index: nat, n: nat)
    requires index < |headers|
  {
    var c := Candidate(BaseName(headers[index], index), n);
    c in names || (IsHeader(headers, c) && !(n == 1 && Given(headers[index])))
  }

  /** The first candidate that is not taken. */
  ghost predicate IsNameAt(headers: seq<Option<string>>, names: seq<string>, index: nat, name: string)
    requires index < |headers|
  {
    exists n :: IsFirst(headers, names, index, name, n)
  }

  ghost predicate IsFirst(headers: seq<Option<string>>, names: seq<string>, index: nat, name: string, n: nat)
    requires index < |headers|
  {
    && n >= 1 && name == Candidate(BaseName(headers[index], index), n)
    && !Taken(headers, names, index, n) && forall m | 1 <= m < n :: Taken(headers, names, index, m)
  }

  ghost predicate IsNames(headers: seq<Option<string>>, names: seq<string>) {
    |names| <= |headers| && forall i | 0 <= i < |names| :: IsNameAt(headers, names[..i], i, names[i])
  }

  // ----- What such names promise -----

  /** A name that is some column's header stands at a column with this header. */
  lemma HeaderNotDisplaced(headers: seq<Option<string>>, names: seq<string>, i: nat)
    requires IsNames(headers, names) && i < |names|
    ensures IsHeader(headers, names[i]) ==> headers[i] == Some(names[i])
  {
    assert IsNameAt(headers, names[..i], i, names[i]);
    var n :| IsFirst(headers, names[..i], i, names[i], n);
  }

  /** The names are distinct; the first column with a header keeps it; and no other name is a header. */
  lemma NamesDistinct(headers: seq<Option<string>>, names: seq<string>)
    requires IsNames(headers, names) && |names| == |headers|
    ensures forall i, j | 0 <= i < j < |names| :: names[i] != names[j]
    ensures forall i | 0 <= i < |names| && Given(headers[i]) && headers[i] !in headers[..i] :: names[i] == headers[i].value
    ensures forall i | 0 <= i < |names| && IsHeader(headers, names[i]) :: headers[i] == Some(names[i])
  {
    forall i, j | 0 <= i < j < |names|
      ensures names[i] != names[j]
    {
      assert IsNameAt(headers, names[..j], j, names[j]);
      var n :| IsFirst(headers, names[..j], j, names[j], n);
      assert names[..j][i] == names[i];
    }
    forall i | 0 <= i < |names| && IsHeader(headers, names[i])
      ensures headers[i] == Some(names[i])
    {
      HeaderNotDisplaced(headers, names, i);
    }
    forall i | 0 <= i < |names| && Given(headers[i]) && headers[i] !in headers[..i]
      ensures names[i] == headers[i].value
    {
      FirstKept(headers, names, i);
    }
  }

  lemma FirstKept(headers: seq<Option<string>>, names: seq<string>, i: nat)
    requires IsNames(headers, names) && i < |names| && Given(headers[i]) && headers[i] !in headers[..i]
    ensures names[i] == headers[i].value
  {
    var h := headers[i].value;
    assert IsHeader(headers, h);
    forall j | 0 <= j < i
      ensures names[j] != h
    {
      assert headers[..i][j] == headers[j];
      HeaderNotDisplaced(headers, names, j);
    }
    assert IsNameAt(headers, names[..i], i, names[i]);
    var n :| IsFirst(headers, names[..i], i, names[i], n);
    assert !Taken(headers, names[..i], i, 1);
  }

  // ----- The operation -----

  ghost function Tried(base: string, n: nat): (r: set<string>)
    ensures forall m | 1 <= m < n :: Candidate(base, m) in r
    ensures forall c | c in r :: exists m :: 1 <= m < n && c == Candidate(base, m)
  {
    if n <= 1 then {} else Tried(base, n - 1) + {Candidate(base, n - 1)}
  }

  lemma {:induction false} TriedCount(base: string, n: nat)
    requires n >= 1
    ensures |Tried(base, n)| == n - 1
  {
    if n > 1 {
      TriedCount(base, n - 1);
      if Candidate(base, n - 1) in Tried(base, n - 1) {
        var m :| 1 <= m < n - 1 && Candidate(base, n - 1) == Candidate(base, m);
        CandidatesDiffer(base, m, n - 1);
        assert false;
      }
    }
  }

  lemma {:induction false} Subset(a: set<string>, b: set<string>)
    requires a <= b
    ensures |a| <= |b|
    decreases |a|
  {
    if a != {} {
      var x :| x in a;
      Subset(a - {x}, b - {x});
    }
  }

  /** Every candidate tried is one of finitely many taken names. */
  lemma TriedBound(base: string, n: nat, taken: set<string>)
    requires n >= 1 && forall m | 1 <= m < n :: Candidate(base, m) in taken
    ensures n - 1 <= |taken|
  {
    TriedCount(base, n);
    Subset(Tried(base, n), taken);
  }

  method Names(headers: seq<Option<string>>) returns (names: seq<string>)
    ensures |names| == |headers| && IsNames(headers, names)
  {
    hide Candidate, BaseName, Taken, IsFirst;
    var reserved := set h | h in headers && Given(h) :: h.value;
    ReservedAreHeaders(headers, reserved);
    var used: set<string> := {};
    names := [];
    for index := 0 to |headers|
      invariant |names| == index && IsNames(headers, names)
      invariant forall s :: s in used <==> s in names
    {
      var given, base := Given(headers[index]), BaseName(headers[index], index);
      var candidate, n := base, 1;
      assert candidate == Candidate(base, n) by {
        First(base);
      }
      while candidate in used || (!given && candidate in reserved) || (n > 1 && candidate in reserved)
        invariant n >= 1 && candidate == Candidate(base, n)
        invariant forall m | 1 <= m < n :: Taken(headers, names, index, m) && Candidate(base, m) in used + reserved
        decreases |used + reserved| + 1 - n
      {
        assert Taken(headers, names, index, n) by {
          TakenHere(headers, names, index, n, candidate);
        }
        TriedBound(base, n + 1, used + reserved);
        n := n + 1;
        candidate := Candidate(base, n);
      }
      assert !Taken(headers, names, index, n) by {
        TakenHere(headers, names, index, n, candidate);
      }
      NameAt(headers, names, index, candidate, n);
      used := used + {candidate};
      NamesMore(headers, names, candidate);
      names := names + [candidate];
    }
  }

  lemma First(base: string)
    ensures Candidate(base, 1) == base
  {
  }

  lemma ReservedAreHeaders(headers: seq<Option<string>>, reserved: set<string>)
    requires reserved == set h | h in headers && Given(h) :: h.value
    ensures forall s :: s in reserved <==> IsHeader(headers, s)
  {
    forall s
      ensures s in reserved <==> IsHeader(headers, s)
    {
      if IsHeader(headers, s) {
        var i :| 0 <= i < |headers| && headers[i] == Some(s) && s != "";
        assert headers[i] in headers && Given(headers[i]);
      }
    }
  }

  lemma TakenHere(headers: seq<Option<string>>, names: seq<string>, index: nat, n: nat, c: string)
    requires index < |headers| && n >= 1 && c == Candidate(BaseName(headers[index], index), n)
    ensures Taken(headers, names, index, n)
      <==> c in names || (!Given(headers[index]) && IsHeader(headers, c)) || (n > 1 && IsHeader(headers, c))
  {
  }

  lemma NameAt(headers: seq<Option<string>>, names: seq<string>, index: nat, name: string, n: nat)
    requires index < |headers| && n >= 1 && name == Candidate(BaseName(headers[index], index), n)
    requires !Taken(headers, names, index, n) && forall m | 1 <= m < n :: Taken(headers, names, index, m)
    ensures IsNameAt(headers, names, index, name)
  {
    assert IsFirst(headers, names, index, name, n);
  }

  lemma NamesMore(headers: seq<Option<string>>, names: seq<string>, name: string)
    requires IsNames(headers, names) && |names| < |headers| && IsNameAt(headers, names, |names|, name)
    ensures IsNames(headers, names + [name])
  {
    var more := names + [name];
    forall i | 0 <= i < |more|
      ensures IsNameAt(headers, more[..i], i, more[i])
    {
      if i < |names| {
        assert more[..i] == names[..i];
      } else {
        assert more[..i] == names;
      }
    }
  }

  /** A name is the header, or `column_` and the number of the column where there is none, and perhaps an
      underscore and a number from two on. */
  lemma NameShape(headers: seq<Option<string>>, names: seq<string>, i: nat)
    requires IsNames(headers, names) && i < |names|
    ensures exists base, n: nat ::
      && (if headers[i].Some? && headers[i].value != "" then base == headers[i].value else base == "column_" + Decimal(i + 1))
      && (names[i] == base || (n >= 2 && names[i] == base + "_" + Decimal(n)))
  {
    hide Decimal;
    assert IsNameAt(headers, names[..i], i, names[i]);
    var n :| IsFirst(headers, names[..i], i, names[i], n);
    var base := BaseName(headers[i], i);
    assert names[i] == base || (n >= 2 && names[i] == base + "_" + Decimal(n));
  }
}
