/** The sweep of `flattened`, as the source runs it, refines the plain reading of merged cells. */
module Sweep {
  import opened Wrappers
  import opened Ordering
  import opened Flattening

  /** A merged range that reaches the current row or one below it, with its value. */
  datatype Active = Active(merge: Merge, value: Cell)

  // ----- The active ranges as a function of the row -----

  /** Those of the ranges that reach the row or a later one, in order. */
  function Live(rows: seq<Row>, ms: seq<Merge>, number: nat): (r: seq<Active>)
    requires MergesOk(ms)
    ensures forall a | a in r :: a.merge in ms && a.merge.lastRow >= number && MergeOk(a.merge) && a.value == Anchor(rows, a.merge)
    ensures forall m | m in ms && m.lastRow >= number :: Active(m, Anchor(rows, m)) in r
  {
    if ms == [] then []
    else
      var m := ms[|ms| - 1];
      assert m in ms && ms == ms[..|ms| - 1] + [m];
      Live(rows, ms[..|ms| - 1], number) + if m.lastRow >= number then [Active(m, Anchor(rows, m))] else []
  }

  /** What is left of the active ranges after a row. */
  function Kept(active: seq<Active>, number: nat): seq<Active> {
    if active == [] then []
    else (if active[0].merge.lastRow == number then [] else [active[0]]) + Kept(active[1..], number)
  }

  lemma {:induction false} KeptConcat(a: seq<Active>, b: seq<Active>, number: nat)
    ensures Kept(a + b, number) == Kept(a, number) + Kept(b, number)
    decreases |a|
  {
    if a == [] {
      assert a + b == b;
    } else {
      assert (a + b)[0] == a[0] && (a + b)[1..] == a[1..] + b;
      KeptConcat(a[1..], b, number);
    }
  }

  lemma {:induction false} KeptLive(rows: seq<Row>, ms: seq<Merge>, number: nat)
    requires MergesOk(ms)
    ensures Kept(Live(rows, ms, number), number) == Live(rows, ms, number + 1)
    decreases |ms|
  {
    if ms != [] {
      var m := ms[|ms| - 1];
      assert m in ms;
      var last := if m.lastRow >= number then [Active(m, Anchor(rows, m))] else [];
      KeptLive(rows, ms[..|ms| - 1], number);
      KeptConcat(Live(rows, ms[..|ms| - 1], number), last, number);
      assert last != [] ==> last[1..] == [];
    }
  }

  function SizeOf(active: seq<Active>): nat {
    if active == [] then 0 else SizeOf(active[..|active| - 1]) + TextSize(active[|active| - 1].value)
  }

  lemma {:induction false} SizeConcat(a: seq<Active>, b: seq<Active>)
    ensures SizeOf(a + b) == SizeOf(a) + SizeOf(b)
    decreases |b|
  {
    if b == [] {
      assert a + b == a;
    } else {
      assert (a + b)[..|a + b| - 1] == a + b[..|b| - 1];
      SizeConcat(a, b[..|b| - 1]);
    }
  }

  lemma SizeRemove(a: seq<Active>, i: nat)
    requires i < |a|
    ensures SizeOf(a[..i] + a[i + 1..]) == SizeOf(a) - TextSize(a[i].value)
  {
    assert a == a[..i] + ([a[i]] + a[i + 1..]);
    assert [a[i]][..0] == [];
    SizeConcat(a[..i], [a[i]] + a[i + 1..]);
    SizeConcat([a[i]], a[i + 1..]);
    SizeConcat(a[..i], a[i + 1..]);
  }

  /** Among ranges that all start by the row, the size of the live ones is that of the ones covering it. */
  lemma {:induction false} SizeLive(rows: seq<Row>, ms: seq<Merge>, number: nat)
    requires MergesOk(ms) && forall m | m in ms :: m.firstRow <= number
    ensures SizeOf(Live(rows, ms, number)) == AnchorSize(rows, ms, number)
    decreases |ms|
  {
    if ms != [] {
      var m := ms[|ms| - 1];
      assert m in ms;
      SizeLive(rows, ms[..|ms| - 1], number);
      assert [Active(m, Anchor(rows, m))][..0] == [];
      SizeConcat(Live(rows, ms[..|ms| - 1], number), [Active(m, Anchor(rows, m))]);
      SizeConcat(Live(rows, ms[..|ms| - 1], number), []);
    }
  }

  /** Ranges that start later contribute nothing. */
  lemma {:induction false} SizeLater(rows: seq<Row>, ms: seq<Merge>, number: nat)
    requires MergesOk(ms) && forall m | m in ms :: m.firstRow > number
    ensures AnchorSize(rows, ms, number) == 0
    decreases |ms|
  {
    if ms != [] {
      assert ms[|ms| - 1] in ms;
      SizeLater(rows, ms[..|ms| - 1], number);
    }
  }

  // ----- Filling one row -----

  predicate Covered(active: seq<Active>, column: nat) {
    exists a | a in active :: CoversColumn(a.merge, column)
  }

  /** No two of the ranges share a column. */
  ghost predicate Apart(active: seq<Active>) {
    forall i, j | 0 <= i < j < |active| :: !ColumnsOverlap(active[i].merge, active[j].merge)
  }

  ghost predicate WidthWith(active: seq<Active>, own: nat, w: nat) {
    && own <= w && (forall a | a in active :: a.merge.lastColumn <= w)
    && (w == own || exists a | a in active :: a.merge.lastColumn == w)
  }

  /** The cells with the columns of the active ranges overwritten by their values. */
  ghost predicate IsFilled(own: seq<Cell>, active: seq<Active>, cells: seq<Cell>) {
    && WidthWith(active, |own|, |cells|)
    && forall i | 0 <= i < |cells| ::
      && (forall a | a in active && CoversColumn(a.merge, i + 1) :: cells[i] == a.value)
      && (!Covered(active, i + 1) ==> cells[i] == CellAt(own, i + 1))
  }

  /** `cells[column - 1] = value`, where a gap before it reads as null. */
  function Assigned(cells: seq<Cell>, column: nat, value: Cell): (r: seq<Cell>)
    requires column >= 1
    ensures |r| == if column > |cells| then column else |cells|
    ensures forall i | 0 <= i < |r| :: r[i] == if i == column - 1 then value else CellAt(cells, i + 1)
  {
    if column <= |cells| then cells[column - 1 := value]
    else cells + seq(column - 1 - |cells|, _ => None) + [value]
  }

  /** The inner loop: one range over its columns. */
  method FillRange(own: seq<Cell>, a: Active) returns (cells: seq<Cell>)
    requires MergeOk(a.merge)
    ensures |cells| == if a.merge.lastColumn > |own| then a.merge.lastColumn else |own|
    ensures forall i | 0 <= i < |cells| :: cells[i] == if CoversColumn(a.merge, i + 1) then a.value else CellAt(own, i + 1)
  {
    cells := own;
    var column := a.merge.firstColumn;
    while column <= a.merge.lastColumn
      invariant a.merge.firstColumn <= column <= a.merge.lastColumn + 1
      invariant |cells| == if column - 1 > |own| && column > a.merge.firstColumn then column - 1 else |own|
      invariant forall i | 0 <= i < |cells| ::
        cells[i] == if a.merge.firstColumn <= i + 1 < column then a.value else CellAt(own, i + 1)
    {
      cells := Assigned(cells, column, a.value);
      column := column + 1;
    }
  }

  lemma FilledMore(own: seq<Cell>, active: seq<Active>, a: Active, before: seq<Cell>, after: seq<Cell>)
    requires IsFilled(own, active, before)
    requires MergeOk(a.merge) && forall b | b in active :: !ColumnsOverlap(a.merge, b.merge)
    requires |after| == if a.merge.lastColumn > |before| then a.merge.lastColumn else |before|
    requires forall i | 0 <= i < |after| :: after[i] == if CoversColumn(a.merge, i + 1) then a.value else CellAt(before, i + 1)
    ensures IsFilled(own, [a] + active, after)
  {
    var more := [a] + active;
    assert forall b :: b in more <==> b == a || b in active;
    forall i | 0 <= i < |after|
      ensures forall b | b in more && CoversColumn(b.merge, i + 1) :: after[i] == b.value
      ensures !Covered(more, i + 1) ==> after[i] == CellAt(own, i + 1)
    {
      if !Covered(more, i + 1) {
        assert a in more;
        assert forall b | b in active :: b in more;
      }
    }
    if |after| != |own| {
      if a.merge.lastColumn == |after| {
        assert a in more;
      } else {
        var b :| b in active && b.merge.lastColumn == |before|;
        assert b in more;
      }
    }
  }

  // ----- What the ranges started by a row say about the sheet -----

  /** The ranges in the order of their first rows, split at the row: the first `n` have started. */
  ghost predicate SplitAt(merges: seq<Merge>, n: nat, number: nat) {
    && n <= |merges| && MergesOk(merges)
    && (forall i | 0 <= i < n :: merges[i].firstRow <= number)
    && (forall i | n <= i < |merges| :: merges[i].firstRow > number)
  }

  lemma {:induction false} TwoIndices(s: seq<Merge>, m: Merge) returns (i: nat, j: nat)
    requires multiset(s)[m] > 1
    ensures i < j < |s| && s[i] == m && s[j] == m
  {
    if s[0] == m {
      assert s == [s[0]] + s[1..];
      assert multiset(s[1..])[m] > 0;
      assert m in s[1..];
      var k :| 0 <= k < |s[1..]| && s[1..][k] == m;
      i, j := 0, k + 1;
    } else {
      assert s == [s[0]] + s[1..];
      i, j := TwoIndices(s[1..], m);
      i, j := i + 1, j + 1;
    }
  }

  lemma TwiceCounted(s: seq<Merge>, i: nat, j: nat)
    requires i < j < |s| && s[i] == s[j]
    ensures multiset(s)[s[i]] > 1
  {
    MultisetRemove(s, i);
    var rest := s[..i] + s[i + 1..];
    assert rest[j - 1] == s[j];
    assert s[j] in multiset(rest);
  }

  /** Where the live range of a started one stands. */
  lemma {:induction false} LiveIndex(rows: seq<Row>, ms: seq<Merge>, number: nat, i: nat) returns (p: nat)
    requires MergesOk(ms) && i < |ms| && ms[i].lastRow >= number
    ensures p < |Live(rows, ms, number)| && Live(rows, ms, number)[p].merge == ms[i]
    ensures p == |Live(rows, ms[..i], number)|
    decreases |ms|
  {
    var front := ms[..|ms| - 1];
    if i == |ms| - 1 {
      p := |Live(rows, front, number)|;
      assert ms[..i] == front;
    } else {
      assert front[..i] == ms[..i];
      p := LiveIndex(rows, front, number, i);
    }
  }

  lemma {:induction false} LiveGrows(rows: seq<Row>, ms: seq<Merge>, number: nat, i: nat, j: nat)
    requires MergesOk(ms) && i < j <= |ms| && ms[i].lastRow >= number
    ensures |Live(rows, ms[..i], number)| < |Live(rows, ms[..j], number)|
    decreases j
  {
    assert ms[..j][..j - 1] == ms[..j - 1];
    assert MergesOk(ms[..j]) && MergesOk(ms[..i]);
    if i < j - 1 {
      LiveGrows(rows, ms, number, i, j - 1);
    }
  }

  /** A clash is one of two places in the list. */
  lemma ClashPlaces(merges: seq<Merge>, number: nat) returns (i: nat, j: nat)
    requires Clash(multiset(merges), number)
    ensures i < j < |merges| && CoversRow(merges[i], number) && CoversRow(merges[j], number)
    ensures ColumnsOverlap(merges[i], merges[j])
  {
    var ms := multiset(merges);
    var a, b :| a in ms && b in ms && CoversRow(a, number) && CoversRow(b, number) && ColumnsOverlap(a, b) && (a != b || ms[a] > 1);
    if a == b {
      i, j := TwoIndices(merges, a);
    } else {
      assert a in merges && b in merges;
      i :| 0 <= i < |merges| && merges[i] == a;
      j :| 0 <= j < |merges| && merges[j] == b;
      if j < i {
        i, j := j, i;
      }
    }
  }

  /** If the live ranges are apart no two ranges that cover the row clash. */
  lemma ApartNoClash(rows: seq<Row>, merges: seq<Merge>, n: nat, number: nat)
    requires SplitAt(merges, n, number) && MergesOk(merges[..n]) && Apart(Live(rows, merges[..n], number))
    ensures !Clash(multiset(merges), number)
  {
    hide Live, AnchorSize, Clash;
    if Clash(multiset(merges), number) {
      var i, j := ClashPlaces(merges, number);
      assert i < n && j < n;
      assert merges[..n][i] == merges[i] && merges[..n][j] == merges[j];
      var p := LiveIndex(rows, merges[..n], number, i);
      var q := LiveIndex(rows, merges[..n], number, j);
      assert merges[..n][..i] == merges[..i] && merges[..n][..j] == merges[..j];
      LiveGrows(rows, merges, number, i, j);
    }
  }

  /** An overlap the sweep finds is a clash of the sheet. */
  lemma OverlapClash(rows: seq<Row>, merges: seq<Merge>, n: nat, number: nat, a: Active)
    requires n < |merges| && MergesOk(merges) && MergesOk(merges[..n]) && CoversRow(merges[n], number)
    requires forall i | 0 <= i < n :: merges[i].firstRow <= number
    requires a in Live(rows, merges[..n], number) && ColumnsOverlap(a.merge, merges[n])
    ensures Clash(multiset(merges), number)
  {
    assert a.merge in merges[..n];
    var i :| 0 <= i < n && merges[..n][i] == a.merge;
    assert merges[i] == a.merge;
    if a.merge == merges[n] {
      TwiceCounted(merges, i, n);
    }
    assert merges[i] in multiset(merges) && merges[n] in multiset(merges);
  }

  lemma StartedSize(rows: seq<Row>, merges: seq<Merge>, n: nat, number: nat)
    requires n <= |merges| && MergesOk(merges) && forall i | 0 <= i < n :: merges[i].firstRow <= number
    ensures MergesOk(merges[..n])
    ensures SizeOf(Live(rows, merges[..n], number)) <= AnchorSize(rows, merges, number)
    ensures SplitAt(merges, n, number) ==> SizeOf(Live(rows, merges[..n], number)) == AnchorSize(rows, merges, number)
  {
    SizeLive(rows, merges[..n], number);
    assert merges == merges[..n] + merges[n..];
    AnchorSizeSplit(rows, merges[..n], merges[n..], number);
    if SplitAt(merges, n, number) {
      forall m | m in merges[n..]
        ensures m.firstRow > number
      {
        var i :| 0 <= i < |merges[n..]| && merges[n..][i] == m;
        assert merges[n + i] == m;
      }
      SizeLater(rows, merges[n..], number);
    }
  }

  /** The filled row is the row a reader sees. */
  lemma FilledExpanded(rows: seq<Row>, merges: seq<Merge>, n: nat, number: nat, cells: seq<Cell>)
    requires SplitAt(merges, n, number) && MergesOk(merges[..n])
    requires IsFilled(RawCells(rows, number), Live(rows, merges[..n], number), cells)
    ensures IsExpanded(rows, merges, number, cells)
  {
    var own, live := RawCells(rows, number), Live(rows, merges[..n], number);
    forall m | m in merges && CoversRow(m, number)
      ensures Active(m, Anchor(rows, m)) in live
    {
      var i :| 0 <= i < |merges| && merges[i] == m;
      assert merges[..n][i] == m;
    }
    forall a | a in live
      ensures a.merge in merges && CoversRow(a.merge, number) && a.value == Anchor(rows, a.merge)
    {
      assert a.merge in merges[..n];
      var i :| 0 <= i < n && merges[..n][i] == a.merge;
    }
    forall i | 0 <= i < |cells|
      ensures IsExpandedCell(rows, merges, number, i + 1, cells[i])
    {
    }
  }

  lemma ExpandedUnique(rows: seq<Row>, merges: seq<Merge>, number: nat, a: seq<Cell>, b: seq<Cell>)
    requires MergesOk(merges) && IsExpanded(rows, merges, number, a) && IsExpanded(rows, merges, number, b)
    ensures a == b
  {
    forall i | 0 <= i < |a|
      ensures a[i] == b[i]
    {
      assert IsExpandedCell(rows, merges, number, i + 1, a[i]) && IsExpandedCell(rows, merges, number, i + 1, b[i]);
    }
  }

  lemma {:induction false} KeptSubset(active: seq<Active>, number: nat)
    ensures forall a | a in Kept(active, number) :: a in active
  {
    if active != [] {
      KeptSubset(active[1..], number);
    }
  }

  lemma {:induction false} KeptSize(active: seq<Active>, number: nat)
    ensures SizeOf(Kept(active, number)) <= SizeOf(active)
  {
    if active != [] {
      var head, rest := [active[0]], active[1..];
      KeptSize(rest, number);
      assert active == head + rest;
      SizeConcat(head, rest);
      SizeConcat(head, Kept(rest, number));
      SizeConcat([], Kept(rest, number));
    }
  }

  lemma {:induction false} KeptApart(active: seq<Active>, number: nat)
    requires Apart(active)
    ensures Apart(Kept(active, number))
  {
    if active != [] {
      var kept, rest := Kept(active, number), Kept(active[1..], number);
      KeptApart(active[1..], number);
      KeptSubset(active[1..], number);
      if active[0].merge.lastRow == number {
        assert kept == rest;
      } else {
        forall j | 0 < j < |kept|
          ensures !ColumnsOverlap(kept[0].merge, kept[j].merge)
        {
          assert rest[j - 1] in active[1..];
          var k :| 0 <= k < |active[1..]| && active[1..][k] == rest[j - 1];
          assert active[k + 1] == kept[j];
        }
        forall i, j | 0 < i < j < |kept|
          ensures !ColumnsOverlap(kept[i].merge, kept[j].merge)
        {
          assert rest[i - 1] == kept[i] && rest[j - 1] == kept[j];
        }
      }
    }
  }

  /** A range that starts at the row joins the live ones. */
  lemma LiveNext(rows: seq<Row>, merges: seq<Merge>, n: nat, number: nat)
    requires n < |merges| && MergesOk(merges) && MergesOk(merges[..n]) && MergeOk(merges[n]) && merges[n].firstRow == number
    ensures MergesOk(merges[..n + 1])
    ensures Live(rows, merges[..n + 1], number) == Live(rows, merges[..n], number) + [Active(merges[n], Anchor(rows, merges[n]))]
    ensures SizeOf(Live(rows, merges[..n + 1], number))
         == SizeOf(Live(rows, merges[..n], number)) + TextSize(Anchor(rows, merges[n]))
  {
    assert merges[n] in merges;
    assert merges[..n + 1][..n] == merges[..n];
    var joined := [Active(merges[n], Anchor(rows, merges[n]))];
    assert joined[..0] == [];
    SizeConcat(Live(rows, merges[..n], number), joined);
  }

  /** The loop over the ranges that start at a row has ended. */
  lemma NoneStarts(merges: seq<Merge>, n: nat, number: nat)
    requires n <= |merges| && MergesOk(merges) && Sorted(FirstRowLeq, merges)
    requires forall i | 0 <= i < n :: merges[i].firstRow <= number
    requires forall i | n <= i < |merges| :: merges[i].firstRow >= number
    requires n < |merges| ==> merges[n].firstRow != number
    ensures SplitAt(merges, n, number)
  {
    forall i | n <= i < |merges|
      ensures merges[i].firstRow > number
    {
      assert i > n ==> FirstRowLeq(merges[n], merges[i]);
    }
  }

  lemma ApartMore(active: seq<Active>, a: Active)
    requires Apart(active) && forall i | 0 <= i < |active| :: !ColumnsOverlap(active[i].merge, a.merge)
    ensures Apart(active + [a])
  {
  }

  lemma NoneFilled(own: seq<Cell>, all: seq<Active>, number: nat)
    ensures all[..|all|] + Kept(all[|all|..], number) == all && IsFilled(own, all[|all|..], own)
  {
    assert all[|all|..] == [];
  }

  lemma AllFilled(own: seq<Cell>, all: seq<Active>, number: nat, cells: seq<Cell>)
    requires IsFilled(own, all[0..], cells)
    ensures all[..0] + Kept(all[0..], number) == Kept(all, number) && IsFilled(own, all, cells)
  {
    assert all[0..] == all;
  }

  lemma ApartFrom(all: seq<Active>, index: nat)
    requires Apart(all) && index < |all|
    ensures forall b | b in all[index + 1..] :: !ColumnsOverlap(all[index].merge, b.merge)
    ensures all[index..] == [all[index]] + all[index + 1..]
  {
    forall b | b in all[index + 1..]
      ensures !ColumnsOverlap(all[index].merge, b.merge)
    {
      var k :| 0 <= k < |all[index + 1..]| && all[index + 1..][k] == b;
      assert all[index + 1 + k] == b;
    }
  }

  /** The turn of the loop at `index`: the entry there stays or goes, those after it stay. */
  lemma KeptFrom(all: seq<Active>, index: nat, number: nat, active: seq<Active>)
    requires index < |all| && active == all[..index + 1] + Kept(all[index + 1..], number)
    ensures index < |active| && active[index] == all[index]
    ensures all[..index] + Kept(all[index..], number)
         == if all[index].merge.lastRow == number then active[..index] + active[index + 1..] else active
  {
    hide SizeOf, Apart;
    var rest := Kept(all[index + 1..], number);
    assert all[index..][1..] == all[index + 1..];
    assert all[..index + 1] == all[..index] + [all[index]];
    assert active[index + 1..] == rest;
    assert active[..index] == all[..index];
    if all[index].merge.lastRow != number {
      assert Kept(all[index..], number) == [all[index]] + rest;
      assert all[..index] + ([all[index]] + rest) == active;
    } else {
      assert Kept(all[index..], number) == [] + rest;
    }
  }

  // ----- The sweep -----

  class Sweeper {
    ghost const rows: seq<Row>
    const merges: seq<Merge>
    var active: seq<Active>
    var mergeIndex: nat
    var anchorSize: nat

    /** Ready for a row: the ranges that started above it and reach it are active. */
    ghost predicate Before(number: nat)
      reads this
      requires number >= 1
    {
      && MergesOk(merges) && Sorted(FirstRowLeq, merges) && SplitAt(merges, mergeIndex, number - 1)
      && Holds(number)
    }

    /** The active ranges are those started so far that reach the row, and `anchorSize` is their size. */
    ghost predicate Holds(number: nat)
      reads this
      requires MergesOk(merges) && mergeIndex <= |merges|
    {
      && MergesOk(merges[..mergeIndex]) && active == Live(rows, merges[..mergeIndex], number)
      && Apart(active) && anchorSize == SizeOf(active) <= ANCHOR_LIMIT
    }

    constructor (ghost rows: seq<Row>, merges: seq<Merge>)
      requires MergesOk(merges)
      ensures this.rows == rows && this.merges == Sort(FirstRowLeq, merges)
      ensures multiset(this.merges) == multiset(merges) && MergesOk(this.merges) && Before(1)
    {
      this.rows, this.merges := rows, Sort(FirstRowLeq, merges);
      active, mergeIndex, anchorSize := [], 0, 0;
      new;
      SortSorts(FirstRowLeq, merges);
      forall i | 0 <= i < |this.merges|
        ensures MergeOk(this.merges[i])
      {
        assert this.merges[i] in this.merges;
      }
    }

    /** The ranges that start at this row become active; false when they cannot. */
    method Start(number: nat, cells: seq<Cell>) returns (ok: bool)
      requires number >= 1 && Before(number) && cells == RawCells(rows, number)
      modifies `active, `mergeIndex, `anchorSize
      ensures ok ==> mergeIndex <= |merges| && SplitAt(merges, mergeIndex, number) && Holds(number)
      ensures !ok ==> Clash(multiset(merges), number) || AnchorSize(rows, merges, number) > ANCHOR_LIMIT
    {
      hide Live, SizeOf, RawCells, AnchorSize, Apart, Clash, ColumnsOverlap, Sorted, CellAt, TextSize;
      while mergeIndex < |merges| && merges[mergeIndex].firstRow == number
        invariant mergeIndex <= |merges| && Holds(number)
        invariant forall i | 0 <= i < mergeIndex :: merges[i].firstRow <= number
        invariant forall i | mergeIndex <= i < |merges| :: merges[i].firstRow >= number
        decreases |merges| - mergeIndex
      {
        var m := merges[mergeIndex];
        assert m in merges;
        if i :| 0 <= i < |active| && ColumnsOverlap(active[i].merge, m) {
          OverlapClash(rows, merges, mergeIndex, number, active[i]);
          return false;
        }
        var value := CellAt(cells, m.firstColumn);
        LiveNext(rows, merges, mergeIndex, number);
        ApartMore(active, Active(m, value));
        anchorSize := anchorSize + TextSize(value);
        if anchorSize > ANCHOR_LIMIT {
          StartedSize(rows, merges, mergeIndex + 1, number);
          return false;
        }
        active := active + [Active(m, value)];
        mergeIndex := mergeIndex + 1;
      }
      NoneStarts(merges, mergeIndex, number);
      return true;
    }

    /** The loop over the active ranges from the last to the first: overwrites their columns and drops
        those that end here. */
    method Fill(number: nat, own: seq<Cell>) returns (cells: seq<Cell>)
      requires Apart(active) && (forall a | a in active :: MergeOk(a.merge)) && anchorSize == SizeOf(active)
      modifies `active, `anchorSize
      ensures IsFilled(own, old(active), cells)
      ensures active == Kept(old(active), number) && anchorSize == SizeOf(active)
    {
      hide Kept, SizeOf, IsFilled, Apart, ColumnsOverlap;
      cells := own;
      var index: nat := |active|;
      ghost var all := active;
      NoneFilled(own, all, number);
      while index > 0
        invariant index <= |all|
        invariant active == all[..index] + Kept(all[index..], number)
        invariant anchorSize == SizeOf(active)
        invariant IsFilled(own, all[index..], cells)
      {
        index := index - 1;
        KeptFrom(all, index, number, active);
        var entry := active[index];
        ApartFrom(all, index);
        ghost var before := cells;
        cells := FillRange(cells, entry);
        FilledMore(own, all[index + 1..], entry, before, cells);
        if entry.merge.lastRow == number {
          SizeRemove(active, index);
          anchorSize := anchorSize - TextSize(entry.value);
          active := active[..index] + active[index + 1..];
        }
      }
      AllFilled(own, all, number, cells);
    }

    /** `expand`: the row as a reader sees it, or a refusal exactly when it does not fit. */
    method Expand(number: nat, own: seq<Cell>) returns (r: Option<seq<Cell>>)
      requires number >= 1 && Before(number) && own == RawCells(rows, number)
      modifies this
      ensures r.Some? ==> Before(number + 1) && IsExpanded(rows, merges, number, r.value) && RowFits(rows, merges, number)
      ensures r.None? ==> !RowFits(rows, merges, number)
    {
      var ok := Start(number, own);
      if !ok {
        return None;
      }
      ghost var live := active;
      assert forall a | a in live :: MergeOk(a.merge);
      var cells := Fill(number, own);
      FilledExpanded(rows, merges, mergeIndex, number, cells);
      ApartNoClash(rows, merges, mergeIndex, number);
      StartedSize(rows, merges, mergeIndex, number);
      KeptLive(rows, merges[..mergeIndex], number);
      KeptSubset(live, number);
      KeptSize(live, number);
      KeptApart(live, number);
      if RowSize(cells) > ROW_LIMIT {
        return None;
      }
      forall other | IsExpanded(rows, merges, number, other)
        ensures RowSize(other) <= ROW_LIMIT
      {
        ExpandedUnique(rows, merges, number, cells, other);
      }
      return Some(cells);
    }
  }
}
