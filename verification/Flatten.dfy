/** The generator `flattened`: the rows it yields and when it gives up. */
module Flatten {
  import opened Wrappers
  import opened Ordering
  import opened Flattening
  import opened Sweep

  lemma {:induction false} RawCellsPresent(rows: seq<Row>, i: nat)
    requires RowsOk(rows) && i < |rows|
    ensures RawCells(rows, rows[i].number) == rows[i].cells
  {
    if i > 0 {
      RowsTail(rows);
      RawCellsPresent(rows[1..], i - 1);
    }
  }

  lemma {:induction false} RawCellsAbsent(rows: seq<Row>, number: nat)
    requires forall i | 0 <= i < |rows| :: rows[i].number != number
    ensures RawCells(rows, number) == []
  {
    if rows != [] {
      RawCellsAbsent(rows[1..], number);
    }
  }

  lemma RowsTail(rows: seq<Row>)
    requires RowsOk(rows) && rows != []
    ensures RowsOk(rows[1..])
  {
  }

  /** The rows yielded are the first ones of the sheet, without gaps, as a reader sees them. */
  ghost predicate Yielded(rows: seq<Row>, merges: seq<Merge>, out: seq<Row>)
    requires MergesOk(merges)
  {
    forall k | 0 <= k < |out| :: RowYielded(rows, merges, out[k], k + 1)
  }

  ghost predicate RowYielded(rows: seq<Row>, merges: seq<Merge>, r: Row, number: nat)
    requires MergesOk(merges)
  {
    r.number == number && IsExpanded(rows, merges, number, r.cells) && RowFits(rows, merges, number)
  }

  lemma NothingYielded(rows: seq<Row>, merges: seq<Merge>)
    requires MergesOk(merges)
    ensures Yielded(rows, merges, []) && UpTo(rows, 0, 0)
  {
  }

  lemma YieldedMore(rows: seq<Row>, merges: seq<Merge>, out: seq<Row>, cells: seq<Cell>)
    requires MergesOk(merges) && Yielded(rows, merges, out)
    requires IsExpanded(rows, merges, |out| + 1, cells) && RowFits(rows, merges, |out| + 1)
    ensures Yielded(rows, merges, out + [Row(|out| + 1, cells)])
  {
    hide IsExpanded, RowFits;
    var more := out + [Row(|out| + 1, cells)];
    forall k | 0 <= k < |more|
      ensures RowYielded(rows, merges, more[k], k + 1)
    {
      if k < |out| {
        assert more[k] == out[k];
        assert RowYielded(rows, merges, out[k], k + 1);
      } else {
        assert more[k] == Row(|out| + 1, cells);
      }
    }
  }

  /** What holds of the sorted ranges holds of them in the order of the workbook. */
  lemma YieldedPermutation(rows: seq<Row>, a: seq<Merge>, b: seq<Merge>, out: seq<Row>)
    requires MergesOk(a) && MergesOk(b) && multiset(a) == multiset(b) && Yielded(rows, a, out)
    ensures Yielded(rows, b, out)
    ensures RowFits(rows, a, |out| + 1) <==> RowFits(rows, b, |out| + 1)
  {
    hide IsExpanded, RowFits;
    forall k | 0 <= k < |out|
      ensures RowYielded(rows, b, out[k], k + 1)
    {
      assert RowYielded(rows, a, out[k], k + 1);
      SpecificationPermutation(rows, a, b, k + 1);
    }
    SpecificationPermutation(rows, a, b, |out| + 1);
  }

  lemma LastRowUnique(rows: seq<Row>, merges: seq<Merge>, a: nat, b: nat)
    requires IsLastRow(rows, merges, a) && IsLastRow(rows, merges, b)
    ensures a == b
  {
  }

  method LastMerge(merges: seq<Merge>) returns (last: nat)
    ensures forall m | m in merges :: m.lastRow <= last
    ensures last == 0 || exists m | m in merges :: m.lastRow == last
  {
    last := 0;
    for i := 0 to |merges|
      invariant forall k | 0 <= k < i :: merges[k].lastRow <= last
      invariant last == 0 || exists k | 0 <= k < i :: merges[k].lastRow == last
    {
      if merges[i].lastRow > last {
        last := merges[i].lastRow;
      }
    }
  }

  /** The rows yielded are all there is, or the next one exists and does not fit. */
  ghost predicate Outcome(rows: seq<Row>, merges: seq<Merge>, out: seq<Row>, ok: bool)
    requires MergesOk(merges)
  {
    && Yielded(rows, merges, out)
    && (ok ==> IsLastRow(rows, merges, |out|))
    && (!ok ==> Stuck(rows, merges, |out|))
  }

  ghost predicate Stuck(rows: seq<Row>, merges: seq<Merge>, yielded: nat)
    requires MergesOk(merges)
  {
    && !RowFits(rows, merges, yielded + 1)
    && ((exists r | r in rows :: yielded < r.number) || exists m | m in merges :: yielded < m.lastRow)
  }

  lemma OutcomePermutation(rows: seq<Row>, a: seq<Merge>, b: seq<Merge>, out: seq<Row>, ok: bool)
    requires MergesOk(a) && MergesOk(b) && multiset(a) == multiset(b) && Outcome(rows, a, out, ok)
    ensures Outcome(rows, b, out, ok)
  {
    hide IsExpanded, RowFits;
    YieldedPermutation(rows, a, b, out);
    SpecificationPermutation(rows, a, b, 0);
  }

  /** It yields the whole sheet exactly when every row fits. */
  lemma YieldsAllOrNothing(rows: seq<Row>, merges: seq<Merge>, out: seq<Row>, ok: bool, last: nat)
    requires MergesOk(merges) && Outcome(rows, merges, out, ok) && IsLastRow(rows, merges, last)
    ensures ok <==> forall number | 1 <= number <= last :: RowFits(rows, merges, number)
    ensures if ok then |out| == last else |out| < last
  {
    hide IsExpanded, RowFits;
    if ok {
      LastRowUnique(rows, merges, |out|, last);
      forall number | 1 <= number <= last
        ensures RowFits(rows, merges, number)
      {
        assert out[number - 1].number == number;
      }
    }
  }

  /** A second pass over the same workbook yields the same rows and ends the same way. */
  lemma OutcomeUnique(rows: seq<Row>, merges: seq<Merge>, a: seq<Row>, okA: bool, b: seq<Row>, okB: bool)
    requires MergesOk(merges) && Outcome(rows, merges, a, okA) && Outcome(rows, merges, b, okB)
    ensures a == b && okA == okB
  {
    hide IsExpanded, RowFits;
    NotShorter(rows, merges, a, okA, b, okB);
    NotShorter(rows, merges, b, okB, a, okA);
    forall k | 0 <= k < |a|
      ensures a[k] == b[k]
    {
      ExpandedUnique(rows, merges, k + 1, a[k].cells, b[k].cells);
    }
  }

  lemma NotShorter(rows: seq<Row>, merges: seq<Merge>, a: seq<Row>, okA: bool, b: seq<Row>, okB: bool)
    requires MergesOk(merges) && Outcome(rows, merges, a, okA) && Outcome(rows, merges, b, okB)
    ensures |a| >= |b| && (okA || |a| > |b| || !okB)
  {
    hide IsExpanded, RowFits;
    if |a| < |b| {
      YieldedFits(rows, merges, b, |a|);
    }
  }

  lemma YieldedFits(rows: seq<Row>, merges: seq<Merge>, out: seq<Row>, k: nat)
    requires MergesOk(merges) && Yielded(rows, merges, out) && k < |out|
    ensures RowFits(rows, merges, k + 1)
  {
    assert out[k].number == k + 1;
  }

  /** One `yield expand(...)`. */
  method Emit(sweeper: Sweeper, own: seq<Cell>, out: seq<Row>) returns (more: seq<Row>, ok: bool)
    requires sweeper.Before(|out| + 1) && own == RawCells(sweeper.rows, |out| + 1)
    requires Yielded(sweeper.rows, sweeper.merges, out)
    modifies sweeper
    ensures Yielded(sweeper.rows, sweeper.merges, more)
    ensures ok ==> |more| == |out| + 1 && sweeper.Before(|more| + 1)
    ensures !ok ==> more == out && !RowFits(sweeper.rows, sweeper.merges, |out| + 1)
  {
    hide IsExpanded, RowFits, RawCells;
    var r := sweeper.Expand(|out| + 1, own);
    if r.None? {
      return out, false;
    }
    YieldedMore(sweeper.rows, sweeper.merges, out, r.value);
    return out + [Row(|out| + 1, r.value)], true;
  }

  /** The loop over a gap: the rows up to `last` of which the sheet has none of its own. */
  method EmitGap(sweeper: Sweeper, out: seq<Row>, last: nat) returns (more: seq<Row>, ok: bool)
    requires sweeper.Before(|out| + 1) && Yielded(sweeper.rows, sweeper.merges, out)
    requires forall r | r in sweeper.rows :: r.number <= |out| || r.number > last
    modifies sweeper
    ensures Yielded(sweeper.rows, sweeper.merges, more)
    ensures ok ==> |more| == (if last > |out| then last else |out|) && sweeper.Before(|more| + 1)
    ensures !ok ==> |more| < last && !RowFits(sweeper.rows, sweeper.merges, |more| + 1)
  {
    hide IsExpanded, RowFits, RawCells;
    more, ok := out, true;
    while |more| < last
      invariant |out| <= |more| && (|more| <= last || more == out)
      invariant sweeper.Before(|more| + 1) && Yielded(sweeper.rows, sweeper.merges, more)
      decreases last - |more|
    {
      RawCellsAbsent(sweeper.rows, |more| + 1);
      more, ok := Emit(sweeper, [], more);
      if !ok {
        return;
      }
    }
  }

  /** Where the loop over the sheet's own rows stands. */
  ghost predicate UpTo(rows: seq<Row>, i: nat, yielded: nat) {
    i <= |rows| && yielded == if i == 0 then 0 else rows[i - 1].number
  }

  lemma GapHasNoRows(rows: seq<Row>, i: nat, yielded: nat)
    requires RowsOk(rows) && UpTo(rows, i, yielded)
    ensures forall r | r in rows :: r.number <= yielded || (i < |rows| && r.number > rows[i].number - 1)
    ensures i < |rows| ==> yielded < rows[i].number && UpTo(rows, i + 1, rows[i].number)
  {
  }

  lemma StuckBefore(rows: seq<Row>, merges: seq<Merge>, sorted: seq<Merge>, out: seq<Row>, i: nat)
    requires MergesOk(merges) && MergesOk(sorted) && multiset(sorted) == multiset(merges)
    requires Yielded(rows, sorted, out) && !RowFits(rows, sorted, |out| + 1) && i < |rows| && |out| < rows[i].number
    ensures Outcome(rows, merges, out, false)
  {
    hide IsExpanded, RowFits;
    assert rows[i] in rows;
    OutcomePermutation(rows, sorted, merges, out, false);
  }

  lemma Finished(rows: seq<Row>, merges: seq<Merge>, sorted: seq<Merge>, out: seq<Row>, ok: bool, own: nat,
      lastMerge: nat)
    requires MergesOk(merges) && MergesOk(sorted) && multiset(sorted) == multiset(merges)
    requires Yielded(rows, sorted, out) && RowsOk(rows) && UpTo(rows, |rows|, own)
    requires forall m | m in sorted :: m.lastRow <= lastMerge
    requires lastMerge == 0 || exists m | m in sorted :: m.lastRow == lastMerge
    requires ok ==> |out| == if lastMerge > own then lastMerge else own
    requires !ok ==> |out| < lastMerge && !RowFits(rows, sorted, |out| + 1)
    ensures Outcome(rows, merges, out, ok)
  {
    hide IsExpanded, RowFits;
    assert own > 0 ==> rows[|rows| - 1] in rows;
    OutcomePermutation(rows, sorted, merges, out, ok);
  }

  /** Yields every row from the first to the last one with a cell or a range, or stops before the first
      row that does not fit. */
  method Flattened(rows: seq<Row>, merges: seq<Merge>) returns (out: seq<Row>, ok: bool)
    requires RowsOk(rows) && MergesOk(merges)
    ensures Outcome(rows, merges, out, ok)
  {
    hide *;
    var sweeper := new Sweeper(rows, merges);
    ghost var sorted := sweeper.merges;
    NothingYielded(rows, sorted);
    out := [];
    for i := 0 to |rows|
      invariant fresh(sweeper) && sweeper.Before(|out| + 1) && Yielded(rows, sorted, out)
      invariant UpTo(rows, i, |out|)
    {
      GapHasNoRows(rows, i, |out|);
      out, ok := EmitGap(sweeper, out, rows[i].number - 1);
      if ok {
        RawCellsPresent(rows, i);
        out, ok := Emit(sweeper, rows[i].cells, out);
      }
      if !ok {
        StuckBefore(rows, merges, sorted, out, i);
        return;
      }
    }
    var lastMerge := LastMerge(sweeper.merges);
    GapHasNoRows(rows, |rows|, |out|);
    ghost var own: nat := |out|;
    out, ok := EmitGap(sweeper, out, lastMerge);
    Finished(rows, merges, sorted, out, ok, own, lastMerge);
  }
}
