/** Occurrences of a byte string, and why the end of a text is enough to count those in the next block. */
module Needles {
  import opened Wrappers

  type Bytes = seq<Byte>

  datatype Group = Group(prefix: Bytes, needles: seq<Bytes>)

  datatype Sample = Sample(marker: string, offset: nat)

  datatype Report = Report(bytes: nat, counts: map<string, nat>, samples: seq<Sample>)

  const CHUNK: nat := 1024 * 1024
  const SAMPLE_LIMIT: nat := 12

  // ----- Specification -----

  predicate At(s: Bytes, w: Bytes, p: nat) {
    p + |w| <= |s| && s[p..p + |w|] == w
  }

  /** The places where the needle occurs, overlapping ones included. */
  ghost function Places(s: Bytes, w: Bytes): set<nat> {
    set p: nat | p <= |s| && At(s, w, p)
  }

  predicate EndsWith(s: Bytes, w: Bytes) {
    |w| <= |s| && s[|s| - |w|..] == w
  }

  /** How often a needle occurs: once for every beginning of the text that ends with it. */
  function Occurrences(s: Bytes, w: Bytes): nat
    requires w != []
  {
    if s == [] then 0 else Occurrences(s[..|s| - 1], w) + if EndsWith(s, w) then 1 else 0
  }

  lemma PlacesStep(s: Bytes, w: Bytes)
    requires w != [] && s != []
    ensures var front := s[..|s| - 1];
      Places(s, w) == Places(front, w) + (if EndsWith(s, w) then {|s| - |w|} else {})
    ensures EndsWith(s, w) ==> |s| - |w| !in Places(s[..|s| - 1], w)
  {
    var front := s[..|s| - 1];
    var more := if EndsWith(s, w) then {|s| - |w|} else {};
    forall p: nat
      ensures p in Places(s, w) <==> p in Places(front, w) + more
    {
      if p + |w| <= |front| {
        assert front[p..p + |w|] == s[p..p + |w|];
      }
    }
  }

  /** The count is the number of places. */
  lemma {:induction false} OccurrencesArePlaces(s: Bytes, w: Bytes)
    requires w != []
    ensures Occurrences(s, w) == |Places(s, w)|
  {
    if s == [] {
      assert Places(s, w) == {};
    } else {
      OccurrencesArePlaces(s[..|s| - 1], w);
      PlacesStep(s, w);
    }
  }

  // ----- A long enough tail is as good as the whole text -----

  /** The tail holds everything a needle that ends after it may have started in. */
  ghost predicate TailOf(s: Bytes, tail: Bytes, overlap: nat) {
    |tail| <= |s| && s[|s| - |tail|..] == tail && (tail == s || |tail| >= overlap)
  }

  /** `data[-overlap:]`: for a zero overlap that is the whole of it. */
  function Tail(data: Bytes, overlap: nat): Bytes {
    if overlap == 0 || overlap >= |data| then data else data[|data| - overlap..]
  }

  lemma TailStep(s: Bytes, tail: Bytes, block: Bytes, overlap: nat)
    requires TailOf(s, tail, overlap)
    ensures TailOf(s + block, Tail(tail + block, overlap), overlap)
  {
    var data := tail + block;
    assert s == s[..|s| - |tail|] + tail;
    assert s + block == s[..|s| - |tail|] + data;
  }

  lemma {:induction false} TailSuffices(s: Bytes, tail: Bytes, block: Bytes, overlap: nat, w: Bytes)
    requires TailOf(s, tail, overlap) && 0 < |w| <= overlap + 1
    ensures Occurrences(s + block, w) - Occurrences(s, w) == Occurrences(tail + block, w) - Occurrences(tail, w)
    decreases |block|
  {
    if block == [] {
      assert s + block == s && tail + block == tail;
    } else {
      var front := block[..|block| - 1];
      TailSuffices(s, tail, front, overlap, w);
      assert (s + block)[..|s + block| - 1] == s + front;
      assert (tail + block)[..|tail + block| - 1] == tail + front;
      SuffixOfBoth(s, tail, block, overlap, w);
    }
  }

  lemma SuffixOfBoth(s: Bytes, tail: Bytes, block: Bytes, overlap: nat, w: Bytes)
    requires TailOf(s, tail, overlap) && 0 < |w| <= overlap + 1 && block != []
    ensures EndsWith(s + block, w) <==> EndsWith(tail + block, w)
  {
    assert s + block == s[..|s| - |tail|] + (tail + block);
    if |w| <= |tail + block| {
      assert (s + block)[|s + block| - |w|..] == (tail + block)[|tail + block| - |w|..];
    }
  }

  // ----- What one block adds -----

  /** An occurrence that was not wholly inside the first `seen` bytes. */
  predicate Fresh(data: Bytes, w: Bytes, seen: nat, p: nat) {
    p + |w| > seen && At(data, w, p)
  }

  function FreshBefore(data: Bytes, w: Bytes, seen: nat, end: nat): nat {
    if end == 0 then 0 else FreshBefore(data, w, seen, end - 1) + if Fresh(data, w, seen, end - 1) then 1 else 0
  }

  /** A text with a byte more has one occurrence more exactly if it ends with the needle. */
  lemma OneByteMore(till: Bytes, w: Bytes)
    requires w != [] && till != []
    ensures Occurrences(till, w) == Occurrences(till[..|till| - 1], w) + if EndsWith(till, w) then 1 else 0
  {
    hide EndsWith;
  }

  lemma Truncated(data: Bytes, w: Bytes, length: nat)
    requires w != [] && |w| <= length <= |data|
    ensures data[..length][..length - 1] == data[..length - 1]
    ensures EndsWith(data[..length], w) <==> At(data, w, length - |w|)
  {
    hide Occurrences;
    assert data[..length][length - |w|..] == data[length - |w|..length];
  }

  lemma {:induction false} FreshCounted(data: Bytes, w: Bytes, seen: nat, end: nat)
    requires w != [] && seen <= |data| && |w| + end <= |data| + 1
    ensures FreshBefore(data, w, seen, end)
         == if end + |w| <= seen + 1 then 0 else Occurrences(data[..end + |w| - 1], w) - Occurrences(data[..seen], w)
    decreases end
  {
    hide Occurrences, At;
    if end > 0 {
      FreshCounted(data, w, seen, end - 1);
      OneByteMore(data[..end + |w| - 1], w);
      Truncated(data, w, end + |w| - 1);
    } else if |w| > seen + 1 {
      ShortHasNone(data[..|w| - 1], w);
      ShortHasNone(data[..seen], w);
    }
  }

  lemma {:induction false} ShortHasNone(s: Bytes, w: Bytes)
    requires |s| < |w|
    ensures Occurrences(s, w) == 0
  {
    if s != [] {
      ShortHasNone(s[..|s| - 1], w);
    }
  }

  lemma {:induction false} FreshEnds(data: Bytes, w: Bytes, seen: nat, from: nat, end: nat)
    requires from <= end && forall p: nat | from <= p < end :: !At(data, w, p)
    ensures FreshBefore(data, w, seen, end) == FreshBefore(data, w, seen, from)
    decreases end
  {
    if from < end {
      FreshEnds(data, w, seen, from, end - 1);
    }
  }

  /** Everything fresh in the data: what the block adds to the count. */
  lemma FreshAll(tail: Bytes, block: Bytes, w: Bytes)
    requires w != []
    ensures var data := tail + block;
      FreshBefore(data, w, |tail|, |data| + 1) == Occurrences(data, w) - Occurrences(tail, w)
  {
    var data := tail + block;
    assert data[..|tail|] == tail;
    if |w| <= |data| {
      var end := |data| - |w| + 1;
      FreshCounted(data, w, |tail|, end);
      assert data[..end + |w| - 1] == data;
      FreshEnds(data, w, |tail|, end, |data| + 1);
    } else {
      FreshEnds(data, w, |tail|, 0, |data| + 1);
      ShortHasNone(data, w);
      ShortHasNone(tail, w);
    }
  }
}
