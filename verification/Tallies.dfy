/** Counting needles by the name of their marker. */
module Tallies {
  import opened Needles

  /** Every needle is listed under a name, and none is empty. */
  ghost predicate Listed(names: map<Bytes, string>, needles: seq<Bytes>) {
    forall w | w in needles :: w in names && w != []
  }

  function Counted(counts: map<string, nat>, name: string): nat {
    if name in counts then counts[name] else 0
  }

  /** Occurrences of the needles of a list that go by the name; one listed twice counts twice. */
  function Tally(names: map<Bytes, string>, needles: seq<Bytes>, name: string, s: Bytes): nat
    requires Listed(names, needles)
  {
    if needles == [] then 0
    else
      var w := needles[|needles| - 1];
      assert w in needles && needles == needles[..|needles| - 1] + [w];
      Tally(names, needles[..|needles| - 1], name, s) + if names[w] == name then Occurrences(s, w) else 0
  }

  function TallyGroups(names: map<Bytes, string>, groups: seq<Group>, name: string, s: Bytes): nat
    requires GroupsOk(names, groups)
  {
    if groups == [] then 0
    else
      var g := groups[|groups| - 1];
      assert g in groups && groups == groups[..|groups| - 1] + [g];
      TallyGroups(names, groups[..|groups| - 1], name, s) + Tally(names, g.needles, name, s)
  }

  /** A group lists needles that begin with its prefix. */
  ghost predicate GroupsOk(names: map<Bytes, string>, groups: seq<Group>) {
    forall g | g in groups :: Listed(names, g.needles) && AllBegin(g.prefix, g.needles)
  }

  ghost predicate AllBegin(prefix: Bytes, needles: seq<Bytes>) {
    forall w | w in needles :: |prefix| <= |w| && w[..|prefix|] == prefix
  }

  /** Fresh occurrences before `end` of the needles that go by the name. */
  function Added(names: map<Bytes, string>, needles: seq<Bytes>, name: string, data: Bytes, seen: nat, end: nat): nat
    requires Listed(names, needles)
  {
    if needles == [] then 0
    else
      var w := needles[|needles| - 1];
      assert w in needles && needles == needles[..|needles| - 1] + [w];
      Added(names, needles[..|needles| - 1], name, data, seen, end) + if names[w] == name then FreshBefore(data, w, seen, end) else 0
  }

  /** Of the needles, those that are fresh at this very place. */
  function AddedAt(names: map<Bytes, string>, needles: seq<Bytes>, name: string, data: Bytes, seen: nat, p: nat): nat
    requires Listed(names, needles)
  {
    if needles == [] then 0
    else
      var w := needles[|needles| - 1];
      assert w in needles && needles == needles[..|needles| - 1] + [w];
      AddedAt(names, needles[..|needles| - 1], name, data, seen, p) + if names[w] == name && Fresh(data, w, seen, p) then 1 else 0
  }

  lemma {:induction false} AddedStep(names: map<Bytes, string>, needles: seq<Bytes>, name: string, data: Bytes,
      seen: nat, p: nat)
    requires Listed(names, needles)
    ensures Added(names, needles, name, data, seen, p + 1)
         == Added(names, needles, name, data, seen, p) + AddedAt(names, needles, name, data, seen, p)
    decreases |needles|
  {
    if needles != [] {
      assert needles == needles[..|needles| - 1] + [needles[|needles| - 1]];
      AddedStep(names, needles[..|needles| - 1], name, data, seen, p);
    }
  }

  lemma {:induction false} AddedNone(names: map<Bytes, string>, needles: seq<Bytes>, name: string, data: Bytes,
      seen: nat)
    requires Listed(names, needles)
    ensures Added(names, needles, name, data, seen, 0) == 0
    decreases |needles|
  {
    if needles != [] {
      assert needles == needles[..|needles| - 1] + [needles[|needles| - 1]];
      AddedNone(names, needles[..|needles| - 1], name, data, seen);
    }
  }

  lemma AtPrefix(data: Bytes, w: Bytes, prefix: Bytes, p: nat)
    requires |prefix| <= |w| && w[..|prefix|] == prefix
    ensures At(data, w, p) ==> At(data, prefix, p)
  {
    if At(data, w, p) {
      assert data[p..p + |prefix|] == data[p..p + |w|][..|prefix|];
    }
  }

  /** What a block adds over all the groups. */
  function AddedGroups(names: map<Bytes, string>, groups: seq<Group>, name: string, data: Bytes, seen: nat): nat
    requires GroupsOk(names, groups)
  {
    if groups == [] then 0
    else
      var g := groups[|groups| - 1];
      assert g in groups && groups == groups[..|groups| - 1] + [g];
      AddedGroups(names, groups[..|groups| - 1], name, data, seen) + Added(names, g.needles, name, data, seen, |data| + 1)
  }

  lemma {:induction false} AddedGroupsAll(names: map<Bytes, string>, groups: seq<Group>, name: string, s: Bytes,
      tail: Bytes, block: Bytes, overlap: nat)
    requires GroupsOk(names, groups) && TailOf(s, tail, overlap) && NotLonger(groups, overlap + 1)
    ensures TallyGroups(names, groups, name, s + block)
         == TallyGroups(names, groups, name, s) + AddedGroups(names, groups, name, tail + block, |tail|)
    decreases |groups|
  {
    if groups != [] {
      var g := groups[|groups| - 1];
      assert groups == groups[..|groups| - 1] + [g] && g in groups;
      AddedGroupsAll(names, groups[..|groups| - 1], name, s, tail, block, overlap);
      AddedAll(names, g.needles, name, s, tail, block, overlap);
    }
  }

  ghost predicate NotLonger(groups: seq<Group>, length: nat) {
    forall g, w | g in groups && w in g.needles :: |w| <= length
  }

  /** Between two places of the prefix there is nothing to find. */
  lemma {:induction false} AddedSkips(names: map<Bytes, string>, needles: seq<Bytes>, prefix: Bytes, name: string,
      data: Bytes,
                                      seen: nat, from: nat, end: nat)
    requires Listed(names, needles) && from <= end && AllBegin(prefix, needles)
    requires forall p: nat | from <= p < end :: !At(data, prefix, p)
    ensures Added(names, needles, name, data, seen, end) == Added(names, needles, name, data, seen, from)
    decreases |needles|
  {
    if needles != [] {
      var w := needles[|needles| - 1];
      assert needles == needles[..|needles| - 1] + [w] && w in needles;
      AddedSkips(names, needles[..|needles| - 1], prefix, name, data, seen, from, end);
      forall p: nat | from <= p < end
        ensures !At(data, w, p)
      {
        AtPrefix(data, w, prefix, p);
      }
      FreshEnds(data, w, seen, from, end);
    }
  }

  /** A block adds to the tally of the text what is fresh in the carried tail and the block. */
  lemma {:induction false} AddedAll(names: map<Bytes, string>, needles: seq<Bytes>, name: string, s: Bytes,
      tail: Bytes, block: Bytes, overlap: nat)
    requires Listed(names, needles) && TailOf(s, tail, overlap) && forall w | w in needles :: |w| <= overlap + 1
    ensures Tally(names, needles, name, s + block)
         == Tally(names, needles, name, s) + Added(names, needles, name, tail + block, |tail|, |tail + block| + 1)
    decreases |needles|
  {
    if needles != [] {
      var w := needles[|needles| - 1];
      assert needles == needles[..|needles| - 1] + [w] && w in needles;
      AddedAll(names, needles[..|needles| - 1], name, s, tail, block, overlap);
      TailSuffices(s, tail, block, overlap, w);
      FreshAll(tail, block, w);
    }
  }
}
