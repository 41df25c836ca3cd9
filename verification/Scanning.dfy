/** The streaming scanner: counts every needle over a stream that arrives in arbitrary blocks, carrying
    only the end of what it has read. */
module Scanning {
  import opened Wrappers
  import opened Needles
  import opened Tallies
  import opened Representations

  /** What is left of a file; a read takes some of it, as much as the system likes. */
  class Source {
    var rest: Bytes

    constructor (rest: Bytes)
      ensures this.rest == rest
    {
      this.rest := rest;
    }

    method Read(wanted: nat) returns (block: Bytes)
      modifies this
      ensures |block| <= wanted && old(rest) == block + rest
      ensures block == [] <==> wanted == 0 || old(rest) == []
    {
      if wanted == 0 || rest == [] {
        return [];
      }
      var n :| 0 < n <= wanted && n <= |rest|;
      block := rest[..n];
      rest := rest[n..];
    }
  }

  /** `data.find(prefix, from)`. */
  function Find(data: Bytes, prefix: Bytes, start: nat): (r: Option<nat>)
    ensures r.Some? ==> start <= r.value <= |data| && At(data, prefix, r.value) && forall p: nat | start <= p < r.value :: !At(data, prefix, p)
    ensures r.None? ==> forall p: nat | start <= p :: !At(data, prefix, p)
    decreases if start <= |data| then |data| - start + 1 else 0
  {
    if start > |data| then None
    else if At(data, prefix, start) then Some(start)
    else Find(data, prefix, start + 1)
  }

  function SamplesOf(samples: seq<Sample>, name: string): nat {
    if samples == [] then 0
    else SamplesOf(samples[..|samples| - 1], name) + if samples[|samples| - 1].marker == name then 1 else 0
  }

  /** Every sample is a needle at its place in the text. */
  ghost predicate Genuine(names: map<Bytes, string>, s: Bytes, offset: nat, samples: seq<Sample>) {
    forall x | x in samples :: x.offset >= offset && exists w | w in names :: names[w] == x.marker && At(s, w, x.offset - offset)
  }

  /** The samples are the first twelve of what was counted. */
  ghost predicate Sampled(counts: map<string, nat>, samples: seq<Sample>) {
    && |samples| <= SAMPLE_LIMIT
    && (forall name :: SamplesOf(samples, name) <= Counted(counts, name))
    && (|samples| < SAMPLE_LIMIT ==> forall name :: SamplesOf(samples, name) == Counted(counts, name))
  }

  // ----- The scanner -----

  /** How the counts and samples move while the places of one stretch of text are probed. */
  ghost predicate Advanced(names: map<Bytes, string>, text: Bytes, offset: nat, counts: map<string, nat>,
      samples: seq<Sample>)
  {
    Positive(counts) && Sampled(counts, samples) && Genuine(names, text, offset, samples)
  }

  /** Only what was found has an entry. */
  ghost predicate Positive(counts: map<string, nat>) {
    forall name | name in counts :: counts[name] > 0
  }

  /** A text encoding: characters encode one by one. */
  datatype Encoding = Encoding(tag: string, unit: char -> Bytes) {
    ghost predicate Ok() {
      forall c :: unit(c) != []
    }
  }

  function Encoded(unit: char -> Bytes, s: string): Bytes {
    if s == "" then [] else Encoded(unit, s[..|s| - 1]) + unit(s[|s| - 1])
  }

  lemma {:induction false} EncodedPrefix(unit: char -> Bytes, s: string, n: nat)
    requires n <= |s|
    ensures var a, b := Encoded(unit, s[..n]), Encoded(unit, s); |a| <= |b| && b[..|a|] == a
    decreases |s|
  {
    if n == |s| {
      assert s[..n] == s;
    } else {
      EncodedPrefix(unit, s[..|s| - 1], n);
      assert s[..|s| - 1][..n] == s[..n];
    }
  }

  /** `rstrip(b"\0")`. */
  function Stripped(b: Bytes): (r: Bytes)
    ensures |r| <= |b| && b[..|r|] == r
  {
    if b != [] && b[|b| - 1] == 0 then Stripped(b[..|b| - 1]) else b
  }

  /** `groups.setdefault(prefix, []).append(needle)`. */
  function Appended(groups: seq<Group>, prefix: Bytes, needle: Bytes): seq<Group> {
    if groups == [] then [Group(prefix, [needle])]
    else if groups[0].prefix == prefix then [Group(prefix, groups[0].needles + [needle])] + groups[1..]
    else [groups[0]] + Appended(groups[1..], prefix, needle)
  }

  /** How often a needle is listed. */
  function Listings(needles: seq<Bytes>, w: Bytes): nat {
    if needles == [] then 0 else Listings(needles[..|needles| - 1], w) + if needles[|needles| - 1] == w then 1 else 0
  }

  function Lists(groups: seq<Group>, w: Bytes): nat {
    if groups == [] then 0 else Listings(groups[0].needles, w) + Lists(groups[1..], w)
  }

  function Times(representations: seq<(string, Bytes)>, w: Bytes): nat {
    if representations == [] then 0
    else Times(representations[..|representations| - 1], w) + if representations[|representations| - 1].1 == w then 1 else 0
  }

  function Named(names: map<Bytes, string>, name: string, representations: seq<(string, Bytes)>): map<Bytes, string> {
    if representations == [] then names
    else
      var (tag, encoded) := representations[|representations| - 1];
      Named(names, name, representations[..|representations| - 1])[encoded := name + ":" + tag]
  }

  lemma FormsMore(names: map<Bytes, string>, forms: seq<(string, Bytes)>, tag: string, form: Bytes, name: string)
    ensures forall w :: Times(forms + [(tag, form)], w) == Times(forms, w) + if form == w then 1 else 0
    ensures Named(names, name, forms + [(tag, form)]) == Named(names, name, forms)[form := name + ":" + tag]
  {
    var more := forms + [(tag, form)];
    assert more[..|more| - 1] == forms;
  }

  lemma NoForms(names: map<Bytes, string>, name: string)
    ensures (forall w :: Times([], w) == 0) && Named(names, name, []) == names
  {
  }

  /** The forms of a marker, one for every encoding. */
  function Forms(value: string, encodings: seq<Encoding>): seq<(string, Bytes)> {
    seq(|encodings|, i requires 0 <= i < |encodings| => (encodings[i].tag, Encoded(encodings[i].unit, value)))
  }

  function NamedAll(markers: seq<(string, string)>, encodings: seq<Encoding>): map<Bytes, string> {
    if markers == [] then map[]
    else
      var (name, value) := markers[|markers| - 1];
      Named(NamedAll(markers[..|markers| - 1], encodings), name, Forms(value, encodings))
  }

  function TimesAll(markers: seq<(string, string)>, encodings: seq<Encoding>, w: Bytes): nat {
    if markers == [] then 0
    else TimesAll(markers[..|markers| - 1], encodings, w) + Times(Forms(markers[|markers| - 1].1, encodings), w)
  }

  lemma FormsListed(value: Bytes)
    requires value != []
    ensures forall r | r in WrittenForms(value) :: r.1 != []
  {
    UnpaddedWritten(value, true);
    UnpaddedWritten(value, false);
  }

  ghost predicate NamesOk(names: map<Bytes, string>) {
    forall w | w in names :: w != []
  }

  lemma NothingRegistered(markers: seq<(string, string)>, encodings: seq<Encoding>)
    ensures NamesOk(map[]) && GroupsOk(map[], []) && markers[..0] == [] && NamedAll([], encodings) == map[]
    ensures forall w :: Lists([], w) == TimesAll([], encodings, w)
  {
  }

  /** A new entry keeps the groups in order and lists one needle once more. */
  lemma {:induction false} AppendedOk(names: map<Bytes, string>, groups: seq<Group>, needle: Bytes, name: string,
      prefix: Bytes)
    requires GroupsOk(names, groups) && needle != [] && |prefix| <= |needle| && needle[..|prefix|] == prefix
    ensures GroupsOk(names[needle := name], Appended(groups, prefix, needle))
    decreases |groups|
  {
    if groups != [] {
      assert groups[0] in groups;
      if groups[0].prefix != prefix {
        AppendedOk(names, groups[1..], needle, name, prefix);
      }
    }
  }

  lemma {:induction false} AppendedLists(groups: seq<Group>, prefix: Bytes, needle: Bytes, w: Bytes)
    ensures Lists(Appended(groups, prefix, needle), w) == Lists(groups, w) + if w == needle then 1 else 0
    decreases |groups|
  {
    var appended := Appended(groups, prefix, needle);
    if groups == [] {
      var only := appended[0].needles;
      assert only[..|only| - 1] == [] && appended[1..] == [];
      assert Lists(appended, w) == Listings(only, w) + Lists(appended[1..], w);
    } else if groups[0].prefix == prefix {
      var more := groups[0].needles + [needle];
      assert more[..|more| - 1] == groups[0].needles;
      assert appended[1..] == groups[1..];
    } else {
      AppendedLists(groups[1..], prefix, needle, w);
      assert appended[1..] == Appended(groups[1..], prefix, needle);
    }
  }

  /** `max(map(len, self.patterns))`. */
  method Longest(names: map<Bytes, string>) returns (n: nat)
    requires names != map[] && forall w | w in names :: w != []
    ensures n > 0 && (forall w | w in names :: |w| <= n) && exists w | w in names :: |w| == n
  {
    var left := names.Keys;
    n := 0;
    while left != {}
      invariant left <= names.Keys
      invariant forall w | w in names && w !in left :: 0 < |w| <= n
      invariant n == 0 || exists w | w in names :: |w| == n
      invariant n == 0 ==> left == names.Keys
      decreases left
    {
      var w :| w in left;
      left := left - {w};
      if |w| > n {
        n := |w|;
      }
    }
  }

  class Scanner {
    var names: map<Bytes, string>
    var groups: seq<Group>
    var overlap: nat

    ghost predicate Valid()
      reads this
    {
      Registered() && NotLonger(groups, overlap + 1)
    }

    ghost predicate Registered()
      reads this
    {
      NamesOk(names) && GroupsOk(names, groups)
    }

    constructor (markers: seq<(string, string)>, encodings: seq<Encoding>)
      requires markers != [] && encodings != [] && (forall m | m in markers :: m.1 != "") && forall e | e in encodings :: e.Ok()
      ensures Valid()
      ensures names == NamedAll(markers, encodings)
      ensures forall w :: Lists(groups, w) == TimesAll(markers, encodings, w)
    {
      hide GroupsOk, NamesOk, NotLonger, Times, Forms, Named;
      names, groups, overlap := map[], [], 0;
      new;
      NothingRegistered(markers, encodings);
      for i := 0 to |markers|
        invariant Registered() && names == NamedAll(markers[..i], encodings) && (i > 0 ==> names != map[])
        invariant forall w :: Lists(groups, w) == TimesAll(markers[..i], encodings, w)
      {
        assert markers[i] in markers;
        assert markers[..i + 1][..i] == markers[..i];
        AddMarker(markers[i].0, markers[i].1, encodings);
      }
      assert markers[..|markers|] == markers;
      Measure();
    }

    /** `self.overlap = max(map(len, self.patterns)) - 1`. */
    method Measure()
      requires Registered() && names != map[]
      modifies `overlap
      ensures Valid()
    {
      var longest := Longest(names);
      overlap := longest - 1;
    }

    /** `self.patterns[encoded] = name` and the entry in its group. */
    method Register(encoded: Bytes, name: string, prefix: Bytes)
      requires Registered() && encoded != [] && |prefix| <= |encoded| && encoded[..|prefix|] == prefix
      modifies `names, `groups
      ensures Registered() && names == old(names)[encoded := name]
      ensures forall w :: Lists(groups, w) == Lists(old(groups), w) + if w == encoded then 1 else 0
    {
      AppendedOk(names, groups, encoded, name, prefix);
      forall w
        ensures Lists(Appended(groups, prefix, encoded), w) == Lists(groups, w) + if w == encoded then 1 else 0
      {
        AppendedLists(groups, prefix, encoded, w);
      }
      names := names[encoded := name];
      groups := Appended(groups, prefix, encoded);
    }

    /** The loop over the encodings of one marker. */
    method AddMarker(name: string, value: string, encodings: seq<Encoding>)
      requires Registered() && value != "" && encodings != [] && forall e | e in encodings :: e.Ok()
      modifies `names, `groups
      ensures Registered() && names == Named(old(names), name, Forms(value, encodings)) && names != map[]
      ensures forall w :: Lists(groups, w) == Lists(old(groups), w) + Times(Forms(value, encodings), w)
    {
      hide GroupsOk, NamesOk, Lists, Times, Named;
      ghost var forms := Forms(value, encodings);
      NoForms(names, name);
      assert forms[..0] == [];
      for j := 0 to |encodings|
        invariant Registered() && names == Named(old(names), name, forms[..j]) && (j > 0 ==> names != map[])
        invariant forall w :: Lists(groups, w) == Lists(old(groups), w) + Times(forms[..j], w)
      {
        var e := encodings[j];
        assert e in encodings && forms[..j + 1] == forms[..j] + [(e.tag, Encoded(e.unit, value))];
        FormsMore(old(names), forms[..j], e.tag, Encoded(e.unit, value), name);
        var encoded := Encoded(e.unit, value);
        var three := if |value| > 3 then 3 else |value|;
        EncodedPrefix(e.unit, value, three);
        Register(encoded, name + ":" + e.tag, Stripped(Encoded(e.unit, value[..three])));
        assert encoded in names;
      }
      assert forms[..|encodings|] == forms;
    }

    /** `add_binary`: lists the four forms of a value, in order. */
    method AddBinary(name: string, value: Bytes)
      requires Valid() && value != []
      modifies this
      ensures Valid()
      ensures names == Named(old(names), name, WrittenForms(value))
      ensures forall w :: Lists(groups, w) == Lists(old(groups), w) + Times(WrittenForms(value), w)
    {
      hide GroupsOk, NamesOk, NotLonger, Times, Named, Lists;
      FormsListed(value);
      AddForms(name, WrittenForms(value));
      Measure();
    }

    /** The loop over the forms. */
    method AddForms(name: string, representations: seq<(string, Bytes)>)
      requires Registered() && representations != [] && forall r | r in representations :: r.1 != []
      modifies `names, `groups
      ensures Registered() && names == Named(old(names), name, representations) && names != map[]
      ensures forall w :: Lists(groups, w) == Lists(old(groups), w) + Times(representations, w)
    {
      hide GroupsOk, NamesOk, Lists, Times, Named;
      NoForms(names, name);
      assert representations[..0] == [];
      for i := 0 to |representations|
        invariant Registered() && names == Named(old(names), name, representations[..i]) && (i > 0 ==> names != map[])
        invariant forall w :: Lists(groups, w) == Lists(old(groups), w) + Times(representations[..i], w)
      {
        var (tag, encoded) := representations[i];
        assert representations[i] in representations;
        assert representations[..i + 1] == representations[..i] + [representations[i]];
        FormsMore(old(names), representations[..i], tag, encoded, name);
        Register(encoded, name + ":" + tag, if |encoded| > 3 then encoded[..3] else encoded);
        assert encoded in names;
      }
      assert representations[..|representations|] == representations;
    }

    /** One turn of the inner loop, for a needle of the group at a place of its prefix. */
    method Probe(needle: Bytes, ghost text: Bytes, data: Bytes, seen: nat, found: nat,
                 counts: map<string, nat>, samples: seq<Sample>, offset: nat, base: nat)
      returns (counts': map<string, nat>, samples': seq<Sample>)
      requires needle in names && Advanced(names, text, offset, counts, samples)
      requires |data| <= |text| && data == text[|text| - |data|..] && base == offset + |text| - |data|
      ensures Advanced(names, text, offset, counts', samples')
      ensures forall name ::
        Counted(counts', name) == Counted(counts, name) + if names[needle] == name && Fresh(data, needle, seen, found) then 1 else 0
    {
      counts', samples' := counts, samples;
      if found + |needle| <= seen || !At(data, needle, found) {
        return;
      }
      var name := names[needle];
      counts' := counts[name := Counted(counts, name) + 1];
      if |samples| < SAMPLE_LIMIT {
        samples' := samples + [Sample(name, base + found)];
        assert samples'[..|samples|] == samples;
        assert At(text, needle, base + found - offset);
      }
    }

    /** The loop over the needles of a group at one place of the prefix. */
    method ProbeAll(needles: seq<Bytes>, ghost text: Bytes, data: Bytes, seen: nat, found: nat,
                    counts: map<string, nat>, samples: seq<Sample>, offset: nat, base: nat)
      returns (counts': map<string, nat>, samples': seq<Sample>)
      requires Listed(names, needles) && Advanced(names, text, offset, counts, samples)
      requires |data| <= |text| && data == text[|text| - |data|..] && base == offset + |text| - |data|
      ensures Advanced(names, text, offset, counts', samples')
      ensures forall name :: Counted(counts', name) == Counted(counts, name) + AddedAt(names, needles, name, data, seen, found)
    {
      hide Advanced;
      counts', samples' := counts, samples;
      for k := 0 to |needles|
        invariant Advanced(names, text, offset, counts', samples')
        invariant forall name :: Counted(counts', name) == Counted(counts, name) + AddedAt(names, needles[..k], name, data, seen, found)
      {
        assert needles[..k + 1][..k] == needles[..k];
        counts', samples' := Probe(needles[k], text, data, seen, found, counts', samples', offset, base);
      }
      assert needles[..|needles|] == needles;
    }

    /** The loop over the places of a prefix. */
    method ScanGroup(group: Group, ghost text: Bytes, data: Bytes, seen: nat,
                     counts: map<string, nat>, samples: seq<Sample>, offset: nat, base: nat)
      returns (counts': map<string, nat>, samples': seq<Sample>)
      requires Listed(names, group.needles) && AllBegin(group.prefix, group.needles)
      requires Advanced(names, text, offset, counts, samples)
      requires |data| <= |text| && data == text[|text| - |data|..] && base == offset + |text| - |data|
      ensures Advanced(names, text, offset, counts', samples')
      ensures forall name ::
        Counted(counts', name) == Counted(counts, name) + Added(names, group.needles, name, data, seen, |data| + 1)
    {
      hide *;
      counts', samples' := counts, samples;
      ghost var done: nat := 0;
      var found := Find(data, group.prefix, 0);
      forall name
        ensures Added(names, group.needles, name, data, seen, 0) == 0
      {
        AddedNone(names, group.needles, name, data, seen);
      }
      while found.Some?
        invariant Advanced(names, text, offset, counts', samples')
        invariant done <= |data| + 1 && found == Find(data, group.prefix, done)
        invariant forall name :: Counted(counts', name) == Counted(counts, name) + Added(names, group.needles, name, data, seen, done)
        decreases |data| + 1 - done
      {
        ghost var before := counts';
        counts', samples' := ProbeAll(group.needles, text, data, seen, found.value, counts', samples', offset, base);
        forall name
          ensures Counted(counts', name) == Counted(counts, name) + Added(names, group.needles, name, data, seen, found.value + 1)
        {
          AddedSkips(names, group.needles, group.prefix, name, data, seen, done, found.value);
          AddedStep(names, group.needles, name, data, seen, found.value);
        }
        done := found.value + 1;
        found := Find(data, group.prefix, found.value + 1);
      }
      forall name
        ensures Added(names, group.needles, name, data, seen, |data| + 1) == Added(names, group.needles, name, data, seen, done)
      {
        AddedSkips(names, group.needles, group.prefix, name, data, seen, done, |data| + 1);
      }
    }

    /** The loop over the groups: one block. */
    method ScanBlock(ghost text: Bytes, data: Bytes, seen: nat, counts: map<string, nat>, samples: seq<Sample>,
        offset: nat, base: nat)
      returns (counts': map<string, nat>, samples': seq<Sample>)
      requires Valid() && Advanced(names, text, offset, counts, samples)
      requires |data| <= |text| && data == text[|text| - |data|..] && base == offset + |text| - |data|
      ensures Advanced(names, text, offset, counts', samples')
      ensures forall name :: Counted(counts', name) == Counted(counts, name) + AddedGroups(names, groups, name, data, seen)
    {
      hide Advanced, Added, Counted;
      counts', samples' := counts, samples;
      for g := 0 to |groups|
        invariant Advanced(names, text, offset, counts', samples')
        invariant forall name :: Counted(counts', name) == Counted(counts, name) + AddedGroups(names, groups[..g], name, data, seen)
      {
        assert groups[..g + 1][..g] == groups[..g] && groups[g] in groups;
        counts', samples' := ScanGroup(groups[g], text, data, seen, counts', samples', offset, base);
      }
      assert groups[..|groups|] == groups;
    }

    /** Counts every needle over the stream, or fails if it ends before `size` bytes. */
    method Stream(source: Source, size: Option<nat>, offset: nat) returns (report: Option<Report>)
      requires Valid()
      modifies source
      ensures report.None? <==> size.Some? && |old(source.rest)| < size.value
      ensures report.Some? ==>
        var text := old(source.rest)[..if size.Some? then size.value else |old(source.rest)|];
        && report.value.bytes == |text|
        && (forall name :: Counted(report.value.counts, name) == TallyGroups(names, groups, name, text))
        && Advanced(names, text, offset, report.value.counts, report.value.samples)
    {
      hide Advanced, Counted, TailOf, Tail, GroupsOk, NotLonger, TallyGroups, AddedGroups, Genuine;
      var counts, samples, tail: Bytes, position := map[], [], [], 0;
      ghost var text: Bytes := [];
      NothingCounted(names, groups, offset);
      NoTail(overlap);
      while size.None? || position < size.value
        invariant text + source.rest == old(source.rest) && position == |text| && (size.Some? ==> position <= size.value)
        invariant TailOf(text, tail, overlap)
        invariant Advanced(names, text, offset, counts, samples)
        invariant forall name :: Counted(counts, name) == TallyGroups(names, groups, name, text)
        decreases |source.rest|
      {
        var wanted := if size.None? || size.value - position >= CHUNK then CHUNK else size.value - position;
        var block := source.Read(wanted);
        if block == [] {
          assert text == old(source.rest);
          if size.Some? {
            return None;
          }
          assert text == old(source.rest)[..|old(source.rest)|];
          return Some(Report(position, counts, samples));
        }
        var data := tail + block;
        DataInText(names, text, tail, block, overlap, offset, counts, samples);
        counts, samples := ScanBlock(text + block, data, |tail|, counts, samples, offset, offset + position - |tail|);
        forall name
          ensures Counted(counts, name) == TallyGroups(names, groups, name, text + block)
        {
          AddedGroupsAll(names, groups, name, text, tail, block, overlap);
        }
        TailStep(text, tail, block, overlap);
        text := text + block;
        position := position + |block|;
        tail := Tail(data, overlap);
      }
      assert text == old(source.rest)[..size.value];
      return Some(Report(position, counts, samples));
    }
  }

  lemma {:induction false} NothingCounted(names: map<Bytes, string>, groups: seq<Group>, offset: nat)
    requires GroupsOk(names, groups)
    ensures Advanced(names, [], offset, map[], [])
    ensures forall name :: Counted(map[], name) == TallyGroups(names, groups, name, [])
    decreases |groups|
  {
    if groups != [] {
      var front, g := groups[..|groups| - 1], groups[|groups| - 1];
      assert groups == front + [g] && g in groups;
      NothingCounted(names, front, offset);
      forall name
        ensures Tally(names, g.needles, name, []) == 0
      {
        NothingTallied(names, g.needles, name);
      }
    }
  }

  lemma {:induction false} NothingTallied(names: map<Bytes, string>, needles: seq<Bytes>, name: string)
    requires Listed(names, needles)
    ensures Tally(names, needles, name, []) == 0
    decreases |needles|
  {
    if needles != [] {
      assert needles == needles[..|needles| - 1] + [needles[|needles| - 1]];
      NothingTallied(names, needles[..|needles| - 1], name);
    }
  }

  lemma NoTail(overlap: nat)
    ensures TailOf([], [], overlap)
  {
  }

  lemma DataInText(names: map<Bytes, string>, text: Bytes, tail: Bytes, block: Bytes, overlap: nat, offset: nat,
                   counts: map<string, nat>, samples: seq<Sample>)
    requires TailOf(text, tail, overlap) && Advanced(names, text, offset, counts, samples)
    ensures |tail| <= |text| && tail + block == (text + block)[|text + block| - |tail + block|..]
    ensures Advanced(names, text + block, offset, counts, samples)
  {
    assert text + block == text[..|text| - |tail|] + (tail + block);
    forall x | x in samples
      ensures exists w | w in names :: names[w] == x.marker && At(text + block, w, x.offset - offset)
    {
      var w :| w in names && names[w] == x.marker && At(text, w, x.offset - offset);
      assert (text + block)[x.offset - offset..x.offset - offset + |w|] == text[x.offset - offset..x.offset - offset + |w|];
    }
  }
}
