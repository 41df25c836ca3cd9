/** What the counts mean, and the counts of observed writes. */
module Observing {
  import opened Wrappers
  import opened Arithmetic
  import opened Needles
  import opened Tallies
  import opened Scanning
  import opened Representations

  /** The needle is the only one that goes by the name. */
  ghost predicate OnlyNeedle(names: map<Bytes, string>, name: string, w: Bytes) {
    w in names && names[w] == name && forall v | v in names && names[v] == name :: v == w
  }

  lemma {:induction false} TallyOfOne(names: map<Bytes, string>, needles: seq<Bytes>, name: string, w: Bytes, s: Bytes)
    requires Listed(names, needles) && w != [] && OnlyNeedle(names, name, w)
    ensures Tally(names, needles, name, s) == Listings(needles, w) * Occurrences(s, w)
    decreases |needles|
  {
    hide Occurrences;
    if needles != [] {
      var front, v := needles[..|needles| - 1], needles[|needles| - 1];
      assert needles == front + [v] && v in needles;
      TallyOfOne(names, front, name, w, s);
      assert names[v] == name <==> v == w;
      Distributes(Listings(front, w), if v == w then 1 else 0, Occurrences(s, w));
    }
  }

  lemma {:induction false} ListsSplit(groups: seq<Group>, w: Bytes)
    requires groups != []
    ensures Lists(groups, w) == Lists(groups[..|groups| - 1], w) + Listings(groups[|groups| - 1].needles, w)
    decreases |groups|
  {
    var front := groups[..|groups| - 1];
    if |groups| > 1 {
      ListsSplit(groups[1..], w);
      assert groups[1..][..|groups[1..]| - 1] == front[1..];
    } else {
      assert Lists(groups[1..], w) == 0;
    }
  }

  /** The count under the name of a needle: its occurrences, as often as it is listed. */
  lemma {:induction false} CountOfNeedle(names: map<Bytes, string>, groups: seq<Group>, name: string, w: Bytes,
      s: Bytes)
    requires GroupsOk(names, groups) && w != [] && OnlyNeedle(names, name, w)
    ensures TallyGroups(names, groups, name, s) == Lists(groups, w) * Occurrences(s, w)
    decreases |groups|
  {
    hide Occurrences, OnlyNeedle, Tally, Listings;
    if groups != [] {
      var front, g := groups[..|groups| - 1], groups[|groups| - 1];
      assert groups == front + [g] && g in groups;
      CountOfNeedle(names, front, name, w, s);
      TallyOfOne(names, g.needles, name, w, s);
      ListsSplit(groups, w);
      Distributes(Lists(front, w), Listings(g.needles, w), Occurrences(s, w));
    }
  }

  lemma SameProduct(k: nat, n: nat)
    ensures k * n == n <==> k == 1 || n == 0
  {
    if k > 1 && n > 0 {
      Distributes(k - 1, 1, n);
      assert (k - 1) * n > 0;
    }
  }

  /** It is the number of occurrences exactly if the needle is listed once or does not occur. */
  lemma CountIsExact(names: map<Bytes, string>, groups: seq<Group>, name: string, w: Bytes, s: Bytes)
    requires GroupsOk(names, groups) && w != [] && OnlyNeedle(names, name, w)
    ensures TallyGroups(names, groups, name, s) == |Places(s, w)| <==> Lists(groups, w) == 1 || Places(s, w) == {}
  {
    hide Occurrences, OnlyNeedle, TallyGroups, Places, GroupsOk;
    CountOfNeedle(names, groups, name, w, s);
    OccurrencesArePlaces(s, w);
    SameProduct(Lists(groups, w), Occurrences(s, w));
  }

  // ----- Values listed under several forms -----

  /** A scanner to which the forms of a value were added. */
  ghost predicate Extended(names: map<Bytes, string>, groups: seq<Group>, names': map<Bytes, string>, groups': seq<Group>,
      name: string, value: Bytes)
  {
    && names' == Named(names, name, WrittenForms(value))
    && forall w :: Lists(groups', w) == Lists(groups, w) + Times(WrittenForms(value), w)
  }

  /** The names and listings after all four forms. */
  lemma FourForms(names: map<Bytes, string>, name: string, raw: Bytes, hex: Bytes, url: Bytes, std: Bytes, w: Bytes)
    ensures var forms := [("raw", raw), ("hex", hex), ("base64url", url), ("base64", std)];
      && Times(forms, w) == (if raw == w then 1 else 0) + (if hex == w then 1 else 0) + (if url == w then 1 else 0) + (if std == w then 1 else 0)
      && Named(names, name, forms)
        == names[raw := name + ":" + "raw"][hex := name + ":" + "hex"][url := name + ":" + "base64url"][std := name + ":" + "base64"]
  {
    hide Named, Times;
    var none: seq<(string, Bytes)> := [];
    FormsMore(names, none, "raw", raw, name);
    FormsMore(names, none + [("raw", raw)], "hex", hex, name);
    FormsMore(names, none + [("raw", raw)] + [("hex", hex)], "base64url", url, name);
    FormsMore(names, none + [("raw", raw)] + [("hex", hex)] + [("base64url", url)], "base64", std, name);
    NoForms(names, name);
    assert [("raw", raw), ("hex", hex), ("base64url", url), ("base64", std)]
      == none + [("raw", raw)] + [("hex", hex)] + [("base64url", url)] + [("base64", std)];
  }

  lemma TagsDiffer(name: string)
    ensures name + ":" + "raw" != name + ":" + "base64" && name + ":" + "hex" != name + ":" + "base64"
    ensures name + ":" + "base64url" != name + ":" + "base64"
  {
    assert |name + ":" + "raw"| == |name| + 4 && |name + ":" + "hex"| == |name| + 4;
    assert |name + ":" + "base64"| == |name| + 7 && |name + ":" + "base64url"| == |name| + 10;
  }

  lemma Base64Listed(names: map<Bytes, string>, name: string, value: Bytes)
    requires value != [] && forall w | w in names :: names[w] != name + ":" + "base64"
    ensures var w := Base64(value, false);
      && OnlyNeedle(Named(names, name, WrittenForms(value)), name + ":" + "base64", w)
      && Times(WrittenForms(value), w) == if SameForms(value) then 2 else 1
  {
    hide Named, Times, Base64, Unpadded, Hex, SameForms;
    var url, w := Unpadded(Base64(value, true)), Base64(value, false);
    FormsDiffer(value);
    SameFormsExact(value);
    TagsDiffer(name);
    FourForms(names, name, value, Hex(value), url, w, w);
  }

  /** The occurrences of the base64 form are counted once, and twice exactly if the form is also the one
      for URLs: the value needs no padding and has none of the digits in which the alphabets differ. */
  lemma Base64Counted(names: map<Bytes, string>, groups: seq<Group>, names': map<Bytes, string>, groups': seq<Group>,
      name: string, value: Bytes, s: Bytes)
    requires value != [] && Extended(names, groups, names', groups', name, value) && GroupsOk(names', groups')
    requires Lists(groups, Base64(value, false)) == 0 && forall w | w in names :: names[w] != name + ":" + "base64"
    ensures TallyGroups(names', groups', name + ":" + "base64", s)
      == (if SameForms(value) then 2 else 1) * |Places(s, Base64(value, false))|
  {
    hide Named, Times, Lists, GroupsOk, OnlyNeedle, TallyGroups, Base64, Places, SameForms;
    var w := Base64(value, false);
    NotEmpty(value);
    Base64Listed(names, name, value);
    CountOfNeedle(names', groups', name + ":" + "base64", w, s);
    OccurrencesArePlaces(s, w);
  }

  lemma NotEmpty(value: Bytes)
    requires value != []
    ensures Base64(value, false) != []
  {
  }

  /** Three zero bytes: the base64 form is `AAAA` in both alphabets. */
  lemma Zeros(value: Bytes)
    requires value == [0, 0, 0]
    ensures SameForms(value) && Base64(value, false) == [65, 65, 65, 65]
  {
    var none: Bytes := [];
    assert value[3..] == none && Sextets(none) == [];
    assert Sextets(value) == [0, 0, 0, 0] + Sextets(value[3..]);
    assert Sextets(value) == [0, 0, 0, 0];
  }

  lemma OncePlaced(w: Bytes)
    requires w != []
    ensures |Places(w, w)| == 1
  {
    assert At(w, w, 0);
    assert Places(w, w) == {0};
  }

  lemma {:induction false} EncodedLonger(unit: char -> Bytes, s: string)
    requires forall c :: unit(c) != []
    ensures |Encoded(unit, s)| >= |s|
  {
    if s != "" {
      EncodedLonger(unit, s[..|s| - 1]);
      assert unit(s[|s| - 1]) != [];
    }
  }

  lemma {:induction false} FormsLonger(names: map<Bytes, string>, name: string, forms: seq<(string, Bytes)>, n: nat, w: Bytes)
    requires forall f | f in forms :: |f.1| >= n
    requires |w| < n
    ensures Times(forms, w) == 0
    ensures forall v | v in Named(names, name, forms) && v !in names :: exists tag :: Named(names, name, forms)[v] == name + ":" + tag
    ensures forall v | v in Named(names, name, forms) && v in names ::
      Named(names, name, forms)[v] == names[v] || exists tag :: Named(names, name, forms)[v] == name + ":" + tag
  {
    if forms != [] {
      var front, last := forms[..|forms| - 1], forms[|forms| - 1];
      assert forms == front + [last] && last in forms;
      FormsLonger(names, name, front, n, w);
    }
  }

  /** A scanner for the marker "marker" and for three zero bytes counts one occurrence of their base64
      form twice. */
  method SameFormCountedTwice(encodings: seq<Encoding>) returns (scanner: Scanner, report: Option<Report>)
    requires encodings != [] && forall e | e in encodings :: e.Ok()
    ensures fresh(scanner) && scanner.Valid()
    ensures scanner.names == Named(NamedAll([("control", "marker")], encodings), "zeros", WrittenForms([0, 0, 0]))
    ensures report.Some? && Counted(report.value.counts, "zeros:base64") == 2
    ensures |Places([65, 65, 65, 65], [65, 65, 65, 65])| == 1
  {
    hide *;
    var value: Bytes := [0, 0, 0];
    var w: Bytes := [65, 65, 65, 65];
    Zeros(value);
    OncePlaced(w);
    scanner := new Scanner([("control", "marker")], encodings);
    ghost var names, groups := scanner.names, scanner.groups;
    MarkerApart(encodings, w);
    scanner.AddBinary("zeros", value);
    var source := new Source(w);
    report := scanner.Stream(source, None, 0);
    assert w[..|w|] == w;
    ScannerGroups(scanner);
    assert Extended(names, groups, scanner.names, scanner.groups, "zeros", value) by {
      Extends(names, groups, scanner.names, scanner.groups, "zeros", value);
    }
    Base64Counted(names, groups, scanner.names, scanner.groups, "zeros", value, w);
    assert "zeros" + ":" + "base64" == "zeros:base64";
  }

  lemma ScannerGroups(scanner: Scanner)
    requires scanner.Valid()
    ensures GroupsOk(scanner.names, scanner.groups)
  {
  }

  lemma Extends(names: map<Bytes, string>, groups: seq<Group>, names': map<Bytes, string>, groups': seq<Group>,
      name: string, value: Bytes)
    requires names' == Named(names, name, WrittenForms(value))
    requires forall w :: Lists(groups', w) == Lists(groups, w) + Times(WrittenForms(value), w)
    ensures Extended(names, groups, names', groups', name, value)
  {
  }

  /** The forms of the marker are longer than four bytes, and go by its name. */
  lemma MarkerApart(encodings: seq<Encoding>, w: Bytes)
    requires |w| == 4 && forall e | e in encodings :: e.Ok()
    ensures TimesAll([("control", "marker")], encodings, w) == 0
    ensures forall v | v in NamedAll([("control", "marker")], encodings) ::
      NamedAll([("control", "marker")], encodings)[v] != "zeros" + ":" + "base64"
  {
    var forms := Forms("marker", encodings);
    forall f | f in forms
      ensures |f.1| >= 6
    {
      var i :| 0 <= i < |forms| && forms[i] == f;
      assert encodings[i] in encodings;
      EncodedLonger(encodings[i].unit, "marker");
    }
    FormsLonger(map[], "control", forms, 6, w);
    var markers := [("control", "marker")];
    assert markers[..0] == [];
    assert NamedAll(markers, encodings) == Named(map[], "control", forms);
    forall tag: string
      ensures "control" + ":" + tag != "zeros" + ":" + "base64"
    {
      assert ("control" + ":" + tag)[0] == 'c' && ("zeros" + ":" + "base64")[0] == 'z';
    }
  }

  // ----- Observed writes -----

  /** The writes to a sink, in order and joined. */
  function WrittenTo(writes: seq<(string, Bytes)>, sink: string): Bytes {
    if writes == [] then []
    else WrittenTo(writes[..|writes| - 1], sink) + if writes[|writes| - 1].0 == sink then writes[|writes| - 1].1 else []
  }

  /** The counts reported for a sink, added up. */
  function Reported(items: seq<(string, map<string, nat>)>, sink: string, name: string): nat {
    if items == [] then 0
    else
      var (to, counts) := items[|items| - 1];
      Reported(items[..|items| - 1], sink, name) + if to == sink then Counted(counts, name) else 0
  }

  function TailFor(tails: map<string, Bytes>, sink: string): Bytes {
    if sink in tails then tails[sink] else []
  }

  /** `item["counts"][name] -= count`, with the empty entries dropped. */
  method Subtract(counts: map<string, nat>, before: map<string, nat>) returns (r: map<string, nat>)
    requires Positive(counts) && Positive(before) && forall name :: Counted(before, name) <= Counted(counts, name)
    ensures Positive(r) && forall name :: Counted(r, name) == Counted(counts, name) - Counted(before, name)
  {
    r := counts;
    var left := before.Keys;
    while left != {}
      invariant left <= before.Keys && Positive(r)
      invariant forall name :: Counted(r, name) == Counted(counts, name) - if name in left then 0 else Counted(before, name)
      decreases left
    {
      var name :| name in left;
      left := left - {name};
      assert Counted(before, name) > 0 && Counted(r, name) >= Counted(before, name);
      if r[name] == before[name] {
        r := r - {name};
      } else {
        r := r[name := r[name] - before[name]];
      }
    }
  }

  lemma AddedByTail(names: map<Bytes, string>, groups: seq<Group>, name: string, s: Bytes, tail: Bytes, block: Bytes,
      overlap: nat)
    requires GroupsOk(names, groups) && TailOf(s, tail, overlap) && NotLonger(groups, overlap + 1)
    ensures TallyGroups(names, groups, name, tail) <= TallyGroups(names, groups, name, tail + block)
    ensures TallyGroups(names, groups, name, s + block) - TallyGroups(names, groups, name, s)
         == TallyGroups(names, groups, name, tail + block) - TallyGroups(names, groups, name, tail)
  {
    AddedGroupsAll(names, groups, name, s, tail, block, overlap);
    assert TailOf(tail, tail, overlap);
    AddedGroupsAll(names, groups, name, tail, tail, block, overlap);
  }

  ghost predicate TailsOk(writes: seq<(string, Bytes)>, tails: map<string, Bytes>, overlap: nat) {
    forall sink :: TailOf(WrittenTo(writes, sink), TailFor(tails, sink), overlap)
  }

  /** For every sink the reported counts add up to the occurrences in all that was written to it. */
  ghost predicate SumsOk(names: map<Bytes, string>, groups: seq<Group>, writes: seq<(string, Bytes)>,
      items: seq<(string, map<string, nat>)>)
    requires GroupsOk(names, groups)
  {
    forall sink, name :: Reported(items, sink, name) == TallyGroups(names, groups, name, WrittenTo(writes, sink))
  }

  ghost predicate ItemsFor(writes: seq<(string, Bytes)>, items: seq<(string, map<string, nat>)>) {
    |items| == |writes| && forall k | 0 <= k < |items| :: items[k].0 == writes[k].0 && Positive(items[k].1)
  }

  lemma NothingWritten(names: map<Bytes, string>, groups: seq<Group>, overlap: nat)
    requires GroupsOk(names, groups)
    ensures TailsOk([], map[], overlap) && SumsOk(names, groups, [], []) && ItemsFor([], [])
  {
    NoTail(overlap);
    forall name
      ensures TallyGroups(names, groups, name, []) == 0
    {
      NothingCounted(names, groups, 0);
      assert Counted(map[], name) == 0;
    }
  }

  lemma WrittenMore(writes: seq<(string, Bytes)>, w: (string, Bytes), sink: string)
    ensures WrittenTo(writes + [w], sink) == if w.0 == sink then WrittenTo(writes, sink) + w.1 else WrittenTo(writes, sink)
  {
    var more := writes + [w];
    assert more[..|more| - 1] == writes;
    assert WrittenTo(writes, sink) + [] == WrittenTo(writes, sink);
  }

  lemma ReportedMore(items: seq<(string, map<string, nat>)>, item: (string, map<string, nat>), sink: string,
      name: string)
    ensures Reported(items + [item], sink, name) == Reported(items, sink, name) + if item.0 == sink then Counted(item.1, name) else 0
  {
    var more := items + [item];
    assert more[..|more| - 1] == items;
  }

  lemma TailsMore(writes: seq<(string, Bytes)>, w: (string, Bytes), tails: map<string, Bytes>, overlap: nat)
    requires TailsOk(writes, tails, overlap)
    ensures TailsOk(writes + [w], tails[w.0 := Tail(TailFor(tails, w.0) + w.1, overlap)], overlap)
  {
    hide TailOf, Tail, WrittenTo;
    var more := tails[w.0 := Tail(TailFor(tails, w.0) + w.1, overlap)];
    forall sink
      ensures TailOf(WrittenTo(writes + [w], sink), TailFor(more, sink), overlap)
    {
      WrittenMore(writes, w, sink);
      assert TailOf(WrittenTo(writes, sink), TailFor(tails, sink), overlap);
      if sink == w.0 {
        TailStep(WrittenTo(writes, sink), TailFor(tails, sink), w.1, overlap);
      }
    }
  }

  lemma SumsMore(names: map<Bytes, string>, groups: seq<Group>, writes: seq<(string, Bytes)>, items: seq<(string,
      map<string, nat>)>,
                 w: (string, Bytes), counts: map<string, nat>)
    requires GroupsOk(names, groups) && SumsOk(names, groups, writes, items)
    requires AddsCounts(names, groups, WrittenTo(writes, w.0), w.1, counts)
    ensures SumsOk(names, groups, writes + [w], items + [(w.0, counts)])
  {
    hide TallyGroups, WrittenTo, Reported, GroupsOk, Counted;
    forall sink, name
      ensures Reported(items + [(w.0, counts)], sink, name) == TallyGroups(names, groups, name, WrittenTo(writes + [w], sink))
    {
      WrittenMore(writes, w, sink);
      ReportedMore(items, (w.0, counts), sink, name);
      assert Reported(items, sink, name) == TallyGroups(names, groups, name, WrittenTo(writes, sink));
      if sink == w.0 {
        assert Gain(names, groups, WrittenTo(writes, sink), w.1, counts, name);
      }
    }
  }

  /** What the payload adds to the text counts under the name. */
  ghost predicate Gain(names: map<Bytes, string>, groups: seq<Group>, written: Bytes, payload: Bytes,
      counts: map<string, nat>, name: string)
    requires GroupsOk(names, groups)
  {
    TallyGroups(names, groups, name, written + payload) == TallyGroups(names, groups, name, written) + Counted(counts, name)
  }

  ghost predicate AddsCounts(names: map<Bytes, string>, groups: seq<Group>, written: Bytes, payload: Bytes,
      counts: map<string, nat>)
    requires GroupsOk(names, groups)
  {
    forall name :: Gain(names, groups, written, payload, counts, name)
  }

  /** The loop over the writes. */
  method ObservedWrites(scanner: Scanner, writes: seq<(string, Bytes)>) returns (items: seq<(string, map<string, nat>)>)
    requires scanner.Valid()
    ensures ItemsFor(writes, items) && SumsOk(scanner.names, scanner.groups, writes, items)
  {
    hide Counted, Advanced, TallyGroups, TailOf, Tail, GroupsOk, SumsOk, AddsCounts, WrittenTo, Reported;
    items := [];
    var tails: map<string, Bytes> := map[];
    NothingWritten(scanner.names, scanner.groups, scanner.overlap);
    for k := 0 to |writes|
      invariant ItemsFor(writes[..k], items) && TailsOk(writes[..k], tails, scanner.overlap)
      invariant SumsOk(scanner.names, scanner.groups, writes[..k], items)
    {
      var w := writes[k];
      var tail := TailFor(tails, w.0);
      var counts := ObserveWrite(scanner, tail, w.1, WrittenTo(writes[..k], w.0));
      TailsMore(writes[..k], w, tails, scanner.overlap);
      SumsMore(scanner.names, scanner.groups, writes[..k], items, w, counts);
      assert writes[..k + 1] == writes[..k] + [w];
      tails := tails[w.0 := Tail(tail + w.1, scanner.overlap)];
      items := items + [(w.0, counts)];
    }
    assert writes[..|writes|] == writes;
  }

  /** One write: scans the tail with the payload and takes off what the tail alone has. */
  method ObserveWrite(scanner: Scanner, tail: Bytes, payload: Bytes,
      ghost written: Bytes) returns (counts: map<string, nat>)
    requires scanner.Valid() && TailOf(written, tail, scanner.overlap)
    ensures Positive(counts)
    ensures AddsCounts(scanner.names, scanner.groups, written, payload, counts)
  {
    hide Counted, TallyGroups, TailOf, Tail, Sampled, Genuine;
    var source := new Source(tail + payload);
    var report := scanner.Stream(source, None, 0);
    var source' := new Source(tail);
    var report' := scanner.Stream(source', None, 0);
    assert (tail + payload)[..|tail + payload|] == tail + payload && tail[..|tail|] == tail;
    forall name
      ensures TallyGroups(scanner.names, scanner.groups, name, tail) <= TallyGroups(scanner.names, scanner.groups, name, tail + payload)
      ensures TallyGroups(scanner.names, scanner.groups, name, written + payload) - TallyGroups(scanner.names, scanner.groups, name, written)
           == TallyGroups(scanner.names, scanner.groups, name, tail + payload) - TallyGroups(scanner.names, scanner.groups, name, tail)
    {
      AddedByTail(scanner.names, scanner.groups, name, written, tail, payload, scanner.overlap);
    }
    counts := Subtract(report.value.counts, report'.value.counts);
  }
}
