/** Main results about runs of the filing register: notices, receipts, and links between filings. */
module FilingHistory {
  import opened Wrappers
  import opened Filings
  import opened FilingProperties
  import opened Chains

  // ----- Notices -----

  /** In any run from an empty register, two notices of one filing and one revision are identical, and no
      filing counts a revision as delivered that it has not reached. */
  lemma NoticesAgree(k: Categories, es: seq<Event>)
    requires Run(k, INITIAL, es)
    ensures var w := Reach(k, INITIAL, es);
      && (forall m, n | m in w.sent && n in w.sent && m.filingId == n.filingId && m.revision == n.revision :: m == n)
      && (forall f | f in w.filings && f.deliveredRevision.Some? :: f.deliveredRevision.value <= Revision(f))
  {
    InitialInv(k);
    RunInv(k, INITIAL, es);
    var w := Reach(k, INITIAL, es);
    assert forall f | f in w.filings :: FilingOk(w, f);
  }

  /** Between any two moments of a run, restarts included, no filing disappears, none falls back to an
      older revision or changes its arrival or its receipt: neither in memory nor in the state file. */
  lemma HistoryGrows(k: Categories, a: seq<Event>, b: seq<Event>)
    requires Run(k, INITIAL, a + b)
    ensures Grows(k, Reach(k, INITIAL, a).filings, Reach(k, INITIAL, a + b).filings)
    ensures Grows(k, Reach(k, INITIAL, a).filings, Reach(k, INITIAL, a + b).disk)
  {
    InitialInv(k);
    RunSplit(k, INITIAL, a, b);
    RunInv(k, INITIAL, a);
    var w := Reach(k, INITIAL, a);
    RunInv(k, w, b);
    var v := Reach(k, w, b);
    GrowsTransitive(k, w.filings, v.filings, v.disk);
  }

  /** When every filing is delivered at its revision, the receiver, which drops what is older or equal,
      holds exactly the register's current notices. */
  lemma ReceiverCurrent(k: Categories, w: World)
    requires Inv(k, w) && forall f | f in w.filings :: f.deliveredRevision == Some(Revision(f))
    ensures forall id :: id in w.inbox <==> exists f | f in w.filings :: f.id == id
    ensures forall f | f in w.filings :: f.id in w.inbox && w.inbox[f.id] == NoticeOf(k, f)
  {
    forall f | f in w.filings
      ensures f.id in w.inbox && w.inbox[f.id] == NoticeOf(k, f)
    {
      assert FilingOk(w, f);
      var n := w.inbox[f.id];
      assert n in w.sent;
      var g :| g in w.filings && NoticeFor(k, n, g);
      UniqueId(w.filings, f, g);
    }
    forall id | id in w.inbox
      ensures exists f | f in w.filings :: f.id == id
    {
      var n := w.inbox[id];
      assert n in w.sent;
      var g :| g in w.filings && NoticeFor(k, n, g);
    }
  }

  // ----- Receipts -----

  lemma {:induction false} CommitsStay(k: Categories, w: World, es: seq<Event>)
    requires Run(k, w, es)
    ensures forall id | id in w.commits :: id in Reach(k, w, es).commits && Reach(k, w, es).commits[id] == w.commits[id]
  {
    if es != [] {
      CommitsStay(k, w, es[..|es| - 1]);
    }
  }

  /** All receipts ever held for a filing, in memory or on disk, at any two moments of a run, are the one
      the database committed. */
  lemma ReceiptsAgree(k: Categories, a: seq<Event>, b: seq<Event>, f: Filing, g: Filing)
    requires Run(k, INITIAL, a + b) && f.id == g.id && f.landing.Some? && g.landing.Some?
    requires var w := Reach(k, INITIAL, a); f in w.filings || f in w.disk
    requires var v := Reach(k, INITIAL, a + b); g in v.filings || g in v.disk
    ensures f.landing.value.receipt == g.landing.value.receipt
  {
    InitialInv(k);
    RunSplit(k, INITIAL, a, b);
    RunInv(k, INITIAL, a);
    RunInv(k, INITIAL, a + b);
    CommitsStay(k, Reach(k, INITIAL, a), b);
    assert FilingOk(Reach(k, INITIAL, a), f) && FilingOk(Reach(k, INITIAL, a + b), g);
  }

  // ----- A concrete zone -----

  function Sample(fs: seq<Filing>, id: Id, sha: string): Filing {
    Arrival(fs, id, id, id, sha, "", Identified("p", "r", "2024-01", "k", None), None)
  }

  lemma SampleAllowed(w: World, id: Id, sha: string)
    requires id !in w.used && forall g | g in w.filings :: g.path != id
    ensures Allowed(w, Register(Sample(w.filings, id, sha)))
  {
    var f := Sample(w.filings, id, sha);
    assert f == Arrival(w.filings, f.id, f.path, f.fingerprint, f.sha256, f.receivedAt, Identified("p", "r", "2024-01", "k", None), None);
  }

  lemma {:induction false} RunMore(k: Categories, w: World, es: seq<Event>, e: Event)
    requires Run(k, w, es) && Enabled(Reach(k, w, es), e)
    ensures Run(k, w, es + [e]) && Reach(k, w, es + [e]) == After(k, Reach(k, w, es), e)
  {
    assert (es + [e])[..|es|] == es;
  }

  /** A filing is registered and its landing committed; the save of the receipt fails with the new list on
      disk. */
  lemma ReceiptOnDiskOnly(k: Categories, f: Filing, landed: Filing) returns (a: seq<Event>)
    requires f == Sample([], "A", "1")
    requires landed == f.(revision := Some(2), landing := Some(Landing(Receipt("A", "p", "t", 0), true, None)))
    ensures Run(k, INITIAL, a)
    ensures var w := Reach(k, INITIAL, a);
      w.filings == [f] && w.disk == [landed] && "A" in w.commits && w.used == {"A"}
  {
    hide Run, Reach;
    var r := Receipt("A", "p", "t", 0);
    NothingRun(k);
    var e1 := Save(Register(f), Saved);
    SampleAllowed(INITIAL, "A", "1");
    RunMore(k, INITIAL, [], e1);
    var e2 := Land(0, Some(r));
    RunMore(k, INITIAL, [] + [e1], e2);
    var w2 := Reach(k, INITIAL, [] + [e1] + [e2]);
    assert w2.filings == [f] && w2.disk == [f] && "A" in w2.commits && w2.commits["A"] == r;
    var e3 := Save(Revise(0, landed), FailedNew);
    assert Enabled(w2, e3);
    RunMore(k, INITIAL, [] + [e1] + [e2], e3);
    a := [] + [e1] + [e2] + [e3];
  }

  lemma NothingRun(k: Categories)
    ensures Run(k, INITIAL, []) && Reach(k, INITIAL, []) == INITIAL
  {
  }

  /** A receipt that only a failed save put on disk can be overwritten: the next save is built from
      memory, which does not hold it. The database still does. */
  lemma FailedReceiptOverwritten(k: Categories) returns (a: seq<Event>, b: seq<Event>)
    ensures Run(k, INITIAL, a + b)
    ensures |Reach(k, INITIAL, a).disk| == 1 && Reach(k, INITIAL, a).disk[0].landing.Some?
    ensures var w := Reach(k, INITIAL, a + b);
      && |w.disk| == 2
      && w.disk[0].id == Reach(k, INITIAL, a).disk[0].id && w.disk[0].landing.None? && w.disk[0].id in w.commits
  {
    hide Run, Reach;
    var f := Sample([], "A", "1");
    var landed := f.(revision := Some(2), landing := Some(Landing(Receipt("A", "p", "t", 0), true, None)));
    a := ReceiptOnDiskOnly(k, f, landed);
    var w := Reach(k, INITIAL, a);
    var g := Sample(w.filings, "B", "2");
    SampleAllowed(w, "B", "2");
    b := [Save(Register(g), Saved)];
    RunMore(k, INITIAL, a, b[0]);
  }

  /** Some filing of the list holds this receipt. */
  ghost predicate Holds(fs: seq<Filing>, id: Id, receipt: Receipt) {
    exists f | f in fs :: f.id == id && f.landing.Some? && f.landing.value.receipt == receipt
  }

  lemma {:induction false} LongerThanAll(used: set<Id>) returns (n: nat)
    ensures forall id | id in used :: |id| <= n
  {
    if used == {} {
      n := 0;
    } else {
      var id :| id in used;
      var m := LongerThanAll(used - {id});
      n := if m < |id| then |id| else m;
      assert forall x | x in used :: x == id || x in used - {id};
    }
  }

  /** There is always another arrival to register. */
  lemma FreshArrival(w: World) returns (f: Filing)
    ensures Allowed(w, Register(f)) && f.landing.None?
  {
    var taken := w.used + set g | g in w.filings :: g.path;
    var n := LongerThanAll(taken);
    var id := seq(n + 1, _ => 'x');
    assert id !in taken by {
      assert |id| == n + 1;
    }
    f := Sample(w.filings, id, "1");
    SampleAllowed(w, id, "1");
  }

  lemma {:induction false} OneEvent(k: Categories, w: World, e: Event)
    requires Enabled(w, e)
    ensures Run(k, w, [e]) && Reach(k, w, [e]) == After(k, w, e)
  {
    var none: seq<Event> := [];
    assert [e][..0] == none && Run(k, w, none) && Reach(k, w, none) == w;
  }

  lemma HoldsGrows(k: Categories, fs: seq<Filing>, gs: seq<Filing>, id: Id, receipt: Receipt)
    requires Grows(k, fs, gs) && Holds(fs, id, receipt)
    ensures Holds(gs, id, receipt)
  {
    var f :| f in fs && f.id == id && f.landing.Some? && f.landing.value.receipt == receipt;
    var i :| 0 <= i < |fs| && fs[i] == f;
    assert Later(k, fs[i], gs[i]);
    assert gs[i] in gs;
  }

  /** At any moment of any run, a receipt in the state file stays there on every continuation exactly if
      memory holds it too. */
  lemma ReceiptStaysExact(k: Categories, a: seq<Event>, id: Id, receipt: Receipt)
    requires Run(k, INITIAL, a) && Holds(Reach(k, INITIAL, a).disk, id, receipt)
    ensures var w := Reach(k, INITIAL, a);
      (forall b | Run(k, w, b) :: Holds(Reach(k, w, b).disk, id, receipt)) <==> Holds(w.filings, id, receipt)
  {
    hide Holds, Inv;
    var w := Reach(k, INITIAL, a);
    InitialInv(k);
    RunInv(k, INITIAL, a);
    if Holds(w.filings, id, receipt) {
      forall b | Run(k, w, b)
        ensures Holds(Reach(k, w, b).disk, id, receipt)
      {
        ReceiptStays(k, w, b, id, receipt);
      }
    } else {
      var f := FreshArrival(w);
      var e := Save(Register(f), Saved);
      OneEvent(k, w, e);
      NotHeldAfter(w.filings, f, id, receipt);
      assert !Holds(Reach(k, w, [e]).disk, id, receipt);
    }
  }

  lemma ReceiptStays(k: Categories, w: World, b: seq<Event>, id: Id, receipt: Receipt)
    requires Inv(k, w) && Run(k, w, b) && Holds(w.filings, id, receipt)
    ensures Holds(Reach(k, w, b).disk, id, receipt)
  {
    hide Holds;
    RunInv(k, w, b);
    var v := Reach(k, w, b);
    HoldsGrows(k, w.filings, v.filings, id, receipt);
    HoldsGrows(k, v.filings, v.disk, id, receipt);
  }

  lemma NotHeldAfter(fs: seq<Filing>, f: Filing, id: Id, receipt: Receipt)
    requires !Holds(fs, id, receipt) && f.landing.None?
    ensures !Holds(fs + [f], id, receipt)
  {
  }

  // ----- Links -----

  /** No duplicate points at a duplicate. */
  ghost predicate Flat(fs: seq<Filing>) {
    forall f, g | f in fs && g in fs && f.duplicateOf == Some(g.id) :: g.duplicateOf.None?
  }

  /** The supersession links of the register. */
  ghost function Supersession(fs: seq<Filing>): (m: map<Id, Id>)
    requires UniqueFilings(fs)
    ensures forall f | f in fs :: if f.supersedes.Some? then f.id in m && m[f.id] == f.supersedes.value else f.id !in m
    ensures forall id | id in m :: exists f | f in fs :: f.id == id && f.supersedes == Some(m[id])
  {
    if fs == [] then map[]
    else
      var front, last := fs[..|fs| - 1], fs[|fs| - 1];
      var m := Supersession(front);
      assert fs == front + [last];
      assert forall f | f in front :: f.id != last.id by {
        forall f | f in front
          ensures f.id != last.id
        {
          var i :| 0 <= i < |front| && front[i] == f;
          assert fs[i].id != fs[|fs| - 1].id;
        }
      }
      if last.supersedes.Some? then m[last.id := last.supersedes.value] else m
  }

  /** Superseded filings are registered. */
  ghost predicate TargetsRegistered(fs: seq<Filing>) {
    forall f | f in fs && f.supersedes.Some? :: exists g | g in fs :: g.id == f.supersedes.value
  }

  /** Duplicates point at originals, and every chain of supersession ends. */
  ghost predicate LinksOk(fs: seq<Filing>)
    requires UniqueFilings(fs)
  {
    Flat(fs) && TargetsRegistered(fs) && AllEnd(Supersession(fs))
  }

  /** No other filing links to this one. */
  ghost predicate NotLinked(fs: seq<Filing>, id: Id) {
    forall g | g in fs && g.id != id :: g.duplicateOf != Some(id) && g.supersedes != Some(id)
  }

  lemma MapsEqual(m: map<Id, Id>, n: map<Id, Id>)
    requires forall id :: id in m <==> id in n
    requires forall id | id in m :: m[id] == n[id]
    ensures m == n
  {
  }

  /** How replacing a filing changes the links. */
  lemma SupersessionReplaced(fs: seq<Filing>, i: nat, g: Filing)
    requires i < |fs| && UniqueFilings(fs) && UniqueFilings(fs[i := g]) && g.id == fs[i].id
    ensures Supersession(fs[i := g]) ==
      if g.supersedes.Some? then Supersession(fs)[g.id := g.supersedes.value] else Supersession(fs) - {g.id}
  {
    var gs := fs[i := g];
    var m, n := Supersession(fs), Supersession(gs);
    MemberUpdated(fs, i, g);
    forall id | id != g.id
      ensures id in n <==> id in m
      ensures id in n ==> n[id] == m[id]
    {
      LinkElsewhere(fs, i, g, id);
    }
    assert g in gs;
    MapsEqual(n, if g.supersedes.Some? then m[g.id := g.supersedes.value] else m - {g.id});
  }

  lemma LinkElsewhere(fs: seq<Filing>, i: nat, g: Filing, id: Id)
    requires i < |fs| && UniqueFilings(fs) && UniqueFilings(fs[i := g]) && g.id == fs[i].id && id != g.id
    ensures var m, n := Supersession(fs), Supersession(fs[i := g]);
      (id in n <==> id in m) && (id in n ==> n[id] == m[id])
  {
    var gs := fs[i := g];
    var m, n := Supersession(fs), Supersession(gs);
    MemberUpdated(fs, i, g);
    if id in n {
      var f :| f in gs && f.id == id && f.supersedes == Some(n[id]);
      assert f in fs;
    }
    if id in m {
      var f :| f in fs && f.id == id && f.supersedes == Some(m[id]);
      assert f in gs;
    }
  }

  lemma SupersessionAppended(fs: seq<Filing>, f: Filing)
    requires UniqueFilings(fs) && UniqueFilings(fs + [f])
    ensures Supersession(fs + [f]) == if f.supersedes.Some? then Supersession(fs)[f.id := f.supersedes.value] else Supersession(fs)
  {
    assert (fs + [f])[..|fs|] == fs;
  }

  /** A new arrival keeps the links in order, whatever it is identified as. */
  lemma RegisterLinks(k: Categories, w: World, f: Filing)
    requires Inv(k, w) && IsArrival(w, f) && LinksOk(w.filings)
    ensures UniqueFilings(w.filings + [f]) && LinksOk(w.filings + [f])
  {
    var fs, gs := w.filings, w.filings + [f];
    RegisterOk(k, w, f);
    var identified, strategy :| f == Arrival(fs, f.id, f.path, f.fingerprint, f.sha256, f.receivedAt, identified, strategy);
    ArrivalShape(fs, f, identified, strategy);
    forall g | g in fs
      ensures g.id != f.id && g.duplicateOf != Some(f.id) && g.supersedes != Some(f.id)
    {
      NamesOld(k, w, g, f.id);
    }
    RegisterFlat(fs, f);
    RegisterChains(fs, f);
    RegisterTargets(fs, f);
  }

  lemma RegisterChains(fs: seq<Filing>, f: Filing)
    requires UniqueFilings(fs) && UniqueFilings(fs + [f]) && AllEnd(Supersession(fs))
    requires forall g | g in fs :: g.id != f.id && g.supersedes != Some(f.id)
    requires f.supersedes.Some? ==> exists d | d in fs :: f.supersedes == Some(d.id)
    ensures AllEnd(Supersession(fs + [f]))
  {
    SupersessionAppended(fs, f);
    if f.supersedes.Some? {
      var d :| d in fs && f.supersedes == Some(d.id);
      LinksNowhere(fs, f.id);
      assert f.id !in Supersession(fs);
      NewLink(Supersession(fs), f.id, d.id);
    }
  }

  lemma LinksNowhere(fs: seq<Filing>, id: Id)
    requires UniqueFilings(fs) && forall g | g in fs && g.id != id :: g.supersedes != Some(id)
    ensures var m := Supersession(fs); forall x | x in m && x != id :: m[x] != id
  {
    var m := Supersession(fs);
    forall x | x in m && x != id
      ensures m[x] != id
    {
      var h :| h in fs && h.id == x && h.supersedes == Some(m[x]);
    }
  }

  /** A registered filing names only registered filings. */
  lemma NamesOld(k: Categories, w: World, g: Filing, fresh_: Id)
    requires Inv(k, w) && g in w.filings && TargetsRegistered(w.filings) && fresh_ !in w.used
    ensures g.id != fresh_ && g.duplicateOf != Some(fresh_) && g.supersedes != Some(fresh_)
  {
    assert FilingOk(w, g);
    if g.duplicateOf.Some? {
      var h :| h in w.filings && IsCopy(g, h);
      assert FilingOk(w, h);
    }
    if g.supersedes.Some? {
      var h :| h in w.filings && h.id == g.supersedes.value;
      assert FilingOk(w, h);
    }
  }

  lemma RegisterFlat(fs: seq<Filing>, f: Filing)
    requires UniqueFilings(fs) && CopiesRegistered(fs) && Flat(fs)
    requires forall g | g in fs :: g.id != f.id && g.duplicateOf != Some(f.id)
    requires f.duplicateOf.Some? ==> exists d | d in fs :: f.duplicateOf == Some(Original(d))
    ensures Flat(fs + [f])
  {
    forall a, b | a in fs + [f] && b in fs + [f] && a.duplicateOf == Some(b.id)
      ensures b.duplicateOf.None?
    {
      if a == f {
        var d :| d in fs && f.duplicateOf == Some(Original(d));
        OriginalFlat(fs, d, b);
      }
    }
  }

  /** The original behind a filing is not a duplicate. */
  lemma OriginalFlat(fs: seq<Filing>, d: Filing, b: Filing)
    requires UniqueFilings(fs) && CopiesRegistered(fs) && Flat(fs) && d in fs
    requires b.id == Original(d) && (b in fs || forall g | g in fs :: g.id != b.id)
    ensures b in fs && b.duplicateOf.None?
  {
    if d.duplicateOf.Some? {
      var h :| h in fs && IsCopy(d, h);
      UniqueId(fs, h, b);
    } else {
      assert d.id == b.id;
      UniqueId(fs, d, b);
    }
  }

  lemma RegisterTargets(fs: seq<Filing>, f: Filing)
    requires TargetsRegistered(fs)
    requires f.supersedes.Some? ==> exists d | d in fs :: f.supersedes == Some(d.id)
    ensures TargetsRegistered(fs + [f])
  {
    forall g | g in fs + [f] && g.supersedes.Some?
      ensures exists h | h in fs + [f] :: h.id == g.supersedes.value
    {
      var h :| h in fs && h.id == g.supersedes.value;
      assert h in fs + [f];
    }
  }

  lemma ReplaceTargets(fs: seq<Filing>, i: nat, g: Filing)
    requires i < |fs| && TargetsRegistered(fs) && g.id == fs[i].id
    requires g.supersedes.Some? ==> exists d | d in fs :: g.supersedes == Some(d.id)
    ensures TargetsRegistered(fs[i := g])
  {
    MemberUpdated(fs, i, g);
    var gs := fs[i := g];
    forall f | f in gs && f.supersedes.Some?
      ensures exists h | h in gs :: h.id == f.supersedes.value
    {
      var h :| h in fs && h.id == f.supersedes.value;
      if h == fs[i] {
        assert g in gs && g.id == h.id;
      } else {
        assert h in gs;
      }
    }
  }

  /** Replacing a filing without touching its links. */
  lemma ReplaceLinks(fs: seq<Filing>, i: nat, g: Filing)
    requires i < |fs| && UniqueFilings(fs) && LinksOk(fs) && SameIdentity(fs[i], g)
    requires g.supersedes == fs[i].supersedes && g.duplicateOf == fs[i].duplicateOf
    ensures UniqueFilings(fs[i := g]) && LinksOk(fs[i := g])
  {
    ReplaceUnique(fs, i, g);
    SameSupersession(fs, i, g);
    ReplaceFlat(fs, i, g);
    if g.supersedes.Some? {
      var d :| d in fs && d.id == fs[i].supersedes.value;
    }
    ReplaceTargets(fs, i, g);
  }

  lemma SameSupersession(fs: seq<Filing>, i: nat, g: Filing)
    requires i < |fs| && UniqueFilings(fs) && UniqueFilings(fs[i := g]) && g.id == fs[i].id && g.supersedes == fs[i].supersedes
    ensures Supersession(fs[i := g]) == Supersession(fs)
  {
    SupersessionReplaced(fs, i, g);
    assert fs[i] in fs;
    NothingNew(Supersession(fs), g.id, g.supersedes);
  }

  lemma NothingNew(m: map<Id, Id>, id: Id, link: Option<Id>)
    requires if link.Some? then id in m && m[id] == link.value else id !in m
    ensures (if link.Some? then m[id := link.value] else m - {id}) == m
  {
  }

  lemma ReplaceFlat(fs: seq<Filing>, i: nat, g: Filing)
    requires i < |fs| && Flat(fs) && g.id == fs[i].id && g.duplicateOf == fs[i].duplicateOf
    ensures Flat(fs[i := g])
  {
    var gs := fs[i := g];
    MemberUpdated(fs, i, g);
    forall a, b | a in gs && b in gs && a.duplicateOf == Some(b.id)
      ensures b.duplicateOf.None?
    {
      var a', b' := if a == g then fs[i] else a, if b == g then fs[i] else b;
      assert a' in fs && b' in fs && a'.duplicateOf == Some(b'.id);
    }
  }

  /** The retried filing is not identified while other filings are its copies. */
  ghost predicate RetryKeepsFlat(fs: seq<Filing>, f: Filing, identified: Identification) {
    identified.Identified? ==> forall h | h in fs :: h.duplicateOf != Some(f.id)
  }

  /** The filing that a retry puts behind the retried one: the last ready one of the identified party,
      period and kind, if no other filing has the same bytes. */
  function NewPredecessor(fs: seq<Filing>, f: Filing, identified: Identification): Option<Id> {
    if identified.Unidentified? || FirstCopy(fs, f.sha256, Some(f.id)).Some? then None
    else IdOf(LastReady(fs, identified.partyId, identified.period, identified.kind, Some(f.id)))
  }

  /** The chain of that filing does not lead back. */
  ghost predicate RetryKeepsChains(fs: seq<Filing>, f: Filing, identified: Identification)
    requires UniqueFilings(fs)
  {
    var s := NewPredecessor(fs, f, identified);
    s.Some? ==> !Reaches(Supersession(fs), s.value, f.id)
  }

  /** A copy of the retried filing makes an identified retry find a copy. */
  lemma CopyFound(fs: seq<Filing>, f: Filing, identified: Identification, h: Filing)
    requires UniqueFilings(fs) && CopiesRegistered(fs) && f in fs && f.duplicateOf.None? && identified.Identified?
    requires h in fs && h.duplicateOf == Some(f.id) && h.status == Duplicate
    ensures Retried(fs, f, identified).duplicateOf.Some?
  {
    var o :| o in fs && IsCopy(h, o);
    UniqueId(fs, f, o);
    assert h.id != f.id by {
      if h.id == f.id {
        UniqueId(fs, f, h);
      }
    }
    assert SameBytes(h, f.sha256, Some(f.id));
    FirstCopyIn(fs, f.sha256, Some(f.id));
  }

  lemma RetryFlatExact(k: Categories, w: World, i: nat, identified: Identification)
    requires Inv(k, w) && Allowed(w, Retry(i, identified)) && Flat(w.filings)
    ensures Flat(Updated(w.filings, Retry(i, identified))) <==> RetryKeepsFlat(w.filings, w.filings[i], identified)
  {
    var fs := w.filings;
    var f := fs[i];
    var g := Retried(fs, f, identified);
    assert FilingOk(w, f);
    RetriedShape(fs, f, identified);
    MemberUpdated(fs, i, g);
    if !RetryKeepsFlat(fs, f, identified) {
      var h :| h in fs && h.duplicateOf == Some(f.id);
      assert FilingOk(w, h);
      CopyFound(fs, f, identified, h);
      NotFlat(fs, i, g, h);
    } else if g.duplicateOf.Some? {
      var d :| d in fs && g.duplicateOf == Some(Original(d)) && d.id != f.id;
      DuplicateFlat(fs, i, g, d);
    } else {
      ReplaceFlat(fs, i, g);
    }
  }

  lemma NotFlat(fs: seq<Filing>, i: nat, g: Filing, h: Filing)
    requires i < |fs| && h in fs && h != fs[i] && g.id == fs[i].id && h.duplicateOf == Some(g.id) && g.duplicateOf.Some?
    ensures !Flat(fs[i := g])
  {
    var j :| 0 <= j < |fs| && fs[j] == h;
    assert fs[i := g][j] == h && fs[i := g][i] == g;
  }

  /** A filing without copies may become a duplicate. */
  lemma DuplicateFlat(fs: seq<Filing>, i: nat, g: Filing, d: Filing)
    requires i < |fs| && UniqueFilings(fs) && CopiesRegistered(fs) && Flat(fs) && g.id == fs[i].id
    requires d in fs && g.duplicateOf == Some(Original(d)) && d.id != g.id
    requires forall h | h in fs :: h.duplicateOf != Some(g.id)
    ensures Flat(fs[i := g])
  {
    var gs := fs[i := g];
    MemberUpdated(fs, i, g);
    assert forall a | a in gs :: a.duplicateOf != Some(g.id);
    forall a, b | a in gs && b in gs && a.duplicateOf == Some(b.id)
      ensures b.duplicateOf.None?
    {
      assert b in fs;
      if a == g {
        OriginalFlat(fs, d, b);
      }
    }
  }

  lemma RetryChainsExact(fs: seq<Filing>, i: nat, identified: Identification)
    requires i < |fs| && UniqueFilings(fs) && AllEnd(Supersession(fs))
    ensures UniqueFilings(Updated(fs, Retry(i, identified)))
    ensures AllEnd(Supersession(Updated(fs, Retry(i, identified)))) <==> RetryKeepsChains(fs, fs[i], identified)
  {
    hide Supersession, FirstCopy, LastReady, UniqueFilings, AllEnd, Reaches;
    var f := fs[i];
    var g := Retried(fs, f, identified);
    ReplaceUnique(fs, i, g);
    SupersessionReplaced(fs, i, g);
    var s := NewPredecessor(fs, f, identified);
    if s.Some? {
      UpdateEnds(Supersession(fs), f.id, s.value);
      ReachesWithout(Supersession(fs), s.value, f.id);
    } else if g.supersedes.None? {
      RemoveAllEnd(Supersession(fs), f.id);
    } else {
      SameSupersession(fs, i, g);
    }
  }

  /** A retry keeps the links in order exactly when it neither identifies a filing that has copies, nor
      puts behind it a filing whose chain leads back to it. */
  lemma RetryLinksExact(k: Categories, w: World, i: nat, identified: Identification)
    requires Inv(k, w) && Allowed(w, Retry(i, identified)) && LinksOk(w.filings)
    ensures var fs, gs := w.filings, Updated(w.filings, Retry(i, identified));
      && UniqueFilings(gs)
      && (LinksOk(gs) <==> RetryKeepsFlat(fs, fs[i], identified) && RetryKeepsChains(fs, fs[i], identified))
  {
    hide Flat, AllEnd, RetryKeepsFlat, RetryKeepsChains;
    var fs := w.filings;
    RetryFlatExact(k, w, i, identified);
    RetryChainsExact(fs, i, identified);
    RetryTargets(fs, i, identified);
  }

  lemma RetryTargets(fs: seq<Filing>, i: nat, identified: Identification)
    requires i < |fs| && TargetsRegistered(fs)
    ensures TargetsRegistered(Updated(fs, Retry(i, identified)))
  {
    var f := fs[i];
    var g := Retried(fs, f, identified);
    if identified.Identified? {
      LastReadyIn(fs, identified.partyId, identified.period, identified.kind, Some(f.id));
    }
    if g.supersedes.Some? && g.supersedes == f.supersedes {
      var d :| d in fs && d.id == f.supersedes.value;
    }
    ReplaceTargets(fs, i, g);
  }

  /** In particular when no other filing links to it. */
  lemma RetryNotLinked(k: Categories, w: World, i: nat, identified: Identification)
    requires Inv(k, w) && Allowed(w, Retry(i, identified)) && LinksOk(w.filings) && NotLinked(w.filings, w.filings[i].id)
    ensures var gs := Updated(w.filings, Retry(i, identified)); UniqueFilings(gs) && LinksOk(gs)
  {
    var fs := w.filings;
    var f := fs[i];
    assert FilingOk(w, f);
    RetryLinksExact(k, w, i, identified);
    forall h | h in fs
      ensures h.duplicateOf != Some(f.id)
    {
      if h.id == f.id {
        UniqueId(fs, f, h);
      }
    }
    var s := NewPredecessor(fs, f, identified);
    if s.Some? {
      LastReadyIn(fs, identified.partyId, identified.period, identified.kind, Some(f.id));
      LinksNowhere(fs, f.id);
      NotReached(Supersession(fs) - {f.id}, f.id, s.value);
      ReachesWithout(Supersession(fs), s.value, f.id);
    }
  }

  // ----- Whole runs -----

  /** A retry that reaches the state file or memory keeps the links in order. */
  ghost predicate LinkSafe(w: World, e: Event) {
    e.Save? && e.change.Retry? && e.result != FailedOld && e.change.index < |w.filings| ==>
      var f := w.filings[e.change.index];
      && UniqueFilings(w.filings)
      && RetryKeepsFlat(w.filings, f, e.change.identified) && RetryKeepsChains(w.filings, f, e.change.identified)
  }

  ghost predicate SafeRun(k: Categories, w: World, es: seq<Event>) {
    es == [] || (SafeRun(k, w, es[..|es| - 1]) && LinkSafe(Reach(k, w, es[..|es| - 1]), es[|es| - 1]))
  }

  lemma ChangeLinks(k: Categories, w: World, c: Change)
    requires Inv(k, w) && Allowed(w, c) && LinksOk(w.filings)
    ensures UniqueFilings(Updated(w.filings, c))
    ensures LinksOk(Updated(w.filings, c)) <==> LinkSafe(w, Save(c, Saved))
  {
    hide LinksOk, RetryKeepsFlat, RetryKeepsChains;
    match c
    case Register(f) => RegisterLinks(k, w, f);
    case Revise(i, g) => ReplaceLinks(w.filings, i, g);
    case Retry(i, identified) => RetryLinksExact(k, w, i, identified);
    case Deliver(i) => ReplaceLinks(w.filings, i, w.filings[i].(deliveredRevision := Some(Revision(w.filings[i]))));
  }

  ghost predicate ListLinksOk(fs: seq<Filing>) {
    UniqueFilings(fs) && LinksOk(fs)
  }

  ghost predicate BothLinksOk(w: World) {
    ListLinksOk(w.filings) && ListLinksOk(w.disk)
  }

  lemma EventLinks(k: Categories, w: World, e: Event)
    requires Inv(k, w) && Enabled(w, e) && BothLinksOk(w)
    ensures BothLinksOk(After(k, w, e)) <==> LinkSafe(w, e)
  {
    hide LinksOk, UniqueFilings, Inv, RetryKeepsFlat, RetryKeepsChains, Allowed;
    if e.Save? {
      InvUnique(k, w);
      ChangeLinks(k, w, e.change);
      InBounds(w, e.change);
      ListsAfter(k, w, e.change, e.result);
    }
  }

  lemma InvUnique(k: Categories, w: World)
    requires Inv(k, w)
    ensures UniqueFilings(w.filings) && UniqueFilings(w.disk)
  {
  }

  lemma InBounds(w: World, c: Change)
    requires Allowed(w, c)
    ensures !c.Register? ==> c.index < |w.filings|
  {
  }

  /** Memory takes the new list if the save reports success, the state file unless it failed before the rename. */
  lemma ListsAfter(k: Categories, w: World, c: Change, result: SaveResult)
    requires !c.Register? ==> c.index < |w.filings|
    ensures var v := After(k, w, Save(c, result));
      && v.filings == (if result == Saved then Updated(w.filings, c) else w.filings)
      && v.disk == (if result == FailedOld then w.disk else Updated(w.filings, c))
  {
  }

  lemma InitialLinks()
    ensures BothLinksOk(INITIAL)
  {
    forall x: Id
      ensures Ends(Supersession([]), x)
    {
      assert EndsWithin(Supersession([]), x, 0);
    }
  }

  /** At every moment of the run the links are in order. */
  ghost predicate AlwaysLinked(k: Categories, es: seq<Event>) {
    BothLinksOk(Reach(k, INITIAL, es)) && (es != [] ==> AlwaysLinked(k, es[..|es| - 1]))
  }

  /** Throughout a run, in memory and on disk, duplicates point at filings that are not duplicates and
      supersession chains end, exactly if every retry that is written keeps the two conditions. */
  lemma {:induction false} LinksStay(k: Categories, es: seq<Event>)
    requires Run(k, INITIAL, es)
    ensures AlwaysLinked(k, es) <==> SafeRun(k, INITIAL, es)
  {
    hide BothLinksOk, LinkSafe, Inv, Enabled, After;
    if es == [] {
      InitialLinks();
    } else {
      var front := es[..|es| - 1];
      LinksStay(k, front);
      InitialInv(k);
      RunInv(k, INITIAL, front);
      if AlwaysLinked(k, front) {
        EventLinks(k, Reach(k, INITIAL, front), es[|es| - 1]);
      }
    }
  }

  /** Without that restriction the links can break: a filing becomes a duplicate of itself. Its landing is
      unavailable, an equal file arrives and becomes its duplicate, it is quarantined, and retried. */
  lemma SelfDuplicate(k: Categories) returns (es: seq<Event>)
    ensures Run(k, INITIAL, es)
    ensures var fs := Reach(k, INITIAL, es).filings;
      |fs| == 2 && fs[0].duplicateOf == Some(fs[0].id) && !Flat(fs)
  {
    var before, a, b := CopyOfUnavailable(k);
    var w := Reach(k, INITIAL, before);
    var refused := a.(revision := Some(Revision(a) + 1), status := Quarantined);
    var quarantine := Save(Revise(0, refused), Saved);
    RunMore(k, INITIAL, before, quarantine);
    var middle := before + [quarantine];
    var fs := Reach(k, INITIAL, middle).filings;
    assert fs == [refused, b] && fs[1..] == [b];
    var named := Identified("p", "r", "2024-01", "k", None);
    var retry := Save(Retry(0, named), Saved);
    RunMore(k, INITIAL, middle, retry);
    es := middle + [retry];
    SelfRetried(fs, named);
    assert Reach(k, INITIAL, es).filings[0] in Reach(k, INITIAL, es).filings;
  }

  lemma SelfRetried(fs: seq<Filing>, named: Identification)
    requires |fs| == 2 && fs[0].status == Quarantined && named.Identified?
    requires fs[1].id != fs[0].id && fs[1].status == Duplicate && fs[1].sha256 == fs[0].sha256 && fs[1].duplicateOf == Some(fs[0].id)
    ensures Retried(fs, fs[0], named).duplicateOf == Some(fs[0].id)
    ensures Retried(fs, fs[0], named).id == fs[0].id
  {
    assert fs[1..] == [fs[1]];
    assert FirstCopy(fs[1..], fs[0].sha256, Some(fs[0].id)) == Some(fs[1]);
    assert FirstCopy(fs, fs[0].sha256, Some(fs[0].id)) == Some(fs[1]);
  }

  /** A filing waits for its landing database while an equal file arrives. */
  lemma CopyOfUnavailable(k: Categories) returns (es: seq<Event>, a: Filing, b: Filing)
    ensures Run(k, INITIAL, es)
    ensures Reach(k, INITIAL, es).filings == [a, b]
    ensures a.status == Ready && a.landing.None? && b.status == Duplicate && b.id != a.id
    ensures b.duplicateOf == Some(a.id) && b.sha256 == a.sha256
  {
    var fresh_ := Sample([], "A", "1");
    var e1 := Save(Register(fresh_), Saved);
    SampleAllowed(INITIAL, "A", "1");
    RunMore(k, INITIAL, [], e1);
    var w1 := Reach(k, INITIAL, [] + [e1]);
    assert w1.filings == [fresh_];
    a := fresh_.(revision := Some(2), reason := Some("unavailable"));
    var e2 := Save(Revise(0, a), Saved);
    RunMore(k, INITIAL, [] + [e1], e2);
    var w2 := Reach(k, INITIAL, [] + [e1] + [e2]);
    assert w2.filings == [a];
    b := Sample(w2.filings, "B", "1");
    SampleAllowed(w2, "B", "1");
    assert FirstCopy(w2.filings, "1", None) == Some(a);
    var e3 := Save(Register(b), Saved);
    RunMore(k, INITIAL, [] + [e1] + [e2], e3);
    es := [] + [e1] + [e2] + [e3];
    assert Reach(k, INITIAL, es).filings == [a, b];
  }

  /** Nor do chains always end: a filing is registered, a second one supersedes it, the first is
      quarantined, and retried with the same identification. Then each supersedes the other. */
  lemma SupersedesEachOther(k: Categories) returns (es: seq<Event>)
    ensures Run(k, INITIAL, es)
    ensures var fs := Reach(k, INITIAL, es).filings;
      && |fs| == 2 && fs[0].supersedes == Some(fs[1].id) && fs[1].supersedes == Some(fs[0].id)
      && UniqueFilings(fs) && !AllEnd(Supersession(fs))
  {
    var before, a, b := Superseded(k);
    var refused := a.(revision := Some(Revision(a) + 1), status := Quarantined);
    var quarantine := Save(Revise(0, refused), Saved);
    RunMore(k, INITIAL, before, quarantine);
    var middle := before + [quarantine];
    var fs := Reach(k, INITIAL, middle).filings;
    assert fs == [refused, b];
    var named := Identified("p", "r", "2024-01", "k", None);
    var retry := Save(Retry(0, named), Saved);
    RunMore(k, INITIAL, middle, retry);
    es := middle + [retry];
    RetriedBehind(fs, named);
    InitialInv(k);
    RunInv(k, INITIAL, es);
    TwoInCycle(Reach(k, INITIAL, es).filings);
  }

  lemma TwoInCycle(fs: seq<Filing>)
    requires UniqueFilings(fs) && |fs| == 2 && fs[0].supersedes == Some(fs[1].id) && fs[1].supersedes == Some(fs[0].id)
    ensures !AllEnd(Supersession(fs))
  {
    var m, x, y := Supersession(fs), fs[0].id, fs[1].id;
    assert fs[0] in fs && fs[1] in fs;
    assert Leads(m, x, x, 0) && Leads(m, y, x, 1) && Leads(m, x, x, 2);
    forall n: nat
      ensures !EndsWithin(m, x, n)
    {
      CycleRuns(m, x, 2, n);
    }
    assert !Ends(m, x);
  }

  lemma RetriedBehind(fs: seq<Filing>, named: Identification)
    requires |fs| == 2 && fs[0].status == Quarantined && named.Identified? && fs[1].id != fs[0].id && fs[1].sha256 != fs[0].sha256
    requires IsPredecessor(fs[1], named.partyId, named.period, named.kind, Some(fs[0].id))
    ensures Retried(fs, fs[0], named).supersedes == Some(fs[1].id) && Retried(fs, fs[0], named).id == fs[0].id
  {
    FirstCopyIn(fs, fs[0].sha256, Some(fs[0].id));
    assert FirstCopy(fs, fs[0].sha256, Some(fs[0].id)) == None;
    assert LastReady(fs, named.partyId, named.period, named.kind, Some(fs[0].id)) == Some(fs[1]);
  }

  /** Two filings of one party, period and kind arrive one after the other. */
  lemma Superseded(k: Categories) returns (es: seq<Event>, a: Filing, b: Filing)
    ensures Run(k, INITIAL, es)
    ensures Reach(k, INITIAL, es).filings == [a, b]
    ensures a.status == Ready && a.landing.None? && a.duplicateOf.None? && b.id != a.id && b.sha256 != a.sha256
    ensures b.supersedes == Some(a.id) && IsPredecessor(b, "p", "2024-01", "k", Some(a.id))
  {
    a := Sample([], "A", "1");
    var e1 := Save(Register(a), Saved);
    SampleAllowed(INITIAL, "A", "1");
    RunMore(k, INITIAL, [], e1);
    var w1 := Reach(k, INITIAL, [] + [e1]);
    assert w1.filings == [a];
    b := Sample(w1.filings, "B", "2");
    SampleAllowed(w1, "B", "2");
    assert w1.filings[1..] == [] && FirstCopy(w1.filings, "2", None) == None;
    assert LastReady(w1.filings, "p", "2024-01", "k", None) == Some(a);
    var e2 := Save(Register(b), Saved);
    RunMore(k, INITIAL, [] + [e1], e2);
    es := [] + [e1] + [e2];
    assert Reach(k, INITIAL, es).filings == [a, b];
  }
}
