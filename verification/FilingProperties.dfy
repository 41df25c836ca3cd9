/** What every run of the filing register keeps, with failed saves and restarts anywhere in it. */
module FilingProperties {
  import opened Wrappers
  import opened Filings
  import Chains

  type Categories = Option<string> -> string

  // ----- Growth -----

  /** The same arrival, not earlier in its history. Revisions that agree stand for the same notice. */
  ghost predicate Later(k: Categories, f: Filing, g: Filing) {
    && SameIdentity(f, g) && KeepsReceipt(f, g)
    && Revision(f) <= Revision(g)
    && (Revision(f) == Revision(g) ==> NoticeOf(k, f) == NoticeOf(k, g))
  }

  /** Filings are only added at the end, and each one only advances. */
  ghost predicate Grows(k: Categories, fs: seq<Filing>, gs: seq<Filing>) {
    |fs| <= |gs| && forall i | 0 <= i < |fs| :: Later(k, fs[i], gs[i])
  }

  lemma GrowsTransitive(k: Categories, a: seq<Filing>, b: seq<Filing>, c: seq<Filing>)
    requires Grows(k, a, b) && Grows(k, b, c)
    ensures Grows(k, a, c)
  {
    forall i | 0 <= i < |a|
      ensures Later(k, a[i], c[i])
    {
      assert Later(k, a[i], b[i]) && Later(k, b[i], c[i]);
    }
  }

  // ----- Invariant -----

  /** Ids are unique, and so are pairs of path and fingerprint. */
  ghost predicate UniqueFilings(fs: seq<Filing>) {
    forall i, j | 0 <= i < j < |fs| ::
      fs[i].id != fs[j].id && !(fs[i].path == fs[j].path && fs[i].fingerprint == fs[j].fingerprint)
  }

  /** What was delivered is no newer than the filing, and the receiver has heard it. */
  ghost predicate DeliveredOk(w: World, f: Filing) {
    f.deliveredRevision.Some? ==>
      && f.deliveredRevision.value <= Revision(f)
      && f.id in w.inbox && w.inbox[f.id].revision >= f.deliveredRevision.value
  }

  ghost predicate FilingOk(w: World, f: Filing) {
    && f.id in w.used && DeliveredOk(w, f) && ReceiptCommitted(w.commits, f)
    && (f.status == Duplicate <==> f.duplicateOf.Some?)
  }

  ghost predicate IsCopy(f: Filing, g: Filing) {
    f.duplicateOf == Some(g.id) && f.sha256 == g.sha256
  }

  /** Every duplicate names a registered filing of the same bytes. */
  ghost predicate CopiesRegistered(fs: seq<Filing>) {
    forall f | f in fs && f.duplicateOf.Some? :: exists g | g in fs :: IsCopy(f, g)
  }

  ghost predicate ListOk(w: World, fs: seq<Filing>) {
    UniqueFilings(fs) && CopiesRegistered(fs) && forall f | f in fs :: FilingOk(w, f)
  }

  /** A notice sent for this filing: not from its future, and the current one if of its revision. */
  ghost predicate NoticeFor(k: Categories, n: Notice, f: Filing) {
    n.filingId == f.id && n.revision <= Revision(f) && (n.revision == Revision(f) ==> n == NoticeOf(k, f))
  }

  ghost predicate SentOk(k: Categories, w: World) {
    && (forall n | n in w.sent :: exists f | f in w.filings :: NoticeFor(k, n, f))
    && (forall m, n | m in w.sent && n in w.sent && m.filingId == n.filingId && m.revision == n.revision :: m == n)
    && (forall id | id in w.inbox :: w.inbox[id] in w.sent && w.inbox[id].filingId == id)
  }

  /** Commits are of filings whose ids were drawn. */
  ghost predicate CommitsOk(w: World) {
    forall id | id in w.commits :: w.commits[id].filingId == id && id in w.used
  }

  ghost predicate Inv(k: Categories, w: World) {
    ListOk(w, w.filings) && ListOk(w, w.disk) && Grows(k, w.filings, w.disk) && SentOk(k, w) && CommitsOk(w)
  }

  lemma UniqueId(fs: seq<Filing>, f: Filing, g: Filing)
    requires UniqueFilings(fs) && f in fs && g in fs && f.id == g.id
    ensures f == g
  {
    var i :| 0 <= i < |fs| && fs[i] == f;
    var j :| 0 <= j < |fs| && fs[j] == g;
    assert i == j;
  }

  // ----- One change to the list -----

  lemma ArrivalShape(fs: seq<Filing>, f: Filing, identified: Identification, strategy: Option<string>)
    requires f == Arrival(fs, f.id, f.path, f.fingerprint, f.sha256, f.receivedAt, identified, strategy)
    ensures f.revision == Some(1) && f.deliveredRevision.None? && f.landing.None?
    ensures f.status == Duplicate <==> f.duplicateOf.Some?
    ensures f.duplicateOf.Some? ==> exists d | d in fs :: f.duplicateOf == Some(Original(d)) && d.status != Quarantined && d.sha256 == f.sha256
    ensures f.supersedes.Some? ==> exists d | d in fs :: f.supersedes == Some(d.id)
  {
    if identified.Identified? {
      FirstCopyIn(fs, f.sha256, None);
      LastReadyIn(fs, identified.partyId, identified.period, identified.kind, None);
    }
  }

  lemma RetriedShape(fs: seq<Filing>, f: Filing, identified: Identification)
    requires f in fs && f.status == Quarantined && f.landing.None? && f.duplicateOf.None?
    ensures var g := Retried(fs, f, identified);
      && SameIdentity(f, g) && g.landing.None? && g.deliveredRevision == f.deliveredRevision
      && g.revision == Some(Revision(f) + 1)
      && (g.status == Duplicate <==> g.duplicateOf.Some?)
      && (g.duplicateOf.Some? ==> exists d | d in fs ::
           g.duplicateOf == Some(Original(d)) && d.id != f.id && d.status != Quarantined && d.sha256 == f.sha256)
      && (g.supersedes != f.supersedes && g.supersedes.Some? ==> exists d | d in fs :: g.supersedes == Some(d.id) && d.id != f.id)
  {
    if identified.Identified? {
      FirstCopyIn(fs, f.sha256, Some(f.id));
      LastReadyIn(fs, identified.partyId, identified.period, identified.kind, Some(f.id));
    }
  }

  /** The original a copy points at, when it points through `d`. */
  lemma OriginalRegistered(fs: seq<Filing>, d: Filing)
    requires CopiesRegistered(fs) && d in fs
    ensures exists g | g in fs :: g.id == Original(d) && g.sha256 == d.sha256
  {
    if d.duplicateOf.Some? {
      var g :| g in fs && IsCopy(d, g);
      assert g.id == Original(d);
    } else {
      assert d.id == Original(d);
    }
  }

  lemma HasOriginal(fs: seq<Filing>, f: Filing)
    requires CopiesRegistered(fs) && f in fs
    ensures f.duplicateOf.Some? ==> exists h | h in fs :: f.duplicateOf == Some(h.id) && h.sha256 == f.sha256
  {
    if f.duplicateOf.Some? {
      var h :| h in fs && IsCopy(f, h);
    }
  }

  lemma MemberUpdated(fs: seq<Filing>, i: nat, g: Filing)
    requires i < |fs|
    ensures forall f | f in fs[i := g] :: f == g || f in fs
    ensures g in fs[i := g]
    ensures forall f | f in fs && f != fs[i] :: f in fs[i := g]
  {
    assert fs[i := g][i] == g;
    forall f | f in fs && f != fs[i]
      ensures f in fs[i := g]
    {
      var j :| 0 <= j < |fs| && fs[j] == f;
      assert fs[i := g][j] == f;
    }
  }

  /** Replacing a filing by one of the same arrival keeps the list in order. */
  lemma ReplaceUnique(fs: seq<Filing>, i: nat, g: Filing)
    requires i < |fs| && UniqueFilings(fs) && SameIdentity(fs[i], g)
    ensures UniqueFilings(fs[i := g])
  {
    var gs := fs[i := g];
    forall a, b | 0 <= a < b < |gs|
      ensures gs[a].id != gs[b].id && !(gs[a].path == gs[b].path && gs[a].fingerprint == gs[b].fingerprint)
    {
      assert fs[a].id != fs[b].id;
    }
  }

  /** Copies stay registered when a filing is replaced, if the replacement points at a registered one. */
  lemma ReplaceCopies(fs: seq<Filing>, i: nat, g: Filing)
    requires i < |fs| && CopiesRegistered(fs) && SameIdentity(fs[i], g)
    requires g.duplicateOf.Some? ==> exists h | h in fs :: g.duplicateOf == Some(h.id) && h.sha256 == g.sha256
    ensures CopiesRegistered(fs[i := g])
  {
    var gs := fs[i := g];
    MemberUpdated(fs, i, g);
    forall f | f in gs && f.duplicateOf.Some?
      ensures exists h | h in gs :: IsCopy(f, h)
    {
      var h :| h in fs && f.duplicateOf == Some(h.id) && h.sha256 == f.sha256;
      if h == fs[i] {
        assert g in gs && IsCopy(f, g);
      } else {
        assert h in gs && IsCopy(f, h);
      }
    }
  }

  lemma ReplaceGrows(k: Categories, fs: seq<Filing>, i: nat, g: Filing)
    requires i < |fs| && Later(k, fs[i], g)
    ensures Grows(k, fs, fs[i := g])
  {
    forall j | 0 <= j < |fs|
      ensures Later(k, fs[j], fs[i := g][j])
    {
    }
  }

  /** The world in which the list saved by a change is judged: its id is drawn. */
  function Drawing(w: World, c: Change): World {
    w.(used := w.used + Drawn(c))
  }

  lemma AppendUnique(fs: seq<Filing>, f: Filing)
    requires UniqueFilings(fs)
    requires forall g | g in fs :: g.id != f.id && !(g.path == f.path && g.fingerprint == f.fingerprint)
    ensures UniqueFilings(fs + [f])
  {
    var gs := fs + [f];
    forall a, b | 0 <= a < b < |gs|
      ensures gs[a].id != gs[b].id && !(gs[a].path == gs[b].path && gs[a].fingerprint == gs[b].fingerprint)
    {
      assert gs[a] in fs;
      if b < |fs| {
        assert fs[a].id != fs[b].id;
      }
    }
  }

  lemma AppendCopies(fs: seq<Filing>, f: Filing)
    requires CopiesRegistered(fs)
    requires f.duplicateOf.Some? ==> exists h | h in fs :: IsCopy(f, h)
    ensures CopiesRegistered(fs + [f])
  {
    var gs := fs + [f];
    forall g | g in gs && g.duplicateOf.Some?
      ensures exists h | h in gs :: IsCopy(g, h)
    {
      var h :| h in fs && IsCopy(g, h);
      assert h in gs;
    }
  }

  lemma ArrivalOk(w: World, f: Filing)
    requires IsArrival(w, f) && CopiesRegistered(w.filings)
    ensures f.deliveredRevision.None? && f.landing.None? && (f.status == Duplicate <==> f.duplicateOf.Some?)
    ensures f.duplicateOf.Some? ==> exists h | h in w.filings :: IsCopy(f, h)
  {
    var identified, strategy :|
      f == Arrival(w.filings, f.id, f.path, f.fingerprint, f.sha256, f.receivedAt, identified, strategy);
    ArrivalShape(w.filings, f, identified, strategy);
    if f.duplicateOf.Some? {
      var d :| d in w.filings && f.duplicateOf == Some(Original(d)) && d.sha256 == f.sha256;
      OriginalRegistered(w.filings, d);
      var h :| h in w.filings && h.id == Original(d) && h.sha256 == d.sha256;
      assert IsCopy(f, h);
    }
  }

  lemma AppendGrows(k: Categories, fs: seq<Filing>, f: Filing)
    ensures Grows(k, fs, fs + [f])
  {
    forall i | 0 <= i < |fs|
      ensures Later(k, fs[i], (fs + [f])[i])
    {
    }
  }

  lemma RegisterOk(k: Categories, w: World, f: Filing)
    requires Inv(k, w) && IsArrival(w, f)
    ensures var gs := w.filings + [f]; ListOk(Drawing(w, Register(f)), gs) && Grows(k, w.filings, gs)
  {
    var fs := w.filings;
    var w' := Drawing(w, Register(f));
    ArrivalOk(w, f);
    forall g | g in fs
      ensures g.id != f.id
    {
      assert FilingOk(w, g);
    }
    AppendUnique(fs, f);
    AppendCopies(fs, f);
    ListOkDrawn(w, w', fs);
    assert FilingOk(w', f);
    AppendGrows(k, fs, f);
  }

  /** Drawing more ids disturbs no filing. */
  lemma ListOkDrawn(w: World, w': World, fs: seq<Filing>)
    requires ListOk(w, fs) && w.used <= w'.used && w'.inbox == w.inbox && w'.commits == w.commits
    ensures ListOk(w', fs)
  {
    forall f | f in fs
      ensures FilingOk(w', f)
    {
      assert FilingOk(w, f);
    }
  }

  lemma ReviseOk(k: Categories, w: World, i: nat, g: Filing)
    requires Inv(k, w) && Allowed(w, Revise(i, g))
    ensures var gs := w.filings[i := g]; ListOk(w, gs) && Grows(k, w.filings, gs)
  {
    hide SentOk, CopiesRegistered, UniqueFilings, CommitsOk;
    var fs := w.filings;
    var f := fs[i];
    assert FilingOk(w, f);
    ReplaceUnique(fs, i, g);
    HasOriginal(fs, f);
    ReplaceCopies(fs, i, g);
    MemberUpdated(fs, i, g);
    ReplaceGrows(k, fs, i, g);
  }

  lemma RetryOk(k: Categories, w: World, i: nat, identified: Identification)
    requires Inv(k, w) && Allowed(w, Retry(i, identified))
    ensures var gs := Updated(w.filings, Retry(i, identified)); ListOk(w, gs) && Grows(k, w.filings, gs)
  {
    hide SentOk, CopiesRegistered, UniqueFilings, CommitsOk, Retried;
    var fs := w.filings;
    var f := fs[i];
    assert FilingOk(w, f);
    var g := Retried(fs, f, identified);
    RetriedShape(fs, f, identified);
    ReplaceUnique(fs, i, g);
    if g.duplicateOf.Some? {
      var d :| d in fs && g.duplicateOf == Some(Original(d)) && d.id != f.id && d.status != Quarantined && d.sha256 == f.sha256;
      OriginalRegistered(fs, d);
    }
    ReplaceCopies(fs, i, g);
    MemberUpdated(fs, i, g);
    ReplaceGrows(k, fs, i, g);
  }

  lemma DeliverOk(k: Categories, w: World, i: nat)
    requires Inv(k, w) && Allowed(w, Deliver(i))
    ensures var gs := Updated(w.filings, Deliver(i)); ListOk(w, gs) && Grows(k, w.filings, gs)
  {
    hide SentOk, CopiesRegistered, UniqueFilings, CommitsOk;
    var fs := w.filings;
    var f := fs[i];
    assert FilingOk(w, f);
    var g := f.(deliveredRevision := Some(Revision(f)));
    ReplaceUnique(fs, i, g);
    HasOriginal(fs, f);
    ReplaceCopies(fs, i, g);
    MemberUpdated(fs, i, g);
    ReplaceGrows(k, fs, i, g);
  }

  lemma ChangeOk(k: Categories, w: World, c: Change)
    requires Inv(k, w) && Allowed(w, c)
    ensures ListOk(Drawing(w, c), Updated(w.filings, c)) && Grows(k, w.filings, Updated(w.filings, c))
  {
    assert Drawing(w, c).used == w.used || c.Register?;
    assert !c.Register? ==> Drawing(w, c) == w;
    match c
    case Register(f) => RegisterOk(k, w, f);
    case Revise(i, g) => ReviseOk(k, w, i, g);
    case Retry(i, identified) => RetryOk(k, w, i, identified);
    case Deliver(i) => DeliverOk(k, w, i);
  }

  // ----- Events -----

  lemma GrowsReflexive(k: Categories, fs: seq<Filing>)
    ensures Grows(k, fs, fs)
  {
  }

  /** Notices stay in order when the filings advance. */
  lemma SentGrows(k: Categories, w: World, gs: seq<Filing>)
    requires SentOk(k, w) && Grows(k, w.filings, gs)
    ensures SentOk(k, w.(filings := gs))
  {
    forall n | n in w.sent
      ensures exists g | g in gs :: NoticeFor(k, n, g)
    {
      var f :| f in w.filings && NoticeFor(k, n, f);
      var i :| 0 <= i < |w.filings| && w.filings[i] == f;
      assert Later(k, f, gs[i]);
      assert gs[i] in gs && NoticeFor(k, n, gs[i]);
    }
  }

  lemma SaveInv(k: Categories, w: World, c: Change, result: SaveResult)
    requires Inv(k, w) && Allowed(w, c)
    ensures var w' := After(k, w, Save(c, result)); Inv(k, w') && Grows(k, w.filings, w'.filings)
  {
    var next := Updated(w.filings, c);
    var w' := After(k, w, Save(c, result));
    ChangeOk(k, w, c);
    ListOkDrawn(Drawing(w, c), w', next);
    ListOkDrawn(w, w', w.filings);
    ListOkDrawn(w, w', w.disk);
    GrowsReflexive(k, w.filings);
    GrowsReflexive(k, next);
    SentGrows(k, w, w'.filings);
    SentSame(k, w.(filings := w'.filings), w');
  }

  lemma SentSame(k: Categories, w: World, w': World)
    requires SentOk(k, w) && w'.filings == w.filings && w'.sent == w.sent && w'.inbox == w.inbox
    ensures SentOk(k, w')
  {
  }

  lemma HearKeeps(inbox: map<Id, Notice>, n: Notice)
    ensures forall id | id in inbox :: id in Hear(inbox, n) && Hear(inbox, n)[id].revision >= inbox[id].revision
    ensures n.filingId in Hear(inbox, n) && Hear(inbox, n)[n.filingId].revision >= n.revision
  {
  }

  lemma SendInv(k: Categories, w: World, i: nat, heard: bool)
    requires Inv(k, w) && i < |w.filings|
    ensures Inv(k, After(k, w, Send(i, heard)))
  {
    var f := w.filings[i];
    var n := NoticeOf(k, f);
    var w' := After(k, w, Send(i, heard));
    HearKeeps(w.inbox, n);
    assert forall g | FilingOk(w, g) :: FilingOk(w', g);
    assert NoticeFor(k, n, f);
    assert forall m :: m in w'.sent <==> m in w.sent || m == n;
    forall m | m in w.sent && m.filingId == n.filingId && m.revision == n.revision
      ensures m == n
    {
      var g :| g in w.filings && NoticeFor(k, m, g);
      UniqueId(w.filings, f, g);
    }
    forall id | id in w'.inbox
      ensures w'.inbox[id] in w'.sent && w'.inbox[id].filingId == id
    {
      assert w'.inbox[id] == n || (id in w.inbox && w'.inbox[id] == w.inbox[id]);
    }
    assert SentOk(k, w');
  }

  lemma LandInv(k: Categories, w: World, i: nat, receipt: Option<Receipt>)
    requires Inv(k, w) && Enabled(w, Land(i, receipt))
    ensures Inv(k, After(k, w, Land(i, receipt)))
  {
    var w' := After(k, w, Land(i, receipt));
    assert FilingOk(w, w.filings[i]);
    assert forall f | FilingOk(w, f) :: FilingOk(w', f);
    assert SentOk(k, w');
  }

  lemma RestartInv(k: Categories, w: World)
    requires Inv(k, w)
    ensures Inv(k, After(k, w, Restart))
  {
    var w' := After(k, w, Restart);
    SentGrows(k, w, w.disk);
    GrowsReflexive(k, w.disk);
    assert forall f | FilingOk(w, f) :: FilingOk(w', f);
  }

  lemma StepInv(k: Categories, w: World, e: Event)
    requires Inv(k, w) && Enabled(w, e)
    ensures Inv(k, After(k, w, e)) && Grows(k, w.filings, After(k, w, e).filings)
  {
    GrowsReflexive(k, w.filings);
    match e
    case Save(c, result) => SaveInv(k, w, c, result);
    case Send(i, heard) => SendInv(k, w, i, heard);
    case Land(i, receipt) => LandInv(k, w, i, receipt);
    case Restart => RestartInv(k, w);
  }

  /** Every run keeps the invariant and only ever grows the register. */
  lemma {:induction false} RunInv(k: Categories, w: World, es: seq<Event>)
    requires Inv(k, w) && Run(k, w, es)
    ensures Inv(k, Reach(k, w, es)) && Grows(k, w.filings, Reach(k, w, es).filings)
  {
    if es == [] {
      GrowsReflexive(k, w.filings);
    } else {
      var front := es[..|es| - 1];
      RunInv(k, w, front);
      var v := Reach(k, w, front);
      StepInv(k, v, es[|es| - 1]);
      GrowsTransitive(k, w.filings, v.filings, Reach(k, w, es).filings);
    }
  }

  lemma {:induction false} RunSplit(k: Categories, w: World, a: seq<Event>, b: seq<Event>)
    requires Run(k, w, a + b)
    ensures Run(k, w, a) && Run(k, Reach(k, w, a), b) && Reach(k, w, a + b) == Reach(k, Reach(k, w, a), b)
    decreases |b|
  {
    if b == [] {
      assert a + b == a;
    } else {
      var front := b[..|b| - 1];
      assert (a + b)[..|a + b| - 1] == a + front;
      RunSplit(k, w, a, front);
    }
  }

  lemma InitialInv(k: Categories)
    ensures Inv(k, INITIAL)
  {
  }
}
