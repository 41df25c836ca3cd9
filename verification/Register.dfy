/** The filing register as the source runs it: methods that update the list in memory, the state file,
    the landing database and the receiver. Every method extends a ghost history of events that is a run
    of the state machine, so the results about runs hold of it. Operations are queued one after the
    other, so a method runs without interleaving; outcomes of the outside are chosen arbitrarily. */
module Register {
  import opened Wrappers
  import opened Filings
  import opened FilingProperties
  import opened FilingHistory
  import opened Notices

  /** `strategy` is None without a landing configuration. */
  datatype Zone = Zone(categories: Categories, strategy: Option<string>, extracts: bool, lands: bool, delivers: bool)

  /** A file the scan visits: whether it can be opened, its digest, unless the file changed while it was
      read, what `identifyFile` says of it, and the id drawn should it be registered. */
  datatype Entry = Entry(
    name: string, fingerprint: string, opens: bool, digest: Option<string>, identified: Identification, newId: Id, receivedAt: string)

  /** What stands in a directory; links and special files are skipped. */
  datatype Node = File(entry: Entry) | Directory(nodes: seq<Node>) | Skipped

  /** The files below, in the order of the walk. */
  function Files(nodes: seq<Node>): seq<Entry> {
    if nodes == [] then []
    else
      (match nodes[0]
       case File(entry) => [entry]
       case Directory(inner) => Files(inner)
       case Skipped => [])
      + Files(nodes[1..])
  }

  datatype LandResult = Landed(receipt: Receipt) | Unavailable(message: string) | Refused(message: string, category: Option<string>)

  datatype ExtractResult = Extracted(summary: string) | NotExtracted(message: string)

  datatype PeriodResult = AsAt(date: Option<string>) | BadPeriod(message: string)

  /** What an operation reads from the rules file: whether the party and the rule of a filing are still there,
      and what `periodAsAt` makes of a period under that rule. */
  datatype Rules = Rules(
    attributes: (Option<string>, seq<string>) -> bool, asAt: (string, seq<string>) -> PeriodResult)

  /** A receipt that was sent, and the error it was answered with, if any. */
  datatype SentReceipt = SentReceipt(receipt: Receipt, error: Option<string>)

  /** The state file, the landing database, and the receiver of notices and receipts. */
  class Outside {
    var disk: seq<Filing>
    var commits: map<Id, Receipt>
    var inbox: map<Id, Notice>
    ghost var sent: seq<Notice>
    ghost var receipts: seq<SentReceipt>
    ghost var used: set<Id>

    constructor ()
      ensures disk == [] && commits == map[] && inbox == map[] && sent == [] && receipts == [] && used == {}
    {
      disk, commits, inbox, sent, receipts, used := [], map[], map[], [], [], {};
    }

    /** Writes a temporary file, renames it over the state file, and syncs the directory. A failure
        before the rename leaves the old file, one after it the new file. */
    method Persist(next: seq<Filing>) returns (ok: bool)
      modifies `disk
      ensures ok ==> disk == next
      ensures disk == next || disk == old(disk)
    {
      var renamed: bool, synced: bool := *, *;
      if !renamed {
        return false;
      }
      disk := next;
      return synced;
    }

    /** Sends a notice; it may be heard and still be reported as failed. */
    method Deliver(n: Notice) returns (ok: bool, ghost heard: bool)
      modifies `inbox, `sent
      ensures sent == old(sent) + [n]
      ensures inbox == if heard then Hear(old(inbox), n) else old(inbox)
      ensures ok ==> heard
    {
      var arrives: bool, answered: bool := *, *;
      heard := arrives;
      sent := sent + [n];
      if arrives {
        inbox := Hear(inbox, n);
      }
      return arrives && answered, heard;
    }

    /** Sends the receipt of a landing. */
    method SendReceipt(receipt: Receipt) returns (error: Option<string>)
      modifies `receipts
      ensures receipts == old(receipts) + [SentReceipt(receipt, error)]
    {
      var accepted: bool, message: string := *, *;
      error := if accepted then None else Some(message);
      receipts := receipts + [SentReceipt(receipt, error)];
    }

    /** `land`: never asked for a filing that is committed already. It may commit and still fail. */
    method Land(id: Id) returns (r: LandResult, ghost committed: Option<Receipt>)
      requires id !in commits
      modifies `commits
      ensures committed.Some? ==> committed.value.filingId == id
      ensures commits == if committed.None? then old(commits) else old(commits)[id := committed.value]
      ensures r.Landed? ==> committed == Some(r.receipt)
    {
      var partyCode: string, table: string, message: string := *, *, *;
      var rowCount: nat, category: Option<string> := *, *;
      var commit: bool, answered: bool, available: bool := *, *, *;
      committed := None;
      if commit {
        var receipt := Receipt(id, partyCode, table, rowCount);
        commits := commits[id := receipt];
        committed := Some(receipt);
        if answered {
          return Landed(receipt), committed;
        }
      }
      return if available then Refused(message, category) else Unavailable(message), committed;
    }

    /** `committed`: all receipts of the source, in some order, unless the database does not answer. */
    method Committed() returns (r: Option<seq<Receipt>>)
      requires forall id | id in commits :: commits[id].filingId == id
      ensures r.Some? ==> forall c | c in r.value :: c.filingId in commits && commits[c.filingId] == c
      ensures r.Some? ==> forall id | id in commits :: commits[id] in r.value
    {
      var answers: bool := *;
      if !answers {
        return None;
      }
      var left: set<Id>, found: seq<Receipt> := commits.Keys, [];
      while left != {}
        invariant left <= commits.Keys
        invariant forall c | c in found :: c.filingId in commits && commits[c.filingId] == c
        invariant forall id | id in commits && id !in left :: commits[id] in found
        decreases left
      {
        var id :| id in left;
        left, found := left - {id}, found + [commits[id]];
      }
      return Some(found);
    }
  }

  /** What a filing's processing may have changed before its revision is set. */
  ghost predicate Processed(commits: map<Id, Receipt>, f: Filing, g: Filing) {
    && SameIdentity(f, g) && KeepsReceipt(f, g) && ReceiptCommitted(commits, g)
    && g.revision == f.revision && g.deliveredRevision == f.deliveredRevision
    && g.supersedes == f.supersedes && g.duplicateOf == f.duplicateOf
    && (g.status == f.status || (f.status == Ready && g.status == Quarantined))
  }

  /** `value === null || value === ''` and the like. */
  predicate Missing(value: Option<string>) {
    value.None? || value.value == ""
  }

  /** What extraction makes of a filing: nothing, a summary, or quarantine with a reason; always quarantine if
      the attribution is gone. */
  ghost predicate AfterExtraction(rules: Rules, extracts: bool, f: Filing, g: Filing) {
    if !extracts || f.status != Ready || f.extraction.Some? then g == f
    else
      || (rules.attributes(f.partyId, f.ruleIds) && g.extraction.Some? && g == f.(extraction := g.extraction))
      || (g.reason.Some? && g == f.(status := Quarantined, reason := g.reason))
  }

  /** What landing makes of it: `answer` is what the database said, if it was asked. */
  ghost predicate AfterLanding(rules: Rules, f: Filing, g: Filing, answer: Option<LandResult>) {
    if f.status != Ready || f.extraction.None? then g == f && answer.None?
    else if !Landable(rules, f) then answer.None? && g.reason.Some? && g == f.(status := Quarantined, reason := g.reason)
    else answer.Some? && AfterAnswer(f, g, answer.value)
  }

  /** Its attribution still stands, and its period can be read. */
  predicate Landable(rules: Rules, f: Filing) {
    && rules.attributes(f.partyId, f.ruleIds) && !Missing(f.period) && !Missing(f.kind) && !Missing(f.partyId)
    && rules.asAt(f.period.value, f.ruleIds).AsAt?
  }

  ghost predicate AfterAnswer(f: Filing, g: Filing, answer: LandResult) {
    match answer
    case Unavailable(message) => g == f.(reason := Some(message))
    case Refused(message, category) => g == f.(status := Quarantined, reason := Some(message), quarantineCategory := category)
    case Landed(receipt) =>
      && g.landing.Some? && g.landing.value.receipt == receipt && g.landing.value.registered == g.landing.value.error.None?
      && g == f.(reason := None, landing := g.landing)
  }

  /** Extraction, and then landing unless there is no lander or the register is closing. */
  ghost predicate AfterProcessing(zone: Zone, rules: Rules, stopped: bool, f: Filing, g: Filing, answer: Option<LandResult>) {
    exists mid :: AfterExtraction(rules, zone.extracts, f, mid) &&
      if stopped || !zone.lands then g == mid && answer.None? else AfterLanding(rules, mid, g, answer)
  }

  /** The receipt that is sent on the way: that of a new landing. */
  function ReceiptOf(g: Filing, answer: Option<LandResult>): seq<SentReceipt> {
    if answer.Some? && answer.value.Landed? && g.landing.Some? then [SentReceipt(answer.value.receipt, g.landing.value.error)] else []
  }

  /** What is stored of a processed filing: a change takes the next revision. */
  function Stamped(f: Filing, g: Filing): Filing {
    if g == f then f else g.(revision := Some(Revision(f) + 1))
  }

  /** Has to be tried again: it waits for the database, or its receipt is not registered. */
  predicate Pending(f: Filing) {
    && f.status == Ready
    && ((f.reason.Some? && f.reason.value != "") || (f.landing.Some? && !f.landing.value.registered))
  }

  /** An arrival as it was stored, or after its first processing. */
  ghost predicate FirstOutcome(zone: Zone, rules: Rules, stopped: bool, base: Filing, f: Filing) {
    f == base || exists g, answer :: AfterProcessing(zone, rules, stopped, base, g, answer) && f == Stamped(base, g)
  }

  /** A filing after its turn in a reconciliation: processed unless it landed. */
  ghost predicate Resumed(zone: Zone, rules: Rules, f: Filing, g: Filing) {
    if f.landing.Some? then g == f
    else exists h, answer :: AfterProcessing(zone, rules, false, f, h, answer) && g == Stamped(f, h)
  }

  lemma ResumedTurn(zone: Zone, rules: Rules, stopped: bool, f: Filing, h: Filing, answer: Option<LandResult>)
    requires if f.landing.Some? then h == f else AfterProcessing(zone, rules, stopped, f, h, answer)
    ensures (!stopped ==> Resumed(zone, rules, f, Stamped(f, h))) && (Pending(Stamped(f, h)) <==> Pending(h))
  {
    hide AfterProcessing;
  }

  /** The filing that enters the register for an entry: as stored, or processed, which it is after success. */
  ghost predicate Enters(zone: Zone, rules: Rules, done: bool, fs: seq<Filing>, e: Entry, f: Filing) {
    && e.digest.Some?
    && (var base := Arrival(fs, e.newId, e.name, e.fingerprint, e.digest.value, e.receivedAt, e.identified, zone.strategy);
      if done then Resumed(zone, rules, base, f) else exists stopped :: FirstOutcome(zone, rules, stopped, base, f))
  }

  lemma EntersStored(zone: Zone, rules: Rules, fs: seq<Filing>, e: Entry)
    requires e.digest.Some?
    ensures Enters(zone, rules, false, fs, e, Arrival(fs, e.newId, e.name, e.fingerprint, e.digest.value, e.receivedAt, e.identified, zone.strategy))
  {
    hide Arrival;
    var base := Arrival(fs, e.newId, e.name, e.fingerprint, e.digest.value, e.receivedAt, e.identified, zone.strategy);
    assert FirstOutcome(zone, rules, false, base, base);
  }

  lemma EntersProcessed(zone: Zone, rules: Rules, stopped: bool, fs: seq<Filing>, e: Entry, base: Filing, h: Filing, answer: Option<LandResult>)
    requires e.digest.Some? && base.landing.None? && AfterProcessing(zone, rules, stopped, base, h, answer)
    requires base == Arrival(fs, e.newId, e.name, e.fingerprint, e.digest.value, e.receivedAt, e.identified, zone.strategy)
    ensures Enters(zone, rules, !stopped, fs, e, Stamped(base, h))
  {
    hide Arrival, AfterProcessing, Stamped;
    assert FirstOutcome(zone, rules, stopped, base, Stamped(base, h));
  }

  /** The receipt of a commit that the register did not hold. */
  function Recovered(f: Filing, receipt: Receipt): Filing {
    f.(revision := Some(Revision(f) + 1), landing := Some(Landing(receipt, false, None)))
  }

  /** A filing after the commits were recovered. */
  function WithCommit(commits: map<Id, Receipt>, f: Filing): Filing {
    if f.landing.None? && f.id in commits then Recovered(f, commits[f.id]) else f
  }

  lemma RecoveredOnce(commits: map<Id, Receipt>, f: Filing)
    ensures WithCommit(commits, WithCommit(commits, f)) == WithCommit(commits, f)
  {
  }

  /** A landed filing after its receipt was sent again and answered. */
  function Resent(f: Filing, error: Option<string>): Filing
    requires f.landing.Some?
  {
    Stamped(f, f.(landing := Some(Landing(f.landing.value.receipt, error.None?, error))))
  }

  /** A filing after the receipts were sent again. */
  ghost predicate Renewed(f: Filing, g: Filing) {
    if f.landing.None? then g == f else exists error :: g == Resent(f, error)
  }

  /** One more receipt was sent, that of the filing. */
  ghost predicate Answered(f: Filing, before: seq<SentReceipt>, after: seq<SentReceipt>)
    requires |after| == |before| + 1
  {
    before <= after && f.landing.Some? && after[|before|].receipt == f.landing.value.receipt
  }

  lemma Sent(f: Filing, before: seq<SentReceipt>, after: seq<SentReceipt>)
    requires f.landing.None? ==> after == before
    requires f.landing.Some? ==> |after| == |before| + 1 && Answered(f, before, after)
    ensures before <= after
  {
  }

  /** A filing in its turn. */
  lemma Turn(f: Filing, g: Filing, from: seq<SentReceipt>, before: seq<SentReceipt>, after: seq<SentReceipt>)
    requires from <= before
    requires if f.landing.None? then g == f && after == before
      else |after| == |before| + 1 && Answered(f, before, after) && g == Resent(f, after[|before|].error)
    ensures Renewed(f, g) && Receipted(after[|from|..], g) && before <= after && before[|from|..] <= after[|from|..]
    ensures Registered(g) <==> f.landing.None? || after[|before|].error.None?
  {
    if f.landing.Some? {
      assert g.landing.value.receipt == f.landing.value.receipt && g.landing.value.error == after[|before|].error;
      assert after[|before|] == after[|from|..][|before| - |from|];
    }
  }

  lemma ReceiptsLonger(sent: seq<SentReceipt>, from: nat, later: nat)
    requires from <= later <= |sent|
    ensures forall f | Receipted(sent[later..], f) :: Receipted(sent[from..], f)
    ensures forall fs | AllReceipted(sent[later..], fs) :: AllReceipted(sent[from..], fs)
  {
    assert sent[from..][later - from..] == sent[later..];
  }

  lemma ReceiptsMore(after: seq<SentReceipt>, before: seq<SentReceipt>)
    requires before <= after
    ensures forall f | Receipted(before, f) :: Receipted(after, f)
  {
  }

  /** The receipt of a landed filing was sent, and answered as the filing says. */
  ghost predicate Receipted(sent: seq<SentReceipt>, f: Filing) {
    f.landing.Some? ==> SentReceipt(f.landing.value.receipt, f.landing.value.error) in sent
  }

  /** A filing after a whole reconciliation: its commit recovered, processed, its receipt sent again, and
      perhaps delivered. */
  ghost predicate Reconciled(zone: Zone, rules: Rules, commits: map<Id, Receipt>, f: Filing, g: Filing) {
    exists b, c :: ReconciledVia(zone, rules, commits, f, b, c, g)
  }

  ghost predicate ReconciledVia(zone: Zone, rules: Rules, commits: map<Id, Receipt>, f: Filing, b: Filing, c: Filing, g: Filing) {
    && Resumed(zone, rules, if zone.lands then WithCommit(commits, f) else f, b)
    && (if zone.lands then Renewed(b, c) else c == b)
    && (g == c || g == Delivered(c))
  }

  ghost predicate AllResumed(zone: Zone, rules: Rules, fs: seq<Filing>, gs: seq<Filing>) {
    |fs| == |gs| && forall j | 0 <= j < |fs| :: Resumed(zone, rules, fs[j], gs[j])
  }

  ghost predicate AllRenewed(fs: seq<Filing>, gs: seq<Filing>) {
    |fs| == |gs| && forall j | 0 <= j < |fs| :: Renewed(fs[j], gs[j])
  }

  ghost predicate AllReceipted(sent: seq<SentReceipt>, fs: seq<Filing>) {
    forall f | f in fs :: Receipted(sent, f)
  }

  ghost predicate AllTold(k: Categories, sent: seq<Notice>, fs: seq<Filing>) {
    forall f | f in fs :: Told(k, sent, f)
  }

  ghost predicate MayRecover(zone: Zone, commits: map<Id, Receipt>, fs: seq<Filing>, gs: seq<Filing>) {
    |fs| == |gs| && forall i | 0 <= i < |fs| :: gs[i] == fs[i] || (zone.lands && gs[i] == WithCommit(commits, fs[i]))
  }

  ghost predicate AllReconciled(zone: Zone, rules: Rules, commits: map<Id, Receipt>, fs: seq<Filing>, gs: seq<Filing>) {
    |fs| == |gs| && forall j | 0 <= j < |fs| :: Reconciled(zone, rules, commits, fs[j], gs[j])
  }

  lemma StepsReconcile(zone: Zone, rules: Rules, commits: map<Id, Receipt>, fs: seq<Filing>, recovered: seq<Filing>, resumed: seq<Filing>,
      landed: seq<Filing>, gs: seq<Filing>)
    requires SameButDelivered(landed, gs)
    requires MayRecover(zone, commits, fs, recovered)
    requires zone.lands ==> AllRecovered(recovered, commits)
    requires AllResumed(zone, rules, recovered, resumed)
    requires if zone.lands then AllRenewed(resumed, landed) else landed == resumed
    ensures AllReconciled(zone, rules, commits, fs, gs)
  {
    hide Resumed, Renewed;
    forall j | 0 <= j < |fs|
      ensures Reconciled(zone, rules, commits, fs[j], gs[j])
    {
      assert recovered[j] in recovered;
      assert recovered[j] == if zone.lands then WithCommit(commits, fs[j]) else fs[j];
      assert ReconciledVia(zone, rules, commits, fs[j], resumed[j], landed[j], gs[j]);
    }
  }

  lemma DeliveredReceipted(sent: seq<SentReceipt>, fs: seq<Filing>, gs: seq<Filing>)
    requires SameButDelivered(fs, gs)
    ensures AllReceipted(sent, fs) ==> AllReceipted(sent, gs)
  {
    forall i | 0 <= i < |fs|
      ensures Receipted(sent, fs[i]) ==> Receipted(sent, gs[i])
    {
    }
  }

  lemma ListUnique(k: Categories, w: World)
    requires Inv(k, w)
    ensures UniqueFilings(w.filings)
  {
  }

  /** Asking the database about one filing commits no other. */
  lemma NotCommitted(fs: seq<Filing>, before: map<Id, Receipt>, after: map<Id, Receipt>, i: nat)
    requires UniqueFilings(fs) && i < |fs| && CommitsOnly(before, after, fs[i].id)
    ensures forall j | i < j < |fs| && fs[j].id in after :: fs[j].id in before
  {
  }

  /** The notices a pass sends, in order. */
  function Due(k: Categories, fs: seq<Filing>, initialOnly: bool, noticeAttempts: map<Id, nat>): seq<Notice> {
    if fs == [] then []
    else
      var f := fs[|fs| - 1];
      Due(k, fs[..|fs| - 1], initialOnly, noticeAttempts) + if Skips(f, initialOnly, noticeAttempts) then [] else [NoticeOf(k, f)]
  }

  /** These are the notices due to the filings at the front. */
  ghost predicate DueFirst(k: Categories, sent: seq<Notice>, fs: seq<Filing>, initialOnly: bool, noticeAttempts: map<Id, nat>) {
    exists i | 0 <= i <= |fs| :: sent == Due(k, fs[..i], initialOnly, noticeAttempts)
  }

  lemma Suffix(sent: seq<Notice>, told: seq<Notice>)
    ensures (sent + told)[|sent|..] == told
  {
  }

  /** What a pass has done up to the filing at `i`: the list, the attempts and the notices sent. */
  ghost predicate PassedTo(k: Categories, all: seq<Filing>, initialOnly: bool, before: map<Id, nat>, i: nat,
      fs: seq<Filing>, attempts: map<Id, nat>, sent: seq<Notice>)
  {
    && i <= |all| == |fs| && SameButDelivered(all, fs)
    && (forall j | i <= j < |all| :: fs[j] == all[j] && (all[j].id in attempts <==> all[j].id in before))
    && sent == Due(k, all[..i], initialOnly, before)
    && (forall j | 0 <= j < i :: Told(k, sent, fs[j]) || (initialOnly && fs[j].id in before))
  }

  lemma PassedMore(k: Categories, all: seq<Filing>, initialOnly: bool, before: map<Id, nat>, i: nat,
      fs: seq<Filing>, attempts: map<Id, nat>, sent: seq<Notice>,
      gs: seq<Filing>, later: map<Id, nat>, more: seq<Notice>)
    requires PassedTo(k, all, initialOnly, before, i, fs, attempts, sent) && i < |all| && UniqueFilings(fs)
    requires if Skips(fs[i], initialOnly, attempts) then gs == fs && later == attempts && more == sent
      else
        && (gs == fs || gs == fs[i := Delivered(fs[i])]) && more == sent + [NoticeOf(k, fs[i])]
        && (later == Attempted(attempts, fs[i].id) || later == attempts - {fs[i].id})
    ensures PassedTo(k, all, initialOnly, before, i + 1, gs, later, more)
  {
    hide Told, Due, NoticeOf, SameButDelivered;
    DueMore(k, all, initialOnly, before, i);
    ToldMore(k, sent, fs[i]);
    ToldDelivered(k, more, fs[i]);
    assert SameButDelivered(all, gs) by {
      StillDelivered(all, fs, gs, i);
    }
    forall j | 0 <= j < i
      ensures Told(k, more, gs[j]) || (initialOnly && gs[j].id in before)
    {
      ToldMore(k, sent, fs[i]);
      assert gs[j] == fs[j];
    }
    forall j | i < j < |all|
      ensures fs[j].id != fs[i].id
    {
    }
  }

  lemma Passed(k: Categories, all: seq<Filing>, initialOnly: bool, before: map<Id, nat>, i: nat,
      fs: seq<Filing>, attempts: map<Id, nat>, sent: seq<Notice>)
    requires PassedTo(k, all, initialOnly, before, i, fs, attempts, sent)
    ensures |fs| == |all| && SameButDelivered(all, fs) && DueFirst(k, sent, all, initialOnly, before)
    ensures i == |all| ==> sent == Due(k, all, initialOnly, before)
    ensures i == |all| ==> forall f | f in fs :: Told(k, sent, f) || (initialOnly && f.id in before)
  {
    assert all[..|all|] == all;
    hide Told, Due, SameButDelivered;
  }

  lemma NothingPassed(k: Categories, all: seq<Filing>, initialOnly: bool, before: map<Id, nat>)
    ensures PassedTo(k, all, initialOnly, before, 0, all, before, [])
  {
  }

  lemma StartDelivered(was: seq<Filing>, fs: seq<Filing>, gs: seq<Filing>)
    requires was <= fs && (gs == fs || SameButDelivered(fs, gs))
    ensures |was| <= |gs| && SameButDelivered(was, gs[..|was|])
  {
  }

  lemma StillDelivered(all: seq<Filing>, fs: seq<Filing>, gs: seq<Filing>, i: nat)
    requires SameButDelivered(all, fs) && i < |all| && fs[i] == all[i]
    requires gs == fs || gs == fs[i := Delivered(fs[i])]
    ensures SameButDelivered(all, gs) && |fs| == |gs| == |all|
  {
  }

  lemma DueNothing(k: Categories, initialOnly: bool, before: map<Id, nat>)
    ensures Due(k, [], initialOnly, before) == []
  {
  }

  lemma DueMore(k: Categories, all: seq<Filing>, initialOnly: bool, before: map<Id, nat>, i: nat)
    requires i < |all|
    ensures Due(k, all[..i + 1], initialOnly, before)
      == Due(k, all[..i], initialOnly, before) + if Skips(all[i], initialOnly, before) then [] else [NoticeOf(k, all[i])]
  {
    assert all[..i + 1][..i] == all[..i] && all[..i + 1][i] == all[i];
  }

  /** A notice more, and no receiver was told less; the filing it is about is told. */
  lemma ToldMore(k: Categories, sent: seq<Notice>, f: Filing)
    ensures forall g | Told(k, sent, g) :: Told(k, sent + [NoticeOf(k, f)], g)
    ensures Told(k, sent + [NoticeOf(k, f)], f)
  {
    hide Reports;
    NoticeExact(k, NoticeOf(k, f), f);
    forall g | Told(k, sent, g)
      ensures Told(k, sent + [NoticeOf(k, f)], g)
    {
      if n :| n in sent && Reports(k, n, g) {
        assert n in sent + [NoticeOf(k, f)];
      }
    }
    assert NoticeOf(k, f) in sent + [NoticeOf(k, f)];
  }

  lemma ToldDelivered(k: Categories, sent: seq<Notice>, f: Filing)
    ensures Told(k, sent, Delivered(f)) && (f.deliveredRevision == Some(Revision(f)) ==> Told(k, sent, f))
  {
  }

  /** The receiver has acknowledged the filing as it is, or was told of it. */
  ghost predicate Told(k: Categories, sent: seq<Notice>, f: Filing) {
    f.deliveredRevision == Some(Revision(f)) || exists n | n in sent :: Reports(k, n, f)
  }

  /** At most this filing was committed meanwhile. */
  ghost predicate CommitsOnly(before: map<Id, Receipt>, after: map<Id, Receipt>, id: Id) {
    && (forall j | j in before :: j in after && after[j] == before[j])
    && (forall j | j in after && j != id :: j in before)
  }

  class FilingRegister {
    const zone: Zone
    const outside: Outside
    var filings: seq<Filing>
    var noticeAttempts: map<Id, nat>
    var observed: map<string, string>
    var reconciliationFailed: bool
    var stopped: bool
    ghost var events: seq<Event>

    ghost function Now(): World
      reads this, outside
    {
      World(filings, outside.disk, outside.commits, outside.sent, outside.inbox, outside.used)
    }

    /** The history is a run, and led here. */
    ghost predicate Valid()
      reads this, outside
    {
      Run(zone.categories, INITIAL, events) && Reach(zone.categories, INITIAL, events) == Now()
    }

    lemma Invariant()
      requires Valid()
      ensures Inv(zone.categories, Now())
    {
      InitialInv(zone.categories);
      RunInv(zone.categories, INITIAL, events);
    }

    /** A first start on an empty zone. */
    constructor Open(zone: Zone, outside: Outside)
      requires outside.disk == [] && outside.commits == map[] && outside.inbox == map[] && outside.sent == [] && outside.used == {}
      ensures Valid() && this.zone == zone && this.outside == outside && filings == [] && events == []
    {
      this.zone, this.outside := zone, outside;
      filings, noticeAttempts, observed, reconciliationFailed, stopped, events := [], map[], map[], false, false, [];
    }

    /** A crash at any point, and the start after it: only the state file survives. */
    method Reopen()
      requires Valid()
      modifies this
      ensures Valid() && events == old(events) + [Restart]
      ensures filings == outside.disk && noticeAttempts == map[] && observed == map[] && !stopped && !reconciliationFailed
    {
      RunMore(zone.categories, INITIAL, events, Restart);
      filings, noticeAttempts, observed, reconciliationFailed, stopped := outside.disk, map[], map[], false, false;
      events := events + [Restart];
    }

    /** `close` may be called while an operation waits. */
    method Stopping() returns (now: bool)
      requires Valid()
      modifies `stopped
      ensures Valid() && now == stopped && (old(stopped) ==> stopped)
    {
      var closed: bool := *;
      stopped := stopped || closed;
      return stopped;
    }

    /** `persist`, then the assignment to memory, which a failure skips. */
    method SaveChange(ghost c: Change, next: seq<Filing>) returns (ok: bool)
      requires Valid() && Allowed(Now(), c) && next == Updated(filings, c)
      modifies `filings, `events, outside`disk, outside`used
      ensures Valid() && filings == (if ok then next else old(filings)) && (ok ==> outside.disk == next)
      ensures old(events) <= events && outside.used == old(outside.used) + Drawn(c)
    {
      hide Run, Reach, Inv;
      ghost var before := Now();
      ok := outside.Persist(next);
      ghost var result := if ok then Saved else if outside.disk == before.disk then FailedOld else FailedNew;
      outside.used := outside.used + Drawn(c);
      if ok {
        filings := next;
      }
      RunMore(zone.categories, INITIAL, events, Save(c, result));
      events := events + [Save(c, result)];
      assert Now() == After(zone.categories, before, Save(c, result));
    }

    /** Stores a processed filing at the next revision. */
    method SaveRevision(i: nat, g: Filing) returns (ok: bool)
      requires Valid() && i < |filings| && IsRevision(outside.commits, filings[i], g)
      modifies `filings, `events, outside`disk, outside`used
      ensures Valid() && filings == if ok then old(filings)[i := g] else old(filings)
      ensures old(events) <= events && outside.used == old(outside.used)
    {
      hide Run, Reach;
      ok := SaveChange(Revise(i, g), filings[i := g]);
    }

    method SendNotice(i: nat) returns (ok: bool)
      requires Valid() && i < |filings|
      modifies `events, outside`inbox, outside`sent
      ensures Valid() && old(events) <= events
      ensures outside.sent == old(outside.sent) + [NoticeOf(zone.categories, filings[i])]
      ensures Reports(zone.categories, outside.sent[|old(outside.sent)|], filings[i])
      ensures ok ==> filings[i].id in outside.inbox && outside.inbox[filings[i].id].revision >= Revision(filings[i])
    {
      hide Reports;
      NoticeExact(zone.categories, NoticeOf(zone.categories, filings[i]), filings[i]);
      ghost var before := Now();
      ghost var heard;
      ok, heard := outside.Deliver(NoticeOf(zone.categories, filings[i]));
      RunMore(zone.categories, INITIAL, events, Send(i, heard));
      events := events + [Send(i, heard)];
      assert Now() == After(zone.categories, before, Send(i, heard));
    }

    // ----- Publishing -----

    /** One turn of the loop of `Publish`; not `ok` when saving the delivery throws, `failed` when the notice
        was not acknowledged. */
    method PublishOne(i: nat, initialOnly: bool) returns (ok: bool, ghost failed: bool)
      requires Valid() && i < |filings|
      modifies `filings, `events, `noticeAttempts, `reconciliationFailed, outside`disk, outside`used, outside`inbox,
        outside`sent
      ensures Valid() && old(events) <= events && outside.used == old(outside.used)
      ensures if Skips(old(filings)[i], initialOnly, old(noticeAttempts))
        then ok && !failed && filings == old(filings) && outside.sent == old(outside.sent) && noticeAttempts == old(noticeAttempts)
        else
          && outside.sent == old(outside.sent) + [NoticeOf(zone.categories, old(filings)[i])]
          && Reports(zone.categories, outside.sent[|old(outside.sent)|], old(filings)[i])
          && filings == (if ok && !failed then old(filings)[i := Delivered(old(filings)[i])] else old(filings))
          && noticeAttempts == (if failed then Attempted(old(noticeAttempts), old(filings)[i].id)
                                else old(noticeAttempts) - {old(filings)[i].id})
      ensures reconciliationFailed == (old(reconciliationFailed) || failed)
      ensures |filings| == |old(filings)| && forall j | 0 <= j < i :: filings[j] == old(filings)[j]
      ensures ok && !initialOnly && !failed ==> filings[i].deliveredRevision == Some(Revision(filings[i]))
      ensures old(outside.sent) <= outside.sent
    {
      hide Run, Reach;
      var filing := filings[i];
      failed := false;
      if Skips(filing, initialOnly, noticeAttempts) {
        return true, failed;
      }
      noticeAttempts := Attempted(noticeAttempts, filing.id);
      var sent := SendNotice(i);
      if !sent {
        reconciliationFailed := true;
        return true, true;
      }
      noticeAttempts := noticeAttempts - {filing.id};
      ok := SaveChange(Change.Deliver(i), filings[i := Delivered(filing)]);
    }

    /** Sends what is not delivered yet, in order. After a pass that neither stopped nor threw and in which
        every notice was acknowledged, the receiver holds exactly the current notices, whatever failed
        before it. */
    method Publish(initialOnly: bool) returns (ok: bool, ghost failures: nat)
      requires Valid()
      modifies `filings, `events, `noticeAttempts, `reconciliationFailed, `stopped, outside`disk, outside`used,
        outside`inbox, outside`sent
      ensures Valid() && old(events) <= events && outside.used == old(outside.used)
      ensures SameButDelivered(old(filings), filings)
      ensures old(stopped) ==> stopped
      ensures reconciliationFailed == (old(reconciliationFailed) || failures > 0)
      ensures old(stopped) ==> filings == old(filings) && outside.sent == old(outside.sent)
      ensures old(outside.sent) <= outside.sent
      ensures DueFirst(zone.categories, outside.sent[|old(outside.sent)|..], old(filings), initialOnly, old(noticeAttempts))
      ensures ok && zone.delivers && !stopped ==>
        outside.sent[|old(outside.sent)|..] == Due(zone.categories, old(filings), initialOnly, old(noticeAttempts))
      ensures ok && zone.delivers && !stopped ==>
        forall f | f in filings :: Told(zone.categories, outside.sent[|old(outside.sent)|..], f) || (initialOnly && f.id in old(noticeAttempts))
      ensures ok && zone.delivers && !stopped && !initialOnly ==>
        AllTold(zone.categories, outside.sent[|old(outside.sent)|..], filings)
      ensures ok && zone.delivers && !initialOnly && !stopped && failures == 0 ==> ReceiverHolds(zone.categories, Now())
    {
      hide Run, Reach, Due, Told, Inv, UniqueFilings, Grows, NoticeOf, Reports, PassedTo, SameButDelivered, DueFirst,
        Skips, ReceiverHolds, Attempted, Valid;
      failures := 0;
      ghost var all, before, sent, k := filings, noticeAttempts, outside.sent, zone.categories;
      ghost var told: seq<Notice> := [];
      NothingPassed(k, all, initialOnly, before);
      Passed(k, all, initialOnly, before, 0, all, before, told);
      Suffix(sent, told);
      assert outside.sent == sent + told;
      if !zone.delivers {
        return true, failures;
      }
      for i := 0 to |filings|
        invariant Valid() && old(events) <= events && outside.used == old(outside.used)
        invariant outside.sent == sent + told && outside.sent[|sent|..] == told && PassedTo(k, all, initialOnly, before, i, filings, noticeAttempts, told)
        invariant |filings| == |all| && (old(stopped) ==> stopped && i == 0 && filings == all && told == [])
        invariant reconciliationFailed == (old(reconciliationFailed) || failures > 0)
        invariant !initialOnly && failures == 0 ==>
          forall j | 0 <= j < i :: filings[j].deliveredRevision == Some(Revision(filings[j]))
      {
        Passed(k, all, initialOnly, before, i, filings, noticeAttempts, told);
        var stop := Stopping();
        if stop {
          return true, failures;
        }
        Invariant();
        ListUnique(zone.categories, Now());
        ghost var fs, attempts := filings, noticeAttempts;
        ghost var failed;
        ok, failed := PublishOne(i, initialOnly);
        ghost var more := if Skips(fs[i], initialOnly, attempts) then told else told + [NoticeOf(k, fs[i])];
        PassedMore(k, all, initialOnly, before, i, fs, attempts, told, filings, noticeAttempts, more);
        told := more;
        assert outside.sent == sent + told;
        Suffix(sent, told);
        Passed(k, all, initialOnly, before, i + 1, filings, noticeAttempts, told);
        if failed {
          failures := failures + 1;
        }
        if !ok {
          return false, failures;
        }
      }
      Passed(k, all, initialOnly, before, |all|, filings, noticeAttempts, told);
      if !initialOnly && failures == 0 {
        Invariant();
        DeliveredHolds(zone.categories, Now());
      }
      return true, failures;
    }

    // ----- Landing -----

    /** `extract`: a summary for a ready filing, or quarantine. */
    method Extract(rules: Rules, filing: Filing) returns (g: Filing)
      requires filing.landing.None?
      ensures Processed(outside.commits, filing, g) && AfterExtraction(rules, zone.extracts, filing, g)
    {
      if !zone.extracts || filing.status != Ready || filing.extraction.Some? {
        return filing;
      }
      if !rules.attributes(filing.partyId, filing.ruleIds) {
        return filing.(status := Quarantined, reason := Some("The original attribution is no longer available for extraction."));
      }
      var result: ExtractResult := *;
      match result {
        case Extracted(summary) => return filing.(extraction := Some(summary));
        case NotExtracted(message) => return filing.(status := Quarantined, reason := Some(message));
      }
    }

    /** `writer.land` for the filing at `i`: the database is asked only about what it has not committed. */
    method CallLand(i: nat) returns (r: LandResult)
      requires Valid() && i < |filings| && filings[i].id !in outside.commits
      modifies `events, outside`commits
      ensures Valid() && old(events) <= events
      ensures CommitsOnly(old(outside.commits), outside.commits, filings[i].id)
      ensures r.Landed? ==> filings[i].id in outside.commits && outside.commits[filings[i].id] == r.receipt
    {
      ghost var before := Now();
      ghost var committed;
      r, committed := outside.Land(filings[i].id);
      RunMore(zone.categories, INITIAL, events, Event.Land(i, committed));
      events := events + [Event.Land(i, committed)];
      assert Now() == After(zone.categories, before, Event.Land(i, committed));
    }

    /** `FilingLander.process` on a filing without a landing: `filing` is the one at `i` after extraction. */
    method LandFiling(rules: Rules, i: nat, filing: Filing) returns (g: Filing, ghost answer: Option<LandResult>)
      requires Valid() && i < |filings| && filings[i].id !in outside.commits
      requires filings[i].landing.None? && Processed(outside.commits, filings[i], filing) && filing.landing.None?
      modifies `events, outside`commits, outside`receipts
      ensures Valid() && old(events) <= events && Processed(outside.commits, filings[i], g)
      ensures CommitsOnly(old(outside.commits), outside.commits, filings[i].id)
      ensures outside.receipts == old(outside.receipts) + ReceiptOf(g, answer)
      ensures AfterLanding(rules, filing, g, answer) && (answer.None? ==> outside.commits == old(outside.commits) && events == old(events))
    {
      hide Run, Reach;
      answer := None;
      if filing.status != Ready || filing.extraction.None? {
        return filing, answer;
      }
      if !rules.attributes(filing.partyId, filing.ruleIds) || Missing(filing.period) || Missing(filing.kind) || Missing(filing.partyId) {
        return filing.(status := Quarantined, reason := Some("The original landing attribution is unavailable.")), answer;
      }
      var period := rules.asAt(filing.period.value, filing.ruleIds);
      if period.BadPeriod? {
        return filing.(status := Quarantined, reason := Some(period.message)), answer;
      }
      var landed := CallLand(i);
      answer := Some(landed);
      match landed {
        case Unavailable(message) => return filing.(reason := Some(message)), answer;
        case Refused(message, category) =>
          return filing.(status := Quarantined, reason := Some(message), quarantineCategory := category), answer;
        case Landed(receipt) =>
          var error := outside.SendReceipt(receipt);
          return filing.(reason := None, landing := Some(Landing(receipt, error.None?, error))), answer;
      }
    }

    /** `process` on a filing without a landing. */
    method Process(rules: Rules, i: nat) returns (g: Filing, ghost answer: Option<LandResult>)
      requires Valid() && i < |filings| && filings[i].landing.None?
      requires zone.lands ==> filings[i].id !in outside.commits
      modifies `events, `stopped, outside`commits, outside`receipts
      ensures outside.receipts == old(outside.receipts) + ReceiptOf(g, answer)
      ensures Valid() && old(events) <= events && Processed(outside.commits, filings[i], g)
      ensures CommitsOnly(old(outside.commits), outside.commits, filings[i].id)
      ensures old(stopped) ==> stopped
      ensures AfterProcessing(zone, rules, stopped, filings[i], g, answer)
    {
      hide Run, Reach, AfterExtraction, AfterLanding;
      var extracted := Extract(rules, filings[i]);
      var stop := Stopping();
      if stop || !zone.lands {
        return extracted, None;
      }
      assert extracted.landing.None? by {
        assert Processed(outside.commits, filings[i], extracted);
      }
      g, answer := LandFiling(rules, i, extracted);
    }

    // ----- Reconciling -----

    method FindId(id: Id) returns (i: nat)
      ensures i <= |filings| && (forall j | 0 <= j < i :: filings[j].id != id) && (i < |filings| ==> filings[i].id == id)
    {
      i := 0;
      while i < |filings| && filings[i].id != id
        invariant i <= |filings| && forall j | 0 <= j < i :: filings[j].id != id
      {
        i := i + 1;
      }
    }

    /** Takes over the receipts the database holds for filings without a landing; false if it throws. */
    method RecoverCommits() returns (ok: bool)
      requires Valid()
      modifies `filings, `events, outside`disk, outside`used
      ensures Valid() && old(events) <= events && outside.used == old(outside.used)
      ensures Grows(zone.categories, old(filings), filings) && |filings| == |old(filings)|
      ensures MayRecover(zone, outside.commits, old(filings), filings)
      ensures ok && zone.lands ==> AllRecovered(filings, outside.commits)
    {
      hide Run, Reach, WithCommit;
      GrowsReflexive(zone.categories, filings);
      if !zone.lands {
        return true;
      }
      Invariant();
      var committed := outside.Committed();
      if committed.None? {
        return false;
      }
      var receipts := committed.value;
      for r := 0 to |receipts|
        invariant Valid() && old(events) <= events && outside.used == old(outside.used)
        invariant Grows(zone.categories, old(filings), filings) && |filings| == |old(filings)|
        invariant forall i | 0 <= i < |filings| :: filings[i] == old(filings)[i] || filings[i] == WithCommit(outside.commits, old(filings)[i])
        invariant forall f, s | f in filings && 0 <= s < r && receipts[s].filingId == f.id :: f.landing.Some?
      {
        ghost var before := filings;
        ok := RecoverOne(receipts[r]);
        forall i | 0 <= i < |filings|
          ensures filings[i] == old(filings)[i] || filings[i] == WithCommit(outside.commits, old(filings)[i])
        {
          RecoveredOnce(outside.commits, old(filings)[i]);
        }
        if !ok {
          return false;
        }
      }
      forall f | f in filings && f.id in outside.commits
        ensures f.landing.Some?
      {
        var c := outside.commits[f.id];
        assert c in receipts;
        assert c.filingId == f.id;
        var s :| 0 <= s < |receipts| && receipts[s] == c;
      }
      return true;
    }

    method RecoverOne(receipt: Receipt) returns (ok: bool)
      requires Valid() && receipt.filingId in outside.commits && outside.commits[receipt.filingId] == receipt
      modifies `filings, `events, outside`disk, outside`used
      ensures Valid() && old(events) <= events && outside.used == old(outside.used)
      ensures |filings| == |old(filings)|
      ensures forall i | 0 <= i < |filings| :: Later(zone.categories, old(filings)[i], filings[i])
      ensures forall i | 0 <= i < |filings| && old(filings)[i].landing.Some? :: filings[i] == old(filings)[i]
      ensures ok ==> forall i | 0 <= i < |filings| && filings[i].id == receipt.filingId :: filings[i].landing.Some?
      ensures forall i | 0 <= i < |filings| && filings[i] != old(filings)[i] ::
        filings[i].id == receipt.filingId && filings[i] == WithCommit(outside.commits, old(filings)[i])
    {
      hide Run, Reach;
      Invariant();
      var index := FindId(receipt.filingId);
      if index == |filings| || filings[index].landing.Some? {
        return true;
      }
      var current := filings[index];
      ok := SaveRevision(index, Recovered(current, receipt));
    }

    /** One turn of the first loop of `reconcileOnce`: resumes a filing that has not landed. */
    method ResumeOne(rules: Rules, i: nat) returns (ok: bool, ghost extracted: Filing, ghost answer: Option<LandResult>)
      requires Valid() && i < |filings|
      requires zone.lands && filings[i].landing.None? ==> filings[i].id !in outside.commits
      modifies `filings, `events, `stopped, `reconciliationFailed, outside`disk, outside`used, outside`commits, outside`receipts
      ensures Valid() && old(events) <= events && outside.used == old(outside.used)
      ensures |filings| == |old(filings)| && forall j | 0 <= j < |filings| && j != i :: filings[j] == old(filings)[j]
      ensures Later(zone.categories, old(filings)[i], filings[i])
      ensures CommitsOnly(old(outside.commits), outside.commits, old(filings)[i].id)
      ensures (old(stopped) ==> stopped) && reconciliationFailed == (old(reconciliationFailed) || Pending(extracted))
      ensures outside.receipts == old(outside.receipts) + ReceiptOf(extracted, answer)
      ensures if old(filings)[i].landing.Some? then extracted == old(filings)[i] && answer.None?
        else AfterProcessing(zone, rules, stopped, old(filings)[i], extracted, answer)
      ensures filings[i] == if ok then Stamped(old(filings)[i], extracted) else old(filings)[i]
    {
      hide Run, Reach, AfterProcessing;
      var current := filings[i];
      var g := current;
      answer := None;
      if current.landing.None? {
        g, answer := Process(rules, i);
      }
      extracted := g;
      if Pending(g) {
        reconciliationFailed := true;
      }
      if g == current {
        return true, extracted, answer;
      }
      ok := SaveRevision(i, Stamped(current, g));
    }

    /** One turn of the second loop: sends the receipt of a landed filing again. */
    method ReconcileReceipt(i: nat) returns (ok: bool)
      requires Valid() && i < |filings|
      modifies `filings, `events, `reconciliationFailed, outside`disk, outside`used, outside`receipts
      ensures Valid() && old(events) <= events && outside.used == old(outside.used)
      ensures |filings| == |old(filings)| && forall j | 0 <= j < |filings| && j != i :: filings[j] == old(filings)[j]
      ensures Later(zone.categories, old(filings)[i], filings[i])
      ensures if old(filings)[i].landing.None?
        then ok && filings == old(filings) && outside.receipts == old(outside.receipts) && reconciliationFailed == old(reconciliationFailed)
        else
          && |outside.receipts| == |old(outside.receipts)| + 1
          && Answered(old(filings)[i], old(outside.receipts), outside.receipts)
          && (var error := outside.receipts[|old(outside.receipts)|].error;
            && filings[i] == (if ok then Resent(old(filings)[i], error) else old(filings)[i])
            && reconciliationFailed == (old(reconciliationFailed) || error.Some?))
    {
      hide Run, Reach;
      var current := filings[i];
      if current.landing.None? {
        return true;
      }
      var error := outside.SendReceipt(current.landing.value.receipt);
      var reconciled := current.(landing := Some(Landing(current.landing.value.receipt, error.None?, error)));
      if error.Some? {
        reconciliationFailed := true;
      }
      if reconciled == current {
        return true;
      }
      Invariant();
      assert FilingOk(Now(), current);
      ok := SaveRevision(i, reconciled.(revision := Some(Revision(current) + 1)));
    }

    /** Recovers commits, resumes filings, sends receipts and notices. False when it throws. `file` is what
        the rules file holds, if it can be read. `failures`
        counts the notices that were not acknowledged: without one the receiver is current, also if a
        landing still waits or a receipt was refused. */
    method ReconcileOnce(file: Option<Rules>) returns (ok: bool, ghost failures: nat)
      requires Valid()
      modifies this, outside
      ensures Valid() && old(events) <= events && outside.used == old(outside.used)
      ensures Grows(zone.categories, old(filings), filings) && |filings| == |old(filings)|
      ensures observed == old(observed) && (old(stopped) ==> stopped)
      ensures failures > 0 ==> reconciliationFailed
      ensures ok && !stopped && failures == 0 && zone.delivers ==> ReceiverHolds(zone.categories, Now())
      ensures ok && !stopped && !reconciliationFailed && zone.lands ==> forall f | f in filings :: Registered(f)
      ensures old(outside.sent) <= outside.sent && old(outside.receipts) <= outside.receipts
      ensures ok ==> file.Some?
      ensures ok && !stopped ==> AllReconciled(zone, file.value, old(outside.commits), old(filings), filings)
      ensures ok && !stopped && zone.lands ==> AllReceipted(outside.receipts[|old(outside.receipts)|..], filings)
      ensures ok && !stopped && zone.delivers ==> AllTold(zone.categories, outside.sent[|old(outside.sent)|..], filings)
    {
      hide Run, Reach, Grows, Later, AllRecovered, ReceiverHolds, SameButDelivered, Resumed, Renewed, Receipted, Told, WithCommit,
        Pending, Registered, Due, AllReconciled, AllResumed, AllRenewed, AllReceipted, AllTold, MayRecover, Valid, Now;
      ghost var sent := outside.receipts;
      failures := 0;
      ok := RecoverCommits();
      if !ok {
        return false, failures;
      }
      if file.None? {
        return false, failures;
      }
      var rules := file.value;
      ghost var recovered := filings;
      ok := ResumeAll(rules);
      GrowsTransitive(zone.categories, old(filings), recovered, filings);
      if !ok {
        return false, failures;
      }
      ghost var resumed := filings;
      if zone.lands {
        ghost var before := outside.receipts;
        ok := ReconcileReceipts();
        GrowsTransitive(zone.categories, old(filings), resumed, filings);
        if !ok {
          return false, failures;
        }
        ReceiptsLonger(outside.receipts, |sent|, |before|);
      }
      ghost var landed := filings;
      ok, failures := Publish(false);
      DeliveredGrows(zone.categories, landed, filings);
      GrowsTransitive(zone.categories, old(filings), landed, filings);
      DeliveredReceipted(outside.receipts[|sent|..], landed, filings);
      if ok && !stopped {
        StepsReconcile(zone, rules, old(outside.commits), old(filings), recovered, resumed, landed, filings);
      }
    }

    /** The first loop of `reconcileOnce`. */
    method ResumeAll(rules: Rules) returns (ok: bool)
      requires Valid() && (zone.lands ==> AllRecovered(filings, outside.commits))
      modifies `filings, `events, `stopped, `reconciliationFailed, outside`disk, outside`used, outside`commits, outside`receipts
      ensures Valid() && old(events) <= events && outside.used == old(outside.used)
      ensures Grows(zone.categories, old(filings), filings) && |filings| == |old(filings)|
      ensures old(stopped) ==> stopped
      ensures old(stopped) ==> filings == old(filings)
      ensures ok && !stopped ==> AllResumed(zone, rules, old(filings), filings)
      ensures old(outside.receipts) <= outside.receipts
      ensures old(reconciliationFailed) ==> reconciliationFailed
      ensures ok && !stopped ==> (reconciliationFailed <==> old(reconciliationFailed) || exists f | f in filings :: Pending(f))
    {
      hide Run, Reach, AfterProcessing, Grows, Later, Pending, Stamped, Inv, CommitsOnly, UniqueFilings, Resumed, Valid;
      GrowsReflexive(zone.categories, filings);
      for i := 0 to |filings|
        invariant Valid() && old(events) <= events && outside.used == old(outside.used)
        invariant Grows(zone.categories, old(filings), filings) && |filings| == |old(filings)|
        invariant old(stopped) ==> stopped && i == 0
        invariant forall j | i <= j < |filings| :: filings[j] == old(filings)[j]
        invariant !stopped ==> forall j | 0 <= j < i :: Resumed(zone, rules, old(filings)[j], filings[j])
        invariant old(outside.receipts) <= outside.receipts
        invariant zone.lands ==> forall j | i <= j < |filings| && filings[j].id in outside.commits :: filings[j].landing.Some?
        invariant reconciliationFailed <==> old(reconciliationFailed) || exists j | 0 <= j < i :: Pending(filings[j])
      {
        var stop := Stopping();
        if stop {
          break;
        }
        Invariant();
        ghost var before, commits := filings, outside.commits;
        assert UniqueFilings(before) by {
          ListUnique(zone.categories, Now());
        }
        ghost var extracted, answer;
        ok, extracted, answer := ResumeOne(rules, i);
        NotCommitted(before, commits, outside.commits, i);
        ResumedTurn(zone, rules, stopped, before[i], extracted, answer);
        OneGrows(zone.categories, before, filings, i);
        GrowsTransitive(zone.categories, old(filings), before, filings);
        if !ok {
          return false;
        }
      }
      return true;
    }

    /** The second loop of `reconcileOnce`. */
    method ReconcileReceipts() returns (ok: bool)
      requires Valid()
      modifies `filings, `events, `stopped, `reconciliationFailed, outside`disk, outside`used, outside`receipts
      ensures Valid() && old(events) <= events && outside.used == old(outside.used)
      ensures Grows(zone.categories, old(filings), filings) && |filings| == |old(filings)|
      ensures (old(stopped) ==> stopped && filings == old(filings)) && old(outside.receipts) <= outside.receipts
      ensures ok && !stopped ==> AllRenewed(old(filings), filings)
      ensures ok && !stopped ==> AllReceipted(outside.receipts[|old(outside.receipts)|..], filings)
      ensures old(reconciliationFailed) ==> reconciliationFailed
      ensures ok && !stopped ==> (reconciliationFailed <==> old(reconciliationFailed) || exists f | f in filings :: !Registered(f))
    {
      hide Run, Reach, Grows, Later, Renewed, Receipted, Registered, Resent, Answered, Valid;
      GrowsReflexive(zone.categories, filings);
      ghost var was, sent := filings, outside.receipts;
      for i := 0 to |filings|
        invariant Valid() && old(events) <= events && outside.used == old(outside.used)
        invariant Grows(zone.categories, was, filings) && |filings| == |was|
        invariant (old(stopped) ==> stopped && i == 0) && sent <= outside.receipts
        invariant forall j | i <= j < |filings| :: filings[j] == was[j]
        invariant forall j | 0 <= j < i :: Renewed(was[j], filings[j])
        invariant forall j | 0 <= j < i :: Receipted(outside.receipts[|sent|..], filings[j])
        invariant reconciliationFailed <==> old(reconciliationFailed) || exists j | 0 <= j < i :: !Registered(filings[j])
      {
        var stop := Stopping();
        if stop {
          break;
        }
        ghost var before, failed, receipts := filings, reconciliationFailed, outside.receipts;
        ok := ReconcileReceipt(i);
        OneGrows(zone.categories, before, filings, i);
        GrowsTransitive(zone.categories, was, before, filings);
        if !ok {
          assert outside.receipts[..|receipts|] == receipts by {
            Sent(before[i], receipts, outside.receipts);
          }
          return false;
        }
        Turn(before[i], filings[i], sent, receipts, outside.receipts);
        ReceiptsMore(outside.receipts[|sent|..], receipts[|sent|..]);
      }
      return true;
    }

    /** `reconcile`: after a pass that neither throws nor stops, the receiver is current if every notice was
        acknowledged, and every landing is registered if nothing failed. */
    method Reconcile(file: Option<Rules>) returns (ok: bool, ghost failures: nat)
      requires Valid()
      modifies this, outside
      ensures Valid() && old(events) <= events && outside.used == old(outside.used)
      ensures Grows(zone.categories, old(filings), filings) && |filings| == |old(filings)|
      ensures old(stopped) ==> filings == old(filings) && outside.sent == old(outside.sent)
      ensures old(outside.sent) <= outside.sent && old(outside.receipts) <= outside.receipts
      ensures ok && !stopped ==> file.Some? && AllReconciled(zone, file.value, old(outside.commits), old(filings), filings)
      ensures ok && !stopped && zone.lands ==> AllReceipted(outside.receipts[|old(outside.receipts)|..], filings)
      ensures ok && !stopped && zone.delivers ==> AllTold(zone.categories, outside.sent[|old(outside.sent)|..], filings)
      ensures !old(stopped) && (!ok || failures > 0) ==> reconciliationFailed
      ensures ok && !stopped && failures == 0 && zone.delivers ==> ReceiverHolds(zone.categories, Now())
      ensures ok && !stopped && !reconciliationFailed && zone.lands ==> forall f | f in filings :: Registered(f)
    {
      hide Run, Reach, AllReconciled, AllReceipted, AllTold, ReceiverHolds, Registered;
      GrowsReflexive(zone.categories, filings);
      failures := 0;
      if stopped {
        return true, failures;
      }
      reconciliationFailed := false;
      ok, failures := ReconcileOnce(file);
      if !ok {
        reconciliationFailed := true;
      }
    }

    // ----- Retrying -----

    /** `retry`: throws unless the filing is quarantined and unlanded and its bytes are unchanged, and then
        changes nothing; otherwise it is identified anew at the next revision and reconciled. `known` is what
        `identifyFile` says, if the rules can be read, and `file` what the rules file holds after that. */
    method RetryFiling(id: Id, sameBytes: bool, known: Option<Identification>, file: Option<Rules>) returns (ok: bool)
      requires Valid()
      modifies this, outside
      ensures Valid() && old(events) <= events && outside.used == old(outside.used)
      ensures !sameBytes || known.None? || !CanRetry(old(filings), id) ==> !ok && filings == old(filings) && events == old(events)
      ensures ok ==> known.Some? && file.Some? && exists i | 0 <= i < |old(filings)| && old(filings)[i].id == id ::
        var retried := Updated(old(filings), Change.Retry(i, known.value));
        Grows(zone.categories, retried, filings) && (!stopped ==> AllReconciled(zone, file.value, old(outside.commits), retried, filings))
      ensures old(outside.sent) <= outside.sent
      ensures ok && !stopped && zone.delivers ==> AllTold(zone.categories, outside.sent[|old(outside.sent)|..], filings)
    {
      hide Run, Reach, AllReconciled, AllTold, Grows, ReceiverHolds, Registered, AllReceipted;
      Invariant();
      var i := FindId(id);
      if i == |filings| || filings[i].status != Quarantined || filings[i].landing.Some? {
        assert !CanRetry(filings, id) by {
          forall f | f in filings && f.id == id
            ensures i < |filings| && f == filings[i]
          {
            UniqueId(filings, f, filings[if i < |filings| then i else 0]);
          }
        }
        return false;
      }
      assert filings[i] in filings;
      if !sameBytes {
        return false;
      }
      if known.None? {
        return false;
      }
      var identified := known.value;
      ghost var next := Updated(filings, Change.Retry(i, identified));
      ok := SaveChange(Change.Retry(i, identified), filings[i := Retried(filings, filings[i], identified)]);
      if !ok {
        return false;
      }
      assert filings == next;
      ghost var failures;
      ok, failures := ReconcileOnce(file);
    }

    // ----- Scanning -----

    /** One directory entry. Nothing is hashed until two scans in a row saw the same fingerprint. */
    method ScanEntry(rules: Rules, e: Entry) returns (ok: bool)
      requires Valid() && e.newId !in outside.used
      modifies `filings, `events, `observed, `stopped, outside`disk, outside`used, outside`commits, outside`receipts
      ensures Valid() && old(events) <= events && outside.used <= old(outside.used) + {e.newId}
      ensures Grows(zone.categories, old(filings), filings) && |filings| <= |old(filings)| + 1
      ensures old(stopped) ==> stopped
      ensures forall name | name != e.name :: name in observed <==> name in old(observed)
      ensures forall name | name != e.name && name in observed :: observed[name] == old(observed)[name]
      ensures IsRegistered(old(filings), e) ==> filings == old(filings) && observed == old(observed)
      ensures !IsRegistered(old(filings), e) ==> e.name in observed && observed[e.name] == e.fingerprint
      ensures old(filings) <= filings
      ensures |filings| > |old(filings)| ==>
        && Arrived(e, old(observed), filings[|old(filings)|])
        && Enters(zone, rules, ok && !stopped, old(filings), e, filings[|old(filings)|])
      ensures ok && !stopped && Observed(old(observed), e) && e.digest.Some? ==> IsRegistered(filings, e)
      ensures ok && Observed(old(observed), e) && !IsRegistered(old(filings), e) ==> e.opens
    {
      hide Run, Reach;
      Invariant();
      GrowsReflexive(zone.categories, filings);
      if exists i | 0 <= i < |filings| :: filings[i].path == e.name && filings[i].fingerprint == e.fingerprint {
        assert IsRegistered(filings, e);
        return true;
      }
      assert !IsRegistered(filings, e);
      var settled := e.name in observed && observed[e.name] == e.fingerprint;
      observed := observed[e.name := e.fingerprint];
      if !settled {
        return true;
      }
      if !e.opens {
        return false;
      }
      if e.digest.None? {
        return true;
      }
      var stop := Stopping();
      if stop {
        return true;
      }
      ok := RegisterEntry(rules, e);
    }

    /** Stores the arrival before it is opened, then processes it. */
    method RegisterEntry(rules: Rules, e: Entry) returns (ok: bool)
      requires Valid() && e.newId !in outside.used && e.digest.Some? && !IsRegistered(filings, e)
      modifies `filings, `events, `stopped, outside`disk, outside`used, outside`commits, outside`receipts
      ensures Valid() && old(events) <= events && outside.used == old(outside.used) + {e.newId}
      ensures Grows(zone.categories, old(filings), filings) && |filings| <= |old(filings)| + 1
      ensures old(stopped) ==> stopped
      ensures old(filings) <= filings && (ok ==> |filings| > |old(filings)|)
      ensures |filings| > |old(filings)| ==>
        IsFiling(e, filings[|old(filings)|]) && Enters(zone, rules, ok && !stopped, old(filings), e, filings[|old(filings)|])
    {
      hide Run, Reach, IsArrival, SentOk, ListOk, CommitsOnly, NoticeOf, Revision, KeepsReceipt, AfterProcessing, Grows, Later, Inv, IsFiling, Arrival, IsRegistered,
        Stamped, Enters;
      var base := Arrival(filings, e.newId, e.name, e.fingerprint, e.digest.value, e.receivedAt, e.identified, zone.strategy);
      ghost var before := filings;
      Invariant();
      CommitsUsed(zone.categories, Now());
      ArrivalIsFiling(before, e, zone.strategy);
      GrowsReflexive(zone.categories, before);
      NewArrival(Now(), e, zone.strategy);
      ArrivalShape(before, base, e.identified, zone.strategy);
      ok := SaveChange(Change.Register(base), filings + [base]);
      if !ok {
        return false;
      }
      AppendGrows(zone.categories, before, base);
      EntersStored(zone, rules, before, e);
      ghost var registered := filings;
      var stop := Stopping();
      if stop {
        assert filings[|before|] == base;
        return true;
      }
      FreshUncommitted(Now(), old(outside.used), old(outside.commits), base.id);
      ghost var extracted, answer;
      ok, extracted, answer := ProcessNew(rules);
      EntersProcessed(zone, rules, stopped, before, e, base, extracted, answer);
      OneGrows(zone.categories, registered, filings, |before|);
      GrowsTransitive(zone.categories, before, registered, filings);
      StaysFiling(zone.categories, e, base, filings[|before|]);
    }

    /** Processes the filing just registered, the last of the list. */
    method ProcessNew(rules: Rules) returns (ok: bool, ghost extracted: Filing, ghost answer: Option<LandResult>)
      requires Valid() && |filings| > 0 && filings[|filings| - 1].landing.None? && filings[|filings| - 1].id !in outside.commits
      modifies `filings, `events, `stopped, outside`disk, outside`used, outside`commits, outside`receipts
      ensures Valid() && old(events) <= events && outside.used == old(outside.used)
      ensures |filings| == |old(filings)| && forall j | 0 <= j < |filings| - 1 :: filings[j] == old(filings)[j]
      ensures outside.receipts == old(outside.receipts) + ReceiptOf(extracted, answer)
      ensures Later(zone.categories, old(filings)[|filings| - 1], filings[|filings| - 1])
      ensures old(stopped) ==> stopped
      ensures AfterProcessing(zone, rules, stopped, old(filings)[|filings| - 1], extracted, answer)
      ensures filings[|filings| - 1] == if ok then Stamped(old(filings)[|filings| - 1], extracted) else old(filings)[|filings| - 1]
    {
      hide Run, Reach, AfterProcessing;
      var last := |filings| - 1;
      var base := filings[last];
      var g;
      g, answer := Process(rules, last);
      extracted := g;
      if g == base {
        return true, extracted, answer;
      }
      ok := SaveRevision(last, Stamped(base, g));
    }

    /** `scanOnce`: the walk over the directory, then a first delivery attempt. Not `ok` when a file that is
        to be hashed cannot be opened. */
    method ScanOnce(file: Option<Rules>, root: seq<Node>) returns (ok: bool)
      requires Valid() && Drawable(Files(root), outside.used)
      modifies this, outside
      ensures Valid() && old(events) <= events
      ensures Grows(zone.categories, old(filings), filings) && SameButDelivered(old(filings), filings[..|old(filings)|])
      ensures old(outside.sent) <= outside.sent
      ensures ok && !stopped && zone.delivers ==>
        forall f | f in filings :: Told(zone.categories, outside.sent[|old(outside.sent)|..], f) || f.id in old(noticeAttempts)
      ensures AllArrived(Files(root), old(observed), filings, |old(filings)|)
      ensures ok && !stopped ==>
        forall e | e in Files(root) && Observed(old(observed), e) && e.digest.Some? :: IsRegistered(filings, e)
    {
      ok := ScanFiles(file, Files(root));
    }

    /** The files in the order they are visited. */
    method ScanFiles(file: Option<Rules>, entries: seq<Entry>) returns (ok: bool)
      requires Valid() && Drawable(entries, outside.used)
      modifies this, outside
      ensures Valid() && old(events) <= events
      ensures Grows(zone.categories, old(filings), filings) && SameButDelivered(old(filings), filings[..|old(filings)|])
      ensures old(outside.sent) <= outside.sent
      ensures ok && !stopped && zone.delivers ==>
        forall f | f in filings :: Told(zone.categories, outside.sent[|old(outside.sent)|..], f) || f.id in old(noticeAttempts)
      ensures AllArrived(entries, old(observed), filings, |old(filings)|)
      ensures ok && !stopped ==> forall e | e in entries && Observed(old(observed), e) && e.digest.Some? :: IsRegistered(filings, e)
    {
      hide Run, Reach, Enters, Told, SameButDelivered, Due, Valid, Later, HasEntry;
      GrowsReflexive(zone.categories, filings);
      StartDelivered(filings, filings, filings);
      if stopped {
        return true;
      }
      if file.None? {
        return false;
      }
      for i := 0 to |entries|
        invariant Valid() && old(events) <= events && Grows(zone.categories, old(filings), filings) && old(filings) <= filings
        invariant SameButDelivered(old(filings), filings[..|old(filings)|])
        invariant outside.sent == old(outside.sent) && noticeAttempts == old(noticeAttempts)
        invariant forall j | i <= j < |entries| :: entries[j].newId !in outside.used
        invariant forall j | i <= j < |entries| :: Observed(observed, entries[j]) <==> Observed(old(observed), entries[j])
        invariant AllArrived(entries, old(observed), filings, |old(filings)|)
        invariant forall j | 0 <= j < i && Observed(old(observed), entries[j]) && entries[j].digest.Some? :: IsRegistered(filings, entries[j])
      {
        var stop := Stopping();
        if stop {
          return true;
        }
        ghost var before, seen := filings, observed;
        ok := ScanEntry(file.value, entries[i]);
        StartDelivered(old(filings), filings, filings);
        GrowsTransitive(zone.categories, old(filings), before, filings);
        RegisteredGrows(zone.categories, before, filings);
        AllArrivedMore(zone.categories, entries, old(observed), before, filings, |old(filings)|, entries[i]);
        if !ok || stopped {
          return ok;
        }
      }
      ghost var scanned := filings;
      ghost var failures;
      ok, failures := Publish(true);
      StartDelivered(old(filings), scanned, filings);
      DeliveredGrows(zone.categories, scanned, filings);
      GrowsTransitive(zone.categories, old(filings), scanned, filings);
      RegisteredGrows(zone.categories, scanned, filings);
      AllArrivedGrows(zone.categories, entries, old(observed), scanned, filings, |old(filings)|);
    }
  }

  lemma ArrivalIsFiling(fs: seq<Filing>, e: Entry, strategy: Option<string>)
    requires e.digest.Some?
    ensures var f := Arrival(fs, e.newId, e.name, e.fingerprint, e.digest.value, e.receivedAt, e.identified, strategy);
      IsFiling(e, f) && f.id == e.newId
  {
  }

  lemma StaysFiling(k: Categories, e: Entry, f: Filing, g: Filing)
    requires IsFiling(e, f) && Later(k, f, g)
    ensures IsFiling(e, g)
  {
  }

  lemma CommitsUsed(k: Categories, w: World)
    requires Inv(k, w)
    ensures forall id | id in w.commits :: id in w.used
  {
  }

  /** The ids drawn are new, and no path stands twice. */
  ghost predicate Drawable(entries: seq<Entry>, used: set<Id>) {
    && (forall i | 0 <= i < |entries| :: entries[i].newId !in used)
    && forall i, j | 0 <= i < j < |entries| :: entries[i].newId != entries[j].newId && entries[i].name != entries[j].name
  }

  ghost predicate CanRetry(fs: seq<Filing>, id: Id) {
    exists f | f in fs :: f.id == id && f.status == Quarantined && f.landing.None?
  }

  /** This version of this path is in the register. */
  ghost predicate IsRegistered(fs: seq<Filing>, e: Entry) {
    exists f | f in fs :: f.path == e.name && f.fingerprint == e.fingerprint
  }

  /** The scan before saw the entry as it is now. */
  ghost predicate Observed(observed: map<string, string>, e: Entry) {
    e.name in observed && observed[e.name] == e.fingerprint
  }

  /** The filing stands for this version of this file. */
  ghost predicate IsFiling(e: Entry, f: Filing) {
    e.digest == Some(f.sha256) && f.path == e.name && f.fingerprint == e.fingerprint && f.receivedAt == e.receivedAt
  }

  /** The filing stands for an entry that was seen twice and could be read. */
  ghost predicate Arrived(e: Entry, observed: map<string, string>, f: Filing) {
    Observed(observed, e) && IsFiling(e, f)
  }

  ghost predicate AllArrived(entries: seq<Entry>, observed: map<string, string>, fs: seq<Filing>, from: nat) {
    forall k | from <= k < |fs| :: HasEntry(entries, observed, fs[k])
  }

  ghost predicate HasEntry(entries: seq<Entry>, observed: map<string, string>, f: Filing) {
    exists e | e in entries :: Arrived(e, observed, f)
  }

  lemma AllArrivedGrows(k: Categories, entries: seq<Entry>, observed: map<string, string>, fs: seq<Filing>,
      gs: seq<Filing>, from: nat)
    requires AllArrived(entries, observed, fs, from) && Grows(k, fs, gs) && |fs| == |gs|
    ensures AllArrived(entries, observed, gs, from)
  {
    forall j | from <= j < |gs|
      ensures HasEntry(entries, observed, gs[j])
    {
      assert HasEntry(entries, observed, fs[j]);
      var e :| e in entries && Arrived(e, observed, fs[j]);
      assert Later(k, fs[j], gs[j]);
      assert Arrived(e, observed, gs[j]);
    }
  }

  lemma AllArrivedMore(k: Categories, entries: seq<Entry>, observed: map<string, string>, fs: seq<Filing>,
      gs: seq<Filing>, from: nat, e: Entry)
    requires AllArrived(entries, observed, fs, from) && Grows(k, fs, gs) && |gs| <= |fs| + 1
    requires e in entries && (|gs| > |fs| ==> Arrived(e, observed, gs[|fs|]))
    ensures AllArrived(entries, observed, gs, from)
  {
    forall j | from <= j < |gs|
      ensures HasEntry(entries, observed, gs[j])
    {
      if j < |fs| {
        assert HasEntry(entries, observed, fs[j]);
        var d :| d in entries && Arrived(d, observed, fs[j]);
        assert Later(k, fs[j], gs[j]);
        assert Arrived(d, observed, gs[j]);
      }
    }
  }

  lemma RegisteredGrows(k: Categories, fs: seq<Filing>, gs: seq<Filing>)
    requires Grows(k, fs, gs)
    ensures forall e | IsRegistered(fs, e) :: IsRegistered(gs, e)
  {
    forall e | IsRegistered(fs, e)
      ensures IsRegistered(gs, e)
    {
      var f :| f in fs && f.path == e.name && f.fingerprint == e.fingerprint;
      var i :| 0 <= i < |fs| && fs[i] == f;
      assert Later(k, fs[i], gs[i]);
      assert gs[i] in gs;
    }
  }

  /** What the scan registers is an arrival the state machine allows. */
  lemma NewArrival(w: World, e: Entry, strategy: Option<string>)
    requires e.newId !in w.used && e.digest.Some? && !IsRegistered(w.filings, e)
    ensures IsArrival(w, Arrival(w.filings, e.newId, e.name, e.fingerprint, e.digest.value, e.receivedAt, e.identified, strategy))
  {
  }

  /** A filing registered under a fresh id is not committed. */
  lemma FreshUncommitted(w: World, used: set<Id>, commits: map<Id, Receipt>, id: Id)
    requires id !in used && w.commits == commits && forall j | j in commits :: j in used
    ensures id !in w.commits
  {
  }

  ghost predicate Registered(f: Filing) {
    f.landing.Some? ==> f.landing.value.registered
  }

  lemma OneGrows(k: Categories, fs: seq<Filing>, gs: seq<Filing>, i: nat)
    requires i < |fs| == |gs| && Later(k, fs[i], gs[i]) && forall j | 0 <= j < |fs| && j != i :: gs[j] == fs[j]
    ensures Grows(k, fs, gs)
  {
    forall j | 0 <= j < |fs|
      ensures Later(k, fs[j], gs[j])
    {
    }
  }

  lemma DeliveredGrows(k: Categories, fs: seq<Filing>, gs: seq<Filing>)
    requires SameButDelivered(fs, gs)
    ensures Grows(k, fs, gs) && |fs| == |gs|
    ensures (forall f | f in fs :: Registered(f)) ==> forall g | g in gs :: Registered(g)
  {
    forall i | 0 <= i < |fs|
      ensures Later(k, fs[i], gs[i])
      ensures Registered(fs[i]) ==> Registered(gs[i])
    {
    }
  }

  /** Every filing the database has committed holds its receipt. */
  ghost predicate AllRecovered(fs: seq<Filing>, commits: map<Id, Receipt>) {
    forall f | f in fs && f.id in commits :: f.landing.Some?
  }

  /** Nothing new to send, or not the first attempt when only first attempts are made. */
  predicate Skips(f: Filing, initialOnly: bool, noticeAttempts: map<Id, nat>) {
    f.deliveredRevision == Some(Revision(f)) || (initialOnly && f.id in noticeAttempts)
  }

  function Attempted(noticeAttempts: map<Id, nat>, id: Id): map<Id, nat> {
    noticeAttempts[id := (if id in noticeAttempts then noticeAttempts[id] else 0) + 1]
  }

  function Delivered(f: Filing): Filing {
    f.(deliveredRevision := Some(Revision(f)))
  }

  /** The same filings, some of them now marked as delivered. */
  ghost predicate SameButDelivered(fs: seq<Filing>, gs: seq<Filing>) {
    |fs| == |gs| && forall i | 0 <= i < |fs| :: gs[i] == fs[i] || gs[i] == Delivered(fs[i])
  }
}
