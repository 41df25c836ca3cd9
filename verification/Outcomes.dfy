/** What the operations of the register come to, said of the filings, the notices and the receipts
    themselves. */
module Outcomes {
  import opened Wrappers
  import opened Filings
  import opened FilingProperties
  import opened Notices
  import opened Register

  // ----- The walk over the directory -----

  /** These are the files below, in the order they stand: a directory's where it stands, and nothing of what
      is skipped. */
  ghost predicate Walks(nodes: seq<Node>, entries: seq<Entry>) {
    if nodes == [] then entries == []
    else exists here, behind :: entries == here + behind && Below(nodes[0], here) && Walks(nodes[1..], behind)
  }

  ghost predicate Below(node: Node, entries: seq<Entry>) {
    match node
    case File(entry) => entries == [entry]
    case Directory(inner) => Walks(inner, entries)
    case Skipped => entries == []
  }

  lemma {:induction false} FilesExact(nodes: seq<Node>, entries: seq<Entry>)
    ensures Walks(nodes, entries) <==> entries == Files(nodes)
    decreases nodes
  {
    if nodes != [] {
      var rest := Files(nodes[1..]);
      FilesExact(nodes[1..], rest);
      forall behind | Walks(nodes[1..], behind)
        ensures behind == rest
      {
        FilesExact(nodes[1..], behind);
      }
      var first := Files([nodes[0]]);
      forall here
        ensures Below(nodes[0], here) <==> here == first
      {
        FirstBelow(nodes[0], here);
        if nodes[0].Directory? {
          FilesExact(nodes[0].nodes, here);
        }
      }
      assert Files(nodes) == first + rest by {
        FirstBelow(nodes[0], first);
      }
    }
  }

  lemma FirstBelow(node: Node, here: seq<Entry>)
    ensures Files([node]) == if node.File? then [node.entry] else if node.Directory? then Files(node.nodes) else []
  {
  }

  // ----- Notices -----

  /** The receiver does not have this revision acknowledged, and it is not a repeated attempt in a pass of
      first attempts. */
  ghost predicate ToBeSent(f: Filing, initialOnly: bool, noticeAttempts: map<Id, nat>) {
    && !(exists n :: f.deliveredRevision == Some(n) && (f.revision == Some(n) || (f.revision.None? && n == 1)))
    && (initialOnly ==> f.id !in noticeAttempts)
  }

  /** A pass sends as many notices as filings are to be sent, each of them the report of one, in their order. */
  lemma {:induction false} DueExact(k: Categories, fs: seq<Filing>, initialOnly: bool, noticeAttempts: map<Id, nat>)
    ensures Matches(k, ToSend(fs, initialOnly, noticeAttempts), Due(k, fs, initialOnly, noticeAttempts))
  {
    hide Reports, ToBeSent;
    if fs != [] {
      var f := fs[|fs| - 1];
      DueExact(k, fs[..|fs| - 1], initialOnly, noticeAttempts);
      SkipsExact(f, initialOnly, noticeAttempts);
      NoticeExact(k, NoticeOf(k, f), f);
    }
  }

  lemma SkipsExact(f: Filing, initialOnly: bool, noticeAttempts: map<Id, nat>)
    ensures Skips(f, initialOnly, noticeAttempts) <==> !ToBeSent(f, initialOnly, noticeAttempts)
  {
  }

  ghost function ToSend(fs: seq<Filing>, initialOnly: bool, noticeAttempts: map<Id, nat>): seq<Filing> {
    if fs == [] then []
    else
      var f := fs[|fs| - 1];
      ToSend(fs[..|fs| - 1], initialOnly, noticeAttempts) + if ToBeSent(f, initialOnly, noticeAttempts) then [f] else []
  }

  ghost predicate Matches(k: Categories, fs: seq<Filing>, notices: seq<Notice>) {
    |fs| == |notices| && forall i | 0 <= i < |fs| :: Reports(k, notices[i], fs[i])
  }

  /** An attempt is counted under its filing and nowhere else. */
  lemma AttemptCounted(noticeAttempts: map<Id, nat>, id: Id)
    ensures var after := Attempted(noticeAttempts, id);
      && after.Keys == noticeAttempts.Keys + {id}
      && (if id in noticeAttempts then after[id] == noticeAttempts[id] + 1 else after[id] == 1)
      && forall j | j in noticeAttempts && j != id :: after[j] == noticeAttempts[j]
  {
  }

  // ----- Processing -----

  /** A ready filing waits: something is to be tried again, or a receipt was not accepted. */
  ghost predicate Waits(f: Filing) {
    && f.status.Ready?
    && ((exists c, more :: f.reason == Some([c] + more)) || exists receipt, error :: f.landing == Some(Landing(receipt, false, error)))
  }

  lemma PendingExact(f: Filing)
    ensures Pending(f) <==> Waits(f)
  {
    if f.reason.Some? && f.reason.value != "" {
      var reason := f.reason.value;
      assert reason == [reason[0]] + reason[1..];
    }
    if f.landing.Some? && !f.landing.value.registered {
      assert f.landing == Some(Landing(f.landing.value.receipt, false, f.landing.value.error));
    }
  }

  /** Only a ready filing is processed. It lands exactly if the database says so, under that receipt; without
      a landing it is ready or quarantined, with a reason if it is quarantined or the database was not
      available, and what the database does not answer leaves it to be tried again. */
  lemma ProcessingOutcome(zone: Zone, rules: Rules, stopped: bool, f: Filing, g: Filing, answer: Option<LandResult>)
    requires f.landing.None? && AfterProcessing(zone, rules, stopped, f, g, answer)
    ensures !f.status.Ready? ==> g == f && answer.None?
    ensures answer.Some? ==> f.status.Ready? && zone.lands && !stopped
    ensures g.landing.Some? <==> exists receipt :: answer == Some(Landed(receipt))
    ensures g.landing.Some? ==> g.status.Ready? && g.reason.None? && answer == Some(Landed(g.landing.value.receipt))
    ensures f.status.Ready? && g.landing.None? ==>
      || (g.status.Quarantined? && g.reason.Some?)
      || (g.status.Ready? && (answer.None? ==> g.reason == f.reason) && (answer.Some? ==> Waiting(answer.value, g)))
    ensures f.status.Ready? && zone.extracts && g.extraction.None? ==> g.status.Quarantined?
    ensures f.status.Ready? && zone.extracts && zone.lands && !stopped && g.status.Ready? ==> answer.Some?
    ensures SameArrival(f, g)
  {
    var mid :| AfterExtraction(rules, zone.extracts, f, mid) && if stopped || !zone.lands then g == mid && answer.None? else AfterLanding(rules, mid, g, answer);
    if stopped || !zone.lands {
    } else {
      assert mid.landing.None?;
    }
  }

  ghost predicate Waiting(answer: LandResult, g: Filing) {
    answer.Unavailable? && g.reason == Some(answer.message)
  }

  /** All that processing never changes. */
  ghost predicate SameArrival(f: Filing, g: Filing) {
    && SameIdentity(f, g) && g.ruleIds == f.ruleIds && g.partyId == f.partyId && g.period == f.period && g.kind == f.kind
    && g.revision == f.revision && g.deliveredRevision == f.deliveredRevision && g.partyCode == f.partyCode
    && g.strategy == f.strategy && g.supersedes == f.supersedes && g.duplicateOf == f.duplicateOf
  }

  /** What is stored of a change has the next revision and is otherwise that change; no change is stored as
      it is. */
  lemma StampedExact(f: Filing, g: Filing)
    requires g.revision == f.revision
    ensures Stamped(f, g).(revision := g.revision) == g
    ensures Stamped(f, g).revision == if f == g then f.revision else Some(if f.revision.Some? then f.revision.value + 1 else 2)
  {
  }

  /** Recovering a commit gives a filing without a landing the committed receipt, not yet registered, at the
      next revision. */
  lemma RecoveredExact(commits: map<Id, Receipt>, f: Filing)
    ensures var g := WithCommit(commits, f);
      if f.landing.Some? || f.id !in commits then g == f
      else
        && g.landing == Some(Landing(commits[f.id], false, None))
        && g.revision == Some(if f.revision.Some? then f.revision.value + 1 else 2)
        && g.(landing := None, revision := f.revision) == f
  {
  }

  /** Sending a receipt again changes nothing but how it was answered, and the revision if that changed. */
  lemma ResentExact(f: Filing, error: Option<string>)
    requires f.landing.Some?
    ensures var g := Resent(f, error);
      && g.landing.Some? && g.landing.value.receipt == f.landing.value.receipt
      && g.landing.value.error == error && (g.landing.value.registered <==> error.None?)
      && g.(landing := f.landing, revision := f.revision) == f
      && (g.landing == f.landing ==> g == f)
      && (g.landing != f.landing ==> g.revision == Some(if f.revision.Some? then f.revision.value + 1 else 2))
  {
  }

  /** A reconciliation gives every committed filing its receipt and asks about none of them again: what was
      landed or committed before keeps its status, its reason and its receipt. */
  lemma ReconciledLanding(zone: Zone, rules: Rules, commits: map<Id, Receipt>, f: Filing, g: Filing)
    requires zone.lands && Reconciled(zone, rules, commits, f, g) && (f.landing.Some? || f.id in commits)
    ensures g.landing.Some? && g.landing.value.receipt == (if f.landing.Some? then f.landing.value.receipt else commits[f.id])
    ensures g.status == f.status && g.reason == f.reason && g.extraction == f.extraction && SameIdentity(f, g)
  {
    var b, c :| ReconciledVia(zone, rules, commits, f, b, c, g);
    assert b == WithCommit(commits, f);
  }

  /** Of a filing without a commit it makes what one turn of processing makes of it, and sends the receipt
      of a landing once more. */
  lemma ReconciledProcessing(zone: Zone, rules: Rules, commits: map<Id, Receipt>, f: Filing, g: Filing)
    requires Reconciled(zone, rules, commits, f, g) && f.landing.None? && (zone.lands ==> f.id !in commits)
    ensures exists h, answer :: AfterProcessing(zone, rules, false, f, h, answer) && EndsAs(f, h, g)
  {
    hide AfterProcessing;
    var b, c :| ReconciledVia(zone, rules, commits, f, b, c, g);
    var h, answer :| AfterProcessing(zone, rules, false, f, h, answer) && b == Stamped(f, h);
    assert EndsAs(f, h, g);
  }

  /** All but revisions and the answer to the receipt is as processing left it. */
  ghost predicate EndsAs(f: Filing, h: Filing, g: Filing) {
    && (h.landing.None? <==> g.landing.None?)
    && (h.landing.Some? ==> g.landing.value.receipt == h.landing.value.receipt)
    && g == h.(revision := g.revision, deliveredRevision := g.deliveredRevision, landing := g.landing)
    && (g.revision == f.revision ==> h == f)
  }
}
