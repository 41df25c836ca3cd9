/** The filing register as a state machine: what a step may change in memory, in the state file, in
    the landing database and at the receiver of notices, with failed saves and restarts. */
module Filings {
  import opened Wrappers

  type Id = string

  datatype Status = Ready | Quarantined | Duplicate

  datatype Receipt = Receipt(filingId: Id, partyCode: string, landedTable: string, rowCount: nat)

  datatype Landing = Landing(receipt: Receipt, registered: bool, error: Option<string>)

  /** `WatchedFiling`; `None` stands for null and for an absent property. */
  datatype Filing = Filing(
    id: Id, path: string, fingerprint: string, sha256: string, receivedAt: string,
    status: Status, reason: Option<string>, ruleIds: seq<string>,
    partyId: Option<string>, period: Option<string>, kind: Option<string>,
    extraction: Option<string>, landing: Option<Landing>,
    revision: Option<nat>, deliveredRevision: Option<nat>,
    partyCode: Option<string>, quarantineCategory: Option<string>, strategy: Option<string>,
    supersedes: Option<Id>, duplicateOf: Option<Id>)

  /** `filing.revision ?? 1` */
  function Revision(f: Filing): nat {
    if f.revision.None? then 1 else f.revision.value
  }

  datatype Outcome = PendingOutcome | LandedOutcome | QuarantinedOutcome | DuplicateOutcome

  datatype Notice = Notice(
    filingId: Id, fileSha256: string, receivedAt: string, revision: nat, outcome: Outcome,
    partyCode: Option<string>, kind: Option<string>, period: Option<string>, quarantineCategory: Option<string>)

  /** `categories` maps a reason to its fixed category. */
  function NoticeOf(categories: Option<string> -> string, f: Filing): Notice {
    Notice(f.id, f.sha256, f.receivedAt, Revision(f),
      if f.landing.Some? then LandedOutcome
      else match f.status
        case Ready => PendingOutcome
        case Quarantined => QuarantinedOutcome
        case Duplicate => DuplicateOutcome,
      if f.landing.Some? then Some(f.landing.value.receipt.partyCode) else f.partyCode,
      f.kind, f.period,
      if f.status != Quarantined then None
      else if f.quarantineCategory.Some? then f.quarantineCategory else Some(categories(f.reason)))
  }

  // ----- Searches of the register -----

  /** The first filing of these bytes that is not quarantined, other than `except`. */
  function FirstCopy(fs: seq<Filing>, sha: string, except: Option<Id>): Option<Filing> {
    if fs == [] then None
    else if Some(fs[0].id) != except && fs[0].status != Quarantined && fs[0].sha256 == sha then Some(fs[0])
    else FirstCopy(fs[1..], sha, except)
  }

  /** The last ready filing of this party, period and kind, other than `except`. */
  function LastReady(fs: seq<Filing>, partyId: string, period: string, kind: string,
      except: Option<Id>): Option<Filing>
  {
    if fs == [] then None
    else
      var f := fs[|fs| - 1];
      if Some(f.id) != except && f.status == Ready && f.partyId == Some(partyId) && f.period == Some(period) && f.kind == Some(kind)
      then Some(f) else LastReady(fs[..|fs| - 1], partyId, period, kind, except)
  }

  predicate SameBytes(f: Filing, sha: string, except: Option<Id>) {
    Some(f.id) != except && f.status != Quarantined && f.sha256 == sha
  }

  predicate IsPredecessor(f: Filing, partyId: string, period: string, kind: string, except: Option<Id>) {
    && Some(f.id) != except && f.status == Ready
    && f.partyId == Some(partyId) && f.period == Some(period) && f.kind == Some(kind)
  }

  ghost predicate FirstAt(fs: seq<Filing>, i: nat, sha: string, except: Option<Id>) {
    i < |fs| && SameBytes(fs[i], sha, except) && forall j | 0 <= j < i :: !SameBytes(fs[j], sha, except)
  }

  ghost predicate LastAt(fs: seq<Filing>, i: nat, partyId: string, period: string, kind: string, except: Option<Id>) {
    && i < |fs| && IsPredecessor(fs[i], partyId, period, kind, except)
    && forall j | i < j < |fs| :: !IsPredecessor(fs[j], partyId, period, kind, except)
  }

  /** The copy that is found has none before it; if none is found there is none. */
  lemma {:induction false} FirstCopyIn(fs: seq<Filing>, sha: string, except: Option<Id>)
    ensures var r := FirstCopy(fs, sha, except);
      && (r.Some? ==> exists i: nat :: FirstAt(fs, i, sha, except) && fs[i] == r.value)
      && (r.None? ==> forall f | f in fs :: !SameBytes(f, sha, except))
  {
    if fs != [] {
      if SameBytes(fs[0], sha, except) {
        assert FirstAt(fs, 0, sha, except);
      } else {
        var rest := fs[1..];
        FirstCopyIn(rest, sha, except);
        assert fs == [fs[0]] + rest;
        var r := FirstCopy(rest, sha, except);
        if r.Some? {
          var i: nat :| FirstAt(rest, i, sha, except) && rest[i] == r.value;
          forall j | 0 <= j < i + 1
            ensures !SameBytes(fs[j], sha, except)
          {
            assert j > 0 ==> fs[j] == rest[j - 1];
          }
          assert FirstAt(fs, i + 1, sha, except);
        }
      }
    }
  }

  /** The predecessor that is found has none behind it; if none is found there is none. */
  lemma {:induction false} LastReadyIn(fs: seq<Filing>, partyId: string, period: string, kind: string,
      except: Option<Id>)
    ensures var r := LastReady(fs, partyId, period, kind, except);
      && (r.Some? ==> exists i: nat :: LastAt(fs, i, partyId, period, kind, except) && fs[i] == r.value)
      && (r.None? ==> forall f | f in fs :: !IsPredecessor(f, partyId, period, kind, except))
  {
    if fs != [] {
      var front := fs[..|fs| - 1];
      if IsPredecessor(fs[|fs| - 1], partyId, period, kind, except) {
        assert LastAt(fs, |fs| - 1, partyId, period, kind, except);
      } else {
        LastReadyIn(front, partyId, period, kind, except);
        assert fs == front + [fs[|fs| - 1]];
        var r := LastReady(front, partyId, period, kind, except);
        if r.Some? {
          var i: nat :| LastAt(front, i, partyId, period, kind, except) && front[i] == r.value;
          forall j | i < j < |fs|
            ensures !IsPredecessor(fs[j], partyId, period, kind, except)
          {
            assert j < |front| ==> fs[j] == front[j];
          }
          assert LastAt(fs, i, partyId, period, kind, except);
        }
      }
    }
  }

  function IdOf(f: Option<Filing>): Option<Id> {
    if f.None? then None else Some(f.value.id)
  }

  /** `duplicate.duplicateOf ?? duplicate.id` */
  function Original(f: Filing): Id {
    if f.duplicateOf.None? then f.id else f.duplicateOf.value
  }

  // ----- New and retried filings -----

  /** The outcome of `identifyFile`, with the code of the party it found. */
  datatype Identification =
    | Unidentified(reason: string, ruleIds: seq<string>)
    | Identified(partyId: string, ruleId: string, period: string, kind: string, partyCode: Option<string>)

  /** What the scan registers for an arrival, at revision 1. */
  function Arrival(fs: seq<Filing>, id: Id, path: string, fingerprint: string, sha: string, receivedAt: string,
                   identified: Identification, strategy: Option<string>): Filing {
    var base := Filing(id, path, fingerprint, sha, receivedAt, Quarantined, None, [], None, None, None, None, None,
      Some(1), None, None, None, strategy, None, None);
    match identified
    case Unidentified(reason, ruleIds) => base.(reason := Some(reason), ruleIds := ruleIds)
    case Identified(partyId, ruleId, period, kind, partyCode) =>
      var named := base.(partyId := Some(partyId), period := Some(period), kind := Some(kind),
        ruleIds := [ruleId], partyCode := partyCode, status := Ready);
      var copy := FirstCopy(fs, sha, None);
      if copy.Some? then named.(status := Duplicate, duplicateOf := Some(Original(copy.value)))
      else named.(supersedes := IdOf(LastReady(fs, partyId, period, kind, None)))
  }

  /** What `retry` stores for a quarantined filing. */
  function Retried(fs: seq<Filing>, current: Filing, identified: Identification): Filing {
    var base := current.(revision := Some(Revision(current) + 1), reason := None, quarantineCategory := None, extraction := None);
    match identified
    case Unidentified(reason, ruleIds) => base.(reason := Some(reason), ruleIds := ruleIds)
    case Identified(partyId, ruleId, period, kind, partyCode) =>
      var named := base.(partyId := Some(partyId), period := Some(period), kind := Some(kind),
        ruleIds := [ruleId], partyCode := partyCode, status := Ready);
      var copy := FirstCopy(fs, current.sha256, Some(current.id));
      if copy.Some? then named.(status := Duplicate, duplicateOf := Some(Original(copy.value)))
      else named.(supersedes := IdOf(LastReady(fs, partyId, period, kind, Some(current.id))))
  }

  // ----- State -----

  /** `used` collects every id ever drawn; the receiver keeps, per filing, the notice with the highest
      revision it has heard. */
  datatype World = World(
    filings: seq<Filing>, disk: seq<Filing>,
    commits: map<Id, Receipt>,
    sent: seq<Notice>, inbox: map<Id, Notice>,
    used: set<Id>)

  const INITIAL: World := World([], [], map[], [], map[], {})

  /** The receiver drops notices of an older or equal revision. */
  function Hear(inbox: map<Id, Notice>, n: Notice): map<Id, Notice> {
    if n.filingId in inbox && inbox[n.filingId].revision >= n.revision then inbox else inbox[n.filingId := n]
  }

  /** The list an operation tries to save. */
  datatype Change =
    | Register(filing: Filing)
    | Revise(index: nat, filing: Filing)
    | Retry(index: nat, identified: Identification)
    | Deliver(index: nat)

  /** A save reports success, or fails leaving the file as it was or already replaced. */
  datatype SaveResult = Saved | FailedOld | FailedNew

  datatype Event =
    | Save(change: Change, result: SaveResult)
    | Send(index: nat, heard: bool)
    | Land(index: nat, receipt: Option<Receipt>)
    | Restart

  function Updated(fs: seq<Filing>, c: Change): seq<Filing>
    requires !c.Register? ==> c.index < |fs|
  {
    match c
    case Register(f) => fs + [f]
    case Revise(i, f) => fs[i := f]
    case Retry(i, identified) => fs[i := Retried(fs, fs[i], identified)]
    case Deliver(i) => fs[i := fs[i].(deliveredRevision := Some(Revision(fs[i])))]
  }

  /** Arrival identity is never touched. */
  ghost predicate SameIdentity(f: Filing, g: Filing) {
    f.id == g.id && f.path == g.path && f.fingerprint == g.fingerprint && f.sha256 == g.sha256 && f.receivedAt == g.receivedAt
  }

  ghost predicate KeepsReceipt(f: Filing, g: Filing) {
    f.landing.Some? ==> g.landing.Some? && g.landing.value.receipt == f.landing.value.receipt
  }

  /** The filing's receipt is the one the database committed. */
  ghost predicate ReceiptCommitted(commits: map<Id, Receipt>, f: Filing) {
    f.landing.Some? ==> f.id in commits && commits[f.id] == f.landing.value.receipt
  }

  /** A processed, reconciled or recovered filing against the one before it. */
  ghost predicate IsRevision(commits: map<Id, Receipt>, f: Filing, g: Filing) {
    && SameIdentity(f, g) && KeepsReceipt(f, g) && ReceiptCommitted(commits, g)
    && g.revision == Some(Revision(f) + 1) && g.deliveredRevision == f.deliveredRevision
    && g.supersedes == f.supersedes && g.duplicateOf == f.duplicateOf
    && (g.status == f.status || (f.status == Ready && g.status == Quarantined))
  }

  ghost predicate IsArrival(w: World, f: Filing) {
    && f.id !in w.used
    && (forall g | g in w.filings :: !(g.path == f.path && g.fingerprint == f.fingerprint))
    && exists identified, strategy ::
         f == Arrival(w.filings, f.id, f.path, f.fingerprint, f.sha256, f.receivedAt, identified, strategy)
  }

  ghost predicate Allowed(w: World, c: Change) {
    match c
    case Register(f) => IsArrival(w, f)
    case Revise(i, g) => i < |w.filings| && IsRevision(w.commits, w.filings[i], g)
    case Retry(i, _) => i < |w.filings| && w.filings[i].status == Quarantined && w.filings[i].landing.None?
    case Deliver(i) =>
      && i < |w.filings| && w.filings[i].id in w.inbox
      && w.inbox[w.filings[i].id].revision >= Revision(w.filings[i])
  }

  ghost predicate Enabled(w: World, e: Event) {
    match e
    case Save(c, _) => Allowed(w, c)
    case Send(i, _) => i < |w.filings|
    case Land(i, receipt) =>
      && i < |w.filings| && w.filings[i].id !in w.commits
      && (receipt.Some? ==> receipt.value.filingId == w.filings[i].id)
    case Restart => true
  }

  function Drawn(c: Change): set<Id> {
    if c.Register? then {c.filing.id} else {}
  }

  function After(categories: Option<string> -> string, w: World, e: Event): World {
    match e
    case Save(c, result) =>
      if !c.Register? && c.index >= |w.filings| then w
      else
        var next := Updated(w.filings, c);
        World(if result == Saved then next else w.filings, if result == FailedOld then w.disk else next,
          w.commits, w.sent, w.inbox, w.used + Drawn(c))
    case Send(i, heard) =>
      if i >= |w.filings| then w
      else
        var n := NoticeOf(categories, w.filings[i]);
        w.(sent := w.sent + [n], inbox := if heard then Hear(w.inbox, n) else w.inbox)
    case Land(_, receipt) =>
      if receipt.None? then w else w.(commits := w.commits[receipt.value.filingId := receipt.value])
    case Restart => w.(filings := w.disk)
  }

  /** The state after a run of events. */
  function Reach(categories: Option<string> -> string, w: World, es: seq<Event>): World {
    if es == [] then w else After(categories, Reach(categories, w, es[..|es| - 1]), es[|es| - 1])
  }

  ghost predicate Run(categories: Option<string> -> string, w: World, es: seq<Event>) {
    es == [] || (Run(categories, w, es[..|es| - 1]) && Enabled(Reach(categories, w, es[..|es| - 1]), es[|es| - 1]))
  }
}
