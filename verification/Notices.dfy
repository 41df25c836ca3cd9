/** What the receiver of notices is told: of which filing, and whether that was so. */
module Notices {
  import opened Wrappers
  import opened Filings
  import opened FilingProperties
  import opened FilingHistory

  /** The notice says of the filing what the register holds. */
  ghost predicate Reports(k: Categories, n: Notice, f: Filing) {
    && n.filingId == f.id && n.fileSha256 == f.sha256 && n.receivedAt == f.receivedAt
    && n.kind == f.kind && n.period == f.period
    && (f.revision == Some(n.revision) || (f.revision.None? && n.revision == 1))
    && ReportsOutcome(n, f)
    && (f.landing.Some? ==> n.partyCode == Some(f.landing.value.receipt.partyCode))
    && (f.landing.None? ==> n.partyCode == f.partyCode)
    && ReportsCategory(k, n, f)
  }

  /** Landed if there is a landing, and otherwise the status. */
  ghost predicate ReportsOutcome(n: Notice, f: Filing) {
    && (n.outcome.LandedOutcome? <==> f.landing.Some?)
    && (n.outcome.PendingOutcome? <==> f.landing.None? && f.status.Ready?)
    && (n.outcome.QuarantinedOutcome? <==> f.landing.None? && f.status.Quarantined?)
    && (n.outcome.DuplicateOutcome? <==> f.landing.None? && f.status.Duplicate?)
  }

  /** A category exactly for a quarantined filing: the stored one, or that of the reason. */
  ghost predicate ReportsCategory(k: Categories, n: Notice, f: Filing) {
    && (n.quarantineCategory.Some? <==> f.status.Quarantined?)
    && (f.status.Quarantined? && f.quarantineCategory.Some? ==> n.quarantineCategory == f.quarantineCategory)
    && (f.status.Quarantined? && f.quarantineCategory.None? ==> n.quarantineCategory == Some(k(f.reason)))
  }

  /** The register's notice of a filing is the one that reports it. */
  lemma NoticeExact(k: Categories, n: Notice, f: Filing)
    ensures Reports(k, n, f) <==> n == NoticeOf(k, f)
  {
    assert Reports(k, n, f) ==> n.outcome == NoticeOf(k, f).outcome;
  }

  /** The notice was true of a filing in memory after the first `m` events. */
  ghost predicate TrueAfter(k: Categories, es: seq<Event>, m: nat, n: Notice) {
    m <= |es| && exists f | f in Reach(k, INITIAL, es[..m]).filings :: Reports(k, n, f)
  }

  lemma TrueLater(k: Categories, es: seq<Event>, m: nat, n: Notice)
    requires es != [] && TrueAfter(k, es[..|es| - 1], m, n)
    ensures TrueAfter(k, es, m, n)
  {
    assert es[..|es| - 1][..m] == es[..m];
  }

  /** Every notice ever sent was true of its filing at the moment it was sent. */
  lemma {:induction false} SentWasTrue(k: Categories, es: seq<Event>, n: Notice)
    requires Run(k, INITIAL, es) && n in Reach(k, INITIAL, es).sent
    ensures exists m: nat :: TrueAfter(k, es, m, n)
  {
    hide Reports;
    var front, e := es[..|es| - 1], es[|es| - 1];
    var w := Reach(k, INITIAL, front);
    if n in w.sent {
      SentWasTrue(k, front, n);
      var m: nat :| TrueAfter(k, front, m, n);
      TrueLater(k, es, m, n);
    } else {
      assert e.Send? && n == NoticeOf(k, w.filings[e.index]);
      NoticeExact(k, n, w.filings[e.index]);
      assert TrueAfter(k, front, |front|, n) by {
        assert front[..|front|] == front;
      }
      TrueLater(k, es, |front|, n);
    }
  }

  /** A notice of a landing is only sent when the database has committed the receipt it names, and it is
      still committed. */
  lemma LandedIsCommitted(k: Categories, es: seq<Event>, n: Notice)
    requires Run(k, INITIAL, es) && n in Reach(k, INITIAL, es).sent && n.outcome.LandedOutcome?
    ensures var commits := Reach(k, INITIAL, es).commits;
      n.filingId in commits && n.partyCode == Some(commits[n.filingId].partyCode)
  {
    SentWasTrue(k, es, n);
    var m: nat :| TrueAfter(k, es, m, n);
    var f :| f in Reach(k, INITIAL, es[..m]).filings && Reports(k, n, f);
    assert es[..m] + es[m..] == es;
    RunSplit(k, INITIAL, es[..m], es[m..]);
    InitialInv(k);
    RunInv(k, INITIAL, es[..m]);
    assert FilingOk(Reach(k, INITIAL, es[..m]), f);
    CommitsStay(k, Reach(k, INITIAL, es[..m]), es[m..]);
  }

  /** What the receiver holds of a filing was sent, so it was true once, and a landing it holds is
      committed. */
  lemma InboxWasTrue(k: Categories, es: seq<Event>, id: Id)
    requires Run(k, INITIAL, es) && id in Reach(k, INITIAL, es).inbox
    ensures var w := Reach(k, INITIAL, es);
      var n := w.inbox[id];
      && n.filingId == id
      && (exists m: nat :: TrueAfter(k, es, m, n))
      && (n.outcome.LandedOutcome? ==> id in w.commits && n.partyCode == Some(w.commits[id].partyCode))
  {
    InitialInv(k);
    RunInv(k, INITIAL, es);
    var n := Reach(k, INITIAL, es).inbox[id];
    SentWasTrue(k, es, n);
    if n.outcome.LandedOutcome? {
      LandedIsCommitted(k, es, n);
    }
  }

  /** The receiver holds a notice of every registered filing and of nothing else, and each reports the
      filing as the register holds it. */
  ghost predicate ReceiverHolds(k: Categories, w: World) {
    && (forall id :: id in w.inbox <==> exists f | f in w.filings :: f.id == id)
    && (forall f | f in w.filings :: f.id in w.inbox && Reports(k, w.inbox[f.id], f))
  }

  /** This is so when every filing is delivered at its revision. */
  lemma DeliveredHolds(k: Categories, w: World)
    requires Inv(k, w) && forall f | f in w.filings :: f.deliveredRevision == Some(Revision(f))
    ensures ReceiverHolds(k, w)
  {
    hide Reports;
    ReceiverCurrent(k, w);
    forall f | f in w.filings
      ensures Reports(k, w.inbox[f.id], f)
    {
      NoticeExact(k, w.inbox[f.id], f);
    }
  }
}
