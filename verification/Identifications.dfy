/** What an arrival or a retried filing is identified as, said of the register alone: the copy it
    duplicates, or the filing it supersedes. */
module Identifications {
  import opened Wrappers
  import opened Filings

  /** The first filing of the same bytes that is not quarantined, apart from the one excepted. */
  ghost predicate FirstSame(fs: seq<Filing>, sha: string, except: Option<Id>, i: nat) {
    && i < |fs| && Same(fs[i], sha, except)
    && forall j | 0 <= j < i :: !Same(fs[j], sha, except)
  }

  ghost predicate Same(f: Filing, sha: string, except: Option<Id>) {
    f.sha256 == sha && !f.status.Quarantined? && except != Some(f.id)
  }

  /** The last ready filing of the same party, period and kind, apart from the one excepted. */
  ghost predicate LastBefore(fs: seq<Filing>, identified: Identification, except: Option<Id>, i: nat)
    requires identified.Identified?
  {
    && i < |fs| && Precedes(fs[i], identified, except)
    && forall j | i < j < |fs| :: !Precedes(fs[j], identified, except)
  }

  ghost predicate Precedes(f: Filing, identified: Identification, except: Option<Id>)
    requires identified.Identified?
  {
    && f.status.Ready? && except != Some(f.id)
    && f.partyId == Some(identified.partyId) && f.period == Some(identified.period) && f.kind == Some(identified.kind)
  }

  /** A duplicate names the original behind the first filing of the same bytes. */
  ghost predicate Duplicates(fs: seq<Filing>, sha: string, except: Option<Id>, original: Option<Id>) {
    exists i: nat :: FirstSame(fs, sha, except, i)
      && original == if fs[i].duplicateOf.Some? then fs[i].duplicateOf else Some(fs[i].id)
  }

  /** A new version names the last ready filing, if there is one. */
  ghost predicate Supersedes(fs: seq<Filing>, identified: Identification, except: Option<Id>, predecessor: Option<Id>)
    requires identified.Identified?
  {
    || (exists i: nat :: LastBefore(fs, identified, except, i) && predecessor == Some(fs[i].id))
    || (predecessor.None? && forall f | f in fs :: !Precedes(f, identified, except))
  }

  ghost predicate HasSame(fs: seq<Filing>, sha: string, except: Option<Id>) {
    exists f | f in fs :: Same(f, sha, except)
  }

  /** What is stored of an arrival. */
  ghost predicate ArrivesAs(fs: seq<Filing>, f: Filing, identified: Identification) {
    && f.revision == Some(1) && f.deliveredRevision.None? && f.landing.None? && f.extraction.None? && f.quarantineCategory.None?
    && match identified
       case Unidentified(reason, ruleIds) =>
         && f.status.Quarantined? && f.reason == Some(reason) && f.ruleIds == ruleIds
         && f.partyId.None? && f.period.None? && f.kind.None? && f.partyCode.None? && f.supersedes.None? && f.duplicateOf.None?
       case Identified(partyId, ruleId, period, kind, partyCode) =>
         && f.reason.None? && f.ruleIds == [ruleId]
         && f.partyId == Some(partyId) && f.period == Some(period) && f.kind == Some(kind) && f.partyCode == partyCode
         && if HasSame(fs, f.sha256, None) then
              f.status.Duplicate? && Duplicates(fs, f.sha256, None, f.duplicateOf) && f.supersedes.None?
            else f.status.Ready? && Supersedes(fs, identified, None, f.supersedes) && f.duplicateOf.None?
  }

  /** What is stored of a retried filing: its arrival and strategy as they were, and a later revision. */
  ghost predicate RetriesAs(fs: seq<Filing>, f: Filing, g: Filing, identified: Identification) {
    && SameIdentity(f, g) && g.strategy == f.strategy && g.landing == f.landing && g.deliveredRevision == f.deliveredRevision
    && (g.revision == Some(if f.revision.Some? then f.revision.value + 1 else 2))
    && g.quarantineCategory.None? && g.extraction.None?
    && match identified
       case Unidentified(reason, ruleIds) =>
         && g.reason == Some(reason) && g.ruleIds == ruleIds && g.status == f.status && g.partyId == f.partyId && g.period == f.period
         && g.kind == f.kind && g.partyCode == f.partyCode && g.supersedes == f.supersedes && g.duplicateOf == f.duplicateOf
       case Identified(partyId, ruleId, period, kind, partyCode) =>
         && g.reason.None? && g.ruleIds == [ruleId]
         && g.partyId == Some(partyId) && g.period == Some(period) && g.kind == Some(kind) && g.partyCode == partyCode
         && if HasSame(fs, f.sha256, Some(f.id)) then
              g.status.Duplicate? && Duplicates(fs, f.sha256, Some(f.id), g.duplicateOf) && g.supersedes == f.supersedes
            else g.status.Ready? && Supersedes(fs, identified, Some(f.id), g.supersedes) && g.duplicateOf == f.duplicateOf
  }

  lemma CopyExact(fs: seq<Filing>, sha: string, except: Option<Id>)
    ensures var copy := FirstCopy(fs, sha, except);
      && (copy.Some? <==> HasSame(fs, sha, except))
      && (copy.Some? ==> forall original :: Duplicates(fs, sha, except, original) <==> original == Some(Original(copy.value)))
  {
    FirstCopyIn(fs, sha, except);
    var copy := FirstCopy(fs, sha, except);
    assert forall f :: Same(f, sha, except) <==> SameBytes(f, sha, except);
    if copy.Some? {
      var i: nat :| FirstAt(fs, i, sha, except) && fs[i] == copy.value;
      assert FirstSame(fs, sha, except, i);
      assert forall j: nat | FirstSame(fs, sha, except, j) :: j == i;
      assert fs[i] in fs;
    }
  }

  lemma PredecessorExact(fs: seq<Filing>, identified: Identification, except: Option<Id>)
    requires identified.Identified?
    ensures forall predecessor ::
      Supersedes(fs, identified, except, predecessor)
      <==> predecessor == IdOf(LastReady(fs, identified.partyId, identified.period, identified.kind, except))
  {
    LastReadyIn(fs, identified.partyId, identified.period, identified.kind, except);
    var last := LastReady(fs, identified.partyId, identified.period, identified.kind, except);
    assert forall f :: Precedes(f, identified, except) <==> IsPredecessor(f, identified.partyId, identified.period, identified.kind, except);
    if last.Some? {
      var i: nat :| LastAt(fs, i, identified.partyId, identified.period, identified.kind, except) && fs[i] == last.value;
      assert LastBefore(fs, identified, except, i);
      assert forall j: nat | LastBefore(fs, identified, except, j) :: j == i;
      assert fs[i] in fs;
    }
  }

  lemma ArrivalExact(fs: seq<Filing>, f: Filing, identified: Identification)
    ensures ArrivesAs(fs, f, identified)
      <==> f == Arrival(fs, f.id, f.path, f.fingerprint, f.sha256, f.receivedAt, identified, f.strategy)
  {
    hide HasSame, Duplicates, Supersedes, FirstCopy, LastReady;
    CopyExact(fs, f.sha256, None);
    if identified.Identified? {
      PredecessorExact(fs, identified, None);
    }
  }

  lemma RetryExact(fs: seq<Filing>, f: Filing, g: Filing, identified: Identification)
    ensures RetriesAs(fs, f, g, identified) <==> g == Retried(fs, f, identified)
  {
    hide HasSame, Duplicates, Supersedes, FirstCopy, LastReady;
    CopyExact(fs, f.sha256, Some(f.id));
    if identified.Identified? {
      PredecessorExact(fs, identified, Some(f.id));
    }
  }
}
