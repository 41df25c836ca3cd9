/** `PostgresSourceScope`: leases on a source under a ceiling, over the steps of concurrent operations.
    Between two awaits an operation runs alone, so a run is any sequence of the steps below. */
module Leases {
  import opened Wrappers

  /** Where an operation that holds a lease stands: a connection attempt, the work, or its `finally`. */
  datatype Phase = Connecting(attempt: nat) | Working | Leaving

  datatype Lease = Lease(source: string, phase: Phase)

  datatype Scope = Scope(active: map<string, int>, held: map<nat, Lease>, released: multiset<nat>, refused: set<nat>)

  datatype Step =
    | Enter(id: nat, source: string, aborted: bool)
    | Connected(id: nat)
    | ConnectFailed(id: nat, retryable: bool, stopped: bool)
    | Ended(id: nat)
    | Release(id: nat)

  const ATTEMPTS: nat := 2

  function Count(active: map<string, int>, source: string): int {
    if source in active then active[source] else 0
  }

  function Initial(): Scope {
    Scope(map[], map[], multiset{}, {})
  }

  predicate IsNew(s: Scope, id: nat) {
    id !in s.held && id !in s.released && id !in s.refused
  }

  /** The control flow of one operation: attempts, then work, then its `finally`; it may end at any time. */
  predicate Enabled(s: Scope, e: Step) {
    match e
    case Enter(id, _, _) => IsNew(s, id)
    case Connected(id) => id in s.held && s.held[id].phase.Connecting?
    case ConnectFailed(id, _, _) => id in s.held && s.held[id].phase.Connecting?
    case Ended(id) => id in s.held && !s.held[id].phase.Leaving?
    case Release(id) => id in s.held && s.held[id].phase.Leaving?
  }

  function Moved(s: Scope, id: nat, phase: Phase): Scope
    requires id in s.held
  {
    s.(held := s.held[id := s.held[id].(phase := phase)])
  }

  function After(max: nat, s: Scope, e: Step): Scope
    requires Enabled(s, e)
  {
    match e
    case Enter(id, source, aborted) =>
      var count := Count(s.active, source);
      if aborted || count >= max then s.(refused := s.refused + {id})
      else s.(active := s.active[source := count + 1], held := s.held[id := Lease(source, Connecting(1))])
    case Connected(id) => Moved(s, id, Working)
    case ConnectFailed(id, retryable, stopped) =>
      if stopped || s.held[id].phase.attempt == ATTEMPTS || !retryable then Moved(s, id, Leaving) else Moved(s, id, Connecting(ATTEMPTS))
    case Ended(id) => Moved(s, id, Leaving)
    case Release(id) =>
      var source := s.held[id].source;
      var left := (if source in s.active then s.active[source] else 1) - 1;
      s.(active := if left == 0 then s.active - {source} else s.active[source := left],
         held := s.held - {id},
         released := s.released + multiset{id})
  }

  // ----- What every step keeps -----

  ghost function Holders(held: map<nat, Lease>, source: string): set<nat> {
    set id | id in held && held[id].source == source
  }

  ghost predicate Inv(max: nat, s: Scope) {
    && (forall source :: Count(s.active, source) == |Holders(s.held, source)| <= max)
    && (forall source | source in s.active :: s.active[source] > 0)
    && (forall id | id in s.held :: s.held[id].phase.Connecting? ==> 1 <= s.held[id].phase.attempt <= ATTEMPTS)
    && (forall id :: s.released[id] <= 1)
    && (forall id | id in s.held :: id !in s.released && id !in s.refused)
    && (forall id | id in s.refused :: id !in s.released)
  }

  lemma HoldersAdded(held: map<nat, Lease>, id: nat, lease: Lease, source: string)
    requires id !in held
    ensures |Holders(held[id := lease], source)| == |Holders(held, source)| + if source == lease.source then 1 else 0
  {
    var more := held[id := lease];
    if source == lease.source {
      assert Holders(more, source) == Holders(held, source) + {id};
    } else {
      assert Holders(more, source) == Holders(held, source);
    }
  }

  lemma HoldersRemoved(held: map<nat, Lease>, id: nat, source: string)
    requires id in held
    ensures |Holders(held, source)| == |Holders(held - {id}, source)| + if source == held[id].source then 1 else 0
  {
    var fewer := held - {id};
    if source == held[id].source {
      assert Holders(held, source) == Holders(fewer, source) + {id};
    } else {
      assert Holders(held, source) == Holders(fewer, source);
    }
  }

  lemma HoldersMoved(s: Scope, id: nat, phase: Phase, source: string)
    requires id in s.held
    ensures Holders(Moved(s, id, phase).held, source) == Holders(s.held, source)
  {
  }

  lemma StepInv(max: nat, s: Scope, e: Step)
    requires Inv(max, s) && Enabled(s, e)
    ensures Inv(max, After(max, s, e))
  {
    hide Holders;
    var t := After(max, s, e);
    forall source
      ensures Count(t.active, source) == |Holders(t.held, source)| <= max
    {
      match e
      case Enter(id, key, aborted) =>
        if t.held != s.held {
          HoldersAdded(s.held, id, Lease(key, Connecting(1)), source);
        }
      case Connected(id) => HoldersMoved(s, id, Working, source);
      case ConnectFailed(id, retryable, stopped) =>
        HoldersMoved(s, id, t.held[id].phase, source);
      case Ended(id) => HoldersMoved(s, id, Leaving, source);
      case Release(id) => HoldersRemoved(s.held, id, source);
    }
  }

  function Run(max: nat, s: Scope, steps: seq<Step>): (r: Option<Scope>)
    decreases |steps|
  {
    if steps == [] then Some(s)
    else if !Enabled(s, steps[0]) then None
    else Run(max, After(max, s, steps[0]), steps[1..])
  }

  /** In every run the count of a source is the number of leases held on it, at most the ceiling; a lease
      makes at most two connection attempts and is released at most once. */
  lemma {:induction false} RunInv(max: nat, s: Scope, steps: seq<Step>)
    requires Inv(max, s) && Run(max, s, steps).Some?
    ensures Inv(max, Run(max, s, steps).value)
    decreases |steps|
  {
    if steps != [] {
      StepInv(max, s, steps[0]);
      RunInv(max, After(max, s, steps[0]), steps[1..]);
    }
  }

  lemma InitialInv(max: nat)
    ensures Inv(max, Initial())
  {
    assert forall source :: Holders(map[], source) == {};
  }

  // ----- Consequences -----

  predicate Entered(steps: seq<Step>, id: nat) {
    exists i | 0 <= i < |steps| :: steps[i].Enter? && steps[i].id == id
  }

  ghost predicate Accounted(s: Scope, id: nat) {
    id in s.held || s.released[id] == 1 || id in s.refused
  }

  lemma {:induction false} EnteredAccounted(max: nat, s: Scope, steps: seq<Step>, id: nat)
    requires Inv(max, s) && Run(max, s, steps).Some?
    requires Accounted(s, id) || Entered(steps, id)
    ensures Accounted(Run(max, s, steps).value, id)
    decreases |steps|
  {
    if steps != [] {
      var t := After(max, s, steps[0]);
      StepInv(max, s, steps[0]);
      if !Accounted(s, id) {
        var i :| 0 <= i < |steps| && steps[i].Enter? && steps[i].id == id;
        assert i == 0 || steps[1..][i - 1] == steps[i];
      }
      EnteredAccounted(max, t, steps[1..], id);
    }
  }

  /** When no operation is left, nothing is counted and every operation that was not refused released its
      lease exactly once. */
  lemma Quiescent(max: nat, steps: seq<Step>)
    requires Run(max, Initial(), steps).Some? && Run(max, Initial(), steps).value.held == map[]
    ensures var s := Run(max, Initial(), steps).value;
      && s.active == map[]
      && forall id | Entered(steps, id) :: if id in s.refused then s.released[id] == 0 else s.released[id] == 1
  {
    InitialInv(max);
    RunInv(max, Initial(), steps);
    var s := Run(max, Initial(), steps).value;
    forall source
      ensures source !in s.active
    {
      assert Holders(s.held, source) == {};
      assert Count(s.active, source) == 0;
    }
    forall id | Entered(steps, id)
      ensures if id in s.refused then s.released[id] == 0 else s.released[id] == 1
    {
      EnteredAccounted(max, Initial(), steps, id);
    }
  }

  /** An operation that is not aborted is refused exactly if the ceiling's number of leases is held. */
  lemma BusyExact(max: nat, s: Scope, id: nat, source: string)
    requires Inv(max, s) && IsNew(s, id)
    ensures id in After(max, s, Enter(id, source, false)).refused <==> |Holders(s.held, source)| == max
  {
    assert Count(s.active, source) == |Holders(s.held, source)|;
  }

  // ----- The steps in other words -----

  /** An operation is admitted exactly if it is not aborted and the source is below its ceiling; then it
      holds a lease and makes its first attempt. */
  lemma Admitted(max: nat, s: Scope, id: nat, source: string, aborted: bool)
    requires IsNew(s, id)
    ensures var t := After(max, s, Enter(id, source, aborted));
      && (id in t.held <==> !aborted && Count(s.active, source) < max)
      && (id in t.refused <==> id !in t.held)
      && (id in t.held ==> t.held[id] == Lease(source, Connecting(1)) && Count(t.active, source) == Count(s.active, source) + 1)
      && (id in t.refused ==> t.active == s.active && t.held == s.held)
  {
  }

  /** A failed connection is tried again exactly if the failure is retryable, it was not the last attempt,
      and the operation was not stopped. */
  lemma RetriedOnce(max: nat, s: Scope, id: nat, retryable: bool, stopped: bool)
    requires Inv(max, s) && id in s.held && s.held[id].phase.Connecting?
    ensures var t := After(max, s, ConnectFailed(id, retryable, stopped));
      && t.active == s.active && t.released == s.released && t.held.Keys == s.held.Keys
      && (t.held[id].phase.Connecting? <==> retryable && !stopped && s.held[id].phase.attempt == 1)
      && (t.held[id].phase.Connecting? ==> t.held[id].phase.attempt == 2)
      && (!t.held[id].phase.Connecting? ==> t.held[id].phase.Leaving?)
  {
  }

  /** A release gives back exactly one place of the lease's source. */
  lemma Released(max: nat, s: Scope, id: nat)
    requires Inv(max, s) && Enabled(s, Release(id))
    ensures var t := After(max, s, Release(id));
      && id !in t.held && t.released[id] == s.released[id] + 1
      && forall source :: Count(t.active, source) == Count(s.active, source) - if source == s.held[id].source then 1 else 0
  {
    var source := s.held[id].source;
    assert id in Holders(s.held, source);
    assert Count(s.active, source) == |Holders(s.held, source)|;
  }
}
