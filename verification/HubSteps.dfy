/**
  The same session when calls overlap: other calls may run between the moment a send is
  handed to the Hub and the moment its outcome is looked at.

  A step is what one call does without giving way.  `log` records every lease taken and
  given back; `mark` in a pending send is a ghost of the log's length at its hand-over.
 */
module HubSteps {
  import opened Options

  /** Why a lease was given back: its epoch ended, its epoch had ended before, or it was for another backend. */
  datatype Reason = OwnEpoch | StaleEpoch | Rejected

  datatype Event = Acquired(lease: nat, foreign: bool) | Released(lease: nat, reason: Reason)

  datatype Pending = Pending(model: string, lease: nat, fence: nat, mark: nat)

  datatype State = State(
    models: set<string>,
    limit: nat,
    lease: Option<nat>,
    leasedModel: Option<string>,
    active: bool,
    completed: nat,
    fence: nat,
    pending: map<nat, Pending>,
    nextHandle: nat,
    log: seq<Event>)

  datatype Grant = GrantOwn | GrantForeign | GrantNone

  datatype Outcome = Answered | TransportFailure | Defect

  datatype Move =
    | Open
    | Begin(caller: nat, model: string, grant: Grant)
    | End(caller: nat, outcome: Outcome)
    | Checkpoint
    | Close

  function Initial(models: set<string>, limit: nat): State
    requires limit >= 1
  {
    State(models, limit, None, None, false, 0, 0, map[], 0, [])
  }

  /** `_retire`: clears the session's lease only if it is this one, but always bumps the fence and releases. */
  function Retire(s: State, lease: nat): State
  {
    var own := s.lease == Some(lease);
    s.(lease := if own then None else s.lease,
       leasedModel := if own then None else s.leasedModel,
       fence := s.fence + 1,
       log := s.log + [Released(lease, if own then OwnEpoch else StaleEpoch)])
  }

  /** `_acquire`: a foreign lease is given straight back and none is kept. */
  function Acquire(s: State, model: string, grant: Grant): State
  {
    match grant
    case GrantNone => s
    case GrantForeign =>
      s.(nextHandle := s.nextHandle + 1,
         log := s.log + [Acquired(s.nextHandle, true), Released(s.nextHandle, Rejected)])
    case GrantOwn =>
      s.(nextHandle := s.nextHandle + 1,
         lease := Some(s.nextHandle), leasedModel := Some(model), completed := 0, fence := s.fence + 1,
         log := s.log + [Acquired(s.nextHandle, false)])
  }

  /** The part of `send` up to the hand-over to the Hub. */
  function BeginSend(s: State, caller: nat, model: string, grant: Grant): State
  {
    if !s.active || model !in s.models then s
    else
      var rotated := if s.lease.Some? && s.leasedModel != Some(model) then Retire(s, s.lease.value) else s;
      var ready := if rotated.lease.None? then Acquire(rotated, model, grant) else rotated;
      if ready.lease.None? then ready
      else ready.(pending := ready.pending[caller := Pending(model, ready.lease.value, ready.fence, |ready.log|)])
  }

  /** The check on an answer: fence and lease are still those of the hand-over. */
  predicate Accepts(s: State, p: Pending)
  {
    p.fence == s.fence && s.lease == Some(p.lease)
  }

  function EndSend(s: State, caller: nat, outcome: Outcome): State
    requires caller in s.pending
  {
    var s' := s.(pending := s.pending - {caller});
    if outcome.TransportFailure? then Retire(s', s.pending[caller].lease) else s'
  }

  function Step(s: State, m: Move): State
  {
    match m
    case Open => s.(active := true)
    case Begin(caller, model, grant) => if caller in s.pending then s else BeginSend(s, caller, model, grant)
    case End(caller, outcome) => if caller in s.pending then EndSend(s, caller, outcome) else s
    case Checkpoint =>
      if s.lease.None? then s
      else
        var s' := s.(completed := s.completed + 1);
        if s'.completed >= s.limit then Retire(s', s.lease.value) else s'
    case Close =>
      var s' := s.(active := false);
      if s.lease.Some? then Retire(s', s.lease.value) else s'
  }

  function Run(s: State, moves: seq<Move>): State
    decreases |moves|
  {
    if moves == [] then s else Step(Run(s, moves[..|moves| - 1]), moves[|moves| - 1])
  }

  ghost predicate Reachable(s: State)
  {
    exists models, limit: nat, moves :: limit >= 1 && s == Run(Initial(models, limit), moves)
  }

  // ---------------------------------------------------------------------------
  // What every run keeps
  // ---------------------------------------------------------------------------

  /** Changes of epoch: a lease kept, or any lease given back by `_retire`. */
  predicate ChangesEpoch(e: Event)
  {
    match e
    case Acquired(_, foreign) => !foreign
    case Released(_, reason) => reason != Rejected
  }

  /** How often the epoch changed from position `from` of the log on. */
  function Changes(log: seq<Event>, from: nat): nat
    decreases |log|
  {
    if |log| <= from then 0
    else Changes(log[..|log| - 1], from) + if ChangesEpoch(log[|log| - 1]) then 1 else 0
  }

  lemma ChangesSnoc(log: seq<Event>, e: Event, from: nat)
    requires from <= |log|
    ensures Changes(log + [e], from) == Changes(log, from) + if ChangesEpoch(e) then 1 else 0
  {
    assert (log + [e])[..|log|] == log;
  }

  lemma {:induction false} ChangesZero(log: seq<Event>, from: nat)
    requires from <= |log|
    ensures Changes(log, from) == 0 <==> forall e :: e in log[from..] ==> !ChangesEpoch(e)
    decreases |log|
  {
    if from < |log| {
      var rest := log[..|log| - 1];
      ChangesZero(rest, from);
      assert log[from..] == rest[from..] + [log[|log| - 1]];
    }
  }

  /** The fence counts the changes of epoch since each hand-over. */
  ghost predicate FenceCounts(s: State)
  {
    forall c :: c in s.pending ==>
      s.pending[c].mark <= |s.log| && s.fence == s.pending[c].fence + Changes(s.log, s.pending[c].mark)
  }

  /** While the epoch has not changed since its hand-over, a pending send's lease is the session's. */
  ghost predicate UndisturbedIsCurrent(s: State)
  {
    forall c :: c in s.pending && s.fence == s.pending[c].fence ==> s.lease == Some(s.pending[c].lease)
  }

  /** Every lease kept and given up was given back once as its own epoch; every foreign one once as rejected. */
  ghost predicate Accounted(log: seq<Event>, held: Option<nat>, bound: nat)
  {
    && (forall e :: e in log ==> e.lease < bound)
    && (held.Some? ==> Acquired(held.value, false) in log)
    && (forall l: nat ::
          multiset(log)[Released(l, OwnEpoch)] == if Acquired(l, false) in log && held != Some(l) then 1 else 0)
    && (forall l: nat :: multiset(log)[Released(l, Rejected)] == if Acquired(l, true) in log then 1 else 0)
    && (forall l: nat :: !(Acquired(l, true) in log && Acquired(l, false) in log))
  }

  ghost predicate PendingKnown(s: State)
  {
    forall c :: c in s.pending ==> Acquired(s.pending[c].lease, false) in s.log
  }

  ghost predicate EpochBounded(s: State)
  {
    && s.limit >= 1
    && (s.lease.Some? <==> s.leasedModel.Some?)
    && (s.lease.Some? ==> s.completed < s.limit && s.leasedModel.value in s.models)
  }

  ghost predicate Inv(s: State)
  {
    FenceCounts(s) && UndisturbedIsCurrent(s) && PendingKnown(s) && Accounted(s.log, s.lease, s.nextHandle)
      && EpochBounded(s)
  }

  lemma CountSnoc(log: seq<Event>, e: Event)
    ensures multiset(log + [e]) == multiset(log) + multiset{e}
    ensures forall f :: f in log + [e] <==> f in log || f == e
  {
  }

  lemma NewLeaseUnseen(log: seq<Event>, held: Option<nat>, bound: nat)
    requires Accounted(log, held, bound)
    ensures forall f: bool :: Acquired(bound, f) !in log
    ensures forall r: Reason :: multiset(log)[Released(bound, r)] == 0
  {
    forall e: Event | e.lease == bound
      ensures e !in log
    {
    }
  }

  lemma AcquireAccounts(log: seq<Event>, bound: nat)
    requires Accounted(log, None, bound)
    ensures Accounted(log + [Acquired(bound, false)], Some(bound), bound + 1)
    ensures Accounted(log + [Acquired(bound, true), Released(bound, Rejected)], None, bound + 1)
  {
    hide Accounted;
    OwnAccounts(log, bound);
    ForeignAccounts(log, bound);
  }

  lemma OwnAccounts(log: seq<Event>, bound: nat)
    requires Accounted(log, None, bound)
    ensures Accounted(log + [Acquired(bound, false)], Some(bound), bound + 1)
  {
    NewLeaseUnseen(log, None, bound);
    CountSnoc(log, Acquired(bound, false));
  }

  lemma ForeignAccounts(log: seq<Event>, bound: nat)
    requires Accounted(log, None, bound)
    ensures Accounted(log + [Acquired(bound, true), Released(bound, Rejected)], None, bound + 1)
  {
    NewLeaseUnseen(log, None, bound);
    CountTwo(log, Acquired(bound, true), Released(bound, Rejected));
  }

  lemma CountTwo(log: seq<Event>, e: Event, f: Event)
    ensures multiset(log + [e, f]) == multiset(log) + multiset{e, f}
    ensures forall g :: g in log + [e, f] <==> g in log || g == e || g == f
  {
    assert log + [e, f] == log + [e] + [f];
  }

  lemma ReleaseAccounts(log: seq<Event>, held: Option<nat>, bound: nat, l: nat)
    requires Accounted(log, held, bound) && Acquired(l, false) in log
    ensures held == Some(l) ==> Accounted(log + [Released(l, OwnEpoch)], None, bound)
    ensures held != Some(l) ==> Accounted(log + [Released(l, StaleEpoch)], held, bound)
  {
    CountSnoc(log, Released(l, OwnEpoch));
    CountSnoc(log, Released(l, StaleEpoch));
  }

  /** Retiring any lease the session ever held: the fence moves past every pending send. */
  lemma RetireKeeps(s: State, l: nat)
    requires FenceCounts(s) && PendingKnown(s) && Accounted(s.log, s.lease, s.nextHandle)
    requires Acquired(l, false) in s.log && EpochBounded(Retire(s, l))
    ensures Inv(Retire(s, l))
  {
    var t := Retire(s, l);
    ReleaseAccounts(s.log, s.lease, s.nextHandle, l);
    forall c | c in t.pending
      ensures t.pending[c].mark <= |t.log| && t.fence == t.pending[c].fence + Changes(t.log, t.pending[c].mark)
      ensures t.fence != t.pending[c].fence
    {
      ChangesSnoc(s.log, t.log[|s.log|], t.pending[c].mark);
    }
  }

  lemma AcquireFences(s: State, model: string, grant: Grant)
    requires FenceCounts(s) && s.lease.None?
    requires UndisturbedIsCurrent(s)
    ensures FenceCounts(Acquire(s, model, grant)) && UndisturbedIsCurrent(Acquire(s, model, grant))
  {
    var t := Acquire(s, model, grant);
    forall c | c in t.pending
      ensures t.pending[c].mark <= |t.log| && t.fence == t.pending[c].fence + Changes(t.log, t.pending[c].mark)
      ensures t.fence != t.pending[c].fence
    {
      var mark := t.pending[c].mark;
      assert s.fence != s.pending[c].fence;
      match grant
      case GrantNone =>
      case GrantOwn =>
        ChangesSnoc(s.log, Acquired(s.nextHandle, false), mark);
      case GrantForeign =>
        ChangesSnoc(s.log, Acquired(s.nextHandle, true), mark);
        ChangesSnoc(s.log + [Acquired(s.nextHandle, true)], Released(s.nextHandle, Rejected), mark);
        assert t.log == s.log + [Acquired(s.nextHandle, true)] + [Released(s.nextHandle, Rejected)];
    }
  }

  lemma AcquireKeeps(s: State, model: string, grant: Grant)
    requires Inv(s) && s.lease.None? && model in s.models
    ensures Inv(Acquire(s, model, grant))
  {
    hide FenceCounts, UndisturbedIsCurrent, Accounted, PendingKnown, EpochBounded, Acquire;
    AcquireParts(s, model, grant);
    AcquireAccounts(s.log, s.nextHandle);
    AcquireFences(s, model, grant);
  }

  lemma AcquireParts(s: State, model: string, grant: Grant)
    requires PendingKnown(s) && EpochBounded(s) && s.lease.None? && model in s.models
    ensures var t := Acquire(s, model, grant);
            && PendingKnown(t) && EpochBounded(t)
            && match grant
               case GrantNone => t == s
               case GrantForeign =>
                 t.log == s.log + [Acquired(s.nextHandle, true), Released(s.nextHandle, Rejected)] && t.lease == None
                 && t.nextHandle == s.nextHandle + 1
               case GrantOwn =>
                 t.log == s.log + [Acquired(s.nextHandle, false)] && t.lease == Some(s.nextHandle)
                 && t.nextHandle == s.nextHandle + 1
  {
    assert forall e :: e in s.log ==> e in Acquire(s, model, grant).log;
  }

  /** The active flag and the progress of the epoch have no part in the leasing. */
  lemma SameLeasing(s: State, active: bool, completed: nat)
    requires Inv(s) && (s.lease.Some? ==> completed < s.limit)
    ensures Inv(s.(active := active, completed := completed))
  {
  }

  lemma HandOverKeeps(s: State, caller: nat, model: string)
    requires Inv(s) && s.lease.Some? && caller !in s.pending
    ensures Inv(s.(pending := s.pending[caller := Pending(model, s.lease.value, s.fence, |s.log|)]))
  {
    assert Changes(s.log, |s.log|) == 0;
  }

  lemma BeginKeeps(s: State, caller: nat, model: string, grant: Grant)
    requires Inv(s) && caller !in s.pending
    ensures Inv(BeginSend(s, caller, model, grant))
  {
    if s.active && model in s.models {
      if s.lease.Some? && s.leasedModel != Some(model) {
        RetireKeeps(s, s.lease.value);
      }
      var rotated := if s.lease.Some? && s.leasedModel != Some(model) then Retire(s, s.lease.value) else s;
      if rotated.lease.None? {
        AcquireKeeps(rotated, model, grant);
      }
      var ready := if rotated.lease.None? then Acquire(rotated, model, grant) else rotated;
      if ready.lease.Some? {
        HandOverKeeps(ready, caller, model);
      }
    }
  }

  lemma EndKeeps(s: State, caller: nat, outcome: Outcome)
    requires Inv(s) && caller in s.pending
    ensures Inv(EndSend(s, caller, outcome))
  {
    var s' := s.(pending := s.pending - {caller});
    assert Inv(s');
    if outcome.TransportFailure? {
      RetireKeeps(s', s.pending[caller].lease);
    }
  }

  lemma RetireOwn(s: State, active: bool, completed: nat)
    requires Inv(s) && s.lease.Some?
    ensures Inv(Retire(s.(active := active, completed := completed), s.lease.value))
  {
    var t := s.(active := active, completed := completed);
    assert FenceCounts(t) && PendingKnown(t);
    RetireKeeps(t, s.lease.value);
  }

  /** Every step keeps the invariant, and the fence never falls. */
  lemma StepKeeps(s: State, m: Move)
    requires Inv(s)
    ensures Inv(Step(s, m)) && s.fence <= Step(s, m).fence
  {
    hide Inv;
    match m
    case Open =>
      LimitHolds(s);
      SameLeasing(s, true, s.completed);
    case Begin(caller, model, grant) =>
      if caller !in s.pending {
        BeginKeeps(s, caller, model, grant);
      }
    case End(caller, outcome) =>
      if caller in s.pending {
        EndKeeps(s, caller, outcome);
      }
    case Checkpoint =>
      if s.lease.Some? {
        if s.completed + 1 >= s.limit {
          RetireOwn(s, s.active, s.completed + 1);
        } else {
          SameLeasing(s, s.active, s.completed + 1);
        }
      }
    case Close =>
      LimitHolds(s);
      if s.lease.Some? {
        RetireOwn(s, false, s.completed);
      } else {
        SameLeasing(s, false, s.completed);
      }
  }

  lemma LimitHolds(s: State)
    requires Inv(s)
    ensures s.lease.Some? ==> s.completed < s.limit
  {
  }

  lemma {:induction false} RunKeeps(s: State, moves: seq<Move>)
    requires Inv(s)
    ensures Inv(Run(s, moves))
    decreases |moves|
  {
    if moves != [] {
      RunKeeps(s, moves[..|moves| - 1]);
      StepKeeps(Run(s, moves[..|moves| - 1]), moves[|moves| - 1]);
    }
  }

  lemma ReachableInv(s: State)
    requires Reachable(s)
    ensures Inv(s)
  {
    var models, limit: nat, moves :| limit >= 1 && s == Run(Initial(models, limit), moves);
    RunKeeps(Initial(models, limit), moves);
  }

  // ---------------------------------------------------------------------------
  // Main results
  // ---------------------------------------------------------------------------

  /**
    An answer is accepted iff no lease was taken or retired since its send was handed over.
    In particular the comparison of leases never decides: equal fences imply equal leases.
   */
  lemma AcceptedIffUndisturbed(s: State, caller: nat)
    requires Reachable(s) && caller in s.pending
    ensures s.pending[caller].mark <= |s.log|
    ensures Accepts(s, s.pending[caller]) <==> forall e :: e in s.log[s.pending[caller].mark..] ==> !ChangesEpoch(e)
    ensures Accepts(s, s.pending[caller]) <==> s.pending[caller].fence == s.fence
  {
    ReachableInv(s);
    ChangesZero(s.log, s.pending[caller].mark);
  }

  /** A send whose lease was already given back is not accepted, and failing it cannot clear a newer lease. */
  lemma RetiredEpochIsPowerless(s: State, caller: nat, outcome: Outcome)
    requires Reachable(s) && caller in s.pending
    requires Released(s.pending[caller].lease, OwnEpoch) in s.log
    ensures !Accepts(s, s.pending[caller])
    ensures EndSend(s, caller, outcome).lease == s.lease && EndSend(s, caller, outcome).leasedModel == s.leasedModel
  {
    ReachableInv(s);
    assert multiset(s.log)[Released(s.pending[caller].lease, OwnEpoch)] >= 1;
  }

  /** How often the lease was given back, for whatever reason. */
  ghost function Releases(log: seq<Event>, l: nat): nat
  {
    multiset(log)[Released(l, OwnEpoch)] + multiset(log)[Released(l, StaleEpoch)] + multiset(log)[Released(l, Rejected)]
  }

  /** The move is the failure of a send whose lease is no longer the session's. */
  ghost predicate FailsLate(s: State, m: Move, l: nat)
  {
    && m.End? && m.outcome.TransportFailure? && m.caller in s.pending
    && s.pending[m.caller].lease == l && s.lease != Some(l)
  }

  /** How many moves of the run are late failures on the lease. */
  ghost function LateFailures(s: State, moves: seq<Move>, l: nat): nat
    decreases |moves|
  {
    if moves == [] then 0
    else
      var before := moves[..|moves| - 1];
      LateFailures(s, before, l) + if FailsLate(Run(s, before), moves[|moves| - 1], l) then 1 else 0
  }

  lemma StaleSnoc(log: seq<Event>, e: Event, l: nat)
    ensures multiset(log + [e])[Released(l, StaleEpoch)]
         == multiset(log)[Released(l, StaleEpoch)] + if e == Released(l, StaleEpoch) then 1 else 0
  {
  }

  lemma RetireStale(s: State, own: nat, l: nat)
    ensures multiset(Retire(s, own).log)[Released(l, StaleEpoch)]
         == multiset(s.log)[Released(l, StaleEpoch)] + if s.lease != Some(own) && l == own then 1 else 0
  {
    StaleSnoc(s.log, Released(own, if s.lease == Some(own) then OwnEpoch else StaleEpoch), l);
  }

  lemma AcquireStale(s: State, model: string, grant: Grant, l: nat)
    ensures multiset(Acquire(s, model, grant).log)[Released(l, StaleEpoch)] == multiset(s.log)[Released(l, StaleEpoch)]
  {
    StaleSnoc(s.log, Acquired(s.nextHandle, false), l);
    StaleSnoc(s.log, Acquired(s.nextHandle, true), l);
    StaleSnoc(s.log + [Acquired(s.nextHandle, true)], Released(s.nextHandle, Rejected), l);
    assert s.log + [Acquired(s.nextHandle, true), Released(s.nextHandle, Rejected)]
        == s.log + [Acquired(s.nextHandle, true)] + [Released(s.nextHandle, Rejected)];
  }

  lemma BeginStale(s: State, caller: nat, model: string, grant: Grant, l: nat)
    ensures multiset(BeginSend(s, caller, model, grant).log)[Released(l, StaleEpoch)]
            == multiset(s.log)[Released(l, StaleEpoch)]
  {
    hide Acquire, Retire;
    var rotated := if s.lease.Some? && s.leasedModel != Some(model) then Retire(s, s.lease.value) else s;
    if s.lease.Some? {
      RetireStale(s, s.lease.value, l);
    }
    AcquireStale(rotated, model, grant, l);
  }

  /** A stale release is written by a late failure and by nothing else. */
  lemma StepStale(s: State, m: Move, l: nat)
    ensures multiset(Step(s, m).log)[Released(l, StaleEpoch)]
         == multiset(s.log)[Released(l, StaleEpoch)] + if FailsLate(s, m, l) then 1 else 0
  {
    hide Retire, BeginSend;
    match m
    case Open =>
    case Begin(caller, model, grant) =>
      BeginStale(s, caller, model, grant, l);
    case End(caller, outcome) =>
      if caller in s.pending {
        RetireStale(s.(pending := s.pending - {caller}), s.pending[caller].lease, l);
      }
    case Checkpoint =>
      if s.lease.Some? {
        RetireStale(s.(completed := s.completed + 1), s.lease.value, l);
      }
    case Close =>
      if s.lease.Some? {
        RetireStale(s.(active := false), s.lease.value, l);
      }
  }

  lemma {:induction false} StaleReleasesAreLateFailures(models: set<string>, limit: nat, moves: seq<Move>, l: nat)
    requires limit >= 1
    ensures multiset(Run(Initial(models, limit), moves).log)[Released(l, StaleEpoch)]
            == LateFailures(Initial(models, limit), moves, l)
    decreases |moves|
  {
    hide Step, FailsLate;
    if moves != [] {
      var before := moves[..|moves| - 1];
      StaleReleasesAreLateFailures(models, limit, before, l);
      StepStale(Run(Initial(models, limit), before), moves[|moves| - 1], l);
    }
  }

  lemma {:induction false} NoLateFailuresIff(s: State, moves: seq<Move>, l: nat)
    ensures LateFailures(s, moves, l) == 0 <==>
            forall k :: 0 <= k < |moves| ==> !FailsLate(Run(s, moves[..k]), moves[k], l)
    decreases |moves|
  {
    hide FailsLate, Run;
    if moves != [] {
      var last := |moves| - 1;
      var before := moves[..last];
      NoLateFailuresIff(s, before, l);
      forall k | 0 <= k < last
        ensures before[..k] == moves[..k] && before[k] == moves[k]
      {
      }
      if LateFailures(s, moves, l) == 0 {
        forall k | 0 <= k < |moves|
          ensures !FailsLate(Run(s, moves[..k]), moves[k], l)
        {
          if k < last {
            assert !FailsLate(Run(s, before[..k]), before[k], l);
          }
        }
      }
      if forall k :: 0 <= k < |moves| ==> !FailsLate(Run(s, moves[..k]), moves[k], l) {
        forall k | 0 <= k < last
          ensures !FailsLate(Run(s, before[..k]), before[k], l)
        {
          assert !FailsLate(Run(s, moves[..k]), moves[k], l);
        }
        assert !FailsLate(Run(s, moves[..last]), moves[last], l);
      }
    }
  }

  /**
    Once nothing is held, every lease ever acquired was given back once, and once more for each
    send on it that failed after its epoch had ended: exactly once iff the run has no such move.
   */
  lemma ReleasedOnceIff(models: set<string>, limit: nat, moves: seq<Move>, l: nat, foreign: bool)
    requires limit >= 1
    requires var s := Run(Initial(models, limit), moves); s.lease.None? && Acquired(l, foreign) in s.log
    ensures var start := Initial(models, limit);
            var releases := Releases(Run(start, moves).log, l);
            && releases == 1 + LateFailures(start, moves, l)
            && (releases == 1 <==> forall k :: 0 <= k < |moves| ==> !FailsLate(Run(start, moves[..k]), moves[k], l))
  {
    hide Run, LateFailures, FailsLate;
    var start := Initial(models, limit);
    assert Reachable(Run(start, moves));
    ReleasedAtLeastOnce(Run(start, moves), l, foreign);
    StaleReleasesAreLateFailures(models, limit, moves, l);
    NoLateFailuresIff(start, moves, l);
  }

  lemma ReleasedAtLeastOnce(s: State, l: nat, foreign: bool)
    requires Reachable(s) && s.lease.None? && Acquired(l, foreign) in s.log
    ensures Releases(s.log, l) == 1 + multiset(s.log)[Released(l, StaleEpoch)]
  {
    hide FenceCounts, UndisturbedIsCurrent, PendingKnown, EpochBounded, Run, Reachable;
    ReachableInv(s);
  }

  /** While a send is pending, no call but its own end touches the epoch. */
  ghost predicate OneAtATime(s: State, moves: seq<Move>)
  {
    forall k :: 0 <= k < |moves| ==> moves[k].Open? || moves[k].End? || Run(s, moves[..k]).pending == map[]
  }

  /** At most one send is pending, and its lease is the session's. */
  ghost predicate PendingHolds(s: State)
  {
    && (forall c :: c in s.pending ==> s.lease == Some(s.pending[c].lease))
    && (forall c, d :: c in s.pending && d in s.pending ==> c == d)
  }

  lemma StepHolds(s: State, m: Move)
    requires PendingHolds(s) && (m.Open? || m.End? || s.pending == map[])
    ensures PendingHolds(Step(s, m))
    ensures forall l :: !FailsLate(s, m, l)
  {
  }

  lemma {:induction false} OneAtATimeHolds(s: State, moves: seq<Move>)
    requires PendingHolds(s) && OneAtATime(s, moves)
    ensures PendingHolds(Run(s, moves))
    decreases |moves|
  {
    hide Step, PendingHolds;
    if moves != [] {
      var last := |moves| - 1;
      var before := moves[..last];
      forall k | 0 <= k < last
        ensures before[..k] == moves[..k] && before[k] == moves[k]
      {
      }
      OneAtATimeHolds(s, before);
      StepHolds(Run(s, before), moves[last]);
    }
  }

  /** Without overlap every lease is released exactly once. */
  lemma OneAtATimeReleasesOnce(models: set<string>, limit: nat, moves: seq<Move>, l: nat, foreign: bool)
    requires limit >= 1 && OneAtATime(Initial(models, limit), moves)
    requires var s := Run(Initial(models, limit), moves); s.lease.None? && Acquired(l, foreign) in s.log
    ensures Releases(Run(Initial(models, limit), moves).log, l) == 1
  {
    hide Run, LateFailures, FailsLate, Step, PendingHolds, Releases;
    var start := Initial(models, limit);
    NothingPendingHolds(models, limit);
    forall k | 0 <= k < |moves|
      ensures !FailsLate(Run(start, moves[..k]), moves[k], l)
    {
      PrefixOneAtATime(start, moves, k);
      OneAtATimeHolds(start, moves[..k]);
      StepHolds(Run(start, moves[..k]), moves[k]);
    }
    ReleasedOnceIff(models, limit, moves, l, foreign);
  }

  lemma NothingPendingHolds(models: set<string>, limit: nat)
    requires limit >= 1
    ensures PendingHolds(Initial(models, limit))
  {
  }

  lemma PrefixOneAtATime(s: State, moves: seq<Move>, k: nat)
    requires OneAtATime(s, moves) && k <= |moves|
    ensures OneAtATime(s, moves[..k])
  {
    hide Run;
    forall i | 0 <= i < k
      ensures moves[..k][..i] == moves[..i] && moves[..k][i] == moves[i]
    {
    }
  }

  /** At most the current lease is out, and it is not out after `close`. */
  lemma OnlyTheCurrentIsOut(s: State, l: nat, foreign: bool)
    requires Reachable(s) && Acquired(l, foreign) in s.log && Releases(s.log, l) == 0
    ensures s.lease == Some(l) && s.completed < s.limit
    ensures Step(s, Close).lease.None? && Releases(Step(s, Close).log, l) == 1
  {
    ReachableInv(s);
    CountSnoc(s.log, Released(l, OwnEpoch));
  }

  /** Two overlapping sends that both fail give the same lease back twice. */
  lemma OverlappingFailuresReleaseTwice()
    ensures exists s :: Reachable(s) && s.lease.None? && Acquired(0, false) in s.log && Releases(s.log, 0) == 2
  {
    hide Run, Step, Inv;
    var m := "m";
    var moves := [Open, Begin(0, m, GrantOwn), Begin(1, m, GrantOwn)];
    OverlapBegins(m);
    OverlapEnds(m);
    RunStep(Initial({m}, 1), moves, End(0, TransportFailure));
    RunStep(Initial({m}, 1), moves + [End(0, TransportFailure)], End(1, TransportFailure));
    var log := [Acquired(0, false), Released(0, OwnEpoch), Released(0, StaleEpoch)];
    assert Releases(log, 0) == 2 && Acquired(0, false) == log[0];
    assert Reachable(State({m}, 1, None, None, true, 0, 3, map[], 1, log));
  }

  lemma OverlapEnds(m: string)
    ensures var p := Pending(m, 0, 1, 1);
            Step(Step(State({m}, 1, Some(0), Some(m), true, 0, 1, map[0 := p, 1 := p], 1, [Acquired(0, false)]),
                      End(0, TransportFailure)), End(1, TransportFailure))
            == State({m}, 1, None, None, true, 0, 3, map[], 1,
              [Acquired(0, false), Released(0, OwnEpoch), Released(0, StaleEpoch)])
  {
    var p := Pending(m, 0, 1, 1);
    var s3 := State({m}, 1, Some(0), Some(m), true, 0, 1, map[0 := p, 1 := p], 1, [Acquired(0, false)]);
    var s4 := State({m}, 1, None, None, true, 0, 2, map[1 := p], 1, [Acquired(0, false), Released(0, OwnEpoch)]);
    assert map[0 := p, 1 := p] - {0} == map[1 := p];
    assert Step(s3, End(0, TransportFailure)) == s4;
  }

  lemma OverlapBegins(m: string)
    ensures var p := Pending(m, 0, 1, 1);
            Run(Initial({m}, 1), [Open, Begin(0, m, GrantOwn), Begin(1, m, GrantOwn)])
            == State({m}, 1, Some(0), Some(m), true, 0, 1, map[0 := p, 1 := p], 1, [Acquired(0, false)])
  {
    var s0 := Initial({m}, 1);
    var p := Pending(m, 0, 1, 1);
    RunStep(s0, [], Open);
    RunStep(s0, [Open], Begin(0, m, GrantOwn));
    RunStep(s0, [Open, Begin(0, m, GrantOwn)], Begin(1, m, GrantOwn));
    assert [] + [Open] == [Open] && [Open] + [Begin(0, m, GrantOwn)] == [Open, Begin(0, m, GrantOwn)];
    assert [Open, Begin(0, m, GrantOwn)] + [Begin(1, m, GrantOwn)]
      == [Open, Begin(0, m, GrantOwn), Begin(1, m, GrantOwn)];
    var s1 := State({m}, 1, None, None, true, 0, 0, map[], 0, []);
    var s2 := State({m}, 1, Some(0), Some(m), true, 0, 1, map[0 := p], 1, [Acquired(0, false)]);
    assert Run(s0, [Open]) == s1;
    assert Step(s1, Begin(0, m, GrantOwn)) == s2;
  }

  lemma RunStep(s: State, moves: seq<Move>, m: Move)
    ensures Run(s, moves + [m]) == Step(Run(s, moves), m)
  {
    assert (moves + [m])[..|moves|] == moves;
  }
}
