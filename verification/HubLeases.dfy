/**
  The Hub as a nondeterministic environment, and the discipline its log must show.

  A lease is identified by `handle`, which stands for the identity of the lease object.
 */
module HubLeases {
  import opened Options

  datatype Lease = Lease(handle: nat, llms: seq<string>)

  datatype Exn =
    | LlmClientError(detail: string)
    | HubError
    | ConnectionError
    | TimeoutError
    | RuntimeError(detail: string)
    | ValueError(detail: string)
    | OtherError

  /** TRANSPORT_RETRYABLE_EXCEPTIONS */
  predicate Retryable(e: Exn): (r: bool)
    ensures r <==> !e.RuntimeError? && !e.ValueError? && !e.OtherError?
  {
    e.LlmClientError? || e.HubError? || e.ConnectionError? || e.TimeoutError?
  }

  const NO_ACTIVE_LEASE := RuntimeError("no active epoch lease")
  const MAX_ACQUIRE_RETRIES: nat := 5

  datatype Message = Message(status: string, text: string)

  datatype AcquireOutcome = Granted(lease: Lease) | Queued | AcquireFailed(error: Exn)

  datatype SendOutcome = SendFailed(error: Exn) | Messages(byModel: map<string, Message>)

  datatype HubEvent = Acquired(lease: Lease) | Released(lease: Lease)

  /**
    Every acquisition is followed at once by its own release, except possibly the last,
    whose lease is the one `held`.  Hence at most one lease is out at any time.
   */
  ghost predicate Bracketed(log: seq<HubEvent>, held: Option<Lease>)
    decreases |log|
  {
    match held
    case Some(l) => |log| >= 1 && log[|log| - 1] == Acquired(l) && Bracketed(log[..|log| - 1], None)
    case None =>
      || log == []
      || (|log| >= 2 && log[|log| - 1].Released? && log[|log| - 2] == Acquired(log[|log| - 1].lease)
          && Bracketed(log[..|log| - 2], None))
  }

  ghost predicate Fresh(log: seq<HubEvent>, bound: nat)
  {
    && (forall e :: e in log ==> e.lease.handle < bound)
    && (forall i, j :: 0 <= i < j < |log| && log[i].Acquired? && log[j].Acquired? ==>
         log[i].lease.handle != log[j].lease.handle)
  }

  lemma AcquireBrackets(log: seq<HubEvent>, l: Lease)
    requires Bracketed(log, None)
    ensures Bracketed(log + [Acquired(l)], Some(l))
  {
    assert (log + [Acquired(l)])[..|log|] == log;
  }

  lemma ReleaseBrackets(log: seq<HubEvent>, l: Lease)
    requires Bracketed(log, Some(l))
    ensures Bracketed(log + [Released(l)], None)
  {
    var longer := log + [Released(l)];
    assert longer[..|longer| - 2] == log[..|log| - 1];
  }

  lemma {:induction false} BracketCounts(log: seq<HubEvent>, held: Option<Lease>, l: Lease)
    requires Bracketed(log, held)
    ensures multiset(log)[Acquired(l)] == multiset(log)[Released(l)] + if held == Some(l) then 1 else 0
    decreases |log|
  {
    if held.Some? {
      var rest := log[..|log| - 1];
      assert log == rest + [log[|log| - 1]];
      BracketCounts(rest, None, l);
    } else if log != [] {
      var rest := log[..|log| - 2];
      assert log == rest + [log[|log| - 2]] + [log[|log| - 1]];
      BracketCounts(rest, None, l);
    }
  }

  lemma {:induction false} AcquiredOnce(log: seq<HubEvent>, bound: nat, l: Lease)
    requires Fresh(log, bound)
    ensures multiset(log)[Acquired(l)] == if Acquired(l) in log then 1 else 0
  {
    if log != [] {
      var rest := log[..|log| - 1];
      assert log == rest + [log[|log| - 1]];
      AcquiredOnce(rest, bound, l);
    }
  }

  /** When nothing is held, every lease ever acquired was given back exactly once. */
  lemma ReleasedExactlyOnce(log: seq<HubEvent>, bound: nat)
    requires Bracketed(log, None) && Fresh(log, bound)
    ensures forall l :: Acquired(l) in log ==> multiset(log)[Released(l)] == 1
    ensures forall l :: Released(l) in log ==> Acquired(l) in log
  {
    forall l
      ensures Acquired(l) in log ==> multiset(log)[Released(l)] == 1
      ensures Released(l) in log ==> Acquired(l) in log
    {
      BracketCounts(log, None, l);
      AcquiredOnce(log, bound, l);
      assert Released(l) in log ==> multiset(log)[Released(l)] >= 1;
    }
  }

  /** At every moment of the log at most one lease is out. */
  lemma {:induction false} AtMostOneOut(log: seq<HubEvent>, held: Option<Lease>, k: nat)
    requires Bracketed(log, held) && k <= |log|
    ensures exists h :: Bracketed(log[..k], h)
    decreases |log|
  {
    if k == |log| {
      assert log[..k] == log;
    } else if held.Some? {
      assert log[..|log| - 1][..k] == log[..k];
      AtMostOneOut(log[..|log| - 1], None, k);
    } else if k == |log| - 1 {
      AcquireBrackets(log[..|log| - 2], log[k].lease);
      assert log[..k] == log[..|log| - 2] + [Acquired(log[k].lease)];
    } else {
      assert log[..|log| - 2][..k] == log[..k];
      AtMostOneOut(log[..|log| - 2], None, k);
    }
  }

  datatype Request = Request(model: string, outcome: AcquireOutcome)

  datatype Exchange = Exchange(lease: Lease, target: string, prompt: string, outcome: SendOutcome)

  /** Any Hub whatsoever, apart from handing out a new lease object on each grant. */
  class Hub {
    ghost var log: seq<HubEvent>
    ghost var acquires: nat
    ghost var grant: AcquireOutcome
    ghost var sends: nat
    ghost var reply: SendOutcome
    ghost var requests: seq<Request>
    ghost var exchanges: seq<Exchange>
    var nextHandle: nat

    constructor ()
      ensures log == [] && acquires == 0 && sends == 0 && nextHandle == 0 && requests == [] && exchanges == []
    {
      log, acquires, sends, nextHandle := [], 0, 0, 0;
      requests, exchanges := [], [];
    }

    method Acquire(model: string) returns (r: AcquireOutcome)
      modifies this`log, this`acquires, this`grant, this`nextHandle, this`requests
      ensures acquires == old(acquires) + 1 && grant == r && requests == old(requests) + [Request(model, r)]
      ensures r.Granted? ==> r.lease.handle == old(nextHandle) && nextHandle == old(nextHandle) + 1
                             && log == old(log) + [Acquired(r.lease)]
      ensures !r.Granted? ==> nextHandle == old(nextHandle) && log == old(log)
    {
      r := *;
      if r.Granted? {
        r := Granted(Lease(nextHandle, r.lease.llms));
        nextHandle := nextHandle + 1;
        log := log + [Acquired(r.lease)];
      }
      acquires, grant := acquires + 1, r;
      requests := requests + [Request(model, r)];
    }

    method Send(lease: Lease, target: string, prompt: string) returns (r: SendOutcome)
      modifies this`sends, this`reply, this`exchanges
      ensures sends == old(sends) + 1 && reply == r
      ensures exchanges == old(exchanges) + [Exchange(lease, target, prompt, r)]
    {
      r := *;
      sends, reply := sends + 1, r;
      exchanges := exchanges + [Exchange(lease, target, prompt, r)];
    }

    /** Best effort: whatever the Hub answers, the attempt counts and nothing is raised. */
    method Release(lease: Lease)
      modifies this`log
      ensures log == old(log) + [Released(lease)]
    {
      log := log + [Released(lease)];
    }
  }

  datatype LeaseResult = Leased(lease: Lease) | NotLeased(error: Exn)

  lemma FreshGrows(log: seq<HubEvent>, bound: nat, l: Lease)
    requires Fresh(log, bound)
    ensures l.handle == bound ==> Fresh(log + [Acquired(l)], bound + 1)
    ensures l.handle < bound ==> Fresh(log + [Released(l)], bound)
  {
  }

  /** Only requests for the backend were added, and each but the last was answered with a place in the queue. */
  ghost predicate AskedAgainWhileQueued(before: seq<Request>, after: seq<Request>, model: string)
  {
    && |before| < |after| && before <= after
    && (forall i :: |before| <= i < |after| ==> after[i].model == model)
    && (forall i :: |before| <= i < |after| - 1 ==> after[i].outcome.Queued?)
  }

  lemma AskedOnce(before: seq<Request>, model: string, outcome: AcquireOutcome)
    ensures AskedAgainWhileQueued(before, before + [Request(model, outcome)], model)
  {
  }

  lemma AskedMore(before: seq<Request>, now: seq<Request>, model: string, outcome: AcquireOutcome)
    requires AskedAgainWhileQueued(before, now, model) && now[|now| - 1].outcome.Queued?
    ensures AskedAgainWhileQueued(before, now + [Request(model, outcome)], model)
  {
  }

  /** A new lease, kept or given straight back. */
  lemma NewLease(log: seq<HubEvent>, l: Lease)
    requires Bracketed(log, None) && Fresh(log, l.handle)
    ensures Fresh(log + [Acquired(l)], l.handle + 1) && Bracketed(log + [Acquired(l)], Some(l))
    ensures Fresh(log + [Acquired(l)] + [Released(l)], l.handle + 1)
            && Bracketed(log + [Acquired(l)] + [Released(l)], None)
    ensures log + [Acquired(l)] + [Released(l)] == log + [Acquired(l), Released(l)]
  {
    hide Bracketed, Fresh;
    FreshGrows(log, l.handle, l);
    AcquireBrackets(log, l);
    FreshGrows(log + [Acquired(l)], l.handle + 1, l);
    ReleaseBrackets(log + [Acquired(l)], l);
  }

  /**
    At most five attempts.  A lease for other backends than the routed one is given back
    before the error is raised; a queued answer is retried; any other failure is passed on.
   */
  method AcquireEpochLease(hub: Hub, model: string) returns (r: LeaseResult)
    requires Bracketed(hub.log, None) && Fresh(hub.log, hub.nextHandle)
    modifies hub`log, hub`acquires, hub`grant, hub`nextHandle, hub`requests
    ensures Fresh(hub.log, hub.nextHandle)
    ensures AskedAgainWhileQueued(old(hub.requests), hub.requests, model)
    ensures hub.requests[|hub.requests| - 1].outcome == hub.grant
    ensures |hub.requests| - |old(hub.requests)| == hub.acquires - old(hub.acquires)
    ensures r.NotLeased? && !hub.grant.AcquireFailed? ==> r.error.LlmClientError?
    ensures old(hub.acquires) < hub.acquires <= old(hub.acquires) + MAX_ACQUIRE_RETRIES
    ensures r.Leased? <==> hub.grant.Granted? && hub.grant.lease.llms == [model]
    ensures r.Leased? ==> r.lease == hub.grant.lease
    ensures hub.grant.AcquireFailed? ==> r == NotLeased(hub.grant.error)
    ensures hub.grant.Queued? ==> hub.acquires == old(hub.acquires) + MAX_ACQUIRE_RETRIES
    ensures r.Leased? ==> r.lease.llms == [model] && r.lease.handle == old(hub.nextHandle)
                          && hub.log == old(hub.log) + [Acquired(r.lease)] && Bracketed(hub.log, Some(r.lease))
    ensures r.NotLeased? ==> Bracketed(hub.log, None)
    ensures r.NotLeased? ==> || hub.log == old(hub.log)
                             || exists l: Lease ::
                               l.llms != [model] && hub.log == old(hub.log) + [Acquired(l), Released(l)]
  {
    hide Bracketed, Fresh, AskedAgainWhileQueued;
    for attempt := 1 to MAX_ACQUIRE_RETRIES + 1
      invariant hub.log == old(hub.log) && hub.nextHandle == old(hub.nextHandle)
      invariant hub.acquires == old(hub.acquires) + attempt - 1 && attempt <= MAX_ACQUIRE_RETRIES
      invariant |hub.requests| == |old(hub.requests)| + attempt - 1
      invariant attempt == 1 ==> hub.requests == old(hub.requests)
      invariant attempt > 1 ==> AskedAgainWhileQueued(old(hub.requests), hub.requests, model)
      invariant attempt > 1 ==> hub.grant.Queued? && hub.requests[|hub.requests| - 1].outcome == hub.grant
    {
      ghost var asked := hub.requests;
      var outcome := hub.Acquire(model);
      if attempt == 1 {
        AskedOnce(asked, model, outcome);
      } else {
        AskedMore(old(hub.requests), asked, model, outcome);
      }
      match outcome
      case Granted(lease) =>
        NewLease(old(hub.log), lease);
        if lease.llms != [model] {
          hub.Release(lease);
          return NotLeased(LlmClientError("foreign lease"));
        }
        return Leased(lease);
      case AcquireFailed(error) =>
        return NotLeased(error);
      case Queued =>
        if attempt == MAX_ACQUIRE_RETRIES {
          return NotLeased(LlmClientError("acquire exhausted"));
        }
    }
    assert false;
  }
}
