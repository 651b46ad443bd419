/**
  The epoch-rotating batch session, its bounded retry, and the drivers that run items
  through it one at a time.
 */
module HubSession {
  import opened HubLeases
  import opened Options

  const GOVERNANCE_EPOCH_ITEM_LIMIT: int := 4
  const TRANSPORT_MAX_ATTEMPTS: nat := 4

  /** `Stale` is the LlmClientError of a response that was fenced off. */
  datatype Reply = Text(text: string) | Raised(error: Exn) | Stale

  datatype Done = Ok | Refused(error: Exn)

  class HubBatchSession {
    const hub: Hub
    const models: set<string>
    const limit: int
    var lease: Option<Lease>
    var leasedModel: Option<string>
    var active: bool
    var epoch: nat
    var completed: nat
    var fence: nat
    ghost var calls: nat
    ghost var replies: seq<Reply>

    constructor (hub: Hub, models: set<string>, limit: int)
      requires limit >= 1 && hub.log == []
      ensures Valid() && this.hub == hub && this.models == models && this.limit == limit
      ensures !active && lease == None && fence == 0 && replies == []
    {
      this.hub, this.models, this.limit := hub, models, limit;
      lease, leasedModel, active, epoch, completed, fence := None, None, false, 0, 0, 0;
      calls, replies := 0, [];
    }

    /** A limit below one is refused; none given means the default. */
    static method Create(hub: Hub, models: set<string>, epochChunkLimit: Option<int>)
      returns (session: HubBatchSession?)
      requires hub.log == []
      ensures session == null <==> epochChunkLimit.Some? && epochChunkLimit.value < 1
      ensures session != null ==> fresh(session) && session.Valid() && session.hub == hub && session.models == models
                                  && session.limit == epochChunkLimit.GetOr(GOVERNANCE_EPOCH_ITEM_LIMIT)
                                  && !session.active
    {
      var limit := epochChunkLimit.GetOr(GOVERNANCE_EPOCH_ITEM_LIMIT);
      if limit < 1 {
        return null;
      }
      session := new HubBatchSession(hub, models, limit);
    }

    /** The Hub's log is bracketed by the lease this session holds; an epoch is never overfull. */
    ghost predicate Valid()
      reads this, hub
    {
      Held() && (lease.Some? ==> completed < limit)
    }

    ghost predicate Held()
      reads this, hub
    {
      && Bracketed(hub.log, lease) && Fresh(hub.log, hub.nextHandle)
      && limit >= 1
      && (lease.Some? <==> leasedModel.Some?)
      && (lease.Some? ==> leasedModel.value in models && lease.value.llms == [leasedModel.value])
    }

    /** Nothing but the active flag may have changed. */
    twostate predicate SameEpoch()
      reads this, hub
    {
      && lease == old(lease) && leasedModel == old(leasedModel) && epoch == old(epoch)
      && completed == old(completed) && fence == old(fence) && unchanged(hub)
    }

    method Open() returns (d: Done)
      requires Valid()
      modifies this`active
      ensures Valid() && active && SameEpoch()
      ensures d == if old(active) then Refused(RuntimeError("already open")) else Ok
    {
      if active {
        return Refused(RuntimeError("already open"));
      }
      active := true;
      return Ok;
    }

    /** One lease for the routed backend, or the error and no lease; the fence moves only with a lease. */
    method Acquire(model: string) returns (d: Done)
      requires Valid() && lease.None? && model in models
      modifies this`lease, this`leasedModel, this`epoch, this`completed, this`fence
      modifies hub`log, hub`acquires, hub`grant, hub`nextHandle, hub`requests
      ensures Valid() && epoch == old(epoch) + 1
              && old(hub.acquires) < hub.acquires <= old(hub.acquires) + MAX_ACQUIRE_RETRIES
      ensures d.Ok? <==> Grants(model)
      ensures d.Ok? ==> lease.Some? && leasedModel == Some(model) && completed == 0 && fence == old(fence) + 1
                        && lease.value.handle >= old(hub.nextHandle)
      ensures d.Refused? ==> lease.None? && fence == old(fence) && completed == old(completed)
      ensures d.Refused? ==> if hub.grant.AcquireFailed? then d.error == hub.grant.error else d.error.LlmClientError?
      ensures AskedAgainWhileQueued(old(hub.requests), hub.requests, model)
      ensures hub.requests[|hub.requests| - 1].outcome == hub.grant
    {
      epoch := epoch + 1;
      var r := AcquireEpochLease(hub, model);
      if r.NotLeased? {
        return Refused(r.error);
      }
      lease := Some(r.lease);
      leasedModel := Some(model);
      completed := 0;
      fence := fence + 1;
      return Ok;
    }

    /** The current epoch is one of this backend. */
    ghost predicate Serves(model: string)
      reads this
    {
      lease.Some? && leasedModel == Some(model)
    }

    /** The Hub's latest grant is for this backend alone. */
    ghost predicate Grants(model: string)
      reads hub
    {
      hub.grant.Granted? && hub.grant.lease.llms == [model]
    }

    /** The Hub's latest reply answers for this backend. */
    ghost predicate Answers(model: string)
      reads hub
    {
      && hub.reply.Messages? && model in hub.reply.byModel
      && hub.reply.byModel[model].status == "ok" && hub.reply.byModel[model].text != ""
    }

    /** Drops the lease from the session before giving it back to the Hub. */
    method Retire(old_lease: Lease)
      requires Held() && lease == Some(old_lease)
      modifies this`lease, this`leasedModel, this`fence, hub`log
      ensures Valid() && lease.None? && fence == old(fence) + 1
      ensures hub.log == old(hub.log) + [Released(old_lease)]
    {
      if lease == Some(old_lease) {
        lease := None;
        leasedModel := None;
      }
      fence := fence + 1;
      HeldHandle(hub.log, old_lease, hub.nextHandle);
      FreshGrows(hub.log, hub.nextHandle, old_lease);
      ReleaseBrackets(hub.log, old_lease);
      hub.Release(old_lease);
    }

    /** The Hub's latest reply is a failure that is not one of the transport. */
    ghost predicate FailsOtherwise()
      reads hub
    {
      hub.reply.SendFailed? && !Retryable(hub.reply.error)
    }

    /**
      One send on the current epoch.  A transport failure or an unusable answer ends the epoch and
      is raised as a client error, so that it may be retried; any other error is passed on as it is
      and leaves the epoch.
     */
    method Exchange(model: string, prompt: string) returns (r: Reply)
      requires Valid() && lease.Some? && leasedModel == Some(model)
      modifies this`lease, this`leasedModel, this`fence, hub`log, hub`sends, hub`reply, hub`exchanges
      ensures Valid()
      ensures hub.sends == old(hub.sends) + 1
      ensures hub.exchanges == old(hub.exchanges) + [HubLeases.Exchange(old(lease).value, model, prompt, hub.reply)]
      ensures r.Text? <==> Answers(model)
      ensures r.Text? ==> r.text == hub.reply.byModel[model].text
      ensures FailsOtherwise() ==> r == Raised(hub.reply.error)
      ensures Answers(model) || FailsOtherwise() ==>
              lease == old(lease) && leasedModel == old(leasedModel) && fence == old(fence)
      ensures !Answers(model) && !FailsOtherwise() ==> r.Raised? && r.error.LlmClientError?
      ensures !Answers(model) && !FailsOtherwise() ==> lease.None? && fence == old(fence) + 1
      ensures hub.reply.SendFailed? && hub.reply.error.LlmClientError? ==> r == Raised(hub.reply.error)
    {
      hide Bracketed, Fresh;
      var current := lease.value;
      var began := fence;
      var outcome := hub.Send(current, model, prompt);
      match outcome
      case SendFailed(error) =>
        if !Retryable(error) {
          return Raised(error);
        }
        Retire(current);
        return Raised(if error.LlmClientError? then error else LlmClientError("epoch send failed"));
      case Messages(byModel) =>
        if model !in byModel || byModel[model].status != "ok" || byModel[model].text == "" {
          Retire(current);
          return Raised(LlmClientError("missing or bad response"));
        }
        if began != fence || lease != Some(current) {
          return Stale;
        }
        return Text(byModel[model].text);
    }

    /** Gives back an epoch of another backend, and acquires one of this unless it is there. */
    method Enter(model: string) returns (d: Done)
      requires Valid() && model in models
      modifies this`lease, this`leasedModel, this`epoch, this`completed, this`fence
      modifies hub`log, hub`acquires, hub`grant, hub`nextHandle, hub`requests
      ensures Valid() && old(fence) <= fence && (d.Ok? ==> Serves(model))
      ensures hub.acquires > old(hub.acquires) <==> !old(Serves(model))
      ensures old(Serves(model)) ==>
              d.Ok? && lease == old(lease) && fence == old(fence) && completed == old(completed)
              && hub.acquires == old(hub.acquires) && hub.requests == old(hub.requests)
      ensures !old(Serves(model)) ==>
              && AskedAgainWhileQueued(old(hub.requests), hub.requests, model) && (d.Ok? <==> Grants(model))
              && (d.Ok? ==> completed == 0 && fence > old(fence) && lease.value.handle >= old(hub.nextHandle))
      ensures d.Refused? ==> lease.None?
      ensures d.Refused? ==> if hub.grant.AcquireFailed? then d.error == hub.grant.error else d.error.LlmClientError?
    {
      hide Bracketed, Fresh, AskedAgainWhileQueued;
      if lease.Some? && leasedModel != Some(model) {
        Retire(lease.value);
      }
      d := Ok;
      if lease.None? {
        d := Acquire(model);
      }
    }

    /**
      Sends on an epoch of the wanted backend, rotating or acquiring first where needed.
      A text leaves that epoch in place; a transport failure leaves no epoch at all.
     */
    method Send(model: string, prompt: string) returns (r: Reply)
      requires Valid()
      modifies this`lease, this`leasedModel, this`epoch, this`completed, this`fence, this`calls, this`replies, hub
      ensures Valid() && old(fence) <= fence && calls == old(calls) + 1 && replies == old(replies) + [r]
      ensures !active ==> r == Raised(RuntimeError("not open")) && SameEpoch()
      ensures active && model !in models ==> r == Raised(ValueError("not configured")) && SameEpoch()
      ensures hub.acquires > old(hub.acquires) <==> active && model in models && !old(Serves(model))
      ensures hub.acquires == old(hub.acquires) ==> hub.requests == old(hub.requests)
      ensures hub.acquires > old(hub.acquires) ==> AskedAgainWhileQueued(old(hub.requests), hub.requests, model)
      ensures hub.acquires > old(hub.acquires) && !Grants(model) ==>
              lease.None? && (if hub.grant.AcquireFailed? then r == Raised(hub.grant.error)
                              else r.Raised? && r.error.LlmClientError?)
      ensures hub.sends
              == old(hub.sends) + (if active && model in models && (old(Serves(model)) || Grants(model)) then 1 else 0)
      ensures hub.sends == old(hub.sends) ==> hub.exchanges == old(hub.exchanges)
      ensures hub.sends > old(hub.sends) ==>
              exists l :: hub.exchanges == old(hub.exchanges) + [HubLeases.Exchange(l, model, prompt, hub.reply)]
                          && l.llms == [model] && (old(Serves(model)) ==> l == old(lease).value)
                          && (lease.Some? ==> l == lease.value)
      ensures r.Text? <==> hub.sends > old(hub.sends) && Answers(model)
      ensures r.Text? ==> r.text == hub.reply.byModel[model].text
      ensures hub.sends > old(hub.sends) && FailsOtherwise() ==> r == Raised(hub.reply.error) && lease.Some?
      ensures hub.sends > old(hub.sends) && !Answers(model) && !FailsOtherwise() ==>
              r.Raised? && r.error.LlmClientError? && lease.None?
      ensures r.Text? ==> active && model in models && r.text != ""
                          && lease.Some? && leasedModel == Some(model)
      ensures r.Text? && old(Serves(model)) ==>
                lease == old(lease) && fence == old(fence) && completed == old(completed)
      ensures r.Text? && !old(Serves(model)) ==>
                completed == 0 && fence > old(fence) && lease.value.handle >= old(hub.nextHandle)
      ensures r.Raised? && Retryable(r.error) ==> active && model in models && lease.None?
      ensures !r.Stale?
    {
      hide Bracketed, Fresh, AskedAgainWhileQueued;
      calls := calls + 1;
      if !active {
        r := Raised(RuntimeError("not open"));
        replies := replies + [r];
        return;
      }
      if model !in models {
        r := Raised(ValueError("not configured"));
        replies := replies + [r];
        return;
      }
      var d := Enter(model);
      if d.Refused? {
        r := Raised(d.error);
        replies := replies + [r];
        return;
      }
      ghost var held := lease.value;
      r := Exchange(model, prompt);
      assert hub.exchanges == old(hub.exchanges) + [HubLeases.Exchange(held, model, prompt, hub.reply)];
      replies := replies + [r];
    }

    /** Counts a processed item; the epoch that reaches its limit is retired. */
    method Checkpoint() returns (d: Done)
      requires Valid()
      modifies this`lease, this`leasedModel, this`completed, this`fence, hub`log
      ensures Valid() && old(fence) <= fence
      ensures d == if old(lease).None? then Refused(NO_ACTIVE_LEASE) else Ok
      ensures d.Refused? ==> SameEpoch()
      ensures d.Ok? && old(completed) + 1 < limit ==>
              lease == old(lease) && completed == old(completed) + 1 && fence == old(fence)
      ensures d.Ok? && old(completed) + 1 >= limit ==> lease.None? && fence == old(fence) + 1
    {
      if lease.None? {
        return Refused(NO_ACTIVE_LEASE);
      }
      completed := completed + 1;
      if completed >= limit {
        Retire(lease.value);
      }
      return Ok;
    }

    /** Whatever was acquired over the life of the session has now been given back exactly once. */
    method Close()
      requires Valid()
      modifies this`active, this`lease, this`leasedModel, this`fence, hub`log
      ensures Valid() && !active && lease.None? && old(fence) <= fence
      ensures forall l :: Acquired(l) in hub.log ==> multiset(hub.log)[Released(l)] == 1
      ensures forall l :: Released(l) in hub.log ==> Acquired(l) in hub.log
    {
      active := false;
      if lease.Some? {
        Retire(lease.value);
      }
      ReleasedExactlyOnce(hub.log, hub.nextHandle);
    }
  }

  lemma HeldHandle(log: seq<HubEvent>, l: Lease, bound: nat)
    requires Bracketed(log, Some(l)) && Fresh(log, bound)
    ensures l.handle < bound
  {
    assert log[|log| - 1] in log;
  }

  datatype Completion = Completed(text: string) | Exhausted(attempts: nat) | Failed(error: Exn)

  /** One to four replies were added, and each but the last is a failure that may be retried. */
  ghost predicate RepliedInTurn(before: seq<Reply>, after: seq<Reply>)
  {
    && before <= after && |before| < |after| <= |before| + TRANSPORT_MAX_ATTEMPTS
    && forall i :: |before| <= i < |after| - 1 ==> after[i].Raised? && Retryable(after[i].error)
  }

  /** What the last reply means: a text, an error passed on, or the last of four failures. */
  ghost function EndOf(last: Reply): Completion
    requires !last.Stale?
  {
    match last
    case Text(text) => Completed(text)
    case Raised(error) => if Retryable(error) then Exhausted(TRANSPORT_MAX_ATTEMPTS) else Failed(error)
  }

  /** Everything sent since went to this backend with this prompt. */
  ghost predicate SentOnly(before: seq<HubLeases.Exchange>, after: seq<HubLeases.Exchange>, model: string,
          prompt: string)
  {
    before <= after && forall i :: |before| <= i < |after| ==> after[i].target == model && after[i].prompt == prompt
  }

  /**
    At most four sends of one prompt.  The first text ends the retries, an error that is not a
    transport failure is passed on at once, and every other failure is retried until four have
    exhausted the attempts.
   */
  method CompleteWithTransportRetry(session: HubBatchSession, model: string, prompt: string) returns (r: Completion)
    requires session.Valid()
    modifies session`lease, session`leasedModel, session`epoch, session`completed, session`fence, session`calls,
      session`replies, session.hub
    ensures session.Valid() && old(session.fence) <= session.fence
    ensures RepliedInTurn(old(session.replies), session.replies)
    ensures var last := session.replies[|session.replies| - 1];
            !last.Stale? && r == EndOf(last)
    ensures r.Exhausted? ==> |session.replies| == |old(session.replies)| + TRANSPORT_MAX_ATTEMPTS
    ensures session.calls - old(session.calls) == |session.replies| - |old(session.replies)|
    ensures SentOnly(old(session.hub.exchanges), session.hub.exchanges, model, prompt)
    ensures session.hub.sends <= old(session.hub.sends) + TRANSPORT_MAX_ATTEMPTS
    ensures r.Completed? ==> session.lease.Some? && session.leasedModel == Some(model) && r.text != ""
    ensures r.Completed? ==> session.Answers(model) && r.text == session.hub.reply.byModel[model].text
    ensures r.Failed? && session.active && model in session.models ==>
            !Retryable(r.error) && (|| session.hub.reply == SendFailed(r.error)
                                    || (session.lease.None? && session.hub.grant == AcquireFailed(r.error)))
    ensures r.Exhausted? ==> session.lease.None? && session.active && model in session.models
    ensures !session.active || model !in session.models ==>
            r.Failed? && session.hub.sends == old(session.hub.sends) && session.lease == old(session.lease)
  {
    hide AskedAgainWhileQueued;
    for attempt := 1 to TRANSPORT_MAX_ATTEMPTS + 1
      invariant session.Valid() && old(session.fence) <= session.fence
      invariant attempt <= TRANSPORT_MAX_ATTEMPTS && session.hub.sends <= old(session.hub.sends) + attempt - 1
      invariant session.calls == old(session.calls) + attempt - 1
      invariant |session.replies| == |old(session.replies)| + attempt - 1 && old(session.replies) <= session.replies
      invariant forall i :: |old(session.replies)| <= i < |session.replies| ==>
                  session.replies[i].Raised? && Retryable(session.replies[i].error)
      invariant SentOnly(old(session.hub.exchanges), session.hub.exchanges, model, prompt)
      invariant attempt > 1 ==> session.active && model in session.models && session.lease.None?
      invariant attempt == 1 ==> session.hub.sends == old(session.hub.sends) && session.lease == old(session.lease)
    {
      var reply := session.Send(model, prompt);
      if reply.Text? {
        return Completed(reply.text);
      }
      if !Retryable(reply.error) {
        return Failed(reply.error);
      }
      if attempt == TRANSPORT_MAX_ATTEMPTS {
        return Exhausted(attempt);
      }
    }
    assert false;
  }

  /** The final account of a Hub: each acquired lease was given back exactly once, and nothing else was. */
  ghost predicate Settled(log: seq<HubEvent>)
  {
    && (forall l :: Acquired(l) in log ==> multiset(log)[Released(l)] == 1)
    && (forall l :: Released(l) in log ==> Acquired(l) in log)
  }

  datatype Item = Item(model: string, prompt: string)

  datatype Operation = DoOpen | DoSend(item: Item) | DoComplete(item: Item) | DoCheckpoint | DoClose

  /** Any sequence of calls, whatever each of them answers, followed by `close`. */
  method RunAny(session: HubBatchSession, operations: seq<Operation>)
    requires session.Valid()
    modifies session, session.hub
    ensures session.Valid() && session.lease.None? && !session.active
    ensures Settled(session.hub.log) && old(session.fence) <= session.fence
  {
    for i := 0 to |operations|
      invariant session.Valid() && old(session.fence) <= session.fence
    {
      match operations[i]
      case DoOpen =>
        var _ := session.Open();
      case DoSend(item) =>
        var _ := session.Send(item.model, item.prompt);
      case DoComplete(item) =>
        var _ := CompleteWithTransportRetry(session, item.model, item.prompt);
      case DoCheckpoint =>
        var _ := session.Checkpoint();
      case DoClose =>
        session.Close();
    }
    session.Close();
  }

  /** How a sweep ended: all items done, an item without a usable reply, or a refused checkpoint. */
  datatype Ending = AllDone | NoReply(c: Completion) | Unusable | CheckpointRefused

  /** The texts among the replies, in order. */
  ghost function TextsOf(replies: seq<Reply>): seq<string>
  {
    if replies == [] then []
    else
      var last := replies[|replies| - 1];
      TextsOf(replies[..|replies| - 1]) + if last.Text? then [last.text] else []
  }

  /** A turn adds its last text, if it ends in one. */
  lemma {:induction false} TurnAdds(start: nat, before: seq<Reply>, after: seq<Reply>)
    requires start <= |before| && RepliedInTurn(before, after)
    ensures var last := after[|after| - 1];
            TextsOf(after[start..]) == TextsOf(before[start..]) + if last.Text? then [last.text] else []
    decreases |after|
  {
    var front := after[..|after| - 1];
    assert after[start..] == front[start..] + [after[|after| - 1]];
    if |front| == |before| {
      assert front == before;
    } else {
      TurnAdds(start, before, front);
    }
  }

  /**
    The order of the sweep drivers: open, then per item one retried completion, the local
    checks on its text, and a checkpoint; close in any case.  `texts` are the replies of the
    items that were checkpointed, and no checkpoint is ever refused.
   */
  method Sweep(session: HubBatchSession, items: seq<Item>) returns (texts: seq<string>, end: Ending)
    requires session.Valid() && !session.active
    modifies session, session.hub
    ensures !end.CheckpointRefused? && |texts| <= |items|
    ensures end.AllDone? <==> |texts| == |items|
    ensures end.NoReply? ==> !end.c.Completed?
    ensures old(session.replies) <= session.replies
    ensures var given := TextsOf(session.replies[|old(session.replies)|..]);
            if end.Unusable? then given != [] && texts == given[..|given| - 1] else texts == given
    ensures session.Valid() && session.lease.None? && !session.active && Settled(session.hub.log)
    ensures session.hub.sends <= old(session.hub.sends) + TRANSPORT_MAX_ATTEMPTS * |items|
  {
    hide TextsOf, RepliedInTurn, SentOnly;
    texts, end := [], AllDone;
    ghost var start := |session.replies|;
    NoTexts(session.replies);
    var _ := session.Open();
    for i := 0 to |items|
      invariant session.Valid() && end.AllDone? && |texts| == i
      invariant session.hub.sends <= old(session.hub.sends) + TRANSPORT_MAX_ATTEMPTS * i
      invariant old(session.replies) <= session.replies && texts == TextsOf(session.replies[start..])
    {
      ghost var before := session.replies;
      var r := CompleteWithTransportRetry(session, items[i].model, items[i].prompt);
      TurnAdds(start, before, session.replies);
      TurnExtends(before, session.replies);
      if !r.Completed? {
        end := NoReply(r);
        break;
      }
      var wellFormed: bool := *;
      if !wellFormed {
        end := Unusable;
        break;
      }
      var d := session.Checkpoint();
      if d.Refused? {
        end := CheckpointRefused;
        break;
      }
      texts := texts + [r.text];
    }
    session.Close();
  }

  lemma NoTexts(replies: seq<Reply>)
    ensures TextsOf(replies[|replies|..]) == []
  {
  }

  lemma TurnExtends(before: seq<Reply>, after: seq<Reply>)
    requires RepliedInTurn(before, after)
    ensures before <= after && |before| < |after|
  {
  }
}
