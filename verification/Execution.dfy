/**
  The bounded window of concurrent W2 evaluations: chunks are submitted as earlier ones
  complete, in an order the executor chooses, and the result must not depend on that order.
 */
module Execution {
  import opened Options
  import opened Ordering
  import opened Baselines

  type ChunkId = string

  /** What evaluating and checking a chunk gives, or the code of the failure it raises. */
  datatype Verdict = Findings(findings: seq<Finding>) | Fails(code: string)

  datatype Collection = AllCollected(findings: seq<Finding>) | RunError(code: string, chunk: ChunkId) | BadParallelism

  /** The findings of all chunks, in chunk order. */
  function InChunkOrder(chunks: seq<ChunkId>, verdict: ChunkId -> Verdict): seq<Finding>
  {
    if chunks == [] then []
    else
      InChunkOrder(chunks[..|chunks| - 1], verdict)
      + if verdict(chunks[|chunks| - 1]).Findings? then verdict(chunks[|chunks| - 1]).findings else []
  }

  lemma InChunkOrderSnoc(chunks: seq<ChunkId>, c: ChunkId, verdict: ChunkId -> Verdict)
    ensures InChunkOrder(chunks + [c], verdict)
            == InChunkOrder(chunks, verdict) + if verdict(c).Findings? then verdict(c).findings else []
  {
    assert (chunks + [c])[..|chunks|] == chunks;
  }

  lemma {:induction false} InChunkOrderAppend(a: seq<ChunkId>, b: seq<ChunkId>, verdict: ChunkId -> Verdict)
    ensures InChunkOrder(a + b, verdict) == InChunkOrder(a, verdict) + InChunkOrder(b, verdict)
  {
    hide InChunkOrder;
    if b == [] {
      assert a + b == a;
      InChunkOrderNone(verdict);
    } else {
      var front := b[..|b| - 1];
      InChunkOrderAppend(a, front, verdict);
      InChunkOrderSnoc(a + front, b[|b| - 1], verdict);
      assert a + front + [b[|b| - 1]] == a + b;
      assert front + [b[|b| - 1]] == b;
      InChunkOrderSnoc(front, b[|b| - 1], verdict);
    }
  }

  lemma InChunkOrderNone(verdict: ChunkId -> Verdict)
    ensures InChunkOrder([], verdict) == []
  {
  }

  /** As a multiset, the findings depend only on which chunks were evaluated, not on when. */
  lemma {:induction false} FindingsPermute(a: seq<ChunkId>, b: seq<ChunkId>, verdict: ChunkId -> Verdict)
    requires multiset(a) == multiset(b)
    ensures multiset(InChunkOrder(a, verdict)) == multiset(InChunkOrder(b, verdict))
  {
    if a == [] {
      SameElements(a, b);
    } else {
      var i := MatchFirst(a, b);
      var front, back := b[..i], b[i + 1..];
      assert b == front + [b[i]] + back && a == [a[0]] + a[1..];
      FindingsPermute(a[1..], front + back, verdict);
      InChunkOrderAppend([a[0]], a[1..], verdict);
      InChunkOrderAppend(front + [b[i]], back, verdict);
      InChunkOrderAppend(front, [b[i]], verdict);
      InChunkOrderAppend(front, back, verdict);
    }
  }

  // ---------------------------------------------------------------------------
  // Orders of completion
  // ---------------------------------------------------------------------------

  /** Every one of `n` submissions once, none before it could have been submitted. */
  ghost predicate Admits(order: seq<nat>, n: nat, parallelism: int)
  {
    && |order| == n && Distinct(order)
    && forall k :: 0 <= k < n ==> order[k] < n && order[k] < k + parallelism
  }

  /** The chunks in the order their results were taken. */
  function Picked(chunks: seq<ChunkId>, order: seq<nat>): (r: seq<ChunkId>)
    requires forall k :: 0 <= k < |order| ==> order[k] < |chunks|
    ensures |r| == |order|
  {
    seq(|order|, k requires 0 <= k < |order| => chunks[order[k]])
  }

  /**
    A run of the window: `pending` are submitted, `next` comes next; the first of the remaining
    completions is any pending one, and the next submission takes its place.
   */
  ghost predicate IsRun(pending: set<nat>, next: nat, n: nat, order: seq<nat>)
    decreases |order|
  {
    if order == [] then pending == {} && next == n
    else
      && order[0] in pending
      && (if next < n then IsRun(pending - {order[0]} + {next}, next + 1, n, order[1..])
          else IsRun(pending - {order[0]}, next, n, order[1..]))
  }

  ghost function Below(n: nat): (r: set<nat>)
    ensures |r| == n && forall i: nat :: i in r <==> i < n
  {
    if n == 0 then {} else Below(n - 1) + {n - 1}
  }

  ghost function Members(order: seq<nat>): set<nat>
  {
    set i | i in order
  }

  /** The order names exactly what is pending or still to come, once each. */
  ghost predicate Names(order: seq<nat>, pending: set<nat>, next: nat, n: nat)
  {
    Distinct(order) && forall i: nat :: i in order <==> i in pending || next <= i < n
  }

  /** Nothing is completed before it can have been submitted. */
  ghost predicate InTime(order: seq<nat>, next: nat)
  {
    forall k :: 0 <= k < |order| ==> order[k] < next + k
  }

  lemma {:induction false} RunIffAdmits(pending: set<nat>, next: nat, n: nat, order: seq<nat>)
    requires next <= n && (forall i :: i in pending ==> i < next) && (pending == {} ==> next == n)
    ensures IsRun(pending, next, n, order) <==> Names(order, pending, next, n) && InTime(order, next)
    decreases |order|
  {
    hide Names, InTime;
    if order == [] {
      NothingNamed(pending, next, n);
    } else {
      HeadPending(pending, next, n, order);
      InTimeShifts(order, next);
      if order[0] in pending {
        NamesShift(pending, next, n, order);
        if next < n {
          RunIffAdmits(pending - {order[0]} + {next}, next + 1, n, order[1..]);
        } else {
          RunIffAdmits(pending - {order[0]}, next, n, order[1..]);
          InTimeDrain(pending - {order[0]}, n, order[1..]);
        }
      }
    }
  }

  lemma NothingNamed(pending: set<nat>, next: nat, n: nat)
    requires next <= n && (pending == {} ==> next == n)
    ensures Names([], pending, next, n) <==> pending == {} && next == n
    ensures InTime([], next)
  {
    if Names([], pending, next, n) {
      assert forall i: nat :: i !in pending;
    }
  }

  lemma HeadPending(pending: set<nat>, next: nat, n: nat, order: seq<nat>)
    requires order != []
    ensures Names(order, pending, next, n) && InTime(order, next) ==> order[0] in pending
  {
    hide Distinct;
    assert order[0] in order;
  }

  lemma InTimeShifts(order: seq<nat>, next: nat)
    requires order != []
    ensures InTime(order, next) <==> order[0] < next && InTime(order[1..], next + 1)
  {
    assert forall k :: 1 <= k < |order| ==> order[k] == order[1..][k - 1];
  }

  /** What is left at the end is in time anyhow. */
  lemma InTimeDrain(pending: set<nat>, n: nat, order: seq<nat>)
    requires forall i :: i in pending ==> i < n
    ensures Names(order, pending, n, n) ==> InTime(order, n) && InTime(order, n + 1)
  {
    hide Distinct;
    assert forall k :: 0 <= k < |order| ==> order[k] in order;
  }

  lemma NamesShift(pending: set<nat>, next: nat, n: nat, order: seq<nat>)
    requires order != [] && order[0] in pending && next <= n && forall i :: i in pending ==> i < next
    ensures next < n ==>
            (Names(order, pending, next, n) <==> Names(order[1..], pending - {order[0]} + {next}, next + 1, n))
    ensures next == n ==> (Names(order, pending, next, n) <==> Names(order[1..], pending - {order[0]}, next, n))
  {
    hide Distinct;
    HeadAndTail(order);
  }

  lemma HeadAndTail(order: seq<nat>)
    requires order != []
    ensures Distinct(order) <==> order[0] !in order[1..] && Distinct(order[1..])
    ensures forall i: nat :: i in order <==> i == order[0] || i in order[1..]
  {
    var rest := order[1..];
    assert order == [order[0]] + rest;
    if order[0] !in rest && Distinct(rest) {
      forall i, j | 0 <= i < j < |order|
        ensures order[i] != order[j]
      {
        assert order[j] == rest[j - 1] && rest[j - 1] in rest;
        assert i > 0 ==> order[i] == rest[i - 1];
      }
    }
    if Distinct(order) {
      forall i, j | 0 <= i < j < |rest|
        ensures rest[i] != rest[j]
      {
        assert order[i + 1] != order[j + 1];
      }
      forall j | 0 <= j < |rest|
        ensures rest[j] != order[0]
      {
        assert order[0] != order[j + 1];
      }
    }
  }

  /** The orders the window admits are exactly the orders of its runs. */
  lemma AdmittedIffRun(order: seq<nat>, n: nat, parallelism: nat)
    requires parallelism >= 1
    ensures var first := if parallelism < n then parallelism else n;
            Admits(order, n, parallelism) <==> IsRun(Below(first), first, n, order)
  {
    hide IsRun, Distinct;
    var first := if parallelism < n then parallelism else n;
    assert |Below(first)| == first;
    RunIffAdmits(Below(first), first, n, order);
    assert forall i: nat :: i in Below(first) || first <= i < n <==> i < n;
    if Distinct(order) {
      AllBelowIff(order, n);
    }
  }

  /** Distinct numbers are all those below `n` iff there are `n` of them and all lie below `n`. */
  lemma {:induction false} AllBelowIff(order: seq<nat>, n: nat)
    requires Distinct(order)
    ensures (forall i: nat :: i in order <==> i < n) <==> |order| == n && forall k :: 0 <= k < |order| ==> order[k] < n
  {
    var elements := Members(order);
    assert forall i: nat :: i in order <==> i in elements;
    DistinctSize(order);
    if forall i: nat :: i in order <==> i < n {
      assert elements == Below(n);
      assert forall k :: 0 <= k < |order| ==> order[k] in order;
    }
    if |order| == n && forall k :: 0 <= k < |order| ==> order[k] < n {
      SubsetOfSameSize(elements, Below(n));
    }
  }

  lemma {:induction false} DistinctSize(order: seq<nat>)
    requires Distinct(order)
    ensures |Members(order)| == |order|
  {
    if order == [] {
      assert Members(order) == {};
    } else {
      HeadAndTail(order);
      DistinctSize(order[1..]);
      assert Members(order) == Members(order[1..]) + {order[0]};
    }
  }

  lemma SubsetOfSameSize<T>(a: set<T>, b: set<T>)
    requires a <= b && |a| == |b|
    ensures a == b
  {
    assert b == a + (b - a) && |b| == |a| + |b - a|;
  }

  // ---------------------------------------------------------------------------
  // The window
  // ---------------------------------------------------------------------------

  /**
    The window.  A future is named by the index of its submission; `order` records the
    futures in the order in which their results were taken.
   */
  class Window {
    const chunks: seq<ChunkId>
    const parallelism: int
    var next: nat
    var pending: map<nat, ChunkId>
    ghost var order: seq<nat>

    constructor (chunks: seq<ChunkId>, parallelism: int)
      requires parallelism >= 1
      ensures Valid() && this.chunks == chunks && this.parallelism == parallelism
      ensures pending == map[] && order == [] && next == 0
    {
      this.chunks, this.parallelism := chunks, parallelism;
      next, pending, order := 0, map[], [];
    }

    /** Every chunk submitted so far is either pending or taken, and taken within the window. */
    ghost predicate Valid()
      reads this
    {
      && next <= |chunks| && |pending| <= parallelism && |order| + |pending| == next
      && (forall f :: f in pending ==> f < |chunks| && pending[f] == chunks[f])
      && Distinct(order)
      && (forall i: nat :: i < next <==> i in pending || i in order)
      && (forall i: nat :: !(i in pending && i in order))
      && (forall k :: 0 <= k < |order| ==> order[k] < |chunks| && order[k] < k + parallelism)
    }

    /** `_submit_next`: hands over the next chunk, if there is one. */
    method SubmitNext()
      requires Valid() && |pending| < parallelism
      modifies this`next, this`pending
      ensures Valid()
      ensures if old(next) < |chunks| then next == old(next) + 1
              && pending == old(pending)[old(next) := chunks[old(next)]]
              else next == old(next) && pending == old(pending)
    {
      if next == |chunks| {
        return;
      }
      pending := pending[next := chunks[next]];
      next := next + 1;
    }

    /** Takes a completed future out of the window. */
    method Take(future: nat) returns (chunk: ChunkId)
      requires Valid() && future in pending
      modifies this`pending, this`order
      ensures Valid() && chunk == chunks[future] && pending == old(pending) - {future}
      ensures |pending| == |old(pending)| - 1 && order == old(order) + [future]
    {
      chunk := pending[future];
      RemoveOne(pending, future);
      pending := pending - {future};
      order := order + [future];
    }
  }

  lemma RemoveOne<K, V>(m: map<K, V>, k: K)
    requires k in m
    ensures |m - {k}| == |m| - 1
  {
    assert (m - {k}).Keys == m.Keys - {k};
    assert |(m - {k}).Keys| == |m.Keys| - 1;
  }

  /** All chunks succeed. */
  ghost predicate NoFailures(chunks: seq<ChunkId>, verdict: ChunkId -> Verdict)
  {
    forall c :: c in chunks ==> verdict(c).Findings?
  }

  /** What both loops keep: the findings are those of the chunks taken so far, none of which failed. */
  ghost predicate Collecting(window: Window, chunks: seq<ChunkId>, verdict: ChunkId -> Verdict, parallelism: int,
          findings: seq<Finding>)
    reads window
  {
    && window.Valid() && window.chunks == chunks && window.parallelism == parallelism
    && (window.pending == map[] ==> window.next == |chunks|)
    && findings == InChunkOrder(Picked(chunks, window.order), verdict)
    && NoFailures(Picked(chunks, window.order), verdict)
  }

  datatype Step = Collected(findings: seq<Finding>) | Failed(code: string, chunk: ChunkId)

  lemma PickedMore(chunks: seq<ChunkId>, order: seq<nat>, f: nat)
    requires (forall k :: 0 <= k < |order| ==> order[k] < |chunks|) && f < |chunks|
    ensures Picked(chunks, order + [f]) == Picked(chunks, order) + [chunks[f]]
  {
  }

  /** Takes one completed result and submits the next chunk in its place. */
  method CollectOne(window: Window, future: nat, ghost chunks: seq<ChunkId>, verdict: ChunkId -> Verdict,
          ghost parallelism: int, findings: seq<Finding>)
    returns (r: Step)
    requires Collecting(window, chunks, verdict, parallelism, findings) && future in window.pending
    modifies window
    ensures r.Failed? ==> r.chunk in chunks && verdict(r.chunk) == Fails(r.code)
    ensures r.Collected? ==> Collecting(window, chunks, verdict, parallelism, r.findings)
    ensures r.Collected? ==> window.order == old(window.order) + [future]
    ensures r.Collected? ==> old(window.pending).Keys - {future} <= window.pending.Keys
  {
    hide InChunkOrder, Distinct;
    var chunk := window.Take(future);
    var outcome := verdict(chunk);
    if outcome.Fails? {
      return Failed(outcome.code, chunk);
    }
    PickedMore(chunks, old(window.order), future);
    InChunkOrderSnoc(Picked(chunks, old(window.order)), chunk, verdict);
    window.SubmitNext();
    return Collected(findings + outcome.findings);
  }

  /**
    Takes results as they complete, several at a time, and submits one chunk for each result
    taken.  Without failures every chunk is evaluated exactly once, in an order the window
    admits, and never are more than `parallelism` evaluations pending.
   */
  method CollectFindings(chunks: seq<ChunkId>, verdict: ChunkId -> Verdict, parallelism: int)
    returns (r: Collection, ghost order: seq<nat>)
    ensures r.BadParallelism? <==> parallelism < 1
    ensures r.AllCollected? ==>
            Admits(order, |chunks|, parallelism) && r.findings == InChunkOrder(Picked(chunks, order), verdict)
    ensures r.AllCollected? <==> parallelism >= 1 && NoFailures(chunks, verdict)
    ensures r.RunError? ==> r.chunk in chunks && verdict(r.chunk) == Fails(r.code)
    ensures r.AllCollected? && parallelism == 1 ==> r.findings == InChunkOrder(chunks, verdict)
  {
    hide Window.Valid, InChunkOrder, Picked, Admits, NoFailures;
    order := [];
    if parallelism < 1 {
      return BadParallelism, order;
    }
    var findings: seq<Finding> := [];
    var window := new Window(chunks, parallelism);
    NothingTaken(chunks, verdict);
    for i := 0 to parallelism
      invariant window.chunks == chunks && window.parallelism == parallelism && window.Valid() && window.order == []
      invariant |window.pending| <= i && (window.pending == map[] && i > 0 ==> window.next == |chunks|)
      invariant window.next <= |chunks|
    {
      window.SubmitNext();
      WindowBounds(window);
    }
    while window.pending != map[]
      invariant fresh(window) && Collecting(window, chunks, verdict, parallelism, findings)
      decreases |chunks| - |window.order|
    {
      var completed: set<nat> :| completed != {} && completed <= window.pending.Keys;
      ghost var before := |window.order|;
      while completed != {}
        invariant Collecting(window, chunks, verdict, parallelism, findings)
        invariant completed <= window.pending.Keys
        invariant before <= |window.order| && (completed == {} ==> before < |window.order|)
        decreases completed
      {
        var future :| future in completed;
        completed := completed - {future};
        var step := CollectOne(window, future, chunks, verdict, parallelism, findings);
        if step.Failed? {
          FailureSeen(chunks, verdict, step.chunk);
          return RunError(step.code, step.chunk), window.order;
        }
        findings := step.findings;
      }
      WindowBounds(window);
    }
    order := window.order;
    AllTaken(window);
    PickedPermutes(chunks, order, parallelism);
    SameSuccess(chunks, Picked(chunks, order), verdict);
    if parallelism == 1 {
      OneAtATime(chunks, order);
    }
    return AllCollected(findings), order;
  }

  lemma NothingTaken(chunks: seq<ChunkId>, verdict: ChunkId -> Verdict)
    ensures Picked(chunks, []) == [] && InChunkOrder([], verdict) == [] && NoFailures([], verdict)
  {
  }

  lemma FailureSeen(chunks: seq<ChunkId>, verdict: ChunkId -> Verdict, c: ChunkId)
    requires c in chunks && verdict(c).Fails?
    ensures !NoFailures(chunks, verdict)
  {
  }

  lemma SameSuccess(a: seq<ChunkId>, b: seq<ChunkId>, verdict: ChunkId -> Verdict)
    requires multiset(a) == multiset(b)
    ensures NoFailures(a, verdict) <==> NoFailures(b, verdict)
  {
    SameElements(a, b);
  }

  lemma WindowBounds(window: Window)
    requires window.Valid()
    ensures window.next <= |window.chunks| && |window.order| <= |window.chunks|
            && |window.pending| <= window.parallelism
    ensures forall k :: 0 <= k < |window.order| ==> window.order[k] < |window.chunks|
  {
  }

  lemma AllTaken(window: Window)
    requires window.Valid() && window.pending == map[] && window.next == |window.chunks|
    ensures Admits(window.order, |window.chunks|, window.parallelism)
  {
  }

  // ---------------------------------------------------------------------------
  // What the order changes
  // ---------------------------------------------------------------------------

  /** An admitted order only permutes the chunks. */
  lemma {:induction false} PickedPermutes(chunks: seq<ChunkId>, order: seq<nat>, parallelism: int)
    requires Admits(order, |chunks|, parallelism)
    ensures multiset(Picked(chunks, order)) == multiset(chunks)
  {
    DistinctPermutes(chunks, order);
  }

  lemma {:induction false} DistinctPermutes(chunks: seq<ChunkId>, order: seq<nat>)
    requires |order| == |chunks| && Distinct(order) && forall k :: 0 <= k < |order| ==> order[k] < |chunks|
    ensures multiset(Picked(chunks, order)) == multiset(chunks)
  {
    if chunks != [] {
      var last := |chunks| - 1;
      AllBelowIff(order, |chunks|);
      assert last in order;
      var k: nat :| k < |order| && order[k] == last;
      var rest := order[..k] + order[k + 1..];
      var front := chunks[..last];
      DropOne(order, k);
      DistinctPermutes(front, rest);
      assert chunks == front + [chunks[last]];
      PickedWithout(chunks, order, k);
    }
  }

  lemma DropOne(order: seq<nat>, k: nat)
    requires Distinct(order) && k < |order| && forall i :: 0 <= i < |order| ==> order[i] <= order[k]
    ensures var rest := order[..k] + order[k + 1..];
            Distinct(rest) && forall i :: 0 <= i < |rest| ==> rest[i] < order[k]
  {
    var rest := order[..k] + order[k + 1..];
    forall i | 0 <= i < |rest|
      ensures rest[i] == order[if i < k then i else i + 1] && rest[i] < order[k]
    {
    }
  }

  lemma PickedWithout(chunks: seq<ChunkId>, order: seq<nat>, k: nat)
    requires k < |order| && chunks != [] && order[k] == |chunks| - 1
    requires forall i :: 0 <= i < |order| ==> order[i] < |chunks| && (i != k ==> order[i] < |chunks| - 1)
    ensures var rest, front := order[..k] + order[k + 1..], chunks[..|chunks| - 1];
            && (forall i :: 0 <= i < |rest| ==> rest[i] < |front|)
            && multiset(Picked(chunks, order)) == multiset(Picked(front, rest)) + multiset{chunks[order[k]]}
  {
    var rest, front := order[..k] + order[k + 1..], chunks[..|chunks| - 1];
    var all, some := Picked(chunks, order), Picked(front, rest);
    assert some == all[..k] + all[k + 1..];
    assert all == all[..k] + [all[k]] + all[k + 1..];
  }

  /** One evaluation at a time leaves the chunks in their order. */
  lemma OneAtATime(chunks: seq<ChunkId>, order: seq<nat>)
    requires Admits(order, |chunks|, 1)
    ensures Picked(chunks, order) == chunks
  {
    forall k | 0 <= k < |order|
      ensures order[k] == k
    {
      NothingOvertakes(order, k);
    }
  }

  lemma {:induction false} NothingOvertakes(order: seq<nat>, k: nat)
    requires Admits(order, |order|, 1) && k < |order|
    ensures forall i :: 0 <= i <= k ==> order[i] == i
  {
    if k > 0 {
      NothingOvertakes(order, k - 1);
      NoRepeat(order, if order[k] < k then order[k] else 0, k);
    }
  }

  lemma NoRepeat(order: seq<nat>, j: nat, k: nat)
    requires Distinct(order) && j < k < |order|
    ensures order[j] != order[k]
  {
  }

  /** The first two submissions in the other order, all others in theirs. */
  function Swapped(n: nat): seq<nat>
    requires n >= 2
  {
    [1, 0] + seq(n - 2, k requires 0 <= k < n - 2 => k + 2)
  }

  lemma SwappedIsAdmitted(n: nat, parallelism: int)
    requires n >= 2 && parallelism >= 2
    ensures Admits(Swapped(n), n, parallelism)
  {
    assert forall k :: 2 <= k < n ==> Swapped(n)[k] == k;
  }

  /** The verdict that reports each chunk by its own name. */
  function Naming(c: ChunkId): Verdict
  {
    Findings([Finding("", c, "", "", [], "", "", "", "", None, Error, false)])
  }

  lemma {:induction false} NamingTells(chunks: seq<ChunkId>)
    ensures |InChunkOrder(chunks, Naming)| == |chunks|
    ensures forall k :: 0 <= k < |chunks| ==> InChunkOrder(chunks, Naming)[k].doc == chunks[k]
  {
    if chunks != [] {
      NamingTells(chunks[..|chunks| - 1]);
    }
  }

  /** For every verdict and every order the window admits, the findings come in chunk order. */
  ghost predicate AlwaysInChunkOrder(chunks: seq<ChunkId>, parallelism: int)
  {
    forall verdict: ChunkId -> Verdict, order: seq<nat> ::
      Admits(order, |chunks|, parallelism) ==>
        InChunkOrder(Picked(chunks, order), verdict) == InChunkOrder(chunks, verdict)
  }

  /** The documented chunk order holds of distinct chunks iff one is evaluated at a time or there is at most one. */
  lemma ChunkOrderIff(chunks: seq<ChunkId>, parallelism: int)
    requires parallelism >= 1 && Distinct(chunks)
    ensures AlwaysInChunkOrder(chunks, parallelism) <==> parallelism == 1 || |chunks| <= 1
  {
    hide InChunkOrder, Picked, Distinct;
    if parallelism == 1 || |chunks| <= 1 {
      forall verdict: ChunkId -> Verdict, order: seq<nat> | Admits(order, |chunks|, parallelism)
        ensures InChunkOrder(Picked(chunks, order), verdict) == InChunkOrder(chunks, verdict)
      {
        AtMostOneAtATime(chunks, order, parallelism);
      }
    } else {
      SwappedIsAdmitted(|chunks|, parallelism);
      FirstTwoDiffer(chunks);
      SwapShows(chunks, parallelism);
    }
  }

  lemma FirstTwoDiffer(chunks: seq<ChunkId>)
    requires Distinct(chunks) && |chunks| >= 2
    ensures chunks[0] != chunks[1]
  {
  }

  lemma AtMostOneAtATime(chunks: seq<ChunkId>, order: seq<nat>, parallelism: int)
    requires Admits(order, |chunks|, parallelism) && (parallelism == 1 || |chunks| <= 1)
    ensures Picked(chunks, order) == chunks
  {
    if |chunks| > 1 {
      OneAtATime(chunks, order);
    }
  }

  /** Two chunks that complete in the other order give findings that are not in chunk order. */
  lemma SwapShows(chunks: seq<ChunkId>, parallelism: int)
    requires |chunks| >= 2 && chunks[0] != chunks[1] && Admits(Swapped(|chunks|), |chunks|, parallelism)
    ensures InChunkOrder(Picked(chunks, Swapped(|chunks|)), Naming) != InChunkOrder(chunks, Naming)
  {
    hide InChunkOrder;
    var picked := Picked(chunks, Swapped(|chunks|));
    NamingTells(picked);
    NamingTells(chunks);
    assert picked[0] == chunks[1];
  }

  /**
    Two runs over the same chunks, whatever the orders of completion, give the same result
    once the baseline has been applied, provided equal keys mean equal findings.
   */
  lemma CompletionOrderIsForgotten(chunks: seq<ChunkId>, verdict: ChunkId -> Verdict, one: seq<nat>, other: seq<nat>,
          parallelism: int, entries: seq<Entry>, baselineDoc: string)
    requires Admits(one, |chunks|, parallelism) && Admits(other, |chunks|, parallelism)
    requires KeysDecide(InChunkOrder(chunks, verdict))
    ensures Applied(InChunkOrder(Picked(chunks, one), verdict), entries, baselineDoc, false)
         == Applied(InChunkOrder(Picked(chunks, other), verdict), entries, baselineDoc, false)
  {
    hide InChunkOrder, Applied, Admits, Picked, KeysDecide;
    ForgetsOne(chunks, verdict, one, parallelism, entries, baselineDoc);
    ForgetsOne(chunks, verdict, other, parallelism, entries, baselineDoc);
  }

  lemma ForgetsOne(chunks: seq<ChunkId>, verdict: ChunkId -> Verdict, order: seq<nat>, parallelism: int,
          entries: seq<Entry>, baselineDoc: string)
    requires Admits(order, |chunks|, parallelism) && KeysDecide(InChunkOrder(chunks, verdict))
    ensures Applied(InChunkOrder(chunks, verdict), entries, baselineDoc, false)
         == Applied(InChunkOrder(Picked(chunks, order), verdict), entries, baselineDoc, false)
  {
    hide InChunkOrder, Applied, Picked, KeysDecide, Distinct;
    PickedPermutes(chunks, order, parallelism);
    FindingsPermute(chunks, Picked(chunks, order), verdict);
    OrderIsForgotten(InChunkOrder(chunks, verdict), InChunkOrder(Picked(chunks, order), verdict), entries, baselineDoc,
      false);
  }
}
