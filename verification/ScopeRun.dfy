/**
  The whole W3 sweep: from the loaded values through partitioning, evaluation and baseline
  to a result that may only be green when nothing was left out.
 */
module ScopeRun {
  import opened Options
  import opened Ordering
  import opened Baselines
  import opened ScopePolicy
  import opened ScopeSets
  import opened Texts

  /** An exhausted transport names the backend that was tried. */
  datatype Failure =
    | ParseFailure
    | TransportExhausted(backend: string)
    | TransportFailure
    | OsFailure
    | PromptFailure
    | Uncaught

  datatype Attempt = Answered(evaluation: Evaluation) | Failed(failure: Failure)

  /**
    Any evaluator; it only leaves a ghost record of what it was asked, what it answered, and what
    failed: an evaluation or checkpoint, or the lifecycle around them.
   */
  class Evaluator {
    const model: string
    const batch: bool
    ghost var asked: seq<Partition>
    ghost var answers: seq<Evaluation>
    ghost var failure: Option<Failure>
    ghost var outside: Option<Failure>

    constructor (model: string, batch: bool)
      ensures this.model == model && this.batch == batch && Untouched()
    {
      this.model, this.batch := model, batch;
      asked, answers, failure, outside := [], [], None, None;
    }

    ghost predicate Untouched()
      reads this
    {
      asked == [] && answers == [] && !Troubled()
    }

    ghost predicate Troubled()
      reads this
    {
      failure.Some? || outside.Some?
    }

    method Evaluate(p: Partition) returns (r: Attempt)
      modifies this`asked, this`answers, this`failure
      ensures asked == old(asked) + [p]
      ensures r.Answered? ==> answers == old(answers) + [r.evaluation] && failure == old(failure)
      ensures r.Failed? ==> answers == old(answers) && failure == Some(r.failure)
    {
      asked := asked + [p];
      r := *;
      match r
      case Answered(evaluation) => answers := answers + [evaluation];
      case Failed(f) => failure := Some(f);
    }

    method Checkpoint(p: Partition) returns (r: Option<Failure>)
      modifies this`failure
      ensures failure == if r.Some? then r else old(failure)
    {
      r := *;
      if r.Some? {
        failure := r;
      }
    }

    /** Entering and leaving the batch lifecycle may fail like any transport. */
    method Enter() returns (r: Option<Failure>)
      modifies this`outside
      ensures outside == if r.Some? then r else old(outside)
    {
      r := *;
      if r.Some? {
        outside := r;
      }
    }

    method Exit() returns (r: Option<Failure>)
      modifies this`outside
      ensures outside == if r.Some? then r else old(outside)
    {
      r := *;
      if r.Some? {
        outside := r;
      }
    }
  }

  datatype Sweep =
    | Complete(findings: seq<Finding>)
    | SweepError(code: string, partition: Partition, completed: nat, model: string)
    | SweepCrashed

  function FailureCode(f: Failure): string
    requires f != Uncaught
  {
    match f
    case ParseFailure => "UNPARSEABLE_RESPONSE"
    case TransportExhausted(_) => "HUB_UNREACHABLE"
    case TransportFailure => "HUB_UNREACHABLE"
    case OsFailure => "DISCOVERY_FAILURE"
    case PromptFailure => "INVALID_EVALUATION_RESPONSE"
  }

  /** The backend a failure is put down to. */
  function FailureModel(f: Failure, model: string): string
  {
    if f.TransportExhausted? then f.backend else model
  }

  const INVALID_EVALUATION := "INVALID_EVALUATION_RESPONSE"

  /**
    What a sweep that stopped reports: the code and the backend of its failure, or of an answer that
    breaks the contract.
   */
  ghost predicate Blames(failure: Option<Failure>, code: string, blamed: string, model: string)
  {
    match failure
    case None => code == INVALID_EVALUATION && blamed == model
    case Some(ParseFailure) => code == "UNPARSEABLE_RESPONSE" && blamed == model
    case Some(TransportExhausted(backend)) => code == "HUB_UNREACHABLE" && blamed == backend
    case Some(TransportFailure) => code == "HUB_UNREACHABLE" && blamed == model
    case Some(OsFailure) => code == "DISCOVERY_FAILURE" && blamed == model
    case Some(PromptFailure) => code == INVALID_EVALUATION && blamed == model
    case Some(Uncaught) => false
  }

  ghost function Together(policies: seq<seq<Finding>>): seq<Finding>
  {
    if policies == [] then [] else Together(policies[..|policies| - 1]) + policies[|policies| - 1]
  }

  lemma TogetherMore(policies: seq<seq<Finding>>, more: seq<Finding>)
    ensures Together(policies + [more]) == Together(policies) + more
  {
    assert (policies + [more])[..|policies|] == policies;
  }

  /** The findings are those of each partition's answer, one per key, partition after partition. */
  ghost predicate FoundBy(findings: seq<Finding>, policies: seq<seq<Finding>>, partitions: seq<Partition>,
          answers: seq<Evaluation>)
  {
    && |policies| == |partitions| == |answers| && findings == Together(policies)
    && forall i :: 0 <= i < |answers| ==>
         CoversGroups(policies[i], partitions[i], answers[i], answers[i].contradictions)
  }

  lemma FoundMore(findings: seq<Finding>, policies: seq<seq<Finding>>, partitions: seq<Partition>,
          answers: seq<Evaluation>, p: Partition, e: Evaluation, more: seq<Finding>)
    requires FoundBy(findings, policies, partitions, answers) && CoversGroups(more, p, e, e.contradictions)
    ensures FoundBy(findings + more, policies + [more], partitions + [p], answers + [e])
  {
    hide CoversGroups;
    TogetherMore(policies, more);
  }

  /** The findings of the partitions evaluated so far cover every group answered for them. */
  ghost predicate Covers(findings: seq<Finding>, partitions: seq<Partition>, answers: seq<Evaluation>)
    requires |answers| == |partitions|
  {
    && (forall i, g :: 0 <= i < |answers| && g in answers[i].contradictions ==>
          Active(findings, Key(GroupFinding(partitions[i], answers[i], g))))
    && (forall f :: f in findings ==>
          exists i, g ::
            0 <= i < |answers| && g in answers[i].contradictions && f == GroupFinding(partitions[i], answers[i], g))
  }

  lemma CoversMore(findings: seq<Finding>, partitions: seq<Partition>, answers: seq<Evaluation>, p: Partition,
          e: Evaluation, more: seq<Finding>)
    requires |answers| == |partitions|
    requires Covers(findings, partitions, answers)
    requires CoversGroups(more, p, e, e.contradictions)
    ensures Covers(findings + more, partitions + [p], answers + [e])
  {
    hide GroupFinding, Key, IsLast, KeyLe;
    var ps, es, fs := partitions + [p], answers + [e], findings + more;
    forall i, g | 0 <= i < |es| && g in es[i].contradictions
      ensures Active(fs, Key(GroupFinding(ps[i], es[i], g)))
    {
      var key := Key(GroupFinding(ps[i], es[i], g));
      if i < |answers| {
        assert es[i] == answers[i] && ps[i] == partitions[i];
        var f :| f in findings && Key(f) == key;
        assert f in fs;
      } else {
        var f :| f in more && Key(f) == key;
        assert f in fs;
      }
    }
    forall f | f in fs
      ensures exists i, g :: 0 <= i < |es| && g in es[i].contradictions && f == GroupFinding(ps[i], es[i], g)
    {
      if f in findings {
        var i, g :| 0 <= i < |answers| && g in answers[i].contradictions
          && f == GroupFinding(partitions[i], answers[i], g);
        assert es[i] == answers[i] && ps[i] == partitions[i];
      } else {
        LastIsSome(f, p, e, e.contradictions);
        var g :| g in e.contradictions && f == GroupFinding(p, e, g);
        assert es[|answers|] == e && ps[|answers|] == p;
      }
    }
  }

  /** Every partition was answered, and every answer meets the evidence contract. */
  ghost predicate AllMeet(partitions: seq<Partition>, answers: seq<Evaluation>)
  {
    |answers| == |partitions| && forall i :: 0 <= i < |answers| ==> MeetsContract(partitions[i], answers[i])
  }

  lemma MeetMore(partitions: seq<Partition>, answers: seq<Evaluation>, p: Partition, e: Evaluation)
    requires AllMeet(partitions, answers)
    ensures AllMeet(partitions + [p], answers + [e]) <==> MeetsContract(p, e)
  {
    hide MeetsContract;
    assert (partitions + [p])[|partitions|] == p && (answers + [e])[|answers|] == e;
  }

  /**
    Evaluates each partition once, in order.  Only a complete sweep returns findings; any
    failure stops at the failing partition and tells how many were completed before it.
   */
  method CollectScopeFindings(partitions: seq<Partition>, evaluator: Evaluator)
    returns (r: Sweep, ghost policies: seq<seq<Finding>>)
    requires evaluator.Untouched()
    modifies evaluator`asked, evaluator`answers, evaluator`failure
    ensures evaluator.asked <= partitions
    ensures r.Complete? <==> evaluator.failure.None? && AllMeet(evaluator.asked, evaluator.answers)
    ensures r.Complete? ==> evaluator.asked == partitions && |evaluator.answers| == |partitions|
                            && FoundBy(r.findings, policies, partitions, evaluator.answers)
                            && Covers(r.findings, partitions, evaluator.answers)
    ensures r.SweepError? ==> r.completed < |partitions| && r.partition == partitions[r.completed]
                              && evaluator.asked == partitions[..r.completed + 1]
                              && r.completed <= |evaluator.answers| <= r.completed + 1
                              && AllMeet(partitions[..r.completed], evaluator.answers[..r.completed])
                              && Blames(evaluator.failure, r.code, r.model, evaluator.model)
    ensures r.SweepCrashed? <==> evaluator.failure == Some(Uncaught)
    ensures r.Complete? ==> forall f :: f in r.findings ==> f.severity == Error
  {
    hide GroupFinding, Key, CoversGroups, Covers, AllMeet, MeetsContract, FoundBy;
    var findings: seq<Finding> := [];
    var completed := 0;
    policies := [];
    NothingCovered();
    for i := 0 to |partitions|
      invariant completed == i && evaluator.asked == partitions[..i] && |evaluator.answers| == i
      invariant evaluator.failure.None? && AllMeet(evaluator.asked, evaluator.answers)
      invariant Covers(findings, partitions[..i], evaluator.answers)
      invariant FoundBy(findings, policies, partitions[..i], evaluator.answers)
    {
      var partition := partitions[i];
      assert partitions[..i + 1] == partitions[..i] + [partition];
      ghost var answered := evaluator.answers;
      assert answered[..i] == answered;
      var attempt := evaluator.Evaluate(partition);
      if attempt.Failed? {
        if attempt.failure == Uncaught {
          return SweepCrashed, policies;
        }
        return SweepError(FailureCode(attempt.failure), partition, completed,
                          FailureModel(attempt.failure, evaluator.model)), policies;
      }
      assert evaluator.answers[..i] == answered;
      MeetMore(partitions[..i], answered, partition, attempt.evaluation);
      var policy := EvaluateScopePolicy(partition, attempt.evaluation);
      if policy.None? {
        return SweepError(INVALID_EVALUATION, partition, completed, evaluator.model), policies;
      }
      CoversMore(findings, partitions[..i], answered, partition, attempt.evaluation, policy.value);
      FoundMore(findings, policies, partitions[..i], answered, partition, attempt.evaluation, policy.value);
      findings := findings + policy.value;
      policies := policies + [policy.value];
      if evaluator.batch {
        var failure := evaluator.Checkpoint(partition);
        if failure.Some? {
          if failure.value == Uncaught {
            return SweepCrashed, policies;
          }
          return SweepError(FailureCode(failure.value), partition, completed,
                            FailureModel(failure.value, evaluator.model)), policies;
        }
      }
      completed := completed + 1;
    }
    assert partitions[..|partitions|] == partitions;
    CoveredAreErrors(findings, partitions, evaluator.answers);
    return Complete(findings), policies;
  }

  lemma NothingCovered()
    ensures Covers([], [], []) && AllMeet([], []) && FoundBy([], [], [], [])
  {
  }

  lemma CoveredAreErrors(findings: seq<Finding>, partitions: seq<Partition>, answers: seq<Evaluation>)
    requires |answers| == |partitions|
    requires Covers(findings, partitions, answers)
    ensures forall f :: f in findings ==> f.severity == Error
  {
  }

  // ---------------------------------------------------------------------------
  // Findings about the run itself
  // ---------------------------------------------------------------------------

  /** An unbaselined error about the run as a whole. */
  ghost predicate AboutRun(f: Finding, code: string, model: string, doc: string)
  {
    && f.code == code && f.doc == doc && f.anchor == "(run)" && f.related == [] && f.scope == "" && f.model == model
    && f.severity == Error && !f.baselined && f.formalization.None?
  }

  /** An unbaselined error bound to the first assertion of a partition. */
  ghost predicate AboutPartition(f: Finding, code: string, model: string, p: Partition)
  {
    && p.assertions != [] && f.code == code && f.doc == p.assertions[0].doc && f.anchor == p.assertions[0].anchor
    && f.related == [] && f.scope == p.scope && f.model == model
    && f.severity == Error && !f.baselined && f.formalization.None?
  }

  function RunFinding(code: string, message: string, model: string, doc: string): (f: Finding)
    ensures AboutRun(f, code, model, doc) && f.assertion == message && f.severity == Error
  {
    Finding(code, doc, "(run)", message, [], "", "scope-consistency/v2", model, message, None, Error, false)
  }

  function PartitionFinding(code: string, message: string, model: string, partition: Partition): (f: Finding)
    requires partition.assertions != []
    ensures AboutPartition(f, code, model, partition) && f.assertion == message && f.severity == Error
  {
    var first := partition.assertions[0];
    RunFinding(code, message, model, first.doc).(anchor := first.anchor, scope := partition.scope)
  }

  /** The completeness failure tells how many partitions were completed of how many. */
  function IncompleteMessage(completed: nat, expected: nat): string
  {
    "completed=" + IntText(completed) + " expected=" + IntText(expected)
  }

  /** The first parts of the sets that had to be cut. */
  ghost function CutFirsts(partitions: seq<Partition>): seq<Partition>
  {
    if partitions == [] then []
    else
      var last := partitions[|partitions| - 1];
      CutFirsts(partitions[..|partitions| - 1]) + if last.index == 1 && last.count > 1 then [last] else []
  }

  /** One finding for each set that was cut, in order. */
  ghost predicate CutsNamed(findings: seq<Finding>, partitions: seq<Partition>, model: string)
  {
    var cut := CutFirsts(partitions);
    |findings| == |cut| && forall i :: 0 <= i < |cut| ==> AboutPartition(findings[i], "INCOMPLETE_SWEEP", model, cut[i])
  }

  lemma CutsMore(findings: seq<Finding>, partitions: seq<Partition>, p: Partition, f: Finding, model: string)
    requires CutsNamed(findings, partitions, model)
    requires p.index == 1 && p.count > 1 ==> AboutPartition(f, "INCOMPLETE_SWEEP", model, p)
    ensures CutsNamed(findings + if p.index == 1 && p.count > 1 then [f] else [], partitions + [p], model)
  {
    assert (partitions + [p])[..|partitions|] == partitions;
  }

  lemma {:induction false} CutsAppend(a: seq<Partition>, b: seq<Partition>)
    ensures CutFirsts(a + b) == CutFirsts(a) + CutFirsts(b)
  {
    if b == [] {
      assert a + b == a;
    } else {
      assert (a + b)[..|a + b| - 1] == a + b[..|b| - 1];
      CutsAppend(a, b[..|b| - 1]);
    }
  }

  lemma CutsJoin(f: seq<Finding>, a: seq<Partition>, g: seq<Finding>, b: seq<Partition>, model: string)
    requires CutsNamed(f, a, model) && CutsNamed(g, b, model)
    ensures CutsNamed(f + g, a + b, model)
  {
    hide AboutPartition, CutFirsts;
    CutsAppend(a, b);
    var cut := CutFirsts(a) + CutFirsts(b);
    forall i | 0 <= i < |cut|
      ensures AboutPartition((f + g)[i], "INCOMPLETE_SWEEP", model, cut[i])
    {
      if i < |f| {
        assert (f + g)[i] == f[i] && cut[i] == CutFirsts(a)[i];
      } else {
        assert (f + g)[i] == g[i - |f|] && cut[i] == CutFirsts(b)[i - |f|];
      }
    }
  }

  lemma {:induction false} NoCutIff(partitions: seq<Partition>)
    ensures CutFirsts(partitions) == [] <==> forall p :: p in partitions && p.index == 1 ==> p.count <= 1
  {
    if partitions != [] {
      var front, last := partitions[..|partitions| - 1], partitions[|partitions| - 1];
      assert partitions == front + [last];
      NoCutIff(front);
    }
  }

  /** Names every set that had to be cut: contradictions across its parts remain unchecked. */
  method CrossPartition(partitions: seq<Partition>, model: string) returns (r: seq<Finding>)
    requires forall p :: p in partitions ==> p.assertions != []
    ensures CutsNamed(r, partitions, model)
    ensures r == [] <==> forall p :: p in partitions && p.index == 1 ==> p.count <= 1
  {
    hide CutsNamed, AboutPartition;
    r := [];
    NothingCut(model);
    for i := 0 to |partitions|
      invariant CutsNamed(r, partitions[..i], model)
    {
      var partition := partitions[i];
      assert partition in partitions && partitions[..i + 1] == partitions[..i] + [partition];
      var finding :=
        PartitionFinding("INCOMPLETE_SWEEP", "cross-partition contradictions remain unchecked", model, partition);
      CutsMore(r, partitions[..i], partition, finding, model);
      if partition.index == 1 && partition.count > 1 {
        r := r + [finding];
      } else {
        assert r + [] == r;
      }
    }
    assert partitions[..|partitions|] == partitions;
    NoCutIff(partitions);
    CutsCount(r, partitions, model);
  }

  lemma NothingCut(model: string)
    ensures CutsNamed([], [], model)
  {
  }

  lemma CutsCount(findings: seq<Finding>, partitions: seq<Partition>, model: string)
    requires CutsNamed(findings, partitions, model)
    ensures findings == [] <==> CutFirsts(partitions) == []
    ensures forall f :: f in findings ==> f.severity == Error
  {
  }

  // ---------------------------------------------------------------------------
  // The run
  // ---------------------------------------------------------------------------

  datatype RunResult =
    | Finished(findings: seq<Finding>, scopeSets: nat, partitions: nat, completed: nat)
    | Crashed

  predicate Green(r: RunResult)
  {
    r.Finished? && Ok(r.findings)
  }

  /** The loaded values; what could not be loaded is absent. */
  datatype Inputs = Inputs(
    baseline: Option<seq<Entry>>, baselineDoc: string, conceptRoot: string,
    discovered: Option<(seq<string>, seq<Chunk>)>,
    filters: set<string>, limit: Option<int>, maxChars: int, maxChunks: int)

  /** The selected sets, each whole and alone in its partition. */
  ghost predicate WholeSets(sets: seq<ScopeSet>, partitions: seq<Partition>)
  {
    && |partitions| == |sets|
    && forall i :: 0 <= i < |sets| ==> partitions[i] == Partition(sets[i].scope, 1, 1, sets[i].assertions)
  }

  ghost predicate AllWhole(sets: seq<ScopeSet>)
  {
    forall i :: 0 <= i < |sets| ==> sets[i].assertions != []
  }

  datatype Selection = Selected(sets: seq<ScopeSet>) | NotSelected(code: string, detail: string, scopeSets: nat)

  ghost function SelectedScopes(inputs: Inputs): set<string>
    requires inputs.discovered.Some?
  {
    if inputs.filters == {} then Live(inputs.discovered.value.0) else inputs.filters
  }

  /** The sets of the selected scopes, as many of them as the limit admits. */
  ghost predicate Chosen(inputs: Inputs, sets: seq<ScopeSet>)
  {
    && inputs.discovered.Some? && (inputs.limit.Some? ==> inputs.limit.value >= 1)
    && Buildable(inputs.discovered.value.1, inputs.discovered.value.0, SelectedScopes(inputs))
    && exists all :: SetsOf(all, inputs.discovered.value.1, SelectedScopes(inputs)) && sets == Cut(all, inputs.limit)
  }

  function Cut(all: seq<ScopeSet>, limit: Option<int>): seq<ScopeSet>
    requires limit.Some? ==> limit.value >= 1
  {
    if limit.Some? && limit.value < |all| then all[..limit.value] else all
  }

  lemma SetsOfUnique(a: seq<ScopeSet>, b: seq<ScopeSet>, chunks: seq<Chunk>, selected: set<string>)
    requires SetsOf(a, chunks, selected) && SetsOf(b, chunks, selected)
    ensures a == b
  {
    hide Authorized, StringLe, TotalOrder;
    var x := seq(|a|, i requires 0 <= i < |a| => a[i].scope);
    var y := seq(|b|, i requires 0 <= i < |b| => b[i].scope);
    forall s
      ensures s in x <==> s in y
    {
      assert s in x <==> s in selected by {
        if s in selected {
          var i :| 0 <= i < |a| && a[i].scope == s;
          assert x[i] == s;
        }
      }
      assert s in y <==> s in selected by {
        if s in selected {
          var i :| 0 <= i < |b| && b[i].scope == s;
          assert y[i] == s;
        }
      }
    }
    StringOrder();
    OrderedSetUnique(StringLe, x, y);
    forall i | 0 <= i < |a|
      ensures a[i] == b[i]
    {
      assert x[i] == y[i];
    }
  }

  /** The sets of the run, cut to the limit; none at all, or an empty one, is an incomplete sweep. */
  method SelectSets(inputs: Inputs) returns (r: Selection)
    ensures r.Selected? ==> Chosen(inputs, r.sets) && r.sets != [] && AllWhole(r.sets)
    ensures r.NotSelected? ==> forall sets :: Chosen(inputs, sets) ==> sets == [] || !AllWhole(sets)
    ensures r.NotSelected? ==>
            if r.code == "INCOMPLETE_SWEEP" then exists sets :: Chosen(inputs, sets) && r.scopeSets == |sets|
                               else r.code == "DISCOVERY_FAILURE" && r.scopeSets == 0 && !exists sets ::
                                 Chosen(inputs, sets)
  {
    hide SetsOf, Buildable;
    if inputs.discovered.None? {
      return NotSelected("DISCOVERY_FAILURE", "", 0);
    }
    var (vocabulary, chunks) := inputs.discovered.value;
    var requested := if inputs.filters == {} then None else Some(inputs.filters);
    var built := BuildScopeSets(chunks, vocabulary, requested);
    if built.CannotBuild? {
      return NotSelected("DISCOVERY_FAILURE", built.detail, 0);
    }
    var sets := built.sets;
    forall all | SetsOf(all, chunks, SelectedScopes(inputs))
      ensures all == built.sets
    {
      SetsOfUnique(all, built.sets, chunks, SelectedScopes(inputs));
    }
    if inputs.limit.Some? {
      if inputs.limit.value < 1 {
        return NotSelected("DISCOVERY_FAILURE", "limit must be positive", 0);
      }
      sets := if inputs.limit.value < |sets| then sets[..inputs.limit.value] else sets;
    }
    if sets == [] || exists i :: 0 <= i < |sets| && sets[i].assertions == [] {
      return NotSelected("INCOMPLETE_SWEEP", "no or empty scope sets", |sets|);
    }
    return Selected(sets);
  }

  datatype Coverage =
    | Covered(partitions: seq<Partition>, findings: seq<Finding>)
    | NotCovered(detail: string, cutSoFar: nat, findings: seq<Finding>)

  ghost predicate PartitionsUsable(partitions: seq<Partition>)
  {
    forall p :: p in partitions ==> p.assertions != []
  }

  lemma GroupNotEmpty(groups: seq<seq<Assertion>>, g: seq<Assertion>)
    requires NoneEmpty(groups) && g in groups
    ensures g != []
  {
  }

  lemma NumberedUsable(render: RenderedLength, set_: ScopeSet, maxChars: int, maxChunks: int,
          partitions: seq<Partition>)
    requires PartitionsOf(render, set_, maxChars, maxChunks, partitions)
    ensures PartitionsUsable(partitions)
  {
    hide Flatten, AllFit, NoneLonger;
    var groups: seq<seq<Assertion>> :| partitions == Numbered(set_.scope, groups) && NoneEmpty(groups);
    forall p | p in partitions
      ensures p.assertions != []
    {
      var i :| 0 <= i < |partitions| && partitions[i] == p;
      assert p == Partition(set_.scope, i + 1, |groups|, groups[i]);
      assert groups[i] in groups;
      GroupNotEmpty(groups, groups[i]);
    }
  }

  ghost predicate AllFitWhole(render: RenderedLength, sets: seq<ScopeSet>, inputs: Inputs)
  {
    forall i :: 0 <= i < |sets| ==> FitsWhole(render, sets[i], inputs.maxChars, inputs.maxChunks)
  }

  ghost function AllParts(parts: seq<seq<Partition>>): seq<Partition>
  {
    if parts == [] then [] else AllParts(parts[..|parts| - 1]) + parts[|parts| - 1]
  }

  lemma AllPartsMore(parts: seq<seq<Partition>>, more: seq<Partition>)
    ensures AllParts(parts + [more]) == AllParts(parts) + more
  {
    assert (parts + [more])[..|parts|] == parts;
  }

  /** The partitions are those of each set, set after set. */
  ghost predicate PartitionedInto(render: RenderedLength, sets: seq<ScopeSet>, inputs: Inputs,
          partitions: seq<Partition>)
  {
    exists parts :: PartsOfSets(render, sets, inputs, partitions, parts)
  }

  ghost predicate PartsOfSets(render: RenderedLength, sets: seq<ScopeSet>, inputs: Inputs, partitions: seq<Partition>,
          parts: seq<seq<Partition>>)
  {
    && |parts| == |sets| && partitions == AllParts(parts)
    && forall i :: 0 <= i < |sets| ==> PartitionsOf(render, sets[i], inputs.maxChars, inputs.maxChunks, parts[i])
  }

  lemma PartitionedMore(render: RenderedLength, sets: seq<ScopeSet>, inputs: Inputs, partitions: seq<Partition>,
          set_: ScopeSet, more: seq<Partition>)
    requires PartitionedInto(render, sets, inputs, partitions)
    requires PartitionsOf(render, set_, inputs.maxChars, inputs.maxChunks, more)
    ensures PartitionedInto(render, sets + [set_], inputs, partitions + more)
  {
    hide PartitionsOf, AllParts;
    var parts :| PartsOfSets(render, sets, inputs, partitions, parts);
    AllPartsMore(parts, more);
    assert PartsOfSets(render, sets + [set_], inputs, partitions + more, parts + [more]);
  }

  lemma NothingPartitioned(render: RenderedLength, inputs: Inputs)
    ensures PartitionedInto(render, [], inputs, [])
  {
    assert PartsOfSets(render, [], inputs, [], []);
  }

  /** Neither limit can be met by the set: a limit is out of range, or some assertion alone is too long. */
  ghost predicate Unpartitionable(render: RenderedLength, set_: ScopeSet, inputs: Inputs)
  {
    || inputs.maxChars < 1 || inputs.maxChunks < 1 || inputs.maxChars > DEFAULT_PARTITION_MAX_CHARS
    || exists a, i, n :: a in set_.assertions && 1 <= i <= n <= |set_.assertions|
                         && render(set_.scope, i, n, [a]) > inputs.maxChars
  }

  /** The sets before some set that cannot be partitioned, and what they gave. */
  ghost predicate StoppedAt(render: RenderedLength, sets: seq<ScopeSet>, inputs: Inputs, model: string, n: nat,
          partitions: seq<Partition>, findings: seq<Finding>)
  {
    && n < |sets| && Unpartitionable(render, sets[n], inputs)
    && PartitionedInto(render, sets[..n], inputs, partitions) && CutsNamed(findings, partitions, model)
  }

  /** Partitions set after set; without a coverage finding, every set is whole in one partition. */
  method PartitionSets(render: RenderedLength, sets: seq<ScopeSet>, inputs: Inputs, model: string)
    returns (r: Coverage, ghost stopped: nat, ghost before: seq<Partition>)
    requires AllWhole(sets)
    ensures r.Covered? ==> PartitionsUsable(r.partitions) && (r.findings == [] ==> WholeSets(sets, r.partitions))
    ensures r.Covered? ==>
            PartitionedInto(render, sets, inputs, r.partitions) && CutsNamed(r.findings, r.partitions, model)
    ensures r.Covered? && r.findings == [] <==> AllFitWhole(render, sets, inputs)
    ensures r.Covered? && sets != [] ==> r.partitions != []
    ensures r.NotCovered? ==>
            StoppedAt(render, sets, inputs, model, stopped, before, r.findings) && r.cutSoFar == |before|
    ensures forall f :: f in r.findings ==> f.severity == Error
  {
    hide PartitionsOf, FitsWhole, CutsNamed, CutFirsts, PartitionedInto;
    var partitions: seq<Partition> := [];
    var coverage: seq<Finding> := [];
    stopped, before := 0, [];
    NothingPartitioned(render, inputs);
    NothingCut(model);
    assert sets[..0] == [];
    for i := 0 to |sets|
      invariant PartitionsUsable(partitions) && (coverage == [] ==> WholeSets(sets[..i], partitions))
      invariant PartitionedInto(render, sets[..i], inputs, partitions) && CutsNamed(coverage, partitions, model)
      invariant coverage == [] <==> AllFitWhole(render, sets[..i], inputs)
      invariant i > 0 ==> partitions != []
    {
      assert sets[..i + 1] == sets[..i] + [sets[i]];
      var cut := PartitionScopeSet(render, sets[i], inputs.maxChars, inputs.maxChunks);
      if cut.SetError? {
        CutsCount(coverage, partitions, model);
        return NotCovered(cut.detail, |partitions|, coverage), i, partitions;
      }
      NumberedUsable(render, sets[i], inputs.maxChars, inputs.maxChunks, cut.partitions);
      SomePartition(render, sets[i], inputs.maxChars, inputs.maxChunks, cut.partitions);
      CountIsLength(render, sets[i], inputs.maxChars, inputs.maxChunks, cut.partitions);
      PartitionedMore(render, sets[..i], inputs, partitions, sets[i], cut.partitions);
      var cross := CrossPartition(cut.partitions, model);
      if cross == [] {
        CountsAreOne(render, sets[i], inputs.maxChars, inputs.maxChunks, cut.partitions);
        UncutIsWhole(render, sets[i], inputs.maxChars, inputs.maxChunks, cut.partitions);
      }
      CutsJoin(coverage, partitions, cross, cut.partitions, model);
      partitions := partitions + cut.partitions;
      coverage := coverage + cross;
    }
    assert sets[..|sets|] == sets;
    CutsCount(coverage, partitions, model);
    return Covered(partitions, coverage), stopped, before;
  }

  lemma SomePartition(render: RenderedLength, set_: ScopeSet, maxChars: int, maxChunks: int, partitions: seq<Partition>)
    requires PartitionsOf(render, set_, maxChars, maxChunks, partitions) && set_.assertions != []
    ensures partitions != []
  {
    FlattenNone();
  }

  /** A cut set shows its count on its first partition. */
  lemma CountIsLength(render: RenderedLength, set_: ScopeSet, maxChars: int, maxChunks: int, partitions: seq<Partition>)
    requires PartitionsOf(render, set_, maxChars, maxChunks, partitions) && set_.assertions != []
    ensures (forall p :: p in partitions && p.index == 1 ==> p.count <= 1) <==> |partitions| == 1
  {
    var groups: seq<seq<Assertion>> :| partitions == Numbered(set_.scope, groups) && Flatten(groups) == set_.assertions;
    assert partitions[0] in partitions;
  }

  lemma CountsAreOne(render: RenderedLength, set_: ScopeSet, maxChars: int, maxChunks: int, partitions: seq<Partition>)
    requires PartitionsOf(render, set_, maxChars, maxChunks, partitions)
    requires forall p :: p in partitions && p.index == 1 ==> p.count <= 1
    ensures forall p :: p in partitions && p.index == 1 ==> p.count == 1
  {
  }

  /** Every group answered was baselined, and no selected entry was left unmatched. */
  ghost predicate AllJustified(entries: seq<Entry>, partitions: seq<Partition>, answers: seq<Evaluation>)
    requires |answers| == |partitions|
  {
    && (forall i, g :: 0 <= i < |answers| && g in answers[i].contradictions ==>
          IsListed(entries, GroupFinding(partitions[i], answers[i], g)))
    && (forall e :: e in entries ==>
          exists i, g ::
            0 <= i < |answers| && g in answers[i].contradictions
            && Concerns(e, GroupFinding(partitions[i], answers[i], g)))
  }

  lemma ThenJustified(findings: seq<Finding>, entries: seq<Entry>, partitions: seq<Partition>, answers: seq<Evaluation>)
    requires |answers| == |partitions| && Covers(findings, partitions, answers)
    requires forall f :: f in findings ==> Listed(entries, Key(f))
    requires forall e :: e in entries ==> Active(findings, EntryKey(e))
    ensures AllJustified(entries, partitions, answers)
  {
    hide GroupFinding, Key, EntryKey, Concerns, IsListed;
    forall i, g | 0 <= i < |answers| && g in answers[i].contradictions
      ensures IsListed(entries, GroupFinding(partitions[i], answers[i], g))
    {
      var own := GroupFinding(partitions[i], answers[i], g);
      var f :| f in findings && Key(f) == Key(own);
      ListedIff(entries, own);
    }
    forall e | e in entries
      ensures exists i, g ::
              0 <= i < |answers| && g in answers[i].contradictions
              && Concerns(e, GroupFinding(partitions[i], answers[i], g))
    {
      var f :| f in findings && Key(f) == EntryKey(e);
      KeyConcerns(e, f);
    }
  }

  lemma WhenListed(findings: seq<Finding>, entries: seq<Entry>, partitions: seq<Partition>, answers: seq<Evaluation>)
    requires |answers| == |partitions| && Covers(findings, partitions, answers)
    requires AllJustified(entries, partitions, answers)
    ensures forall f :: f in findings ==> Listed(entries, Key(f))
  {
    hide GroupFinding, Key, EntryKey, Concerns, IsListed, Listed;
    forall f | f in findings
      ensures Listed(entries, Key(f))
    {
      var i, g :| 0 <= i < |answers| && g in answers[i].contradictions
        && f == GroupFinding(partitions[i], answers[i], g);
      ListedIff(entries, f);
    }
  }

  lemma WhenActive(findings: seq<Finding>, entries: seq<Entry>, partitions: seq<Partition>, answers: seq<Evaluation>)
    requires |answers| == |partitions| && Covers(findings, partitions, answers)
    requires AllJustified(entries, partitions, answers)
    ensures forall e :: e in entries ==> Active(findings, EntryKey(e))
  {
    hide GroupFinding, Key, EntryKey, Concerns, IsListed;
    forall e | e in entries
      ensures Active(findings, EntryKey(e))
    {
      var i, g :| 0 <= i < |answers| && g in answers[i].contradictions
        && Concerns(e, GroupFinding(partitions[i], answers[i], g));
      KeyConcerns(e, GroupFinding(partitions[i], answers[i], g));
    }
  }

  lemma JustifiedIff(findings: seq<Finding>, entries: seq<Entry>, baselineDoc: string, partitions: seq<Partition>,
          answers: seq<Evaluation>)
    requires |answers| == |partitions|
    requires Covers(findings, partitions, answers) && forall f :: f in findings ==> f.severity == Error
    ensures Ok(Applied(findings, entries, baselineDoc, true)) <==> AllJustified(entries, partitions, answers)
  {
    hide Key, Applied, EntryKey, Ok, AllJustified, Covers;
    OkIff(findings, entries, baselineDoc, true);
    if Ok(Applied(findings, entries, baselineDoc, true)) {
      ThenJustified(findings, entries, partitions, answers);
    }
    if AllJustified(entries, partitions, answers) {
      WhenListed(findings, entries, partitions, answers);
      WhenActive(findings, entries, partitions, answers);
    }
  }

  /** The sets of the run were each asked about as a whole, answered in order, and all is justified. */
  ghost predicate FullyChecked(render: RenderedLength, inputs: Inputs, sets: seq<ScopeSet>, evaluator: Evaluator)
    reads evaluator
  {
    && inputs.baseline.Some? && Chosen(inputs, sets) && sets != [] && AllWhole(sets)
    && AllFitWhole(render, sets, inputs)
    && WholeSets(sets, evaluator.asked) && !evaluator.Troubled() && AllMeet(evaluator.asked, evaluator.answers)
    && AllJustified(Select(inputs.baseline.value, e => ForScopes(e, set s | s in sets :: s.scope)),
                    evaluator.asked, evaluator.answers)
  }

  /** No sets were selected: one finding says why. */
  ghost predicate RefusedToStart(r: RunResult, inputs: Inputs, model: string)
  {
    && r.Finished? && |r.findings| == 1 && r.partitions == 0 && r.completed == 0
    && if inputs.baseline.None? then AboutRun(r.findings[0], "INVALID_BASELINE", model, inputs.baselineDoc)
    && r.scopeSets == 0
       else if exists sets :: Chosen(inputs, sets) then
         && AboutRun(r.findings[0], "INCOMPLETE_SWEEP", model, inputs.conceptRoot)
         && exists sets :: Chosen(inputs, sets) && r.scopeSets == |sets|
       else AboutRun(r.findings[0], "DISCOVERY_FAILURE", model, inputs.conceptRoot) && r.scopeSets == 0
  }

  /** Some set could not be partitioned: a failure, and the sets cut before it. */
  ghost predicate StoppedPartitioning(r: RunResult, render: RenderedLength, inputs: Inputs, sets: seq<ScopeSet>,
          model: string)
  {
    && r.Finished? && r.findings != [] && r.scopeSets == |sets| && r.completed == 0
    && AboutRun(r.findings[0], "DISCOVERY_FAILURE", model, inputs.conceptRoot)
    && exists n, before ::
         StoppedAt(render, sets, inputs, model, n, before, r.findings[1..]) && r.partitions == |before|
  }

  /** The lifecycle around the sweep failed: the Hub is reported unreachable, or nothing is. */
  ghost predicate OutsideFailed(r: RunResult, inputs: Inputs, sets: seq<ScopeSet>, partitions: seq<Partition>,
          cuts: seq<Finding>, failure: Failure, model: string)
  {
    if !failure.TransportFailure? then r.Crashed?
    else
      && r.Finished? && |r.findings| == 2 + |cuts| && r.findings[2..] == cuts
      && AboutRun(r.findings[0], "HUB_UNREACHABLE", model, inputs.conceptRoot)
      && AboutRun(r.findings[1], "INCOMPLETE_SWEEP", model, inputs.conceptRoot)
      && r.findings[1].assertion == IncompleteMessage(0, |partitions|)
      && r.scopeSets == |sets| && r.partitions == |partitions| && r.completed == 0
  }

  /** The sweep stopped at the last partition asked about, and all before it were completed. */
  ghost predicate StoppedSweeping(r: RunResult, sets: seq<ScopeSet>, partitions: seq<Partition>, cuts: seq<Finding>,
          asked: seq<Partition>, failure: Option<Failure>, model: string)
  {
    if failure == Some(Uncaught) then r.Crashed?
    else
      && r.Finished? && |r.findings| == 2 + |cuts| && r.findings[2..] == cuts
      && asked != [] && r.completed == |asked| - 1
      && (exists code, blamed ::
            && Blames(failure, code, blamed, model)
            && AboutPartition(r.findings[0], code, blamed, asked[r.completed])
            && AboutPartition(r.findings[1], "INCOMPLETE_SWEEP", blamed, asked[r.completed]))
      && r.findings[1].assertion == IncompleteMessage(r.completed, |partitions|)
      && r.scopeSets == |sets| && r.partitions == |partitions|
  }

  /** The sweep is complete: the account of everything found against the selected entries, and the sets cut. */
  ghost predicate SweptWhole(r: RunResult, inputs: Inputs, sets: seq<ScopeSet>, partitions: seq<Partition>,
          cuts: seq<Finding>, answers: seq<Evaluation>)
    requires inputs.baseline.Some?
  {
    && r.Finished? && r.scopeSets == |sets| && r.partitions == r.completed == |partitions|
    && exists shown, found, policies ::
         && FoundBy(found, policies, partitions, answers)
         && IsOutcome(shown, found, SelectedEntries(inputs, sets), inputs.baselineDoc, true)
         && r.findings == shown + cuts
  }

  /** The entries of the baseline that concern contradictions in the scopes of the run. */
  ghost function SelectedEntries(inputs: Inputs, sets: seq<ScopeSet>): seq<Entry>
    requires inputs.baseline.Some?
  {
    Select(inputs.baseline.value, e => ForScopes(e, set s | s in sets :: s.scope))
  }

  /** How the sweep over the partitions ended. */
  ghost predicate SweepAccounted(r: RunResult, inputs: Inputs, sets: seq<ScopeSet>, partitions: seq<Partition>,
          cuts: seq<Finding>, evaluator: Evaluator)
    requires inputs.baseline.Some?
    reads evaluator
  {
    && evaluator.asked <= partitions
    && if evaluator.outside.Some? then
         OutsideFailed(r, inputs, sets, partitions, cuts, evaluator.outside.value, evaluator.model)
       else if evaluator.failure.Some? || !AllMeet(evaluator.asked, evaluator.answers) then
         StoppedSweeping(r, sets, partitions, cuts, evaluator.asked, evaluator.failure, evaluator.model)
       else
         evaluator.asked == partitions && SweptWhole(r, inputs, sets, partitions, cuts, evaluator.answers)
  }

  /** The result tells what happened, in every case. */
  ghost predicate Accounted(r: RunResult, render: RenderedLength, inputs: Inputs, sets: seq<ScopeSet>,
          partitions: seq<Partition>, cuts: seq<Finding>, evaluator: Evaluator)
    reads evaluator
  {
    if sets == [] then RefusedToStart(r, inputs, evaluator.model) && evaluator.asked == []
    else
      && inputs.baseline.Some? && Chosen(inputs, sets) && AllWhole(sets)
      && if partitions == [] then StoppedPartitioning(r, render, inputs, sets, evaluator.model) && evaluator.asked == []
         else
           && PartitionedInto(render, sets, inputs, partitions) && CutsNamed(cuts, partitions, evaluator.model)
           && SweepAccounted(r, inputs, sets, partitions, cuts, evaluator)
  }

  /**
    Fail closed: the result is green iff scopes were selected, each was whole in the one
    partition it was asked about, all partitions were completed without any failure, and every
    contradiction reported is baselined with no selected baseline entry stale. Green or not, the
    findings account for everything that happened.
   */
  method RunScopeConsistency(render: RenderedLength, inputs: Inputs, evaluator: Evaluator)
    returns (r: RunResult, ghost sets: seq<ScopeSet>, ghost partitions: seq<Partition>, ghost cuts: seq<Finding>)
    requires evaluator.Untouched()
    modifies evaluator
    ensures Accounted(r, render, inputs, sets, partitions, cuts, evaluator)
    ensures Green(r) <==> FullyChecked(render, inputs, sets, evaluator)
    ensures inputs.baseline.Some? && (exists s :: Chosen(inputs, s) && s != [] && AllWhole(s)) ==>
            Chosen(inputs, sets) && sets != []
    ensures Green(r) ==> r.scopeSets == r.partitions == r.completed == |sets|
    ensures r.Finished? ==> r.completed <= r.partitions && (r.completed > 0 ==> r.completed <= |evaluator.asked|)
  {
    hide AllJustified, Covers, Applied, WholeSets, PartitionFinding, RunFinding, Chosen, AllWhole, AllFitWhole, AllMeet,
      IsOutcome, AboutRun, AboutPartition, PartitionedInto, CutsNamed, StoppedAt, FoundBy, Blames, IncompleteMessage;
    sets, partitions, cuts := [], [], [];
    if inputs.baseline.None? {
      return Finished([RunFinding("INVALID_BASELINE", "", evaluator.model, inputs.baselineDoc)], 0, 0, 0), sets, [], [];
    }
    var selection := SelectSets(inputs);
    if selection.NotSelected? {
      var refused := RunFinding(selection.code, selection.detail, evaluator.model, inputs.conceptRoot);
      return Finished([refused], selection.scopeSets, 0, 0), sets, [], [];
    }
    sets := selection.sets;
    var coverage, stopped, before := PartitionSets(render, selection.sets, inputs, evaluator.model);
    if coverage.NotCovered? {
      var failed := RunFinding("DISCOVERY_FAILURE", coverage.detail, evaluator.model, inputs.conceptRoot);
      r := Finished([failed] + coverage.findings, |selection.sets|, coverage.cutSoFar, 0);
      assert r.findings[1..] == coverage.findings;
      return r, sets, [], [];
    }
    partitions, cuts := coverage.partitions, coverage.findings;
    var scopes := set s | s in selection.sets :: s.scope;
    r := SweepPartitions(inputs, sets, coverage.partitions, coverage.findings, scopes, |selection.sets|, evaluator);
    if Green(r) {
      WholeCounts(sets, partitions);
    }
    OnlyWholeSets(render, inputs, sets, coverage.partitions, cuts, evaluator);
  }

  /** The sets were asked about as wholes iff none was cut and all partitions were asked about. */
  lemma OnlyWholeSets(render: RenderedLength, inputs: Inputs, sets: seq<ScopeSet>, partitions: seq<Partition>,
          cuts: seq<Finding>, evaluator: Evaluator)
    requires inputs.baseline.Some? && Chosen(inputs, sets) && sets != [] && AllWhole(sets)
    requires cuts == [] <==> AllFitWhole(render, sets, inputs)
    requires cuts == [] ==> WholeSets(sets, partitions)
    requires evaluator.asked <= partitions
    ensures FullyChecked(render, inputs, sets, evaluator) <==>
            && cuts == [] && evaluator.asked == partitions && !evaluator.Troubled()
            && AllMeet(evaluator.asked, evaluator.answers)
            && AllJustified(SelectedEntries(inputs, sets), evaluator.asked, evaluator.answers)
  {
    hide Chosen, AllWhole, AllFitWhole, AllMeet, AllJustified, WholeSets;
    if cuts == [] && WholeSets(sets, evaluator.asked) {
      WholeCounts(sets, partitions);
      WholeCounts(sets, evaluator.asked);
    }
  }

  /** The sweep itself, inside the lifecycle of a batch evaluator. */
  method SweepPartitions(inputs: Inputs, ghost sets: seq<ScopeSet>, partitions: seq<Partition>, cuts: seq<Finding>,
          scopes: set<string>, scopeSets: nat, evaluator: Evaluator)
    returns (r: RunResult)
    requires inputs.baseline.Some? && PartitionsUsable(partitions) && evaluator.Untouched()
    requires scopeSets == |sets| && scopes == (set s | s in sets :: s.scope)
    requires forall f :: f in cuts ==> f.severity == Error
    modifies evaluator
    ensures SweepAccounted(r, inputs, sets, partitions, cuts, evaluator)
    ensures Green(r) <==> && cuts == [] && evaluator.asked == partitions && !evaluator.Troubled()
                          && AllMeet(evaluator.asked, evaluator.answers)
                          && AllJustified(SelectedEntries(inputs, sets), evaluator.asked, evaluator.answers)
    ensures Green(r) ==> r.scopeSets == |sets| && r.partitions == r.completed == |partitions|
    ensures r.Finished? ==> r.completed <= r.partitions && (r.completed > 0 ==> r.completed <= |evaluator.asked|)
  {
    hide AllJustified, Covers, Applied, PartitionFinding, RunFinding, AllMeet, IsOutcome, AboutRun, AboutPartition,
      FoundBy,
      Blames, IncompleteMessage, SelectedEntries;
    var total := |partitions|;
    var unreachable := [RunFinding("HUB_UNREACHABLE", "", evaluator.model, inputs.conceptRoot),
                        RunFinding("INCOMPLETE_SWEEP", IncompleteMessage(0, total), evaluator.model,
                          inputs.conceptRoot)];
    assert (unreachable + cuts)[2..] == cuts;
    if evaluator.batch {
      var failure := evaluator.Enter();
      if failure.Some? {
        if failure.value.TransportFailure? {
          return Finished(unreachable + cuts, scopeSets, total, 0);
        }
        return Crashed;
      }
    }
    var sweep, policies := CollectScopeFindings(partitions, evaluator);
    if evaluator.batch {
      var failure := evaluator.Exit();
      if failure.Some? {
        if failure.value.TransportFailure? {
          return Finished(unreachable + cuts, scopeSets, total, 0);
        }
        return Crashed;
      }
    }
    match sweep
    case SweepCrashed =>
      return Crashed;
    case SweepError(code, partition, completed, model) =>
      assert partition in partitions;
      var failed := PartitionFinding(code, "", model, partition);
      var incomplete := PartitionFinding("INCOMPLETE_SWEEP", IncompleteMessage(completed, total), model, partition);
      r := Finished([failed, incomplete] + cuts, scopeSets, total, completed);
      assert r.findings[2..] == cuts && evaluator.asked[completed] == partition;
    case Complete(raw) =>
      ghost var entries := Select(inputs.baseline.value, e => ForScopes(e, scopes));
      SelectedAre(inputs, sets, scopes);
      var findings := ApplyScopeBaseline(raw, inputs.baseline.value, inputs.baselineDoc, scopes);
      JustifiedIff(raw, entries, inputs.baselineDoc, partitions, evaluator.answers);
      r := Finished(findings + cuts, scopeSets, total, total);
      GreenParts(findings, cuts);
  }

  lemma SelectedAre(inputs: Inputs, sets: seq<ScopeSet>, scopes: set<string>)
    requires inputs.baseline.Some? && scopes == (set s | s in sets :: s.scope)
    ensures Select(inputs.baseline.value, e => ForScopes(e, scopes)) == SelectedEntries(inputs, sets)
  {
    hide Select;
  }

  lemma GreenParts(findings: seq<Finding>, coverage: seq<Finding>)
    requires forall f :: f in coverage ==> f.severity == Error
    ensures Ok(findings + coverage) <==> Ok(findings) && coverage == []
  {
    assert forall f :: f in findings ==> f in findings + coverage;
    if coverage != [] {
      assert coverage[0] in coverage && coverage[0] in findings + coverage;
    }
  }

  lemma WholeCounts(sets: seq<ScopeSet>, partitions: seq<Partition>)
    requires WholeSets(sets, partitions)
    ensures |sets| == |partitions|
  {
  }
}
