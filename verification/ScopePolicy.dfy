/**
  Contradiction groups reported for one partition, turned into keyed findings.
 */
module ScopePolicy {
  import opened Options
  import opened Ordering
  import opened Baselines
  import opened SourceSpans
  import opened Texts

  datatype Assertion = Assertion(chunkId: string, doc: string, anchor: string, text: string)

  datatype Partition = Partition(scope: string, index: nat, count: nat, assertions: seq<Assertion>)

  datatype RawGroup = RawGroup(loci: seq<Reference>, explanation: string)

  /** Two or more references that contradict each other; the response model refuses fewer. */
  type Group = g: RawGroup | |g.loci| >= 2
    witness RawGroup([Reference("", "", ""), Reference("", "", "")], "")

  datatype Evaluation = Evaluation(contradictions: seq<Group>, promptVersion: string, model: string)

  function Sources(partition: Partition): (sources: seq<SourceSpanMap>)
    ensures |sources| == |partition.assertions|
    ensures forall i :: 0 <= i < |sources| ==>
            sources[i] == SpanMap(partition.assertions[i].chunkId, partition.assertions[i].text)
  {
    seq(|partition.assertions|, i requires 0 <= i < |partition.assertions| =>
      SpanMap(partition.assertions[i].chunkId, partition.assertions[i].text))
  }

  /** The last assertion with this id, as in a dictionary filled in order. */
  function Candidate(assertions: seq<Assertion>, id: string): (r: Option<Assertion>)
    ensures r.Some? ==> r.value in assertions && r.value.chunkId == id
    ensures r.None? ==> forall a :: a in assertions ==> a.chunkId != id
  {
    if assertions == [] then None
    else if assertions[|assertions| - 1].chunkId == id then Some(assertions[|assertions| - 1])
    else
      assert assertions == assertions[..|assertions| - 1] + [assertions[|assertions| - 1]];
      Candidate(assertions[..|assertions| - 1], id)
  }

  lemma {:induction false} SourceHasCandidate(assertions: seq<Assertion>, sources: seq<SourceSpanMap>, id: string)
    requires |sources| == |assertions|
    requires forall i :: 0 <= i < |sources| ==> sources[i].sourceId == assertions[i].chunkId
    ensures FindSource(sources, id).Some? <==> Candidate(assertions, id).Some?
  {
    if assertions != [] {
      SourceHasCandidate(assertions[..|assertions| - 1], sources[..|sources| - 1], id);
    }
  }

  /** By document, anchor and evidence. */
  predicate LocusLe(a: Locus, b: Locus)
  {
    TupleLe([a.doc, a.anchor, a.assertion], [b.doc, b.anchor, b.assertion])
  }

  /** The locus a valid reference stands for. */
  function LocusOf(partition: Partition, r: Reference): Locus
  {
    var candidate, evidence := Candidate(partition.assertions, r.sourceId), Resolve(r, Sources(partition));
    if candidate.None? || evidence.None? then Locus("", "", "")
    else Locus(candidate.value.doc, candidate.value.anchor, evidence.value.text)
  }

  /** The first of document, anchor and evidence in which two loci differ decides. */
  ghost predicate LocusBefore(a: Locus, b: Locus)
  {
    if a.doc != b.doc then Before(a.doc, b.doc)
    else if a.anchor != b.anchor then Before(a.anchor, b.anchor)
    else a.assertion == b.assertion || Before(a.assertion, b.assertion)
  }

  lemma TupleStep(x: string, a: seq<string>, y: string, b: seq<string>)
    ensures TupleLe([x] + a, [y] + b) <==> if x == y then TupleLe(a, b) else StringLe(x, y)
  {
    hide StringLe;
    assert ([x] + a)[1..] == a && ([y] + b)[1..] == b;
  }

  lemma NothingLe()
    ensures TupleLe([], [])
  {
  }

  /** Loci compare field by field. */
  lemma LocusOrder(l: Locus, m: Locus)
    ensures LocusLe(l, m) <==>
            if l.doc != m.doc then StringLe(l.doc, m.doc)
            else if l.anchor != m.anchor then StringLe(l.anchor, m.anchor)
            else l.assertion == m.assertion || StringLe(l.assertion, m.assertion)
    ensures LocusLe(l, m) <==> LocusBefore(l, m)
  {
    hide StringLe, LexLe, Before;
    TupleStep(l.doc, [l.anchor, l.assertion], m.doc, [m.anchor, m.assertion]);
    TupleStep(l.anchor, [l.assertion], m.anchor, [m.assertion]);
    TupleStep(l.assertion, [], m.assertion, []);
    NothingLe();
    assert [l.doc, l.anchor, l.assertion] == [l.doc] + [l.anchor, l.assertion]
      && [l.anchor, l.assertion] == [l.anchor] + [l.assertion];
    assert [m.doc, m.anchor, m.assertion] == [m.doc] + [m.anchor, m.assertion]
      && [m.anchor, m.assertion] == [m.anchor] + [m.assertion];
    assert [l.assertion] == [l.assertion] + [] && [m.assertion] == [m.assertion] + [];
    StringLeIff(l.doc, m.doc);
    StringLeIff(l.anchor, m.anchor);
    StringLeIff(l.assertion, m.assertion);
  }

  lemma LociCompare()
    ensures TotalPreorder(LocusLe)
  {
    hide TupleLe;
    TupleOrder();
    forall a: Locus, b: Locus
      ensures LocusLe(a, b) || LocusLe(b, a)
    {
    }
    forall a: Locus, b: Locus, c: Locus | LocusLe(a, b) && LocusLe(b, c)
      ensures LocusLe(a, c)
    {
    }
  }

  /**
    The loci of the references of a group, each as often as it is referred to, in ascending order:
    the first is least.
   */
  lemma GroupLociAscend(partition: Partition, group: Group)
    ensures var loci := SortedLoci(partition, group);
            && (forall i, j :: 0 <= i < j < |loci| ==> LocusBefore(loci[i], loci[j]))
            && multiset(loci)
               == multiset(seq(|group.loci|, k requires 0 <= k < |group.loci| => LocusOf(partition, group.loci[k])))
  {
    hide LocusOf, LocusBefore, LocusLe, Sorted, TotalPreorder;
    var unsorted := seq(|group.loci|, k requires 0 <= k < |group.loci| => LocusOf(partition, group.loci[k]));
    var loci := SortedLoci(partition, group);
    LociCompare();
    SortedOrdered(LocusLe, unsorted);
    forall i, j | 0 <= i < j < |loci|
      ensures LocusBefore(loci[i], loci[j])
    {
      LocusOrder(loci[i], loci[j]);
    }
  }

  function SortedLoci(partition: Partition, group: Group): (loci: seq<Locus>)
    ensures |loci| == |group.loci|
  {
    var unsorted := seq(|group.loci|, k requires 0 <= k < |group.loci| => LocusOf(partition, group.loci[k]));
    var loci := Sorted(LocusLe, unsorted);
    assert |multiset(loci)| == |multiset(unsorted)|;
    loci
  }

  /** The finding of one group: its least locus first, the others related. */
  function GroupFinding(partition: Partition, evaluation: Evaluation, group: Group): (f: Finding)
    ensures f.code == SCOPE_CONTRADICTION && f.severity == Error && f.scope == partition.scope
  {
    var loci := SortedLoci(partition, group);
    Finding(SCOPE_CONTRADICTION, loci[0].doc, loci[0].anchor, loci[0].assertion, loci[1..],
            partition.scope, evaluation.promptVersion, evaluation.model, group.explanation, None, Error, false)
  }

  /** All references of all groups meet the span contract. */
  ghost predicate MeetsContract(partition: Partition, evaluation: Evaluation)
  {
    forall g :: g in evaluation.contradictions ==> Contract(g.loci, Sources(partition), MAX_EVIDENCE_CHARS)
  }

  /** The finding is that of the last group with its key. */
  ghost predicate IsLast(f: Finding, partition: Partition, evaluation: Evaluation, groups: seq<Group>)
  {
    exists i :: 0 <= i < |groups| && f == GroupFinding(partition, evaluation, groups[i])
      && forall j :: i < j < |groups| ==> Key(GroupFinding(partition, evaluation, groups[j])) != Key(f)
  }

  /** One finding per key among the groups, that of its last group, in ascending order of key. */
  ghost predicate CoversGroups(findings: seq<Finding>, partition: Partition, evaluation: Evaluation, groups: seq<Group>)
  {
    && (forall g :: g in groups ==> Active(findings, Key(GroupFinding(partition, evaluation, g))))
    && (forall f :: f in findings ==> IsLast(f, partition, evaluation, groups))
    && (forall i, j :: 0 <= i < j < |findings| ==>
         Key(findings[i]) != Key(findings[j]) && KeyLe(findings[i], findings[j]))
  }

  lemma LastIsSome(f: Finding, partition: Partition, evaluation: Evaluation, groups: seq<Group>)
    requires IsLast(f, partition, evaluation, groups)
    ensures exists g :: g in groups && f == GroupFinding(partition, evaluation, g)
  {
    hide GroupFinding, Key;
  }

  /** The dictionary of findings after the groups dealt with so far. */
  ghost predicate Filed(byKey: map<seq<string>, Finding>, partition: Partition, evaluation: Evaluation,
          groups: seq<Group>)
  {
    && (forall g :: g in groups ==> Key(GroupFinding(partition, evaluation, g)) in byKey)
    && (forall k :: k in byKey ==> Key(byKey[k]) == k && IsLast(byKey[k], partition, evaluation, groups))
  }

  method BuildSources(partition: Partition) returns (sources: seq<SourceSpanMap>)
    ensures sources == Sources(partition)
  {
    hide SpanMap;
    sources := [];
    for i := 0 to |partition.assertions|
      invariant |sources| == i
      invariant forall k :: 0 <= k < i ==>
                sources[k] == SpanMap(partition.assertions[k].chunkId, partition.assertions[k].text)
    {
      var source := BuildSourceSpanMap(partition.assertions[i].chunkId, partition.assertions[i].text);
      sources := sources + [source];
    }
  }

  /** A resolved slice, put beside its reference and candidate, is the reference's locus. */
  lemma SliceGivesLocus(partition: Partition, r: Reference, e: Extracted)
    requires Acceptable(r, Sources(partition), MAX_EVIDENCE_CHARS) && e == Resolve(r, Sources(partition)).value
    ensures var candidate := Candidate(partition.assertions, r.sourceId);
            candidate.Some? && e.sourceId == r.sourceId
            && LocusOf(partition, r) == Locus(candidate.value.doc, candidate.value.anchor, e.text)
  {
    hide IsBlank, FindSpan;
    SourceHasCandidate(partition.assertions, Sources(partition), r.sourceId);
  }

  /** The slices of a group are put back beside their references, and these are in the same order. */
  method GroupLoci(partition: Partition, group: Group, sources: seq<SourceSpanMap>, slices: seq<Extracted>)
    returns (loci: seq<Locus>)
    requires sources == Sources(partition)
    requires ResolvedTo(slices, group.loci, sources, MAX_EVIDENCE_CHARS, |group.loci|)
    ensures loci == SortedLoci(partition, group)
  {
    hide Acceptable, Resolve, Overlap, LocusOf, Candidate, Sources, Sorted;
    var unsorted: seq<Locus> := [];
    for k := 0 to |group.loci|
      invariant |unsorted| == k && forall j :: 0 <= j < k ==> unsorted[j] == LocusOf(partition, group.loci[j])
    {
      SliceGivesLocus(partition, group.loci[k], slices[k]);
      var candidate := Candidate(partition.assertions, group.loci[k].sourceId).value;
      unsorted := unsorted + [Locus(candidate.doc, candidate.anchor, slices[k].text)];
    }
    assert unsorted == seq(|group.loci|, k requires 0 <= k < |group.loci| => LocusOf(partition, group.loci[k]));
    return Sorted(LocusLe, unsorted);
  }

  /** Fails iff some reference breaks the contract; otherwise every group is represented by its key. */
  method EvaluateScopePolicy(partition: Partition, evaluation: Evaluation) returns (r: Option<seq<Finding>>)
    ensures r.Some? <==> MeetsContract(partition, evaluation)
    ensures r.Some? ==> CoversGroups(r.value, partition, evaluation, evaluation.contradictions)
  {
    hide Contract, ResolvedTo, Ordering.Ordered, Distinct, IsLast, CoversGroups, Key, SortedLoci;
    var sources := BuildSources(partition);
    var groups := evaluation.contradictions;
    var byKey: map<seq<string>, Finding> := map[];
    for i := 0 to |groups|
      invariant Filed(byKey, partition, evaluation, groups[..i])
      invariant forall g :: g in groups[..i] ==> Contract(g.loci, sources, MAX_EVIDENCE_CHARS)
    {
      var group := groups[i];
      assert groups[..i + 1] == groups[..i] + [group];
      var extracted := ExtractSourceSpans(group.loci, sources, MAX_EVIDENCE_CHARS);
      if !extracted.Evidence? {
        assert group in groups;
        return None;
      }
      var loci := GroupLoci(partition, group, sources, extracted.slices);
      var finding := Finding(SCOPE_CONTRADICTION, loci[0].doc, loci[0].anchor, loci[0].assertion, loci[1..],
                             partition.scope, evaluation.promptVersion, evaluation.model, group.explanation,
                             None, Error, false);
      FileOne(byKey, partition, evaluation, groups[..i], group, finding);
      byKey := byKey[Key(finding) := finding];
    }
    assert groups[..|groups|] == groups;
    var findings := InKeyOrder(byKey);
    FiledCovers(byKey, partition, evaluation, groups, findings);
    return Some(findings);
  }

  lemma FileOne(byKey: map<seq<string>, Finding>, partition: Partition, evaluation: Evaluation, groups: seq<Group>,
          group: Group, finding: Finding)
    requires Filed(byKey, partition, evaluation, groups)
    requires finding == GroupFinding(partition, evaluation, group)
    ensures Filed(byKey[Key(finding) := finding], partition, evaluation, groups + [group])
  {
    hide GroupFinding, Key, IsLast;
    var after := byKey[Key(finding) := finding];
    NewIsLast(partition, evaluation, groups, group);
    forall k | k in after
      ensures Key(after[k]) == k && IsLast(after[k], partition, evaluation, groups + [group])
    {
      if k != Key(finding) {
        OtherStaysLast(byKey[k], partition, evaluation, groups, group);
      }
    }
  }

  lemma NewIsLast(partition: Partition, evaluation: Evaluation, groups: seq<Group>, group: Group)
    ensures IsLast(GroupFinding(partition, evaluation, group), partition, evaluation, groups + [group])
  {
    hide GroupFinding, Key;
    assert (groups + [group])[|groups|] == group;
  }

  lemma OtherStaysLast(f: Finding, partition: Partition, evaluation: Evaluation, groups: seq<Group>, group: Group)
    requires IsLast(f, partition, evaluation, groups) && Key(f) != Key(GroupFinding(partition, evaluation, group))
    ensures IsLast(f, partition, evaluation, groups + [group])
  {
    hide GroupFinding, Key;
    var more := groups + [group];
    var i :| 0 <= i < |groups| && f == GroupFinding(partition, evaluation, groups[i])
      && forall j :: i < j < |groups| ==> Key(GroupFinding(partition, evaluation, groups[j])) != Key(f);
    assert more[i] == groups[i];
    forall j | i < j < |more|
      ensures Key(GroupFinding(partition, evaluation, more[j])) != Key(f)
    {
      if j < |groups| {
        assert more[j] == groups[j];
      }
    }
  }

  /** The values of the dictionary in ascending order of their keys. */
  method InKeyOrder(byKey: map<seq<string>, Finding>) returns (findings: seq<Finding>)
    requires forall k :: k in byKey ==> Key(byKey[k]) == k
    ensures forall f :: f in findings <==> f in byKey.Values
    ensures forall i, j :: 0 <= i < j < |findings| ==>
            Key(findings[i]) != Key(findings[j]) && KeyLe(findings[i], findings[j])
  {
    hide Key, TupleLe;
    TupleOrder();
    var keys := SortedSet(TupleLe, byKey.Keys);
    findings := [];
    for i := 0 to |keys|
      invariant |findings| == i && forall j :: 0 <= j < i ==> keys[j] in byKey && findings[j] == byKey[keys[j]]
    {
      assert keys[i] in byKey.Keys;
      findings := findings + [byKey[keys[i]]];
    }
    forall f | f in byKey.Values
      ensures f in findings
    {
      var k :| k in byKey && byKey[k] == f;
      assert k in byKey.Keys;
      assert k in keys;
      var i :| 0 <= i < |keys| && keys[i] == k;
      assert findings[i] == f;
    }
  }

  lemma FiledCovers(byKey: map<seq<string>, Finding>, partition: Partition, evaluation: Evaluation, groups: seq<Group>,
          findings: seq<Finding>)
    requires Filed(byKey, partition, evaluation, groups)
    requires forall f :: f in findings <==> f in byKey.Values
    requires forall i, j :: 0 <= i < j < |findings| ==>
             Key(findings[i]) != Key(findings[j]) && KeyLe(findings[i], findings[j])
    ensures CoversGroups(findings, partition, evaluation, groups)
  {
    hide GroupFinding, Key, IsLast, KeyLe;
    forall g | g in groups
      ensures Active(findings, Key(GroupFinding(partition, evaluation, g)))
    {
      var k := Key(GroupFinding(partition, evaluation, g));
      assert byKey[k] in byKey.Values;
    }
  }
}
