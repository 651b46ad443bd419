/**
  Which contradictions survive being filed under their keys: all of them iff no field of a
  chunk can hold a separator of the encoding.
 */
module ContradictionKeys {
  import opened Baselines
  import opened Options
  import opened Ordering
  import opened ScopePolicy
  import opened SourceSpans
  import opened Texts

  ghost predicate PartitionOver(allowed: char -> bool, partition: Partition)
  {
    forall a :: a in partition.assertions ==>
      FieldOver(allowed, a.doc) && FieldOver(allowed, a.anchor) && FieldOver(allowed, a.text)
  }

  /** Every group that was reported has a finding with its loci. */
  ghost predicate NoneLost(partition: Partition, evaluation: Evaluation, findings: seq<Finding>)
  {
    forall g :: g in evaluation.contradictions ==>
      exists f :: f in findings && LociOf(f) == SortedLoci(partition, g)
  }

  /** Whatever is reported about chunks over the alphabet, no group is lost. */
  ghost predicate NeverLoses(allowed: char -> bool)
  {
    forall partition: Partition, evaluation: Evaluation, findings: seq<Finding> ::
      && PartitionOver(allowed, partition) && MeetsContract(partition, evaluation)
      && CoversGroups(findings, partition, evaluation, evaluation.contradictions)
      ==> NoneLost(partition, evaluation, findings)
  }

  /** Over an alphabet with a visible character, no contradiction is ever lost iff neither separator belongs to it. */
  lemma NeverLosesIff(allowed: char -> bool, x: char)
    requires allowed(x) && !IsSpace(x)
    ensures NeverLoses(allowed) <==> !allowed(GROUP_SEPARATOR) && !allowed(RECORD_SEPARATOR)
  {
    hide PartitionOver, MeetsContract, CoversGroups, NoneLost, LociOver, EncodeLoci, IsSpace, ReadsAsNextGroup,
      ReadsAsNextField;
    if !allowed(GROUP_SEPARATOR) && !allowed(RECORD_SEPARATOR) {
      forall partition: Partition, evaluation: Evaluation, findings: seq<Finding>
        | && PartitionOver(allowed, partition)
          && CoversGroups(findings, partition, evaluation, evaluation.contradictions)
        ensures NoneLost(partition, evaluation, findings)
      {
        NoneLostWithoutSeparators(allowed, partition, evaluation, findings);
      }
    } else {
      var a, b := TwoAlike(allowed, x);
      AlikeInOrder(x);
      AlikeQuotable(allowed, x);
      var partition, evaluation, findings := AlikeLosesOne(allowed, a, b);
    }
  }

  // ---------------------------------------------------------------------------
  // Without separators
  // ---------------------------------------------------------------------------

  ghost predicate PlainLocus(l: Locus)
  {
    IsPlain(l.doc) && IsPlain(l.anchor) && IsPlain(l.assertion)
  }

  lemma {:induction false} CandidateIsOne(assertions: seq<Assertion>, id: string)
    ensures Candidate(assertions, id).Some? ==> Candidate(assertions, id).value in assertions
  {
    if assertions != [] && assertions[|assertions| - 1].chunkId != id {
      CandidateIsOne(assertions[..|assertions| - 1], id);
    }
  }

  lemma SliceIsPlain(text: string, start: nat, end: nat)
    requires IsPlain(text)
    ensures IsPlain(Slice(text, start, end))
  {
  }

  lemma ResolvedFromText(partition: Partition, r: Reference)
    requires Resolve(r, Sources(partition)).Some?
    ensures exists a, start: nat, end: nat ::
            a in partition.assertions && Resolve(r, Sources(partition)).value.text == Slice(a.text, start, end)
  {
    hide Slice, Lines, FindSpan;
    var m := FindSource(Sources(partition), r.sourceId).value;
    var i :| 0 <= i < |partition.assertions| && Sources(partition)[i] == m;
    assert partition.assertions[i] in partition.assertions && m.text == partition.assertions[i].text;
  }

  lemma LocusIsPlain(partition: Partition, r: Reference)
    requires forall a :: a in partition.assertions ==> IsPlain(a.doc) && IsPlain(a.anchor) && IsPlain(a.text)
    ensures PlainLocus(LocusOf(partition, r))
  {
    hide Resolve, Slice, Sources;
    CandidateIsOne(partition.assertions, r.sourceId);
    if Resolve(r, Sources(partition)).Some? {
      ResolvedFromText(partition, r);
      var a, start: nat, end: nat :|
        a in partition.assertions && Resolve(r, Sources(partition)).value.text == Slice(a.text, start, end);
      SliceIsPlain(a.text, start, end);
    }
  }

  lemma SortedLociPlain(partition: Partition, group: Group)
    requires forall a :: a in partition.assertions ==> IsPlain(a.doc) && IsPlain(a.anchor) && IsPlain(a.text)
    ensures PlainLoci(SortedLoci(partition, group))
  {
    hide LocusOf, IsPlain;
    var unsorted := seq(|group.loci|, k requires 0 <= k < |group.loci| => LocusOf(partition, group.loci[k]));
    SameElements(unsorted, Sorted(LocusLe, unsorted));
    forall l | l in SortedLoci(partition, group)
      ensures PlainLocus(l)
    {
      var k :| 0 <= k < |unsorted| && unsorted[k] == l;
      LocusIsPlain(partition, group.loci[k]);
    }
  }

  lemma LociOfGroup(partition: Partition, evaluation: Evaluation, group: Group)
    ensures LociOf(GroupFinding(partition, evaluation, group)) == SortedLoci(partition, group)
  {
    hide SortedLoci;
  }

  lemma OverIsPlainText(allowed: char -> bool, partition: Partition)
    requires PartitionOver(allowed, partition) && !allowed(GROUP_SEPARATOR) && !allowed(RECORD_SEPARATOR)
    ensures forall a :: a in partition.assertions ==> IsPlain(a.doc) && IsPlain(a.anchor) && IsPlain(a.text)
  {
    hide IsBlank;
  }

  lemma GroupFindingPlain(partition: Partition, evaluation: Evaluation, group: Group)
    requires forall a :: a in partition.assertions ==> IsPlain(a.doc) && IsPlain(a.anchor) && IsPlain(a.text)
    ensures PlainLoci(GroupFinding(partition, evaluation, group).related)
  {
    hide SortedLoci, IsPlain;
    SortedLociPlain(partition, group);
    var f := GroupFinding(partition, evaluation, group);
    LociOfGroup(partition, evaluation, group);
    assert forall l :: l in f.related ==> l in LociOf(f);
  }

  lemma NoneLostWithoutSeparators(allowed: char -> bool, partition: Partition, evaluation: Evaluation,
          findings: seq<Finding>)
    requires PartitionOver(allowed, partition) && !allowed(GROUP_SEPARATOR) && !allowed(RECORD_SEPARATOR)
    requires CoversGroups(findings, partition, evaluation, evaluation.contradictions)
    ensures NoneLost(partition, evaluation, findings)
  {
    hide GroupFinding, Key, KeyLe, SortedLoci, PlainLoci, IsPlain, IsLast;
    OverIsPlainText(allowed, partition);
    forall g | g in evaluation.contradictions
      ensures exists f :: f in findings && LociOf(f) == SortedLoci(partition, g)
    {
      var own := GroupFinding(partition, evaluation, g);
      var f :| f in findings && Key(f) == Key(own);
      LastIsSome(f, partition, evaluation, evaluation.contradictions);
      var h :| h in evaluation.contradictions && f == GroupFinding(partition, evaluation, h);
      GroupFindingPlain(partition, evaluation, g);
      GroupFindingPlain(partition, evaluation, h);
      PlainKeysTell(f, own);
      LociOfGroup(partition, evaluation, g);
    }
  }

  // ---------------------------------------------------------------------------
  // Any two lists of loci can be reported together
  // ---------------------------------------------------------------------------

  /** One chunk for each locus, with its own id. */
  function ChunksFor(loci: seq<Locus>): (r: seq<Assertion>)
    ensures |r| == |loci|
    ensures forall k :: 0 <= k < |r| ==> r[k] == Assertion(SpanId(k), loci[k].doc, loci[k].anchor, loci[k].assertion)
  {
    seq(|loci|, k requires 0 <= k < |loci| => Assertion(SpanId(k), loci[k].doc, loci[k].anchor, loci[k].assertion))
  }

  /** The reference to a chunk from its first line to its last. */
  function WholeChunk(a: Assertion): Reference
  {
    Reference(a.chunkId, SpanId(0), SpanId(|Lines(a.text)| - 1))
  }

  function WholeChunks(assertions: seq<Assertion>): (r: seq<Reference>)
    ensures |r| == |assertions| && forall k :: 0 <= k < |r| ==> r[k] == WholeChunk(assertions[k])
  {
    seq(|assertions|, k requires 0 <= k < |assertions| => WholeChunk(assertions[k]))
  }

  ghost predicate UniqueChunks(assertions: seq<Assertion>)
  {
    forall i, j :: 0 <= i < j < |assertions| ==> assertions[i].chunkId != assertions[j].chunkId
  }

  lemma {:induction false} CandidateFound(assertions: seq<Assertion>, k: nat)
    requires UniqueChunks(assertions) && k < |assertions|
    ensures Candidate(assertions, assertions[k].chunkId) == Some(assertions[k])
  {
    if k < |assertions| - 1 {
      CandidateFound(assertions[..|assertions| - 1], k);
    }
  }

  lemma SpanFound(m: SourceSpanMap, k: nat)
    requires Tiles(m) && k < |m.spans|
    ensures FindSpan(m.spans, SpanId(k)) == Some(k)
  {
    hide SpanId, FindSpan;
    var found := FindSpan(m.spans, SpanId(k));
    assert m.spans[k].spanId == SpanId(k);
    SpanIdsDistinct(found.value, k);
  }

  lemma SourceFound(partition: Partition, k: nat)
    requires UniqueChunks(partition.assertions) && k < |partition.assertions|
    ensures FindSource(Sources(partition), partition.assertions[k].chunkId) == Some(Sources(partition)[k])
  {
    hide FindSource, Lines;
    var id := partition.assertions[k].chunkId;
    var found := FindSource(Sources(partition), id);
    assert Sources(partition)[k] in Sources(partition) && Sources(partition)[k].sourceId == id;
    var i :| 0 <= i < |partition.assertions| && Sources(partition)[i] == found.value;
    assert partition.assertions[i].chunkId == id;
  }

  /** The whole of a chunk is resolved to its text. */
  lemma WholeResolves(partition: Partition, k: nat)
    requires UniqueChunks(partition.assertions) && k < |partition.assertions|
    ensures var a := partition.assertions[k];
            Resolve(WholeChunk(a), Sources(partition)) == Some(Extracted(a.chunkId, 0, |a.text|, a.text))
  {
    hide SpanId, FindSpan, FindSource, Lines, Tiles;
    var a := partition.assertions[k];
    var m := SpanMap(a.chunkId, a.text);
    SourceFound(partition, k);
    SpanMapTiles(a.chunkId, a.text);
    TileEnds(m);
    SpanFound(m, 0);
    SpanFound(m, |m.spans| - 1);
    assert a.text[0..|a.text|] == a.text;
  }

  lemma TileEnds(m: SourceSpanMap)
    requires Tiles(m)
    ensures m.spans != [] && m.spans[0].start == 0 && m.spans[|m.spans| - 1].end == |m.text|
  {
  }

  lemma WholeLocus(partition: Partition, k: nat)
    requires UniqueChunks(partition.assertions) && k < |partition.assertions|
    ensures var a := partition.assertions[k];
            LocusOf(partition, WholeChunk(a)) == Locus(a.doc, a.anchor, a.text)
  {
    hide Resolve, Sources, Candidate;
    WholeResolves(partition, k);
    CandidateFound(partition.assertions, k);
  }

  /** References to whole chunks, each to another one, meet the contract. */
  lemma WholeContract(partition: Partition, from: nat, to: nat)
    requires UniqueChunks(partition.assertions) && from <= to <= |partition.assertions|
    requires forall a :: a in partition.assertions ==> !IsBlank(a.text) && |a.text| <= MAX_EVIDENCE_CHARS
    ensures Contract(WholeChunks(partition.assertions[from..to]), Sources(partition), MAX_EVIDENCE_CHARS)
  {
    hide Resolve, IsBlank, WholeChunk, Lines;
    var assertions := partition.assertions;
    var refs := WholeChunks(assertions[from..to]);
    forall i | 0 <= i < |refs|
      ensures Acceptable(refs[i], Sources(partition), MAX_EVIDENCE_CHARS)
      ensures Resolve(refs[i], Sources(partition)).value.sourceId == assertions[from + i].chunkId
    {
      assert refs[i] == WholeChunk(assertions[from + i]) && assertions[from + i] in assertions;
      WholeResolves(partition, from + i);
    }
    forall i, j | 0 <= i < j < |refs|
      ensures !Collide(refs[i], refs[j], Sources(partition))
    {
      assert assertions[from + i].chunkId != assertions[from + j].chunkId;
    }
  }

  /** In order, the loci of such references are those the chunks were made for. */
  lemma WholeLoci(partition: Partition, loci: seq<Locus>, from: nat, to: nat, group: Group)
    requires partition.assertions == ChunksFor(loci) && from <= to <= |loci|
    requires group.loci == WholeChunks(partition.assertions[from..to]) && Ordered(LocusLe, loci[from..to])
    ensures SortedLoci(partition, group) == loci[from..to]
  {
    hide LocusOf, WholeChunk, SpanId, Ordered, LocusLe;
    DistinctChunks(loci);
    var unsorted := seq(|group.loci|, k requires 0 <= k < |group.loci| => LocusOf(partition, group.loci[k]));
    forall k | 0 <= k < |unsorted|
      ensures unsorted[k] == loci[from..to][k]
    {
      WholeLocus(partition, from + k);
    }
    assert unsorted == loci[from..to];
    SortedAlready(LocusLe, unsorted);
  }

  lemma DistinctChunks(loci: seq<Locus>)
    ensures UniqueChunks(ChunksFor(loci))
  {
    hide SpanId;
    forall i, j | 0 <= i < j < |loci|
      ensures ChunksFor(loci)[i].chunkId != ChunksFor(loci)[j].chunkId
    {
      SpanIdsDistinct(i, j);
    }
  }

  /** Loci that evidence may have. */
  ghost predicate Quotable(loci: seq<Locus>)
  {
    forall l :: l in loci ==> !IsBlank(l.assertion) && |l.assertion| <= MAX_EVIDENCE_CHARS
  }

  /**
    Two different lists of loci in order, with the same primary locus, whose encodings are the
    same: both can be reported for one partition, and then the first is lost.
   */
  lemma AlikeLosesOne(allowed: char -> bool, a: seq<Locus>, b: seq<Locus>)
    returns (partition: Partition, evaluation: Evaluation, findings: seq<Finding>)
    requires |a| >= 2 && |b| >= 2 && a != b && a[0] == b[0] && EncodeLoci(a[1..]) == EncodeLoci(b[1..])
    requires Ordered(LocusLe, a) && Ordered(LocusLe, b) && Quotable(a) && Quotable(b)
    requires LociOver(allowed, a) && LociOver(allowed, b)
    ensures PartitionOver(allowed, partition) && MeetsContract(partition, evaluation)
    ensures CoversGroups(findings, partition, evaluation, evaluation.contradictions)
    ensures !NoneLost(partition, evaluation, findings)
  {
    hide EncodeLoci, LocusLe, Ordered, Contract, LociOver, WholeChunks, ChunksFor, SortedLoci, Quotable, GroupFinding,
      SpanId, UniqueChunks;
    hide CoversGroups, NoneLost, PartitionOver, MeetsContract;
    var loci := a + b;
    var assertions := ChunksFor(loci);
    partition := Partition("scope", 1, 1, assertions);
    assert loci[0..|a|] == a && loci[|a|..|loci|] == b;
    var one: Group := RawGroup(WholeChunks(assertions[0..|a|]), "first");
    var two: Group := RawGroup(WholeChunks(assertions[|a|..|loci|]), "second");
    evaluation := Evaluation([one, two], "prompt", "model");
    DistinctChunks(loci);
    ChunksMeet(partition, a, b);
    WholeContract(partition, 0, |a|);
    WholeContract(partition, |a|, |loci|);
    BothMeet(partition, evaluation, one, two);
    WholeLoci(partition, loci, 0, |a|, one);
    WholeLoci(partition, loci, |a|, |loci|, two);
    findings := [GroupFinding(partition, evaluation, two)];
    SecondOnly(partition, evaluation, one, two);
    ChunksOver(allowed, partition, a, b);
  }

  lemma BothMeet(partition: Partition, evaluation: Evaluation, one: Group, two: Group)
    requires evaluation.contradictions == [one, two]
    requires Contract(one.loci, Sources(partition), MAX_EVIDENCE_CHARS)
             && Contract(two.loci, Sources(partition), MAX_EVIDENCE_CHARS)
    ensures MeetsContract(partition, evaluation)
  {
    hide Contract, Sources;
  }

  lemma ChunksMeet(partition: Partition, a: seq<Locus>, b: seq<Locus>)
    requires partition.assertions == ChunksFor(a + b) && Quotable(a) && Quotable(b)
    ensures forall c :: c in partition.assertions ==> !IsBlank(c.text) && |c.text| <= MAX_EVIDENCE_CHARS
  {
    hide IsBlank, SpanId;
    forall c | c in partition.assertions
      ensures !IsBlank(c.text) && |c.text| <= MAX_EVIDENCE_CHARS
    {
      var k :| 0 <= k < |a + b| && partition.assertions[k] == c;
      assert (a + b)[k] in a || (a + b)[k] in b;
    }
  }

  lemma ChunksOver(allowed: char -> bool, partition: Partition, a: seq<Locus>, b: seq<Locus>)
    requires partition.assertions == ChunksFor(a + b) && LociOver(allowed, a) && LociOver(allowed, b)
    ensures PartitionOver(allowed, partition)
  {
    hide FieldOver, SpanId;
    forall c | c in partition.assertions
      ensures FieldOver(allowed, c.doc) && FieldOver(allowed, c.anchor) && FieldOver(allowed, c.text)
    {
      var k :| 0 <= k < |a + b| && partition.assertions[k] == c;
      assert (a + b)[k] in a || (a + b)[k] in b;
    }
  }

  /** Of two groups with different loci and one key, only the second is represented. */
  lemma SecondOnly(partition: Partition, evaluation: Evaluation, one: Group, two: Group)
    requires evaluation.contradictions == [one, two]
    requires var a, b := SortedLoci(partition, one), SortedLoci(partition, two);
             a != b && a[0] == b[0] && EncodeLoci(a[1..]) == EncodeLoci(b[1..])
    ensures CoversGroups([GroupFinding(partition, evaluation, two)], partition, evaluation, evaluation.contradictions)
    ensures !NoneLost(partition, evaluation, [GroupFinding(partition, evaluation, two)])
  {
    hide SortedLoci, EncodeLoci, KeyLe;
    var f, g := GroupFinding(partition, evaluation, two), GroupFinding(partition, evaluation, one);
    assert Key(f) == Key(g);
    assert [one, two][1] == two;
    assert IsLast(f, partition, evaluation, [one, two]);
    LociOfGroup(partition, evaluation, two);
    assert one in evaluation.contradictions;
  }

  lemma PrefixLe(x: char, rest: string)
    ensures StringLe([x], [x] + rest)
  {
    assert [x][1..] == [];
  }

  /** The lists that encode alike are in order. */
  lemma AlikeInOrder(x: char)
    ensures var (a, b) := ReadsAsNextGroup(x); Ordered(LocusLe, a) && Ordered(LocusLe, b)
    ensures var (a, b) := ReadsAsNextField(x); Ordered(LocusLe, a) && Ordered(LocusLe, b)
  {
    hide StringLe, LocusLe;
    PrefixLe(x, [x]);
    PrefixLe(x, [GROUP_SEPARATOR, x]);
    PrefixLe(x, [GROUP_SEPARATOR, x, x]);
    PrefixLe(x, [RECORD_SEPARATOR, x]);
    assert [x] + [x] == [x, x] && [x] + [GROUP_SEPARATOR, x] == [x, GROUP_SEPARATOR, x];
    assert [x] + [GROUP_SEPARATOR, x, x] == [x, GROUP_SEPARATOR, x, x]
      && [x] + [RECORD_SEPARATOR, x] == [x, RECORD_SEPARATOR, x];
    GroupsInOrder(x);
    FieldsInOrder(x);
  }

  lemma GroupsInOrder(x: char)
    requires StringLe([x], [x, x]) && StringLe([x], [x, GROUP_SEPARATOR, x])
             && StringLe([x], [x, GROUP_SEPARATOR, x, x])
    ensures var (a, b) := ReadsAsNextGroup(x); Ordered(LocusLe, a) && Ordered(LocusLe, b)
  {
    hide StringLe, LocusLe;
    var (a, b) := ReadsAsNextGroup(x);
    LocusOrder(a[0], a[1]);
    LocusOrder(a[0], a[2]);
    LocusOrder(a[1], a[2]);
    LocusOrder(b[0], b[1]);
    LocusOrder(b[0], b[2]);
  }

  lemma FieldsInOrder(x: char)
    requires StringLe([x], [x, RECORD_SEPARATOR, x])
    ensures var (a, b) := ReadsAsNextField(x); Ordered(LocusLe, a) && Ordered(LocusLe, b)
  {
    hide StringLe, LocusLe;
    var (a, b) := ReadsAsNextField(x);
    LocusOrder(a[0], a[1]);
    LocusOrder(b[0], b[1]);
  }

  lemma AlikeQuotable(allowed: char -> bool, x: char)
    ensures var (a, b) := ReadsAsNextGroup(x);
            LociOver(allowed, a) && LociOver(allowed, b) ==> Quotable(a) && Quotable(b)
    ensures var (a, b) := ReadsAsNextField(x);
            LociOver(allowed, a) && LociOver(allowed, b) ==> Quotable(a) && Quotable(b)
  {
    hide IsBlank;
  }
}
