/**
  Closed assertion sets per scope, and their partitioning under a limit on the rendered
  prompt.  How long a prompt renders is an arbitrary function of the partition.
 */
module ScopeSets {
  import opened Options
  import opened Ordering
  import opened ScopePolicy

  const DEFAULT_PARTITION_MAX_CHARS: int := 30000

  /** The scopes are absent when the chunk's authorization metadata is malformed. */
  datatype Chunk = Chunk(chunkId: string, relPath: string, anchor: string, content: string, ordering: int,
    scopes: Option<set<string>>)

  datatype ScopeSet = ScopeSet(scope: string, assertions: seq<Assertion>)

  type RenderedLength = (string, nat, nat, seq<Assertion>) -> nat

  // ---------------------------------------------------------------------------
  // Partitioning
  // ---------------------------------------------------------------------------

  function Flatten(groups: seq<seq<Assertion>>): seq<Assertion>
  {
    if groups == [] then [] else Flatten(groups[..|groups| - 1]) + groups[|groups| - 1]
  }

  lemma FlattenSnoc(groups: seq<seq<Assertion>>, g: seq<Assertion>)
    ensures Flatten(groups + [g]) == Flatten(groups) + g
  {
    assert (groups + [g])[..|groups|] == groups;
  }

  lemma {:induction false} FlattenAppend(a: seq<seq<Assertion>>, b: seq<seq<Assertion>>)
    ensures Flatten(a + b) == Flatten(a) + Flatten(b)
  {
    hide Flatten;
    if b == [] {
      assert a + b == a;
      FlattenNone();
    } else {
      var front, last := b[..|b| - 1], b[|b| - 1];
      FlattenAppend(a, front);
      FlattenSnoc(a + front, last);
      FlattenSnoc(front, last);
      assert b == front + [last] && a + b == a + front + [last];
    }
  }

  lemma FlattenNone()
    ensures Flatten([]) == []
  {
  }

  lemma FlattenOne(g: seq<Assertion>)
    ensures Flatten([g]) == g
  {
    FlattenSnoc([], g);
    assert [] + [g] == [g];
  }

  ghost predicate NoneEmpty(groups: seq<seq<Assertion>>)
  {
    forall g :: g in groups ==> g != []
  }

  ghost predicate NoneLonger(groups: seq<seq<Assertion>>, maxChunks: int)
  {
    forall g :: g in groups ==> |g| <= maxChunks
  }

  /** There are no more non-empty groups than elements. */
  lemma {:induction false} GroupsAtMostElements(groups: seq<seq<Assertion>>)
    requires NoneEmpty(groups)
    ensures |groups| <= |Flatten(groups)|
  {
    if groups != [] {
      var front := groups[..|groups| - 1];
      assert groups[|groups| - 1] in groups;
      assert forall i :: 0 <= i < |front| ==> front[i] == groups[i] && groups[i] in groups;
      GroupsAtMostElements(front);
    }
  }

  /** Consecutive slices of at most `maxChunks` assertions. */
  function PartitionAssertions(assertions: seq<Assertion>, maxChunks: int): (groups: seq<seq<Assertion>>)
    requires maxChunks >= 1
    decreases |assertions|
  {
    if |assertions| == 0 then []
    else if |assertions| <= maxChunks then [assertions]
    else [assertions[..maxChunks]] + PartitionAssertions(assertions[maxChunks..], maxChunks)
  }

  /** Every slice but the last has as many assertions as allowed. */
  ghost predicate FullButLast(groups: seq<seq<Assertion>>, maxChunks: int)
  {
    forall i :: 0 <= i < |groups| - 1 ==> |groups[i]| == maxChunks
  }

  lemma {:induction false} PartitionKeepsAll(assertions: seq<Assertion>, maxChunks: int)
    requires maxChunks >= 1
    ensures var groups := PartitionAssertions(assertions, maxChunks);
            Flatten(groups) == assertions && NoneEmpty(groups) && NoneLonger(groups, maxChunks)
            && FullButLast(groups, maxChunks)
    decreases |assertions|
  {
    hide Flatten;
    FlattenNone();
    if 0 < |assertions| <= maxChunks {
      FlattenOne(assertions);
    } else if |assertions| > maxChunks {
      var first, rest := assertions[..maxChunks], PartitionAssertions(assertions[maxChunks..], maxChunks);
      PartitionKeepsAll(assertions[maxChunks..], maxChunks);
      FlattenAppend([first], rest);
      FlattenOne(first);
      assert assertions == first + assertions[maxChunks..];
    }
  }

  /** The prompt of each group, rendered with its final index and the final count, fits. */
  ghost predicate AllFit(render: RenderedLength, scope: string, groups: seq<seq<Assertion>>, maxChars: int)
  {
    forall i :: 0 <= i < |groups| ==> render(scope, i + 1, |groups|, groups[i]) <= maxChars
  }

  /** What one round makes of the first `n` groups: a group whose prompt is too long falls into its halves. */
  ghost function Halved(render: RenderedLength, scope: string, groups: seq<seq<Assertion>>, maxChars: int, n: nat):
          seq<seq<Assertion>>
    requires n <= |groups|
  {
    if n == 0 then []
    else
      var g := groups[n - 1];
      var half := (|g| + 1) / 2;
      Halved(render, scope, groups, maxChars, n - 1)
      + if render(scope, n, |groups|, g) <= maxChars then [g] else [g[..half], g[half..]]
  }

  /** A round in which some prompt did not fit. */
  ghost predicate IsRound(render: RenderedLength, scope: string, maxChars: int, before: seq<seq<Assertion>>,
          after: seq<seq<Assertion>>)
  {
    !AllFit(render, scope, before, maxChars) && after == Halved(render, scope, before, maxChars, |before|)
  }

  /** The rounds from the first groups to the last: each follows a round in which some prompt did not fit. */
  ghost predicate AreRounds(render: RenderedLength, scope: string, maxChars: int, rounds: seq<seq<seq<Assertion>>>)
  {
    && rounds != []
    && forall i, j :: 0 <= i && j == i + 1 && j < |rounds| ==>
         IsRound(render, scope, maxChars, rounds[i], rounds[j])
  }

  /** Nothing is cut that fits: `groups` come from `initial` by halving, round by round, what is too long. */
  ghost predicate ByHalving(render: RenderedLength, scope: string, maxChars: int, initial: seq<seq<Assertion>>,
          groups: seq<seq<Assertion>>)
  {
    exists rounds :: AreRounds(render, scope, maxChars, rounds) && rounds[0] == initial
                     && rounds[|rounds| - 1] == groups
  }

  lemma NoRoundYet(render: RenderedLength, scope: string, maxChars: int, initial: seq<seq<Assertion>>)
    ensures ByHalving(render, scope, maxChars, initial, initial)
  {
    hide IsRound;
    assert AreRounds(render, scope, maxChars, [initial]);
  }

  lemma OneMoreRound(render: RenderedLength, scope: string, maxChars: int, initial: seq<seq<Assertion>>,
          groups: seq<seq<Assertion>>, revised: seq<seq<Assertion>>)
    requires ByHalving(render, scope, maxChars, initial, groups)
    requires IsRound(render, scope, maxChars, groups, revised)
    ensures ByHalving(render, scope, maxChars, initial, revised)
  {
    hide IsRound;
    var rounds :| AreRounds(render, scope, maxChars, rounds) && rounds[0] == initial
      && rounds[|rounds| - 1] == groups;
    var more := rounds + [revised];
    forall i, j | 0 <= i && j == i + 1 && j < |more|
      ensures IsRound(render, scope, maxChars, more[i], more[j])
    {
      assert more[i] == rounds[i];
      assert j < |rounds| ==> more[j] == rounds[j];
    }
    assert AreRounds(render, scope, maxChars, more) && more[0] == initial && more[|more| - 1] == revised;
  }

  lemma NoneHalved(render: RenderedLength, scope: string, groups: seq<seq<Assertion>>, maxChars: int)
    ensures Halved(render, scope, groups, maxChars, 0) == []
  {
  }

  lemma HalvedMore(render: RenderedLength, scope: string, groups: seq<seq<Assertion>>, maxChars: int, n: nat)
    requires n < |groups|
    ensures var g := groups[n];
            var half := (|g| + 1) / 2;
            Halved(render, scope, groups, maxChars, n + 1)
            == Halved(render, scope, groups, maxChars, n)
               + if render(scope, n + 1, |groups|, g) <= maxChars then [g] else [g[..half], g[half..]]
  {
  }

  datatype Fitting = Fits(groups: seq<seq<Assertion>>) | SourceTooLong(assertion: Assertion, length: nat)

  /** One round over the groups so far: what the revised list keeps. */
  ghost predicate Revising(render: RenderedLength, scope: string, groups: seq<seq<Assertion>>, maxChars: int, n: nat,
          revised: seq<seq<Assertion>>, changed: bool)
  {
    && n <= |groups| && Flatten(revised) == Flatten(groups[..n]) && NoneEmpty(revised)
    && (!changed ==> revised == groups[..n]
                     && forall i :: 0 <= i < n ==> render(scope, i + 1, |groups|, groups[i]) <= maxChars)
    && (changed ==> |revised| > n)
    && (forall g :: g in revised ==> exists h :: h in groups && |g| <= |h|)
  }

  lemma ReviseKeep(render: RenderedLength, scope: string, groups: seq<seq<Assertion>>, maxChars: int, n: nat,
          revised: seq<seq<Assertion>>, changed: bool)
    requires Revising(render, scope, groups, maxChars, n, revised, changed) && n < |groups| && groups[n] != []
    requires render(scope, n + 1, |groups|, groups[n]) <= maxChars
    ensures Revising(render, scope, groups, maxChars, n + 1, revised + [groups[n]], changed)
  {
    hide Flatten;
    assert groups[..n + 1] == groups[..n] + [groups[n]];
    FlattenSnoc(groups[..n], groups[n]);
    FlattenSnoc(revised, groups[n]);
    forall g | g in revised + [groups[n]]
      ensures g != [] && exists h :: h in groups && |g| <= |h|
    {
      if g !in revised {
        assert g == groups[n] && g in groups;
      }
    }
  }

  lemma HalvesFlatten(revised: seq<seq<Assertion>>, g: seq<Assertion>, midpoint: nat)
    requires 0 < midpoint < |g|
    ensures Flatten(revised + [g[..midpoint], g[midpoint..]]) == Flatten(revised) + g
  {
    hide Flatten;
    var a, b := g[..midpoint], g[midpoint..];
    FlattenSnoc(revised, a);
    FlattenSnoc(revised + [a], b);
    assert revised + [a, b] == revised + [a] + [b];
    assert g == a + b;
    JoinsAssociate(Flatten(revised), a, b);
  }

  lemma JoinsAssociate<T>(a: seq<T>, b: seq<T>, c: seq<T>)
    ensures a + b + c == a + (b + c)
  {
  }

  lemma ReviseSplit(render: RenderedLength, scope: string, groups: seq<seq<Assertion>>, maxChars: int, n: nat,
          revised: seq<seq<Assertion>>, changed: bool, midpoint: nat)
    requires Revising(render, scope, groups, maxChars, n, revised, changed) && n < |groups|
    requires 0 < midpoint < |groups[n]|
    ensures Revising(render, scope, groups, maxChars, n + 1, revised + [groups[n][..midpoint], groups[n][midpoint..]],
            true)
  {
    hide Flatten;
    var g := groups[n];
    var halves := [g[..midpoint], g[midpoint..]];
    assert groups[..n + 1] == groups[..n] + [g];
    FlattenSnoc(groups[..n], g);
    HalvesFlatten(revised, g, midpoint);
    assert !changed ==> |revised| == n;
    forall h | h in revised + halves
      ensures h != [] && exists k :: k in groups && |h| <= |k|
    {
      if h in halves {
        assert g in groups && |h| <= |g|;
      }
    }
  }

  lemma ReviseBegins(render: RenderedLength, scope: string, groups: seq<seq<Assertion>>, maxChars: int)
    ensures Revising(render, scope, groups, maxChars, 0, [], false)
  {
    assert groups[..0] == [];
  }

  /** After a full round: either nothing changed and everything fits, or there are more groups than before. */
  lemma ReviseEnds(render: RenderedLength, scope: string, groups: seq<seq<Assertion>>, maxChars: int,
          revised: seq<seq<Assertion>>, changed: bool)
    requires Revising(render, scope, groups, maxChars, |groups|, revised, changed)
    ensures Flatten(revised) == Flatten(groups) && NoneEmpty(revised)
    ensures !changed ==> AllFit(render, scope, revised, maxChars) && revised == groups
    ensures changed ==> |groups| < |revised|
    ensures forall m :: NoneLonger(groups, m) ==> NoneLonger(revised, m)
  {
    assert groups[..|groups|] == groups;
  }

  /**
    Halves every group whose prompt is too long, round by round, until all prompts fit as
    finally numbered.  The rounds end whatever the rendering does: each adds a group, and
    there are never more groups than assertions.
   */
  method FitRenderedPromptLimit(render: RenderedLength, scope: string, initial: seq<seq<Assertion>>, maxChars: int)
    returns (r: Fitting)
    requires NoneEmpty(initial)
    ensures r.Fits? ==> AllFit(render, scope, r.groups, maxChars) && NoneEmpty(r.groups)
    ensures r.Fits? ==> Flatten(r.groups) == Flatten(initial)
    ensures r.Fits? ==> ByHalving(render, scope, maxChars, initial, r.groups)
    ensures r.Fits? ==> forall m :: NoneLonger(initial, m) ==> NoneLonger(r.groups, m)
    ensures r.SourceTooLong? ==> r.length > maxChars && r.assertion in Flatten(initial)
                                 && exists i, n :: 1 <= i <= n <= |Flatten(initial)|
                                                   && r.length == render(scope, i, n, [r.assertion])
    ensures AllFit(render, scope, initial, maxChars) ==> r == Fits(initial)
  {
    hide Revising, Flatten, NoneLonger, AllFit, Halved, ByHalving;
    var groups := initial;
    NoRoundYet(render, scope, maxChars, initial);
    while groups != []
      invariant NoneEmpty(groups) && Flatten(groups) == Flatten(initial)
      invariant forall m :: NoneLonger(initial, m) ==> NoneLonger(groups, m)
      invariant groups == initial || !AllFit(render, scope, initial, maxChars)
      invariant ByHalving(render, scope, maxChars, initial, groups)
      decreases |Flatten(initial)| - |groups|
    {
      var count := |groups|;
      GroupsAtMostElements(groups);
      var revised: seq<seq<Assertion>> := [];
      var changed := false;
      ReviseBegins(render, scope, groups, maxChars);
      NoneHalved(render, scope, groups, maxChars);
      for n := 0 to |groups|
        invariant Revising(render, scope, groups, maxChars, n, revised, changed)
        invariant changed ==> !AllFit(render, scope, groups, maxChars)
        invariant revised == Halved(render, scope, groups, maxChars, n)
      {
        HalvedMore(render, scope, groups, maxChars, n);
        var group := groups[n];
        assert group in groups;
        var length := render(scope, n + 1, count, group);
        if length <= maxChars {
          ReviseKeep(render, scope, groups, maxChars, n, revised, changed);
          revised := revised + [group];
          continue;
        }
        OneTooLong(render, scope, groups, maxChars, n);
        if |group| == 1 {
          assert group == [group[0]];
          FlattenMember(groups, n);
          return SourceTooLong(group[0], length);
        }
        var midpoint := (|group| + 1) / 2;
        ReviseSplit(render, scope, groups, maxChars, n, revised, changed, midpoint);
        revised := revised + [group[..midpoint], group[midpoint..]];
        changed := true;
      }
      ReviseEnds(render, scope, groups, maxChars, revised, changed);
      if !changed {
        return Fits(revised);
      }
      GroupsAtMostElements(revised);
      OneMoreRound(render, scope, maxChars, initial, groups, revised);
      groups := revised;
    }
    NothingToFit(render, scope, maxChars);
    return Fits([]);
  }

  lemma OneTooLong(render: RenderedLength, scope: string, groups: seq<seq<Assertion>>, maxChars: int, n: nat)
    requires n < |groups| && render(scope, n + 1, |groups|, groups[n]) > maxChars
    ensures !AllFit(render, scope, groups, maxChars)
  {
  }

  lemma NothingToFit(render: RenderedLength, scope: string, maxChars: int)
    ensures AllFit(render, scope, [], maxChars)
  {
  }

  lemma {:induction false} FlattenMember(groups: seq<seq<Assertion>>, n: nat)
    requires n < |groups| && groups[n] != []
    ensures groups[n][0] in Flatten(groups)
    decreases |groups|
  {
    if n < |groups| - 1 {
      FlattenMember(groups[..|groups| - 1], n);
    }
  }

  datatype Partitioned = Partitions(partitions: seq<Partition>) | SetError(detail: string)

  function Numbered(scope: string, groups: seq<seq<Assertion>>): (r: seq<Partition>)
    ensures |r| == |groups|
    ensures forall i :: 0 <= i < |r| ==> r[i] == Partition(scope, i + 1, |groups|, groups[i])
  {
    seq(|groups|, i requires 0 <= i < |groups| => Partition(scope, i + 1, |groups|, groups[i]))
  }

  /** What is promised of the partitions of one set. */
  ghost predicate PartitionsOf(render: RenderedLength, set_: ScopeSet, maxChars: int, maxChunks: int,
          partitions: seq<Partition>)
  {
    exists groups: seq<seq<Assertion>> ::
      partitions == Numbered(set_.scope, groups) && Flatten(groups) == set_.assertions
      && NoneEmpty(groups) && NoneLonger(groups, maxChunks) && AllFit(render, set_.scope, groups, maxChars)
      && CutFrom(render, set_, maxChars, maxChunks, groups)
  }

  /** The groups come from full slices of the set by halving what is too long. */
  ghost predicate CutFrom(render: RenderedLength, set_: ScopeSet, maxChars: int, maxChunks: int,
          groups: seq<seq<Assertion>>)
  {
    exists slices :: Flatten(slices) == set_.assertions && NoneEmpty(slices) && NoneLonger(slices, maxChunks)
      && FullButLast(slices, maxChunks) && ByHalving(render, set_.scope, maxChars, slices, groups)
  }

  /** The whole set fits into one prompt under both limits. */
  ghost predicate FitsWhole(render: RenderedLength, set_: ScopeSet, maxChars: int, maxChunks: int)
  {
    && 1 <= maxChars <= DEFAULT_PARTITION_MAX_CHARS && |set_.assertions| <= maxChunks
    && render(set_.scope, 1, 1, set_.assertions) <= maxChars
  }

  lemma OneSlice(render: RenderedLength, set_: ScopeSet, maxChars: int, maxChunks: int)
    requires FitsWhole(render, set_, maxChars, maxChunks) && set_.assertions != []
    ensures PartitionAssertions(set_.assertions, maxChunks) == [set_.assertions]
    ensures AllFit(render, set_.scope, [set_.assertions], maxChars)
  {
    assert set_.assertions[|set_.assertions|..] == [];
  }

  lemma OneIsWhole(render: RenderedLength, set_: ScopeSet, maxChars: int, maxChunks: int, partitions: seq<Partition>)
    requires PartitionsOf(render, set_, maxChars, maxChunks, partitions) && |partitions| == 1
    requires 1 <= maxChars <= DEFAULT_PARTITION_MAX_CHARS
    ensures FitsWhole(render, set_, maxChars, maxChunks)
  {
    hide Flatten;
    var groups: seq<seq<Assertion>> :| partitions == Numbered(set_.scope, groups) && Flatten(groups) == set_.assertions
      && NoneEmpty(groups) && NoneLonger(groups, maxChunks) && AllFit(render, set_.scope, groups, maxChars);
    assert groups == [groups[0]];
    FlattenOne(groups[0]);
    assert groups[0] in groups && set_.assertions == groups[0];
  }

  /** `partition_scope_sets` on one set, as the sweep calls it. */
  method PartitionScopeSet(render: RenderedLength, set_: ScopeSet, maxChars: int, maxChunks: int)
    returns (r: Partitioned)
    ensures r.Partitions? ==> PartitionsOf(render, set_, maxChars, maxChunks, r.partitions)
    ensures maxChars < 1 || maxChunks < 1 || maxChars > DEFAULT_PARTITION_MAX_CHARS ==> r.SetError?
    ensures r.SetError? ==> || maxChars < 1 || maxChunks < 1 || maxChars > DEFAULT_PARTITION_MAX_CHARS
                            || exists a, i, n ::
                              a in set_.assertions && 1 <= i <= n <= |set_.assertions|
                              && render(set_.scope, i, n, [a]) > maxChars
    ensures set_.assertions != [] ==>
            (r.Partitions? && |r.partitions| == 1 <==> FitsWhole(render, set_, maxChars, maxChunks))
  {
    hide PartitionAssertions, AllFit, Flatten, ByHalving;
    if maxChars < 1 || maxChunks < 1 {
      return SetError("partition limits must be positive");
    }
    if maxChars > DEFAULT_PARTITION_MAX_CHARS {
      return SetError("partition maximum exceeded");
    }
    var initial := PartitionAssertions(set_.assertions, maxChunks);
    PartitionKeepsAll(set_.assertions, maxChunks);
    if set_.assertions != [] && FitsWhole(render, set_, maxChars, maxChunks) {
      OneSlice(render, set_, maxChars, maxChunks);
    }
    var fitted := FitRenderedPromptLimit(render, set_.scope, initial, maxChars);
    if fitted.SourceTooLong? {
      return SetError("source above partition maximum");
    }
    assert CutFrom(render, set_, maxChars, maxChunks, fitted.groups);
    r := Partitions(Numbered(set_.scope, fitted.groups));
    if |r.partitions| == 1 {
      OneIsWhole(render, set_, maxChars, maxChunks, r.partitions);
    }
  }

  /** A set that needed no cut is one partition holding the whole set. */
  lemma UncutIsWhole(render: RenderedLength, set_: ScopeSet, maxChars: int, maxChunks: int, partitions: seq<Partition>)
    requires PartitionsOf(render, set_, maxChars, maxChunks, partitions) && set_.assertions != []
    requires forall p :: p in partitions && p.index == 1 ==> p.count == 1
    ensures partitions == [Partition(set_.scope, 1, 1, set_.assertions)]
  {
    hide Flatten, NoneEmpty, NoneLonger, AllFit;
    var groups: seq<seq<Assertion>> :| partitions == Numbered(set_.scope, groups) && Flatten(groups) == set_.assertions;
    FlattenNone();
    assert groups != [] && partitions[0] == Partition(set_.scope, 1, |groups|, groups[0]);
    assert partitions[0] in partitions;
    assert groups == [groups[0]];
    FlattenOne(groups[0]);
    assert partitions == [partitions[0]];
  }

  // ---------------------------------------------------------------------------
  // Building the sets
  // ---------------------------------------------------------------------------

  ghost function AssertionOf(c: Chunk): Assertion
  {
    Assertion(c.chunkId, c.relPath, c.anchor, c.content)
  }

  /** The assertion model refuses empty fields, and the metadata must be readable. */
  ghost predicate Usable(c: Chunk)
  {
    c.chunkId != "" && c.relPath != "" && c.anchor != "" && c.content != "" && c.scopes.Some?
  }

  predicate ChunkLe(a: Chunk, b: Chunk)
  {
    if a.relPath != b.relPath then StringLe(a.relPath, b.relPath)
    else if a.ordering != b.ordering then a.ordering <= b.ordering
    else StringLe(a.chunkId, b.chunkId)
  }

  /** By path, then position in the document, then id. */
  ghost predicate ChunkBefore(a: Chunk, b: Chunk)
  {
    if a.relPath != b.relPath then Before(a.relPath, b.relPath)
    else if a.ordering != b.ordering then a.ordering < b.ordering
    else Before(a.chunkId, b.chunkId)
  }

  lemma ChunkOrder(a: Chunk, b: Chunk)
    ensures ChunkLe(a, b) <==> ChunkBefore(a, b)
  {
    hide StringLe, Before;
    StringLeIff(a.relPath, b.relPath);
    StringLeIff(a.chunkId, b.chunkId);
  }

  lemma ChunksCompare()
    ensures TotalPreorder(ChunkLe)
  {
    hide StringLe;
    StringOrder();
    forall a: Chunk, b: Chunk
      ensures ChunkLe(a, b) || ChunkLe(b, a)
    {
    }
    forall a: Chunk, b: Chunk, c: Chunk | ChunkLe(a, b) && ChunkLe(b, c)
      ensures ChunkLe(a, c)
    {
    }
  }

  /** The chunks are taken by path, position and id. */
  lemma ChunksAscend(chunks: seq<Chunk>)
    ensures var ordered := Sorted(ChunkLe, chunks);
            multiset(ordered) == multiset(chunks)
            && forall i, j :: 0 <= i < j < |ordered| ==> ChunkBefore(ordered[i], ordered[j])
  {
    hide ChunkLe, ChunkBefore, Sorted, TotalPreorder;
    ChunksCompare();
    SortedOrdered(ChunkLe, chunks);
    var ordered := Sorted(ChunkLe, chunks);
    forall i, j | 0 <= i < j < |ordered|
      ensures ChunkBefore(ordered[i], ordered[j])
    {
      ChunkOrder(ordered[i], ordered[j]);
    }
  }

  /** The assertions authorized for a scope, in the order of the chunks. */
  ghost function Authorized(chunks: seq<Chunk>, scope: string): seq<Assertion>
  {
    if chunks == [] then []
    else
      var c := chunks[|chunks| - 1];
      Authorized(chunks[..|chunks| - 1], scope)
      + if c.scopes.Some? && scope in c.scopes.value then [AssertionOf(c)] else []
  }

  lemma {:induction false} AuthorizedIff(chunks: seq<Chunk>, scope: string, a: Assertion)
    ensures a in Authorized(chunks, scope) <==>
            exists c :: c in chunks && c.scopes.Some? && scope in c.scopes.value && AssertionOf(c) == a
  {
    if chunks != [] {
      var c := chunks[|chunks| - 1];
      AuthorizedIff(chunks[..|chunks| - 1], scope, a);
      assert chunks == chunks[..|chunks| - 1] + [c];
    }
  }

  ghost predicate UniqueIds(assertions: seq<Assertion>)
  {
    forall i, j :: 0 <= i < j < |assertions| ==> assertions[i].chunkId != assertions[j].chunkId
  }

  ghost function Live(vocabulary: seq<string>): set<string>
  {
    set s | s in vocabulary
  }

  /** When the sets can be built at all. */
  ghost predicate Buildable(chunks: seq<Chunk>, vocabulary: seq<string>, selected: set<string>)
  {
    && selected <= Live(vocabulary) && "" !in selected
    && (forall c :: c in chunks ==>
         c.chunkId != "" && c.relPath != "" && c.anchor != "" && c.content != "" && c.scopes.Some?)
    && (forall s :: s in selected ==> UniqueIds(Authorized(Sorted(ChunkLe, chunks), s)))
  }

  /** One set per selected scope in ascending order, holding exactly what is authorized for it. */
  ghost predicate SetsOf(sets: seq<ScopeSet>, chunks: seq<Chunk>, selected: set<string>)
  {
    && (forall s :: s in selected <==> exists i :: 0 <= i < |sets| && sets[i].scope == s)
    && (forall i, j :: 0 <= i < j < |sets| ==> StringLe(sets[i].scope, sets[j].scope) && sets[i].scope != sets[j].scope)
    && (forall i :: 0 <= i < |sets| ==> sets[i].assertions == Authorized(Sorted(ChunkLe, chunks), sets[i].scope))
  }

  datatype Built = ScopeSets(sets: seq<ScopeSet>) | CannotBuild(detail: string)

  method BuildScopeSets(chunks: seq<Chunk>, vocabulary: seq<string>, requested: Option<set<string>>) returns (r: Built)
    ensures var selected := if requested.None? then Live(vocabulary) else requested.value;
            && (r.ScopeSets? <==> Buildable(chunks, vocabulary, selected))
            && (r.ScopeSets? ==> SetsOf(r.sets, chunks, selected))
  {
    hide Sorted, UniqueIds, Authorized, Buildable, SetsOf, ChunkLe;
    var live := set s | s in vocabulary;
    var selected := if requested.None? then live else requested.value;
    if !(selected <= live) {
      UnknownScope(chunks, vocabulary, selected);
      return CannotBuild("unknown scope filters");
    }
    var buckets: map<string, seq<Assertion>> := map s | s in selected :: [];
    var ordered := Sorted(ChunkLe, chunks);
    SameElements(chunks, ordered);
    AuthorizedNone();
    assert ordered[..0] == [];
    for i := 0 to |ordered|
      invariant buckets.Keys == selected
      invariant forall s :: s in selected ==> buckets[s] == Authorized(ordered[..i], s)
      invariant forall c :: c in ordered[..i] ==> Usable(c)
    {
      var chunk := ordered[i];
      assert ordered[..i + 1] == ordered[..i] + [chunk];
      if chunk.chunkId == "" || chunk.relPath == "" || chunk.anchor == "" || chunk.content == "" || chunk.scopes.None? {
        MalformedChunk(chunks, vocabulary, selected, chunk);
        return CannotBuild("malformed chunk");
      }
      AuthorizedMore(ordered[..i], chunk);
      buckets := map s | s in selected ::
        if s in chunk.scopes.value then
          buckets[s] + [Assertion(chunk.chunkId, chunk.relPath, chunk.anchor, chunk.content)]
        else buckets[s];
    }
    assert ordered[..|ordered|] == ordered;
    r := CloseBuckets(buckets, chunks, vocabulary, selected);
  }

  lemma UnknownScope(chunks: seq<Chunk>, vocabulary: seq<string>, selected: set<string>)
    requires !(selected <= Live(vocabulary))
    ensures !Buildable(chunks, vocabulary, selected)
  {
  }

  lemma MalformedChunk(chunks: seq<Chunk>, vocabulary: seq<string>, selected: set<string>, c: Chunk)
    requires c in chunks && !Usable(c)
    ensures !Buildable(chunks, vocabulary, selected)
  {
  }

  lemma AuthorizedNone()
    ensures forall s :: Authorized([], s) == []
  {
  }

  lemma AuthorizedMore(chunks: seq<Chunk>, c: Chunk)
    requires Usable(c)
    ensures forall s ::
            Authorized(chunks + [c], s)
            == Authorized(chunks, s)
               + if s in c.scopes.value then [Assertion(c.chunkId, c.relPath, c.anchor, c.content)] else []
  {
    assert (chunks + [c])[..|chunks|] == chunks;
  }

  /** The buckets become sets, unless a scope has no name or a chunk occurs twice. */
  method CloseBuckets(buckets: map<string, seq<Assertion>>, ghost chunks: seq<Chunk>, ghost vocabulary: seq<string>,
          ghost selected: set<string>)
    returns (r: Built)
    requires buckets.Keys == selected <= Live(vocabulary)
    requires forall s :: s in selected ==> buckets[s] == Authorized(Sorted(ChunkLe, chunks), s)
    requires forall c :: c in chunks ==> Usable(c)
    ensures r.ScopeSets? <==> Buildable(chunks, vocabulary, selected)
    ensures r.ScopeSets? ==> SetsOf(r.sets, chunks, selected)
  {
    hide Authorized, Sorted, UniqueIds, Usable, Ordered, Distinct, TotalPreorder, SetsOf, Buildable;
    assert TotalPreorder(StringLe) by {
      StringOrder();
    }
    var scopes := SortedSet(StringLe, buckets.Keys);
    var sets: seq<ScopeSet> := [];
    for i := 0 to |scopes|
      invariant |sets| == i
                && forall k :: 0 <= k < i ==> scopes[k] in buckets && sets[k] == ScopeSet(scopes[k], buckets[scopes[k]])
      invariant forall k :: 0 <= k < i ==> scopes[k] != "" && UniqueIds(buckets[scopes[k]])
    {
      assert scopes[i] in buckets.Keys;
      var unique := IdsUnique(buckets[scopes[i]]);
      if scopes[i] == "" || !unique {
        Unbuildable(chunks, vocabulary, selected, scopes[i]);
        return CannotBuild("invalid scope set");
      }
      sets := sets + [ScopeSet(scopes[i], buckets[scopes[i]])];
    }
    SetsListed(sets, scopes, chunks, selected);
    AllBuildable(scopes, chunks, vocabulary, selected);
    return ScopeSets(sets);
  }

  lemma Unbuildable(chunks: seq<Chunk>, vocabulary: seq<string>, selected: set<string>, scope: string)
    requires scope in selected && (scope == "" || !UniqueIds(Authorized(Sorted(ChunkLe, chunks), scope)))
    ensures !Buildable(chunks, vocabulary, selected)
  {
  }

  lemma AllBuildable(scopes: seq<string>, chunks: seq<Chunk>, vocabulary: seq<string>, selected: set<string>)
    requires selected <= Live(vocabulary) && forall s :: s in selected ==> s in scopes
    requires forall c :: c in chunks ==> Usable(c)
    requires forall k :: 0 <= k < |scopes| ==>
             scopes[k] != "" && UniqueIds(Authorized(Sorted(ChunkLe, chunks), scopes[k]))
    ensures Buildable(chunks, vocabulary, selected)
  {
    hide Authorized, Sorted, UniqueIds;
  }

  lemma SetsListed(sets: seq<ScopeSet>, scopes: seq<string>, chunks: seq<Chunk>, selected: set<string>)
    requires Ordered(StringLe, scopes) && Distinct(scopes) && forall s :: s in scopes <==> s in selected
    requires |sets| == |scopes|
    requires forall k :: 0 <= k < |scopes| ==>
             sets[k] == ScopeSet(scopes[k], Authorized(Sorted(ChunkLe, chunks), scopes[k]))
    ensures SetsOf(sets, chunks, selected)
  {
    hide Authorized, Sorted, StringLe;
    forall s | s in selected
      ensures exists i :: 0 <= i < |sets| && sets[i].scope == s
    {
      assert s in scopes;
      var k :| 0 <= k < |scopes| && scopes[k] == s;
      assert sets[k].scope == s;
    }
    assert forall i :: 0 <= i < |sets| ==> scopes[i] in scopes;
  }

  method IdsUnique(assertions: seq<Assertion>) returns (unique: bool)
    ensures unique <==> UniqueIds(assertions)
  {
    var seen: set<string> := {};
    unique := true;
    for i := 0 to |assertions|
      invariant forall id :: id in seen <==> exists k :: 0 <= k < i && assertions[k].chunkId == id
      invariant unique <==> forall j, k :: 0 <= j < k < i ==> assertions[j].chunkId != assertions[k].chunkId
    {
      if assertions[i].chunkId in seen {
        unique := false;
      }
      seen := seen + {assertions[i].chunkId};
    }
  }

  /** A scope's set holds exactly the chunks authorized for that scope, whatever order they were given in. */
  lemma SetMembership(sets: seq<ScopeSet>, chunks: seq<Chunk>, selected: set<string>, i: nat, a: Assertion)
    requires SetsOf(sets, chunks, selected) && i < |sets|
    ensures a in sets[i].assertions <==>
            exists c :: c in chunks && c.scopes.Some? && sets[i].scope in c.scopes.value
                        && a == Assertion(c.chunkId, c.relPath, c.anchor, c.content)
  {
    AuthorizedIff(Sorted(ChunkLe, chunks), sets[i].scope, a);
    SameElements(chunks, Sorted(ChunkLe, chunks));
  }
}
