/**
  The hierarchy of component groups: its validation, the chains to the top, and the tree
  rendering, which terminate only because of what validation refuses.
 */
module GroupHierarchy {
  import opened Options
  import opened Ordering
  import opened Graphs

  datatype Group = Group(
    groupId: string, name: string, bloodgroup: string, exposure: string, parent: Option<string>,
    kind: string, owner: Option<string>, allowedImporters: seq<string>)

  type Lookup = map<string, Group>

  const SHARED := "shared"

  /** `{g.group_id: g for g in groups}` */
  function LookupOf(groups: seq<Group>): (lookup: Lookup)
    ensures forall id :: id in lookup <==> exists g :: g in groups && g.groupId == id
    ensures forall id :: id in lookup ==> lookup[id] in groups && lookup[id].groupId == id
  {
    if groups == [] then map[]
    else
      var g := groups[|groups| - 1];
      assert groups == groups[..|groups| - 1] + [g];
      LookupOf(groups[..|groups| - 1])[g.groupId := g]
  }

  ghost predicate UniqueIds(groups: seq<Group>)
  {
    forall i, j :: 0 <= i < j < |groups| ==> groups[i].groupId != groups[j].groupId
  }

  /** Each group to its parent, by id. */
  ghost function ParentEdges(lookup: Lookup): set<(string, string)>
  {
    set id | id in lookup && lookup[id].parent.Some? :: (id, lookup[id].parent.value)
  }

  lemma ParentEdge(lookup: Lookup, a: string, b: string)
    ensures (a, b) in ParentEdges(lookup) <==> a in lookup && lookup[a].parent == Some(b)
  {
    if a in lookup && lookup[a].parent == Some(b) {
      assert (a, lookup[a].parent.value) in ParentEdges(lookup);
    }
  }

  lemma ParentsFunctional(lookup: Lookup)
    ensures Functional(ParentEdges(lookup))
  {
    forall a, b, c | (a, b) in ParentEdges(lookup) && (a, c) in ParentEdges(lookup)
      ensures b == c
    {
      ParentEdge(lookup, a, b);
      ParentEdge(lookup, a, c);
    }
  }

  // ---------------------------------------------------------------------------
  // Validation
  // ---------------------------------------------------------------------------

  ghost predicate ParentKnown(g: Group, lookup: Lookup)
  {
    g.parent.Some? ==> g.parent.value in lookup
  }

  /** Of a shared group: the owner, if named, and every importer exist, and importers are top-level. */
  ghost predicate SharingSound(g: Group, lookup: Lookup)
  {
    g.kind == SHARED ==>
      && (g.owner.Some? && g.owner.value != "" ==> g.owner.value in lookup)
      && forall i :: 0 <= i < |g.allowedImporters| ==>
           g.allowedImporters[i] in lookup && lookup[g.allowedImporters[i]].parent.None?
  }

  ghost predicate SoundHierarchy(groups: seq<Group>)
  {
    var lookup := LookupOf(groups);
    && (forall g :: g in groups ==> ParentKnown(g, lookup) && SharingSound(g, lookup))
    && Acyclic(ParentEdges(lookup))
  }

  datatype Verdict = Accepted | Rejected(reason: string, groupId: string)

  /** The ids passed on the way up from a group. */
  ghost predicate Climbed(lookup: Lookup, trail: seq<string>, visited: set<string>, current: Option<string>)
  {
    && (forall id :: id in visited <==> id in trail)
    && Distinct(trail)
    && (forall id :: id in trail ==> id in lookup)
    && (trail != [] ==> IsWalk(ParentEdges(lookup), trail) && current == lookup[trail[|trail| - 1]].parent)
  }

  lemma ClimbMore(lookup: Lookup, trail: seq<string>, visited: set<string>, id: string)
    requires Climbed(lookup, trail, visited, Some(id)) && id !in visited && id in lookup
    ensures Climbed(lookup, trail + [id], visited + {id}, lookup[id].parent)
  {
    var E := ParentEdges(lookup);
    var longer := trail + [id];
    forall i, j | 0 <= i && j == i + 1 && j < |longer|
      ensures (longer[i], longer[j]) in E
    {
      if j < |trail| {
        assert (trail[i], trail[j]) in E;
      } else {
        ParentEdge(lookup, trail[i], id);
      }
    }
  }

  /** Coming back to an id already passed closes a cycle. */
  lemma ClimbCloses(lookup: Lookup, trail: seq<string>, visited: set<string>, id: string)
    requires Climbed(lookup, trail, visited, Some(id)) && id in visited
    ensures !Acyclic(ParentEdges(lookup))
  {
    var E := ParentEdges(lookup);
    var k :| 0 <= k < |trail| && trail[k] == id;
    var p := trail[k..] + [id];
    forall i, j | 0 <= i && j == i + 1 && j < |p|
      ensures (p[i], p[j]) in E
    {
      if j < |p| - 1 {
        assert (trail[k + i], trail[k + j]) in E;
      } else {
        ParentEdge(lookup, trail[|trail| - 1], id);
      }
    }
    assert WalkFromTo(E, p, id, id);
    assert OnCycle(E, id);
  }

  /** A climb that ended shows that its start is on no cycle. */
  lemma ClimbEnds(lookup: Lookup, trail: seq<string>, visited: set<string>, current: Option<string>)
    requires Climbed(lookup, trail, visited, current) && trail != []
    requires current.Some? ==> current.value !in lookup
    ensures !OnCycle(ParentEdges(lookup), trail[0])
  {
    var E := ParentEdges(lookup);
    var start := trail[0];
    if OnCycle(E, start) {
      var p :| WalkFromTo(E, p, start, start) && |p| >= 2;
      TrailFollowed(lookup, trail, visited, current, p, |p| - 1);
    }
  }

  /** The `k`-th node of a walk from the trail's start is the trail's own, or just past its end. */
  ghost predicate FollowsTrail(lookup: Lookup, trail: seq<string>, visited: set<string>, current: Option<string>,
          p: seq<string>, k: nat)
    requires k < |p|
  {
    if k < |trail| then p[k] == trail[k] else k == |trail| && current == Some(p[k])
  }

  lemma {:induction false} TrailFollowed(lookup: Lookup, trail: seq<string>, visited: set<string>,
          current: Option<string>, p: seq<string>, k: nat)
    requires Climbed(lookup, trail, visited, current) && trail != []
    requires current.Some? ==> current.value !in lookup
    requires IsWalk(ParentEdges(lookup), p) && p[0] == trail[0] && k < |p|
    ensures FollowsTrail(lookup, trail, visited, current, p, k)
  {
    if k > 0 {
      TrailFollowed(lookup, trail, visited, current, p, k - 1);
      assert (p[k - 1], p[k]) in ParentEdges(lookup);
      ParentEdge(lookup, p[k - 1], p[k]);
      if k - 1 < |trail| - 1 {
        assert (trail[k - 1], trail[k]) in ParentEdges(lookup);
        ParentEdge(lookup, trail[k - 1], trail[k]);
      }
    }
  }

  /** Climbs from one group, remembering what it passed. */
  method ChainIsCyclic(group: Group, lookup: Lookup) returns (cyclic: bool)
    requires group.groupId in lookup
    ensures cyclic ==> !Acyclic(ParentEdges(lookup))
    ensures !cyclic ==> !OnCycle(ParentEdges(lookup), group.groupId)
  {
    var visited: set<string> := {};
    var currentId := Some(group.groupId);
    ghost var trail: seq<string> := [];
    while currentId.Some?
      invariant Climbed(lookup, trail, visited, currentId) && visited <= lookup.Keys
      invariant if trail == [] then currentId == Some(group.groupId) else trail[0] == group.groupId
      decreases lookup.Keys - visited, currentId.Some?
    {
      var id := currentId.value;
      if id in visited {
        ClimbCloses(lookup, trail, visited, id);
        return true;
      }
      if id !in lookup {
        break;
      }
      ClimbMore(lookup, trail, visited, id);
      visited := visited + {id};
      trail := trail + [id];
      currentId := lookup[id].parent;
    }
    ClimbEnds(lookup, trail, visited, currentId);
    return false;
  }

  method ValidateReferences(groups: seq<Group>, lookup: Lookup) returns (v: Verdict)
    ensures v.Accepted? <==> forall g :: g in groups ==> ParentKnown(g, lookup) && SharingSound(g, lookup)
  {
    for i := 0 to |groups|
      invariant forall g :: g in groups[..i] ==> ParentKnown(g, lookup) && SharingSound(g, lookup)
    {
      var group := groups[i];
      assert groups[..i + 1] == groups[..i] + [group];
      assert group in groups;
      if group.parent.Some? && group.parent.value !in lookup {
        return Rejected("unknown parent_group_id", group.groupId);
      }
      if group.kind == SHARED {
        if group.owner.Some? && group.owner.value != "" && group.owner.value !in lookup {
          return Rejected("unknown owner_group_id", group.groupId);
        }
        for k := 0 to |group.allowedImporters|
          invariant forall j :: 0 <= j < k ==>
                    group.allowedImporters[j] in lookup && lookup[group.allowedImporters[j]].parent.None?
        {
          var importer := group.allowedImporters[k];
          if importer !in lookup {
            return Rejected("unknown allowed_importer", group.groupId);
          }
          if lookup[importer].parent.Some? {
            return Rejected("allowed_importer is not top-level", group.groupId);
          }
        }
      }
    }
    assert groups[..|groups|] == groups;
    return Accepted;
  }

  /** Accepts iff all references are sound and no parent chain is cyclic. */
  method ValidateHierarchy(groups: seq<Group>) returns (v: Verdict)
    ensures v.Accepted? <==> SoundHierarchy(groups)
  {
    var lookup := LookupOf(groups);
    v := ValidateReferences(groups, lookup);
    if v.Rejected? {
      return;
    }
    for i := 0 to |groups|
      invariant forall g :: g in groups[..i] ==> !OnCycle(ParentEdges(lookup), g.groupId)
    {
      assert groups[..i + 1] == groups[..i] + [groups[i]];
      assert groups[i] in groups;
      var cyclic := ChainIsCyclic(groups[i], lookup);
      if cyclic {
        return Rejected("cyclic parent chain", groups[i].groupId);
      }
    }
    assert groups[..|groups|] == groups;
    forall id
      ensures !OnCycle(ParentEdges(lookup), id)
    {
      if OnCycle(ParentEdges(lookup), id) {
        var m := FirstStep(ParentEdges(lookup), id, id);
        ParentEdge(lookup, id, m);
      }
    }
    return Accepted;
  }

  // ---------------------------------------------------------------------------
  // Chains to the top
  // ---------------------------------------------------------------------------

  /** `b` is the parent of `a`. */
  ghost predicate Linked(lookup: Lookup, a: Group, b: Group)
  {
    a.parent.Some? && a.parent.value in lookup && b == lookup[a.parent.value]
  }

  ghost predicate LinkedUp(lookup: Lookup, chain: seq<Group>)
  {
    forall i, j {:trigger chain[i], chain[j]} :: 0 <= i && j == i + 1 && j < |chain| ==>
      Linked(lookup, chain[i], chain[j])
  }

  /** From a group along the parents to one that has none. */
  ghost predicate IsChain(lookup: Lookup, group: Group, chain: seq<Group>)
  {
    chain != [] && chain[0] == group && chain[|chain| - 1].parent.None? && LinkedUp(lookup, chain)
  }

  ghost function Ids(chain: seq<Group>): seq<string>
  {
    seq(|chain|, i requires 0 <= i < |chain| => chain[i].groupId)
  }

  ghost predicate Climbing(groups: seq<Group>, group: Group, chain: seq<Group>)
  {
    && chain != [] && chain[0] == group
    && (forall g :: g in chain ==> g in groups)
    && LinkedUp(LookupOf(groups), chain)
  }

  lemma {:induction false} LookupFinds(groups: seq<Group>, g: Group)
    requires UniqueIds(groups) && g in groups
    ensures g.groupId in LookupOf(groups) && LookupOf(groups)[g.groupId] == g
  {
    var lookup := LookupOf(groups);
    var i :| 0 <= i < |groups| && groups[i] == g;
    var j :| 0 <= j < |groups| && groups[j] == lookup[g.groupId];
  }

  /** A climb never takes more groups than there are. */
  lemma ClimbingBounded(groups: seq<Group>, group: Group, chain: seq<Group>)
    requires UniqueIds(groups) && SoundHierarchy(groups) && Climbing(groups, group, chain)
    ensures |chain| <= |LookupOf(groups).Keys|
  {
    hide LookupOf;
    var lookup := LookupOf(groups);
    var ids := Ids(chain);
    assert IsWalk(ParentEdges(lookup), ids) by {
      forall i, j | 0 <= i && j == i + 1 && j < |ids|
        ensures (ids[i], ids[j]) in ParentEdges(lookup)
      {
        assert chain[i] in chain && chain[j] in chain && Linked(lookup, chain[i], chain[j]);
        LookupFinds(groups, chain[i]);
        LookupFinds(groups, chain[j]);
        ParentEdge(lookup, ids[i], ids[j]);
        LookupHas(groups, chain[i].parent.value);
      }
    }
    WalkDistinct(ParentEdges(lookup), ids);
    forall i | 0 <= i < |ids|
      ensures ids[i] in lookup.Keys
    {
      assert chain[i] in chain;
      LookupFinds(groups, chain[i]);
    }
    DistinctBounded(ids, lookup.Keys);
  }

  lemma LookupHas(groups: seq<Group>, id: string)
    requires id in LookupOf(groups)
    ensures LookupOf(groups)[id].groupId == id && LookupOf(groups)[id] in groups
  {
  }

  lemma {:induction false} DistinctBounded(s: seq<string>, S: set<string>)
    requires Distinct(s) && forall i :: 0 <= i < |s| ==> s[i] in S
    ensures |s| <= |S|
  {
    if s != [] {
      var last := s[|s| - 1];
      DistinctBounded(s[..|s| - 1], S - {last});
    }
  }

  /** One more step up: the parent exists, and the climb stays within bounds. */
  lemma ClimbStep(groups: seq<Group>, group: Group, chain: seq<Group>)
    requires UniqueIds(groups) && SoundHierarchy(groups) && Climbing(groups, group, chain)
    requires chain[|chain| - 1].parent.Some?
    ensures var lookup, id := LookupOf(groups), chain[|chain| - 1].parent.value;
            && id in lookup && Climbing(groups, group, chain + [lookup[id]])
            && |chain| < |lookup.Keys|
  {
    hide LookupOf, Acyclic;
    var lookup := LookupOf(groups);
    var last := chain[|chain| - 1];
    assert last in chain;
    assert ParentKnown(last, lookup);
    LookupHas(groups, last.parent.value);
    var longer := chain + [lookup[last.parent.value]];
    assert LinkedUp(lookup, longer);
    ClimbingBounded(groups, group, longer);
  }

  method ChainToTop(groups: seq<Group>, group: Group) returns (chain: seq<Group>)
    requires UniqueIds(groups) && SoundHierarchy(groups) && group in groups
    ensures IsChain(LookupOf(groups), group, chain) && forall g :: g in chain ==> g in groups
  {
    hide SoundHierarchy, LinkedUp, LookupOf, UniqueIds;
    var lookup := LookupOf(groups);
    chain := [group];
    var current := group;
    NoLinks(lookup, group);
    while current.parent.Some?
      invariant Climbing(groups, group, chain) && current == chain[|chain| - 1]
      decreases |lookup.Keys| - |chain|
    {
      ClimbStep(groups, group, chain);
      if current.parent.value !in lookup {
        break;
      }
      var parent := lookup[current.parent.value];
      chain := chain + [parent];
      current := parent;
    }
  }

  lemma NoLinks(lookup: Lookup, group: Group)
    ensures LinkedUp(lookup, [group])
  {
  }

  /** The group at the end of the one chain. */
  method TopLevelGroup(groups: seq<Group>, group: Group) returns (top: Group)
    requires UniqueIds(groups) && SoundHierarchy(groups) && group in groups
    ensures top in groups && top.parent.None?
    ensures forall chain :: IsChain(LookupOf(groups), group, chain) ==> top == chain[|chain| - 1]
  {
    hide SoundHierarchy, LinkedUp, LookupOf, UniqueIds;
    var lookup := LookupOf(groups);
    var current := group;
    ghost var chain := [group];
    NoLinks(lookup, group);
    while current.parent.Some?
      invariant Climbing(groups, group, chain) && current == chain[|chain| - 1]
      decreases |lookup.Keys| - |chain|
    {
      ClimbStep(groups, group, chain);
      if current.parent.value !in lookup {
        break;
      }
      current := lookup[current.parent.value];
      chain := chain + [current];
    }
    assert current in chain;
    forall other | IsChain(lookup, group, other)
      ensures current == other[|other| - 1]
    {
      ChainUnique(lookup, group, chain, other);
    }
    return current;
  }

  /** There is only one way up. */
  lemma {:induction false} ChainUnique(lookup: Lookup, group: Group, a: seq<Group>, b: seq<Group>)
    requires IsChain(lookup, group, a) && IsChain(lookup, group, b)
    ensures a == b
  {
    ChainAgrees(lookup, group, a, b, |a|);
    ChainAgrees(lookup, group, a, b, |b|);
    forall i | 0 <= i < |a|
      ensures i < |b| && a[i] == b[i]
    {
      ChainAgrees(lookup, group, a, b, i);
    }
  }

  lemma {:induction false} ChainAgrees(lookup: Lookup, group: Group, a: seq<Group>, b: seq<Group>, k: nat)
    requires IsChain(lookup, group, a) && IsChain(lookup, group, b)
    ensures (k < |a| <==> k < |b|) && (k < |a| ==> a[k] == b[k])
  {
    if k > 0 {
      ChainAgrees(lookup, group, a, b, k - 1);
      if k < |a| || k < |b| {
        assert k - 1 < |a| && k - 1 < |b| && a[k - 1] == b[k - 1];
        assert k < |a| ==> Linked(lookup, a[k - 1], a[k]);
        assert k < |b| ==> Linked(lookup, b[k - 1], b[k]);
      }
    }
  }

  /** Every group on the chain has the rest of it as its own chain, hence the same top. */
  lemma TopIsShared(lookup: Lookup, group: Group, chain: seq<Group>, k: nat)
    requires IsChain(lookup, group, chain) && k < |chain|
    ensures IsChain(lookup, chain[k], chain[k..]) && chain[k..][|chain[k..]| - 1] == chain[|chain| - 1]
  {
    var rest := chain[k..];
    forall i, j | 0 <= i && j == i + 1 && j < |rest|
      ensures Linked(lookup, rest[i], rest[j])
    {
      assert Linked(lookup, chain[k + i], chain[k + j]);
    }
  }
}
