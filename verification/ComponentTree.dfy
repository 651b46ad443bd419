/**
  The textual tree of component groups.  `emitted` and `prefixes` are ghost records of
  the group behind each line and of its indentation.

  The order of the lines is stated without the recursion: of two groups the one above the
  other comes first, and otherwise the one below the elder of two siblings.
 */
module ComponentTree {
  import opened Options
  import opened Ordering
  import opened Graphs
  import opened GroupHierarchy

  /** By name, in the order of `Ordering.Before`. */
  predicate NameLe(a: Group, b: Group)
  {
    StringLe(a.name, b.name)
  }

  function WithParent(groups: seq<Group>, parent: Option<string>): (r: seq<Group>)
    ensures forall g :: g in r <==> g in groups && g.parent == parent
  {
    if groups == [] then []
    else
      assert groups == [groups[0]] + groups[1..];
      (if groups[0].parent == parent then [groups[0]] else []) + WithParent(groups[1..], parent)
  }

  lemma {:induction false} WithParentDistinct(groups: seq<Group>, parent: Option<string>)
    requires Distinct(groups)
    ensures Distinct(WithParent(groups, parent))
  {
    if groups != [] {
      WithParentDistinct(groups[1..], parent);
      assert groups[0] !in groups[1..];
    }
  }

  ghost predicate Renderable(groups: seq<Group>)
  {
    UniqueIds(groups) && SoundHierarchy(groups)
  }

  /** The groups with one parent, by name; groups of one name in their declared order. */
  function Siblings(groups: seq<Group>, parent: Option<string>): seq<Group>
  {
    Sorted(NameLe, WithParent(groups, parent))
  }

  lemma SiblingsComplete(groups: seq<Group>, parent: Option<string>)
    requires Renderable(groups)
    ensures Distinct(Siblings(groups, parent)) && Ordered(NameLe, Siblings(groups, parent))
    ensures forall c :: c in Siblings(groups, parent) <==> c in groups && c.parent == parent
  {
    GroupsDistinct(groups);
    WithParentDistinct(groups, parent);
    SortedDistinct(NameLe, WithParent(groups, parent));
    NamesCompare();
    SortedOrdered(NameLe, WithParent(groups, parent));
    SameElements(WithParent(groups, parent), Siblings(groups, parent));
  }

  lemma NamesCompare()
    ensures TotalPreorder(NameLe)
  {
    StringOrder();
  }

  lemma GroupsDistinct(groups: seq<Group>)
    requires Renderable(groups)
    ensures Distinct(groups)
  {
  }

  /** `c` and `d` have one parent, and `c` comes before `d` among its children. */
  ghost predicate Elder(groups: seq<Group>, c: Group, d: Group)
  {
    var siblings := Siblings(groups, c.parent);
    exists k, l :: 0 <= k < l < |siblings| && siblings[k] == c && siblings[l] == d
  }

  lemma ElderBasics(groups: seq<Group>, c: Group, d: Group)
    requires Renderable(groups) && Elder(groups, c, d)
    ensures c in groups && d in groups && c != d && c.parent == d.parent && NameLe(c, d)
    ensures !Elder(groups, d, c)
  {
    hide Renderable, Siblings;
    SiblingsComplete(groups, c.parent);
    var siblings := Siblings(groups, c.parent);
    assert forall k :: 0 <= k < |siblings| ==> siblings[k] in siblings;
  }

  lemma {:induction false} WithParentKeeps(groups: seq<Group>, parent: Option<string>, c: Group, d: Group)
    requires Earlier(groups, c, d) && c.parent == d.parent == parent
    ensures Earlier(WithParent(groups, parent), c, d)
  {
    hide Earlier;
    if groups == [] {
      NothingEarlier(c, d);
    } else {
      assert groups == [groups[0]] + groups[1..];
      EarlierInTail(groups[0], groups[1..], c, d);
      EarlierInTail(groups[0], WithParent(groups[1..], parent), c, d);
      if Earlier(groups[1..], c, d) {
        WithParentKeeps(groups[1..], parent, c, d);
      } else {
        assert c == groups[0] && d in WithParent(groups[1..], parent);
      }
      assert [] + WithParent(groups[1..], parent) == WithParent(groups[1..], parent);
    }
  }

  /** Among siblings, one that was declared earlier and does not come later by name is the elder. */
  lemma EarlierIsElder(groups: seq<Group>, c: Group, d: Group)
    requires Earlier(groups, c, d) && c.parent == d.parent && NameLe(c, d)
    ensures Elder(groups, c, d)
  {
    hide StringLe;
    WithParentKeeps(groups, c.parent, c, d);
    SortedStable(NameLe, WithParent(groups, c.parent), c, d);
    assert Earlier(Siblings(groups, c.parent), c, d);
  }

  lemma OneIsEarlier<T>(s: seq<T>, x: T, y: T)
    requires x in s && y in s && x != y
    ensures Earlier(s, x, y) || Earlier(s, y, x)
  {
    var i :| 0 <= i < |s| && s[i] == x;
    var j :| 0 <= j < |s| && s[j] == y;
  }

  lemma NamesAreBefore(c: Group, d: Group)
    ensures NameLe(c, d) <==> Before(c.name, d.name)
    ensures c.name == d.name ==> Before(c.name, d.name)
    ensures Before(c.name, d.name) && Before(d.name, c.name) ==> c.name == d.name
  {
    hide StringLe, Before;
    StringLeIff(c.name, d.name);
    StringLeIff(d.name, c.name);
    StringOrder();
  }

  /** Of two siblings, the elder has the smaller name; if their names are the same, it was declared earlier. */
  lemma ElderIff(groups: seq<Group>, c: Group, d: Group)
    requires Renderable(groups) && c in groups && d in groups && c != d
    ensures Elder(groups, c, d) <==>
            c.parent == d.parent && Before(c.name, d.name) && (c.name == d.name ==> Earlier(groups, c, d))
  {
    hide Renderable, Elder, NameLe, Before, Earlier;
    NamesAreBefore(c, d);
    NamesAreBefore(d, c);
    OneIsEarlier(groups, c, d);
    if Elder(groups, c, d) {
      ElderBasics(groups, c, d);
      if c.name == d.name && Earlier(groups, d, c) {
        EarlierIsElder(groups, d, c);
      }
    } else if c.parent == d.parent && Before(c.name, d.name) && (c.name == d.name ==> Earlier(groups, c, d)) {
      OneIsElder(groups, c, d);
      if Elder(groups, d, c) {
        ElderBasics(groups, d, c);
      }
      EarlierIsElder(groups, c, d);
      assert false;
    }
  }

  lemma OneIsElder(groups: seq<Group>, c: Group, d: Group)
    requires Renderable(groups) && c in groups && d in groups && c != d && c.parent == d.parent
    ensures Elder(groups, c, d) || Elder(groups, d, c)
  {
    hide Renderable, Siblings, Earlier;
    SiblingsComplete(groups, c.parent);
    var siblings := Siblings(groups, c.parent);
    assert c in siblings && d in siblings;
    var k :| 0 <= k < |siblings| && siblings[k] == c;
    var l :| 0 <= l < |siblings| && siblings[l] == d;
  }

  ghost predicate IsYoungest(groups: seq<Group>, g: Group)
  {
    forall h :: h in groups && h.parent == g.parent && h != g ==> Elder(groups, h, g)
  }

  lemma LastIsYoungest(groups: seq<Group>, parent: Option<string>, n: nat)
    requires Renderable(groups) && n < |Siblings(groups, parent)|
    ensures IsYoungest(groups, Siblings(groups, parent)[n]) <==> n == |Siblings(groups, parent)| - 1
  {
    hide Renderable, Siblings;
    var siblings := Siblings(groups, parent);
    SiblingsComplete(groups, parent);
    var g, last := siblings[n], siblings[|siblings| - 1];
    assert g in siblings && last in siblings;
    if n < |siblings| - 1 {
      assert Elder(groups, g, last);
      ElderBasics(groups, g, last);
    } else {
      forall h | h in groups && h.parent == g.parent && h != g
        ensures Elder(groups, h, g)
      {
        assert h in siblings;
        var k :| 0 <= k < |siblings| && siblings[k] == h;
      }
    }
  }

  /** The groups from which `id` is reached along the parents. */
  ghost function Below(groups: seq<Group>, id: string): set<Group>
  {
    set g | g in groups && Reach(ParentEdges(LookupOf(groups)), g.groupId, id)
  }

  lemma ParentStep(groups: seq<Group>, g: Group, id: string)
    requires UniqueIds(groups) && g in groups
    ensures (g.groupId, id) in ParentEdges(LookupOf(groups)) <==> g.parent == Some(id)
  {
    LookupFinds(groups, g);
    ParentEdge(LookupOf(groups), g.groupId, id);
  }

  /** What lies below a group is the group itself and what lies below its children. */
  lemma BelowSplits(groups: seq<Group>, g: Group, h: Group)
    requires Renderable(groups) && g in groups && h in groups
    ensures h in Below(groups, g.groupId) <==>
            h == g || exists c :: c in groups && c.parent == Some(g.groupId) && h in Below(groups, c.groupId)
  {
    hide SoundHierarchy, LookupOf, UniqueIds;
    var E := ParentEdges(LookupOf(groups));
    if h in Below(groups, g.groupId) && h != g {
      SameId(groups, g, h);
      ReachCases(E, h.groupId, g.groupId);
      var id := LastStep(E, h.groupId, g.groupId);
      var c := EdgeSource(groups, id, g.groupId);
      assert h in Below(groups, c.groupId);
    }
    if c :| c in groups && c.parent == Some(g.groupId) && h in Below(groups, c.groupId) {
      ParentStep(groups, c, g.groupId);
      ReachEdge(E, c.groupId, g.groupId);
      ReachTrans(E, h.groupId, c.groupId, g.groupId);
    }
    if h == g {
      ReachSelf(E, g.groupId);
    }
  }

  lemma SameId(groups: seq<Group>, g: Group, h: Group)
    requires UniqueIds(groups) && g in groups && h in groups
    ensures g.groupId == h.groupId ==> g == h
  {
    LookupFinds(groups, g);
    LookupFinds(groups, h);
  }

  lemma EdgeSource(groups: seq<Group>, id: string, parent: string) returns (c: Group)
    requires UniqueIds(groups) && (id, parent) in ParentEdges(LookupOf(groups))
    ensures c in groups && c.groupId == id && c.parent == Some(parent)
  {
    ParentEdge(LookupOf(groups), id, parent);
    c := LookupOf(groups)[id];
  }

  lemma NoCycles(groups: seq<Group>)
    requires Renderable(groups)
    ensures Acyclic(ParentEdges(LookupOf(groups))) && Functional(ParentEdges(LookupOf(groups)))
  {
    ParentsFunctional(LookupOf(groups));
  }

  /** A group does not lie below its own child. */
  lemma NotBelowChild(groups: seq<Group>, g: Group, c: Group)
    requires Renderable(groups) && g in groups && c in groups && c.parent == Some(g.groupId)
    ensures g !in Below(groups, c.groupId)
  {
    hide SoundHierarchy, LookupOf, UniqueIds;
    var E := ParentEdges(LookupOf(groups));
    NoCycles(groups);
    assert !OnCycle(E, c.groupId);
    if Reach(E, g.groupId, c.groupId) {
      ParentStep(groups, c, g.groupId);
      ReachEdge(E, c.groupId, g.groupId);
      ReachTrans(E, c.groupId, g.groupId, c.groupId);
    }
  }

  /** Nothing lies below two different groups with the same parent, or below two different tops. */
  lemma SiblingsApart(groups: seq<Group>, c: Group, d: Group)
    requires Renderable(groups) && c in groups && d in groups && c != d && c.parent == d.parent
    ensures Below(groups, c.groupId) !! Below(groups, d.groupId)
  {
    hide SoundHierarchy, LookupOf, UniqueIds, Acyclic, Functional;
    var E := ParentEdges(LookupOf(groups));
    NoCycles(groups);
    forall h | h in Below(groups, c.groupId) && h in Below(groups, d.groupId)
      ensures false
    {
      var p :| WalkFromTo(E, p, h.groupId, c.groupId);
      FunctionalLine(E, p, h.groupId, c.groupId, d.groupId);
      if Reach(E, c.groupId, d.groupId) {
        NotAbove(groups, c, d);
      } else {
        NotAbove(groups, d, c);
      }
    }
  }

  lemma NotAbove(groups: seq<Group>, c: Group, d: Group)
    requires Renderable(groups) && c in groups && d in groups && c != d && c.parent == d.parent
    ensures !Reach(ParentEdges(LookupOf(groups)), c.groupId, d.groupId)
  {
    hide SoundHierarchy, LookupOf, UniqueIds;
    var E := ParentEdges(LookupOf(groups));
    NoCycles(groups);
    SameId(groups, c, d);
    assert !OnCycle(E, d.groupId);
    if Reach(E, c.groupId, d.groupId) {
      ReachCases(E, c.groupId, d.groupId);
      var m := FirstStep(E, c.groupId, d.groupId);
      ParentStep(groups, c, m);
      ParentStep(groups, d, m);
      ReachEdge(E, d.groupId, m);
      ReachTrans(E, d.groupId, m, d.groupId);
    }
  }

  /** What lies below the first `n` of some siblings. */
  ghost function BelowAll(groups: seq<Group>, siblings: seq<Group>, n: nat): set<Group>
    requires n <= |siblings|
  {
    if n == 0 then {} else BelowAll(groups, siblings, n - 1) + Below(groups, siblings[n - 1].groupId)
  }

  lemma {:induction false} BelowAllIff(groups: seq<Group>, siblings: seq<Group>, n: nat, h: Group)
    requires n <= |siblings|
    ensures h in BelowAll(groups, siblings, n) <==> exists k :: 0 <= k < n && h in Below(groups, siblings[k].groupId)
  {
    if n > 0 {
      BelowAllIff(groups, siblings, n - 1, h);
    }
  }

  lemma {:induction false} NextSiblingApart(groups: seq<Group>, siblings: seq<Group>, n: nat, m: nat)
    requires Renderable(groups) && n <= m < |siblings| && Distinct(siblings)
    requires forall c :: c in siblings ==> c in groups && c.parent == siblings[0].parent
    ensures BelowAll(groups, siblings, n) !! Below(groups, siblings[m].groupId)
  {
    if n > 0 {
      NextSiblingApart(groups, siblings, n - 1, m);
      assert siblings[n - 1] in siblings && siblings[m] in siblings;
      SiblingsApart(groups, siblings[n - 1], siblings[m]);
    }
  }

  lemma BelowChildren(groups: seq<Group>, g: Group, children: seq<Group>)
    requires Renderable(groups) && g in groups
    requires forall c :: c in children <==> c in groups && c.parent == Some(g.groupId)
    ensures Below(groups, g.groupId) == {g} + BelowAll(groups, children, |children|)
    ensures g !in BelowAll(groups, children, |children|)
  {
    hide Renderable;
    forall h | h in groups
      ensures h in Below(groups, g.groupId) <==> h in {g} + BelowAll(groups, children, |children|)
    {
      BelowSplits(groups, g, h);
      BelowAllIff(groups, children, |children|, h);
      forall c | c in groups && c.parent == Some(g.groupId)
        ensures exists k :: 0 <= k < |children| && children[k] == c
      {
        assert c in children;
      }
      assert forall k :: 0 <= k < |children| ==> children[k] in children;
    }
    forall h | h in BelowAll(groups, children, |children|)
      ensures h in groups
    {
      BelowAllIff(groups, children, |children|, h);
    }
    if g in BelowAll(groups, children, |children|) {
      BelowAllIff(groups, children, |children|, g);
      var k :| 0 <= k < |children| && g in Below(groups, children[k].groupId);
      assert children[k] in children;
      NotBelowChild(groups, g, children[k]);
    }
  }

  /** One link of a chain is an edge to the parent. */
  lemma LinkIsEdge(groups: seq<Group>, g: Group, h: Group)
    requires UniqueIds(groups) && g in groups && Linked(LookupOf(groups), g, h)
    ensures (g.groupId, h.groupId) in ParentEdges(LookupOf(groups))
  {
    LookupHas(groups, g.parent.value);
    ParentStep(groups, g, g.parent.value);
  }

  lemma ChainIsWalk(groups: seq<Group>, g: Group, chain: seq<Group>)
    requires UniqueIds(groups) && IsChain(LookupOf(groups), g, chain) && forall c :: c in chain ==> c in groups
    ensures Reach(ParentEdges(LookupOf(groups)), g.groupId, chain[|chain| - 1].groupId)
  {
    hide LookupOf, UniqueIds, ParentEdges, Linked;
    var ids := Ids(chain);
    forall i, j | 0 <= i && j == i + 1 && j < |ids|
      ensures (ids[i], ids[j]) in ParentEdges(LookupOf(groups))
    {
      assert chain[i] in chain;
      LinkIsEdge(groups, chain[i], chain[j]);
    }
    assert WalkFromTo(ParentEdges(LookupOf(groups)), ids, g.groupId, chain[|chain| - 1].groupId);
  }

  /** Every group lies below some group without a parent. */
  lemma EverythingIsBelowATop(groups: seq<Group>, tops: seq<Group>, g: Group, chain: seq<Group>)
    requires Renderable(groups) && g in groups && IsChain(LookupOf(groups), g, chain)
             && forall c :: c in chain ==> c in groups
    requires forall t :: t in tops <==> t in groups && t.parent.None?
    ensures g in BelowAll(groups, tops, |tops|)
  {
    hide SoundHierarchy, LookupOf, UniqueIds, BelowAll, LinkedUp;
    ChainIsWalk(groups, g, chain);
    var top := chain[|chain| - 1];
    assert top in chain && top in tops;
    var k :| 0 <= k < |tops| && tops[k] == top;
    assert g in Below(groups, tops[k].groupId);
    BelowAllIff(groups, tops, |tops|, g);
  }

  lemma JoinCounts(a: set<Group>, b: set<Group>)
    requires a !! b
    ensures multiset(a + b) == multiset(a) + multiset(b)
  {
  }

  // ---------------------------------------------------------------------------
  // The order of the lines
  // ---------------------------------------------------------------------------

  /** `x` is shown before `y`: `y` lies below it, or they lie below two siblings in this order. */
  ghost predicate InTreeOrder(groups: seq<Group>, x: Group, y: Group)
  {
    || y in Below(groups, x.groupId)
    || exists c, d :: Elder(groups, c, d) && x in Below(groups, c.groupId) && y in Below(groups, d.groupId)
  }

  ghost predicate TreeOrdered(groups: seq<Group>, s: seq<Group>)
  {
    forall i, j :: 0 <= i < j < |s| ==> InTreeOrder(groups, s[i], s[j])
  }

  lemma BelowTrans(groups: seq<Group>, x: Group, y: Group, z: Group)
    requires y in Below(groups, x.groupId) && z in Below(groups, y.groupId)
    ensures z in Below(groups, x.groupId)
  {
    ReachTrans(ParentEdges(LookupOf(groups)), z.groupId, y.groupId, x.groupId);
  }

  /** Two groups above the same one lie one above the other. */
  lemma AboveInLine(groups: seq<Group>, c: Group, d: Group, y: Group)
    requires Renderable(groups) && c in groups && d in groups && y in Below(groups, c.groupId)
             && y in Below(groups, d.groupId)
    ensures c in Below(groups, d.groupId) || d in Below(groups, c.groupId)
  {
    hide SoundHierarchy, LookupOf, UniqueIds, Acyclic, Functional;
    var E := ParentEdges(LookupOf(groups));
    NoCycles(groups);
    var p :| WalkFromTo(E, p, y.groupId, c.groupId);
    FunctionalLine(E, p, y.groupId, c.groupId, d.groupId);
  }

  /** Whatever lies properly above a group lies above its siblings. */
  lemma SiblingBelow(groups: seq<Group>, a: Group, b: Group, top: Group)
    requires Renderable(groups) && a in groups && b in groups && top in groups
    requires a.parent == b.parent && a != top && a in Below(groups, top.groupId)
    ensures b in Below(groups, top.groupId)
  {
    hide SoundHierarchy, LookupOf, UniqueIds;
    var E := ParentEdges(LookupOf(groups));
    SameId(groups, a, top);
    ReachCases(E, a.groupId, top.groupId);
    var m := FirstStep(E, a.groupId, top.groupId);
    ParentStep(groups, a, m);
    ParentStep(groups, b, m);
    ReachEdge(E, b.groupId, m);
    ReachTrans(E, b.groupId, m, top.groupId);
  }

  /** What lies below an elder sibling lies below nothing that is shown after the younger one's subtree has begun. */
  lemma ElderIsOver(groups: seq<Group>, c: Group, d: Group, c': Group, d': Group, z: Group)
    requires Renderable(groups) && Elder(groups, c, d) && Elder(groups, c', d')
    requires c' in Below(groups, d.groupId) || d in Below(groups, c'.groupId)
    requires z in Below(groups, c.groupId)
    ensures z !in Below(groups, d'.groupId)
  {
    hide Renderable, Below, Elder;
    ElderBasics(groups, c, d);
    ElderBasics(groups, c', d');
    SiblingsApart(groups, c, d);
    SiblingsApart(groups, c', d');
    if c' == d {
      if c != d' {
        SiblingsApart(groups, c, d');
      }
    } else if c' in Below(groups, d.groupId) {
      SiblingBelow(groups, c', d', d);
      if z in Below(groups, d'.groupId) {
        BelowTrans(groups, d, d', z);
      }
    } else {
      SiblingBelow(groups, d, c, c');
      BelowTrans(groups, c', c, z);
    }
  }

  /** A subtree is contiguous: what is shown between a group and something below it lies below it too. */
  lemma NothingBetween(groups: seq<Group>, x: Group, y: Group, z: Group)
    requires Renderable(groups)
    requires InTreeOrder(groups, x, y) && InTreeOrder(groups, y, z) && z in Below(groups, x.groupId)
    ensures y in Below(groups, x.groupId)
  {
    hide Renderable, Below, Elder;
    if y !in Below(groups, x.groupId) {
      var c, d :| Elder(groups, c, d) && x in Below(groups, c.groupId) && y in Below(groups, d.groupId);
      ElderBasics(groups, c, d);
      BelowTrans(groups, c, x, z);
      SiblingsApart(groups, c, d);
      assert z !in Below(groups, y.groupId) by {
        if z in Below(groups, y.groupId) {
          BelowTrans(groups, d, y, z);
        }
      }
      var c', d' :| Elder(groups, c', d') && y in Below(groups, c'.groupId) && z in Below(groups, d'.groupId);
      ElderBasics(groups, c', d');
      AboveInLine(groups, c', d, y);
      ElderIsOver(groups, c, d, c', d', z);
    }
  }

  /** The tree order leaves no choice: two groups are in it one way round only. */
  lemma TreeOrderIsStrict(groups: seq<Group>, x: Group, y: Group)
    requires Renderable(groups) && x in groups && y in groups
    requires InTreeOrder(groups, x, y) && InTreeOrder(groups, y, x)
    ensures x == y
  {
    hide SoundHierarchy, LookupOf, UniqueIds;
    var E := ParentEdges(LookupOf(groups));
    BelowSplits(groups, x, x);
    BelowSplits(groups, y, y);
    NothingBetween(groups, x, y, x);
    NothingBetween(groups, y, x, y);
    SameId(groups, x, y);
    NoCycles(groups);
    assert !OnCycle(E, x.groupId);
    if x != y {
      ReachCases(E, x.groupId, y.groupId);
      ReachTrans(E, x.groupId, y.groupId, x.groupId);
    }
  }

  lemma OrderedConcat(groups: seq<Group>, a: seq<Group>, b: seq<Group>)
    requires TreeOrdered(groups, a) && TreeOrdered(groups, b)
    requires forall x, y :: x in a && y in b ==> InTreeOrder(groups, x, y)
    ensures TreeOrdered(groups, a + b)
  {
    hide InTreeOrder;
    forall i, j | 0 <= i < j < |a + b|
      ensures InTreeOrder(groups, (a + b)[i], (a + b)[j])
    {
      if j < |a| {
      } else if i < |a| {
        assert a[i] in a && b[j - |a|] in b;
      } else {
        assert InTreeOrder(groups, b[i - |a|], b[j - |a|]);
      }
    }
  }

  /** What lies below earlier siblings is shown before what lies below this one. */
  lemma EldersFirst(groups: seq<Group>, parent: Option<string>, n: nat, x: Group, y: Group)
    requires Renderable(groups) && n < |Siblings(groups, parent)|
    requires x in BelowAll(groups, Siblings(groups, parent), n)
             && y in Below(groups, Siblings(groups, parent)[n].groupId)
    ensures InTreeOrder(groups, x, y)
  {
    hide Renderable, Siblings, Below, BelowAll;
    var siblings := Siblings(groups, parent);
    BelowAllIff(groups, siblings, n, x);
    var k :| 0 <= k < n && x in Below(groups, siblings[k].groupId);
    SiblingsComplete(groups, parent);
    assert siblings[k] in siblings;
    assert Elder(groups, siblings[k], siblings[n]);
  }

  /** The lines so far, of `top` and of the first `n` siblings, grow by the lines of the next one. */
  lemma BlockGrows(groups: seq<Group>, parent: Option<string>, top: seq<Group>, n: nat, block: seq<Group>,
          part: seq<Group>)
    requires Renderable(groups) && n < |Siblings(groups, parent)|
    requires TreeOrdered(groups, block)
             && multiset(block) == multiset(top) + multiset(BelowAll(groups, Siblings(groups, parent), n))
    requires TreeOrdered(groups, part) && multiset(part) == multiset(Below(groups, Siblings(groups, parent)[n].groupId))
    requires forall t, y :: t in top && y in part ==> InTreeOrder(groups, t, y)
    ensures TreeOrdered(groups, block + part)
    ensures multiset(block + part) == multiset(top) + multiset(BelowAll(groups, Siblings(groups, parent), n + 1))
  {
    hide Renderable, Siblings, Below, InTreeOrder, TreeOrdered;
    var siblings := Siblings(groups, parent);
    SiblingsComplete(groups, parent);
    assert siblings[0] in siblings;
    NextSiblingApart(groups, siblings, n, n);
    BelowNext(groups, siblings, n);
    forall x, y | x in block && y in part
      ensures InTreeOrder(groups, x, y)
    {
      assert x in multiset(block) && y in multiset(part);
      if x !in multiset(top) {
        EldersFirst(groups, parent, n, x, y);
      }
    }
    OrderedConcat(groups, block, part);
  }

  // ---------------------------------------------------------------------------
  // The lines
  // ---------------------------------------------------------------------------

  ghost function LineText(group: Group, prefix: string, isLast: bool): string
  {
    prefix + (if isLast then "\U{2514}\U{2500}" else "\U{251C}\U{2500}") + " " + group.name + " [" + group.bloodgroup
      + ", " + group.exposure + "]"
  }

  ghost function ChildPrefix(prefix: string, isLast: bool): string
  {
    prefix + if isLast then "   " else "\U{2502}  "
  }

  /** A group is indented by one column more than its parent, on a line among those so far; a top group not at all. */
  ghost predicate Hangs(groups: seq<Group>, emitted: seq<Group>, prefixes: seq<string>, group: Group, prefix: string)
    requires |prefixes| == |emitted|
  {
    if group.parent.None? then prefix == ""
    else exists j :: 0 <= j < |emitted| && Some(emitted[j].groupId) == group.parent
                     && prefix == ChildPrefix(prefixes[j], IsYoungest(groups, emitted[j]))
  }

  /**
    Each line shows its group, with the corner iff it is the last of its siblings, hanging from its
    parent's line above.
   */
  ghost predicate LinesSound(groups: seq<Group>, lines: seq<string>, emitted: seq<Group>, prefixes: seq<string>)
  {
    && |lines| == |emitted| == |prefixes|
    && (forall i :: 0 <= i < |lines| ==> lines[i] == LineText(emitted[i], prefixes[i], IsYoungest(groups, emitted[i])))
    && forall i :: 0 <= i < |lines| ==> Hangs(groups, emitted[..i], prefixes[..i], emitted[i], prefixes[i])
  }

  lemma LineAdded(groups: seq<Group>, lines: seq<string>, emitted: seq<Group>, prefixes: seq<string>, group: Group,
          prefix: string)
    requires LinesSound(groups, lines, emitted, prefixes) && Hangs(groups, emitted, prefixes, group, prefix)
    ensures LinesSound(groups, lines + [LineText(group, prefix, IsYoungest(groups, group))], emitted + [group],
            prefixes + [prefix])
  {
    hide Hangs, LineText, IsYoungest;
    forall i | 0 <= i <= |emitted|
      ensures Hangs(groups, (emitted + [group])[..i], (prefixes + [prefix])[..i], (emitted + [group])[i],
              (prefixes + [prefix])[i])
    {
      assert (emitted + [group])[..i] == emitted[..i] && (prefixes + [prefix])[..i] == prefixes[..i];
      assert i == |emitted| ==> emitted[..i] == emitted && prefixes[..i] == prefixes;
    }
  }

  lemma StillHangs(groups: seq<Group>, emitted: seq<Group>, prefixes: seq<string>, n: nat, child: Group)
    requires n < |emitted| == |prefixes| && child.parent == Some(emitted[n].groupId)
    ensures Hangs(groups, emitted, prefixes, child, ChildPrefix(prefixes[n], IsYoungest(groups, emitted[n])))
  {
  }

  /** The indentation is three columns for every group above. */
  lemma {:induction false} IndentIsDepth(groups: seq<Group>, lines: seq<string>, emitted: seq<Group>,
          prefixes: seq<string>, i: nat, chain: seq<Group>)
    requires UniqueIds(groups) && LinesSound(groups, lines, emitted, prefixes)
             && forall g :: g in emitted ==> g in groups
    requires i < |emitted| == |prefixes| && IsChain(LookupOf(groups), emitted[i], chain)
    ensures |prefixes[i]| == 3 * (|chain| - 1)
    decreases i
  {
    hide UniqueIds, LookupOf, IsYoungest, LinesSound, IsChain;
    ChainFirst(LookupOf(groups), emitted[i], chain);
    var j := HangsFrom(groups, lines, emitted, prefixes, i);
    if emitted[i].parent.Some? {
      assert emitted[j] in emitted;
      LookupFinds(groups, emitted[j]);
      IndentIsDepth(groups, lines, emitted, prefixes, j, chain[1..]);
    }
  }

  /** The line a line hangs from. */
  lemma HangsFrom(groups: seq<Group>, lines: seq<string>, emitted: seq<Group>, prefixes: seq<string>, i: nat)
    returns (j: nat)
    requires LinesSound(groups, lines, emitted, prefixes) && i < |emitted|
    ensures |prefixes| == |emitted| && (emitted[i].parent.None? ==> prefixes[i] == "")
    ensures emitted[i].parent.Some? ==>
            j < i && Some(emitted[j].groupId) == emitted[i].parent && |prefixes[i]| == |prefixes[j]| + 3
  {
    hide IsYoungest, LineText;
    assert Hangs(groups, emitted[..i], prefixes[..i], emitted[i], prefixes[i]);
    if emitted[i].parent.None? {
      return 0;
    }
    j :| 0 <= j < i && Some(emitted[j].groupId) == emitted[i].parent
         && prefixes[i] == ChildPrefix(prefixes[j], IsYoungest(groups, emitted[j]));
  }

  /** A chain is its first group and the chain of the parent. */
  lemma ChainFirst(lookup: map<string, Group>, g: Group, chain: seq<Group>)
    requires IsChain(lookup, g, chain)
    ensures chain != [] && (g.parent.None? <==> |chain| == 1)
    ensures g.parent.Some? ==> g.parent.value in lookup && IsChain(lookup, lookup[g.parent.value], chain[1..])
  {
    if |chain| > 1 {
      assert Linked(lookup, chain[0], chain[1]);
      forall i, j | 0 <= i && j == i + 1 && j < |chain[1..]|
        ensures Linked(lookup, chain[1..][i], chain[1..][j])
      {
        assert Linked(lookup, chain[i + 1], chain[j + 1]);
      }
    }
  }

  class TreeRenderer {
    const groups: seq<Group>
    const children: map<Option<string>, seq<Group>>
    var lines: seq<string>
    ghost var emitted: seq<Group>
    ghost var prefixes: seq<string>

    constructor (groups: seq<Group>)
      requires Renderable(groups)
      ensures this.groups == groups && Valid() && lines == [] && emitted == []
    {
      this.groups := groups;
      children := map p | p in (set g | g in groups :: g.parent) :: Siblings(groups, p);
      lines, emitted, prefixes := [], [], [];
    }

    ghost predicate Valid()
      reads this
    {
      && Renderable(groups)
      && (forall p :: p in children <==> exists g :: g in groups && g.parent == p)
      && (forall p :: p in children ==> children[p] == Siblings(groups, p))
      && LinesSound(groups, lines, emitted, prefixes)
    }

    function ChildrenOf(parent: Option<string>): (r: seq<Group>)
      reads this
    {
      if parent in children then children[parent] else []
    }

    lemma ChildrenComplete(parent: Option<string>)
      requires Valid()
      ensures ChildrenOf(parent) == Siblings(groups, parent)
    {
      hide Renderable, Siblings, LinesSound;
      SiblingsComplete(groups, parent);
      assert Siblings(groups, parent) != [] ==> Siblings(groups, parent)[0] in Siblings(groups, parent);
    }

    /** Appends the line of one group. */
    method Emit(group: Group, prefix: string, isLast: bool)
      requires Valid() && Hangs(groups, emitted, prefixes, group, prefix) && (isLast <==> IsYoungest(groups, group))
      modifies this
      ensures Valid() && emitted == old(emitted) + [group] && prefixes == old(prefixes) + [prefix]
    {
      hide Renderable, LinesSound, Hangs, IsYoungest, Siblings;
      LineAdded(groups, lines, emitted, prefixes, group, prefix);
      var connector := if isLast then "\U{2514}\U{2500}" else "\U{251C}\U{2500}";
      var text := prefix + connector + " " + group.name + " [" + group.bloodgroup + ", " + group.exposure + "]";
      lines := lines + [text];
      emitted := emitted + [group];
      prefixes := prefixes + [prefix];
    }

    lemma ValidGroups()
      requires Valid()
      ensures Renderable(groups) && |emitted| == |prefixes|
    {
    }

    lemma ValidLines()
      requires Valid()
      ensures LinesSound(groups, lines, emitted, prefixes) && |lines| == |emitted|
    {
    }

    /**
      The line of the group, then the subtrees of its children by name: all that lies below, once
      each and in order.
     */
    method Render(group: Group, prefix: string, isLast: bool)
      requires Valid() && group in groups
      requires |emitted| == |prefixes| && Hangs(groups, emitted, prefixes, group, prefix)
               && (isLast <==> IsYoungest(groups, group))
      modifies this
      ensures Valid() && old(emitted) <= emitted && old(prefixes) <= prefixes
      ensures TreeOrdered(groups, emitted[|old(emitted)|..])
      ensures multiset(emitted[|old(emitted)|..]) == multiset(Below(groups, group.groupId))
      decreases |Below(groups, group.groupId)|
    {
      hide Renderable, Below, BelowAll, LineText, TreeRenderer.Valid, ChildrenOf, Distinct, Siblings, IsYoungest,
        TreeOrdered, InTreeOrder, Hangs;
      ghost var before, n := emitted, |emitted|;
      Emit(group, prefix, isLast);
      ValidGroups();
      ChildrenComplete(Some(group.groupId));
      var childList := ChildrenOf(Some(group.groupId));
      SiblingsComplete(groups, Some(group.groupId));
      BelowChildren(groups, group, childList);
      NoneBelow(groups, childList);
      ghost var block := [group];
      OneLine(groups, group);
      for idx := 0 to |childList|
        invariant Valid() && |emitted| == |prefixes| && emitted == before + block && block != [] && block[0] == group
        invariant n < |prefixes| && prefixes[n] == prefix && old(prefixes) <= prefixes
        invariant TreeOrdered(groups, block)
                  && multiset(block) == multiset([group]) + multiset(BelowAll(groups, childList, idx))
      {
        var child := childList[idx];
        assert child in childList;
        assert emitted[n] == group;
        ChildSmaller(groups, group, childList, idx);
        StillHangs(groups, emitted, prefixes, n, child);
        LastIsYoungest(groups, Some(group.groupId), idx);
        var childPrefix := prefix + if isLast then "   " else "\U{2502}  ";
        Render(child, childPrefix, idx == |childList| - 1);
        ValidGroups();
        ghost var part := emitted[|before + block|..];
        ParentFirst(groups, group, child, part);
        BlockGrows(groups, Some(group.groupId), [group], idx, block, part);
        block := block + part;
      }
      JoinCounts({group}, BelowAll(groups, childList, |childList|));
      assert emitted[n..] == block && multiset([group]) == multiset({group});
    }
  }

  lemma OneLine(groups: seq<Group>, g: Group)
    ensures TreeOrdered(groups, [g])
  {
  }

  /** What lies below a child is shown after its parent. */
  lemma ParentFirst(groups: seq<Group>, g: Group, c: Group, part: seq<Group>)
    requires Renderable(groups) && g in groups && c in groups && c.parent == Some(g.groupId)
    requires multiset(part) == multiset(Below(groups, c.groupId))
    ensures forall t, y :: t in [g] && y in part ==> InTreeOrder(groups, t, y)
  {
    hide Renderable;
    forall y | y in part
      ensures InTreeOrder(groups, g, y)
    {
      assert y in multiset(part);
      BelowSplits(groups, g, y);
    }
  }

  lemma NoneBelow(groups: seq<Group>, siblings: seq<Group>)
    ensures BelowAll(groups, siblings, 0) == {}
  {
  }

  lemma BelowNext(groups: seq<Group>, siblings: seq<Group>, n: nat)
    requires n < |siblings| && BelowAll(groups, siblings, n) !! Below(groups, siblings[n].groupId)
    ensures multiset(BelowAll(groups, siblings, n + 1))
            == multiset(BelowAll(groups, siblings, n)) + multiset(Below(groups, siblings[n].groupId))
  {
    JoinCounts(BelowAll(groups, siblings, n), Below(groups, siblings[n].groupId));
  }

  lemma ChildSmaller(groups: seq<Group>, g: Group, children: seq<Group>, n: nat)
    requires Renderable(groups) && g in groups && n < |children|
    requires forall c :: c in children <==> c in groups && c.parent == Some(g.groupId)
    ensures |Below(groups, children[n].groupId)| < |Below(groups, g.groupId)|
  {
    hide Renderable;
    var c := children[n];
    assert c in children;
    NotBelowChild(groups, g, c);
    forall h | h in Below(groups, c.groupId)
      ensures h in Below(groups, g.groupId)
    {
      BelowSplits(groups, g, h);
    }
    BelowSplits(groups, g, g);
    assert Below(groups, c.groupId) < Below(groups, g.groupId);
    SmallerSet(Below(groups, c.groupId), Below(groups, g.groupId));
  }

  lemma {:induction false} SmallerSet(a: set<Group>, b: set<Group>)
    requires a < b
    ensures |a| < |b|
  {
    assert |b - a| > 0;
    assert b == a + (b - a);
  }

  /** Terminates, and shows every group in exactly one line, in tree order, indented under its parent. */
  method RenderComponentTree(groups: seq<Group>)
    returns (lines: seq<string>, ghost emitted: seq<Group>, ghost prefixes: seq<string>)
    requires UniqueIds(groups) && SoundHierarchy(groups)
    ensures multiset(emitted) == multiset(groups) && TreeOrdered(groups, emitted)
    ensures LinesSound(groups, lines, emitted, prefixes)
    ensures |lines| == |groups|
  {
    hide SoundHierarchy, UniqueIds, Below, BelowAll, Siblings, IsYoungest, TreeOrdered, InTreeOrder, LineText,
      LinesSound, TreeRenderer.Valid;
    var renderer := new TreeRenderer(groups);
    var tops := Siblings(groups, None);
    SiblingsComplete(groups, None);
    NoneBelow(groups, tops);
    NoLines(groups);
    for idx := 0 to |tops|
      invariant renderer.Valid() && renderer.groups == groups
      invariant TreeOrdered(groups, renderer.emitted)
                && multiset(renderer.emitted) == multiset([]) + multiset(BelowAll(groups, tops, idx))
    {
      assert tops[idx] in tops;
      renderer.ValidGroups();
      LastIsYoungest(groups, None, idx);
      ghost var block := renderer.emitted;
      renderer.Render(tops[idx], "", idx == |tops| - 1);
      ghost var part := renderer.emitted[|block|..];
      BlockGrows(groups, None, [], idx, block, part);
      assert renderer.emitted == block + part;
    }
    AllBelowTops(groups, tops);
    lines, emitted, prefixes := renderer.lines, renderer.emitted, renderer.prefixes;
    renderer.ValidLines();
    assert |multiset(emitted)| == |multiset(groups)|;
  }

  lemma NoLines(groups: seq<Group>)
    ensures TreeOrdered(groups, [])
  {
  }

  lemma AllBelowTops(groups: seq<Group>, tops: seq<Group>)
    requires Renderable(groups) && forall t :: t in tops <==> t in groups && t.parent.None?
    ensures multiset(BelowAll(groups, tops, |tops|)) == multiset(groups)
  {
    hide SoundHierarchy;
    GroupsDistinct(groups);
    DistinctMultiset(groups);
    var all := BelowAll(groups, tops, |tops|);
    forall g
      ensures g in all <==> g in groups
    {
      BelowAllIff(groups, tops, |tops|, g);
      if g in groups {
        var chain := ChainExists(groups, g);
        EverythingIsBelowATop(groups, tops, g, chain);
      }
    }
    assert forall g :: multiset(all)[g] == multiset(groups)[g];
  }

  lemma ChainExists(groups: seq<Group>, g: Group) returns (chain: seq<Group>)
    requires Renderable(groups) && g in groups
    ensures IsChain(LookupOf(groups), g, chain) && forall c :: c in chain ==> c in groups
  {
    hide SoundHierarchy, LinkedUp, LookupOf, UniqueIds;
    chain := [g];
    NoLinks(LookupOf(groups), g);
    while chain[|chain| - 1].parent.Some?
      invariant Climbing(groups, g, chain)
      decreases |LookupOf(groups).Keys| - |chain|
    {
      ClimbStep(groups, g, chain);
      chain := chain + [LookupOf(groups)[chain[|chain| - 1].parent.value]];
    }
  }
}
