/**
  The search itself, over mutable fields, and the cycle findings of the reference gate
  that are computed from its answer.
 */
module ReferenceIntegrity {
  import opened Ordering
  import opened Graphs
  import opened Components

  type Adjacency = map<string, seq<string>>

  /** The adjacency lists hold exactly the edges, and every endpoint has a list. */
  ghost predicate Lists(adjacency: Adjacency, E: Edges)
  {
    && (forall v, w {:trigger (v, w) in E} :: (v, w) in E <==> v in adjacency && w in adjacency[v])
    && (forall v, w {:trigger (v, w) in E} :: (v, w) in E ==> w in adjacency)
  }

  function Min(a: nat, b: nat): nat
  {
    if b < a then b else a
  }

  class ComponentSearch {
    const adjacency: Adjacency
    var index: nat
    var indices: map<string, nat>
    var lowlinks: map<string, nat>
    var stack: seq<string>
    var onStack: set<string>
    var components: seq<seq<string>>

    constructor (adjacency: Adjacency)
      ensures this.adjacency == adjacency
      ensures State() == Snapshot(0, map[], map[], [], {}, [])
    {
      this.adjacency := adjacency;
      index, indices, lowlinks, stack, onStack, components := 0, map[], map[], [], {}, [];
    }

    ghost function State(): Snapshot
      reads this
    {
      Snapshot(index, indices, lowlinks, stack, onStack, components)
    }

    method TakeLow(node: string, bound: nat)
      requires node in lowlinks
      modifies this`lowlinks
      ensures State() == Lowered(old(State()), node, bound)
    {
      lowlinks := lowlinks[node := Min(lowlinks[node], bound)];
    }

    /** Numbers `node`, follows its edges in ascending order, and completes its component if it is a root. */
    method Visit(node: string, ghost E: Edges, ghost open: set<string>)
      requires Lists(adjacency, E) && Inv(E, adjacency.Keys, State(), open)
      requires node in adjacency && node !in indices
      requires forall x :: x in open ==> Reach(E, x, node)
      modifies this
      ensures Inv(E, adjacency.Keys, State(), open) && Visited(E, old(State()), State(), node)
      decreases adjacency.Keys - indices.Keys
    {
      hide Inv, Progress, Visited, Numbered, Extends, Ordered, Distinct, Lists, AreTargets, Sorted, Lowered, Reach;
      ghost var s := State();
      ghost var V := adjacency.Keys;
      InvFacts(E, V, s, open);
      PushBegins(E, V, s, node, open);
      indices, lowlinks := indices[node := index], lowlinks[node := index];
      index := index + 1;
      stack := stack + [node];
      onStack := onStack + {node};

      var targets := Sorted(StringLe, adjacency[node]);
      TargetsOf(adjacency, E, node);
      for i := 0 to |targets|
        invariant Scanning(E, V, s, State(), node, open, targets[..i])
      {
        var target := targets[i];
        ghost var t := State();
        ScanningFacts(E, V, s, t, node, open, targets[..i]);
        TargetAt(adjacency, E, node, targets, i);
        if target !in indices {
          ReachToTarget(E, V, t, node, open, target);
          Visit(target, E, open + {node});
          ghost var u := State();
          VisitedFacts(E, V, t, u, node, open, target);
          FreshTarget(E, V, s, t, u, node, open, targets[..i], target);
          TakeLow(node, lowlinks[target]);
        } else if target in onStack {
          StackedTarget(E, V, s, t, node, open, targets[..i], target);
          TakeLow(node, indices[target]);
        } else {
          PoppedTarget(E, V, s, t, node, open, targets[..i], target);
        }
      }
      assert targets[..|targets|] == targets;
      AllTargets(adjacency, E, node, targets);
      ghost var t := State();
      ScanningFacts(E, V, s, t, node, open, targets);
      if lowlinks[node] != indices[node] {
        NotRoot(E, V, s, t, node, open, targets);
        return;
      }
      Complete(node, s, E, open, targets);
    }

    /** `node` is a root: everything stacked since its visit began is its component. */
    method Complete(node: string, ghost s: Snapshot, ghost E: Edges, ghost open: set<string>, ghost done: seq<string>)
      requires Lists(adjacency, E) && Numbered(adjacency.Keys, s) && open <= s.onStack
      requires Scanning(E, adjacency.Keys, s, State(), node, open, done)
      requires node in adjacency && forall w :: (node, w) in E ==> w in done
      requires node in indices && node in lowlinks && lowlinks[node] == indices[node]
      modifies this`stack, this`onStack, this`components
      ensures Inv(E, adjacency.Keys, State(), open) && Visited(E, s, State(), node)
    {
      hide Inv, Progress, Visited, Numbered, Extends, Ordered, Lists;
      ghost var V := adjacency.Keys;
      ghost var t := State();
      CompleteFacts(E, V, s, t, node, open, done);
      var component := PopDownTo(node, |s.stack|);
      var canonical := Sorted(StringLe, component);
      SortedComponent(component, Segment(s, t));
      SelfLoop(adjacency, E, node);
      if |canonical| > 1 || node in adjacency[node] {
        components := components + [canonical];
      }
      assert State() == Trimmed(s, t, components);
      Root(E, V, s, t, node, open, done, canonical, components);
      RootVisited(E, V, s, t, node, done, components);
    }

    /** Pops the stack down to and including `node`, which sits at position `at`. */
    method PopDownTo(node: string, ghost at: nat) returns (component: seq<string>)
      requires at < |stack| && stack[at] == node && Distinct(stack)
      requires forall v :: v in stack ==> v in onStack
      modifies this`stack, this`onStack
      ensures stack == old(stack)[..at]
      ensures onStack == old(onStack) - Elements(old(stack)[at..])
      ensures multiset(component) == multiset(old(stack)[at..])
    {
      hide Elements, Distinct;
      component := [];
      NothingPopped(stack);
      while stack != []
        invariant at < |stack| <= |old(stack)| && stack == old(stack)[..|stack|]
        invariant onStack == old(onStack) - Elements(old(stack)[|stack|..])
        invariant multiset(component) == multiset(old(stack)[|stack|..])
        decreases |stack|
      {
        var k := |stack| - 1;
        var target := stack[k];
        PopOne(old(stack), k);
        OnlyAt(old(stack), at, k);
        stack := stack[..k];
        onStack := onStack - {target};
        component := component + [target];
        if target == node {
          break;
        }
      }
    }
  }

  lemma NothingPopped(s: seq<string>)
    ensures s[|s|..] == [] && Elements(s[|s|..]) == {}
  {
  }

  lemma PopOne(s: seq<string>, k: nat)
    requires k < |s|
    ensures Elements(s[k..]) == Elements(s[k + 1..]) + {s[k]}
    ensures multiset(s[k..]) == multiset(s[k + 1..]) + multiset{s[k]}
  {
    assert s[k..] == [s[k]] + s[k + 1..];
  }

  lemma OnlyAt(s: seq<string>, at: nat, k: nat)
    requires at < |s| && k < |s| && Distinct(s)
    ensures s[k] == s[at] <==> k == at
  {
  }

  lemma ScanningFacts(E: Edges, V: set<string>, s: Snapshot, t: Snapshot, node: string, open: set<string>,
          done: seq<string>)
    requires Scanning(E, V, s, t, node, open, done)
    ensures s.indices.Keys < t.indices.Keys <= V
    ensures t.lowlinks.Keys == t.indices.Keys && t.onStack <= t.indices.Keys
    ensures node in t.indices
  {
    assert node in t.indices.Keys && node !in s.indices.Keys;
  }

  lemma CompleteFacts(E: Edges, V: set<string>, s: Snapshot, t: Snapshot, node: string, open: set<string>,
          done: seq<string>)
    requires Numbered(V, s) && Scanning(E, V, s, t, node, open, done)
    ensures |s.stack| < |t.stack| && t.stack[|s.stack|] == node && t.stack[..|s.stack|] == s.stack
    ensures Distinct(t.stack) && Distinct(Segment(s, t)) && forall v :: v in t.stack ==> v in t.onStack
    ensures t.onStack - Elements(Segment(s, t)) == s.onStack
  {
    hide Reported, Coloured, OpenReaches, ReachesOpen;
    SegmentMembers(V, s, t, node);
    StackDistinct(V, t);
  }

  lemma SelfLoop(adjacency: Adjacency, E: Edges, node: string)
    requires Lists(adjacency, E) && node in adjacency
    ensures (node, node) in E <==> node in adjacency[node]
  {
  }

  lemma VisitedFacts(E: Edges, V: set<string>, t: Snapshot, u: Snapshot, node: string, open: set<string>, w: string)
    requires Inv(E, V, u, open + {node}) && Visited(E, t, u, w) && node in t.indices
    ensures u.lowlinks.Keys == u.indices.Keys && node in u.indices && w in u.indices
  {
  }

  lemma ReachToTarget(E: Edges, V: set<string>, t: Snapshot, node: string, open: set<string>, target: string)
    requires Inv(E, V, t, open + {node}) && (node, target) in E
    requires forall x :: x in open ==> Reach(E, x, node)
    ensures forall x :: x in open + {node} ==> Reach(E, x, target)
  {
    ReachEdge(E, node, target);
    forall x | x in open
      ensures Reach(E, x, target)
    {
      ReachTrans(E, x, node, target);
    }
  }

  lemma SortedComponent(component: seq<string>, segment: seq<string>)
    requires multiset(component) == multiset(segment) && Distinct(segment)
    ensures var c := Sorted(StringLe, component);
            Ordered(StringLe, c) && Distinct(c) && forall v :: v in c <==> v in segment
  {
    var c := Sorted(StringLe, component);
    StringOrder();
    SortedOrdered(StringLe, component);
    DistinctMultiset(segment);
    MultisetDistinct(c);
    SameElements(c, segment);
  }

  // ---------------------------------------------------------------------------
  // From edges to components
  // ---------------------------------------------------------------------------

  lemma EdgeSetGrows(edges: seq<DefersEdge>, k: nat)
    requires k < |edges|
    ensures EdgeSet(edges[..k + 1]) == EdgeSet(edges[..k]) + {(edges[k].source, edges[k].target)}
  {
    assert edges[..k + 1] == edges[..k] + [edges[k]];
  }

  method BuildAdjacency(edges: seq<DefersEdge>) returns (adjacency: Adjacency)
    ensures Lists(adjacency, EdgeSet(edges)) && adjacency.Keys == Nodes(EdgeSet(edges))
  {
    hide Lists, EdgeSet, Nodes;
    adjacency := map[];
    NoEdges();
    assert edges[..0] == [];
    for k := 0 to |edges|
      invariant Lists(adjacency, EdgeSet(edges[..k])) && adjacency.Keys == Nodes(EdgeSet(edges[..k]))
    {
      var edge := edges[k];
      ghost var before := adjacency;
      EdgeSetGrows(edges, k);
      adjacency :=
        adjacency[edge.source := (if edge.source in adjacency then adjacency[edge.source] else []) + [edge.target]];
      if edge.target !in adjacency {
        adjacency := adjacency[edge.target := []];
      }
      ListsGrow(before, adjacency, EdgeSet(edges[..k]), edge.source, edge.target);
      NodesGrow(EdgeSet(edges[..k]), edge.source, edge.target);
    }
    assert edges[..|edges|] == edges;
  }

  lemma NoEdges()
    ensures Lists(map[], EdgeSet([])) && Nodes(EdgeSet([])) == {}
  {
  }

  lemma NodesGrow(E: Edges, a: string, b: string)
    ensures Nodes(E + {(a, b)}) == Nodes(E) + {a, b}
  {
    var F := E + {(a, b)};
    assert (a, b) in F && (a, b).0 == a && (a, b).1 == b;
    forall v | v in Nodes(F)
      ensures v in Nodes(E) + {a, b}
    {
      var e :| e in F && (e.0 == v || e.1 == v);
    }
  }

  lemma ListsGrow(before: Adjacency, after: Adjacency, E: Edges, a: string, b: string)
    requires Lists(before, E)
    requires a in after && after[a] == (if a in before then before[a] else []) + [b]
    requires b in after && (b != a ==> after[b] == if b in before then before[b] else [])
    requires after.Keys == before.Keys + {a, b}
    requires forall v :: v in before && v != a && v != b ==> after[v] == before[v]
    ensures Lists(after, E + {(a, b)})
  {
    forall v, w
      ensures (v, w) in E + {(a, b)} <==> v in after && w in after[v]
    {
      assert (v, w) in E <==> v in before && w in before[v];
    }
  }

  lemma TargetsOf(adjacency: Adjacency, E: Edges, node: string)
    requires Lists(adjacency, E) && node in adjacency
    ensures AreTargets(adjacency, E, node, Sorted(StringLe, adjacency[node]))
  {
    SameElements(Sorted(StringLe, adjacency[node]), adjacency[node]);
  }

  /** The list names exactly the targets of the node's edges. */
  ghost predicate AreTargets(adjacency: Adjacency, E: Edges, node: string, targets: seq<string>)
  {
    forall w :: (w in targets <==> (node, w) in E) && (w in targets ==> w in adjacency)
  }

  lemma TargetAt(adjacency: Adjacency, E: Edges, node: string, targets: seq<string>, i: nat)
    requires AreTargets(adjacency, E, node, targets) && i < |targets|
    ensures (node, targets[i]) in E && targets[i] in adjacency
    ensures targets[..i] + [targets[i]] == targets[..i + 1]
  {
  }

  lemma AllTargets(adjacency: Adjacency, E: Edges, node: string, targets: seq<string>)
    requires AreTargets(adjacency, E, node, targets)
    ensures forall w :: (node, w) in E ==> w in targets
  {
  }

  lemma CycleNodesListed(adjacency: Adjacency, E: Edges, v: string)
    requires Lists(adjacency, E) && OnCycle(E, v)
    ensures v in adjacency
  {
    var m := FirstStep(E, v, v);
  }

  lemma NothingOpen(E: Edges, V: set<string>, s: Snapshot)
    requires Inv(E, V, s, {})
    ensures s.onStack == {} && s.Popped() == s.indices.Keys
  {
    forall y
      ensures y !in s.onStack
    {
      assert y in s.onStack ==> Anchored(E, s, {}, y);
    }
  }

  /** The first `n` nodes have their numbers. */
  ghost predicate NumberedAll(nodes: seq<string>, n: nat, s: Snapshot)
  {
    n <= |nodes| && forall k :: 0 <= k < n ==> nodes[k] in s.indices
  }

  lemma NoneNumbered(s: Snapshot)
    ensures forall nodes :: NumberedAll(nodes, 0, s)
  {
  }

  lemma OneMoreVisited(E: Edges, s: Snapshot, t: Snapshot, nodes: seq<string>, n: nat)
    requires NumberedAll(nodes, n, s) && n < |nodes| && Visited(E, s, t, nodes[n])
    ensures NumberedAll(nodes, n + 1, t)
  {
  }

  lemma OneMoreNumbered(s: Snapshot, nodes: seq<string>, n: nat)
    requires NumberedAll(nodes, n, s) && n < |nodes| && nodes[n] in s.indices
    ensures NumberedAll(nodes, n + 1, s)
  {
  }

  lemma AllNumbered(s: Snapshot, nodes: seq<string>)
    requires NumberedAll(nodes, |nodes|, s)
    ensures forall v :: v in nodes ==> v in s.indices
  {
  }

  lemma FullReport(adjacency: Adjacency, E: Edges, s: Snapshot)
    requires Lists(adjacency, E) && Inv(E, adjacency.Keys, s, {})
    requires forall v :: v in adjacency ==> v in s.indices
    ensures AreCyclicComponents(E, Sorted(TupleLe, s.components))
  {
    var comps := Sorted(TupleLe, s.components);
    NothingOpen(E, adjacency.Keys, s);
    TupleOrder();
    SortedOrdered(TupleLe, s.components);
    SortedDistinct(TupleLe, s.components);
    SameElements(comps, s.components);
    forall v
      ensures OnCycle(E, v) <==> exists c :: c in comps && v in c
    {
      if OnCycle(E, v) {
        CycleNodesListed(adjacency, E, v);
      }
    }
  }

  /** The non-trivial strongly connected components of a list of edges. */
  method StrongComponents(edges: seq<DefersEdge>) returns (comps: seq<seq<string>>)
    ensures AreCyclicComponents(EdgeSet(edges), comps)
    ensures TuplesAscending(comps) && forall c :: c in comps ==> Ascending(c)
  {
    hide TuplesAscending, Ascending;
    hide Inv, Visited, Lists, EdgeSet, Nodes, AreCyclicComponents, Ordered, Distinct, TotalPreorder, Antisymmetric,
      NumberedAll,
      Sorted, StringLe, TupleLe, Reach;
    ghost var E := EdgeSet(edges);
    var adjacency := BuildAdjacency(edges);
    var search := new ComponentSearch(adjacency);
    InitialInv(E, adjacency.Keys);
    SortableStrings();
    NoneNumbered(search.State());
    var nodes := SortedSet(StringLe, adjacency.Keys);
    for i := 0 to |nodes|
      invariant search.adjacency == adjacency
      invariant Inv(E, adjacency.Keys, search.State(), {})
      invariant NumberedAll(nodes, i, search.State())
    {
      var node := nodes[i];
      ghost var before := search.State();
      assert node in nodes;
      if node !in search.indices {
        search.Visit(node, E, {});
        OneMoreVisited(E, before, search.State(), nodes, i);
      } else {
        OneMoreNumbered(before, nodes, i);
      }
    }
    AllNumbered(search.State(), nodes);
    FullReport(adjacency, E, search.State());
    comps := Sorted(TupleLe, search.components);
    ComponentsAscend(E, comps);
  }

  /** Each component ascends, and so does their list, each beginning with what is smaller where they first differ. */
  lemma ComponentsAscend(E: Edges, comps: seq<seq<string>>)
    requires AreCyclicComponents(E, comps)
    ensures TuplesAscending(comps) && forall c :: c in comps ==> Ascending(c)
  {
    hide Ordered, Distinct, Ascending, TuplesAscending, Mutual;
    OrderedTuplesAscend(comps);
    forall c | c in comps
      ensures Ascending(c)
    {
      OrderedAscends(c);
    }
  }

  lemma SortableStrings()
    ensures TotalPreorder(StringLe)
  {
    StringOrder();
  }

  lemma InitialInv(E: Edges, V: set<string>)
    ensures Inv(E, V, Snapshot(0, map[], map[], [], {}, []), {})
  {
  }

  // ---------------------------------------------------------------------------
  // Cycle findings
  // ---------------------------------------------------------------------------

  /** `c` is a component that carries a cycle. */
  ghost predicate IsCyclicComponent(E: Edges, c: seq<string>)
  {
    IsComponent(E, c) && OnCycle(E, c[0])
  }

  lemma ListedIffCyclic(E: Edges, comps: seq<seq<string>>, c: seq<string>)
    requires AreCyclicComponents(E, comps)
    ensures c in comps <==> IsCyclicComponent(E, c)
  {
    if IsCyclicComponent(E, c) {
      assert c[0] in c;
      var d :| d in comps && c[0] in d;
      ComponentsShareNothing(E, c, d, c[0]);
    }
    if c in comps {
      assert c[0] in c && OnCycle(E, c[0]);
    }
  }

  function ScopedTo(edges: seq<DefersEdge>, scope: string): (r: seq<DefersEdge>)
    ensures forall e :: e in r <==> e in edges && e.scope == Scoped(scope)
  {
    if edges == [] then []
    else
      assert edges == [edges[0]] + edges[1..];
      (if edges[0].scope == Scoped(scope) then [edges[0]] else []) + ScopedTo(edges[1..], scope)
  }

  /** SCOPE_DEFERS_TO_CYCLE with its component; the rendered message is not modelled. */
  datatype ScopeCycle = ScopeCycle(scope: string, component: seq<string>)

  /** The edges of `scope` alone contain a directed cycle. */
  ghost predicate ScopeHasCycle(edges: seq<DefersEdge>, scope: string)
  {
    !Acyclic(EdgeSet(ScopedTo(edges, scope)))
  }

  /** One finding for each cyclic component of each scope, and no other. */
  method ScopeCycleFindings(edges: seq<DefersEdge>) returns (findings: seq<ScopeCycle>)
    ensures forall f :: f in findings <==> IsCyclicComponent(EdgeSet(ScopedTo(edges, f.scope)), f.component)
    ensures Distinct(findings)
  {
    findings := [];
    var scopeSet := set edge | edge in edges && edge.scope.Scoped? :: edge.scope.name;
    StringOrder();
    var scopes := SortedSet(StringLe, scopeSet);
    for i := 0 to |scopes|
      invariant Distinct(findings)
      invariant forall f :: f in findings <==>
                            f.scope in scopes[..i] && IsCyclicComponent(EdgeSet(ScopedTo(edges, f.scope)), f.component)
    {
      var scope := scopes[i];
      var comps := StrongComponents(ScopedTo(edges, scope));
      forall c
        ensures c in comps <==> IsCyclicComponent(EdgeSet(ScopedTo(edges, scope)), c)
      {
        ListedIffCyclic(EdgeSet(ScopedTo(edges, scope)), comps, c);
      }
      assert scopes[..i + 1] == scopes[..i] + [scope];
      var added := seq(|comps|, k requires 0 <= k < |comps| => ScopeCycle(scope, comps[k]));
      forall f
        ensures f in added <==> f.scope == scope && f.component in comps
      {
        if f.scope == scope && f.component in comps {
          var k :| 0 <= k < |comps| && comps[k] == f.component;
          assert added[k] == f;
        }
      }
      assert forall f :: f in findings ==> f !in added;
      findings := findings + added;
    }
    assert scopes[..|scopes|] == scopes;
    forall f: ScopeCycle | IsCyclicComponent(EdgeSet(ScopedTo(edges, f.scope)), f.component)
      ensures f.scope in scopes
    {
      var E := EdgeSet(ScopedTo(edges, f.scope));
      var m := FirstStep(E, f.component[0], f.component[0]);
      var e :| e in ScopedTo(edges, f.scope) && (e.source, e.target) == (f.component[0], m);
      assert e in edges && e.scope.name in scopeSet;
    }
  }

  lemma {:induction false} Listing(S: set<string>) returns (r: seq<string>)
    ensures Distinct(r) && forall x :: x in r <==> x in S
    decreases S
  {
    if S == {} {
      r := [];
    } else {
      var x :| x in S;
      var rest := Listing(S - {x});
      r := [x] + rest;
    }
  }

  lemma MutualNode(E: Edges, v: string, u: string)
    requires OnCycle(E, v) && Mutual(E, v, u)
    ensures u in Nodes(E)
  {
    if u == v {
      var m := FirstStep(E, v, v);
    } else {
      ReachCases(E, v, u);
      var m := LastStep(E, v, u);
    }
  }

  lemma MutualSpreads(E: Edges, v: string, x: string, w: string)
    requires Mutual(E, v, x)
    ensures Mutual(E, v, w) <==> Mutual(E, x, w)
  {
    if Mutual(E, v, w) {
      ReachTrans(E, x, v, w);
      ReachTrans(E, w, v, x);
    }
    if Mutual(E, x, w) {
      ReachTrans(E, v, x, w);
      ReachTrans(E, w, x, v);
    }
  }

  /** A node on a cycle has a component, namely the nodes it is mutually reachable with. */
  lemma ComponentOf(E: Edges, v: string) returns (c: seq<string>)
    requires OnCycle(E, v)
    ensures IsComponent(E, c) && v in c
  {
    hide Mutual, Ordered, Distinct, TotalPreorder, OnCycle, Nodes;
    var S := set u | u in Nodes(E) && Mutual(E, v, u);
    c := SortedListing(S);
    MutualSelf(E, v);
    MutualNode(E, v, v);
    forall x, w | x in c
      ensures w in c <==> Mutual(E, x, w)
    {
      MutualSpreads(E, v, x, w);
      if Mutual(E, v, w) {
        MutualNode(E, v, w);
      }
    }
  }

  lemma SortedListing(S: set<string>) returns (c: seq<string>)
    ensures Ordered(StringLe, c) && Distinct(c) && forall v :: v in c <==> v in S
  {
    hide TotalPreorder, Ordered, Distinct;
    var listed := Listing(S);
    SortableStrings();
    c := Sorted(StringLe, listed);
    SameElements(c, listed);
    SortedOrdered(StringLe, listed);
    SortedDistinct(StringLe, listed);
  }

  lemma MutualSelf(E: Edges, v: string)
    ensures Mutual(E, v, v)
  {
    ReachSelf(E, v);
  }

  /** Every node on a cycle lies in a cyclic component, and cyclic components hold no other nodes. */
  lemma ComponentExists(E: Edges, v: string)
    ensures OnCycle(E, v) <==> exists c :: IsCyclicComponent(E, c) && v in c
  {
    if OnCycle(E, v) {
      var c := ComponentOf(E, v);
      assert c[0] in c;
      ComponentCyclicIff(E, c, v);
      ComponentCyclicIff(E, c, c[0]);
      OneMember(E, c, v);
    }
    if c :| IsCyclicComponent(E, c) && v in c {
      assert c[0] in c;
      ComponentCyclicIff(E, c, v);
      ComponentCyclicIff(E, c, c[0]);
      OneMember(E, c, v);
    }
  }

  lemma OneMember(E: Edges, c: seq<string>, v: string)
    requires v in c
    ensures |c| > 1 || c[0] == v
  {
  }

  /** A scope is reported iff its own edges contain a directed cycle. */
  lemma ScopeReportedIffCyclic(edges: seq<DefersEdge>, findings: seq<ScopeCycle>, scope: string)
    requires forall f :: f in findings <==> IsCyclicComponent(EdgeSet(ScopedTo(edges, f.scope)), f.component)
    ensures (exists f :: f in findings && f.scope == scope) <==> ScopeHasCycle(edges, scope)
  {
    var E := EdgeSet(ScopedTo(edges, scope));
    if ScopeHasCycle(edges, scope) {
      var v :| OnCycle(E, v);
      ComponentExists(E, v);
      var c :| IsCyclicComponent(E, c) && v in c;
      assert ScopeCycle(scope, c) in findings;
    }
  }

  /** Every cycle within one scope lies inside one document-level cycle. */
  lemma ScopeCycleInsideDocumentCycle(edges: seq<DefersEdge>, comps: seq<seq<string>>, scope: string, c: seq<string>)
    requires AreCyclicComponents(EdgeSet(edges), comps)
    requires IsCyclicComponent(EdgeSet(ScopedTo(edges, scope)), c)
    ensures exists d :: d in comps && forall v :: v in c ==> v in d
  {
    var E, F := EdgeSet(ScopedTo(edges, scope)), EdgeSet(edges);
    assert E <= F;
    ReachMonotone(E, F, c[0], c[0]);
    assert OnCycle(F, c[0]);
    var d :| d in comps && c[0] in d;
    forall v | v in c
      ensures v in d
    {
      assert c[0] in c;
      assert Mutual(E, c[0], v);
      ReachMonotone(E, F, c[0], v);
      ReachMonotone(E, F, v, c[0]);
    }
  }

  lemma EachOnce(E: Edges, comps: seq<seq<string>>)
    requires AreCyclicComponents(E, comps)
    ensures Distinct(comps)
  {
  }

  /** Cyclic components split by the baseline into blocking findings and justified reports. */
  method DocumentCycleFindings(edges: seq<DefersEdge>, baseline: set<seq<string>>)
    returns (findings: seq<seq<string>>, reports: seq<seq<string>>)
    ensures forall c :: c in reports <==> IsCyclicComponent(EdgeSet(edges), c) && c in baseline
    ensures forall c :: c in findings <==> IsCyclicComponent(EdgeSet(edges), c) && c !in baseline
    ensures Distinct(findings) && Distinct(reports)
  {
    hide AreCyclicComponents, IsCyclicComponent, EdgeSet;
    findings, reports := [], [];
    var comps := StrongComponents(edges);
    EachOnce(EdgeSet(edges), comps);
    for i := 0 to |comps|
      invariant Distinct(findings) && Distinct(reports)
      invariant forall c :: c in reports <==> c in comps[..i] && c in baseline
      invariant forall c :: c in findings <==> c in comps[..i] && c !in baseline
    {
      assert comps[..i + 1] == comps[..i] + [comps[i]];
      assert comps[i] !in comps[..i];
      if comps[i] in baseline {
        reports := reports + [comps[i]];
      } else {
        findings := findings + [comps[i]];
      }
    }
    assert comps[..|comps|] == comps;
    forall c
      ensures c in comps <==> IsCyclicComponent(EdgeSet(edges), c)
    {
      ListedIffCyclic(EdgeSet(edges), comps, c);
    }
  }

  /** Baseline entries that no longer name a cyclic component, in ascending order. */
  method StaleCycles(edges: seq<DefersEdge>, baseline: set<seq<string>>) returns (stale: seq<seq<string>>)
    ensures forall c :: c in stale <==> c in baseline && !IsCyclicComponent(EdgeSet(edges), c)
    ensures Ordered(TupleLe, stale) && Distinct(stale)
  {
    var comps := StrongComponents(edges);
    TupleOrder();
    stale := SortedSet(TupleLe, baseline - set c | c in comps);
    forall c
      ensures c in comps <==> IsCyclicComponent(EdgeSet(edges), c)
    {
      ListedIffCyclic(EdgeSet(edges), comps, c);
    }
  }
}
