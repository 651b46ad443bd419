/**
  The strongly connected components behind the reference gate: the recursive
  single-pass search over shared index, lowlink and stack state.

  `ComponentSearch` (in `ReferenceIntegrity`) holds the shared counters and the stack and
  updates them in place.
  The facts the search keeps are stated on a value (`Snapshot`) of those fields, so that
  each step is a lemma about values and the methods only connect the steps.
 */
module Components {
  import opened Ordering
  import opened Graphs

  type Edges = set<(string, string)>

  datatype DefersEdge = DefersEdge(source: string, target: string, scope: ScopeName, reason: string, path: string)

  datatype ScopeName = Unscoped | Scoped(name: string)

  ghost function EdgeSet(edges: seq<DefersEdge>): Edges
  {
    set e | e in edges :: (e.source, e.target)
  }

  ghost function Nodes(E: Edges): set<string>
  {
    (set e | e in E :: e.0) + (set e | e in E :: e.1)
  }

  // ---------------------------------------------------------------------------
  // What the search must return
  // ---------------------------------------------------------------------------

  /** `c` is one whole strongly connected component, listed in ascending order. */
  ghost predicate IsComponent(E: Edges, c: seq<string>)
  {
    && c != [] && Ordered(StringLe, c) && Distinct(c)
    && forall v, w :: v in c ==> (w in c <==> Mutual(E, v, w))
  }

  /** Exactly the components that carry a cycle, each once, in ascending order. */
  ghost predicate AreCyclicComponents(E: Edges, comps: seq<seq<string>>)
  {
    && Ordered(TupleLe, comps) && Distinct(comps)
    && (forall c :: c in comps ==> IsComponent(E, c))
    && (forall v :: OnCycle(E, v) <==> exists c :: c in comps && v in c)
  }

  /** Two components that share a node are the same tuple. */
  lemma ComponentsShareNothing(E: Edges, c: seq<string>, d: seq<string>, v: string)
    requires IsComponent(E, c) && IsComponent(E, d) && v in c && v in d
    ensures c == d
  {
    StringOrder();
    forall w
      ensures w in c <==> w in d
    {
      assert w in c <==> Mutual(E, v, w);
      assert w in d <==> Mutual(E, v, w);
    }
    OrderedSetUnique(StringLe, c, d);
  }

  /** A component carries a cycle iff it has two members or a self-loop. */
  lemma ComponentCyclicIff(E: Edges, c: seq<string>, v: string)
    requires IsComponent(E, c) && v in c
    ensures OnCycle(E, v) <==> |c| > 1 || (v, v) in E
  {
    OnCycleIff(E, v);
    var i :| 0 <= i < |c| && c[i] == v;
    if |c| > 1 {
      var j := if i == 0 then 1 else 0;
      assert c[j] != v by {
        assert if i < j then c[i] != c[j] else c[j] != c[i];
      }
      assert Mutual(E, v, c[j]);
    }
    if b :| b != v && Mutual(E, v, b) {
      assert b in c;
    }
  }

  /** The answer is determined by the edges alone. */
  lemma CyclicComponentsUnique(E: Edges, a: seq<seq<string>>, b: seq<seq<string>>)
    requires AreCyclicComponents(E, a) && AreCyclicComponents(E, b)
    ensures a == b
  {
    TupleOrder();
    forall c
      ensures c in a <==> c in b
    {
      CyclicComponentsInclude(E, a, b, c);
      CyclicComponentsInclude(E, b, a, c);
    }
    OrderedSetUnique(TupleLe, a, b);
  }

  lemma CyclicComponentsInclude(E: Edges, a: seq<seq<string>>, b: seq<seq<string>>, c: seq<string>)
    requires AreCyclicComponents(E, a) && AreCyclicComponents(E, b)
    ensures c in a ==> c in b
  {
    if c in a {
      assert IsComponent(E, c);
      assert c[0] in c;
      assert OnCycle(E, c[0]);
      var d :| d in b && c[0] in d;
      ComponentsShareNothing(E, c, d, c[0]);
    }
  }

  // ---------------------------------------------------------------------------
  // The state of the search and what it keeps
  // ---------------------------------------------------------------------------

  datatype Snapshot = Snapshot(
    index: nat,
    indices: map<string, nat>,
    lowlinks: map<string, nat>,
    stack: seq<string>,
    onStack: set<string>,
    components: seq<seq<string>>)
  {
    /** Nodes whose component has been taken off the stack. */
    ghost function Popped(): set<string>
    {
      indices.Keys - onStack
    }

    ghost function Num(v: string): nat
    {
      if v in indices then indices[v] else 0
    }

    ghost function Low(v: string): nat
    {
      if v in lowlinks then lowlinks[v] else 0
    }
  }

  /** Bookkeeping: numbers are fresh and injective, the stack is ordered by them. */
  ghost predicate Numbered(V: set<string>, s: Snapshot)
  {
    && s.indices.Keys <= V
    && s.lowlinks.Keys == s.indices.Keys
    && (forall v :: v in s.indices ==> s.Num(v) < s.index)
    && (forall v, w :: v in s.indices && w in s.indices && s.Num(v) == s.Num(w) ==> v == w)
    && (forall v :: v in s.onStack <==> v in s.stack)
    && s.onStack <= s.indices.Keys
    && (forall i, j :: 0 <= i < j < |s.stack| ==> s.Num(s.stack[i]) < s.Num(s.stack[j]))
  }

  /** `open` are the nodes whose visit has begun and not ended. */
  ghost predicate Coloured(E: Edges, s: Snapshot, open: set<string>)
  {
    && open <= s.onStack
    && (forall v, w {:trigger (v, w) in E} :: (v, w) in E && v in s.indices && v !in open ==> w in s.indices)
    && Closed(E, s.Popped())
  }

  /** An open node reaches all that was stacked after it. */
  ghost predicate OpenReaches(E: Edges, s: Snapshot, open: set<string>)
  {
    forall x, y {:trigger Reach(E, x, y)} :: x in open && y in s.onStack && s.Num(x) <= s.Num(y) ==> Reach(E, x, y)
  }

  ghost predicate Anchored(E: Edges, s: Snapshot, open: set<string>, y: string)
  {
    exists x :: x in open && s.Num(x) <= s.Num(y) && Reach(E, y, x)
  }

  /** Every stacked node reaches an open node below it. */
  ghost predicate ReachesOpen(E: Edges, s: Snapshot, open: set<string>)
  {
    forall y {:trigger Anchored(E, s, open, y)} :: y in s.onStack ==> Anchored(E, s, open, y)
  }

  /** The components found so far are exactly the cyclic ones among the popped nodes. */
  ghost predicate Reported(E: Edges, comps: seq<seq<string>>, popped: set<string>)
  {
    && Distinct(comps)
    && (forall c :: c in comps ==> IsComponent(E, c))
    && (forall c, v :: c in comps && v in c ==> v in popped && OnCycle(E, v))
    && (forall v :: v in popped && OnCycle(E, v) ==> exists c :: c in comps && v in c)
  }

  ghost predicate Inv(E: Edges, V: set<string>, s: Snapshot, open: set<string>)
  {
    && Numbered(V, s)
    && Coloured(E, s, open)
    && OpenReaches(E, s, open)
    && ReachesOpen(E, s, open)
    && Reported(E, s.components, s.Popped())
  }

  /** What any stretch of the search leaves alone. */
  ghost predicate Extends(s: Snapshot, t: Snapshot)
  {
    && s.index <= t.index
    && (forall v :: v in s.indices ==> v in t.indices && t.Num(v) == s.Num(v))
    && (forall v :: v in t.indices && v !in s.indices ==> s.index <= t.Num(v))
    && s.stack <= t.stack
  }

  /** `low` bounds the number of every node of `s`'s stack that a node stacked since points to. */
  ghost predicate BoundsCrossing(E: Edges, s: Snapshot, t: Snapshot, low: nat, except: set<string>)
  {
    forall v, w {:trigger (v, w) in E} ::
      (v, w) in E && v in t.onStack && v !in s.onStack && v !in except && w in s.onStack ==> low <= s.Num(w)
  }

  /** `low` is the number of a stacked node that `node` reaches, among `targets`. */
  ghost predicate LowIsReached(E: Edges, t: Snapshot, node: string, low: nat, targets: set<string>)
  {
    exists w :: w in targets && w in t.onStack && t.Num(w) == low && Reach(E, node, w)
  }

  /** What one visit of `node` guarantees. */
  ghost predicate Visited(E: Edges, s: Snapshot, t: Snapshot, node: string)
  {
    && Extends(s, t)
    && (forall v :: v in s.indices ==> t.Low(v) == s.Low(v))
    && node in t.indices && t.Num(node) == s.index
    && BoundsCrossing(E, s, t, t.Low(node), {})
    && (node in t.onStack ==> LowIsReached(E, t, node, t.Low(node), s.onStack))
    && (node !in t.onStack ==> t.stack == s.stack && t.Low(node) == t.Num(node))
  }

  /**
    How far the loop over `node`'s targets has come: `s` is the state before the visit,
    `t` the present one, and the targets `done` have been dealt with.
   */
  ghost predicate Progress(E: Edges, s: Snapshot, t: Snapshot, node: string, done: seq<string>)
  {
    && Extends(s, t)
    && (forall v :: v in s.indices ==> t.Low(v) == s.Low(v))
    && node !in s.indices && node in t.indices && t.Num(node) == s.index
    && |s.stack| < |t.stack| && t.stack[|s.stack|] == node
    && t.Low(node) <= s.index
    && LowIsReached(E, t, node, t.Low(node), s.onStack + {node})
    && BoundsCrossing(E, s, t, t.Low(node), {node})
    && (forall w :: w in done ==> w in t.indices && (w in s.onStack ==> t.Low(node) <= s.Num(w)))
  }

  ghost predicate Scanning(E: Edges, V: set<string>, s: Snapshot, t: Snapshot, node: string, open: set<string>,
          done: seq<string>)
  {
    Inv(E, V, t, open + {node}) && Progress(E, s, t, node, done)
  }

  // ---------------------------------------------------------------------------
  // The steps
  // ---------------------------------------------------------------------------

  function Pushed(s: Snapshot, node: string): Snapshot
  {
    s.(index := s.index + 1,
       indices := s.indices[node := s.index],
       lowlinks := s.lowlinks[node := s.index],
       stack := s.stack + [node],
       onStack := s.onStack + {node})
  }

  lemma InvFacts(E: Edges, V: set<string>, s: Snapshot, open: set<string>)
    requires Inv(E, V, s, open)
    ensures Numbered(V, s) && open <= s.onStack
  {
  }

  lemma PushReaches(E: Edges, V: set<string>, s: Snapshot, node: string, open: set<string>)
    requires Numbered(V, s) && OpenReaches(E, s, open) && open <= s.onStack && node !in s.indices
    requires forall x :: x in open ==> Reach(E, x, node)
    ensures OpenReaches(E, Pushed(s, node), open + {node})
  {
    var t := Pushed(s, node);
    ReachSelf(E, node);
    forall x, y | x in open + {node} && y in t.onStack && t.Num(x) <= t.Num(y)
      ensures Reach(E, x, y)
    {
      if x == node {
        assert y == node;
      } else if y != node {
        assert s.Num(x) <= s.Num(y);
      }
    }
  }

  lemma PushAnchors(E: Edges, V: set<string>, s: Snapshot, node: string, open: set<string>)
    requires Numbered(V, s) && ReachesOpen(E, s, open) && open <= s.onStack && node !in s.indices
    ensures ReachesOpen(E, Pushed(s, node), open + {node})
  {
    var t := Pushed(s, node);
    forall y | y in t.onStack
      ensures Anchored(E, t, open + {node}, y)
    {
      if y == node {
        ReachSelf(E, node);
        assert node in open + {node};
      } else {
        assert Anchored(E, s, open, y);
        var x :| x in open && s.Num(x) <= s.Num(y) && Reach(E, y, x);
        assert x in open + {node} && t.Num(x) == s.Num(x);
      }
    }
  }

  lemma PushKeeps(E: Edges, V: set<string>, s: Snapshot, node: string, open: set<string>)
    requires Inv(E, V, s, open) && node in V && node !in s.indices
    requires forall x :: x in open ==> Reach(E, x, node)
    ensures Inv(E, V, Pushed(s, node), open + {node})
  {
    hide Numbered, Coloured, Reported, OpenReaches, ReachesOpen;
    InvFacts(E, V, s, open);
    PushPops(V, s, node);
    PushNumbers(V, s, node);
    PushColours(E, V, s, node, open);
    PushReaches(E, V, s, node, open);
    PushAnchors(E, V, s, node, open);
  }

  lemma PushPops(V: set<string>, s: Snapshot, node: string)
    requires Numbered(V, s) && node !in s.indices
    ensures Pushed(s, node).Popped() == s.Popped()
  {
  }

  lemma PushNumbers(V: set<string>, s: Snapshot, node: string)
    requires Numbered(V, s) && node in V && node !in s.indices
    ensures Numbered(V, Pushed(s, node))
  {
  }

  lemma PushColours(E: Edges, V: set<string>, s: Snapshot, node: string, open: set<string>)
    requires Numbered(V, s) && Coloured(E, s, open) && node !in s.indices
    ensures Coloured(E, Pushed(s, node), open + {node})
  {
    PushPops(V, s, node);
  }

  lemma PushExtends(E: Edges, V: set<string>, s: Snapshot, node: string)
    requires Numbered(V, s) && node !in s.indices
    ensures var t := Pushed(s, node);
            && Extends(s, t) && (forall v :: v in s.indices ==> t.Low(v) == s.Low(v))
            && t.stack[|s.stack|] == node && BoundsCrossing(E, s, t, t.Low(node), {node})
  {
  }

  lemma PushBegins(E: Edges, V: set<string>, s: Snapshot, node: string, open: set<string>)
    requires Inv(E, V, s, open) && node in V && node !in s.indices
    requires forall x :: x in open ==> Reach(E, x, node)
    ensures Scanning(E, V, s, Pushed(s, node), node, open, [])
  {
    hide Inv, Numbered, Extends, BoundsCrossing;
    var t := Pushed(s, node);
    InvFacts(E, V, s, open);
    PushKeeps(E, V, s, node, open);
    PushExtends(E, V, s, node);
    ReachSelf(E, node);
    assert node in s.onStack + {node} && t.Num(node) == t.Low(node);
    assert LowIsReached(E, t, node, t.Low(node), s.onStack + {node});
  }

  function Lowered(t: Snapshot, node: string, bound: nat): Snapshot
    requires node in t.lowlinks
  {
    t.(lowlinks := t.lowlinks[node := if bound < t.lowlinks[node] then bound else t.lowlinks[node]])
  }

  /** Lowlinks are not part of the invariant proper. */
  lemma LowlinkFree(E: Edges, V: set<string>, t: Snapshot, node: string, bound: nat, open: set<string>)
    requires Inv(E, V, t, open) && node in t.indices
    ensures Inv(E, V, Lowered(t, node, bound), open)
  {
    var u := Lowered(t, node, bound);
    assert u.Popped() == t.Popped();
    assert forall v :: u.Num(v) == t.Num(v);
    forall y | y in u.onStack
      ensures Anchored(E, u, open, y)
    {
      assert Anchored(E, t, open, y);
      var x :| x in open && t.Num(x) <= t.Num(y) && Reach(E, y, x);
      assert u.Num(x) <= u.Num(y);
    }
  }

  /** What was stacked before `node` is still stacked. */
  lemma StackPrefix(E: Edges, V: set<string>, s: Snapshot, t: Snapshot, open: set<string>)
    requires Inv(E, V, t, open) && Extends(s, t)
    ensures forall v :: v in s.stack ==> v in t.onStack
  {
    forall v | v in s.stack
      ensures v in t.onStack
    {
      var i :| 0 <= i < |s.stack| && s.stack[i] == v;
      assert t.stack[i] == v;
    }
  }

  /** A stacked node with a number below `s.index` was on `s`'s stack. */
  lemma StackedBelow(V: set<string>, s: Snapshot, t: Snapshot, w: string)
    requires Numbered(V, t) && Extends(s, t)
    requires |s.stack| < |t.stack| && t.Num(t.stack[|s.stack|]) == s.index
    requires w in t.onStack && t.Num(w) < s.index
    ensures w in s.stack
  {
    var i :| 0 <= i < |t.stack| && t.stack[i] == w;
    assert i < |s.stack|;
    assert s.stack[i] == w;
  }

  /** An edge to a node that was taken off the stack changes nothing. */
  lemma PoppedTarget(E: Edges, V: set<string>, s: Snapshot, t: Snapshot, node: string, open: set<string>,
          done: seq<string>, w: string)
    requires Scanning(E, V, s, t, node, open, done)
    requires w in t.indices && w !in t.onStack
    requires Numbered(V, s)
    ensures Scanning(E, V, s, t, node, open, done + [w])
  {
    StackPrefix(E, V, s, t, open + {node});
  }

  lemma StackedTargetLow(E: Edges, V: set<string>, s: Snapshot, t: Snapshot, node: string, done: seq<string>, w: string)
    requires Progress(E, s, t, node, done) && Numbered(V, s) && Numbered(V, t)
    requires (node, w) in E && w in t.onStack
    ensures var u := Lowered(t, node, t.Num(w)); LowIsReached(E, u, node, u.Low(node), s.onStack + {node})
  {
    var u := Lowered(t, node, t.Num(w));
    if t.Num(w) < t.Low(node) {
      ReachEdge(E, node, w);
      StackedBelow(V, s, t, w);
      assert u.Num(w) == u.Low(node) && w in s.onStack + {node};
    } else {
      var x :| x in s.onStack + {node} && x in t.onStack && t.Num(x) == t.Low(node) && Reach(E, node, x);
      assert u.Num(x) == u.Low(node);
    }
  }

  lemma StackedTargetProgress(E: Edges, s: Snapshot, t: Snapshot, node: string, done: seq<string>, w: string)
    requires Progress(E, s, t, node, done)
    requires node in t.lowlinks && w in t.indices && s.onStack <= s.indices.Keys
    requires var u := Lowered(t, node, t.Num(w)); LowIsReached(E, u, node, u.Low(node), s.onStack + {node})
    ensures Progress(E, s, Lowered(t, node, t.Num(w)), node, done + [w])
  {
    assert Lowered(t, node, t.Num(w)).Low(node) <= t.Low(node);
  }

  /** An edge to a stacked node lowers `node`'s lowlink to its number. */
  lemma StackedTarget(E: Edges, V: set<string>, s: Snapshot, t: Snapshot, node: string, open: set<string>,
          done: seq<string>, w: string)
    requires Scanning(E, V, s, t, node, open, done) && (node, w) in E
    requires w in t.onStack
    requires Numbered(V, s)
    ensures Scanning(E, V, s, Lowered(t, node, t.Num(w)), node, open, done + [w])
  {
    LowlinkFree(E, V, t, node, t.Num(w), open + {node});
    StackedTargetLow(E, V, s, t, node, done, w);
    StackedTargetProgress(E, s, t, node, done, w);
  }

  lemma FreshTargetLow(E: Edges, V: set<string>, s: Snapshot, t: Snapshot, u: Snapshot, node: string, done: seq<string>,
          w: string)
    requires Progress(E, s, t, node, done) && Visited(E, t, u, w) && node in u.lowlinks
    requires Numbered(V, s) && Numbered(V, t) && forall v :: v in t.stack ==> v in u.onStack
    requires (node, w) in E
    ensures var r := Lowered(u, node, u.Low(w)); LowIsReached(E, r, node, r.Low(node), s.onStack + {node})
  {
    var r := Lowered(u, node, u.Low(w));
    assert t.Num(node) < t.index;
    if u.Low(w) < u.Low(node) {
      var y :| y in t.onStack && y in u.onStack && u.Num(y) == u.Low(w) && Reach(E, w, y);
      StackedBelow(V, s, t, y);
      ReachEdge(E, node, w);
      ReachTrans(E, node, w, y);
      assert r.Num(y) == r.Low(node) && y in s.onStack + {node};
    } else {
      var x :| x in s.onStack + {node} && x in t.onStack && t.Num(x) == t.Low(node) && Reach(E, node, x);
      assert r.Num(x) == r.Low(node);
    }
  }

  lemma FreshTargetProgress(E: Edges, s: Snapshot, t: Snapshot, u: Snapshot, node: string, done: seq<string>, w: string)
    requires Progress(E, s, t, node, done) && Visited(E, t, u, w) && node in u.lowlinks
    requires s.onStack <= s.indices.Keys && w !in t.indices && s.onStack <= t.onStack
    requires var r := Lowered(u, node, u.Low(w)); LowIsReached(E, r, node, r.Low(node), s.onStack + {node})
    ensures Progress(E, s, Lowered(u, node, u.Low(w)), node, done + [w])
  {
    hide LowIsReached, BoundsCrossing;
    var r := Lowered(u, node, u.Low(w));
    assert r.Low(node) <= t.Low(node) && r.Low(node) <= u.Low(w);
    FreshTargetBounds(E, s, t, u, node, done, w);
  }

  lemma FreshTargetBounds(E: Edges, s: Snapshot, t: Snapshot, u: Snapshot, node: string, done: seq<string>, w: string)
    requires Progress(E, s, t, node, done) && Visited(E, t, u, w) && node in u.lowlinks
    requires s.onStack <= s.indices.Keys && s.onStack <= t.onStack
    ensures BoundsCrossing(E, s, Lowered(u, node, u.Low(w)), Lowered(u, node, u.Low(w)).Low(node), {node})
  {
    hide LowIsReached;
  }

  /** Returning from the visit of an unnumbered target, whether or not its component was completed. */
  lemma FreshTarget(E: Edges, V: set<string>, s: Snapshot, t: Snapshot, u: Snapshot, node: string, open: set<string>,
          done: seq<string>, w: string)
    requires Scanning(E, V, s, t, node, open, done) && Numbered(V, s)
    requires (node, w) in E && w !in t.indices
    requires Inv(E, V, u, open + {node}) && Visited(E, t, u, w)
    ensures Scanning(E, V, s, Lowered(u, node, u.Low(w)), node, open, done + [w])
  {
    StackPrefix(E, V, t, u, open + {node});
    StackPrefix(E, V, s, t, open + {node});
    LowlinkFree(E, V, u, node, u.Low(w), open + {node});
    FreshTargetLow(E, V, s, t, u, node, done, w);
    FreshTargetProgress(E, s, t, u, node, done, w);
  }

  // ---------------------------------------------------------------------------
  // The end of a visit
  // ---------------------------------------------------------------------------

  /** `node` reaches below itself, so whatever anchored at it is anchored lower. */
  lemma ReanchorBelow(E: Edges, t: Snapshot, node: string, open: set<string>, z: string, y: string)
    requires ReachesOpen(E, t, open + {node})
    requires y in t.onStack && z in t.onStack && t.Num(z) < t.Num(node) && Reach(E, node, z)
    ensures Anchored(E, t, open, y)
  {
    assert Anchored(E, t, open + {node}, y) && Anchored(E, t, open + {node}, z);
    var x :| x in open + {node} && t.Num(x) <= t.Num(y) && Reach(E, y, x);
    if x == node {
      var x' :| x' in open + {node} && t.Num(x') <= t.Num(z) && Reach(E, z, x');
      ReachTrans(E, y, node, z);
      ReachTrans(E, y, z, x');
    }
  }

  lemma NotRootAnchors(E: Edges, t: Snapshot, node: string, open: set<string>, targets: set<string>)
    requires ReachesOpen(E, t, open + {node})
    requires LowIsReached(E, t, node, t.Low(node), targets + {node}) && t.Low(node) < t.Num(node)
    ensures ReachesOpen(E, t, open)
  {
    var z :| z in targets + {node} && z in t.onStack && t.Num(z) == t.Low(node) && Reach(E, node, z);
    forall y | y in t.onStack
      ensures Anchored(E, t, open, y)
    {
      ReanchorBelow(E, t, node, open, z, y);
    }
  }

  lemma NotRootVisited(E: Edges, V: set<string>, s: Snapshot, t: Snapshot, node: string, done: seq<string>)
    requires Progress(E, s, t, node, done) && Numbered(V, t)
    requires forall w :: (node, w) in E ==> w in done
    requires t.Low(node) < t.Num(node)
    ensures Visited(E, s, t, node)
  {
    var z :| z in s.onStack + {node} && z in t.onStack && t.Num(z) == t.Low(node) && Reach(E, node, z);
    assert z in s.onStack;
    assert node in t.stack;
  }

  /** A node that is not the root of its component stays on the stack. */
  lemma NotRoot(E: Edges, V: set<string>, s: Snapshot, t: Snapshot, node: string, open: set<string>, done: seq<string>)
    requires Scanning(E, V, s, t, node, open, done)
    requires forall w :: (node, w) in E ==> w in done
    requires t.Low(node) != t.Num(node)
    ensures Inv(E, V, t, open) && Visited(E, s, t, node)
  {
    NotRootAnchors(E, t, node, open, s.onStack);
    NotRootVisited(E, V, s, t, node, done);
  }

  ghost function Elements(q: seq<string>): set<string>
  {
    set v | v in q
  }

  /** What lies on the stack from `node` upwards, when the visit of `node` ends. */
  ghost function Segment(s: Snapshot, t: Snapshot): seq<string>
    requires |s.stack| <= |t.stack|
  {
    t.stack[|s.stack|..]
  }

  lemma SuffixMembers(p: seq<string>, q: seq<string>)
    requires p <= q && Distinct(q)
    ensures Distinct(q[|p|..])
    ensures forall v :: v in q[|p|..] <==> v in q && v !in p
  {
    forall v | v in q && v !in p
      ensures v in q[|p|..]
    {
      var i :| 0 <= i < |q| && q[i] == v;
      assert forall j :: 0 <= j < |p| ==> p[j] == q[j];
      assert q[|p|..][i - |p|] == v;
    }
  }

  lemma StackDistinct(V: set<string>, s: Snapshot)
    requires Numbered(V, s)
    ensures Distinct(s.stack)
  {
  }

  lemma SegmentMembers(V: set<string>, s: Snapshot, t: Snapshot, node: string)
    requires Numbered(V, s) && Numbered(V, t) && Extends(s, t)
    requires |s.stack| < |t.stack| && t.stack[|s.stack|] == node
    ensures forall v :: v in Segment(s, t) <==> v in t.onStack && v !in s.onStack
    ensures Distinct(Segment(s, t)) && node in Segment(s, t)
    ensures t.onStack - Elements(Segment(s, t)) == s.onStack
  {
    StackDistinct(V, t);
    SuffixMembers(s.stack, t.stack);
    assert Segment(s, t)[0] == node;
    forall v | v in s.onStack
      ensures v in t.onStack
    {
      var i :| 0 <= i < |s.stack| && s.stack[i] == v;
      assert t.stack[i] == v;
    }
  }

  lemma SegmentAbove(V: set<string>, s: Snapshot, t: Snapshot, node: string, v: string)
    requires Numbered(V, t)
    requires |s.stack| < |t.stack| && t.stack[|s.stack|] == node && v in Segment(s, t)
    ensures t.Num(node) <= t.Num(v)
  {
    var i :| 0 <= i < |Segment(s, t)| && Segment(s, t)[i] == v;
    assert t.stack[|s.stack| + i] == v;
  }

  /** Everything in the segment and `node` reach each other. */
  lemma SegmentMutual(E: Edges, s: Snapshot, t: Snapshot, node: string, open: set<string>, v: string)
    requires OpenReaches(E, t, open + {node}) && ReachesOpen(E, t, open + {node})
    requires forall x :: x in open ==> x in t.onStack && t.Num(x) < t.Num(node)
    requires node in t.onStack && v in t.onStack && t.Num(node) <= t.Num(v)
    ensures Mutual(E, node, v)
  {
    assert Reach(E, node, v);
    assert Anchored(E, t, open + {node}, v);
    var x :| x in open + {node} && t.Num(x) <= t.Num(v) && Reach(E, v, x);
    if x != node {
      assert Reach(E, x, node);
      ReachTrans(E, v, x, node);
    }
  }

  /** No edge leaves the segment except to finished components. */
  lemma SegmentCloses(E: Edges, s: Snapshot, t: Snapshot, node: string, open: set<string>, done: seq<string>,
          seg: set<string>)
    requires Coloured(E, t, open + {node}) && Progress(E, s, t, node, done)
    requires forall w :: (node, w) in E ==> w in done
    requires t.Low(node) == t.Num(node)
    requires forall v :: v in seg <==> v in t.onStack && v !in s.onStack
    requires open <= s.onStack && t.onStack <= t.indices.Keys
    requires forall v :: v in s.onStack ==> s.Num(v) < s.index
    ensures Closed(E, t.Popped() + seg)
  {
    forall v, w | (v, w) in E && v in t.Popped() + seg
      ensures w in t.Popped() + seg
    {
      if v in seg {
        assert w in t.indices;
        assert w in s.onStack ==> t.Low(node) <= s.Num(w);
      }
    }
  }

  /** The segment is one whole strongly connected component. */
  lemma SegmentIsComponent(E: Edges, popped: set<string>, seg: set<string>, node: string, c: seq<string>)
    requires node in seg && seg !! popped
    requires Closed(E, popped) && Closed(E, popped + seg)
    requires forall v :: v in seg ==> Mutual(E, node, v)
    requires Ordered(StringLe, c) && Distinct(c) && forall v :: v in c <==> v in seg
    ensures IsComponent(E, c)
  {
    assert node in c;
    forall v, w | v in c
      ensures w in c <==> Mutual(E, v, w)
    {
      if w in c {
        ReachTrans(E, v, node, w);
        ReachTrans(E, w, node, v);
      } else if Mutual(E, v, w) {
        ClosedReach(E, popped + seg, v, w);
        ClosedReach(E, popped, w, v);
      }
    }
  }

  /** Finishing a component keeps the report exact. */
  lemma ReportGrows(E: Edges, comps: seq<seq<string>>, popped: set<string>, seg: set<string>, node: string,
          c: seq<string>)
    requires Reported(E, comps, popped)
    requires node in seg && seg !! popped
    requires IsComponent(E, c) && forall v :: v in c <==> v in seg
    ensures |c| > 1 || (node, node) in E ==> Reported(E, comps + [c], popped + seg)
    ensures !(|c| > 1 || (node, node) in E) ==> Reported(E, comps, popped + seg)
  {
    forall v | v in c
      ensures OnCycle(E, v) <==> |c| > 1 || (node, node) in E
    {
      ComponentCyclicIff(E, c, v);
      if |c| == 1 {
        assert node in c;
        assert v == c[0] == node;
      }
    }
    var grown := comps + [c];
    assert forall d :: d in comps ==> d in grown;
    assert c in grown;
    assert c !in comps by {
      assert node in c;
    }
  }

  ghost function Trimmed(s: Snapshot, t: Snapshot, comps: seq<seq<string>>): Snapshot
  {
    t.(stack := s.stack, onStack := s.onStack, components := comps)
  }

  lemma RootAnchors(E: Edges, s: Snapshot, t: Snapshot, node: string, open: set<string>, comps: seq<seq<string>>)
    requires ReachesOpen(E, t, open + {node}) && Extends(s, t)
    requires forall y :: y in s.onStack ==> y in t.onStack && t.Num(y) < t.Num(node)
    ensures ReachesOpen(E, Trimmed(s, t, comps), open)
  {
    var u := Trimmed(s, t, comps);
    forall y | y in u.onStack
      ensures Anchored(E, u, open, y)
    {
      assert Anchored(E, t, open + {node}, y);
      var x :| x in open + {node} && t.Num(x) <= t.Num(y) && Reach(E, y, x);
      assert x in open && u.Num(x) == t.Num(x) && u.Num(y) == t.Num(y);
    }
  }

  lemma RootKeeps(E: Edges, V: set<string>, s: Snapshot, t: Snapshot, node: string, open: set<string>,
          comps: seq<seq<string>>, seg: set<string>)
    requires Numbered(V, s) && Numbered(V, t) && Extends(s, t)
    requires t.indices.Keys >= s.indices.Keys
    requires forall y :: y in s.onStack ==> y in t.onStack && t.Num(y) < t.Num(node)
    requires t.onStack - seg == s.onStack && seg <= t.onStack
    requires Coloured(E, t, open + {node}) && OpenReaches(E, t, open + {node}) && ReachesOpen(E, t, open + {node})
    requires open <= s.onStack && forall w :: (node, w) in E ==> w in t.indices
    requires Closed(E, t.Popped() + seg) && Reported(E, comps, t.Popped() + seg)
    ensures Inv(E, V, Trimmed(s, t, comps), open)
  {
    var u := Trimmed(s, t, comps);
    assert u.Popped() == t.Popped() + seg;
    RootAnchors(E, s, t, node, open, comps);
    assert forall v :: u.Num(v) == t.Num(v);
    assert OpenReaches(E, u, open);
    assert Coloured(E, u, open);
    RootNumbered(V, s, t, comps);
  }

  lemma RootNumbered(V: set<string>, s: Snapshot, t: Snapshot, comps: seq<seq<string>>)
    requires Numbered(V, s) && Numbered(V, t) && Extends(s, t)
    ensures Numbered(V, Trimmed(s, t, comps))
  {
    var u := Trimmed(s, t, comps);
    assert forall v :: u.Num(v) == t.Num(v);
    forall i, j | 0 <= i < j < |u.stack|
      ensures u.Num(u.stack[i]) < u.Num(u.stack[j])
    {
      assert t.stack[i] == s.stack[i] && t.stack[j] == s.stack[j];
    }
  }

  lemma SegmentAllMutual(E: Edges, V: set<string>, s: Snapshot, t: Snapshot, node: string, open: set<string>,
          done: seq<string>)
    requires Numbered(V, s) && open <= s.onStack
    requires Scanning(E, V, s, t, node, open, done)
    ensures forall v :: v in Segment(s, t) ==> Mutual(E, node, v)
  {
    SegmentMembers(V, s, t, node);
    forall v | v in Segment(s, t)
      ensures Mutual(E, node, v)
    {
      SegmentAbove(V, s, t, node, v);
      SegmentMutual(E, s, t, node, open, v);
    }
  }

  /** The segment is taken off as a component of its own. */
  lemma RootComponent(E: Edges, V: set<string>, s: Snapshot, t: Snapshot, node: string, open: set<string>,
          done: seq<string>, c: seq<string>)
    requires Numbered(V, s) && open <= s.onStack && Scanning(E, V, s, t, node, open, done)
    requires forall w :: (node, w) in E ==> w in done
    requires t.Low(node) == t.Num(node)
    requires Ordered(StringLe, c) && Distinct(c) && forall v :: v in c <==> v in Segment(s, t)
    ensures var seg := Elements(Segment(s, t));
            && IsComponent(E, c) && seg !! t.Popped() && node in seg
            && Closed(E, t.Popped() + seg)
  {
    var seg := Elements(Segment(s, t));
    SegmentMembers(V, s, t, node);
    SegmentCloses(E, s, t, node, open, done, seg);
    SegmentAllMutual(E, V, s, t, node, open, done);
    SegmentIsComponent(E, t.Popped(), seg, node, c);
  }

  lemma RootVisited(E: Edges, V: set<string>, s: Snapshot, t: Snapshot, node: string, done: seq<string>,
          comps: seq<seq<string>>)
    requires Numbered(V, s) && Progress(E, s, t, node, done) && t.Low(node) == t.Num(node)
    ensures Visited(E, s, Trimmed(s, t, comps), node)
  {
    var u := Trimmed(s, t, comps);
    assert forall v :: u.Num(v) == t.Num(v) && u.Low(v) == t.Low(v);
  }

  /** The root of a component takes the whole component off the stack. */
  lemma Root(E: Edges, V: set<string>, s: Snapshot, t: Snapshot, node: string, open: set<string>, done: seq<string>,
          c: seq<string>, comps: seq<seq<string>>)
    requires Numbered(V, s) && open <= s.onStack && Scanning(E, V, s, t, node, open, done)
    requires forall w :: (node, w) in E ==> w in done
    requires t.Low(node) == t.Num(node)
    requires Ordered(StringLe, c) && Distinct(c) && forall v :: v in c <==> v in Segment(s, t)
    requires comps == if |c| > 1 || (node, node) in E then t.components + [c] else t.components
    ensures Inv(E, V, Trimmed(s, t, comps), open)
  {
    var seg := Elements(Segment(s, t));
    SegmentMembers(V, s, t, node);
    RootComponent(E, V, s, t, node, open, done, c);
    ReportGrows(E, t.components, t.Popped(), seg, node, c);
    RootKeeps(E, V, s, t, node, open, comps, seg);
  }
}
