/**
  The cycle check over component groups: a depth-first search that answers with a
  witness cycle, or with nothing when the restricted relation has none.
 */
module GroupCycles {
  import opened Ordering
  import opened Graphs

  type GroupEdges = map<string, set<string>>
  type Relation = set<(string, string)>

  datatype Cycle = NoCycle | Found(walk: seq<string>)

  function Successors(edges: GroupEdges, node: string): set<string>
  {
    if node in edges then edges[node] else {}
  }

  /** The group edges with both ends among the allowed groups. */
  ghost function Restricted(edges: GroupEdges, allowed: set<string>): Relation
  {
    set a, b | a in allowed && a in edges && b in edges[a] && b in allowed :: (a, b)
  }

  /** A closed walk whose nodes are distinct except that it ends where it began. */
  ghost predicate IsWitness(R: Relation, c: seq<string>)
  {
    && |c| >= 2 && c[0] == c[|c| - 1]
    && IsWalk(R, c)
    && Distinct(c[..|c| - 1])
  }

  lemma WitnessIsCycle(R: Relation, c: seq<string>)
    requires IsWitness(R, c)
    ensures !Acyclic(R)
  {
    assert WalkFromTo(R, c, c[0], c[0]);
    assert OnCycle(R, c[0]);
  }

  /** Every edge out of a listed node leads to a node listed earlier. */
  ghost predicate LeadsBack(R: Relation, finished: seq<string>)
  {
    forall i, w :: 0 <= i < |finished| && (finished[i], w) in R ==> w in finished[..i]
  }

  /** Along a walk the position in such a list falls with every step. */
  lemma {:induction false} PositionsFall(R: Relation, finished: seq<string>, p: seq<string>, i: nat, k: nat)
    returns (j: nat)
    requires LeadsBack(R, finished) && IsWalk(R, p)
    requires i < |finished| && p[0] == finished[i] && k < |p|
    ensures j + k <= i && finished[j] == p[k]
  {
    if k == 0 {
      j := i;
    } else {
      var before := PositionsFall(R, finished, p, i, k - 1);
      assert (p[k - 1], p[k]) in R;
      assert p[k] in finished[..before];
      j :| 0 <= j < before && finished[j] == p[k];
    }
  }

  lemma FinishedIsAcyclic(R: Relation, finished: seq<string>)
    requires LeadsBack(R, finished) && Distinct(finished)
    requires forall a, b :: (a, b) in R ==> a in finished
    ensures Acyclic(R)
  {
    forall a
      ensures !OnCycle(R, a)
    {
      if OnCycle(R, a) {
        var p :| WalkFromTo(R, p, a, a) && |p| >= 2;
        assert (p[0], p[1]) in R;
        var i :| 0 <= i < |finished| && finished[i] == a;
        var j := PositionsFall(R, finished, p, i, |p| - 1);
      }
    }
  }

  /** What the search keeps: the stack is a walk of open nodes, the finished nodes lead back. */
  ghost predicate SearchInv(R: Relation, allowed: set<string>, visited: set<string>, stack: seq<string>,
          visiting: set<string>, finished: seq<string>)
  {
    && Distinct(stack) && (forall v :: v in visiting <==> v in stack)
    && (stack != [] ==> IsWalk(R, stack))
    && visiting !! visited && visiting <= allowed && visited <= allowed
    && Distinct(finished) && (forall v :: v in visited <==> v in finished)
    && LeadsBack(R, finished)
  }

  lemma StackExtends(R: Relation, allowed: set<string>, visited: set<string>, stack: seq<string>, visiting: set<string>,
          finished: seq<string>, node: string)
    requires SearchInv(R, allowed, visited, stack, visiting, finished)
    requires node in allowed && node !in visited && node !in visiting
    requires stack != [] ==> (stack[|stack| - 1], node) in R
    ensures SearchInv(R, allowed, visited, stack + [node], visiting + {node}, finished)
  {
    var longer := stack + [node];
    forall i, j | 0 <= i && j == i + 1 && j < |longer|
      ensures (longer[i], longer[j]) in R
    {
      if j < |stack| {
        assert (stack[i], stack[j]) in R;
      }
    }
  }

  /** The open node on top is finished: all its successors were finished before it. */
  lemma NodeFinishes(R: Relation, allowed: set<string>, visited: set<string>, stack: seq<string>, visiting: set<string>,
          finished: seq<string>, node: string)
    requires SearchInv(R, allowed, visited, stack + [node], visiting + {node}, finished)
    requires node !in visiting && forall w :: (node, w) in R ==> w in visited
    ensures SearchInv(R, allowed, visited + {node}, stack, visiting, finished + [node])
  {
    var whole := stack + [node];
    assert whole[|stack|] == node;
    forall v
      ensures v in visiting <==> v in stack
    {
      assert v in whole <==> v in stack || v == node;
      if v in stack {
        var i :| 0 <= i < |stack| && stack[i] == v;
        assert whole[i] == v && whole[i] != whole[|stack|];
      }
    }
    forall i, j | 0 <= i < j < |stack|
      ensures stack[i] != stack[j]
    {
      assert whole[i] != whole[j];
    }
    if stack != [] {
      forall i, j | 0 <= i && j == i + 1 && j < |stack|
        ensures (stack[i], stack[j]) in R
      {
        assert (whole[i], whole[j]) in R;
      }
    }
    var longer := finished + [node];
    assert node in visiting + {node};
    forall i, w | 0 <= i < |longer| && (longer[i], w) in R
      ensures w in longer[..i]
    {
      if i < |finished| {
        assert longer[..i] == finished[..i];
      } else {
        assert longer[..i] == finished;
      }
    }
  }

  /** A successor that is still open closes a cycle along the stack. */
  lemma BackEdgeCloses(R: Relation, stack: seq<string>, start: nat)
    requires start < |stack| && Distinct(stack) && IsWalk(R, stack)
    requires (stack[|stack| - 1], stack[start]) in R
    ensures IsWitness(R, stack[start..] + [stack[start]])
  {
    var c := stack[start..] + [stack[start]];
    assert c[..|c| - 1] == stack[start..];
    forall i, j | 0 <= i && j == i + 1 && j < |c|
      ensures (c[i], c[j]) in R
    {
      if j < |c| - 1 {
        assert (stack[start + i], stack[start + j]) in R;
      }
    }
  }

  class GroupCycleSearch {
    const edges: GroupEdges
    const allowed: set<string>
    var visited: set<string>
    var stack: seq<string>
    var visiting: set<string>
    ghost var finished: seq<string>

    constructor (edges: GroupEdges, groupIds: seq<string>)
      ensures this.edges == edges && allowed == (set g | g in groupIds)
      ensures visited == {} && stack == [] && visiting == {} && finished == []
    {
      this.edges := edges;
      allowed := set g | g in groupIds;
      visited, stack, visiting, finished := {}, [], {}, [];
    }

    ghost predicate Valid()
      reads this
    {
      SearchInv(Restricted(edges, allowed), allowed, visited, stack, visiting, finished)
    }

    /** The stack from a successor that is still open upwards, and back to it. */
    method CloseCycle(successor: string) returns (walk: seq<string>)
      requires Valid() && successor in visiting
      requires stack != [] && (stack[|stack| - 1], successor) in Restricted(edges, allowed)
      ensures IsWitness(Restricted(edges, allowed), walk)
    {
      hide SearchInv, IsWitness, IsWalk, Distinct, Restricted;
      OpenMeansStacked(Restricted(edges, allowed), allowed, visited, stack, visiting, finished, successor);
      var start := IndexOf(stack, successor);
      BackEdgeCloses(Restricted(edges, allowed), stack, start);
      return stack[start..] + [successor];
    }

    /** Opens `node` and walks on to its successors in ascending order, until a cycle closes or all are finished. */
    method Walk(node: string) returns (cycle: Cycle)
      requires Valid() && node in allowed && node !in visited && node !in visiting
      requires stack != [] ==> (stack[|stack| - 1], node) in Restricted(edges, allowed)
      modifies this
      ensures cycle.Found? ==> IsWitness(Restricted(edges, allowed), cycle.walk)
      ensures cycle.NoCycle? ==> Valid() && stack == old(stack) && visiting == old(visiting)
      ensures cycle.NoCycle? ==> old(visited) <= visited && node in visited
      decreases allowed - visited - visiting
    {
      hide SearchInv, IsWitness, IsWalk, Ordered, Distinct, Restricted, TotalPreorder, Successors, StringLe, Handled;
      ghost var R := Restricted(edges, allowed);
      StackExtends(R, allowed, visited, stack, visiting, finished, node);
      visiting := visiting + {node};
      stack := stack + [node];
      SortableStrings();
      var successors := SortedSet(StringLe, Successors(edges, node));
      NoneHandled(successors, allowed, visited);
      for i := 0 to |successors|
        invariant Valid() && stack == old(stack) + [node] && visiting == old(visiting) + {node}
        invariant old(visited) <= visited && Handled(successors, i, allowed, visited)
      {
        var successor := successors[i];
        ghost var before := visited;
        assert successor in successors;
        if successor !in allowed {
          OneMoreHandled(successors, i, allowed, before, visited);
          continue;
        }
        EdgeTo(edges, allowed, node, successor);
        if successor in visiting {
          var walk := CloseCycle(successor);
          return Found(walk);
        }
        if successor in visited {
          OneMoreHandled(successors, i, allowed, before, visited);
          continue;
        }
        FewerLeft(allowed, old(visited), old(visiting), visited, node);
        cycle := Walk(successor);
        if cycle.Found? {
          return;
        }
        OneMoreHandled(successors, i, allowed, before, visited);
      }
      AllHandled(successors, allowed, visited);
      EdgesLead(edges, allowed, node, successors, visited);
      NodeFinishes(R, allowed, visited, old(stack), old(visiting), finished, node);
      TakenBack(old(stack), old(visiting), node);
      stack := stack[..|stack| - 1];
      visiting := visiting - {node};
      visited := visited + {node};
      finished := finished + [node];
      return NoCycle;
    }
  }

  /** Of the first `n` successors, those among the groups have been visited. */
  ghost predicate Handled(successors: seq<string>, n: nat, allowed: set<string>, visited: set<string>)
  {
    n <= |successors| && forall k :: 0 <= k < n && successors[k] in allowed ==> successors[k] in visited
  }

  lemma NoneHandled(successors: seq<string>, allowed: set<string>, visited: set<string>)
    ensures Handled(successors, 0, allowed, visited)
  {
  }

  lemma OneMoreHandled(successors: seq<string>, n: nat, allowed: set<string>, before: set<string>, visited: set<string>)
    requires Handled(successors, n, allowed, before) && n < |successors| && before <= visited
    requires successors[n] in allowed ==> successors[n] in visited
    ensures Handled(successors, n + 1, allowed, visited)
  {
  }

  lemma AllHandled(successors: seq<string>, allowed: set<string>, visited: set<string>)
    requires Handled(successors, |successors|, allowed, visited)
    ensures forall w :: w in successors && w in allowed ==> w in visited
  {
  }

  lemma TakenBack(stack: seq<string>, visiting: set<string>, node: string)
    requires node !in visiting
    ensures (stack + [node])[..|stack|] == stack && visiting + {node} - {node} == visiting
  {
  }

  /** Opening a node leaves fewer groups that are neither open nor visited. */
  lemma FewerLeft(allowed: set<string>, visited: set<string>, visiting: set<string>, later: set<string>, node: string)
    requires node in allowed && node !in visited && node !in visiting && visited <= later
    ensures allowed - later - (visiting + {node}) < allowed - visited - visiting
  {
    assert node in allowed - visited - visiting;
  }

  lemma EdgeTo(edges: GroupEdges, allowed: set<string>, node: string, w: string)
    requires node in allowed && w in allowed && w in Successors(edges, node)
    ensures (node, w) in Restricted(edges, allowed)
  {
  }

  lemma EdgesLead(edges: GroupEdges, allowed: set<string>, node: string, successors: seq<string>, visited: set<string>)
    requires forall w :: w in successors <==> w in Successors(edges, node)
    requires forall w :: w in successors && w in allowed ==> w in visited
    ensures forall w :: (node, w) in Restricted(edges, allowed) ==> w in visited
  {
  }

  lemma SortableStrings()
    ensures TotalPreorder(StringLe)
  {
    StringOrder();
  }

  lemma OpenMeansStacked(R: Relation, allowed: set<string>, visited: set<string>, stack: seq<string>,
          visiting: set<string>, finished: seq<string>, v: string)
    requires SearchInv(R, allowed, visited, stack, visiting, finished)
    ensures v in visiting <==> v in stack
    ensures Distinct(stack) && (stack != [] ==> IsWalk(R, stack))
    ensures visited <= allowed && visiting <= allowed
  {
  }

  /** `list.index`: the first position of a member. */
  method IndexOf(s: seq<string>, x: string) returns (k: nat)
    requires x in s
    ensures k < |s| && s[k] == x && x !in s[..k]
  {
    k := 0;
    while s[k] != x
      invariant k < |s| && x !in s[..k] && x in s[k..]
      decreases |s| - k
    {
      k := k + 1;
    }
  }

  /** Finds a witness cycle among the given groups iff there is one. */
  method FindGroupCycle(edges: GroupEdges, groupIds: seq<string>) returns (cycle: Cycle)
    ensures var R := Restricted(edges, set g | g in groupIds);
            && (cycle.NoCycle? <==> Acyclic(R))
            && (cycle.Found? ==> IsWitness(R, cycle.walk))
  {
    hide SearchInv, IsWitness, IsWalk;
    var search := new GroupCycleSearch(edges, groupIds);
    ghost var R := Restricted(edges, search.allowed);
    NothingVisited(R, search.allowed);
    for i := 0 to |groupIds|
      invariant search.edges == edges && search.allowed == set g | g in groupIds
      invariant search.Valid() && search.stack == [] && search.visiting == {}
      invariant forall g :: g in groupIds[..i] ==> g in search.visited
    {
      var node := groupIds[i];
      assert groupIds[..i + 1] == groupIds[..i] + [node];
      if node in search.visited {
        continue;
      }
      cycle := search.Walk(node);
      if cycle.Found? {
        WitnessIsCycle(R, cycle.walk);
        return;
      }
    }
    assert groupIds[..|groupIds|] == groupIds;
    AllFinished(R, search.allowed, search.visited, search.finished);
    return NoCycle;
  }

  lemma NothingVisited(R: Relation, allowed: set<string>)
    ensures SearchInv(R, allowed, {}, [], {}, [])
  {
  }

  lemma AllFinished(R: Relation, allowed: set<string>, visited: set<string>, finished: seq<string>)
    requires SearchInv(R, allowed, visited, [], {}, finished)
    requires forall a, b :: (a, b) in R ==> a in visited
    ensures Acyclic(R)
  {
    FinishedIsAcyclic(R, finished);
  }
}
