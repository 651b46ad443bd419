/**
  Finite directed graphs as sets of edges: walks, reachability, cycles.

  These are the definitions the graph engines are measured against.  None of them
  mentions a search.
 */
module Graphs {

  /** Consecutive elements of `p` are joined by edges. */
  ghost predicate IsWalk<T>(E: set<(T, T)>, p: seq<T>)
  {
    p != [] && forall i, j :: 0 <= i && j == i + 1 && j < |p| ==> (p[i], p[j]) in E
  }

  ghost predicate WalkFromTo<T>(E: set<(T, T)>, p: seq<T>, a: T, b: T)
  {
    IsWalk(E, p) && p[0] == a && p[|p| - 1] == b
  }

  /** `b` is reachable from `a` in zero or more steps. */
  ghost predicate Reach<T(!new)>(E: set<(T, T)>, a: T, b: T)
  {
    exists p: seq<T> :: WalkFromTo(E, p, a, b)
  }

  /** `b` is reachable from `a` in one or more steps. */
  ghost predicate ReachPlus<T(!new)>(E: set<(T, T)>, a: T, b: T)
  {
    exists p: seq<T> :: WalkFromTo(E, p, a, b) && |p| >= 2
  }

  ghost predicate Mutual<T(!new)>(E: set<(T, T)>, a: T, b: T)
  {
    Reach(E, a, b) && Reach(E, b, a)
  }

  /** `a` lies on a directed cycle. */
  ghost predicate OnCycle<T(!new)>(E: set<(T, T)>, a: T)
  {
    ReachPlus(E, a, a)
  }

  ghost predicate Acyclic<T(!new)>(E: set<(T, T)>)
  {
    forall a :: !OnCycle(E, a)
  }

  ghost predicate Closed<T(!new)>(E: set<(T, T)>, S: set<T>)
  {
    forall a, b :: (a, b) in E && a in S ==> b in S
  }

  lemma ReachSelf<T(!new)>(E: set<(T, T)>, a: T)
    ensures Reach(E, a, a)
  {
    assert WalkFromTo(E, [a], a, a);
  }

  lemma ReachEdge<T(!new)>(E: set<(T, T)>, a: T, b: T)
    requires (a, b) in E
    ensures ReachPlus(E, a, b) && Reach(E, a, b)
  {
    assert WalkFromTo(E, [a, b], a, b);
  }

  lemma WalkJoin<T>(E: set<(T, T)>, p: seq<T>, q: seq<T>, a: T, b: T, c: T)
    requires WalkFromTo(E, p, a, b) && WalkFromTo(E, q, b, c)
    ensures WalkFromTo(E, p + q[1..], a, c)
  {
    var r := p + q[1..];
    forall i, j | 0 <= i && j == i + 1 && j < |r|
      ensures (r[i], r[j]) in E
    {
      if j < |p| {
        assert (p[i], p[j]) in E;
      } else {
        assert r[j] == q[j - |p| + 1] && r[i] == q[i - |p| + 1];
        assert (q[i - |p| + 1], q[j - |p| + 1]) in E;
      }
    }
    assert r[|r| - 1] == c;
  }

  lemma ReachTrans<T(!new)>(E: set<(T, T)>, a: T, b: T, c: T)
    requires Reach(E, a, b) && Reach(E, b, c)
    ensures Reach(E, a, c)
    ensures ReachPlus(E, a, b) || ReachPlus(E, b, c) ==> ReachPlus(E, a, c)
  {
    var p :| WalkFromTo(E, p, a, b) && (ReachPlus(E, a, b) ==> |p| >= 2);
    var q :| WalkFromTo(E, q, b, c) && (ReachPlus(E, b, c) ==> |q| >= 2);
    WalkJoin(E, p, q, a, b, c);
  }

  /** A set closed under edges contains whatever its members reach. */
  lemma ClosedReach<T(!new)>(E: set<(T, T)>, S: set<T>, a: T, b: T)
    requires Closed(E, S) && a in S && Reach(E, a, b)
    ensures b in S
  {
    var p :| WalkFromTo(E, p, a, b);
    var k := 0;
    while k + 1 < |p|
      invariant 0 <= k < |p| && p[k] in S
    {
      assert (p[k], p[k + 1]) in E;
      k := k + 1;
    }
  }

  /** The first step of a non-empty walk. */
  lemma FirstStep<T(!new)>(E: set<(T, T)>, a: T, b: T) returns (m: T)
    requires ReachPlus(E, a, b)
    ensures (a, m) in E && Reach(E, m, b)
  {
    var p :| WalkFromTo(E, p, a, b) && |p| >= 2;
    m := p[1];
    assert (p[0], p[1]) in E;
    assert WalkFromTo(E, p[1..], m, b) by {
      forall i, j | 0 <= i && j == i + 1 && j < |p[1..]|
        ensures (p[1..][i], p[1..][j]) in E
      {
        assert (p[i + 1], p[j + 1]) in E;
      }
    }
  }

  lemma ReachCases<T(!new)>(E: set<(T, T)>, a: T, b: T)
    requires Reach(E, a, b)
    ensures a == b || ReachPlus(E, a, b)
  {
    var p :| WalkFromTo(E, p, a, b);
  }

  lemma ReachMonotone<T(!new)>(E: set<(T, T)>, F: set<(T, T)>, a: T, b: T)
    requires E <= F
    ensures Reach(E, a, b) ==> Reach(F, a, b)
    ensures ReachPlus(E, a, b) ==> ReachPlus(F, a, b)
  {
    if Reach(E, a, b) {
      var p :| WalkFromTo(E, p, a, b) && (ReachPlus(E, a, b) ==> |p| >= 2);
      assert WalkFromTo(F, p, a, b);
    }
  }

  /** A node is on a cycle exactly when it has a self-loop or a mutually reachable companion. */
  lemma OnCycleIff<T(!new)>(E: set<(T, T)>, a: T)
    ensures OnCycle(E, a) <==> (a, a) in E || exists b :: b != a && Mutual(E, a, b)
  {
    if OnCycle(E, a) {
      var m := FirstStep(E, a, a);
      ReachEdge(E, a, m);
      assert m != a ==> Mutual(E, a, m);
    }
    if (a, a) in E {
      ReachEdge(E, a, a);
    } else if exists b :: b != a && Mutual(E, a, b) {
      var b :| b != a && Mutual(E, a, b);
      ReachCases(E, a, b);
      ReachTrans(E, a, b, a);
    }
  }

  /** The last step of a non-empty walk. */
  lemma LastStep<T(!new)>(E: set<(T, T)>, a: T, b: T) returns (m: T)
    requires ReachPlus(E, a, b)
    ensures Reach(E, a, m) && (m, b) in E
  {
    var p :| WalkFromTo(E, p, a, b) && |p| >= 2;
    var n := |p| - 1;
    m := p[n - 1];
    assert (p[n - 1], p[n]) in E;
    assert WalkFromTo(E, p[..n], a, m) by {
      forall i, j | 0 <= i && j == i + 1 && j < n
        ensures (p[..n][i], p[..n][j]) in E
      {
        assert (p[i], p[j]) in E;
      }
    }
  }

  /** Without cycles a walk never returns. */
  lemma WalkDistinct<T(!new)>(E: set<(T, T)>, p: seq<T>)
    requires Acyclic(E) && IsWalk(E, p)
    ensures forall i, j :: 0 <= i < j < |p| ==> p[i] != p[j]
  {
    forall i, j | 0 <= i < j < |p|
      ensures p[i] != p[j]
    {
      var q := p[i..j + 1];
      forall k, l | 0 <= k && l == k + 1 && l < |q|
        ensures (q[k], q[l]) in E
      {
        assert (p[i + k], p[i + l]) in E;
      }
      assert WalkFromTo(E, q, p[i], p[j]);
      assert !OnCycle(E, p[i]);
    }
  }

  /** Every node has at most one successor. */
  ghost predicate Functional<T(!new)>(E: set<(T, T)>)
  {
    forall a, b, c {:trigger (a, b) in E, (a, c) in E} :: (a, b) in E && (a, c) in E ==> b == c
  }

  /** Along single successors, two nodes reached from one place lie on one line. */
  lemma {:induction false} FunctionalLine<T(!new)>(E: set<(T, T)>, p: seq<T>, h: T, a: T, b: T)
    requires Functional(E) && WalkFromTo(E, p, h, a) && Reach(E, h, b)
    ensures Reach(E, a, b) || Reach(E, b, a)
    decreases |p|
  {
    if |p| > 1 {
      ReachCases(E, h, b);
      if h == b {
        assert Reach(E, b, a);
      } else {
        var m := FirstStep(E, h, b);
        assert (p[0], p[1]) in E;
        assert WalkFromTo(E, p[1..], m, a) by {
          forall i, j | 0 <= i && j == i + 1 && j < |p[1..]|
            ensures (p[1..][i], p[1..][j]) in E
          {
            assert (p[i + 1], p[j + 1]) in E;
          }
        }
        FunctionalLine(E, p[1..], m, a, b);
      }
    }
  }
}
