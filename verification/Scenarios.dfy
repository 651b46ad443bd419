/**
  Scenario traces run against a state machine: the transitive closure by worklist, and
  the backtracking search for a run that explains a trace.
 */
module Scenarios {
  import opened Ordering
  import opened Graphs
  import opened Options

  datatype Transition = Transition(fromState: string, toState: string)

  datatype MachineAxis = MachineAxis(states: set<string>, terminalStates: set<string>, transitions: seq<Transition>)

  ghost function Moves(transitions: seq<Transition>): set<(string, string)>
  {
    set t | t in transitions :: (t.fromState, t.toState)
  }

  // ---------------------------------------------------------------------------
  // Reachable states
  // ---------------------------------------------------------------------------

  ghost predicate InClosure(axis: MachineAxis, start: string, allowSelf: bool, s: string)
  {
    ReachPlus(Moves(axis.transitions), start, s) || (allowSelf && s == start)
  }

  /**
    The worklist between two states: everything found is truly reachable, and whatever has
    left the frontier has had all its moves followed.
   */
  ghost predicate Explored(M: set<(string, string)>, start: string, found: set<string>, visited: set<string>,
          frontier: seq<string>)
  {
    && start in visited && visited == found + {start}
    && (forall v :: v in found ==> ReachPlus(M, start, v))
    && (forall v :: v in frontier ==> v in visited)
    && (forall v, w {:trigger (v, w) in M} :: (v, w) in M && v in visited && v !in frontier ==> w in found)
  }

  /** The same in the middle of following the moves of `current`. */
  ghost predicate Exploring(M: set<(string, string)>, start: string, found: set<string>, visited: set<string>,
          frontier: seq<string>, current: string, done: set<(string, string)>)
  {
    && start in visited && visited == found + {start} && current in visited
    && (forall v :: v in found ==> ReachPlus(M, start, v))
    && (forall v :: v in frontier ==> v in visited)
    && (forall v, w {:trigger (v, w) in M} :: (v, w) in M && v in visited && v !in frontier && v != current ==>
         w in found)
    && (forall w :: (current, w) in done ==> w in found)
  }

  lemma TakeCurrent(M: set<(string, string)>, start: string, found: set<string>, visited: set<string>,
          frontier: seq<string>, current: string)
    requires Explored(M, start, found, visited, frontier + [current])
    ensures Exploring(M, start, found, visited, frontier, current, {})
  {
    var whole := frontier + [current];
    assert whole[|frontier|] == current;
    assert forall v :: v in whole <==> v in frontier || v == current;
  }

  /** Following one more move of `current`. */
  lemma FollowMove(M: set<(string, string)>, start: string, found: set<string>, visited: set<string>,
          frontier: seq<string>, current: string, done: set<(string, string)>, w: string)
    requires Exploring(M, start, found, visited, frontier, current, done) && (current, w) in M
    ensures Exploring(M, start, found + {w}, visited + {w}, if w in visited then frontier else frontier + [w], current,
            done + {(current, w)})
  {
    ReachEdge(M, current, w);
    if current == start {
      ReachSelf(M, start);
    }
    ReachTrans(M, start, current, w);
    assert w in visited || w in frontier + [w];
  }

  lemma SkipMove(M: set<(string, string)>, start: string, found: set<string>, visited: set<string>,
          frontier: seq<string>, current: string, done: set<(string, string)>, v: string, w: string)
    requires Exploring(M, start, found, visited, frontier, current, done) && v != current
    ensures Exploring(M, start, found, visited, frontier, current, done + {(v, w)})
  {
  }

  lemma LeaveCurrent(M: set<(string, string)>, start: string, found: set<string>, visited: set<string>,
          frontier: seq<string>, current: string)
    requires Exploring(M, start, found, visited, frontier, current, M)
    ensures Explored(M, start, found, visited, frontier)
  {
  }

  lemma MoveAdded(transitions: seq<Transition>, k: nat)
    requires k < |transitions|
    ensures Moves(transitions[..k + 1])
            == Moves(transitions[..k]) + {(transitions[k].fromState, transitions[k].toState)}
    ensures (transitions[k].fromState, transitions[k].toState) in Moves(transitions)
  {
    assert transitions[..k + 1] == transitions[..k] + [transitions[k]];
  }

  lemma ExploredIsClosure(M: set<(string, string)>, start: string, found: set<string>, visited: set<string>)
    requires Explored(M, start, found, visited, [])
    ensures forall s :: s in found <==> ReachPlus(M, start, s)
  {
    forall s | ReachPlus(M, start, s)
      ensures s in found
    {
      var m := FirstStep(M, start, s);
      assert Closed(M, found);
      ClosedReach(M, found, m, s);
    }
  }

  /** `_reachable_states`: exactly the transitive closure, the start only by `allowSelf` or a real cycle. */
  method ReachableStates(axis: MachineAxis, start: string, allowSelf: bool) returns (states: seq<string>)
    ensures forall s :: s in states <==> InClosure(axis, start, allowSelf, s)
    ensures Ordered(StringLe, states) && Distinct(states)
  {
    hide Explored, Exploring, Moves, Ordered, Distinct, TotalPreorder;
    ghost var M := Moves(axis.transitions);
    ghost var universe := (set t | t in axis.transitions :: t.toState) + {start};
    var reachable: set<string> := if allowSelf then {start} else {};
    ghost var found: set<string> := {};
    var frontier := [start];
    var visited := {start};
    ExploreBegins(M, start);
    while frontier != []
      invariant Explored(M, start, found, visited, frontier)
      invariant reachable == found + if allowSelf then {start} else {}
      invariant visited == found + {start} && visited <= universe
      decreases universe - visited, |frontier|
    {
      ghost var before := visited;
      var current := frontier[|frontier| - 1];
      assert frontier == frontier[..|frontier| - 1] + [current];
      frontier := frontier[..|frontier| - 1];
      TakeCurrent(M, start, found, visited, frontier, current);
      ghost var shorter := |frontier|;
      NoMoves();
      for k := 0 to |axis.transitions|
        invariant Exploring(M, start, found, visited, frontier, current, Moves(axis.transitions[..k]))
        invariant reachable == found + if allowSelf then {start} else {}
        invariant visited == found + {start} && before <= visited <= universe
        invariant visited == before ==> |frontier| == shorter
      {
        var transition := axis.transitions[k];
        ghost var done := Moves(axis.transitions[..k]);
        MoveAdded(axis.transitions, k);
        if transition.fromState != current {
          SkipMove(M, start, found, visited, frontier, current, done, transition.fromState, transition.toState);
          continue;
        }
        FollowMove(M, start, found, visited, frontier, current, done, transition.toState);
        if transition.toState !in reachable {
          reachable := reachable + {transition.toState};
        }
        found := found + {transition.toState};
        if transition.toState !in visited {
          visited := visited + {transition.toState};
          frontier := frontier + [transition.toState];
        } else {
          assert visited + {transition.toState} == visited;
        }
      }
      assert axis.transitions[..|axis.transitions|] == axis.transitions;
      LeaveCurrent(M, start, found, visited, frontier, current);
    }
    ExploredIsClosure(M, start, found, visited);
    SortableStrings();
    states := SortedSet(StringLe, reachable);
  }

  lemma ExploreBegins(M: set<(string, string)>, start: string)
    ensures Explored(M, start, {}, {start}, [start])
  {
    assert start in [start];
  }

  lemma NoMoves()
    ensures Moves([]) == {}
  {
  }

  lemma SortableStrings()
    ensures TotalPreorder(StringLe)
  {
    StringOrder();
  }

  // ---------------------------------------------------------------------------
  // Status traces
  // ---------------------------------------------------------------------------

  /** Command id to its allowed statuses; an empty set allows every status. */
  type Commands = map<string, set<string>>

  predicate StartsWith(s: string, prefix: string)
  {
    prefix <= s
  }

  predicate ContainsText(s: string, part: string)
  {
    StartsWith(s, part) || (s != [] && ContainsText(s[1..], part))
  }

  predicate EndsWith(s: string, suffix: string)
  {
    |suffix| <= |s| && s[|s| - |suffix|..] == suffix
  }

  predicate MayKeepState(command: string)
  {
    || ContainsText(command, ".query-")
    || ContainsText(command, ".run-phase")
    || ContainsText(command, ".resume")
    || ContainsText(command, ".resume-run")
    || ContainsText(command, ".ingest-")
    || EndsWith(command, ".query-audit-log")
  }

  /** `part` occurs somewhere in `s`. */
  ghost predicate Occurs(part: string, s: string)
  {
    exists i: nat :: OccursAt(part, s, i)
  }

  ghost predicate OccursAt(part: string, s: string, i: nat)
  {
    i + |part| <= |s| && s[i..i + |part|] == part
  }

  lemma OccursLater(part: string, s: string, i: nat)
    requires s != []
    ensures OccursAt(part, s[1..], i) <==> OccursAt(part, s, i + 1)
  {
    if i + 1 + |part| <= |s| {
      assert s[1..][i..i + |part|] == s[i + 1..i + 1 + |part|];
    }
  }

  lemma OccursFirst(part: string, s: string)
    ensures OccursAt(part, s, 0) <==> StartsWith(s, part)
  {
  }

  lemma {:induction false} ContainsIff(s: string, part: string)
    ensures ContainsText(s, part) <==> Occurs(part, s)
  {
    hide OccursAt, StartsWith;
    OccursFirst(part, s);
    if s == [] {
      NowhereElse(part);
    } else {
      ContainsIff(s[1..], part);
      if i: nat :| OccursAt(part, s[1..], i) {
        OccursLater(part, s, i);
      }
      if i: nat :| OccursAt(part, s, i) && i > 0 {
        OccursLater(part, s, i - 1);
      }
    }
  }

  lemma NowhereElse(part: string)
    ensures forall i: nat :: OccursAt(part, [], i) ==> i == 0
  {
  }

  /** A command may keep its state iff one of these occurs in it, or the last one ends it. */
  lemma MayKeepStateIff(command: string)
    ensures MayKeepState(command) <==>
            || Occurs(".query-", command) || Occurs(".run-phase", command) || Occurs(".resume", command)
            || Occurs(".resume-run", command) || Occurs(".ingest-", command)
            || exists before: string :: command == before + ".query-audit-log"
  {
    hide ContainsText, Occurs;
    ContainsIff(command, ".query-");
    ContainsIff(command, ".run-phase");
    ContainsIff(command, ".resume");
    ContainsIff(command, ".resume-run");
    ContainsIff(command, ".ingest-");
    EndsIff(command, ".query-audit-log");
  }

  lemma EndsIff(s: string, suffix: string)
    ensures EndsWith(s, suffix) <==> exists before: string :: s == before + suffix
  {
    if EndsWith(s, suffix) {
      assert s == s[..|s| - |suffix|] + suffix;
    }
  }

  /** One step of a run: the command is known and allowed, and the machine can get there. */
  ghost predicate CanStep(axis: MachineAxis, commands: Commands, command: string, s: string, t: string)
  {
    && command in commands
    && (commands[command] == {} || s in commands[command])
    && InClosure(axis, s, MayKeepState(command), t)
  }

  /** `states` is a run of the machine that explains the commands one by one. */
  ghost predicate IsRun(axis: MachineAxis, commands: Commands, steps: seq<string>, states: seq<string>)
  {
    && |states| == |steps| + 1
    && forall k, l :: 0 <= k < |steps| && l == k + 1 ==> CanStep(axis, commands, steps[k], states[k], states[l])
  }

  /** Some run of the commands leads from `s` to `t`. */
  ghost predicate Arrives(axis: MachineAxis, commands: Commands, steps: seq<string>, s: string, t: string)
  {
    exists states :: IsRun(axis, commands, steps, states) && states[0] == s && states[|steps|] == t
  }

  lemma ArrivesNowhere(axis: MachineAxis, commands: Commands, s: string, t: string)
    ensures Arrives(axis, commands, [], s, t) <==> s == t
  {
    if s == t {
      assert IsRun(axis, commands, [], [s]);
    }
  }

  lemma ArrivesStep(axis: MachineAxis, commands: Commands, steps: seq<string>, s: string, t: string)
    requires steps != []
    ensures Arrives(axis, commands, steps, s, t) <==>
            exists m :: CanStep(axis, commands, steps[0], s, m) && Arrives(axis, commands, steps[1..], m, t)
  {
    hide CanStep;
    if Arrives(axis, commands, steps, s, t) {
      var states :| IsRun(axis, commands, steps, states) && states[0] == s && states[|steps|] == t;
      assert IsRun(axis, commands, steps[1..], states[1..]) by {
        forall k, l | 0 <= k < |steps[1..]| && l == k + 1
          ensures CanStep(axis, commands, steps[1..][k], states[1..][k], states[1..][l])
        {
          assert CanStep(axis, commands, steps[k + 1], states[k + 1], states[l + 1]);
        }
      }
      assert CanStep(axis, commands, steps[0], s, states[1]);
      assert Arrives(axis, commands, steps[1..], states[1], t);
    }
    if m :| CanStep(axis, commands, steps[0], s, m) && Arrives(axis, commands, steps[1..], m, t) {
      var rest :| IsRun(axis, commands, steps[1..], rest) && rest[0] == m && rest[|steps[1..]|] == t;
      var states := [s] + rest;
      forall k, l | 0 <= k < |steps| && l == k + 1
        ensures CanStep(axis, commands, steps[k], states[k], states[l])
      {
        if k > 0 {
          assert CanStep(axis, commands, steps[1..][k - 1], rest[k - 1], rest[l - 1]);
        }
      }
      assert IsRun(axis, commands, steps, states);
    }
  }

  datatype Solution = Solved(accepted: bool) | UnknownCommand(command: string)

  /** The first command that is not known, after commands that are. */
  ghost predicate FirstUnknown(commands: Commands, steps: seq<string>, k: nat)
  {
    k < |steps| && steps[k] !in commands && forall j :: 0 <= j < k ==> steps[j] in commands
  }

  /** Some run of the known commands gets as far as an unknown one. */
  ghost predicate MeetsUnknown(axis: MachineAxis, commands: Commands, steps: seq<string>, s: string)
  {
    exists k: nat, t :: FirstUnknown(commands, steps, k) && Arrives(axis, commands, steps[..k], s, t)
  }

  lemma MeetsUnknownNow(axis: MachineAxis, commands: Commands, steps: seq<string>, s: string)
    requires steps != [] && steps[0] !in commands
    ensures MeetsUnknown(axis, commands, steps, s)
  {
    ArrivesNowhere(axis, commands, s, s);
    assert FirstUnknown(commands, steps, 0) && steps[..0] == [];
  }

  lemma MeetsUnknownLater(axis: MachineAxis, commands: Commands, steps: seq<string>, s: string)
    requires steps != [] && steps[0] in commands
    ensures MeetsUnknown(axis, commands, steps, s) <==>
            exists m :: CanStep(axis, commands, steps[0], s, m) && MeetsUnknown(axis, commands, steps[1..], m)
  {
    hide CanStep, Arrives;
    if MeetsUnknown(axis, commands, steps, s) {
      var k: nat, t :| FirstUnknown(commands, steps, k) && Arrives(axis, commands, steps[..k], s, t);
      assert k > 0;
      ArrivesStep(axis, commands, steps[..k], s, t);
      assert steps[..k][1..] == steps[1..][..k - 1];
      var m :| CanStep(axis, commands, steps[0], s, m) && Arrives(axis, commands, steps[1..][..k - 1], m, t);
      assert FirstUnknown(commands, steps[1..], k - 1);
    }
    if m :| CanStep(axis, commands, steps[0], s, m) && MeetsUnknown(axis, commands, steps[1..], m) {
      var k: nat, t :| FirstUnknown(commands, steps[1..], k) && Arrives(axis, commands, steps[1..][..k], m, t);
      assert steps[..k + 1][1..] == steps[1..][..k];
      ArrivesStep(axis, commands, steps[..k + 1], s, t);
      assert FirstUnknown(commands, steps, k + 1) by {
        forall j | 0 <= j < k + 1
          ensures steps[j] in commands
        {
          assert j > 0 ==> steps[1..][j - 1] in commands;
        }
      }
    }
  }

  /** An unknown command rules out an accepting run altogether. */
  lemma {:induction false} UnknownNeverArrives(axis: MachineAxis, commands: Commands, steps: seq<string>, s: string,
          t: string)
    requires MeetsUnknown(axis, commands, steps, s)
    ensures !Arrives(axis, commands, steps, s, t)
  {
    var k: nat, t' :| FirstUnknown(commands, steps, k) && Arrives(axis, commands, steps[..k], s, t');
    forall states | |states| == |steps| + 1
      ensures !IsRun(axis, commands, steps, states)
    {
      assert !CanStep(axis, commands, steps[k], states[k], states[k + 1]);
    }
  }

  /** The answer `solve` owes for the remaining steps. */
  ghost predicate IsSolution(axis: MachineAxis, commands: Commands, steps: seq<string>, s: string, end: string,
          r: Solution)
  {
    && (r == Solved(true) <==> Arrives(axis, commands, steps, s, end))
    && (r.UnknownCommand? <==> MeetsUnknown(axis, commands, steps, s))
    && (r.UnknownCommand? ==> exists k: nat :: FirstUnknown(commands, steps, k) && r.command == steps[k])
  }

  /** No candidate tried so far leads on. */
  ghost predicate NoneLeadsOn(axis: MachineAxis, commands: Commands, rest: seq<string>, tried: seq<string>, end: string)
  {
    forall m :: m in tried ==> !Arrives(axis, commands, rest, m, end) && !MeetsUnknown(axis, commands, rest, m)
  }

  lemma CandidateLeadsOn(axis: MachineAxis, commands: Commands, steps: seq<string>, s: string, end: string, m: string,
          r: Solution)
    requires steps != [] && CanStep(axis, commands, steps[0], s, m)
    requires IsSolution(axis, commands, steps[1..], m, end, r) && r != Solved(false)
    ensures IsSolution(axis, commands, steps, s, end, r)
  {
    ArrivesStep(axis, commands, steps, s, end);
    MeetsUnknownLater(axis, commands, steps, s);
    if r.UnknownCommand? {
      UnknownNeverArrives(axis, commands, steps, s, end);
      var k: nat :| FirstUnknown(commands, steps[1..], k) && r.command == steps[1..][k];
      assert FirstUnknown(commands, steps, k + 1) by {
        forall j | 0 <= j < k + 1
          ensures steps[j] in commands
        {
          assert j > 0 ==> steps[1..][j - 1] in commands;
        }
      }
    } else if MeetsUnknown(axis, commands, steps, s) {
      UnknownNeverArrives(axis, commands, steps, s, end);
    }
  }

  lemma NoCandidateLeadsOn(axis: MachineAxis, commands: Commands, steps: seq<string>, s: string, end: string,
          candidates: seq<string>)
    requires steps != [] && steps[0] in commands
    requires forall m :: CanStep(axis, commands, steps[0], s, m) ==> m in candidates
    requires NoneLeadsOn(axis, commands, steps[1..], candidates, end)
    ensures IsSolution(axis, commands, steps, s, end, Solved(false))
  {
    ArrivesStep(axis, commands, steps, s, end);
    MeetsUnknownLater(axis, commands, steps, s);
  }

  /** `solve`: backtracking over the closure of each state, stopping at the first run or unknown command. */
  method Solve(axis: MachineAxis, commands: Commands, steps: seq<string>, current: string, end: string)
    returns (r: Solution)
    ensures IsSolution(axis, commands, steps, current, end, r)
    decreases |steps|
  {
    if steps == [] {
      ArrivesNowhere(axis, commands, current, end);
      assert !MeetsUnknown(axis, commands, steps, current);
      return Solved(current == end);
    }
    hide IsSolution, Arrives, MeetsUnknown, InClosure, MayKeepState;
    var command := steps[0];
    if command !in commands {
      UnknownFirst(axis, commands, steps, current, end);
      return UnknownCommand(command);
    }
    if commands[command] != {} && current !in commands[command] {
      NoCandidateLeadsOn(axis, commands, steps, current, end, []);
      return Solved(false);
    }
    var candidates := ReachableStates(axis, current, MayKeepState(command));
    for i := 0 to |candidates|
      invariant NoneLeadsOn(axis, commands, steps[1..], candidates[..i], end)
    {
      var candidate := candidates[i];
      assert CanStep(axis, commands, command, current, candidate);
      r := Solve(axis, commands, steps[1..], candidate, end);
      if r != Solved(false) {
        CandidateLeadsOn(axis, commands, steps, current, end, candidate, r);
        return;
      }
      DeadEnd(axis, commands, steps[1..], candidate, end);
      assert candidates[..i + 1] == candidates[..i] + [candidate];
    }
    assert candidates[..|candidates|] == candidates;
    NoCandidateLeadsOn(axis, commands, steps, current, end, candidates);
    return Solved(false);
  }

  lemma DeadEnd(axis: MachineAxis, commands: Commands, steps: seq<string>, s: string, end: string)
    requires IsSolution(axis, commands, steps, s, end, Solved(false))
    ensures !Arrives(axis, commands, steps, s, end) && !MeetsUnknown(axis, commands, steps, s)
  {
  }

  lemma UnknownFirst(axis: MachineAxis, commands: Commands, steps: seq<string>, s: string, end: string)
    requires steps != [] && steps[0] !in commands
    ensures IsSolution(axis, commands, steps, s, end, UnknownCommand(steps[0]))
  {
    MeetsUnknownNow(axis, commands, steps, s);
    UnknownNeverArrives(axis, commands, steps, s, end);
    assert FirstUnknown(commands, steps, 0);
  }

  /**
    An unknown command behind one that leads nowhere goes unreported: the trace is answered as
    not executable, as if all its commands were known.
   */
  lemma UnknownGoesUnreported()
    ensures var axis, commands := MachineAxis({"a", "b"}, {"b"}, []), map["go" := {}];
            "nope" !in commands
              && forall r :: IsSolution(axis, commands, ["go", "nope"], "a", "b", r) ==> r == Solved(false)
  {
    hide InClosure, MayKeepState;
    ShortCommandMoves("go");
    var axis, commands: Commands := MachineAxis({"a", "b"}, {"b"}, []), map["go" := {}];
    forall m
      ensures !CanStep(axis, commands, "go", "a", m)
    {
      StuckAtOnce(axis, "go", "a", m);
    }
    ArrivesStep(axis, commands, ["go", "nope"], "a", "b");
    MeetsUnknownLater(axis, commands, ["go", "nope"], "a");
  }

  lemma {:induction false} ContainedIsShorter(s: string, part: string)
    requires ContainsText(s, part)
    ensures |part| <= |s|
  {
    if !StartsWith(s, part) {
      ContainedIsShorter(s[1..], part);
    }
  }

  lemma ShortCommandMoves(command: string)
    requires |command| < 7
    ensures !MayKeepState(command)
  {
    hide ContainsText;
    forall part | part in [".query-", ".run-phase", ".resume", ".resume-run", ".ingest-"]
      ensures !ContainsText(command, part)
    {
      if ContainsText(command, part) {
        ContainedIsShorter(command, part);
      }
    }
  }

  /** Without transitions, a command that may not keep the state leads nowhere. */
  lemma StuckAtOnce(axis: MachineAxis, command: string, s: string, t: string)
    requires axis.transitions == [] && !MayKeepState(command)
    ensures !InClosure(axis, s, MayKeepState(command), t)
  {
    hide MayKeepState;
    NoMoves();
    if ReachPlus(Moves(axis.transitions), s, t) {
      var m := FirstStep(Moves(axis.transitions), s, t);
    }
  }

  datatype Verdict = Valid | Rejected(reason: string)

  /** A status trace is accepted iff its end is terminal and some run of known commands explains it. */
  method ValidateStatusTrace(axis: MachineAxis, commands: Commands, steps: seq<string>, start: string, end: string)
    returns (v: Verdict)
    ensures v.Valid? <==> start in axis.states && end in axis.states && end in axis.terminalStates
                          && Arrives(axis, commands, steps, start, end)
  {
    if start !in axis.states || end !in axis.states {
      return Rejected("unknown state");
    }
    if end !in axis.terminalStates {
      return Rejected("not terminal");
    }
    var r := Solve(axis, commands, steps, start, end);
    if r.UnknownCommand? {
      UnknownNeverArrives(axis, commands, steps, start, end);
      return Rejected("unknown command");
    }
    return if r.accepted then Valid else Rejected("not executable");
  }

  // ---------------------------------------------------------------------------
  // Phase traces
  // ---------------------------------------------------------------------------

  /** The named phases of a trace, in order. */
  function Named(phases: seq<Option<string>>): seq<string>
  {
    if phases == [] then []
    else
      var last := phases[|phases| - 1];
      Named(phases[..|phases| - 1]) + if last.Some? then [last.value] else []
  }

  /** Every two consecutive checkpoints are equal or joined by at least one transition. */
  ghost predicate Connected(axis: MachineAxis, checkpoints: seq<string>)
  {
    forall i, j :: 0 <= i && j == i + 1 && j < |checkpoints| ==>
      checkpoints[i] == checkpoints[j] || ReachPlus(Moves(axis.transitions), checkpoints[i], checkpoints[j])
  }

  ghost predicate AllKnown(axis: MachineAxis, phases: seq<Option<string>>)
  {
    forall p :: p in phases && p.Some? ==> p.value in axis.states
  }

  /** A phase trace is accepted iff it has a start, names only known phases, and its checkpoints connect. */
  method ValidatePhaseTrace(axis: MachineAxis, start: Option<string>, targets: seq<Option<string>>,
          expected: Option<string>)
    returns (v: Verdict)
    ensures v.Valid? <==> && start.Some? && AllKnown(axis, [start] + targets + [expected])
                          && Connected(axis, Named([start] + targets + [expected]))
  {
    hide Named, Connected;
    ghost var all := [start] + targets + [expected];
    assert start in all && expected in all && forall p :: p in targets ==> p in all;
    if start.None? || start.value !in axis.states {
      return Rejected("no known start phase");
    }
    if expected.Some? && expected.value !in axis.states {
      return Rejected("unknown phase");
    }
    var checkpoints := [start.value];
    NamedOne(start);
    assert [start] + targets[..0] == [start];
    for k := 0 to |targets|
      invariant checkpoints == Named([start] + targets[..k]) && checkpoints != []
      invariant AllKnown(axis, targets[..k])
    {
      NamedSnoc([start] + targets[..k], targets[k]);
      assert targets[..k + 1] == targets[..k] + [targets[k]];
      assert [start] + targets[..k + 1] == [start] + targets[..k] + [targets[k]];
      if targets[k].Some? {
        if targets[k].value !in axis.states {
          return Rejected("unknown phase");
        }
        checkpoints := checkpoints + [targets[k].value];
      }
    }
    assert targets[..|targets|] == targets;
    NamedSnoc([start] + targets, expected);
    if expected.Some? {
      checkpoints := checkpoints + [expected.value];
    }
    assert checkpoints == Named(all) && AllKnown(axis, all);
    var connected := CheckConnected(axis, checkpoints);
    return if connected then Valid else Rejected("not executable");
  }

  lemma NamedOne(p: Option<string>)
    ensures Named([p]) == if p.Some? then [p.value] else []
  {
    assert [p][..0] == [];
  }

  lemma NamedSnoc(a: seq<Option<string>>, p: Option<string>)
    ensures Named(a + [p]) == Named(a) + if p.Some? then [p.value] else []
  {
    assert (a + [p])[..|a|] == a;
  }

  method CheckConnected(axis: MachineAxis, checkpoints: seq<string>) returns (connected: bool)
    requires checkpoints != []
    ensures connected <==> Connected(axis, checkpoints)
  {
    for i := 1 to |checkpoints|
      invariant Connected(axis, checkpoints[..i])
    {
      var current, next := checkpoints[i - 1], checkpoints[i];
      if current == next {
        continue;
      }
      var reachable := ReachableStates(axis, current, false);
      if next !in reachable {
        return false;
      }
    }
    assert checkpoints[..|checkpoints|] == checkpoints;
    return true;
  }
}
