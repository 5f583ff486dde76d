/** Removing unreachable agent states (src/compiler/passes/dead_state_elimination.cpp). */
module DeadStates {
  import opened Graphs
  import opened Sequences

  datatype Transition = Transition(source: string, target: string)
  datatype Agent = Agent(states: seq<string>, initial: string, finals: seq<string>, transitions: seq<Transition>)

  ghost function Edges(transitions: seq<Transition>): Graph<string> {
    set t | t in transitions :: (t.source, t.target)
  }

  lemma EdgesAreTransitions(ts: seq<Transition>, s: string, t: string)
    ensures (s, t) in Edges(ts) <==> Transition(s, t) in ts
  {
  }

  ghost predicate Reached(a: Agent, s: string) {
    s == a.initial || Reaches(Edges(a.transitions), a.initial, s)
  }

  /** What the pass counts as alive: the reachable states and all final ones. */
  ghost function Alive(a: Agent): (r: set<string>)
    ensures forall s :: s in r <==> s in a.finals || Reached(a, s)
  {
    (set s | s in a.finals) + {a.initial} + ReachSetOf(Edges(a.transitions), a.initial)
  }

  ghost function ReachSetOf(g: Graph<string>, s: string): (r: set<string>)
    ensures forall x :: x in r <==> Reaches(g, s, x)
  {
    forall x | Reaches(g, s, x)
      ensures x in Targets(g)
    {
      ReachTarget(g, s, x);
    }
    set x | x in Targets(g) && Reaches(g, s, x)
  }

  ghost function KeptStates(states: seq<string>, alive: set<string>): (r: seq<string>)
    ensures forall s :: s in r <==> s in states && s in alive
    ensures |r| <= |states| && (|r| == |states| ==> r == states)
  {
    if states == [] then []
    else
      var n := |states| - 1;
      assert states == states[..n] + [states[n]];
      KeptStates(states[..n], alive) + if states[n] in alive then [states[n]] else []
  }

  ghost function KeptTransitions(ts: seq<Transition>, alive: set<string>): (r: seq<Transition>)
    ensures forall t :: t in r <==> t in ts && t.source in alive && t.target in alive
    ensures |r| <= |ts| && (|r| == |ts| ==> r == ts)
  {
    if ts == [] then []
    else
      var n := |ts| - 1;
      assert ts == ts[..n] + [ts[n]];
      KeptTransitions(ts[..n], alive) + if ts[n].source in alive && ts[n].target in alive then [ts[n]] else []
  }

  /** The pass compares two counts to see whether there is anything to do. */
  ghost predicate Skipped(a: Agent) {
    a.states == [] || a.initial == "" || |Alive(a)| == |a.states|
  }

  ghost function Eliminated(a: Agent): Agent {
    if Skipped(a) then a
    else a.(states := KeptStates(a.states, Alive(a)), transitions := KeptTransitions(a.transitions, Alive(a)))
  }

  /** What the pass reports as a modification. */
  ghost predicate Flagged(a: Agent) {
    |Eliminated(a).states| != |a.states|
  }

  // ---------------------------------------------------------------------- the pass

  /** Breadth-first search; the queue holds found states whose transitions are still to follow. */
  method ReachableFrom(initial: string, transitions: seq<Transition>) returns (reachable: set<string>)
    ensures forall s :: s in reachable <==> s == initial || Reaches(Edges(transitions), initial, s)
  {
    ghost var g := Edges(transitions);
    var work := [initial];
    reachable := {initial};
    while work != []
      invariant initial in reachable && forall s :: s in work ==> s in reachable
      invariant forall s :: s in reachable ==> s == initial || Reaches(g, initial, s)
      invariant forall e :: e in g && e.0 in reachable && e.0 !in work ==> e.1 in reachable
      invariant reachable <= {initial} + Targets(g)
      decreases |{initial} + Targets(g)| - |reachable|, |work|
    {
      var current := work[0];
      ghost var before := work;
      ghost var known := reachable;
      work := work[1..];
      for i := 0 to |transitions|
        invariant known <= reachable <= {initial} + Targets(g)
        invariant before[1..] <= work && forall s :: s in work ==> s in reachable
        invariant forall s :: s in reachable ==> s == initial || Reaches(g, initial, s)
        invariant forall s :: s in reachable ==> s in known || s in work
        invariant forall k :: 0 <= k < i && transitions[k].source == current ==> transitions[k].target in reachable
        invariant reachable == known ==> work == before[1..]
      {
        var t := transitions[i];
        if t.source == current && t.target !in reachable {
          assert t in transitions && (t.source, t.target) in g;
          ReachEdge(g, current, t.target);
          if current != initial {
            ReachTrans(g, initial, current, t.target);
          }
          reachable := reachable + {t.target};
          work := work + [t.target];
        }
      }
      StillFollowed(g, transitions, known, reachable, before, work);
      SubsetCardinality(known, reachable);
      SubsetCardinality(reachable, {initial} + Targets(g));
    }
    forall s | Reaches(g, initial, s)
      ensures s in reachable
    {
      ClosedContainsReachable(g, reachable, initial, s);
    }
  }

  /** After one round the only found states with transitions to follow are in the queue. */
  lemma StillFollowed(g: Graph<string>, transitions: seq<Transition>, known: set<string>, reachable: set<string>,
                      before: seq<string>, work: seq<string>)
    requires g == Edges(transitions) && before != [] && known <= reachable && before[1..] <= work
    requires forall s :: s in reachable ==> s in known || s in work
    requires forall e :: e in g && e.0 in known && e.0 !in before ==> e.1 in known
    requires forall k :: 0 <= k < |transitions| && transitions[k].source == before[0] ==> transitions[k].target in reachable
    ensures forall e :: e in g && e.0 in reachable && e.0 !in work ==> e.1 in reachable
  {
  }

  /** What stays, stays in its order. */
  lemma KeptInOrder(states: seq<string>, s: string, ts: seq<Transition>, t: Transition, alive: set<string>)
    ensures KeptStates([], alive) == [] && KeptTransitions([], alive) == []
    ensures KeptStates(states + [s], alive) == KeptStates(states, alive) + if s in alive then [s] else []
    ensures KeptTransitions(ts + [t], alive)
      == KeptTransitions(ts, alive) + if t.source in alive && t.target in alive then [t] else []
  {
    assert (states + [s])[..|states|] == states && (ts + [t])[..|ts|] == ts;
  }

  /** Nothing is touched without states or an initial state, or if the counts agree; otherwise the states and the
      transitions are filtered, and nothing else. */
  lemma EliminatedIs(a: Agent)
    ensures a.states == [] || a.initial == "" || |Alive(a)| == |a.states| ==> Eliminated(a) == a
    ensures a.states != [] && a.initial != "" && |Alive(a)| != |a.states| ==>
      Eliminated(a)
      == Agent(KeptStates(a.states, Alive(a)), a.initial, a.finals, KeptTransitions(a.transitions, Alive(a)))
    ensures Flagged(a) <==> |Eliminated(a).states| != |a.states|
  {
  }

  class AgentDecl {
    var states: seq<string>
    const initial: string
    const finals: seq<string>
    var transitions: seq<Transition>

    constructor (a: Agent)
      ensures Value() == a
    {
      states, initial, finals, transitions := a.states, a.initial, a.finals, a.transitions;
    }

    function Value(): Agent
      reads this
    {
      Agent(states, initial, finals, transitions)
    }

    method EliminateDeadStates() returns (modified: bool)
      modifies this
      ensures Value() == Eliminated(old(Value()))
      ensures modified <==> Flagged(old(Value()))
    {
      if states == [] || initial == "" {
        return false;
      }
      var alive := ReachableFrom(initial, transitions);
      for i := 0 to |finals|
        invariant forall s :: s in alive <==> s in finals[..i] || Reached(Value(), s)
        invariant Value() == old(Value())
      {
        assert finals[..i + 1] == finals[..i] + [finals[i]];
        alive := alive + {finals[i]};
      }
      assert finals[..|finals|] == finals;
      assert alive == Alive(Value());
      if |alive| == |states| {
        return false;
      }
      var size := |states|;
      var kept := EraseStates(states, alive);
      var left := EraseTransitions(transitions, alive);
      states, transitions := kept, left;
      modified := |states| != size;
    }
  }

  method EraseStates(states: seq<string>, alive: set<string>) returns (r: seq<string>)
    ensures r == KeptStates(states, alive)
  {
    r := [];
    for i := 0 to |states|
      invariant r == KeptStates(states[..i], alive)
    {
      assert states[..i + 1][..i] == states[..i];
      if states[i] in alive {
        r := r + [states[i]];
      }
    }
    assert states[..|states|] == states;
  }

  lemma NextTransition(ts: seq<Transition>, alive: set<string>, i: nat)
    ensures KeptTransitions([], alive) == []
    ensures i < |ts| ==>
      KeptTransitions(ts[..i + 1], alive)
      == KeptTransitions(ts[..i], alive) + if ts[i].source in alive && ts[i].target in alive then [ts[i]] else []
  {
    if i < |ts| {
      assert ts[..i + 1][..i] == ts[..i];
    }
  }

  method EraseTransitions(ts: seq<Transition>, alive: set<string>) returns (r: seq<Transition>)
    ensures r == KeptTransitions(ts, alive)
  {
    hide KeptTransitions;
    r := [];
    NextTransition(ts, alive, 0);
    for i := 0 to |ts|
      invariant r == KeptTransitions(ts[..i], alive)
    {
      NextTransition(ts, alive, i);
      if ts[i].source in alive && ts[i].target in alive {
        r := r + [ts[i]];
      }
    }
    assert ts[..|ts|] == ts;
  }

  // --------------------------------------------------------------------- properties

  /** A run of the agent: a path of transitions from the initial state. */
  ghost predicate IsRun(a: Agent, p: seq<string>) {
    p != [] && p[0] == a.initial && IsPath(Edges(a.transitions), p)
  }

  lemma {:induction false} RunsStayReached(a: Agent, p: seq<string>, i: nat)
    requires IsRun(a, p) && i < |p|
    ensures Reached(a, p[i])
  {
    if i > 0 {
      assert PathFromTo(Edges(a.transitions), p[..i + 1], a.initial, p[i]);
    }
  }

  lemma EdgesKept(a: Agent, e: (string, string))
    ensures e in Edges(KeptTransitions(a.transitions, Alive(a))) <==>
      e in Edges(a.transitions) && e.0 in Alive(a) && e.1 in Alive(a)
  {
  }

  /** Main result: whatever is removed, the agent has exactly the same runs. */
  lemma RunsAreKept(a: Agent, p: seq<string>)
    ensures IsRun(Eliminated(a), p) <==> IsRun(a, p)
  {
    var b := Eliminated(a);
    if !Skipped(a) {
      if IsRun(b, p) {
        forall i | 0 <= i < |p| - 1
          ensures (p[i], p[i + 1]) in Edges(a.transitions)
        {
          assert (p[i], p[i + 1]) in Edges(b.transitions);
          EdgesKept(a, (p[i], p[i + 1]));
        }
      }
      if IsRun(a, p) {
        forall i | 0 <= i < |p| - 1
          ensures (p[i], p[i + 1]) in Edges(b.transitions)
        {
          assert (p[i], p[i + 1]) in Edges(a.transitions);
          RunsStayReached(a, p, i);
          RunsStayReached(a, p, i + 1);
          EdgesKept(a, (p[i], p[i + 1]));
        }
      }
    }
  }

  lemma ReachedIsKept(a: Agent, s: string)
    ensures Reached(Eliminated(a), s) <==> Reached(a, s)
  {
    var b := Eliminated(a);
    if s != a.initial {
      if Reached(a, s) {
        var p :| PathFromTo(Edges(a.transitions), p, a.initial, s);
        RunsAreKept(a, p);
        assert PathFromTo(Edges(b.transitions), p, b.initial, s);
      }
      if Reached(b, s) {
        var p :| PathFromTo(Edges(b.transitions), p, b.initial, s);
        RunsAreKept(a, p);
        assert PathFromTo(Edges(a.transitions), p, a.initial, s);
      }
    }
  }

  lemma AliveIsKept(a: Agent)
    ensures Alive(Eliminated(a)) == Alive(a)
  {
    forall s
      ensures s in Alive(Eliminated(a)) <==> s in Alive(a)
    {
      ReachedIsKept(a, s);
    }
  }

  lemma {:induction false} KeepingTwice(states: seq<string>, ts: seq<Transition>, alive: set<string>)
    requires forall s :: s in states ==> s in alive
    requires forall t :: t in ts ==> t.source in alive && t.target in alive
    ensures KeptStates(states, alive) == states && KeptTransitions(ts, alive) == ts
    decreases |states| + |ts|
  {
    if states != [] {
      KeepingTwice(states[..|states| - 1], ts, alive);
    } else if ts != [] {
      KeepingTwice(states, ts[..|ts| - 1], alive);
    }
  }

  /** Main result: a second run changes nothing and reports nothing. */
  lemma SecondRunChangesNothing(a: Agent)
    ensures Eliminated(Eliminated(a)) == Eliminated(a) && !Flagged(Eliminated(a))
  {
    var b := Eliminated(a);
    AliveIsKept(a);
    if !Skipped(a) {
      KeepingTwice(b.states, b.transitions, Alive(a));
    }
  }

  /** What validation demands of agents: states once each, and no others mentioned anywhere. */
  ghost predicate Declared(a: Agent) {
    && Distinct(a.states) && a.initial in a.states && a.initial != ""
    && (forall s :: s in a.finals ==> s in a.states)
    && (forall t :: t in a.transitions ==> t.source in a.states && t.target in a.states)
  }

  lemma AliveIsDeclared(a: Agent)
    requires Declared(a)
    ensures Alive(a) <= (set s | s in a.states)
    ensures |set s | s in a.states| == |a.states|
  {
    var listed := set s | s in a.states;
    DistinctSize(a.states);
    forall s | Reaches(Edges(a.transitions), a.initial, s)
      ensures s in listed
    {
      ClosedContainsReachable(Edges(a.transitions), listed, a.initial, s);
    }
  }

  /** The counts agree exactly when no declared state is dead. */
  lemma CountsTell(a: Agent)
    requires Declared(a)
    ensures Skipped(a) <==> forall s :: s in a.states ==> s in Alive(a)
  {
    hide Alive;
    var listed := set s | s in a.states;
    AliveIsDeclared(a);
    SubsetCardinality(Alive(a), listed);
    if forall s :: s in a.states ==> s in Alive(a) {
      assert listed == Alive(a);
    }
  }

  lemma {:induction false} KeptAreDistinct(states: seq<string>, alive: set<string>)
    requires Distinct(states)
    ensures Distinct(KeptStates(states, alive))
  {
    if states != [] {
      KeptAreDistinct(states[..|states| - 1], alive);
    }
  }

  lemma StaysDeclared(a: Agent)
    requires Declared(a)
    ensures Declared(Eliminated(a))
  {
    KeptAreDistinct(a.states, Alive(a));
  }

  /** Where all states are declared the pass leaves exactly the live ones, with the transitions
      between them, and what it reports is whether it changed anything. */
  lemma {:induction false} ExactlyTheLiveOnesStay(a: Agent)
    requires Declared(a)
    ensures forall s :: s in Eliminated(a).states <==> s in Alive(a)
    ensures forall t :: t in Eliminated(a).transitions <==>
      t in a.transitions && t.source in Alive(a) && t.target in Alive(a)
    ensures Flagged(a) <==> Eliminated(a) != a
    ensures Declared(Eliminated(a))
  {
    hide Alive, KeptStates, KeptTransitions, Reached, Skipped;
    AliveIsDeclared(a);
    CountsTell(a);
    StaysDeclared(a);
    if !Skipped(a) {
      var dead :| dead in a.states && dead !in Alive(a);
      assert dead !in KeptStates(a.states, Alive(a));
    }
  }

  // ------------------------------------------------------------------ on every agent

  ghost predicate AllAlive(a: Agent) {
    forall s :: s in a.states ==> s in Alive(a)
  }

  /** Both ends of every transition are alive. */
  ghost predicate TransitionsAlive(a: Agent) {
    forall t :: t in a.transitions ==> t.source in Alive(a) && t.target in Alive(a)
  }

  /** Main result: on any agent, exactly when the pass leaves no dead state, and exactly when what it
      reports is whether it changed anything. */
  lemma {:induction false} WhenThePassIsRight(a: Agent)
    ensures (forall s :: s in Eliminated(a).states ==> s in Alive(a)) <==> !Skipped(a) || AllAlive(a)
    ensures (Flagged(a) <==> Eliminated(a) != a) <==> Skipped(a) || !AllAlive(a) || TransitionsAlive(a)
  {
    hide Alive, KeptStates, KeptTransitions, Reached, Skipped;
    if !Skipped(a) {
      if AllAlive(a) {
        KeepingTwice(a.states, [], Alive(a));
        if TransitionsAlive(a) {
          KeepingTwice([], a.transitions, Alive(a));
        } else {
          var t :| t in a.transitions && !(t.source in Alive(a) && t.target in Alive(a));
          assert t !in KeptTransitions(a.transitions, Alive(a));
        }
      } else {
        var dead :| dead in a.states && dead !in Alive(a);
        assert dead !in KeptStates(a.states, Alive(a));
      }
    }
  }

  ghost function ListedStates(a: Agent): set<string> {
    set s | s in a.states
  }

  /** The two counts agree exactly when as many live states are undeclared as declared ones are dead. */
  lemma SkippedExactlyWhen(a: Agent)
    requires Distinct(a.states) && a.states != [] && a.initial != ""
    ensures Skipped(a) <==> |Alive(a) - ListedStates(a)| == |ListedStates(a) - Alive(a)|
  {
    hide Alive;
    var listed, alive := ListedStates(a), Alive(a);
    DistinctSize(a.states);
    assert alive == (alive - listed) + alive * listed && listed == (listed - alive) + alive * listed;
  }

  lemma AliveInOneStep(a: Agent, t: Transition)
    requires a.transitions == [t]
    ensures Alive(a) == (set s | s in a.finals) + {a.initial} + if t.source == a.initial then {t.target} else {}
  {
    var g := Edges(a.transitions);
    assert t in a.transitions;
    assert g == {(t.source, t.target)};
    if t.source == a.initial {
      ReachEdge(g, t.source, t.target);
    }
    forall s | Reaches(g, a.initial, s)
      ensures s == t.target && t.source == a.initial
    {
      var m := ReachFirst(g, a.initial, s);
      ReachTarget(g, a.initial, s);
    }
  }

  /** With an undeclared state x the counts can agree by accident, and a dead state q stays. */
  lemma UndeclaredStateHidesADeadOne(p: string, q: string, x: string)
    requires p != "" && p != q && p != x && q != x
    ensures var a := Agent([p, q], p, [], [Transition(p, x)]);
      Eliminated(a) == a && q in a.states && q !in Alive(a)
  {
    var a := Agent([p, q], p, [], [Transition(p, x)]);
    AliveInOneStep(a, Transition(p, x));
    assert Alive(a) == {p, x};
  }

  /** And a transition from an undeclared state x can be removed without the pass reporting it. */
  lemma RemovedTransitionsGoUnreported(p: string, f: string, x: string)
    requires p != "" && p != f && x != p && x != f
    ensures var a := Agent([p], p, [f], [Transition(x, p)]);
      Eliminated(a) == a.(transitions := []) && !Flagged(a)
  {
    var a := Agent([p], p, [f], [Transition(x, p)]);
    AliveInOneStep(a, Transition(x, p));
    assert f in a.finals && Alive(a) == {p, f};
    assert a.transitions[..0] == [] && a.states[..0] == [];
    assert KeptStates(a.states, Alive(a)) == [p];
    assert KeptTransitions(a.transitions, Alive(a)) == [];
  }
}
