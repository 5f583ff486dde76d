/** The transitive reduction of `after` edges (src/compiler/passes/workflow_simplification.cpp). */
module WorkflowSimplification {
  import opened Graphs
  import opened Workflows
  import opened TransitiveReduction

  /** d is implied by some other direct dependency. */
  ghost predicate Redundant(g: Graph<string>, deps: seq<string>, d: string) {
    exists o :: o in deps && o != d && Reaches(g, o, d)
  }

  /** The dependencies that stay, in order and with their repetitions. */
  ghost function Kept(g: Graph<string>, deps: seq<string>, all: seq<string>): (r: seq<string>)
    ensures forall d :: d in r <==> d in deps && !Redundant(g, all, d)
    ensures |r| <= |deps| && (|r| == |deps| ==> r == deps)
  {
    if deps == [] then []
    else
      var last := deps[|deps| - 1];
      Kept(g, deps[..|deps| - 1], all) + (if Redundant(g, all, last) then [] else [last])
  }

  ghost function ReduceNode(g: Graph<string>, n: WorkflowNode): (r: WorkflowNode)
    ensures r.name == n.name
  {
    n.(after := Kept(g, n.after, n.after))
  }

  ghost function ReduceAll(nodes: seq<WorkflowNode>): (r: seq<WorkflowNode>)
    ensures |r| == |nodes|
    ensures forall i :: 0 <= i < |r| ==> r[i] == ReduceNode(AfterGraph(nodes), nodes[i])
  {
    seq(|nodes|, i requires 0 <= i < |nodes| => ReduceNode(AfterGraph(nodes), nodes[i]))
  }

  /** The pass leaves workflows with fewer than two nodes alone. */
  ghost function Simplified(nodes: seq<WorkflowNode>): seq<WorkflowNode> {
    if |nodes| < 2 then nodes else ReduceAll(nodes)
  }

  /** What stays, stays in its order and as often as it was there; a workflow of one node is not looked at. */
  lemma KeptInOrder(g: Graph<string>, deps: seq<string>, d: string, all: seq<string>, nodes: seq<WorkflowNode>, i: nat)
    ensures Kept(g, [], all) == []
    ensures Kept(g, deps + [d], all) == Kept(g, deps, all)
      + if exists o :: o in all && o != d && Reaches(g, o, d) then [] else [d]
    ensures |nodes| < 2 ==> Simplified(nodes) == nodes
    ensures |nodes| >= 2 && i < |nodes| ==>
      && |Simplified(nodes)| == |nodes|
      && Simplified(nodes)[i] == WorkflowNode(nodes[i].name, Kept(AfterGraph(nodes), nodes[i].after, nodes[i].after))
  {
    assert (deps + [d])[..|deps|] == deps;
  }

  // ---------------------------------------------------------------- the pass

  lemma NamesOfPrefix(nodes: seq<WorkflowNode>, i: nat)
    requires i < |nodes|
    ensures Names(nodes[..i + 1]) == Names(nodes[..i]) + {nodes[i].name}
  {
    assert nodes[..i + 1][i] == nodes[i];
    assert forall k :: 0 <= k < i ==> nodes[..i + 1][k] == nodes[..i][k];
  }

  /** deps lists edges of the workflow only, and with unique names all of them. */
  ghost predicate Describes(deps: map<string, seq<string>>, nodes: seq<WorkflowNode>) {
    && (forall a, d :: a in deps && d in deps[a] ==> (a, d) in AfterGraph(nodes))
    && (UniqueNames(nodes) ==> forall e :: e in AfterGraph(nodes) ==> e.0 in deps && e.1 in deps[e.0])
  }

  method DirectDependencies(nodes: seq<WorkflowNode>) returns (deps: map<string, seq<string>>)
    ensures Describes(deps, nodes)
  {
    deps := map[];
    for i := 0 to |nodes|
      invariant forall a, d :: a in deps && d in deps[a] ==> (a, d) in AfterGraph(nodes)
      invariant UniqueNames(nodes) ==>
        forall k :: 0 <= k < i ==> nodes[k].name in deps && deps[nodes[k].name] == nodes[k].after
    {
      forall d | d in nodes[i].after
        ensures (nodes[i].name, d) in AfterGraph(nodes)
      {
        AfterGraphHas(nodes, i, d);
      }
      deps := deps[nodes[i].name := nodes[i].after];
    }
  }

  ghost predicate ReachTable(reachable: map<string, set<string>>, nodes: seq<WorkflowNode>) {
    forall a, b :: a in reachable ==> (b in reachable[a] <==> Reaches(AfterGraph(nodes), a, b))
  }

  /** The names reachable from each node, by a depth-first search per node. */
  method ComputeTransitiveReachable(nodes: seq<WorkflowNode>) returns (reachable: map<string, set<string>>)
    ensures reachable.Keys == Names(nodes)
    ensures UniqueNames(nodes) ==> ReachTable(reachable, nodes)
  {
    var deps := DirectDependencies(nodes);
    reachable := map[];
    for i := 0 to |nodes|
      invariant reachable.Keys == Names(nodes[..i])
      invariant UniqueNames(nodes) ==> ReachTable(reachable, nodes)
    {
      var n := nodes[i];
      assert UniqueNames(nodes) ==> n.name !in reachable;
      var reach := if n.name in reachable then reachable[n.name] else {};
      reach := SearchFrom(n, deps, reach, nodes, i);
      reachable := reachable[n.name := reach];
      NamesOfPrefix(nodes, i);
    }
    assert nodes[..|nodes|] == nodes;
  }

  /** One depth-first search, with an explicit stack. */
  method SearchFrom(n: WorkflowNode, deps: map<string, seq<string>>, start: set<string>,
                    ghost nodes: seq<WorkflowNode>, ghost i: nat)
    returns (reach: set<string>)
    requires i < |nodes| && nodes[i] == n
    requires Describes(deps, nodes)
    ensures UniqueNames(nodes) && start == {} ==>
      forall b :: b in reach <==> Reaches(AfterGraph(nodes), n.name, b)
  {
    ghost var g := AfterGraph(nodes);
    reach := start;
    var stack := n.after;
    forall d | d in n.after
      ensures Reaches(g, n.name, d) && d in Targets(g)
    {
      AfterGraphHas(nodes, i, d);
      ReachEdge(g, n.name, d);
    }
    while stack != []
      invariant forall d :: d in stack ==> Reaches(g, n.name, d) && d in Targets(g)
      invariant start == {} ==> forall d :: d in reach ==> Reaches(g, n.name, d)
      invariant forall d :: d in n.after ==> d in reach || d in stack
      invariant start == {} ==>
        forall a, d :: a in reach && a in deps && d in deps[a] ==> d in reach || d in stack
      decreases Targets(g) - reach, |stack|
    {
      var current := stack[|stack| - 1];
      ghost var before := stack;
      stack := stack[..|stack| - 1];
      assert forall d :: d in before ==> d == current || d in stack;
      if current in reach {
        continue;
      }
      reach := reach + {current};
      if current in deps {
        ghost var popped := stack;
        for j := 0 to |deps[current]|
          invariant forall d :: d in popped ==> d in stack
          invariant forall d :: d in stack ==> Reaches(g, n.name, d) && d in Targets(g)
          invariant forall k :: 0 <= k < j ==> deps[current][k] in reach || deps[current][k] in stack
        {
          var dep := deps[current][j];
          if dep !in reach {
            assert (current, dep) in g;
            ReachEdge(g, current, dep);
            ReachTrans(g, n.name, current, dep);
            stack := stack + [dep];
          }
        }
      }
    }
    if UniqueNames(nodes) && start == {} {
      forall b | Reaches(g, n.name, b)
        ensures b in reach
      {
        forall e | e in g && (e.0 == n.name || e.0 in reach)
          ensures e.1 in reach
        {
          if e.0 == n.name {
            AfterGraphOf(nodes, i, e.1);
          }
        }
        ClosedContainsReachable(g, reach, n.name, b);
      }
    }
  }

  class WorkflowDecl {
    var nodes: seq<WorkflowNode>

    constructor (nodes: seq<WorkflowNode>)
      ensures this.nodes == nodes
    {
      this.nodes := nodes;
    }

    /** The body of the pass for one workflow: `after` lists are replaced in place, all of
        them judged by the reach sets computed before the first replacement. */
    method Simplify() returns (modified: bool)
      modifies this
      ensures UniqueNames(old(nodes)) ==> nodes == Simplified(old(nodes))
      ensures |nodes| == |old(nodes)|
      ensures forall i :: 0 <= i < |nodes| ==> nodes[i].name == old(nodes)[i].name
      ensures modified <==> nodes != old(nodes)
    {
      hide UniqueNames, Kept, AfterGraph;
      modified := false;
      if |nodes| < 2 {
        return;
      }
      ghost var before := nodes;
      ghost var g := AfterGraph(before);
      var reachable := ComputeTransitiveReachable(nodes);
      for i := 0 to |nodes|
        invariant PartlyReduced(before, nodes, i)
        invariant if modified then nodes != before else nodes == before
      {
        var node := nodes[i];
        if |node.after| < 2 {
          ShortListsStay(g, node.after);
          StaysNext(before, nodes, i);
          continue;
        }
        var reduced := ReduceList(node.after, reachable, before);
        if |reduced| < |node.after| {
          ReducesNext(before, nodes, i, reduced);
          nodes := nodes[i := node.(after := reduced)];
          modified := true;
        } else {
          StaysNext(before, nodes, i);
        }
      }
      AllReduced(before, nodes);
    }
  }

  lemma StaysNext(before: seq<WorkflowNode>, now: seq<WorkflowNode>, i: nat)
    requires PartlyReduced(before, now, i) && i < |now|
    requires UniqueNames(before) ==> Kept(AfterGraph(before), now[i].after, now[i].after) == now[i].after
    ensures PartlyReduced(before, now, i + 1)
  {
  }

  lemma AllReduced(before: seq<WorkflowNode>, now: seq<WorkflowNode>)
    requires PartlyReduced(before, now, |before|)
    ensures UniqueNames(before) ==> now == ReduceAll(before)
  {
  }

  lemma ReducesNext(before: seq<WorkflowNode>, now: seq<WorkflowNode>, i: nat, reduced: seq<string>)
    requires PartlyReduced(before, now, i) && i < |now| && |reduced| < |now[i].after|
    requires UniqueNames(before) ==> reduced == Kept(AfterGraph(before), before[i].after, before[i].after)
    ensures PartlyReduced(before, now[i := now[i].(after := reduced)], i + 1)
    ensures now[i := now[i].(after := reduced)] != before
  {
  }

  /** The first i nodes are reduced, the others untouched. */
  ghost predicate PartlyReduced(before: seq<WorkflowNode>, now: seq<WorkflowNode>, i: nat) {
    && |now| == |before|
    && (forall k :: 0 <= k < |now| ==> now[k].name == before[k].name)
    && (forall k :: i <= k < |now| ==> now[k] == before[k])
    && (UniqueNames(before) ==> forall k :: 0 <= k < i && k < |now| ==> now[k] == ReduceNode(AfterGraph(before), before[k]))
  }

  method ReduceList(after: seq<string>, reachable: map<string, set<string>>, ghost before: seq<WorkflowNode>)
    returns (reduced: seq<string>)
    requires reachable.Keys == Names(before)
    requires UniqueNames(before) ==> ReachTable(reachable, before)
    ensures |reduced| <= |after|
    ensures UniqueNames(before) ==> reduced == Kept(AfterGraph(before), after, after)
  {
    hide Reaches, UniqueNames, ReachTable, Redundant, Kept, Names;
    ghost var g := AfterGraph(before);
    reduced := [];
    KeptNext(g, after, 0);
    for i := 0 to |after|
      invariant |reduced| <= i
      invariant UniqueNames(before) ==> reduced == Kept(g, after[..i], after)
    {
      KeptNext(g, after, i);
      var redundant := IsRedundant(after, after[i], reachable, before);
      if !redundant {
        reduced := reduced + [after[i]];
      }
    }
    assert after[..|after|] == after;
  }

  lemma KeptNext(g: Graph<string>, deps: seq<string>, i: nat)
    ensures Kept(g, [], deps) == []
    ensures i < |deps| ==>
      Kept(g, deps[..i + 1], deps) == Kept(g, deps[..i], deps) + if Redundant(g, deps, deps[i]) then [] else [deps[i]]
  {
    if i < |deps| {
      assert deps[..i + 1][..i] == deps[..i];
    }
  }

  /** Whether another direct dependency reaches this one. */
  method IsRedundant(after: seq<string>, dep: string, reachable: map<string, set<string>>,
                     ghost before: seq<WorkflowNode>) returns (redundant: bool)
    requires reachable.Keys == Names(before)
    requires UniqueNames(before) ==> ReachTable(reachable, before)
    ensures UniqueNames(before) ==> (redundant <==> Redundant(AfterGraph(before), after, dep))
  {
    hide Reaches, UniqueNames;
    for j := 0 to |after|
      invariant UniqueNames(before) ==>
        forall k :: 0 <= k < j ==> !(after[k] != dep && Reaches(AfterGraph(before), after[k], dep))
    {
      var other := after[j];
      if other == dep {
        continue;
      }
      if UniqueNames(before) && other !in reachable {
        UnknownIsSink(before, other, dep);
      }
      if other in reachable && dep in reachable[other] {
        return true;
      }
    }
    return false;
  }

  lemma UnknownIsSink(nodes: seq<WorkflowNode>, a: string, b: string)
    requires a !in Names(nodes)
    ensures !Reaches(AfterGraph(nodes), a, b)
  {
    if Reaches(AfterGraph(nodes), a, b) {
      var _ := ReachFirst(AfterGraph(nodes), a, b);
    }
  }

  lemma ShortListsStay(g: Graph<string>, deps: seq<string>)
    requires |deps| < 2
    ensures Kept(g, deps, deps) == deps
  {
  }

  // ---------------------------------------------------------- what it achieves

  /** The edges of the reduced workflow: those no other dependency of the same node implies. */
  lemma ReducedEdges(nodes: seq<WorkflowNode>, a: string, d: string)
    ensures (a, d) in AfterGraph(ReduceAll(nodes)) <==>
      exists i :: 0 <= i < |nodes| && nodes[i].name == a && d in nodes[i].after
                  && !Redundant(AfterGraph(nodes), nodes[i].after, d)
  {
  }

  lemma ReducedWorkflowIsSubgraph(nodes: seq<WorkflowNode>)
    ensures AfterGraph(ReduceAll(nodes)) <= AfterGraph(nodes)
  {
    forall e | e in AfterGraph(ReduceAll(nodes))
      ensures e in AfterGraph(nodes)
    {
      ReducedEdges(nodes, e.0, e.1);
      var i :| 0 <= i < |nodes| && nodes[i].name == e.0 && e.1 in nodes[i].after;
      AfterGraphHas(nodes, i, e.1);
    }
  }

  /** With unique names the pass is the reduction of the dependency graph. */
  lemma SimplifiedIsReduced(nodes: seq<WorkflowNode>)
    requires UniqueNames(nodes) && |nodes| >= 2
    ensures AfterGraph(Simplified(nodes)) == Reduced(AfterGraph(nodes))
  {
    var g := AfterGraph(nodes);
    forall e
      ensures e in AfterGraph(ReduceAll(nodes)) <==> e in Reduced(g)
    {
      ReducedEdges(nodes, e.0, e.1);
      if e in g {
        var i, j :| 0 <= i < |nodes| && 0 <= j < |nodes[i].after| && e == (nodes[i].name, nodes[i].after[j]);
        SameDependencies(nodes, i, e.1);
      }
    }
  }

  lemma SameDependencies(nodes: seq<WorkflowNode>, i: nat, d: string)
    requires UniqueNames(nodes) && i < |nodes|
    ensures Redundant(AfterGraph(nodes), nodes[i].after, d) <==> Implied(AfterGraph(nodes), nodes[i].name, d)
    ensures d in nodes[i].after <==> (nodes[i].name, d) in AfterGraph(nodes)
  {
    var g := AfterGraph(nodes);
    forall o
      ensures o in nodes[i].after <==> (nodes[i].name, o) in g
    {
      AfterGraphOf(nodes, i, o);
    }
  }

  /** Main result: exactly when the pass keeps the transitive closure, on every workflow of unique
      names that it looks at, cyclic or not. */
  lemma ClosureKeptExactlyWhen(nodes: seq<WorkflowNode>)
    requires UniqueNames(nodes) && |nodes| >= 2
    ensures SameClosure(AfterGraph(nodes), AfterGraph(Simplified(nodes)))
      <==> CyclesAreBare(AfterGraph(nodes)) && TiesAreBroken(AfterGraph(nodes))
  {
    SimplifiedIsReduced(nodes);
    ClosureKeptExactly(AfterGraph(nodes));
  }

  /** Main result: in particular on every acyclic workflow. */
  lemma ClosureUnchanged(nodes: seq<WorkflowNode>, a: string, b: string)
    requires UniqueNames(nodes) && Acyclic(AfterGraph(nodes))
    ensures Reaches(AfterGraph(Simplified(nodes)), a, b) <==> Reaches(AfterGraph(nodes), a, b)
  {
    if |nodes| >= 2 {
      ClosureKeptExactlyWhen(nodes);
      AcyclicMeetsTheConditions(AfterGraph(nodes));
    }
  }

  lemma StaysAcyclic(nodes: seq<WorkflowNode>)
    requires UniqueNames(nodes) && Acyclic(AfterGraph(nodes))
    ensures UniqueNames(Simplified(nodes)) && Acyclic(AfterGraph(Simplified(nodes)))
  {
    forall a
      ensures !Reaches(AfterGraph(Simplified(nodes)), a, a)
    {
      ClosureUnchanged(nodes, a, a);
    }
  }

  /** Main result: no direct dependency that stays is reachable through a different one. */
  lemma NothingImpliedRemains(nodes: seq<WorkflowNode>, i: nat, d: string, o: string)
    requires (|nodes| >= 2 || Acyclic(AfterGraph(nodes))) && i < |nodes|
    requires d in Simplified(nodes)[i].after && o in Simplified(nodes)[i].after && o != d
    ensures !Reaches(AfterGraph(Simplified(nodes)), o, d)
  {
    if |nodes| < 2 {
      if Reaches(AfterGraph(nodes), o, d) {
        AfterGraphHas(nodes, i, o);
        var m := ReachFirst(AfterGraph(nodes), o, d);
        assert o == nodes[i].name;
        ReachEdge(AfterGraph(nodes), o, o);
      }
    } else {
      ReducedWorkflowIsSubgraph(nodes);
      KeptIsNotRedundantLater(nodes, i, d);
    }
  }

  /** Main result: the reduced graph is the least one: every subgraph of the original with the
      same closure contains all the edges that stay, so none of them could be dropped. */
  lemma ReductionIsLeast(nodes: seq<WorkflowNode>, h: Graph<string>)
    requires UniqueNames(nodes) && |nodes| >= 2
    requires h <= AfterGraph(nodes)
    requires forall a, b :: Reaches(h, a, b) <==> Reaches(AfterGraph(nodes), a, b)
    ensures AfterGraph(Simplified(nodes)) <= h
  {
    var g := AfterGraph(nodes);
    forall e | e in AfterGraph(Simplified(nodes))
      ensures e in h
    {
      ReducedEdges(nodes, e.0, e.1);
      var i :| 0 <= i < |nodes| && nodes[i].name == e.0 && e.1 in nodes[i].after
               && !Redundant(g, nodes[i].after, e.1);
      AfterGraphHas(nodes, i, e.1);
      ReachEdge(g, e.0, e.1);
      var m := ReachFirst(h, e.0, e.1);
      if m != e.1 {
        AfterGraphOf(nodes, i, m);
      }
    }
  }

  /** Main result: a second run changes nothing, not even where there are cycles. */
  lemma SecondRunChangesNothing(nodes: seq<WorkflowNode>)
    ensures Simplified(Simplified(nodes)) == Simplified(nodes)
  {
    if |nodes| >= 2 {
      var s := Simplified(nodes);
      ReducedWorkflowIsSubgraph(nodes);
      forall i | 0 <= i < |s|
        ensures ReduceNode(AfterGraph(s), s[i]) == s[i]
      {
        forall d | d in s[i].after
          ensures !Redundant(AfterGraph(s), s[i].after, d)
        {
          KeptIsNotRedundantLater(nodes, i, d);
        }
        NothingDropped(AfterGraph(s), s[i].after, s[i].after);
      }
      assert ReduceAll(s) == s;
    }
  }

  lemma KeptIsNotRedundantLater(nodes: seq<WorkflowNode>, i: nat, d: string)
    requires i < |nodes| && |nodes| >= 2 && d in Simplified(nodes)[i].after
    requires AfterGraph(Simplified(nodes)) <= AfterGraph(nodes)
    ensures !Redundant(AfterGraph(Simplified(nodes)), Simplified(nodes)[i].after, d)
  {
    var g, s := AfterGraph(nodes), Simplified(nodes);
    forall o | o in s[i].after && o != d
      ensures !Reaches(AfterGraph(s), o, d)
    {
      assert o in nodes[i].after;
      if Reaches(AfterGraph(s), o, d) {
        ReachMonotone(AfterGraph(s), g, o, d);
      }
    }
  }

  lemma {:induction false} NothingDropped(g: Graph<string>, deps: seq<string>, all: seq<string>)
    requires forall d :: d in deps ==> !Redundant(g, all, d)
    ensures Kept(g, deps, all) == deps
  {
    if deps != [] {
      NothingDropped(g, deps[..|deps| - 1], all);
    }
  }

  /** Acyclicity is needed: a node all of whose dependencies reach one another loses them all. */
  lemma MutuallyReachableDependenciesVanish(nodes: seq<WorkflowNode>, i: nat, b: string)
    requires UniqueNames(nodes) && |nodes| >= 2 && i < |nodes|
    requires forall d :: d in nodes[i].after ==> Redundant(AfterGraph(nodes), nodes[i].after, d)
    ensures !Reaches(AfterGraph(Simplified(nodes)), nodes[i].name, b)
  {
    var r := AfterGraph(ReduceAll(nodes));
    if Reaches(r, nodes[i].name, b) {
      var m := ReachFirst(r, nodes[i].name, b);
      ReducedEdges(nodes, nodes[i].name, m);
    }
  }

  /** Such workflows exist: n waits for a and b, and a and b wait for each other. */
  lemma CycleBreaksTheClosure(nodes: seq<WorkflowNode>, n: string, a: string, b: string)
    requires n != a && n != b && a != b
    requires nodes == [WorkflowNode(n, [a, b]), WorkflowNode(a, [b]), WorkflowNode(b, [a])]
    ensures Reaches(AfterGraph(nodes), n, a) && !Reaches(AfterGraph(Simplified(nodes)), n, a)
  {
    var g := AfterGraph(nodes);
    HasDirectEdge(nodes, 0, 0);
    HasDirectEdge(nodes, 1, 0);
    HasDirectEdge(nodes, 2, 0);
    TwoInACycle(g, a, b);
    MutuallyReachableDependenciesVanish(nodes, 0, a);
  }

  lemma HasDirectEdge(nodes: seq<WorkflowNode>, i: nat, j: nat)
    requires i < |nodes| && j < |nodes[i].after|
    ensures Reaches(AfterGraph(nodes), nodes[i].name, nodes[i].after[j])
  {
    AfterGraphHas(nodes, i, nodes[i].after[j]);
    ReachEdge(AfterGraph(nodes), nodes[i].name, nodes[i].after[j]);
  }

  lemma TwoInACycle(g: Graph<string>, a: string, b: string)
    requires a != b && Reaches(g, a, b) && Reaches(g, b, a)
    ensures forall d :: d in [a, b] ==> Redundant(g, [a, b], d)
  {
  }
}
