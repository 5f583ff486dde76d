/** Kahn's algorithm over workflow nodes (src/compiler/ir/program_view.cpp). A node pointer
    of the source is an index into `nodes` here. */
module TopologicalOrder {
  import opened Graphs
  import opened Sequences
  import opened Workflows

  /** How many entries of an `after` list are not yet done, repetitions included. */
  ghost function Pending(after: seq<string>, done: set<string>): (n: nat)
    ensures n <= |after|
  {
    if after == [] then 0
    else Pending(after[..|after| - 1], done) + (if after[|after| - 1] in done then 0 else 1)
  }

  lemma {:induction false} NonePending(after: seq<string>, done: set<string>)
    ensures Pending(after, done) == 0 <==> forall d :: d in after ==> d in done
  {
    if after != [] {
      var init, last := after[..|after| - 1], after[|after| - 1];
      NonePending(init, done);
      assert forall d :: d in after <==> d in init || d == last;
    }
  }

  /** Finishing x settles every entry naming x at once. */
  lemma {:induction false} PendingAfter(after: seq<string>, done: set<string>, x: string)
    requires x !in done
    ensures Pending(after, done) == Pending(after, done + {x}) + Occurrences(after, x)
  {
    if after != [] {
      PendingAfter(after[..|after| - 1], done, x);
    }
  }

  ghost predicate InRange(nodes: seq<WorkflowNode>, ix: seq<nat>) {
    forall k :: 0 <= k < |ix| ==> ix[k] < |nodes|
  }

  ghost function NamesAt(nodes: seq<WorkflowNode>, ix: seq<nat>): (s: seq<string>)
    requires InRange(nodes, ix)
    ensures |s| == |ix| && forall k :: 0 <= k < |ix| ==> s[k] == nodes[ix[k]].name
  {
    seq(|ix|, k requires 0 <= k < |ix| => nodes[ix[k]].name)
  }

  lemma NamesAtSnoc(nodes: seq<WorkflowNode>, ix: seq<nat>, i: nat)
    requires InRange(nodes, ix) && i < |nodes|
    ensures NamesAt(nodes, ix + [i]) == NamesAt(nodes, ix) + [nodes[i].name]
  {
  }

  /** Every dependency of a listed node is listed before it. */
  ghost predicate DependenciesFirst(nodes: seq<WorkflowNode>, order: seq<nat>)
    requires InRange(nodes, order)
  {
    forall k, d :: 0 <= k < |order| && d in nodes[order[k]].after ==> d in NamesAt(nodes, order)[..k]
  }

  /** Nothing that could be listed is missing. */
  ghost predicate Maximal(nodes: seq<WorkflowNode>, listed: seq<string>) {
    forall i :: 0 <= i < |nodes| && (forall d :: d in nodes[i].after ==> d in listed) ==> nodes[i].name in listed
  }

  // ------------------------------------------------------------ the algorithm

  /** The names in `ready` are those of the nodes with nothing pending. */
  ghost predicate ReadyIs(nodes: seq<WorkflowNode>, ready: seq<string>, done: set<string>, lo: nat, hi: nat) {
    forall i :: lo <= i < hi && i < |nodes| ==> (Pending(nodes[i].after, done) == 0 <==> nodes[i].name in ready)
  }

  /** The counters of the unprocessed nodes are their pending entries. */
  ghost predicate CountersAre(nodes: seq<WorkflowNode>, remaining: map<string, nat>, processed: set<string>,
                              done: set<string>, lo: nat, hi: nat)
  {
    forall i :: lo <= i < hi && i < |nodes| && nodes[i].name !in processed ==>
      nodes[i].name in remaining && remaining[nodes[i].name] == Pending(nodes[i].after, done)
  }

  method TopologicalOrder(nodes: seq<WorkflowNode>) returns (order: seq<nat>)
    ensures InRange(nodes, order) && Distinct(NamesAt(nodes, order))
    ensures UniqueNames(nodes) ==> DependenciesFirst(nodes, order)
    ensures UniqueNames(nodes) ==> Maximal(nodes, NamesAt(nodes, order))
    ensures UniqueNames(nodes) ==> (|order| == |nodes| <==> Resolved(nodes) && Acyclic(AfterGraph(nodes)))
  {
    hide DependenciesFirst, ReadyIs, CountersAre, Maximal, Acyclic, AfterGraph, Resolved, UniqueNames;
    NothingListed(nodes);
    var remaining := InitialCounters(nodes);
    var ready := InitiallyReady(nodes);
    order := [];
    var processed: set<string> := {};
    var index := 0;
    while index < |ready|
      invariant index <= |ready| && InRange(nodes, ready) && InRange(nodes, order)
      invariant Names(nodes) <= remaining.Keys
      invariant processed <= Names(nodes)
      invariant forall s :: s in processed <==> s in NamesAt(nodes, ready)[..index]
      invariant forall s :: s in processed <==> s in NamesAt(nodes, order)
      invariant Distinct(NamesAt(nodes, order))
      invariant UniqueNames(nodes) ==> ReadyIs(nodes, NamesAt(nodes, ready), processed, 0, |nodes|)
      invariant UniqueNames(nodes) ==> CountersAre(nodes, remaining, processed, processed, 0, |nodes|)
      invariant UniqueNames(nodes) ==> DependenciesFirst(nodes, order)
      decreases Names(nodes) - processed, |ready| - index
    {
      var at := ready[index];
      ghost var names := NamesAt(nodes, ready);
      assert names[..index + 1] == names[..index] + [nodes[at].name];
      index := index + 1;
      if nodes[at].name in processed {
        continue;
      }
      if UniqueNames(nodes) {
        ReadyIsSettled(nodes, names, processed, at);
        DependenciesFirstSnoc(nodes, order, at, processed);
      }
      NamesAtSnoc(nodes, order, at);
      order := order + [at];
      ghost var was := processed;
      processed := processed + {nodes[at].name};
      remaining, ready := Unlock(nodes, at, was, processed, remaining, ready);
      assert NamesAt(nodes, ready)[..index] == names[..index];
    }
    ghost var names := NamesAt(nodes, ready);
    assert names[..index] == names;
    if UniqueNames(nodes) {
      OrderIsMaximal(nodes, NamesAt(nodes, order), names, processed);
      FullExactlyWhenAcyclic(nodes, order);
    }
  }

  lemma NothingListed(nodes: seq<WorkflowNode>)
    ensures DependenciesFirst(nodes, [])
  {
  }

  lemma ReadyIsSettled(nodes: seq<WorkflowNode>, ready: seq<string>, processed: set<string>, at: nat)
    requires ReadyIs(nodes, ready, processed, 0, |nodes|) && at < |nodes| && nodes[at].name in ready
    ensures forall d :: d in nodes[at].after ==> d in processed
  {
    NonePending(nodes[at].after, processed);
  }

  lemma DependenciesFirstSnoc(nodes: seq<WorkflowNode>, order: seq<nat>, at: nat, processed: set<string>)
    requires InRange(nodes, order) && at < |nodes| && DependenciesFirst(nodes, order)
    requires forall s :: s in processed ==> s in NamesAt(nodes, order)
    requires forall d :: d in nodes[at].after ==> d in processed
    ensures DependenciesFirst(nodes, order + [at])
  {
    NamesAtSnoc(nodes, order, at);
    forall k, d | 0 <= k < |order| + 1 && d in nodes[(order + [at])[k]].after
      ensures d in NamesAt(nodes, order + [at])[..k]
    {
      assert NamesAt(nodes, order + [at])[..k] == NamesAt(nodes, order)[..k];
      if k == |order| {
        assert NamesAt(nodes, order)[..k] == NamesAt(nodes, order);
      }
    }
  }

  method InitialCounters(nodes: seq<WorkflowNode>) returns (remaining: map<string, nat>)
    ensures Names(nodes) <= remaining.Keys
    ensures UniqueNames(nodes) ==> CountersAre(nodes, remaining, {}, {}, 0, |nodes|)
  {
    remaining := map[];
    for i := 0 to |nodes|
      invariant forall k :: 0 <= k < i ==> nodes[k].name in remaining
      invariant forall s :: s in remaining ==> exists k :: 0 <= k < i && nodes[k].name == s
      invariant UniqueNames(nodes) ==> CountersAre(nodes, remaining, {}, {}, 0, i)
    {
      if nodes[i].name !in remaining {
        AllPending(nodes[i].after);
        remaining := remaining[nodes[i].name := |nodes[i].after|];
      }
    }
  }

  method InitiallyReady(nodes: seq<WorkflowNode>) returns (ready: seq<nat>)
    ensures InRange(nodes, ready)
    ensures UniqueNames(nodes) ==> ReadyIs(nodes, NamesAt(nodes, ready), {}, 0, |nodes|)
  {
    ready := [];
    for i := 0 to |nodes|
      invariant forall k :: 0 <= k < |ready| ==> ready[k] < i
      invariant UniqueNames(nodes) ==> ReadyIs(nodes, NamesAt(nodes, ready), {}, 0, i)
    {
      AllPending(nodes[i].after);
      if nodes[i].after == [] {
        NamesAtSnoc(nodes, ready, i);
        ready := ready + [i];
      }
    }
  }

  lemma {:induction false} AllPending(after: seq<string>)
    ensures Pending(after, {}) == |after|
  {
    if after != [] {
      AllPending(after[..|after| - 1]);
    }
  }

  /** The scan over all candidates after one node has been processed. */
  method Unlock(nodes: seq<WorkflowNode>, at: nat, ghost done: set<string>, processed: set<string>,
                counters: map<string, nat>, queue: seq<nat>)
    returns (remaining: map<string, nat>, ready: seq<nat>)
    requires at < |nodes| && nodes[at].name !in done && processed == done + {nodes[at].name}
    requires Names(nodes) <= counters.Keys && InRange(nodes, queue)
    requires forall s :: s in processed ==> s in NamesAt(nodes, queue)
    requires UniqueNames(nodes) ==> ReadyIs(nodes, NamesAt(nodes, queue), done, 0, |nodes|)
    requires UniqueNames(nodes) ==> CountersAre(nodes, counters, done, done, 0, |nodes|)
    ensures Names(nodes) <= remaining.Keys && InRange(nodes, ready) && queue <= ready
    ensures UniqueNames(nodes) ==> ReadyIs(nodes, NamesAt(nodes, ready), processed, 0, |nodes|)
    ensures UniqueNames(nodes) ==> CountersAre(nodes, remaining, processed, processed, 0, |nodes|)
  {
    remaining, ready := counters, queue;
    for j := 0 to |nodes|
      invariant Names(nodes) <= remaining.Keys && InRange(nodes, ready) && queue <= ready
      invariant NamesAt(nodes, queue) <= NamesAt(nodes, ready)
      invariant UniqueNames(nodes) ==> Scanned(nodes, remaining, NamesAt(nodes, ready), done, processed, j)
    {
      var candidate := nodes[j];
      ghost var was, names := remaining, NamesAt(nodes, ready);
      if candidate.name in processed {
        assert candidate.name in names;
        if UniqueNames(nodes) {
          ScanSkips(nodes, was, names, done, processed, j);
        }
        continue;
      }
      var left, unlocked := Settle(candidate.after, nodes[at].name, remaining[candidate.name]);
      remaining := remaining[candidate.name := left];
      if UniqueNames(nodes) {
        ScanCounts(nodes, at, was, names, done, processed, j, left, unlocked);
      }
      if unlocked && left == 0 {
        NamesAtSnoc(nodes, ready, j);
        ready := ready + [j];
      }
    }
  }

  /** Midway through the scan: the first j candidates count x as done, the others not yet. */
  ghost predicate Scanned(nodes: seq<WorkflowNode>, remaining: map<string, nat>, ready: seq<string>,
                          done: set<string>, processed: set<string>, j: nat)
  {
    && ReadyIs(nodes, ready, processed, 0, j) && ReadyIs(nodes, ready, done, j, |nodes|)
    && CountersAre(nodes, remaining, processed, processed, 0, j)
    && CountersAre(nodes, remaining, processed, done, j, |nodes|)
  }

  lemma ScanSkips(nodes: seq<WorkflowNode>, remaining: map<string, nat>, ready: seq<string>,
                  done: set<string>, processed: set<string>, j: nat)
    requires j < |nodes| && done <= processed && nodes[j].name in processed && nodes[j].name in ready
    requires Scanned(nodes, remaining, ready, done, processed, j)
    ensures Scanned(nodes, remaining, ready, done, processed, j + 1)
  {
    NonePending(nodes[j].after, done);
    NonePending(nodes[j].after, processed);
  }

  lemma ScanCounts(nodes: seq<WorkflowNode>, at: nat, remaining: map<string, nat>, ready: seq<string>,
                   done: set<string>, processed: set<string>, j: nat, left: nat, unlocked: bool)
    requires UniqueNames(nodes) && at < |nodes| && j < |nodes| && nodes[at].name !in done
    requires processed == done + {nodes[at].name} && nodes[j].name !in processed
    requires Scanned(nodes, remaining, ready, done, processed, j)
    requires unlocked <==> nodes[at].name in nodes[j].after
    requires nodes[j].name in remaining
    requires var o := Occurrences(nodes[j].after, nodes[at].name);
             left == if remaining[nodes[j].name] >= o then remaining[nodes[j].name] - o else 0
    ensures Scanned(nodes, remaining[nodes[j].name := left],
                    if unlocked && left == 0 then ready + [nodes[j].name] else ready, done, processed, j + 1)
  {
    PendingAfter(nodes[j].after, done, nodes[at].name);
    OccursWhenIn(nodes[j].after, nodes[at].name);
  }

  /** The inner loop: one decrement, never below zero, for each entry naming x. */
  method Settle(after: seq<string>, x: string, count: nat) returns (left: nat, unlocked: bool)
    ensures unlocked <==> x in after
    ensures left == if count >= Occurrences(after, x) then count - Occurrences(after, x) else 0
  {
    left, unlocked := count, false;
    for k := 0 to |after|
      invariant unlocked <==> x in after[..k]
      invariant left == if count >= Occurrences(after[..k], x) then count - Occurrences(after[..k], x) else 0
    {
      assert after[..k + 1][..k] == after[..k] && after[..k + 1] == after[..k] + [after[k]];
      if after[k] != x {
        continue;
      }
      if left > 0 {
        left := left - 1;
      }
      unlocked := true;
    }
    assert after[..|after|] == after;
  }

  // ------------------------------------------------------ what it establishes

  lemma OrderIsMaximal(nodes: seq<WorkflowNode>, listed: seq<string>, ready: seq<string>, processed: set<string>)
    requires ReadyIs(nodes, ready, processed, 0, |nodes|)
    requires forall s :: s in processed <==> s in ready
    requires forall s :: s in processed <==> s in listed
    ensures Maximal(nodes, listed)
  {
    forall i | 0 <= i < |nodes| && (forall d :: d in nodes[i].after ==> d in listed)
      ensures nodes[i].name in listed
    {
      NonePending(nodes[i].after, processed);
    }
  }

  /** Main result: every node gets a place exactly when all dependencies name nodes and none are cyclic. */
  lemma FullExactlyWhenAcyclic(nodes: seq<WorkflowNode>, order: seq<nat>)
    requires UniqueNames(nodes) && InRange(nodes, order) && Distinct(NamesAt(nodes, order))
    requires DependenciesFirst(nodes, order) && Maximal(nodes, NamesAt(nodes, order))
    ensures |order| == |nodes| <==> Resolved(nodes) && Acyclic(AfterGraph(nodes))
  {
    var names := NamesAt(nodes, order);
    var listed := set x | x in names;
    DistinctSize(names);
    UniqueNamesCount(nodes);
    assert listed <= Names(nodes);
    SubsetCardinality(listed, Names(nodes));
    if listed == Names(nodes) {
      ListedMeansAcyclic(nodes, order);
    } else if Resolved(nodes) {
      var missing := Names(nodes) - listed;
      assert Names(nodes) == listed + missing;
      MissingMeansCycle(nodes, names, missing);
    }
  }

  lemma MissingMeansCycle(nodes: seq<WorkflowNode>, names: seq<string>, missing: set<string>)
    requires Resolved(nodes) && Maximal(nodes, names)
    requires missing == Names(nodes) - (set x | x in names) && missing != {}
    ensures !Acyclic(AfterGraph(nodes))
  {
    forall a | a in missing
      ensures HasSuccessorIn(AfterGraph(nodes), missing, a)
    {
      MissingWaitsForMissing(nodes, names, a);
    }
    NoSinkMeansCycle(AfterGraph(nodes), missing);
  }

  lemma MissingWaitsForMissing(nodes: seq<WorkflowNode>, names: seq<string>, a: string)
    requires Resolved(nodes) && Maximal(nodes, names) && a in Names(nodes) && a !in names
    ensures HasSuccessorIn(AfterGraph(nodes), Names(nodes) - (set x | x in names), a)
  {
    var i :| 0 <= i < |nodes| && nodes[i].name == a;
    var d :| d in nodes[i].after && d !in names;
    AfterGraphHas(nodes, i, d);
    var e := (a, d);
    assert e in AfterGraph(nodes) && e.1 in Names(nodes);
  }

  lemma ListedMeansAcyclic(nodes: seq<WorkflowNode>, order: seq<nat>)
    requires UniqueNames(nodes) && InRange(nodes, order) && Distinct(NamesAt(nodes, order))
    requires DependenciesFirst(nodes, order)
    requires (set x | x in NamesAt(nodes, order)) == Names(nodes)
    ensures Resolved(nodes) && Acyclic(AfterGraph(nodes))
  {
    var names := NamesAt(nodes, order);
    forall e | e in AfterGraph(nodes)
      ensures e.1 in Names(nodes) && Position(names, e.1) < Position(names, e.0)
    {
      var i, j :| 0 <= i < |nodes| && 0 <= j < |nodes[i].after| && e == (nodes[i].name, nodes[i].after[j]);
      assert e.0 in Names(nodes);
      assert e.0 in names;
      var k :| 0 <= k < |order| && names[k] == e.0;
      assert order[k] == i;
      assert e.1 in nodes[order[k]].after;
      var m :| 0 <= m < k && names[..k][m] == e.1;
      assert names[m] == nodes[order[m]].name;
      PositionIs(names, m);
      PositionIs(names, k);
    }
    RankedIsAcyclic(AfterGraph(nodes), s => Position(names, s));
  }

  /** The check other passes use: true exactly when some dependency is unknown or cyclic. */
  method HasUnresolvedOrCyclicDependencies(nodes: seq<WorkflowNode>) returns (r: bool)
    ensures UniqueNames(nodes) ==> (r <==> !(Resolved(nodes) && Acyclic(AfterGraph(nodes))))
  {
    var order := TopologicalOrder(nodes);
    r := |order| != |nodes|;
  }
}
