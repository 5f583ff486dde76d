/** The dependency-graph part of the execution-plan validator, and the lowering that feeds it
    (src/compiler/handoff/package.cpp). Diagnostics are modelled by their kind. */
module PlanValidation {
  import opened Graphs
  import opened Sequences
  import opened Workflows

  datatype Edge = Edge(fromNode: string, toNode: string)

  datatype Plan = Plan(nodes: seq<WorkflowNode>, entryNodes: seq<string>, edges: seq<Edge>)

  datatype Diagnostic =
    | EmptyNodeName | DuplicateNode | NoNodes
    | DuplicateEntry | UnknownEntry | EntryHasDependencies
    | UnknownEdgeNode | DuplicateEdge | EdgeNotMirrored
    | DuplicateAfter | UnknownAfter | MissingEdge
    | Cycle

  /** The key under which an edge is remembered: both names around a NUL character. */
  function EdgeKey(f: string, t: string): string {
    f + ['\0'] + t
  }

  // ---------------------------------------------------- what each kind stands for

  /** Empty names are reported and then ignored. */
  ghost function NodeNames(nodes: seq<WorkflowNode>): set<string> {
    set i | 0 <= i < |nodes| && nodes[i].name != "" :: nodes[i].name
  }

  /** Lookups by name find the first node so named. */
  ghost predicate IsFirst(nodes: seq<WorkflowNode>, i: nat) {
    i < |nodes| && nodes[i].name != "" && forall k :: 0 <= k < i ==> nodes[k].name != nodes[i].name
  }

  ghost predicate IndexedByName(nodes: seq<WorkflowNode>, byName: map<string, nat>) {
    && byName.Keys == NodeNames(nodes)
    && forall s {:trigger s in byName} {:trigger byName[s]} ::
         s in byName ==> byName[s] < |nodes| && nodes[byName[s]].name == s && IsFirst(nodes, byName[s])
  }

  ghost predicate IsKnown(nodes: seq<WorkflowNode>, e: Edge) {
    e.fromNode in NodeNames(nodes) && e.toNode in NodeNames(nodes)
  }

  ghost function KnownEdges(nodes: seq<WorkflowNode>, edges: seq<Edge>): (r: seq<Edge>)
    ensures forall e :: e in r <==> e in edges && IsKnown(nodes, e)
  {
    if edges == [] then []
    else
      var last := edges[|edges| - 1];
      KnownEdges(nodes, edges[..|edges| - 1]) + (if IsKnown(nodes, last) then [last] else [])
  }

  ghost function Keys(edges: seq<Edge>): (r: seq<string>)
    ensures |r| == |edges| && forall i :: 0 <= i < |r| ==> r[i] == EdgeKey(edges[i].fromNode, edges[i].toNode)
  {
    seq(|edges|, i requires 0 <= i < |edges| => EdgeKey(edges[i].fromNode, edges[i].toNode))
  }

  ghost function GraphOf(edges: seq<Edge>): Graph<string> {
    set e | e in edges :: (e.fromNode, e.toNode)
  }

  ghost predicate Raises(p: Plan, d: Diagnostic) {
    var nodes := p.nodes;
    var names := NodeNames(nodes);
    var known := KnownEdges(nodes, p.edges);
    match d
    case EmptyNodeName => exists i :: 0 <= i < |nodes| && nodes[i].name == ""
    case DuplicateNode => RepeatsBefore(nodes, |nodes|)
    case NoNodes => nodes == []
    case DuplicateEntry => !Distinct(p.entryNodes)
    case UnknownEntry => exists s :: s in p.entryNodes && s !in names
    case EntryHasDependencies =>
      exists i: nat :: IsFirst(nodes, i) && nodes[i].name in p.entryNodes && nodes[i].after != []
    case UnknownEdgeNode => AnyUnknown(nodes, p.edges)
    case DuplicateEdge => !Distinct(Keys(known))
    case EdgeNotMirrored =>
      exists i: nat, e :: IsFirst(nodes, i) && e in known && e.toNode == nodes[i].name && e.fromNode !in nodes[i].after
    case DuplicateAfter => exists i :: 0 <= i < |nodes| && !Distinct(nodes[i].after)
    case UnknownAfter => exists i, s :: 0 <= i < |nodes| && s in nodes[i].after && s !in names
    case MissingEdge =>
      exists i, s :: 0 <= i < |nodes| && s in nodes[i].after && s in names && EdgeKey(s, nodes[i].name) !in Keys(known)
    case Cycle => !Acyclic(GraphOf(known))
  }

  /** What the kinds stand for, first those about names; a name is known if a node bears it. */
  lemma RaisedForNames(p: Plan)
    ensures forall n :: n in NodeNames(p.nodes) <==> n != "" && exists i :: 0 <= i < |p.nodes| && p.nodes[i].name == n
    ensures Raises(p, EmptyNodeName) <==> exists i :: 0 <= i < |p.nodes| && p.nodes[i].name == ""
    ensures Raises(p, DuplicateNode) <==>
      exists i, j :: 0 <= i < j < |p.nodes| && p.nodes[i].name == p.nodes[j].name && p.nodes[i].name != ""
    ensures Raises(p, NoNodes) <==> p.nodes == []
  {
    hide KnownEdges, Distinct, Acyclic;
  }

  lemma RaisedForEntries(p: Plan)
    ensures Raises(p, DuplicateEntry) <==> !Distinct(p.entryNodes)
    ensures Raises(p, UnknownEntry) <==> exists s :: s in p.entryNodes && s !in NodeNames(p.nodes)
    ensures Raises(p, EntryHasDependencies) <==>
      exists i: nat :: IsFirst(p.nodes, i) && p.nodes[i].name in p.entryNodes && p.nodes[i].after != []
  {
    hide KnownEdges, Distinct, Acyclic, NodeNames, IsFirst;
  }

  lemma RaisedForEdges(p: Plan)
    ensures Raises(p, UnknownEdgeNode) <==>
      exists e :: e in p.edges && !(e.fromNode in NodeNames(p.nodes) && e.toNode in NodeNames(p.nodes))
    ensures Raises(p, DuplicateAfter) <==> exists i :: 0 <= i < |p.nodes| && !Distinct(p.nodes[i].after)
    ensures Raises(p, UnknownAfter) <==>
      exists i, s :: 0 <= i < |p.nodes| && s in p.nodes[i].after && s !in NodeNames(p.nodes)
    ensures Raises(p, Cycle) <==> !Acyclic(GraphOf(KnownEdges(p.nodes, p.edges)))
  {
    hide KnownEdges, Distinct, Acyclic, NodeNames, GraphOf;
  }

  // -------------------------------------------------------------- the validator

  method Validate(p: Plan) returns (diags: set<Diagnostic>)
    ensures forall d :: d in diags <==> Raises(p, d)
  {
    hide Raises, Acyclic, GraphOf, KnownEdges, Keys, IndexedByName, NodeNames;
    var names, byName, nodeDiags := IndexNodes(p);
    var entryDiags := CheckEntries(p, byName);
    var keys, known, edgeDiags := CheckEdges(p, names, byName);
    var afterDiags := CheckAfterLists(p, names, keys);
    var visited := CountReachableFromSources(names, known);
    CycleIsRaised(p);
    diags := nodeDiags + entryDiags + edgeDiags + afterDiags;
    if visited != |names| {
      diags := diags + {Cycle};
    }
    forall d
      ensures d in diags <==> Raises(p, d)
    {
      match d {
        case Cycle =>
        case _ => assert d in diags <==> d in nodeDiags || d in entryDiags || d in edgeDiags || d in afterDiags;
      }
    }
  }

  lemma CycleIsRaised(p: Plan)
    ensures Raises(p, Cycle) <==> !Acyclic(GraphOf(KnownEdges(p.nodes, p.edges)))
  {
  }

  method IndexNodes(p: Plan)
    returns (names: set<string>, byName: map<string, nat>, diags: set<Diagnostic>)
    ensures names == NodeNames(p.nodes) && IndexedByName(p.nodes, byName)
    ensures forall d :: d in diags <==> d in {EmptyNodeName, DuplicateNode, NoNodes} && Raises(p, d)
  {
    var empty, duplicate;
    names, byName, empty, duplicate := ScanNodes(p.nodes);
    diags := {};
    if empty { diags := diags + {EmptyNodeName}; }
    if duplicate { diags := diags + {DuplicateNode}; }
    if p.nodes == [] { diags := diags + {NoNodes}; }
  }

  method ScanNodes(nodes: seq<WorkflowNode>)
    returns (names: set<string>, byName: map<string, nat>, empty: bool, duplicate: bool)
    ensures names == NodeNames(nodes) && IndexedByName(nodes, byName)
    ensures empty <==> exists i :: 0 <= i < |nodes| && nodes[i].name == ""
    ensures duplicate <==> RepeatsBefore(nodes, |nodes|)
  {
    names, byName, empty, duplicate := {}, map[], false, false;
    for i := 0 to |nodes|
      invariant names == NodeNames(nodes[..i]) && IndexedByName(nodes[..i], byName)
      invariant empty <==> exists k :: 0 <= k < i && nodes[k].name == ""
      invariant duplicate <==> RepeatsBefore(nodes, i)
    {
      var name := nodes[i].name;
      NamesOfNext(nodes, i, byName);
      RepeatsNext(nodes, i);
      if name == "" {
        empty := true;
        continue;
      }
      if name in names {
        duplicate := true;
        continue;
      }
      names := names + {name};
      byName := byName[name := i];
    }
    assert nodes[..|nodes|] == nodes;
  }

  ghost predicate RepeatsBefore(nodes: seq<WorkflowNode>, n: nat)
    requires n <= |nodes|
  {
    exists i, j :: 0 <= i < j < n && nodes[i].name == nodes[j].name && nodes[i].name != ""
  }

  lemma NamesOfNext(nodes: seq<WorkflowNode>, i: nat, byName: map<string, nat>)
    requires i < |nodes| && IndexedByName(nodes[..i], byName)
    ensures var name := nodes[i].name;
      if name == "" || name in byName then
        NodeNames(nodes[..i + 1]) == NodeNames(nodes[..i]) && IndexedByName(nodes[..i + 1], byName)
      else
        NodeNames(nodes[..i + 1]) == NodeNames(nodes[..i]) + {name} && IndexedByName(nodes[..i + 1], byName[name := i])
  {
    var a, b := nodes[..i], nodes[..i + 1];
    assert forall k :: 0 <= k < i ==> b[k] == a[k];
    assert b[i] == nodes[i];
    assert forall k: nat :: k < i ==> (IsFirst(b, k) <==> IsFirst(a, k));
    if nodes[i].name != "" && nodes[i].name in byName {
      assert a[byName[nodes[i].name]].name == nodes[i].name;
    }
  }

  lemma RepeatsNext(nodes: seq<WorkflowNode>, i: nat)
    requires i < |nodes|
    ensures RepeatsBefore(nodes, i + 1) <==>
      RepeatsBefore(nodes, i) || (nodes[i].name != "" && nodes[i].name in NodeNames(nodes[..i]))
  {
  }

  method CheckEntries(p: Plan, byName: map<string, nat>) returns (diags: set<Diagnostic>)
    requires IndexedByName(p.nodes, byName)
    ensures forall d :: d in diags <==> d in {DuplicateEntry, UnknownEntry, EntryHasDependencies} && Raises(p, d)
  {
    var seen: set<string> := {};
    var duplicate, unknown, dependent := false, false, false;
    for i := 0 to |p.entryNodes|
      invariant forall s :: s in seen <==> s in p.entryNodes[..i]
      invariant duplicate <==> !Distinct(p.entryNodes[..i])
      invariant unknown <==> exists s :: s in p.entryNodes[..i] && s !in byName
      invariant dependent <==> exists s :: s in p.entryNodes[..i] && s in byName && p.nodes[byName[s]].after != []
    {
      var entry := p.entryNodes[i];
      assert p.entryNodes[..i + 1] == p.entryNodes[..i] + [entry];
      DistinctSnoc(p.entryNodes[..i], entry);
      duplicate := duplicate || entry in seen;
      seen := seen + {entry};
      if entry !in byName {
        unknown := true;
        continue;
      }
      if p.nodes[byName[entry]].after != [] {
        dependent := true;
      }
    }
    assert p.entryNodes[..|p.entryNodes|] == p.entryNodes;
    DependentEntry(p, byName);
    diags := {};
    if duplicate { diags := diags + {DuplicateEntry}; }
    if unknown { diags := diags + {UnknownEntry}; }
    if dependent { diags := diags + {EntryHasDependencies}; }
  }

  lemma DependentEntry(p: Plan, byName: map<string, nat>)
    requires IndexedByName(p.nodes, byName)
    ensures (exists s :: s in p.entryNodes && s in byName && p.nodes[byName[s]].after != [])
            <==> Raises(p, EntryHasDependencies)
  {
  }

  method CheckEdges(p: Plan, names: set<string>, byName: map<string, nat>)
    returns (keys: set<string>, known: seq<Edge>, diags: set<Diagnostic>)
    requires names == NodeNames(p.nodes) && IndexedByName(p.nodes, byName)
    ensures known == KnownEdges(p.nodes, p.edges)
    ensures forall k :: k in keys <==> k in Keys(known)
    ensures forall d :: d in diags <==> d in {UnknownEdgeNode, DuplicateEdge, EdgeNotMirrored} && Raises(p, d)
  {
    var unknown, duplicate, unmirrored;
    keys, known, unknown, duplicate, unmirrored := ScanEdges(p.nodes, p.edges, names, byName);
    UnmirroredEdge(p, byName);
    diags := {};
    if unknown { diags := diags + {UnknownEdgeNode}; }
    if duplicate { diags := diags + {DuplicateEdge}; }
    if unmirrored { diags := diags + {EdgeNotMirrored}; }
  }

  method ScanEdges(nodes: seq<WorkflowNode>, edges: seq<Edge>, names: set<string>, byName: map<string, nat>)
    returns (keys: set<string>, known: seq<Edge>, unknown: bool, duplicate: bool, unmirrored: bool)
    requires names == NodeNames(nodes) && IndexedByName(nodes, byName)
    ensures known == KnownEdges(nodes, edges)
    ensures forall k :: k in keys <==> k in Keys(known)
    ensures unknown <==> AnyUnknown(nodes, edges)
    ensures duplicate <==> !Distinct(Keys(known))
    ensures unmirrored <==> AnyUnmirrored(nodes, byName, known)
  {
    keys, known := {}, [];
    unknown, duplicate, unmirrored := false, false, false;
    for i := 0 to |edges|
      invariant known == KnownEdges(nodes, edges[..i])
      invariant forall k :: k in keys <==> k in Keys(known)
      invariant unknown <==> AnyUnknown(nodes, edges[..i])
      invariant duplicate <==> !Distinct(Keys(known))
      invariant unmirrored <==> AnyUnmirrored(nodes, byName, known)
    {
      var edge := edges[i];
      assert edges[..i + 1] == edges[..i] + [edge];
      UnknownSnoc(nodes, edges[..i], edge);
      if edge.fromNode !in names || edge.toNode !in names {
        unknown := true;
        continue;
      }
      var key := EdgeKey(edge.fromNode, edge.toNode);
      KeysSnoc(known, edge);
      duplicate := duplicate || key in keys;
      keys := keys + {key};
      UnmirroredSnoc(nodes, byName, known, edge);
      known := known + [edge];
      if edge.fromNode !in nodes[byName[edge.toNode]].after {
        unmirrored := true;
      }
    }
    assert edges[..|edges|] == edges;
  }

  lemma KeysSnoc(known: seq<Edge>, e: Edge)
    ensures Keys(known + [e]) == Keys(known) + [EdgeKey(e.fromNode, e.toNode)]
    ensures Distinct(Keys(known + [e])) <==> Distinct(Keys(known)) && EdgeKey(e.fromNode, e.toNode) !in Keys(known)
  {
    DistinctSnoc(Keys(known), EdgeKey(e.fromNode, e.toNode));
  }

  ghost predicate AnyUnknown(nodes: seq<WorkflowNode>, edges: seq<Edge>) {
    exists e :: e in edges && !IsKnown(nodes, e)
  }

  lemma UnknownSnoc(nodes: seq<WorkflowNode>, edges: seq<Edge>, e: Edge)
    ensures AnyUnknown(nodes, edges + [e]) <==> AnyUnknown(nodes, edges) || !IsKnown(nodes, e)
    ensures KnownEdges(nodes, edges + [e]) == KnownEdges(nodes, edges) + (if IsKnown(nodes, e) then [e] else [])
  {
  }

  ghost predicate AnyUnmirrored(nodes: seq<WorkflowNode>, byName: map<string, nat>, known: seq<Edge>)
    requires IndexedByName(nodes, byName) && forall e :: e in known ==> e.toNode in byName
  {
    exists e :: e in known && e.fromNode !in nodes[byName[e.toNode]].after
  }

  lemma UnmirroredSnoc(nodes: seq<WorkflowNode>, byName: map<string, nat>, known: seq<Edge>, e: Edge)
    requires IndexedByName(nodes, byName) && e.toNode in byName && forall k :: k in known ==> k.toNode in byName
    ensures AnyUnmirrored(nodes, byName, known + [e])
            <==> AnyUnmirrored(nodes, byName, known) || e.fromNode !in nodes[byName[e.toNode]].after
  {
  }

  lemma UnmirroredEdge(p: Plan, byName: map<string, nat>)
    requires IndexedByName(p.nodes, byName)
    ensures AnyUnmirrored(p.nodes, byName, KnownEdges(p.nodes, p.edges)) <==> Raises(p, EdgeNotMirrored)
  {
  }

  method CheckAfterLists(p: Plan, names: set<string>, keys: set<string>) returns (diags: set<Diagnostic>)
    requires names == NodeNames(p.nodes)
    requires forall k :: k in keys <==> k in Keys(KnownEdges(p.nodes, p.edges))
    ensures forall d :: d in diags <==> d in {DuplicateAfter, UnknownAfter, MissingEdge} && Raises(p, d)
  {
    var duplicate, unknown, missing := false, false, false;
    for i := 0 to |p.nodes|
      invariant duplicate <==> exists k :: 0 <= k < i && !Distinct(p.nodes[k].after)
      invariant unknown <==> exists k, s :: 0 <= k < i && s in p.nodes[k].after && s !in names
      invariant missing <==> exists k, s :: 0 <= k < i && s in p.nodes[k].after && s in names
                                            && EdgeKey(s, p.nodes[k].name) !in keys
    {
      var d, u, m := CheckAfter(p.nodes[i], names, keys);
      duplicate, unknown, missing := duplicate || d, unknown || u, missing || m;
    }
    diags := {};
    if duplicate { diags := diags + {DuplicateAfter}; }
    if unknown { diags := diags + {UnknownAfter}; }
    if missing { diags := diags + {MissingEdge}; }
  }

  method CheckAfter(node: WorkflowNode, names: set<string>, keys: set<string>)
    returns (duplicate: bool, unknown: bool, missing: bool)
    ensures duplicate <==> !Distinct(node.after)
    ensures unknown <==> exists s :: s in node.after && s !in names
    ensures missing <==> exists s :: s in node.after && s in names && EdgeKey(s, node.name) !in keys
  {
    duplicate, unknown, missing := false, false, false;
    var seen: set<string> := {};
    for i := 0 to |node.after|
      invariant forall s :: s in seen <==> s in node.after[..i]
      invariant duplicate <==> !Distinct(node.after[..i])
      invariant unknown <==> exists s :: s in node.after[..i] && s !in names
      invariant missing <==> exists s :: s in node.after[..i] && s in names && EdgeKey(s, node.name) !in keys
    {
      var dependency := node.after[i];
      assert node.after[..i + 1] == node.after[..i] + [dependency];
      DistinctSnoc(node.after[..i], dependency);
      duplicate := duplicate || dependency in seen;
      seen := seen + {dependency};
      if dependency !in names {
        unknown := true;
        continue;
      }
      if EdgeKey(dependency, node.name) !in keys {
        missing := true;
      }
    }
    assert node.after[..|node.after|] == node.after;
  }

  // ------------------------------------------------------- Kahn's cycle check

  /** How many edges into x come from a node not yet visited; duplicate edges count each time. */
  ghost function Incoming(edges: seq<Edge>, x: string, visited: set<string>): nat {
    if edges == [] then 0
    else
      var last := edges[|edges| - 1];
      Incoming(edges[..|edges| - 1], x, visited)
      + (if last.toNode == x && last.fromNode !in visited then 1 else 0)
  }

  /** The targets of the edges leaving n, one per edge. */
  ghost function Outgoing(edges: seq<Edge>, n: string): (r: seq<string>)
    ensures forall t :: t in r ==> Edge(n, t) in edges
  {
    if edges == [] then []
    else
      var last := edges[|edges| - 1];
      Outgoing(edges[..|edges| - 1], n) + (if last.fromNode == n then [last.toNode] else [])
  }

  lemma {:induction false} IncomingZero(edges: seq<Edge>, x: string, visited: set<string>)
    ensures Incoming(edges, x, visited) == 0 <==> forall e :: e in edges && e.toNode == x ==> e.fromNode in visited
  {
    if edges != [] {
      var init, last := edges[..|edges| - 1], edges[|edges| - 1];
      IncomingZero(init, x, visited);
      assert forall e :: e in edges <==> e in init || e == last;
    }
  }

  lemma {:induction false} VisitingSettles(edges: seq<Edge>, x: string, visited: set<string>, n: string)
    requires n !in visited
    ensures Incoming(edges, x, visited) == Incoming(edges, x, visited + {n}) + Occurrences(Outgoing(edges, n), x)
  {
    if edges != [] {
      var init, last := edges[..|edges| - 1], edges[|edges| - 1];
      VisitingSettles(init, x, visited, n);
      OccurrencesSnoc(Outgoing(init, n), last.toNode, x);
      assert Outgoing(init, n) + [] == Outgoing(init, n);
    }
  }

  /** The counts while the targets out[k..] of n are still to be decremented. */
  ghost predicate CountsAre(edges: seq<Edge>, names: set<string>, counts: map<string, nat>, visited: set<string>,
                            out: seq<string>, k: nat)
    requires k <= |out|
  {
    counts.Keys == names &&
    forall x :: x in names ==>
      counts[x] == Incoming(edges, x, visited) + Occurrences(out, x) - Occurrences(out[..k], x)
  }

  /** Every edge into a queued node starts at an earlier queued node. */
  ghost predicate SourcesFirst(edges: seq<Edge>, ready: seq<string>) {
    forall k, e :: 0 <= k < |ready| && e in edges && e.toNode == ready[k] ==> e.fromNode in ready[..k]
  }

  ghost function Visited(ready: seq<string>, index: nat): set<string>
    requires index <= |ready|
  {
    set s | s in ready[..index]
  }

  lemma VisitedNext(ready: seq<string>, index: nat)
    requires Distinct(ready) && index < |ready|
    ensures Visited(ready, index + 1) == Visited(ready, index) + {ready[index]}
    ensures ready[index] !in Visited(ready, index)
  {
    assert ready[..index + 1] == ready[..index] + [ready[index]];
  }

  lemma VisitedExtends(ready: seq<string>, longer: seq<string>, index: nat)
    requires ready <= longer && index <= |ready|
    ensures Visited(longer, index) == Visited(ready, index)
  {
  }

  /** The queue holds, once each, exactly the nodes whose count is zero. */
  ghost predicate QueueOk(edges: seq<Edge>, names: set<string>, ready: seq<string>, counts: map<string, nat>)
    requires names == counts.Keys
  {
    && Distinct(ready)
    && (forall x :: x in ready <==> x in names && counts[x] == 0)
    && SourcesFirst(edges, ready)
  }

  method CountReachableFromSources(names: set<string>, edges: seq<Edge>) returns (visitedCount: nat)
    requires forall e :: e in edges ==> e.fromNode in names && e.toNode in names
    ensures visitedCount == |names| <==> Acyclic(GraphOf(edges))
  {
    var counts, outgoing := BuildCounts(names, edges);
    var ready := InitialSources(names, edges, counts);
    visitedCount := 0;
    var index := 0;
    assert Visited(ready, 0) == {};
    while index < |ready|
      invariant index <= |ready| && visitedCount == index
      invariant CountsAre(edges, names, counts, Visited(ready, index), [], 0)
      invariant QueueOk(edges, names, ready, counts)
      decreases |names| - index
    {
      var node := ready[index];
      QueueIsShort(edges, names, ready, counts);
      VisitedNext(ready, index);
      CountsOnVisit(edges, names, counts, Visited(ready, index), node);
      index, visitedCount := index + 1, visitedCount + 1;
      if node in outgoing {
        ghost var before := ready;
        counts, ready := Decrement(edges, names, outgoing[node], ready, index, counts);
        VisitedExtends(before, ready, index);
      }
    }
    assert ready[..index] == ready;
    QueueIsZeros(edges, names, ready, counts);
    AllVisitedExactlyWhenAcyclic(names, edges, ready, Visited(ready, index));
  }

  lemma QueueIsShort(edges: seq<Edge>, names: set<string>, ready: seq<string>, counts: map<string, nat>)
    requires names == counts.Keys && QueueOk(edges, names, ready, counts)
    ensures |ready| <= |names|
  {
    DistinctSize(ready);
    SubsetCardinality((set s | s in ready), names);
  }

  lemma QueueIsZeros(edges: seq<Edge>, names: set<string>, ready: seq<string>, counts: map<string, nat>)
    requires CountsAre(edges, names, counts, Visited(ready, |ready|), [], 0) && QueueOk(edges, names, ready, counts)
    ensures forall x :: x in names ==> (x in ready <==> Incoming(edges, x, Visited(ready, |ready|)) == 0)
  {
  }

  lemma CountsOnVisit(edges: seq<Edge>, names: set<string>, counts: map<string, nat>, was: set<string>, node: string)
    requires node !in was && CountsAre(edges, names, counts, was, [], 0)
    ensures CountsAre(edges, names, counts, was + {node}, Outgoing(edges, node), 0)
    ensures Outgoing(edges, node) == [] ==> CountsAre(edges, names, counts, was + {node}, [], 0)
  {
    forall x | x in names
      ensures counts[x] == Incoming(edges, x, was + {node}) + Occurrences(Outgoing(edges, node), x)
    {
      VisitingSettles(edges, x, was, node);
    }
  }

  lemma NextEdgeCounts(names: set<string>, edges: seq<Edge>, edge: Edge, counts: map<string, nat>)
    requires CountsAre(edges, names, counts, {}, [], 0) && edge.fromNode in names && edge.toNode in names
    ensures CountsAre(edges + [edge], names, counts[edge.toNode := counts[edge.toNode] + 1], {}, [], 0)
  {
    assert (edges + [edge])[..|edges|] == edges;
  }

  lemma NoEdgesYet(names: set<string>, counts: map<string, nat>, edges: seq<Edge>)
    requires edges == [] && counts == map n | n in names :: 0
    ensures CountsAre(edges, names, counts, {}, [], 0) && forall n :: Outgoing(edges, n) == []
  {
  }

  lemma NextEdgeOutgoing(edges: seq<Edge>, edge: Edge, n: string)
    ensures Outgoing(edges + [edge], n) == Outgoing(edges, n) + if edge.fromNode == n then [edge.toNode] else []
  {
    assert (edges + [edge])[..|edges|] == edges;
  }

  method BuildCounts(names: set<string>, edges: seq<Edge>)
    returns (counts: map<string, nat>, outgoing: map<string, seq<string>>)
    requires forall e :: e in edges ==> e.fromNode in names && e.toNode in names
    ensures CountsAre(edges, names, counts, {}, [], 0)
    ensures forall n :: n in outgoing ==> outgoing[n] == Outgoing(edges, n)
    ensures forall n :: n !in outgoing ==> Outgoing(edges, n) == []
  {
    hide CountsAre, Outgoing;
    counts := map n | n in names :: 0;
    outgoing := map[];
    NoEdgesYet(names, counts, edges[..0]);
    for i := 0 to |edges|
      invariant counts.Keys == names && CountsAre(edges[..i], names, counts, {}, [], 0)
      invariant forall n :: n in outgoing ==> outgoing[n] == Outgoing(edges[..i], n)
      invariant forall n :: n !in outgoing ==> Outgoing(edges[..i], n) == []
    {
      var edge := edges[i];
      assert edges[..i + 1] == edges[..i] + [edge];
      NextEdgeCounts(names, edges[..i], edge, counts);
      forall n
        ensures Outgoing(edges[..i + 1], n) == Outgoing(edges[..i], n) + if edge.fromNode == n then [edge.toNode] else []
      {
        NextEdgeOutgoing(edges[..i], edge, n);
      }
      var so := if edge.fromNode in outgoing then outgoing[edge.fromNode] else [];
      outgoing := outgoing[edge.fromNode := so + [edge.toNode]];
      counts := counts[edge.toNode := counts[edge.toNode] + 1];
    }
    assert edges[..|edges|] == edges;
  }

  /** The nodes without incoming edges, in whatever order the hash map yields them. */
  method InitialSources(names: set<string>, edges: seq<Edge>, counts: map<string, nat>) returns (ready: seq<string>)
    requires CountsAre(edges, names, counts, {}, [], 0)
    ensures QueueOk(edges, names, ready, counts)
  {
    ready := [];
    var rest := names;
    while rest != {}
      invariant rest <= names && Distinct(ready)
      invariant forall x :: x in ready <==> x in names && x !in rest && counts[x] == 0
      decreases rest
    {
      var n :| n in rest;
      rest := rest - {n};
      if counts[n] == 0 {
        DistinctSnoc(ready, n);
        ready := ready + [n];
      }
    }
    forall k | 0 <= k < |ready|
      ensures forall e :: e in edges ==> e.toNode != ready[k]
    {
      assert ready[k] in ready;
      IncomingZero(edges, ready[k], {});
    }
  }

  /** The loop over one node's outgoing edges. */
  method Decrement(ghost edges: seq<Edge>, ghost names: set<string>, out: seq<string>,
                   queue: seq<string>, ghost index: nat, start: map<string, nat>)
    returns (counts: map<string, nat>, ready: seq<string>)
    requires index <= |queue| && forall t :: t in out ==> t in names
    requires CountsAre(edges, names, start, Visited(queue, index), out, 0)
    requires QueueOk(edges, names, queue, start)
    ensures CountsAre(edges, names, counts, Visited(queue, index), [], 0)
    ensures QueueOk(edges, names, ready, counts) && queue <= ready
  {
    ghost var visited := Visited(queue, index);
    counts, ready := start, queue;
    for k := 0 to |out|
      invariant CountsAre(edges, names, counts, visited, out, k)
      invariant QueueOk(edges, names, ready, counts) && queue <= ready
    {
      var to := out[k];
      TailOccurs(out, k);
      OneDecrement(edges, names, counts, visited, out, k);
      if counts[to] == 0 {
        continue;
      }
      counts := counts[to := counts[to] - 1];
      if counts[to] == 0 {
        VisitedExtends(queue, ready, index);
        NewSource(edges, names, ready, index, counts, out, k + 1, to);
        DistinctSnoc(ready, to);
        ready := ready + [to];
      }
    }
    assert out[..|out|] == out;
  }

  lemma {:induction false} TailOccurs(out: seq<string>, k: nat)
    requires k < |out|
    ensures Occurrences(out, out[k]) >= Occurrences(out[..k + 1], out[k]) == Occurrences(out[..k], out[k]) + 1
    decreases |out|
  {
    assert out[..k + 1][..k] == out[..k];
    if k == |out| - 1 {
      assert out[..k + 1] == out;
    } else {
      var init := out[..|out| - 1];
      TailOccurs(init, k);
      assert init[..k] == out[..k] && init[..k + 1] == out[..k + 1];
    }
  }

  /** While a target is still to come its count is positive, and taking one off settles it. */
  lemma OneDecrement(edges: seq<Edge>, names: set<string>, counts: map<string, nat>, visited: set<string>,
                     out: seq<string>, k: nat)
    requires k < |out| && out[k] in names && CountsAre(edges, names, counts, visited, out, k)
    ensures counts[out[k]] > 0
    ensures CountsAre(edges, names, counts[out[k] := counts[out[k]] - 1], visited, out, k + 1)
  {
    TailOccurs(out, k);
    assert out[..k + 1][..k] == out[..k];
  }

  /** A count reaching zero means every edge into the node starts at a visited one. */
  lemma NewSource(edges: seq<Edge>, names: set<string>, ready: seq<string>, index: nat,
                  counts: map<string, nat>, out: seq<string>, k: nat, to: string)
    requires k <= |out| && index <= |ready|
    requires CountsAre(edges, names, counts, Visited(ready, index), out, k) && to in names && counts[to] == 0
    requires SourcesFirst(edges, ready)
    ensures SourcesFirst(edges, ready + [to])
  {
    PrefixOccurs(out, k, to);
    IncomingZero(edges, to, Visited(ready, index));
    var r := ready + [to];
    forall j, e | 0 <= j < |r| && e in edges && e.toNode == r[j]
      ensures e.fromNode in r[..j]
    {
      if j < |ready| {
        assert r[..j] == ready[..j];
      } else {
        assert r[..j] == ready;
        assert e.fromNode in ready[..index];
      }
    }
  }

  /** Main result of the cycle check. */
  lemma AllVisitedExactlyWhenAcyclic(names: set<string>, edges: seq<Edge>, ready: seq<string>, visited: set<string>)
    requires forall e :: e in edges ==> e.fromNode in names && e.toNode in names
    requires Distinct(ready) && (forall s :: s in ready ==> s in names)
    requires visited == set s | s in ready
    requires forall x :: x in names ==> (x in ready <==> Incoming(edges, x, visited) == 0)
    requires SourcesFirst(edges, ready)
    ensures |ready| == |names| <==> Acyclic(GraphOf(edges))
  {
    DistinctSize(ready);
    SubsetCardinality(visited, names);
    if visited == names {
      forall g | g in GraphOf(edges)
        ensures -Position(ready, g.1) < -Position(ready, g.0)
      {
        SourceIsEarlier(edges, ready, g);
      }
      RankedIsAcyclic(GraphOf(edges), s => -Position(ready, s));
    } else {
      var unvisited := names - visited;
      assert names == visited + unvisited;
      forall x | x in unvisited
        ensures HasPredecessorIn(GraphOf(edges), unvisited, x)
      {
        IncomingZero(edges, x, visited);
        var e :| e in edges && e.toNode == x && e.fromNode !in visited;
        assert (e.fromNode, x) in GraphOf(edges);
      }
      NoSourceMeansCycle(GraphOf(edges), unvisited);
    }
  }

  lemma SourceIsEarlier(edges: seq<Edge>, ready: seq<string>, g: (string, string))
    requires Distinct(ready) && SourcesFirst(edges, ready) && g in GraphOf(edges) && g.1 in ready
    ensures Position(ready, g.0) < Position(ready, g.1)
  {
    var e :| e in edges && g == (e.fromNode, e.toNode);
    var k :| 0 <= k < |ready| && ready[k] == g.1;
    assert e.fromNode in ready[..k];
    var m :| 0 <= m < k && ready[..k][m] == g.0;
    PositionIs(ready, k);
    PositionIs(ready, m);
  }

  // -------------------------------------------- what a plan without diagnostics is

  ghost predicate Clean(p: Plan) {
    forall d :: !Raises(p, d)
  }

  /** The edges are the `after` lists, read backwards, each once. */
  ghost predicate Mirrors(p: Plan) {
    && Distinct(p.edges)
    && forall f, t :: Edge(f, t) in p.edges <==> (t, f) in AfterGraph(p.nodes)
  }

  ghost predicate GraphWellFormed(p: Plan) {
    && p.nodes != []
    && (forall i :: 0 <= i < |p.nodes| ==> p.nodes[i].name != "")
    && UniqueNames(p.nodes)
    && Distinct(p.entryNodes)
    && (forall s :: s in p.entryNodes ==> exists i :: 0 <= i < |p.nodes| && p.nodes[i].name == s && p.nodes[i].after == [])
    && (forall i :: 0 <= i < |p.nodes| ==> Distinct(p.nodes[i].after))
    && Resolved(p.nodes)
    && Mirrors(p)
    && Acyclic(AfterGraph(p.nodes))
  }

  /** No two different pairs of the plan share a key. */
  ghost predicate KeysFaithful(p: Plan) {
    forall e, f :: Mentions(p, e) && Mentions(p, f) && EdgeKey(e.fromNode, e.toNode) == EdgeKey(f.fromNode, f.toNode)
      ==> e == f
  }

  ghost predicate Mentions(p: Plan, e: Edge) {
    IsKnown(p.nodes, e) && (e in p.edges || (e.toNode, e.fromNode) in AfterGraph(p.nodes))
  }

  /** Keys cannot collide when no node name holds a NUL character. */
  lemma NulFreeNamesAreFaithful(p: Plan)
    requires forall i :: 0 <= i < |p.nodes| ==> '\0' !in p.nodes[i].name
    ensures KeysFaithful(p)
  {
    forall e, f | Mentions(p, e) && Mentions(p, f) && EdgeKey(e.fromNode, e.toNode) == EdgeKey(f.fromNode, f.toNode)
      ensures e == f
    {
      assert '\0' !in e.fromNode && '\0' !in f.fromNode;
      SplitAtSeparator(e.fromNode, e.toNode, f.fromNode, f.toNode, '\0');
    }
  }

  /** Main result: a plan without diagnostics is exactly a well-formed one, as long as keys do not collide. */
  lemma CleanExactlyWhenWellFormed(p: Plan)
    requires KeysFaithful(p)
    ensures Clean(p) <==> GraphWellFormed(p)
  {
    if Clean(p) {
      CleanIsWellFormed(p);
    }
    if GraphWellFormed(p) {
      forall d
        ensures !Raises(p, d)
      {
        WellFormedRaisesNothing(p, d);
      }
    }
  }

  lemma CleanNodes(p: Plan)
    requires Clean(p)
    ensures p.nodes != [] && UniqueNames(p.nodes) && Names(p.nodes) == NodeNames(p.nodes)
    ensures forall i :: 0 <= i < |p.nodes| ==> p.nodes[i].name != ""
    ensures forall i: nat :: i < |p.nodes| ==> IsFirst(p.nodes, i)
    ensures Resolved(p.nodes)
    ensures KnownEdges(p.nodes, p.edges) == p.edges
  {
    assert !Raises(p, EmptyNodeName) && !Raises(p, DuplicateNode) && !Raises(p, NoNodes);
    assert !Raises(p, UnknownAfter) && !Raises(p, UnknownEdgeNode);
    AllKnown(p.nodes, p.edges);
  }

  lemma {:induction false} AllKnown(nodes: seq<WorkflowNode>, edges: seq<Edge>)
    requires !AnyUnknown(nodes, edges)
    ensures KnownEdges(nodes, edges) == edges
  {
    if edges != [] {
      var init, last := edges[..|edges| - 1], edges[|edges| - 1];
      assert edges == init + [last];
      UnknownSnoc(nodes, init, last);
      AllKnown(nodes, init);
    }
  }

  lemma CleanIsWellFormed(p: Plan)
    requires KeysFaithful(p) && Clean(p)
    ensures GraphWellFormed(p)
  {
    hide KeysFaithful, Mirrors, Raises, Clean, UniqueNames, Resolved, Acyclic, AfterGraph, GraphOf, KnownEdges;
    CleanMirrors(p);
    MirrorCycles(p);
    CleanNodes(p);
    CleanEntries(p);
    CleanLists(p);
  }

  lemma CleanLists(p: Plan)
    requires Clean(p)
    ensures forall i :: 0 <= i < |p.nodes| ==> Distinct(p.nodes[i].after)
    ensures Acyclic(GraphOf(KnownEdges(p.nodes, p.edges)))
  {
    hide Acyclic, GraphOf, KnownEdges;
    assert !Raises(p, DuplicateAfter) && !Raises(p, Cycle);
  }

  lemma CleanMirrors(p: Plan)
    requires KeysFaithful(p) && Clean(p)
    ensures Mirrors(p)
  {
    CleanEdgesAreDistinct(p);
    forall f, t
      ensures Edge(f, t) in p.edges <==> (t, f) in AfterGraph(p.nodes)
    {
      if Edge(f, t) in p.edges { EdgeIsListed(p, f, t); }
      if (t, f) in AfterGraph(p.nodes) { ListedHasEdge(p, f, t); }
    }
  }

  lemma CleanEdgesAreDistinct(p: Plan)
    requires Clean(p)
    ensures Distinct(p.edges)
  {
    CleanNodes(p);
    assert !Raises(p, DuplicateEdge);
    forall i, j | 0 <= i < j < |p.edges|
      ensures p.edges[i] != p.edges[j]
    {
      assert Keys(p.edges)[i] != Keys(p.edges)[j];
    }
  }

  lemma CleanEntries(p: Plan)
    requires Clean(p)
    ensures Distinct(p.entryNodes)
    ensures forall s :: s in p.entryNodes ==> exists i :: 0 <= i < |p.nodes| && p.nodes[i].name == s && p.nodes[i].after == []
  {
    CleanNodes(p);
    assert !Raises(p, DuplicateEntry) && !Raises(p, UnknownEntry) && !Raises(p, EntryHasDependencies);
    forall s | s in p.entryNodes
      ensures exists i :: 0 <= i < |p.nodes| && p.nodes[i].name == s && p.nodes[i].after == []
    {
      assert s in NodeNames(p.nodes);
      var i: nat :| i < |p.nodes| && p.nodes[i].name == s;
      assert IsFirst(p.nodes, i);
    }
  }

  lemma EdgeIsListed(p: Plan, f: string, t: string)
    requires Clean(p) && Edge(f, t) in p.edges
    ensures (t, f) in AfterGraph(p.nodes)
  {
    CleanNodes(p);
    assert !Raises(p, EdgeNotMirrored);
    assert IsKnown(p.nodes, Edge(f, t));
    var i: nat :| i < |p.nodes| && p.nodes[i].name == t;
    assert IsFirst(p.nodes, i);
    AfterGraphHas(p.nodes, i, f);
  }

  lemma ListedHasEdge(p: Plan, f: string, t: string)
    requires KeysFaithful(p) && Clean(p) && (t, f) in AfterGraph(p.nodes)
    ensures Edge(f, t) in p.edges
  {
    var known := KnownEdges(p.nodes, p.edges);
    ListedHasKey(p, f, t);
    var k :| 0 <= k < |known| && Keys(known)[k] == EdgeKey(f, t);
    assert known[k] in known;
    assert Mentions(p, known[k]) && Mentions(p, Edge(f, t));
  }

  lemma ListedHasKey(p: Plan, f: string, t: string)
    requires Clean(p) && (t, f) in AfterGraph(p.nodes)
    ensures IsKnown(p.nodes, Edge(f, t)) && EdgeKey(f, t) in Keys(KnownEdges(p.nodes, p.edges))
  {
    var i, j := AfterGraphWitness(p.nodes, t, f);
    assert f in p.nodes[i].after;
    assert !Raises(p, UnknownAfter) && !Raises(p, MissingEdge) && !Raises(p, EmptyNodeName);
  }

  lemma AfterGraphWitness(nodes: seq<WorkflowNode>, a: string, d: string) returns (i: nat, j: nat)
    requires (a, d) in AfterGraph(nodes)
    ensures i < |nodes| && nodes[i].name == a && j < |nodes[i].after| && nodes[i].after[j] == d
  {
    i, j :| i < |nodes| && j < |nodes[i].after| && (a, d) == (nodes[i].name, nodes[i].after[j]);
  }

  /** Reading the edges backwards neither adds nor removes a cycle. */
  lemma MirrorCycles(p: Plan)
    requires Mirrors(p)
    ensures Acyclic(GraphOf(p.edges)) <==> Acyclic(AfterGraph(p.nodes))
  {
    var g, a := GraphOf(p.edges), AfterGraph(p.nodes);
    forall f, t
      ensures (f, t) in g <==> (t, f) in a
    {
      if (f, t) in g {
        assert Edge(f, t) in p.edges;
      }
      if Edge(f, t) in p.edges {
        assert (f, t) in g;
      }
    }
    ReverseCycles(g, a);
  }

  lemma ReverseCycles(g: Graph<string>, a: Graph<string>)
    requires forall f, t :: (f, t) in g <==> (t, f) in a
    ensures Acyclic(g) <==> Acyclic(a)
  {
    assert forall e :: e in g ==> (e.0, e.1) in Reverse(a);
    assert forall e :: e in a ==> (e.0, e.1) in Reverse(g);
    assert g <= Reverse(a) && a <= Reverse(g);
    if x :| Reaches(g, x, x) {
      ReachMonotone(g, Reverse(a), x, x);
      ReverseReaches(a, x, x);
    }
    if x :| Reaches(a, x, x) {
      ReachMonotone(a, Reverse(g), x, x);
      ReverseReaches(g, x, x);
    }
  }

  lemma WellFormedNodes(p: Plan)
    requires GraphWellFormed(p)
    ensures NodeNames(p.nodes) == Names(p.nodes) && KnownEdges(p.nodes, p.edges) == p.edges
    ensures !AnyUnknown(p.nodes, p.edges) && Mirrors(p) && Resolved(p.nodes)
  {
    forall e | e in p.edges
      ensures IsKnown(p.nodes, e)
    {
      assert Edge(e.fromNode, e.toNode) in p.edges;
      var g := (e.toNode, e.fromNode);
      assert g in AfterGraph(p.nodes);
      var i, j := AfterGraphWitness(p.nodes, g.0, g.1);
      assert g.0 in Names(p.nodes) && g.1 in Names(p.nodes);
    }
    AllKnown(p.nodes, p.edges);
  }

  lemma WellFormedRaisesNothing(p: Plan, d: Diagnostic)
    requires KeysFaithful(p) && GraphWellFormed(p)
    ensures !Raises(p, d)
  {
    WellFormedNodes(p);
    match d {
      case EdgeNotMirrored => EdgesAreMirrored(p);
      case EntryHasDependencies => EntriesAreFree(p);
      case UnknownEntry =>
      case UnknownAfter => AfterListsAreKnown(p);
      case MissingEdge => AfterListsAreCovered(p);
      case DuplicateEdge => KeysAreDistinct(p);
      case Cycle => MirrorCycles(p);
      case _ =>
    }
  }

  lemma EdgesAreMirrored(p: Plan)
    requires GraphWellFormed(p)
    ensures !Raises(p, EdgeNotMirrored)
  {
    WellFormedNodes(p);
    forall i: nat, e | i < |p.nodes| && e in p.edges && e.toNode == p.nodes[i].name
      ensures e.fromNode in p.nodes[i].after
    {
      assert Edge(e.fromNode, e.toNode) in p.edges;
      AfterGraphOf(p.nodes, i, e.fromNode);
    }
  }

  lemma EntriesAreFree(p: Plan)
    requires GraphWellFormed(p)
    ensures !Raises(p, EntryHasDependencies)
  {
    forall i: nat | i < |p.nodes| && p.nodes[i].name in p.entryNodes
      ensures p.nodes[i].after == []
    {
      var k :| 0 <= k < |p.nodes| && p.nodes[k].name == p.nodes[i].name && p.nodes[k].after == [];
    }
  }

  lemma {:induction false} AfterListsAreKnown(p: Plan)
    requires GraphWellFormed(p)
    ensures !Raises(p, UnknownAfter)
  {
    hide GraphWellFormed, EdgeKey, Keys, Mirrors, Resolved, AnyUnknown;
    WellFormedNodes(p);
    forall i: nat, s | i < |p.nodes| && s in p.nodes[i].after
      ensures s in NodeNames(p.nodes)
    {
      ListedIsCovered(p, i, s);
    }
  }

  lemma {:induction false} AfterListsAreCovered(p: Plan)
    requires GraphWellFormed(p)
    ensures !Raises(p, MissingEdge)
  {
    hide GraphWellFormed, EdgeKey, Keys, Mirrors, Resolved, AnyUnknown;
    WellFormedNodes(p);
    forall i: nat, s | i < |p.nodes| && s in p.nodes[i].after
      ensures EdgeKey(s, p.nodes[i].name) in Keys(p.edges)
    {
      ListedIsCovered(p, i, s);
    }
  }

  lemma ListedIsCovered(p: Plan, i: nat, s: string)
    requires Mirrors(p) && Resolved(p.nodes) && i < |p.nodes| && s in p.nodes[i].after
    ensures s in Names(p.nodes) && EdgeKey(s, p.nodes[i].name) in Keys(p.edges)
  {
    AfterGraphHas(p.nodes, i, s);
    var g := (p.nodes[i].name, s);
    assert g.1 in Names(p.nodes);
    assert Edge(s, p.nodes[i].name) in p.edges;
    var k :| 0 <= k < |p.edges| && p.edges[k] == Edge(s, p.nodes[i].name);
    assert Keys(p.edges)[k] == EdgeKey(s, p.nodes[i].name);
  }

  lemma KeysAreDistinct(p: Plan)
    requires KeysFaithful(p) && GraphWellFormed(p)
    ensures !Raises(p, DuplicateEdge)
  {
    WellFormedNodes(p);
    forall i, j | 0 <= i < j < |p.edges|
      ensures Keys(p.edges)[i] != Keys(p.edges)[j]
    {
      assert p.edges[i] in p.edges && p.edges[j] in p.edges;
      assert Mentions(p, p.edges[i]) && Mentions(p, p.edges[j]);
    }
  }

  // ------------------------------------------------------------------- lowering

  ghost function EdgesInto(name: string, after: seq<string>): (r: seq<Edge>)
    ensures |r| == |after| && forall i :: 0 <= i < |r| ==> r[i] == Edge(after[i], name)
  {
    seq(|after|, i requires 0 <= i < |after| => Edge(after[i], name))
  }

  ghost function AllEdges(nodes: seq<WorkflowNode>): seq<Edge> {
    if nodes == [] then []
    else
      var last := nodes[|nodes| - 1];
      AllEdges(nodes[..|nodes| - 1]) + EdgesInto(last.name, last.after)
  }

  method Lower(nodes: seq<WorkflowNode>) returns (p: Plan)
    ensures p.nodes == nodes && p.edges == AllEdges(nodes)
    ensures Distinct(p.entryNodes)
    ensures forall s :: s in p.entryNodes <==> exists i :: 0 <= i < |nodes| && nodes[i].name == s && nodes[i].after == []
  {
    var entries, edges := [], [];
    var seen: set<string> := {};
    for i := 0 to |nodes|
      invariant edges == AllEdges(nodes[..i])
      invariant Distinct(entries) && forall s :: s in seen <==> s in entries
      invariant forall s :: s in seen <==> exists k :: 0 <= k < i && nodes[k].name == s && nodes[k].after == []
    {
      var node := nodes[i];
      assert nodes[..i + 1][..i] == nodes[..i];
      if node.after == [] && node.name !in seen {
        DistinctSnoc(entries, node.name);
        seen := seen + {node.name};
        entries := entries + [node.name];
      }
      ghost var before := edges;
      for j := 0 to |node.after|
        invariant edges == before + EdgesInto(node.name, node.after[..j])
      {
        edges := edges + [Edge(node.after[j], node.name)];
      }
      assert node.after[..|node.after|] == node.after;
    }
    assert nodes[..|nodes|] == nodes;
    p := Plan(nodes, entries, edges);
  }

  ghost predicate SomeListed(nodes: seq<WorkflowNode>, f: string, t: string) {
    exists i :: 0 <= i < |nodes| && nodes[i].name == t && f in nodes[i].after
  }

  lemma EdgesIntoHas(name: string, after: seq<string>, f: string, t: string)
    ensures Edge(f, t) in EdgesInto(name, after) <==> name == t && f in after
  {
    var into := EdgesInto(name, after);
    if k :| 0 <= k < |after| && after[k] == f {
      assert into[k] == Edge(f, name);
    }
  }

  lemma {:induction false} AllEdgesHas(nodes: seq<WorkflowNode>, f: string, t: string)
    ensures Edge(f, t) in AllEdges(nodes) <==> SomeListed(nodes, f, t)
  {
    if nodes != [] {
      var init, last := nodes[..|nodes| - 1], nodes[|nodes| - 1];
      AllEdgesHas(init, f, t);
      EdgesIntoHas(last.name, last.after, f, t);
      SomeListedSnoc(init, last, f, t);
      assert nodes == init + [last];
    }
  }

  lemma SomeListedSnoc(init: seq<WorkflowNode>, last: WorkflowNode, f: string, t: string)
    ensures SomeListed(init + [last], f, t) <==> SomeListed(init, f, t) || (last.name == t && f in last.after)
  {
    var nodes := init + [last];
    assert forall i :: 0 <= i < |init| ==> nodes[i] == init[i];
    assert nodes[|init|] == last;
  }

  lemma {:induction false} AllEdgesDistinct(nodes: seq<WorkflowNode>)
    requires UniqueNames(nodes) && forall i :: 0 <= i < |nodes| ==> Distinct(nodes[i].after)
    ensures Distinct(AllEdges(nodes))
  {
    if nodes != [] {
      var init, last := nodes[..|nodes| - 1], nodes[|nodes| - 1];
      AllEdgesDistinct(init);
      var into := EdgesInto(last.name, last.after);
      forall i, j | 0 <= i < |AllEdges(init)| && 0 <= j < |into|
        ensures AllEdges(init)[i] != into[j]
      {
        var e := AllEdges(init)[i];
        AllEdgesHas(init, e.fromNode, e.toNode);
      }
      assert Distinct(into);
    }
  }
}
