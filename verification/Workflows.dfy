/** Workflow nodes and the dependency graph their `after` lists describe. */
module Workflows {
  import opened Graphs
  import opened Sequences

  datatype WorkflowNode = WorkflowNode(name: string, after: seq<string>)

  ghost predicate UniqueNames(nodes: seq<WorkflowNode>) {
    forall i, j :: 0 <= i < j < |nodes| ==> nodes[i].name != nodes[j].name
  }

  ghost function Names(nodes: seq<WorkflowNode>): set<string> {
    set i | 0 <= i < |nodes| :: nodes[i].name
  }

  lemma UniqueNamesCount(nodes: seq<WorkflowNode>)
    requires UniqueNames(nodes)
    ensures |Names(nodes)| == |nodes|
  {
    var names := seq(|nodes|, i requires 0 <= i < |nodes| => nodes[i].name);
    DistinctSize(names);
    forall x
      ensures x in Names(nodes) <==> x in names
    {
      if x in Names(nodes) {
        var i :| 0 <= i < |nodes| && nodes[i].name == x;
        assert names[i] == x;
      }
    }
    assert Names(nodes) == set x | x in names;
  }

  /** An edge leads from a node to each name in its `after` list, known or not. */
  ghost function AfterGraph(nodes: seq<WorkflowNode>): Graph<string> {
    set i, j | 0 <= i < |nodes| && 0 <= j < |nodes[i].after| :: (nodes[i].name, nodes[i].after[j])
  }

  ghost predicate Resolved(nodes: seq<WorkflowNode>) {
    forall e :: e in AfterGraph(nodes) ==> e.1 in Names(nodes)
  }

  lemma AfterGraphHas(nodes: seq<WorkflowNode>, i: nat, d: string)
    requires i < |nodes| && d in nodes[i].after
    ensures (nodes[i].name, d) in AfterGraph(nodes)
  {
  }

  /** With unique names the edges leaving a node are exactly its own `after` list. */
  lemma AfterGraphOf(nodes: seq<WorkflowNode>, i: nat, d: string)
    requires UniqueNames(nodes) && i < |nodes|
    ensures (nodes[i].name, d) in AfterGraph(nodes) <==> d in nodes[i].after
  {
  }
}
