/** What the NUL-joined edge keys of the plan validator (src/compiler/handoff/package.cpp) cost:
    exactly which plans, and plans over which names, are judged rightly. */
module PlanKeys {
  import opened Graphs
  import opened Sequences
  import opened Workflows
  import opened PlanValidation

  /** Main result: a well-formed plan is accepted exactly when its keys do not collide. */
  lemma WellFormedIsCleanExactlyWhenFaithful(p: Plan)
    requires GraphWellFormed(p)
    ensures Clean(p) <==> KeysFaithful(p)
  {
    hide GraphWellFormed, Clean, KeysFaithful;
    if KeysFaithful(p) {
      CleanExactlyWhenWellFormed(p);
    }
    if Clean(p) {
      CleanPlansKeysDiffer(p);
      WellFormedNodes(p);
      DistinctKeysAreFaithful(p);
    }
  }

  lemma CleanPlansKeysDiffer(p: Plan)
    requires Clean(p)
    ensures Distinct(Keys(p.edges))
  {
    CleanNodes(p);
    assert !Raises(p, DuplicateEdge);
  }

  lemma DistinctKeysAreFaithful(p: Plan)
    requires Mirrors(p) && Distinct(Keys(p.edges))
    ensures KeysFaithful(p)
  {
    hide Mirrors, AfterGraph, IsKnown;
    forall e, f | Mentions(p, e) && Mentions(p, f) && EdgeKey(e.fromNode, e.toNode) == EdgeKey(f.fromNode, f.toNode)
      ensures e == f
    {
      MentionedIsAnEdge(p, e);
      MentionedIsAnEdge(p, f);
      var i :| 0 <= i < |p.edges| && p.edges[i] == e;
      var j :| 0 <= j < |p.edges| && p.edges[j] == f;
      assert Keys(p.edges)[i] == Keys(p.edges)[j];
    }
  }

  lemma MentionedIsAnEdge(p: Plan, e: Edge)
    requires Mirrors(p) && Mentions(p, e)
    ensures e in p.edges
  {
    assert e == Edge(e.fromNode, e.toNode);
  }

  // ------------------------------------------------------------------- lowered plans

  /** What lowering makes of its nodes. */
  ghost predicate IsLowered(p: Plan) {
    && p.edges == AllEdges(p.nodes) && Distinct(p.entryNodes)
    && forall s :: s in p.entryNodes <==>
         exists i :: 0 <= i < |p.nodes| && p.nodes[i].name == s && p.nodes[i].after == []
  }

  ghost predicate InOrder(nodes: seq<WorkflowNode>) {
    && nodes != [] && UniqueNames(nodes) && Resolved(nodes) && Acyclic(AfterGraph(nodes))
    && forall i :: 0 <= i < |nodes| ==> nodes[i].name != "" && Distinct(nodes[i].after)
  }

  lemma LoweredHasItsEdges(p: Plan)
    requires p.edges == AllEdges(p.nodes)
    ensures forall f, t :: Edge(f, t) in p.edges <==> (t, f) in AfterGraph(p.nodes)
  {
    forall f, t
      ensures Edge(f, t) in p.edges <==> (t, f) in AfterGraph(p.nodes)
    {
      AllEdgesHas(p.nodes, f, t);
      if i: nat :| i < |p.nodes| && p.nodes[i].name == t && f in p.nodes[i].after {
        AfterGraphHas(p.nodes, i, f);
      }
    }
  }

  lemma InOrderIsWellFormed(p: Plan)
    requires IsLowered(p) && InOrder(p.nodes)
    ensures GraphWellFormed(p)
  {
    hide AfterGraph, Acyclic, Resolved;
    AllEdgesDistinct(p.nodes);
    LoweredHasItsEdges(p);
  }

  lemma CleanLoweredIsInOrder(p: Plan)
    requires IsLowered(p) && Clean(p)
    ensures InOrder(p.nodes)
  {
    hide AfterGraph, Acyclic, Resolved, Clean, UniqueNames, GraphOf, KnownEdges;
    CleanNodes(p);
    CleanLists(p);
    CleanEdgesAreDistinct(p);
    LoweredHasItsEdges(p);
    MirrorCycles(p);
  }

  /** Main result: the lowered graph raises no diagnostic exactly when the workflow itself is in order
      and the keys of its edges do not collide. */
  lemma LoweredPlanIsClean(p: Plan)
    requires IsLowered(p)
    ensures Clean(p) <==> InOrder(p.nodes) && KeysFaithful(p)
  {
    hide Clean, KeysFaithful, IsLowered, InOrder, GraphWellFormed;
    if Clean(p) {
      CleanLoweredIsInOrder(p);
    }
    if InOrder(p.nodes) {
      InOrderIsWellFormed(p);
      WellFormedIsCleanExactlyWhenFaithful(p);
    }
  }

  /** Every plan over the names is accepted exactly when it is well-formed. */
  ghost predicate JudgedRightly(names: set<string>) {
    forall p: Plan :: NodeNames(p.nodes) <= names ==> (Clean(p) <==> GraphWellFormed(p))
  }

  ghost predicate KeysApart(names: set<string>) {
    forall a, b, c, d :: a in names && b in names && c in names && d in names && EdgeKey(a, b) == EdgeKey(c, d)
      ==> a == c && b == d
  }

  // --------------------------------------------------------- a plan from a collision

  function Deduplicated(s: seq<string>): (r: seq<string>)
    ensures forall x :: x in r <==> x in s
  {
    if s == [] then []
    else
      var init := Deduplicated(s[..|s| - 1]);
      if s[|s| - 1] in init then init else init + [s[|s| - 1]]
  }

  lemma {:induction false} DeduplicatedIsDistinct(s: seq<string>)
    ensures Distinct(Deduplicated(s))
  {
    if s != [] {
      DeduplicatedIsDistinct(s[..|s| - 1]);
      DistinctSnoc(Deduplicated(s[..|s| - 1]), s[|s| - 1]);
    }
  }

  /** b waits for a and d waits for c. */
  function AfterIn(x: string, a: string, b: string, c: string, d: string): seq<string> {
    (if x == b then [a] else []) + if x == d then [c] else []
  }

  /** The plan has the first of the two edges and lacks the second. */
  function HalfPlan(a: string, b: string, c: string, d: string): Plan {
    var names := Deduplicated([a, b, c, d]);
    Plan(seq(|names|, i requires 0 <= i < |names| => WorkflowNode(names[i], AfterIn(names[i], a, b, c, d))), [], [Edge(a, b)])
  }

  lemma HalfPlanNodes(a: string, b: string, c: string, d: string)
    requires a != "" && b != "" && c != "" && d != ""
    ensures var nodes := HalfPlan(a, b, c, d).nodes;
      && nodes != [] && UniqueNames(nodes) && NodeNames(nodes) == {a, b, c, d}
      && (forall i :: 0 <= i < |nodes| ==> nodes[i].name in {a, b, c, d})
      && (forall i :: 0 <= i < |nodes| ==> nodes[i].after == AfterIn(nodes[i].name, a, b, c, d))
  {
    var names := Deduplicated([a, b, c, d]);
    var nodes := HalfPlan(a, b, c, d).nodes;
    DeduplicatedIsDistinct([a, b, c, d]);
    forall x
      ensures x in names <==> x in {a, b, c, d}
    {
    }
    assert a in names;
    forall x | x in {a, b, c, d}
      ensures x in NodeNames(nodes)
    {
      assert x in names;
      var i :| 0 <= i < |names| && names[i] == x;
      assert nodes[i].name == x;
    }
    forall i | 0 <= i < |nodes|
      ensures nodes[i].name in {a, b, c, d}
    {
      assert names[i] in names;
    }
  }

  ghost predicate IsHalfPlan(p: Plan, a: string, b: string, c: string, d: string) {
    && a != "" && b != "" && c != "" && d != "" && a != b && EdgeKey(a, b) == EdgeKey(c, d)
    && p == HalfPlan(a, b, c, d)
    && p.edges == [Edge(a, b)] && KnownEdges(p.nodes, p.edges) == p.edges && !AnyUnknown(p.nodes, p.edges)
    && Acyclic(GraphOf(p.edges)) && EdgeKey(a, b) in Keys(p.edges)
  }

  lemma OneEdge(p: Plan, a: string, b: string)
    requires p.edges == [Edge(a, b)] && a != b && a in NodeNames(p.nodes) && b in NodeNames(p.nodes)
    ensures KnownEdges(p.nodes, p.edges) == p.edges && !AnyUnknown(p.nodes, p.edges)
    ensures Acyclic(GraphOf(p.edges)) && EdgeKey(a, b) in Keys(p.edges)
  {
    hide EdgeKey, NodeNames;
    assert p.edges[0] == Edge(a, b);
    AllKnown(p.nodes, p.edges);
    assert Keys(p.edges)[0] == EdgeKey(a, b);
    RankedIsAcyclic(GraphOf(p.edges), x => if x == a then 1 else 0);
  }

  lemma HalfPlanIsHalf(a: string, b: string, c: string, d: string)
    requires a != "" && b != "" && c != "" && d != "" && a != b && EdgeKey(a, b) == EdgeKey(c, d)
    ensures IsHalfPlan(HalfPlan(a, b, c, d), a, b, c, d)
  {
    hide EdgeKey, NodeNames, KnownEdges, AnyUnknown, GraphOf, Acyclic, Keys;
    HalfPlanNodes(a, b, c, d);
    OneEdge(HalfPlan(a, b, c, d), a, b);
  }

  lemma HalfPlanLacksAnEdge(a: string, b: string, c: string, d: string)
    requires a != "" && b != "" && c != "" && d != "" && (a != c || b != d)
    ensures !Mirrors(HalfPlan(a, b, c, d))
  {
    hide AfterGraph;
    var p := HalfPlan(a, b, c, d);
    HalfPlanNodes(a, b, c, d);
    assert d in NodeNames(p.nodes);
    var i :| 0 <= i < |p.nodes| && p.nodes[i].name == d;
    assert c in p.nodes[i].after;
    AfterGraphHas(p.nodes, i, c);
    assert Edge(c, d) !in p.edges;
  }

  /** It passes for clean, since the key of the edge it has is that of the edge it lacks. */
  lemma HalfPlanIsMisjudged(a: string, b: string, c: string, d: string)
    requires a != "" && b != "" && c != "" && d != "" && a != b && (a != c || b != d)
    requires EdgeKey(a, b) == EdgeKey(c, d)
    ensures Clean(HalfPlan(a, b, c, d)) && !Mirrors(HalfPlan(a, b, c, d))
    ensures !GraphWellFormed(HalfPlan(a, b, c, d))
  {
    hide HalfPlan, Raises, Mirrors, IsHalfPlan;
    HalfPlanIsHalf(a, b, c, d);
    HalfPlanLacksAnEdge(a, b, c, d);
    forall diag
      ensures !Raises(HalfPlan(a, b, c, d), diag)
    {
      HalfPlanRaises(a, b, c, d, diag);
    }
  }

  lemma HalfPlanRaises(a: string, b: string, c: string, d: string, diag: Diagnostic)
    requires IsHalfPlan(HalfPlan(a, b, c, d), a, b, c, d) && (a != c || b != d)
    ensures !Raises(HalfPlan(a, b, c, d), diag)
  {
    hide Raises, IsHalfPlan;
    if diag == MissingEdge || diag == EdgeNotMirrored {
      HalfPlanPassesForMirrored(HalfPlan(a, b, c, d), a, b, c, d);
    } else {
      HalfPlanIsInOrder(HalfPlan(a, b, c, d), a, b, c, d, diag);
    }
  }

  lemma HalfPlanPassesForMirrored(p: Plan, a: string, b: string, c: string, d: string)
    requires IsHalfPlan(p, a, b, c, d)
    ensures !Raises(p, MissingEdge) && !Raises(p, EdgeNotMirrored)
  {
    hide Acyclic, GraphOf, EdgeKey, HalfPlan;
    HalfPlanNodes(a, b, c, d);
  }

  lemma HalfPlanIsInOrder(p: Plan, a: string, b: string, c: string, d: string, diag: Diagnostic)
    requires IsHalfPlan(p, a, b, c, d) && (a != c || b != d)
    requires diag != MissingEdge && diag != EdgeNotMirrored
    ensures !Raises(p, diag)
  {
    hide EdgeKey, Acyclic;
    HalfPlanNodes(a, b, c, d);
  }

  lemma SameEndsSameKey(a: string, c: string)
    requires EdgeKey(a, a) == EdgeKey(c, c)
    ensures a == c
  {
    var k := EdgeKey(a, a);
    assert |k| == 2 * |a| + 1 == 2 * |c| + 1;
    assert k[..|a|] == a && k[..|c|] == c;
  }

  /** Main result: plans over a set of names are all judged rightly exactly when no two pairs of the
      names share a key. */
  lemma JudgedRightlyExactlyWhenKeysApart(names: set<string>)
    requires "" !in names
    ensures JudgedRightly(names) <==> KeysApart(names)
  {
    if KeysApart(names) {
      forall p: Plan | NodeNames(p.nodes) <= names
        ensures Clean(p) <==> GraphWellFormed(p)
      {
        CleanExactlyWhenWellFormed(p);
      }
    } else {
      var a, b, c, d :| a in names && b in names && c in names && d in names && EdgeKey(a, b) == EdgeKey(c, d)
        && !(a == c && b == d);
      if a == b && c == d {
        SameEndsSameKey(a, c);
      } else if a != b {
        HalfPlanIsMisjudged(a, b, c, d);
        HalfPlanNodes(a, b, c, d);
        assert !(Clean(HalfPlan(a, b, c, d)) <==> GraphWellFormed(HalfPlan(a, b, c, d)));
      } else {
        HalfPlanIsMisjudged(c, d, a, b);
        HalfPlanNodes(c, d, a, b);
        assert !(Clean(HalfPlan(c, d, a, b)) <==> GraphWellFormed(HalfPlan(c, d, a, b)));
      }
    }
  }

  // ------------------------------------------------------------- which keys collide

  /** The names of two pairs with one key: they differ by where the separator is taken to be. */
  lemma CollisionIsAShift(a: string, b: string, c: string, d: string) returns (y: string)
    requires EdgeKey(a, b) == EdgeKey(c, d) && |c| < |a|
    ensures a == c + ['\0'] + y && d == y + ['\0'] + b
  {
    var k := EdgeKey(a, b);
    y := a[|c| + 1..];
    assert k[..|a|] == a && k[..|c|] == c;
    assert k[|c|] == '\0' == a[|c|];
    assert a == a[..|c|] + [a[|c|]] + y;
    assert k[|c| + 1..] == d;
    assert k[|c| + 1..] == y + ['\0'] + b;
  }

  ghost predicate HasShift(names: set<string>, x: string, y: string, z: string) {
    && x in names && z in names
    && x + ['\0'] + y in names && y + ['\0'] + z in names
  }

  /** Main result: keys collide exactly when the names hold x, z, x NUL y and y NUL z for some x, y and z. */
  lemma KeysCollideExactlyOnShifts(names: set<string>)
    ensures !KeysApart(names) <==> exists x, y, z :: HasShift(names, x, y, z)
  {
    if x, y, z :| HasShift(names, x, y, z) {
      var a, d := x + ['\0'] + y, y + ['\0'] + z;
      assert EdgeKey(a, z) == EdgeKey(x, d) by {
        assert a + ['\0'] + z == x + ['\0'] + d;
      }
      assert a != x;
    }
    if !KeysApart(names) {
      var a, b, c, d :| a in names && b in names && c in names && d in names && EdgeKey(a, b) == EdgeKey(c, d)
        && !(a == c && b == d);
      if |c| < |a| {
        var y := CollisionIsAShift(a, b, c, d);
        assert HasShift(names, c, y, b);
      } else if |a| < |c| {
        var y := CollisionIsAShift(c, d, a, b);
        assert HasShift(names, a, y, d);
      } else {
        SameLengthSamePair(a, b, c, d);
      }
    }
  }

  lemma SameLengthSamePair(a: string, b: string, c: string, d: string)
    requires EdgeKey(a, b) == EdgeKey(c, d) && |a| == |c|
    ensures a == c && b == d
  {
    var k := EdgeKey(a, b);
    assert k[..|a|] == a && k[..|a|] == c;
    assert k[|a| + 1..] == b && k[|a| + 1..] == d;
  }

  /** A missing edge goes unnoticed whenever the pair that is there is the missing one with the
      separator shifted. */
  lemma SeparatorHidesAMissingEdge(x: string, y: string, z: string)
    requires x != "" && z != "" && x + ['\0'] + y != z
    ensures var p := HalfPlan(x + ['\0'] + y, z, x, y + ['\0'] + z);
      Clean(p) && !Mirrors(p)
  {
    var a, d := x + ['\0'] + y, y + ['\0'] + z;
    assert a + ['\0'] + z == x + ['\0'] + d;
    assert a != x;
    HalfPlanIsMisjudged(a, z, x, d);
  }
}
