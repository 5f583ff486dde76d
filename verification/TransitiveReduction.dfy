/** The reduction of a graph that drops every edge implied by another edge of the same node, on any
    graph, cyclic ones included. */
module TransitiveReduction {
  import opened Graphs

  /** d is reachable through another successor of a. */
  ghost predicate Implied<T(!new)>(g: Graph<T>, a: T, d: T) {
    exists o :: (a, o) in g && o != d && Reaches(g, o, d)
  }

  ghost function Reduced<T(!new)>(g: Graph<T>): Graph<T> {
    set e | e in g && !Implied(g, e.0, e.1)
  }

  ghost predicate SameClosure<T(!new)>(g: Graph<T>, h: Graph<T>) {
    forall a, b :: Reaches(g, a, b) <==> Reaches(h, a, b)
  }

  ghost predicate OneSuccessor<T(!new)>(g: Graph<T>, x: T) {
    forall d, e :: (x, d) in g && (x, e) in g ==> d == e
  }

  /** No node on a cycle has two successors. */
  ghost predicate CyclesAreBare<T(!new)>(g: Graph<T>) {
    forall x :: Reaches(g, x, x) ==> OneSuccessor(g, x)
  }

  /** Some successor of a lies strictly above d. */
  ghost predicate HasAbove<T(!new)>(g: Graph<T>, a: T, d: T) {
    exists k :: (a, k) in g && Reaches(g, k, d) && !Reaches(g, d, k)
  }

  ghost predicate Tied<T(!new)>(g: Graph<T>, a: T, o: T, d: T) {
    (a, o) in g && (a, d) in g && o != d && Reaches(g, o, d) && Reaches(g, d, o)
  }

  /** Where two successors of a node reach each other, another one lies strictly above them. */
  ghost predicate TiesAreBroken<T(!new)>(g: Graph<T>) {
    forall a, o, d :: Tied(g, a, o, d) ==> HasAbove(g, a, d)
  }

  lemma ReducedIsSubgraph<T(!new)>(g: Graph<T>)
    ensures Reduced(g) <= g
    ensures forall a, b :: Reaches(Reduced(g), a, b) ==> Reaches(g, a, b)
  {
    forall a, b | Reaches(Reduced(g), a, b)
      ensures Reaches(g, a, b)
    {
      ReachMonotone(Reduced(g), g, a, b);
    }
  }

  // ------------------------------------------------------------------ the conditions suffice

  /** The nodes that are x or that x reaches. */
  ghost function FromOn<T(!new)>(g: Graph<T>, x: T): set<T> {
    {x} + ReachSet(g, x)
  }

  lemma HigherReachesMore<T(!new)>(g: Graph<T>, k: T, m: T)
    requires Reaches(g, k, m) && !Reaches(g, m, k) && k != m
    ensures FromOn(g, m) < FromOn(g, k) && |FromOn(g, m)| < |FromOn(g, k)|
  {
    ReachTarget(g, k, m);
    forall x | x in FromOn(g, m)
      ensures x in FromOn(g, k)
    {
      if x != m {
        ReachTrans(g, k, m, x);
      }
    }
    assert k !in FromOn(g, m);
    SubsetCardinality(FromOn(g, m), FromOn(g, k));
  }

  /** A successor that the reduction keeps, at or above a given one. */
  lemma {:induction false} KeptAtOrAbove<T(!new)>(g: Graph<T>, a: T, m: T) returns (k: T)
    requires TiesAreBroken(g) && (a, m) in g
    ensures (a, k) in Reduced(g) && (k == m || Reaches(g, k, m))
    decreases |{a} + Targets(g)| - |FromOn(g, m)|
  {
    if !Implied(g, a, m) {
      k := m;
    } else {
      var o :| (a, o) in g && o != m && Reaches(g, o, m);
      if Reaches(g, m, o) {
        assert Tied(g, a, o, m);
        o :| (a, o) in g && Reaches(g, o, m) && !Reaches(g, m, o);
      }
      assert o != m;
      HigherReachesMore(g, o, m);
      SubsetCardinality(FromOn(g, o), {a} + Targets(g));
      k := KeptAtOrAbove(g, a, o);
      if k != o {
        ReachTrans(g, k, o, m);
      }
    }
  }

  /** Where cycles are bare, whatever follows a node on a cycle is on a cycle, and its edges stay. */
  lemma CycleEdgeStays<T(!new)>(g: Graph<T>, x: T, m: T)
    requires CyclesAreBare(g) && Reaches(g, x, x) && (x, m) in g
    ensures (x, m) in Reduced(g) && Reaches(g, m, m)
  {
    var d := ReachFirst(g, x, x);
    assert OneSuccessor(g, x) && d == m;
    if m != x {
      ReachEdge(g, x, m);
      ReachTrans(g, m, x, m);
    }
  }

  lemma {:induction false} CyclePathStays<T(!new)>(g: Graph<T>, x: T, b: T)
    requires CyclesAreBare(g) && Reaches(g, x, x) && Reaches(g, x, b)
    ensures Reaches(Reduced(g), x, b)
  {
    var p :| PathFromTo(g, p, x, b);
    var i := 1;
    assert (p[0], p[1]) in g;
    CycleEdgeStays(g, p[0], p[1]);
    ReachEdge(Reduced(g), p[0], p[1]);
    while i < |p| - 1
      invariant 1 <= i <= |p| - 1
      invariant Reaches(g, p[i], p[i]) && Reaches(Reduced(g), x, p[i])
    {
      assert (p[i], p[i + 1]) in g;
      CycleEdgeStays(g, p[i], p[i + 1]);
      ReachEdge(Reduced(g), p[i], p[i + 1]);
      ReachTrans(Reduced(g), x, p[i], p[i + 1]);
      i := i + 1;
    }
  }

  lemma {:induction false} StillReaches<T(!new)>(g: Graph<T>, a: T, b: T)
    requires CyclesAreBare(g) && TiesAreBroken(g) && Reaches(g, a, b)
    ensures Reaches(Reduced(g), a, b)
    decreases |FromOn(g, a)|
  {
    if Reaches(g, a, a) {
      CyclePathStays(g, a, b);
    } else {
      var m := ReachFirst(g, a, b);
      var k := KeptAtOrAbove(g, a, m);
      ReachEdge(Reduced(g), a, k);
      ReachEdge(g, a, k);
      if k != b {
        if k != m && m != b {
          ReachTrans(g, k, m, b);
        }
        if Reaches(g, k, a) {
          ReachTrans(g, a, k, a);
        }
        HigherReachesMore(g, a, k);
        StillReaches(g, k, b);
        ReachTrans(Reduced(g), a, k, b);
      }
    }
  }

  // ----------------------------------------------------------------- and they are needed

  /** On a cycle the reduction keeps at most the edge that goes on along a cycle. */
  lemma KeptOnCycle<T(!new)>(g: Graph<T>, x: T, d: T)
    requires (x, d) in Reduced(g) && (d == x || Reaches(g, d, x))
    ensures forall e :: (x, e) in Reduced(g) ==> e == d
  {
    forall e | (x, e) in Reduced(g) && e != d
      ensures Implied(g, x, e)
    {
      ReachEdge(g, x, e);
      if d != x {
        ReachTrans(g, d, x, e);
      }
    }
  }

  /** Where the closure is kept, the kept edge of a node on a cycle goes on along that cycle. */
  lemma KeptEdgeGoesRound<T(!new)>(g: Graph<T>, y: T, e: T)
    requires SameClosure(g, Reduced(g)) && Reaches(g, y, y) && (y, e) in Reduced(g)
    ensures e == y || Reaches(g, e, y)
  {
    var d := ReachFirst(Reduced(g), y, y);
    KeptOnCycle(g, y, d);
  }

  /** So whatever a node on a cycle reaches leads back to it. */
  lemma LeadsBack<T(!new)>(g: Graph<T>, x: T, b: T)
    requires SameClosure(g, Reduced(g)) && Reaches(g, x, x) && Reaches(g, x, b)
    ensures Reaches(g, b, x)
  {
    var h := Reduced(g);
    var round := set y | y in Targets(g) && Reaches(g, y, x) && Reaches(g, x, y);
    ReachTarget(g, x, x);
    forall e | e in h && (e.0 == x || e.0 in round)
      ensures e.1 in round
    {
      ReachTrans(g, e.0, x, e.0);
      KeptEdgeGoesRound(g, e.0, e.1);
      ReachEdge(g, e.0, e.1);
      ReachTrans(g, x, e.0, e.1);
      ReachTarget(g, x, e.1);
      if e.1 != e.0 {
        ReachTrans(g, e.1, e.0, x);
      }
    }
    ClosedContainsReachable(h, round, x, b);
  }

  lemma CyclesMustBeBare<T(!new)>(g: Graph<T>)
    requires SameClosure(g, Reduced(g))
    ensures CyclesAreBare(g)
  {
    forall x | Reaches(g, x, x)
      ensures OneSuccessor(g, x)
    {
      var d := ReachFirst(Reduced(g), x, x);
      forall e | (x, e) in g && e != d
        ensures Implied(g, x, d)
      {
        ReachEdge(g, x, e);
        LeadsBack(g, x, e);
        ReachEdge(g, x, d);
        ReachTrans(g, e, x, d);
      }
    }
  }

  lemma TiesMustBeBroken<T(!new)>(g: Graph<T>)
    requires SameClosure(g, Reduced(g))
    ensures TiesAreBroken(g)
  {
    forall a, o, d | Tied(g, a, o, d)
      ensures HasAbove(g, a, d)
    {
      ReachEdge(g, a, d);
      var k := ReachFirst(Reduced(g), a, d);
      assert k != d && Reaches(g, k, d);
      assert !Reaches(g, d, k);
    }
  }

  /** Main result: the reduction keeps the closure exactly when no node on a cycle has two successors
      and successors that reach each other always have another one strictly above them. */
  lemma ClosureKeptExactly<T(!new)>(g: Graph<T>)
    ensures SameClosure(g, Reduced(g)) <==> CyclesAreBare(g) && TiesAreBroken(g)
  {
    ReducedIsSubgraph(g);
    if SameClosure(g, Reduced(g)) {
      CyclesMustBeBare(g);
      TiesMustBeBroken(g);
    }
    if CyclesAreBare(g) && TiesAreBroken(g) {
      forall a, b | Reaches(g, a, b)
        ensures Reaches(Reduced(g), a, b)
      {
        StillReaches(g, a, b);
      }
    }
  }

  /** On an acyclic graph there is nothing to check. */
  lemma AcyclicMeetsTheConditions<T(!new)>(g: Graph<T>)
    requires Acyclic(g)
    ensures CyclesAreBare(g) && TiesAreBroken(g)
  {
    forall a, o, d
      ensures !Tied(g, a, o, d)
    {
      if Tied(g, a, o, d) {
        ReachTrans(g, o, d, o);
      }
    }
  }
}
