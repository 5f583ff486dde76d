/** Finite directed graphs given by their edge set, and the facts about reachability
    and cycles that the workflow, plan-validation, alias and dead-state modules share. */
module Graphs {

  type Graph<T(==)> = set<(T, T)>

  /** Every step of p follows an edge of g. */
  ghost predicate IsPath<T>(g: Graph<T>, p: seq<T>) {
    forall i :: 0 <= i < |p| - 1 ==> (p[i], p[i + 1]) in g
  }

  ghost predicate PathFromTo<T>(g: Graph<T>, p: seq<T>, a: T, b: T) {
    |p| >= 2 && p[0] == a && p[|p| - 1] == b && IsPath(g, p)
  }

  /** b is reachable from a by at least one edge. */
  ghost predicate Reaches<T(!new)>(g: Graph<T>, a: T, b: T) {
    exists p :: PathFromTo(g, p, a, b)
  }

  ghost predicate Acyclic<T(!new)>(g: Graph<T>) {
    forall a :: !Reaches(g, a, a)
  }

  /** The targets of edges; everything reachable lies in this set. */
  ghost function Targets<T(!new)>(g: Graph<T>): (s: set<T>)
    ensures forall e :: e in g ==> e.1 in s
  {
    set e | e in g :: e.1
  }

  ghost function ReachSet<T(!new)>(g: Graph<T>, a: T): set<T> {
    set b | b in Targets(g) && Reaches(g, a, b)
  }

  lemma ReachEdge<T(!new)>(g: Graph<T>, a: T, b: T)
    requires (a, b) in g
    ensures Reaches(g, a, b)
  {
    assert PathFromTo(g, [a, b], a, b);
  }

  lemma ReachTrans<T(!new)>(g: Graph<T>, a: T, b: T, c: T)
    requires Reaches(g, a, b) && Reaches(g, b, c)
    ensures Reaches(g, a, c)
  {
    var p :| PathFromTo(g, p, a, b);
    var q :| PathFromTo(g, q, b, c);
    var r := p + q[1..];
    forall i | 0 <= i < |r| - 1
      ensures (r[i], r[i + 1]) in g
    {
      if i < |p| - 1 {
        assert (p[i], p[i + 1]) in g;
      } else {
        var j := i - (|p| - 1);
        assert r[i] == q[j] && r[i + 1] == q[j + 1];
        assert (q[j], q[j + 1]) in g;
      }
    }
    assert PathFromTo(g, r, a, c);
  }

  /** A path splits into its first edge and a (possibly empty) rest. */
  lemma ReachFirst<T(!new)>(g: Graph<T>, a: T, b: T) returns (m: T)
    requires Reaches(g, a, b)
    ensures (a, m) in g && (m == b || Reaches(g, m, b))
  {
    var p :| PathFromTo(g, p, a, b);
    m := p[1];
    assert (p[0], p[1]) in g;
    if |p| > 2 {
      var q := p[1..];
      assert PathFromTo(g, q, m, b);
    }
  }

  /** A path splits into a (possibly empty) start and its last edge. */
  lemma ReachLast<T(!new)>(g: Graph<T>, a: T, b: T) returns (m: T)
    requires Reaches(g, a, b)
    ensures (m, b) in g && (m == a || Reaches(g, a, m))
  {
    var p :| PathFromTo(g, p, a, b);
    m := p[|p| - 2];
    assert (p[|p| - 2], p[|p| - 1]) in g;
    if |p| > 2 {
      assert PathFromTo(g, p[..|p| - 1], a, m);
    }
  }

  lemma ReachTarget<T(!new)>(g: Graph<T>, a: T, b: T)
    requires Reaches(g, a, b)
    ensures b in Targets(g)
  {
    var _ := ReachLast(g, a, b);
  }

  lemma ReachMonotone<T(!new)>(g: Graph<T>, h: Graph<T>, a: T, b: T)
    requires g <= h && Reaches(g, a, b)
    ensures Reaches(h, a, b)
  {
    var p :| PathFromTo(g, p, a, b);
    assert PathFromTo(h, p, a, b);
  }

  /** A set holding the successors of a and closed under edges holds all that a reaches. */
  lemma {:induction false} ClosedContainsReachable<T(!new)>(g: Graph<T>, s: set<T>, a: T, b: T)
    requires forall e :: e in g && (e.0 == a || e.0 in s) ==> e.1 in s
    requires Reaches(g, a, b)
    ensures b in s
  {
    var p :| PathFromTo(g, p, a, b);
    var i := 1;
    assert (p[0], p[1]) in g;
    while i < |p| - 1
      invariant 1 <= i <= |p| - 1
      invariant p[i] in s
    {
      assert (p[i], p[i + 1]) in g;
      i := i + 1;
    }
  }

  /** In an acyclic graph the reachable set shrinks strictly along every reachability step. */
  lemma ReachSetShrinks<T(!new)>(g: Graph<T>, a: T, b: T)
    requires Acyclic(g) && Reaches(g, a, b)
    ensures ReachSet(g, b) < ReachSet(g, a) && |ReachSet(g, b)| < |ReachSet(g, a)|
  {
    forall c | c in ReachSet(g, b)
      ensures c in ReachSet(g, a)
    {
      ReachTrans(g, a, b, c);
    }
    ReachTarget(g, a, b);
    assert b in ReachSet(g, a) && b !in ReachSet(g, b);
    SubsetCardinality(ReachSet(g, b), ReachSet(g, a));
  }

  lemma SubsetCardinality<T>(a: set<T>, b: set<T>)
    requires a <= b
    ensures |a| <= |b|
    ensures a < b ==> |a| < |b|
  {
    assert b == a + (b - a);
  }

  ghost predicate HasSuccessorIn<T>(g: Graph<T>, s: set<T>, a: T) {
    exists b :: b in s && (a, b) in g
  }

  ghost predicate HasPredecessorIn<T>(g: Graph<T>, s: set<T>, b: T) {
    exists a :: a in s && (a, b) in g
  }

  /** If every member of a non-empty finite set has a successor in the set, there is a cycle. */
  lemma NoSinkMeansCycle<T(!new)>(g: Graph<T>, s: set<T>)
    requires s != {}
    requires forall a {:trigger HasSuccessorIn(g, s, a)} :: a in s ==> HasSuccessorIn(g, s, a)
    ensures !Acyclic(g)
  {
    if Acyclic(g) {
      var a :| a in s;
      Descend(g, s, a);
    }
  }

  lemma {:induction false} Descend<T(!new)>(g: Graph<T>, s: set<T>, a: T)
    requires Acyclic(g) && a in s
    requires forall a {:trigger HasSuccessorIn(g, s, a)} :: a in s ==> HasSuccessorIn(g, s, a)
    ensures false
    decreases |ReachSet(g, a)|
  {
    assert HasSuccessorIn(g, s, a);
    var b :| b in s && (a, b) in g;
    ReachEdge(g, a, b);
    ReachSetShrinks(g, a, b);
    Descend(g, s, b);
  }

  ghost function Reverse<T(!new)>(g: Graph<T>): (r: Graph<T>)
    ensures forall a, b :: (a, b) in r <==> (b, a) in g
  {
    set e | e in g :: (e.1, e.0)
  }

  lemma ReverseReaches<T(!new)>(g: Graph<T>, a: T, b: T)
    requires Reaches(Reverse(g), a, b)
    ensures Reaches(g, b, a)
  {
    var r := Reverse(g);
    var p :| PathFromTo(r, p, a, b);
    var n := |p|;
    var q := seq(n, i requires 0 <= i < n => p[n - 1 - i]);
    forall i | 0 <= i < n - 1
      ensures (q[i], q[i + 1]) in g
    {
      assert (p[n - 2 - i], p[n - 2 - i + 1]) in r;
    }
    assert PathFromTo(g, q, b, a);
  }

  lemma ReverseSuccessor<T(!new)>(g: Graph<T>, s: set<T>, b: T)
    requires HasPredecessorIn(g, s, b)
    ensures HasSuccessorIn(Reverse(g), s, b)
  {
  }

  /** The same towards the sources: a predecessor in the set for every member gives a cycle. */
  lemma NoSourceMeansCycle<T(!new)>(g: Graph<T>, s: set<T>)
    requires s != {}
    requires forall b {:trigger HasPredecessorIn(g, s, b)} :: b in s ==> HasPredecessorIn(g, s, b)
    ensures !Acyclic(g)
  {
    var r := Reverse(g);
    forall b | b in s
      ensures HasSuccessorIn(r, s, b)
    {
      assert HasPredecessorIn(g, s, b);
      ReverseSuccessor(g, s, b);
    }
    NoSinkMeansCycle(r, s);
    var c :| Reaches(r, c, c);
    ReverseReaches(g, c, c);
  }

  /** An order that lists each edge's ends in a fixed direction rules cycles out. */
  lemma RankedIsAcyclic<T(!new)>(g: Graph<T>, rank: T -> int)
    requires forall e :: e in g ==> rank(e.1) < rank(e.0)
    ensures Acyclic(g)
  {
    forall a | Reaches(g, a, a)
      ensures false
    {
      var p :| PathFromTo(g, p, a, a);
      var i := 1;
      assert (p[0], p[1]) in g;
      while i < |p| - 1
        invariant 1 <= i <= |p| - 1
        invariant rank(p[i]) < rank(a)
      {
        assert (p[i], p[i + 1]) in g;
        i := i + 1;
      }
    }
  }
}
