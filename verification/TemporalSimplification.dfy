/** Simplifying temporal formulas (src/compiler/passes/temporal_simplification.cpp). */
module TemporalSimplification {

  datatype UnaryOp = Always | Eventually | Next | Not
  datatype BinaryOp = Implies | Or | And | Until

  /** Atoms are numbered; what they say is given by the trace. */
  datatype Formula =
    | Atom(id: nat)
    | Unary(op: UnaryOp, operand: Formula)
    | Binary(bop: BinaryOp, lhs: Formula, rhs: Formula)

  // -------------------------------------------------------------------------- truth

  /** Which atoms are true at each position of an infinite trace. */
  type Trace = (nat, nat) -> bool

  ghost predicate Truth(f: Formula, t: Trace, i: nat)
    decreases f, 0
  {
    match f
    case Atom(id) => t(i, id)
    case Unary(Always, g) => HoldsFrom(g, t, i)
    case Unary(Eventually, g) => HoldsSometime(g, t, i)
    case Unary(Next, g) => Truth(g, t, i + 1)
    case Unary(Not, g) => !Truth(g, t, i)
    case Binary(Implies, g, h) => Truth(g, t, i) ==> Truth(h, t, i)
    case Binary(Or, g, h) => Truth(g, t, i) || Truth(h, t, i)
    case Binary(And, g, h) => Truth(g, t, i) && Truth(h, t, i)
    case Binary(Until, g, h) => exists j: nat :: j >= i && Truth(h, t, j) && HoldsFromTo(g, t, i, j)
  }

  ghost predicate HoldsFrom(g: Formula, t: Trace, i: nat)
    decreases g, 1
  {
    forall j: nat :: j >= i ==> Truth(g, t, j)
  }

  ghost predicate HoldsSometime(g: Formula, t: Trace, i: nat)
    decreases g, 1
  {
    exists j: nat :: j >= i && Truth(g, t, j)
  }

  ghost predicate HoldsFromTo(g: Formula, t: Trace, i: nat, j: nat)
    decreases g, 1
  {
    forall k: nat :: i <= k < j ==> Truth(g, t, k)
  }

  // -------------------------------------------------------------------- the rewriting

  predicate Collapses(op: UnaryOp, operand: Formula) {
    operand.Unary? && operand.op == op && op != Next
  }

  /** One rewriting step at the root, once the operand is done. */
  function Step(op: UnaryOp, operand: Formula): Formula {
    if !Collapses(op, operand) then Unary(op, operand)
    else if op == Not then operand.operand
    else Unary(op, operand.operand)
  }

  function Simplified(f: Formula): Formula {
    match f
    case Atom(_) => f
    case Unary(op, g) => Step(op, Simplified(g))
    case Binary(op, g, h) => Binary(op, Simplified(g), Simplified(h))
  }

  /** What the source keeps on the heap: each node owns its operands. */
  datatype Node =
    | AtomNode(id: nat)
    | UnaryNode(op: UnaryOp, operand: TemporalExpr)
    | BinaryNode(bop: BinaryOp, lhs: TemporalExpr, rhs: TemporalExpr)

  class TemporalExpr {
    var node: Node
    ghost var repr: set<TemporalExpr>

    ghost predicate Valid()
      reads this, repr
      decreases repr
    {
      && this in repr
      && match node
         case AtomNode(_) => true
         case UnaryNode(_, g) => Owns(g) && g.Valid()
         case BinaryNode(_, g, h) => Owns(g) && Owns(h) && g.repr !! h.repr && g.Valid() && h.Valid()
    }

    ghost predicate Owns(g: TemporalExpr)
      reads this, repr
    {
      g in repr && g.repr <= repr && this !in g.repr
    }

    ghost function Value(): Formula
      requires Valid()
      reads this, repr
      decreases repr
    {
      match node
      case AtomNode(id) => Atom(id)
      case UnaryNode(op, g) => Unary(op, g.Value())
      case BinaryNode(op, g, h) => Binary(op, g.Value(), h.Value())
    }
  }

  /** The rewriting at the root of a tree whose operand is done. */
  method CollapseRoot(e: TemporalExpr) returns (r: TemporalExpr, modified: bool)
    requires e.Valid() && e.node.UnaryNode?
    modifies e
    ensures r.Valid() && r in old(e.repr) && r.repr <= old(e.repr)
    ensures r.Value() == Step(old(e.node.op), old(e.node.operand.Value()))
    ensures modified <==> Collapses(old(e.node.op), old(e.node.operand.Value()))
  {
    var op, operand := e.node.op, e.node.operand;
    if (op == Always || op == Eventually) && operand.node.UnaryNode? && operand.node.op == op {
      var inner := operand.node.operand;
      assert inner.Valid() && inner in inner.repr;
      e.node := UnaryNode(op, inner);
      e.repr := {e} + inner.repr;
      return e, true;
    }
    if op == Not && operand.node.UnaryNode? && operand.node.op == Not {
      return operand.node.operand, true;
    }
    return e, false;
  }

  /** Rewrites the tree in place, bottom up. The owner of `e` has to take `r` in its stead. */
  method SimplifyTemporal(e: TemporalExpr) returns (r: TemporalExpr, modified: bool)
    requires e.Valid()
    modifies e.repr
    ensures r.Valid() && r in old(e.repr) && r.repr <= old(e.repr)
    ensures r.Value() == Simplified(old(e.Value()))
    ensures modified <==> Simplified(old(e.Value())) != old(e.Value())
    decreases e.repr, 1
  {
    match e.node
    case AtomNode(_) => r, modified := e, false;
    case UnaryNode(_, _) => r, modified := SimplifyUnary(e);
    case BinaryNode(_, _, _) => r, modified := SimplifyBinary(e);
  }

  method SimplifyUnary(e: TemporalExpr) returns (r: TemporalExpr, modified: bool)
    requires e.Valid() && e.node.UnaryNode?
    modifies e.repr
    ensures r.Valid() && r in old(e.repr) && r.repr <= old(e.repr)
    ensures r.Value() == Simplified(old(e.Value()))
    ensures modified <==> Simplified(old(e.Value())) != old(e.Value())
    decreases e.repr, 0
  {
    ghost var before := e.Value();
    var op := e.node.op;
    var g, m := SimplifyTemporal(e.node.operand);
    e.node := UnaryNode(op, g);
    e.repr := {e} + g.repr;
    r, modified := CollapseRoot(e);
    modified := modified || m;
    UnaryChanges(op, before.operand);
  }

  method SimplifyBinary(e: TemporalExpr) returns (r: TemporalExpr, modified: bool)
    requires e.Valid() && e.node.BinaryNode?
    modifies e.repr
    ensures r.Valid() && r in old(e.repr) && r.repr <= old(e.repr)
    ensures r.Value() == Simplified(old(e.Value()))
    ensures modified <==> Simplified(old(e.Value())) != old(e.Value())
    decreases e.repr, 0
  {
    var op, rhs := e.node.bop, e.node.rhs;
    var g, m := SimplifyTemporal(e.node.lhs);
    var h, n := SimplifyTemporal(rhs);
    SetOperands(e, op, g, h);
    return e, m || n;
  }

  method SetOperands(e: TemporalExpr, op: BinaryOp, g: TemporalExpr, h: TemporalExpr)
    requires g.Valid() && h.Valid() && g.repr !! h.repr && e !in g.repr && e !in h.repr
    modifies e
    ensures e.Valid() && e.repr == {e} + g.repr + h.repr
    ensures e.Value() == Binary(op, old(g.Value()), old(h.Value()))
  {
    e.node := BinaryNode(op, g, h);
    e.repr := {e} + g.repr + h.repr;
  }

  // ----------------------------------------------------------------------- properties

  function Size(f: Formula): nat {
    match f
    case Atom(_) => 1
    case Unary(_, g) => 1 + Size(g)
    case Binary(_, g, h) => 1 + Size(g) + Size(h)
  }

  lemma {:induction false} SimplifiedIsNoLarger(f: Formula)
    ensures Size(Simplified(f)) <= Size(f)
  {
    match f
    case Atom(_) =>
    case Unary(_, g) => SimplifiedIsNoLarger(g);
    case Binary(_, g, h) =>
      SimplifiedIsNoLarger(g);
      SimplifiedIsNoLarger(h);
  }

  lemma UnaryChanges(op: UnaryOp, g: Formula)
    ensures Step(op, Simplified(g)) == Unary(op, g) <==> Simplified(g) == g && !Collapses(op, g)
  {
    SimplifiedIsNoLarger(g);
  }

  lemma {:induction false} WhenItHolds(g: Formula, t: Trace, i: nat) returns (j: nat)
    requires HoldsSometime(g, t, i)
    ensures j >= i && Truth(g, t, j)
  {
    j :| j >= i && Truth(g, t, j);
  }

  lemma {:induction false} StepKeepsTruth(op: UnaryOp, g: Formula, t: Trace, i: nat)
    ensures Truth(Step(op, g), t, i) <==> Truth(Unary(op, g), t, i)
  {
    if Collapses(op, g) && op == Always {
      forall j: nat
        ensures Truth(g, t, j) <==> HoldsFrom(g.operand, t, j)
      {
      }
      assert HoldsFrom(g, t, i) ==> Truth(g, t, i);
      assert HoldsFrom(g.operand, t, i) ==> forall j: nat :: j >= i ==> HoldsFrom(g.operand, t, j);
      assert HoldsFrom(g.operand, t, i) ==> HoldsFrom(g, t, i);
    } else if Collapses(op, g) && op == Eventually {
      forall j: nat
        ensures Truth(g, t, j) <==> HoldsSometime(g.operand, t, j)
      {
      }
      assert Truth(g, t, i) ==> HoldsSometime(g, t, i);
      if HoldsSometime(g, t, i) {
        var j := WhenItHolds(g, t, i);
        var k := WhenItHolds(g.operand, t, j);
      }
    }
  }

  /** Main result: simplifying changes the truth of a formula at no position of any trace. */
  lemma {:induction false} SimplifyingKeepsTruth(f: Formula, t: Trace, i: nat)
    ensures Truth(Simplified(f), t, i) <==> Truth(f, t, i)
    decreases f
  {
    match f
    case Atom(_) =>
    case Unary(op, g) =>
      forall j: nat
        ensures Truth(Simplified(g), t, j) <==> Truth(g, t, j)
      {
        SimplifyingKeepsTruth(g, t, j);
      }
      assert HoldsFrom(Simplified(g), t, i) <==> HoldsFrom(g, t, i);
      assert HoldsSometime(Simplified(g), t, i) <==> HoldsSometime(g, t, i);
      StepKeepsTruth(op, Simplified(g), t, i);
    case Binary(op, g, h) =>
      forall j: nat
        ensures Truth(Simplified(g), t, j) <==> Truth(g, t, j)
        ensures Truth(Simplified(h), t, j) <==> Truth(h, t, j)
      {
        SimplifyingKeepsTruth(g, t, j);
        SimplifyingKeepsTruth(h, t, j);
      }
      if op == Until {
        forall j: nat
          ensures HoldsFromTo(Simplified(g), t, i, j) <==> HoldsFromTo(g, t, i, j)
        {
        }
      }
  }

  // ------------------------------------------------------------------------ the laws

  /** Always and eventually absorb themselves and two negations cancel; next does neither. */
  lemma CollapsingLaws(f: Formula)
    ensures Simplified(Unary(Always, Unary(Always, f))) == Simplified(Unary(Always, f))
    ensures Simplified(Unary(Eventually, Unary(Eventually, f))) == Simplified(Unary(Eventually, f))
    ensures Simplified(Unary(Not, Unary(Not, f))) == Simplified(f)
    ensures Simplified(Unary(Next, f)) == Unary(Next, Simplified(f))
  {
    SimplifiedIsNormal(f);
    assert Simplified(Unary(Always, f)) == Step(Always, Simplified(f));
    assert Simplified(Unary(Eventually, f)) == Step(Eventually, Simplified(f));
    assert Simplified(Unary(Not, f)) == Step(Not, Simplified(f));
  }

  /** Nothing else is rewritten, but operands everywhere. */
  lemma OperandsAreRewritten(op: UnaryOp, bop: BinaryOp, f: Formula, g: Formula, id: nat)
    ensures Simplified(Atom(id)) == Atom(id)
    ensures (forall h :: Simplified(f) != Unary(op, h)) ==> Simplified(Unary(op, f)) == Unary(op, Simplified(f))
    ensures Simplified(Binary(bop, f, g)) == Binary(bop, Simplified(f), Simplified(g))
  {
    if Simplified(f).Unary? && Simplified(f).op == op {
      assert Simplified(f) == Unary(op, Simplified(f).operand);
    }
  }

  /** No doubled always, eventually or not anywhere. */
  predicate Normal(f: Formula) {
    match f
    case Atom(_) => true
    case Unary(op, g) => Normal(g) && !Collapses(op, g)
    case Binary(_, g, h) => Normal(g) && Normal(h)
  }

  lemma {:induction false} SimplifiedIsNormal(f: Formula)
    ensures Normal(Simplified(f))
  {
    match f
    case Atom(_) =>
    case Unary(_, g) => SimplifiedIsNormal(g);
    case Binary(_, g, h) =>
      SimplifiedIsNormal(g);
      SimplifiedIsNormal(h);
  }

  lemma {:induction false} OnlyNormalFormsStay(f: Formula)
    ensures Simplified(f) == f <==> Normal(f)
  {
    match f
    case Atom(_) =>
    case Unary(_, g) =>
      OnlyNormalFormsStay(g);
      SimplifiedIsNoLarger(g);
    case Binary(_, g, h) =>
      OnlyNormalFormsStay(g);
      OnlyNormalFormsStay(h);
  }

  /** So one bottom-up run is enough: a second finds nothing. */
  lemma SecondRunChangesNothing(f: Formula)
    ensures Simplified(Simplified(f)) == Simplified(f)
  {
    SimplifiedIsNormal(f);
    OnlyNormalFormsStay(Simplified(f));
  }
}
