/** Canonical boolean expressions in contracts (src/compiler/passes/expr_canonicalization.cpp),
    against the evaluator (src/runtime/evaluator/evaluator.cpp). */
module ExprCanonicalization {
  import opened Wrappers

  datatype UnaryOp = Not | Negate | Positive

  /** OtherOp stands for the comparisons, the arithmetic and the implication. */
  datatype BinaryOp = And | Or | OtherOp(id: nat)

  /** Leaf stands for all that the pass does not look into: paths, calls, literals but booleans. */
  datatype Expr =
    | BoolLiteral(value: bool)
    | Unary(op: UnaryOp, operand: Expr)
    | Binary(bop: BinaryOp, lhs: Expr, rhs: Expr)
    | Leaf(id: nat)

  // --------------------------------------------------------------------- evaluation

  datatype Value = VBool(b: bool) | VOther(id: nat)

  /** What leaves and the operators left open come to; None is a failed evaluation. */
  datatype Meaning = Meaning(leaf: nat -> Option<Value>,
                             unary: (UnaryOp, Value) -> Option<Value>,
                             binary: (nat, Value, Value) -> Option<Value>)

  function ApplyUnary(op: UnaryOp, v: Value, m: Meaning): Option<Value> {
    if op != Not then m.unary(op, v)
    else if v.VBool? then Some(VBool(!v.b))
    else None
  }

  function ApplyBinary(op: BinaryOp, a: Value, b: Value, m: Meaning): Option<Value> {
    if op.OtherOp? then m.binary(op.id, a, b)
    else if !a.VBool? || !b.VBool? then None
    else Some(VBool(if op == And then a.b && b.b else a.b || b.b))
  }

  /** Both operands are evaluated, whatever the first comes to. */
  function Eval(e: Expr, m: Meaning): Option<Value> {
    match e
    case BoolLiteral(b) => Some(VBool(b))
    case Leaf(id) => m.leaf(id)
    case Unary(op, x) => var v := Eval(x, m); if v.None? then None else ApplyUnary(op, v.value, m)
    case Binary(op, x, y) =>
      var a, b := Eval(x, m), Eval(y, m);
      if a.None? || b.None? then None else ApplyBinary(op, a.value, b.value, m)
  }

  // -------------------------------------------------------------------- the rewriting

  /** The two literals that decide an operator: the one it ignores, the other one it yields. */
  predicate HasLiteralOperand(op: BinaryOp, x: Expr, y: Expr) {
    !op.OtherOp? && (x.BoolLiteral? || y.BoolLiteral?)
  }

  predicate IsDoubleNot(op: UnaryOp, x: Expr) {
    op == Not && x.Unary? && x.op == Not
  }

  /** One step at the root of a binary expression whose operands are done. */
  function FoldBinary(op: BinaryOp, x: Expr, y: Expr): Expr {
    if !HasLiteralOperand(op, x, y) then Binary(op, x, y)
    else
      var neutral := BoolLiteral(op == And);
      if x == neutral then y
      else if y == neutral then x
      else if x.BoolLiteral? then x
      else y
  }

  function FoldUnary(op: UnaryOp, x: Expr): Expr {
    if IsDoubleNot(op, x) then x.operand else Unary(op, x)
  }

  function Canonical(e: Expr): Expr {
    match e
    case Unary(op, x) => FoldUnary(op, Canonical(x))
    case Binary(op, x, y) => FoldBinary(op, Canonical(x), Canonical(y))
    case _ => e
  }

  /** What the source keeps on the heap: each node owns its operands. */
  datatype Node =
    | BoolNode(value: bool)
    | LeafNode(id: nat)
    | UnaryNode(op: UnaryOp, operand: ExprTree)
    | BinaryNode(bop: BinaryOp, lhs: ExprTree, rhs: ExprTree)

  class ExprTree {
    var node: Node
    ghost var repr: set<ExprTree>

    ghost predicate Valid()
      reads this, repr
      decreases repr
    {
      && this in repr
      && match node
         case UnaryNode(_, x) => Owns(x) && x.Valid()
         case BinaryNode(_, x, y) => Owns(x) && Owns(y) && x.repr !! y.repr && x.Valid() && y.Valid()
         case _ => true
    }

    ghost predicate Owns(x: ExprTree)
      reads this, repr
    {
      x in repr && x.repr <= repr && this !in x.repr
    }

    ghost function Value(): Expr
      requires Valid()
      reads this, repr
      decreases repr
    {
      match node
      case BoolNode(b) => BoolLiteral(b)
      case LeafNode(id) => Leaf(id)
      case UnaryNode(op, x) => Unary(op, x.Value())
      case BinaryNode(op, x, y) => Binary(op, x.Value(), y.Value())
    }

    predicate IsBoolLiteral(b: bool)
      reads this
    {
      node == BoolNode(b)
    }
  }

  /** Folding at the root of a conjunction or disjunction whose operands are done. */
  method FoldRoot(e: ExprTree) returns (r: ExprTree, modified: bool)
    requires e.Valid() && e.node.BinaryNode?
    ensures r.Valid() && r in e.repr && r.repr <= e.repr
    ensures r.Value() == FoldBinary(e.node.bop, e.node.lhs.Value(), e.node.rhs.Value())
    ensures modified <==> HasLiteralOperand(e.node.bop, e.node.lhs.Value(), e.node.rhs.Value())
  {
    var lhs, rhs := e.node.lhs, e.node.rhs;
    if e.node.bop == And {
      if lhs.IsBoolLiteral(true) { return rhs, true; }
      if rhs.IsBoolLiteral(true) { return lhs, true; }
      if lhs.IsBoolLiteral(false) { return lhs, true; }
      if rhs.IsBoolLiteral(false) { return rhs, true; }
    } else if e.node.bop == Or {
      if lhs.IsBoolLiteral(false) { return rhs, true; }
      if rhs.IsBoolLiteral(false) { return lhs, true; }
      if lhs.IsBoolLiteral(true) { return lhs, true; }
      if rhs.IsBoolLiteral(true) { return rhs, true; }
    }
    return e, false;
  }

  method Rebuild(e: ExprTree, op: BinaryOp, x: ExprTree, y: ExprTree) returns (r: ExprTree, modified: bool)
    requires x.Valid() && y.Valid() && x.repr !! y.repr && e !in x.repr + y.repr
    modifies e
    ensures r.Valid() && r in {e} + x.repr + y.repr && r.repr <= {e} + x.repr + y.repr
    ensures r.Value() == FoldBinary(op, old(x.Value()), old(y.Value()))
    ensures modified <==> HasLiteralOperand(op, old(x.Value()), old(y.Value()))
  {
    e.node := BinaryNode(op, x, y);
    e.repr := {e} + x.repr + y.repr;
    r, modified := FoldRoot(e);
  }

  /** Rewrites the tree in place, bottom up. The owner of `e` has to take `r` in its stead. */
  method CanonicalizeExpr(e: ExprTree) returns (r: ExprTree, modified: bool)
    requires e.Valid()
    modifies e.repr
    ensures r.Valid() && r in old(e.repr) && r.repr <= old(e.repr)
    ensures r.Value() == Canonical(old(e.Value()))
    ensures modified <==> Canonical(old(e.Value())) != old(e.Value())
    decreases e.repr, 1
  {
    match e.node
    case UnaryNode(_, _) => r, modified := CanonicalizeUnary(e);
    case BinaryNode(_, _, _) => r, modified := CanonicalizeBinary(e);
    case _ => r, modified := e, false;
  }

  method CanonicalizeUnary(e: ExprTree) returns (r: ExprTree, modified: bool)
    requires e.Valid() && e.node.UnaryNode?
    modifies e.repr
    ensures r.Valid() && r in old(e.repr) && r.repr <= old(e.repr)
    ensures r.Value() == Canonical(old(e.Value()))
    ensures modified <==> Canonical(old(e.Value())) != old(e.Value())
    decreases e.repr, 0
  {
    ghost var before := e.Value();
    var op := e.node.op;
    var x, m := CanonicalizeExpr(e.node.operand);
    e.node := UnaryNode(op, x);
    e.repr := {e} + x.repr;
    UnaryChanges(op, before.operand);
    if op == Not && x.node.UnaryNode? && x.node.op == Not {
      return x.node.operand, true;
    }
    return e, m;
  }

  method CanonicalizeBinary(e: ExprTree) returns (r: ExprTree, modified: bool)
    requires e.Valid() && e.node.BinaryNode?
    modifies e.repr
    ensures r.Valid() && r in old(e.repr) && r.repr <= old(e.repr)
    ensures r.Value() == Canonical(old(e.Value()))
    ensures modified <==> Canonical(old(e.Value())) != old(e.Value())
    decreases e.repr, 0
  {
    hide FoldBinary, HasLiteralOperand;
    ghost var before := e.Value();
    var op, rhs := e.node.bop, e.node.rhs;
    var x, m := CanonicalizeExpr(e.node.lhs);
    var y, n := CanonicalizeExpr(rhs);
    r, modified := Rebuild(e, op, x, y);
    modified := modified || m || n;
    BinaryChanges(op, before.lhs, before.rhs);
  }

  // ----------------------------------------------------------------------- properties

  function Size(e: Expr): nat {
    match e
    case Unary(_, x) => 1 + Size(x)
    case Binary(_, x, y) => 1 + Size(x) + Size(y)
    case _ => 1
  }

  lemma {:induction false} CanonicalIsNoLarger(e: Expr)
    ensures Size(Canonical(e)) <= Size(e)
  {
    match e
    case Unary(_, x) => CanonicalIsNoLarger(x);
    case Binary(_, x, y) =>
      CanonicalIsNoLarger(x);
      CanonicalIsNoLarger(y);
    case _ =>
  }

  lemma UnaryChanges(op: UnaryOp, x: Expr)
    ensures FoldUnary(op, Canonical(x)) == Unary(op, x) <==> Canonical(x) == x && !IsDoubleNot(op, x)
  {
    CanonicalIsNoLarger(x);
  }

  lemma BinaryChanges(op: BinaryOp, x: Expr, y: Expr)
    ensures FoldBinary(op, Canonical(x), Canonical(y)) == Binary(op, x, y)
      <==> Canonical(x) == x && Canonical(y) == y && !HasLiteralOperand(op, x, y)
  {
    CanonicalIsNoLarger(x);
    CanonicalIsNoLarger(y);
  }

  /** Main result: an expression that evaluates at all evaluates to the same in canonical form. */
  lemma {:induction false} CanonicalKeepsValue(e: Expr, m: Meaning)
    requires Eval(e, m).Some?
    ensures Eval(Canonical(e), m) == Eval(e, m)
  {
    match e
    case Unary(op, x) =>
      CanonicalKeepsValue(x, m);
      if IsDoubleNot(op, Canonical(x)) {
        assert Eval(Canonical(x), m) == Some(VBool(!Eval(Canonical(x).operand, m).value.b));
      }
    case Binary(op, x, y) =>
      CanonicalKeepsValue(x, m);
      CanonicalKeepsValue(y, m);
    case _ =>
  }

  // ------------------------------------------------------------------ failures kept

  /** An expression has to evaluate, perhaps to a boolean. */
  datatype Demand = Demand(e: Expr, asBool: bool)

  ghost predicate Meets(d: Demand, m: Meaning) {
    Eval(d.e, m).Some? && (d.asBool ==> Eval(d.e, m).value.VBool?)
  }

  ghost predicate AllMet(ds: set<Demand>, m: Meaning) {
    forall d :: d in ds ==> Meets(d, m)
  }

  /** What has to evaluate for an expression to do so: its leaves, and its operators left open on operands in
      canonical form; those that a connective looks at, to booleans. */
  ghost function Demands(e: Expr, asBool: bool): set<Demand> {
    match e
    case BoolLiteral(_) => {}
    case Leaf(_) => {Demand(e, asBool)}
    case Unary(op, x) =>
      if op == Not then Demands(x, true)
      else Demands(x, false) + {Demand(Unary(op, Canonical(x)), asBool)}
    case Binary(op, x, y) =>
      if !op.OtherOp? then Demands(x, true) + Demands(y, true)
      else Demands(x, false) + Demands(y, false) + {Demand(Binary(op, Canonical(x), Canonical(y)), asBool)}
  }

  lemma {:induction false} DemandsDecide(e: Expr, asBool: bool, m: Meaning)
    ensures Meets(Demand(e, asBool), m) <==> AllMet(Demands(e, asBool), m)
  {
    match e
    case BoolLiteral(_) =>
    case Leaf(_) =>
    case Unary(op, x) =>
      DemandsDecide(x, op == Not, m);
      if Eval(x, m).Some? {
        CanonicalKeepsValue(x, m);
      }
      UnaryMet(op, x, asBool, m);
    case Binary(op, x, y) =>
      DemandsDecide(x, !op.OtherOp?, m);
      DemandsDecide(y, !op.OtherOp?, m);
      if Eval(x, m).Some? && Eval(y, m).Some? {
        CanonicalKeepsValue(x, m);
        CanonicalKeepsValue(y, m);
      }
      BinaryMet(op, x, y, asBool, m);
  }

  lemma UnaryMet(op: UnaryOp, x: Expr, asBool: bool, m: Meaning)
    ensures AllMet(Demands(Unary(op, x), asBool), m)
      <==> AllMet(Demands(x, op == Not), m) && (op == Not || Meets(Demand(Unary(op, Canonical(x)), asBool), m))
  {
    hide Meets;
  }

  lemma BinaryMet(op: BinaryOp, x: Expr, y: Expr, asBool: bool, m: Meaning)
    ensures AllMet(Demands(Binary(op, x, y), asBool), m)
      <==> && AllMet(Demands(x, !op.OtherOp?), m) && AllMet(Demands(y, !op.OtherOp?), m)
           && (op.OtherOp? ==> Meets(Demand(Binary(op, Canonical(x), Canonical(y)), asBool), m))
  {
    hide Meets;
  }

  /** What the canonical form no longer asks for. */
  ghost predicate Dropped(e: Expr, d: Demand) {
    && d in Demands(e, false)
    && d !in Demands(Canonical(e), false) && Demand(d.e, true) !in Demands(Canonical(e), false)
  }

  /** Main result: the canonical form comes to something else exactly under the meanings that meet all its
      demands and not one that was dropped. */
  lemma FailureIsHiddenExactlyWhen(e: Expr, m: Meaning)
    ensures Eval(Canonical(e), m) != Eval(e, m)
      <==> AllMet(Demands(Canonical(e), false), m) && exists d :: Dropped(e, d) && !Meets(d, m)
  {
    DemandsDecide(e, false, m);
    DemandsDecide(Canonical(e), false, m);
    if Eval(e, m).Some? {
      CanonicalKeepsValue(e, m);
    }
    if AllMet(Demands(Canonical(e), false), m) && !AllMet(Demands(e, false), m) {
      var d :| d in Demands(e, false) && !Meets(d, m);
      assert Meets(Demand(d.e, true), m) ==> Meets(d, m);
      assert Dropped(e, d);
    }
  }

  /** All evaluates to true but one leaf, which fails or is not boolean. */
  ghost function Spoilt(id: nat, fails: bool): Meaning {
    Meaning(l => if l != id then Some(VBool(true)) else if fails then None else Some(VOther(0)),
            (op, v) => Some(VBool(true)),
            (i, a, b) => Some(VBool(true)))
  }

  lemma {:induction false} SpoiltElsewhere(e: Expr, asBool: bool, id: nat, fails: bool)
    requires Demand(Leaf(id), true) !in Demands(e, asBool)
    requires fails ==> Demand(Leaf(id), false) !in Demands(e, asBool)
    ensures Meets(Demand(e, asBool), Spoilt(id, fails))
  {
    match e
    case BoolLiteral(_) =>
    case Leaf(_) =>
    case Unary(op, x) => SpoiltElsewhere(x, op == Not, id, fails);
    case Binary(op, x, y) =>
      SpoiltElsewhere(x, !op.OtherOp?, id, fails);
      SpoiltElsewhere(y, !op.OtherOp?, id, fails);
  }

  /** A failing evaluation may succeed in canonical form: whenever a demand on a leaf was dropped, since a
      literal hides an operand that fails, and two negations hide a value that is not boolean. */
  lemma CanonicalMayHideFailures(e: Expr, d: Demand) returns (m: Meaning)
    requires Dropped(e, d) && d.e.Leaf?
    ensures Eval(e, m).None? && Eval(Canonical(e), m).Some?
  {
    var fails := Demand(d.e, false) !in Demands(Canonical(e), false);
    m := Spoilt(d.e.id, fails);
    SpoiltElsewhere(Canonical(e), false, d.e.id, fails);
    DemandsDecide(e, false, m);
  }

  /** Main result: so where an operator is dropped only together with a leaf, evaluation is the same under
      every meaning exactly when nothing is dropped. */
  lemma FailuresKeptExactly(e: Expr)
    requires (exists d :: Dropped(e, d)) ==> exists d :: Dropped(e, d) && d.e.Leaf?
    ensures (forall m: Meaning :: Eval(Canonical(e), m) == Eval(e, m)) <==> forall d :: !Dropped(e, d)
  {
    if d :| Dropped(e, d) {
      var l :| Dropped(e, l) && l.e.Leaf?;
      var m := CanonicalMayHideFailures(e, l);
      assert Eval(Canonical(e), m) != Eval(e, m);
    } else {
      forall m: Meaning
        ensures Eval(Canonical(e), m) == Eval(e, m)
      {
        FailureIsHiddenExactlyWhen(e, m);
      }
    }
  }

  /** The operator `op` on the operand x is hidden, on true and besides a leaf it is not. */
  function HidesOn(op: UnaryOp, i: nat, leaf: Expr, x: Expr): Expr {
    var kept := Binary(And, Unary(Not, Unary(op, BoolLiteral(true))), Unary(Not, leaf));
    Binary(OtherOp(i), kept, Binary(Or, BoolLiteral(true), Unary(op, x)))
  }

  lemma HiddenOperator(op: UnaryOp, i: nat, leaf: Expr, x: Expr)
    requires op != Not && leaf.Leaf? && Canonical(x) == x && x != BoolLiteral(true)
    ensures Dropped(HidesOn(op, i, leaf, x), Demand(Unary(op, x), true))
    ensures Canonical(HidesOn(op, i, leaf, x)) == HidesOn(op, i, leaf, x).(rhs := BoolLiteral(true))
  {
    var kept := HidesOn(op, i, leaf, x).lhs;
    var or := HidesOn(op, i, leaf, x).rhs;
    assert Canonical(kept.lhs) == kept.lhs && Canonical(kept.rhs) == kept.rhs && Canonical(kept) == kept;
    assert Canonical(or) == BoolLiteral(true);
    assert Demands(kept, true) == {Demand(Unary(op, BoolLiteral(true)), true), Demand(leaf, true)} by {
      assert Demands(kept.lhs, true) == {Demand(Unary(op, BoolLiteral(true)), true)};
      assert Demands(kept.rhs, true) == {Demand(leaf, true)};
    }
    assert Demand(Unary(op, x), true) in Demands(or.rhs, true);
  }

  /** An operator that was dropped alone decides nothing: on a tautology it evaluates because it does on true,
      and no failure is hidden; on the leaf itself one may be. */
  lemma DroppedOperators(op: UnaryOp, i: nat, id: nat)
    requires op != Not
    ensures var e := HidesOn(op, i, Leaf(id), Binary(Or, Leaf(id), Unary(Not, Leaf(id))));
      (exists d :: Dropped(e, d)) && forall m :: Eval(Canonical(e), m) == Eval(e, m)
    ensures var e := HidesOn(op, i, Leaf(id), Leaf(id));
      (exists d :: Dropped(e, d)) && exists m :: Eval(Canonical(e), m) != Eval(e, m)
  {
    var x := Binary(Or, Leaf(id), Unary(Not, Leaf(id)));
    assert Canonical(x.rhs) == x.rhs;
    HiddenOperator(op, i, Leaf(id), x);
    forall m
      ensures Eval(Canonical(HidesOn(op, i, Leaf(id), x)), m) == Eval(HidesOn(op, i, Leaf(id), x), m)
    {
      TautologyHidesNothing(op, i, id, m);
    }
    HiddenOperator(op, i, Leaf(id), Leaf(id));
    OnlyOnTrue(op, i, id);
    var e := HidesOn(op, i, Leaf(id), Leaf(id));
    assert Eval(Canonical(e), OnTrueOnly()) != Eval(e, OnTrueOnly());
  }

  lemma TautologyHidesNothing(op: UnaryOp, i: nat, id: nat, m: Meaning)
    requires op != Not
    ensures var e := HidesOn(op, i, Leaf(id), Binary(Or, Leaf(id), Unary(Not, Leaf(id))));
      Eval(e.(rhs := BoolLiteral(true)), m) == Eval(e, m)
  {
    var e := HidesOn(op, i, Leaf(id), Binary(Or, Leaf(id), Unary(Not, Leaf(id))));
    var t := Unary(op, BoolLiteral(true));
    if Eval(e.lhs, m).Some? {
      assert Eval(e.lhs.lhs, m).Some? && Eval(e.lhs.rhs, m).Some?;
      assert Eval(Leaf(id), m).Some? && Eval(Leaf(id), m).value.VBool?;
      assert Eval(e.rhs.rhs.operand, m) == Some(VBool(true));
      assert Eval(e.rhs.rhs, m) == Eval(t, m);
      assert Eval(t, m).Some? && Eval(t, m).value.VBool?;
      assert Eval(e.rhs, m) == Some(VBool(true));
    }
  }

  /** The operator evaluates on true, to true, and on nothing else; leaves are false. */
  ghost function OnTrueOnly(): Meaning {
    Meaning(l => Some(VBool(false)), (o, v) => if v == VBool(true) then Some(v) else None, (i, a, b) => Some(a))
  }

  lemma OnlyOnTrue(op: UnaryOp, i: nat, id: nat)
    requires op != Not
    ensures var e := HidesOn(op, i, Leaf(id), Leaf(id));
      Eval(e.(rhs := BoolLiteral(true)), OnTrueOnly()) != Eval(e, OnTrueOnly())
  {
    var e := HidesOn(op, i, Leaf(id), Leaf(id));
    var m := OnTrueOnly();
    assert Eval(e.rhs.rhs, m) == None;
    assert Eval(e.lhs.lhs.operand, m) == Some(VBool(true));
    assert Eval(e.lhs.lhs, m) == Some(VBool(false)) && Eval(e.lhs.rhs, m) == Some(VBool(true));
  }

  // ------------------------------------------------------------------------ the laws

  /** The neutral literal is dropped from either side, the other one absorbs the operand on either side, and two
      negations cancel. */
  lemma FoldingLaws(x: Expr)
    ensures var t, f := BoolLiteral(true), BoolLiteral(false);
      && Canonical(Binary(And, t, x)) == Canonical(Binary(And, x, t)) == Canonical(x)
      && Canonical(Binary(And, f, x)) == Canonical(Binary(And, x, f)) == f
      && Canonical(Binary(Or, f, x)) == Canonical(Binary(Or, x, f)) == Canonical(x)
      && Canonical(Binary(Or, t, x)) == Canonical(Binary(Or, x, t)) == t
    ensures Canonical(Unary(Not, Unary(Not, x))) == Canonical(x)
  {
    CanonicalIsNormal(x);
    assert Canonical(Unary(Not, x)) == FoldUnary(Not, Canonical(x));
  }

  /** Nothing else is rewritten, but operands everywhere. */
  lemma OperandsAreRewritten(x: Expr, y: Expr, id: nat, b: bool)
    ensures Canonical(Leaf(id)) == Leaf(id) && Canonical(BoolLiteral(b)) == BoolLiteral(b)
    ensures Canonical(Unary(Negate, x)) == Unary(Negate, Canonical(x))
    ensures Canonical(Unary(Positive, x)) == Unary(Positive, Canonical(x))
    ensures Canonical(Binary(OtherOp(id), x, y)) == Binary(OtherOp(id), Canonical(x), Canonical(y))
    ensures !Canonical(x).BoolLiteral? && !Canonical(y).BoolLiteral? ==>
      && Canonical(Binary(And, x, y)) == Binary(And, Canonical(x), Canonical(y))
      && Canonical(Binary(Or, x, y)) == Binary(Or, Canonical(x), Canonical(y))
    ensures (forall z :: Canonical(x) != Unary(Not, z)) ==> Canonical(Unary(Not, x)) == Unary(Not, Canonical(x))
  {
    if Canonical(x).Unary? && Canonical(x).op == Not {
      assert Canonical(x) == Unary(Not, Canonical(x).operand);
    }
  }

  /** No double negation and no conjunction or disjunction with a literal, in any operand the pass
      looks into. */
  predicate Normal(e: Expr) {
    match e
    case Unary(op, x) => Normal(x) && !IsDoubleNot(op, x)
    case Binary(op, x, y) => Normal(x) && Normal(y) && !HasLiteralOperand(op, x, y)
    case _ => true
  }

  lemma {:induction false} CanonicalIsNormal(e: Expr)
    ensures Normal(Canonical(e))
  {
    match e
    case Unary(_, x) => CanonicalIsNormal(x);
    case Binary(_, x, y) =>
      CanonicalIsNormal(x);
      CanonicalIsNormal(y);
    case _ =>
  }

  lemma {:induction false} OnlyNormalFormsStay(e: Expr)
    ensures Canonical(e) == e <==> Normal(e)
  {
    match e
    case Unary(op, x) =>
      OnlyNormalFormsStay(x);
      UnaryChanges(op, x);
    case Binary(op, x, y) =>
      OnlyNormalFormsStay(x);
      OnlyNormalFormsStay(y);
      BinaryChanges(op, x, y);
    case _ =>
  }

  /** So one bottom-up run is enough: a second finds nothing. */
  lemma SecondRunChangesNothing(e: Expr)
    ensures Canonical(Canonical(e)) == Canonical(e)
  {
    CanonicalIsNormal(e);
    OnlyNormalFormsStay(Canonical(e));
  }
}
