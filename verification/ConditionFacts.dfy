/** Facts read off a condition (src/compiler/semantics/condition_facts.cpp), against what the
    evaluator makes of the condition (src/runtime/evaluator/evaluator.cpp). */
module ConditionFacts {
  import opened Wrappers
  import opened FlowFacts

  datatype BinaryOp = And | Or | Implies | Equal | NotEqual

  /** `enumName` is the full name of the enum that the resolver found for a qualified value. */
  datatype Expr =
    | Group(inner: Expr)
    | NoneLiteral
    | Qualified(segments: seq<string>, enumName: string)
    | Path(root: string, members: seq<string>)
    | MemberAccess(base: Expr, member: string)
    | Not(operand: Expr)
    | Binary(op: BinaryOp, lhs: Expr, rhs: Expr)
    | Other(result: Option<Value>)

  // --------------------------------------------------------------------- evaluation

  /** Structs, lists, decimals and wrapped optionals are never equal to anything. */
  predicate Equals(a: Value, b: Value) {
    || (a.VInt? && b.VInt? && a.i == b.i)
    || (a.VBool? && b.VBool? && a.b == b.b)
    || (a.VString? && b.VString? && a.text == b.text)
    || (a.VEnum? && b.VEnum? && a.enumName == b.enumName && a.variant == b.variant)
    || (a.VNone? && b.VNone?)
  }

  function Apply(op: BinaryOp, a: Value, b: Value): Option<Value> {
    if op == Equal then Some(VBool(Equals(a, b)))
    else if op == NotEqual then Some(VBool(!Equals(a, b)))
    else if !a.VBool? || !b.VBool? then None
    else Some(VBool(if op == And then a.b && b.b else if op == Or then a.b || b.b else !a.b || b.b))
  }

  /** None when evaluation fails. Both operands of every operator are evaluated. */
  function Eval(e: Expr, s: Store): Option<Value> {
    match e
    case Group(inner) => Eval(inner, s)
    case NoneLiteral => Some(VNone)
    case Qualified(segments, enumName) =>
      if segments == [] then None else Some(VEnum(enumName, segments[|segments| - 1]))
    case Path(root, members) => Lookup(s, Place(root, members))
    case MemberAccess(base, member) =>
      var b := Eval(base, s);
      if b.None? then None else Member(b.value, [member])
    case Not(operand) =>
      var v := Eval(operand, s);
      if v.Some? && v.value.VBool? then Some(VBool(!v.value.b)) else None
    case Binary(op, lhs, rhs) =>
      var a, b := Eval(lhs, s), Eval(rhs, s);
      if a.None? || b.None? then None else Apply(op, a.value, b.value)
    case Other(result) => result
  }

  predicate IsBool(v: Option<Value>, b: bool) {
    v == Some(VBool(b))
  }

  // --------------------------------------------------------------------- extraction

  function ExtractPlace(e: Expr): Option<Place> {
    match e
    case Group(inner) => ExtractPlace(inner)
    case MemberAccess(base, member) =>
      var p := ExtractPlace(base);
      if p.None? then None else Some(Place(p.value.root, p.value.members + [member]))
    case Path(root, members) => Some(Place(root, members))
    case _ => None
  }

  predicate IsQualifiedValue(e: Expr) {
    e.Qualified? && |e.segments| >= 2
  }

  predicate IsComparison(e: Expr) {
    e.Binary? && (e.op == Equal || e.op == NotEqual)
  }

  function ExtractNoneComparison(e: Expr, truth: bool): Option<TypeFact> {
    if e.Group? then ExtractNoneComparison(e.inner, truth)
    else if !IsComparison(e) then None
    else
      var place :=
        if e.lhs.NoneLiteral? then ExtractPlace(e.rhs)
        else if e.rhs.NoneLiteral? then ExtractPlace(e.lhs)
        else None;
      if place.None? then None
      else Some(TypeFact(place.value, if (e.op == Equal) == truth then IsNone else IsNotNone, "", ""))
  }

  /** The place and the qualified value that a comparison relates, on either side. */
  function VariantOperands(e: Expr): Option<(Place, Expr)>
    requires IsComparison(e)
    ensures VariantOperands(e).Some? ==> IsQualifiedValue(VariantOperands(e).value.1)
  {
    var (place, qualified) :=
      if IsQualifiedValue(e.rhs) then (ExtractPlace(e.lhs), e.rhs)
      else if IsQualifiedValue(e.lhs) then (ExtractPlace(e.rhs), e.lhs)
      else (None, e.rhs);
    if place.None? then None else Some((place.value, qualified))
  }

  function ExtractVariantComparison(e: Expr, truth: bool): Option<TypeFact> {
    if e.Group? then ExtractVariantComparison(e.inner, truth)
    else if !IsComparison(e) || VariantOperands(e).None? then None
    else
      var (place, q) := VariantOperands(e).value;
      var n := |q.segments|;
      Some(TypeFact(place, if (e.op == Equal) == truth then IsVariant else IsNotVariant,
                    q.segments[n - 2], q.segments[n - 1]))
  }

  function AsSet<T>(o: Option<T>): set<T> {
    if o.Some? then {o.value} else {}
  }

  function ComparisonFacts(e: Expr, truth: bool): set<TypeFact> {
    AsSet(ExtractNoneComparison(e, truth)) + AsSet(ExtractVariantComparison(e, truth))
  }

  function TrueFacts(e: Expr): set<TypeFact> {
    if e.Group? then TrueFacts(e.inner)
    else if e.Binary? && e.op == And then TrueFacts(e.lhs) + TrueFacts(e.rhs)
    else ComparisonFacts(e, true)
  }

  method CollectTrueFacts(e: Expr, facts: FlowFacts)
    requires facts.Valid()
    modifies facts
    ensures facts.Valid() && facts.Facts() == old(facts.Facts()) + TrueFacts(e)
    decreases e
  {
    if e.Group? {
      CollectTrueFacts(e.inner, facts);
    } else if e.Binary? && e.op == And {
      CollectTrueFacts(e.lhs, facts);
      CollectTrueFacts(e.rhs, facts);
    } else {
      AddComparisonFacts(e, true, facts);
    }
  }

  method AddComparisonFacts(e: Expr, truth: bool, facts: FlowFacts)
    requires facts.Valid()
    modifies facts
    ensures facts.Valid() && facts.Facts() == old(facts.Facts()) + ComparisonFacts(e, truth)
  {
    var aboutNone := ExtractNoneComparison(e, truth);
    var aboutVariant := ExtractVariantComparison(e, truth);
    ExtractedAreNormal(e, truth);
    if aboutNone.Some? {
      facts.Add(aboutNone.value);
    }
    if aboutVariant.Some? {
      facts.Add(aboutVariant.value);
    }
  }

  method ExtractConditionFacts(e: Expr) returns (whenTrue: FlowFacts, whenFalse: FlowFacts)
    ensures whenTrue.Valid() && whenTrue.Facts() == TrueFacts(e)
    ensures whenFalse.Valid() && whenFalse.Facts() == ComparisonFacts(e, false)
    ensures fresh(whenTrue) && fresh(whenFalse) && whenTrue != whenFalse
  {
    whenTrue := new FlowFacts();
    whenFalse := new FlowFacts();
    CollectTrueFacts(e, whenTrue);
    AddComparisonFacts(e, false, whenFalse);
  }

  lemma ExtractedAreNormal(e: Expr, truth: bool)
    ensures ExtractNoneComparison(e, truth).Some? ==> Normal(ExtractNoneComparison(e, truth).value)
    ensures ExtractVariantComparison(e, truth).Some? ==> Normal(ExtractVariantComparison(e, truth).value)
  {
  }

  // ---------------------------------------------------------------------- soundness

  lemma {:induction false} MemberSnoc(v: Value, members: seq<string>, m: string)
    ensures Member(v, members + [m]) == if Member(v, members).None? then None else Member(Member(v, members).value, [m])
    decreases |members|
  {
    if members == [] {
      assert members + [m] == [m];
    } else {
      assert (members + [m])[1..] == members[1..] + [m];
      if v.VStruct? && members[0] in v.fields {
        MemberSnoc(v.fields[members[0]], members[1..], m);
      } else if v.VList? && members == ["length"] {
        assert Member(VInt(|v.items|), [m]).None?;
      }
    }
  }

  /** The place that an expression names holds what the expression evaluates to. */
  lemma {:induction false} PlaceHoldsValue(e: Expr, s: Store)
    requires ExtractPlace(e).Some?
    ensures Eval(e, s) == Lookup(s, ExtractPlace(e).value)
  {
    if e.Group? {
      PlaceHoldsValue(e.inner, s);
    } else if e.MemberAccess? {
      PlaceHoldsValue(e.base, s);
      var p := ExtractPlace(e.base).value;
      if p.root in s {
        MemberSnoc(s[p.root], p.members, e.member);
      }
    }
  }

  /** What the type checker sees to for two operands of one enum type: a place that is compared with
      a variant holds a variant of that enum if it holds a bare variant at all. */
  ghost predicate OwnEnum(e: Expr, s: Store) {
    if e.Group? then OwnEnum(e.inner, s)
    else if e.Binary? && e.op == And then OwnEnum(e.lhs, s) && OwnEnum(e.rhs, s)
    else if !IsComparison(e) || VariantOperands(e).None? then true
    else
      var (place, q) := VariantOperands(e).value;
      Lookup(s, place).Some? && Lookup(s, place).value.VEnum? ==> Lookup(s, place).value.enumName == q.enumName
  }

  /** What is read off a condition for the branch that it selects. */
  function EdgeFacts(e: Expr, truth: bool): set<TypeFact> {
    if truth then TrueFacts(e) else ComparisonFacts(e, false)
  }

  /** The place holds the denied variant after all, in a wrapper that some(...) made. */
  ghost predicate WrapsDenied(f: TypeFact, s: Store) {
    && f.kind == IsNotVariant && Lookup(s, f.place).Some?
    && Lookup(s, f.place).value.VSome? && IsNamedVariant(Lookup(s, f.place).value.inner, f)
  }

  lemma {:induction false} ComparisonFactHolds(e: Expr, s: Store, truth: bool, f: TypeFact)
    requires OwnEnum(e, s) && IsBool(Eval(e, s), truth) && f in ComparisonFacts(e, truth)
    ensures Holds(f, s) <==> !WrapsDenied(f, s)
  {
    if e.Group? {
      ComparisonFactHolds(e.inner, s, truth, f);
    } else if ExtractNoneComparison(e, truth) == Some(f) {
      NoneFactHolds(e, s, truth);
    } else {
      VariantFactHolds(e, s, truth);
    }
  }

  lemma NoneFactHolds(e: Expr, s: Store, truth: bool)
    requires IsComparison(e) && IsBool(Eval(e, s), truth) && ExtractNoneComparison(e, truth).Some?
    ensures Holds(ExtractNoneComparison(e, truth).value, s)
  {
    PlaceHoldsValue(if e.lhs.NoneLiteral? then e.rhs else e.lhs, s);
    assert Eval(e, s) == Apply(e.op, Eval(e.lhs, s).value, Eval(e.rhs, s).value);
  }

  lemma VariantFactHolds(e: Expr, s: Store, truth: bool)
    requires IsComparison(e) && OwnEnum(e, s) && IsBool(Eval(e, s), truth) && ExtractVariantComparison(e, truth).Some?
    ensures var f := ExtractVariantComparison(e, truth).value;
      Holds(f, s) <==> !WrapsDenied(f, s)
  {
    PlaceHoldsValue(if IsQualifiedValue(e.rhs) then e.lhs else e.rhs, s);
    assert Eval(e, s) == Apply(e.op, Eval(e.lhs, s).value, Eval(e.rhs, s).value);
    var f := ExtractVariantComparison(e, truth).value;
    var v := Lookup(s, f.place).value;
    if v.VSome? {
      assert Reading(v, v.inner);
    }
  }

  /** Main result: on the edge that a condition selects, a fact read off it holds except exactly where
      it denies a variant that the place holds in a wrapper. */
  lemma {:induction false} ConditionFactHolds(e: Expr, s: Store, truth: bool, f: TypeFact)
    requires OwnEnum(e, s) && IsBool(Eval(e, s), truth) && f in EdgeFacts(e, truth)
    ensures Holds(f, s) <==> !WrapsDenied(f, s)
  {
    if !truth {
      ComparisonFactHolds(e, s, false, f);
    } else if e.Group? {
      ConditionFactHolds(e.inner, s, true, f);
    } else if e.Binary? && e.op == And {
      ConditionFactHolds(if f in TrueFacts(e.lhs) then e.lhs else e.rhs, s, true, f);
    } else {
      ComparisonFactHolds(e, s, true, f);
    }
  }

  ghost predicate NothingDeniedIsWrapped(facts: set<TypeFact>, s: Store) {
    forall f :: f in facts ==> !WrapsDenied(f, s)
  }

  /** So all of them hold exactly when no place wraps a variant that they deny it. */
  lemma ConditionFactsHold(e: Expr, s: Store, truth: bool)
    requires OwnEnum(e, s) && IsBool(Eval(e, s), truth)
    ensures AllHold(EdgeFacts(e, truth), s) <==> NothingDeniedIsWrapped(EdgeFacts(e, truth), s)
  {
    forall f | f in EdgeFacts(e, truth)
      ensures Holds(f, s) <==> !WrapsDenied(f, s)
    {
      ConditionFactHolds(e, s, truth, f);
    }
  }

  // -------------------------------------------------------------------- form by form

  /** The expressions that name a place. */
  lemma PlacesRead(root: string, members: seq<string>, base: Expr, p: Place, m: string)
    ensures ExtractPlace(Path(root, members)) == Some(Place(root, members))
    ensures ExtractPlace(base) == Some(p) ==>
      && ExtractPlace(MemberAccess(base, m)) == Some(Place(p.root, p.members + [m]))
      && ExtractPlace(Group(base)) == Some(p)
  {
  }

  /** A test for none, on either side, says on one edge that the place is none and on the other that it is not. */
  lemma NoneTestsRead(e: Expr, p: Place)
    requires ExtractPlace(e) == Some(p)
    ensures var none, some := {TypeFact(p, IsNone, "", "")}, {TypeFact(p, IsNotNone, "", "")};
      && EdgeFacts(Binary(Equal, e, NoneLiteral), true) == EdgeFacts(Binary(Equal, NoneLiteral, e), true) == none
      && EdgeFacts(Binary(Equal, e, NoneLiteral), false) == EdgeFacts(Binary(Equal, NoneLiteral, e), false) == some
      && EdgeFacts(Binary(NotEqual, e, NoneLiteral), true) == EdgeFacts(Binary(NotEqual, NoneLiteral, e), true) == some
      && EdgeFacts(Binary(NotEqual, e, NoneLiteral), false) == EdgeFacts(Binary(NotEqual, NoneLiteral, e), false) == none
  {
  }

  /** And a comparison with a variant that it is or is not that variant, by its last two segments. */
  lemma VariantTestsRead(e: Expr, p: Place, segments: seq<string>, enumName: string)
    requires ExtractPlace(e) == Some(p) && |segments| >= 2
    ensures var q, n := Qualified(segments, enumName), |segments|;
      var that := {TypeFact(p, IsVariant, segments[n - 2], segments[n - 1])};
      var other := {TypeFact(p, IsNotVariant, segments[n - 2], segments[n - 1])};
      && EdgeFacts(Binary(Equal, e, q), true) == EdgeFacts(Binary(Equal, q, e), true) == that
      && EdgeFacts(Binary(Equal, e, q), false) == EdgeFacts(Binary(Equal, q, e), false) == other
      && EdgeFacts(Binary(NotEqual, e, q), true) == EdgeFacts(Binary(NotEqual, q, e), true) == other
      && EdgeFacts(Binary(NotEqual, e, q), false) == EdgeFacts(Binary(NotEqual, q, e), false) == that
  {
    assert !e.Qualified? && !e.NoneLiteral?;
  }

  /** A conjunction says on its true edge what both sides say; no other connective says anything. */
  lemma ConnectivesRead(x: Expr, y: Expr, truth: bool)
    ensures EdgeFacts(Binary(And, x, y), true) == EdgeFacts(x, true) + EdgeFacts(y, true)
    ensures EdgeFacts(Binary(And, x, y), false) == {}
    ensures EdgeFacts(Group(x), truth) == EdgeFacts(x, truth)
    ensures EdgeFacts(Binary(Or, x, y), truth) == EdgeFacts(Binary(Implies, x, y), truth) == EdgeFacts(Not(x), truth) == {}
  {
  }

  /** What the evaluator makes of the connectives, and which values it takes for equal. */
  lemma ConnectivesEvaluate(x: Expr, y: Expr, a: bool, b: bool, s: Store)
    requires Eval(x, s) == Some(VBool(a)) && Eval(y, s) == Some(VBool(b))
    ensures Eval(Binary(And, x, y), s) == Some(VBool(a && b)) && Eval(Binary(Or, x, y), s) == Some(VBool(a || b))
    ensures Eval(Binary(Implies, x, y), s) == Some(VBool(a ==> b)) && Eval(Not(x), s) == Some(VBool(!a))
    ensures Eval(Group(x), s) == Some(VBool(a))
  {
  }

  lemma EqualityEvaluates(x: Expr, y: Expr, v: Value, w: Value, s: Store)
    requires Eval(x, s) == Some(v) && Eval(y, s) == Some(w)
    ensures var same := v == w && (v.VNone? || v.VBool? || v.VInt? || v.VString? || v.VEnum?);
      && Eval(Binary(Equal, x, y), s) == Some(VBool(same))
      && Eval(Binary(NotEqual, x, y), s) == Some(VBool(!same))
  {
  }

  // ------------------------------------------------------------------------ exactness

  predicate NamesPlace(e: Expr) {
    match e
    case Path(_, _) => true
    case MemberAccess(base, _) => NamesPlace(base)
    case Group(inner) => NamesPlace(inner)
    case _ => false
  }

  predicate NamesVariant(e: Expr) {
    e.Qualified? && |e.segments| >= 2 && NameMatches(e.enumName, e.segments[|e.segments| - 2])
  }

  /** Comparisons of places with none or with variants named as in their enum, and conjunctions of such. */
  ghost predicate OnlyComparisons(e: Expr) {
    match e
    case Group(inner) => OnlyComparisons(inner)
    case Binary(op, x, y) =>
      if op == And then OnlyComparisons(x) && OnlyComparisons(y)
      else
        && (op == Equal || op == NotEqual)
        && (|| (NamesPlace(x) && (y.NoneLiteral? || NamesVariant(y)))
            || (NamesPlace(y) && (x.NoneLiteral? || NamesVariant(x))))
    case _ => false
  }

  lemma {:induction false} NamedPlaceIsRead(e: Expr)
    ensures NamesPlace(e) <==> ExtractPlace(e).Some?
  {
    match e
    case MemberAccess(base, _) => NamedPlaceIsRead(base);
    case Group(inner) => NamedPlaceIsRead(inner);
    case _ =>
  }

  /** Nothing is missed either: the true-facts of such a condition hold exactly when it is true and
      they deny nothing that is wrapped. */
  lemma {:induction false} ComparisonsAreExact(e: Expr, s: Store)
    requires OnlyComparisons(e) && OwnEnum(e, s) && Eval(e, s).Some?
    ensures AllHold(TrueFacts(e), s)
            <==> IsBool(Eval(e, s), true) && NothingDeniedIsWrapped(TrueFacts(e), s)
  {
    if IsBool(Eval(e, s), true) {
      ConditionFactsHold(e, s, true);
    }
    if AllHold(TrueFacts(e), s) {
      FactsMakeItTrue(e, s);
      ConditionFactsHold(e, s, true);
    }
  }

  lemma {:induction false} FactsMakeItTrue(e: Expr, s: Store)
    requires OnlyComparisons(e) && OwnEnum(e, s) && Eval(e, s).Some? && AllHold(TrueFacts(e), s)
    ensures IsBool(Eval(e, s), true)
  {
    if e.Group? {
      FactsMakeItTrue(e.inner, s);
    } else if e.op == And {
      FactsMakeItTrue(e.lhs, s);
      FactsMakeItTrue(e.rhs, s);
    } else {
      NamedPlaceIsRead(e.lhs);
      NamedPlaceIsRead(e.rhs);
      assert Eval(e, s) == Apply(e.op, Eval(e.lhs, s).value, Eval(e.rhs, s).value);
      if ExtractNoneComparison(e, true).Some? {
        PlaceHoldsValue(if e.lhs.NoneLiteral? then e.rhs else e.lhs, s);
        assert Holds(ExtractNoneComparison(e, true).value, s);
      } else {
        PlaceHoldsValue(if IsQualifiedValue(e.rhs) then e.lhs else e.rhs, s);
        var f := ExtractVariantComparison(e, true).value;
        assert Holds(f, s);
        var v := Lookup(s, f.place).value;
        assert Reading(v, v);
      }
    }
  }
}
