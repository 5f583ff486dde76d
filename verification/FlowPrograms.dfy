/** Programs that are safe, and programs that leave a false fact
    (src/compiler/semantics/typecheck.cpp, src/runtime/evaluator/executor.cpp). */
module FlowPrograms {
  import opened Wrappers
  import opened FlowFacts
  import opened ConditionFacts
  import opened FlowStatements
  import opened FlowSafety

  // ------------------------------------------------------------------ programs that are safe

  /** Every live fact is itself known. */
  ghost predicate Backed(live: set<TypeFact>, known: Known) {
    forall f :: f in live ==> FactClaim(f) in known
  }

  lemma BackedCannotFail(live: set<TypeFact>, known: Known)
    requires Backed(live, known)
    ensures forall f :: f in live ==> !CanFail(known, f)
    ensures SafeFrom([], live, known)
  {
    forall f, s | f in live && Satisfies(s, known)
      ensures Holds(f, s)
    {
      assert ClaimHolds(FactClaim(f), s);
    }
  }

  lemma BackedInBranch(live: set<TypeFact>, known: Known, e: Expr, truth: bool)
    requires Backed(live, known)
    ensures Backed(live + EdgeFacts(e, truth), known + EdgeClaims(e, truth))
    ensures Backed(live, known + EdgeClaims(e, truth))
  {
  }

  /** Wherever the block is fallen out of, the facts are true. */
  ghost predicate EndsWith(b: Block, known: Known, live: set<TypeFact>) {
    forall k :: k in Ends(b, known) ==> SafeFrom([], live, k)
  }

  lemma IfIsSafe(c: Expr, thenBlock: Block, elseBlock: Block, live: set<TypeFact>, known: Known)
    requires Backed(live, known)
    requires SafeFrom(thenBlock, live + EdgeFacts(c, true), known + EdgeClaims(c, true))
    requires SafeFrom(elseBlock, live + EdgeFacts(c, false), known + EdgeClaims(c, false))
    requires EndsWith(thenBlock, known + EdgeClaims(c, true), live)
    requires EndsWith(elseBlock, known + EdgeClaims(c, false), live)
    ensures SafeFrom([If(c, thenBlock, elseBlock)], live, known)
    ensures EndsWith([If(c, thenBlock, elseBlock)], known, live)
  {
    hide EdgeClaims, EdgeFacts, Satisfiable, CanFail;
    var st := If(c, thenBlock, elseBlock);
    assert [st][1..] == [];
    BackedCannotFail(live, known);
    var onTrue, onFalse := known + EdgeClaims(c, true), known + EdgeClaims(c, false);
    assert StmtEnds(st, known) <= Ends(thenBlock, onTrue) + Ends(elseBlock, onFalse);
    assert Ends([st], known) <= StmtEnds(st, known);
  }

  lemma QuietIsSafe(live: set<TypeFact>, more: set<TypeFact>, known: Known)
    requires Backed(live + more, known)
    ensures SafeFrom([], live + more, known) && EndsWith([], known, live)
    ensures SafeFrom([Evaluate(NoneLiteral)], live + more, known) && EndsWith([Evaluate(NoneLiteral)], known, live)
    ensures SafeFrom([Leave], live + more, known) && EndsWith([Leave], known, live)
  {
    hide CanFail;
    BackedCannotFail(live + more, known);
    BackedCannotFail(live, known);
    assert [Leave][1..] == [] && [Evaluate(NoneLiteral)][1..] == [];
    assert Ends([], known) == {known};
  }

  lemma OneEndEach(b: Block, known: Known, k: Known)
    requires b != [] && StmtEnds(b[0], known) == {k}
    ensures forall r :: r in Ends(b, known) <==> r in Ends(b[1..], k)
  {
  }

  lemma AssignmentIsSafe(member: string, value: Expr, rest: Block, live: set<TypeFact>, known: Known,
                         outer: set<TypeFact>)
    requires Backed(live, known)
    requires var after := AfterWrite(known, Place("ctx", [member]));
      && SafeFrom(rest, Invalidated(live, Place("ctx", [member])), after)
      && EndsWith(rest, after, outer)
    ensures SafeFrom([AssignCtx([member], value)] + rest, live, known)
    ensures EndsWith([AssignCtx([member], value)] + rest, known, outer)
  {
    hide CanFail, Invalidated, AfterWrite, Ends;
    var b, after := [AssignCtx([member], value)] + rest, AfterWrite(known, Place("ctx", [member]));
    assert b[1..] == rest && [member][..1] == [member];
    assert StmtEnds(b[0], known) == {after};
    BackedCannotFail(live, known);
    OneEndEach(b, known, after);
    assert SafeFrom(b, live, known);
    hide SafeFrom;
  }

  lemma BackedAfterAssignment(live: set<TypeFact>, known: Known, p: Place)
    requires Backed(live, known)
    ensures Backed(Invalidated(live, p), AfterWrite(known, p))
  {
  }

  /** A branch may overwrite anything that it names and then leave. */
  lemma EarlyReturnIsSafe(c: Expr, member: string, value: Expr, live: set<TypeFact>)
    ensures Safe([If(c, [AssignCtx([member], value), Leave], [])], live)
  {
    hide CanFail, EdgeClaims, EdgeFacts, Satisfiable, SafeFrom, Ends, EndsWith, Invalidated, AfterWrite;
    var known, p := FactClaims(live), Place("ctx", [member]);
    var inside, onTrue := live + EdgeFacts(c, true), known + EdgeClaims(c, true);
    BackedInBranch(live, known, c, true);
    BackedInBranch(live, known, c, false);
    BackedAfterAssignment(inside, onTrue, p);
    QuietIsSafe(Invalidated(inside, p), {}, AfterWrite(onTrue, p));
    QuietIsSafe(live, EdgeFacts(c, false), known + EdgeClaims(c, false));
    LeavingHasNoEnd(AfterWrite(onTrue, p), live);
    assert Invalidated(inside, p) + {} == Invalidated(inside, p);
    AssignmentIsSafe(member, value, [Leave], inside, onTrue, live);
    assert [AssignCtx([member], value)] + [Leave] == [AssignCtx([member], value), Leave];
    IfIsSafe(c, [AssignCtx([member], value), Leave], [], live, known);
  }

  lemma LeavingHasNoEnd(known: Known, live: set<TypeFact>)
    ensures EndsWith([Leave], known, live)
  {
  }

  /** if c { ctx.m = v; if ctx.m == E::A { } else { return } }: whoever falls out has A in ctx.m, so it
      is still not B. */
  lemma CheckedAssignmentIsSafe(c: Expr, m: string, value: Expr, enumName: string, own: string, a: string, b: string)
    requires a != b
    ensures var test := If(Binary(Equal, Path("ctx", [m]), Qualified([enumName, a], own)), [], [Leave]);
      Safe([If(c, [AssignCtx([m], value), test], [])], {TypeFact(Place("ctx", [m]), IsNotVariant, enumName, b)})
  {
    hide CanFail, EdgeClaims, EdgeFacts, Satisfiable, SafeFrom, Ends, EndsWith, Invalidated, AfterWrite;
    var p, test := Place("ctx", [m]), Binary(Equal, Path("ctx", [m]), Qualified([enumName, a], own));
    var live := {TypeFact(p, IsNotVariant, enumName, b)};
    var known := FactClaims(live);
    var inside, onTrue := live + EdgeFacts(c, true), known + EdgeClaims(c, true);
    BackedInBranch(live, known, c, true);
    BackedInBranch(live, known, c, false);
    BackedAfterAssignment(inside, onTrue, p);
    CheckIsSafe(test, Invalidated(inside, p), AfterWrite(onTrue, p), live, p, enumName, own, a, b);
    AssignmentIsSafe(m, value, [If(test, [], [Leave])], inside, onTrue, live);
    QuietIsSafe(live, EdgeFacts(c, false), known + EdgeClaims(c, false));
    var block := [AssignCtx([m], value), If(test, [], [Leave])];
    assert [AssignCtx([m], value)] + [If(test, [], [Leave])] == block;
    IfIsSafe(c, block, [], live, known);
  }

  lemma CheckIsSafe(test: Expr, live: set<TypeFact>, known: Known, outer: set<TypeFact>, p: Place,
                    enumName: string, own: string, a: string, b: string)
    requires Backed(live, known) && a != b && outer == {TypeFact(p, IsNotVariant, enumName, b)}
    requires test == Binary(Equal, Path(p.root, p.members), Qualified([enumName, a], own))
    ensures SafeFrom([If(test, [], [Leave])], live, known) && EndsWith([If(test, [], [Leave])], known, outer)
  {
    hide CanFail, EdgeClaims, EdgeFacts, Satisfiable;
    var st, onTrue, onFalse := If(test, [], [Leave]), known + EdgeClaims(test, true), known + EdgeClaims(test, false);
    BackedInBranch(live, known, test, true);
    BackedInBranch(live, known, test, false);
    QuietIsSafe(live, EdgeFacts(test, true), onTrue);
    QuietIsSafe(live, EdgeFacts(test, false), onFalse);
    IfIsSafe(test, [], [Leave], live, known);
    BecomesTheOther(onTrue, p, enumName, own, a, b);
    assert [st][1..] == [] && [Leave][1..] == [];
    assert Ends([], onTrue) == {onTrue} && Ends([Leave], onFalse) == {};
    assert StmtEnds(st, known) <= {onTrue};
    assert Ends([st], known) <= {onTrue};
  }

  lemma BecomesTheOther(known: Known, p: Place, enumName: string, own: string, a: string, b: string)
    requires a != b
    requires EdgeClaims(Binary(Equal, Path(p.root, p.members), Qualified([enumName, a], own)), true) <= known
    ensures SafeFrom([], {TypeFact(p, IsNotVariant, enumName, b)}, known)
  {
    var e := Binary(Equal, Path(p.root, p.members), Qualified([enumName, a], own));
    var g := TypeFact(p, IsVariant, enumName, a);
    assert ExtractVariantComparison(e, true) == Some(g) && g in EdgeFacts(e, true);
    forall s | Satisfies(s, known)
      ensures Holds(TypeFact(p, IsNotVariant, enumName, b), s)
    {
      assert ClaimHolds(FactClaim(g), s);
    }
  }

  // ------------------------------------------------------- what goes wrong otherwise

  function NotNone(root: string, members: seq<string>): TypeFact {
    TypeFact(Place(root, members), IsNotNone, "", "")
  }

  function TestNotNone(root: string, members: seq<string>): Expr {
    Binary(NotEqual, Path(root, members), NoneLiteral)
  }

  /** if ctx.a != none { if c { ctx.a = none } ; ... }: after the inner branch the type checker still
      takes ctx.a for present, since the branch worked on a copy of the facts. */
  lemma BranchAssignmentLeavesAFalseFact(a: Value)
    requires a != VNone
    ensures var inner := If(Other(Some(VBool(true))), [AssignCtx(["a"], NoneLiteral)], []);
      var b := [If(TestNotNone("ctx", ["a"]), [inner], [])];
      var s: Store := map["ctx" := VStruct(map["a" := a])];
      HasCtx(s) && OwnEnumAlong(b, s) && UnwrappedAlong(b, s) && !TrueAlong(b, {}, s)
  {
    var assign := AssignCtx(["a"], NoneLiteral);
    var inner := If(Other(Some(VBool(true))), [assign], []);
    var outer := If(TestNotNone("ctx", ["a"]), [inner], []);
    var s: Store := map["ctx" := VStruct(map["a" := a])];
    var f := NotNone("ctx", ["a"]);
    var r := AssignCtxMember(s, "a", VNone);
    assert Lookup(s, f.place) == Some(a) by { assert f.place.members[1..] == []; }
    assert Lookup(r, f.place) == Some(VNone) by { assert f.place.members[1..] == []; }
    assert IsBool(Eval(outer.cond, s), true);
    assert f in ThenFacts(outer, {});
    assert ExecBlock([assign], s) == Next(r) by { assert ExecStmt(assign, s) == Next(r); assert [assign][1..] == []; }
    assert ExecStmt(inner, s) == Next(r);
    assert !TrueAlong([inner][1..], ThenFacts(outer, {}), r);
    assert !TrueAlong([inner], ThenFacts(outer, {}), s);
    assert !TrueInside(outer, {}, s);
    assert OwnEnumInside(outer, s) && UnwrappedInside(outer, s) by {
      assert [inner][1..] == [] && [assign][1..] == [];
      assert OwnEnumAlong([], r) && UnwrappedAlong([], r);
      assert OwnEnumAlong([assign], s) && UnwrappedAlong([assign], s);
      assert OwnEnumAlong([inner], s) && UnwrappedAlong([inner], s);
    }
    assert [outer][1..] == [];
  }

  /** if ctx.a != none { ctx.a.b = none; ... }: the type checker drops what it knows about ctx.a.b, and the executor
      replaces ctx.a. */
  lemma NestedAssignmentLeavesAFalseFact(a: Value, member: string)
    requires a != VNone
    ensures var b := [If(TestNotNone("ctx", ["a"]), [AssignCtx(["a", member], NoneLiteral)], [])];
      var s: Store := map["ctx" := VStruct(map["a" := a])];
      HasCtx(s) && OwnEnumAlong(b, s) && UnwrappedAlong(b, s) && !TrueAlong(b, {}, s)
  {
    var assign := AssignCtx(["a", member], NoneLiteral);
    var outer := If(TestNotNone("ctx", ["a"]), [assign], []);
    var s: Store := map["ctx" := VStruct(map["a" := a])];
    var f := NotNone("ctx", ["a"]);
    var r := AssignCtxMember(s, "a", VNone);
    assert Lookup(s, f.place) == Some(a) by { assert f.place.members[1..] == []; }
    assert Lookup(r, f.place) == Some(VNone) by { assert f.place.members[1..] == []; }
    assert IsBool(Eval(outer.cond, s), true);
    assert f in ThenFacts(outer, {});
    assert ExecStmt(assign, s) == Next(r);
    assert f in FactsAfter(assign, ThenFacts(outer, {}));
    assert !TrueAlong([assign][1..], FactsAfter(assign, ThenFacts(outer, {})), r);
    assert !TrueAlong([assign], ThenFacts(outer, {}), s);
    assert !TrueInside(outer, {}, s);
    assert OwnEnumInside(outer, s) && UnwrappedInside(outer, s) by {
      assert [assign][1..] == [] && OwnEnumAlong([], r) && UnwrappedAlong([], r);
      assert OwnEnumAlong([assign], s) && UnwrappedAlong([assign], s);
    }
    assert [outer][1..] == [];
  }

  /** if x != none { let x = none; ... }: the new x is taken for present. */
  lemma RebindingLeavesAFalseFact(x: Value)
    requires x != VNone
    ensures var b := [If(TestNotNone("x", []), [Let("x", NoneLiteral)], [])];
      var s: Store := map["ctx" := VStruct(map[]), "x" := x];
      HasCtx(s) && OwnEnumAlong(b, s) && UnwrappedAlong(b, s) && !TrueAlong(b, {}, s)
  {
    var rebind := Let("x", NoneLiteral);
    var outer := If(TestNotNone("x", []), [rebind], []);
    var s: Store := map["ctx" := VStruct(map[]), "x" := x];
    var f := NotNone("x", []);
    var r := s["x" := VNone];
    assert Lookup(s, f.place) == Some(x) && Lookup(r, f.place) == Some(VNone);
    assert IsBool(Eval(outer.cond, s), true);
    assert f in ThenFacts(outer, {});
    assert ExecStmt(rebind, s) == Next(r);
    assert !TrueAlong([rebind][1..], ThenFacts(outer, {}), r);
    assert !TrueAlong([rebind], ThenFacts(outer, {}), s);
    assert !TrueInside(outer, {}, s);
    assert OwnEnumInside(outer, s) && UnwrappedInside(outer, s) by {
      assert [rebind][1..] == [] && OwnEnumAlong([], r) && UnwrappedAlong([], r);
      assert OwnEnumAlong([rebind], s) && UnwrappedAlong([rebind], s);
    }
    assert [outer][1..] == [];
  }

  lemma WrappedIsDenied(enumName: string, variant: string, s: Store)
    requires "y" in s && s["y"] == VSome(VEnum(enumName, variant))
    ensures var cond := Binary(Equal, Path("y", []), Qualified([enumName, variant], enumName));
      OwnEnum(cond, s) && IsBool(Eval(cond, s), false) && !NothingDeniedIsWrapped(EdgeFacts(cond, false), s)
  {
    var cond := Binary(Equal, Path("y", []), Qualified([enumName, variant], enumName));
    var f := TypeFact(Place("y", []), IsNotVariant, enumName, variant);
    assert Lookup(s, f.place) == Some(s["y"]);
    assert ExtractVariantComparison(cond, false) == Some(f);
    assert f in EdgeFacts(cond, false) && WrapsDenied(f, s);
  }

  function WrappedTest(enumName: string, variant: string): Stmt {
    If(Binary(Equal, Path("y", []), Qualified([enumName, variant], enumName)), [], [Evaluate(NoneLiteral)])
  }

  const BindY: Stmt := Let("y", Path("ctx", ["x"]))

  /** if ctx.x != none { let y = ctx.x; if y == E::A { } else { ... } } */
  function WrappedProgram(enumName: string, variant: string): Stmt {
    If(TestNotNone("ctx", ["x"]), [BindY, WrappedTest(enumName, variant)], [])
  }

  lemma WrappedTestIsSafe(enumName: string, variant: string, live: set<TypeFact>, known: Known)
    requires Backed(live, known)
    ensures SafeFrom([WrappedTest(enumName, variant)], live, known)
  {
    hide CanFail, EdgeClaims, EdgeFacts, Satisfiable, SafeFrom, Ends, EndsWith;
    var cond := WrappedTest(enumName, variant).cond;
    BackedInBranch(live, known, cond, true);
    BackedInBranch(live, known, cond, false);
    QuietIsSafe(live, EdgeFacts(cond, true), known + EdgeClaims(cond, true));
    QuietIsSafe(live, EdgeFacts(cond, false), known + EdgeClaims(cond, false));
    IfIsSafe(cond, [], [Evaluate(NoneLiteral)], live, known);
  }

  lemma NothingIsSafe(b: Block, known: Known)
    ensures EndsWith(b, known, {}) && Backed({}, known)
  {
  }

  lemma WrappedProgramIsSafe(enumName: string, variant: string)
    ensures Safe([WrappedProgram(enumName, variant)], {})
  {
    hide CanFail, EdgeClaims, EdgeFacts, Satisfiable, SafeFrom, EndsWith;
    var inside, c := [BindY, WrappedTest(enumName, variant)], TestNotNone("ctx", ["x"]);
    var known := FactClaims({});
    BackedInBranch({}, known, c, true);
    BackedInBranch({}, known, c, false);
    BoundIsSafe(enumName, variant, {} + EdgeFacts(c, true), known + EdgeClaims(c, true));
    QuietIsSafe({}, EdgeFacts(c, false), known + EdgeClaims(c, false));
    NothingIsSafe(inside, known + EdgeClaims(c, true));
    IfIsSafe(c, inside, [], {}, known);
  }

  lemma BoundIsSafe(enumName: string, variant: string, live: set<TypeFact>, known: Known)
    requires Backed(live, known) && live == EdgeFacts(TestNotNone("ctx", ["x"]), true)
    ensures SafeFrom([BindY, WrappedTest(enumName, variant)], live, known)
  {
    var inside, bound := [BindY, WrappedTest(enumName, variant)], AfterWrite(known, Place("y", []));
    assert live == {NotNone("ctx", ["x"])};
    assert Backed(live, bound);
    hide CanFail, EdgeClaims, EdgeFacts, Satisfiable;
    WrappedTestIsSafe(enumName, variant, live, bound);
    BackedCannotFail(live, known);
    assert inside[1..] == [WrappedTest(enumName, variant)];
  }

  lemma WrappedProgramKeepsCtx(enumName: string, variant: string)
    ensures KeepsCtx([WrappedProgram(enumName, variant)])
  {
    var test, outer := WrappedTest(enumName, variant), WrappedProgram(enumName, variant);
    assert [test][1..] == [] && [BindY, test][1..] == [test] && [outer][1..] == [];
    assert KeepsCtx([]) && KeepsCtx([Evaluate(NoneLiteral)]) && StmtKeepsCtx(test);
    assert KeepsCtx([test]);
    assert KeepsCtx([BindY, test]);
    assert StmtKeepsCtx(outer);
  }

  lemma WrappedTestRuns(enumName: string, variant: string, s: Store)
    requires HasCtx(s) && "y" in s && s["y"] == VSome(VEnum(enumName, variant))
    ensures OwnEnumAlong([WrappedTest(enumName, variant)], s) && !UnwrappedAlong([WrappedTest(enumName, variant)], s)
  {
    hide OwnEnum, NothingDeniedIsWrapped, EdgeFacts;
    var test := WrappedTest(enumName, variant);
    WrappedIsDenied(enumName, variant, s);
    assert [test][1..] == [] && [Evaluate(NoneLiteral)][1..] == [];
    assert OwnEnumInside(test, s) && !UnwrappedInside(test, s);
  }

  lemma TestNotNoneIsPlain(root: string, members: seq<string>, s: Store)
    ensures OwnEnum(TestNotNone(root, members), s)
  {
  }

  lemma WrappedProgramRuns(enumName: string, variant: string, s: Store)
    requires s == map["ctx" := VStruct(map["x" := VSome(VEnum(enumName, variant))])]
    ensures HasCtx(s)
    ensures OwnEnumAlong([WrappedProgram(enumName, variant)], s)
    ensures !UnwrappedAlong([WrappedProgram(enumName, variant)], s)
  {
    hide OwnEnum, NothingDeniedIsWrapped, EdgeFacts;
    TestNotNoneIsPlain("ctx", ["x"], s);
    var test, outer := WrappedTest(enumName, variant), WrappedProgram(enumName, variant);
    var r := s["y" := s["ctx"].fields["x"]];
    WrappedTestRuns(enumName, variant, r);
    assert Lookup(s, Place("ctx", ["x"])) == Some(s["ctx"].fields["x"]) by { assert ["x"][1..] == []; }
    assert ExecStmt(BindY, s) == Next(r);
    assert [test][1..] == [] && [BindY, test][1..] == [test] && [outer][1..] == [];
    assert OwnEnumAlong([BindY, test], s) && !UnwrappedAlong([BindY, test], s);
    assert IsBool(Eval(outer.cond, s), true);
    assert OwnEnumInside(outer, s) && !UnwrappedInside(outer, s);
  }

  /** With some(E::A) in ctx.x the bare type of y lets the comparison through, the wrapper makes it
      false, and the else branch takes y for anything but E::A. */
  lemma WrappedVariantLeavesAFalseFact(enumName: string, variant: string)
    ensures var b := [WrappedProgram(enumName, variant)];
      var s: Store := map["ctx" := VStruct(map["x" := VSome(VEnum(enumName, variant))])];
      HasCtx(s) && KeepsCtx(b) && OwnEnumAlong(b, s) && Safe(b, {}) && !TrueAlong(b, {}, s)
  {
    hide *;
    var s: Store := map["ctx" := VStruct(map["x" := VSome(VEnum(enumName, variant))])];
    WrappedProgramIsSafe(enumName, variant);
    WrappedProgramKeepsCtx(enumName, variant);
    WrappedProgramRuns(enumName, variant, s);
    NoFactsHold(s);
    FactsAreTrueAlongEveryRun([WrappedProgram(enumName, variant)], {}, s);
  }

  lemma NoFactsHold(s: Store)
    ensures AllHold({}, s)
  {
  }
}
