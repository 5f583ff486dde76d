/** How the facts about places travel through a handler: the type checker's statement rules
    (src/compiler/semantics/typecheck.cpp) against the executor (src/runtime/evaluator/executor.cpp). */
module FlowStatements {
  import opened Wrappers
  import opened FlowFacts
  import opened ConditionFacts

  /** Leave stands for goto and return, Evaluate for asserts and expression statements; an `if`
      without an else has an empty one. */
  datatype Stmt =
    | Let(name: string, init: Expr)
    | AssignCtx(members: seq<string>, value: Expr)
    | If(cond: Expr, thenBlock: seq<Stmt>, elseBlock: seq<Stmt>)
    | Evaluate(e: Expr)
    | Leave

  type Block = seq<Stmt>

  // ------------------------------------------------------------------- the executor

  datatype Outcome = Next(store: Store) | Left | Failed

  /** The store has the context as a struct. */
  predicate HasCtx(s: Store) {
    "ctx" in s && s["ctx"].VStruct?
  }

  /** Only the first member of the target is looked at. */
  function AssignCtxMember(s: Store, member: string, x: Value): (r: Store)
    requires HasCtx(s)
    ensures HasCtx(r)
  {
    s["ctx" := VStruct(s["ctx"].fields[member := x])]
  }

  function ExecStmt(st: Stmt, s: Store): Outcome
    requires HasCtx(s)
    decreases st
  {
    match st
    case Let(name, init) =>
      var v := Eval(init, s);
      if v.None? then Failed else Next(s[name := v.value])
    case AssignCtx(members, value) =>
      var v := Eval(value, s);
      if members == [] || v.None? then Failed else Next(AssignCtxMember(s, members[0], v.value))
    case If(cond, thenBlock, elseBlock) =>
      if IsBool(Eval(cond, s), true) then ExecBlock(thenBlock, s)
      else if IsBool(Eval(cond, s), false) then ExecBlock(elseBlock, s)
      else Failed
    case Evaluate(e) => if Eval(e, s).None? then Failed else Next(s)
    case Leave => Left
  }

  function ExecBlock(b: Block, s: Store): Outcome
    requires HasCtx(s)
    decreases b
  {
    if b == [] then Next(s)
    else
      var r := ExecStmt(b[0], s);
      if r.Next? && HasCtx(r.store) then ExecBlock(b[1..], r.store) else r
  }

  /** What the executor makes of a binding and of an assignment. */
  lemma WritesExecute(name: string, members: seq<string>, e: Expr, v: Value, s: Store)
    requires HasCtx(s) && Eval(e, s) == Some(v)
    ensures ExecStmt(Let(name, e), s) == Next(s[name := v])
    ensures ExecStmt(AssignCtx([], e), s) == Failed
    ensures members != [] ==>
      ExecStmt(AssignCtx(members, e), s) == Next(s["ctx" := VStruct(s["ctx"].fields[members[0] := v])])
  {
  }

  /** A branch is taken by what its condition is; anything but a bool fails. What runs behind a statement runs in the
      store that the statement leaves. */
  lemma BranchesExecute(c: Expr, thenBlock: Block, elseBlock: Block, st: Stmt, rest: Block, s: Store)
    requires HasCtx(s)
    ensures Eval(c, s) == Some(VBool(true)) ==> ExecStmt(If(c, thenBlock, elseBlock), s) == ExecBlock(thenBlock, s)
    ensures Eval(c, s) == Some(VBool(false)) ==> ExecStmt(If(c, thenBlock, elseBlock), s) == ExecBlock(elseBlock, s)
    ensures Eval(c, s) != Some(VBool(true)) && Eval(c, s) != Some(VBool(false)) ==>
      ExecStmt(If(c, thenBlock, elseBlock), s) == Failed
    ensures ExecStmt(Evaluate(c), s) == if Eval(c, s).Some? then Next(s) else Failed
    ensures ExecBlock([], s) == Next(s) && ExecBlock([Leave] + rest, s) == Left
    ensures ExecStmt(st, s).Next? && HasCtx(ExecStmt(st, s).store) ==>
      ExecBlock([st] + rest, s) == ExecBlock(rest, ExecStmt(st, s).store)
  {
    hide Eval, AssignCtxMember;
    assert ([st] + rest)[0] == st && ([st] + rest)[1..] == rest && ([Leave] + rest)[0] == Leave;
  }

  // --------------------------------------------------------------- the type checker

  /** An assignment drops facts; a branch works on copies, so nothing it does is seen after it. */
  function FactsAfter(st: Stmt, facts: set<TypeFact>): set<TypeFact> {
    if st.AssignCtx? then Invalidated(facts, Place("ctx", st.members)) else facts
  }

  function ThenFacts(st: Stmt, facts: set<TypeFact>): set<TypeFact>
    requires st.If?
  {
    facts + EdgeFacts(st.cond, true)
  }

  function ElseFacts(st: Stmt, facts: set<TypeFact>): set<TypeFact>
    requires st.If?
  {
    facts + EdgeFacts(st.cond, false)
  }

  /** Only an assignment drops facts, those about its target and below; a branch starts with the facts of its edge
      in addition. */
  lemma FactsTravel(facts: set<TypeFact>, f: TypeFact, name: string, members: seq<string>, e: Expr, b: Block, c: Block)
    ensures f in FactsAfter(AssignCtx(members, e), facts) <==>
      f in facts && !(f.place.root == "ctx" && members <= f.place.members)
    ensures FactsAfter(Let(name, e), facts) == FactsAfter(If(e, b, c), facts) == FactsAfter(Evaluate(e), facts) == facts
    ensures ThenFacts(If(e, b, c), facts) == facts + EdgeFacts(e, true)
    ensures ElseFacts(If(e, b, c), facts) == facts + EdgeFacts(e, false)
  {
  }

  /** At every statement that the run reaches, all the facts the type checker has there are true. */
  ghost predicate TrueAlong(b: Block, facts: set<TypeFact>, s: Store)
    requires HasCtx(s)
    decreases b
  {
    && AllHold(facts, s)
    && (b != [] ==>
        && TrueInside(b[0], facts, s)
        && var r := ExecStmt(b[0], s);
           (r.Next? && HasCtx(r.store) ==> TrueAlong(b[1..], FactsAfter(b[0], facts), r.store)))
  }

  ghost predicate TrueInside(st: Stmt, facts: set<TypeFact>, s: Store)
    requires HasCtx(s)
    decreases st
  {
    st.If? ==>
      && (IsBool(Eval(st.cond, s), true) ==> TrueAlong(st.thenBlock, ThenFacts(st, facts), s))
      && (IsBool(Eval(st.cond, s), false) ==> TrueAlong(st.elseBlock, ElseFacts(st, facts), s))
  }
}
