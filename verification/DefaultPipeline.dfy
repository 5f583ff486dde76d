/** The default pipeline: dead states, workflows, expressions, temporal formulas, in this order
    (src/compiler/passes/pass_manager.cpp). */
module DefaultPipeline {
  import opened Wrappers
  import opened Graphs
  import opened Workflows
  import opened PassPipeline
  import opened TransitiveReduction
  import A = DeadStates
  import W = WorkflowSimplification
  import E = ExprCanonicalization
  import T = TemporalSimplification

  datatype PassKind = DeadStateElimination | WorkflowSimplification | ExprCanonicalization | TemporalSimplification

  function NameOf(k: PassKind): string {
    match k
    case DeadStateElimination => "dead-state-elimination"
    case WorkflowSimplification => "workflow-simplification"
    case ExprCanonicalization => "expr-canonicalization"
    case TemporalSimplification => "temporal-simplification"
  }

  ghost function SimplifiedAll(fs: seq<T.Formula>): seq<T.Formula> {
    seq(|fs|, i requires 0 <= i < |fs| => T.Simplified(fs[i]))
  }

  ghost function OnClause(k: PassKind, c: Clause): Clause {
    if k == ExprCanonicalization && c.BoolClause? then BoolClause(E.Canonical(c.e))
    else if k == TemporalSimplification && c.TemporalClause? then TemporalClause(T.Simplified(c.f))
    else c
  }

  ghost function OnDecl(k: PassKind, d: Decl): Decl {
    if k == DeadStateElimination && d.AgentDecl? then AgentDecl(A.Eliminated(d.agent))
    else if k == WorkflowSimplification && d.WorkflowDecl? then d.(nodes := W.Simplified(d.nodes))
    else if k == TemporalSimplification && d.WorkflowDecl? then
      d.(safety := SimplifiedAll(d.safety), liveness := SimplifiedAll(d.liveness))
    else if d.ContractDecl? then
      ContractDecl(seq(|d.clauses|, i requires 0 <= i < |d.clauses| => OnClause(k, d.clauses[i])))
    else d
  }

  ghost function OnDecls(k: PassKind, decls: Decls): (r: Decls)
    ensures |r| == |decls| && forall i :: 0 <= i < |r| ==> r[i] == OnDecl(k, decls[i])
  {
    seq(|decls|, i requires 0 <= i < |decls| => OnDecl(k, decls[i]))
  }

  /** Dead-state elimination reports the agents that lose a state, the others any change. */
  ghost predicate Reports(k: PassKind, decls: Decls) {
    if k == DeadStateElimination then
      exists i :: 0 <= i < |decls| && decls[i].AgentDecl? && A.Flagged(decls[i].agent)
    else OnDecls(k, decls) != decls
  }

  ghost function PassOf(k: PassKind): Pass {
    Pass(NameOf(k), decls => (OnDecls(k, decls), Reports(k, decls)))
  }

  ghost function DefaultPasses(): seq<Pass> {
    [PassOf(DeadStateElimination), PassOf(WorkflowSimplification), PassOf(ExprCanonicalization),
     PassOf(TemporalSimplification)]
  }

  /** The passes by name, in their order. */
  lemma NamesInOrder()
    ensures |DefaultPasses()| == 4
    ensures DefaultPasses()[0].name == "dead-state-elimination" && DefaultPasses()[1].name == "workflow-simplification"
    ensures DefaultPasses()[2].name == "expr-canonicalization" && DefaultPasses()[3].name == "temporal-simplification"
  {
  }

  /** What each pass makes of a declaration that it looks into. */
  lemma PassesRewrite(decls: Decls, i: nat, a: A.Agent, nodes: seq<WorkflowNode>, safety: seq<T.Formula>,
                      liveness: seq<T.Formula>, rest: nat)
    requires i < |decls|
    ensures var d, p := decls[i], DefaultPasses();
      var d0, d1 := p[0].effect(decls).0[i], p[1].effect(decls).0[i];
      var d2, d3 := p[2].effect(decls).0[i], p[3].effect(decls).0[i];
      && (d == AgentDecl(a) ==> d0 == AgentDecl(A.Eliminated(a)) && d1 == d2 == d3 == d)
      && (d == WorkflowDecl(nodes, safety, liveness, rest) ==>
            && d1 == WorkflowDecl(W.Simplified(nodes), safety, liveness, rest) && d0 == d2 == d
            && d3.WorkflowDecl? && d3.nodes == nodes && d3.rest == rest
            && |d3.safety| == |safety| && (forall j :: 0 <= j < |safety| ==> d3.safety[j] == T.Simplified(safety[j]))
            && |d3.liveness| == |liveness|
            && (forall j :: 0 <= j < |liveness| ==> d3.liveness[j] == T.Simplified(liveness[j])))
      && (d.OtherDecl? ==> d0 == d1 == d2 == d3 == d)
  {
  }

  /** In contracts expressions and formulas, each by its own pass. */
  lemma PassesRewriteClauses(decls: Decls, i: nat, j: nat, e: E.Expr, f: T.Formula)
    requires i < |decls| && decls[i].ContractDecl? && j < |decls[i].clauses|
    ensures var p := DefaultPasses();
      forall k :: 0 <= k < 4 ==>
        && p[k].effect(decls).0[i].ContractDecl? && |p[k].effect(decls).0[i].clauses| == |decls[i].clauses|
        && var c, r := decls[i].clauses[j], p[k].effect(decls).0[i].clauses[j];
           && (c == BoolClause(e) ==> r == if k == 2 then BoolClause(E.Canonical(e)) else c)
           && (c == TemporalClause(f) ==> r == if k == 3 then TemporalClause(T.Simplified(f)) else c)
  {
  }

  /** Dead-state elimination reports agents that lose a state, every other pass any change. */
  lemma PassesReport(decls: Decls)
    ensures var p := DefaultPasses();
      && (p[0].effect(decls).1 <==>
            exists i :: 0 <= i < |decls| && decls[i].AgentDecl? && |A.Eliminated(decls[i].agent).states| != |decls[i].agent.states|)
      && forall k :: 1 <= k < 4 ==> (p[k].effect(decls).1 <==> p[k].effect(decls).0 != decls)
  {
  }

  // ------------------------------------------------------------------ the whole run

  ghost predicate On(k: PassKind, filter: set<string>) {
    Enabled(PassOf(k), filter)
  }

  ghost function StepDecls(k: PassKind, filter: set<string>, decls: Decls): Decls {
    if On(k, filter) then OnDecls(k, decls) else decls
  }

  ghost predicate StepReports(k: PassKind, filter: set<string>, decls: Decls) {
    On(k, filter) && Reports(k, decls)
  }

  lemma RunPassesSnoc(passes: seq<Pass>, k: PassKind, filter: set<string>, decls: Decls)
    ensures var before := RunPasses(passes, filter, decls);
      RunPasses(passes + [PassOf(k)], filter, decls)
      == (StepDecls(k, filter, before.0), before.1 || StepReports(k, filter, before.0))
  {
  }

  /** The run pass by pass. */
  lemma DefaultRun(filter: set<string>, d0: Decls)
    returns (d1: Decls, d2: Decls, d3: Decls, d4: Decls)
    ensures d1 == StepDecls(DeadStateElimination, filter, d0)
    ensures d2 == StepDecls(WorkflowSimplification, filter, d1)
    ensures d3 == StepDecls(ExprCanonicalization, filter, d2)
    ensures d4 == StepDecls(TemporalSimplification, filter, d3)
    ensures RunPasses(DefaultPasses(), filter, d0).0 == d4
    ensures RunPasses(DefaultPasses(), filter, d0).1 <==>
      || StepReports(DeadStateElimination, filter, d0) || StepReports(WorkflowSimplification, filter, d1)
      || StepReports(ExprCanonicalization, filter, d2) || StepReports(TemporalSimplification, filter, d3)
  {
    hide StepDecls, StepReports, RunPasses, PassOf;
    d1 := StepDecls(DeadStateElimination, filter, d0);
    d2 := StepDecls(WorkflowSimplification, filter, d1);
    d3 := StepDecls(ExprCanonicalization, filter, d2);
    d4 := StepDecls(TemporalSimplification, filter, d3);
    var p0: seq<Pass> := [];
    var p1 := p0 + [PassOf(DeadStateElimination)];
    var p2 := p1 + [PassOf(WorkflowSimplification)];
    var p3 := p2 + [PassOf(ExprCanonicalization)];
    NoPasses(p0, filter, d0);
    assert p0[..0] == p0;
    RunPassesSnoc(p0, DeadStateElimination, filter, d0);
    RunPassesSnoc(p1, WorkflowSimplification, filter, d0);
    RunPassesSnoc(p2, ExprCanonicalization, filter, d0);
    RunPassesSnoc(p3, TemporalSimplification, filter, d0);
    assert p3 + [PassOf(TemporalSimplification)] == DefaultPasses();
  }

  // ----------------------------------------------------------- one iteration is enough

  /** The pass leaves the declarations alone and reports nothing. */
  ghost predicate Done(k: PassKind, decls: Decls) {
    OnDecls(k, decls) == decls && !Reports(k, decls)
  }

  lemma SimplifiedAllTwice(fs: seq<T.Formula>)
    ensures SimplifiedAll(SimplifiedAll(fs)) == SimplifiedAll(fs)
  {
    forall i | 0 <= i < |fs|
      ensures T.Simplified(T.Simplified(fs[i])) == T.Simplified(fs[i])
    {
      T.SecondRunChangesNothing(fs[i]);
    }
  }

  lemma ClauseTwice(k: PassKind, c: Clause)
    ensures OnClause(k, OnClause(k, c)) == OnClause(k, c)
  {
    if c.BoolClause? {
      E.SecondRunChangesNothing(c.e);
    } else {
      T.SecondRunChangesNothing(c.f);
    }
  }

  lemma DeclTwice(k: PassKind, d: Decl)
    ensures OnDecl(k, OnDecl(k, d)) == OnDecl(k, d)
    ensures k == DeadStateElimination && d.AgentDecl? ==> !A.Flagged(OnDecl(k, d).agent)
  {
    hide A.Eliminated, A.Flagged, W.Simplified, OnClause;
    match d
    case AgentDecl(agent) => A.SecondRunChangesNothing(agent);
    case WorkflowDecl(nodes, safety, liveness, _) =>
      W.SecondRunChangesNothing(nodes);
      SimplifiedAllTwice(safety);
      SimplifiedAllTwice(liveness);
    case ContractDecl(clauses) =>
      forall i | 0 <= i < |clauses|
        ensures OnClause(k, OnClause(k, clauses[i])) == OnClause(k, clauses[i])
      {
        ClauseTwice(k, clauses[i]);
      }
    case OtherDecl(_) =>
  }

  lemma DoneOnce(k: PassKind, decls: Decls)
    ensures Done(k, OnDecls(k, decls))
  {
    forall i | 0 <= i < |decls|
      ensures OnDecl(k, OnDecl(k, decls[i])) == OnDecl(k, decls[i])
      ensures k == DeadStateElimination && decls[i].AgentDecl? ==> !A.Flagged(OnDecl(k, decls[i]).agent)
    {
      DeclTwice(k, decls[i]);
    }
  }

  lemma DeclKeeps(k: PassKind, j: PassKind, d: Decl)
    requires k != j && OnDecl(k, d) == d
    ensures OnDecl(k, OnDecl(j, d)) == OnDecl(j, d)
    ensures d.AgentDecl? && k == DeadStateElimination ==> OnDecl(j, d) == d
  {
  }

  lemma DoneStays(k: PassKind, j: PassKind, decls: Decls)
    requires k != j && Done(k, decls)
    ensures Done(k, OnDecls(j, decls))
  {
    forall i | 0 <= i < |decls|
      ensures OnDecl(k, OnDecl(j, decls[i])) == OnDecl(j, decls[i])
      ensures decls[i].AgentDecl? && k == DeadStateElimination ==> OnDecl(j, decls[i]) == decls[i]
    {
      assert OnDecls(k, decls)[i] == decls[i];
      DeclKeeps(k, j, decls[i]);
    }
  }

  ghost predicate AllDone(filter: set<string>, decls: Decls) {
    forall k :: On(k, filter) ==> Done(k, decls)
  }

  lemma OneRunFinishes(filter: set<string>, decls: Decls)
    ensures AllDone(filter, RunPasses(DefaultPasses(), filter, decls).0)
  {
    hide Done, OnDecls, RunPasses, On, DefaultPasses;
    var d1, d2, d3, d4 := DefaultRun(filter, decls);
    forall k | On(k, filter)
      ensures Done(k, d4)
    {
      if k == DeadStateElimination {
        DoneOnce(k, decls);
        DoneStays(k, WorkflowSimplification, d1);
        DoneStays(k, ExprCanonicalization, d2);
        DoneStays(k, TemporalSimplification, d3);
      } else if k == WorkflowSimplification {
        DoneOnce(k, d1);
        DoneStays(k, ExprCanonicalization, d2);
        DoneStays(k, TemporalSimplification, d3);
      } else if k == ExprCanonicalization {
        DoneOnce(k, d2);
        DoneStays(k, TemporalSimplification, d3);
      } else {
        DoneOnce(k, d3);
      }
    }
  }

  lemma DoneRunsToItself(filter: set<string>, decls: Decls)
    requires AllDone(filter, decls)
    ensures RunPasses(DefaultPasses(), filter, decls) == (decls, false)
  {
    hide OnDecls, Reports, RunPasses, On, DefaultPasses;
    var d1, d2, d3, d4 := DefaultRun(filter, decls);
  }

  /** Main result: with any filter, one run of the default pipeline does all there is to do. A second
      run changes nothing and reports nothing, so that running to a fixpoint is running once. */
  lemma OneIterationIsEnough(filter: set<string>, decls: Decls, n: nat)
    requires n > 0
    ensures Iterate(DefaultPasses(), filter, n, decls).0 == RunPasses(DefaultPasses(), filter, decls).0
    ensures Iterate(DefaultPasses(), filter, n, decls).1 == RunPasses(DefaultPasses(), filter, decls).1
  {
    hide RunPasses, DefaultPasses;
    var after := RunPasses(DefaultPasses(), filter, decls).0;
    OneRunFinishes(filter, decls);
    DoneRunsToItself(filter, after);
    if n > 1 {
      assert Iterate(DefaultPasses(), filter, n - 1, after) == (after, false);
    }
  }

  // ------------------------------------------------------------------------- honesty

  ghost predicate AgentsDeclared(decls: Decls) {
    forall i :: 0 <= i < |decls| && decls[i].AgentDecl? ==> A.Declared(decls[i].agent)
  }

  lemma UnreportedIsUnchanged(k: PassKind, decls: Decls)
    requires AgentsDeclared(decls) && !Reports(k, decls)
    ensures OnDecls(k, decls) == decls
  {
    if k == DeadStateElimination {
      forall i | 0 <= i < |decls|
        ensures OnDecl(k, decls[i]) == decls[i]
      {
        if decls[i].AgentDecl? {
          A.ExactlyTheLiveOnesStay(decls[i].agent);
        }
      }
    }
  }

  lemma AgentsStayDeclared(k: PassKind, filter: set<string>, decls: Decls)
    requires AgentsDeclared(decls)
    ensures AgentsDeclared(StepDecls(k, filter, decls))
  {
    var after := StepDecls(k, filter, decls);
    forall i | 0 <= i < |after| && after[i].AgentDecl?
      ensures A.Declared(after[i].agent)
    {
      assert decls[i].AgentDecl?;
      A.StaysDeclared(decls[i].agent);
    }
  }

  lemma HonestSnoc(passes: seq<Pass>, k: PassKind, filter: set<string>, decls: Decls)
    requires Honest(passes, filter, decls) && AgentsDeclared(RunPasses(passes, filter, decls).0)
    ensures Honest(passes + [PassOf(k)], filter, decls)
    ensures AgentsDeclared(RunPasses(passes + [PassOf(k)], filter, decls).0)
  {
    var longer := passes + [PassOf(k)];
    var before := RunPasses(passes, filter, decls).0;
    assert longer[..|longer| - 1] == passes;
    RunPassesSnoc(passes, k, filter, decls);
    AgentsStayDeclared(k, filter, before);
    if !Reports(k, before) {
      UnreportedIsUnchanged(k, before);
    }
  }

  /** With declared agents every pass reports what it changes, in every iteration; this is what the
      pass manager needs to keep the derived analyses right. */
  lemma DefaultPassesAreHonest(filter: set<string>, decls: Decls, n: nat)
    requires AgentsDeclared(decls)
    ensures HonestAll(DefaultPasses(), filter, n, decls)
  {
    hide PassOf, RunPasses;
    if n > 0 {
      OneRunIsHonest(filter, decls);
      var after := RunPasses(DefaultPasses(), filter, decls).0;
      if n > 1 {
        OneRunIsHonest(filter, after);
        OneRunFinishes(filter, decls);
        DoneRunsToItself(filter, after);
      }
    }
  }

  lemma OneRunIsHonest(filter: set<string>, decls: Decls)
    requires AgentsDeclared(decls)
    ensures Honest(DefaultPasses(), filter, decls)
    ensures AgentsDeclared(RunPasses(DefaultPasses(), filter, decls).0)
  {
    hide PassOf, RunPasses, Honest;
    var p0: seq<Pass> := [];
    var p1 := p0 + [PassOf(DeadStateElimination)];
    var p2 := p1 + [PassOf(WorkflowSimplification)];
    var p3 := p2 + [PassOf(ExprCanonicalization)];
    NoPassesAreHonest(filter, decls);
    HonestSnoc(p0, DeadStateElimination, filter, decls);
    HonestSnoc(p1, WorkflowSimplification, filter, decls);
    HonestSnoc(p2, ExprCanonicalization, filter, decls);
    HonestSnoc(p3, TemporalSimplification, filter, decls);
    assert p3 + [PassOf(TemporalSimplification)] == DefaultPasses();
  }

  lemma NoPassesAreHonest(filter: set<string>, decls: Decls)
    ensures Honest([], filter, decls) && RunPasses([], filter, decls).0 == decls
  {
  }

  // ------------------------------------------------------------ derived analyses

  /** A run that reports anything ends with a report, or changes nothing after its last. */
  ghost predicate EndsReported(passes: seq<Pass>, filter: set<string>, decls: Decls) {
    LastReported(passes, filter, decls)
    == (if RunPasses(passes, filter, decls).1 then Some(RunPasses(passes, filter, decls).0) else None)
  }

  lemma EndsReportedSnoc(passes: seq<Pass>, k: PassKind, filter: set<string>, decls: Decls)
    requires EndsReported(passes, filter, decls) && (k == DeadStateElimination ==> passes == [])
    ensures EndsReported(passes + [PassOf(k)], filter, decls)
  {
    var longer := passes + [PassOf(k)];
    assert longer[..|longer| - 1] == passes;
    RunPassesSnoc(passes, k, filter, decls);
  }

  lemma DefaultRunEndsReported(filter: set<string>, decls: Decls)
    ensures EndsReported(DefaultPasses(), filter, decls)
  {
    hide PassOf, RunPasses, EndsReported;
    var p0: seq<Pass> := [];
    var p1 := p0 + [PassOf(DeadStateElimination)];
    var p2 := p1 + [PassOf(WorkflowSimplification)];
    var p3 := p2 + [PassOf(ExprCanonicalization)];
    NothingEndsReported(filter, decls);
    EndsReportedSnoc(p0, DeadStateElimination, filter, decls);
    EndsReportedSnoc(p1, WorkflowSimplification, filter, decls);
    EndsReportedSnoc(p2, ExprCanonicalization, filter, decls);
    EndsReportedSnoc(p3, TemporalSimplification, filter, decls);
    assert p3 + [PassOf(TemporalSimplification)] == DefaultPasses();
  }

  lemma NothingEndsReported(filter: set<string>, decls: Decls)
    ensures EndsReported([], filter, decls)
  {
  }

  /** The derived analyses of the program before the run stay: they look fresh, their tables are complete,
      and no pass reports that it changed something. */
  ghost predicate Outdated<D>(d: Derivation<D>, filter: set<string>, decls: Decls, base: Option<Decls>) {
    var (after, modified) := RunPasses(DefaultPasses(), filter, decls);
    !modified && base.Some? && base.value != after && d.hasEntries(after, d.compute(base.value))
  }

  /** However often the default pipeline is iterated, its derived analyses are those of the final program
      unless they are outdated after the first run. */
  lemma {:induction false} DerivedFromTheResult<D>(d: Derivation<D>, filter: set<string>, n: nat, decls: Decls,
                                                   base: Option<Decls>)
    requires n > 0
    ensures IteratedFrom(d, DefaultPasses(), filter, n, decls, base).Some?
    ensures IteratedFrom(d, DefaultPasses(), filter, n, decls, base).value
      == if Outdated(d, filter, decls, base) then base.value else RunPasses(DefaultPasses(), filter, decls).0
  {
    hide RunPasses, DefaultPasses, LastReported;
    DefaultRunEndsReported(filter, decls);
    var (after, modified) := RunPasses(DefaultPasses(), filter, decls);
    OneRunFinishes(filter, decls);
    DoneRunsToItself(filter, after);
    if modified && n > 1 {
      DerivedFromTheResult(d, filter, n - 1, after, Some(after));
    }
  }

  /** Main result: a manager without results and with the default passes ends, however often it may iterate,
      with the program of one run, on which every analysis is computed. The derived analyses it sees are those
      of that program unless they were outdated; on declared agents they never are. */
  method RunDefaultToFixpoint<D(!new), R>(m: PassManager<D, R>, p: Program<D>, maxIterations: nat)
    returns (anyModified: bool)
    requires m.passes == DefaultPasses() && m.results == [] && p.Valid() && maxIterations > 0
    modifies m, p
    ensures (p.decls, anyModified) == RunPasses(DefaultPasses(), m.filter, old(p.decls))
    ensures AllDone(m.filter, p.decls)
    ensures p.Valid() && p.LooksFresh()
    ensures p.computedFrom == p.decls <==> !Outdated(p.derivation, m.filter, old(p.decls), old(p.Base()))
    ensures old(p.FreshIsRight()) && AgentsDeclared(old(p.decls)) ==> p.computedFrom == p.decls
    ensures |m.results| == |m.analyses|
    ensures forall i :: 0 <= i < |m.results| ==> m.results[i] == Some(m.analyses[i](p.decls, p.derived))
  {
    hide DefaultPasses, RunPasses, HonestAll, AllDone, ComputedFrom, IteratedFrom;
    if AgentsDeclared(p.decls) {
      DefaultPassesAreHonest(m.filter, p.decls, maxIterations);
    }
    OneIterationIsEnough(m.filter, p.decls, maxIterations);
    OneRunFinishes(m.filter, p.decls);
    DerivedFromTheResult(p.derivation, m.filter, maxIterations, p.decls, p.Base());
    DerivedFromTheResult(p.derivation, m.filter, 1, p.decls, p.Base());
    OneRunFrom(p.derivation, m.filter, p.decls, p.Base());
    anyModified := m.RunToFixpoint(p, maxIterations);
  }

  lemma OneRunFrom<D>(d: Derivation<D>, filter: set<string>, decls: Decls, base: Option<Decls>)
    ensures IteratedFrom(d, DefaultPasses(), filter, 1, decls, base)
      == Some(ComputedFrom(d, DefaultPasses(), filter, decls, base))
  {
    hide DefaultPasses, RunPasses, ComputedFrom;
    var after := RunPasses(DefaultPasses(), filter, decls).0;
    var next := Some(ComputedFrom(d, DefaultPasses(), filter, decls, base));
    assert IteratedFrom(d, DefaultPasses(), filter, 0, after, next) == next;
  }

  // ------------------------------------------------------------------------- meaning

  /** Formulas are true at the same positions of the same traces. */
  ghost predicate SameTruth(f: T.Formula, g: T.Formula) {
    forall t: T.Trace, i: nat :: T.Truth(f, t, i) <==> T.Truth(g, t, i)
  }

  ghost predicate SameTruths(fs: seq<T.Formula>, gs: seq<T.Formula>) {
    |fs| == |gs| && forall i :: 0 <= i < |fs| ==> SameTruth(fs[i], gs[i])
  }

  /** Wherever the first evaluates, the second evaluates to the same. */
  ghost predicate RefinesValue(e: E.Expr, f: E.Expr) {
    forall m: E.Meaning :: E.Eval(e, m).Some? ==> E.Eval(f, m) == E.Eval(e, m)
  }

  ghost predicate ClauseKept(c: Clause, d: Clause) {
    if c.BoolClause? then d.BoolClause? && RefinesValue(c.e, d.e)
    else d.TemporalClause? && SameTruth(c.f, d.f)
  }

  ghost predicate SameRuns(a: A.Agent, b: A.Agent) {
    forall p :: A.IsRun(a, p) <==> A.IsRun(b, p)
  }

  /** The agent has the same runs, the workflow the same order of nodes, and what is demanded of them
      is the same. */
  ghost predicate Kept(d: Decl, e: Decl) {
    match d
    case AgentDecl(agent) => e.AgentDecl? && SameRuns(agent, e.agent)
    case WorkflowDecl(nodes, safety, liveness, rest) =>
      && e.WorkflowDecl? && SameClosure(AfterGraph(nodes), AfterGraph(e.nodes))
      && SameTruths(safety, e.safety) && SameTruths(liveness, e.liveness) && e.rest == rest
    case ContractDecl(clauses) =>
      && e.ContractDecl? && |e.clauses| == |clauses|
      && forall i :: 0 <= i < |clauses| ==> ClauseKept(clauses[i], e.clauses[i])
    case OtherDecl(_) => e == d
  }

  ghost predicate NamesUnique(d: Decl) {
    d.WorkflowDecl? ==> UniqueNames(d.nodes)
  }

  /** The reduction of the workflow keeps its closure, as on every acyclic workflow. */
  ghost predicate Reducible(d: Decl) {
    d.WorkflowDecl? && |d.nodes| >= 2 ==> CyclesAreBare(AfterGraph(d.nodes)) && TiesAreBroken(AfterGraph(d.nodes))
  }

  lemma TruthsKept(fs: seq<T.Formula>)
    ensures SameTruths(fs, SimplifiedAll(fs))
  {
    forall i, t: T.Trace, j: nat | 0 <= i < |fs|
      ensures T.Truth(fs[i], t, j) <==> T.Truth(SimplifiedAll(fs)[i], t, j)
    {
      T.SimplifyingKeepsTruth(fs[i], t, j);
    }
  }

  lemma ClausePassKeeps(k: PassKind, c: Clause)
    ensures ClauseKept(c, OnClause(k, c))
  {
    if c.BoolClause? {
      forall m: E.Meaning | E.Eval(c.e, m).Some?
        ensures E.Eval(E.Canonical(c.e), m) == E.Eval(c.e, m)
      {
        E.CanonicalKeepsValue(c.e, m);
      }
    } else {
      forall t: T.Trace, i: nat
        ensures T.Truth(c.f, t, i) <==> T.Truth(T.Simplified(c.f), t, i)
      {
        T.SimplifyingKeepsTruth(c.f, t, i);
      }
    }
  }

  /** Only the reduction can lose anything, and exactly on workflows that are not reducible. */
  lemma PassKeepsExactly(k: PassKind, d: Decl)
    requires NamesUnique(d)
    ensures Kept(d, OnDecl(k, d)) <==> k != WorkflowSimplification || Reducible(d)
  {
    match d
    case AgentDecl(agent) =>
      forall p
        ensures A.IsRun(agent, p) <==> A.IsRun(A.Eliminated(agent), p)
      {
        A.RunsAreKept(agent, p);
      }
    case WorkflowDecl(nodes, safety, liveness, _) =>
      TruthsKept(safety);
      TruthsKept(liveness);
      if |nodes| >= 2 {
        W.ClosureKeptExactlyWhen(nodes);
      }
    case ContractDecl(clauses) =>
      forall i | 0 <= i < |clauses|
        ensures ClauseKept(clauses[i], OnClause(k, clauses[i]))
      {
        ClausePassKeeps(k, clauses[i]);
      }
    case OtherDecl(_) =>
  }

  lemma KeptIsTransitive(c: Decl, d: Decl, e: Decl)
    requires Kept(c, d) && Kept(d, e)
    ensures Kept(c, e)
  {
  }

  lemma KeptByNothing(d: Decl)
    ensures Kept(d, d)
  {
  }

  /** What is demanded of a workflow is kept both ways. */
  lemma KeptBack(d: Decl, e: Decl)
    requires d.WorkflowDecl? && Kept(d, e)
    ensures Kept(e, d)
  {
  }

  ghost function OnStep(k: PassKind, filter: set<string>, d: Decl): Decl {
    if On(k, filter) then OnDecl(k, d) else d
  }

  lemma StepKeeps(k: PassKind, filter: set<string>, d: Decl)
    requires NamesUnique(d)
    ensures Kept(d, OnStep(k, filter, d)) <==> k != WorkflowSimplification || !On(k, filter) || Reducible(d)
  {
    hide OnDecl, Kept;
    KeptByNothing(d);
    PassKeepsExactly(k, d);
  }

  /** Nodes are touched by the reduction only, which renames none. */
  lemma StepKeepsNames(k: PassKind, filter: set<string>, d: Decl)
    requires NamesUnique(d)
    ensures NamesUnique(OnStep(k, filter, d))
    ensures OnStep(k, filter, d).WorkflowDecl? <==> d.WorkflowDecl?
    ensures k != WorkflowSimplification ==> (Reducible(OnStep(k, filter, d)) <==> Reducible(d))
  {
  }

  lemma DeclKeptExactly(filter: set<string>, d: Decl)
    requires NamesUnique(d)
    ensures Kept(d, AfterAll(filter, d)) <==> (On(WorkflowSimplification, filter) ==> Reducible(d))
  {
    hide OnStep, Kept, On, Reducible, NamesUnique;
    var e1 := OnStep(DeadStateElimination, filter, d);
    var e2 := OnStep(WorkflowSimplification, filter, e1);
    var e3 := OnStep(ExprCanonicalization, filter, e2);
    var e4 := OnStep(TemporalSimplification, filter, e3);
    StepKeeps(DeadStateElimination, filter, d);
    StepKeepsNames(DeadStateElimination, filter, d);
    StepKeeps(WorkflowSimplification, filter, e1);
    StepKeepsNames(WorkflowSimplification, filter, e1);
    StepKeeps(ExprCanonicalization, filter, e2);
    StepKeepsNames(ExprCanonicalization, filter, e2);
    StepKeeps(TemporalSimplification, filter, e3);
    KeptIsTransitive(e2, e3, e4);
    if Kept(e1, e2) {
      KeptIsTransitive(d, e1, e2);
      KeptIsTransitive(d, e2, e4);
    } else {
      OnlyWorkflowsAreLost(filter, e1);
      if Kept(d, e4) {
        KeptBack(d, e1);
        KeptBack(e2, e4);
        KeptIsTransitive(e1, d, e4);
        KeptIsTransitive(e1, e4, e2);
      }
    }
  }

  lemma OnlyWorkflowsAreLost(filter: set<string>, d: Decl)
    requires !Reducible(d)
    ensures d.WorkflowDecl?
  {
  }

  ghost function AfterAll(filter: set<string>, d: Decl): Decl {
    OnStep(TemporalSimplification, filter, OnStep(ExprCanonicalization, filter,
      OnStep(WorkflowSimplification, filter, OnStep(DeadStateElimination, filter, d))))
  }

  lemma StepOnEach(k: PassKind, filter: set<string>, decls: Decls)
    ensures |StepDecls(k, filter, decls)| == |decls|
    ensures forall i :: 0 <= i < |decls| ==> StepDecls(k, filter, decls)[i] == OnStep(k, filter, decls[i])
  {
    hide OnDecl;
  }

  lemma DefaultRunOnEach(filter: set<string>, decls: Decls)
    ensures var after := RunPasses(DefaultPasses(), filter, decls).0;
      |after| == |decls| && forall i :: 0 <= i < |decls| ==> after[i] == AfterAll(filter, decls[i])
  {
    hide StepDecls, RunPasses, DefaultPasses, OnStep;
    var d1, d2, d3, d4 := DefaultRun(filter, decls);
    StepOnEach(DeadStateElimination, filter, decls);
    StepOnEach(WorkflowSimplification, filter, d1);
    StepOnEach(ExprCanonicalization, filter, d2);
    StepOnEach(TemporalSimplification, filter, d3);
  }

  ghost predicate AllKept(decls: Decls, after: Decls) {
    |after| == |decls| && forall i :: 0 <= i < |decls| ==> Kept(decls[i], after[i])
  }

  /** Main result: the optimized program means what the program meant exactly when the workflows are reducible,
      if the pass that reduces them is enabled. */
  lemma PipelineKeepsMeaning(filter: set<string>, decls: Decls)
    requires forall i :: 0 <= i < |decls| ==> NamesUnique(decls[i])
    ensures AllKept(decls, RunPasses(DefaultPasses(), filter, decls).0)
      <==> (On(WorkflowSimplification, filter) ==> forall i :: 0 <= i < |decls| ==> Reducible(decls[i]))
  {
    hide RunPasses, On, DefaultPasses, AfterAll, Kept, Reducible, NamesUnique;
    DefaultRunOnEach(filter, decls);
    forall i | 0 <= i < |decls|
      ensures Kept(decls[i], AfterAll(filter, decls[i]))
        <==> (On(WorkflowSimplification, filter) ==> Reducible(decls[i]))
    {
      DeclKeptExactly(filter, decls[i]);
    }
  }
}
