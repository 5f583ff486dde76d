/** The pass manager and its default pipeline (src/compiler/passes/pass_manager.cpp), with the
    freshness of derived analyses (src/compiler/ir/analysis.cpp). */
module PassPipeline {
  import opened Wrappers
  import opened Workflows
  import A = DeadStates
  import E = ExprCanonicalization
  import T = TemporalSimplification

  datatype Clause = BoolClause(e: E.Expr) | TemporalClause(f: T.Formula)

  /** `rest` and `content` stand for what no pass looks at: node inputs, flows, types and so on. */
  datatype Decl =
    | AgentDecl(agent: A.Agent)
    | ContractDecl(clauses: seq<Clause>)
    | WorkflowDecl(nodes: seq<WorkflowNode>, safety: seq<T.Formula>, liveness: seq<T.Formula>, rest: nat)
    | OtherDecl(content: nat)

  type Decls = seq<Decl>

  // --------------------------------------------------------------- derived analyses

  datatype Phase = Lowered | Analyzed | Optimized

  /** How the derived analyses are computed, and when their tables have the entries needed. */
  datatype Derivation<!D> = Derivation(compute: Decls -> D, hasEntries: (Decls, D) -> bool)

  class Program<D> {
    const derivation: Derivation<D>
    var decls: Decls
    var derived: D
    var sourceRevision: nat
    var revision: nat
    var phase: Phase
    /** The declarations that the derived analyses were computed from. */
    ghost var computedFrom: Decls

    constructor (derivation: Derivation<D>, decls: Decls, derived: D)
      ensures this.derivation == derivation && this.decls == decls && this.derived == derived
      ensures phase == Lowered && Valid()
    {
      this.derivation, this.decls, this.derived := derivation, decls, derived;
      sourceRevision, revision, phase := 0, 0, Lowered;
    }

    ghost predicate Valid()
      reads this
    {
      sourceRevision <= revision && (phase != Lowered ==> derived == derivation.compute(computedFrom))
    }

    /** What the revisions say, the tables apart. */
    ghost predicate LooksFresh()
      reads this
    {
      phase != Lowered && sourceRevision == revision
    }

    /** What the derived analyses were computed from, if they look fresh. */
    ghost function Base(): Option<Decls>
      reads this
    {
      if LooksFresh() then Some(computedFrom) else None
    }

    /** Derived analyses that look fresh are those of the current declarations. */
    ghost predicate FreshIsRight()
      reads this
    {
      LooksFresh() ==> computedFrom == decls
    }

    predicate HasFresh()
      reads this
    {
      phase != Lowered && sourceRevision == revision && derivation.hasEntries(decls, derived)
    }

    method MarkStale()
      modifies this`revision
      ensures revision == old(revision) + 1
    {
      revision := revision + 1;
    }

    method EnsureDerived(p: Phase)
      requires Valid() && p != Lowered
      modifies this`derived, this`sourceRevision, this`phase, this`computedFrom
      ensures Valid() && LooksFresh()
      ensures computedFrom ==
        if old(phase) != Lowered && old(sourceRevision) == revision && derivation.hasEntries(decls, old(derived))
        then old(computedFrom) else decls
    {
      if HasFresh() {
        return;
      }
      derived := derivation.compute(decls);
      sourceRevision := revision;
      phase := p;
      computedFrom := decls;
    }
  }

  // --------------------------------------------------------------------- the manager

  /** What a pass makes of the declarations, and whether it says that it modified them. */
  datatype Pass = Pass(name: string, effect: Decls -> (Decls, bool))

  /** An empty filter lets every pass run. */
  predicate Enabled(pass: Pass, filter: set<string>) {
    filter == {} || pass.name in filter
  }

  ghost function RunPasses(passes: seq<Pass>, filter: set<string>, decls: Decls): (Decls, bool) {
    if passes == [] then (decls, false)
    else
      var (before, modified) := RunPasses(passes[..|passes| - 1], filter, decls);
      var pass := passes[|passes| - 1];
      if Enabled(pass, filter) then (pass.effect(before).0, modified || pass.effect(before).1)
      else (before, modified)
  }

  /** The declarations as they were after the last report. */
  ghost function LastReported(passes: seq<Pass>, filter: set<string>, decls: Decls): Option<Decls> {
    if passes == [] then None
    else
      var before := RunPasses(passes[..|passes| - 1], filter, decls).0;
      var (after, modified) := passes[|passes| - 1].effect(before);
      if Enabled(passes[|passes| - 1], filter) && modified then Some(after)
      else LastReported(passes[..|passes| - 1], filter, decls)
  }

  ghost function Later(reported: Option<Decls>, base: Option<Decls>): Option<Decls> {
    if reported.Some? then reported else base
  }

  /** The declarations that the derived analyses are computed from after a run: those of the last report, or
      those from which they were computed before if they looked fresh, unless their tables lack an entry. */
  ghost function ComputedFrom<D>(d: Derivation<D>, passes: seq<Pass>, filter: set<string>, decls: Decls,
                                 base: Option<Decls>): Decls {
    var after := RunPasses(passes, filter, decls).0;
    var reported := LastReported(passes, filter, decls);
    var last := Later(reported, base);
    if last.Some? && d.hasEntries(after, d.compute(last.value)) then last.value else after
  }

  /** Every pass that changes what it is given says so. */
  ghost predicate Honest(passes: seq<Pass>, filter: set<string>, decls: Decls) {
    passes == [] ||
      (&& Honest(passes[..|passes| - 1], filter, decls)
       && var before := RunPasses(passes[..|passes| - 1], filter, decls).0;
          var (after, modified) := passes[|passes| - 1].effect(before);
          Enabled(passes[|passes| - 1], filter) && !modified ==> after == before)
  }

  /** Runs until one reports nothing, at most `n` times. */
  ghost function Iterate(passes: seq<Pass>, filter: set<string>, n: nat, decls: Decls): (Decls, bool) {
    if n == 0 then (decls, false)
    else
      var (after, modified) := RunPasses(passes, filter, decls);
      if !modified then (after, false) else (Iterate(passes, filter, n - 1, after).0, true)
  }

  ghost predicate HonestAll(passes: seq<Pass>, filter: set<string>, n: nat, decls: Decls) {
    n == 0 ||
      (&& Honest(passes, filter, decls)
       && var (after, modified) := RunPasses(passes, filter, decls);
          (modified ==> HonestAll(passes, filter, n - 1, after)))
  }

  ghost function IteratedFrom<D>(d: Derivation<D>, passes: seq<Pass>, filter: set<string>, n: nat, decls: Decls,
                                 base: Option<Decls>): Option<Decls> {
    if n == 0 then base
    else
      var (after, modified) := RunPasses(passes, filter, decls);
      var next := Some(ComputedFrom(d, passes, filter, decls, base));
      if !modified then next else IteratedFrom(d, passes, filter, n - 1, after, next)
  }

  class PassManager<D(!new), R> {
    const passes: seq<Pass>
    const analyses: seq<(Decls, D) -> R>
    const filter: set<string>
    var results: seq<Option<R>>

    constructor (passes: seq<Pass>, analyses: seq<(Decls, D) -> R>, filter: set<string>)
      ensures this.passes == passes && this.analyses == analyses && this.filter == filter && results == []
    {
      this.passes, this.analyses, this.filter, results := passes, analyses, filter, [];
    }

    /** A result that is there already is kept, whatever program it was computed for. */
    ghost function ResultsFor(before: seq<Option<R>>, decls: Decls, derived: D): seq<Option<R>> {
      seq(|analyses|, i requires 0 <= i < |analyses| =>
        if i < |before| && before[i].Some? then before[i] else Some(analyses[i](decls, derived)))
    }

    method Run(p: Program<D>) returns (anyModified: bool)
      requires p.Valid() && |results| <= |analyses|
      modifies this, p
      ensures (p.decls, anyModified) == RunPasses(passes, filter, old(p.decls))
      ensures p.Valid() && p.LooksFresh()
      ensures p.computedFrom == ComputedFrom(p.derivation, passes, filter, old(p.decls), old(p.Base()))
      ensures old(p.FreshIsRight()) && Honest(passes, filter, old(p.decls)) ==> p.computedFrom == p.decls
      ensures |results| == |analyses| && results == ResultsFor(old(results), p.decls, p.derived)
      ensures forall i :: 0 <= i < |results| ==>
        results[i] == if i < |old(results)| && old(results)[i].Some? then old(results)[i]
                      else Some(analyses[i](p.decls, p.derived))
    {
      ghost var base := p.Base();
      ghost var start := p.decls;
      anyModified := RunTransformations(p);
      p.EnsureDerived(Analyzed);
      RunAnalyses(p);
      if base != None ==> base == Some(start) {
        HonestRunIsFresh(p.derivation, passes, filter, start, base);
      }
    }

    method RunTransformations(p: Program<D>) returns (anyModified: bool)
      requires p.Valid()
      modifies p
      ensures (p.decls, anyModified) == RunPasses(passes, filter, old(p.decls)) && p.Valid()
      ensures p.Base()
              == Later(LastReported(passes, filter, old(p.decls)), old(p.Base()))
    {
      hide RunPasses, Enabled, LastReported;
      anyModified := false;
      NoPasses(passes, filter, p.decls);
      ghost var base := p.Base();
      for i := 0 to |passes|
        invariant (p.decls, anyModified) == RunPasses(passes[..i], filter, old(p.decls))
        invariant p.Valid()
        invariant p.Base() == Later(LastReported(passes[..i], filter, old(p.decls)), base)
      {
        NextPass(passes, filter, old(p.decls), i);
        if Enabled(passes[i], filter) {
          var (after, modified) := passes[i].effect(p.decls);
          p.decls := after;
          if modified {
            anyModified := true;
            p.MarkStale();
            p.EnsureDerived(Optimized);
          }
        }
      }
      assert passes[..|passes|] == passes;
    }

    method RunAnalyses(p: Program<D>)
      requires |results| <= |analyses|
      modifies this
      ensures results == ResultsFor(old(results), p.decls, p.derived)
    {
      results := results + seq(|analyses| - |results|, _ => None);
      ghost var resized := results;
      for i := 0 to |analyses|
        invariant |results| == |analyses| && results[i..] == resized[i..]
        invariant forall j :: 0 <= j < i ==>
          results[j] == if resized[j].Some? then resized[j] else Some(analyses[j](p.decls, p.derived))
      {
        assert results[i] == resized[i];
        if results[i].None? {
          results := results[i := Some(analyses[i](p.decls, p.derived))];
        }
      }
    }

    /** On a manager without results, what the analyses say is about the program after the first
        run. */
    method RunToFixpoint(p: Program<D>, maxIterations: nat) returns (anyModified: bool)
      requires p.Valid() && |results| <= |analyses|
      modifies this, p
      ensures (p.decls, anyModified) == Iterate(passes, filter, maxIterations, old(p.decls))
      ensures p.Valid()
      ensures p.Base()
              == IteratedFrom(p.derivation, passes, filter, maxIterations, old(p.decls), old(p.Base()))
      ensures old(p.FreshIsRight()) && HonestAll(passes, filter, maxIterations, old(p.decls)) ==> p.FreshIsRight()
      ensures maxIterations > 0 ==> p.LooksFresh()
      ensures maxIterations > 0 && old(results) == [] ==>
        var first := RunPasses(passes, filter, old(p.decls)).0;
        var base := ComputedFrom(p.derivation, passes, filter, old(p.decls), old(p.Base()));
        results == ResultsFor([], first, p.derivation.compute(base))
    {
      hide ComputedFrom, RunPasses, Honest;
      anyModified := false;
      ghost var start := p.decls;
      ghost var base := p.Base();
      if base != None ==> base == Some(start) {
        HonestIterationIsFresh(p.derivation, passes, filter, maxIterations, start, base);
      }
      var i := 0;
      while i < maxIterations
        invariant i <= maxIterations && p.Valid() && |results| <= |analyses|
        invariant i == 0 ==> p.decls == start && p.Base() == base && !anyModified && results == old(results)
        invariant i > 0 ==> |results| == |analyses| && forall k :: 0 <= k < |results| ==> results[k].Some?
        invariant i > 0 ==> anyModified && p.LooksFresh()
        invariant i > 0 ==>
          Iterate(passes, filter, maxIterations, start) == (Iterate(passes, filter, maxIterations - i, p.decls).0, true)
        invariant IteratedFrom(p.derivation, passes, filter, maxIterations, start, base)
          == IteratedFrom(p.derivation, passes, filter, maxIterations - i, p.decls, p.Base())
        invariant i > 0 && old(results) == [] ==>
          var first := RunPasses(passes, filter, start).0;
          results == ResultsFor([], first, p.derivation.compute(ComputedFrom(p.derivation, passes, filter, start, base)))
      {
        ghost var had, before := results, p.decls;
        var modified := Run(p);
        if i == 0 {
          assert before == start;
          assert had == [] ==> results == ResultsFor([], p.decls, p.derived);
        }
        KeptResults(had, p.decls, p.derived, i > 0);
        if !modified {
          break;
        }
        anyModified := true;
        i := i + 1;
      }
    }

    lemma KeptResults(before: seq<Option<R>>, decls: Decls, derived: D, full: bool)
      requires full ==> |before| == |analyses| && forall i :: 0 <= i < |before| ==> before[i].Some?
      ensures full ==> ResultsFor(before, decls, derived) == before
    {
    }
  }

  lemma NoPasses(passes: seq<Pass>, filter: set<string>, decls: Decls)
    ensures RunPasses(passes[..0], filter, decls) == (decls, false)
    ensures LastReported(passes[..0], filter, decls) == None
  {
  }

  lemma NextPass(passes: seq<Pass>, filter: set<string>, decls: Decls, i: nat)
    requires i < |passes|
    ensures var (before, modified) := RunPasses(passes[..i], filter, decls);
      var (after, reported) := passes[i].effect(before);
      && RunPasses(passes[..i + 1], filter, decls)
         == (if Enabled(passes[i], filter) then (after, modified || reported) else (before, modified))
      && LastReported(passes[..i + 1], filter, decls)
         == (if Enabled(passes[i], filter) && reported then Some(after) else LastReported(passes[..i], filter, decls))
  {
    assert passes[..i + 1][..i] == passes[..i];
  }

  /** Passes run one after the other, those that the filter names or all if it names none. */
  lemma RunsInOrder(passes: seq<Pass>, pass: Pass, filter: set<string>, decls: Decls)
    ensures RunPasses([], filter, decls) == (decls, false)
    ensures var (before, modified) := RunPasses(passes, filter, decls);
      var (after, reported) := pass.effect(before);
      RunPasses(passes + [pass], filter, decls)
      == if filter == {} || pass.name in filter then (after, modified || reported) else (before, modified)
    ensures var (before, modified) := RunPasses(passes, filter, decls);
      var (after, reported) := pass.effect(before);
      LastReported(passes + [pass], filter, decls)
      == if (filter == {} || pass.name in filter) && reported then Some(after) else LastReported(passes, filter, decls)
    ensures LastReported([], filter, decls) == None
  {
    assert (passes + [pass])[..|passes|] == passes;
  }

  /** Iterating stops behind the first run without a report, or when the runs are used up. */
  lemma IteratesToTheFirstQuietRun(passes: seq<Pass>, filter: set<string>, n: nat, decls: Decls)
    ensures Iterate(passes, filter, 0, decls) == (decls, false)
    ensures !RunPasses(passes, filter, decls).1 ==>
      Iterate(passes, filter, n + 1, decls) == (RunPasses(passes, filter, decls).0, false)
    ensures RunPasses(passes, filter, decls).1 ==>
      Iterate(passes, filter, n + 1, decls) == (Iterate(passes, filter, n, RunPasses(passes, filter, decls).0).0, true)
  {
  }

  /** Derived analyses are of the declarations at the last report of the run, or before it of those that they were
      of already, as long as their tables have all entries; otherwise of the declarations after the run. */
  lemma DerivedAreOf<D>(d: Derivation<D>, passes: seq<Pass>, filter: set<string>, decls: Decls, base: Option<Decls>, x: Decls)
    requires LastReported(passes, filter, decls) == Some(x)
             || (LastReported(passes, filter, decls) == None && base == Some(x))
    ensures ComputedFrom(d, passes, filter, decls, base)
      == if d.hasEntries(RunPasses(passes, filter, decls).0, d.compute(x)) then x else RunPasses(passes, filter, decls).0
  {
  }

  /** A run of honest passes leaves what the derived analyses are computed from in step. */
  lemma {:induction false} HonestIsInStep(passes: seq<Pass>, filter: set<string>, decls: Decls)
    requires Honest(passes, filter, decls)
    ensures Later(LastReported(passes, filter, decls), Some(decls)) == Some(RunPasses(passes, filter, decls).0)
    ensures LastReported(passes, filter, decls).Some? ==>
      LastReported(passes, filter, decls).value == RunPasses(passes, filter, decls).0
  {
    if passes != [] {
      HonestIsInStep(passes[..|passes| - 1], filter, decls);
    }
  }

  lemma HonestRunIsFresh<D>(d: Derivation<D>, passes: seq<Pass>, filter: set<string>, decls: Decls, base: Option<Decls>)
    requires base == None || base == Some(decls)
    ensures Honest(passes, filter, decls) ==>
      ComputedFrom(d, passes, filter, decls, base) == RunPasses(passes, filter, decls).0
  {
    if Honest(passes, filter, decls) {
      HonestIsInStep(passes, filter, decls);
    }
  }

  lemma {:induction false} StaysComputed<D>(d: Derivation<D>, passes: seq<Pass>, filter: set<string>, n: nat,
                                            decls: Decls, base: Decls)
    ensures IteratedFrom(d, passes, filter, n, decls, Some(base)).Some?
  {
    hide ComputedFrom, RunPasses;
    if n > 0 {
      var next := ComputedFrom(d, passes, filter, decls, Some(base));
      StaysComputed(d, passes, filter, n - 1, RunPasses(passes, filter, decls).0, next);
    }
  }

  lemma {:induction false} HonestIterationIsFresh<D>(d: Derivation<D>, passes: seq<Pass>, filter: set<string>, n: nat,
                                                     decls: Decls, base: Option<Decls>)
    requires base == None || base == Some(decls)
    ensures n > 0 || base.Some? ==> IteratedFrom(d, passes, filter, n, decls, base).Some?
    ensures HonestAll(passes, filter, n, decls) ==>
      Later(IteratedFrom(d, passes, filter, n, decls, base), Some(decls)) == Some(Iterate(passes, filter, n, decls).0)
  {
    hide ComputedFrom, RunPasses, Honest;
    if n > 0 {
      HonestRunIsFresh(d, passes, filter, decls, base);
      var (after, modified) := RunPasses(passes, filter, decls);
      if modified {
        StaysComputed(d, passes, filter, n - 1, after, ComputedFrom(d, passes, filter, decls, base));
        if HonestAll(passes, filter, n, decls) {
          HonestIterationIsFresh(d, passes, filter, n - 1, after, Some(after));
        }
      }
    }
  }
}
