# A verified model of the AHFL compiler's algorithmic core

AHFL compiles agent state machines and workflow DAGs. This project models the parts of the compiler in
which an algorithm, a cache or a protocol has to be right for a reason that no single function body
shows, and proves those reasons. Code that changes things in place is modelled by methods on arrays,
sequences and class fields, each proved against a specification; case analysis is modelled by functions.

`dafny verify dfyconfig.toml` checks the whole project.

| files | what they model |
|---|---|
| `WorkflowSimplification`, `TransitiveReduction`, `TopologicalOrder`, `PlanValidation`, `PlanKeys`, `Workflows` | the workflow DAG: transitive reduction of `after` lists, Kahn's order, and the plan validator with its second cycle check and its edge keys |
| `TypeContext`, `TypeRelations`, `TypeMeaning`, `RelationSolver` | hash-consed types, the structural relations on them and what they say about values, and the memoized solver that decides the relations |
| `AliasCycles`, `AliasResolution`, `AliasSteadiness`, `AliasOrder` | the three-colour search for alias cycles, alias expansion with an active set and a memo, and which answers the memo makes depend on the order of queries |
| `FlowFacts`, `ConditionFacts`, `TypeNarrowing`, `FlowStatements`, `FlowSafety`, `FlowConsistency`, `FlowPrograms` | facts about places, where they come from, what they do to types, how they travel through a handler, and in which handlers they stay true |
| `FlowSummary` | summaries of state-handler bodies against all the ways a body can run |
| `ConstValues`, `ConstNormalization`, `Decimals`, `Digits` | sort keys and normal forms of constants, decimal and duration constants |
| `Json`, `JsonGrammar`, `JsonRoundTrip`, `JsonText`, `JsonParser`, `JsonUnicode` | the JSON parser and serializer, against the grammar of RFC 8259 (sections 2 to 7) as derivation trees |
| `ThreadPool` | the worker pool as a state machine over its atomic steps |
| `DeadStates`, `ExprCanonicalization`, `TemporalSimplification`, `PassPipeline`, `DefaultPipeline` | the optimization passes, the pass manager, and the default pipeline |
| `NameSuggestions` | edit distance and the choice of a suggestion |
| `Graphs`, `Sequences`, `Wrappers` | paths and cycles, sorting and permutations, `Option` |

## Where the code falls short, and exactly when

Each of these properties fails for some input. The lemma named first says exactly for which.

- Facts after a branch: an `if` checks its branches on copies of the facts, so an assignment inside a branch
  that falls through can leave the outer fact alive and false, and rebinding a name with `let` keeps the facts
  about the old value. `FlowSafety.SafeExactlyWhenNoChoiceFalsifies`: a block is `Safe` exactly when, from every
  store in which the live facts are true, no choice of written values and of branches whose facts are true and
  whose comparisons are with the place's own enum leaves a live fact false. The existence of stores that this
  rests on is decided place by place (`FlowConsistency`). `BranchAssignmentLeavesAFalseFact` and
  `RebindingLeavesAFalseFact` in `FlowPrograms` are runs of the executor, `CheckedAssignmentIsSafe` is a program
  that overwrites a member and tests it again.
- A variant wrapped by `some(...)` compares unequal to the bare variant, and the fact read off the comparison
  denies it. `ConditionFacts.ConditionFactHolds`: a fact fails on the selected edge exactly where it denies a
  variant that the place holds in a wrapper. The type checker rejects the comparison on the optional itself;
  `FlowPrograms.WrappedVariantLeavesAFalseFact` is a program that it accepts.
- An assignment to `ctx.a.b` replaces all of `ctx.a` at run time, while the type checker drops only the facts
  about `ctx.a.b`. `FlowFacts.ExecutorAssignments`: dropping those is enough exactly for targets of one
  member. `FlowPrograms.NestedAssignmentLeavesAFalseFact` is a run of the executor.
- The plan validator joins two node names with a NUL to make an edge key. `PlanKeys`: over a set of names all
  plans are judged rightly exactly when no two pairs of them share a key
  (`JudgedRightlyExactlyWhenKeysApart`), which is exactly when they do not hold x, z, x NUL y and y NUL z
  (`KeysCollideExactlyOnShifts`).
- Transitive reduction on a cyclic workflow, which the compiler's own validation rejects before
  (src/compiler/semantics/validate.cpp:690-770), can change the closure.
  `WorkflowSimplification.ClosureKeptExactlyWhen` says for which relations it does not.
- Dead-state elimination compares two counts, so an undeclared state can hide a dead one, and it can remove
  transitions without reporting a modification. `DeadStates.WhenThePassIsRight` says for which agents both are
  right, `SkippedExactlyWhen` when the counts agree. Validation rejects undeclared states
  (src/compiler/semantics/validate.cpp:250-315).
- `TypeContext::make` for a bounded string or a decimal makes a second pointer for a type that the constructors
  also make. `TypeContext.SharesExactlyWhen`: types are shared exactly when neither kind has been made both ways.
- Subtyping is not transitive through the error type, nor when two symbols have one name.
  `TypeRelations.TransitiveExactlyWithoutError` and `TransitiveExactlyWhenOneToOne`.
- Sort keys do not see how many names a constant has. `ConstValues.KeysDecideExactlyWhenNamed`: keys decide
  equality exactly where there is one name for each child.
- A JSON object key with a control character, or used twice, does not survive printing and parsing
  (`JsonRoundTrip.RoundTrip`); a lone low surrogate escape is accepted (`JsonUnicode.EscapeReadsBack`).
- A decimal with scale zero, or with the least int64 as its units, is not read back as it was printed
  (`Decimals.RoundTrip`).
- A task submitted late may never run. `ThreadPool.RunExactlyWhenAWorkerWasLeft`: once the pool is joined a task
  has been run exactly when some worker had not exited as it was submitted.
- The answer of the type resolver can depend on what was asked before. `AliasOrder.OrderMattersExactly`: for a
  type it does exactly when the type names an alias from which edges that leave the cycles lead to an alias whose
  body names another one on the same cycle that is more than another name for it. Some answer of a program does
  exactly when two aliases lie on a common cycle and one of them does more than rename
  (`OrderMattersExactlyOnWildCycles`).
- Folding a contract's expression can hide that its evaluation fails.
  `ExprCanonicalization.FailureIsHiddenExactlyWhen` says under which meanings of leaves and operators, and
  `FailuresKeptExactly` for which expressions under none.
- A pass manager keeps its analysis results from run to run, whatever program they were computed for, and takes a
  pass at its word that it changed nothing (the contract of `PassPipeline.PassManager.Run`).
  `DefaultPipeline.RunDefaultToFixpoint`: with the default passes the results are about the final program, and so
  are the derived analyses, exactly unless they looked fresh with complete tables and no pass reports a change
  although there is one, which takes an agent with an undeclared state.

## Model

Where the code and its specification share a table or a form, a lemma beside it fixes that literally, as
`TypeContext.PayloadsMean`, `AliasResolution.FormsResolve`, `ConstValues.KindCodes`, `FlowSummary.StatementsDo`,
`PassPipeline.RunsInOrder` or `PlanValidation.RaisedForNames` do; such lemmas have no row.

| member | source | states |
|---|---|---|
| WorkflowSimplification.ComputeTransitiveReachable | src/compiler/passes/workflow_simplification.cpp:18-46 | the stack search finds for each node exactly the names that a path of `after` entries leads to, unknown names being sinks |
| WorkflowSimplification.WorkflowDecl.Simplify | src/compiler/passes/workflow_simplification.cpp:51-98 | the pass in place, judged by the reach sets computed before its first replacement, leaves exactly the entries that no other entry of the same node implies, and reports whether it changed anything |
| WorkflowSimplification.KeptInOrder | src/compiler/passes/workflow_simplification.cpp:51-98 | the entries that stay keep their order and their repetitions, each judged by the other entries of its node; a workflow of one node is not looked at |
| TransitiveReduction.ClosureKeptExactly | src/compiler/passes/workflow_simplification.cpp:66-90 | for every finite relation: dropping each edge that another edge of its node implies keeps the closure exactly when no node on a cycle has two successors and successors that reach each other always have another one strictly above them |
| WorkflowSimplification.ClosureKeptExactlyWhen | src/compiler/passes/workflow_simplification.cpp:51-98 | for every workflow of unique names that the pass looks at, cyclic or not, the closure is kept exactly under those two conditions on its relation |
| WorkflowSimplification.ClosureUnchanged | src/compiler/passes/workflow_simplification.cpp:51-98 | so on unique names and an acyclic relation, which is what validation lets through, the reduced workflow has exactly the same transitive dependencies |
| WorkflowSimplification.StaysAcyclic | src/compiler/passes/workflow_simplification.cpp:51-98 | the reduced workflow is acyclic again |
| WorkflowSimplification.NothingImpliedRemains | src/compiler/passes/workflow_simplification.cpp:66-90 | on every workflow that the pass looks at, cyclic or not, no dependency that stays is reachable through another one that stays |
| WorkflowSimplification.ReductionIsLeast | src/compiler/passes/workflow_simplification.cpp:51-98 | every part of the relation with the same closure has all the edges that stay, so the result is the transitive reduction |
| WorkflowSimplification.SecondRunChangesNothing | src/compiler/passes/workflow_simplification.cpp:51-98 | a second run changes nothing, with or without cycles |
| WorkflowSimplification.MutuallyReachableDependenciesVanish | src/compiler/passes/workflow_simplification.cpp:66-90 | a node whose dependencies all reach one another loses all of them |
| WorkflowSimplification.CycleBreaksTheClosure | src/compiler/passes/workflow_simplification.cpp:66-90 | a family of cyclic workflows whose closure the reduction changes |
| TopologicalOrder.TopologicalOrder | src/compiler/ir/program_view.cpp:134-186 | the queue with its counters yields no name twice, every node after all its dependencies, no node left out that could be placed, and full length exactly when every dependency names a node and none is cyclic, repeated entries included |
| TopologicalOrder.FullExactlyWhenAcyclic | src/compiler/ir/program_view.cpp:134-190 | any order that is dependency-first and maximal is full exactly when the workflow is resolved and acyclic |
| TopologicalOrder.HasUnresolvedOrCyclicDependencies | src/compiler/ir/program_view.cpp:188-190 | true exactly when some dependency names no node or lies on a cycle |
| PlanValidation.Validate | src/compiler/handoff/package.cpp:835-1067 | the diagnostics about node names, entries, edges, `after` lists and cycles that are raised are exactly those whose condition the plan meets, for any iteration order |
| PlanValidation.CountReachableFromSources | src/compiler/handoff/package.cpp:900-1067 | the second Kahn search, with duplicate edges, visits every node exactly when the known edges are acyclic |
| PlanValidation.AllVisitedExactlyWhenAcyclic | src/compiler/handoff/package.cpp:1032-1067 | a queue closed under settled predecessors holds all nodes exactly when the edges are acyclic |
| PlanValidation.CleanExactlyWhenWellFormed | src/compiler/handoff/package.cpp:900-1067 | where edge keys do not collide, a plan has no diagnostics exactly when its names, entries, dependencies and edges are right: the edges mirror the `after` lists exactly and are acyclic |
| PlanValidation.NulFreeNamesAreFaithful | src/compiler/handoff/package.cpp:799-806 | edge keys cannot collide when no node name holds a NUL |
| PlanKeys.WellFormedIsCleanExactlyWhenFaithful | src/compiler/handoff/package.cpp:799-806 | a well-formed plan is accepted exactly when no two of its pairs share a key |
| PlanKeys.JudgedRightlyExactlyWhenKeysApart | src/compiler/handoff/package.cpp:799-1067 | all plans over a set of names are accepted exactly when well-formed, if and only if no two pairs of those names share a key |
| PlanKeys.KeysCollideExactlyOnShifts | src/compiler/handoff/package.cpp:799-806 | two pairs of names share a key exactly when the names hold x, z, x NUL y and y NUL z for some x, y and z |
| PlanKeys.HalfPlanIsMisjudged | src/compiler/handoff/package.cpp:799-1067 | for every collision there is a plan that raises nothing although one of the two edges is missing |
| PlanKeys.SeparatorHidesAMissingEdge | src/compiler/handoff/package.cpp:799-806 | in particular for every shift of the separator |
| PlanValidation.Lower | src/compiler/handoff/package.cpp:381-400 | lowering lists the nodes, one edge for each `after` entry, and as entries exactly the nodes without dependencies |
| PlanKeys.LoweredPlanIsClean | src/compiler/handoff/package.cpp:381-400 | a lowered plan raises no graph diagnostic exactly when the workflow is non-empty, resolved and acyclic with unique non-empty names and no repeated `after` entry, and no two edges share a key |
| TypeContext.TypeContext.Intern | src/compiler/semantics/types.cpp:56-69 | a known key yields its pointer and changes nothing, a new one adds exactly its payload |
| TypeContext.TypeContext.Make | src/compiler/semantics/types.cpp:125-136 | the type of the kind, a bounded string with bounds 0 and 0 and a decimal with scale 0; for every other kind the only pointer with that payload |
| TypeContext.TypeContext.Construct | src/compiler/semantics/types.cpp:146-290 | each constructor yields the only pointer with its payload, adding a type only if there was none |
| TypeContext.SamePointerExactlyWhenSameType | src/compiler/semantics/types.cpp:56-123 | as long as no payload has two keys, two pointers are equal exactly when they denote the same type, nominal symbol included |
| TypeContext.SharesExactlyWhen | src/compiler/semantics/types.cpp:71-290 | in every context that can be reached each type has one pointer exactly when neither bounded strings nor decimals have been asked for both by bare kind and by the constructor with the same payload |
| TypeContext.TypeContext.MakeTwice | src/compiler/semantics/types.cpp:71-136 | for those two kinds the two ways of asking yield two pointers for one type in every context |
| TypeContext.DenotationIsStable | src/compiler/semantics/types.cpp:56-69 | interning never changes what an earlier pointer denotes |
| TypeRelations.EquivIsEqualityByName | src/compiler/semantics/type_relations.cpp:235-243 | where symbols and names agree, equivalence is equality once nominal types are told apart by name |
| TypeRelations.SubReflexive | src/compiler/semantics/type_relations.cpp:402-538 | subtyping is reflexive under every option |
| TypeRelations.SubTransitive | src/compiler/semantics/type_relations.cpp:402-538 | subtyping is transitive under every option, whatever the outer types are, when the type in the middle holds no error type outside map keys |
| TypeRelations.TransitiveExactlyWithoutError | src/compiler/semantics/type_relations.cpp:402-538 | a type lets subtyping pass through it exactly when it holds no error type outside map keys |
| TypeRelations.TransitiveExactlyWhenOneToOne | src/compiler/semantics/type_relations.cpp:235-538 | subtyping is transitive over all error-free types that agree with a table of names exactly when no two symbols of the table have one name |
| TypeRelations.SubAntisymmetric | src/compiler/semantics/type_relations.cpp:402-538 | mutual subtypes are equivalent, if neither holds an error type outside map keys |
| TypeRelations.SubRespectsEquiv | src/compiler/semantics/type_relations.cpp:402-538 | equivalent types have the same subtypes and supertypes |
| TypeMeaning.SubtypesAreInclusions | src/compiler/semantics/type_relations.cpp:402-538 | with the relaxation of bounded strings on, one error-free type lies below another exactly when every value of it is a value of the other: strings by their lengths, numbers by their places, variants by their enum, containers by what is in them, maps by the type of their keys too |
| TypeMeaning.BoundedStringsByLength | src/compiler/semantics/type_relations.cpp:504-515 | for any bounds, a bounded string type lies below another exactly when every length it allows is allowed there |
| TypeMeaning.StrictBoundedStrings | src/compiler/semantics/type_relations.cpp:496-515 | without the relaxation exactly equal bounds are related, and the plain string is related to no bounded one |
| TypeMeaning.DecimalsByPlaces | src/compiler/semantics/type_relations.cpp:528-535 | with widening a decimal type lies below another exactly when every number of its places is one of the other's places |
| TypeMeaning.NumbersWiden | src/compiler/semantics/type_relations.cpp:517-535 | integers lie below floats and decimals exactly with widening, and nothing lies below the integers or between floats and decimals |
| TypeMeaning.NominalIdentity | src/compiler/semantics/type_relations.cpp:235-372 | structs, enums and variants are the same by their symbols, and by their names only where a symbol is missing; a variant lies below exactly its enum |
| TypeMeaning.ErrorIsRelatedToAll | src/compiler/semantics/type_relations.cpp:402-440 | the error type lies above and below every type, and besides it only any is above any and only never below never |
| RelationSolver.MemoizedRelationSolver.Solve | src/compiler/semantics/type_relations.cpp:613-708 | a true answer is right even if the depth guard fires, a false answer is right if it has not, it does not fire within the limit, memo entries are never revised, and the coinductive branch is never taken |
| RelationSolver.MemoizedRelationSolver.EquivalentImpl | src/compiler/semantics/type_relations.cpp:245-372 | the case analysis that calls back into the solver decides plain structural equivalence |
| RelationSolver.MemoizedRelationSolver.SubtypeImpl | src/compiler/semantics/type_relations.cpp:402-538 | likewise for plain structural subtyping |
| RelationSolver.MemoizedRelationSolver.Ask | src/compiler/semantics/type_relations.cpp:613-708 | a question from outside is answered exactly whenever the limit exceeds the height of the types |
| AliasCycles.CycleDetector.VisitAlias | src/compiler/semantics/resolver.cpp:917-937 | the recursive visit ends with the stack as it was, its alias completed, and every named alias either left before it or reported together with it |
| AliasCycles.CycleDetector.ReportAliasCycle | src/compiler/semantics/resolver.cpp:950-994 | the reported chain is a cycle of the dependency graph that goes round once; afterwards exactly the aliases of the stack from the entry on are marked besides the earlier ones, and each of them gets an error with the chain unless all had one |
| AliasCycles.CycleDetector.DetectTypeAliasCycles | src/compiler/semantics/resolver.cpp:906-948 | every alias is visited; there is an error exactly when the graph is cyclic; and without the edges whose two ends have errors it is acyclic, so every cycle is hit |
| AliasCycles.RemainderIsAcyclic | src/compiler/semantics/resolver.cpp:906-994 | the finishing order rules out every cycle that no report explains |
| AliasResolution.TypeResolver.ResolveType | src/compiler/semantics/type_resolver.cpp:27-57 | the resolver's methods compute, memo and diagnostics included, what the specification function does, and leave the active set as it was |
| AliasResolution.TypeResolver.ResolveTypeAlias | src/compiler/semantics/type_resolver.cpp:97-124 | likewise for one alias: memo first, then the active set, then the body |
| AliasResolution.BadNamesAreDiagnosed | src/compiler/semantics/type_resolver.cpp:59-95 | wherever an unresolved name, a missing symbol or a symbol that is no type occurs in a type, the query gives its diagnostic |
| AliasResolution.UndeclaredIsDiagnosed | src/compiler/semantics/type_resolver.cpp:97-124 | so does every query for an alias without a declaration |
| AliasResolution.AliasStandsForItsBody | src/compiler/semantics/type_resolver.cpp:97-124 | an alias that does not lie behind itself expands to what its body expands to |
| AliasResolution.CycleDiagnosedExactlyWhenCyclic | src/compiler/semantics/type_resolver.cpp:103-108 | once every declared alias has been asked for, in any order, the cycle diagnostic has been given exactly when there is a cycle |
| AliasSteadiness.ResolutionIsExpansion | src/compiler/semantics/type_resolver.cpp:97-124 | from any memo that queries leave and within any aliases being resolved, a type comes out with active aliases and their other names as errors and every steady alias as its expansion, and the memo stays such |
| AliasSteadiness.SteadyAnswer | src/compiler/semantics/type_resolver.cpp:97-124 | so no earlier query changes the answer for a type that names steady aliases only |
| AliasSteadiness.NoCycleBelowIsSteady | src/compiler/semantics/type_resolver.cpp:97-124 | in particular for a type below which there is no cycle, whatever cycles there are elsewhere |
| AliasOrder.OrderMattersExactly | src/compiler/semantics/type_resolver.cpp:97-124 | for every type of every program, its answer depends on the order of the queries exactly when it names an unsteady alias, from which edges off the cycles lead to a body with a name on its own cycle that is more than another name for the alias |
| AliasOrder.OrderMattersExactlyOnWildCycles | src/compiler/semantics/type_resolver.cpp:97-124 | some answer of a program depends on the order of the queries exactly when two aliases lie on a common cycle and one of them does more than rename |
| FlowFacts.FlowFacts.Add | src/compiler/semantics/flow_facts.cpp:34-50 | the facts afterwards are the old ones and the new one, stored once |
| FlowFacts.FlowFacts.MergeFrom | src/compiler/semantics/flow_facts.cpp:52-54 | the union of both, in whatever order the other map yields them |
| FlowFacts.FlowFacts.Invalidate | src/compiler/semantics/flow_facts.cpp:56-59 | exactly the facts about the place and its descendants are gone |
| FlowFacts.InvalidationIsSound | src/compiler/semantics/flow_facts.cpp:25-59 | after a write to a place, every fact that its invalidation leaves is true in the written store |
| FlowFacts.DroppedFactsMayFail | src/compiler/semantics/flow_facts.cpp:25-32 | a fact of any kind is dropped exactly when some value written to the place makes it false |
| FlowFacts.EnumNames | src/compiler/semantics/expression_sema.cpp:17-30 | a fact speaks of an enum by its full name and by what is behind the last "::" of that, and by nothing else |
| FlowFacts.ExecutorAssignments | src/runtime/evaluator/executor.cpp:72-94 | whatever is known and whatever is written, the facts left by invalidating the target hold after the executor's assignment, if and only if the target has one member |
| ConditionFacts.ExtractConditionFacts | src/compiler/semantics/condition_facts.cpp:161-215 | the two containers hold exactly the facts of the true edge and of the false edge |
| ConditionFacts.PlaceHoldsValue | src/compiler/semantics/condition_facts.cpp:14-43 | an expression that names a place evaluates to what the place holds |
| ConditionFacts.ConditionFactHolds | src/compiler/semantics/condition_facts.cpp:61-215 | and so fact by fact, through conjunctions, on the true edge and on the false edge |
| ConditionFacts.ConditionFactsHold | src/compiler/semantics/condition_facts.cpp:61-215 | on the edge that a condition selects all its facts hold exactly when none of them denies a variant that its place holds in a wrapper |
| ConditionFacts.ComparisonsAreExact | src/compiler/semantics/condition_facts.cpp:61-197 | the true-facts of a conjunction of comparisons hold exactly when it is true and they deny nothing that is wrapped, so none is missed |
| ConditionFacts.NoneTestsRead | src/compiler/semantics/condition_facts.cpp:61-107 | a test of a place for none, on either side, says on one edge that it is none and on the other that it is not |
| ConditionFacts.VariantTestsRead | src/compiler/semantics/condition_facts.cpp:109-159 | a comparison of a place with a variant, on either side, says on one edge that it is that variant of that enum and on the other that it is not |
| ConditionFacts.ConnectivesRead | src/compiler/semantics/condition_facts.cpp:161-215 | a conjunction says on its true edge what both sides say, and nothing on the other; no other connective says anything |
| TypeNarrowing.ApplyNarrowing | src/compiler/semantics/expression_sema.cpp:159-227 | the loops over facts and variants compute the narrowed type, whatever order the hash map has |
| TypeNarrowing.NarrowingIsSound | src/compiler/semantics/expression_sema.cpp:159-227 | a value of the declared type for which the facts hold is of the narrowed type, also when one variant is left |
| TypeNarrowing.BranchNarrowingIsSound | src/compiler/semantics/expression_sema.cpp:159-227 | so reading a place at its narrowed type is safe in the branch that the condition selects, unless a fact denies the variant that the place holds in a wrapper |
| TypeNarrowing.NarrowsExactlyWhenOneVariantIsLeft | src/compiler/semantics/expression_sema.cpp:192-226 | unless the facts rule out every variant, an enum type becomes a variant exactly when some fact is about the enum and the facts leave only that variant |
| TypeNarrowing.NarrowedIsASubtype | src/compiler/semantics/expression_sema.cpp:159-227 | the narrowed type is a subtype of the type it came from |
| TypeNarrowing.NotNoneUnwraps | src/compiler/semantics/expression_sema.cpp:168-173 | under a not-none fact an optional is narrowed below what it is an optional of, so that none is among the values only if it is there |
| TypeNarrowing.OthersStay | src/compiler/semantics/expression_sema.cpp:168-178 | without such a fact an optional stays, and so does under any facts what is neither optional nor an enum |
| TypeNarrowing.UnknownEnumGoesByTheLastFact | src/compiler/semantics/expression_sema.cpp:180-206 | an enum without a known declaration becomes the variant that the last positive fact about it names |
| TypeNarrowing.UnknownEnumStays | src/compiler/semantics/expression_sema.cpp:180-210 | and stays without one |
| FlowSafety.SafeExactlyWhenNoChoiceFalsifies | src/compiler/semantics/typecheck.cpp:1665-1925 | a block is safe exactly when from every store in which the live facts are true no choice of written values and of branches open in the store leaves a fact false that the type checker still has at a statement that is reached |
| FlowSafety.ReachedExactlyByPaths | src/compiler/semantics/typecheck.cpp:1665-1925 | the stores in which such runs fall out of a block are exactly those with what is known at the end of some path: facts and own enums read off the branches taken, minus those about written places |
| FlowSafety.FalsifiedExactlyBySomeRun | src/compiler/semantics/typecheck.cpp:1895-1925 | a fact may be false after a block exactly when some such run leaves it false |
| FlowConsistency.SatisfiableExactlyWhenConsistent | src/compiler/semantics/typecheck.cpp:1780-1925 | some store has all that a path tells exactly when for each of its places by itself there is a value |
| FlowConsistency.FitsExactlyWithoutConflict | src/compiler/semantics/typecheck.cpp:1780-1925 | there is one exactly when a place said to be none is said to be nothing else and needs no member, and a place said to hold a variant needs no member, is of one enum, and nothing said about that enum conflicts |
| FlowConsistency.CanFailExactlyWhen | src/compiler/semantics/typecheck.cpp:1780-1925 | what a path tells lets a fact be false exactly when nothing needs its place or some value fits there of which the fact is not true |
| FlowConsistency.NoneFactCanFailExactlyWhen | src/compiler/semantics/typecheck.cpp:1780-1925 | and for a fact about none exactly when nothing needs its place or the opposite fact is consistent with what the path tells |
| FlowSafety.FactsAreTrueAlongEveryRun | src/compiler/semantics/typecheck.cpp:1665-1925 | on a safe block the facts the type checker has are true at every statement that a run reaches, if and only if the run takes no branch that denies a place the variant it holds in a wrapper |
| FlowStatements.FactsTravel | src/compiler/semantics/typecheck.cpp:1665-1925 | only an assignment drops facts, exactly those about its target and below; a branch starts with the facts of its edge in addition, and leaves none |
| FlowSafety.RunKeepsFacts | src/runtime/evaluator/executor.cpp:54-193 | a run that falls out of a block leaves a fact true unless what is known at the end of some path lets it be false |
| FlowSafety.RunIsFree | src/runtime/evaluator/executor.cpp:54-193 | every run of the executor that denies no wrapped variant is one of the runs with branches and written values left free |
| FlowPrograms.EarlyReturnIsSafe | src/compiler/semantics/typecheck.cpp:1895-1925 | a branch may overwrite what it names and then leave, whatever facts are alive |
| FlowPrograms.CheckedAssignmentIsSafe | src/compiler/semantics/typecheck.cpp:1895-1925 | a branch may overwrite a member and leave unless it holds one variant: those that fall out keep the fact that it is not another |
| FlowPrograms.BranchAssignmentLeavesAFalseFact | src/compiler/semantics/typecheck.cpp:1895-1925 | an assignment in a branch leaves a false fact behind |
| FlowPrograms.NestedAssignmentLeavesAFalseFact | src/runtime/evaluator/executor.cpp:72-94 | an assignment to a member of a member leaves a false fact about the outer one |
| FlowPrograms.RebindingLeavesAFalseFact | src/compiler/semantics/typecheck.cpp:1699-1772 | so does rebinding a name |
| FlowPrograms.WrappedVariantLeavesAFalseFact | src/runtime/evaluator/evaluator.cpp:352-382 | a safe program that binds a narrowed optional to a name and compares that with the wrapped variant leaves a false fact behind |
| FlowSummary.SummarizeBlock | src/compiler/ir/analysis.cpp:227-239 | the summary of a block reports exactly the outcomes, assigned paths and called targets of its runs, each once, and counts exactly the assertions that can be reached |
| FlowSummary.SummarizeStatement | src/compiler/ir/analysis.cpp:166-225 | likewise for one statement |
| FlowSummary.MergeFlowSummary | src/compiler/ir/analysis.cpp:150-162 | everything but the fall-through flag is joined, without repetitions |
| FlowSummary.CollectCalledTargets | src/compiler/ir/analysis.cpp:91-148 | exactly the targets called anywhere in the expression are added |
| FlowSummary.CallsByForm | src/compiler/ir/analysis.cpp:91-148 | a call calls its callee and what its arguments call, another expression exactly what its parts call |
| FlowSummary.EveryRunIsReported | src/compiler/ir/analysis.cpp:91-239 | for every run: its outcome and actions are reported, and it executes no more assertions than are counted |
| FlowSummary.LongerEnds | src/compiler/ir/analysis.cpp:227-239 | how a block with one more statement can end |
| FlowSummary.RestIsUnreachable | src/compiler/ir/analysis.cpp:229-232 | behind a block that cannot be left at its end nothing adds to the summary |
| ConstValues.ComputeSortKey | src/compiler/semantics/const_sema.cpp:666-680 | the key that is appended to part by part is the nested length-prefixed code whose unique decoding is proved below |
| ConstValues.KeyGrows | src/compiler/semantics/const_sema.cpp:666-680 | each child adds its name and its own key, with their lengths |
| ConstValues.KeysDecode | src/compiler/semantics/const_sema.cpp:666-680 | the nested length-prefixed code can be decoded in one way only: two keys are equal exactly when the values have the same kinds, scalars, symbols, names and children throughout |
| ConstValues.KeysAgreeWithEquality | src/compiler/semantics/const_sema.cpp:651-680 | on values with one name per child, references taken for what they refer to, two keys are equal exactly when the values are |
| ConstValues.MissingNamesShareAKey | src/compiler/semantics/const_sema.cpp:666-680 | every value shares its key with the one that has its names filled in, and equals it exactly when it had one name per child |
| ConstValues.KeysDecideExactlyWhenNamed | src/compiler/semantics/const_sema.cpp:651-680 | among values that come with their fillings keys decide equality exactly when all have one name per child |
| ConstNormalization.NormalizeSet | src/compiler/semantics/const_sema.cpp:682-692 | a rearrangement of the items in the order of their keys |
| ConstNormalization.NormalizeMap | src/compiler/semantics/const_sema.cpp:694-728 | a rearrangement of the entries, keys and values kept together, in the order of their keys |
| ConstNormalization.SetsNormalizeAlike | src/compiler/semantics/const_sema.cpp:682-692 | normal forms of sets are equal exactly when the sets hold equal items, however the sort breaks ties |
| ConstNormalization.MapsNormalizeAlike | src/compiler/semantics/const_sema.cpp:694-728 | normal forms of maps with keys and values in turn are equal exactly when the maps hold equal entries, one entry or none included |
| ConstNormalization.EachKeyKeepsItsValue | src/compiler/semantics/const_sema.cpp:694-728 | normalizing a map with distinct keys changes the result of no lookup |
| ConstNormalization.RepeatedKeyTakesTheLeastValue | src/compiler/semantics/const_sema.cpp:694-728 | of entries with equal keys the one with the least value key is found |
| ConstNormalization.FoldIndex | src/compiler/semantics/const_sema.cpp:992-1018 | a list is indexed within its bounds, a map by the first entry with an equal key |
| ConstNormalization.LookupFindsFirst | src/compiler/semantics/const_sema.cpp:1005-1016 | the lookup finds the first matching entry, and nothing only if there is none |
| Decimals.Pow10I64 | src/compiler/semantics/const_sema.cpp:106-118 | defined exactly for exponents 0 to 18, those whose power fits |
| Decimals.ParseDecimalConst | src/compiler/semantics/const_sema.cpp:120-165 | stripping suffix and sign, finding the dot and collecting digits in a loop reads the decimal whose round trip is stated below, and fails where that fails |
| Decimals.ParseWritten | src/compiler/semantics/const_sema.cpp:120-165 | sign, digits, dot, digits and suffix are read as the digits' number at the scale of the places, if it fits |
| Decimals.SpellingsAreRead | src/compiler/semantics/const_sema.cpp:120-165 | with no sign or one of two, digits around a dot, and no suffix or one of two, a decimal is read as all its digits at the scale of those behind the dot |
| Decimals.OnlySpellingsAreRead | src/compiler/semantics/const_sema.cpp:120-165 | and nothing else is read |
| Decimals.DecimalsAsPrinted | src/compiler/semantics/const_sema.cpp:194-209 | at scales 1 to 18 a decimal is printed with its sign, its whole part, as many places as its scale and the suffix |
| Decimals.OtherScalesAsPrinted | src/compiler/semantics/const_sema.cpp:194-209 | at other scales all its units are printed before the dot and zeros behind it |
| Decimals.RoundTrip | src/compiler/semantics/const_sema.cpp:120-209 | exactly which decimals are read back as printed: scale 1 to 18 and units above the minimum, or scale above 18 and zero |
| Decimals.GuardIsExact | src/compiler/semantics/const_sema.cpp:182-185 | the guard by a quotient that drops its fraction rejects exactly the products outside int64 |
| Decimals.DecimalOperandAtScale | src/compiler/semantics/const_sema.cpp:167-192 | an integer operand becomes the exact decimal at the scale whenever that fits, a decimal must have the scale |
| Digits.NumeralsByCode | src/compiler/semantics/const_sema.cpp:42-50 | numerals are made digit by digit, zero to nine by their code points |
| Digits.NumeralsAreRead | src/compiler/semantics/const_sema.cpp:42-50 | the numeral of a number is read as it exactly if it is an int64 |
| Digits.OnlyNumeralsAreRead | src/compiler/semantics/const_sema.cpp:42-50 | leading zeros do not matter, and nothing is read but digits behind an optional minus |
| Decimals.DurationsAreExact | src/compiler/semantics/const_sema.cpp:52-78 | a number with a unit is read as exactly its milliseconds, unless it is negative or they do not fit |
| Decimals.DurationsInEachUnit | src/compiler/semantics/const_sema.cpp:52-78 | an hour is 3600000 milliseconds, a minute 60000, a second 1000, and a number of them is read exactly if it fits an int64 and is not negative |
| Decimals.OtherUnitsAreNone | src/compiler/semantics/const_sema.cpp:52-72 | a text that ends in no unit is no duration |
| JsonParser.Parser.Parse | src/base/json/json_value.cpp:173-186 | the parser object ends on every text, never reads past its end, and yields what the grammar function does |
| JsonParser.Parser.ParseStringToken | src/base/json/json_value.cpp:366-425 | likewise for strings with their escapes |
| JsonParser.Parser.ParseNumberToken | src/base/json/json_value.cpp:283-364 | likewise for numbers |
| JsonParser.Parser.Value | src/base/json/json_value.cpp:226-250 | likewise for values, position included |
| JsonParser.SerializeImpl | src/base/json/json_value.cpp:563-667 | the stream gains exactly the text of the value |
| JsonParser.SerializeJson | src/base/json/json_value.cpp:680-684 | the text of the value, from an empty stream |
| JsonText.EscapesAreShortest | src/base/json/json_value.cpp:583-620 | a character with a short escape in the grammar is written by it, the slash excepted, another control character by its code in lower case, and every other one as it is |
| JsonText.StringGrows | src/base/json/json_value.cpp:583-655 | a string or key is the quoted row of its characters, each escaped by itself |
| JsonText.KeyEscapes | src/base/json/json_value.cpp:642-655 | in keys only the quote and the backslash are escaped |
| JsonText.ArrayGrows | src/base/json/json_value.cpp:622-633 | an array is the bracketed row of its items with commas between and no blanks |
| JsonText.ObjectGrows | src/base/json/json_value.cpp:634-661 | an object likewise, each field as its key, a colon and its value |
| JsonGrammar.ParsedExactlyWhenDerivable | src/base/json/json_value.cpp:173-561 | the parser yields a value exactly for the texts that the RFC 8259 grammar derives with that meaning, an object with a repeated key and a number that does not convert having none |
| JsonGrammar.DerivableIsParsed | src/base/json/json_value.cpp:173-561 | of every derivable text the parser makes what the derivation means, and it fails where that is nothing |
| JsonGrammar.MeaningIsUnique | src/base/json/json_value.cpp:173-561 | so no text has derivations of different meaning |
| JsonGrammar.TablesByCode | src/base/json/json_value.cpp:210-476 | blanks, short escapes and hex digits are those of RFC 8259, by code points |
| JsonRoundTrip.RoundTrip | src/base/json/json_value.cpp:169-667 | parsing the text of a float-free value with int64 integers gives the value back exactly when no object has a repeated key or a control character in one, and fails otherwise |
| JsonRoundTrip.ValueParses | src/base/json/json_value.cpp:226-561 | the same at any place inside a text, before a delimiter |
| JsonRoundTrip.SerializeInjective | src/base/json/json_value.cpp:563-667 | different values with good keys never have the same text |
| JsonUnicode.EscapeReadsBack | src/base/json/json_value.cpp:427-458 | the UTF-16 escape of every code point but a lone high surrogate is read as that code point |
| JsonUnicode.Utf8ReadsBack | src/base/json/json_value.cpp:460-476 | the bytes emitted for a code point decode to it, in the length its range asks for |
| ThreadPool.EveryRunOk | src/base/support/thread_pool.cpp:7-56 | the invariant holds in every state of every interleaving of submitters, workers and shutdown |
| ThreadPool.TakenInOrderAndOnce | src/base/support/thread_pool.cpp:42-56 | tasks are taken in the order of submission, each at most once and by one worker |
| ThreadPool.WorkIsNeverForgotten | src/base/support/thread_pool.hpp:22-33 | no wakeup is lost: with work queued some worker is awake or a notification is coming, enough of them for all queued tasks while one sleeps |
| ThreadPool.RunExactlyWhenAWorkerWasLeft | src/base/support/thread_pool.cpp:22-56 | when the joining shutdown has returned, a task has been run exactly when some worker had not exited at the time it was submitted, before or after the stop flag |
| ThreadPool.ShutdownRunsEverythingSubmittedBefore | src/base/support/thread_pool.cpp:22-36 | so every task enqueued before the stop flag was set has finished at the join |
| ThreadPool.StopMarkIsFixed | src/base/support/thread_pool.cpp:22-36 | the mark that this speaks of is the number of tasks submitted when the flag was set |
| ThreadPool.ShutdownMakesProgress | src/base/support/thread_pool.cpp:22-56 | after the notification no worker is stuck, every worker step brings the end closer, and when all have left the join returns |
| ThreadPool.ShutdownEnds | src/base/support/thread_pool.cpp:22-56 | after the notification, a run without submits can make only so many steps before the join, and with that many every worker has exited |
| ThreadPool.LateTaskIsNeverRun | src/base/support/thread_pool.hpp:22-33 | a task submitted after all workers exited is accepted and never run, joined or not |
| DeadStates.ReachableFrom | src/compiler/passes/dead_state_elimination.cpp:26-44 | the breadth-first search finds exactly the states on paths from the initial one |
| DeadStates.AgentDecl.EliminateDeadStates | src/compiler/passes/dead_state_elimination.cpp:13-77 | unless the counts agree, exactly the live states and the transitions between live states stay, in their order; the flag says whether a state was lost |
| DeadStates.KeptInOrder | src/compiler/passes/dead_state_elimination.cpp:52-73 | the states and transitions that stay keep their order and their repetitions |
| DeadStates.RunsAreKept | src/compiler/passes/dead_state_elimination.cpp:26-73 | every agent keeps exactly its runs from the initial state |
| DeadStates.SecondRunChangesNothing | src/compiler/passes/dead_state_elimination.cpp:26-73 | a second run changes nothing and reports nothing |
| DeadStates.ExactlyTheLiveOnesStay | src/compiler/passes/dead_state_elimination.cpp:46-73 | where all states are declared, exactly the reachable and final states stay with the transitions between them, and the flag says whether anything changed |
| DeadStates.WhenThePassIsRight | src/compiler/passes/dead_state_elimination.cpp:46-77 | on every agent: no dead state stays exactly when the pass is not skipped or had nothing to do, and the flag says whether anything changed exactly when the pass is skipped, a declared state is dead or every transition joins live states |
| DeadStates.SkippedExactlyWhen | src/compiler/passes/dead_state_elimination.cpp:48-50 | for distinct states and a named initial one, the counts agree exactly when as many live states are undeclared as declared ones are dead |
| DeadStates.UndeclaredStateHidesADeadOne | src/compiler/passes/dead_state_elimination.cpp:48-50 | a family of agents in which an undeclared state makes the counts agree and a dead state stays |
| DeadStates.RemovedTransitionsGoUnreported | src/compiler/passes/dead_state_elimination.cpp:61-73 | a family of agents that lose a transition without the flag |
| ExprCanonicalization.CanonicalizeExpr | src/compiler/passes/expr_canonicalization.cpp:21-94 | the rewriting in place yields the canonical form from nodes of the tree, and its flag says whether that is another expression |
| ExprCanonicalization.FoldingLaws | src/compiler/passes/expr_canonicalization.cpp:21-94 | for every expression: the neutral literal is dropped from either side, the other one absorbs either side, two negations cancel |
| ExprCanonicalization.OperandsAreRewritten | src/compiler/passes/expr_canonicalization.cpp:21-94 | nothing else is rewritten, but the operands of every operator |
| ExprCanonicalization.CanonicalKeepsValue | src/compiler/passes/expr_canonicalization.cpp:21-94 | an expression that evaluates evaluates to the same in canonical form |
| ExprCanonicalization.FailureIsHiddenExactlyWhen | src/compiler/passes/expr_canonicalization.cpp:21-94 | under a given meaning the canonical form comes to something else exactly when all that it still asks for is met and something that it no longer asks for is not |
| ExprCanonicalization.FailuresKeptExactly | src/compiler/passes/expr_canonicalization.cpp:21-94 | unless all that it no longer asks for is operators, evaluation is the same under every meaning, failures included, exactly when it asks for everything the expression does |
| ExprCanonicalization.CanonicalMayHideFailures | src/compiler/passes/expr_canonicalization.cpp:30-90 | whenever the canonical form no longer asks for a leaf, or no longer for a boolean, some meaning makes the expression fail and the canonical form evaluate |
| ExprCanonicalization.DroppedOperators | src/compiler/passes/expr_canonicalization.cpp:30-90 | where only operators are dropped it goes either way: on a tautology nothing is hidden, on a leaf a failure is |
| ExprCanonicalization.OnlyNormalFormsStay | src/compiler/passes/expr_canonicalization.cpp:21-94 | an expression stays exactly when it has no double negation and no conjunction or disjunction with a literal |
| ExprCanonicalization.SecondRunChangesNothing | src/compiler/passes/expr_canonicalization.cpp:21-94 | one bottom-up run is enough |
| TemporalSimplification.SimplifyTemporal | src/compiler/passes/temporal_simplification.cpp:12-52 | the rewriting in place yields the simplified formula, and its flag says whether that is another one |
| TemporalSimplification.CollapsingLaws | src/compiler/passes/temporal_simplification.cpp:12-52 | for every formula: always and eventually absorb themselves, two negations cancel, next does neither |
| TemporalSimplification.OperandsAreRewritten | src/compiler/passes/temporal_simplification.cpp:12-52 | nothing else is rewritten, but the operands of every operator |
| TemporalSimplification.SimplifyingKeepsTruth | src/compiler/passes/temporal_simplification.cpp:12-52 | the formula is true at exactly the same positions of every infinite trace |
| TemporalSimplification.OnlyNormalFormsStay | src/compiler/passes/temporal_simplification.cpp:12-52 | a formula stays exactly when no always, eventually or not is doubled in it |
| TemporalSimplification.SecondRunChangesNothing | src/compiler/passes/temporal_simplification.cpp:12-52 | one bottom-up run is enough |
| PassPipeline.Program.EnsureDerived | src/compiler/ir/analysis.cpp:499-514 | derived analyses that pass for fresh stay, others are computed from the current declarations |
| PassPipeline.PassManager.Run | src/compiler/passes/pass_manager.cpp:74-127 | for any passes: they run in order, each analysis without a result is computed on the outcome, and the derived analyses are those of the declarations at the last report, or earlier ones that still pass for fresh; where every change is reported, those of the outcome |
| PassPipeline.PassManager.RunToFixpoint | src/compiler/passes/pass_manager.cpp:129-144 | iteration up to the first run without a report, the derived analyses run by run likewise; on a fresh manager the results are about the program after the first run |
| PassPipeline.IteratesToTheFirstQuietRun | src/compiler/passes/pass_manager.cpp:129-144 | iterating stops behind the first run without a report, or when the runs are used up |
| DefaultPipeline.OneIterationIsEnough | src/compiler/passes/pass_manager.cpp:146-160 | with any filter, running the default pipeline to a fixpoint is running it once |
| DefaultPipeline.NamesInOrder | src/compiler/passes/pass_manager.cpp:146-160 | the four passes by their names, in their order |
| DefaultPipeline.PassesRewrite | src/compiler/passes/pass_manager.cpp:146-160 | each pass rewrites its own kind of declaration by its own rewriting and leaves the others alone |
| DefaultPipeline.PassesRewriteClauses | src/compiler/passes/pass_manager.cpp:146-160 | in contracts expressions are rewritten by the third pass and formulas by the fourth |
| DefaultPipeline.RunDefaultToFixpoint | src/compiler/passes/pass_manager.cpp:129-160 | on a fresh manager with the default passes the program of one run is reached and every result is about it; the derived analyses are those of that program exactly unless they are outdated, which they never are with declared agents |
| DefaultPipeline.OneRunFinishes | src/compiler/passes/pass_manager.cpp:146-160 | after one run no pass changes or reports anything |
| DefaultPipeline.DefaultPassesAreHonest | src/compiler/passes/pass_manager.cpp:74-127 | with declared agents every pass reports what it changes |
| DefaultPipeline.PipelineKeepsMeaning | src/compiler/passes/pass_manager.cpp:146-160 | the optimized program has the same runs, closures and formula truths and its clauses evaluate to the same, if and only if the reduction is disabled or every workflow, its names being unique, meets the two conditions of `ClosureKeptExactlyWhen` |
| NameSuggestions.EditDistance | src/compiler/semantics/name_suggestions.cpp:12-30 | the two swapped rows yield the cost of the cheapest edit script |
| NameSuggestions.DistanceIsLeast | src/compiler/semantics/name_suggestions.cpp:12-30 | the recurrence is the least number of insertions, deletions and replacements over all scripts |
| NameSuggestions.SuggestName | src/compiler/semantics/name_suggestions.cpp:34-52 | a candidate at least distance, lexicographically least among those, and none exactly when no candidate is within two edits |
| NameSuggestions.BestIsUnique | src/compiler/semantics/name_suggestions.cpp:34-52 | the order of the candidates does not matter |

## Left out

- I/O: processes, HTTP, timers, files, and all printers and back ends.
- Floating point: float constants, float JSON tokens and float operands; converting JSON float tokens is a parameter.
- Diagnostics' text, source ranges and offsets, provenance, trace steps: diagnostics are kinds or positions in a graph.
- Integers: unguarded int64 arithmetic in constant folding; sizes and counters are unbounded.
- JSON: a byte is the character with that code, and byte offsets into the input are not kept; the grammar allows any byte from 0x20 on in a string, as the parser does, and wants a low surrogate escape after a high one.
- Hash maps are finite maps, and a loop over one takes its places in any order.
- ConstNormalization.NormalizeSet: `std::sort` is any arrangement in key order, so how it breaks ties is left open.
- ThreadPool.EveryRunOk: critical sections are atomic steps, the mutex and the condition variable being correct; spurious wakeups are steps, thread creation failures and task exceptions are not modelled.
- ThreadPool.ShutdownMakesProgress: fairness of the scheduler is not modelled, so it says that no worker is stuck, not that each gets its turn.
- RelationSolver.MemoizedRelationSolver.Solve: types have no null children; reports of why a relation fails are left out.
- AliasCycles.CycleDetector.DetectTypeAliasCycles: the mode of one source file, where every error can be placed.
- AliasResolution.TypeResolver.ResolveType: which symbol a written name refers to is given; the key of a map is resolved before its value, while C++ leaves the order of the two calls open (src/compiler/semantics/type_resolver.cpp:49-51), on which the answers for steady aliases do not depend.
- ConditionFacts.ConditionFactHolds: null children of expressions are left out, and a qualified value evaluates to the enum that the resolver found for it and its last segment.
- TypeNarrowing.NarrowingIsSound: types of struct fields and the scalar kinds without a value of their own are not looked into.
- FlowSafety.FactsAreTrueAlongEveryRun: a local that shadows the context, which the type checker warns about, is left out.
- PlanValidation.Validate: diagnostics about agents, lifecycles, bindings and value summaries are left out; each looks at one node by itself.
- FlowSummary.SummarizeBlock: expressions are calls and expressions with parts; the order in which vectors list their elements is not stated.
- ExprCanonicalization.CanonicalizeExpr: each node has one owner; expression references that share a node in the arena are not modelled.
- PassPipeline.PassManager.Run: passes declare neither required nor invalidated analyses and invalidate all derived ones, as every pass of the default pipeline does; timings and the list of executed passes are left out.
- DefaultPipeline.PipelineKeepsMeaning: the loops over declarations inside the passes are maps here; the passes' own methods are in their modules.
- Decimals.ParseDecimalConst: printing a width that does not fit an int is left out.
- Enum mappings, AST to HIR copying, IR visitors, the SMV back end and the runtime engine: long but each branch is simple, or outside the files modelled.
