/** Summaries of state-handler bodies (src/compiler/ir/analysis.cpp) and what they say about the
    ways a body can run (src/runtime/evaluator/executor.cpp). */
module FlowSummary {
  import opened Sequences

  datatype PathRoot = Identifier | Input | Output | Context | State
  datatype Path = Path(rootKind: PathRoot, rootName: string, members: seq<string>)

  /** Node stands for every expression that is made of parts and calls nothing by itself. */
  datatype Expr = Atom | Call(callee: string, arguments: seq<Expr>) | Node(parts: seq<Expr>)

  datatype Stmt =
    | Let(name: string, init: Expr)
    | Assign(target: Path, value: Expr)
    | If(cond: Expr, thenBlock: seq<Stmt>, hasElse: bool, elseBlock: seq<Stmt>)
    | Goto(targetState: string)
    | Return(result: Expr)
    | Assert(cond: Expr)
    | ExprStmt(e: Expr)

  type Block = seq<Stmt>

  datatype Summary = Summary(gotoTargets: seq<string>, assignedPaths: seq<Path>, calledTargets: seq<string>,
                             mayReturn: bool, mayFallthrough: bool, assertCount: nat)

  const EMPTY: Summary := Summary([], [], [], false, true, 0)

  // --------------------------------------------------------------------------- runs

  datatype Event = Assigned(path: Path) | Called(target: string) | Asserted

  /** Failed is a failed assertion or an expression that could not be evaluated. */
  datatype Outcome = Fell | WentTo(state: string) | Returned | Failed

  /** One way through a statement. A run of a block is one way through each statement reached. */
  datatype StmtRun = Completes | Fails(done: set<Event>) | Branch(taken: bool, inside: seq<StmtRun>)

  type Run = seq<StmtRun>

  ghost function Calls(e: Expr): set<string> {
    match e
    case Atom => {}
    case Call(callee, arguments) => {callee} + CallsOfAll(arguments)
    case Node(parts) => CallsOfAll(parts)
  }

  ghost function CallsOfAll(es: seq<Expr>): set<string> {
    if es == [] then {} else CallsOfAll(es[..|es| - 1]) + Calls(es[|es| - 1])
  }

  ghost function CallEvents(e: Expr): set<Event> {
    set t | t in Calls(e) :: Called(t)
  }

  /** What a statement does by itself, its blocks aside. */
  ghost function OwnEvents(st: Stmt): set<Event> {
    match st
    case Let(_, init) => CallEvents(init)
    case Assign(target, value) => CallEvents(value) + {Assigned(target)}
    case If(cond, _, _, _) => CallEvents(cond)
    case Goto(_) => {}
    case Return(result) => CallEvents(result)
    case Assert(cond) => CallEvents(cond) + {Asserted}
    case ExprStmt(e) => CallEvents(e)
  }

  /** The block that a branch enters; without an else there is nothing to do. */
  ghost function Taken(st: Stmt, taken: bool): Block
    requires st.If?
  {
    if taken then st.thenBlock else if st.hasElse then st.elseBlock else []
  }

  ghost function StmtOutcome(st: Stmt, r: StmtRun): Outcome
    decreases r
  {
    match r
    case Completes => (match st case Goto(q) => WentTo(q) case Return(_) => Returned case _ => Fell)
    case Fails(_) => Failed
    case Branch(taken, inside) => if st.If? then EndOf(Taken(st, taken), inside) else Failed
  }

  ghost function EndOf(b: Block, r: Run): Outcome
    decreases r
  {
    if r == [] || |r| > |b| then Fell else StmtOutcome(b[|r| - 1], r[|r| - 1])
  }

  ghost predicate IsStmtRun(st: Stmt, r: StmtRun)
    decreases r
  {
    match r
    case Completes => !st.If?
    case Fails(done) => !st.Goto? && done <= OwnEvents(st)
    case Branch(taken, inside) => st.If? && IsRun(Taken(st, taken), inside)
  }

  /** Every statement but the last one reached falls through, and so does that unless it ends the
      run; each branch may go either way. */
  ghost predicate IsRun(b: Block, r: Run)
    decreases r
  {
    && |r| <= |b|
    && (forall i :: 0 <= i < |r| ==> IsStmtRun(b[i], r[i]))
    && (forall i :: 0 <= i < |r| - 1 ==> StmtOutcome(b[i], r[i]) == Fell)
    && (|r| < |b| ==> EndOf(b, r) != Fell)
  }

  ghost function StmtEvents(st: Stmt, r: StmtRun): set<Event>
    decreases r
  {
    match r
    case Completes => OwnEvents(st)
    case Fails(done) => done
    case Branch(taken, inside) => if st.If? then OwnEvents(st) + Events(Taken(st, taken), inside) else {}
  }

  ghost function Events(b: Block, r: Run): set<Event>
    decreases r
  {
    set i, e | 0 <= i < |r| && i < |b| && e in StmtEvents(b[i], r[i]) :: e
  }

  /** How often the run executes an assertion. */
  ghost function StmtAsserts(st: Stmt, r: StmtRun): nat
    decreases r
  {
    match r
    case Completes => if st.Assert? then 1 else 0
    case Fails(done) => if Asserted in done then 1 else 0
    case Branch(taken, inside) => if st.If? then AssertsUpTo(Taken(st, taken), inside, |inside|) else 0
  }

  ghost function AssertsUpTo(b: Block, r: Run, n: nat): nat
    requires n <= |r|
    decreases r, n
  {
    if n == 0 || n > |b| then 0 else AssertsUpTo(b, r, n - 1) + StmtAsserts(b[n - 1], r[n - 1])
  }

  ghost predicate CanEnd(b: Block, o: Outcome) {
    exists r :: IsRun(b, r) && EndOf(b, r) == o
  }

  ghost predicate CanDo(b: Block, e: Event) {
    exists r :: IsRun(b, r) && e in Events(b, r)
  }

  ghost predicate StmtCanEnd(st: Stmt, o: Outcome) {
    exists r :: IsStmtRun(st, r) && StmtOutcome(st, r) == o
  }

  ghost predicate StmtCanDo(st: Stmt, e: Event) {
    exists r :: IsStmtRun(st, r) && e in StmtEvents(st, r)
  }

  /** The assertions that some run executes. */
  ghost function Asserts(b: Block): nat
    decreases b
  {
    if b == [] then 0
    else
      var init := b[..|b| - 1];
      Asserts(init) + if CanEnd(init, Fell) then AssertsIn(b[|b| - 1]) else 0
  }

  ghost function AssertsIn(st: Stmt): nat
    decreases st
  {
    match st
    case Assert(_) => 1
    case If(_, thenBlock, hasElse, elseBlock) => Asserts(thenBlock) + if hasElse then Asserts(elseBlock) else 0
    case _ => 0
  }

  // ---------------------------------------------------- what a summary has to amount to

  ghost predicate NoRepeats(s: Summary) {
    Distinct(s.gotoTargets) && Distinct(s.assignedPaths) && Distinct(s.calledTargets)
  }

  ghost predicate Covers(s: Summary, e: Event) {
    match e
    case Assigned(path) => path in s.assignedPaths
    case Called(target) => target in s.calledTargets
    case Asserted => s.assertCount > 0
  }

  ghost predicate Reports(s: Summary, o: Outcome) {
    match o
    case Fell => s.mayFallthrough
    case WentTo(state) => state in s.gotoTargets
    case Returned => s.mayReturn
    case Failed => true
  }

  /** The summary reports exactly the outcomes and actions that runs have. */
  ghost predicate Exact(b: Block, s: Summary) {
    && (forall o :: o != Failed ==> (Reports(s, o) <==> CanEnd(b, o)))
    && (forall e :: e != Asserted ==> (Covers(s, e) <==> CanDo(b, e)))
    && s.assertCount == Asserts(b)
    && NoRepeats(s)
  }

  ghost predicate StmtExact(st: Stmt, s: Summary) {
    && (forall o :: o != Failed ==> (Reports(s, o) <==> StmtCanEnd(st, o)))
    && (forall e :: e != Asserted ==> (Covers(s, e) <==> StmtCanDo(st, e)))
    && s.assertCount == AssertsIn(st)
    && NoRepeats(s)
  }

  // ------------------------------------------------------------------ form by form

  lemma {:induction false} CallsOfSome(es: seq<Expr>, target: string)
    ensures target in CallsOfAll(es) <==> exists i :: 0 <= i < |es| && target in Calls(es[i])
  {
    if es != [] {
      CallsOfSome(es[..|es| - 1], target);
    }
  }

  /** A call calls its callee and what its arguments call, another expression what its parts call. */
  lemma CallsByForm(callee: string, es: seq<Expr>, target: string)
    ensures target !in Calls(Atom)
    ensures target in Calls(Call(callee, es)) <==> target == callee || exists i :: 0 <= i < |es| && target in Calls(es[i])
    ensures target in Calls(Node(es)) <==> exists i :: 0 <= i < |es| && target in Calls(es[i])
  {
    CallsOfSome(es, target);
  }

  /** What a statement without blocks does when it completes, and where it leads. */
  lemma StatementsDo(name: string, e: Expr, path: Path, state: string)
    ensures var calls := set t | t in Calls(e) :: Called(t);
      && StmtEvents(Let(name, e), Completes) == calls
      && StmtEvents(Assign(path, e), Completes) == calls + {Assigned(path)}
      && StmtEvents(Return(e), Completes) == calls
      && StmtEvents(Assert(e), Completes) == calls + {Asserted}
      && StmtEvents(ExprStmt(e), Completes) == calls
      && StmtEvents(Goto(state), Completes) == {}
    ensures StmtOutcome(Goto(state), Completes) == WentTo(state) && StmtOutcome(Return(e), Completes) == Returned
    ensures StmtOutcome(Let(name, e), Completes) == StmtOutcome(Assign(path, e), Completes) == Fell
    ensures StmtOutcome(Assert(e), Completes) == StmtOutcome(ExprStmt(e), Completes) == Fell
  {
  }

  /** An `if` evaluates its condition and then runs one of its blocks; without an else it may do no more. */
  lemma BranchesDo(cond: Expr, thenBlock: Block, elseBlock: Block, r: Run)
    ensures var both, one := If(cond, thenBlock, true, elseBlock), If(cond, thenBlock, false, elseBlock);
      var calls := set t | t in Calls(cond) :: Called(t);
      && StmtEvents(both, Branch(true, r)) == StmtEvents(one, Branch(true, r)) == calls + Events(thenBlock, r)
      && StmtEvents(both, Branch(false, r)) == calls + Events(elseBlock, r)
      && StmtEvents(one, Branch(false, [])) == calls
      && StmtOutcome(both, Branch(true, r)) == StmtOutcome(one, Branch(true, r)) == EndOf(thenBlock, r)
      && StmtOutcome(both, Branch(false, r)) == EndOf(elseBlock, r)
      && StmtOutcome(one, Branch(false, [])) == Fell
      && (IsStmtRun(both, Branch(true, r)) <==> IsRun(thenBlock, r))
      && (IsStmtRun(both, Branch(false, r)) <==> IsRun(elseBlock, r))
      && IsStmtRun(one, Branch(false, []))
  {
  }

  /** Assertions are counted once each, in both blocks, as long as they can be reached. */
  lemma AssertionsCount(e: Expr, thenBlock: Block, hasElse: bool, elseBlock: Block, b: Block, st: Stmt)
    ensures AssertsIn(Assert(e)) == 1
    ensures AssertsIn(If(e, thenBlock, hasElse, elseBlock)) == Asserts(thenBlock) + if hasElse then Asserts(elseBlock) else 0
    ensures !st.Assert? && !st.If? ==> AssertsIn(st) == 0
    ensures Asserts([]) == 0
    ensures Asserts(b + [st]) == Asserts(b) + if CanEnd(b, Fell) then AssertsIn(st) else 0
  {
    assert (b + [st])[..|b|] == b;
  }

  // ------------------------------------------------------------------- the summaries

  method PushUnique<T(==)>(values: seq<T>, value: T) returns (r: seq<T>)
    requires Distinct(values)
    ensures Distinct(r) && values <= r
    ensures forall x :: x in r <==> x in values || x == value
  {
    for i := 0 to |values|
      invariant value !in values[..i]
    {
      if values[i] == value {
        return values;
      }
      assert values[..i + 1] == values[..i] + [values[i]];
    }
    assert values[..|values|] == values;
    DistinctSnoc(values, value);
    r := values + [value];
  }

  method PushAllUnique<T(==)>(values: seq<T>, more: seq<T>) returns (r: seq<T>)
    requires Distinct(values)
    ensures Distinct(r) && values <= r
    ensures forall x :: x in r <==> x in values || x in more
  {
    r := values;
    for i := 0 to |more|
      invariant Distinct(r) && values <= r
      invariant forall x :: x in r <==> x in values || x in more[..i]
    {
      assert more[..i + 1] == more[..i] + [more[i]];
      r := PushUnique(r, more[i]);
    }
    assert more[..|more|] == more;
  }

  method CollectCalledTargets(e: Expr, targets: seq<string>) returns (r: seq<string>)
    requires Distinct(targets)
    ensures Distinct(r) && targets <= r
    ensures forall t :: t in r <==> t in targets || t in Calls(e)
    decreases e
  {
    match e
    case Atom => r := targets;
    case Call(callee, arguments) =>
      r := PushUnique(targets, callee);
      r := CollectFromAll(arguments, r);
    case Node(parts) => r := CollectFromAll(parts, targets);
  }

  method CollectFromAll(es: seq<Expr>, targets: seq<string>) returns (r: seq<string>)
    requires Distinct(targets)
    ensures Distinct(r) && targets <= r
    ensures forall t :: t in r <==> t in targets || t in CallsOfAll(es)
    decreases es
  {
    r := targets;
    for i := 0 to |es|
      invariant Distinct(r) && targets <= r
      invariant forall t :: t in r <==> t in targets || t in CallsOfAll(es[..i])
    {
      assert es[..i + 1][..i] == es[..i];
      r := CollectCalledTargets(es[i], r);
    }
    assert es[..|es|] == es;
  }

  /** Everything but the fall-through flag is joined. */
  ghost predicate Joined(target: Summary, other: Summary, r: Summary) {
    && (forall x :: x in r.gotoTargets <==> x in target.gotoTargets || x in other.gotoTargets)
    && (forall x :: x in r.assignedPaths <==> x in target.assignedPaths || x in other.assignedPaths)
    && (forall x :: x in r.calledTargets <==> x in target.calledTargets || x in other.calledTargets)
    && r.mayReturn == (target.mayReturn || other.mayReturn)
    && r.mayFallthrough == target.mayFallthrough
    && r.assertCount == target.assertCount + other.assertCount
    && NoRepeats(r)
  }

  method MergeFlowSummary(target: Summary, other: Summary) returns (r: Summary)
    requires NoRepeats(target)
    ensures Joined(target, other, r)
  {
    var gotos := PushAllUnique(target.gotoTargets, other.gotoTargets);
    var paths := PushAllUnique(target.assignedPaths, other.assignedPaths);
    var calls := PushAllUnique(target.calledTargets, other.calledTargets);
    r := Summary(gotos, paths, calls, target.mayReturn || other.mayReturn, target.mayFallthrough,
                 target.assertCount + other.assertCount);
  }

  method SummarizeStatement(st: Stmt) returns (s: Summary)
    ensures StmtExact(st, s)
    decreases st
  {
    s := EMPTY;
    match st
    case Let(_, init) =>
      var calls := CollectCalledTargets(init, []);
      s := s.(calledTargets := calls);
      SimpleIsExact(st, s);
    case Assign(target, value) =>
      var calls := CollectCalledTargets(value, []);
      s := s.(assignedPaths := [target], calledTargets := calls);
      SimpleIsExact(st, s);
    case If(cond, thenBlock, hasElse, elseBlock) =>
      var calls := CollectCalledTargets(cond, []);
      s := s.(calledTargets := calls);
      var thenSummary := SummarizeBlock(thenBlock);
      var elseSummary := EMPTY;
      ghost var own := s;
      s := MergeFlowSummary(s, thenSummary);
      ghost var half := s;
      if hasElse {
        elseSummary := SummarizeBlock(elseBlock);
        s := MergeFlowSummary(s, elseSummary);
      }
      s := s.(mayFallthrough := !hasElse || thenSummary.mayFallthrough || elseSummary.mayFallthrough);
      BranchIsExact(st, own, thenSummary, half, elseSummary, s);
    case Goto(targetState) =>
      s := s.(gotoTargets := [targetState], mayFallthrough := false);
      SimpleIsExact(st, s);
    case Return(result) =>
      var calls := CollectCalledTargets(result, []);
      s := s.(calledTargets := calls, mayReturn := true, mayFallthrough := false);
      SimpleIsExact(st, s);
    case Assert(cond) =>
      var calls := CollectCalledTargets(cond, []);
      s := s.(calledTargets := calls, assertCount := 1);
      SimpleIsExact(st, s);
    case ExprStmt(e) =>
      var calls := CollectCalledTargets(e, []);
      s := s.(calledTargets := calls);
      SimpleIsExact(st, s);
  }

  /** Main result: the summary of a block is exact; statements that cannot be reached count for
      nothing. */
  method SummarizeBlock(b: Block) returns (s: Summary)
    ensures Exact(b, s)
    decreases b
  {
    s := EMPTY;
    EmptyIsExact();
    for i := 0 to |b|
      invariant Exact(b[..i], s)
    {
      if !s.mayFallthrough {
        RestIsUnreachable(b, i, s);
        return;
      }
      var next := SummarizeStatement(b[i]);
      ghost var before := s;
      s := MergeFlowSummary(s, next);
      s := s.(mayFallthrough := next.mayFallthrough);
      assert b[..i + 1] == b[..i] + [b[i]];
      ExtensionIsExact(b[..i], b[i], before, next, s);
    }
    assert b[..|b|] == b;
  }

  // ---------------------------------------------------------------- runs of statements

  /** Every statement can run. */
  lemma {:induction false} SomeRun(st: Stmt) returns (r: StmtRun)
    ensures IsStmtRun(st, r)
  {
    r := if st.Goto? then Completes else Fails({});
  }

  ghost function SimpleOutcome(st: Stmt): Outcome {
    match st
    case Goto(q) => WentTo(q)
    case Return(_) => Returned
    case _ => Fell
  }

  lemma {:induction false} SimpleRuns(st: Stmt)
    requires !st.If?
    ensures forall o :: o != Failed ==> (StmtCanEnd(st, o) <==> o == SimpleOutcome(st))
    ensures forall e :: StmtCanDo(st, e) <==> e in OwnEvents(st)
  {
    assert IsStmtRun(st, Completes);
    assert StmtOutcome(st, Completes) == SimpleOutcome(st);
    assert StmtEvents(st, Completes) == OwnEvents(st);
    forall e
      ensures StmtCanDo(st, e) <==> e in OwnEvents(st)
    {
      if StmtCanDo(st, e) {
        var r :| IsStmtRun(st, r) && e in StmtEvents(st, r);
      }
    }
  }

  lemma {:induction false} SimpleIsExact(st: Stmt, s: Summary)
    requires !st.If? && NoRepeats(s) && s.assertCount == AssertsIn(st)
    requires forall o :: o != Failed ==> (Reports(s, o) <==> o == SimpleOutcome(st))
    requires forall e :: e != Asserted ==> (Covers(s, e) <==> e in OwnEvents(st))
    ensures StmtExact(st, s)
  {
    SimpleRuns(st);
  }

  lemma {:induction false} BranchEnds(st: Stmt, o: Outcome)
    requires st.If? && o != Failed
    ensures StmtCanEnd(st, o) <==> CanEnd(Taken(st, true), o) || CanEnd(Taken(st, false), o)
  {
    if StmtCanEnd(st, o) {
      var r :| IsStmtRun(st, r) && StmtOutcome(st, r) == o;
      assert IsRun(Taken(st, r.taken), r.inside) && EndOf(Taken(st, r.taken), r.inside) == o;
    }
    forall taken | CanEnd(Taken(st, taken), o)
      ensures StmtCanEnd(st, o)
    {
      var inside :| IsRun(Taken(st, taken), inside) && EndOf(Taken(st, taken), inside) == o;
      assert IsStmtRun(st, Branch(taken, inside)) && StmtOutcome(st, Branch(taken, inside)) == o;
    }
  }

  lemma {:induction false} BranchDoes(st: Stmt, e: Event)
    requires st.If?
    ensures StmtCanDo(st, e) <==>
      e in OwnEvents(st) || CanDo(Taken(st, true), e) || CanDo(Taken(st, false), e)
  {
    if StmtCanDo(st, e) {
      var r :| IsStmtRun(st, r) && e in StmtEvents(st, r);
      if r.Branch? && e !in OwnEvents(st) {
        assert e in Events(Taken(st, r.taken), r.inside);
      }
    }
    if e in OwnEvents(st) {
      assert IsStmtRun(st, Fails({e}));
    }
    forall taken | CanDo(Taken(st, taken), e)
      ensures StmtCanDo(st, e)
    {
      var inside :| IsRun(Taken(st, taken), inside) && e in Events(Taken(st, taken), inside);
      assert IsStmtRun(st, Branch(taken, inside)) && e in StmtEvents(st, Branch(taken, inside));
    }
  }

  lemma {:induction false} BranchIsExact(st: Stmt, own: Summary, thenSummary: Summary, half: Summary, elseSummary: Summary, s: Summary)
    requires st.If? && Exact(st.thenBlock, thenSummary)
    requires st.hasElse ==> Exact(st.elseBlock, elseSummary)
    requires own == EMPTY.(calledTargets := own.calledTargets)
    requires forall t :: t in own.calledTargets <==> t in Calls(st.cond)
    requires Joined(own, thenSummary, half)
    requires if st.hasElse then Joined(half, elseSummary, s.(mayFallthrough := half.mayFallthrough))
             else s == half.(mayFallthrough := true) && elseSummary == EMPTY
    requires s.mayFallthrough == (!st.hasElse || thenSummary.mayFallthrough || elseSummary.mayFallthrough)
    ensures StmtExact(st, s)
  {
    hide IsRun, IsStmtRun, Events, StmtEvents, CanEnd, CanDo, StmtCanEnd, StmtCanDo, Asserts;
    EmptyIsExact();
    forall o | o != Failed
      ensures Reports(s, o) <==> StmtCanEnd(st, o)
    {
      BranchEnds(st, o);
      assert Reports(thenSummary, o) <==> CanEnd(Taken(st, true), o);
      assert Reports(elseSummary, o) <==> CanEnd(Taken(st, false), o);
    }
    forall e | e != Asserted
      ensures Covers(s, e) <==> StmtCanDo(st, e)
    {
      BranchDoes(st, e);
      assert Covers(thenSummary, e) <==> CanDo(Taken(st, true), e);
      assert Covers(elseSummary, e) <==> CanDo(Taken(st, false), e);
      assert Covers(own, e) <==> e in OwnEvents(st);
    }
  }

  // -------------------------------------------------------------------- runs of blocks

  lemma {:induction false} EmptyIsExact()
    ensures Exact([], EMPTY)
  {
    assert IsRun([], []) && EndOf([], []) == Fell && Events([], []) == {};
    forall o
      ensures CanEnd([], o) <==> o == Fell
    {
      if CanEnd([], o) {
        var r :| IsRun([], r) && EndOf([], r) == o;
      }
    }
    assert forall r :: IsRun([], r) ==> Events([], r) == {};
  }

  lemma {:induction false} EventsOfNext(b: Block, st: Stmt, r: Run, next: StmtRun)
    requires |r| == |b|
    ensures Events(b + [st], r + [next]) == Events(b, r) + StmtEvents(st, next)
  {
    hide StmtEvents;
    var longer, s := b + [st], r + [next];
    assert longer[|b|] == st && s[|b|] == next;
    assert forall i :: 0 <= i < |b| ==> longer[i] == b[i] && s[i] == r[i];
    forall e | e in Events(b, r) + StmtEvents(st, next)
      ensures e in Events(longer, s)
    {
      if e in Events(b, r) {
        var i :| 0 <= i < |r| && i < |b| && e in StmtEvents(b[i], r[i]);
        assert e in StmtEvents(longer[i], s[i]);
      } else {
        assert e in StmtEvents(longer[|b|], s[|b|]);
      }
    }
  }

  lemma {:induction false} RunOfLonger(b: Block, st: Stmt, r: Run)
    requires IsRun(b + [st], r)
    ensures |r| <= |b| + 1
    ensures |r| <= |b| ==> IsRun(b, r) && EndOf(b, r) == EndOf(b + [st], r) != Fell && Events(b, r) == Events(b + [st], r)
    ensures |r| == |b| + 1 ==>
      && IsRun(b, r[..|b|]) && EndOf(b, r[..|b|]) == Fell && IsStmtRun(st, r[|b|])
      && EndOf(b + [st], r) == StmtOutcome(st, r[|b|])
      && Events(b + [st], r) == Events(b, r[..|b|]) + StmtEvents(st, r[|b|])
  {
  }

  lemma {:induction false} StoppedRun(b: Block, st: Stmt, r: Run)
    requires IsRun(b, r) && EndOf(b, r) != Fell
    ensures IsRun(b + [st], r) && EndOf(b + [st], r) == EndOf(b, r) && Events(b + [st], r) == Events(b, r)
  {
  }

  lemma {:induction false} ContinuedRun(b: Block, st: Stmt, r: Run, next: StmtRun)
    requires IsRun(b, r) && EndOf(b, r) == Fell && IsStmtRun(st, next)
    ensures IsRun(b + [st], r + [next]) && EndOf(b + [st], r + [next]) == StmtOutcome(st, next)
    ensures Events(b + [st], r + [next]) == Events(b, r) + StmtEvents(st, next)
  {
    hide StmtOutcome, IsStmtRun, StmtEvents, Events;
    assert |r| == |b|;
    assert (b + [st])[|b|] == st && (r + [next])[|b|] == next;
    assert forall i :: 0 <= i < |b| ==> (b + [st])[i] == b[i] && (r + [next])[i] == r[i];
    EventsOfNext(b, st, r, next);
  }

  lemma {:induction false} LongerEnds(b: Block, st: Stmt, o: Outcome)
    ensures CanEnd(b + [st], o) <==> (o != Fell && CanEnd(b, o)) || (CanEnd(b, Fell) && StmtCanEnd(st, o))
  {
    if CanEnd(b + [st], o) {
      var r :| IsRun(b + [st], r) && EndOf(b + [st], r) == o;
      RunOfLonger(b, st, r);
      if |r| == |b| + 1 {
        assert IsRun(b, r[..|b|]) && IsStmtRun(st, r[|b|]);
      }
    }
    if o != Fell && CanEnd(b, o) {
      var r :| IsRun(b, r) && EndOf(b, r) == o;
      StoppedRun(b, st, r);
    }
    if CanEnd(b, Fell) && StmtCanEnd(st, o) {
      var r :| IsRun(b, r) && EndOf(b, r) == Fell;
      var next :| IsStmtRun(st, next) && StmtOutcome(st, next) == o;
      ContinuedRun(b, st, r, next);
    }
  }

  lemma {:induction false} LongerDoes(b: Block, st: Stmt, e: Event)
    ensures CanDo(b + [st], e) <==> CanDo(b, e) || (CanEnd(b, Fell) && StmtCanDo(st, e))
  {
    hide IsRun, Events, IsStmtRun, StmtEvents, EndOf;
    if CanDo(b + [st], e) {
      var r :| IsRun(b + [st], r) && e in Events(b + [st], r);
      RunOfLonger(b, st, r);
      if |r| == |b| + 1 {
        assert IsRun(b, r[..|b|]) && IsStmtRun(st, r[|b|]);
      }
    }
    if CanDo(b, e) {
      var r :| IsRun(b, r) && e in Events(b, r);
      if EndOf(b, r) == Fell {
        var next := SomeRun(st);
        ContinuedRun(b, st, r, next);
      } else {
        StoppedRun(b, st, r);
      }
    }
    if CanEnd(b, Fell) && StmtCanDo(st, e) {
      var r :| IsRun(b, r) && EndOf(b, r) == Fell;
      var next :| IsStmtRun(st, next) && e in StmtEvents(st, next);
      ContinuedRun(b, st, r, next);
    }
  }

  lemma {:induction false} ExtensionIsExact(b: Block, st: Stmt, before: Summary, next: Summary, s: Summary)
    requires Exact(b, before) && before.mayFallthrough && StmtExact(st, next)
    requires Joined(before, next, s.(mayFallthrough := true)) && s.mayFallthrough == next.mayFallthrough
    ensures Exact(b + [st], s)
  {
    hide IsRun, IsStmtRun, Events, StmtEvents, CanEnd, CanDo, StmtCanEnd, StmtCanDo;
    assert Reports(before, Fell);
    forall o | o != Failed
      ensures Reports(s, o) <==> CanEnd(b + [st], o)
    {
      LongerEnds(b, st, o);
    }
    forall e | e != Asserted
      ensures Covers(s, e) <==> CanDo(b + [st], e)
    {
      LongerDoes(b, st, e);
    }
    assert (b + [st])[..|b|] == b;
  }

  /** Nothing after a block that cannot be left at its end adds an outcome, an action or a count. */
  lemma {:induction false} RestIsUnreachable(b: Block, i: nat, s: Summary)
    requires i <= |b| && Exact(b[..i], s) && !s.mayFallthrough
    ensures Exact(b, s)
    decreases |b| - i
  {
    hide IsRun, IsStmtRun, Events, StmtEvents, CanEnd, CanDo, StmtCanEnd, StmtCanDo;
    assert !Reports(s, Fell);
    if i == |b| {
      assert b[..i] == b;
    } else {
      var st := b[i];
      assert b[..i + 1] == b[..i] + [st] && (b[..i] + [st])[..i] == b[..i];
      forall o | o != Failed
        ensures Reports(s, o) <==> CanEnd(b[..i + 1], o)
      {
        LongerEnds(b[..i], st, o);
      }
      forall e | e != Asserted
        ensures Covers(s, e) <==> CanDo(b[..i + 1], e)
      {
        LongerDoes(b[..i], st, e);
      }
      RestIsUnreachable(b, i + 1, s);
    }
  }

  // --------------------------------------------------------------------- what follows

  /** Every run is reported: its outcome, what it assigns and calls, and how often it asserts. */
  lemma {:induction false} EveryRunIsReported(b: Block, s: Summary, r: Run)
    requires Exact(b, s) && IsRun(b, r)
    ensures Reports(s, EndOf(b, r))
    ensures forall e :: e in Events(b, r) && e != Asserted ==> Covers(s, e)
    ensures AssertsUpTo(b, r, |r|) <= s.assertCount
  {
    assert EndOf(b, r) != Failed ==> CanEnd(b, EndOf(b, r));
    forall e | e in Events(b, r) && e != Asserted
      ensures Covers(s, e)
    {
      assert CanDo(b, e);
    }
    RunAsserts(b, r);
  }

  lemma {:induction false} RunAsserts(b: Block, r: Run)
    requires IsRun(b, r)
    ensures AssertsUpTo(b, r, |r|) <= Asserts(b)
    decreases r, |b|, 1
  {
    AssertsOfPrefix(b, r, |r|);
    AssertsGrow(b, |r|);
  }

  lemma {:induction false} AssertsGrow(b: Block, n: nat)
    requires n <= |b|
    ensures Asserts(b[..n]) <= Asserts(b)
    decreases |b| - n
  {
    if n == |b| {
      assert b[..n] == b;
    } else {
      assert b[..n + 1][..n] == b[..n];
      AssertsGrow(b, n + 1);
    }
  }

  lemma {:induction false} AssertsOfPrefix(b: Block, r: Run, n: nat)
    requires IsRun(b, r) && n <= |r|
    ensures AssertsUpTo(b, r, n) <= Asserts(b[..n])
    decreases r, n, 0
  {
    if n > 0 {
      AssertsOfPrefix(b, r, n - 1);
      StmtRunAsserts(b[n - 1], r[n - 1]);
      assert b[..n][..n - 1] == b[..n - 1];
      var init := r[..n - 1];
      assert IsRun(b[..n - 1], init) && EndOf(b[..n - 1], init) == Fell;
    }
  }

  lemma {:induction false} StmtRunAsserts(st: Stmt, r: StmtRun)
    requires IsStmtRun(st, r)
    ensures StmtAsserts(st, r) <= AssertsIn(st)
    decreases r, 0, 2
  {
    if r.Branch? {
      RunAsserts(Taken(st, r.taken), r.inside);
      assert Asserts([]) == 0;
    }
  }
}
