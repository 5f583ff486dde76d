/** When the facts of the type checker (src/compiler/semantics/typecheck.cpp) are true wherever a
    handler can get to: what a path tells about the store, and runs with branches and values free. */
module FlowSafety {
  import opened Wrappers
  import opened FlowFacts
  import opened ConditionFacts
  import opened FlowStatements

  // -------------------------------------------------------- what is known on a path

  /** What a path tells about the store: a fact, that the place holds a variant of no enum but its own,
      that there is such a place. */
  datatype Claim =
    | FactClaim(f: TypeFact)
    | OwnClaim(at: Place, enumName: string)
    | ExistsClaim(at: Place)

  type Known = set<Claim>

  function PlaceOf(c: Claim): Place {
    if c.FactClaim? then c.f.place else c.at
  }

  ghost predicate ClaimHolds(c: Claim, s: Store) {
    match c
    case FactClaim(f) => Holds(f, s)
    case OwnClaim(p, n) => Lookup(s, p).Some? && Lookup(s, p).value.VEnum? ==> Lookup(s, p).value.enumName == n
    case ExistsClaim(p) => Lookup(s, p).Some?
  }

  ghost predicate Satisfies(s: Store, known: Known) {
    HasCtx(s) && forall c :: c in known ==> ClaimHolds(c, s)
  }

  ghost predicate Satisfiable(known: Known) {
    exists s :: Satisfies(s, known)
  }

  /** Some store with all that is known makes the fact false. */
  ghost predicate CanFail(known: Known, f: TypeFact) {
    exists s :: Satisfies(s, known) && !Holds(f, s)
  }

  function FactClaims(facts: set<TypeFact>): Known {
    set f | f in facts :: FactClaim(f)
  }

  /** The places that a condition compares with variants, each with the enum of the variant. */
  function OwnClaims(e: Expr): Known {
    if e.Group? then OwnClaims(e.inner)
    else if e.Binary? && e.op == And then OwnClaims(e.lhs) + OwnClaims(e.rhs)
    else if !IsComparison(e) || VariantOperands(e).None? then {}
    else {OwnClaim(VariantOperands(e).value.0, VariantOperands(e).value.1.enumName)}
  }

  function EdgeClaims(e: Expr, truth: bool): Known {
    FactClaims(EdgeFacts(e, truth)) + OwnClaims(e)
  }

  /** Writing to a place leaves what is known about others. */
  function AfterWrite(known: Known, p: Place): Known {
    (set c | c in known && !SameOrDescendant(PlaceOf(c), p)) + {ExistsClaim(p)}
  }

  /** What is known where the block is fallen out of, path by path. */
  ghost function Ends(b: Block, known: Known): set<Known>
    decreases b
  {
    if b == [] then {known}
    else set k, r | k in StmtEnds(b[0], known) && r in Ends(b[1..], k) :: r
  }

  ghost function StmtEnds(st: Stmt, known: Known): set<Known>
    decreases st
  {
    match st
    case Let(name, _) => {AfterWrite(known, Place(name, []))}
    case AssignCtx(members, _) => if members == [] then {} else {AfterWrite(known, Place("ctx", members[..1]))}
    case If(cond, thenBlock, elseBlock) =>
      var onTrue, onFalse := known + EdgeClaims(cond, true), known + EdgeClaims(cond, false);
      (if Satisfiable(onTrue) then Ends(thenBlock, onTrue) else {})
      + if Satisfiable(onFalse) then Ends(elseBlock, onFalse) else {}
    case Evaluate(_) => {known}
    case Leave => {}
  }

  /** Some path falls out of the block with nothing known that keeps the fact from being false. */
  ghost predicate MayFalse(b: Block, known: Known, f: TypeFact) {
    exists k :: k in Ends(b, known) && CanFail(k, f)
  }

  /** On no path does a live fact lack a reason to be true. */
  ghost predicate SafeFrom(b: Block, live: set<TypeFact>, known: Known)
    decreases b
  {
    && (forall f :: f in live ==> !CanFail(known, f))
    && (b != [] ==>
        && SafeInside(b[0], live, known)
        && forall k :: k in StmtEnds(b[0], known) ==> SafeFrom(b[1..], FactsAfter(b[0], live), k))
  }

  ghost predicate SafeInside(st: Stmt, live: set<TypeFact>, known: Known)
    decreases st
  {
    st.If? ==>
      && (Satisfiable(known + EdgeClaims(st.cond, true)) ==>
            SafeFrom(st.thenBlock, ThenFacts(st, live), known + EdgeClaims(st.cond, true)))
      && (Satisfiable(known + EdgeClaims(st.cond, false)) ==>
            SafeFrom(st.elseBlock, ElseFacts(st, live), known + EdgeClaims(st.cond, false)))
  }

  ghost predicate Safe(b: Block, live: set<TypeFact>) {
    Satisfiable(FactClaims(live)) ==> SafeFrom(b, live, FactClaims(live))
  }

  // ---------------------------------------- runs with branches and values left free

  /** No `let` hides the context. */
  predicate KeepsCtx(b: Block)
    decreases b
  {
    b == [] || (StmtKeepsCtx(b[0]) && KeepsCtx(b[1..]))
  }

  predicate StmtKeepsCtx(st: Stmt)
    decreases st
  {
    match st
    case Let(name, _) => name != "ctx"
    case If(_, thenBlock, elseBlock) => KeepsCtx(thenBlock) && KeepsCtx(elseBlock)
    case _ => true
  }

  /** The places that statements write as a whole: a local, or a member of the context. */
  predicate IsTarget(p: Place) {
    if p.root == "ctx" then |p.members| == 1 else p.members == []
  }

  function Put(s: Store, p: Place, v: Value): Store
    requires HasCtx(s)
  {
    if p.members == [] then s[p.root := v] else AssignCtxMember(s, p.members[0], v)
  }

  /** Any value may be written, and any branch taken whose facts are true, in a store where the places
      compared hold variants of their own enums. */
  ghost predicate FreeStep(st: Stmt, s: Store, r: Store)
    requires HasCtx(s)
    decreases st
  {
    match st
    case Let(name, _) => exists v :: r == Put(s, Place(name, []), v)
    case AssignCtx(members, _) => members != [] && exists v :: r == Put(s, Place("ctx", members[..1]), v)
    case If(cond, thenBlock, elseBlock) =>
      || (Satisfies(s, EdgeClaims(cond, true)) && FreeRun(thenBlock, s, r))
      || (Satisfies(s, EdgeClaims(cond, false)) && FreeRun(elseBlock, s, r))
    case Evaluate(_) => r == s
    case Leave => false
  }

  ghost predicate FreeRun(b: Block, s: Store, r: Store)
    requires HasCtx(s)
    decreases b
  {
    if b == [] then r == s
    else exists m :: HasCtx(m) && FreeStep(b[0], s, m) && FreeRun(b[1..], m, r)
  }

  /** However the run goes on from here, all live facts are true at every statement it reaches. */
  ghost predicate FreeSafe(b: Block, live: set<TypeFact>, s: Store)
    requires HasCtx(s)
    decreases b
  {
    && AllHold(live, s)
    && (b != [] ==>
        && FreeInside(b[0], live, s)
        && forall r :: HasCtx(r) && FreeStep(b[0], s, r) ==> FreeSafe(b[1..], FactsAfter(b[0], live), r))
  }

  ghost predicate FreeInside(st: Stmt, live: set<TypeFact>, s: Store)
    requires HasCtx(s)
    decreases st
  {
    st.If? ==>
      && (Satisfies(s, EdgeClaims(st.cond, true)) ==> FreeSafe(st.thenBlock, ThenFacts(st, live), s))
      && (Satisfies(s, EdgeClaims(st.cond, false)) ==> FreeSafe(st.elseBlock, ElseFacts(st, live), s))
  }

  // -------------------------------------------------------- which stores a path leads to

  /** What lies at a target or below it is read off the value there. */
  lemma LookupBelow(s: Store, p: Place, q: Place)
    requires HasCtx(s) && IsTarget(p) && SameOrDescendant(q, p)
    ensures Lookup(s, q)
      == if Lookup(s, p).None? then None else Member(Lookup(s, p).value, q.members[|p.members|..])
  {
    if p.members == [] {
      assert q.members[0..] == q.members;
    } else {
      var m := p.members[0];
      assert q.members[0] == q.members[..1][0] == m && p.members[1..] == [];
      assert Member(s["ctx"], p.members) == if m in s["ctx"].fields then Member(s["ctx"].fields[m], []) else None;
    }
  }

  lemma PutAndRead(s: Store, p: Place, v: Value, w: Value)
    requires HasCtx(s) && IsTarget(p)
    ensures HasCtx(Put(s, p, v)) && Lookup(Put(s, p, v), p) == Some(v)
    ensures Put(Put(s, p, v), p, w) == Put(s, p, w)
    ensures Lookup(s, p) == Some(v) ==> Put(s, p, v) == s
  {
    if p.members != [] {
      assert p.members[1..] == [];
      var m, r := p.members[0], Put(s, p, v);
      assert Member(r["ctx"], p.members) == Member(r["ctx"].fields[m], []);
      assert s["ctx"].fields[m := v][m := w] == s["ctx"].fields[m := w];
      if Lookup(s, p) == Some(v) {
        assert Member(s["ctx"], p.members) == Member(s["ctx"].fields[m], []);
        assert s["ctx"].fields[m := v] == s["ctx"].fields;
      }
    }
  }

  lemma ClaimElsewhere(c: Claim, s: Store, p: Place, v: Value)
    requires HasCtx(s) && IsTarget(p) && !SameOrDescendant(PlaceOf(c), p)
    ensures ClaimHolds(c, Put(s, p, v)) <==> ClaimHolds(c, s)
  {
    var q := PlaceOf(c);
    if q.root == "ctx" && q.members != [] && p.root == "ctx" {
      assert q.members[..1] == [q.members[0]] && p.members == [p.members[0]];
    }
  }

  lemma ClaimBelow(c: Claim, s: Store, r: Store, p: Place)
    requires HasCtx(s) && HasCtx(r) && IsTarget(p) && SameOrDescendant(PlaceOf(c), p) && Lookup(s, p) == Lookup(r, p)
    ensures ClaimHolds(c, s) <==> ClaimHolds(c, r)
  {
    LookupBelow(s, p, PlaceOf(c));
    LookupBelow(r, p, PlaceOf(c));
  }

  /** Below a place that is missing no fact holds and no place exists, and none keeps another enum out. */
  lemma ClaimBelowNothing(c: Claim, s: Store, r: Store, p: Place)
    requires HasCtx(s) && HasCtx(r) && IsTarget(p) && SameOrDescendant(PlaceOf(c), p)
    requires Lookup(s, p).None? && ClaimHolds(c, s) && Lookup(r, p) == Some(VNone)
    ensures ClaimHolds(c, r)
  {
    LookupBelow(s, p, PlaceOf(c));
    LookupBelow(r, p, PlaceOf(c));
  }

  /** A write leads from the stores with what is known exactly to those with what is known after it. */
  lemma WriteReaches(known: Known, p: Place, r: Store)
    requires IsTarget(p) && Satisfiable(known) && Satisfies(r, AfterWrite(known, p))
    ensures exists s, v :: Satisfies(s, known) && r == Put(s, p, v)
  {
    var s0 :| Satisfies(s0, known);
    var was := if Lookup(s0, p).Some? then Lookup(s0, p).value else VNone;
    assert ExistsClaim(p) in AfterWrite(known, p);
    var v := Lookup(r, p).value;
    var s := Put(r, p, was);
    PutAndRead(r, p, was, v);
    PutAndRead(r, p, v, v);
    forall c | c in known
      ensures ClaimHolds(c, s)
    {
      if SameOrDescendant(PlaceOf(c), p) {
        if Lookup(s0, p).Some? {
          ClaimBelow(c, s0, s, p);
        } else {
          ClaimBelowNothing(c, s0, s, p);
        }
      } else {
        assert c in AfterWrite(known, p);
        ClaimElsewhere(c, r, p, was);
      }
    }
  }

  lemma WriteStays(known: Known, p: Place, s: Store, v: Value)
    requires IsTarget(p) && Satisfies(s, known)
    ensures Satisfies(Put(s, p, v), AfterWrite(known, p))
  {
    PutAndRead(s, p, v, v);
    forall c | c in AfterWrite(known, p)
      ensures ClaimHolds(c, Put(s, p, v))
    {
      if c in known && !SameOrDescendant(PlaceOf(c), p) {
        ClaimElsewhere(c, s, p, v);
      }
    }
  }

  lemma {:induction false} RunStays(b: Block, known: Known, s: Store, r: Store) returns (k: Known)
    requires KeepsCtx(b) && Satisfies(s, known) && FreeRun(b, s, r)
    ensures k in Ends(b, known) && Satisfies(r, k)
    decreases b
  {
    if b == [] {
      k := known;
    } else {
      var m :| HasCtx(m) && FreeStep(b[0], s, m) && FreeRun(b[1..], m, r);
      var l := StepStays(b[0], known, s, m);
      k := RunStays(b[1..], l, m, r);
    }
  }

  lemma {:induction false} StepStays(st: Stmt, known: Known, s: Store, r: Store) returns (k: Known)
    requires StmtKeepsCtx(st) && Satisfies(s, known) && FreeStep(st, s, r)
    ensures k in StmtEnds(st, known) && Satisfies(r, k)
    decreases st
  {
    match st
    case Let(name, _) =>
      var p := Place(name, []);
      var v :| r == Put(s, p, v);
      WriteStays(known, p, s, v);
      k := AfterWrite(known, p);
    case AssignCtx(members, _) =>
      var p := Place("ctx", members[..1]);
      var v :| r == Put(s, p, v);
      WriteStays(known, p, s, v);
      k := AfterWrite(known, p);
    case If(cond, thenBlock, elseBlock) =>
      if Satisfies(s, EdgeClaims(cond, true)) && FreeRun(thenBlock, s, r) {
        assert Satisfies(s, known + EdgeClaims(cond, true));
        k := RunStays(thenBlock, known + EdgeClaims(cond, true), s, r);
      } else {
        assert Satisfies(s, known + EdgeClaims(cond, false));
        k := RunStays(elseBlock, known + EdgeClaims(cond, false), s, r);
      }
    case Evaluate(_) => k := known;
    case Leave =>
  }

  lemma {:induction false} RunReaches(b: Block, known: Known, k: Known, r: Store) returns (s: Store)
    requires KeepsCtx(b) && Satisfiable(known) && k in Ends(b, known) && Satisfies(r, k)
    ensures Satisfies(s, known) && FreeRun(b, s, r)
    decreases b
  {
    if b == [] {
      s := r;
    } else {
      var l :| l in StmtEnds(b[0], known) && k in Ends(b[1..], l);
      EndsAreSatisfiable(b[0], known, l);
      var m := RunReaches(b[1..], l, k, r);
      s := StepReaches(b[0], known, l, m);
      assert HasCtx(m) && FreeStep(b[0], s, m);
    }
  }

  lemma {:induction false} StepReaches(st: Stmt, known: Known, k: Known, r: Store) returns (s: Store)
    requires StmtKeepsCtx(st) && Satisfiable(known) && k in StmtEnds(st, known) && Satisfies(r, k)
    ensures Satisfies(s, known) && FreeStep(st, s, r)
    decreases st
  {
    match st
    case Let(name, _) =>
      WriteReaches(known, Place(name, []), r);
      var v;
      s, v :| Satisfies(s, known) && r == Put(s, Place(name, []), v);
    case AssignCtx(members, _) =>
      WriteReaches(known, Place("ctx", members[..1]), r);
      var v;
      s, v :| Satisfies(s, known) && r == Put(s, Place("ctx", members[..1]), v);
    case If(cond, thenBlock, elseBlock) =>
      var onTrue, onFalse := known + EdgeClaims(cond, true), known + EdgeClaims(cond, false);
      if Satisfiable(onTrue) && k in Ends(thenBlock, onTrue) {
        s := RunReaches(thenBlock, onTrue, k, r);
      } else {
        s := RunReaches(elseBlock, onFalse, k, r);
      }
    case Evaluate(_) => s := r;
    case Leave =>
  }

  lemma {:induction false} EndsAreSatisfiable(st: Stmt, known: Known, k: Known)
    requires StmtKeepsCtx(st) && Satisfiable(known) && k in StmtEnds(st, known)
    ensures Satisfiable(k)
    decreases st
  {
    var s :| Satisfies(s, known);
    match st
    case Let(name, _) => WriteStays(known, Place(name, []), s, VNone);
    case AssignCtx(members, _) => WriteStays(known, Place("ctx", members[..1]), s, VNone);
    case If(cond, thenBlock, elseBlock) =>
      var onTrue, onFalse := known + EdgeClaims(cond, true), known + EdgeClaims(cond, false);
      if Satisfiable(onTrue) && k in Ends(thenBlock, onTrue) {
        BlockEndsAreSatisfiable(thenBlock, onTrue, k);
      } else {
        BlockEndsAreSatisfiable(elseBlock, onFalse, k);
      }
    case _ =>
  }

  lemma {:induction false} BlockEndsAreSatisfiable(b: Block, known: Known, k: Known)
    requires KeepsCtx(b) && Satisfiable(known) && k in Ends(b, known)
    ensures Satisfiable(k)
    decreases b
  {
    if b != [] {
      var l :| l in StmtEnds(b[0], known) && k in Ends(b[1..], l);
      EndsAreSatisfiable(b[0], known, l);
      BlockEndsAreSatisfiable(b[1..], l, k);
    }
  }

  /** Main result: a block that is entered with what is known can be fallen out of in a store exactly if
      the store has what is known at the end of some path. */
  lemma ReachedExactlyByPaths(b: Block, known: Known, r: Store)
    requires KeepsCtx(b) && Satisfiable(known)
    ensures (exists s :: Satisfies(s, known) && FreeRun(b, s, r))
      <==> exists k :: k in Ends(b, known) && Satisfies(r, k)
  {
    if s :| Satisfies(s, known) && FreeRun(b, s, r) {
      var k := RunStays(b, known, s, r);
    }
    if k :| k in Ends(b, known) && Satisfies(r, k) {
      var s := RunReaches(b, known, k, r);
    }
  }

  // -------------------------------------------------------------- safe blocks, exactly

  lemma {:induction false} SafeIsFreeSafe(b: Block, live: set<TypeFact>, known: Known, s: Store)
    requires KeepsCtx(b) && Satisfies(s, known) && SafeFrom(b, live, known)
    ensures FreeSafe(b, live, s)
    decreases b
  {
    forall f | f in live
      ensures Holds(f, s)
    {
      assert !CanFail(known, f);
    }
    if b != [] {
      var st := b[0];
      if st.If? {
        if Satisfies(s, EdgeClaims(st.cond, true)) {
          assert Satisfies(s, known + EdgeClaims(st.cond, true));
          SafeIsFreeSafe(st.thenBlock, ThenFacts(st, live), known + EdgeClaims(st.cond, true), s);
        }
        if Satisfies(s, EdgeClaims(st.cond, false)) {
          assert Satisfies(s, known + EdgeClaims(st.cond, false));
          SafeIsFreeSafe(st.elseBlock, ElseFacts(st, live), known + EdgeClaims(st.cond, false), s);
        }
      }
      forall r | HasCtx(r) && FreeStep(st, s, r)
        ensures FreeSafe(b[1..], FactsAfter(st, live), r)
      {
        var k := StepStays(st, known, s, r);
        SafeIsFreeSafe(b[1..], FactsAfter(st, live), k, r);
      }
    }
  }

  ghost predicate AlwaysFreeSafe(b: Block, live: set<TypeFact>, known: Known) {
    forall s :: Satisfies(s, known) ==> FreeSafe(b, live, s)
  }

  lemma {:induction false} FreeSafeIsSafe(b: Block, live: set<TypeFact>, known: Known)
    requires KeepsCtx(b) && Satisfiable(known) && AlwaysFreeSafe(b, live, known)
    ensures SafeFrom(b, live, known)
    decreases b
  {
    if b != [] {
      var st, after := b[0], FactsAfter(b[0], live);
      if st.If? {
        BranchIsSafe(b, live, known, true);
        BranchIsSafe(b, live, known, false);
        if Satisfiable(known + EdgeClaims(st.cond, true)) {
          FreeSafeIsSafe(st.thenBlock, ThenFacts(st, live), known + EdgeClaims(st.cond, true));
        }
        if Satisfiable(known + EdgeClaims(st.cond, false)) {
          FreeSafeIsSafe(st.elseBlock, ElseFacts(st, live), known + EdgeClaims(st.cond, false));
        }
      }
      forall k | k in StmtEnds(st, known)
        ensures SafeFrom(b[1..], after, k)
      {
        EndsAreSatisfiable(st, known, k);
        forall r | Satisfies(r, k)
          ensures FreeSafe(b[1..], after, r)
        {
          var s := StepReaches(st, known, k, r);
          assert FreeSafe(b, live, s);
        }
        FreeSafeIsSafe(b[1..], after, k);
      }
    }
  }

  lemma BranchIsSafe(b: Block, live: set<TypeFact>, known: Known, truth: bool)
    requires b != [] && b[0].If? && AlwaysFreeSafe(b, live, known)
    ensures truth ==> AlwaysFreeSafe(b[0].thenBlock, ThenFacts(b[0], live), known + EdgeClaims(b[0].cond, true))
    ensures !truth ==> AlwaysFreeSafe(b[0].elseBlock, ElseFacts(b[0], live), known + EdgeClaims(b[0].cond, false))
  {
    var edge := EdgeClaims(b[0].cond, truth);
    forall s | Satisfies(s, known + edge)
      ensures truth ==> FreeSafe(b[0].thenBlock, ThenFacts(b[0], live), s)
      ensures !truth ==> FreeSafe(b[0].elseBlock, ElseFacts(b[0], live), s)
    {
      assert Satisfies(s, known) && Satisfies(s, edge);
      assert FreeSafe(b, live, s) && FreeInside(b[0], live, s);
    }
  }

  lemma FactClaimsAreFacts(facts: set<TypeFact>, s: Store)
    ensures Satisfies(s, FactClaims(facts)) <==> HasCtx(s) && AllHold(facts, s)
  {
    if Satisfies(s, FactClaims(facts)) {
      forall f | f in facts
        ensures Holds(f, s)
      {
        assert FactClaim(f) in FactClaims(facts);
      }
    }
  }

  /** Main result: a block is safe exactly when from every store in which the live facts are true no
      choice of branches and of written values leaves a live fact false at a statement that is reached. */
  lemma SafeExactlyWhenNoChoiceFalsifies(b: Block, live: set<TypeFact>)
    requires KeepsCtx(b)
    ensures Safe(b, live) <==> forall s :: HasCtx(s) && AllHold(live, s) ==> FreeSafe(b, live, s)
  {
    forall s
      ensures Satisfies(s, FactClaims(live)) <==> HasCtx(s) && AllHold(live, s)
    {
      FactClaimsAreFacts(live, s);
    }
    if Safe(b, live) {
      forall s | HasCtx(s) && AllHold(live, s)
        ensures FreeSafe(b, live, s)
      {
        SafeIsFreeSafe(b, live, FactClaims(live), s);
      }
    }
    if (forall s :: HasCtx(s) && AllHold(live, s) ==> FreeSafe(b, live, s)) && Satisfiable(FactClaims(live)) {
      FreeSafeIsSafe(b, live, FactClaims(live));
    }
  }

  /** And a block can leave a fact false exactly when some free run does. */
  lemma FalsifiedExactlyBySomeRun(b: Block, known: Known, f: TypeFact)
    requires KeepsCtx(b) && Satisfiable(known)
    ensures MayFalse(b, known, f) <==> exists s, r :: Satisfies(s, known) && FreeRun(b, s, r) && !Holds(f, r)
  {
    hide ClaimHolds, FreeRun, Holds, Ends, KeepsCtx, Satisfiable;
    if MayFalse(b, known, f) {
      var k :| k in Ends(b, known) && CanFail(k, f);
      var r :| Satisfies(r, k) && !Holds(f, r);
      var s := RunReaches(b, known, k, r);
    }
    if s, r :| Satisfies(s, known) && FreeRun(b, s, r) && !Holds(f, r) {
      var k := RunStays(b, known, s, r);
    }
  }

  // ------------------------------------------------------------------- the executor's runs

  /** Every condition that the run decides compares places with variants of their own enum. */
  ghost predicate OwnEnumAlong(b: Block, s: Store)
    requires HasCtx(s)
    decreases b
  {
    b != [] ==>
      && OwnEnumInside(b[0], s)
      && var r := ExecStmt(b[0], s);
         (r.Next? && HasCtx(r.store) ==> OwnEnumAlong(b[1..], r.store))
  }

  ghost predicate OwnEnumInside(st: Stmt, s: Store)
    requires HasCtx(s)
    decreases st
  {
    st.If? ==>
      && OwnEnum(st.cond, s)
      && (IsBool(Eval(st.cond, s), true) ==> OwnEnumAlong(st.thenBlock, s))
      && (IsBool(Eval(st.cond, s), false) ==> OwnEnumAlong(st.elseBlock, s))
  }

  /** No branch that the run takes denies a place the variant that it holds in a wrapper. */
  ghost predicate UnwrappedAlong(b: Block, s: Store)
    requires HasCtx(s)
    decreases b
  {
    b != [] ==>
      && UnwrappedInside(b[0], s)
      && var r := ExecStmt(b[0], s);
         (r.Next? && HasCtx(r.store) ==> UnwrappedAlong(b[1..], r.store))
  }

  ghost predicate UnwrappedInside(st: Stmt, s: Store)
    requires HasCtx(s)
    decreases st
  {
    st.If? ==>
      && (IsBool(Eval(st.cond, s), true) ==>
            NothingDeniedIsWrapped(EdgeFacts(st.cond, true), s) && UnwrappedAlong(st.thenBlock, s))
      && (IsBool(Eval(st.cond, s), false) ==>
            NothingDeniedIsWrapped(EdgeFacts(st.cond, false), s) && UnwrappedAlong(st.elseBlock, s))
  }

  lemma {:induction false} OwnClaimsAreOwnEnum(e: Expr, s: Store)
    requires HasCtx(s)
    ensures Satisfies(s, OwnClaims(e)) <==> OwnEnum(e, s)
  {
    if e.Group? {
      OwnClaimsAreOwnEnum(e.inner, s);
    } else if e.Binary? && e.op == And {
      OwnClaimsAreOwnEnum(e.lhs, s);
      OwnClaimsAreOwnEnum(e.rhs, s);
    }
  }

  lemma EdgeIsOpen(e: Expr, s: Store, truth: bool)
    requires HasCtx(s) && OwnEnum(e, s) && IsBool(Eval(e, s), truth) && NothingDeniedIsWrapped(EdgeFacts(e, truth), s)
    ensures Satisfies(s, EdgeClaims(e, truth))
  {
    ConditionFactsHold(e, s, truth);
    OwnClaimsAreOwnEnum(e, s);
    FactClaimsAreFacts(EdgeFacts(e, truth), s);
  }

  /** Every run of the executor is one of the free runs. */
  lemma {:induction false} RunIsFree(b: Block, s: Store)
    requires HasCtx(s) && KeepsCtx(b) && OwnEnumAlong(b, s) && UnwrappedAlong(b, s) && ExecBlock(b, s).Next?
    ensures HasCtx(ExecBlock(b, s).store)
    ensures FreeRun(b, s, ExecBlock(b, s).store)
    decreases b
  {
    if b != [] {
      StepIsFree(b[0], s);
      RunIsFree(b[1..], ExecStmt(b[0], s).store);
    }
  }

  lemma {:induction false} StepIsFree(st: Stmt, s: Store)
    requires HasCtx(s) && StmtKeepsCtx(st) && OwnEnumInside(st, s) && UnwrappedInside(st, s) && ExecStmt(st, s).Next?
    ensures HasCtx(ExecStmt(st, s).store)
    ensures FreeStep(st, s, ExecStmt(st, s).store)
    decreases st
  {
    match st
    case Let(name, init) =>
      assert ExecStmt(st, s).store == Put(s, Place(name, []), Eval(init, s).value);
    case AssignCtx(members, value) =>
      assert ExecStmt(st, s).store == Put(s, Place("ctx", members[..1]), Eval(value, s).value);
    case If(cond, thenBlock, elseBlock) =>
      if IsBool(Eval(cond, s), true) {
        EdgeIsOpen(cond, s, true);
        RunIsFree(thenBlock, s);
      } else {
        EdgeIsOpen(cond, s, false);
        RunIsFree(elseBlock, s);
      }
    case _ =>
  }

  /** A run leaves a fact true unless some path of the block, from what is known, can leave it false. */
  lemma RunKeepsFacts(b: Block, known: Known, s: Store, f: TypeFact)
    requires KeepsCtx(b) && Satisfies(s, known) && !MayFalse(b, known, f)
    requires OwnEnumAlong(b, s) && UnwrappedAlong(b, s) && ExecBlock(b, s).Next?
    ensures Holds(f, ExecBlock(b, s).store)
  {
    RunIsFree(b, s);
    FalsifiedExactlyBySomeRun(b, known, f);
  }

  lemma {:induction false} FreeSafeRunsAreTrue(b: Block, facts: set<TypeFact>, s: Store)
    requires HasCtx(s) && KeepsCtx(b) && OwnEnumAlong(b, s) && UnwrappedAlong(b, s)
    requires FreeSafe(b, facts, s)
    ensures TrueAlong(b, facts, s)
    decreases b
  {
    if b != [] {
      var st := b[0];
      if st.If? {
        if IsBool(Eval(st.cond, s), true) {
          EdgeIsOpen(st.cond, s, true);
          FreeSafeRunsAreTrue(st.thenBlock, ThenFacts(st, facts), s);
        } else if IsBool(Eval(st.cond, s), false) {
          EdgeIsOpen(st.cond, s, false);
          FreeSafeRunsAreTrue(st.elseBlock, ElseFacts(st, facts), s);
        }
      }
      var r := ExecStmt(st, s);
      if r.Next? && HasCtx(r.store) {
        StepIsFree(st, s);
        FreeSafeRunsAreTrue(b[1..], FactsAfter(st, facts), r.store);
      }
    }
  }

  lemma {:induction false} TrueRunsAreUnwrapped(b: Block, facts: set<TypeFact>, s: Store)
    requires HasCtx(s) && OwnEnumAlong(b, s) && TrueAlong(b, facts, s)
    ensures UnwrappedAlong(b, s)
    decreases b
  {
    if b != [] {
      var st := b[0];
      if st.If? {
        if IsBool(Eval(st.cond, s), true) {
          TrueRunsAreUnwrapped(st.thenBlock, ThenFacts(st, facts), s);
          assert AllHold(EdgeFacts(st.cond, true), s);
          ConditionFactsHold(st.cond, s, true);
        } else if IsBool(Eval(st.cond, s), false) {
          TrueRunsAreUnwrapped(st.elseBlock, ElseFacts(st, facts), s);
          assert AllHold(EdgeFacts(st.cond, false), s);
          ConditionFactsHold(st.cond, s, false);
        }
      }
      var r := ExecStmt(st, s);
      if r.Next? && HasCtx(r.store) {
        TrueRunsAreUnwrapped(b[1..], FactsAfter(st, facts), r.store);
      }
    }
  }

  /** Main result: on a safe block the type checker's facts are true at every step of a run exactly
      when the run takes no branch that denies a place the variant that it holds in a wrapper. */
  lemma FactsAreTrueAlongEveryRun(b: Block, facts: set<TypeFact>, s: Store)
    requires HasCtx(s) && KeepsCtx(b) && OwnEnumAlong(b, s)
    requires AllHold(facts, s) && Safe(b, facts)
    ensures TrueAlong(b, facts, s) <==> UnwrappedAlong(b, s)
  {
    if UnwrappedAlong(b, s) {
      SafeExactlyWhenNoChoiceFalsifies(b, facts);
      FreeSafeRunsAreTrue(b, facts, s);
    }
    if TrueAlong(b, facts, s) {
      TrueRunsAreUnwrapped(b, facts, s);
    }
  }
}
