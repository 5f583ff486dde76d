/** The aliases whose answers do not depend on what was asked before, though the memo keeps what was found
    while a cycle was being cut (src/compiler/semantics/type_resolver.cpp). */
module AliasSteadiness {
  import opened Wrappers
  import opened Graphs
  import opened TypeContext
  import opened AliasResolution

  /** On a common cycle. */
  ghost predicate Mutual(p: Program, x: SymbolId, y: SymbolId) {
    Reaches(AliasGraph(p), x, y) && Reaches(AliasGraph(p), y, x)
  }

  /** The aliases whose bodies are bare names of aliases. */
  ghost function RenameGraph(p: Program): Graph<SymbolId> {
    set a, c | a in p.aliases && c in NamedAliases(p, p.aliases[a]) && p.aliases[a].Named? :: (a, c)
  }

  /** d is another name for x, perhaps by way of others. */
  ghost predicate Renames(p: Program, d: SymbolId, x: SymbolId) {
    Reaches(RenameGraph(p), d, x)
  }

  /** The body names an alias on a common cycle that is more than another name. */
  ghost predicate IsWildName(p: Program, z: SymbolId, d: SymbolId) {
    d != z && Mutual(p, z, d) && !Renames(p, d, z)
  }

  ghost predicate HasWildName(p: Program, z: SymbolId) {
    z in p.aliases && exists d :: d in NamedAliases(p, p.aliases[z]) && IsWildName(p, z, d)
  }

  /** The edges that leave the cycles. */
  ghost function LowerGraph(p: Program): Graph<SymbolId> {
    set e | e in AliasGraph(p) && !Mutual(p, e.0, e.1)
  }

  ghost predicate Down(p: Program, c: SymbolId, z: SymbolId) {
    c == z || Reaches(LowerGraph(p), c, z)
  }

  ghost predicate Unsteady(p: Program, c: SymbolId) {
    exists z :: Down(p, c, z) && HasWildName(p, z)
  }

  ghost predicate AllSteady(p: Program, t: TypeSyntax) {
    forall c :: c in NamedAliases(p, t) ==> !Unsteady(p, c)
  }

  // ----------------------------------------------------------------------- renaming

  lemma RenameStep(p: Program, d: SymbolId, x: SymbolId) returns (e: SymbolId)
    requires Renames(p, d, x)
    ensures d in p.aliases && p.aliases[d] == Named(Some(e)) && IsAlias(p, e)
    ensures e == x || Renames(p, e, x)
  {
    e := ReachFirst(RenameGraph(p), d, x);
    NamedAreAliases(p, p.aliases[d]);
  }

  lemma RenamesByItsBody(p: Program, d: SymbolId, e: SymbolId, x: SymbolId)
    requires d in p.aliases && p.aliases[d] == Named(Some(e)) && IsAlias(p, e)
    requires e == x || Renames(p, e, x)
    ensures Renames(p, d, x)
  {
    assert e in NamedAliases(p, p.aliases[d]);
    ReachEdge(RenameGraph(p), d, e);
    if e != x {
      ReachTrans(RenameGraph(p), d, e, x);
    }
  }

  /** Other names of an active alias are cut with it. */
  lemma {:induction false} RenamedExpandsToError(p: Program, d: SymbolId, x: SymbolId, active: set<SymbolId>)
    requires IsAlias(p, d) && Renames(p, d, x) && x in active
    ensures Expand(p, Named(Some(d)), active) == TError
    decreases |p.aliases.Keys - active|
  {
    if d !in active {
      var e := RenameStep(p, d, x);
      FewerLeft(p, active, d);
      if e != x {
        RenamedExpandsToError(p, e, x, active + {d});
      }
    }
  }

  /** While an alias is not remembered, its other names are remembered as errors. */
  ghost predicate RenamesAreCut(p: Program, resolved: map<SymbolId, Ty>) {
    forall d, x :: d in resolved && x !in resolved && Renames(p, d, x) ==> resolved[d] == TError
  }

  function Answer(c: SymbolId, r: Memo): Ty {
    if c in r.resolved then r.resolved[c] else TError
  }

  /** What is active is not remembered before it is done. */
  lemma {:induction false} ActiveStaysOut(p: Program, t: TypeSyntax, active: set<SymbolId>, m: Memo, x: SymbolId)
    requires x in active && x !in m.resolved
    ensures x !in Resolve(p, t, active, m).1.resolved
    decreases |p.aliases.Keys - active|, t, 1
  {
    hide ResolveAlias;
    match t
    case Scalar(_) =>
    case Named(reference) =>
      if reference.Some? && IsAlias(p, reference.value) {
        ActiveStaysOutOfAlias(p, reference.value, active, m, x);
      }
    case OptionalOf(inner) => ActiveStaysOut(p, inner, active, m, x);
    case ListOf(element) => ActiveStaysOut(p, element, active, m, x);
    case SetOf(element) => ActiveStaysOut(p, element, active, m, x);
    case MapOf(key, value) =>
      ActiveStaysOut(p, key, active, m, x);
      ActiveStaysOut(p, value, active, Resolve(p, key, active, m).1, x);
  }

  lemma {:induction false} ActiveStaysOutOfAlias(p: Program, id: SymbolId, active: set<SymbolId>, m: Memo, x: SymbolId)
    requires IsAlias(p, id) && x in active && x !in m.resolved
    ensures x !in Resolve(p, Named(Some(id)), active, m).1.resolved
    decreases |p.aliases.Keys - active|, Named(Some(id)), 0
  {
    hide Resolve, ResolveAlias;
    ResolvedAlias(p, id, active, m);
    if id !in m.resolved && id !in active && id in p.aliases {
      FewerLeft(p, active, id);
      ActiveStaysOut(p, p.aliases[id], active + {id}, m, x);
    }
  }

  /** What is found for an alias is what is remembered for it from then on, or else an error. */
  lemma FoundIsRemembered(p: Program, id: SymbolId, active: set<SymbolId>, m: Memo)
    requires IsAlias(p, id)
    ensures var (ty, r) := Resolve(p, Named(Some(id)), active, m); ty == Answer(id, r)
  {
    hide Resolve, ResolveAlias;
    ResolvedAlias(p, id, active, m);
    if id !in m.resolved && id !in active && id in p.aliases {
      ActiveStaysOut(p, p.aliases[id], active + {id}, m, id);
    }
  }

  // ----------------------------------------------------------------- steady answers

  /** The memo may hold anything for unsteady aliases. */
  ghost predicate SteadyRight(p: Program, resolved: map<SymbolId, Ty>) {
    forall a :: a in resolved && IsAlias(p, a) && !Unsteady(p, a) ==> resolved[a] == FullExpansion(p, Named(Some(a)))
  }

  ghost predicate Good(p: Program, active: set<SymbolId>, m: Memo) {
    active !! m.resolved.Keys && RenamesAreCut(p, m.resolved) && SteadyRight(p, m.resolved)
  }

  /** The part that was found for the name of an alias. */
  ghost predicate FoundRight(p: Program, c: SymbolId, active: set<SymbolId>, ty: Ty) {
    && (c in active || (exists x :: x in active && Renames(p, c, x)) ==> ty == TError)
    && (c !in active && !Unsteady(p, c) ==> ty == FullExpansion(p, Named(Some(c))))
  }

  ghost predicate Shape(p: Program, t: TypeSyntax, active: set<SymbolId>, ty: Ty) {
    match t
    case Scalar(_) => ty == Expand(p, t, active)
    case Named(reference) =>
      if NamedAliases(p, t) == {} then ty == Expand(p, t, {}) else FoundRight(p, reference.value, active, ty)
    case OptionalOf(inner) => ty.TOptional? && Shape(p, inner, active, ty.inner)
    case ListOf(element) => ty.TList? && Shape(p, element, active, ty.element)
    case SetOf(element) => ty.TSet? && Shape(p, element, active, ty.element)
    case MapOf(key, value) => ty.TMap? && Shape(p, key, active, ty.key) && Shape(p, value, active, ty.value)
  }

  ghost predicate Found(p: Program, t: TypeSyntax, active: set<SymbolId>, r: (Ty, Memo)) {
    Shape(p, t, active, r.0) && Good(p, active, r.1)
  }

  /** Main result: from any memo that queries leave, whatever is active, active aliases and their other names
      show as errors, steady aliases as their expansions. */
  lemma {:induction false} ResolutionIsExpansion(p: Program, t: TypeSyntax, active: set<SymbolId>, m: Memo)
    requires ActiveAbove(p, t, active) && Good(p, active, m)
    ensures Found(p, t, active, Resolve(p, t, active, m))
    decreases |p.aliases.Keys - active|, t, 1
  {
    hide ActiveAbove, Good, FoundRight;
    match t
    case Scalar(_) =>
    case Named(reference) =>
      if NamedAliases(p, t) != {} {
        AliasIsExpansion(p, reference.value, active, m);
      } else {
        NothingNamedIsNew(p, t, active, m);
        SameEntries(p, active, m, Resolve(p, t, active, m).1);
      }
    case OptionalOf(inner) => ActiveAbovePart(p, t, inner, active); ResolutionIsExpansion(p, inner, active, m);
    case ListOf(element) => ActiveAbovePart(p, t, element, active); ResolutionIsExpansion(p, element, active, m);
    case SetOf(element) => ActiveAbovePart(p, t, element, active); ResolutionIsExpansion(p, element, active, m);
    case MapOf(key, value) =>
      ActiveAbovePart(p, t, key, active);
      ActiveAbovePart(p, t, value, active);
      ResolutionIsExpansion(p, key, active, m);
      ResolutionIsExpansion(p, value, active, Resolve(p, key, active, m).1);
  }

  lemma {:induction false} AliasIsExpansion(p: Program, id: SymbolId, active: set<SymbolId>, m: Memo)
    requires IsAlias(p, id) && ActiveAbove(p, Named(Some(id)), active) && Good(p, active, m)
    ensures var r := Resolve(p, Named(Some(id)), active, m); FoundRight(p, id, active, r.0) && Good(p, active, r.1)
    decreases |p.aliases.Keys - active|, Named(Some(id)), 0
  {
    hide Resolve, ResolveAlias, ActiveAbove, Unsteady, Expand, Good, FoundRight, Shape, Remembered;
    ResolvedAlias(p, id, active, m);
    FoundIsRemembered(p, id, active, m);
    if id in m.resolved || id in active || id !in p.aliases {
      SameEntries(p, active, m, Resolve(p, Named(Some(id)), active, m).1);
    } else {
      FewerLeft(p, active, id);
      ActiveAboveBody(p, id, active);
      GoodInside(p, id, active, m);
      var (ty, inside) := Resolve(p, p.aliases[id], active + {id}, m);
      ResolutionIsExpansion(p, p.aliases[id], active + {id}, m);
      if !Unsteady(p, id) {
        SteadyBody(p, id, active, ty);
      }
      if Renaming(p, id) {
        FoundIsRemembered(p, p.aliases[id].reference.value, active + {id}, m);
      }
      NewEntryIsGood(p, id, active, ty, inside);
      RememberedKeys(id, ty, inside);
    }
    FoundFromMemo(p, id, active, Resolve(p, Named(Some(id)), active, m));
  }

  predicate Renaming(p: Program, id: SymbolId) {
    && id in p.aliases && p.aliases[id].Named? && p.aliases[id].reference.Some?
    && IsAlias(p, p.aliases[id].reference.value)
  }

  lemma NothingNamedIsNew(p: Program, t: TypeSyntax, active: set<SymbolId>, m: Memo)
    requires t.Named? && NamedAliases(p, t) == {}
    ensures Resolve(p, t, active, m).1.resolved == m.resolved
  {
  }

  lemma SameEntries(p: Program, active: set<SymbolId>, m: Memo, r: Memo)
    requires Good(p, active, m) && r.resolved == m.resolved
    ensures Good(p, active, r)
  {
  }

  lemma GoodInside(p: Program, id: SymbolId, active: set<SymbolId>, m: Memo)
    requires Good(p, active, m) && id !in m.resolved
    ensures Good(p, active + {id}, m)
  {
  }

  lemma FoundFromMemo(p: Program, id: SymbolId, active: set<SymbolId>, r: (Ty, Memo))
    requires IsAlias(p, id) && Good(p, active, r.1) && r.0 == Answer(id, r.1)
    requires id in r.1.resolved || id in active || id !in p.aliases
    ensures FoundRight(p, id, active, r.0)
  {
    hide Unsteady, Renames;
  }

  lemma NewEntryIsGood(p: Program, id: SymbolId, active: set<SymbolId>, ty: Ty, inside: Memo)
    requires IsAlias(p, id) && id in p.aliases && id !in active && Good(p, active + {id}, inside)
    requires !Unsteady(p, id) ==> ty == FullExpansion(p, Named(Some(id)))
    requires Renaming(p, id) ==> ty == Answer(p.aliases[id].reference.value, inside)
    ensures Good(p, active, Remembered(id, ty, inside))
  {
    hide Unsteady, Renames;
    var after := Remembered(id, ty, inside).resolved;
    assert after == inside.resolved[id := ty];
    forall d, x | d in after && x !in after && Renames(p, d, x)
      ensures after[d] == TError
    {
      if d == id {
        var e := RenameStep(p, id, x);
        assert ty == Answer(e, inside);
      }
    }
  }

  /** What a steady body names is on a common cycle only by other names of the alias; the rest is steady and
      not active. */
  lemma SteadyName(p: Program, id: SymbolId, active: set<SymbolId>, c: SymbolId, ty: Ty)
    requires id in p.aliases && c in NamedAliases(p, p.aliases[id]) && IsAlias(p, c) && IsAlias(p, id)
    requires !Unsteady(p, id) && ActiveAbove(p, Named(Some(id)), active) && FoundRight(p, c, active + {id}, ty)
    ensures ty == Expand(p, Named(Some(c)), {id})
  {
    hide FoundRight;
    var g := AliasGraph(p);
    assert (id, c) in g;
    ReachEdge(g, id, c);
    if c == id {
      FoundCut(p, c, id, active, ty);
    } else if Mutual(p, id, c) {
      assert Down(p, id, id) && !HasWildName(p, id);
      assert !IsWildName(p, id, c);
      RenamedExpandsToError(p, c, id, {id});
      FoundCut(p, c, id, active, ty);
    } else {
      LowerIsSteady(p, id, c);
      assert c !in active by {
        assert id in NamedAliases(p, Named(Some(id)));
      }
      FoundSteady(p, c, active + {id}, ty);
      assert SameBelow(p, Named(Some(c)), {id}, {}) by {
        assert !Below(p, Named(Some(c)), id);
      }
      ExpansionSeesWhatIsBelow(p, Named(Some(c)), {id}, {});
    }
  }

  lemma FoundCut(p: Program, c: SymbolId, id: SymbolId, active: set<SymbolId>, ty: Ty)
    requires FoundRight(p, c, active + {id}, ty) && (c == id || Renames(p, c, id))
    ensures ty == TError
  {
    assert id in active + {id};
  }

  lemma FoundSteady(p: Program, c: SymbolId, active: set<SymbolId>, ty: Ty)
    requires FoundRight(p, c, active, ty) && c !in active && !Unsteady(p, c)
    ensures ty == FullExpansion(p, Named(Some(c)))
  {
  }

  lemma LowerIsSteady(p: Program, id: SymbolId, c: SymbolId)
    requires (id, c) in AliasGraph(p) && !Mutual(p, id, c) && !Unsteady(p, id)
    ensures !Unsteady(p, c)
  {
    forall z | Down(p, c, z)
      ensures !HasWildName(p, z)
    {
      ReachEdge(LowerGraph(p), id, c);
      if c != z {
        ReachTrans(LowerGraph(p), id, c, z);
      }
      assert Down(p, id, z);
    }
  }

  lemma SteadyBody(p: Program, id: SymbolId, active: set<SymbolId>, ty: Ty)
    requires IsAlias(p, id) && id in p.aliases && !Unsteady(p, id) && ActiveAbove(p, Named(Some(id)), active)
    requires Shape(p, p.aliases[id], active + {id}, ty)
    ensures ty == FullExpansion(p, Named(Some(id)))
  {
    hide Unsteady, ActiveAbove, Shape;
    SteadyPart(p, id, active, p.aliases[id], ty);
    FewerLeft(p, {}, id);
    assert {} + {id} == {id};
  }

  lemma {:induction false} SteadyPart(p: Program, id: SymbolId, active: set<SymbolId>, t: TypeSyntax, ty: Ty)
    requires IsAlias(p, id) && id in p.aliases && !Unsteady(p, id) && ActiveAbove(p, Named(Some(id)), active)
    requires NamedAliases(p, t) <= NamedAliases(p, p.aliases[id]) && Shape(p, t, active + {id}, ty)
    ensures ty == Expand(p, t, {id})
    decreases t
  {
    hide Unsteady, ActiveAbove, FoundRight;
    match t
    case Scalar(_) =>
    case Named(reference) =>
      if NamedAliases(p, t) != {} {
        SteadyName(p, id, active, reference.value, ty);
      }
    case OptionalOf(inner) => SteadyPart(p, id, active, inner, ty.inner);
    case ListOf(element) => SteadyPart(p, id, active, element, ty.element);
    case SetOf(element) => SteadyPart(p, id, active, element, ty.element);
    case MapOf(key, value) =>
      SteadyPart(p, id, active, key, ty.key);
      SteadyPart(p, id, active, value, ty.value);
  }

  lemma {:induction false} QueriesKeepTheMemoGood(p: Program, queries: seq<TypeSyntax>)
    ensures Good(p, {}, After(p, queries))
  {
    if queries != [] {
      QueriesKeepTheMemoGood(p, queries[..|queries| - 1]);
      ResolutionIsExpansion(p, queries[|queries| - 1], {}, After(p, queries[..|queries| - 1]));
    }
  }

  lemma {:induction false} SteadyShape(p: Program, t: TypeSyntax, ty: Ty)
    requires AllSteady(p, t) && Shape(p, t, {}, ty)
    ensures ty == FullExpansion(p, t)
  {
    hide Unsteady;
    match t
    case Scalar(_) =>
    case Named(_) =>
    case OptionalOf(inner) => SteadyShape(p, inner, ty.inner);
    case ListOf(element) => SteadyShape(p, element, ty.element);
    case SetOf(element) => SteadyShape(p, element, ty.element);
    case MapOf(key, value) => SteadyShape(p, key, ty.key); SteadyShape(p, value, ty.value);
  }

  /** So the answer for a type that names steady aliases only is its expansion, whatever was asked before and
      whatever cycles that went through. */
  lemma SteadyAnswer(p: Program, earlier: seq<TypeSyntax>, t: TypeSyntax)
    requires AllSteady(p, t)
    ensures Resolve(p, t, {}, After(p, earlier)).0 == FullExpansion(p, t)
  {
    hide Unsteady, Good, Shape;
    QueriesKeepTheMemoGood(p, earlier);
    ResolutionIsExpansion(p, t, {}, After(p, earlier));
    SteadyShape(p, t, Resolve(p, t, {}, After(p, earlier)).0);
  }

  /** In particular if there is no cycle behind them at all. */
  lemma NoCycleBelowIsSteady(p: Program, t: TypeSyntax)
    requires forall c :: Below(p, t, c) ==> !Reaches(AliasGraph(p), c, c)
    ensures AllSteady(p, t)
  {
    forall c, z | c in NamedAliases(p, t) && Down(p, c, z)
      ensures !HasWildName(p, z)
    {
      if c != z {
        ReachMonotone(LowerGraph(p), AliasGraph(p), c, z);
      }
      assert Below(p, t, z);
      forall d | Mutual(p, z, d)
        ensures false
      {
        ReachTrans(AliasGraph(p), z, d, z);
      }
    }
  }
}
