/** Turning written types into types, with aliases expanded through a memo
    (src/compiler/semantics/type_resolver.cpp). */
module AliasResolution {
  import opened Wrappers
  import opened Graphs
  import opened TypeContext

  /** `Scalar` is a type without a name or parts; a reference is None when it was not resolved. */
  datatype TypeSyntax =
    | Scalar(ty: Ty)
    | Named(reference: Option<SymbolId>)
    | OptionalOf(inner: TypeSyntax)
    | ListOf(element: TypeSyntax)
    | SetOf(element: TypeSyntax)
    | MapOf(key: TypeSyntax, value: TypeSyntax)

  /** NoType stands for constants, capabilities, predicates, agents and workflows. */
  datatype SymbolKind = Struct | Enum | TypeAlias | NoType
  datatype Symbol = Symbol(kind: SymbolKind, canonicalName: string)
  datatype Program = Program(symbols: map<SymbolId, Symbol>, aliases: map<SymbolId, TypeSyntax>)

  datatype Diagnostic = UnknownType | SymbolMissing | NotAType | AliasCycle | AliasDeclarationMissing

  datatype Memo = Memo(resolved: map<SymbolId, Ty>, diagnostics: seq<Diagnostic>)

  function Diagnosed(m: Memo, d: Diagnostic): Memo {
    m.(diagnostics := m.diagnostics + [d])
  }

  // -------------------------------------------------------- resolution with the memo

  /** `active` holds the aliases whose bodies are being resolved. */
  function Resolve(p: Program, t: TypeSyntax, active: set<SymbolId>, m: Memo): (Ty, Memo)
    decreases |p.aliases.Keys - active|, t, 1
  {
    match t
    case Scalar(ty) => (ty, m)
    case Named(reference) =>
      if reference.None? then (TError, Diagnosed(m, UnknownType))
      else if reference.value !in p.symbols then (TError, Diagnosed(m, SymbolMissing))
      else
        var symbol := p.symbols[reference.value];
        (match symbol.kind
         case Struct => (TStruct(symbol.canonicalName, reference), m)
         case Enum => (TEnum(symbol.canonicalName, reference), m)
         case TypeAlias => ResolveAlias(p, reference.value, t, active, m)
         case NoType => (TError, Diagnosed(m, NotAType)))
    case OptionalOf(inner) => var (a, s) := Resolve(p, inner, active, m); (TOptional(a), s)
    case ListOf(element) => var (a, s) := Resolve(p, element, active, m); (TList(a), s)
    case SetOf(element) => var (a, s) := Resolve(p, element, active, m); (TSet(a), s)
    case MapOf(key, value) =>
      var (a, s) := Resolve(p, key, active, m);
      var (b, s2) := Resolve(p, value, active, s);
      (TMap(a, b), s2)
  }

  function ResolveAlias(p: Program, id: SymbolId, t: TypeSyntax, active: set<SymbolId>, m: Memo): (Ty, Memo)
    requires t == Named(Some(id))
    decreases |p.aliases.Keys - active|, t, 0
  {
    if id in m.resolved then (m.resolved[id], m)
    else if id in active then (TError, Diagnosed(m, AliasCycle))
    else if id !in p.aliases then (TError, Diagnosed(m, AliasDeclarationMissing))
    else
      FewerLeft(p, active, id);
      var (ty, s) := Resolve(p, p.aliases[id], active + {id}, m);
      (ty, Remembered(id, ty, s))
  }

  lemma FewerLeft(p: Program, active: set<SymbolId>, id: SymbolId)
    requires id in p.aliases && id !in active
    ensures |p.aliases.Keys - (active + {id})| < |p.aliases.Keys - active|
  {
    assert id in p.aliases.Keys - active;
    SubsetCardinality(p.aliases.Keys - (active + {id}), p.aliases.Keys - active);
  }

  /** An entry that is there already is kept. */
  function Remembered(id: SymbolId, ty: Ty, m: Memo): Memo {
    if id in m.resolved then m else m.(resolved := m.resolved[id := ty])
  }

  class TypeResolver {
    const program: Program
    var resolved: map<SymbolId, Ty>
    var active: set<SymbolId>
    var diagnostics: seq<Diagnostic>

    function Current(): Memo
      reads this
    {
      Memo(resolved, diagnostics)
    }

    constructor (program: Program)
      ensures this.program == program && active == {} && Current() == Fresh()
    {
      this.program := program;
      resolved, active, diagnostics := map[], {}, [];
    }

    method ResolveType(t: TypeSyntax) returns (ty: Ty)
      modifies this
      ensures active == old(active) && (ty, Current()) == Resolve(program, t, old(active), old(Current()))
      decreases |program.aliases.Keys - active|, t, 2
    {
      match t
      case Scalar(scalar) => ty := scalar;
      case Named(reference) =>
        if reference.None? {
          diagnostics := diagnostics + [UnknownType];
          return TError;
        }
        ty := ResolveTypeSymbol(reference.value, t);
      case OptionalOf(inner) =>
        var a := ResolveType(inner);
        ty := TOptional(a);
      case ListOf(element) =>
        var a := ResolveType(element);
        ty := TList(a);
      case SetOf(element) =>
        var a := ResolveType(element);
        ty := TSet(a);
      case MapOf(key, value) =>
        var a := ResolveType(key);
        var b := ResolveType(value);
        ty := TMap(a, b);
    }

    method ResolveTypeSymbol(id: SymbolId, t: TypeSyntax) returns (ty: Ty)
      requires t == Named(Some(id))
      modifies this
      ensures active == old(active) && (ty, Current()) == Resolve(program, t, old(active), old(Current()))
      decreases |program.aliases.Keys - active|, t, 1
    {
      if id !in program.symbols {
        diagnostics := diagnostics + [SymbolMissing];
        return TError;
      }
      var symbol := program.symbols[id];
      match symbol.kind
      case Struct => ty := TStruct(symbol.canonicalName, Some(id));
      case Enum => ty := TEnum(symbol.canonicalName, Some(id));
      case TypeAlias => ty := ResolveTypeAlias(id, t);
      case NoType =>
        diagnostics := diagnostics + [NotAType];
        ty := TError;
    }

    method ResolveTypeAlias(id: SymbolId, t: TypeSyntax) returns (ty: Ty)
      requires t == Named(Some(id))
      modifies this
      ensures active == old(active) && (ty, Current()) == ResolveAlias(program, id, t, old(active), old(Current()))
      decreases |program.aliases.Keys - active|, t, 0
    {
      if id in resolved {
        return resolved[id];
      }
      if id in active {
        diagnostics := diagnostics + [AliasCycle];
        return TError;
      }
      ghost var before := active;
      active := active + {id};
      if id !in program.aliases {
        active := active - {id};
        diagnostics := diagnostics + [AliasDeclarationMissing];
        return TError;
      }
      FewerLeft(program, before, id);
      ty := ResolveType(program.aliases[id]);
      if id !in resolved {
        resolved := resolved[id := ty];
      }
      active := active - {id};
      assert active == before;
    }
  }

  function Fresh(): Memo {
    Memo(map[], [])
  }

  // ------------------------------------------------------------------ full expansion

  /** What a type stands for when every alias is replaced by its body, over and over. Only the
      aliases being expanded are kept track of, so that expanding ends on cyclic aliases too. */
  ghost function Expand(p: Program, t: TypeSyntax, active: set<SymbolId>): Ty
    decreases |p.aliases.Keys - active|, t
  {
    match t
    case Scalar(ty) => ty
    case Named(reference) =>
      if reference.None? || reference.value !in p.symbols then TError
      else
        var id, symbol := reference.value, p.symbols[reference.value];
        (match symbol.kind
         case Struct => TStruct(symbol.canonicalName, reference)
         case Enum => TEnum(symbol.canonicalName, reference)
         case TypeAlias =>
           if id in active || id !in p.aliases then TError
           else
             FewerLeft(p, active, id);
             Expand(p, p.aliases[id], active + {id})
         case NoType => TError)
    case OptionalOf(inner) => TOptional(Expand(p, inner, active))
    case ListOf(element) => TList(Expand(p, element, active))
    case SetOf(element) => TSet(Expand(p, element, active))
    case MapOf(key, value) => TMap(Expand(p, key, active), Expand(p, value, active))
  }

  ghost function FullExpansion(p: Program, t: TypeSyntax): Ty {
    Expand(p, t, {})
  }

  predicate IsAlias(p: Program, id: SymbolId) {
    id in p.symbols && p.symbols[id].kind == TypeAlias
  }

  function NamedAliases(p: Program, t: TypeSyntax): set<SymbolId> {
    match t
    case Scalar(_) => {}
    case Named(reference) => if reference.Some? && IsAlias(p, reference.value) then {reference.value} else {}
    case OptionalOf(inner) => NamedAliases(p, inner)
    case ListOf(element) => NamedAliases(p, element)
    case SetOf(element) => NamedAliases(p, element)
    case MapOf(key, value) => NamedAliases(p, key) + NamedAliases(p, value)
  }

  lemma {:induction false} NamedAreAliases(p: Program, t: TypeSyntax)
    ensures forall c :: c in NamedAliases(p, t) ==> IsAlias(p, c)
  {
    match t
    case Scalar(_) =>
    case Named(_) =>
    case OptionalOf(inner) => NamedAreAliases(p, inner);
    case ListOf(element) => NamedAreAliases(p, element);
    case SetOf(element) => NamedAreAliases(p, element);
    case MapOf(key, value) => NamedAreAliases(p, key); NamedAreAliases(p, value);
  }

  ghost function AliasGraph(p: Program): Graph<SymbolId> {
    set a, c | a in p.aliases && c in NamedAliases(p, p.aliases[a]) :: (a, c)
  }

  /** c is named in the type or lies behind an alias named in it. */
  ghost predicate Below(p: Program, t: TypeSyntax, c: SymbolId) {
    c in NamedAliases(p, t) || exists a :: a in NamedAliases(p, t) && Reaches(AliasGraph(p), a, c)
  }

  lemma BelowBody(p: Program, id: SymbolId, c: SymbolId)
    requires id in p.aliases && Below(p, p.aliases[id], c)
    ensures Reaches(AliasGraph(p), id, c)
  {
    var g := AliasGraph(p);
    if c in NamedAliases(p, p.aliases[id]) {
      assert (id, c) in g;
      ReachEdge(g, id, c);
    } else {
      var a :| a in NamedAliases(p, p.aliases[id]) && Reaches(g, a, c);
      assert (id, a) in g;
      ReachEdge(g, id, a);
      ReachTrans(g, id, a, c);
    }
  }

  ghost predicate SameBelow(p: Program, t: TypeSyntax, a: set<SymbolId>, b: set<SymbolId>) {
    forall c :: Below(p, t, c) ==> (c in a <==> c in b)
  }

  lemma SameBelowPart(p: Program, t: TypeSyntax, part: TypeSyntax, a: set<SymbolId>, b: set<SymbolId>)
    requires SameBelow(p, t, a, b) && NamedAliases(p, part) <= NamedAliases(p, t)
    ensures SameBelow(p, part, a, b)
  {
    forall c | Below(p, part, c)
      ensures Below(p, t, c)
    {
    }
  }

  lemma SameBelowBody(p: Program, id: SymbolId, a: set<SymbolId>, b: set<SymbolId>)
    requires IsAlias(p, id) && id in p.aliases && SameBelow(p, Named(Some(id)), a, b)
    ensures SameBelow(p, p.aliases[id], a + {id}, b + {id})
  {
    forall c | Below(p, p.aliases[id], c)
      ensures Below(p, Named(Some(id)), c)
    {
      BelowBody(p, id, c);
      assert id in NamedAliases(p, Named(Some(id)));
    }
  }

  /** Expanding a type depends on no alias but those below it. */
  lemma {:induction false} ExpansionSeesWhatIsBelow(p: Program, t: TypeSyntax, a: set<SymbolId>, b: set<SymbolId>)
    requires SameBelow(p, t, a, b)
    ensures Expand(p, t, a) == Expand(p, t, b)
    decreases |p.aliases.Keys - a|, t
  {
    hide SameBelow, Below;
    match t
    case Scalar(_) =>
    case Named(reference) =>
      if NamedAliases(p, t) != {} {
        NamedIsBelow(p, reference.value, a, b);
        if reference.value in p.aliases && reference.value !in a {
          FewerLeft(p, a, reference.value);
          SameBelowBody(p, reference.value, a, b);
          ExpansionSeesWhatIsBelow(p, p.aliases[reference.value], a + {reference.value}, b + {reference.value});
        }
      }
    case OptionalOf(inner) => SameBelowPart(p, t, inner, a, b); ExpansionSeesWhatIsBelow(p, inner, a, b);
    case ListOf(element) => SameBelowPart(p, t, element, a, b); ExpansionSeesWhatIsBelow(p, element, a, b);
    case SetOf(element) => SameBelowPart(p, t, element, a, b); ExpansionSeesWhatIsBelow(p, element, a, b);
    case MapOf(key, value) =>
      SameBelowPart(p, t, key, a, b);
      SameBelowPart(p, t, value, a, b);
      ExpansionSeesWhatIsBelow(p, key, a, b);
      ExpansionSeesWhatIsBelow(p, value, a, b);
  }

  lemma NamedIsBelow(p: Program, id: SymbolId, a: set<SymbolId>, b: set<SymbolId>)
    requires IsAlias(p, id) && SameBelow(p, Named(Some(id)), a, b)
    ensures id in a <==> id in b
  {
    assert Below(p, Named(Some(id)), id);
  }

  /** An alias that does not lie behind itself stands for exactly what its body stands for. */
  lemma AliasStandsForItsBody(p: Program, id: SymbolId)
    requires IsAlias(p, id) && id in p.aliases && !Reaches(AliasGraph(p), id, id)
    ensures FullExpansion(p, Named(Some(id))) == FullExpansion(p, p.aliases[id])
  {
    forall c | Below(p, p.aliases[id], c)
      ensures c != id
    {
      BelowBody(p, id, c);
    }
    assert {} + {id} == {id};
    ExpansionSeesWhatIsBelow(p, p.aliases[id], {id}, {});
  }

  /** The aliases being resolved lead to what is named in the type. */
  ghost predicate ActiveAbove(p: Program, t: TypeSyntax, active: set<SymbolId>) {
    forall b, c :: b in active && c in NamedAliases(p, t) ==> Reaches(AliasGraph(p), b, c)
  }

  lemma ActiveAboveBody(p: Program, id: SymbolId, active: set<SymbolId>)
    requires IsAlias(p, id) && id in p.aliases && ActiveAbove(p, Named(Some(id)), active)
    ensures ActiveAbove(p, p.aliases[id], active + {id})
  {
    var g := AliasGraph(p);
    assert id in NamedAliases(p, Named(Some(id)));
    forall b, c | b in active + {id} && c in NamedAliases(p, p.aliases[id])
      ensures Reaches(g, b, c)
    {
      assert (id, c) in g;
      ReachEdge(g, id, c);
      if b != id {
        ReachTrans(g, b, id, c);
      }
    }
  }

  lemma ActiveAbovePart(p: Program, t: TypeSyntax, part: TypeSyntax, active: set<SymbolId>)
    requires ActiveAbove(p, t, active) && NamedAliases(p, part) <= NamedAliases(p, t)
    ensures ActiveAbove(p, part, active)
  {
  }

  /** What resolving an alias leaves, case by case. */
  lemma ResolvedAlias(p: Program, id: SymbolId, active: set<SymbolId>, m: Memo)
    requires IsAlias(p, id)
    ensures var (ty, r) := Resolve(p, Named(Some(id)), active, m);
      && (id in m.resolved ==> r == m && ty == m.resolved[id])
      && (id !in m.resolved && id in active ==> ty == TError && r == Diagnosed(m, AliasCycle))
      && (id !in m.resolved && id !in active && id !in p.aliases ==> ty == TError && r == Diagnosed(m, AliasDeclarationMissing))
      && (id !in m.resolved && id !in active && id in p.aliases ==>
            var (body, inside) := Resolve(p, p.aliases[id], active + {id}, m);
            ty == body && r == Remembered(id, body, inside))
  {
    assert Resolve(p, Named(Some(id)), active, m) == ResolveAlias(p, id, Named(Some(id)), active, m);
  }

  /** The memo after a series of queries. */
  function After(p: Program, queries: seq<TypeSyntax>): Memo {
    if queries == [] then Fresh()
    else Resolve(p, queries[|queries| - 1], {}, After(p, queries[..|queries| - 1])).1
  }

  // ------------------------------------------------------------------ form by form

  /** What every form but an alias comes to, and what it leaves. */
  lemma FormsResolve(p: Program, t: TypeSyntax, key: TypeSyntax, id: SymbolId, ty: Ty, active: set<SymbolId>, m: Memo)
    ensures Resolve(p, Scalar(ty), active, m) == (ty, m)
    ensures Resolve(p, OptionalOf(t), active, m) == (TOptional(Resolve(p, t, active, m).0), Resolve(p, t, active, m).1)
    ensures Resolve(p, ListOf(t), active, m) == (TList(Resolve(p, t, active, m).0), Resolve(p, t, active, m).1)
    ensures Resolve(p, SetOf(t), active, m) == (TSet(Resolve(p, t, active, m).0), Resolve(p, t, active, m).1)
    ensures var (a, r) := Resolve(p, key, active, m);
      var (b, s) := Resolve(p, t, active, r);
      Resolve(p, MapOf(key, t), active, m) == (TMap(a, b), s)
    ensures Resolve(p, Named(None), active, m).0 == TError
    ensures id !in p.symbols || p.symbols[id].kind == NoType ==> Resolve(p, Named(Some(id)), active, m).0 == TError
    ensures id in p.symbols && p.symbols[id].kind == SymbolKind.Struct ==>
      Resolve(p, Named(Some(id)), active, m) == (TStruct(p.symbols[id].canonicalName, Some(id)), m)
    ensures id in p.symbols && p.symbols[id].kind == SymbolKind.Enum ==>
      Resolve(p, Named(Some(id)), active, m) == (TEnum(p.symbols[id].canonicalName, Some(id)), m)
  {
  }

  ghost predicate Occurs(reference: Option<SymbolId>, t: TypeSyntax) {
    match t
    case Scalar(_) => false
    case Named(r) => r == reference
    case OptionalOf(inner) => Occurs(reference, inner)
    case ListOf(element) => Occurs(reference, element)
    case SetOf(element) => Occurs(reference, element)
    case MapOf(key, value) => Occurs(reference, key) || Occurs(reference, value)
  }

  /** Whatever a name in a type fails to be is diagnosed: resolved, a symbol, a type, a declared alias. */
  lemma {:induction false} BadNamesAreDiagnosed(p: Program, t: TypeSyntax, reference: Option<SymbolId>,
                                                active: set<SymbolId>, m: Memo)
    requires Occurs(reference, t)
    ensures var found := Resolve(p, t, active, m).1.diagnostics;
      && (reference == None ==> UnknownType in found)
      && (reference.Some? && reference.value !in p.symbols ==> SymbolMissing in found)
      && (reference.Some? && reference.value in p.symbols && p.symbols[reference.value].kind == NoType ==> NotAType in found)
    decreases t
  {
    hide ResolveAlias;
    match t
    case Scalar(_) =>
    case Named(_) =>
    case OptionalOf(inner) => BadNamesAreDiagnosed(p, inner, reference, active, m);
    case ListOf(element) => BadNamesAreDiagnosed(p, element, reference, active, m);
    case SetOf(element) => BadNamesAreDiagnosed(p, element, reference, active, m);
    case MapOf(key, value) =>
      var r := Resolve(p, key, active, m).1;
      if Occurs(reference, key) {
        BadNamesAreDiagnosed(p, key, reference, active, m);
        DiagnosticsStay(p, value, active, r);
      } else {
        BadNamesAreDiagnosed(p, value, reference, active, r);
      }
  }

  /** An alias without a declaration is diagnosed at every query. */
  lemma UndeclaredIsDiagnosed(p: Program, id: SymbolId, m: Memo)
    requires IsAlias(p, id) && id !in p.aliases && id !in m.resolved
    ensures Resolve(p, Named(Some(id)), {}, m) == (TError, m.(diagnostics := m.diagnostics + [AliasDeclarationMissing]))
  {
    ResolvedAlias(p, id, {}, m);
  }

  // -------------------------------------------------------------- cycles are diagnosed

  /** Without cycles none is diagnosed. */
  lemma {:induction false} NoCycleIsDiagnosed(p: Program, t: TypeSyntax, active: set<SymbolId>, m: Memo)
    requires Acyclic(AliasGraph(p)) && ActiveAbove(p, t, active)
    ensures AliasCycle in Resolve(p, t, active, m).1.diagnostics <==> AliasCycle in m.diagnostics
    decreases |p.aliases.Keys - active|, t
  {
    hide ActiveAbove, Acyclic;
    match t
    case Scalar(_) =>
    case Named(reference) =>
      if NamedAliases(p, t) != {} {
        var id := reference.value;
        ResolvedAlias(p, id, active, m);
        NotActiveWithoutCycles(p, id, active);
        if id !in m.resolved && id in p.aliases {
          FewerLeft(p, active, id);
          ActiveAboveBody(p, id, active);
          NoCycleIsDiagnosed(p, p.aliases[id], active + {id}, m);
        }
      }
    case OptionalOf(inner) => ActiveAbovePart(p, t, inner, active); NoCycleIsDiagnosed(p, inner, active, m);
    case ListOf(element) => ActiveAbovePart(p, t, element, active); NoCycleIsDiagnosed(p, element, active, m);
    case SetOf(element) => ActiveAbovePart(p, t, element, active); NoCycleIsDiagnosed(p, element, active, m);
    case MapOf(key, value) =>
      ActiveAbovePart(p, t, key, active);
      ActiveAbovePart(p, t, value, active);
      NoCycleIsDiagnosed(p, key, active, m);
      NoCycleIsDiagnosed(p, value, active, Resolve(p, key, active, m).1);
  }

  lemma NotActiveWithoutCycles(p: Program, id: SymbolId, active: set<SymbolId>)
    requires Acyclic(AliasGraph(p)) && IsAlias(p, id) && ActiveAbove(p, Named(Some(id)), active)
    ensures id !in active
  {
    assert id in NamedAliases(p, Named(Some(id)));
  }

  lemma {:induction false} QueriesDiagnoseNoCycle(p: Program, queries: seq<TypeSyntax>)
    requires Acyclic(AliasGraph(p))
    ensures AliasCycle !in After(p, queries).diagnostics
  {
    if queries != [] {
      QueriesDiagnoseNoCycle(p, queries[..|queries| - 1]);
      NoCycleIsDiagnosed(p, queries[|queries| - 1], {}, After(p, queries[..|queries| - 1]));
    }
  }

  /** Among the remembered aliases there is no cycle, and they name no other declared alias. */
  ghost predicate Settled(p: Program, resolved: set<SymbolId>) {
    && (forall e :: e in AliasGraph(p) && e.0 in resolved && e.1 in p.aliases ==> e.1 in resolved)
    && (forall a :: a in resolved ==> !Reaches(AliasGraph(p), a, a))
  }

  ghost predicate AllRemembered(p: Program, names: set<SymbolId>, m: Memo) {
    forall c :: c in names && c in p.aliases ==> c in m.resolved
  }

  /** What a query without a cycle diagnostic leaves behind. */
  ghost predicate LeavesSettled(p: Program, t: TypeSyntax, active: set<SymbolId>, m: Memo, r: Memo) {
    && Settled(p, r.resolved.Keys) && active !! r.resolved.Keys
    && m.resolved.Keys <= r.resolved.Keys
    && AllRemembered(p, NamedAliases(p, t), r)
  }

  lemma {:induction false} UndiagnosedMeansSettled(p: Program, t: TypeSyntax, active: set<SymbolId>, m: Memo)
    requires Settled(p, m.resolved.Keys) && active !! m.resolved.Keys
    requires AliasCycle !in Resolve(p, t, active, m).1.diagnostics
    ensures LeavesSettled(p, t, active, m, Resolve(p, t, active, m).1)
    decreases |p.aliases.Keys - active|, t, 1
  {
    hide Settled;
    match t
    case Scalar(_) =>
    case Named(reference) =>
      if NamedAliases(p, t) != {} {
        UndiagnosedAliasMeansSettled(p, reference.value, active, m);
      }
    case OptionalOf(inner) => UndiagnosedMeansSettled(p, inner, active, m);
    case ListOf(element) => UndiagnosedMeansSettled(p, element, active, m);
    case SetOf(element) => UndiagnosedMeansSettled(p, element, active, m);
    case MapOf(key, value) =>
      DiagnosticsStay(p, value, active, Resolve(p, key, active, m).1);
      UndiagnosedMeansSettled(p, key, active, m);
      UndiagnosedMeansSettled(p, value, active, Resolve(p, key, active, m).1);
  }

  lemma {:induction false} UndiagnosedAliasMeansSettled(p: Program, id: SymbolId, active: set<SymbolId>, m: Memo)
    requires IsAlias(p, id) && Settled(p, m.resolved.Keys) && active !! m.resolved.Keys
    requires AliasCycle !in Resolve(p, Named(Some(id)), active, m).1.diagnostics
    ensures LeavesSettled(p, Named(Some(id)), active, m, Resolve(p, Named(Some(id)), active, m).1)
    decreases |p.aliases.Keys - active|, Named(Some(id)), 0
  {
    hide Settled, Resolve, ResolveAlias, LeavesSettled, Remembered;
    ResolvedAlias(p, id, active, m);
    if id in m.resolved || id !in p.aliases {
      NothingLeft(p, id, active, m, Resolve(p, Named(Some(id)), active, m).1);
    } else if id !in active {
      FewerLeft(p, active, id);
      var (ty, inside) := Resolve(p, p.aliases[id], active + {id}, m);
      assert AliasCycle !in inside.diagnostics by { RememberedKeys(id, ty, inside); }
      UndiagnosedMeansSettled(p, p.aliases[id], active + {id}, m);
      AliasLeft(p, id, active, m, ty, inside);
    }
  }

  lemma RememberedKeys(id: SymbolId, ty: Ty, m: Memo)
    ensures Remembered(id, ty, m).resolved.Keys == m.resolved.Keys + {id}
    ensures Remembered(id, ty, m).diagnostics == m.diagnostics
  {
  }

  lemma NothingLeft(p: Program, id: SymbolId, active: set<SymbolId>, m: Memo, r: Memo)
    requires Settled(p, m.resolved.Keys) && active !! m.resolved.Keys && r.resolved == m.resolved
    requires id in m.resolved || id !in p.aliases
    ensures LeavesSettled(p, Named(Some(id)), active, m, r)
  {
  }

  lemma AliasLeft(p: Program, id: SymbolId, active: set<SymbolId>, m: Memo, ty: Ty, inside: Memo)
    requires id in p.aliases && id !in active && LeavesSettled(p, p.aliases[id], active + {id}, m, inside)
    ensures LeavesSettled(p, Named(Some(id)), active, m, Remembered(id, ty, inside))
  {
    hide Settled;
    RememberedKeys(id, ty, inside);
    SettledGrows(p, inside.resolved.Keys, id);
  }

  lemma {:induction false} DiagnosticsStay(p: Program, t: TypeSyntax, active: set<SymbolId>, m: Memo)
    ensures m.diagnostics <= Resolve(p, t, active, m).1.diagnostics
    decreases |p.aliases.Keys - active|, t
  {
    match t
    case Scalar(_) =>
    case Named(reference) =>
      if NamedAliases(p, t) != {} {
        var id := reference.value;
        assert Resolve(p, t, active, m) == ResolveAlias(p, id, t, active, m);
        if id !in m.resolved && id in p.aliases && id !in active {
          FewerLeft(p, active, id);
          DiagnosticsStay(p, p.aliases[id], active + {id}, m);
        }
      }
    case OptionalOf(inner) => DiagnosticsStay(p, inner, active, m);
    case ListOf(element) => DiagnosticsStay(p, element, active, m);
    case SetOf(element) => DiagnosticsStay(p, element, active, m);
    case MapOf(key, value) =>
      DiagnosticsStay(p, key, active, m);
      DiagnosticsStay(p, value, active, Resolve(p, key, active, m).1);
  }

  /** A new alias whose named aliases are all remembered closes no cycle. */
  lemma SettledGrows(p: Program, keys: set<SymbolId>, id: SymbolId)
    requires Settled(p, keys) && id !in keys && id in p.aliases
    requires forall c :: c in NamedAliases(p, p.aliases[id]) && c in p.aliases ==> c in keys
    ensures Settled(p, keys + {id})
  {
    var g := AliasGraph(p);
    if Reaches(g, id, id) {
      var m := ReachFirst(g, id, id);
      assert m in p.aliases by {
        if m != id {
          var k := ReachFirst(g, m, id);
        }
      }
      assert m in keys;
      var declared := DeclaredPart(p);
      PathThroughDeclared(p, m, id);
      ClosedContainsReachable(declared, keys, m, id);
    }
  }

  ghost function DeclaredPart(p: Program): Graph<SymbolId> {
    set e | e in AliasGraph(p) && e.1 in p.aliases
  }

  /** A path to a declared alias only passes declared ones, since the others name nothing. */
  lemma PathThroughDeclared(p: Program, a: SymbolId, b: SymbolId)
    requires Reaches(AliasGraph(p), a, b) && b in p.aliases
    ensures Reaches(DeclaredPart(p), a, b)
  {
    var g := AliasGraph(p);
    var declared := DeclaredPart(p);
    var path :| PathFromTo(g, path, a, b);
    forall i | 0 <= i < |path| - 1
      ensures (path[i], path[i + 1]) in declared
    {
      assert (path[i], path[i + 1]) in g;
      if i + 1 < |path| - 1 {
        assert (path[i + 1], path[i + 2]) in g;
      }
    }
    assert PathFromTo(declared, path, a, b);
  }

  lemma {:induction false} UndiagnosedQueriesMeanSettled(p: Program, queries: seq<TypeSyntax>)
    requires AliasCycle !in After(p, queries).diagnostics
    ensures Settled(p, After(p, queries).resolved.Keys)
    ensures forall t :: t in queries ==> AllRemembered(p, NamedAliases(p, t), After(p, queries))
  {
    if queries != [] {
      var n := |queries| - 1;
      var m := After(p, queries[..n]);
      DiagnosticsStay(p, queries[n], {}, m);
      UndiagnosedQueriesMeanSettled(p, queries[..n]);
      UndiagnosedMeansSettled(p, queries[n], {}, m);
      assert queries == queries[..n] + [queries[n]];
    }
  }

  /** Once every declared alias has been asked for, in any order and among any other queries, a
      cycle has been diagnosed exactly when there is one. */
  lemma CycleDiagnosedExactlyWhenCyclic(p: Program, queries: seq<TypeSyntax>)
    requires forall a :: a in p.aliases ==> IsAlias(p, a) && Named(Some(a)) in queries
    ensures AliasCycle in After(p, queries).diagnostics <==> !Acyclic(AliasGraph(p))
  {
    if Acyclic(AliasGraph(p)) {
      QueriesDiagnoseNoCycle(p, queries);
    } else if AliasCycle !in After(p, queries).diagnostics {
      UndiagnosedQueriesMeanSettled(p, queries);
      SettledWholeIsAcyclic(p, queries);
      assert false;
    }
  }

  lemma SettledWholeIsAcyclic(p: Program, queries: seq<TypeSyntax>)
    requires forall a :: a in p.aliases ==> IsAlias(p, a) && Named(Some(a)) in queries
    requires Settled(p, After(p, queries).resolved.Keys)
    requires forall t :: t in queries ==> AllRemembered(p, NamedAliases(p, t), After(p, queries))
    ensures Acyclic(AliasGraph(p))
  {
    forall a | a in p.aliases
      ensures a in After(p, queries).resolved
    {
      assert a in NamedAliases(p, Named(Some(a)));
    }
    forall a
      ensures !Reaches(AliasGraph(p), a, a)
    {
      if Reaches(AliasGraph(p), a, a) {
        var m := ReachFirst(AliasGraph(p), a, a);
      }
    }
  }
}
