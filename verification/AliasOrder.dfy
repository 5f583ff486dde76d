/** The aliases whose answers depend on the order of the queries, and which types name one
    (src/compiler/semantics/type_resolver.cpp). */
module AliasOrder {
  import opened Wrappers
  import opened Sequences
  import opened Graphs
  import opened TypeContext
  import opened AliasResolution
  import opened AliasSteadiness

  // ------------------------------------------------------- where the order is visible

  /** Every occurrence of the alias in the written type shows as the given type. */
  predicate ShowsAs(t: TypeSyntax, ty: Ty, x: SymbolId, v: Ty) {
    match t
    case Scalar(_) => true
    case Named(reference) => reference == Some(x) ==> ty == v
    case OptionalOf(inner) => ty.TOptional? && ShowsAs(inner, ty.inner, x, v)
    case ListOf(element) => ty.TList? && ShowsAs(element, ty.element, x, v)
    case SetOf(element) => ty.TSet? && ShowsAs(element, ty.element, x, v)
    case MapOf(key, value) => ty.TMap? && ShowsAs(key, ty.key, x, v) && ShowsAs(value, ty.value, x, v)
  }

  lemma {:induction false} ShowsOneType(p: Program, t: TypeSyntax, ty: Ty, x: SymbolId, v: Ty, w: Ty)
    requires x in NamedAliases(p, t) && ShowsAs(t, ty, x, v) && ShowsAs(t, ty, x, w)
    ensures v == w
  {
    match t
    case Scalar(_) =>
    case Named(_) =>
    case OptionalOf(inner) => ShowsOneType(p, inner, ty.inner, x, v, w);
    case ListOf(element) => ShowsOneType(p, element, ty.element, x, v, w);
    case SetOf(element) => ShowsOneType(p, element, ty.element, x, v, w);
    case MapOf(key, value) =>
      if x in NamedAliases(p, key) {
        ShowsOneType(p, key, ty.key, x, v, w);
      } else {
        ShowsOneType(p, value, ty.value, x, v, w);
      }
  }

  /** Whatever is remembered shows the alias as an error. */
  ghost predicate AllShowError(p: Program, resolved: map<SymbolId, Ty>, x: SymbolId) {
    forall a :: a in resolved && a in p.aliases ==> ShowsAs(p.aliases[a], resolved[a], x, TError)
  }

  ghost predicate ShowsError(p: Program, t: TypeSyntax, x: SymbolId, r: (Ty, Memo)) {
    ShowsAs(t, r.0, x, TError) && x !in r.1.resolved && AllShowError(p, r.1.resolved, x)
  }

  /** While an alias is active, all that is found shows it as an error. */
  lemma {:induction false} ActiveShowsAsError(p: Program, t: TypeSyntax, active: set<SymbolId>, m: Memo, x: SymbolId)
    requires IsAlias(p, x) && x in active && x !in m.resolved && AllShowError(p, m.resolved, x)
    ensures ShowsError(p, t, x, Resolve(p, t, active, m))
    decreases |p.aliases.Keys - active|, t, 1
  {
    hide AllShowError, ResolveAlias, NamedAliases;
    match t
    case Scalar(_) =>
    case Named(reference) =>
      if reference.Some? && IsAlias(p, reference.value) {
        ActiveAliasShowsAsError(p, reference.value, active, m, x);
      }
    case OptionalOf(inner) => ActiveShowsAsError(p, inner, active, m, x);
    case ListOf(element) => ActiveShowsAsError(p, element, active, m, x);
    case SetOf(element) => ActiveShowsAsError(p, element, active, m, x);
    case MapOf(key, value) =>
      ActiveShowsAsError(p, key, active, m, x);
      ActiveShowsAsError(p, value, active, Resolve(p, key, active, m).1, x);
  }

  lemma {:induction false} ActiveAliasShowsAsError(p: Program, id: SymbolId, active: set<SymbolId>, m: Memo,
                                                   x: SymbolId)
    requires IsAlias(p, id) && IsAlias(p, x) && x in active && x !in m.resolved && AllShowError(p, m.resolved, x)
    ensures ShowsError(p, Named(Some(id)), x, Resolve(p, Named(Some(id)), active, m))
    decreases |p.aliases.Keys - active|, Named(Some(id)), 0
  {
    hide AllShowError, Resolve, ResolveAlias, Remembered;
    ResolvedAlias(p, id, active, m);
    if id !in m.resolved && id !in active && id in p.aliases {
      FewerLeft(p, active, id);
      ActiveShowsAsError(p, p.aliases[id], active + {id}, m, x);
      var (ty, r) := Resolve(p, p.aliases[id], active + {id}, m);
      RememberedKeys(id, ty, r);
      NewShowsError(p, r, id, ty, x);
    }
  }

  lemma NewShowsError(p: Program, m: Memo, id: SymbolId, ty: Ty, x: SymbolId)
    requires id in p.aliases && AllShowError(p, m.resolved, x) && ShowsAs(p.aliases[id], ty, x, TError)
    ensures AllShowError(p, Remembered(id, ty, m).resolved, x)
  {
  }

  lemma ContainerIsNoError(p: Program, t: TypeSyntax, active: set<SymbolId>, m: Memo)
    requires !t.Named? && !t.Scalar?
    ensures Resolve(p, t, active, m).0 != TError
  {
    hide ResolveAlias;
  }

  /** What remembered aliases name is remembered or active, if it is declared. */
  ghost predicate Covered(p: Program, keys: set<SymbolId>, active: set<SymbolId>) {
    forall e :: e in AliasGraph(p) && e.0 in keys && e.1 in p.aliases ==> e.1 in keys || e.1 in active
  }

  ghost predicate NamedCovered(p: Program, t: TypeSyntax, keys: set<SymbolId>, active: set<SymbolId>) {
    forall c :: c in NamedAliases(p, t) && c in p.aliases ==> c in keys || c in active
  }

  ghost predicate Covers(p: Program, t: TypeSyntax, active: set<SymbolId>, before: set<SymbolId>,
                         after: set<SymbolId>) {
    Covered(p, after, active) && NamedCovered(p, t, after, active) && before <= after
  }

  lemma {:induction false} ResolvingCovers(p: Program, t: TypeSyntax, active: set<SymbolId>, m: Memo)
    requires Covered(p, m.resolved.Keys, active)
    ensures Covers(p, t, active, m.resolved.Keys, Resolve(p, t, active, m).1.resolved.Keys)
    decreases |p.aliases.Keys - active|, t, 1
  {
    hide Covered, NamedCovered, ResolveAlias;
    match t
    case Scalar(_) => NothingNamed(p, t, active, m.resolved.Keys);
    case Named(reference) =>
      if NamedAliases(p, t) != {} {
        ResolvingAliasCovers(p, reference.value, active, m);
      } else {
        NothingNamed(p, t, active, m.resolved.Keys);
      }
    case OptionalOf(inner) => ResolvingCovers(p, inner, active, m); SameNames(p, t, inner, active);
    case ListOf(element) => ResolvingCovers(p, element, active, m); SameNames(p, t, element, active);
    case SetOf(element) => ResolvingCovers(p, element, active, m); SameNames(p, t, element, active);
    case MapOf(key, value) =>
      var r := Resolve(p, key, active, m).1;
      ResolvingCovers(p, key, active, m);
      ResolvingCovers(p, value, active, r);
      var s := Resolve(p, value, active, r).1;
      BothCovered(p, key, value, active, m.resolved.Keys, r.resolved.Keys, s.resolved.Keys);
  }

  lemma NothingNamed(p: Program, t: TypeSyntax, active: set<SymbolId>, keys: set<SymbolId>)
    requires NamedAliases(p, t) == {} && Covered(p, keys, active)
    ensures Covers(p, t, active, keys, keys)
  {
  }

  lemma SameNames(p: Program, t: TypeSyntax, part: TypeSyntax, active: set<SymbolId>)
    requires NamedAliases(p, t) == NamedAliases(p, part)
    ensures forall before, after :: Covers(p, part, active, before, after) ==> Covers(p, t, active, before, after)
  {
  }

  lemma BothCovered(p: Program, key: TypeSyntax, value: TypeSyntax, active: set<SymbolId>,
                    before: set<SymbolId>, between: set<SymbolId>, after: set<SymbolId>)
    requires Covers(p, key, active, before, between) && Covers(p, value, active, between, after)
    ensures Covers(p, MapOf(key, value), active, before, after)
  {
    hide Covered;
  }

  lemma {:induction false} ResolvingAliasCovers(p: Program, id: SymbolId, active: set<SymbolId>, m: Memo)
    requires IsAlias(p, id) && Covered(p, m.resolved.Keys, active)
    ensures Covers(p, Named(Some(id)), active, m.resolved.Keys, Resolve(p, Named(Some(id)), active, m).1.resolved.Keys)
    decreases |p.aliases.Keys - active|, Named(Some(id)), 0
  {
    hide Covered, NamedCovered, Covers, Resolve, ResolveAlias, Remembered;
    ResolvedAlias(p, id, active, m);
    if id !in m.resolved && id !in active && id in p.aliases {
      var (ty, inside) := Resolve(p, p.aliases[id], active + {id}, m);
      RememberedKeys(id, ty, inside);
      FewerLeft(p, active, id);
      CoveredByMore(p, m.resolved.Keys, active, id);
      ResolvingCovers(p, p.aliases[id], active + {id}, m);
      CoveredOnLeaving(p, m.resolved.Keys, inside.resolved.Keys, active, id);
    } else {
      CoveredAlready(p, id, active, m.resolved.Keys);
    }
  }

  lemma CoveredAlready(p: Program, id: SymbolId, active: set<SymbolId>, keys: set<SymbolId>)
    requires Covered(p, keys, active) && (id in keys || id in active || id !in p.aliases)
    ensures Covers(p, Named(Some(id)), active, keys, keys)
  {
    hide Covered;
  }

  lemma CoveredByMore(p: Program, keys: set<SymbolId>, active: set<SymbolId>, id: SymbolId)
    requires Covered(p, keys, active)
    ensures Covered(p, keys, active + {id})
  {
  }

  lemma CoveredOnLeaving(p: Program, before: set<SymbolId>, keys: set<SymbolId>, active: set<SymbolId>, id: SymbolId)
    requires id in p.aliases && Covers(p, p.aliases[id], active + {id}, before, keys)
    ensures Covers(p, Named(Some(id)), active, before, keys + {id})
  {
    forall e | e in AliasGraph(p) && e.0 in keys + {id} && e.1 in p.aliases
      ensures e.1 in keys + {id} || e.1 in active
    {
      if e.0 == id {
        assert e.1 in NamedAliases(p, p.aliases[id]);
      }
    }
  }

  /** After a query for an alias, everything declared behind it is remembered. */
  lemma AllBehindIsRemembered(p: Program, x: SymbolId, y: SymbolId)
    requires IsAlias(p, x) && Reaches(AliasGraph(p), x, y) && y in p.aliases
    ensures y in Resolve(p, Named(Some(x)), {}, Fresh()).1.resolved
  {
    var keys := Resolve(p, Named(Some(x)), {}, Fresh()).1.resolved.Keys;
    ResolvingCovers(p, Named(Some(x)), {}, Fresh());
    var _ := ReachFirst(AliasGraph(p), x, y);
    assert x in NamedAliases(p, Named(Some(x)));
    PathThroughDeclared(p, x, y);
    ClosedContainsReachable(DeclaredPart(p), keys, x, y);
  }

  /** From another alias the cycle comes back to the first by an alias that names it. */
  lemma {:induction false} NamesFirst(g: Graph<SymbolId>, path: seq<SymbolId>, x: SymbolId) returns (y: SymbolId)
    requires |path| >= 2 && IsPath(g, path) && path[0] != x && path[|path| - 1] == x
    ensures y != x && (y, x) in g && (y == path[0] || Reaches(g, path[0], y))
  {
    var i := 1;
    while path[i] != x
      invariant 1 <= i < |path| && forall j :: 0 <= j < i ==> path[j] != x
      decreases |path| - i
    {
      i := i + 1;
    }
    y := path[i - 1];
    assert (path[i - 1], path[i]) in g;
    if i > 1 {
      assert PathFromTo(g, path[..i], path[0], y);
    }
  }

  lemma Predecessor(p: Program, x: SymbolId, z: SymbolId) returns (y: SymbolId)
    requires x != z && Mutual(p, x, z)
    ensures y != x && (y, x) in AliasGraph(p) && Reaches(AliasGraph(p), x, y)
  {
    var g := AliasGraph(p);
    var path :| PathFromTo(g, path, z, x);
    y := NamesFirst(g, path, x);
    if y != z {
      ReachTrans(g, x, z, y);
    }
  }

  /** Asked for after x, an alias that names x shows it as an error. */
  lemma AskedAfterShowsError(p: Program, x: SymbolId, y: SymbolId)
    requires IsAlias(p, x) && x in p.aliases && IsAlias(p, y) && y in p.aliases && y != x
    requires Reaches(AliasGraph(p), x, y)
    ensures ShowsAs(p.aliases[y], Resolve(p, Named(Some(y)), {}, After(p, [Named(Some(x))])).0, x, TError)
  {
    var m := Resolve(p, Named(Some(x)), {}, Fresh()).1;
    assert After(p, [Named(Some(x))]) == m by {
      assert [Named(Some(x))][..0] == [];
    }
    ResolvedAlias(p, x, {}, Fresh());
    AllBehindIsRemembered(p, x, y);
    assert {} + {x} == {x};
    ActiveShowsAsError(p, p.aliases[x], {x}, Fresh(), x);
    ResolvedAlias(p, y, {}, m);
  }

  lemma OnACycleIsDeclared(p: Program, x: SymbolId)
    requires Reaches(AliasGraph(p), x, x)
    ensures IsAlias(p, x) && x in p.aliases && !p.aliases[x].Scalar?
  {
    var _ := ReachFirst(AliasGraph(p), x, x);
    var m := ReachLast(AliasGraph(p), x, x);
    NamedAreAliases(p, p.aliases[m]);
  }

  // ------------------------------------------------- the first wild name is not cut

  /** What is remembered lies on no cycle with z, or is another name for it. */
  ghost predicate Clean(p: Program, z: SymbolId, m: Memo) {
    z !in m.resolved && forall k :: k in m.resolved && Mutual(p, z, k) ==> Renames(p, k, z)
  }

  /** Only what a type names, and what is behind that, is new in the memo. */
  lemma {:induction false} NewEntriesAreBelow(p: Program, t: TypeSyntax, active: set<SymbolId>, m: Memo, k: SymbolId)
    requires k in Resolve(p, t, active, m).1.resolved
    ensures k in m.resolved || Below(p, t, k)
    decreases |p.aliases.Keys - active|, t, 1
  {
    hide ResolveAlias, Below;
    match t
    case Scalar(_) =>
    case Named(reference) =>
      if NamedAliases(p, t) != {} {
        NewEntriesAreBelowAlias(p, reference.value, active, m, k);
      }
    case OptionalOf(inner) => NewEntriesAreBelow(p, inner, active, m, k); BelowPart(p, t, inner, k);
    case ListOf(element) => NewEntriesAreBelow(p, element, active, m, k); BelowPart(p, t, element, k);
    case SetOf(element) => NewEntriesAreBelow(p, element, active, m, k); BelowPart(p, t, element, k);
    case MapOf(key, value) =>
      var r := Resolve(p, key, active, m).1;
      NewEntriesAreBelow(p, value, active, r, k);
      BelowPart(p, t, value, k);
      if k in r.resolved {
        NewEntriesAreBelow(p, key, active, m, k);
        BelowPart(p, t, key, k);
      }
  }

  lemma BelowPart(p: Program, t: TypeSyntax, part: TypeSyntax, k: SymbolId)
    requires NamedAliases(p, part) <= NamedAliases(p, t)
    ensures Below(p, part, k) ==> Below(p, t, k)
  {
  }

  lemma {:induction false} NewEntriesAreBelowAlias(p: Program, id: SymbolId, active: set<SymbolId>, m: Memo,
                                                   k: SymbolId)
    requires IsAlias(p, id) && k in Resolve(p, Named(Some(id)), active, m).1.resolved
    ensures k in m.resolved || Below(p, Named(Some(id)), k)
    decreases |p.aliases.Keys - active|, Named(Some(id)), 0
  {
    hide Resolve, ResolveAlias, Remembered;
    ResolvedAlias(p, id, active, m);
    if id !in m.resolved && id !in active && id in p.aliases && k != id {
      FewerLeft(p, active, id);
      var (ty, inside) := Resolve(p, p.aliases[id], active + {id}, m);
      RememberedKeys(id, ty, inside);
      NewEntriesAreBelow(p, p.aliases[id], active + {id}, m, k);
      if Below(p, p.aliases[id], k) {
        BelowBody(p, id, k);
      }
    }
  }

  /** Asking for another name of an active alias leaves such names only. */
  lemma {:induction false} NewEntriesRename(p: Program, d: SymbolId, z: SymbolId, active: set<SymbolId>, m: Memo,
                                            k: SymbolId)
    requires IsAlias(p, d) && Renames(p, d, z) && z in active && k in Resolve(p, Named(Some(d)), active, m).1.resolved
    ensures k in m.resolved || Renames(p, k, z)
    decreases |p.aliases.Keys - active|
  {
    hide Resolve, ResolveAlias, Remembered;
    ResolvedAlias(p, d, active, m);
    if d !in m.resolved && d !in active && k != d {
      var e := RenameStep(p, d, z);
      FewerLeft(p, active, d);
      var (ty, inside) := Resolve(p, p.aliases[d], active + {d}, m);
      RememberedKeys(d, ty, inside);
      if e == z {
        ResolvedAlias(p, z, active + {d}, m);
      } else {
        NewEntriesRename(p, e, z, active + {d}, m, k);
      }
    }
  }

  ghost predicate NoWildName(p: Program, z: SymbolId, t: TypeSyntax) {
    forall d :: d in NamedAliases(p, t) ==> !IsWildName(p, z, d)
  }

  ghost predicate PartOfBody(p: Program, z: SymbolId, t: TypeSyntax) {
    z in p.aliases && NamedAliases(p, t) <= NamedAliases(p, p.aliases[z])
  }

  lemma {:induction false} StaysClean(p: Program, z: SymbolId, t: TypeSyntax, m: Memo)
    requires PartOfBody(p, z, t) && NoWildName(p, z, t) && Clean(p, z, m)
    ensures Clean(p, z, Resolve(p, t, {z}, m).1)
  {
    hide Clean, ResolveAlias;
    match t
    case Scalar(_) =>
    case Named(reference) =>
      if NamedAliases(p, t) != {} {
        NameStaysClean(p, z, reference.value, m);
      } else {
        NothingNamedIsNew(p, t, {z}, m);
        assert Clean(p, z, Resolve(p, t, {z}, m).1) by { CleanAlike(p, z, m, Resolve(p, t, {z}, m).1); }
      }
    case OptionalOf(inner) => StaysClean(p, z, inner, m);
    case ListOf(element) => StaysClean(p, z, element, m);
    case SetOf(element) => StaysClean(p, z, element, m);
    case MapOf(key, value) =>
      StaysClean(p, z, key, m);
      StaysClean(p, z, value, Resolve(p, key, {z}, m).1);
  }

  lemma CleanAlike(p: Program, z: SymbolId, m: Memo, r: Memo)
    requires Clean(p, z, m) && r.resolved == m.resolved
    ensures Clean(p, z, r)
  {
  }

  lemma NameStaysClean(p: Program, z: SymbolId, c: SymbolId, m: Memo)
    requires z in p.aliases && c in NamedAliases(p, p.aliases[z]) && IsAlias(p, c)
    requires !IsWildName(p, z, c) && Clean(p, z, m)
    ensures Clean(p, z, Resolve(p, Named(Some(c)), {z}, m).1)
  {
    hide Resolve, Renames;
    var g := AliasGraph(p);
    var t := Named(Some(c));
    var r := Resolve(p, t, {z}, m).1;
    assert (z, c) in g;
    ReachEdge(g, z, c);
    ActiveStaysOut(p, t, {z}, m, z);
    forall k | k in r.resolved && Mutual(p, z, k)
      ensures Renames(p, k, z)
    {
      if k !in m.resolved {
        if c == z {
          ResolvedAlias(p, z, {z}, m);
          assert false;
        } else if Renames(p, c, z) {
          NewEntriesRename(p, c, z, {z}, m, k);
        } else {
          NewEntriesAreBelow(p, t, {z}, m, k);
          if k != c {
            ReachTrans(g, c, k, z);
          }
          assert false;
        }
      }
    }
  }

  /** On a path to z without repetition no alias is cut before one with a container for its body. */
  lemma {:induction false} NotCut(p: Program, path: seq<SymbolId>, z: SymbolId, active: set<SymbolId>, m: Memo)
    requires |path| >= 2 && PathFromTo(AliasGraph(p), path, path[0], z) && Distinct(path)
    requires Reaches(AliasGraph(p), z, path[0]) && !Renames(p, path[0], z) && Clean(p, z, m)
    requires forall a :: a in active && a in path ==> a == z
    ensures Resolve(p, Named(Some(path[0])), active, m).0 != TError
    decreases |path|
  {
    hide Resolve, ResolveAlias, Clean, Renames;
    var g := AliasGraph(p);
    var d := path[0];
    assert (path[0], path[1]) in g;
    OnPathIsAlias(p, path, z);
    NotRemembered(p, z, d, m);
    ResolvedAlias(p, d, active, m);
    FewerLeft(p, active, d);
    if p.aliases[d].Named? {
      assert p.aliases[d] == Named(Some(path[1]));
      NamedAreAliases(p, p.aliases[d]);
      if path[1] == z {
        RenamesByItsBody(p, d, z, z);
        assert false;
      }
      assert |path| > 2;
      if Renames(p, path[1], z) {
        RenamesByItsBody(p, d, path[1], z);
        assert false;
      }
      PathTail(g, path, z);
      ReachEdge(g, d, path[1]);
      ReachTrans(g, z, d, path[1]);
      NotCut(p, path[1..], z, active + {d}, m);
    } else {
      ContainerIsNoError(p, p.aliases[d], active + {d}, m);
    }
  }

  lemma OnPathIsAlias(p: Program, path: seq<SymbolId>, z: SymbolId)
    requires |path| >= 2 && PathFromTo(AliasGraph(p), path, path[0], z) && Reaches(AliasGraph(p), z, path[0])
    ensures IsAlias(p, path[0]) && path[0] in p.aliases && !p.aliases[path[0]].Scalar?
    ensures Mutual(p, z, path[0])
  {
    ReachTrans(AliasGraph(p), path[0], z, path[0]);
    OnACycleIsDeclared(p, path[0]);
  }

  lemma NotRemembered(p: Program, z: SymbolId, d: SymbolId, m: Memo)
    requires Clean(p, z, m) && Mutual(p, z, d) && !Renames(p, d, z)
    ensures d !in m.resolved
  {
  }

  lemma PathTail(g: Graph<SymbolId>, path: seq<SymbolId>, z: SymbolId)
    requires |path| > 2 && PathFromTo(g, path, path[0], z) && Distinct(path)
    ensures PathFromTo(g, path[1..], path[1], z) && Distinct(path[1..]) && path[0] !in path[1..]
  {
    var tail := path[1..];
    forall i | 0 <= i < |tail| - 1
      ensures (tail[i], tail[i + 1]) in g
    {
      assert (path[i + 1], path[i + 2]) in g;
    }
  }

  lemma {:induction false} WithoutRepetition(g: Graph<SymbolId>, path: seq<SymbolId>, a: SymbolId, b: SymbolId)
    returns (q: seq<SymbolId>)
    requires PathFromTo(g, path, a, b) && a != b
    ensures PathFromTo(g, q, a, b) && Distinct(q)
    decreases |path|
  {
    if Distinct(path) {
      q := path;
    } else {
      var i, j :| 0 <= i < j < |path| && path[i] == path[j];
      var r := path[..i] + path[j..];
      forall k | 0 <= k < |r| - 1
        ensures (r[k], r[k + 1]) in g
      {
        if k < i {
          assert (path[k], path[k + 1]) in g;
        } else {
          assert (path[k - i + j], path[k - i + j + 1]) in g;
        }
      }
      q := WithoutRepetition(g, r, a, b);
    }
  }

  lemma WildIsNotCut(p: Program, z: SymbolId, d: SymbolId, m: Memo)
    requires IsWildName(p, z, d) && Clean(p, z, m)
    ensures Resolve(p, Named(Some(d)), {z}, m).0 != TError
  {
    var path :| PathFromTo(AliasGraph(p), path, d, z);
    path := WithoutRepetition(AliasGraph(p), path, d, z);
    NotCut(p, path, z, {z}, m);
  }

  /** Of the wild names in a body, the first is not cut. */
  lemma {:induction false} FirstWildIsNotCut(p: Program, z: SymbolId, t: TypeSyntax, m: Memo) returns (d: SymbolId)
    requires PartOfBody(p, z, t) && !NoWildName(p, z, t) && Clean(p, z, m)
    ensures d in NamedAliases(p, t) && IsWildName(p, z, d) && !ShowsAs(t, Resolve(p, t, {z}, m).0, d, TError)
    decreases t
  {
    hide Clean, IsWildName, ResolveAlias;
    match t
    case Scalar(_) => assert false;
    case Named(reference) =>
      d := reference.value;
      WildIsNotCut(p, z, d, m);
    case OptionalOf(inner) => d := FirstWildIsNotCut(p, z, inner, m);
    case ListOf(element) => d := FirstWildIsNotCut(p, z, element, m);
    case SetOf(element) => d := FirstWildIsNotCut(p, z, element, m);
    case MapOf(key, value) =>
      if NoWildName(p, z, key) {
        StaysClean(p, z, key, m);
        d := FirstWildIsNotCut(p, z, value, Resolve(p, key, {z}, m).1);
      } else {
        d := FirstWildIsNotCut(p, z, key, m);
      }
  }

  // ------------------------------------------------------ the difference carries upwards

  /** Two series of queries after which the alias gets different answers, and which went no higher. */
  ghost predicate Differs(p: Program, v: SymbolId, e1: seq<TypeSyntax>, e2: seq<TypeSyntax>) {
    && Resolve(p, Named(Some(v)), {}, After(p, e1)).0 != Resolve(p, Named(Some(v)), {}, After(p, e2)).0
    && OnlyBehind(p, v, After(p, e1)) && OnlyBehind(p, v, After(p, e2))
  }

  ghost predicate OnlyBehind(p: Program, v: SymbolId, m: Memo) {
    forall k :: k in m.resolved ==> k == v || Reaches(AliasGraph(p), v, k)
  }

  lemma DiffersAtWild(p: Program, z: SymbolId) returns (e1: seq<TypeSyntax>, e2: seq<TypeSyntax>)
    requires HasWildName(p, z)
    ensures Differs(p, z, e1, e2)
  {
    assert Clean(p, z, Fresh());
    var d := FirstWildIsNotCut(p, z, p.aliases[z], Fresh());
    e1, e2 := [], [Named(Some(d))];
    ReachTrans(AliasGraph(p), z, d, z);
    ReachTrans(AliasGraph(p), d, z, d);
    OnACycleIsDeclared(p, z);
    OnACycleIsDeclared(p, d);
    ResolvedAlias(p, z, {}, Fresh());
    assert {} + {z} == {z};
    AskedAfterShowsError(p, d, z);
    assert After(p, e1) == Fresh();
    assert After(p, e2) == Resolve(p, Named(Some(d)), {}, Fresh()).1 by {
      assert e2[..0] == [];
    }
    forall k | k in After(p, e2).resolved
      ensures k == z || Reaches(AliasGraph(p), z, k)
    {
      NewEntriesAreBelow(p, Named(Some(d)), {}, Fresh(), k);
      if k != d {
        ReachTrans(AliasGraph(p), z, d, k);
      }
    }
  }

  /** What is remembered shows wherever it is named. */
  lemma {:induction false} RememberedShows(p: Program, t: TypeSyntax, active: set<SymbolId>, m: Memo, v: SymbolId)
    requires IsAlias(p, v) && v in m.resolved
    ensures var (ty, r) := Resolve(p, t, active, m);
      ShowsAs(t, ty, v, m.resolved[v]) && v in r.resolved && r.resolved[v] == m.resolved[v]
    decreases |p.aliases.Keys - active|, t
  {
    hide ResolveAlias;
    match t
    case Scalar(_) =>
    case Named(reference) =>
      if NamedAliases(p, t) != {} {
        var id := reference.value;
        ResolvedAlias(p, id, active, m);
        if id !in m.resolved && id !in active && id in p.aliases {
          FewerLeft(p, active, id);
          RememberedShows(p, p.aliases[id], active + {id}, m, v);
        }
      }
    case OptionalOf(inner) => RememberedShows(p, inner, active, m, v);
    case ListOf(element) => RememberedShows(p, element, active, m, v);
    case SetOf(element) => RememberedShows(p, element, active, m, v);
    case MapOf(key, value) =>
      RememberedShows(p, key, active, m, v);
      RememberedShows(p, value, active, Resolve(p, key, active, m).1, v);
  }

  lemma AfterOneMore(p: Program, e: seq<TypeSyntax>, t: TypeSyntax)
    ensures After(p, e + [t]) == Resolve(p, t, {}, After(p, e)).1
  {
    assert (e + [t])[..|e|] == e;
  }

  /** Having been asked for, a declared alias is remembered with its answer. */
  lemma AskedIsRemembered(p: Program, e: seq<TypeSyntax>, v: SymbolId)
    requires IsAlias(p, v) && v in p.aliases
    ensures var m := After(p, e + [Named(Some(v))]).resolved;
      v in m && m[v] == Resolve(p, Named(Some(v)), {}, After(p, e)).0
  {
    hide Resolve;
    AfterOneMore(p, e, Named(Some(v)));
    ResolvedAlias(p, v, {}, After(p, e));
    FoundIsRemembered(p, v, {}, After(p, e));
    if v !in After(p, e).resolved {
      var (ty, inside) := Resolve(p, p.aliases[v], {} + {v}, After(p, e));
      RememberedKeys(v, ty, inside);
    }
  }

  /** Every type that names the alias gets different answers once that has been asked for. */
  lemma NamingDiffers(p: Program, t: TypeSyntax, active: set<SymbolId>, v: SymbolId,
                      e1: seq<TypeSyntax>, e2: seq<TypeSyntax>)
    requires IsAlias(p, v) && v in p.aliases && v in NamedAliases(p, t) && Differs(p, v, e1, e2)
    ensures Resolve(p, t, active, After(p, e1 + [Named(Some(v))])).0
      != Resolve(p, t, active, After(p, e2 + [Named(Some(v))])).0
  {
    hide Resolve;
    AskedIsRemembered(p, e1, v);
    AskedIsRemembered(p, e2, v);
    var m1, m2 := After(p, e1 + [Named(Some(v))]), After(p, e2 + [Named(Some(v))]);
    RememberedShows(p, t, active, m1, v);
    RememberedShows(p, t, active, m2, v);
    if Resolve(p, t, active, m1).0 == Resolve(p, t, active, m2).0 {
      ShowsOneType(p, t, Resolve(p, t, active, m1).0, v, m1.resolved[v], m2.resolved[v]);
    }
  }

  lemma AskingStaysBehind(p: Program, v: SymbolId, e: seq<TypeSyntax>)
    requires IsAlias(p, v) && OnlyBehind(p, v, After(p, e))
    ensures OnlyBehind(p, v, After(p, e + [Named(Some(v))]))
  {
    AfterOneMore(p, e, Named(Some(v)));
    forall k | k in After(p, e + [Named(Some(v))]).resolved
      ensures k == v || Reaches(AliasGraph(p), v, k)
    {
      NewEntriesAreBelow(p, Named(Some(v)), {}, After(p, e), k);
    }
  }

  /** One edge up, off every cycle with v. */
  lemma DiffersAbove(p: Program, u: SymbolId, v: SymbolId, e1: seq<TypeSyntax>, e2: seq<TypeSyntax>)
    requires IsAlias(p, u) && IsAlias(p, v) && v in p.aliases && (u, v) in LowerGraph(p) && Differs(p, v, e1, e2)
    ensures Differs(p, u, e1 + [Named(Some(v))], e2 + [Named(Some(v))])
  {
    hide Resolve;
    var g := AliasGraph(p);
    ReachEdge(g, u, v);
    LowerIsOther(p, u, v);
    NamingDiffers(p, p.aliases[u], {} + {u}, v, e1, e2);
    ReachesTooMuch(p, u, v, e1);
    ReachesTooMuch(p, u, v, e2);
    ResolvedAlias(p, u, {}, After(p, e1 + [Named(Some(v))]));
    ResolvedAlias(p, u, {}, After(p, e2 + [Named(Some(v))]));
  }

  lemma LowerIsOther(p: Program, u: SymbolId, v: SymbolId)
    requires (u, v) in LowerGraph(p)
    ensures u != v
  {
    ReachEdge(AliasGraph(p), u, v);
  }

  lemma ReachesTooMuch(p: Program, u: SymbolId, v: SymbolId, e: seq<TypeSyntax>)
    requires IsAlias(p, v) && u != v && (u, v) in LowerGraph(p) && OnlyBehind(p, v, After(p, e))
    ensures var m := After(p, e + [Named(Some(v))]); u !in m.resolved && OnlyBehind(p, u, m)
  {
    var g := AliasGraph(p);
    var m := After(p, e + [Named(Some(v))]);
    AskingStaysBehind(p, v, e);
    ReachEdge(g, u, v);
    forall k | k in m.resolved
      ensures k != u && Reaches(g, u, k)
    {
      if k != v {
        ReachTrans(g, u, v, k);
      }
    }
  }

  lemma {:induction false} DiffersAlong(p: Program, path: seq<SymbolId>)
    returns (e1: seq<TypeSyntax>, e2: seq<TypeSyntax>)
    requires |path| >= 1 && IsPath(LowerGraph(p), path) && IsAlias(p, path[0]) && HasWildName(p, path[|path| - 1])
    ensures path[0] in p.aliases && Differs(p, path[0], e1, e2)
    decreases |path|
  {
    hide Differs, HasWildName;
    if |path| == 1 {
      e1, e2 := DiffersAtWild(p, path[0]);
      assert path[0] in p.aliases by { WildIsDeclared(p, path[0]); }
    } else {
      assert (path[0], path[1]) in LowerGraph(p);
      NamedAreAliases(p, p.aliases[path[0]]);
      forall i | 0 <= i < |path[1..]| - 1
        ensures (path[1..][i], path[1..][i + 1]) in LowerGraph(p)
      {
        assert (path[i + 1], path[i + 2]) in LowerGraph(p);
      }
      e1, e2 := DiffersAlong(p, path[1..]);
      DiffersAbove(p, path[0], path[1], e1, e2);
      e1, e2 := e1 + [Named(Some(path[1]))], e2 + [Named(Some(path[1]))];
    }
  }

  lemma WildIsDeclared(p: Program, z: SymbolId)
    requires HasWildName(p, z)
    ensures z in p.aliases
  {
  }

  ghost predicate OrderMatters(p: Program, t: TypeSyntax) {
    exists e1, e2 :: Resolve(p, t, {}, After(p, e1)).0 != Resolve(p, t, {}, After(p, e2)).0
  }

  lemma UnsteadyMatters(p: Program, t: TypeSyntax, c: SymbolId)
    requires c in NamedAliases(p, t) && Unsteady(p, c)
    ensures OrderMatters(p, t)
  {
    hide HasWildName, Resolve, Differs;
    NamedAreAliases(p, t);
    var path := WayDown(p, c);
    var e1, e2 := DiffersAlong(p, path);
    NamingDiffers(p, t, {}, c, e1, e2);
  }

  lemma WayDown(p: Program, c: SymbolId) returns (path: seq<SymbolId>)
    requires Unsteady(p, c)
    ensures |path| >= 1 && path[0] == c && IsPath(LowerGraph(p), path) && HasWildName(p, path[|path| - 1])
  {
    hide HasWildName;
    var z :| Down(p, c, z) && HasWildName(p, z);
    path := [c];
    if c != z {
      path :| PathFromTo(LowerGraph(p), path, c, z);
    }
  }

  /** Main result: for every type of every program, its answer depends on the order of the queries exactly
      when it names an unsteady alias: one from which edges that leave the cycles lead to a body with a name
      on its own cycle that is more than another name for the alias. */
  lemma OrderMattersExactly(p: Program, t: TypeSyntax)
    ensures OrderMatters(p, t) <==> exists c :: c in NamedAliases(p, t) && Unsteady(p, c)
  {
    hide Unsteady, OrderMatters;
    if c :| c in NamedAliases(p, t) && Unsteady(p, c) {
      UnsteadyMatters(p, t, c);
    } else {
      SteadyNeverMatters(p, t);
    }
  }

  lemma SteadyNeverMatters(p: Program, t: TypeSyntax)
    requires AllSteady(p, t)
    ensures !OrderMatters(p, t)
  {
    hide AllSteady, Resolve;
    forall e1, e2
      ensures Resolve(p, t, {}, After(p, e1)).0 == Resolve(p, t, {}, After(p, e2)).0
    {
      SteadyAnswer(p, e1, t);
      SteadyAnswer(p, e2, t);
    }
  }

  // ------------------------------------------------------------------ whole programs

  /** Two aliases on a common cycle, one of which does more than rename. */
  ghost predicate Wild(p: Program, x: SymbolId, y: SymbolId) {
    x != y && Mutual(p, x, y) && !(x in p.aliases && p.aliases[x].Named?)
  }

  /** Where a path to z does not only rename, it meets an alias that does more. */
  lemma {:induction false} MoreThanRenames(p: Program, path: seq<SymbolId>, z: SymbolId) returns (x: SymbolId)
    requires |path| >= 2 && PathFromTo(AliasGraph(p), path, path[0], z) && Distinct(path)
    requires Reaches(AliasGraph(p), z, path[0]) && !Renames(p, path[0], z)
    ensures Wild(p, x, z)
    decreases |path|
  {
    hide Renames;
    var g := AliasGraph(p);
    var d := path[0];
    assert (path[0], path[1]) in g;
    OnPathIsAlias(p, path, z);
    if p.aliases[d].Named? {
      assert p.aliases[d] == Named(Some(path[1]));
      NamedAreAliases(p, p.aliases[d]);
      if path[1] == z {
        RenamesByItsBody(p, d, z, z);
        assert false;
      }
      if Renames(p, path[1], z) {
        RenamesByItsBody(p, d, path[1], z);
        assert false;
      }
      PathTail(g, path, z);
      ReachEdge(g, d, path[1]);
      ReachTrans(g, z, d, path[1]);
      x := MoreThanRenames(p, path[1..], z);
    } else {
      x := d;
    }
  }

  lemma WildNameMeansWild(p: Program, z: SymbolId) returns (x: SymbolId)
    requires HasWildName(p, z)
    ensures Wild(p, x, z)
  {
    var d :| d in NamedAliases(p, p.aliases[z]) && IsWildName(p, z, d);
    var path :| PathFromTo(AliasGraph(p), path, d, z);
    path := WithoutRepetition(AliasGraph(p), path, d, z);
    x := MoreThanRenames(p, path, z);
  }

  lemma WildMeansWildName(p: Program, x: SymbolId, y: SymbolId) returns (z: SymbolId)
    requires Wild(p, x, y)
    ensures IsAlias(p, z) && HasWildName(p, z)
  {
    var g := AliasGraph(p);
    z := Predecessor(p, x, y);
    ReachEdge(g, z, x);
    ReachTrans(g, z, x, z);
    OnACycleIsDeclared(p, z);
    assert x in NamedAliases(p, p.aliases[z]);
    if Renames(p, x, z) {
      var _ := RenameStep(p, x, z);
    }
    assert IsWildName(p, z, x);
  }

  /** Main result: some answer of a program depends on the order of the queries exactly when two aliases lie
      on a common cycle and one of them does more than rename. */
  lemma OrderMattersExactlyOnWildCycles(p: Program)
    ensures (exists t :: OrderMatters(p, t)) <==> exists x, y :: Wild(p, x, y)
  {
    hide OrderMatters, Wild, HasWildName;
    if x, y :| Wild(p, x, y) {
      var z := WildMeansWildName(p, x, y);
      assert Down(p, z, z) && Unsteady(p, z);
      assert z in NamedAliases(p, Named(Some(z)));
      OrderMattersExactly(p, Named(Some(z)));
    } else {
      forall t
        ensures !OrderMatters(p, t)
      {
        OrderMattersExactly(p, t);
        if c :| c in NamedAliases(p, t) && Unsteady(p, c) {
          var z :| Down(p, c, z) && HasWildName(p, z);
          var x := WildNameMeansWild(p, z);
          assert false;
        }
      }
    }
  }
}
