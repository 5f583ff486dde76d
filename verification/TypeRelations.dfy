/** Equivalence and subtyping, and the memoized solver that decides them
    (src/compiler/semantics/type_relations.cpp). */
module TypeRelations {
  import opened Wrappers
  import opened TypeContext

  datatype Options = Options(allowBoundedStringRelaxation: bool, allowNumericWidening: bool)

  datatype RelationKind = Equivalent | Subtype | Assignable | ExactSchema

  // ------------------------------------------------- the plain structural relations

  predicate NominalNameMatches(ls: Option<SymbolId>, ln: string, rs: Option<SymbolId>, rn: string) {
    if ls.Some? && rs.Some? then ls.value == rs.value else ln == rn
  }

  ghost predicate Equiv(l: Ty, r: Ty) {
    if l.TStruct? && r.TStruct? then NominalNameMatches(l.symbol, l.name, r.symbol, r.name)
    else if l.TEnum? && r.TEnum? then NominalNameMatches(l.symbol, l.name, r.symbol, r.name)
    else if l.TEnumVariant? && r.TEnumVariant? then
      l.variantName == r.variantName && NominalNameMatches(l.symbol, l.name, r.symbol, r.name)
    else if l.TOptional? && r.TOptional? then Equiv(l.inner, r.inner)
    else if l.TList? && r.TList? then Equiv(l.element, r.element)
    else if l.TSet? && r.TSet? then Equiv(l.element, r.element)
    else if l.TMap? && r.TMap? then Equiv(l.key, r.key) && Equiv(l.value, r.value)
    else l == r
  }

  ghost predicate Sub(s: Ty, t: Ty, o: Options) {
    if s.TError? || t.TError? || t.TAny? || s.TNever? || Equiv(s, t) then true
    else if s.TEnumVariant? && t.TEnum? then NominalNameMatches(s.symbol, s.name, t.symbol, t.name)
    else if s.TOptional? && t.TOptional? then Sub(s.inner, t.inner, o)
    else if s.TList? && t.TList? then Sub(s.element, t.element, o)
    else if s.TSet? && t.TSet? then Sub(s.element, t.element, o)
    else if s.TMap? && t.TMap? then Equiv(s.key, t.key) && Sub(s.value, t.value, o)
    else SubScalar(s, t, o)
  }

  /** The relaxations between types without children. */
  ghost predicate SubScalar(s: Ty, t: Ty, o: Options) {
    || (o.allowBoundedStringRelaxation && s.TBoundedString?
        && (t.TString? || (t.TBoundedString? && s.minimum >= t.minimum && s.maximum <= t.maximum)))
    || (o.allowNumericWidening && s.TInt? && (t.TFloat? || t.TDecimal?))
    || (o.allowNumericWidening && s.TDecimal? && t.TDecimal? && t.scale >= s.scale)
  }

  ghost predicate Related(kind: RelationKind, s: Ty, t: Ty, o: Options) {
    if kind.Equivalent? || kind.ExactSchema? then Equiv(s, t) else Sub(s, t, o)
  }

  lemma {:induction false} EquivReflexive(t: Ty)
    ensures Equiv(t, t)
  {
    if t.TOptional? {
      EquivReflexive(t.inner);
    } else if t.TList? || t.TSet? {
      EquivReflexive(t.element);
    } else if t.TMap? {
      EquivReflexive(t.key);
      EquivReflexive(t.value);
    }
  }

  // ------------------------------------------------------ the relations as an order

  /** The names of the nominal types inside t agree with a table from symbols to names. */
  ghost predicate Agrees(t: Ty, names: map<SymbolId, string>) {
    match t
    case TStruct(n, s) => NameAgrees(n, s, names)
    case TEnum(n, s) => NameAgrees(n, s, names)
    case TEnumVariant(n, s, _) => NameAgrees(n, s, names)
    case TOptional(a) => Agrees(a, names)
    case TList(a) => Agrees(a, names)
    case TSet(a) => Agrees(a, names)
    case TMap(k, v) => Agrees(k, names) && Agrees(v, names)
    case _ => true
  }

  ghost predicate NameAgrees(n: string, s: Option<SymbolId>, names: map<SymbolId, string>) {
    s.Some? ==> s.value in names && names[s.value] == n
  }

  ghost predicate OneToOne(names: map<SymbolId, string>) {
    forall a, b :: a in names && b in names && names[a] == names[b] ==> a == b
  }

  ghost predicate ErrorFree(t: Ty) {
    match t
    case TError => false
    case TOptional(a) => ErrorFree(a)
    case TList(a) => ErrorFree(a)
    case TSet(a) => ErrorFree(a)
    case TMap(k, v) => ErrorFree(k) && ErrorFree(v)
    case _ => true
  }

  /** The type with its symbols forgotten. */
  ghost function Named(t: Ty): Ty {
    match t
    case TStruct(n, _) => TStruct(n, None)
    case TEnum(n, _) => TEnum(n, None)
    case TEnumVariant(n, _, v) => TEnumVariant(n, None, v)
    case TOptional(a) => TOptional(Named(a))
    case TList(a) => TList(Named(a))
    case TSet(a) => TSet(Named(a))
    case TMap(k, v) => TMap(Named(k), Named(v))
    case _ => t
  }

  /** Main result: with symbols and names in agreement, equivalence is equality up to symbols,
      hence an equivalence relation. */
  lemma {:induction false} EquivIsEqualityByName(l: Ty, r: Ty, names: map<SymbolId, string>)
    requires OneToOne(names) && Agrees(l, names) && Agrees(r, names)
    ensures Equiv(l, r) <==> Named(l) == Named(r)
  {
    if l.TOptional? && r.TOptional? {
      EquivIsEqualityByName(l.inner, r.inner, names);
    } else if (l.TList? && r.TList?) || (l.TSet? && r.TSet?) {
      EquivIsEqualityByName(l.element, r.element, names);
    } else if l.TMap? && r.TMap? {
      EquivIsEqualityByName(l.key, r.key, names);
      EquivIsEqualityByName(l.value, r.value, names);
    }
  }

  lemma {:induction false} NamedIsNamed(t: Ty, names: map<SymbolId, string>)
    ensures Named(Named(t)) == Named(t) && Agrees(Named(t), names)
  {
    match t
    case TOptional(a) => NamedIsNamed(a, names);
    case TList(a) => NamedIsNamed(a, names);
    case TSet(a) => NamedIsNamed(a, names);
    case TMap(k, v) => NamedIsNamed(k, names); NamedIsNamed(v, names);
    case _ =>
  }

  lemma EquivIsByName(s: Ty, t: Ty, names: map<SymbolId, string>)
    requires OneToOne(names) && Agrees(s, names) && Agrees(t, names)
    ensures Equiv(s, t) <==> Equiv(Named(s), Named(t))
  {
    hide Equiv, Named, Agrees;
    NamedIsNamed(s, names);
    NamedIsNamed(t, names);
    EquivIsEqualityByName(s, t, names);
    EquivIsEqualityByName(Named(s), Named(t), names);
  }

  /** Subtyping sees no more of the nominal types than their names. */
  lemma {:induction false} SubIsByName(s: Ty, t: Ty, o: Options, names: map<SymbolId, string>)
    requires OneToOne(names) && Agrees(s, names) && Agrees(t, names)
    ensures Sub(s, t, o) <==> Sub(Named(s), Named(t), o)
  {
    hide Equiv;
    EquivIsByName(s, t, names);
    if s.TOptional? && t.TOptional? {
      SubIsByName(s.inner, t.inner, o, names);
    } else if (s.TList? && t.TList?) || (s.TSet? && t.TSet?) {
      SubIsByName(s.element, t.element, o, names);
    } else if s.TMap? && t.TMap? {
      EquivIsByName(s.key, t.key, names);
      SubIsByName(s.value, t.value, o, names);
    }
  }

  /** Equivalent types have the same sub- and supertypes. */
  lemma SubRespectsEquiv(s: Ty, t: Ty, s': Ty, t': Ty, o: Options, names: map<SymbolId, string>)
    requires OneToOne(names) && Agrees(s, names) && Agrees(t, names) && Agrees(s', names) && Agrees(t', names)
    requires Named(s) == Named(s') && Named(t) == Named(t') && Sub(s, t, o)
    ensures Sub(s', t', o)
  {
    hide Sub, Named, Agrees;
    SubIsByName(s, t, o, names);
    SubIsByName(s', t', o, names);
  }

  lemma SubOrEquiv(s: Ty, t: Ty, o: Options)
    ensures Equiv(s, t) ==> Sub(s, t, o)
  {
  }

  lemma SubReflexive(t: Ty, o: Options)
    ensures Sub(t, t, o)
  {
    EquivReflexive(t);
  }

  /** The error type stands in no place where subtyping looks: it may only be inside map keys, which
      are compared for equivalence. */
  ghost predicate NoErrorInTheWay(t: Ty) {
    match t
    case TError => false
    case TOptional(a) => NoErrorInTheWay(a)
    case TList(a) => NoErrorInTheWay(a)
    case TSet(a) => NoErrorInTheWay(a)
    case TMap(_, v) => NoErrorInTheWay(v)
    case _ => true
  }

  lemma {:induction false} ErrorFreeIsOutOfTheWay(t: Ty)
    requires ErrorFree(t)
    ensures NoErrorInTheWay(t)
  {
    match t
    case TOptional(a) => ErrorFreeIsOutOfTheWay(a);
    case TList(a) => ErrorFreeIsOutOfTheWay(a);
    case TSet(a) => ErrorFreeIsOutOfTheWay(a);
    case TMap(_, v) => ErrorFreeIsOutOfTheWay(v);
    case _ =>
  }

  lemma EquivTransitive(a: Ty, b: Ty, c: Ty, names: map<SymbolId, string>)
    requires OneToOne(names) && Agrees(a, names) && Agrees(b, names) && Agrees(c, names)
    requires Equiv(a, b) && Equiv(b, c)
    ensures Equiv(a, c)
  {
    EquivIsEqualityByName(a, b, names);
    EquivIsEqualityByName(b, c, names);
    EquivIsEqualityByName(a, c, names);
  }

  lemma SubOfContainers(s: Ty, t: Ty, o: Options)
    ensures s.TOptional? && t.TOptional? && !Equiv(s, t) ==> (Sub(s, t, o) <==> Sub(s.inner, t.inner, o))
    ensures s.TList? && t.TList? && !Equiv(s, t) ==> (Sub(s, t, o) <==> Sub(s.element, t.element, o))
    ensures s.TSet? && t.TSet? && !Equiv(s, t) ==> (Sub(s, t, o) <==> Sub(s.element, t.element, o))
    ensures s.TMap? && t.TMap? && !Equiv(s, t) ==>
      (Sub(s, t, o) <==> Equiv(s.key, t.key) && Sub(s.value, t.value, o))
    ensures Equiv(s, t) ==> Sub(s, t, o)
  {
    hide Equiv;
  }

  /** Main result: subtyping is transitive under every option setting, whatever the outer types are. */
  lemma {:induction false} SubTransitive(a: Ty, b: Ty, c: Ty, o: Options, names: map<SymbolId, string>)
    requires OneToOne(names) && Agrees(a, names) && Agrees(b, names) && Agrees(c, names)
    requires NoErrorInTheWay(b)
    requires Sub(a, b, o) && Sub(b, c, o)
    ensures Sub(a, c, o)
  {
    hide Equiv, Named, Sub;
    SubOfContainers(a, b, o);
    SubOfContainers(b, c, o);
    SubOfContainers(a, c, o);
    if Equiv(a, b) {
      EquivIsEqualityByName(a, b, names);
      SubRespectsEquiv(b, c, a, c, o, names);
    } else if Equiv(b, c) {
      EquivIsEqualityByName(b, c, names);
      SubRespectsEquiv(a, b, a, c, o, names);
    } else if a.TOptional? && b.TOptional? && c.TOptional? {
      SubTransitive(a.inner, b.inner, c.inner, o, names);
    } else if (a.TList? && b.TList? && c.TList?) || (a.TSet? && b.TSet? && c.TSet?) {
      SubTransitive(a.element, b.element, c.element, o, names);
    } else if a.TMap? && b.TMap? && c.TMap? {
      EquivTransitive(a.key, b.key, c.key, names);
      SubTransitive(a.value, b.value, c.value, o, names);
    } else {
      SubTransitiveFlat(a, b, c, o);
    }
  }

  lemma SubTransitiveFlat(a: Ty, b: Ty, c: Ty, o: Options)
    requires !(a.TOptional? && b.TOptional? && c.TOptional?) && !(a.TList? && b.TList? && c.TList?)
    requires !(a.TSet? && b.TSet? && c.TSet?) && !(a.TMap? && b.TMap? && c.TMap?)
    requires !b.TError? && !Equiv(a, b) && !Equiv(b, c) && Sub(a, b, o) && Sub(b, c, o)
    ensures Sub(a, c, o)
  {
    hide Equiv;
  }

  /** Around an error that is in the way there are two types which it relates and which are not
      related themselves. */
  lemma {:induction false} ErrorRelatesStrangers(b: Ty, o: Options, names: map<SymbolId, string>) returns (a: Ty, c: Ty)
    requires Agrees(b, names) && !NoErrorInTheWay(b)
    ensures Agrees(a, names) && Agrees(c, names)
    ensures Sub(a, b, o) && Sub(b, c, o) && !Sub(a, c, o)
  {
    match b
    case TError => a, c := TString, TBool;
    case TOptional(inner) =>
      var x, y := ErrorRelatesStrangers(inner, o, names);
      SubOrEquiv(x, y, o);
      a, c := TOptional(x), TOptional(y);
    case TList(element) =>
      var x, y := ErrorRelatesStrangers(element, o, names);
      SubOrEquiv(x, y, o);
      a, c := TList(x), TList(y);
    case TSet(element) =>
      var x, y := ErrorRelatesStrangers(element, o, names);
      SubOrEquiv(x, y, o);
      a, c := TSet(x), TSet(y);
    case TMap(key, value) =>
      var x, y := ErrorRelatesStrangers(value, o, names);
      SubOrEquiv(x, y, o);
      EquivReflexive(key);
      a, c := TMap(key, x), TMap(key, y);
  }

  ghost predicate TransitiveThrough(b: Ty, o: Options, names: map<SymbolId, string>) {
    forall a, c :: Agrees(a, names) && Agrees(c, names) && Sub(a, b, o) && Sub(b, c, o) ==> Sub(a, c, o)
  }

  /** Main result: exactly which types subtyping is transitive through. */
  lemma TransitiveExactlyWithoutError(b: Ty, o: Options, names: map<SymbolId, string>)
    requires OneToOne(names) && Agrees(b, names)
    ensures TransitiveThrough(b, o, names) <==> NoErrorInTheWay(b)
  {
    if NoErrorInTheWay(b) {
      forall a, c | Agrees(a, names) && Agrees(c, names) && Sub(a, b, o) && Sub(b, c, o)
        ensures Sub(a, c, o)
      {
        SubTransitive(a, b, c, o, names);
      }
    } else {
      var a, c := ErrorRelatesStrangers(b, o, names);
    }
  }

  ghost predicate TransitiveWithoutErrors(o: Options, names: map<SymbolId, string>) {
    forall b :: Agrees(b, names) && ErrorFree(b) ==> TransitiveThrough(b, o, names)
  }

  /** Main result: and exactly which tables of names allow it, namely those without two symbols of one
      name, since a type without a symbol goes by its name. */
  lemma TransitiveExactlyWhenOneToOne(o: Options, names: map<SymbolId, string>)
    ensures TransitiveWithoutErrors(o, names) <==> OneToOne(names)
  {
    if OneToOne(names) {
      forall b | Agrees(b, names) && ErrorFree(b)
        ensures TransitiveThrough(b, o, names)
      {
        ErrorFreeIsOutOfTheWay(b);
        TransitiveExactlyWithoutError(b, o, names);
      }
    } else {
      var x, y :| x in names && y in names && names[x] == names[y] && x != y;
      var a, b, c := TStruct(names[x], Some(x)), TStruct(names[x], None), TStruct(names[x], Some(y));
      assert Sub(a, b, o) && Sub(b, c, o) && !Sub(a, c, o);
      assert !TransitiveThrough(b, o, names);
    }
  }

  /** Main result: types that are subtypes of each other are equivalent. */
  lemma {:induction false} SubAntisymmetric(a: Ty, b: Ty, o: Options)
    requires NoErrorInTheWay(a) && NoErrorInTheWay(b)
    requires Sub(a, b, o) && Sub(b, a, o)
    ensures Equiv(a, b)
  {
    EquivSymmetric(a, b);
    if a.TOptional? && b.TOptional? {
      SubOrEquiv(b.inner, a.inner, o);
      SubOrEquiv(a.inner, b.inner, o);
      SubAntisymmetric(a.inner, b.inner, o);
    } else if (a.TList? && b.TList?) || (a.TSet? && b.TSet?) {
      SubOrEquiv(b.element, a.element, o);
      SubOrEquiv(a.element, b.element, o);
      SubAntisymmetric(a.element, b.element, o);
    } else if a.TMap? && b.TMap? {
      SubOrEquiv(b.value, a.value, o);
      SubOrEquiv(a.value, b.value, o);
      SubAntisymmetric(a.value, b.value, o);
    }
  }

  lemma {:induction false} EquivSymmetric(l: Ty, r: Ty)
    ensures Equiv(l, r) <==> Equiv(r, l)
  {
    if l.TOptional? && r.TOptional? {
      EquivSymmetric(l.inner, r.inner);
    } else if (l.TList? && r.TList?) || (l.TSet? && r.TSet?) {
      EquivSymmetric(l.element, r.element);
    } else if l.TMap? && r.TMap? {
      EquivSymmetric(l.key, r.key);
      EquivSymmetric(l.value, r.value);
    }
  }
}
