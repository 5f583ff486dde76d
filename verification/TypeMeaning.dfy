/** What subtyping (src/compiler/semantics/type_relations.cpp) says about values: lengths of strings, places
    of decimals, members of containers. */
module TypeMeaning {
  import opened Wrappers
  import opened TypeContext
  import opened TypeRelations
  import opened Decimals

  // ------------------------------------------------------------------ lengths and places

  predicate Within(n: int, a: int, b: int) {
    a <= n <= b
  }

  /** With the relaxation on, a bounded string type lies below another exactly when every length that it
      allows is allowed there. */
  lemma BoundedStringsByLength(a: int, b: int, c: int, d: int, o: Options)
    requires o.allowBoundedStringRelaxation && a <= b
    ensures Sub(TBoundedString(a, b), TBoundedString(c, d), o) <==> forall n :: Within(n, a, b) ==> Within(n, c, d)
  {
    assert Within(a, a, b) && Within(b, a, b);
  }

  /** With it off only equal bounds are related, and below the plain string no bounded one. */
  lemma StrictBoundedStrings(a: int, b: int, c: int, d: int, o: Options)
    ensures !o.allowBoundedStringRelaxation ==>
      (Sub(TBoundedString(a, b), TBoundedString(c, d), o) <==> a == c && b == d)
    ensures Sub(TBoundedString(a, b), TString, o) <==> o.allowBoundedStringRelaxation
    ensures !Sub(TString, TBoundedString(a, b), o)
  {
  }

  /** The number of u units of 10 to the minus j is one of whole units of 10 to the minus k. */
  ghost predicate HasPlaces(u: int, j: nat, k: nat) {
    exists w: int :: w * Pow10(j) == u * Pow10(k)
  }

  lemma {:induction false} Pow10Splits(j: nat, k: nat)
    requires j <= k
    ensures Pow10(k) == Pow10(k - j) * Pow10(j)
  {
    if j == k {
      assert Pow10(0) == 1;
    } else {
      Pow10Splits(j, k - 1);
      Tenfold(Pow10(j), Pow10(k - 1 - j));
    }
  }

  lemma UnitNeedsItsPlaces(j: nat, k: nat, w: int)
    requires w * Pow10(j) == 1 * Pow10(k)
    ensures j <= k
  {
    Pow10Grows(0, j);
    Pow10Grows(0, k);
    if k < j {
      Pow10Grows(k, j - 1);
      assert Pow10(j) == 10 * Pow10(j - 1);
      if w >= 1 { Scaled(1, w, Pow10(j)); } else { Scaled(w, 0, Pow10(j)); }
    }
  }

  /** With widening on, a decimal type lies below another exactly when every number of its places is one of the
      other's. */
  lemma DecimalsByPlaces(j: nat, k: nat, o: Options)
    requires o.allowNumericWidening
    ensures Sub(TDecimal(j), TDecimal(k), o) <==> forall u: int :: HasPlaces(u, j, k)
  {
    if j <= k {
      forall u: int
        ensures HasPlaces(u, j, k)
      {
        Pow10Splits(j, k);
        Regroup(u, Pow10(k - j), Pow10(j));
        assert (u * Pow10(k - j)) * Pow10(j) == u * Pow10(k);
      }
    }
    if forall u: int :: HasPlaces(u, j, k) {
      assert HasPlaces(1, j, k);
      var w: int :| w * Pow10(j) == 1 * Pow10(k);
      UnitNeedsItsPlaces(j, k, w);
    }
  }

  lemma Regroup(u: int, a: int, b: int)
    ensures (u * a) * b == u * (a * b)
  {
  }

  /** Integers widen to floats and to decimals, and nothing widens to integers or between floats and decimals. */
  lemma NumbersWiden(j: int, k: int, o: Options)
    ensures Sub(TInt, TFloat, o) <==> o.allowNumericWidening
    ensures Sub(TInt, TDecimal(k), o) <==> o.allowNumericWidening
    ensures !o.allowNumericWidening ==> (Sub(TDecimal(j), TDecimal(k), o) <==> j == k)
    ensures !Sub(TFloat, TInt, o) && !Sub(TDecimal(j), TInt, o)
    ensures !Sub(TFloat, TDecimal(k), o) && !Sub(TDecimal(j), TFloat, o)
  {
  }

  /** A nominal type is known by its symbol, and by its name only where a symbol is missing. */
  lemma NominalIdentity(n: string, x: Option<SymbolId>, m: string, y: Option<SymbolId>, v: string, w: string, o: Options)
    ensures var same := if x.Some? && y.Some? then x.value == y.value else n == m;
      && (Equiv(TStruct(n, x), TStruct(m, y)) <==> same)
      && (Equiv(TEnum(n, x), TEnum(m, y)) <==> same)
      && (Equiv(TEnumVariant(n, x, v), TEnumVariant(m, y, w)) <==> same && v == w)
      && (Sub(TEnumVariant(n, x, v), TEnum(m, y), o) <==> same)
      && (Sub(TStruct(n, x), TStruct(m, y), o) <==> same)
      && !Sub(TEnum(n, x), TEnumVariant(m, y, w), o)
  {
  }

  /** The error type is related to everything, so that one mistake is reported once. */
  lemma ErrorIsRelatedToAll(t: Ty, o: Options)
    ensures Sub(TError, t, o) && Sub(t, TError, o)
    ensures Sub(t, TNever, o) <==> t.TNever? || t.TError?
    ensures Sub(TAny, t, o) <==> t.TAny? || t.TError?
  {
  }

  // ----------------------------------------------------------------------------- values

  /** A map keeps the type of its keys. */
  datatype Datum =
    | UnitDatum | BoolDatum(b: bool) | IntDatum(i: int) | FloatDatum(x: real) | DecimalDatum(units: int, places: nat)
    | TextDatum(text: string) | UUIDDatum(uuid: nat) | TimestampDatum(at: int) | DurationDatum(milliseconds: int)
    | StructDatum(name: string) | EnumDatum(name: string, variant: string)
    | NoneDatum | SomeDatum(inner: Datum) | ListDatum(items: seq<Datum>) | SetDatum(items: seq<Datum>)
    | MapDatum(keyType: Ty, values: seq<Datum>)

  /** With widening an integer is also a float and a decimal, and a decimal one of more places. */
  ghost predicate Is(d: Datum, t: Ty, o: Options)
    decreases t, 0
  {
    match t
    case TAny => true
    case TUnit => d.UnitDatum?
    case TBool => d.BoolDatum?
    case TInt => d.IntDatum?
    case TFloat => d.FloatDatum? || (o.allowNumericWidening && d.IntDatum?)
    case TDecimal(k) =>
      || (d.DecimalDatum? && if o.allowNumericWidening then d.places <= k else d.places == k)
      || (o.allowNumericWidening && d.IntDatum?)
    case TString => d.TextDatum?
    case TBoundedString(a, b) => d.TextDatum? && a <= |d.text| <= b
    case TUUID => d.UUIDDatum?
    case TTimestamp => d.TimestampDatum?
    case TDuration => d.DurationDatum?
    case TStruct(n, _) => d == StructDatum(n)
    case TEnum(n, _) => d.EnumDatum? && d.name == n
    case TEnumVariant(n, _, v) => d == EnumDatum(n, v)
    case TOptional(a) => d.NoneDatum? || (d.SomeDatum? && Is(d.inner, a, o))
    case TList(a) => d.ListDatum? && AllAre(d.items, a, o)
    case TSet(a) => d.SetDatum? && AllAre(d.items, a, o)
    case TMap(k, v) => d.MapDatum? && Named(d.keyType) == Named(k) && AllAre(d.values, v, o)
    case _ => false
  }

  ghost predicate AllAre(items: seq<Datum>, t: Ty, o: Options)
    decreases t, 1
  {
    forall i :: 0 <= i < |items| ==> Is(items[i], t, o)
  }

  /** Without errors, and with lengths and places that there are. */
  ghost predicate Proper(t: Ty) {
    match t
    case TNull => false
    case TError => false
    case TBoundedString(a, b) => 0 <= a <= b
    case TDecimal(k) => k >= 0
    case TOptional(a) => Proper(a)
    case TList(a) => Proper(a)
    case TSet(a) => Proper(a)
    case TMap(_, v) => Proper(v)
    case _ => true
  }

  lemma {:induction false} IsByName(d: Datum, s: Ty, t: Ty, o: Options)
    requires Named(s) == Named(t) && Is(d, s, o)
    ensures Is(d, t, o)
    decreases s, 0
  {
    hide AllAre;
    match s
    case TOptional(a) => if d.SomeDatum? { IsByName(d.inner, a, t.inner, o); }
    case TList(a) => AllByName(d.items, a, t.element, o);
    case TSet(a) => AllByName(d.items, a, t.element, o);
    case TMap(_, v) => AllByName(d.values, v, t.value, o);
    case _ =>
  }

  lemma {:induction false} AllByName(items: seq<Datum>, s: Ty, t: Ty, o: Options)
    requires Named(s) == Named(t) && AllAre(items, s, o)
    ensures AllAre(items, t, o)
    decreases s, 1
  {
    hide Named, Is;
    forall i | 0 <= i < |items|
      ensures Is(items[i], t, o)
    {
      IsByName(items[i], s, t, o);
    }
  }

  // -------------------------------------------------- from the relation to the values

  /** What the two types have in common with their parts. */
  ghost predicate Comparable(s: Ty, t: Ty, o: Options, names: map<SymbolId, string>) {
    OneToOne(names) && Agrees(s, names) && Agrees(t, names) && Proper(s) && Proper(t) && o.allowBoundedStringRelaxation
  }

  ghost predicate SameContainer(s: Ty, t: Ty) {
    (s.TOptional? && t.TOptional?) || (s.TList? && t.TList?) || (s.TSet? && t.TSet?) || (s.TMap? && t.TMap?)
  }

  /** A value of a type is a value of its supertypes. */
  lemma {:induction false} SubsumedValue(d: Datum, s: Ty, t: Ty, o: Options, names: map<SymbolId, string>)
    requires Comparable(s, t, o, names) && Sub(s, t, o) && Is(d, s, o)
    ensures Is(d, t, o)
    decreases s, 0
  {
    hide Equiv, Named, Sub, AllAre, OneToOne;
    EquivIsEqualityByName(s, t, names);
    SubOfContainers(s, t, o);
    if Equiv(s, t) {
      IsByName(d, s, t, o);
    } else if s.TOptional? && t.TOptional? {
      if d.SomeDatum? { SubsumedValue(d.inner, s.inner, t.inner, o, names); }
    } else if s.TList? && t.TList? {
      SubsumedValues(d.items, s.element, t.element, o, names);
    } else if s.TSet? && t.TSet? {
      SubsumedValues(d.items, s.element, t.element, o, names);
    } else if s.TMap? && t.TMap? {
      EquivIsEqualityByName(s.key, t.key, names);
      SubsumedValues(d.values, s.value, t.value, o, names);
    } else {
      VariantOfItsEnum(s, t, o, names);
      SubsumedScalar(d, s, t, o);
    }
  }

  lemma {:induction false} SubsumedValues(items: seq<Datum>, s: Ty, t: Ty, o: Options, names: map<SymbolId, string>)
    requires Comparable(s, t, o, names) && Sub(s, t, o) && AllAre(items, s, o)
    ensures AllAre(items, t, o)
    decreases s, 1
  {
    hide Comparable, Sub, Is;
    forall i | 0 <= i < |items|
      ensures Is(items[i], t, o)
    {
      SubsumedValue(items[i], s, t, o, names);
    }
  }

  lemma VariantOfItsEnum(s: Ty, t: Ty, o: Options, names: map<SymbolId, string>)
    requires Comparable(s, t, o, names)
    ensures s.TEnumVariant? && t.TEnum? ==> (Sub(s, t, o) <==> s.name == t.name)
  {
  }

  lemma SubsumedScalar(d: Datum, s: Ty, t: Ty, o: Options)
    requires !SameContainer(s, t) && !Equiv(s, t) && Sub(s, t, o) && Is(d, s, o) && Proper(s) && Proper(t)
    requires s.TEnumVariant? && t.TEnum? ==> s.name == t.name
    ensures Is(d, t, o)
  {
    hide Equiv, AllAre, Named;
  }

  // -------------------------------------------------- from the values to the relation

  ghost function Text(n: nat): string {
    seq(n, _ => 'a')
  }

  /** A value of s that t does not have. */
  lemma {:induction false} Stranger(s: Ty, t: Ty, o: Options, names: map<SymbolId, string>) returns (d: Datum)
    requires Comparable(s, t, o, names) && !Sub(s, t, o)
    ensures Is(d, s, o) && !Is(d, t, o)
    decreases s
  {
    hide Equiv, Named, Sub, AllAre, OneToOne;
    EquivIsEqualityByName(s, t, names);
    SubOfContainers(s, t, o);
    if s.TOptional? && t.TOptional? {
      var x := Stranger(s.inner, t.inner, o, names);
      d := SomeDatum(x);
    } else if s.TList? && t.TList? {
      var x := Stranger(s.element, t.element, o, names);
      JustOne(x, s.element, t.element, o);
      d := ListDatum([x]);
    } else if s.TSet? && t.TSet? {
      var x := Stranger(s.element, t.element, o, names);
      JustOne(x, s.element, t.element, o);
      d := SetDatum([x]);
    } else if s.TMap? && t.TMap? {
      EquivIsEqualityByName(s.key, t.key, names);
      NoneAtAll(s.value, o);
      if Equiv(s.key, t.key) {
        var x := Stranger(s.value, t.value, o, names);
        JustOne(x, s.value, t.value, o);
        d := MapDatum(s.key, [x]);
      } else {
        d := MapDatum(s.key, []);
      }
    } else {
      VariantOfItsEnum(s, t, o, names);
      NamesDiffer(s, t);
      NeverIsBelowAll(t, o);
      SampleIs(s, t, o);
      SampleIsNot(s, t, o);
      d := Sample(s, t);
    }
  }

  lemma JustOne(d: Datum, s: Ty, t: Ty, o: Options)
    requires Is(d, s, o) && !Is(d, t, o)
    ensures AllAre([d], s, o) && !AllAre([d], t, o)
  {
    assert [d][0] == d;
  }

  lemma NoneAtAll(t: Ty, o: Options)
    ensures AllAre([], t, o)
  {
  }

  lemma NamesDiffer(s: Ty, t: Ty)
    requires Named(s) != Named(t)
    ensures s.TStruct? && t.TStruct? ==> s.name != t.name
    ensures s.TEnum? && t.TEnum? ==> s.name != t.name
    ensures s.TEnumVariant? && t.TEnumVariant? ==> s.name != t.name || s.variantName != t.variantName
  {
  }

  ghost function OtherVariant(v: string): (w: string)
    ensures w != v
  {
    assert |v + "'"| == |v| + 1;
    v + "'"
  }

  /** A value of a type without parts, chosen against t. */
  ghost function Sample(s: Ty, t: Ty): Datum {
    match s
    case TAny => if t.TUnit? then BoolDatum(true) else UnitDatum
    case TUnit => UnitDatum
    case TBool => BoolDatum(true)
    case TInt => IntDatum(0)
    case TFloat => FloatDatum(0.0)
    case TDecimal(k) => DecimalDatum(0, if k < 0 then 0 else k)
    case TString => TextDatum(Text(if t.TBoundedString? && t.maximum >= 0 then t.maximum + 1 else 0))
    case TBoundedString(a, b) =>
      var n := if t.TBoundedString? && t.minimum <= a <= t.maximum then b else a;
      TextDatum(Text(if n < 0 then 0 else n))
    case TUUID => UUIDDatum(0)
    case TTimestamp => TimestampDatum(0)
    case TDuration => DurationDatum(0)
    case TStruct(n, _) => StructDatum(n)
    case TEnum(n, _) => EnumDatum(n, if t.TEnumVariant? then OtherVariant(t.variantName) else "")
    case TEnumVariant(n, _, v) => EnumDatum(n, v)
    case TOptional(_) => NoneDatum
    case TList(_) => ListDatum([])
    case TSet(_) => SetDatum([])
    case TMap(k, _) => MapDatum(k, [])
    case _ => NoneDatum
  }

  lemma NeverIsBelowAll(t: Ty, o: Options)
    ensures Sub(TNever, t, o) && Sub(t, TAny, o)
  {
  }

  lemma SampleIs(s: Ty, t: Ty, o: Options)
    requires Proper(s) && !s.TNever? && Proper(t)
    ensures Is(Sample(s, t), s, o)
  {
    hide OtherVariant, Named;
  }

  lemma SampleIsNot(s: Ty, t: Ty, o: Options)
    requires !SameContainer(s, t) && !Equiv(s, t) && !Sub(s, t, o) && Proper(s) && Proper(t)
    requires o.allowBoundedStringRelaxation
    requires s.TEnumVariant? && t.TEnum? ==> s.name != t.name
    requires s.TStruct? && t.TStruct? ==> s.name != t.name
    requires s.TEnum? && t.TEnum? ==> s.name != t.name
    requires s.TEnumVariant? && t.TEnumVariant? ==> s.name != t.name || s.variantName != t.variantName
    ensures !Is(Sample(s, t), t, o)
  {
    EquivReflexive(t);
    hide AllAre, Named, Equiv;
  }

  /** Main result: between types without errors subtyping is inclusion of values, and nothing else. */
  lemma SubtypesAreInclusions(s: Ty, t: Ty, o: Options, names: map<SymbolId, string>)
    requires OneToOne(names) && Agrees(s, names) && Agrees(t, names) && Proper(s) && Proper(t)
    requires o.allowBoundedStringRelaxation
    ensures Sub(s, t, o) <==> forall d :: Is(d, s, o) ==> Is(d, t, o)
  {
    hide Is, Sub, Agrees, OneToOne, Proper;
    if Sub(s, t, o) {
      forall d | Is(d, s, o)
        ensures Is(d, t, o)
      {
        SubsumedValue(d, s, t, o, names);
      }
    } else {
      var d := Stranger(s, t, o, names);
    }
  }
}
