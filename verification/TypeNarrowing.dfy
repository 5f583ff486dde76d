/** The type that the facts about a place leave (src/compiler/semantics/expression_sema.cpp). */
module TypeNarrowing {
  import opened Wrappers
  import opened Sequences
  import opened TypeContext
  import opened TypeRelations
  import opened FlowFacts
  import opened ConditionFacts

  /** The variants of every declared enum, by full name. */
  type EnumInfo = map<string, seq<string>>

  predicate Concerns(f: TypeFact, enumName: string, kind: FactKind) {
    f.kind == kind && NameMatches(enumName, f.enumName)
  }

  /** The variant of the last positive fact about the enum. */
  function PositiveVariant(facts: seq<TypeFact>, enumName: string): Option<string> {
    if facts == [] then None
    else
      var f := facts[|facts| - 1];
      if Concerns(f, enumName, IsVariant) then Some(f.variantName)
      else PositiveVariant(facts[..|facts| - 1], enumName)
  }

  function ExcludedVariants(facts: seq<TypeFact>, enumName: string): seq<string> {
    if facts == [] then []
    else
      var f := facts[|facts| - 1];
      ExcludedVariants(facts[..|facts| - 1], enumName)
      + if Concerns(f, enumName, IsNotVariant) then [f.variantName] else []
  }

  function VariantsLeft(variants: seq<string>, excluded: seq<string>): seq<string> {
    if variants == [] then []
    else
      VariantsLeft(variants[..|variants| - 1], excluded)
      + if variants[|variants| - 1] in excluded then [] else [variants[|variants| - 1]]
  }

  predicate HasKind(facts: seq<TypeFact>, kind: FactKind) {
    exists f :: f in facts && f.kind == kind
  }

  function WithoutNone(t: Ty, facts: seq<TypeFact>): Ty {
    if HasKind(facts, IsNotNone) && t.TOptional? && !t.inner.TNull? then t.inner else t
  }

  /** `facts` are the facts about the place whose declared type is `t`. */
  function Narrowed(t: Ty, facts: seq<TypeFact>, enums: EnumInfo): Ty {
    var u := WithoutNone(t, facts);
    if u.TEnum? then NarrowedEnum(u, facts, enums) else u
  }

  function NarrowedEnum(u: Ty, facts: seq<TypeFact>, enums: EnumInfo): Ty
    requires u.TEnum?
  {
    var positive := PositiveVariant(facts, u.name);
    var excluded := ExcludedVariants(facts, u.name);
    if positive.Some? && (u.name !in enums || positive.value in enums[u.name]) then
      TEnumVariant(u.name, u.symbol, positive.value)
    else if u.name !in enums || excluded == [] then u
    else
      var left := VariantsLeft(enums[u.name], excluded);
      if |left| == 1 then TEnumVariant(u.name, u.symbol, left[0]) else u
  }

  function FactsAt(buckets: map<Place, seq<TypeFact>>, place: Place): seq<TypeFact> {
    if place in buckets then buckets[place] else []
  }

  method ApplyNarrowing(t: Ty, place: Place, facts: FlowFacts, enums: EnumInfo) returns (r: Ty)
    requires facts.Valid()
    ensures r == Narrowed(t, FactsAt(facts.factsByPlace, place), enums)
  {
    hide PositiveVariant, ExcludedVariants, VariantsLeft;
    r := t;
    var notNone := facts.HasFact(place, IsNotNone);
    assert notNone <==> HasKind(FactsAt(facts.factsByPlace, place), IsNotNone);
    if notNone && t.TOptional? && !t.inner.TNull? {
      r := t.inner;
    }
    if !r.TEnum? {
      return;
    }
    var positive, excluded := VariantFacts(place, r.name, facts);
    if positive.Some? && (r.name !in enums || positive.value in enums[r.name]) {
      return TEnumVariant(r.name, r.symbol, positive.value);
    }
    if r.name !in enums || excluded == [] {
      return;
    }
    var remaining := OnlyVariantLeft(enums[r.name], excluded);
    if remaining.Some? {
      return TEnumVariant(r.name, r.symbol, remaining.value);
    }
  }

  method OnlyVariantLeft(variants: seq<string>, excluded: seq<string>) returns (remaining: Option<string>)
    ensures var left := VariantsLeft(variants, excluded);
      remaining == if |left| == 1 then Some(left[0]) else None
  {
    remaining := None;
    for i := 0 to |variants|
      invariant VariantsLeft(variants[..i], excluded) == if remaining.Some? then [remaining.value] else []
    {
      assert variants[..i + 1][..i] == variants[..i];
      if variants[i] in excluded {
        continue;
      }
      if remaining.Some? {
        LeftGrows(variants, i + 1, excluded);
        return None;
      }
      remaining := Some(variants[i]);
    }
    assert variants[..|variants|] == variants;
  }

  /** Visits all facts, in whatever order the hash map yields the places. */
  method VariantFacts(place: Place, enumName: string, facts: FlowFacts)
      returns (positive: Option<string>, excluded: seq<string>)
    requires facts.Valid()
    ensures positive == PositiveVariant(FactsAt(facts.factsByPlace, place), enumName)
    ensures excluded == ExcludedVariants(FactsAt(facts.factsByPlace, place), enumName)
  {
    positive, excluded := None, [];
    var rest := facts.factsByPlace.Keys;
    while rest != {}
      invariant rest <= facts.factsByPlace.Keys
      invariant place in rest ==> positive == None && excluded == []
      invariant place !in rest ==> positive == PositiveVariant(FactsAt(facts.factsByPlace, place), enumName)
      invariant place !in rest ==> excluded == ExcludedVariants(FactsAt(facts.factsByPlace, place), enumName)
      decreases rest
    {
      var p :| p in rest;
      rest := rest - {p};
      var bucket := facts.factsByPlace[p];
      var positive0, excluded0 := positive, excluded;
      for i := 0 to |bucket|
        invariant p != place ==> positive == positive0 && excluded == excluded0
        invariant p == place ==> positive == PositiveVariant(bucket[..i], enumName)
        invariant p == place ==> excluded == ExcludedVariants(bucket[..i], enumName)
      {
        assert bucket[..i + 1][..i] == bucket[..i];
        var f := bucket[i];
        if f.place == place && NameMatches(enumName, f.enumName) {
          if f.kind == IsVariant {
            positive := Some(f.variantName);
          } else if f.kind == IsNotVariant {
            excluded := excluded + [f.variantName];
          }
        }
      }
      assert bucket[..|bucket|] == bucket;
    }
  }

  lemma {:induction false} LeftGrows(variants: seq<string>, i: nat, excluded: seq<string>)
    requires i <= |variants|
    ensures |VariantsLeft(variants[..i], excluded)| <= |VariantsLeft(variants, excluded)|
    decreases |variants|
  {
    if i < |variants| {
      var shorter := variants[..|variants| - 1];
      assert shorter[..i] == variants[..i];
      LeftGrows(shorter, i, excluded);
    } else {
      assert variants[..i] == variants;
    }
  }

  // ---------------------------------------------------------------- what they mean

  lemma {:induction false} PositiveIsAFact(facts: seq<TypeFact>, enumName: string)
    ensures PositiveVariant(facts, enumName).Some? <==> exists f :: f in facts && Concerns(f, enumName, IsVariant)
    ensures PositiveVariant(facts, enumName).Some? ==>
      exists f :: f in facts && Concerns(f, enumName, IsVariant) && f.variantName == PositiveVariant(facts, enumName).value
  {
    if facts != [] {
      var n := |facts| - 1;
      PositiveIsAFact(facts[..n], enumName);
      assert facts == facts[..n] + [facts[n]];
    }
  }

  lemma {:induction false} ExcludedAreFacts(facts: seq<TypeFact>, enumName: string, variant: string)
    ensures variant in ExcludedVariants(facts, enumName) <==>
      exists f :: f in facts && Concerns(f, enumName, IsNotVariant) && f.variantName == variant
  {
    if facts != [] {
      var n := |facts| - 1;
      ExcludedAreFacts(facts[..n], enumName, variant);
      assert facts == facts[..n] + [facts[n]];
    }
  }

  lemma {:induction false} LeftAreNotExcluded(variants: seq<string>, excluded: seq<string>)
    ensures forall x :: x in VariantsLeft(variants, excluded) <==> x in variants && x !in excluded
    ensures Distinct(variants) ==> Distinct(VariantsLeft(variants, excluded))
  {
    if variants != [] {
      var n := |variants| - 1;
      LeftAreNotExcluded(variants[..n], excluded);
      assert variants == variants[..n] + [variants[n]];
    }
  }

  // ---------------------------------------------------------------------- soundness

  /** Fields of structs and the scalar kinds without a value of their own are not looked into. */
  ghost predicate Inhabits(v: Value, t: Ty, enums: EnumInfo) {
    match t
    case TNull => false
    case TNever => false
    case TOptional(inner) => v.VNone? || Inhabits(v, inner, enums) || (v.VSome? && Inhabits(v.inner, inner, enums))
    case TEnum(name, _) => v.VEnum? && v.enumName == name && (name in enums ==> v.variant in enums[name])
    case TEnumVariant(name, _, variant) => v == VEnum(name, variant)
    case TBool => v.VBool?
    case TInt => v.VInt?
    case TString => v.VString?
    case TStruct(_, _) => v.VStruct?
    case TList(element) => v.VList? && forall i :: 0 <= i < |v.items| ==> Inhabits(v.items[i], element, enums)
    case TSet(element) => v.VList? && forall i :: 0 <= i < |v.items| ==> Inhabits(v.items[i], element, enums)
    case _ => true
  }

  ghost predicate SomeReadingInhabits(v: Value, t: Ty, enums: EnumInfo) {
    exists w :: Reading(v, w) && Inhabits(w, t, enums)
  }

  lemma EnumNarrowingIsSound(w: Value, u: Ty, facts: seq<TypeFact>, enums: EnumInfo, v: Value)
    requires u.TEnum? && Inhabits(w, u, enums) && Reading(v, w)
    requires forall f :: f in facts ==> HoldsOf(f, v)
    ensures Inhabits(w, NarrowedEnum(u, facts, enums), enums)
  {
    PositiveIsAFact(facts, u.name);
    ExcludedAreFacts(facts, u.name, w.variant);
    if u.name in enums {
      LeftAreNotExcluded(enums[u.name], ExcludedVariants(facts, u.name));
    }
  }

  /** Main result: a value of the declared type for which the facts hold is of the narrowed type. */
  lemma NarrowingIsSound(v: Value, t: Ty, facts: seq<TypeFact>, enums: EnumInfo)
    requires Inhabits(v, t, enums) && forall f :: f in facts ==> HoldsOf(f, v)
    ensures SomeReadingInhabits(v, Narrowed(t, facts, enums), enums)
  {
    var u := WithoutNone(t, facts);
    var w := if u != t && !Inhabits(v, u, enums) then v.inner else v;
    assert Inhabits(w, u, enums) && Reading(v, w);
    if u.TEnum? {
      EnumNarrowingIsSound(w, u, facts, enums, v);
    }
  }

  /** So in a branch that the condition selects, reading a place at its narrowed type is safe. */
  lemma BranchNarrowingIsSound(e: Expr, truth: bool, s: Store, place: Place, t: Ty,
                               facts: seq<TypeFact>, enums: EnumInfo)
    requires OwnEnum(e, s) && IsBool(Eval(e, s), truth)
    requires forall f :: f in facts ==> f.place == place && f in EdgeFacts(e, truth) && !WrapsDenied(f, s)
    requires Lookup(s, place).Some? && Inhabits(Lookup(s, place).value, t, enums)
    ensures SomeReadingInhabits(Lookup(s, place).value, Narrowed(t, facts, enums), enums)
  {
    forall f | f in facts
      ensures HoldsOf(f, Lookup(s, place).value)
    {
      ConditionFactHolds(e, s, truth, f);
    }
    NarrowingIsSound(Lookup(s, place).value, t, facts, enums);
  }

  // ----------------------------------------------------------------------- precision

  /** A not-none fact, and nothing else, unwraps an optional, by one layer: the narrowed type lies below what the
      optional is of, and none is not among its values unless it is there too. */
  lemma NotNoneUnwraps(t: Ty, facts: seq<TypeFact>, enums: EnumInfo, o: Options)
    requires t.TOptional? && t.inner != TNull && exists f :: f in facts && f.kind == IsNotNone
    ensures Sub(Narrowed(t, facts, enums), t.inner, o)
    ensures Inhabits(VNone, Narrowed(t, facts, enums), enums) ==> Inhabits(VNone, t.inner, enums)
    ensures !t.inner.TEnum? ==> Narrowed(t, facts, enums) == t.inner
  {
    SubReflexive(t.inner, o);
    NarrowedIsASubtype(t, facts, enums, o);
  }

  /** Without such a fact an optional stays, and what is neither optional nor an enum stays under any facts. */
  lemma OthersStay(t: Ty, facts: seq<TypeFact>, enums: EnumInfo)
    ensures t.TOptional? && (t.inner == TNull || forall f :: f in facts ==> f.kind != IsNotNone) ==>
      Narrowed(t, facts, enums) == t
    ensures !t.TOptional? && !t.TEnum? ==> Narrowed(t, facts, enums) == t
  {
  }

  /** An enum of which no declaration is known becomes the variant that the last positive fact about it names. */
  lemma UnknownEnumGoesByTheLastFact(u: Ty, facts: seq<TypeFact>, enums: EnumInfo, i: nat)
    requires u.TEnum? && u.name !in enums && i < |facts|
    requires facts[i].kind == IsVariant && NameMatches(u.name, facts[i].enumName)
    requires forall j :: i < j < |facts| ==> !(facts[j].kind == IsVariant && NameMatches(u.name, facts[j].enumName))
    ensures Narrowed(u, facts, enums) == TEnumVariant(u.name, u.symbol, facts[i].variantName)
  {
    LastPositive(facts, u.name, i);
  }

  lemma {:induction false} LastPositive(facts: seq<TypeFact>, enumName: string, i: nat)
    requires i < |facts| && facts[i].kind == IsVariant && NameMatches(enumName, facts[i].enumName)
    requires forall j :: i < j < |facts| ==> !(facts[j].kind == IsVariant && NameMatches(enumName, facts[j].enumName))
    ensures PositiveVariant(facts, enumName) == Some(facts[i].variantName)
    decreases |facts|
  {
    if i < |facts| - 1 {
      LastPositive(facts[..|facts| - 1], enumName, i);
    }
  }

  /** Without positive facts about it such an enum stays. */
  lemma UnknownEnumStays(u: Ty, facts: seq<TypeFact>, enums: EnumInfo)
    requires u.TEnum? && u.name !in enums
    requires forall f :: f in facts ==> !(f.kind == IsVariant && NameMatches(u.name, f.enumName))
    ensures Narrowed(u, facts, enums) == u
  {
    PositiveIsAFact(facts, u.name);
  }

  /** No fact speaks against the variant. */
  ghost predicate Compatible(x: string, enumName: string, facts: seq<TypeFact>, variants: seq<string>) {
    && x in variants
    && forall f :: f in facts ==>
      && (f.kind == IsVariant && NameMatches(enumName, f.enumName) ==> f.variantName == x)
      && (f.kind == IsNotVariant && NameMatches(enumName, f.enumName) ==> f.variantName != x)
  }

  ghost predicate OnlyCompatible(x: string, enumName: string, facts: seq<TypeFact>, variants: seq<string>) {
    && Compatible(x, enumName, facts, variants)
    && forall y :: Compatible(y, enumName, facts, variants) ==> y == x
  }

  ghost predicate SomeFactConcerns(enumName: string, facts: seq<TypeFact>) {
    exists f :: f in facts && (f.kind == IsVariant || f.kind == IsNotVariant) && NameMatches(enumName, f.enumName)
  }

  /** An enum type is narrowed to a variant exactly when the facts leave only that one, unless there
      are none and the enum has no other. The facts must not rule out every variant. */
  lemma NarrowsExactlyWhenOneVariantIsLeft(u: Ty, facts: seq<TypeFact>, enums: EnumInfo, x: string, some: string)
    requires u.TEnum? && u.name in enums && Distinct(enums[u.name])
    requires Compatible(some, u.name, facts, enums[u.name])
    ensures Narrowed(u, facts, enums) == TEnumVariant(u.name, u.symbol, x)
      <==> OnlyCompatible(x, u.name, facts, enums[u.name]) && SomeFactConcerns(u.name, facts)
  {
    var variants := enums[u.name];
    var excluded := ExcludedVariants(facts, u.name);
    PositiveIsAFact(facts, u.name);
    if PositiveVariant(facts, u.name).None? {
      forall y
        ensures Compatible(y, u.name, facts, variants) <==> y in VariantsLeft(variants, excluded)
      {
        ExcludedAreFacts(facts, u.name, y);
        LeftAreNotExcluded(variants, excluded);
      }
      LeftDecides(variants, excluded, u.name, facts, x);
      SomeIsExcluded(facts, u.name);
    }
  }

  lemma {:induction false} SomeIsExcluded(facts: seq<TypeFact>, enumName: string)
    ensures ExcludedVariants(facts, enumName) != [] <==> exists f :: f in facts && Concerns(f, enumName, IsNotVariant)
  {
    if f :| f in facts && Concerns(f, enumName, IsNotVariant) {
      ExcludedAreFacts(facts, enumName, f.variantName);
    }
    if ExcludedVariants(facts, enumName) != [] {
      ExcludedAreFacts(facts, enumName, ExcludedVariants(facts, enumName)[0]);
    }
  }

  lemma LeftDecides(variants: seq<string>, excluded: seq<string>, enumName: string, facts: seq<TypeFact>, x: string)
    requires Distinct(variants)
    requires forall y :: Compatible(y, enumName, facts, variants) <==> y in VariantsLeft(variants, excluded)
    ensures OnlyCompatible(x, enumName, facts, variants) <==> VariantsLeft(variants, excluded) == [x]
  {
    var left := VariantsLeft(variants, excluded);
    LeftAreNotExcluded(variants, excluded);
    if OnlyCompatible(x, enumName, facts, variants) {
      assert x in left;
      DistinctSize(left);
      assert (set y | y in left) == {x};
      assert |left| == 1;
    }
  }

  /** Narrowing only ever goes down. */
  lemma NarrowedIsASubtype(t: Ty, facts: seq<TypeFact>, enums: EnumInfo, o: Options)
    ensures Sub(Narrowed(t, facts, enums), WithoutNone(t, facts), o)
  {
    EquivReflexive(WithoutNone(t, facts));
  }
}
