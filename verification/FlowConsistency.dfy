/** What a path tells about the store, judged place by place: whether some store has it all, and whether one
    of these makes a fact false. */
module FlowConsistency {
  import opened Wrappers
  import opened FlowFacts
  import opened FlowStatements
  import opened FlowSafety

  const CTX: Place := Place("ctx", [])

  /** What a claim says of the value at its place. */
  ghost predicate SaysOf(c: Claim, v: Value) {
    match c
    case FactClaim(f) => HoldsOf(f, v)
    case OwnClaim(_, n) => v.VEnum? ==> v.enumName == n
    case ExistsClaim(_) => true
  }

  predicate StrictlyBelow(q: Place, p: Place) {
    q != p && SameOrDescendant(q, p)
  }

  /** Some claim needs the place to have a member; the context is a struct anyway. */
  ghost predicate IsInner(known: Known, p: Place) {
    p == CTX || exists c :: c in known && !c.OwnClaim? && StrictlyBelow(PlaceOf(c), p)
  }

  /** Some claim needs the place. */
  ghost predicate IsNeeded(known: Known, p: Place) {
    IsInner(known, p) || exists c :: c in known && !c.OwnClaim? && PlaceOf(c) == p
  }

  ghost predicate FitsAs(known: Known, p: Place, v: Value) {
    && (forall c :: c in known && PlaceOf(c) == p ==> SaysOf(c, v))
    && (IsInner(known, p) ==> v.VStruct?)
  }

  ghost predicate Fits(known: Known, p: Place) {
    exists v :: FitsAs(known, p, v)
  }

  /** For every place by itself there is a value. */
  ghost predicate Consistent(known: Known) {
    Fits(known, CTX) && forall c :: c in known ==> Fits(known, PlaceOf(c))
  }

  // ------------------------------------------------------------------ values with members

  /** To claims, values that can have members are all alike. */
  function Plain(v: Value): Value {
    if v.VStruct? || v.VList? then VStruct(map[]) else v
  }

  lemma PlainIsAlike(c: Claim, v: Value, w: Value)
    requires Plain(v) == Plain(w)
    ensures SaysOf(c, v) <==> SaysOf(c, w)
  {
    if v.VStruct? || v.VList? {
      assert !v.VSome? && !w.VSome?;
    }
  }

  lemma {:induction false} MemberOfMember(v: Value, upper: seq<string>, lower: seq<string>)
    ensures lower == [] ==> Member(v, upper + lower) == Member(v, upper)
    ensures lower != [] && Member(v, upper).None? ==> Member(v, upper + lower).None?
    ensures lower != [] && Member(v, upper).Some? ==> Member(v, upper + lower) == Member(Member(v, upper).value, lower)
    decreases |upper|
  {
    if lower == [] {
      assert upper + lower == upper;
    } else if upper == [] {
      assert upper + lower == lower;
    } else {
      assert (upper + lower)[0] == upper[0] && (upper + lower)[1..] == upper[1..] + lower;
      if v.VStruct? && upper[0] in v.fields {
        MemberOfMember(v.fields[upper[0]], upper[1..], lower);
      }
    }
  }

  /** What has something below it is there, and is a struct or a list. */
  lemma AboveHasMembers(s: Store, q: Place, p: Place)
    requires StrictlyBelow(q, p) && Lookup(s, q).Some?
    ensures Lookup(s, p).Some? && Plain(Lookup(s, p).value) == VStruct(map[])
  {
    var lower := q.members[|p.members|..];
    assert q.members == p.members + lower;
    assert lower == [] ==> q.members == p.members;
    MemberOfMember(s[q.root], p.members, lower);
  }

  // ------------------------------------------------------------- from a store to its places

  lemma NeededIsThere(known: Known, s: Store, p: Place)
    requires Satisfies(s, known) && IsNeeded(known, p)
    ensures Lookup(s, p).Some? && (IsInner(known, p) ==> Plain(Lookup(s, p).value) == VStruct(map[]))
  {
    if p != CTX {
      if c :| c in known && !c.OwnClaim? && StrictlyBelow(PlaceOf(c), p) {
        assert ClaimHolds(c, s);
        AboveHasMembers(s, PlaceOf(c), p);
      } else {
        var c :| c in known && !c.OwnClaim? && PlaceOf(c) == p;
        assert ClaimHolds(c, s);
      }
    }
  }

  /** The value at a place of the store fits, up to its members. */
  lemma StoredFits(known: Known, s: Store, p: Place)
    requires Satisfies(s, known) && Lookup(s, p).Some?
    ensures FitsAs(known, p, Plain(Lookup(s, p).value))
  {
    var v := Lookup(s, p).value;
    forall c | c in known && PlaceOf(c) == p
      ensures SaysOf(c, Plain(v))
    {
      assert ClaimHolds(c, s);
      PlainIsAlike(c, v, Plain(v));
    }
    if IsInner(known, p) {
      NeededIsThere(known, s, p);
    }
  }

  lemma SatisfiedIsConsistent(known: Known, s: Store)
    requires Satisfies(s, known)
    ensures Consistent(known)
  {
    hide FitsAs;
    StoredFits(known, s, CTX);
    forall c | c in known
      ensures Fits(known, PlaceOf(c))
    {
      if Lookup(s, PlaceOf(c)).Some? {
        StoredFits(known, s, PlaceOf(c));
      } else {
        MissingFits(known, s, PlaceOf(c));
      }
    }
  }

  lemma MissingFits(known: Known, s: Store, p: Place)
    requires Satisfies(s, known) && Lookup(s, p).None?
    ensures FitsAs(known, p, VNone)
  {
    if IsNeeded(known, p) {
      NeededIsThere(known, s, p);
    }
  }

  // ------------------------------------------------------------- from the places to a store

  type Choice = Place -> Value

  ghost function NextMembers(known: Known, p: Place): set<string> {
    set c | c in known && !c.OwnClaim? && StrictlyBelow(PlaceOf(c), p) :: PlaceOf(c).members[|p.members|]
  }

  function Under(p: Place, member: string): Place {
    Place(p.root, p.members + [member])
  }

  /** The value built for a place: a struct of the members needed, or what was chosen. */
  ghost function Built(known: Known, choice: Choice, p: Place, depth: nat): Value
    decreases depth
  {
    if IsInner(known, p) then
      if depth == 0 then VStruct(map[])
      else VStruct(map m | m in NextMembers(known, p) :: Built(known, choice, Under(p, m), depth - 1))
    else Plain(choice(p))
  }

  ghost predicate Bounds(known: Known, p: Place, depth: nat) {
    forall c :: c in known && !c.OwnClaim? && SameOrDescendant(PlaceOf(c), p) ==>
      |PlaceOf(c).members| <= |p.members| + depth
  }

  lemma NextIsNeeded(known: Known, p: Place, m: string)
    ensures m in NextMembers(known, p) <==>
      exists c :: c in known && !c.OwnClaim? && SameOrDescendant(PlaceOf(c), Under(p, m))
  {
    if m in NextMembers(known, p) {
      var c :| c in known && !c.OwnClaim? && StrictlyBelow(PlaceOf(c), p) && PlaceOf(c).members[|p.members|] == m;
      assert PlaceOf(c).members[..|p.members| + 1] == p.members + [m];
    }
    if c :| c in known && !c.OwnClaim? && SameOrDescendant(PlaceOf(c), Under(p, m)) {
      assert PlaceOf(c).members[..|p.members|] == PlaceOf(c).members[..|p.members| + 1][..|p.members|] == p.members;
      assert PlaceOf(c).members[|p.members|] == PlaceOf(c).members[..|p.members| + 1][|p.members|] == m;
    }
  }

  lemma NeededMeansBelow(known: Known, p: Place)
    ensures IsNeeded(known, p)
      <==> p == CTX || exists c :: c in known && !c.OwnClaim? && SameOrDescendant(PlaceOf(c), p)
  {
    assert forall q: Place :: q.members[..|q.members|] == q.members;
  }

  /** One member down from a place that is needed. */
  lemma BuiltStep(known: Known, choice: Choice, p: Place, depth: nat, m: string, rest: seq<string>)
    requires IsNeeded(known, p) && Bounds(known, p, depth)
    ensures IsNeeded(known, Under(p, m)) ==>
      && depth > 0 && Bounds(known, Under(p, m), depth - 1)
      && Member(Built(known, choice, p, depth), [m] + rest)
         == Member(Built(known, choice, Under(p, m), depth - 1), rest)
    ensures !IsNeeded(known, Under(p, m)) ==> Member(Built(known, choice, p, depth), [m] + rest) == None
  {
    hide IsInner, Bounds, IsNeeded;
    NextIsNeeded(known, p, m);
    NeededMeansBelow(known, Under(p, m));
    assert ([m] + rest)[0] == m && ([m] + rest)[1..] == rest;
    if m in NextMembers(known, p) {
      BoundsNext(known, p, m, depth);
    }
  }

  lemma AboveIsNeeded(known: Known, q: Place, p: Place)
    requires SameOrDescendant(q, p) && IsNeeded(known, q)
    ensures IsNeeded(known, p)
  {
    hide IsNeeded;
    NeededMeansBelow(known, q);
    NeededMeansBelow(known, p);
    BelowTransitive(known, q, p);
  }

  /** Below a built value lie exactly the places needed, each with the value built for it. */
  lemma {:induction false} BuiltMember(known: Known, choice: Choice, p: Place, depth: nat, rest: seq<string>)
    requires IsNeeded(known, p) && Bounds(known, p, depth)
    ensures var q := Place(p.root, p.members + rest);
      && (IsNeeded(known, q) ==>
            |rest| <= depth
            && Member(Built(known, choice, p, depth), rest) == Some(Built(known, choice, q, depth - |rest|)))
      && (!IsNeeded(known, q) ==> Member(Built(known, choice, p, depth), rest) == None)
    decreases |rest|
  {
    hide IsNeeded, Bounds, Built;
    if rest == [] {
      assert p.members + rest == p.members;
    } else {
      var q, next := Place(p.root, p.members + rest), Under(p, rest[0]);
      assert rest == [rest[0]] + rest[1..] && next.members + rest[1..] == q.members;
      BuiltStep(known, choice, p, depth, rest[0], rest[1..]);
      if IsNeeded(known, q) {
        AboveIsNeeded(known, q, next);
      }
      if IsNeeded(known, next) {
        BuiltMember(known, choice, next, depth - 1, rest[1..]);
      }
    }
  }

  lemma BelowTransitive(known: Known, q: Place, p: Place)
    requires SameOrDescendant(q, p)
    ensures forall c :: c in known && SameOrDescendant(PlaceOf(c), q) ==> SameOrDescendant(PlaceOf(c), p)
  {
    forall c | c in known && SameOrDescendant(PlaceOf(c), q)
      ensures SameOrDescendant(PlaceOf(c), p)
    {
      assert PlaceOf(c).members[..|p.members|] == PlaceOf(c).members[..|q.members|][..|p.members|];
    }
  }

  lemma BoundsNext(known: Known, p: Place, m: string, depth: nat)
    requires Bounds(known, p, depth) && m in NextMembers(known, p)
    ensures depth > 0 && Bounds(known, Under(p, m), depth - 1) && IsInner(known, p)
  {
    NextIsNeeded(known, p, m);
    BelowTransitive(known, Under(p, m), p);
  }

  // ---------------------------------------------------------------------- the whole store

  ghost function Roots(known: Known): set<string> {
    {"ctx"} + set c | c in known && !c.OwnClaim? :: PlaceOf(c).root
  }

  ghost function BuiltStore(known: Known, choice: Choice, depth: nat): Store {
    map r | r in Roots(known) :: Built(known, choice, Place(r, []), depth)
  }

  ghost predicate Bound(known: Known, depth: nat) {
    forall c :: c in known ==> |PlaceOf(c).members| <= depth
  }

  lemma {:induction false} SomeBound(known: Known) returns (depth: nat)
    ensures Bound(known, depth)
  {
    if known == {} {
      depth := 0;
    } else {
      var c :| c in known;
      depth := SomeBound(known - {c});
      if depth < |PlaceOf(c).members| {
        depth := |PlaceOf(c).members|;
      }
    }
  }

  /** The built store has exactly the places needed. */
  lemma BuiltLookup(known: Known, choice: Choice, depth: nat, p: Place)
    requires Bound(known, depth)
    ensures !IsNeeded(known, p) ==> Lookup(BuiltStore(known, choice, depth), p) == None
    ensures IsNeeded(known, p) ==>
      exists d: nat :: Lookup(BuiltStore(known, choice, depth), p) == Some(Built(known, choice, p, d))
  {
    hide IsNeeded, Built;
    var root := Place(p.root, []);
    NeededMeansBelow(known, root);
    assert p.root in Roots(known) <==> IsNeeded(known, root);
    assert root.members + p.members == p.members;
    if IsNeeded(known, p) {
      AboveIsNeeded(known, p, root);
    }
    if IsNeeded(known, root) {
      assert Bounds(known, root, depth);
      BuiltMember(known, choice, root, depth, p.members);
    }
  }

  ghost predicate FitsChoice(known: Known, choice: Choice) {
    && Fits(known, CTX)
    && forall c :: c in known ==>
         var p := PlaceOf(c);
         if IsInner(known, p) then Fits(known, p) else FitsAs(known, p, choice(p))
  }

  lemma BuiltIsAlike(known: Known, choice: Choice, p: Place, d: nat)
    ensures Plain(Built(known, choice, p, d)) == if IsInner(known, p) then VStruct(map[]) else Plain(choice(p))
  {
  }

  lemma BuiltSatisfies(known: Known, choice: Choice, depth: nat)
    requires Bound(known, depth) && FitsChoice(known, choice)
    ensures Satisfies(BuiltStore(known, choice, depth), known)
  {
    hide BuiltStore, Built, Bound;
    var s := BuiltStore(known, choice, depth);
    BuiltLookup(known, choice, depth, CTX);
    forall c | c in known
      ensures ClaimHolds(c, s)
    {
      var p := PlaceOf(c);
      BuiltLookup(known, choice, depth, p);
      if IsNeeded(known, p) {
        var d: nat :| Lookup(s, p) == Some(Built(known, choice, p, d));
        BuiltIsAlike(known, choice, p, d);
        var v := if IsInner(known, p) then VStruct(map[]) else choice(p);
        FitIsSaid(known, choice, c);
        PlainIsAlike(c, v, Built(known, choice, p, d));
      }
    }
    CtxIsBuilt(known, choice, depth);
  }

  lemma FitIsSaid(known: Known, choice: Choice, c: Claim)
    requires c in known && FitsChoice(known, choice)
    ensures SaysOf(c, if IsInner(known, PlaceOf(c)) then VStruct(map[]) else choice(PlaceOf(c)))
  {
    if IsInner(known, PlaceOf(c)) {
      var v :| FitsAs(known, PlaceOf(c), v);
      PlainIsAlike(c, v, VStruct(map[]));
    }
  }

  lemma CtxIsBuilt(known: Known, choice: Choice, depth: nat)
    ensures HasCtx(BuiltStore(known, choice, depth))
  {
  }

  /** A value for every place where there is one. */
  ghost function AnyFit(known: Known): Choice {
    p => if Fits(known, p) then var v :| FitsAs(known, p, v); v else VNone
  }

  /** Main result: some store has all that is known exactly when for each place by itself there is a value. */
  lemma SatisfiableExactlyWhenConsistent(known: Known)
    ensures Satisfiable(known) <==> Consistent(known)
  {
    if s :| Satisfies(s, known) {
      SatisfiedIsConsistent(known, s);
    }
    if Consistent(known) {
      var depth := SomeBound(known);
      BuiltSatisfies(known, AnyFit(known), depth);
    }
  }

  /** The fact can be false where nothing needs its place, or with a value there that is no such. */
  ghost predicate FailsAt(known: Known, f: TypeFact) {
    || (Consistent(known) && !IsNeeded(known, f.place))
    || (var there := known + {ExistsClaim(f.place)};
        Consistent(there) && exists v :: FitsAs(there, f.place, v) && !HoldsOf(f, v))
  }

  /** Main result: some store with all that is known makes a fact false exactly when what is known at and below
      its place lets it. */
  lemma CanFailExactlyWhen(known: Known, f: TypeFact)
    ensures CanFail(known, f) <==> FailsAt(known, f)
  {
    hide Consistent, FitsAs, IsNeeded, Satisfies;
    if s :| Satisfies(s, known) && !Holds(f, s) {
      FailureIsLocal(known, f, s);
    }
    if Consistent(known) && !IsNeeded(known, f.place) {
      MissingPlace(known, f);
    }
    var there := known + {ExistsClaim(f.place)};
    if Consistent(there) && exists v :: FitsAs(there, f.place, v) && !HoldsOf(f, v) {
      var v :| FitsAs(there, f.place, v) && !HoldsOf(f, v);
      FailingValue(known, f, v);
    }
  }

  lemma FailureIsLocal(known: Known, f: TypeFact, s: Store)
    requires Satisfies(s, known) && !Holds(f, s)
    ensures FailsAt(known, f)
  {
    hide Consistent, FitsAs;
    SatisfiedIsConsistent(known, s);
    if Lookup(s, f.place).None? {
      if IsNeeded(known, f.place) {
        NeededIsThere(known, s, f.place);
      }
    } else {
      var there := known + {ExistsClaim(f.place)};
      var v := Lookup(s, f.place).value;
      assert Satisfies(s, there);
      SatisfiedIsConsistent(there, s);
      StoredFits(there, s, f.place);
      PlainIsAlike(FactClaim(f), v, Plain(v));
      assert FitsAs(there, f.place, Plain(v)) && !HoldsOf(f, Plain(v));
    }
  }

  lemma MissingPlace(known: Known, f: TypeFact)
    requires Consistent(known) && !IsNeeded(known, f.place)
    ensures CanFail(known, f)
  {
    hide BuiltStore, Bound, IsNeeded;
    var depth := SomeBound(known);
    var s := BuiltStore(known, AnyFit(known), depth);
    BuiltSatisfies(known, AnyFit(known), depth);
    BuiltLookup(known, AnyFit(known), depth, f.place);
    assert Satisfies(s, known) && !Holds(f, s);
  }

  lemma FailingValue(known: Known, f: TypeFact, v: Value)
    requires var there := known + {ExistsClaim(f.place)};
      Consistent(there) && FitsAs(there, f.place, v) && !HoldsOf(f, v)
    ensures CanFail(known, f)
  {
    hide BuiltStore, Bound;
    var there := known + {ExistsClaim(f.place)};
    var any := AnyFit(there);
    var choice: Choice := p => if p == f.place then v else any(p);
    var depth := SomeBound(there);
    var s := BuiltStore(there, choice, depth);
    BuiltSatisfies(there, choice, depth);
    assert ExistsClaim(f.place) in there;
    BuiltLookup(there, choice, depth, f.place);
    var d: nat :| Lookup(s, f.place) == Some(Built(there, choice, f.place, d));
    BuiltIsAlike(there, choice, f.place, d);
    PlainIsAlike(FactClaim(f), v, Built(there, choice, f.place, d));
    assert Satisfies(s, known) && !Holds(f, s);
  }

  function Opposite(f: TypeFact): TypeFact
    requires f.kind == IsNone || f.kind == IsNotNone
  {
    f.(kind := if f.kind == IsNone then IsNotNone else IsNone)
  }

  /** For facts about none this is consistency again. */
  lemma NoneFactCanFailExactlyWhen(known: Known, f: TypeFact)
    requires f.kind == IsNone || f.kind == IsNotNone
    ensures CanFail(known, f) <==>
      || (Consistent(known) && !IsNeeded(known, f.place))
      || Consistent(known + {FactClaim(Opposite(f))})
  {
    hide Consistent, IsNeeded;
    var opposed := known + {FactClaim(Opposite(f))};
    SatisfiableExactlyWhenConsistent(opposed);
    if s :| Satisfies(s, known) && !Holds(f, s) {
      SatisfiedIsConsistent(known, s);
      if Lookup(s, f.place).None? {
        if IsNeeded(known, f.place) {
          NeededIsThere(known, s, f.place);
        }
      } else {
        assert Satisfies(s, opposed);
      }
    }
    if s :| Satisfies(s, opposed) {
      assert ClaimHolds(FactClaim(Opposite(f)), s);
      assert Satisfies(s, known) && !Holds(f, s);
    }
    if Consistent(known) && !IsNeeded(known, f.place) {
      MissingPlace(known, f);
    }
  }

  // -------------------------------------------------------------- conflicts at one place

  ghost predicate FactAt(known: Known, p: Place, f: TypeFact, kind: FactKind) {
    FactClaim(f) in known && f.place == p && f.kind == kind
  }

  /** The facts that a variant of the enum n has to agree with. */
  ghost predicate About(known: Known, p: Place, n: string, f: TypeFact, kind: FactKind) {
    FactAt(known, p, f, kind) && NameMatches(n, f.enumName)
  }

  /** None is nothing else, and has no members. */
  ghost predicate NoneAlone(known: Known, p: Place) {
    forall f :: FactAt(known, p, f, IsNone) ==>
      !IsInner(known, p) && forall g :: !FactAt(known, p, g, IsNotNone) && !FactAt(known, p, g, IsVariant)
  }

  /** A variant has no members and one enum, and of what is said about that enum no two things conflict. */
  ghost predicate VariantsAgree(known: Known, p: Place) {
    (exists f :: FactAt(known, p, f, IsVariant)) ==>
      && !IsInner(known, p)
      && (forall m, n :: OwnClaim(p, m) in known && OwnClaim(p, n) in known ==> m == n)
      && forall n :: OwnClaim(p, n) in known ==>
           && (forall f, g :: About(known, p, n, f, IsVariant) && About(known, p, n, g, IsVariant) ==>
                 f.variantName == g.variantName)
           && (forall f, g :: About(known, p, n, f, IsVariant) && About(known, p, n, g, IsNotVariant) ==>
                 f.variantName != g.variantName)
  }

  lemma {:induction false} LongerThanAll(names: set<string>) returns (k: nat)
    ensures forall n :: n in names ==> |n| < k
  {
    if names == {} {
      k := 0;
    } else {
      var n :| n in names;
      k := LongerThanAll(names - {n});
      if k <= |n| {
        k := |n| + 1;
      }
    }
  }

  /** A name that is none of the given ones and has no parts. */
  lemma FreshName(names: set<string>) returns (x: string)
    ensures x !in names && LocalName(x) == x
  {
    var k := LongerThanAll(names);
    x := seq(k, _ => 'a');
    NoSeparator(x, |x|);
  }

  lemma FittingIsWithoutConflict(known: Known, p: Place, v: Value)
    requires FitsAs(known, p, v)
    ensures NoneAlone(known, p) && VariantsAgree(known, p)
  {
    forall f, kind | FactAt(known, p, f, kind)
      ensures HoldsOf(f, v)
    {
      assert SaysOf(FactClaim(f), v);
    }
    forall n | OwnClaim(p, n) in known
      ensures v.VEnum? ==> v.enumName == n
    {
      assert SaysOf(OwnClaim(p, n), v);
    }
    forall f, n | About(known, p, n, f, IsNotVariant) && v.VEnum? && v.enumName == n
      ensures f.variantName != v.variant
    {
      assert Reading(v, v);
    }
  }

  /** The variant that fits: of the place's own enum if one is known, and otherwise of an unheard-of one. */
  lemma SomeVariantFits(known: Known, p: Place) returns (v: Value)
    requires VariantsAgree(known, p) && NoneAlone(known, p) && exists f :: FactAt(known, p, f, IsVariant)
    ensures FitsAs(known, p, v)
  {
    var some :| FactAt(known, p, some, IsVariant);
    var enums := set c | c in known && c.FactClaim? :: c.f.enumName;
    var variants := set c | c in known && c.FactClaim? :: c.f.variantName;
    var x := FreshName(variants);
    if n :| OwnClaim(p, n) in known {
      if f :| About(known, p, n, f, IsVariant) {
        x := f.variantName;
      }
      v := VEnum(n, x);
    } else {
      var n := FreshName(enums);
      v := VEnum(n, x);
    }
    forall c | c in known && PlaceOf(c) == p
      ensures SaysOf(c, v)
    {
      if c.FactClaim? {
        assert FactAt(known, p, c.f, c.f.kind);
        VariantFits(known, p, c.f, v);
      }
    }
  }

  lemma VariantFits(known: Known, p: Place, f: TypeFact, v: Value)
    requires FactClaim(f) in known && f.place == p && f.kind != IsNone && v.VEnum?
    requires forall g :: About(known, p, v.enumName, g, IsVariant) ==> g.variantName == v.variant
    requires forall g :: About(known, p, v.enumName, g, IsNotVariant) ==> g.variantName != v.variant
    ensures HoldsOf(f, v)
  {
    assert FactAt(known, p, f, f.kind);
    if NameMatches(v.enumName, f.enumName) {
      assert About(known, p, v.enumName, f, f.kind);
    }
  }

  /** Main result: there is a value for a place exactly when the claims about it do not conflict. */
  lemma FitsExactlyWithoutConflict(known: Known, p: Place)
    ensures Fits(known, p) <==> NoneAlone(known, p) && VariantsAgree(known, p)
  {
    if v :| FitsAs(known, p, v) {
      FittingIsWithoutConflict(known, p, v);
    }
    if NoneAlone(known, p) && VariantsAgree(known, p) {
      if f :| FactAt(known, p, f, IsVariant) {
        var v := SomeVariantFits(known, p);
      } else if f :| FactAt(known, p, f, IsNone) {
        NoneFits(known, p, f);
      } else {
        StructFits(known, p);
      }
    }
  }

  lemma NoneFits(known: Known, p: Place, f: TypeFact)
    requires NoneAlone(known, p) && FactAt(known, p, f, IsNone)
    ensures FitsAs(known, p, VNone)
  {
    forall c | c in known && PlaceOf(c) == p
      ensures SaysOf(c, VNone)
    {
      if c.FactClaim? {
        assert FactAt(known, p, c.f, c.f.kind);
      }
    }
  }

  lemma StructFits(known: Known, p: Place)
    requires forall f :: !FactAt(known, p, f, IsNone) && !FactAt(known, p, f, IsVariant)
    ensures FitsAs(known, p, VStruct(map[]))
  {
    forall c | c in known && PlaceOf(c) == p
      ensures SaysOf(c, VStruct(map[]))
    {
      if c.FactClaim? {
        assert FactAt(known, p, c.f, c.f.kind);
      }
    }
  }
}
