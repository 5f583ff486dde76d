/** The memoized relation solver (src/compiler/semantics/type_relations.cpp), over the pointers of
    a type context. Its memo has the three states of the source; it refuses to recurse past a
    depth limit. */
module RelationSolver {
  import opened Wrappers
  import opened TypeContext
  import opened TypeRelations

  datatype RelationKey = RelationKey(kind: RelationKind, source: TypePtr, target: TypePtr,
                                     allowBoundedStringRelaxation: bool, allowNumericWidening: bool)

  datatype RelationState = Visiting | Proven | Disproven

  datatype Stats = Stats(queries: nat, cacheHits: nat, proven: nat, disproven: nat,
                         coinductiveAssumptions: nat, depthGuardRejections: nat)

  /** Every container type was given its children. */
  ghost predicate Complete(storage: seq<Payload>) {
    && Arena(storage)
    && forall i :: 0 <= i < |storage| ==> ChildrenGiven(storage[i])
  }

  ghost predicate ChildrenGiven(p: Payload) {
    match p
    case OptionalT(c) => c != NULL
    case ListT(c) => c != NULL
    case SetT(c) => c != NULL
    case MapT(k, v) => k != NULL && v != NULL
    case _ => true
  }

  ghost predicate Pointer(storage: seq<Payload>, p: TypePtr) {
    1 <= p <= |storage|
  }

  ghost function Height(t: Ty): nat {
    match t
    case TOptional(a) => 1 + Height(a)
    case TList(a) => 1 + Height(a)
    case TSet(a) => 1 + Height(a)
    case TMap(k, v) => 1 + Max(Height(k), Height(v))
    case _ => 1
  }

  ghost function Max(a: nat, b: nat): nat { if a < b then b else a }

  ghost function Min(a: nat, b: nat): nat { if a < b then a else b }

  /** Subtype questions ask for equivalence of the same pair first. */
  ghost function Rank(kind: RelationKind): nat {
    if kind.Equivalent? || kind.ExactSchema? then 0 else 1
  }

  /** How deep two types can be walked together. */
  ghost function Depth(storage: seq<Payload>, p: TypePtr, q: TypePtr): (d: nat)
    requires Complete(storage) && Pointer(storage, p) && Pointer(storage, q)
    ensures d >= 1
  {
    HeightPositive(Denote(storage, p));
    HeightPositive(Denote(storage, q));
    Min(Height(Denote(storage, p)), Height(Denote(storage, q)))
  }

  lemma HeightPositive(t: Ty)
    ensures Height(t) >= 1
  {
  }

  ghost predicate Holds(storage: seq<Payload>, o: Options, kind: RelationKind, p: TypePtr, q: TypePtr)
    requires Complete(storage) && Pointer(storage, p) && Pointer(storage, q)
  {
    Related(kind, Denote(storage, p), Denote(storage, q), o)
  }

  /** Proven entries are always right; disproven ones as long as the depth guard has never fired. */
  ghost predicate MemoOk(storage: seq<Payload>, o: Options, memo: map<RelationKey, RelationState>, guardFired: bool)
    requires Complete(storage)
  {
    && (forall k :: k in memo ==>
          Pointer(storage, k.source) && Pointer(storage, k.target)
          && k.allowBoundedStringRelaxation == o.allowBoundedStringRelaxation
          && k.allowNumericWidening == o.allowNumericWidening)
    && (forall k :: k in memo && memo[k].Proven? ==> Holds(storage, o, k.kind, k.source, k.target))
    && (forall k :: k in memo && memo[k].Disproven? && !guardFired ==> !Holds(storage, o, k.kind, k.source, k.target))
  }

  /** Questions in progress are about younger pairs, or about the same source at a higher rank. */
  ghost predicate InProgressAbove(memo: map<RelationKey, RelationState>, source: TypePtr, rank: nat) {
    forall k :: k in memo && memo[k].Visiting? ==> source < k.source || (source == k.source && rank < Rank(k.kind))
  }

  /** Answers given stay, and the questions in progress are the same ones. */
  ghost predicate Extends(was: map<RelationKey, RelationState>, memo: map<RelationKey, RelationState>) {
    && (forall k :: k in was ==> k in memo && memo[k] == was[k])
    && (forall k :: k in memo && memo[k].Visiting? ==> k in was)
  }

  class MemoizedRelationSolver {
    const storage: seq<Payload>
    const options: Options
    const maxSolverDepth: int
    var memo: map<RelationKey, RelationState>
    var recursionDepth: int
    var stats: Stats

    constructor (storage: seq<Payload>, options: Options, maxSolverDepth: int)
      requires Complete(storage)
      ensures this.storage == storage && this.options == options && this.maxSolverDepth == maxSolverDepth
      ensures Valid() && memo == map[] && recursionDepth == 0 && stats == Stats(0, 0, 0, 0, 0, 0)
    {
      this.storage, this.options, this.maxSolverDepth := storage, options, maxSolverDepth;
      memo, recursionDepth, stats := map[], 0, Stats(0, 0, 0, 0, 0, 0);
    }

    ghost predicate Valid()
      reads this
    {
      && Complete(storage)
      && MemoOk(storage, options, memo, stats.depthGuardRejections > 0)
      && stats.queries == stats.cacheHits + stats.coinductiveAssumptions + stats.proven + stats.disproven + recursionDepth
    }

    function KeyFor(kind: RelationKind, source: TypePtr, target: TypePtr): RelationKey {
      RelationKey(kind, source, target, options.allowBoundedStringRelaxation, options.allowNumericWidening)
    }

    method Solve(kind: RelationKind, source: TypePtr, target: TypePtr) returns (r: bool)
      requires Valid() && Pointer(storage, source) && Pointer(storage, target)
      requires InProgressAbove(memo, source, Rank(kind))
      modifies this
      ensures Valid() && Extends(old(memo), memo) && recursionDepth == old(recursionDepth)
      ensures stats.coinductiveAssumptions == old(stats.coinductiveAssumptions)
      ensures stats.depthGuardRejections >= old(stats.depthGuardRejections)
      ensures r ==> Holds(storage, options, kind, source, target)
      ensures !r && stats.depthGuardRejections == 0 ==> !Holds(storage, options, kind, source, target)
      ensures old(recursionDepth) + Depth(storage, source, target) + Rank(kind) <= maxSolverDepth ==>
        stats.depthGuardRejections == old(stats.depthGuardRejections)
      decreases source, Rank(kind), 1
    {
      hide Holds, Depth, MemoOk, Extends, InProgressAbove;
      stats := stats.(queries := stats.queries + 1);
      var key := KeyFor(kind, source, target);
      if key in memo {
        LookUp(storage, options, memo, stats.depthGuardRejections > 0, key);
        match memo[key] {
          case Proven =>
            stats := stats.(cacheHits := stats.cacheHits + 1);
            return true;
          case Disproven =>
            stats := stats.(cacheHits := stats.cacheHits + 1);
            return false;
          case Visiting =>
            assert false;
        }
      }
      if recursionDepth >= maxSolverDepth {
        Settle(storage, options, memo, memo, stats.depthGuardRejections > 0, true, key, Disproven);
        stats := stats.(depthGuardRejections := stats.depthGuardRejections + 1, disproven := stats.disproven + 1);
        memo := memo[key := Disproven];
        return false;
      }
      Start(storage, options, memo, stats.depthGuardRejections > 0, key);
      memo := memo[key := Visiting];
      recursionDepth := recursionDepth + 1;
      if kind.Equivalent? || kind.ExactSchema? {
        r := EquivalentImpl(kind, source, target);
      } else {
        r := SubtypeImpl(kind, source, target);
      }
      recursionDepth := recursionDepth - 1;
      Settle(storage, options, old(memo), memo, stats.depthGuardRejections > 0, stats.depthGuardRejections > 0,
             key, if r then Proven else Disproven);
      memo := memo[key := if r then Proven else Disproven];
      if r {
        stats := stats.(proven := stats.proven + 1);
      } else {
        stats := stats.(disproven := stats.disproven + 1);
      }
    }

    method EquivalentImpl(kind: RelationKind, lhs: TypePtr, rhs: TypePtr) returns (r: bool)
      requires Valid() && Pointer(storage, lhs) && Pointer(storage, rhs) && Rank(kind) == 0
      requires InProgressFrom(memo, lhs, 0)
      modifies this
      ensures Valid() && Extends(old(memo), memo) && recursionDepth == old(recursionDepth)
      ensures stats.coinductiveAssumptions == old(stats.coinductiveAssumptions)
      ensures stats.depthGuardRejections >= old(stats.depthGuardRejections)
      ensures r ==> Holds(storage, options, kind, lhs, rhs)
      ensures !r && stats.depthGuardRejections == 0 ==> !Holds(storage, options, kind, lhs, rhs)
      ensures old(recursionDepth) - 1 + Depth(storage, lhs, rhs) <= maxSolverDepth ==>
        stats.depthGuardRejections == old(stats.depthGuardRejections)
      decreases lhs, Rank(kind), 0
    {
      hide Holds, Depth, MemoOk;
      ChildrenArePairs(storage, lhs, rhs);
      SamePointer(storage, lhs, options, kind);
      EquivStep(storage, lhs, rhs, options, kind);
      if lhs == rhs {
        return true;
      }
      var a, b := storage[lhs - 1], storage[rhs - 1];
      if a.OptionalT? && b.OptionalT? {
        r := Solve(Equivalent, a.inner, b.inner);
      } else if a.ListT? && b.ListT? {
        r := Solve(Equivalent, a.element, b.element);
      } else if a.SetT? && b.SetT? {
        r := Solve(Equivalent, a.element, b.element);
      } else if a.MapT? && b.MapT? {
        var okKey := Solve(Equivalent, a.key, b.key);
        var okValue := Solve(Equivalent, a.value, b.value);
        r := okKey && okValue;
      } else {
        r := EquivalentLeaf(a, b);
      }
    }

    method SubtypeImpl(kind: RelationKind, source: TypePtr, target: TypePtr) returns (r: bool)
      requires Valid() && Pointer(storage, source) && Pointer(storage, target) && Rank(kind) == 1
      requires InProgressFrom(memo, source, 1)
      modifies this
      ensures Valid() && Extends(old(memo), memo) && recursionDepth == old(recursionDepth)
      ensures stats.coinductiveAssumptions == old(stats.coinductiveAssumptions)
      ensures stats.depthGuardRejections >= old(stats.depthGuardRejections)
      ensures r ==> Holds(storage, options, kind, source, target)
      ensures !r && stats.depthGuardRejections == 0 ==> !Holds(storage, options, kind, source, target)
      ensures old(recursionDepth) + Depth(storage, source, target) <= maxSolverDepth ==>
        stats.depthGuardRejections == old(stats.depthGuardRejections)
      decreases source, Rank(kind), 0
    {
      hide Holds, Depth, MemoOk;
      ChildrenArePairs(storage, source, target);
      SamePointer(storage, source, options, kind);
      SubStep(storage, source, target, options, kind);
      if source == target {
        return true;
      }
      var s, t := storage[source - 1], storage[target - 1];
      if s.ErrorT? || t.ErrorT? || t.AnyT? || s.NeverT? {
        return true;
      }
      var eq := Solve(Equivalent, source, target);
      if eq {
        return true;
      }
      if s.EnumVariantT? && t.EnumT? {
        return NominalNameMatches(s.symbol, s.canonicalName, t.symbol, t.canonicalName);
      }
      if s.OptionalT? && t.OptionalT? {
        r := Solve(Subtype, s.inner, t.inner);
        return;
      }
      if s.ListT? && t.ListT? {
        r := Solve(Subtype, s.element, t.element);
        return;
      }
      if s.SetT? && t.SetT? {
        r := Solve(Subtype, s.element, t.element);
        return;
      }
      if s.MapT? && t.MapT? {
        var keysMatch := Solve(Equivalent, s.key, t.key);
        if !keysMatch {
          return false;
        }
        r := Solve(Subtype, s.value, t.value);
        return;
      }
      var allowBounded := options.allowBoundedStringRelaxation;
      if allowBounded && s.BoundedStringT? && t.StringT? {
        return true;
      }
      if allowBounded && s.BoundedStringT? && t.BoundedStringT? {
        return s.minimum >= t.minimum && s.maximum <= t.maximum;
      }
      var allowNumeric := options.allowNumericWidening;
      if allowNumeric && s.IntT? && (t.FloatT? || t.DecimalT?) {
        return true;
      }
      if allowNumeric && s.DecimalT? && t.DecimalT? {
        return t.scale >= s.scale;
      }
      return false;
    }

    /** The public entry points ask a solver with nothing in progress. The answer is right whenever
        it is yes, and also when it is no if the depth limit exceeds the height of either type. The
        coinductive branch is never taken. */
    method Ask(kind: RelationKind, source: TypePtr, target: TypePtr) returns (r: bool)
      requires Valid() && Pointer(storage, source) && Pointer(storage, target)
      requires recursionDepth == 0 && forall k :: k in memo ==> !memo[k].Visiting?
      modifies this
      ensures Valid() && recursionDepth == 0 && forall k :: k in memo ==> !memo[k].Visiting?
      ensures stats.coinductiveAssumptions == old(stats.coinductiveAssumptions)
      ensures var s, t := Denote(storage, source), Denote(storage, target);
        && (kind == Equivalent || kind == ExactSchema ==> (r ==> Equiv(s, t)))
        && (kind == Subtype || kind == Assignable ==> (r ==> Sub(s, t, options)))
      ensures old(stats.depthGuardRejections) == 0 && maxSolverDepth > Depth(storage, source, target) ==>
        var s, t := Denote(storage, source), Denote(storage, target);
        && stats.depthGuardRejections == 0
        && (kind == Equivalent || kind == ExactSchema ==> (r <==> Equiv(s, t)))
        && (kind == Subtype || kind == Assignable ==> (r <==> Sub(s, t, options)))
    {
      r := Solve(kind, source, target);
    }
  }

  ghost predicate InProgressFrom(memo: map<RelationKey, RelationState>, source: TypePtr, rank: nat) {
    forall k :: k in memo && memo[k].Visiting? ==> source < k.source || (source == k.source && rank <= Rank(k.kind))
  }

  /** A cached answer may be used, and is never a question in progress. */
  lemma LookUp(storage: seq<Payload>, o: Options, memo: map<RelationKey, RelationState>, guardFired: bool, key: RelationKey)
    requires Complete(storage) && MemoOk(storage, o, memo, guardFired) && key in memo
    requires InProgressAbove(memo, key.source, Rank(key.kind))
    ensures Extends(memo, memo) && !memo[key].Visiting?
    ensures Pointer(storage, key.source) && Pointer(storage, key.target)
    ensures memo[key].Proven? ==> Holds(storage, o, key.kind, key.source, key.target)
    ensures memo[key].Disproven? && !guardFired ==> !Holds(storage, o, key.kind, key.source, key.target)
  {
  }

  lemma Start(storage: seq<Payload>, o: Options, memo: map<RelationKey, RelationState>, guardFired: bool, key: RelationKey)
    requires Complete(storage) && MemoOk(storage, o, memo, guardFired)
    requires Pointer(storage, key.source) && Pointer(storage, key.target)
    requires key == RelationKey(key.kind, key.source, key.target, o.allowBoundedStringRelaxation, o.allowNumericWidening)
    requires InProgressAbove(memo, key.source, Rank(key.kind))
    ensures MemoOk(storage, o, memo[key := Visiting], guardFired)
    ensures InProgressFrom(memo[key := Visiting], key.source, Rank(key.kind))
  {
  }

  /** Writing the answer down. */
  lemma Settle(storage: seq<Payload>, o: Options, was: map<RelationKey, RelationState>, memo: map<RelationKey, RelationState>,
               guardFired: bool, guardNow: bool, key: RelationKey, state: RelationState)
    requires Complete(storage) && MemoOk(storage, o, memo, guardFired) && (guardFired ==> guardNow)
    requires Pointer(storage, key.source) && Pointer(storage, key.target)
    requires key == RelationKey(key.kind, key.source, key.target, o.allowBoundedStringRelaxation, o.allowNumericWidening)
    requires key !in was && (memo == was || Extends(was[key := Visiting], memo)) && !state.Visiting?
    requires state.Proven? ==> Holds(storage, o, key.kind, key.source, key.target)
    requires state.Disproven? && !guardNow ==> !Holds(storage, o, key.kind, key.source, key.target)
    ensures MemoOk(storage, o, memo[key := state], guardNow)
    ensures Extends(was, memo[key := state])
  {
    forall k | k in was
      ensures k in memo && memo[k] == was[k]
    {
      if memo != was {
        assert k in was[key := Visiting];
      }
    }
  }

  ghost predicate SameContainer(a: Payload, b: Payload) {
    (a.OptionalT? && b.OptionalT?) || (a.ListT? && b.ListT?) || (a.SetT? && b.SetT?) || (a.MapT? && b.MapT?)
  }

  ghost predicate LeafEquiv(a: Payload, b: Payload) {
    if a.StructT? && b.StructT? then NominalNameMatches(a.symbol, a.canonicalName, b.symbol, b.canonicalName)
    else if a.EnumT? && b.EnumT? then NominalNameMatches(a.symbol, a.canonicalName, b.symbol, b.canonicalName)
    else if a.EnumVariantT? && b.EnumVariantT? then
      a.variantName == b.variantName && NominalNameMatches(a.symbol, a.canonicalName, b.symbol, b.canonicalName)
    else a == b
  }

  /** A question about children: the child is older than its parent, and one level less deep. */
  ghost predicate ChildPair(storage: seq<Payload>, p: TypePtr, q: TypePtr, c: TypePtr, d: TypePtr)
    requires Complete(storage) && Pointer(storage, p) && Pointer(storage, q)
  {
    Pointer(storage, c) && Pointer(storage, d) && c < p && Depth(storage, c, d) < Depth(storage, p, q)
  }

  ghost predicate ChildPairs(storage: seq<Payload>, p: TypePtr, q: TypePtr)
    requires Complete(storage) && Pointer(storage, p) && Pointer(storage, q)
  {
    var a, b := storage[p - 1], storage[q - 1];
    && (a.OptionalT? && b.OptionalT? ==> ChildPair(storage, p, q, a.inner, b.inner))
    && (a.ListT? && b.ListT? ==> ChildPair(storage, p, q, a.element, b.element))
    && (a.SetT? && b.SetT? ==> ChildPair(storage, p, q, a.element, b.element))
    && (a.MapT? && b.MapT? ==> ChildPair(storage, p, q, a.key, b.key) && ChildPair(storage, p, q, a.value, b.value))
  }

  lemma ChildrenArePairs(storage: seq<Payload>, p: TypePtr, q: TypePtr)
    requires Complete(storage) && Pointer(storage, p) && Pointer(storage, q)
    ensures ChildPairs(storage, p, q)
  {
    var a, b := storage[p - 1], storage[q - 1];
    assert ChildrenGiven(a) && ChildrenGiven(b) && ChildrenOlder(a, p) && ChildrenOlder(b, q);
  }

  lemma SamePointer(storage: seq<Payload>, p: TypePtr, o: Options, kind: RelationKind)
    requires Complete(storage) && Pointer(storage, p)
    ensures Holds(storage, o, kind, p, p)
  {
    EquivReflexive(Denote(storage, p));
    SubReflexive(Denote(storage, p), o);
  }

  /** What one payload says about the type denoted. */
  lemma Shape(storage: seq<Payload>, p: TypePtr)
    requires Complete(storage) && Pointer(storage, p)
    ensures var a, s := storage[p - 1], Denote(storage, p);
      && ChildrenGiven(a) && ChildrenOlder(a, p)
      && (a.OptionalT? ==> s == TOptional(Denote(storage, a.inner)))
      && (a.ListT? ==> s == TList(Denote(storage, a.element)))
      && (a.SetT? ==> s == TSet(Denote(storage, a.element)))
      && (a.MapT? ==> s == TMap(Denote(storage, a.key), Denote(storage, a.value)))
      && (!Container(a) ==> s == LeafTy(a))
  {
  }

  ghost predicate Container(a: Payload) {
    a.OptionalT? || a.ListT? || a.SetT? || a.MapT?
  }

  lemma LeafTyEquiv(a: Payload, b: Payload)
    requires !Container(a) && !Container(b)
    ensures Equiv(LeafTy(a), LeafTy(b)) <==> LeafEquiv(a, b)
  {
  }

  /** Equivalence of two pointers, one level unfolded. */
  lemma EquivStep(storage: seq<Payload>, p: TypePtr, q: TypePtr, o: Options, kind: RelationKind)
    requires Complete(storage) && Pointer(storage, p) && Pointer(storage, q) && Rank(kind) == 0
    requires ChildPairs(storage, p, q)
    ensures var a, b := storage[p - 1], storage[q - 1];
      var same := Holds(storage, o, kind, p, q);
      if a.OptionalT? && b.OptionalT? then same <==> Holds(storage, o, Equivalent, a.inner, b.inner)
      else if a.ListT? && b.ListT? then same <==> Holds(storage, o, Equivalent, a.element, b.element)
      else if a.SetT? && b.SetT? then same <==> Holds(storage, o, Equivalent, a.element, b.element)
      else if a.MapT? && b.MapT? then
        same <==> Holds(storage, o, Equivalent, a.key, b.key) && Holds(storage, o, Equivalent, a.value, b.value)
      else same <==> LeafEquiv(a, b)
  {
    hide Denote, LeafTy, Height, Depth;
    Shape(storage, p);
    Shape(storage, q);
    var a, b := storage[p - 1], storage[q - 1];
    if !Container(a) && !Container(b) {
      LeafTyEquiv(a, b);
    } else if Container(a) && !Container(b) {
      LeafIsNoContainer(b);
    } else if Container(b) && !Container(a) {
      LeafIsNoContainer(a);
    }
  }

  lemma LeafIsNoContainer(a: Payload)
    requires !Container(a)
    ensures var s := LeafTy(a); !s.TOptional? && !s.TList? && !s.TSet? && !s.TMap?
  {
  }

  lemma LeafTySub(a: Payload, b: Payload, o: Options)
    requires !Container(a) && !Container(b)
    ensures var s, t := LeafTy(a), LeafTy(b);
      if a.ErrorT? || b.ErrorT? || b.AnyT? || a.NeverT? || Equiv(s, t) then Sub(s, t, o)
      else if a.EnumVariantT? && b.EnumT? then
        Sub(s, t, o) <==> NominalNameMatches(a.symbol, a.canonicalName, b.symbol, b.canonicalName)
      else Sub(s, t, o) <==> ScalarSub(a, b, o)
  {
  }

  /** A container and something of another shape are related only through the top, bottom and error types. */
  lemma MixedSub(a: Payload, s: Ty, b: Payload, t: Ty, o: Options)
    requires !SameContainer(a, b) && (Container(a) || Container(b))
    requires if Container(a) then SameHead(a, s) else s == LeafTy(a)
    requires if Container(b) then SameHead(b, t) else t == LeafTy(b)
    ensures !Equiv(s, t) && (Sub(s, t, o) <==> a.ErrorT? || b.ErrorT? || b.AnyT? || a.NeverT?)
  {
    if !Container(a) { LeafIsNoContainer(a); }
    if !Container(b) { LeafIsNoContainer(b); }
  }

  ghost predicate SameHead(a: Payload, s: Ty) {
    (a.OptionalT? && s.TOptional?) || (a.ListT? && s.TList?) || (a.SetT? && s.TSet?) || (a.MapT? && s.TMap?)
  }

  /** Subtyping of two pointers, one level unfolded. */
  lemma SubStep(storage: seq<Payload>, p: TypePtr, q: TypePtr, o: Options, kind: RelationKind)
    requires Complete(storage) && Pointer(storage, p) && Pointer(storage, q) && Rank(kind) == 1
    requires ChildPairs(storage, p, q)
    ensures var a, b := storage[p - 1], storage[q - 1];
      var sub := Holds(storage, o, kind, p, q);
      if a.ErrorT? || b.ErrorT? || b.AnyT? || a.NeverT? || Holds(storage, o, Equivalent, p, q) then sub
      else if a.EnumVariantT? && b.EnumT? then
        sub <==> NominalNameMatches(a.symbol, a.canonicalName, b.symbol, b.canonicalName)
      else if a.OptionalT? && b.OptionalT? then sub <==> Holds(storage, o, Subtype, a.inner, b.inner)
      else if a.ListT? && b.ListT? then sub <==> Holds(storage, o, Subtype, a.element, b.element)
      else if a.SetT? && b.SetT? then sub <==> Holds(storage, o, Subtype, a.element, b.element)
      else if a.MapT? && b.MapT? then
        sub <==> Holds(storage, o, Equivalent, a.key, b.key) && Holds(storage, o, Subtype, a.value, b.value)
      else sub <==> ScalarSub(a, b, o)
  {
    hide Denote, LeafTy, Height, Depth, Equiv;
    Shape(storage, p);
    Shape(storage, q);
    var a, b := storage[p - 1], storage[q - 1];
    if !Container(a) && !Container(b) {
      LeafTySub(a, b, o);
    } else if SameContainer(a, b) {
      SubOfContainers(Denote(storage, p), Denote(storage, q), o);
    } else {
      MixedSub(a, Denote(storage, p), b, Denote(storage, q), o);
    }
  }

  ghost predicate ScalarSub(a: Payload, b: Payload, o: Options) {
    || (o.allowBoundedStringRelaxation && a.BoundedStringT?
        && (b.StringT? || (b.BoundedStringT? && a.minimum >= b.minimum && a.maximum <= b.maximum)))
    || (o.allowNumericWidening && a.IntT? && (b.FloatT? || b.DecimalT?))
    || (o.allowNumericWidening && a.DecimalT? && b.DecimalT? && b.scale >= a.scale)
  }

  /** The cases of equivalence without children; types of different shape are never equivalent. */
  method EquivalentLeaf(a: Payload, b: Payload) returns (r: bool)
    requires !SameContainer(a, b)
    ensures r <==> LeafEquiv(a, b)
  {
    r := false;
    match a {
      case AnyT => r := b.AnyT?;
      case NeverT => r := b.NeverT?;
      case ErrorT => r := b.ErrorT?;
      case UnitT => r := b.UnitT?;
      case BoolT => r := b.BoolT?;
      case IntT => r := b.IntT?;
      case FloatT => r := b.FloatT?;
      case StringT => r := b.StringT?;
      case UUIDT => r := b.UUIDT?;
      case TimestampT => r := b.TimestampT?;
      case DurationT => r := b.DurationT?;
      case BoundedStringT(lo, hi) => r := b.BoundedStringT? && lo == b.minimum && hi == b.maximum;
      case DecimalT(s) => r := b.DecimalT? && s == b.scale;
      case StructT(n, y) => r := b.StructT? && NominalNameMatches(y, n, b.symbol, b.canonicalName);
      case EnumT(n, y) => r := b.EnumT? && NominalNameMatches(y, n, b.symbol, b.canonicalName);
      case EnumVariantT(n, y, v) =>
        r := b.EnumVariantT? && v == b.variantName && NominalNameMatches(y, n, b.symbol, b.canonicalName);
      case _ =>
    }
  }
}
