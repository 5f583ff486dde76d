/** Hash-consed types (src/compiler/semantics/types.cpp). A pointer is a number: 0 is the null
    pointer and p > 0 is the p-th type allocated, so older types have smaller pointers. */
module TypeContext {
  import opened Wrappers

  type SymbolId = nat
  type TypePtr = nat
  const NULL: TypePtr := 0

  datatype TypeKind =
    | Any | Never | Error | Unit | Bool | Int | Float | String | BoundedString | UUID
    | Timestamp | Duration | Decimal | Struct | Enum | EnumVariant | Optional | List | Set | Map

  datatype Payload =
    | AnyT | NeverT | ErrorT | UnitT | BoolT | IntT | FloatT | StringT
    | BoundedStringT(minimum: int, maximum: int)
    | UUIDT | TimestampT | DurationT
    | DecimalT(scale: int)
    | StructT(canonicalName: string, symbol: Option<SymbolId>)
    | EnumT(canonicalName: string, symbol: Option<SymbolId>)
    | EnumVariantT(canonicalName: string, symbol: Option<SymbolId>, variantName: string)
    | OptionalT(inner: TypePtr)
    | ListT(element: TypePtr)
    | SetT(element: TypePtr)
    | MapT(key: TypePtr, value: TypePtr)

  datatype TypeKey = TypeKey(kind: TypeKind, name: string, variantName: string,
                             stringBounds: Option<(int, int)>, decimalScale: Option<int>,
                             first: TypePtr, second: TypePtr, nominalSymbol: Option<SymbolId>)

  /** What a pointer stands for: the type written out in full. */
  datatype Ty =
    | TNull | TAny | TNever | TError | TUnit | TBool | TInt | TFloat | TString
    | TBoundedString(minimum: int, maximum: int)
    | TUUID | TTimestamp | TDuration
    | TDecimal(scale: int)
    | TStruct(name: string, symbol: Option<SymbolId>)
    | TEnum(name: string, symbol: Option<SymbolId>)
    | TEnumVariant(name: string, symbol: Option<SymbolId>, variantName: string)
    | TOptional(inner: Ty)
    | TList(element: Ty)
    | TSet(element: Ty)
    | TMap(key: Ty, value: Ty)

  /** The children of every type are older than the type itself. */
  ghost predicate ChildrenOlder(p: Payload, at: TypePtr) {
    match p
    case OptionalT(c) => c < at
    case ListT(c) => c < at
    case SetT(c) => c < at
    case MapT(k, v) => k < at && v < at
    case _ => true
  }

  ghost predicate Arena(storage: seq<Payload>) {
    forall i :: 0 <= i < |storage| ==> ChildrenOlder(storage[i], i + 1)
  }

  ghost function Denote(storage: seq<Payload>, p: TypePtr): Ty
    requires Arena(storage) && p <= |storage|
    decreases p
  {
    if p == NULL then TNull
    else
      match storage[p - 1]
      case OptionalT(c) => TOptional(Denote(storage, c))
      case ListT(c) => TList(Denote(storage, c))
      case SetT(c) => TSet(Denote(storage, c))
      case MapT(k, v) => TMap(Denote(storage, k), Denote(storage, v))
      case leaf => LeafTy(leaf)
  }

  ghost function LeafTy(p: Payload): Ty {
    match p
    case AnyT => TAny
    case NeverT => TNever
    case ErrorT => TError
    case UnitT => TUnit
    case BoolT => TBool
    case IntT => TInt
    case FloatT => TFloat
    case StringT => TString
    case BoundedStringT(lo, hi) => TBoundedString(lo, hi)
    case UUIDT => TUUID
    case TimestampT => TTimestamp
    case DurationT => TDuration
    case DecimalT(s) => TDecimal(s)
    case StructT(n, s) => TStruct(n, s)
    case EnumT(n, s) => TEnum(n, s)
    case EnumVariantT(n, s, v) => TEnumVariant(n, s, v)
    case _ => TNull
  }

  function BuildPayload(k: TypeKey): Payload {
    match k.kind
    case Any => AnyT
    case Never => NeverT
    case Error => ErrorT
    case Unit => UnitT
    case Bool => BoolT
    case Int => IntT
    case Float => FloatT
    case String => StringT
    case BoundedString =>
      BoundedStringT(if k.stringBounds.Some? then k.stringBounds.value.0 else 0,
                     if k.stringBounds.Some? then k.stringBounds.value.1 else 0)
    case UUID => UUIDT
    case Timestamp => TimestampT
    case Duration => DurationT
    case Decimal => DecimalT(if k.decimalScale.Some? then k.decimalScale.value else 0)
    case Struct => StructT(k.name, k.nominalSymbol)
    case Enum => EnumT(k.name, k.nominalSymbol)
    case EnumVariant => EnumVariantT(k.name, k.nominalSymbol, k.variantName)
    case Optional => OptionalT(k.first)
    case List => ListT(k.first)
    case Set => SetT(k.first)
    case Map => MapT(k.first, k.second)
  }

  function PlainKey(kind: TypeKind): TypeKey {
    TypeKey(kind, "", "", None, None, NULL, NULL, None)
  }

  /** The one key the constructors use for a payload. */
  function KeyOf(p: Payload): TypeKey {
    match p
    case AnyT => PlainKey(Any)
    case NeverT => PlainKey(Never)
    case ErrorT => PlainKey(Error)
    case UnitT => PlainKey(Unit)
    case BoolT => PlainKey(Bool)
    case IntT => PlainKey(Int)
    case FloatT => PlainKey(Float)
    case StringT => PlainKey(String)
    case BoundedStringT(lo, hi) => PlainKey(BoundedString).(stringBounds := Some((lo, hi)))
    case UUIDT => PlainKey(UUID)
    case TimestampT => PlainKey(Timestamp)
    case DurationT => PlainKey(Duration)
    case DecimalT(s) => PlainKey(Decimal).(decimalScale := Some(s))
    case StructT(n, s) => PlainKey(Struct).(name := n, nominalSymbol := s)
    case EnumT(n, s) => PlainKey(Enum).(name := n, nominalSymbol := s)
    case EnumVariantT(n, s, v) => PlainKey(EnumVariant).(name := n, nominalSymbol := s, variantName := v)
    case OptionalT(c) => PlainKey(Optional).(first := c)
    case ListT(c) => PlainKey(List).(first := c)
    case SetT(c) => PlainKey(Set).(first := c)
    case MapT(k, v) => PlainKey(Map).(first := k, second := v)
  }

  ghost predicate Canonical(k: TypeKey) {
    k == KeyOf(BuildPayload(k))
  }

  /** Each pool entry points at the payload of its key, every type has a key, and no type has two. */
  ghost predicate PoolOk(storage: seq<Payload>, pool: map<TypeKey, TypePtr>) {
    && Arena(storage)
    && (forall k :: k in pool ==> 1 <= pool[k] <= |storage| && storage[pool[k] - 1] == BuildPayload(k))
    && (forall p :: 1 <= p <= |storage| ==> HasKey(pool, p))
    && (forall k, l :: k in pool && l in pool && pool[k] == pool[l] ==> k == l)
  }

  ghost predicate HasKey(pool: map<TypeKey, TypePtr>, p: TypePtr) {
    exists k :: k in pool && pool[k] == p
  }

  /** No two keys in use stand for the same payload. */
  ghost predicate UniquePayloads(pool: map<TypeKey, TypePtr>) {
    forall k, l :: k in pool && l in pool && BuildPayload(k) == BuildPayload(l) ==> k == l
  }

  /** The two kinds whose bare key is not the constructors' own. */
  predicate HasTwoKeys(kind: TypeKind) {
    kind == BoundedString || kind == Decimal
  }

  /** The keys that contexts can be asked for: the constructors' own and those of bare kinds. */
  ghost predicate ApiPool(pool: map<TypeKey, TypePtr>) {
    forall k :: k in pool ==> Canonical(k) || (HasTwoKeys(k.kind) && k == PlainKey(k.kind))
  }

  /** Every key in use is the constructors' own. */
  ghost predicate CanonicalPool(pool: map<TypeKey, TypePtr>) {
    forall k :: k in pool ==> Canonical(k)
  }

  class TypeContext {
    var storage: seq<Payload>
    var pool: map<TypeKey, TypePtr>

    ghost predicate Valid()
      reads this
    {
      PoolOk(storage, pool)
    }

    constructor ()
      ensures Valid() && CanonicalPool(pool) && storage == []
    {
      storage, pool := [], map[];
    }

    method Intern(key: TypeKey) returns (r: TypePtr)
      requires Valid() && key.first <= |storage| && key.second <= |storage|
      modifies this
      ensures Valid()
      ensures key in old(pool) ==> storage == old(storage) && r == old(pool)[key]
      ensures key !in old(pool) ==> storage == old(storage) + [BuildPayload(key)] && r == |storage|
      ensures pool == old(pool)[key := r] && Grew(old(storage), storage, r, BuildPayload(key))
    {
      if key in pool {
        return pool[key];
      }
      AllocateOk(storage, pool, key);
      storage := storage + [BuildPayload(key)];
      r := |storage|;
      pool := pool[key := r];
    }

    /** Any kind may be asked for; BoundedString and Decimal are the two whose key is not canonical. */
    method Make(kind: TypeKind) returns (r: TypePtr)
      requires Valid()
      modifies this
      ensures Valid() && Grew(old(storage), storage, r, BuildPayload(PlainKey(kind)))
      ensures kind == Any ==> storage[r - 1] == AnyT
      ensures kind == Never ==> storage[r - 1] == NeverT
      ensures kind == Error ==> storage[r - 1] == ErrorT
      ensures kind == Unit ==> storage[r - 1] == UnitT
      ensures kind == Bool ==> storage[r - 1] == BoolT
      ensures kind == Int ==> storage[r - 1] == IntT
      ensures kind == Float ==> storage[r - 1] == FloatT
      ensures kind == String ==> storage[r - 1] == StringT
      ensures kind == BoundedString ==> storage[r - 1] == BoundedStringT(0, 0)
      ensures kind == UUID ==> storage[r - 1] == UUIDT
      ensures kind == Timestamp ==> storage[r - 1] == TimestampT
      ensures kind == Duration ==> storage[r - 1] == DurationT
      ensures kind == Decimal ==> storage[r - 1] == DecimalT(0)
      ensures CanonicalPool(old(pool)) ==> (CanonicalPool(pool) <==> !HasTwoKeys(kind))
      ensures CanonicalPool(old(pool)) && !HasTwoKeys(kind) ==> Unique(old(storage), storage, r)
      ensures ApiPool(old(pool)) ==> ApiPool(pool)
    {
      hide PoolOk, Grew, BuildPayload, KeyOf;
      r := Intern(PlainKey(kind));
      BuiltForKind(kind);
      GrewAt(old(storage), storage, r, BuildPayload(PlainKey(kind)));
      CanonicalExactlyWhen(kind);
      assert PlainKey(kind) in pool;
      if CanonicalPool(old(pool)) && !HasTwoKeys(kind) {
        InternIsUnique(old(storage), old(pool), storage, pool, PlainKey(kind));
      }
    }

    /** The constructors (bounded_string, decimal, struct_type, enum_type, enum_variant_type,
        optional, list, set, map): each interns the key of the payload it is asked for. */
    method Construct(p: Payload) returns (r: TypePtr)
      requires Valid() && ChildrenOlder(p, |storage| + 1)
      modifies this
      ensures Valid() && Grew(old(storage), storage, r, p)
      ensures CanonicalPool(old(pool)) ==> CanonicalPool(pool) && Unique(old(storage), storage, r)
      ensures ApiPool(old(pool)) ==> ApiPool(pool)
    {
      KeyOfPayload(p);
      r := Intern(KeyOf(p));
      if CanonicalPool(old(pool)) {
        InternIsUnique(old(storage), old(pool), storage, pool, KeyOf(p));
      }
    }

    /** For those two kinds sharing fails in every context: the bare kind and its constructor yield
        two pointers for one type. */
    method MakeTwice(kind: TypeKind) returns (p: TypePtr, q: TypePtr)
      requires Valid() && HasTwoKeys(kind)
      modifies this
      ensures Valid() && p <= |storage| && q <= |storage|
      ensures p != q && Denote(storage, p) == Denote(storage, q)
    {
      hide PoolOk, KeyOf, BuildPayload, Denote, Arena, Grew, PlainKey;
      var payload := BuildPayload(PlainKey(kind));
      TwoKeys(kind);
      SmallKeys(kind);
      p := Intern(PlainKey(kind));
      q := Intern(KeyOf(payload));
      PoolFacts(storage, pool);
      SharedPayloadHasTwoPointers(storage, pool, PlainKey(kind), KeyOf(payload));
    }
  }

  lemma SmallKeys(kind: TypeKind)
    requires HasTwoKeys(kind)
    ensures PlainKey(kind).first == PlainKey(kind).second == NULL
    ensures var k := KeyOf(BuildPayload(PlainKey(kind))); k.first == k.second == NULL
  {
  }

  lemma BuiltForKind(kind: TypeKind)
    ensures var p := BuildPayload(PlainKey(kind));
      match kind
      case Any => p == AnyT
      case Never => p == NeverT
      case Error => p == ErrorT
      case Unit => p == UnitT
      case Bool => p == BoolT
      case Int => p == IntT
      case Float => p == FloatT
      case String => p == StringT
      case BoundedString => p == BoundedStringT(0, 0)
      case UUID => p == UUIDT
      case Timestamp => p == TimestampT
      case Duration => p == DurationT
      case Decimal => p == DecimalT(0)
      case _ => true
  {
  }

  lemma GrewAt(before: seq<Payload>, after: seq<Payload>, r: TypePtr, p: Payload)
    requires Grew(before, after, r, p)
    ensures 1 <= r <= |after| && after[r - 1] == p
  {
  }

  /** What the payloads of the kinds without children mean. */
  lemma PayloadsMean(storage: seq<Payload>, p: TypePtr)
    requires Arena(storage) && 1 <= p <= |storage|
    ensures var ty := Denote(storage, p);
      match storage[p - 1]
      case AnyT => ty == TAny
      case NeverT => ty == TNever
      case ErrorT => ty == TError
      case UnitT => ty == TUnit
      case BoolT => ty == TBool
      case IntT => ty == TInt
      case FloatT => ty == TFloat
      case StringT => ty == TString
      case BoundedStringT(lo, hi) => ty == TBoundedString(lo, hi)
      case UUIDT => ty == TUUID
      case TimestampT => ty == TTimestamp
      case DurationT => ty == TDuration
      case DecimalT(scale) => ty == TDecimal(scale)
      case StructT(n, x) => ty == TStruct(n, x)
      case EnumT(n, x) => ty == TEnum(n, x)
      case EnumVariantT(n, x, v) => ty == TEnumVariant(n, x, v)
      case OptionalT(c) => ty == TOptional(Denote(storage, c))
      case ListT(c) => ty == TList(Denote(storage, c))
      case SetT(c) => ty == TSet(Denote(storage, c))
      case MapT(k, v) => ty == TMap(Denote(storage, k), Denote(storage, v))
  {
  }

  lemma CanonicalExactlyWhen(kind: TypeKind)
    ensures Canonical(PlainKey(kind)) <==> !HasTwoKeys(kind)
    ensures PlainKey(kind).kind == kind
  {
  }

  lemma PoolFacts(storage: seq<Payload>, pool: map<TypeKey, TypePtr>)
    requires PoolOk(storage, pool)
    ensures Arena(storage)
    ensures forall k :: k in pool ==> 1 <= pool[k] <= |storage| && storage[pool[k] - 1] == BuildPayload(k)
    ensures forall k, l :: k in pool && l in pool && pool[k] == pool[l] ==> k == l
  {
  }

  lemma ArenaGrows(storage: seq<Payload>, key: TypeKey)
    requires Arena(storage) && key.first <= |storage| && key.second <= |storage|
    ensures Arena(storage + [BuildPayload(key)])
  {
  }

  lemma AllocateOk(storage: seq<Payload>, pool: map<TypeKey, TypePtr>, key: TypeKey)
    requires PoolOk(storage, pool) && key !in pool && key.first <= |storage| && key.second <= |storage|
    ensures PoolOk(storage + [BuildPayload(key)], pool[key := |storage| + 1])
  {
    hide BuildPayload, Arena;
    var after, grown := storage + [BuildPayload(key)], pool[key := |storage| + 1];
    ArenaGrows(storage, key);
    forall p | 1 <= p <= |after|
      ensures HasKey(grown, p)
    {
      if p <= |storage| {
        assert HasKey(pool, p);
        var k :| k in pool && pool[k] == p;
        assert k in grown && grown[k] == p;
      } else {
        assert key in grown && grown[key] == p;
      }
    }
  }

  /** Interning a canonical key yields the only pointer with that payload. */
  lemma InternIsUnique(before: seq<Payload>, earlier: map<TypeKey, TypePtr>, after: seq<Payload>,
                       pool: map<TypeKey, TypePtr>, key: TypeKey)
    requires PoolOk(before, earlier) && PoolOk(after, pool) && CanonicalPool(earlier) && Canonical(key)
    requires key in pool && pool == earlier[key := pool[key]]
    requires if key in earlier then after == before else after == before + [BuildPayload(key)]
    ensures CanonicalPool(pool) && Unique(before, after, pool[key])
  {
    hide KeyOf, BuildPayload;
    var r := pool[key];
    CanonicalIsUnique(pool);
    assert after[r - 1] == BuildPayload(key);
    forall i | 0 <= i < |after| && after[i] == after[r - 1]
      ensures i == r - 1
    {
      PointerOfPayload(after, pool, i + 1, key);
    }
    if after[r - 1] in before {
      var i :| 0 <= i < |before| && before[i] == after[r - 1];
      assert after[i] == after[r - 1] == after[|after| - 1] || after == before;
    }
  }

  lemma PointerOfPayload(storage: seq<Payload>, pool: map<TypeKey, TypePtr>, p: TypePtr, key: TypeKey)
    requires PoolOk(storage, pool) && UniquePayloads(pool) && key in pool && 1 <= p <= |storage|
    requires storage[p - 1] == BuildPayload(key)
    ensures p == pool[key]
  {
    hide BuildPayload;
    assert HasKey(pool, p);
    var k :| k in pool && pool[k] == p;
  }

  lemma CanonicalIsUnique(pool: map<TypeKey, TypePtr>)
    requires CanonicalPool(pool)
    ensures UniquePayloads(pool)
  {
    hide KeyOf, BuildPayload;
  }

  /** Main result: two pointers are equal exactly when they denote the same type, as long as no payload
      has two keys. */
  lemma {:induction false} SamePointerExactlyWhenSameType(storage: seq<Payload>, pool: map<TypeKey, TypePtr>,
                                                          p: TypePtr, q: TypePtr)
    requires PoolOk(storage, pool) && UniquePayloads(pool) && p <= |storage| && q <= |storage|
    ensures p == q <==> Denote(storage, p) == Denote(storage, q)
    decreases p
  {
    PoolFacts(storage, pool);
    hide PoolOk, UniquePayloads, BuildPayload;
    if p != NULL && q != NULL && Denote(storage, p) == Denote(storage, q) {
      var b := storage[q - 1];
      assert ChildrenOlder(b, q) && ChildrenOlder(storage[p - 1], p);
      match storage[p - 1] {
        case OptionalT(c) => SamePointerExactlyWhenSameType(storage, pool, c, b.inner);
        case ListT(c) => SamePointerExactlyWhenSameType(storage, pool, c, b.element);
        case SetT(c) => SamePointerExactlyWhenSameType(storage, pool, c, b.element);
        case MapT(k, v) =>
          SamePointerExactlyWhenSameType(storage, pool, k, b.key);
          SamePointerExactlyWhenSameType(storage, pool, v, b.value);
        case _ =>
      }
      assert storage[p - 1] == b;
      OnePointerPerPayload(storage, pool, p, q);
    }
  }

  lemma OnePointerPerPayload(storage: seq<Payload>, pool: map<TypeKey, TypePtr>, p: TypePtr, q: TypePtr)
    requires PoolOk(storage, pool) && UniquePayloads(pool) && 1 <= p <= |storage| && 1 <= q <= |storage|
    requires storage[p - 1] == storage[q - 1]
    ensures p == q
  {
    hide BuildPayload;
    assert HasKey(pool, p);
    var k :| k in pool && pool[k] == p;
    PointerOfPayload(storage, pool, q, k);
  }

  /** The storage gained at most one type, and r has the payload asked for. */
  ghost predicate Grew(before: seq<Payload>, after: seq<Payload>, r: TypePtr, p: Payload) {
    && (after == before || after == before + [p])
    && 1 <= r <= |after| && after[r - 1] == p
  }

  /** r is the only pointer with its payload, so nothing was added that was there before. */
  ghost predicate Unique(before: seq<Payload>, after: seq<Payload>, r: TypePtr) {
    && 1 <= r <= |after|
    && (forall i :: 0 <= i < |after| && after[i] == after[r - 1] ==> i == r - 1)
    && (after[r - 1] in before ==> after == before)
  }

  lemma KeyOfPayload(p: Payload)
    ensures BuildPayload(KeyOf(p)) == p
  {
    match p case _ =>
  }

  ghost predicate Shares(storage: seq<Payload>)
    requires Arena(storage)
  {
    forall p: TypePtr, q: TypePtr ::
      p <= |storage| && q <= |storage| && Denote(storage, p) == Denote(storage, q) ==> p == q
  }

  lemma SharedPayloadHasTwoPointers(storage: seq<Payload>, pool: map<TypeKey, TypePtr>, k: TypeKey, l: TypeKey)
    requires PoolOk(storage, pool) && k in pool && l in pool && k != l && BuildPayload(k) == BuildPayload(l)
    ensures 1 <= pool[k] <= |storage| && 1 <= pool[l] <= |storage| && pool[k] != pool[l]
    ensures Denote(storage, pool[k]) == Denote(storage, pool[l])
  {
    hide BuildPayload;
    assert storage[pool[k] - 1] == storage[pool[l] - 1];
  }

  lemma SharesExactlyWhenUnique(storage: seq<Payload>, pool: map<TypeKey, TypePtr>)
    requires PoolOk(storage, pool)
    ensures Arena(storage)
    ensures Shares(storage) <==> UniquePayloads(pool)
  {
    PoolFacts(storage, pool);
    hide PoolOk, BuildPayload, Denote, Arena;
    if UniquePayloads(pool) {
      forall p: TypePtr, q: TypePtr | p <= |storage| && q <= |storage| && Denote(storage, p) == Denote(storage, q)
        ensures p == q
      {
        SamePointerExactlyWhenSameType(storage, pool, p, q);
      }
    } else {
      var k, l :| k in pool && l in pool && BuildPayload(k) == BuildPayload(l) && k != l;
      SharedPayloadHasTwoPointers(storage, pool, k, l);
    }
  }

  /** Both ways of asking for the kind have been used. */
  ghost predicate MadeBothWays(pool: map<TypeKey, TypePtr>, kind: TypeKind) {
    PlainKey(kind) in pool && KeyOf(BuildPayload(PlainKey(kind))) in pool
  }

  lemma UniqueExactlyWhen(pool: map<TypeKey, TypePtr>)
    requires ApiPool(pool)
    ensures UniquePayloads(pool) <==> !MadeBothWays(pool, BoundedString) && !MadeBothWays(pool, Decimal)
  {
    hide KeyOf, BuildPayload, PlainKey;
    TwoKeys(BoundedString);
    TwoKeys(Decimal);
    forall k, l | k in pool && l in pool && BuildPayload(k) == BuildPayload(l)
      ensures BuildPayload(k).BoundedStringT? <==> k.kind == BoundedString
      ensures BuildPayload(k).DecimalT? <==> k.kind == Decimal
      ensures k.kind == l.kind
    {
      KindOfPayload(k);
      KindOfPayload(l);
    }
  }

  lemma TwoKeys(kind: TypeKind)
    requires HasTwoKeys(kind)
    ensures PlainKey(kind).kind == kind && PlainKey(kind) != KeyOf(BuildPayload(PlainKey(kind)))
    ensures BuildPayload(KeyOf(BuildPayload(PlainKey(kind)))) == BuildPayload(PlainKey(kind))
  {
    hide KeyOf, BuildPayload, PlainKey;
    CanonicalExactlyWhen(kind);
    KeyOfPayload(BuildPayload(PlainKey(kind)));
  }

  lemma KindOfPayload(k: TypeKey)
    ensures k.kind == KeyOf(BuildPayload(k)).kind
    ensures BuildPayload(k).BoundedStringT? <==> k.kind == BoundedString
    ensures BuildPayload(k).DecimalT? <==> k.kind == Decimal
  {
  }

  /** Main result: in every context that can be reached, each type has one pointer exactly when neither
      of the two kinds has been made both by its bare kind and by its constructor. */
  lemma SharesExactlyWhen(storage: seq<Payload>, pool: map<TypeKey, TypePtr>)
    requires PoolOk(storage, pool) && ApiPool(pool)
    ensures Arena(storage)
    ensures Shares(storage) <==> !MadeBothWays(pool, BoundedString) && !MadeBothWays(pool, Decimal)
  {
    hide Shares, UniquePayloads, MadeBothWays, ApiPool;
    SharesExactlyWhenUnique(storage, pool);
    UniqueExactlyWhen(pool);
  }

  /** Main result: later interning never changes what an earlier pointer denotes. */
  lemma {:induction false} DenotationIsStable(before: seq<Payload>, after: seq<Payload>, p: TypePtr)
    requires Arena(before) && Arena(after) && before <= after && p <= |before|
    ensures Denote(before, p) == Denote(after, p)
    decreases p
  {
    if p != NULL {
      assert before[p - 1] == after[p - 1];
      assert ChildrenOlder(before[p - 1], p);
      match before[p - 1] {
        case OptionalT(c) => DenotationIsStable(before, after, c);
        case ListT(c) => DenotationIsStable(before, after, c);
        case SetT(c) => DenotationIsStable(before, after, c);
        case MapT(k, v) =>
          DenotationIsStable(before, after, k);
          DenotationIsStable(before, after, v);
        case _ =>
      }
    }
  }
}
