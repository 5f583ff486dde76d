/** Facts about places and when they hold (src/compiler/semantics/flow_facts.cpp). */
module FlowFacts {
  import opened Wrappers

  datatype Place = Place(root: string, members: seq<string>)

  datatype FactKind = IsNone | IsNotNone | IsVariant | IsNotVariant

  /** The names are empty unless the kind is about a variant. */
  datatype TypeFact = TypeFact(place: Place, kind: FactKind, enumName: string, variantName: string)

  predicate SameOrDescendant(candidate: Place, ancestor: Place) {
    && candidate.root == ancestor.root
    && |candidate.members| >= |ancestor.members|
    && candidate.members[..|ancestor.members|] == ancestor.members
  }

  // ---------------------------------------------------------------- run-time side

  /** Decimals and durations keep their spelling. A present optional is either the bare value or the value in a
      wrapper, as some(e) makes it. */
  datatype Value =
    | VNone
    | VSome(inner: Value)
    | VBool(b: bool)
    | VInt(i: int)
    | VString(text: string)
    | VSpelled(spelling: string)
    | VEnum(enumName: string, variant: string)
    | VList(items: seq<Value>)
    | VStruct(fields: map<string, Value>)

  type Store = map<string, Value>

  function Member(v: Value, members: seq<string>): Option<Value>
    decreases |members|
  {
    if members == [] then Some(v)
    else if v.VStruct? && members[0] in v.fields then Member(v.fields[members[0]], members[1..])
    else if v.VList? && members == ["length"] then Some(VInt(|v.items|))
    else None
  }

  function Lookup(s: Store, p: Place): Option<Value> {
    if p.root in s then Member(s[p.root], p.members) else None
  }

  /** Replacing the member at a path; the structs on the way must exist. */
  function WithMember(v: Value, members: seq<string>, x: Value): Option<Value>
    decreases |members|
  {
    if members == [] then Some(x)
    else if !v.VStruct? || members[0] !in v.fields then None
    else
      match WithMember(v.fields[members[0]], members[1..], x)
      case None => None
      case Some(w) => Some(VStruct(v.fields[members[0] := w]))
  }

  function Write(s: Store, p: Place, x: Value): Option<Store> {
    if p.root !in s then None
    else
      match WithMember(s[p.root], p.members, x)
      case None => None
      case Some(v) => Some(s[p.root := v])
  }

  /** The part of a qualified name after its last "::". */
  function LocalName(n: string): string {
    var i := LastSeparator(n, |n|);
    if i < 0 then n else n[i + 2..]
  }

  function LastSeparator(n: string, end: nat): (i: int)
    requires end <= |n|
    ensures i == -1 || (0 <= i && i + 2 <= end)
  {
    if end < 2 then -1
    else if n[end - 2] == ':' && n[end - 1] == ':' then end - 2
    else LastSeparator(n, end - 1)
  }

  /** How a fact's enum name is matched: the full name or its last part. */
  predicate NameMatches(enumName: string, factName: string) {
    factName == enumName || factName == LocalName(enumName)
  }

  lemma {:induction false} NoSeparator(n: string, end: nat)
    requires end <= |n| && forall i :: 0 <= i < end ==> n[i] != ':'
    ensures LastSeparator(n, end) == -1
  {
    if end >= 2 {
      NoSeparator(n, end - 1);
    }
  }

  lemma {:induction false} SeparatorBefore(n: string, k: nat, end: nat)
    requires k + 2 <= end <= |n| && n[k..k + 2] == "::" && forall i :: k + 2 <= i < end ==> n[i] != ':'
    ensures LastSeparator(n, end) == k
    decreases end
  {
    assert n[k..k + 2][0] == n[k] && n[k..k + 2][1] == n[k + 1];
    if end > k + 2 {
      SeparatorBefore(n, k, end - 1);
    }
  }

  /** A fact speaks of an enum by its full name or by what is behind the last "::" of that. */
  lemma EnumNames(path: string, last: string, factName: string)
    requires ':' !in last
    ensures NameMatches(last, factName) <==> factName == last
    ensures NameMatches(path + "::" + last, factName) <==> factName == path + "::" + last || factName == last
  {
    var n := path + "::" + last;
    NoSeparator(last, |last|);
    assert n[|path|..|path| + 2] == "::";
    assert forall i :: |path| + 2 <= i < |n| ==> n[i] == last[i - |path| - 2];
    SeparatorBefore(n, |path|, |n|);
    assert n[|path| + 2..] == last;
  }

  /** Fields of structs, and the length of a list. */
  lemma MembersRead(fields: map<string, Value>, items: seq<Value>, m: string, more: seq<string>)
    ensures m in fields ==> Member(VStruct(fields), [m] + more) == Member(fields[m], more)
    ensures m !in fields ==> Member(VStruct(fields), [m] + more) == None
    ensures Member(VList(items), ["length"]) == Some(VInt(|items|))
    ensures m != "length" || more != [] ==> Member(VList(items), [m] + more) == None
  {
    assert ([m] + more)[0] == m && ([m] + more)[1..] == more;
    assert more != [] ==> |[m] + more| > 1;
  }

  /** What the types see of a value: the value, or what its wrapper holds. */
  predicate Reading(v: Value, w: Value) {
    w == v || (v.VSome? && w == v.inner)
  }

  ghost predicate IsNamedVariant(w: Value, f: TypeFact) {
    w.VEnum? && NameMatches(w.enumName, f.enumName) && w.variant == f.variantName
  }

  /** The meaning of a fact. A variant fact says nothing about values of other enums. */
  ghost predicate HoldsOf(f: TypeFact, v: Value) {
    match f.kind
    case IsNone => v.VNone?
    case IsNotNone => !v.VNone?
    case IsVariant => v.VEnum? && (NameMatches(v.enumName, f.enumName) ==> IsNamedVariant(v, f))
    case IsNotVariant => forall w :: Reading(v, w) ==> !IsNamedVariant(w, f)
  }

  ghost predicate Holds(f: TypeFact, s: Store) {
    Lookup(s, f.place).Some? && HoldsOf(f, Lookup(s, f.place).value)
  }

  ghost predicate AllHold(facts: set<TypeFact>, s: Store) {
    forall f :: f in facts ==> Holds(f, s)
  }

  // ------------------------------------------------------- writing and invalidating

  function Invalidated(facts: set<TypeFact>, p: Place): set<TypeFact> {
    set f | f in facts && !SameOrDescendant(f.place, p)
  }

  /** A member not below the written one is unchanged, unless it is a struct on the way to it. */
  lemma {:induction false} OtherMembersStay(v: Value, members: seq<string>, x: Value, other: seq<string>)
    requires WithMember(v, members, x).Some?
    requires !(members <= other)
    ensures var w := WithMember(v, members, x).value;
      || Member(w, other) == Member(v, other)
      || (Member(v, other).Some? && Member(w, other).Some?
          && Member(v, other).value.VStruct? && Member(w, other).value.VStruct?)
    decreases |members|
  {
    if other != [] && members[0] == other[0] {
      OtherMembersStay(v.fields[members[0]], members[1..], x, other[1..]);
    }
  }

  /** Main result: after a write, every fact that survives the invalidation still holds. */
  lemma InvalidationIsSound(facts: set<TypeFact>, s: Store, p: Place, x: Value)
    requires AllHold(facts, s) && Write(s, p, x).Some?
    ensures AllHold(Invalidated(facts, p), Write(s, p, x).value)
  {
    var r := Write(s, p, x).value;
    forall f | f in Invalidated(facts, p)
      ensures Holds(f, r)
    {
      assert Holds(f, s);
      if f.place.root == p.root {
        assert !(p.members <= f.place.members);
        OtherMembersStay(s[p.root], p.members, x, f.place.members);
      }
    }
  }

  /** And no fact is dropped in vain: some written value makes a fact false exactly when it is about the
      written place or one below it. */
  lemma DroppedFactsMayFail(f: TypeFact, s: Store, p: Place)
    requires Holds(f, s) && Write(s, p, VNone).Some?
    ensures SameOrDescendant(f.place, p) <==> exists x :: Write(s, p, x).Some? && !Holds(f, Write(s, p, x).value)
  {
    if SameOrDescendant(f.place, p) {
      var x := Against(f, p);
      AnyValueFits(s[p.root], p.members, VNone, x);
      WriteThenRead(s[p.root], p.members, x, f.place.members);
      if f.place == p {
        assert f.place.members[|p.members|..] == [];
        assert Reading(x, x);
      }
      assert !Holds(f, Write(s, p, x).value);
    } else {
      forall x | Write(s, p, x).Some?
        ensures Holds(f, Write(s, p, x).value)
      {
        InvalidationIsSound({f}, s, p, x);
        assert f in Invalidated({f}, p);
      }
    }
  }

  /** A value to write that a fact about the place denies, and one without members for facts below it. */
  function Against(f: TypeFact, p: Place): Value {
    if f.place != p then VNone
    else match f.kind
      case IsNone => VBool(true)
      case IsNotVariant => VEnum(f.enumName, f.variantName)
      case _ => VNone
  }

  lemma {:induction false} AnyValueFits(v: Value, members: seq<string>, x: Value, y: Value)
    ensures WithMember(v, members, x).Some? <==> WithMember(v, members, y).Some?
    decreases |members|
  {
    if members != [] && v.VStruct? && members[0] in v.fields {
      AnyValueFits(v.fields[members[0]], members[1..], x, y);
    }
  }

  /** At the place and below it one reads what was written. */
  lemma {:induction false} WriteThenRead(v: Value, members: seq<string>, x: Value, below: seq<string>)
    requires WithMember(v, members, x).Some? && members <= below
    ensures Member(WithMember(v, members, x).value, below) == Member(x, below[|members|..])
    decreases |members|
  {
    if members == [] {
      assert below[0..] == below;
    } else {
      WriteThenRead(v.fields[members[0]], members[1..], x, below[1..]);
      assert below[1..][|members| - 1..] == below[|members|..];
    }
  }

  /** What the executor does for an assignment to ctx: it replaces the first member as a whole. */
  function AssignFirstMember(s: Store, p: Place, x: Value): Option<Store> {
    if p.members == [] then None else Write(s, Place(p.root, p.members[..1]), x)
  }

  /** Whatever is known and whatever is written: the facts that survive invalidating the target hold
      after the executor's assignment. */
  ghost predicate InvalidationCovers(s: Store, p: Place) {
    forall facts: set<TypeFact>, x: Value | AllHold(facts, s) && AssignFirstMember(s, p, x).Some? ::
      AllHold(Invalidated(facts, p), AssignFirstMember(s, p, x).value)
  }

  /** A fact about the first member of the place, which survives when the place has more. */
  function FirstMemberFact(p: Place, kind: FactKind): TypeFact
    requires p.members != []
  {
    TypeFact(Place(p.root, p.members[..1]), kind, "", "")
  }

  /** Invalidating the target is enough for that exactly when the target has one member. */
  lemma ExecutorAssignments(s: Store, p: Place)
    requires p.members != [] && AssignFirstMember(s, p, VNone).Some?
    ensures InvalidationCovers(s, p) <==> |p.members| == 1
  {
    if |p.members| == 1 {
      assert p.members[..1] == p.members;
      forall facts: set<TypeFact>, x: Value | AllHold(facts, s) && AssignFirstMember(s, p, x).Some?
        ensures AllHold(Invalidated(facts, p), AssignFirstMember(s, p, x).value)
      {
        InvalidationIsSound(facts, s, p, x);
      }
    } else {
      SurvivingFactTurnsFalse(s, p);
    }
  }

  lemma SurvivingFactTurnsFalse(s: Store, p: Place)
    requires |p.members| > 1 && AssignFirstMember(s, p, VNone).Some?
    ensures !InvalidationCovers(s, p)
  {
    var first := Place(p.root, p.members[..1]);
    assert first.members[1..] == [];
    var v := s[p.root].fields[p.members[0]];
    assert Member(s[p.root], first.members) == Member(v, []) == Some(v);
    var f := FirstMemberFact(p, if v.VNone? then IsNone else IsNotNone);
    var x := if v.VNone? then VBool(true) else VNone;
    assert WithMember(v, [], x) == Some(x);
    var r := AssignFirstMember(s, p, x).value;
    WriteThenRead(s[p.root], first.members, x, first.members);
    assert AllHold({f}, s) && f in Invalidated({f}, p) && !Holds(f, r);
    assert !AllHold(Invalidated({f}, p), r);
  }

  // ------------------------------------------------------------------ the container

  class FlowFacts {
    var factsByPlace: map<Place, seq<TypeFact>>

    /** Buckets hold facts about their own place, none twice. */
    ghost predicate Valid()
      reads this
    {
      forall p :: p in factsByPlace ==>
        && (forall f :: f in factsByPlace[p] ==> f.place == p && Normal(f))
        && (forall i, j :: 0 <= i < j < |factsByPlace[p]| ==> factsByPlace[p][i] != factsByPlace[p][j])
    }

    ghost function Facts(): set<TypeFact>
      reads this
    {
      set p, f | p in factsByPlace && f in factsByPlace[p] :: f
    }

    constructor ()
      ensures Valid() && Facts() == {}
    {
      factsByPlace := map[];
    }

    method Add(fact: TypeFact)
      requires Valid() && Normal(fact)
      modifies this
      ensures Valid() && Facts() == old(Facts()) + {fact}
    {
      var bucket := if fact.place in factsByPlace then factsByPlace[fact.place] else [];
      var known := false;
      for i := 0 to |bucket|
        invariant known <==> fact in bucket[..i]
      {
        assert bucket[..i + 1] == bucket[..i] + [bucket[i]];
        known := known || SameFact(bucket[i], fact);
      }
      assert bucket[..|bucket|] == bucket;
      ghost var before := factsByPlace;
      factsByPlace := factsByPlace[fact.place := if known then bucket else bucket + [fact]];
      forall f
        ensures f in Facts() <==> f in old(Facts()) || f == fact
      {
        if f in Facts() {
          var p :| p in factsByPlace && f in factsByPlace[p];
        }
        if f in old(Facts()) {
          var p :| p in before && f in before[p];
          assert f in factsByPlace[p];
        }
        if f == fact {
          assert f in factsByPlace[fact.place];
        }
      }
    }

    method AddAll(bucket: seq<TypeFact>)
      requires Valid() && forall f :: f in bucket ==> Normal(f)
      modifies this
      ensures Valid() && Facts() == old(Facts()) + set f | f in bucket
    {
      hide Valid, Facts;
      for i := 0 to |bucket|
        invariant Valid() && Facts() == old(Facts()) + (set f | f in bucket[..i])
      {
        assert bucket[..i + 1] == bucket[..i] + [bucket[i]];
        Add(bucket[i]);
      }
      assert bucket[..|bucket|] == bucket;
    }

    /** Adds the other's facts in whatever order its hash map yields them. */
    method MergeFrom(other: FlowFacts)
      requires Valid() && other.Valid() && other != this
      modifies this
      ensures Valid() && Facts() == old(Facts()) + other.Facts()
    {
      var rest := other.factsByPlace.Keys;
      ghost var done: set<TypeFact> := {};
      while rest != {}
        invariant rest <= other.factsByPlace.Keys
        invariant Valid() && Facts() == old(Facts()) + done
        invariant done == set p, f | p in other.factsByPlace && p !in rest && f in other.factsByPlace[p] :: f
        decreases rest
      {
        var p :| p in rest;
        rest := rest - {p};
        AddAll(other.factsByPlace[p]);
        done := done + set f | f in other.factsByPlace[p];
      }
      assert done == other.Facts();
    }

    method Invalidate(place: Place)
      requires Valid()
      modifies this
      ensures Valid() && Facts() == Invalidated(old(Facts()), place)
    {
      ghost var before := factsByPlace;
      factsByPlace := map p | p in factsByPlace && !SameOrDescendant(p, place) :: factsByPlace[p];
      forall f
        ensures f in Facts() <==> f in Invalidated(old(Facts()), place)
      {
        assert f in Facts() <==> f.place in factsByPlace && f in factsByPlace[f.place];
        assert f in old(Facts()) <==> f.place in before && f in before[f.place];
      }
    }

    method HasFact(place: Place, kind: FactKind) returns (r: bool)
      requires Valid()
      ensures r <==> exists f :: f in Facts() && f.place == place && f.kind == kind
    {
      if place !in factsByPlace {
        return false;
      }
      var bucket := factsByPlace[place];
      for i := 0 to |bucket|
        invariant forall j :: 0 <= j < i ==> bucket[j].kind != kind
      {
        if bucket[i].kind == kind {
          assert place in factsByPlace && bucket[i] in factsByPlace[place];
          assert bucket[i] in Facts();
          return true;
        }
      }
      return false;
    }
  }

  predicate Normal(f: TypeFact) {
    f.kind == IsNone || f.kind == IsNotNone ==> f.enumName == "" && f.variantName == ""
  }

  /** Facts about one place are the same when the kinds are, and for variants the names too. */
  predicate SameFact(a: TypeFact, b: TypeFact) {
    a.kind == b.kind
    && (b.kind == IsVariant || b.kind == IsNotVariant ==> a.enumName == b.enumName && a.variantName == b.variantName)
  }
}
