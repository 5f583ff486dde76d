/** Constant values, their sort keys, and the normal form of set and map literals
    (src/compiler/semantics/const_sema.cpp). */
module ConstValues {
  import opened Wrappers
  import opened Digits
  import opened Sequences

  datatype Kind =
    | NoneLiteral | Bool | Integer | Float | Decimal | StringLiteral | Duration | EnumVariant | ConstReference
    | SomeOf | Struct | List | Set | Map | Unary | Binary | MemberAccess | IndexAccess

  datatype ConstValue = ConstValue(kind: Kind, scalar: string, symbol: Option<nat>,
                                   childNames: seq<string>, children: seq<ConstValue>)

  function KindCode(k: Kind): nat {
    match k
    case NoneLiteral => 0 case Bool => 1 case Integer => 2 case Float => 3 case Decimal => 4
    case StringLiteral => 5 case Duration => 6 case EnumVariant => 7 case ConstReference => 8
    case SomeOf => 9 case Struct => 10 case List => 11 case Set => 12 case Map => 13
    case Unary => 14 case Binary => 15 case MemberAccess => 16 case IndexAccess => 17
  }

  /** A resolved reference to a constant counts as the constant. */
  function Effective(v: ConstValue): (r: ConstValue)
    ensures r == v || r < v
  {
    if v.kind == ConstReference && |v.children| == 1 then Effective(v.children[0]) else v
  }

  predicate Equal(l: ConstValue, r: ConstValue)
    decreases l
  {
    var a, b := Effective(l), Effective(r);
    && a.kind == b.kind && a.scalar == b.scalar && a.symbol == b.symbol
    && a.childNames == b.childNames && |a.children| == |b.children|
    && forall i :: 0 <= i < |a.children| ==> Equal(a.children[i], b.children[i])
  }

  // ------------------------------------------------------------------- sort keys

  function KeyPart(s: string): string {
    Render(|s|) + ":" + s + ";"
  }

  function SymbolText(s: Option<nat>): string {
    if s.Some? then Render(s.value) else ""
  }

  /** A missing name counts as the empty one. */
  function NameAt(v: ConstValue, i: nat): string {
    if i < |v.childNames| then v.childNames[i] else ""
  }

  function SortKey(v: ConstValue): string
    decreases v
  {
    var e := Effective(v);
    KeyHeader(e) + ChildKeys(e, 0)
  }

  function KeyHeader(e: ConstValue): string {
    Render(KindCode(e.kind)) + "|" + KeyPart(e.scalar) + KeyPart(SymbolText(e.symbol))
  }

  function ChildKeys(e: ConstValue, i: nat): string
    requires i <= |e.children|
    decreases e, |e.children| - i
  {
    if i == |e.children| then ""
    else KeyPart(NameAt(e, i)) + KeyPart(SortKey(e.children[i])) + ChildKeys(e, i + 1)
  }

  lemma HeaderInParts(e: ConstValue, key: string)
    requires key == Render(KindCode(e.kind)) + "|"
    ensures key + KeyPart(e.scalar) + KeyPart(SymbolText(e.symbol)) == KeyHeader(e)
  {
  }

  lemma NextChildKey(e: ConstValue, i: nat, key: string)
    requires i < |e.children|
    ensures key + ChildKeys(e, i) == key + (KeyPart(NameAt(e, i)) + KeyPart(SortKey(e.children[i]))) + ChildKeys(e, i + 1)
  {
    hide KeyPart;
  }

  /** const_value_sort_key builds the key front to back. */
  method ComputeSortKey(v: ConstValue) returns (key: string)
    ensures key == SortKey(v)
    decreases v
  {
    hide KeyPart, KeyHeader, ChildKeys, NameAt;
    var e := Effective(v);
    key := Render(KindCode(e.kind)) + "|";
    HeaderInParts(e, key);
    key := key + KeyPart(e.scalar);
    key := key + KeyPart(SymbolText(e.symbol));
    for i := 0 to |e.children|
      invariant key + ChildKeys(e, i) == SortKey(v)
    {
      var child := ComputeSortKey(e.children[i]);
      NextChildKey(e, i, key);
      key := key + (KeyPart(NameAt(e, i)) + KeyPart(child));
    }
    NoMoreChildKeys(e);
  }

  lemma NoMoreChildKeys(e: ConstValue)
    ensures ChildKeys(e, |e.children|) == ""
  {
  }

  // ------------------------------------------------------------------- the format

  /** The codes of the kinds, in the order of their declaration. */
  lemma KindCodes()
    ensures KindCode(NoneLiteral) == 0 && KindCode(Bool) == 1 && KindCode(Integer) == 2 && KindCode(Float) == 3
    ensures KindCode(Decimal) == 4 && KindCode(StringLiteral) == 5 && KindCode(Duration) == 6
    ensures KindCode(EnumVariant) == 7 && KindCode(ConstReference) == 8 && KindCode(SomeOf) == 9
    ensures KindCode(Struct) == 10 && KindCode(List) == 11 && KindCode(Set) == 12 && KindCode(Map) == 13
    ensures KindCode(Unary) == 14 && KindCode(Binary) == 15 && KindCode(MemberAccess) == 16 && KindCode(IndexAccess) == 17
  {
  }

  /** Every part has its length in front. */
  lemma PartsAsWritten(s: string)
    ensures KeyPart(s) == Render(|s|) + ":" + s + ";"
  {
  }

  /** The key of a value without children: its kind, its scalar and its symbol. */
  lemma KeyOfLeaf(v: ConstValue)
    requires v.children == []
    ensures SortKey(v) == Render(KindCode(v.kind)) + "|" + KeyPart(v.scalar)
      + KeyPart(if v.symbol.Some? then Render(v.symbol.value) else "")
  {
    hide KeyPart;
  }

  /** Each child adds its name and its key. */
  lemma KeyGrows(v: ConstValue, c: ConstValue, name: string)
    requires v.kind != ConstReference && |v.childNames| == |v.children|
    ensures SortKey(v.(children := v.children + [c], childNames := v.childNames + [name]))
      == SortKey(v) + KeyPart(name) + KeyPart(SortKey(c))
  {
    hide KeyPart, KeyHeader, ChildKeys, SortKey;
    var w := v.(children := v.children + [c], childNames := v.childNames + [name]);
    ChildKeysGrow(v, w, c, name, 0);
    KeyUnfolds(v);
    KeyUnfolds(w);
    SameHeader(v, w);
    Regroup(KeyHeader(v), ChildKeys(v, 0), KeyPart(name), KeyPart(SortKey(c)));
  }

  lemma SameHeader(v: ConstValue, w: ConstValue)
    requires v.kind == w.kind && v.scalar == w.scalar && v.symbol == w.symbol
    ensures KeyHeader(v) == KeyHeader(w)
  {
  }

  lemma Regroup(a: string, b: string, c: string, d: string)
    ensures a + (b + (c + d)) == a + b + c + d
  {
  }

  lemma KeyUnfolds(v: ConstValue)
    requires v.kind != ConstReference
    ensures SortKey(v) == KeyHeader(v) + ChildKeys(v, 0)
  {
  }

  /** A reference to a constant, which has one child, has the key of that and is equal to it; everything else
      stands for itself. */
  lemma ResolvedReferences(v: ConstValue)
    ensures v.kind == ConstReference && |v.children| == 1 ==>
      Effective(v) == Effective(v.children[0]) && SortKey(v) == SortKey(v.children[0])
    ensures v.kind != ConstReference || |v.children| != 1 ==> Effective(v) == v
  {
  }

  lemma {:induction false} ChildKeysGrow(v: ConstValue, w: ConstValue, c: ConstValue, name: string, i: nat)
    requires |v.childNames| == |v.children| && i <= |v.children|
    requires w.children == v.children + [c] && w.childNames == v.childNames + [name]
    ensures ChildKeys(w, i) == ChildKeys(v, i) + (KeyPart(name) + KeyPart(SortKey(c)))
    decreases |v.children| - i
  {
    hide KeyPart, SortKey;
    if i == |v.children| {
      assert ChildKeys(w, i + 1) == "";
    } else {
      ChildKeysGrow(v, w, c, name, i + 1);
    }
  }

  // ------------------------------------------------------------ unique decoding

  lemma NoColon(n: nat, sep: char)
    requires !IsDigit(sep)
    ensures sep !in Render(n)
  {
  }

  /** A length-prefixed part can be split off any text. */
  lemma PartDecodes(a: string, x: string, b: string, y: string)
    requires KeyPart(a) + x == KeyPart(b) + y
    ensures a == b && x == y
  {
    var ra, rb := a + ";" + x, b + ";" + y;
    assert KeyPart(a) + x == Render(|a|) + [':'] + ra;
    assert KeyPart(b) + y == Render(|b|) + [':'] + rb;
    NoColon(|a|, ':');
    NoColon(|b|, ':');
    SplitAtSeparator(Render(|a|), ra, Render(|b|), rb, ':');
    RenderInjective(|a|, |b|);
    assert a == ra[..|a|] && b == rb[..|b|];
    assert x == ra[|a| + 1..] && y == rb[|b| + 1..];
  }

  lemma SymbolTextDecodes(a: Option<nat>, b: Option<nat>)
    requires SymbolText(a) == SymbolText(b)
    ensures a == b
  {
    if a.Some? && b.Some? {
      RenderInjective(a.value, b.value);
    }
  }

  lemma KindDecodes(k: Kind, x: string, l: Kind, y: string)
    requires Render(KindCode(k)) + "|" + x == Render(KindCode(l)) + "|" + y
    ensures k == l && x == y
  {
    NoColon(KindCode(k), '|');
    NoColon(KindCode(l), '|');
    SplitAtSeparator(Render(KindCode(k)), x, Render(KindCode(l)), y, '|');
    RenderInjective(KindCode(k), KindCode(l));
  }

  /** Equality of what the sort key sees: names are compared child by child. */
  ghost predicate SameContent(l: ConstValue, r: ConstValue)
    decreases l
  {
    var a, b := Effective(l), Effective(r);
    && a.kind == b.kind && a.scalar == b.scalar && a.symbol == b.symbol
    && |a.children| == |b.children|
    && forall i :: 0 <= i < |a.children| ==> NameAt(a, i) == NameAt(b, i) && SameContent(a.children[i], b.children[i])
  }

  lemma HeaderUnfolds(a: ConstValue, x: string)
    ensures KeyHeader(a) + x == Render(KindCode(a.kind)) + "|" + (KeyPart(a.scalar) + (KeyPart(SymbolText(a.symbol)) + x))
  {
    hide KeyPart;
  }

  lemma HeaderDecodes(a: ConstValue, x: string, b: ConstValue, y: string)
    ensures KeyHeader(a) + x == KeyHeader(b) + y <==>
      a.kind == b.kind && a.scalar == b.scalar && a.symbol == b.symbol && x == y
  {
    if KeyHeader(a) + x == KeyHeader(b) + y {
      HeaderDecodesTo(a, x, b, y);
    }
  }

  lemma HeaderDecodesTo(a: ConstValue, x: string, b: ConstValue, y: string)
    requires KeyHeader(a) + x == KeyHeader(b) + y
    ensures a.kind == b.kind && a.scalar == b.scalar && a.symbol == b.symbol && x == y
  {
    hide KeyPart, KeyHeader, KindCode, SymbolText;
    var ya, yb := KeyPart(SymbolText(a.symbol)) + x, KeyPart(SymbolText(b.symbol)) + y;
    HeaderUnfolds(a, x);
    HeaderUnfolds(b, y);
    KindDecodes(a.kind, KeyPart(a.scalar) + ya, b.kind, KeyPart(b.scalar) + yb);
    PartDecodes(a.scalar, ya, b.scalar, yb);
    PartDecodes(SymbolText(a.symbol), x, SymbolText(b.symbol), y);
    SymbolTextDecodes(a.symbol, b.symbol);
  }

  /** Main result: two sort keys are equal exactly when the values have the same content. */
  lemma {:induction false} KeysDecode(l: ConstValue, r: ConstValue)
    ensures SortKey(l) == SortKey(r) <==> SameContent(l, r)
    decreases l
  {
    hide KeyHeader, ChildKeys;
    var a, b := Effective(l), Effective(r);
    ChildKeysDecode(a, b, 0);
    HeaderDecodes(a, ChildKeys(a, 0), b, ChildKeys(b, 0));
  }

  lemma ChildKeysUnfold(a: ConstValue, i: nat)
    requires i < |a.children|
    ensures ChildKeys(a, i) == KeyPart(NameAt(a, i)) + (KeyPart(SortKey(a.children[i])) + ChildKeys(a, i + 1))
    ensures ChildKeys(a, i) != ""
  {
  }

  lemma {:induction false} ChildKeysDecode(a: ConstValue, b: ConstValue, i: nat)
    requires i <= |a.children| && i <= |b.children|
    ensures ChildKeys(a, i) == ChildKeys(b, i) <==>
      && |a.children| == |b.children|
      && forall j :: i <= j < |a.children| ==> NameAt(a, j) == NameAt(b, j) && SameContent(a.children[j], b.children[j])
    decreases a, |a.children| - i
  {
    hide SortKey, SameContent;
    if i < |a.children| { ChildKeysUnfold(a, i); }
    if i < |b.children| { ChildKeysUnfold(b, i); }
    if i < |a.children| && i < |b.children| {
      KeysDecode(a.children[i], b.children[i]);
      ChildKeysDecode(a, b, i + 1);
      TwoPartsDecode(NameAt(a, i), SortKey(a.children[i]), ChildKeys(a, i + 1),
                     NameAt(b, i), SortKey(b.children[i]), ChildKeys(b, i + 1));
    }
  }

  lemma TwoPartsDecode(a: string, k: string, x: string, b: string, l: string, y: string)
    ensures KeyPart(a) + (KeyPart(k) + x) == KeyPart(b) + (KeyPart(l) + y) <==> a == b && k == l && x == y
  {
    if KeyPart(a) + (KeyPart(k) + x) == KeyPart(b) + (KeyPart(l) + y) {
      PartDecodes(a, KeyPart(k) + x, b, KeyPart(l) + y);
      PartDecodes(k, x, l, y);
    }
  }

  /** References to constants count as the constants, here too. */
  ghost predicate OneNamePerChild(v: ConstValue)
    decreases v
  {
    var e := Effective(v);
    |e.childNames| == |e.children| && forall i :: 0 <= i < |e.children| ==> OneNamePerChild(e.children[i])
  }

  /** Main result: on values with one name per child, equal keys mean equal values. */
  lemma KeysAgreeWithEquality(l: ConstValue, r: ConstValue)
    requires OneNamePerChild(l) && OneNamePerChild(r)
    ensures SortKey(l) == SortKey(r) <==> Equal(l, r)
  {
    KeysDecode(l, r);
    SameContentIsEqual(l, r);
  }

  lemma {:induction false} SameContentIsEqual(l: ConstValue, r: ConstValue)
    requires OneNamePerChild(l) && OneNamePerChild(r)
    ensures SameContent(l, r) <==> Equal(l, r)
    decreases l
  {
    var a, b := Effective(l), Effective(r);
    if |a.children| == |b.children| {
      forall i | 0 <= i < |a.children|
        ensures SameContent(a.children[i], b.children[i]) <==> Equal(a.children[i], b.children[i])
      {
        SameContentIsEqual(a.children[i], b.children[i]);
      }
      NamesAgree(a, b);
    }
  }

  lemma NamesAgree(a: ConstValue, b: ConstValue)
    requires |a.childNames| == |a.children| == |b.children| == |b.childNames|
    ensures (forall i :: 0 <= i < |a.children| ==> NameAt(a, i) == NameAt(b, i)) <==> a.childNames == b.childNames
  {
    if forall i :: 0 <= i < |a.children| ==> NameAt(a, i) == NameAt(b, i) {
      forall i | 0 <= i < |a.children|
        ensures a.childNames[i] == b.childNames[i]
      {
        assert NameAt(a, i) == NameAt(b, i);
      }
    }
  }

  /** The value with the names that the sort key sees, one for each child. */
  ghost function Filled(v: ConstValue): ConstValue
    decreases v
  {
    var e := Effective(v);
    e.(childNames := seq(|e.children|, i requires 0 <= i < |e.children| => NameAt(e, i)),
       children := seq(|e.children|, i requires 0 <= i < |e.children| => Filled(e.children[i])))
  }

  lemma {:induction false} EffectiveIsNoReference(v: ConstValue)
    ensures var e := Effective(v); !(e.kind == ConstReference && |e.children| == 1)
  {
    if v.kind == ConstReference && |v.children| == 1 {
      EffectiveIsNoReference(v.children[0]);
    }
  }

  lemma FilledIsEffective(v: ConstValue)
    ensures Effective(Filled(v)) == Filled(v)
    ensures var e := Effective(v); forall i :: 0 <= i < |e.children| ==> NameAt(Filled(v), i) == NameAt(e, i)
  {
    EffectiveIsNoReference(v);
  }

  lemma {:induction false} FillingKeepsContent(v: ConstValue)
    ensures SameContent(v, Filled(v)) && OneNamePerChild(Filled(v))
    decreases v
  {
    var e := Effective(v);
    FilledIsEffective(v);
    forall i | 0 <= i < |e.children|
      ensures SameContent(e.children[i], Filled(e.children[i])) && OneNamePerChild(Filled(e.children[i]))
    {
      FillingKeepsContent(e.children[i]);
    }
  }

  lemma NamesFilled(e: ConstValue, names: seq<string>)
    requires |names| == |e.children| && forall i :: 0 <= i < |names| ==> names[i] == NameAt(e, i)
    ensures e.childNames == names <==> |e.childNames| == |e.children|
  {
  }

  lemma {:induction false} EqualToItsFilling(v: ConstValue)
    ensures Equal(v, Filled(v)) <==> OneNamePerChild(v)
    decreases v
  {
    var e := Effective(v);
    FilledIsEffective(v);
    NamesFilled(e, Filled(v).childNames);
    forall i | 0 <= i < |e.children|
      ensures Equal(e.children[i], Filled(e.children[i])) <==> OneNamePerChild(e.children[i])
    {
      EqualToItsFilling(e.children[i]);
    }
  }

  /** A value without one name per child shares its key with one that has them, though they differ. */
  lemma MissingNamesShareAKey(v: ConstValue)
    ensures SortKey(v) == SortKey(Filled(v))
    ensures Equal(v, Filled(v)) <==> OneNamePerChild(v)
  {
    FillingKeepsContent(v);
    KeysDecode(v, Filled(v));
    EqualToItsFilling(v);
  }

  ghost predicate KeysDecide(values: set<ConstValue>) {
    forall l, r :: l in values && r in values ==> (SortKey(l) == SortKey(r) <==> Equal(l, r))
  }

  /** Main result: among values that come with their fillings, keys decide equality exactly when all
      have one name per child. */
  lemma KeysDecideExactlyWhenNamed(values: set<ConstValue>)
    requires forall v :: v in values ==> Filled(v) in values
    ensures KeysDecide(values) <==> forall v :: v in values ==> OneNamePerChild(v)
  {
    hide SortKey, Equal, OneNamePerChild, Filled;
    if forall v :: v in values ==> OneNamePerChild(v) {
      forall l, r | l in values && r in values
        ensures SortKey(l) == SortKey(r) <==> Equal(l, r)
      {
        KeysAgreeWithEquality(l, r);
      }
    }
    if KeysDecide(values) {
      forall v | v in values
        ensures OneNamePerChild(v)
      {
        MissingNamesShareAKey(v);
      }
    }
  }
}
