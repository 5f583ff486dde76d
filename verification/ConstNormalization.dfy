/** The normal form of set and map constants, and looking a key up in them
    (src/compiler/semantics/const_sema.cpp). */
module ConstNormalization {
  import opened Wrappers
  import opened Digits
  import opened Sequences
  import opened ConstValues

  // ------------------------------------------------------------------------ sets

  /** What sorting the children may yield: std::sort leaves the order of equal keys open. */
  ghost predicate IsNormalSet(v: ConstValue, r: ConstValue) {
    if v.kind != Set || v.children == [] then r == v
    else
      && r == v.(children := r.children, childNames := Repeated("", |r.children|))
      && multiset(r.children) == multiset(v.children)
      && SortedBy(Mapped(r.children, SortKey), LexLeq)
  }

  function Repeated(s: string, n: nat): (r: seq<string>)
    ensures |r| == n && forall i :: 0 <= i < n ==> r[i] == s
  {
    seq(n, _ => s)
  }

  method NormalizeSet(v: ConstValue) returns (r: ConstValue)
    ensures IsNormalSet(v, r)
  {
    if v.kind != Set || v.children == [] {
      return v;
    }
    LexIsTotalOrder();
    var sorted := SortByKey(v.children, SortKey, LexLeq);
    r := v.(children := sorted, childNames := Repeated("", |sorted|));
  }

  /** Values that differ only in their children are equal when the keys of the children are. */
  lemma EqualByChildKeys(a: ConstValue, b: ConstValue)
    requires a.kind != ConstReference && OneNamePerChild(a) && OneNamePerChild(b)
    requires a.kind == b.kind && a.scalar == b.scalar && a.symbol == b.symbol
    requires |a.children| == |b.children| ==> a.childNames == b.childNames
    ensures Equal(a, b) <==> Mapped(a.children, SortKey) == Mapped(b.children, SortKey)
  {
    if |a.children| == |b.children| {
      forall i | 0 <= i < |a.children|
        ensures Equal(a.children[i], b.children[i]) <==> Mapped(a.children, SortKey)[i] == Mapped(b.children, SortKey)[i]
      {
        KeysAgreeWithEquality(a.children[i], b.children[i]);
      }
      if Equal(a, b) {
        assert forall i :: 0 <= i < |a.children| ==> Mapped(a.children, SortKey)[i] == Mapped(b.children, SortKey)[i];
      }
    }
  }

  lemma NamesStayRight(v: ConstValue, r: ConstValue)
    requires v.kind != ConstReference && r.kind != ConstReference
    requires OneNamePerChild(v) && |r.childNames| == |r.children|
    requires forall c :: c in r.children ==> c in v.children
    ensures OneNamePerChild(r)
  {
    forall i | 0 <= i < |r.children|
      ensures OneNamePerChild(r.children[i])
    {
      assert r.children[i] in v.children;
      var j :| 0 <= j < |v.children| && v.children[j] == r.children[i];
    }
    assert Effective(r) == r;
  }

  /** Main result: the normal forms of two sets are equal exactly when the sets hold equal items,
      whatever their order and however the sort breaks ties. */
  lemma SetsNormalizeAlike(v: ConstValue, rv: ConstValue, w: ConstValue, rw: ConstValue)
    requires v.kind == Set && w.kind == Set && v.scalar == w.scalar && v.symbol == w.symbol
    requires OneNamePerChild(v) && OneNamePerChild(w) && IsNormalSet(v, rv) && IsNormalSet(w, rw)
    ensures Equal(rv, rw) <==> multiset(Mapped(v.children, SortKey)) == multiset(Mapped(w.children, SortKey))
  {
    NormalSetFacts(v, rv);
    NormalSetFacts(w, rw);
    EqualByChildKeys(rv, rw);
    LexIsTotalOrder();
    if multiset(Mapped(v.children, SortKey)) == multiset(Mapped(w.children, SortKey)) {
      SortedIsUnique(Mapped(rv.children, SortKey), Mapped(rw.children, SortKey), LexLeq);
    }
  }

  lemma NormalSetFacts(v: ConstValue, r: ConstValue)
    requires v.kind == Set && OneNamePerChild(v) && IsNormalSet(v, r)
    ensures OneNamePerChild(r) && r.kind == v.kind && r.scalar == v.scalar && r.symbol == v.symbol
    ensures r.childNames == Repeated("", |r.children|)
    ensures multiset(Mapped(r.children, SortKey)) == multiset(Mapped(v.children, SortKey))
    ensures SortedBy(Mapped(r.children, SortKey), LexLeq)
  {
    MappedMultiset(r.children, v.children, SortKey);
    forall c | c in r.children
      ensures c in v.children
    {
      assert c in multiset(r.children);
    }
    NamesStayRight(v, r);
  }

  // ------------------------------------------------------------------------ maps

  datatype Entry = Entry(key: ConstValue, value: ConstValue)

  function EntriesOf(children: seq<ConstValue>): (r: seq<Entry>)
    ensures |r| == |children| / 2
    ensures forall i :: 0 <= i < |r| ==> r[i] == Entry(children[2 * i], children[2 * i + 1])
  {
    seq(|children| / 2, i requires 0 <= i < |children| / 2 => Entry(children[2 * i], children[2 * i + 1]))
  }

  function KeyValueNames(n: nat): (r: seq<string>)
    ensures |r| == 2 * n && forall i :: 0 <= i < 2 * n ==> r[i] == if i % 2 == 0 then "key" else "value"
  {
    seq(2 * n, i => if i % 2 == 0 then "key" else "value")
  }

  function EntryKey(e: Entry): (string, string) {
    (SortKey(e.key), SortKey(e.value))
  }

  predicate PairLeq(a: (string, string), b: (string, string)) {
    if a.0 != b.0 then LexLeq(a.0, b.0) else LexLeq(a.1, b.1)
  }

  /** Entries are ordered by the keys of their keys, and by those of their values where these are the same. */
  lemma EntriesByKeyThenValue(e: Entry, f: Entry)
    ensures PairLeq(EntryKey(e), EntryKey(f)) <==>
      if SortKey(e.key) != SortKey(f.key) then LexLeq(SortKey(e.key), SortKey(f.key))
      else LexLeq(SortKey(e.value), SortKey(f.value))
  {
  }

  lemma PairIsTotalOrder()
    ensures TotalOrder(PairLeq)
  {
    LexIsTotalOrder();
    forall a, b | PairLeq(a, b) && PairLeq(b, a)
      ensures a == b
    {
      assert LexLeq(a.0, b.0) && LexLeq(b.0, a.0);
      assert a == (a.0, a.1) && b == (b.0, b.1);
    }
    forall a, b, c | PairLeq(a, b) && PairLeq(b, c)
      ensures PairLeq(a, c)
    {
      PairTransitive(a, b, c);
    }
  }

  lemma PairTransitive(a: (string, string), b: (string, string), c: (string, string))
    requires TotalOrder(LexLeq) && PairLeq(a, b) && PairLeq(b, c)
    ensures PairLeq(a, c)
  {
  }

  /** A trailing key without a value is dropped; maps of one entry are left alone. */
  ghost predicate IsNormalMap(v: ConstValue, r: ConstValue) {
    if v.kind != Map || |v.children| < 4 then r == v
    else
      && r == v.(children := r.children, childNames := KeyValueNames(|v.children| / 2))
      && |r.children| == 2 * (|v.children| / 2)
      && multiset(EntriesOf(r.children)) == multiset(EntriesOf(v.children))
      && SortedBy(Mapped(EntriesOf(r.children), EntryKey), PairLeq)
  }

  method NormalizeMap(v: ConstValue) returns (r: ConstValue)
    ensures IsNormalMap(v, r)
  {
    if v.kind != Map || |v.children| < 4 {
      return v;
    }
    var entries := CollectEntries(v.children);
    PairIsTotalOrder();
    var sorted := SortByKey(entries, EntryKey, PairLeq);
    EquallyMany(sorted, entries);
    var children, names := FlattenEntries(sorted);
    r := v.(children := children, childNames := names);
  }

  method CollectEntries(children: seq<ConstValue>) returns (entries: seq<Entry>)
    ensures entries == EntriesOf(children)
  {
    entries := [];
    var offset := 0;
    while offset + 1 < |children|
      invariant offset == 2 * |entries| <= |children|
      invariant entries == EntriesOf(children)[..|entries|]
    {
      assert EntriesOf(children)[..|entries| + 1] == EntriesOf(children)[..|entries|] + [EntriesOf(children)[|entries|]];
      entries := entries + [Entry(children[offset], children[offset + 1])];
      offset := offset + 2;
    }
    assert |entries| == |children| / 2;
    assert EntriesOf(children)[..|entries|] == EntriesOf(children);
  }

  method FlattenEntries(entries: seq<Entry>) returns (children: seq<ConstValue>, names: seq<string>)
    ensures EntriesOf(children) == entries && |children| == 2 * |entries| && names == KeyValueNames(|entries|)
  {
    children, names := [], [];
    for i := 0 to |entries|
      invariant |children| == |names| == 2 * i
      invariant EntriesOf(children) == entries[..i] && names == KeyValueNames(i)
    {
      FlattenSnoc(children, entries[i]);
      assert entries[..i + 1] == entries[..i] + [entries[i]];
      children := children + [entries[i].key, entries[i].value];
      names := names + ["key", "value"];
      assert names == KeyValueNames(i + 1);
    }
    assert entries[..|entries|] == entries;
  }

  lemma FlattenSnoc(children: seq<ConstValue>, e: Entry)
    requires |children| % 2 == 0
    ensures EntriesOf(children + [e.key, e.value]) == EntriesOf(children) + [e]
  {
  }

  /** What is left alone: sets without items, maps of at most one entry, and everything else. */
  lemma OthersAreLeftAlone(v: ConstValue, r: ConstValue)
    ensures v.kind != Set || v.children == [] ==> (IsNormalSet(v, r) <==> r == v)
    ensures v.kind != Map || |v.children| < 4 ==> (IsNormalMap(v, r) <==> r == v)
  {
  }

  /** Keys and values in turn. Maps of one entry keep the names they have, so theirs must be right. */
  ghost predicate GoodMap(v: ConstValue) {
    && v.kind == Map && OneNamePerChild(v) && |v.children| % 2 == 0
    && (|v.children| < 4 ==> v.childNames == KeyValueNames(|v.children| / 2))
  }

  lemma {:induction false} NormalMapFacts(v: ConstValue, r: ConstValue)
    requires GoodMap(v) && IsNormalMap(v, r)
    ensures OneNamePerChild(r) && |r.children| == |v.children|
    ensures r.kind == v.kind && r.scalar == v.scalar && r.symbol == v.symbol
    ensures r.childNames == KeyValueNames(|r.children| / 2)
    ensures multiset(EntriesOf(r.children)) == multiset(EntriesOf(v.children))
    ensures multiset(Mapped(EntriesOf(r.children), EntryKey)) == multiset(Mapped(EntriesOf(v.children), EntryKey))
    ensures SortedBy(Mapped(EntriesOf(r.children), EntryKey), PairLeq)
  {
    MappedMultiset(EntriesOf(r.children), EntriesOf(v.children), EntryKey);
    ChildrenComeFromInput(v, r);
    NamesStayRight(v, r);
  }

  lemma {:induction false} ChildrenComeFromInput(v: ConstValue, r: ConstValue)
    requires multiset(EntriesOf(r.children)) == multiset(EntriesOf(v.children)) && |r.children| % 2 == 0
    ensures forall c :: c in r.children ==> c in v.children
  {
    forall c | c in r.children
      ensures c in v.children
    {
      var i :| 0 <= i < |r.children| && r.children[i] == c;
      EntryComesFromInput(v, r, i / 2);
      assert i == 2 * (i / 2) || i == 2 * (i / 2) + 1;
    }
  }

  lemma EntryComesFromInput(v: ConstValue, r: ConstValue, i: nat)
    requires multiset(EntriesOf(r.children)) == multiset(EntriesOf(v.children)) && i < |r.children| / 2
    ensures exists j :: 0 <= j < |v.children| / 2 && EntriesOf(v.children)[j] == EntriesOf(r.children)[i]
    ensures r.children[2 * i] in v.children && r.children[2 * i + 1] in v.children
  {
    var er, ev := EntriesOf(r.children), EntriesOf(v.children);
    assert er[i] in multiset(ev);
    var j :| 0 <= j < |ev| && ev[j] == er[i];
    assert v.children[2 * j] == r.children[2 * i] && v.children[2 * j + 1] == r.children[2 * i + 1];
  }

  lemma EntryKeysAreChildKeys(a: seq<ConstValue>, b: seq<ConstValue>)
    requires |a| == |b| && |a| % 2 == 0
    ensures Mapped(a, SortKey) == Mapped(b, SortKey) <==> Mapped(EntriesOf(a), EntryKey) == Mapped(EntriesOf(b), EntryKey)
  {
    hide SortKey;
    var ka, kb, ea, eb := Mapped(a, SortKey), Mapped(b, SortKey), Mapped(EntriesOf(a), EntryKey), Mapped(EntriesOf(b), EntryKey);
    if ka == kb {
      forall i | 0 <= i < |ea|
        ensures ea[i] == eb[i]
      {
        assert ka[2 * i] == kb[2 * i] && ka[2 * i + 1] == kb[2 * i + 1];
      }
    }
    if ea == eb {
      forall i | 0 <= i < |ka|
        ensures ka[i] == kb[i]
      {
        var j := i / 2;
        assert ea[j] == eb[j];
        if i == 2 * j {
          assert ka[i] == ea[j].0 && kb[i] == eb[j].0;
        } else {
          assert i == 2 * j + 1 && ka[i] == ea[j].1 && kb[i] == eb[j].1;
        }
      }
    }
  }

  /** Main result: the normal forms of two maps are equal exactly when the maps hold equal entries. */
  lemma MapsNormalizeAlike(v: ConstValue, rv: ConstValue, w: ConstValue, rw: ConstValue)
    requires GoodMap(v) && GoodMap(w) && v.scalar == w.scalar && v.symbol == w.symbol
    requires IsNormalMap(v, rv) && IsNormalMap(w, rw)
    ensures Equal(rv, rw) <==>
      multiset(Mapped(EntriesOf(v.children), EntryKey)) == multiset(Mapped(EntriesOf(w.children), EntryKey))
  {
    NormalMapFacts(v, rv);
    NormalMapFacts(w, rw);
    EqualByChildKeys(rv, rw);
    var kv, kw := Mapped(EntriesOf(rv.children), EntryKey), Mapped(EntriesOf(rw.children), EntryKey);
    if |rv.children| == |rw.children| {
      EntryKeysAreChildKeys(rv.children, rw.children);
      PairIsTotalOrder();
      if multiset(kv) == multiset(kw) {
        SortedIsUnique(kv, kw, PairLeq);
      }
    } else {
      if multiset(kv) == multiset(kw) {
        EquallyMany(kv, kw);
      }
      assert |Mapped(rv.children, SortKey)| != |Mapped(rw.children, SortKey)|;
    }
  }

  // ---------------------------------------------------------------------- lookup

  /** The value of the first entry from offset on whose names are right and whose key is k. */
  function MapLookup(v: ConstValue, k: ConstValue, offset: nat): Option<ConstValue>
    decreases |v.children| - offset
  {
    if offset + 1 >= |v.children| then None
    else if offset + 1 < |v.childNames| && v.childNames[offset] == "key" && v.childNames[offset + 1] == "value"
            && Equal(v.children[offset], k) then Some(v.children[offset + 1])
    else MapLookup(v, k, offset + 2)
  }

  method FoldIndex(base: ConstValue, indexValue: ConstValue) returns (r: Option<ConstValue>)
    ensures var v, k := Effective(base), Effective(indexValue);
      r == if v.kind == List && k.kind == Integer then
             (match FromChars(k.scalar)
              case None => None
              case Some(n) => if 0 <= n < |v.children| then Some(v.children[n]) else None)
           else if v.kind == Map then MapLookup(v, k, 0)
           else None
  {
    var value, index := Effective(base), Effective(indexValue);
    if value.kind == List && index.kind == Integer {
      var integer := FromChars(index.scalar);
      if integer.None? || integer.value < 0 {
        return None;
      }
      var offset := integer.value;
      if offset >= |value.children| {
        return None;
      }
      return Some(value.children[offset]);
    }
    if value.kind == Map {
      var offset := 0;
      while offset + 1 < |value.children|
        invariant MapLookup(value, index, offset) == MapLookup(value, index, 0)
        decreases |value.children| - offset
      {
        if |value.childNames| <= offset + 1 || value.childNames[offset] != "key" || value.childNames[offset + 1] != "value" {
          offset := offset + 2;
          continue;
        }
        if Equal(value.children[offset], index) {
          return Some(value.children[offset + 1]);
        }
        offset := offset + 2;
      }
    }
    return None;
  }

  /** What the lookup finds: the first entry with that key, and nothing only if there is none. */
  lemma {:induction false} LookupFindsFirst(v: ConstValue, k: ConstValue, i: nat) returns (j: nat)
    requires |v.children| % 2 == 0 && v.childNames == KeyValueNames(|v.children| / 2) && i <= |v.children| / 2
    ensures i <= j <= |v.children| / 2
    ensures forall m :: i <= m < j ==> !Equal(EntriesOf(v.children)[m].key, k)
    ensures j < |v.children| / 2 ==> Equal(EntriesOf(v.children)[j].key, k)
    ensures MapLookup(v, k, 2 * i) == if j < |v.children| / 2 then Some(EntriesOf(v.children)[j].value) else None
    decreases |v.children| / 2 - i
  {
    hide Equal, MapLookup, KeyValueNames;
    j := i;
    LookupStep(v, k, i);
    if i < |v.children| / 2 && !Equal(EntriesOf(v.children)[i].key, k) {
      j := LookupFindsFirst(v, k, i + 1);
    }
  }

  lemma {:induction false} LookupStep(v: ConstValue, k: ConstValue, i: nat)
    requires |v.children| % 2 == 0 && v.childNames == KeyValueNames(|v.children| / 2) && i <= |v.children| / 2
    ensures MapLookup(v, k, 2 * i)
      == if i == |v.children| / 2 then None
         else if Equal(EntriesOf(v.children)[i].key, k) then Some(EntriesOf(v.children)[i].value)
         else MapLookup(v, k, 2 * (i + 1))
  {
    hide Equal;
    if i < |v.children| / 2 {
      assert v.childNames[2 * i] == "key" && v.childNames[2 * i + 1] == "value";
    }
  }

  ghost predicate DistinctKeys(v: ConstValue) {
    forall i, j :: 0 <= i < j < |v.children| / 2 ==> !Equal(EntriesOf(v.children)[i].key, EntriesOf(v.children)[j].key)
  }

  lemma BothEqual(a: ConstValue, b: ConstValue, k: ConstValue)
    requires OneNamePerChild(a) && OneNamePerChild(b) && OneNamePerChild(k) && Equal(a, k) && Equal(b, k)
    ensures Equal(a, b) && Equal(b, a)
  {
    KeysAgreeWithEquality(a, k);
    KeysAgreeWithEquality(b, k);
    KeysAgreeWithEquality(a, b);
    KeysAgreeWithEquality(b, a);
  }

  /** Main result: normalizing a map with distinct keys leaves every key with its value. */
  lemma EachKeyKeepsItsValue(v: ConstValue, r: ConstValue, k: ConstValue)
    requires GoodMap(v) && v.childNames == KeyValueNames(|v.children| / 2) && DistinctKeys(v)
    requires IsNormalMap(v, r) && OneNamePerChild(k)
    ensures MapLookup(r, k, 0) == MapLookup(v, k, 0)
  {
    hide Equal, MapLookup, SortKey, DistinctKeys;
    var m := LookupFindsFirst(v, k, 0);
    NormalMapFacts(v, r);
    var i := LookupFindsFirst(r, k, 0);
    var ev, er := EntriesOf(v.children), EntriesOf(r.children);
    if i < |er| {
      EntryComesFromInput(v, r, i);
      var j :| 0 <= j < |ev| && ev[j] == er[i];
      OnlyOneMatches(v, j, m, k);
    } else if m < |ev| {
      EntryComesFromInput(r, v, m);
    }
  }

  lemma OnlyOneMatches(v: ConstValue, i: nat, j: nat, k: ConstValue)
    requires GoodMap(v) && DistinctKeys(v) && OneNamePerChild(k) && i < |v.children| / 2 && j < |v.children| / 2
    requires Equal(EntriesOf(v.children)[i].key, k) && Equal(EntriesOf(v.children)[j].key, k)
    ensures i == j
  {
    BothEqual(EntriesOf(v.children)[i].key, EntriesOf(v.children)[j].key, k);
  }

  /** With a key given twice, the entry whose value has the least sort key wins. */
  lemma RepeatedKeyTakesTheLeastValue(v: ConstValue, r: ConstValue, k: ConstValue, j: nat)
    requires GoodMap(v) && IsNormalMap(v, r) && OneNamePerChild(k)
    requires j < |v.children| / 2 && Equal(EntriesOf(v.children)[j].key, k)
    ensures MapLookup(r, k, 0).Some?
    ensures LexLeq(SortKey(MapLookup(r, k, 0).value), SortKey(EntriesOf(v.children)[j].value))
  {
    hide Equal, MapLookup, SortKey;
    NormalMapFacts(v, r);
    var m := LookupFindsFirst(r, k, 0);
    var er := EntriesOf(r.children);
    EntryComesFromInput(r, v, j);
    var i :| 0 <= i < |er| && er[i] == EntriesOf(v.children)[j];
    EarlierIsLess(er, m, i, k);
  }

  lemma EarlierIsLess(er: seq<Entry>, m: nat, i: nat, k: ConstValue)
    requires m <= i < |er| && SortedBy(Mapped(er, EntryKey), PairLeq) && OneNamePerChild(k)
    requires OneNamePerChild(er[i].key) && OneNamePerChild(er[m].key) && Equal(er[i].key, k) && Equal(er[m].key, k)
    ensures LexLeq(SortKey(er[m].value), SortKey(er[i].value))
  {
    hide Equal, SortKey, OneNamePerChild;
    KeysAgreeWithEquality(er[i].key, k);
    KeysAgreeWithEquality(er[m].key, k);
    LexTotal(SortKey(er[i].value), SortKey(er[i].value));
    if m < i {
      assert PairLeq(Mapped(er, EntryKey)[m], Mapped(er, EntryKey)[i]);
    }
  }
}
