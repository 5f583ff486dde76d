/** Sequences without repetition, occurrence counts and positions. */
module Sequences {

  ghost predicate Distinct<T>(s: seq<T>) {
    forall i, j :: 0 <= i < j < |s| ==> s[i] != s[j]
  }

  lemma {:induction false} DistinctSize<T>(s: seq<T>)
    requires Distinct(s)
    ensures |set x | x in s| == |s|
  {
    if s != [] {
      var init, last := s[..|s| - 1], s[|s| - 1];
      DistinctSize(init);
      assert (set x | x in s) == (set x | x in init) + {last};
      assert last !in init;
    }
  }

  ghost function Occurrences<T>(s: seq<T>, x: T): nat {
    if s == [] then 0
    else Occurrences(s[..|s| - 1], x) + (if s[|s| - 1] == x then 1 else 0)
  }

  lemma {:induction false} OccursWhenIn<T>(s: seq<T>, x: T)
    ensures Occurrences(s, x) > 0 <==> x in s
  {
    if s != [] {
      var init, last := s[..|s| - 1], s[|s| - 1];
      OccursWhenIn(init, x);
      assert forall d :: d in s <==> d in init || d == last;
    }
  }

  lemma OccurrencesSnoc<T>(s: seq<T>, y: T, x: T)
    ensures Occurrences(s + [y], x) == Occurrences(s, x) + (if y == x then 1 else 0)
  {
  }

  lemma {:induction false} PrefixOccurs<T>(s: seq<T>, k: nat, x: T)
    requires k <= |s|
    ensures Occurrences(s[..k], x) <= Occurrences(s, x)
  {
    if k == |s| {
      assert s[..k] == s;
    } else {
      PrefixOccurs(s[..|s| - 1], k, x);
      assert s[..|s| - 1][..k] == s[..k];
    }
  }

  lemma DistinctSnoc<T>(s: seq<T>, x: T)
    ensures Distinct(s + [x]) <==> Distinct(s) && x !in s
  {
    var t := s + [x];
    if Distinct(t) {
      assert forall i :: 0 <= i < |s| ==> t[i] == s[i] && t[i] != t[|s|];
    }
  }

  ghost function Position<T>(s: seq<T>, x: T): int {
    if x in s then var k :| 0 <= k < |s| && s[k] == x; k else -1
  }

  lemma PositionIs<T>(s: seq<T>, k: nat)
    requires Distinct(s) && k < |s|
    ensures Position(s, s[k]) == k
  {
  }

  /** Texts around a separator that the first part does not hold can be taken apart again. */
  lemma SplitAtSeparator<T>(a: seq<T>, b: seq<T>, c: seq<T>, d: seq<T>, sep: T)
    requires sep !in a && sep !in c && a + [sep] + b == c + [sep] + d
    ensures a == c && b == d
  {
    var k, m := a + [sep] + b, c + [sep] + d;
    assert k[|a|] == sep && m[|c|] == sep;
    assert a == k[..|a|] && c == m[..|c|];
    assert b == k[|a| + 1..] && d == m[|c| + 1..];
  }

  // -------------------------------------------------------------------- sorting

  ghost predicate TotalOrder<K(!new)>(leq: (K, K) -> bool) {
    && (forall a, b :: leq(a, b) || leq(b, a))
    && (forall a, b :: leq(a, b) && leq(b, a) ==> a == b)
    && (forall a, b, c :: leq(a, b) && leq(b, c) ==> leq(a, c))
  }

  ghost predicate SortedBy<K>(s: seq<K>, leq: (K, K) -> bool) {
    forall i, j :: 0 <= i < j < |s| ==> leq(s[i], s[j])
  }

  function Mapped<T, K>(s: seq<T>, f: T -> K): (r: seq<K>)
    ensures |r| == |s| && forall i :: 0 <= i < |r| ==> r[i] == f(s[i])
  {
    seq(|s|, i requires 0 <= i < |s| => f(s[i]))
  }

  ghost function Without<T>(s: seq<T>, j: nat): (r: seq<T>)
    requires j < |s|
    ensures |r| == |s| - 1
  {
    s[..j] + s[j + 1..]
  }

  lemma WithoutElements<T>(s: seq<T>, j: nat)
    requires j < |s|
    ensures multiset(s) == multiset{s[j]} + multiset(Without(s, j))
  {
    assert s == s[..j] + [s[j]] + s[j + 1..];
  }

  lemma WithoutMapped<T, K>(s: seq<T>, j: nat, f: T -> K)
    requires j < |s|
    ensures Mapped(Without(s, j), f) == Without(Mapped(s, f), j)
  {
  }

  lemma FirstIsLeast<K(!new)>(x: seq<K>, k: K, leq: (K, K) -> bool)
    requires TotalOrder(leq) && SortedBy(x, leq) && k in x
    ensures leq(x[0], k)
  {
  }

  lemma SameFirst<K(!new)>(x: seq<K>, y: seq<K>, leq: (K, K) -> bool)
    requires TotalOrder(leq) && SortedBy(x, leq) && SortedBy(y, leq) && x != [] && y != []
    requires multiset(x) == multiset(y)
    ensures x[0] == y[0]
  {
    assert x[0] in multiset(x) && y[0] in multiset(y);
    FirstIsLeast(x, y[0], leq);
    FirstIsLeast(y, x[0], leq);
  }

  /** A sorted arrangement is determined by the elements. */
  lemma {:induction false} SortedIsUnique<K(!new)>(x: seq<K>, y: seq<K>, leq: (K, K) -> bool)
    requires TotalOrder(leq) && SortedBy(x, leq) && SortedBy(y, leq) && multiset(x) == multiset(y)
    ensures x == y
  {
    hide SortedBy, TotalOrder;
    EquallyMany(x, y);
    if x != [] {
      SameFirst(x, y, leq);
      RestIsSorted(x, leq);
      RestIsSorted(y, leq);
      assert multiset(x[1..]) == multiset(y[1..]);
      SortedIsUnique(x[1..], y[1..], leq);
      assert x == [x[0]] + x[1..] && y == [y[0]] + y[1..];
    }
  }

  lemma EquallyMany<K>(x: seq<K>, y: seq<K>)
    requires multiset(x) == multiset(y)
    ensures |x| == |y|
  {
    assert |x| == |multiset(x)| && |y| == |multiset(y)|;
  }

  lemma RestIsSorted<K>(x: seq<K>, leq: (K, K) -> bool)
    requires x != [] && SortedBy(x, leq)
    ensures SortedBy(x[1..], leq) && multiset(x[1..]) == multiset(x) - multiset{x[0]}
  {
    assert x == [x[0]] + x[1..];
  }

  /** Rearranging first and mapping after is the same as mapping first. */
  lemma {:induction false} MappedMultiset<T, K>(s: seq<T>, t: seq<T>, f: T -> K)
    requires multiset(s) == multiset(t)
    ensures multiset(Mapped(s, f)) == multiset(Mapped(t, f))
  {
    assert |s| == |multiset(s)| == |multiset(t)| == |t|;
    if s != [] {
      assert s[0] in multiset(t);
      var j :| 0 <= j < |t| && t[j] == s[0];
      WithoutElements(s, 0);
      WithoutElements(t, j);
      assert multiset(Without(s, 0)) == multiset(s) - multiset{s[0]} == multiset(Without(t, j));
      MappedMultiset(Without(s, 0), Without(t, j), f);
      WithoutMapped(s, 0, f);
      WithoutMapped(t, j, f);
      WithoutElements(Mapped(s, f), 0);
      WithoutElements(Mapped(t, f), j);
    }
  }

  method PlaceFor<T, K(!new)>(r: seq<T>, x: K, key: T -> K, leq: (K, K) -> bool) returns (k: nat)
    ensures k <= |r| && forall m :: 0 <= m < k ==> leq(key(r[m]), x)
    ensures k < |r| ==> !leq(key(r[k]), x)
  {
    k := 0;
    while k < |r| && leq(key(r[k]), x)
      invariant k <= |r| && forall m :: 0 <= m < k ==> leq(key(r[m]), x)
    {
      k := k + 1;
    }
  }

  /** A library sort: some arrangement of the items whose keys are in order. */
  method SortByKey<T, K(!new)>(items: seq<T>, key: T -> K, leq: (K, K) -> bool) returns (r: seq<T>)
    requires TotalOrder(leq)
    ensures multiset(r) == multiset(items) && SortedBy(Mapped(r, key), leq)
  {
    hide Mapped, SortedBy, TotalOrder;
    r := [];
    NothingIsSorted(key, leq);
    for i := 0 to |items|
      invariant multiset(r) == multiset(items[..i]) && SortedBy(Mapped(r, key), leq)
    {
      var k := PlaceFor(r, key(items[i]), key, leq);
      ghost var before := r;
      r := r[..k] + [items[i]] + r[k..];
      assert before == before[..k] + before[k..];
      assert items[..i + 1] == items[..i] + [items[i]];
      InsertKeepsOrder(before, k, items[i], key, leq);
    }
    assert items[..|items|] == items;
  }

  lemma NothingIsSorted<T, K>(key: T -> K, leq: (K, K) -> bool)
    ensures SortedBy(Mapped([], key), leq)
  {
  }

  lemma InsertKeepsOrder<T, K(!new)>(r: seq<T>, k: nat, x: T, key: T -> K, leq: (K, K) -> bool)
    requires TotalOrder(leq) && k <= |r| && SortedBy(Mapped(r, key), leq)
    requires forall m :: 0 <= m < k ==> leq(key(r[m]), key(x))
    requires k < |r| ==> !leq(key(r[k]), key(x))
    ensures SortedBy(Mapped(r[..k] + [x] + r[k..], key), leq)
  {
  }

  /** The byte order of std::string. */
  predicate LexLeq(a: string, b: string) {
    a == "" || (b != "" && (a[0] < b[0] || (a[0] == b[0] && LexLeq(a[1..], b[1..]))))
  }

  /** The first difference decides, by code. */
  lemma LexByCode(a: string, b: string, c: char, d: char)
    ensures LexLeq("", b) && !LexLeq([c] + a, "")
    ensures LexLeq([c] + a, [d] + b) <==> c as nat < d as nat || (c == d && LexLeq(a, b))
  {
    assert ([c] + a)[1..] == a && ([d] + b)[1..] == b;
  }

  lemma {:induction false} LexTotal(a: string, b: string)
    ensures LexLeq(a, b) || LexLeq(b, a)
  {
    if a != "" && b != "" { LexTotal(a[1..], b[1..]); }
  }

  lemma {:induction false} LexAntisymmetric(a: string, b: string)
    requires LexLeq(a, b) && LexLeq(b, a)
    ensures a == b
  {
    if a != "" && b != "" {
      LexAntisymmetric(a[1..], b[1..]);
      assert a == [a[0]] + a[1..] && b == [b[0]] + b[1..];
    }
  }

  lemma {:induction false} LexTransitive(a: string, b: string, c: string)
    requires LexLeq(a, b) && LexLeq(b, c)
    ensures LexLeq(a, c)
  {
    if a != "" && a[0] == b[0] == c[0] { LexTransitive(a[1..], b[1..], c[1..]); }
  }

  lemma LexIsTotalOrder()
    ensures TotalOrder(LexLeq)
  {
    forall a, b ensures LexLeq(a, b) || LexLeq(b, a) { LexTotal(a, b); }
    forall a, b | LexLeq(a, b) && LexLeq(b, a) ensures a == b { LexAntisymmetric(a, b); }
    forall a, b, c | LexLeq(a, b) && LexLeq(b, c) ensures LexLeq(a, c) { LexTransitive(a, b, c); }
  }
}
