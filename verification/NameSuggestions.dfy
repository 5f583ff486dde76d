/** Suggestions for misspelt names (src/compiler/semantics/name_suggestions.cpp). */
module NameSuggestions {
  import opened Wrappers
  import opened Sequences

  // ------------------------------------------------------------------- edit scripts

  datatype Edit = Keep(c: char) | Replace(was: char, becomes: char) | Delete(c: char) | Insert(c: char)

  type Script = seq<Edit>

  function Source(s: Script): string {
    if s == [] then ""
    else
      var rest := Source(s[..|s| - 1]);
      match s[|s| - 1]
      case Keep(c) => rest + [c]
      case Replace(c, _) => rest + [c]
      case Delete(c) => rest + [c]
      case Insert(_) => rest
  }

  function Target(s: Script): string {
    if s == [] then ""
    else
      var rest := Target(s[..|s| - 1]);
      match s[|s| - 1]
      case Keep(c) => rest + [c]
      case Replace(_, d) => rest + [d]
      case Delete(_) => rest
      case Insert(d) => rest + [d]
  }

  /** How many characters the script inserts, deletes and replaces. */
  function Cost(s: Script): nat {
    if s == [] then 0 else Cost(s[..|s| - 1]) + if s[|s| - 1].Keep? then 0 else 1
  }

  ghost predicate Turns(s: Script, a: string, b: string) {
    Source(s) == a && Target(s) == b
  }

  /** d is the least number of edits that turn a into b. */
  ghost predicate IsDistance(a: string, b: string, d: nat) {
    && (exists s :: Turns(s, a, b) && Cost(s) == d)
    && (forall s :: Turns(s, a, b) ==> Cost(s) >= d)
  }

  // ----------------------------------------------------------------- the recurrence

  function Min(a: nat, b: nat): nat {
    if a < b then a else b
  }

  function Distance(a: string, b: string): nat
    decreases |a| + |b|
  {
    if a == "" then |b|
    else if b == "" then |a|
    else
      var m, n := |a| - 1, |b| - 1;
      Min(Min(Distance(a[..m], b) + 1, Distance(a, b[..n]) + 1),
          Distance(a[..m], b[..n]) + if a[m] == b[n] then 0 else 1)
  }

  lemma Append(s: Script, e: Edit)
    ensures Cost(s + [e]) == Cost(s) + if e.Keep? then 0 else 1
    ensures Source(s + [e]) == Source(s) + if e.Insert? then [] else [if e.Replace? then e.was else e.c]
    ensures Target(s + [e]) == Target(s) + if e.Delete? then [] else [if e.Replace? then e.becomes else e.c]
  {
    assert (s + [e])[..|s|] == s;
  }

  lemma NoEdits()
    ensures Turns([], "", "") && Cost([]) == 0
  {
  }

  lemma InsertLast(t: Script, a: string, b: string)
    requires b != "" && Turns(t, a, b[..|b| - 1])
    ensures Turns(t + [Insert(b[|b| - 1])], a, b) && Cost(t + [Insert(b[|b| - 1])]) == Cost(t) + 1
  {
    Append(t, Insert(b[|b| - 1]));
    assert b == b[..|b| - 1] + [b[|b| - 1]];
  }

  lemma DeleteLast(t: Script, a: string, b: string)
    requires a != "" && Turns(t, a[..|a| - 1], b)
    ensures Turns(t + [Delete(a[|a| - 1])], a, b) && Cost(t + [Delete(a[|a| - 1])]) == Cost(t) + 1
  {
    Append(t, Delete(a[|a| - 1]));
    assert a == a[..|a| - 1] + [a[|a| - 1]];
  }

  lemma KeepOrReplaceLast(t: Script, a: string, b: string) returns (s: Script)
    requires a != "" && b != "" && Turns(t, a[..|a| - 1], b[..|b| - 1])
    ensures Turns(s, a, b) && Cost(s) == Cost(t) + if a[|a| - 1] == b[|b| - 1] then 0 else 1
  {
    var c, d := a[|a| - 1], b[|b| - 1];
    var e := if c == d then Keep(c) else Replace(c, d);
    Append(t, e);
    s := t + [e];
    assert a == a[..|a| - 1] + [c] && b == b[..|b| - 1] + [d];
  }

  lemma {:induction false} BestScript(a: string, b: string) returns (s: Script)
    ensures Turns(s, a, b) && Cost(s) == Distance(a, b)
    decreases |a| + |b|
  {
    hide Turns, Cost;
    var m, n := |a| - 1, |b| - 1;
    if a == "" && b == "" {
      s := [];
      NoEdits();
    } else if a == "" || (b != "" && Distance(a, b) == Distance(a, b[..n]) + 1) {
      var t := BestScript(a, b[..n]);
      InsertLast(t, a, b);
      s := t + [Insert(b[n])];
    } else if b == "" || Distance(a, b) == Distance(a[..m], b) + 1 {
      var t := BestScript(a[..m], b);
      DeleteLast(t, a, b);
      s := t + [Delete(a[m])];
    } else {
      var t := BestScript(a[..m], b[..n]);
      s := KeepOrReplaceLast(t, a, b);
    }
  }

  lemma {:induction false} NoScriptIsCheaper(s: Script)
    ensures Distance(Source(s), Target(s)) <= Cost(s)
    decreases |s|
  {
    if s != [] {
      var n := |s| - 1;
      var a, b := Source(s[..n]), Target(s[..n]);
      NoScriptIsCheaper(s[..n]);
      match s[n]
      case Keep(c) => Extended(a, b, c, c);
      case Replace(c, d) => Extended(a, b, c, d);
      case Delete(c) => Lengthened(a, b, c);
      case Insert(d) => LengthenedRight(a, b, d);
    }
  }

  lemma Extended(a: string, b: string, c: char, d: char)
    ensures Distance(a + [c], b + [d]) <= Distance(a, b) + if c == d then 0 else 1
  {
  }

  lemma Lengthened(a: string, b: string, c: char)
    ensures Distance(a + [c], b) <= Distance(a, b) + 1
  {
  }

  lemma LengthenedRight(a: string, b: string, d: char)
    ensures Distance(a, b + [d]) <= Distance(a, b) + 1
  {
  }

  /** The recurrence counts the cheapest script. */
  lemma DistanceIsLeast(a: string, b: string)
    ensures IsDistance(a, b, Distance(a, b))
  {
    var s := BestScript(a, b);
    forall t | Turns(t, a, b)
      ensures Cost(t) >= Distance(a, b)
    {
      NoScriptIsCheaper(t);
    }
  }

  // ------------------------------------------------------------------ the algorithm

  /** One entry of the table from the three beside it. */
  lemma TableStep(lhs: string, rhs: string, left: nat, right: nat)
    requires 0 < left <= |lhs| && 0 < right <= |rhs|
    ensures Distance(lhs[..left], rhs[..right])
      == Min(Min(Distance(lhs[..left - 1], rhs[..right]) + 1, Distance(lhs[..left], rhs[..right - 1]) + 1),
             Distance(lhs[..left - 1], rhs[..right - 1]) + if lhs[left - 1] == rhs[right - 1] then 0 else 1)
  {
    assert lhs[..left][..left - 1] == lhs[..left - 1] && rhs[..right][..right - 1] == rhs[..right - 1];
  }

  ghost predicate IsRow(row: seq<nat>, a: string, rhs: string, n: nat)
    requires n <= |row| && n <= |rhs| + 1
  {
    forall j :: 0 <= j < n ==> row[j] == Distance(a, rhs[..j])
  }

  method FillRow(previous: array<nat>, current: array<nat>, lhs: string, rhs: string, left: nat)
    requires previous != current && previous.Length == current.Length == |rhs| + 1
    requires 0 < left <= |lhs| && IsRow(previous[..], lhs[..left - 1], rhs, |rhs| + 1)
    modifies current
    ensures IsRow(current[..], lhs[..left], rhs, |rhs| + 1)
  {
    hide Distance;
    assert Distance(lhs[..left], rhs[..0]) == left by { EmptyDistance(lhs[..left]); }
    current[0] := left;
    for right := 1 to |rhs| + 1
      invariant forall j :: 0 <= j < right ==> current[j] == Distance(lhs[..left], rhs[..j])
    {
      TableStep(lhs, rhs, left, right);
      assert previous[..][right - 1] == Distance(lhs[..left - 1], rhs[..right - 1]);
      assert previous[..][right] == Distance(lhs[..left - 1], rhs[..right]);
      var substitution := previous[right - 1] + if lhs[left - 1] == rhs[right - 1] then 0 else 1;
      current[right] := Min(Min(previous[right] + 1, current[right - 1] + 1), substitution);
    }
  }

  lemma EmptyDistance(a: string)
    ensures Distance(a, "") == |a| && Distance("", a) == |a|
  {
  }

  /** Two rows of the table are kept and swapped. */
  method EditDistance(lhs: string, rhs: string) returns (d: nat)
    ensures d == Distance(lhs, rhs) && IsDistance(lhs, rhs, d)
  {
    hide Distance, IsDistance;
    var n := |rhs|;
    var previous, current := new nat[n + 1], new nat[n + 1];
    for index := 0 to n + 1
      invariant forall j :: 0 <= j < index ==> previous[j] == Distance("", rhs[..j])
    {
      EmptyDistance(rhs[..index]);
      previous[index] := index;
    }
    assert lhs[..0] == "";
    for left := 1 to |lhs| + 1
      invariant previous != current && previous.Length == current.Length == n + 1
      invariant fresh(previous) && fresh(current)
      invariant IsRow(previous[..], lhs[..left - 1], rhs, n + 1)
    {
      FillRow(previous, current, lhs, rhs, left);
      previous, current := current, previous;
    }
    assert lhs[..|lhs|] == lhs && rhs[..n] == rhs;
    DistanceIsLeast(lhs, rhs);
    assert previous[..][n] == Distance(lhs, rhs);
    d := previous[n];
  }

  /** a comes before b as std::string compares them. */
  predicate LexLess(a: string, b: string) {
    LexLeq(a, b) && a != b
  }

  /** b is the best candidate: close enough, none closer, none as close that comes before it. */
  ghost predicate IsBest(b: string, name: string, candidates: seq<string>) {
    && b in candidates && Distance(name, b) <= 2
    && forall c :: c in candidates ==>
      Distance(name, b) < Distance(name, c) || (Distance(name, b) == Distance(name, c) && LexLeq(b, c))
  }

  lemma NextCandidate(name: string, before: seq<string>, c: string, best: Option<string>)
    requires best.Some? ==> IsBest(best.value, name, before)
    requires best.None? ==> forall x :: x in before ==> Distance(name, x) > 2
    ensures best.Some? ==>
      var closer := Distance(name, c) < Distance(name, best.value)
                    || (Distance(name, c) == Distance(name, best.value) && LexLess(c, best.value));
      IsBest(if closer then c else best.value, name, before + [c])
    ensures best.None? && Distance(name, c) <= 2 ==> IsBest(c, name, before + [c])
  {
    hide LexLeq;
    LexIsTotalOrder();
  }

  method SuggestName(name: string, candidates: seq<string>) returns (best: Option<string>)
    ensures best.Some? ==> best.value in candidates && Distance(name, best.value) <= 2
    ensures best.Some? ==> forall c :: c in candidates ==>
      || Distance(name, best.value) < Distance(name, c)
      || (Distance(name, best.value) == Distance(name, c) && LexLeq(best.value, c))
    ensures best.None? <==> forall c :: c in candidates ==> Distance(name, c) > 2
  {
    LexIsTotalOrder();
    hide TotalOrder, LexLeq;
    best := None;
    var bestDistance := 0;
    for i := 0 to |candidates|
      invariant best.Some? ==> IsBest(best.value, name, candidates[..i]) && bestDistance == Distance(name, best.value)
      invariant best.None? <==> forall c :: c in candidates[..i] ==> Distance(name, c) > 2
    {
      assert candidates[..i + 1] == candidates[..i] + [candidates[i]];
      var candidate := candidates[i];
      var distance := EditDistance(name, candidate);
      NextCandidate(name, candidates[..i], candidate, best);
      if distance > 2 {
        continue;
      }
      if best.None? || distance < bestDistance || (distance == bestDistance && LexLess(candidate, best.value)) {
        bestDistance := distance;
        best := Some(candidate);
      }
    }
    assert candidates[..|candidates|] == candidates;
  }

  /** The answer does not depend on the order of the candidates. */
  lemma BestIsUnique(b: string, c: string, name: string, candidates: seq<string>, others: seq<string>)
    requires IsBest(b, name, candidates) && IsBest(c, name, others)
    requires forall x :: x in candidates <==> x in others
    ensures b == c
  {
    LexAntisymmetric(b, c);
  }
}
