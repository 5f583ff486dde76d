/** The search for cycles among type aliases (src/compiler/semantics/resolver.cpp). Symbols are
    numbered by their place in the symbol table. */
module AliasCycles {
  import opened Sequences
  import opened Graphs

  datatype VisitState = Unvisited | Visiting | Completed

  /** An error placed at one alias of a chain; the chain ends where it starts. */
  datatype CycleError = CycleError(at: nat, chain: seq<nat>)

  /** The aliases each alias names, as often as it names them; only aliases are recorded. */
  ghost predicate Recorded(isAlias: seq<bool>, dependencies: map<nat, seq<nat>>) {
    && (forall a :: a in dependencies ==> a < |isAlias| && isAlias[a])
    && (forall a :: a in dependencies ==> OnlyAliases(isAlias, dependencies[a]))
  }

  ghost predicate OnlyAliases(isAlias: seq<bool>, named: seq<nat>) {
    forall i :: 0 <= i < |named| ==> named[i] < |isAlias| && isAlias[named[i]]
  }

  ghost function Edges(dependencies: map<nat, seq<nat>>): Graph<nat> {
    set a, d | a in dependencies && d in dependencies[a] :: (a, d)
  }

  /** A chain that goes round once. */
  ghost predicate IsCycle(g: Graph<nat>, chain: seq<nat>) {
    && |chain| >= 2 && chain[0] == chain[|chain| - 1]
    && IsPath(g, chain)
    && Distinct(chain[1..])
  }

  ghost predicate HasError(errors: seq<CycleError>, v: nat) {
    exists e :: e in errors && e.at == v
  }

  ghost predicate ErrorsAreCycles(g: Graph<nat>, errors: seq<CycleError>) {
    forall e :: e in errors ==> IsCycle(g, e.chain) && e.at in e.chain
  }

  /** v was left after d, or a cycle through both has been reported. */
  ghost predicate Accounted(d: nat, v: nat, before: seq<nat>, reported: set<nat>) {
    d in before || (v in reported && d in reported)
  }

  /** `finished` lists the aliases in the order in which they were left. */
  ghost predicate FinishedInOrder(g: Graph<nat>, finished: seq<nat>, reported: set<nat>) {
    && Distinct(finished)
    && forall i, d {:trigger (finished[i], d) in g} ::
      0 <= i < |finished| && (finished[i], d) in g ==> Accounted(d, finished[i], finished[..i], reported)
  }

  ghost predicate StackIsAPath(g: Graph<nat>, stack: seq<nat>) {
    Distinct(stack) && IsPath(g, stack)
  }

  /** What the states say of the aliases. */
  ghost predicate StatesAgree(states: seq<VisitState>, stack: seq<nat>, finished: seq<nat>) {
    && (forall v: nat :: v < |states| ==> (states[v] == Visiting <==> v in stack))
    && (forall v: nat :: v < |states| ==> (states[v] == Completed <==> v in finished))
    && (forall v :: v in stack ==> v < |states|)
    && (forall v :: v in finished ==> v < |states|)
  }

  ghost function Untouched(states: seq<VisitState>): set<nat> {
    set v: nat | v < |states| && states[v] == Unvisited
  }

  ghost function Members(chain: seq<nat>): set<nat> {
    set v | v in chain
  }

  method MarkReported(chain: seq<nat>, reported: set<nat>) returns (r: set<nat>, emit: bool)
    ensures r == reported + Members(chain)
    ensures emit <==> r != reported
  {
    r, emit := reported, false;
    for i := 0 to |chain|
      invariant r == reported + Members(chain[..i])
      invariant emit <==> r != reported
    {
      assert chain[..i + 1] == chain[..i] + [chain[i]];
      emit := chain[i] !in r || emit;
      r := r + {chain[i]};
    }
    assert chain[..|chain|] == chain;
  }

  /** One error for each alias of the chain but its last place, which repeats the first. */
  ghost predicate ErrorsOf(chain: seq<nat>, errors: seq<CycleError>, r: seq<CycleError>) {
    && |chain| >= 2 && |r| == |errors| + |chain| - 1 && errors <= r
    && forall i :: 0 <= i < |chain| - 1 ==> r[|errors| + i] == CycleError(chain[i], chain)
  }

  /** One error for each alias of the chain, whose last place repeats the first. */
  method EmitErrors(chain: seq<nat>, errors: seq<CycleError>) returns (r: seq<CycleError>)
    requires |chain| >= 2
    ensures ErrorsOf(chain, errors, r)
  {
    r := errors;
    for i := 0 to |chain| - 1
      invariant |r| == |errors| + i && errors <= r
      invariant forall j :: 0 <= j < i ==> r[|errors| + j] == CycleError(chain[j], chain)
    {
      r := r + [CycleError(chain[i], chain)];
    }
  }

  class CycleDetector {
    const isAlias: seq<bool>
    const dependencies: map<nat, seq<nat>>
    var states: seq<VisitState>
    var stack: seq<nat>
    var reported: set<nat>
    var errors: seq<CycleError>
    ghost var finished: seq<nat>

    ghost function G(): Graph<nat> {
      Edges(dependencies)
    }

    ghost predicate Valid()
      reads this
    {
      && Recorded(isAlias, dependencies)
      && |states| == |isAlias|
      && StackIsAPath(G(), stack)
      && StatesAgree(states, stack, finished)
      && FinishedInOrder(G(), finished, reported)
      && ErrorsAreCycles(G(), errors)
      && (forall v :: v in reported <==> HasError(errors, v))
    }

    constructor (isAlias: seq<bool>, dependencies: map<nat, seq<nat>>)
      requires Recorded(isAlias, dependencies)
      ensures Valid() && this.isAlias == isAlias && this.dependencies == dependencies
      ensures stack == [] && errors == [] && forall s :: s in states ==> s == Unvisited
    {
      this.isAlias, this.dependencies := isAlias, dependencies;
      states := seq(|isAlias|, _ => Unvisited);
      stack, reported, errors, finished := [], {}, [], [];
    }

    method FindOnStack(entry: nat) returns (begin: nat)
      requires entry in stack
      ensures begin < |stack| && stack[begin] == entry
    {
      begin := 0;
      while stack[begin] != entry
        invariant begin < |stack| && entry !in stack[..begin]
        decreases |stack| - begin
      {
        assert stack[..begin + 1] == stack[..begin] + [stack[begin]];
        begin := begin + 1;
      }
    }

    /** Reports every alias of the stack from `entry` on, each with an error, unless all of them have
        been reported. */
    method ReportAliasCycle(entry: nat)
      requires Valid() && entry in stack && (stack[|stack| - 1], entry) in G()
      modifies this`reported, this`errors
      ensures Valid() && old(reported) <= reported && old(errors) <= errors
      ensures reported == old(reported) + Members(stack[Position(stack, entry)..])
      ensures reported == old(reported) ==> errors == old(errors)
      ensures reported != old(reported) ==> ErrorsOf(stack[Position(stack, entry)..] + [entry], old(errors), errors)
      ensures entry in reported && stack[|stack| - 1] in reported
    {
      hide FinishedInOrder, StatesAgree, ErrorsAreCycles, HasError, IsCycle, ErrorsOf, StackIsAPath;
      var begin := FindOnStack(entry);
      var chain := stack[begin..] + [entry];
      CycleFromStack(G(), stack, begin, entry);
      var emit;
      reported, emit := MarkReported(chain, reported);
      ReportingKeepsOrder(G(), finished, old(reported), reported);
      if emit {
        errors := EmitErrors(chain, errors);
        ChainErrorsAreCycles(G(), chain, old(errors), errors);
      }
    }

    method VisitAlias(id: nat)
      requires Valid() && id < |isAlias| && isAlias[id] && states[id] == Unvisited
      requires stack != [] ==> (stack[|stack| - 1], id) in G()
      modifies this`states, this`stack, this`reported, this`errors, this`finished
      ensures Valid() && stack == old(stack) && states[id] == Completed
      ensures forall v: nat :: v < |states| && old(states[v]) != Unvisited ==> states[v] == old(states[v])
      ensures Untouched(states) <= old(Untouched(states))
      ensures old(reported) <= reported && old(errors) <= errors && old(finished) <= finished
      decreases |Untouched(states)|, 1
    {
      hide StackIsAPath, StatesAgree, FinishedInOrder, ErrorsAreCycles, HasError;
      ghost var before := states;
      StatesPushed(states, stack, finished, id);
      Pushed(G(), stack, id);
      states := states[id := Visiting];
      stack := stack + [id];
      UntouchedShrinks(before, states, id);
      if id in dependencies {
        VisitDependencies(id, before);
      }
      ghost var rest := old(stack);
      assert stack == rest + [id];
      Popped(G(), rest, id);
      StatesLeft(states, rest, finished, id);
      Leaving(G(), dependencies, finished, reported, id);
      stack := stack[..|stack| - 1];
      states := states[id := Completed];
      finished := finished + [id];
      assert stack == rest;
    }

    /** The loop over what the alias on top of the stack names. */
    method VisitDependencies(id: nat, ghost before: seq<VisitState>)
      requires Valid() && stack != [] && stack[|stack| - 1] == id && id in dependencies
      requires |before| == |states| && Untouched(states) < Untouched(before)
      modifies this`states, this`stack, this`reported, this`errors, this`finished
      ensures Valid() && stack == old(stack) && Untouched(states) < Untouched(before)
      ensures forall v: nat :: v < |states| && old(states[v]) != Unvisited ==> states[v] == old(states[v])
      ensures forall i :: 0 <= i < |dependencies[id]| ==> Accounted(dependencies[id][i], id, finished, reported)
      ensures old(reported) <= reported && old(errors) <= errors && old(finished) <= finished
      decreases |Untouched(before)|, 0
    {
      hide StackIsAPath, FinishedInOrder, ErrorsAreCycles, HasError, Untouched;
      var named := dependencies[id];
      for i := 0 to |named|
        invariant Valid() && stack == old(stack) && Untouched(states) <= old(Untouched(states))
        invariant forall v: nat :: v < |states| && old(states[v]) != Unvisited ==> states[v] == old(states[v])
        invariant forall j :: 0 <= j < i ==> Accounted(named[j], id, finished, reported)
        invariant old(reported) <= reported && old(errors) <= errors && old(finished) <= finished
      {
        var d := named[i];
        assert d in dependencies[id] && (id, d) in G();
        assert OnlyAliases(isAlias, named);
        if states[d] == Visiting {
          ReportAliasCycle(d);
        } else if states[d] == Unvisited {
          SubsetCardinality(Untouched(states), Untouched(before));
          VisitAlias(d);
        }
      }
    }

    /** Every alias is visited, and there is an error exactly when some alias is cyclic. */
    method DetectTypeAliasCycles()
      requires Valid() && stack == [] && errors == [] && (forall s :: s in states ==> s == Unvisited)
      modifies this`states, this`stack, this`reported, this`errors, this`finished
      ensures Valid() && forall v: nat :: v < |isAlias| && isAlias[v] ==> states[v] == Completed
      ensures errors == [] <==> Acyclic(G())
      ensures ErrorsAreCycles(G(), errors)
      ensures Acyclic(Unreported(G(), errors))
    {
      for v := 0 to |isAlias|
        invariant Valid() && stack == []
        invariant forall w: nat :: w < v && isAlias[w] ==> states[w] == Completed
      {
        if isAlias[v] && states[v] == Unvisited {
          VisitAlias(v);
        }
      }
      forall e | e in G()
        ensures e.0 in finished
      {
        assert states[e.0] == Completed;
      }
      RemainderIsAcyclic(G(), finished, reported, errors);
      if errors != [] {
        EveryErrorNeedsACycle(G(), errors);
      } else {
        assert Unreported(G(), errors) == G();
      }
    }
  }

  /** The edges that no reported cycle explains: those without an error at both ends. */
  ghost function Unreported(g: Graph<nat>, errors: seq<CycleError>): Graph<nat> {
    set e | e in g && !(HasError(errors, e.0) && HasError(errors, e.1))
  }

  // -------------------------------------------------------------------- small steps

  lemma StatesPushed(states: seq<VisitState>, stack: seq<nat>, finished: seq<nat>, id: nat)
    requires StatesAgree(states, stack, finished) && id < |states| && states[id] == Unvisited
    ensures id !in stack && StatesAgree(states[id := Visiting], stack + [id], finished)
  {
  }

  lemma StatesLeft(states: seq<VisitState>, stack: seq<nat>, finished: seq<nat>, id: nat)
    requires StatesAgree(states, stack + [id], finished) && id !in stack
    ensures id < |states| && id !in finished && StatesAgree(states[id := Completed], stack, finished + [id])
  {
    assert id in stack + [id];
    forall v: nat
      ensures v in finished + [id] <==> v in finished || v == id
      ensures v in stack + [id] <==> v in stack || v == id
    {
      assert v in stack + [id] <==> v in stack || v == id;
    }
    assert forall v :: v in stack ==> v in stack + [id];
  }

  lemma Popped(g: Graph<nat>, stack: seq<nat>, id: nat)
    requires StackIsAPath(g, stack + [id])
    ensures StackIsAPath(g, stack) && id !in stack
  {
    DistinctSnoc(stack, id);
    var longer := stack + [id];
    forall i | 0 <= i < |stack| - 1
      ensures (stack[i], stack[i + 1]) in g
    {
      assert (longer[i], longer[i + 1]) in g;
    }
  }

  lemma CycleFromStack(g: Graph<nat>, stack: seq<nat>, begin: nat, entry: nat)
    requires StackIsAPath(g, stack) && begin < |stack| && stack[begin] == entry
    requires (stack[|stack| - 1], entry) in g
    ensures IsCycle(g, stack[begin..] + [entry]) && Position(stack, entry) == begin
    ensures Members(stack[begin..] + [entry]) == Members(stack[begin..])
    ensures entry in stack[begin..] && stack[|stack| - 1] in stack[begin..]
  {
    PositionIs(stack, begin);
    assert stack[begin..][0] == entry && stack[begin..][|stack| - begin - 1] == stack[|stack| - 1];
  }

  lemma ChainErrorsAreCycles(g: Graph<nat>, chain: seq<nat>, errors: seq<CycleError>, r: seq<CycleError>)
    requires IsCycle(g, chain) && ErrorsAreCycles(g, errors) && ErrorsOf(chain, errors, r)
    ensures ErrorsAreCycles(g, r)
    ensures forall v :: HasError(r, v) <==> HasError(errors, v) || v in Members(chain)
  {
    forall e | e in r
      ensures e in errors || (e.chain == chain && e.at in chain[..|chain| - 1])
    {
      var k :| 0 <= k < |r| && r[k] == e;
      if k >= |errors| {
        assert r[|errors| + (k - |errors|)] == CycleError(chain[k - |errors|], chain);
      }
    }
    forall v | HasError(errors, v) || v in chain[..|chain| - 1]
      ensures HasError(r, v)
    {
      if HasError(errors, v) {
        var k :| 0 <= k < |errors| && errors[k].at == v;
        assert r[k] == errors[k] && r[k] in r;
      } else {
        var i :| 0 <= i < |chain| - 1 && chain[i] == v;
        assert r[|errors| + i] in r;
      }
    }
  }

  lemma ReportingKeepsOrder(g: Graph<nat>, finished: seq<nat>, before: set<nat>, after: set<nat>)
    requires FinishedInOrder(g, finished, before) && before <= after
    ensures FinishedInOrder(g, finished, after)
  {
  }

  lemma Pushed(g: Graph<nat>, stack: seq<nat>, id: nat)
    requires StackIsAPath(g, stack) && id !in stack && (stack != [] ==> (stack[|stack| - 1], id) in g)
    ensures StackIsAPath(g, stack + [id])
  {
  }

  lemma UntouchedShrinks(before: seq<VisitState>, after: seq<VisitState>, id: nat)
    requires id < |before| && before[id] == Unvisited && after == before[id := Visiting]
    ensures Untouched(after) < Untouched(before)
  {
    assert id in Untouched(before) && id !in Untouched(after);
  }

  lemma Leaving(g: Graph<nat>, dependencies: map<nat, seq<nat>>, finished: seq<nat>, reported: set<nat>, id: nat)
    requires g == Edges(dependencies) && FinishedInOrder(g, finished, reported) && id !in finished
    requires id in dependencies ==>
      forall i :: 0 <= i < |dependencies[id]| ==> Accounted(dependencies[id][i], id, finished, reported)
    ensures FinishedInOrder(g, finished + [id], reported)
  {
    var longer := finished + [id];
    DistinctSnoc(finished, id);
    forall i, d | 0 <= i < |longer| && (longer[i], d) in g
      ensures Accounted(d, longer[i], longer[..i], reported)
    {
      if i < |finished| {
        assert longer[..i] == finished[..i];
        assert (finished[i], d) in g;
      } else {
        assert longer[..i] == finished;
        var k :| 0 <= k < |dependencies[id]| && dependencies[id][k] == d;
      }
    }
  }

  /** Without the edges that were reported at both ends, the finishing order rules out cycles. */
  lemma RemainderIsAcyclic(g: Graph<nat>, finished: seq<nat>, reported: set<nat>, errors: seq<CycleError>)
    requires FinishedInOrder(g, finished, reported)
    requires forall v :: v in reported <==> HasError(errors, v)
    requires forall e :: e in g ==> e.0 in finished
    ensures Acyclic(Unreported(g, errors))
  {
    var rest := Unreported(g, errors);
    forall e | e in rest
      ensures Position(finished, e.1) < Position(finished, e.0)
    {
      var i :| 0 <= i < |finished| && finished[i] == e.0;
      assert (finished[i], e.1) in g;
      assert Accounted(e.1, finished[i], finished[..i], reported);
      var j :| 0 <= j < i && finished[..i][j] == e.1;
      PositionIs(finished, i);
      PositionIs(finished, j);
    }
    RankedIsAcyclic(rest, v => Position(finished, v));
  }

  lemma EveryErrorNeedsACycle(g: Graph<nat>, errors: seq<CycleError>)
    requires ErrorsAreCycles(g, errors) && errors != []
    ensures !Acyclic(g)
  {
    var chain := errors[0].chain;
    assert PathFromTo(g, chain, chain[0], chain[0]);
    assert Reaches(g, chain[0], chain[0]);
  }
}
