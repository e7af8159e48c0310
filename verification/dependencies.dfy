/** `sort_to_dependencies`: modules in layers, each after everything it depends on. */
module Dependencies {
  import opened Wrappers

  type Name = string

  type Graph = map<Name, seq<Name>>

  // ---- the algorithm on values ----

  predicate Loadable(deps: Graph, m: Name, current: seq<Name>)
    requires m in deps
  {
    forall i | 0 <= i < |deps[m]| :: deps[m][i] in current
  }

  predicate Known(deps: Graph, pending: seq<Name>) { forall m | m in pending :: m in deps }

  /** The pending modules all of whose dependencies are loaded. */
  function Ready(deps: Graph, pending: seq<Name>, current: seq<Name>): (r: seq<Name>)
    requires Known(deps, pending)
    ensures |r| <= |pending|
  {
    if pending == [] then []
    else
      var n := |pending| - 1;
      Ready(deps, pending[..n], current) + if Loadable(deps, pending[n], current) then [pending[n]] else []
  }

  /** `list.remove`: the first occurrence goes. */
  function Remove(s: seq<Name>, x: Name): (r: seq<Name>)
    ensures |r| == if x in s then |s| - 1 else |s|
  {
    if s == [] then [] else if s[0] == x then s[1..] else [s[0]] + Remove(s[1..], x)
  }

  function RemoveEach(s: seq<Name>, xs: seq<Name>): seq<Name> {
    if xs == [] then s else Remove(RemoveEach(s, xs[..|xs| - 1]), xs[|xs| - 1])
  }

  predicate Distinct(s: seq<Name>) { forall i, j | 0 <= i < j < |s| :: s[i] != s[j] }

  lemma {:induction false} RemoveIs(s: seq<Name>, x: Name)
    requires Distinct(s)
    ensures Distinct(Remove(s, x))
    ensures forall y :: y in Remove(s, x) <==> y in s && y != x
  {
    if s != [] {
      var t := s[1..];
      assert s == [s[0]] + t;
      assert s[0] !in t by {
        forall i | 0 <= i < |t| ensures t[i] != s[0] { assert t[i] == s[i + 1]; }
      }
      RemoveIs(t, x);
      if s[0] != x { DistinctCons(s[0], Remove(t, x)); }
    }
  }

  lemma DistinctCons(x: Name, s: seq<Name>)
    requires Distinct(s) && x !in s
    ensures Distinct([x] + s)
  {
    var t := [x] + s;
    forall i, j | 0 <= i < j < |t| ensures t[i] != t[j] {
      assert t[j] == s[j - 1];
      assert i > 0 ==> t[i] == s[i - 1];
    }
  }

  lemma {:induction false} RemoveEachIs(s: seq<Name>, xs: seq<Name>)
    requires Distinct(s)
    ensures Distinct(RemoveEach(s, xs))
    ensures forall y :: y in RemoveEach(s, xs) <==> y in s && y !in xs
  {
    if xs != [] {
      var n := |xs| - 1;
      RemoveEachIs(s, xs[..n]);
      RemoveIs(RemoveEach(s, xs[..n]), xs[n]);
      assert xs == xs[..n] + [xs[n]];
    }
  }

  lemma {:induction false} ReadyIs(deps: Graph, pending: seq<Name>, current: seq<Name>)
    requires Known(deps, pending) && Distinct(pending)
    ensures Distinct(Ready(deps, pending, current))
    ensures forall m :: m in Ready(deps, pending, current) <==> m in pending && Loadable(deps, m, current)
  {
    if pending != [] {
      var n := |pending| - 1;
      ReadyIs(deps, pending[..n], current);
      assert pending == pending[..n] + [pending[n]];
      assert pending[n] !in pending[..n];
    }
  }

  lemma {:induction false} RemoveEachSize(s: seq<Name>, xs: seq<Name>)
    requires Distinct(s) && Distinct(xs) && forall x | x in xs :: x in s
    ensures |RemoveEach(s, xs)| == |s| - |xs|
  {
    if xs != [] {
      var n := |xs| - 1;
      assert xs[n] !in xs[..n];
      RemoveEachSize(s, xs[..n]);
      RemoveEachIs(s, xs[..n]);
    }
  }

  /** What remains pending after the ready modules have gone. */
  function Rest(deps: Graph, pending: seq<Name>, current: seq<Name>): seq<Name>
    requires Known(deps, pending)
  {
    RemoveEach(pending, Ready(deps, pending, current))
  }

  lemma RestIs(deps: Graph, pending: seq<Name>, current: seq<Name>)
    requires Known(deps, pending) && Distinct(pending)
    ensures Known(deps, Rest(deps, pending, current)) && Distinct(Rest(deps, pending, current))
    ensures |Rest(deps, pending, current)| == |pending| - |Ready(deps, pending, current)|
    ensures forall m :: m in Rest(deps, pending, current) <==> m in pending && !Loadable(deps, m, current)
  {
    var ready := Ready(deps, pending, current);
    ReadyIs(deps, pending, current);
    RemoveEachIs(pending, ready);
    RemoveEachSize(pending, ready);
  }

  /** The layers still to come, or nothing when modules are left of which none can ever be loaded. */
  function Layers(deps: Graph, pending: seq<Name>, current: seq<Name>): Option<seq<seq<Name>>>
    requires Known(deps, pending) && Distinct(pending)
    decreases |pending|
  {
    var ready := Ready(deps, pending, current);
    if pending == [] then Some([])
    else if ready == [] then None
    else
      RestIs(deps, pending, current);
      match Layers(deps, Rest(deps, pending, current), current + ready)
      case None => None
      case Some(later) => Some([ready] + later)
  }

  // ---- the recursion that empties its lists in place ----

  class Sorter {
    const deps: Graph
    var pending: seq<Name>
    var current: seq<Name>
    var steps: seq<seq<Name>>

    constructor (deps: Graph, pending: seq<Name>)
      ensures this.deps == deps && this.pending == pending && current == [] && steps == []
    {
      this.deps, this.pending, current, steps := deps, pending, [], [];
    }

    method ModulesThatCanBeLoaded() returns (modules: seq<Name>)
      requires Known(deps, pending)
      ensures modules == Ready(deps, pending, current)
    {
      modules := [];
      for i := 0 to |pending|
        invariant modules == Ready(deps, pending[..i], current)
      {
        assert pending[..i + 1][..i] == pending[..i];
        var m := pending[i];
        var canBeLoaded := true;
        for j := 0 to |deps[m]|
          invariant canBeLoaded && forall k | 0 <= k < j :: deps[m][k] in current
        {
          if deps[m][j] !in current {
            canBeLoaded := false;
            break;
          }
        }
        if !canBeLoaded { continue; }
        modules := modules + [m];
      }
      assert pending[..|pending|] == pending;
    }

    /** One layer: its modules move from `pending` to `current` and into the step. */
    method TakeLayer() returns (taken: nat)
      requires Known(deps, pending) && Distinct(pending)
      modifies this
      ensures taken == |Ready(deps, old(pending), old(current))|
      ensures pending == Rest(deps, old(pending), old(current))
      ensures current == old(current) + Ready(deps, old(pending), old(current))
      ensures steps == old(steps) + [Ready(deps, old(pending), old(current))]
    {
      var modules := ModulesThatCanBeLoaded();
      var step: seq<Name> := [];
      for i := 0 to |modules|
        invariant modules == Ready(deps, old(pending), old(current)) && steps == old(steps)
        invariant step == modules[..i] && pending == RemoveEach(old(pending), modules[..i])
        invariant current == old(current) + modules[..i]
      {
        assert modules[..i + 1] == modules[..i] + [modules[i]];
        assert modules[..i + 1][..i] == modules[..i];
        step := step + [modules[i]];
        pending := Remove(pending, modules[i]);
        current := current + [modules[i]];
      }
      assert modules[..|modules|] == modules;
      steps := steps + [step];
      taken := |modules|;
    }

    /** `dependency_order`. An empty layer leaves both lists as they were, so that the call would repeat
        itself for ever: `ok` is false instead. */
    method DependencyOrder() returns (ok: bool)
      requires Known(deps, pending) && Distinct(pending)
      modifies this
      ensures ok == Layers(deps, old(pending), old(current)).Some?
      ensures ok ==> pending == [] && steps == old(steps) + Layers(deps, old(pending), old(current)).value
      decreases |pending|
    {
      if |pending| == 0 {
        assert steps + [] == steps;
        return true;
      }
      RestIs(deps, pending, current);
      ghost var before, ready := steps, Ready(deps, pending, current);
      var taken := TakeLayer();
      if taken == 0 { return false; }
      ghost var later := Layers(deps, pending, current);
      ok := DependencyOrder();
      if ok { LayerFirst(before, ready, later.value); }
    }
  }

  lemma LayerFirst(before: seq<seq<Name>>, ready: seq<Name>, later: seq<seq<Name>>)
    ensures before + [ready] + later == before + ([ready] + later)
  {}

  /** When no pending module is ready, the next call of the recursion meets the same lists. */
  lemma EmptyLayerRepeats(deps: Graph, pending: seq<Name>, current: seq<Name>)
    requires Known(deps, pending) && Ready(deps, pending, current) == []
    ensures Rest(deps, pending, current) == pending && current + Ready(deps, pending, current) == current
  {}

  // ---- what the layers are ----

  /** The modules of the first `i` layers. */
  function Upto(layers: seq<seq<Name>>, i: nat): seq<Name>
    requires i <= |layers|
  {
    if i == 0 then [] else Upto(layers, i - 1) + layers[i - 1]
  }

  lemma {:induction false} UptoCons(ready: seq<Name>, later: seq<seq<Name>>, i: nat)
    requires i <= |later|
    ensures Upto([ready] + later, i + 1) == ready + Upto(later, i)
  {
    if i == 0 {
      assert Upto([ready] + later, 0) == [];
    } else {
      UptoCons(ready, later, i - 1);
      assert ([ready] + later)[i] == later[i - 1];
      assert ready + (Upto(later, i - 1) + later[i - 1]) == ready + Upto(later, i - 1) + later[i - 1];
    }
  }

  lemma LoadedShift(current: seq<Name>, ready: seq<Name>, later: seq<seq<Name>>, i: nat)
    requires i <= |later|
    ensures current + ready + Upto(later, i) == current + Upto([ready] + later, i + 1)
  {
    UptoCons(ready, later, i);
  }

  lemma NothingLoaded(current: seq<Name>, layers: seq<seq<Name>>)
    ensures current + Upto(layers, 0) == current
  {}

  lemma MoreLoaded(deps: Graph, m: Name, current: seq<Name>, more: seq<Name>)
    requires m in deps
    ensures Loadable(deps, m, current) ==> Loadable(deps, m, current + more)
  {}

  /** Loadable once the layers before the `i`th are loaded, and not sooner. */
  predicate ReadyAt(deps: Graph, pending: seq<Name>, current: seq<Name>, layers: seq<seq<Name>>, i: nat, m: Name)
    requires Known(deps, pending) && i < |layers|
  {
    && m in pending && Loadable(deps, m, current + Upto(layers, i))
    && (i > 0 ==> !Loadable(deps, m, current + Upto(layers, i - 1)))
  }

  /** Each layer is what is ready once the layers before it are loaded. */
  lemma {:induction false} LayerIs(deps: Graph, pending: seq<Name>, current: seq<Name>, i: nat, m: Name)
    requires Known(deps, pending) && Distinct(pending)
    requires Layers(deps, pending, current).Some? && i < |Layers(deps, pending, current).value|
    ensures var layers := Layers(deps, pending, current).value;
            m in layers[i] <==> ReadyAt(deps, pending, current, layers, i, m)
    decreases |pending|
  {
    RestIs(deps, pending, current);
    var ready, rest := Ready(deps, pending, current), Rest(deps, pending, current);
    if i == 0 {
      ReadyIs(deps, pending, current);
      NothingLoaded(current, Layers(deps, pending, current).value);
    } else {
      LayerIs(deps, rest, current + ready, i - 1, m);
      ReadyLater(deps, pending, current, Layers(deps, rest, current + ready).value, i, m);
    }
  }

  /** Ready at the `i`th layer is ready at the one before it once the first is loaded. */
  lemma ReadyLater(deps: Graph, pending: seq<Name>, current: seq<Name>, later: seq<seq<Name>>, i: nat, m: Name)
    requires Known(deps, pending) && Distinct(pending) && 0 < i <= |later|
    requires Known(deps, Rest(deps, pending, current))
    ensures var ready, rest := Ready(deps, pending, current), Rest(deps, pending, current);
            ReadyAt(deps, pending, current, [ready] + later, i, m) <==> ReadyAt(deps, rest, current + ready, later, i - 1, m)
  {
    RestIs(deps, pending, current);
    ReadyIs(deps, pending, current);
    var ready, layers := Ready(deps, pending, current), [Ready(deps, pending, current)] + later;
    NothingLoaded(current, layers);
    LoadedShift(current, ready, later, i - 1);
    if i > 1 {
      LoadedShift(current, ready, later, i - 2);
      if m in pending { MoreLoaded(deps, m, current, Upto(layers, i - 1)); }
    } else {
      NothingLoaded(current + ready, later);
    }
  }

  // ---- within a layer the given order is kept ----

  /** `t` is `s` with some of its names left out. */
  predicate Subsequence(t: seq<Name>, s: seq<Name>) {
    t == [] || (s != [] && ((t[0] == s[0] && Subsequence(t[1..], s[1..])) || Subsequence(t, s[1..])))
  }

  lemma {:induction false} SubsequenceSelf(s: seq<Name>)
    ensures Subsequence(s, s)
  {
    if s != [] { SubsequenceSelf(s[1..]); }
  }

  lemma {:induction false} SubsequenceSnoc(t: seq<Name>, s: seq<Name>, x: Name)
    requires Subsequence(t, s)
    ensures Subsequence(t, s + [x]) && Subsequence(t + [x], s + [x])
    decreases |s|
  {
    if s == [] {
      assert t == [] && t + [x] == [x] && s + [x] == [x];
    } else {
      assert (s + [x])[1..] == s[1..] + [x];
      if t == [] {
        SubsequenceSnoc(t, s[1..], x);
      } else {
        assert (t + [x])[1..] == t[1..] + [x];
        if t[0] == s[0] && Subsequence(t[1..], s[1..]) {
          SubsequenceSnoc(t[1..], s[1..], x);
        } else {
          SubsequenceSnoc(t, s[1..], x);
        }
      }
    }
  }

  lemma {:induction false} SubsequenceTrans(a: seq<Name>, b: seq<Name>, c: seq<Name>)
    requires Subsequence(a, b) && Subsequence(b, c)
    ensures Subsequence(a, c)
    decreases |c|
  {
    if a != [] {
      if b[0] == c[0] && Subsequence(b[1..], c[1..]) {
        if a[0] == b[0] && Subsequence(a[1..], b[1..]) {
          SubsequenceTrans(a[1..], b[1..], c[1..]);
        } else {
          SubsequenceTrans(a, b[1..], c[1..]);
        }
      } else {
        SubsequenceTrans(a, b, c[1..]);
      }
    }
  }

  lemma {:induction false} ReadyInOrder(deps: Graph, pending: seq<Name>, current: seq<Name>)
    requires Known(deps, pending)
    ensures Subsequence(Ready(deps, pending, current), pending)
  {
    if pending != [] {
      var n := |pending| - 1;
      var ready := Ready(deps, pending[..n], current);
      ReadyInOrder(deps, pending[..n], current);
      SubsequenceSnoc(ready, pending[..n], pending[n]);
      assert ready + [] == ready;
      assert pending == pending[..n] + [pending[n]];
    }
  }

  lemma {:induction false} RemoveInOrder(s: seq<Name>, x: Name)
    ensures Subsequence(Remove(s, x), s)
  {
    if s != [] {
      if s[0] == x {
        SubsequenceSelf(s[1..]);
      } else {
        RemoveInOrder(s[1..], x);
        assert ([s[0]] + Remove(s[1..], x))[1..] == Remove(s[1..], x);
      }
    }
  }

  lemma {:induction false} RemoveEachInOrder(s: seq<Name>, xs: seq<Name>)
    ensures Subsequence(RemoveEach(s, xs), s)
  {
    if xs == [] {
      SubsequenceSelf(s);
    } else {
      var n := |xs| - 1;
      RemoveEachInOrder(s, xs[..n]);
      RemoveInOrder(RemoveEach(s, xs[..n]), xs[n]);
      SubsequenceTrans(RemoveEach(s, xs), RemoveEach(s, xs[..n]), s);
    }
  }

  /** The modules of a layer stand in the order in which they were given. */
  lemma {:induction false} LayerInOrder(deps: Graph, pending: seq<Name>, current: seq<Name>, i: nat)
    requires Known(deps, pending) && Distinct(pending)
    requires Layers(deps, pending, current).Some? && i < |Layers(deps, pending, current).value|
    ensures Subsequence(Layers(deps, pending, current).value[i], pending)
    decreases |pending|
  {
    RestIs(deps, pending, current);
    var ready, rest := Ready(deps, pending, current), Rest(deps, pending, current);
    if i == 0 {
      ReadyInOrder(deps, pending, current);
    } else {
      LayerInOrder(deps, rest, current + ready, i - 1);
      RemoveEachInOrder(pending, ready);
      SubsequenceTrans(Layers(deps, rest, current + ready).value[i - 1], rest, pending);
    }
  }

  // ---- the order is a permutation that respects every dependency ----

  /** The result of sorting the modules of a graph, listed once each in any order. */
  ghost predicate Sorted(deps: Graph, modules: seq<Name>, layers: seq<seq<Name>>) {
    && Distinct(modules) && (forall m :: m in modules <==> m in deps)
    && Layers(deps, modules, []) == Some(layers)
  }

  /** Every pending module is in some layer, and no layer holds anything else. */
  lemma {:induction false} AllInLayers(deps: Graph, pending: seq<Name>, current: seq<Name>, m: Name)
    requires Known(deps, pending) && Distinct(pending) && Layers(deps, pending, current).Some?
    ensures var layers := Layers(deps, pending, current).value;
            m in pending <==> m in Upto(layers, |layers|)
    decreases |pending|
  {
    if pending != [] {
      RestIs(deps, pending, current);
      ReadyIs(deps, pending, current);
      var ready, rest := Ready(deps, pending, current), Rest(deps, pending, current);
      var later := Layers(deps, rest, current + ready).value;
      AllInLayers(deps, rest, current + ready, m);
      UptoCons(ready, later, |later|);
    }
  }

  lemma {:induction false} FlatDistinct(deps: Graph, pending: seq<Name>, current: seq<Name>)
    requires Known(deps, pending) && Distinct(pending) && Layers(deps, pending, current).Some?
    ensures var layers := Layers(deps, pending, current).value;
            Distinct(Upto(layers, |layers|)) && |Upto(layers, |layers|)| == |pending|
    decreases |pending|
  {
    if pending != [] {
      RestIs(deps, pending, current);
      ReadyIs(deps, pending, current);
      var ready, rest := Ready(deps, pending, current), Rest(deps, pending, current);
      var later := Layers(deps, rest, current + ready).value;
      FlatDistinct(deps, rest, current + ready);
      UptoCons(ready, later, |later|);
      forall m | m in Upto(later, |later|) ensures m !in ready { AllInLayers(deps, rest, current + ready, m); }
      DistinctJoin(ready, Upto(later, |later|));
    }
  }

  lemma DistinctJoin(a: seq<Name>, b: seq<Name>)
    requires Distinct(a) && Distinct(b) && forall m | m in b :: m !in a
    ensures Distinct(a + b)
  {
    var t := a + b;
    forall i, j | 0 <= i < j < |t| ensures t[i] != t[j] {
      assert t[i] == if i < |a| then a[i] else b[i - |a|];
      assert t[j] == if j < |a| then a[j] else b[j - |a|];
      if i < |a| <= j { assert b[j - |a|] !in a; }
    }
  }

  lemma {:induction false} UptoIn(layers: seq<seq<Name>>, i: nat, m: Name)
    requires i <= |layers|
    ensures m in Upto(layers, i) <==> exists j :: 0 <= j < i && m in layers[j]
  {
    if i > 0 { UptoIn(layers, i - 1, m); }
  }

  /** The flattened result lists every module once, and a module's dependencies are in earlier layers. */
  lemma Permutation(deps: Graph, modules: seq<Name>, layers: seq<seq<Name>>, i: nat, m: Name, d: Name)
    requires Sorted(deps, modules, layers)
    ensures Distinct(Upto(layers, |layers|)) && |Upto(layers, |layers|)| == |modules|
    ensures m in modules <==> m in Upto(layers, |layers|)
    ensures i < |layers| && m in layers[i] && m in deps && d in deps[m] ==> exists j :: 0 <= j < i && d in layers[j]
  {
    FlatDistinct(deps, modules, []);
    AllInLayers(deps, modules, [], m);
    if i < |layers| && m in layers[i] && m in deps && d in deps[m] {
      LayerIs(deps, modules, [], i, m);
      assert [] + Upto(layers, i) == Upto(layers, i);
      UptoIn(layers, i, d);
    }
  }

  // ---- a module's layer is the length of its longest dependency chain ----

  /** Each module of the chain depends on the next. */
  predicate Chain(deps: Graph, c: seq<Name>) {
    c != [] && forall i | 0 <= i < |c| - 1 :: c[i] in deps && c[i + 1] in deps[c[i]]
  }

  lemma EarlierLayer(deps: Graph, modules: seq<Name>, layers: seq<seq<Name>>, i: nat, m: Name, d: Name) returns (j: nat)
    requires Sorted(deps, modules, layers) && i < |layers| && m in layers[i] && m in deps && d in deps[m]
    ensures j < i && d in layers[j]
  {
    Permutation(deps, modules, layers, i, m, d);
    j :| 0 <= j < i && d in layers[j];
  }

  /** No chain from a module of layer `i` is longer than `i`. */
  lemma {:induction false} ChainBound(deps: Graph, modules: seq<Name>, layers: seq<seq<Name>>, i: nat, c: seq<Name>)
    requires Sorted(deps, modules, layers) && i < |layers| && Chain(deps, c) && c[0] in layers[i]
    ensures |c| - 1 <= i
    decreases |c|
  {
    if |c| > 1 {
      var j := EarlierLayer(deps, modules, layers, i, c[0], c[1]);
      ChainBound(deps, modules, layers, j, c[1..]);
    }
  }

  /** In a later layer a module waits for some module of the layer just before. */
  lemma Blocker(deps: Graph, modules: seq<Name>, layers: seq<seq<Name>>, i: nat, m: Name) returns (d: Name)
    requires Sorted(deps, modules, layers) && 0 < i < |layers| && m in layers[i]
    ensures m in deps && d in deps[m] && d in layers[i - 1]
  {
    LayerIs(deps, modules, [], i, m);
    assert [] + Upto(layers, i) == Upto(layers, i) && [] + Upto(layers, i - 1) == Upto(layers, i - 1);
    var k :| 0 <= k < |deps[m]| && deps[m][k] !in Upto(layers, i - 1);
    d := deps[m][k];
  }

  /** And there is a chain of exactly that length. */
  lemma {:induction false} ChainExists(deps: Graph, modules: seq<Name>, layers: seq<seq<Name>>, i: nat, m: Name) returns (c: seq<Name>)
    requires Sorted(deps, modules, layers) && i < |layers| && m in layers[i]
    ensures Chain(deps, c) && c[0] == m && |c| - 1 == i
    decreases i
  {
    if i == 0 {
      c := [m];
    } else {
      var d := Blocker(deps, modules, layers, i, m);
      var rest := ChainExists(deps, modules, layers, i - 1, d);
      c := [m] + rest;
    }
  }

  // ---- when the recursion ends ----

  /** Ranks that fall along every dependency: the graph is closed under dependencies and has no cycle. */
  ghost predicate Ranks(deps: Graph, rank: map<Name, nat>) {
    forall m, d :: m in deps && d in deps[m] ==> Falls(deps, rank, m, d)
  }

  predicate Falls(deps: Graph, rank: map<Name, nat>, m: Name, d: Name) {
    m in rank && d in deps && d in rank && rank[d] < rank[m]
  }

  ghost predicate Acyclic(deps: Graph) { exists rank :: Ranks(deps, rank) }

  function RankOf(rank: map<Name, nat>, m: Name): nat { if m in rank then rank[m] else 0 }

  lemma {:induction false} Lowest(rank: map<Name, nat>, s: seq<Name>) returns (m: Name)
    requires s != []
    ensures m in s && forall x | x in s :: RankOf(rank, m) <= RankOf(rank, x)
  {
    m := s[0];
    if |s| > 1 {
      var x := Lowest(rank, s[1..]);
      assert s == [s[0]] + s[1..];
      if RankOf(rank, x) < RankOf(rank, m) { m := x; }
    }
  }

  /** With ranks, something is always ready. */
  lemma {:induction false} RankedEnds(deps: Graph, rank: map<Name, nat>, pending: seq<Name>, current: seq<Name>)
    requires Ranks(deps, rank) && Known(deps, pending) && Distinct(pending)
    requires forall m | m in deps :: m in pending || m in current
    ensures Layers(deps, pending, current).Some?
    decreases |pending|
  {
    if pending != [] {
      RestIs(deps, pending, current);
      ReadyIs(deps, pending, current);
      var m := Lowest(rank, pending);
      assert Loadable(deps, m, current) by {
        forall i | 0 <= i < |deps[m]| ensures deps[m][i] in current { assert deps[m][i] in deps[m]; }
      }
      assert Ready(deps, pending, current) != [];
      RankedEnds(deps, rank, Rest(deps, pending, current), current + Ready(deps, pending, current));
    }
  }

  function LayerRanks(deps: Graph, layers: seq<seq<Name>>): map<Name, nat> {
    map m | m in deps && m in Upto(layers, |layers|) :: FirstLayer(layers, m, |layers|)
  }

  lemma LayerFalls(deps: Graph, modules: seq<Name>, layers: seq<seq<Name>>, m: Name, d: Name)
    requires Sorted(deps, modules, layers) && m in deps && d in deps[m]
    ensures Falls(deps, LayerRanks(deps, layers), m, d)
  {
    Permutation(deps, modules, layers, 0, m, d);
    FirstLayerIs(layers, m, |layers|);
    var j := EarlierLayer(deps, modules, layers, FirstLayer(layers, m, |layers|), m, d);
    UptoIn(layers, |layers|, d);
    Permutation(deps, modules, layers, 0, d, d);
    FirstLayerIs(layers, d, |layers|);
  }

  /** The layers rank the modules. */
  lemma LayersRank(deps: Graph, modules: seq<Name>, layers: seq<seq<Name>>)
    requires Sorted(deps, modules, layers)
    ensures Acyclic(deps)
  {
    var rank := LayerRanks(deps, layers);
    forall m, d | m in deps && d in deps[m] ensures Falls(deps, rank, m, d) { LayerFalls(deps, modules, layers, m, d); }
    assert Ranks(deps, rank);
  }

  function FirstLayer(layers: seq<seq<Name>>, m: Name, i: nat): nat
    requires i <= |layers|
  {
    if i == 0 then 0 else if m in Upto(layers, i - 1) then FirstLayer(layers, m, i - 1) else i - 1
  }

  lemma {:induction false} FirstLayerIs(layers: seq<seq<Name>>, m: Name, i: nat)
    requires i <= |layers| && m in Upto(layers, i)
    ensures FirstLayer(layers, m, i) < i && m in layers[FirstLayer(layers, m, i)]
    ensures forall j | 0 <= j < FirstLayer(layers, m, i) :: m !in layers[j]
  {
    if m in Upto(layers, i - 1) {
      FirstLayerIs(layers, m, i - 1);
    } else {
      UptoIn(layers, i - 1, m);
    }
  }

  /** The recursion ends exactly when the graph is closed under dependencies and has no cycle. */
  lemma EndsIfAcyclic(deps: Graph, modules: seq<Name>)
    requires Distinct(modules) && forall m :: m in modules <==> m in deps
    ensures Layers(deps, modules, []).Some? <==> Acyclic(deps)
  {
    if Layers(deps, modules, []).Some? {
      LayersRank(deps, modules, Layers(deps, modules, []).value);
    }
    if Acyclic(deps) {
      var rank :| Ranks(deps, rank);
      RankedEnds(deps, rank, modules, []);
    }
  }
}
