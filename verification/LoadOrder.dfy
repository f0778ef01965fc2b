/** The order in which bindings/python/ns__init__.py loads the ns-3 libraries: repeated rounds, each
    taking every pending library whose dependencies are all loaded. Specification and theorems;
    `LoadOrderSorter` holds the in-place algorithm. */
module LoadOrder {
  import opened Sequences

  /** A library, by the base name of its file. */
  datatype Library = Library(file: string)

  /** `keys` are the libraries in insertion order; `deps` gives each one's linked libraries. */
  datatype Dependencies = Dependencies(keys: seq<Library>, deps: map<Library, seq<Library>>) {
    ghost predicate Valid() {
      Distinct(keys) && deps.Keys == Elements(keys)
    }
  }

  // ----- one round

  predicate Loadable(d: Dependencies, current: seq<Library>, m: Library)
    requires m in d.deps
  {
    forall dep :: dep in d.deps[m] ==> dep in current
  }

  ghost predicate AllKnown(d: Dependencies, pending: seq<Library>) {
    forall m :: m in pending ==> m in d.deps
  }

  /** The pending libraries that can be loaded next, in order. */
  function Round(d: Dependencies, pending: seq<Library>, current: seq<Library>): (r: seq<Library>)
    requires AllKnown(d, pending)
  {
    if pending == [] then []
    else if Loadable(d, current, pending[0]) then [pending[0]] + Round(d, pending[1..], current)
    else Round(d, pending[1..], current)
  }

  /** What is left pending after the round. */
  function Rest(d: Dependencies, pending: seq<Library>, current: seq<Library>): (r: seq<Library>)
    requires AllKnown(d, pending)
  {
    if pending == [] then []
    else if Loadable(d, current, pending[0]) then Rest(d, pending[1..], current)
    else [pending[0]] + Rest(d, pending[1..], current)
  }

  lemma {:induction false} RoundMembers(d: Dependencies, pending: seq<Library>, current: seq<Library>)
    requires AllKnown(d, pending)
    ensures forall m :: m in Round(d, pending, current) <==> m in pending && Loadable(d, current, m)
    ensures forall m :: m in Rest(d, pending, current) <==> m in pending && !Loadable(d, current, m)
    ensures |Round(d, pending, current)| + |Rest(d, pending, current)| == |pending|
    ensures multiset(Round(d, pending, current)) + multiset(Rest(d, pending, current)) == multiset(pending)
  {
    if pending != [] {
      assert pending == [pending[0]] + pending[1..];
      RoundMembers(d, pending[1..], current);
    }
  }

  /** The order in which libraries were pending is kept, among those taken and among those left. */
  lemma {:induction false} RoundKeepsOrder(d: Dependencies, pending: seq<Library>, current: seq<Library>)
    requires AllKnown(d, pending)
    ensures Round(d, pending, current)
         == Filter((m: Library) => m in d.deps && forall dep :: dep in d.deps[m] ==> dep in current, pending)
    ensures Rest(d, pending, current)
         == Filter((m: Library) => m in d.deps && exists dep :: dep in d.deps[m] && dep !in current, pending)
  {
    if pending != [] { RoundKeepsOrder(d, pending[1..], current); }
  }

  /** The layers computed by at most `limit` nested calls, or nothing if Python's recursion limit is
      hit first: an unloadable library makes the recursion go on for ever. */
  function Layers(d: Dependencies, pending: seq<Library>, current: seq<Library>, limit: nat)
    : (r: Option<seq<seq<Library>>>)
    requires AllKnown(d, pending)
    decreases limit
  {
    if limit == 0 then None
    else if pending == [] then Some([])
    else
      RoundMembers(d, pending, current);
      var layer := Round(d, pending, current);
      var rest := Layers(d, Rest(d, pending, current), current + layer, limit - 1);
      if rest.None? then None else Some([layer] + rest.value)
  }

  /** One unfolding of a recursion that ends within the limit. */
  lemma LayersStep(d: Dependencies, pending: seq<Library>, current: seq<Library>, limit: nat)
    returns (layer: seq<Library>, rest: seq<Library>, later: seq<seq<Library>>)
    requires AllKnown(d, pending) && pending != [] && Layers(d, pending, current, limit).Some?
    ensures layer == Round(d, pending, current) && rest == Rest(d, pending, current) && AllKnown(d, rest)
    ensures limit > 0 && Layers(d, rest, current + layer, limit - 1) == Some(later)
    ensures Layers(d, pending, current, limit) == Some([layer] + later)
  {
    RoundMembers(d, pending, current);
    layer, rest := Round(d, pending, current), Rest(d, pending, current);
    later := Layers(d, rest, current + layer, limit - 1).value;
  }

  function Flatten(layers: seq<seq<Library>>): seq<Library> {
    if layers == [] then [] else layers[0] + Flatten(layers[1..])
  }

  // ----- what the dependencies look like

  /** `c` goes from a library to one it depends on, again and again. */
  ghost predicate Chain(d: Dependencies, c: seq<Library>) {
    && (forall i :: 0 <= i < |c| ==> c[i] in d.deps)
    && (forall i :: 0 <= i < |c| - 1 ==> c[i + 1] in d.deps[c[i]])
  }

  ghost predicate Closed(d: Dependencies) {
    forall m, dep :: m in d.deps && dep in d.deps[m] ==> dep in d.deps
  }

  /** A cycle is a nonempty chain that leads back to its start. */
  ghost predicate Cycle(d: Dependencies, c: seq<Library>) {
    c != [] && Chain(d, c) && c[0] in d.deps[c[|c| - 1]]
  }

  ghost predicate Acyclic(d: Dependencies) {
    forall c :: !Cycle(d, c)
  }

  /** A chain of `k` dependencies starts at `m`. */
  ghost predicate HasChain(d: Dependencies, m: Library, k: nat) {
    exists c :: Chain(d, c) && |c| == k + 1 && c[0] == m
  }

  /** The longest chain of dependencies from `m` has length `k`. */
  ghost predicate Height(d: Dependencies, m: Library, k: nat) {
    HasChain(d, m, k) && !HasChain(d, m, k + 1)
  }

  // ----- progress: the pigeonhole argument

  /** In a round that selects nothing, some pending library waits for another pending one. */
  lemma Blocked(d: Dependencies, pending: seq<Library>, current: seq<Library>, m: Library) returns (dep: Library)
    requires AllKnown(d, pending) && Round(d, pending, current) == [] && m in pending
    ensures dep in d.deps[m] && dep !in current
  {
    RoundMembers(d, pending, current);
    assert !Loadable(d, current, m);
    dep :| dep in d.deps[m] && dep !in current;
  }

  /** Following blocked dependencies gives chains of any length among the pending libraries. */
  lemma {:induction false} LongBlockedChain(d: Dependencies, pending: seq<Library>, current: seq<Library>, n: nat)
    returns (c: seq<Library>)
    requires AllKnown(d, pending) && Round(d, pending, current) == [] && pending != []
    requires forall m, dep :: m in pending && dep in d.deps[m] ==> dep in pending || dep in current
    ensures |c| == n + 1 && Chain(d, c) && forall i :: 0 <= i < |c| ==> c[i] in pending
  {
    if n == 0 {
      c := [pending[0]];
    } else {
      var b := LongBlockedChain(d, pending, current, n - 1);
      var dep := Blocked(d, pending, current, b[n - 1]);
      c := b + [dep];
    }
  }

  lemma RepeatIsCycle(d: Dependencies, c: seq<Library>, i: nat, j: nat)
    requires Chain(d, c) && i < j < |c| && c[i] == c[j]
    ensures Cycle(d, c[i..j])
  {
    var b := c[i..j];
    forall k | 0 <= k < |b| - 1 ensures b[k + 1] in d.deps[b[k]] {
      assert c[i + k + 1] in d.deps[c[i + k]];
    }
    assert c[j - 1 + 1] in d.deps[c[j - 1]];
  }

  lemma LongChainRepeats(d: Dependencies, c: seq<Library>, within: set<Library>) returns (i: nat, j: nat)
    requires Chain(d, c) && |c| > |within| && forall k :: 0 <= k < |c| ==> c[k] in within
    ensures i < j < |c| && c[i] == c[j]
  {
    if Distinct(c) { Pigeonhole(c, within); }
    i, j :| 0 <= i < j < |c| && c[i] == c[j];
  }

  /** A round that selects nothing while libraries are pending means that one of them depends on a
      library that is neither loaded nor pending, or that some of them depend on each other in a cycle. */
  lemma StuckRoundMeansBadDependency(d: Dependencies, pending: seq<Library>, current: seq<Library>)
    requires AllKnown(d, pending) && pending != [] && Round(d, pending, current) == []
    ensures (exists m, dep :: m in pending && dep in d.deps[m] && dep !in pending && dep !in current)
         || (exists c :: Cycle(d, c) && forall x :: x in c ==> x in pending)
  {
    if forall m, dep :: m in pending && dep in d.deps[m] ==> dep in pending || dep in current {
      var c := LongBlockedChain(d, pending, current, |Elements(pending)|);
      var i, j := LongChainRepeats(d, c, Elements(pending));
      RepeatIsCycle(d, c, i, j);
      forall x | x in c[i..j] ensures x in pending {}
    }
  }

  /** Pending and loaded libraries together are the whole map. */
  ghost predicate Split(d: Dependencies, pending: seq<Library>, current: seq<Library>) {
    && multiset(pending) + multiset(current) == multiset(d.keys)
    && d.Valid()
  }

  lemma SplitMembers(d: Dependencies, pending: seq<Library>, current: seq<Library>)
    requires Split(d, pending, current)
    ensures AllKnown(d, pending)
    ensures forall m :: m in d.deps <==> m in pending || m in current
    ensures forall m :: m in pending ==> m !in current
  {
    forall m ensures (m in d.deps <==> m in pending || m in current) && (m in pending ==> m !in current) {
      assert m in d.keys <==> m in multiset(d.keys);
      assert m in pending <==> m in multiset(pending);
      assert m in current <==> m in multiset(current);
      DistinctCounts(d.keys, m);
    }
  }

  lemma {:induction false} DistinctCounts(s: seq<Library>, m: Library)
    requires Distinct(s)
    ensures multiset(s)[m] <= 1
  {
    if s != [] {
      assert s == [s[0]] + s[1..];
      DistinctCounts(s[1..], m);
    }
  }

  /** On a closed acyclic map every round shortens the pending list. */
  lemma RoundsProgress(d: Dependencies, pending: seq<Library>, current: seq<Library>)
    requires Split(d, pending, current) && Closed(d) && Acyclic(d) && pending != []
    ensures AllKnown(d, pending)
    ensures |Rest(d, pending, current)| < |pending|
  {
    SplitMembers(d, pending, current);
    RoundMembers(d, pending, current);
    if Round(d, pending, current) == [] {
      StuckRoundMeansBadDependency(d, pending, current);
    }
  }

  lemma RoundKeepsSplit(d: Dependencies, pending: seq<Library>, current: seq<Library>)
    requires Split(d, pending, current)
    ensures AllKnown(d, pending)
    ensures Split(d, Rest(d, pending, current), current + Round(d, pending, current))
  {
    SplitMembers(d, pending, current);
    RoundMembers(d, pending, current);
  }

  // ----- what a finished run returns

  /** Each library comes after all that it depends on, given those already loaded. */
  ghost predicate InOrder(d: Dependencies, loaded: seq<Library>, order: seq<Library>) {
    forall i :: 0 <= i < |order| ==> Ready(d, loaded + order[..i], order[i])
  }

  ghost predicate Ready(d: Dependencies, loaded: seq<Library>, m: Library) {
    m in d.deps ==> forall dep :: dep in d.deps[m] ==> dep in loaded
  }

  lemma InOrderExtends(d: Dependencies, loaded: seq<Library>, layer: seq<Library>, later: seq<Library>)
    requires forall m :: m in layer ==> Ready(d, loaded, m)
    requires InOrder(d, loaded + layer, later)
    ensures InOrder(d, loaded, layer + later)
  {
    var order := layer + later;
    forall i | 0 <= i < |order| ensures Ready(d, loaded + order[..i], order[i]) {
      if i < |layer| {
        assert order[i] in layer;
      } else {
        assert order[i] == later[i - |layer|];
        assert loaded + order[..i] == loaded + layer + later[..i - |layer|];
      }
    }
  }

  lemma {:induction false} LayersSorted(d: Dependencies, pending: seq<Library>, current: seq<Library>, limit: nat)
    requires AllKnown(d, pending) && Layers(d, pending, current, limit).Some?
    ensures multiset(Flatten(Layers(d, pending, current, limit).value)) == multiset(pending)
    ensures InOrder(d, current, Flatten(Layers(d, pending, current, limit).value))
    decreases limit
  {
    if pending != [] {
      var layer, rest, later := LayersStep(d, pending, current, limit);
      RoundMembers(d, pending, current);
      LayersSorted(d, rest, current + layer, limit - 1);
      assert ([layer] + later)[1..] == later;
      InOrderExtends(d, current, layer, Flatten(later));
    }
  }

  // ----- the layers are the heights

  /** `k` rounds have been done: exactly the libraries of height below `k` are loaded. */
  ghost predicate LoadedBelow(d: Dependencies, current: seq<Library>, k: nat) {
    forall m {:trigger Loaded(d, current, m, k)} :: m in d.deps ==> Loaded(d, current, m, k)
  }

  ghost predicate Loaded(d: Dependencies, current: seq<Library>, m: Library, k: nat) {
    m in current <==> !HasChain(d, m, k)
  }

  /** `layer` holds exactly the libraries of height `k`. */
  ghost predicate LayerIs(d: Dependencies, layer: seq<Library>, k: nat) {
    forall m {:trigger PlacedAt(d, layer, m, k)} :: PlacedAt(d, layer, m, k)
  }

  ghost predicate PlacedAt(d: Dependencies, layer: seq<Library>, m: Library, k: nat) {
    m in layer <==> m in d.deps && Height(d, m, k)
  }

  lemma ChainTail(d: Dependencies, m: Library, k: nat)
    requires m in d.deps && Closed(d)
    ensures HasChain(d, m, k + 1) <==> exists dep :: dep in d.deps[m] && HasChain(d, dep, k)
  {
    if HasChain(d, m, k + 1) {
      var c :| Chain(d, c) && |c| == k + 2 && c[0] == m;
      var b := c[1..];
      assert Chain(d, b) by {
        forall i | 0 <= i < |b| - 1 ensures b[i + 1] in d.deps[b[i]] { assert c[i + 1 + 1] in d.deps[c[i + 1]]; }
      }
      assert c[0 + 1] in d.deps[c[0]];
      assert b[0] in d.deps[m] && HasChain(d, b[0], k);
    }
    if exists dep :: dep in d.deps[m] && HasChain(d, dep, k) {
      var dep :| dep in d.deps[m] && HasChain(d, dep, k);
      var b :| Chain(d, b) && |b| == k + 1 && b[0] == dep;
      var c := [m] + b;
      assert Chain(d, c) by {
        forall i | 0 <= i < |c| - 1 ensures c[i + 1] in d.deps[c[i]] {
          if i > 0 { assert b[i - 1 + 1] in d.deps[b[i - 1]]; }
        }
      }
    }
  }

  lemma ChainPrefix(d: Dependencies, m: Library, k: nat)
    requires HasChain(d, m, k + 1)
    ensures HasChain(d, m, k)
  {
    var c :| Chain(d, c) && |c| == k + 2 && c[0] == m;
    var b := c[..k + 1];
    assert Chain(d, b) by {
      forall i | 0 <= i < |b| - 1 ensures b[i + 1] in d.deps[b[i]] { assert c[i + 1] in d.deps[c[i]]; }
    }
  }

  lemma LoadableIff(d: Dependencies, current: seq<Library>, m: Library, k: nat)
    requires m in d.deps && Closed(d) && LoadedBelow(d, current, k)
    ensures Loadable(d, current, m) <==> !HasChain(d, m, k + 1)
  {
    ChainTail(d, m, k);
    forall dep | dep in d.deps[m] ensures dep in current <==> !HasChain(d, dep, k) {
      assert Loaded(d, current, dep, k);
    }
  }

  /** The round with `k` rounds behind it selects exactly the libraries of height `k`. */
  lemma RoundIsHeight(d: Dependencies, pending: seq<Library>, current: seq<Library>, k: nat)
    requires Split(d, pending, current) && Closed(d) && LoadedBelow(d, current, k)
    ensures AllKnown(d, pending)
    ensures LayerIs(d, Round(d, pending, current), k)
    ensures LoadedBelow(d, current + Round(d, pending, current), k + 1)
  {
    SplitMembers(d, pending, current);
    RoundMembers(d, pending, current);
    forall m | m in d.deps
      ensures PlacedAt(d, Round(d, pending, current), m, k)
      ensures Loaded(d, current + Round(d, pending, current), m, k + 1)
    {
      LoadableIff(d, current, m, k);
      assert Loaded(d, current, m, k);
      if HasChain(d, m, k + 1) { ChainPrefix(d, m, k); }
    }
  }

  ghost predicate HeightsFrom(d: Dependencies, layers: seq<seq<Library>>, k: nat) {
    layers == [] || (LayerIs(d, layers[0], k) && HeightsFrom(d, layers[1..], k + 1))
  }

  lemma {:induction false} HeightsAt(d: Dependencies, layers: seq<seq<Library>>, k: nat, j: nat)
    requires HeightsFrom(d, layers, k) && j < |layers|
    ensures LayerIs(d, layers[j], k + j)
  {
    if j > 0 { HeightsAt(d, layers[1..], k + 1, j - 1); }
  }

  lemma RoundAdvances(d: Dependencies, pending: seq<Library>, current: seq<Library>, k: nat,
                      layer: seq<Library>, rest: seq<Library>)
    requires Split(d, pending, current) && Closed(d) && LoadedBelow(d, current, k) && AllKnown(d, pending)
    requires layer == Round(d, pending, current) && rest == Rest(d, pending, current)
    ensures Split(d, rest, current + layer) && LoadedBelow(d, current + layer, k + 1) && LayerIs(d, layer, k)
  {
    RoundIsHeight(d, pending, current, k);
    RoundKeepsSplit(d, pending, current);
  }

  lemma HeightsCons(d: Dependencies, layer: seq<Library>, later: seq<seq<Library>>, k: nat)
    requires LayerIs(d, layer, k) && HeightsFrom(d, later, k + 1)
    ensures HeightsFrom(d, [layer] + later, k)
  {
    assert ([layer] + later)[1..] == later;
  }

  lemma {:induction false} LayersAreHeights(d: Dependencies, pending: seq<Library>, current: seq<Library>,
                                            limit: nat, k: nat)
    requires Split(d, pending, current) && Closed(d) && LoadedBelow(d, current, k)
    requires AllKnown(d, pending) && Layers(d, pending, current, limit).Some?
    ensures HeightsFrom(d, Layers(d, pending, current, limit).value, k)
    decreases limit
  {
    if pending != [] {
      var layer, rest, later := LayersStep(d, pending, current, limit);
      RoundAdvances(d, pending, current, k, layer, rest);
      LayersAreHeights(d, rest, current + layer, limit - 1, k + 1);
      HeightsCons(d, layer, later, k);
    }
  }

  // ----- the whole sort

  /** `sort_to_dependencies` before the layers are joined. */
  function SortLayers(d: Dependencies, limit: nat): Option<seq<seq<Library>>>
    requires d.Valid()
  {
    assert AllKnown(d, d.keys);
    Layers(d, d.keys, [], limit)
  }

  lemma StartSplit(d: Dependencies)
    requires d.Valid()
    ensures Split(d, d.keys, []) && AllKnown(d, d.keys) && LoadedBelow(d, [], 0)
  {
    assert multiset(d.keys) + multiset([]) == multiset(d.keys);
    SplitMembers(d, d.keys, []);
    forall m | m in d.deps ensures Loaded(d, [], m, 0) {
      assert Chain(d, [m]) && [m][0] == m;
      assert HasChain(d, m, 0);
    }
  }

  lemma FinishedSort(d: Dependencies, limit: nat)
    requires d.Valid() && Closed(d) && SortLayers(d, limit).Some?
    ensures var layers := SortLayers(d, limit).value; forall k :: 0 <= k < |layers| ==> LayerIs(d, layers[k], k)
  {
    StartSplit(d);
    LayersAreHeights(d, d.keys, [], limit, 0);
    var layers := SortLayers(d, limit).value;
    forall k | 0 <= k < |layers| ensures LayerIs(d, layers[k], k) {
      HeightsAt(d, layers, 0, k);
    }
  }

  /** With `k` rounds done and room for `limit` calls, the recursion ends exactly when no chain of
      dependencies outlasts the rounds that fit. */
  lemma {:induction false} LayersEndIff(d: Dependencies, pending: seq<Library>, current: seq<Library>,
                                        limit: nat, k: nat)
    requires Split(d, pending, current) && Closed(d) && LoadedBelow(d, current, k) && limit > 0
    ensures AllKnown(d, pending)
    ensures Layers(d, pending, current, limit).Some? <==> NoChain(d, k + limit - 1)
    decreases limit
  {
    PendingChains(d, pending, current, k);
    if pending == [] {
      NoLongerChain(d, k, limit - 1);
    } else if limit > 1 {
      var layer, rest := LayersGoOn(d, pending, current, limit);
      RoundAdvances(d, pending, current, k, layer, rest);
      LayersEndIff(d, rest, current + layer, limit - 1, k + 1);
    }
  }

  lemma LayersGoOn(d: Dependencies, pending: seq<Library>, current: seq<Library>, limit: nat)
    returns (layer: seq<Library>, rest: seq<Library>)
    requires AllKnown(d, pending) && pending != [] && limit > 0
    ensures layer == Round(d, pending, current) && rest == Rest(d, pending, current) && AllKnown(d, rest)
    ensures Layers(d, pending, current, limit).Some? <==> Layers(d, rest, current + layer, limit - 1).Some?
  {
    RoundMembers(d, pending, current);
    layer, rest := Round(d, pending, current), Rest(d, pending, current);
  }

  lemma PendingChains(d: Dependencies, pending: seq<Library>, current: seq<Library>, k: nat)
    requires Split(d, pending, current) && LoadedBelow(d, current, k)
    ensures AllKnown(d, pending)
    ensures pending == [] <==> NoChain(d, k)
  {
    SplitMembers(d, pending, current);
    forall m | m in d.deps ensures HasChain(d, m, k) <==> m in pending { assert Loaded(d, current, m, k); }
    if pending != [] { assert pending[0] in pending; }
  }

  lemma NoLongerChain(d: Dependencies, k: nat, n: nat)
    requires NoChain(d, k)
    ensures NoChain(d, k + n)
  {
    forall m | m in d.deps ensures !HasChain(d, m, k + n) { LongerChain(d, m, k, n); }
  }

  /** No chain of `k` dependencies starts anywhere. */
  ghost predicate NoChain(d: Dependencies, k: nat) { forall m :: m in d.deps ==> !HasChain(d, m, k) }

  lemma {:induction false} LongerChain(d: Dependencies, m: Library, k: nat, n: nat)
    requires !HasChain(d, m, k)
    ensures !HasChain(d, m, k + n)
  {
    if n > 0 {
      LongerChain(d, m, k, n - 1);
      if HasChain(d, m, k + n) { ChainPrefix(d, m, k + n - 1); }
    }
  }

  /** Exactly when the sort returns under a recursion limit: the map is closed, and its longest chain of
      dependencies leaves one call for each layer and one to see that nothing is pending. */
  lemma SortEndsIff(d: Dependencies, limit: nat)
    requires d.Valid()
    ensures SortLayers(d, limit).Some? <==> limit > 0 && Closed(d) && NoChain(d, limit - 1)
  {
    StartSplit(d);
    if SortLayers(d, limit).Some? {
      LayersSorted(d, d.keys, [], limit);
      OrderedMeansAcyclic(d, Flatten(SortLayers(d, limit).value));
    }
    if limit > 0 && Closed(d) { LayersEndIff(d, d.keys, [], limit, 0); }
  }

  /** Whenever the recursion limit has room for the longest chain of dependencies of a closed map, the sort
      returns each library once, after all its dependencies, with layer `k` holding exactly the libraries
      whose longest dependency chain has length `k`. */
  lemma SortCorrect(d: Dependencies, limit: nat)
    requires d.Valid() && Closed(d) && limit > 0 && NoChain(d, limit - 1)
    ensures SortLayers(d, limit).Some?
    ensures var layers := SortLayers(d, limit).value;
      && multiset(Flatten(layers)) == multiset(d.keys)
      && InOrder(d, [], Flatten(layers))
      && (forall k :: 0 <= k < |layers| ==> LayerIs(d, layers[k], k))
  {
    SortEndsIff(d, limit);
    StartSplit(d);
    LayersSorted(d, d.keys, [], limit);
    FinishedSort(d, limit);
  }

  /** Without cycles a chain meets no library twice, so a limit above the number of libraries is enough. */
  lemma AcyclicChainsAreShort(d: Dependencies)
    requires d.Valid() && Acyclic(d)
    ensures NoChain(d, |d.keys|)
  {
    forall m | m in d.deps ensures !HasChain(d, m, |d.keys|) {
      if HasChain(d, m, |d.keys|) {
        var c :| Chain(d, c) && |c| == |d.keys| + 1 && c[0] == m;
        DistinctSize(d.keys);
        var i, j := LongChainRepeats(d, c, Elements(d.keys));
        RepeatIsCycle(d, c, i, j);
      }
    }
  }

  /** The first position of `order` that holds an element of `s`. */
  lemma {:induction false} FirstOf(order: seq<Library>, s: seq<Library>) returns (i: nat)
    requires exists m :: m in s && m in order
    ensures i < |order| && order[i] in s && forall m :: m in order[..i] ==> m !in s
  {
    if order[0] in s {
      i := 0;
    } else {
      assert forall m :: m in order ==> m == order[0] || m in order[1..];
      var j := FirstOf(order[1..], s);
      i := j + 1;
      assert order[..i] == [order[0]] + order[1..][..j];
    }
  }

  lemma CycleGoesOn(d: Dependencies, c: seq<Library>, k: nat) returns (next: Library)
    requires Cycle(d, c) && k < |c|
    ensures next in c && next in d.deps[c[k]]
  {
    next := if k == |c| - 1 then c[0] else c[k + 1];
  }

  /** An order in which dependencies come first leaves no room for a cycle or an unknown library. */
  lemma OrderedMeansAcyclic(d: Dependencies, order: seq<Library>)
    requires d.Valid() && multiset(order) == multiset(d.keys) && InOrder(d, [], order)
    ensures Closed(d) && Acyclic(d)
  {
    forall m ensures m in order <==> m in d.deps {
      assert m in order <==> m in multiset(order);
      assert m in d.keys <==> m in multiset(d.keys);
    }
    forall m, dep | m in d.deps && dep in d.deps[m] ensures dep in d.deps {
      var i :| 0 <= i < |order| && order[i] == m;
      assert Ready(d, [] + order[..i], order[i]);
    }
    forall c ensures !Cycle(d, c) {
      if Cycle(d, c) {
        assert c[0] in c && c[0] in order;
        var i := FirstOf(order, c);
        assert Ready(d, [] + order[..i], order[i]);
        var k :| 0 <= k < |c| && c[k] == order[i];
        var next := CycleGoesOn(d, c, k);
      }
    }
  }

  /** The sort returns at all, under some recursion limit, exactly for closed acyclic maps. */
  lemma SortTerminatesIff(d: Dependencies)
    requires d.Valid()
    ensures (exists limit :: SortLayers(d, limit).Some?) <==> Closed(d) && Acyclic(d)
  {
    StartSplit(d);
    if limit :| SortLayers(d, limit).Some? {
      LayersSorted(d, d.keys, [], limit);
      OrderedMeansAcyclic(d, Flatten(SortLayers(d, limit).value));
    }
    if Closed(d) && Acyclic(d) {
      AcyclicChainsAreShort(d);
      SortCorrect(d, |d.keys| + 1);
    }
  }

  lemma CycleCloses(d: Dependencies, c: seq<Library>) returns (last: Library)
    requires Cycle(d, c)
    ensures last in d.deps && c[0] in d.deps && c[0] in d.deps[last]
  {
    last := c[|c| - 1];
  }

  /** Two libraries that need each other, and a library that needs an unknown one: no recursion limit is
      enough. */
  lemma TwoMapsWithoutOrder(a: Library, b: Library, limit: nat)
    requires a != b
    ensures var cycle := Dependencies([a, b], map[a := [b], b := [a]]);
      cycle.Valid() && Closed(cycle) && SortLayers(cycle, limit) == None
    ensures var open := Dependencies([a], map[a := [b]]);
      open.Valid() && Acyclic(open) && SortLayers(open, limit) == None
  {
    var cycle := Dependencies([a, b], map[a := [b], b := [a]]);
    assert cycle.deps.Keys == {a, b} == Elements(cycle.keys);
    assert Cycle(cycle, [a, b]);
    if SortLayers(cycle, limit).Some? { SortTerminatesIff(cycle); }
    var open := Dependencies([a], map[a := [b]]);
    assert open.deps.Keys == {a} == Elements(open.keys);
    assert b in open.deps[a] && b !in open.deps;
    if SortLayers(open, limit).Some? { SortTerminatesIff(open); }
    forall c ensures !Cycle(open, c) {
      if Cycle(open, c) { var last := CycleCloses(open, c); }
    }
  }
}
