/** `sort_to_dependencies` as it is written: a recursive function that removes from one list, appends to
    another and fills a dictionary of steps, all in place. */
module LoadOrderSorter {
  import opened Sequences
  import opened LoadOrder

  /** `s` without the elements of `gone`. */
  function Without(s: seq<Library>, gone: seq<Library>): (r: seq<Library>)
  {
    if s == [] then []
    else if s[0] in gone then Without(s[1..], gone)
    else [s[0]] + Without(s[1..], gone)
  }

  /** Python's `list.remove`: the first occurrence goes. */
  function RemoveFirst(s: seq<Library>, x: Library): seq<Library> {
    if s == [] then []
    else if s[0] == x then s[1..]
    else [s[0]] + RemoveFirst(s[1..], x)
  }

  lemma {:induction false} WithoutAbsent(s: seq<Library>, gone: seq<Library>, x: Library)
    requires x !in s
    ensures Without(s, gone + [x]) == Without(s, gone)
  {
    if s != [] { WithoutAbsent(s[1..], gone, x); }
  }

  lemma {:induction false} RemoveFromWithout(s: seq<Library>, gone: seq<Library>, x: Library)
    requires Distinct(s) && x in s && x !in gone
    ensures RemoveFirst(Without(s, gone), x) == Without(s, gone + [x])
  {
    if s[0] == x {
      WithoutAbsent(s[1..], gone, x);
    } else {
      RemoveFromWithout(s[1..], gone, x);
    }
  }

  lemma {:induction false} WithoutNothing(s: seq<Library>)
    ensures Without(s, []) == s
  {
    if s != [] { WithoutNothing(s[1..]); }
  }

  /** Removing what a round selected one by one leaves what the round did not select. */
  lemma {:induction false} WithoutRoundIsRest(d: Dependencies, s: seq<Library>, current: seq<Library>,
                                              gone: seq<Library>)
    requires AllKnown(d, s) && forall m :: m in s ==> (m in gone <==> Loadable(d, current, m))
    ensures Without(s, gone) == Rest(d, s, current)
  {
    if s != [] { WithoutRoundIsRest(d, s[1..], current, gone); }
  }

  lemma {:induction false} RoundDistinct(d: Dependencies, pending: seq<Library>, current: seq<Library>)
    requires AllKnown(d, pending) && Distinct(pending)
    ensures Distinct(Round(d, pending, current)) && Distinct(Rest(d, pending, current))
  {
    if pending != [] {
      RoundDistinct(d, pending[1..], current);
      RoundMembers(d, pending[1..], current);
      assert pending[0] !in pending[1..];
    }
  }

  /** A round of a duplicate-free list picks each library once, and removing what it picks leaves the rest. */
  lemma RoundFacts(d: Dependencies, pending: seq<Library>, current: seq<Library>)
    requires AllKnown(d, pending) && Distinct(pending)
    ensures var layer := Round(d, pending, current);
      && Distinct(layer) && (forall m :: m in layer ==> m in pending)
      && Without(pending, layer) == Rest(d, pending, current)
    ensures AllKnown(d, Rest(d, pending, current)) && Distinct(Rest(d, pending, current))
  {
    var layer := Round(d, pending, current);
    RoundDistinct(d, pending, current);
    RoundMembers(d, pending, current);
    WithoutRoundIsRest(d, pending, current, layer);
  }

  lemma DistinctPrefix(s: seq<Library>, i: nat)
    requires Distinct(s) && i < |s|
    ensures s[i] !in s[..i] && s[..i + 1] == s[..i] + [s[i]]
  {
  }

  lemma {:induction false} RoundSnoc(d: Dependencies, pending: seq<Library>, m: Library, current: seq<Library>)
    requires AllKnown(d, pending + [m])
    ensures Round(d, pending + [m], current)
         == if Loadable(d, current, m) then Round(d, pending, current) + [m] else Round(d, pending, current)
  {
    assert forall x :: x in pending + [m] <==> x in pending || x == m;
    if pending == [] {
      assert ([] + [m])[1..] == [];
    } else {
      assert (pending + [m])[1..] == pending[1..] + [m] && (pending + [m])[0] == pending[0];
      RoundSnoc(d, pending[1..], m, current);
    }
  }

  /** `steps` after the given layers have been entered from number `n` on. */
  function Entered(steps: map<nat, seq<Library>>, n: nat, layers: seq<seq<Library>>): map<nat, seq<Library>>
    decreases |layers|
  {
    if layers == [] then steps else Entered(steps[n := layers[0]], n + 1, layers[1..])
  }

  lemma BelowNext(n: nat)
    ensures Below(n + 1) == Below(n) + {n}
  {
  }

  lemma {:induction false} EnteredKeys(steps: map<nat, seq<Library>>, n: nat, layers: seq<seq<Library>>)
    requires steps.Keys == Below(n)
    ensures Entered(steps, n, layers).Keys == Below(n + |layers|)
    decreases |layers|
  {
    if layers != [] {
      BelowNext(n);
      assert steps[n := layers[0]].Keys == steps.Keys + {n};
      EnteredKeys(steps[n := layers[0]], n + 1, layers[1..]);
    }
  }

  lemma {:induction false} EnteredKeeps(steps: map<nat, seq<Library>>, n: nat, layers: seq<seq<Library>>, k: nat)
    requires k < n && k in steps
    ensures k in Entered(steps, n, layers) && Entered(steps, n, layers)[k] == steps[k]
    decreases |layers|
  {
    if layers != [] { EnteredKeeps(steps[n := layers[0]], n + 1, layers[1..], k); }
  }

  lemma {:induction false} EnteredAt(steps: map<nat, seq<Library>>, n: nat, layers: seq<seq<Library>>, j: nat)
    requires j < |layers|
    ensures n + j in Entered(steps, n, layers) && Entered(steps, n, layers)[n + j] == layers[j]
    decreases |layers|
  {
    if j == 0 {
      EnteredKeeps(steps[n := layers[0]], n + 1, layers[1..], n);
    } else {
      EnteredAt(steps[n := layers[0]], n + 1, layers[1..], j - 1);
    }
  }

  lemma StepCount(steps: map<nat, seq<Library>>, layers: seq<seq<Library>>)
    requires steps == Entered(map[], 0, layers)
    ensures |steps| == |layers|
  {
    EnteredKeys(map[], 0, layers);
    assert |steps| == |steps.Keys|;
  }

  lemma StepIs(steps: map<nat, seq<Library>>, layers: seq<seq<Library>>, k: nat)
    requires steps == Entered(map[], 0, layers) && k < |layers|
    ensures k in steps && steps[k] == layers[k] && Flatten(layers[..k + 1]) == Flatten(layers[..k]) + layers[k]
  {
    EnteredAt(map[], 0, layers, k);
    assert Flatten(layers[..k + 1]) == Flatten(layers[..k]) + layers[k] by {
      FlattenSnoc(layers[..k], layers[k]);
      assert layers[..k + 1] == layers[..k] + [layers[k]];
    }
  }

  /** One level of the recursion. */
  lemma LayersUnfold(d: Dependencies, p: seq<Library>, c: seq<Library>, limit: nat,
                     steps: map<nat, seq<Library>>, n: nat)
    requires AllKnown(d, p) && AllKnown(d, Rest(d, p, c)) && p != [] && limit > 0
    ensures var layer := Round(d, p, c);
      var all, later := Layers(d, p, c, limit), Layers(d, Rest(d, p, c), c + layer, limit - 1);
      && (all.Some? <==> later.Some?)
      && (all.Some? ==> Entered(steps, n, all.value) == Entered(steps[n := layer], n + 1, later.value))
  {
    var layer, later := Round(d, p, c), Layers(d, Rest(d, p, c), c + Round(d, p, c), limit - 1);
    if later.Some? { assert ([layer] + later.value)[1..] == later.value; }
  }

  class Sorter {
    const dependencies: Dependencies
    var pending: seq<Library>
    var current: seq<Library>
    var steps: map<nat, seq<Library>>

    constructor (dependencies: Dependencies)
      requires dependencies.Valid()
      ensures this.dependencies == dependencies
      ensures pending == dependencies.keys && current == [] && steps == map[]
    {
      this.dependencies := dependencies;
      pending, current, steps := dependencies.keys, [], map[];
    }

    method ModulesThatCanBeLoaded() returns (modules: seq<Library>)
      requires AllKnown(dependencies, pending)
      ensures modules == Round(dependencies, pending, current)
    {
      modules := [];
      for i := 0 to |pending|
        invariant modules == Round(dependencies, pending[..i], current)
      {
        var pendingModule := pending[i];
        var canBeLoaded := true;
        var linked := dependencies.deps[pendingModule];
        for j := 0 to |linked|
          invariant canBeLoaded
          invariant forall k :: 0 <= k < j ==> linked[k] in current
        {
          if linked[j] !in current {
            canBeLoaded := false;
            break;
          }
        }
        assert canBeLoaded <==> Loadable(dependencies, current, pendingModule);
        assert pending[..i + 1] == pending[..i] + [pendingModule];
        RoundSnoc(dependencies, pending[..i], pendingModule, current);
        if canBeLoaded {
          modules := modules + [pendingModule];
        }
      }
      assert pending[..|pending|] == pending;
    }

    /** The loop body: one module moves from pending to current and into its step. */
    method MoveModule(stepNumber: nat, m: Library)
      requires stepNumber in steps
      modifies this
      ensures pending == RemoveFirst(old(pending), m) && current == old(current) + [m]
      ensures steps == old(steps)[stepNumber := old(steps)[stepNumber] + [m]]
    {
      steps := steps[stepNumber := steps[stepNumber] + [m]];
      pending := RemoveFirst(pending, m);
      current := current + [m];
    }

    /** Takes one round: the selected modules move one by one. */
    method TakeRound(stepNumber: nat)
      requires AllKnown(dependencies, pending) && Distinct(pending) && steps.Keys == Below(stepNumber)
      modifies this
      ensures AllKnown(dependencies, pending) && Distinct(pending) && steps.Keys == Below(stepNumber + 1)
      ensures pending == Rest(dependencies, old(pending), old(current))
      ensures current == old(current) + Round(dependencies, old(pending), old(current))
      ensures steps == old(steps)[stepNumber := Round(dependencies, old(pending), old(current))]
    {
      steps := steps[stepNumber := []];
      var layer := ModulesThatCanBeLoaded();
      RoundFacts(dependencies, pending, current);
      MoveAll(stepNumber, layer);
      assert steps.Keys == Below(stepNumber) + {stepNumber};
    }

    method MoveAll(stepNumber: nat, layer: seq<Library>)
      requires stepNumber in steps && steps[stepNumber] == [] && Distinct(pending)
      requires Distinct(layer) && forall m :: m in layer ==> m in pending
      modifies this
      ensures pending == Without(old(pending), layer) && current == old(current) + layer
      ensures steps == old(steps)[stepNumber := layer]
    {
      WithoutNothing(pending);
      for i := 0 to |layer|
        invariant pending == Without(old(pending), layer[..i]) && current == old(current) + layer[..i]
        invariant stepNumber in steps && steps == old(steps)[stepNumber := layer[..i]]
      {
        DistinctPrefix(layer, i);
        assert layer[i] in layer;
        RemoveFromWithout(old(pending), layer[..i], layer[i]);
        MoveModule(stepNumber, layer[i]);
      }
      assert layer[..|layer|] == layer;
    }

    /** False when the interpreter's recursion limit is reached. */
    method DependencyOrder(stepNumber: nat, limit: nat) returns (ok: bool)
      requires AllKnown(dependencies, pending) && Distinct(pending)
      requires steps.Keys == Below(stepNumber)
      modifies this
      ensures ok <==> Layers(dependencies, old(pending), old(current), limit).Some?
      ensures ok ==> pending == []
      ensures ok ==>
        steps == Entered(old(steps), stepNumber, Layers(dependencies, old(pending), old(current), limit).value)
      decreases limit
    {
      if limit == 0 {
        return false;
      }
      if |pending| == 0 {
        return true;
      }
      TakeRound(stepNumber);
      LayersUnfold(dependencies, old(pending), old(current), limit, old(steps), stepNumber);
      ok := DependencyOrder(stepNumber + 1, limit - 1);
    }

    /** The steps joined in the order they were entered. */
    method JoinSteps(ghost layers: seq<seq<Library>>) returns (sortedLibraries: seq<Library>)
      requires steps == Entered(map[], 0, layers)
      ensures sortedLibraries == Flatten(layers)
    {
      var entered := steps;
      StepCount(entered, layers);
      sortedLibraries := [];
      for k := 0 to |entered|
        invariant sortedLibraries == Flatten(layers[..k])
      {
        StepIs(entered, layers, k);
        sortedLibraries := sortedLibraries + entered[k];
      }
      assert layers[..|layers|] == layers;
    }

    /** The whole sort; nothing when the recursion does not end within the limit. */
    method SortToDependencies(limit: nat) returns (order: Option<seq<Library>>)
      requires dependencies.Valid()
      requires pending == dependencies.keys && current == [] && steps == map[]
      modifies this
      ensures order == match SortLayers(dependencies, limit)
        case None => None
        case Some(layers) => Some(Flatten(layers))
    {
      assert AllKnown(dependencies, pending);
      var ok := DependencyOrder(0, limit);
      if !ok {
        return None;
      }
      ghost var layers := SortLayers(dependencies, limit).value;
      var sortedLibraries := JoinSteps(layers);
      return Some(sortedLibraries);
    }
  }

  ghost function Below(n: nat): (r: set<nat>)
    ensures forall k: nat :: k in r <==> k < n
    ensures |r| == n
  {
    if n == 0 then {} else Below(n - 1) + {n - 1}
  }

  lemma {:induction false} FlattenSnoc(layers: seq<seq<Library>>, layer: seq<Library>)
    ensures Flatten(layers + [layer]) == Flatten(layers) + layer
  {
    if layers == [] {
      assert ([] + [layer])[1..] == [];
    } else {
      assert (layers + [layer])[1..] == layers[1..] + [layer];
      FlattenSnoc(layers[1..], layer);
    }
  }
}
