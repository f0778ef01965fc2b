/** The object that gathers configuration paths: two stacks and an output list, updated in place by a
    recursive depth-first search. */
module PathGathering {
  import opened PathDuplicates
  import opened Sequences
  import opened TypeGraph
  import opened TypeWalks

  /** A value that may be missing, as a list. */
  function Listed<T>(x: Option<T>): seq<T> { if x.None? then [] else [x.value] }

  lemma DescendantRecorded(g: Registry, aggregates: seq<(Tid, Tid)>, t: Tid, u: Tid)
    requires g.Closed(aggregates) && t in g.types && u in g.types && u != t && (u, t) in g.descends
    ensures GraphOf(g, aggregates).Closed()
    ensures (u, "/$" + g.Name(u)) in Recorded(GraphOf(g, aggregates), t, [], [])
  {
    var name := "$" + g.Name(u);
    EdgeRecorded(g, aggregates, t, [], [], Edge(name, u));
    PathStringFirst(name, []);
    assert [] + [name] == [name] + [] && "/" + name + "" == "/$" + g.Name(u);
  }

  class StaticInformation {
    const registry: Registry
    var output: seq<(Tid, string)>
    var currentPath: seq<string>
    var alreadyProcessed: seq<Tid>
    var aggregates: seq<(Tid, Tid)>
    var noTids: seq<string>

    /** The stacks grow and shrink together, and a type is never on the stack twice. */
    ghost predicate Valid()
      reads this
    {
      |currentPath| == |alreadyProcessed| && Distinct(alreadyProcessed) && registry.Closed(aggregates)
    }

    /** `g` is the graph of the registered types and the recorded aggregations. */
    ghost predicate Searches(g: Graph)
      reads `aggregates
    {
      g.Closed() && g.types == Elements(registry.types) && forall t :: EdgesAre(g, t)
    }

    ghost predicate EdgesAre(g: Graph, t: Tid)
      reads `aggregates
    {
      g.next(t) == Edges(registry, aggregates, t)
    }

    constructor (registry: Registry)
      requires registry.Closed([])
      ensures this.registry == registry && Valid()
      ensures output == [] && currentPath == [] && aggregates == [] && noTids == []
    {
      this.registry := registry;
      output, currentPath, alreadyProcessed, aggregates, noTids := [], [], [], [], [];
    }

    /** The first name that is not registered is noted instead of the pair. */
    method RecordAggregationInfo(a: string, b: string)
      requires Valid()
      modifies `aggregates, `noTids
      ensures Valid()
      ensures aggregates == old(aggregates) + Listed(PairOf(registry, (a, b)))
      ensures noTids == old(noTids) + Listed(NoteOf(registry, (a, b)))
      ensures if a in registry.byName && b in registry.byName
        then aggregates == old(aggregates) + [(registry.byName[a], registry.byName[b])] && noTids == old(noTids)
        else aggregates == old(aggregates) && noTids == old(noTids) + [if a in registry.byName then b else a]
    {
      if a !in registry.byName {
        noTids := noTids + [a];
        return;
      }
      if b !in registry.byName {
        noTids := noTids + [b];
        return;
      }
      aggregates := aggregates + [(registry.byName[a], registry.byName[b])];
    }

    method RecordAggregations(calls: seq<(string, string)>)
      requires Valid() && aggregates == [] && noTids == []
      modifies `aggregates, `noTids
      ensures Valid() && aggregates == Paired(registry, calls) && noTids == Noted(registry, calls)
    {
      for i := 0 to |calls|
        invariant Valid() && aggregates == Paired(registry, calls[..i]) && noTids == Noted(registry, calls[..i])
      {
        assert calls[..i + 1][..i] == calls[..i];
        RecordAggregationInfo(calls[i].0, calls[i].1);
      }
      assert calls[..|calls|] == calls;
    }

    method GatherFromAll(roots: seq<Tid>)
      requires Valid() && output == [] && alreadyProcessed == []
      requires forall t :: t in roots ==> t in registry.types
      modifies `output, `currentPath, `alreadyProcessed
      ensures Valid() && currentPath == [] && alreadyProcessed == []
      ensures GraphOf(registry, aggregates).Closed() && output == RecordedFromAll(GraphOf(registry, aggregates), roots)
    {
      GraphClosed(registry, aggregates);
      for i := 0 to |roots|
        invariant Valid() && currentPath == [] && alreadyProcessed == []
        invariant output == RecordedFromAll(GraphOf(registry, aggregates), roots[..i])
      {
        assert roots[..i + 1][..i] == roots[..i];
        assert roots[i] in roots;
        Gather(roots[i]);
      }
      assert roots[..|roots|] == roots;
    }

    /** Records the aggregations, then gathers the paths from each root. Neither list is made free of duplicates,
        so each is so exactly when nothing was noted, or recorded, twice. */
    method GetTypicalAggregations(calls: seq<(string, string)>, roots: seq<Tid>)
      requires Valid() && aggregates == [] && noTids == [] && output == [] && alreadyProcessed == []
      requires forall t :: t in roots ==> t in registry.types
      modifies this
      ensures Valid() && currentPath == [] && alreadyProcessed == []
      ensures aggregates == Paired(registry, calls) && noTids == Noted(registry, calls)
      ensures GraphOf(registry, aggregates).Closed() && output == RecordedFromAll(GraphOf(registry, aggregates), roots)
      ensures Distinct(noTids) <==> NoNameNotedTwice(registry, calls)
      ensures Distinct(output) <==> NoneAgree(GraphOf(registry, aggregates), roots)
    {
      RecordAggregations(calls);
      GatherFromAll(roots);
      NotedDistinctIff(registry, calls);
      ListDistinctIff(GraphOf(registry, aggregates), roots);
    }

    method GetCurrentPath() returns (path: string)
      ensures path == PathString(currentPath)
    {
      path := "";
      for i := 0 to |currentPath|
        invariant path == PathString(currentPath[..i])
      {
        assert currentPath[..i + 1][..i] == currentPath[..i];
        path := path + ("/" + currentPath[i]);
      }
      assert currentPath[..|currentPath|] == currentPath;
    }

    method RecordOutput(tid: Tid)
      modifies `output
      ensures output == old(output) + [(tid, PathString(currentPath))]
    {
      var path := GetCurrentPath();
      output := output + [(tid, path)];
    }

    method HasAlreadyBeenProcessed(tid: Tid) returns (r: bool)
      ensures r <==> tid in alreadyProcessed
    {
      for i := 0 to |alreadyProcessed|
        invariant tid !in alreadyProcessed[..i]
      {
        if alreadyProcessed[i] == tid {
          return true;
        }
      }
      return false;
    }

    /** The paths recorded for one type, in the order they were recorded. */
    method Get(tid: Tid) returns (paths: seq<string>)
      ensures paths == Map((item: (Tid, string)) => item.1, Filter((item: (Tid, string)) => item.0 == tid, output))
    {
      var sameType := (item: (Tid, string)) => item.0 == tid;
      var path := (item: (Tid, string)) => item.1;
      paths := [];
      for i := 0 to |output|
        invariant paths == Map(path, Filter(sameType, output[..i]))
      {
        assert output[..i + 1] == output[..i] + [output[i]];
        FilterConcat(sameType, output[..i], [output[i]]);
        MapConcat(path, Filter(sameType, output[..i]), Filter(sameType, [output[i]]));
        if output[i].0 == tid {
          paths := paths + [output[i].1];
        }
      }
      assert output[..|output|] == output;
    }

    /** Duplicates are removed from a copy of the list, which is then dropped. */
    method GetNoTypeIds() returns (names: seq<string>)
      ensures names == noTids
    {
      names := noTids;
    }

    /** From empty stacks this records exactly the simple walks from `tid`; see `TypeWalks`. Removing the
        duplicates afterwards works on a copy, so it changes nothing; see `PathDuplicates`. */
    method Gather(tid: Tid)
      requires Valid() && tid in registry.types && alreadyProcessed == []
      modifies `output, `currentPath, `alreadyProcessed
      ensures GraphOf(registry, aggregates).Closed()
      ensures output == old(output) + Recorded(GraphOf(registry, aggregates), tid, [], [])
      ensures Valid() && currentPath == [] && alreadyProcessed == []
      ensures forall u :: u in registry.types && u != tid && (u, tid) in registry.descends ==>
        (u, "/$" + registry.Name(u)) in output
    {
      GraphClosed(registry, aggregates);
      DoGather(tid, GraphOf(registry, aggregates));
      forall u | u in registry.types && u != tid && (u, tid) in registry.descends
        ensures (u, "/$" + registry.Name(u)) in output
      {
        DescendantRecorded(registry, aggregates, tid, u);
      }
    }

    /** Records the paths from `tid` on, and leaves both stacks as they were. */
    method DoGather(tid: Tid, ghost g: Graph)
      requires Valid() && Searches(g) && tid in g.types
      modifies `output, `currentPath, `alreadyProcessed
      ensures output == old(output) + Recorded(g, tid, currentPath, alreadyProcessed)
      ensures currentPath == old(currentPath) && alreadyProcessed == old(alreadyProcessed)
      decreases Fresh(g, alreadyProcessed), 5
    {
      var processed := HasAlreadyBeenProcessed(tid);
      if processed {
        return;
      }
      RecordOutput(tid);
      FollowAll(tid, g);
    }

    method FollowAll(tid: Tid, ghost g: Graph)
      requires Valid() && Searches(g) && tid in g.types && tid !in alreadyProcessed
      modifies `output, `currentPath, `alreadyProcessed
      ensures currentPath == old(currentPath) && alreadyProcessed == old(alreadyProcessed)
      ensures output == old(output) + RecordedVia(g, tid, currentPath, alreadyProcessed, g.next(tid))
      decreases Fresh(g, alreadyProcessed), 4
    {
      assert EdgesAre(g, tid);
      ghost var before := output;
      ghost var es := GatherAttributes(tid, g, before);
      es := GatherChildren(tid, g, es, before);
      assert forall k :: 0 <= k < |aggregates| ==> aggregates[k] in aggregates;
      es := GatherAggregates(tid, aggregates, g, es, before);
    }

    /** `output` is what it was at `before`, extended by what the edges `es` of `tid` lead to. */
    ghost predicate Followed(tid: Tid, g: Graph, es: seq<Edge>, before: seq<(Tid, string)>)
      reads this
    {
      && Valid() && Searches(g) && tid in g.types && tid !in alreadyProcessed && Targets(g.types, es)
      && output == before + RecordedVia(g, tid, currentPath, alreadyProcessed, es)
    }

    method GatherAttributes(tid: Tid, ghost g: Graph, ghost before: seq<(Tid, string)>) returns (ghost es: seq<Edge>)
      requires Followed(tid, g, [], before)
      modifies `output, `currentPath, `alreadyProcessed
      ensures Followed(tid, g, es, before)
      ensures es == WithAttributes(registry, registry.Attributes(tid), |registry.Attributes(tid)|)
      ensures currentPath == old(currentPath) && alreadyProcessed == old(alreadyProcessed)
      decreases Fresh(g, alreadyProcessed), 3
    {
      es := [];
      var attributes := registry.Attributes(tid);
      for i := 0 to |attributes|
        invariant currentPath == old(currentPath) && alreadyProcessed == old(alreadyProcessed)
        invariant es == WithAttributes(registry, attributes, i) && Followed(tid, g, es, before)
      {
        assert attributes[i] in registry.Attributes(tid);
        ghost var step := FollowAttribute(tid, attributes[i], g, es, before);
        es := es + step;
      }
    }

    /** The body of the loop over the attributes. */
    method FollowAttribute(tid: Tid, info: Attribute, ghost g: Graph, ghost es: seq<Edge>,
                           ghost before: seq<(Tid, string)>)
      returns (ghost step: seq<Edge>)
      requires Followed(tid, g, es, before) && info in registry.Attributes(tid)
      modifies `output, `currentPath, `alreadyProcessed
      ensures step == AttributeEdges(registry, info) && Followed(tid, g, es + step, before)
      ensures currentPath == old(currentPath) && alreadyProcessed == old(alreadyProcessed)
      decreases Fresh(g, alreadyProcessed), 2
    {
      step := [];
      assert es + [] == es;
      match info.checker {
        case PointerTo(pointee) =>
          if pointee != registry.objectTid {
            Enter(tid, info.name, pointee, g, es, before);
            step := [Edge(info.name, pointee)];
          }
        case ContainerOf(item) =>
          Enter(tid, info.name + "/[i]", item, g, es, before);
          step := [Edge(info.name + "/[i]", item)];
        case OtherChecker =>
      }
    }

    method GatherChildren(tid: Tid, ghost g: Graph, ghost earlier: seq<Edge>, ghost before: seq<(Tid, string)>)
      returns (ghost es: seq<Edge>)
      requires Followed(tid, g, earlier, before)
      modifies `output, `currentPath, `alreadyProcessed
      ensures Followed(tid, g, es, before) && es == WithChildren(registry, tid, earlier, |registry.types|)
      ensures currentPath == old(currentPath) && alreadyProcessed == old(alreadyProcessed)
      decreases Fresh(g, alreadyProcessed), 3
    {
      es := earlier;
      for j := 0 to |registry.types|
        invariant currentPath == old(currentPath) && alreadyProcessed == old(alreadyProcessed)
        invariant es == WithChildren(registry, tid, earlier, j) && Followed(tid, g, es, before)
      {
        ghost var step := FollowChild(tid, registry.types[j], g, es, before);
        es := es + step;
      }
    }

    /** The body of the loop over the registered types. */
    method FollowChild(tid: Tid, child: Tid, ghost g: Graph, ghost es: seq<Edge>, ghost before: seq<(Tid, string)>)
      returns (ghost step: seq<Edge>)
      requires Followed(tid, g, es, before) && child in g.types
      modifies `output, `currentPath, `alreadyProcessed
      ensures step == ChildEdges(registry, tid, child) && Followed(tid, g, es + step, before)
      ensures currentPath == old(currentPath) && alreadyProcessed == old(alreadyProcessed)
      decreases Fresh(g, alreadyProcessed), 2
    {
      step := [];
      assert es + [] == es;
      if registry.IsChildOf(child, tid) {
        var name := "$" + registry.Name(child);
        Enter(tid, name, child, g, es, before);
        step := [Edge(name, child)];
      }
    }

    method GatherAggregates(tid: Tid, pairs: seq<(Tid, Tid)>, ghost g: Graph, ghost earlier: seq<Edge>,
                            ghost before: seq<(Tid, string)>)
      returns (ghost es: seq<Edge>)
      requires Followed(tid, g, earlier, before)
      requires forall k :: 0 <= k < |pairs| ==> pairs[k].0 in g.types && pairs[k].1 in g.types
      modifies `output, `currentPath, `alreadyProcessed
      ensures Followed(tid, g, es, before) && es == WithAggregates(registry, tid, earlier, pairs, |pairs|)
      ensures currentPath == old(currentPath) && alreadyProcessed == old(alreadyProcessed)
      decreases Fresh(g, alreadyProcessed), 3
    {
      es := earlier;
      for k := 0 to |pairs|
        invariant currentPath == old(currentPath) && alreadyProcessed == old(alreadyProcessed)
        invariant es == WithAggregates(registry, tid, earlier, pairs, k) && Followed(tid, g, es, before)
      {
        ghost var step := FollowAggregate(tid, pairs[k], g, es, before);
        es := es + step;
      }
    }

    /** The body of the loop over the aggregations. */
    method FollowAggregate(tid: Tid, item: (Tid, Tid), ghost g: Graph, ghost es: seq<Edge>,
                           ghost before: seq<(Tid, string)>)
      returns (ghost step: seq<Edge>)
      requires Followed(tid, g, es, before) && item.0 in g.types && item.1 in g.types
      modifies `output, `currentPath, `alreadyProcessed
      ensures step == AggregateEdges(registry, tid, item) && Followed(tid, g, es + step, before)
      ensures currentPath == old(currentPath) && alreadyProcessed == old(alreadyProcessed)
      decreases Fresh(g, alreadyProcessed), 2
    {
      step := [];
      assert es + [] == es;
      if item.0 == tid || item.1 == tid {
        var other := tid;
        if item.0 == tid {
          other := item.1;
        }
        if item.1 == tid {
          other := item.0;
        }
        var name := "$" + registry.Name(other);
        Enter(tid, name, other, g, es, before);
        step := [Edge(name, other)];
      }
    }

    /** The push, recurse and pop that each of the three loops performs for one edge. */
    method Enter(tid: Tid, name: string, target: Tid, ghost g: Graph, ghost es: seq<Edge>,
                 ghost before: seq<(Tid, string)>)
      requires Followed(tid, g, es, before) && target in g.types
      modifies `output, `currentPath, `alreadyProcessed
      ensures currentPath == old(currentPath) && alreadyProcessed == old(alreadyProcessed)
      ensures Followed(tid, g, es + [Edge(name, target)], before)
      decreases Fresh(g, alreadyProcessed), 1
    {
      RecordedViaSnoc(g, tid, currentPath, alreadyProcessed, es, Edge(name, target));
      Visit(tid, name, target, g);
    }

    method Visit(tid: Tid, name: string, target: Tid, ghost g: Graph)
      requires Valid() && Searches(g) && tid in g.types && tid !in alreadyProcessed && target in g.types
      modifies `output, `currentPath, `alreadyProcessed
      ensures currentPath == old(currentPath) && alreadyProcessed == old(alreadyProcessed)
      ensures output == old(output) + Recorded(g, target, currentPath + [name], alreadyProcessed + [tid])
      decreases Fresh(g, alreadyProcessed), 0
    {
      FreshShrinks(g, alreadyProcessed, tid);
      currentPath := currentPath + [name];
      alreadyProcessed := alreadyProcessed + [tid];
      DoGather(target, g);
      alreadyProcessed := alreadyProcessed[..|alreadyProcessed| - 1];
      currentPath := currentPath[..|currentPath| - 1];
    }
  }
}
