/** Small registries on which the lists of print-introspected-doxygen.cc hold duplicates, or do not. */
module PathExamples {
  import opened PathDuplicates
  import opened PathNames
  import opened Reachability
  import opened Sequences
  import opened TypeGraph
  import opened TypeWalks

  // ----- the program's calls

  /** The types behind the calls, and the list of nodes with what it contains. */
  function NodeRegistry(node: string, arp: string, icmp: string, contents: seq<Attribute>): Registry {
    Registry([0, 1, 2, 3], map[0 := node, 1 := arp, 2 := icmp], map[node := 0, arp := 1, icmp := 2],
             map[3 := contents], {}, 4)
  }

  lemma NodeCallsRecorded(node: string, arp: string, icmp: string, contents: seq<Attribute>)
    requires node != arp && node != icmp && arp != icmp && forall a :: a in contents ==> a.checker == ContainerOf(0)
    ensures var g, calls := NodeRegistry(node, arp, icmp, contents), NodeCalls(node, arp, icmp);
      && g.Closed([]) && Distinct(Noted(g, calls))
      && forall pair :: pair in Paired(g, calls) ==> pair.0 != 3 && pair.1 != 3
  {
    var g, calls := NodeRegistry(node, arp, icmp, contents), NodeCalls(node, arp, icmp);
    NotedDistinctIff(g, calls);
    forall pair | pair in Paired(g, calls) ensures pair.0 != 3 && pair.1 != 3 {
      CollectMembers((call: (string, string)) => PairOf(g, call), calls, pair);
    }
  }

  /** With the protocols registered, the paths from the list of nodes to the second one repeat. */
  lemma NodeListRepeatsPaths(node: string, arp: string, icmp: string)
    requires node != arp && node != icmp && arp != icmp
    ensures var g := NodeRegistry(node, arp, icmp, [Attribute("NodeList", ContainerOf(0))]);
      var graph := GraphOf(g, Paired(g, NodeCalls(node, arp, icmp)));
      graph.Closed() && Distinct(Noted(g, NodeCalls(node, arp, icmp))) && !Distinct(RecordedFromAll(graph, [3]))
  {
    var contents := [Attribute("NodeList", ContainerOf(0))];
    var g := NodeRegistry(node, arp, icmp, contents);
    NodeCallsRecorded(node, arp, icmp, contents);
    NodeCallsLeaveDuplicates(g, [3], node, arp, icmp);
    assert g.Attributes(3) == contents && contents[0].checker == ContainerOf(0);
    assert HasItems(g, 3, 0) && ListsItems(g, [3], (0, 2));
  }

  lemma {:induction false} NoAggregateEdges(g: Registry, t: Tid, s: seq<(Tid, Tid)>, n: nat)
    requires n <= |s| && forall pair :: pair in s ==> pair.0 != t && pair.1 != t
    ensures WithAggregates(g, t, [], s, n) == []
  {
    if n > 0 {
      assert s[n - 1] in s;
      NoAggregateEdges(g, t, s, n - 1);
    }
  }

  lemma {:induction false} NoChildEdges(g: Registry, t: Tid, earlier: seq<Edge>, n: nat)
    requires n <= |g.types| && g.descends == {}
    ensures WithChildren(g, t, earlier, n) == earlier
  {
    if n > 0 { NoChildEdges(g, t, earlier, n - 1); }
  }

  lemma OneRootWithoutEdges(g: Graph, t: Tid)
    requires g.Closed() && t in g.types && g.next(t) == []
    ensures Distinct(RecordedFromAll(g, [t]))
  {
    assert Recorded(g, t, [], []) == [(t, PathString([]))];
    assert [t][..0] == [] && RecordedFromAll(g, []) == [];
    assert RecordedFromAll(g, [t]) == RecordedFromAll(g, []) + Recorded(g, t, [], []);
  }

  /** With a root that leads nowhere as the only one, the same calls leave no duplicate in either list. */
  lemma UnreachedNodeRepeatsNothing(node: string, arp: string, icmp: string)
    requires node != arp && node != icmp && arp != icmp
    ensures var g := NodeRegistry(node, arp, icmp, []);
      var graph := GraphOf(g, Paired(g, NodeCalls(node, arp, icmp)));
      graph.Closed() && Distinct(Noted(g, NodeCalls(node, arp, icmp))) && Distinct(RecordedFromAll(graph, [3]))
  {
    var g := NodeRegistry(node, arp, icmp, []);
    var pairs := Paired(g, NodeCalls(node, arp, icmp));
    NodeCallsRecorded(node, arp, icmp, []);
    RegisteredPairs(g, NodeCalls(node, arp, icmp));
    GraphClosed(g, pairs);
    NoChildEdges(g, 3, [], |g.types|);
    NoAggregateEdges(g, 3, pairs, |pairs|);
    assert g.Attributes(3) == [] && WithAttributes(g, [], 0) == [];
    OneRootWithoutEdges(GraphOf(g, pairs), 3);
  }

  // ----- two roots

  /** Two types with a pointer of the same name to a third. */
  function TwoRootRegistry(a: string, b: string, c: string, x: string): Registry {
    Registry([0, 1, 2], map[0 := a, 1 := b, 2 := c], map[],
             map[0 := [Attribute(x, PointerTo(2))], 1 := [Attribute(x, PointerTo(2))]], {}, 3)
  }

  ghost predicate DifferentNames(a: string, b: string, c: string, x: string) {
    && a != b && a != c && b != c && '/' !in a && '/' !in b && '/' !in c
    && Plain(x) && (x != "" ==> x[0] != '$')
  }

  lemma TwoRootEdges(a: string, b: string, c: string, x: string, t: Tid)
    ensures Edges(TwoRootRegistry(a, b, c, x), [], t) == if t < 2 then [Edge(x, 2)] else []
  {
    var g := TwoRootRegistry(a, b, c, x);
    var attributes := g.Attributes(t);
    var own := WithAttributes(g, attributes, |attributes|);
    if t < 2 {
      assert attributes == [Attribute(x, PointerTo(2))] && WithAttributes(g, attributes, 0) == [];
      assert own == [Edge(x, 2)];
    }
    NoChildEdges(g, t, own, |g.types|);
    assert Edges(g, [], t) == WithChildren(g, t, own, |g.types|);
  }

  lemma TwoRootsProper(a: string, b: string, c: string, x: string)
    requires DifferentNames(a, b, c, x)
    ensures TwoRootRegistry(a, b, c, x).Closed([]) && ProperNames(TwoRootRegistry(a, b, c, x))
  {
    var g := TwoRootRegistry(a, b, c, x);
    forall t ensures g.Attributes(t) == if t < 2 then [Attribute(x, PointerTo(2))] else [] {}
  }

  lemma SameEdgeAtTwoRoots(g: Graph, r: Tid, q: Tid, e: Edge)
    requires g.Closed() && r in g.types && q in g.types && e.target != r && e.target != q
    requires g.next(r) == [e] && g.next(q) == [e]
    ensures !Distinct(RecordedFromAll(g, [r, q]))
  {
    StepAfter(g, r, [], r, 0);
    StepAfter(g, q, [], q, 0);
    assert Agree(g, r, [] + [0], q, [] + [0]);
    assert !Apart(g, [r, q][0], [r, q][1]);
    ListDistinctIff(g, [r, q]);
  }

  /** All names are proper, no type has an edge twice, and neither root alone repeats a path; together they do. */
  lemma TwoRootsRepeatAPath(a: string, b: string, c: string, x: string)
    requires DifferentNames(a, b, c, x)
    ensures var g := TwoRootRegistry(a, b, c, x); var graph := GraphOf(g, []);
      && g.Closed([]) && ProperNames(g) && graph.Closed() && (forall u :: u in g.types ==> Distinct(Edges(g, [], u)))
      && Distinct(Recorded(graph, 0, [], [])) && Distinct(Recorded(graph, 1, [], []))
      && !Distinct(RecordedFromAll(graph, [0, 1]))
  {
    var g := TwoRootRegistry(a, b, c, x);
    TwoRootsProper(a, b, c, x);
    GraphClosed(g, []);
    forall t ensures Edges(g, [], t) == if t < 2 then [Edge(x, 2)] else [] { TwoRootEdges(a, b, c, x, t); }
    DistinctEdgesHaveNoTwins(g, [], 0);
    DistinctEdgesHaveNoTwins(g, [], 1);
    RecordsDistinctIff(GraphOf(g, []), 0);
    RecordsDistinctIff(GraphOf(g, []), 1);
    SameEdgeAtTwoRoots(GraphOf(g, []), 0, 1, Edge(x, 2));
  }

  /** The same root twice repeats at least its own path. */
  lemma RootTwiceRepeats(g: Graph, roots: seq<Tid>, i: nat, j: nat)
    requires g.Closed() && (forall t :: t in roots ==> t in g.types) && i < j < |roots| && roots[i] == roots[j]
    ensures !Distinct(RecordedFromAll(g, roots))
  {
    assert Simple(g, roots[i], [], []) && Agree(g, roots[i], [], roots[j], []);
    assert !Apart(g, roots[i], roots[j]);
    ListDistinctIff(g, roots);
  }
}
