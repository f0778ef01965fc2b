/** The graph of registered types behind print-introspected-doxygen.cc: which other types a type leads
    to, through its attributes, its descendants and its aggregations. */
module TypeGraph {
  import opened Sequences
  import opened TypeWalks

  /** What an attribute's checker refers to, if anything. */
  datatype Checker = PointerTo(pointee: Tid) | ContainerOf(item: Tid) | OtherChecker

  datatype Attribute = Attribute(name: string, checker: Checker)

  /** The TypeId registry: `types` are the registered types in registration order. */
  datatype Registry = Registry(
    types: seq<Tid>,
    names: map<Tid, string>,
    byName: map<string, Tid>,
    attributes: map<Tid, seq<Attribute>>,
    descends: set<(Tid, Tid)>,  // (child, ancestor)
    objectTid: Tid)
  {
    function Name(t: Tid): string { if t in names then names[t] else "" }

    function Attributes(t: Tid): seq<Attribute> { if t in attributes then attributes[t] else [] }

    predicate IsChildOf(child: Tid, t: Tid) { (child, t) in descends }

    /** Every type an attribute, a name or an aggregation refers to is registered. */
    ghost predicate Closed(aggregates: seq<(Tid, Tid)>) {
      && (forall t, a :: a in Attributes(t) ==>
            (a.checker.PointerTo? ==> a.checker.pointee in types)
            && (a.checker.ContainerOf? ==> a.checker.item in types))
      && (forall name :: name in byName ==> byName[name] in types)
      && (forall pair :: pair in aggregates ==> pair.0 in types && pair.1 in types)
    }
  }

  /** The edge an attribute gives, if any: a pointer to plain Object is not followed. */
  function AttributeEdges(g: Registry, a: Attribute): seq<Edge> {
    match a.checker
    case PointerTo(p) => if p == g.objectTid then [] else [Edge(a.name, p)]
    case ContainerOf(item) => [Edge(a.name + "/[i]", item)]
    case OtherChecker => []
  }

  function ChildEdges(g: Registry, t: Tid, child: Tid): seq<Edge> {
    if g.IsChildOf(child, t) then [Edge("$" + g.Name(child), child)] else []
  }

  /** Aggregation is symmetric; the second test overrides the first. */
  function AggregateEdges(g: Registry, t: Tid, pair: (Tid, Tid)): seq<Edge> {
    if pair.1 == t then [Edge("$" + g.Name(pair.0), pair.0)]
    else if pair.0 == t then [Edge("$" + g.Name(pair.1), pair.1)]
    else []
  }

  /** `earlier` extended by the edges of the first `n` attributes, types or aggregations. */
  function WithAttributes(g: Registry, s: seq<Attribute>, n: nat): seq<Edge>
    requires n <= |s|
  {
    if n == 0 then [] else WithAttributes(g, s, n - 1) + AttributeEdges(g, s[n - 1])
  }

  function WithChildren(g: Registry, t: Tid, earlier: seq<Edge>, n: nat): seq<Edge>
    requires n <= |g.types|
  {
    if n == 0 then earlier else WithChildren(g, t, earlier, n - 1) + ChildEdges(g, t, g.types[n - 1])
  }

  function WithAggregates(g: Registry, t: Tid, earlier: seq<Edge>, s: seq<(Tid, Tid)>, n: nat): seq<Edge>
    requires n <= |s|
  {
    if n == 0 then earlier else WithAggregates(g, t, earlier, s, n - 1) + AggregateEdges(g, t, s[n - 1])
  }

  /** The ways on from `t`, in the order they are tried. */
  function Edges(g: Registry, aggregates: seq<(Tid, Tid)>, t: Tid): seq<Edge> {
    var attributes := g.Attributes(t);
    var own := WithAttributes(g, attributes, |attributes|);
    WithAggregates(g, t, WithChildren(g, t, own, |g.types|), aggregates, |aggregates|)
  }

  ghost predicate Registered(g: Registry, es: seq<Edge>) {
    forall e :: e in es ==> e.target in g.types
  }

  /** The registry as a graph of types. */
  ghost function GraphOf(g: Registry, aggregates: seq<(Tid, Tid)>): Graph {
    Graph(Elements(g.types), (t: Tid) => Edges(g, aggregates, t))
  }

  lemma GraphClosed(g: Registry, aggregates: seq<(Tid, Tid)>)
    requires g.Closed(aggregates)
    ensures GraphOf(g, aggregates).Closed()
  {
    forall t | t in g.types ensures Targets(GraphOf(g, aggregates).types, Edges(g, aggregates, t)) {
      EdgesRegistered(g, aggregates, t);
    }
  }

  lemma {:induction false} AttributeEdgesRegistered(g: Registry, aggregates: seq<(Tid, Tid)>, t: Tid, n: nat)
    requires g.Closed(aggregates) && n <= |g.Attributes(t)|
    ensures Registered(g, WithAttributes(g, g.Attributes(t), n))
  {
    if n > 0 {
      assert g.Attributes(t)[n - 1] in g.Attributes(t);
      AttributeEdgesRegistered(g, aggregates, t, n - 1);
    }
  }

  lemma {:induction false} ChildEdgesRegistered(g: Registry, t: Tid, earlier: seq<Edge>, n: nat)
    requires n <= |g.types| && Registered(g, earlier)
    ensures Registered(g, WithChildren(g, t, earlier, n))
  {
    if n > 0 { ChildEdgesRegistered(g, t, earlier, n - 1); }
  }

  lemma {:induction false} AggregateEdgesRegistered(g: Registry, t: Tid, earlier: seq<Edge>, s: seq<(Tid, Tid)>, n: nat)
    requires n <= |s| && Registered(g, earlier) && forall pair :: pair in s ==> pair.0 in g.types && pair.1 in g.types
    ensures Registered(g, WithAggregates(g, t, earlier, s, n))
  {
    if n > 0 {
      assert s[n - 1] in s;
      AggregateEdgesRegistered(g, t, earlier, s, n - 1);
    }
  }

  lemma EdgesRegistered(g: Registry, aggregates: seq<(Tid, Tid)>, t: Tid)
    requires g.Closed(aggregates)
    ensures Registered(g, Edges(g, aggregates, t))
  {
    var attributes := WithAttributes(g, g.Attributes(t), |g.Attributes(t)|);
    AttributeEdgesRegistered(g, aggregates, t, |g.Attributes(t)|);
    ChildEdgesRegistered(g, t, attributes, |g.types|);
    AggregateEdgesRegistered(g, t, WithChildren(g, t, attributes, |g.types|), aggregates, |aggregates|);
  }

  // ----- which edges these are, over the registry's fields

  /** A pointer to another type than plain Object, under the attribute's name, or a container, under its name
      with a mark for the items. */
  ghost predicate FromAttribute(g: Registry, t: Tid, e: Edge) {
    exists a :: a in g.Attributes(t) &&
      ((a.checker == PointerTo(e.target) && e.target != g.objectTid && e.name == a.name)
       || (a.checker == ContainerOf(e.target) && e.name == a.name + "/[i]"))
  }

  /** A registered descendant, under its type name. */
  ghost predicate FromDescent(g: Registry, t: Tid, e: Edge) {
    e.target in g.types && (e.target, t) in g.descends && e.name == "$" + g.Name(e.target)
  }

  /** The other type of a recorded aggregation, under its type name. */
  ghost predicate FromAggregation(g: Registry, aggregates: seq<(Tid, Tid)>, t: Tid, e: Edge) {
    ((t, e.target) in aggregates || (e.target, t) in aggregates) && e.name == "$" + g.Name(e.target)
  }

  lemma {:induction false} AttributeMembers(g: Registry, s: seq<Attribute>, n: nat, e: Edge)
    requires n <= |s|
    ensures e in WithAttributes(g, s, n) <==> exists i :: 0 <= i < n && e in AttributeEdges(g, s[i])
  {
    if n > 0 { AttributeMembers(g, s, n - 1, e); }
  }

  lemma {:induction false} ChildMembers(g: Registry, t: Tid, earlier: seq<Edge>, n: nat, e: Edge)
    requires n <= |g.types|
    ensures e in WithChildren(g, t, earlier, n) <==>
      e in earlier || exists i :: 0 <= i < n && e in ChildEdges(g, t, g.types[i])
  {
    if n > 0 { ChildMembers(g, t, earlier, n - 1, e); }
  }

  lemma {:induction false} AggregateMembers(g: Registry, t: Tid, earlier: seq<Edge>, s: seq<(Tid, Tid)>, n: nat,
                                            e: Edge)
    requires n <= |s|
    ensures e in WithAggregates(g, t, earlier, s, n) <==>
      e in earlier || exists i :: 0 <= i < n && e in AggregateEdges(g, t, s[i])
  {
    if n > 0 { AggregateMembers(g, t, earlier, s, n - 1, e); }
  }

  lemma AttributeEdgesAre(g: Registry, t: Tid, e: Edge)
    ensures e in WithAttributes(g, g.Attributes(t), |g.Attributes(t)|) <==> FromAttribute(g, t, e)
  {
    var s := g.Attributes(t);
    AttributeMembers(g, s, |s|, e);
    if i :| 0 <= i < |s| && e in AttributeEdges(g, s[i]) { assert s[i] in g.Attributes(t); }
    if FromAttribute(g, t, e) {
      var a :| a in s && ((a.checker == PointerTo(e.target) && e.target != g.objectTid && e.name == a.name)
                          || (a.checker == ContainerOf(e.target) && e.name == a.name + "/[i]"));
      var i :| 0 <= i < |s| && s[i] == a;
      assert AttributeEdges(g, a) == [e];
    }
  }

  /** A type is followed to exactly these: what its attributes refer to, its registered descendants, and what it
      is aggregated with. */
  lemma EdgesAre(g: Registry, aggregates: seq<(Tid, Tid)>, t: Tid, e: Edge)
    ensures e in Edges(g, aggregates, t) <==>
      FromAttribute(g, t, e) || FromDescent(g, t, e) || FromAggregation(g, aggregates, t, e)
  {
    var own := WithAttributes(g, g.Attributes(t), |g.Attributes(t)|);
    AttributeEdgesAre(g, t, e);
    ChildMembers(g, t, own, |g.types|, e);
    AggregateMembers(g, t, WithChildren(g, t, own, |g.types|), aggregates, |aggregates|, e);
    if FromDescent(g, t, e) {
      var i :| 0 <= i < |g.types| && g.types[i] == e.target;
      assert ChildEdges(g, t, g.types[i]) == [e];
    }
    if FromAggregation(g, aggregates, t, e) {
      var i :| 0 <= i < |aggregates| && (aggregates[i] == (t, e.target) || aggregates[i] == (e.target, t));
      assert AggregateEdges(g, t, aggregates[i]) == [e];
    }
  }

  /** And in this order: attributes as they are listed, descendants as they were registered, aggregations as they
      were recorded. */
  lemma EdgesInOrder(g: Registry, aggregates: seq<(Tid, Tid)>, t: Tid)
    ensures Edges(g, aggregates, t) ==
      Collect((a: Attribute) => match a.checker
                case PointerTo(u) => if u == g.objectTid then None else Some(Edge(a.name, u))
                case ContainerOf(u) => Some(Edge(a.name + "/[i]", u))
                case OtherChecker => None, g.Attributes(t))
      + Collect((u: Tid) => if (u, t) in g.descends then Some(Edge("$" + g.Name(u), u)) else None, g.types)
      + Collect((pair: (Tid, Tid)) =>
                  if pair.1 == t then Some(Edge("$" + g.Name(pair.0), pair.0))
                  else if pair.0 == t then Some(Edge("$" + g.Name(pair.1), pair.1)) else None, aggregates)
  {
    var attributes := g.Attributes(t);
    AttributesCollected(g, attributes, |attributes|);
    ChildrenCollected(g, t, WithAttributes(g, attributes, |attributes|), |g.types|);
    AggregatesCollected(g, t, WithChildren(g, t, WithAttributes(g, attributes, |attributes|), |g.types|),
                        aggregates, |aggregates|);
    assert attributes[..|attributes|] == attributes && g.types[..|g.types|] == g.types;
    assert aggregates[..|aggregates|] == aggregates;
  }

  lemma {:induction false} AttributesCollected(g: Registry, s: seq<Attribute>, n: nat)
    requires n <= |s|
    ensures WithAttributes(g, s, n) ==
      Collect((a: Attribute) => match a.checker
                case PointerTo(u) => if u == g.objectTid then None else Some(Edge(a.name, u))
                case ContainerOf(u) => Some(Edge(a.name + "/[i]", u))
                case OtherChecker => None, s[..n])
  {
    if n > 0 {
      AttributesCollected(g, s, n - 1);
      assert s[..n][..n - 1] == s[..n - 1] && s[..n][n - 1] == s[n - 1];
    }
  }

  lemma {:induction false} ChildrenCollected(g: Registry, t: Tid, earlier: seq<Edge>, n: nat)
    requires n <= |g.types|
    ensures WithChildren(g, t, earlier, n) == earlier +
      Collect((u: Tid) => if (u, t) in g.descends then Some(Edge("$" + g.Name(u), u)) else None, g.types[..n])
  {
    if n > 0 {
      ChildrenCollected(g, t, earlier, n - 1);
      assert g.types[..n][..n - 1] == g.types[..n - 1] && g.types[..n][n - 1] == g.types[n - 1];
    }
  }

  lemma {:induction false} AggregatesCollected(g: Registry, t: Tid, earlier: seq<Edge>, s: seq<(Tid, Tid)>, n: nat)
    requires n <= |s|
    ensures WithAggregates(g, t, earlier, s, n) == earlier +
      Collect((pair: (Tid, Tid)) =>
                if pair.1 == t then Some(Edge("$" + g.Name(pair.0), pair.0))
                else if pair.0 == t then Some(Edge("$" + g.Name(pair.1), pair.1)) else None, s[..n])
  {
    if n > 0 {
      AggregatesCollected(g, t, earlier, s, n - 1);
      assert s[..n][..n - 1] == s[..n - 1] && s[..n][n - 1] == s[n - 1];
    }
  }

  /** Each edge of a type that is not on the stack leads to a record, unless its target is. */
  lemma EdgeRecorded(g: Registry, aggregates: seq<(Tid, Tid)>, t: Tid, path: seq<string>, stack: seq<Tid>, e: Edge)
    requires g.Closed(aggregates) && t in g.types && t !in stack && e.target !in stack + [t]
    requires FromAttribute(g, t, e) || FromDescent(g, t, e) || FromAggregation(g, aggregates, t, e)
    ensures GraphOf(g, aggregates).Closed() && e.target in g.types
    ensures (e.target, PathString(path + [e.name])) in Recorded(GraphOf(g, aggregates), t, path, stack)
  {
    var graph := GraphOf(g, aggregates);
    GraphClosed(g, aggregates);
    EdgesAre(g, aggregates, t, e);
    assert e in graph.next(t);
    RecordedAlong(graph, t, path, stack, graph.next(t), e);
  }
}
