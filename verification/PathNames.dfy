/** The names in the paths of print-introspected-doxygen.cc: a path string can be read back, and with proper
    names in the registry an edge's name tells where it leads. */
module PathNames {
  import opened Sequences
  import opened TypeGraph
  import opened TypeWalks

  // ----- path strings can be read back

  predicate Plain(name: string) { '/' !in name && name != "[i]" }

  /** A path element: a name, or the name of a container with a mark for its items. */
  ghost predicate PathElement(name: string) { Plain(name) || exists x :: Plain(x) && name == x + "/[i]" }

  lemma LastSlash(u: string, a: string, v: string, b: string)
    requires '/' !in a && '/' !in b && u + ("/" + a) == v + ("/" + b)
    ensures u == v && a == b
  {
    var s, t := u + ("/" + a), v + ("/" + b);
    assert s[|u|] == '/' && t[|v|] == '/';
    assert forall i :: |u| < i < |s| ==> s[i] == a[i - |u| - 1];
    assert forall i :: |v| < i < |t| ==> t[i] == b[i - |v| - 1];
    assert |u| == |v|;
    assert u == s[..|u|] == t[..|v|] == v;
    assert a == s[|u| + 1..] == t[|v| + 1..] == b;
  }

  lemma LastElement(u: string, a: string, v: string, b: string)
    requires PathElement(a) && PathElement(b) && u + ("/" + a) == v + ("/" + b)
    ensures u == v && a == b
  {
    if Plain(a) && Plain(b) {
      LastSlash(u, a, v, b);
    } else if Plain(a) {
      var y :| Plain(y) && b == y + "/[i]";
      assert v + ("/" + b) == (v + ("/" + y)) + ("/" + "[i]");
      LastSlash(u, a, v + ("/" + y), "[i]");
    } else if Plain(b) {
      var x :| Plain(x) && a == x + "/[i]";
      assert u + ("/" + a) == (u + ("/" + x)) + ("/" + "[i]");
      LastSlash(u + ("/" + x), "[i]", v, b);
    } else {
      var x :| Plain(x) && a == x + "/[i]";
      var y :| Plain(y) && b == y + "/[i]";
      assert u + ("/" + a) == (u + ("/" + x)) + ("/" + "[i]");
      assert v + ("/" + b) == (v + ("/" + y)) + ("/" + "[i]");
      LastSlash(u + ("/" + x), "[i]", v + ("/" + y), "[i]");
      LastSlash(u, x, v, y);
    }
  }

  /** A path string determines the path. */
  lemma {:induction false} PathStringInjective(p: seq<string>, q: seq<string>)
    requires (forall a :: a in p ==> PathElement(a)) && (forall a :: a in q ==> PathElement(a))
    requires PathString(p) == PathString(q)
    ensures p == q
  {
    if p != [] && q != [] {
      var a, b := p[|p| - 1], q[|q| - 1];
      LastElement(PathString(p[..|p| - 1]), a, PathString(q[..|q| - 1]), b);
      PathStringInjective(p[..|p| - 1], q[..|q| - 1]);
      assert p == p[..|p| - 1] + [a] && q == q[..|q| - 1] + [b];
    }
  }

  // ----- legible graphs

  /** Names can be told apart in a path, and from one type a name leads to one type only. */
  ghost predicate Legible(g: Graph) {
    && (forall t, e :: t in g.types && e in g.next(t) ==> PathElement(e.name))
    && (forall t, e, f :: t in g.types && e in g.next(t) && f in g.next(t) && e.name == f.name ==> e.target == f.target)
  }

  lemma {:induction false} LabelsReadable(g: Graph, t: Tid, walk: Walk)
    requires g.Closed() && Legible(g) && t in g.types && Follows(g, t, walk)
    ensures forall a :: a in Labels(g, t, walk) ==> PathElement(a)
    decreases |walk|
  {
    if walk != [] {
      var e := g.next(t)[walk[0]];
      assert e in g.next(t);
      LabelsReadable(g, e.target, walk[1..]);
    }
  }

  // ----- in terms of the registry

  /** Types have different names, the attributes of a type have different names, and no name looks like
      another part of a path. */
  ghost predicate ProperNames(g: Registry) {
    && (forall t :: t in g.types ==> '/' !in g.Name(t))
    && (forall t, u :: t in g.types && u in g.types && g.Name(t) == g.Name(u) ==> t == u)
    && (forall t, a :: t in g.types && a in g.Attributes(t) ==> Plain(a.name) && (a.name != "" ==> a.name[0] != '$'))
    && (forall t, a, b :: t in g.types && a in g.Attributes(t) && b in g.Attributes(t) && a.name == b.name ==> a == b)
  }

  /** An edge comes from an attribute, or it is named after the type it leads to. */
  ghost predicate Originates(g: Registry, t: Tid, e: Edge) {
    || (e.target in g.types && e.name == "$" + g.Name(e.target))
    || (exists a :: a in g.Attributes(t) && e in AttributeEdges(g, a))
  }

  lemma {:induction false} AttributesOriginate(g: Registry, t: Tid, n: nat)
    requires n <= |g.Attributes(t)|
    ensures forall e :: e in WithAttributes(g, g.Attributes(t), n) ==> Originates(g, t, e)
  {
    if n > 0 {
      assert g.Attributes(t)[n - 1] in g.Attributes(t);
      AttributesOriginate(g, t, n - 1);
    }
  }

  lemma {:induction false} ChildrenOriginate(g: Registry, t: Tid, earlier: seq<Edge>, n: nat)
    requires n <= |g.types| && forall e :: e in earlier ==> Originates(g, t, e)
    ensures forall e :: e in WithChildren(g, t, earlier, n) ==> Originates(g, t, e)
  {
    if n > 0 { ChildrenOriginate(g, t, earlier, n - 1); }
  }

  lemma {:induction false} AggregatesOriginate(g: Registry, t: Tid, earlier: seq<Edge>, s: seq<(Tid, Tid)>, n: nat)
    requires n <= |s| && (forall e :: e in earlier ==> Originates(g, t, e))
    requires forall pair :: pair in s ==> pair.0 in g.types && pair.1 in g.types
    ensures forall e :: e in WithAggregates(g, t, earlier, s, n) ==> Originates(g, t, e)
  {
    if n > 0 {
      assert s[n - 1] in s;
      AggregatesOriginate(g, t, earlier, s, n - 1);
    }
  }

  lemma EdgesOriginate(g: Registry, aggregates: seq<(Tid, Tid)>, t: Tid)
    requires g.Closed(aggregates)
    ensures forall e :: e in Edges(g, aggregates, t) ==> Originates(g, t, e)
  {
    var attributes := WithAttributes(g, g.Attributes(t), |g.Attributes(t)|);
    AttributesOriginate(g, t, |g.Attributes(t)|);
    ChildrenOriginate(g, t, attributes, |g.types|);
    AggregatesOriginate(g, t, WithChildren(g, t, attributes, |g.types|), aggregates, |aggregates|);
  }

  lemma OriginIsReadable(g: Registry, t: Tid, e: Edge)
    requires ProperNames(g) && t in g.types && Originates(g, t, e)
    ensures PathElement(e.name)
  {
    if e.target in g.types && e.name == "$" + g.Name(e.target) {
      assert e.name[0] == '$';
    } else {
      var a :| a in g.Attributes(t) && e in AttributeEdges(g, a);
      assert Plain(a.name);
    }
  }

  /** The name of an edge tells what it comes from, and so where it leads. */
  lemma OriginIsUnique(g: Registry, t: Tid, e: Edge, f: Edge)
    requires ProperNames(g) && t in g.types && Originates(g, t, e) && Originates(g, t, f) && e.name == f.name
    ensures e.target == f.target
  {
    if e.target in g.types && e.name == "$" + g.Name(e.target) {
      if f.target in g.types && f.name == "$" + g.Name(f.target) {
        assert g.Name(e.target) == e.name[1..] == g.Name(f.target);
      } else {
        AttributeIsNoType(g, t, f);
      }
    } else if f.target in g.types && f.name == "$" + g.Name(f.target) {
      AttributeIsNoType(g, t, e);
    } else {
      var a :| a in g.Attributes(t) && e in AttributeEdges(g, a);
      var b :| b in g.Attributes(t) && f in AttributeEdges(g, b);
      SameAttribute(g, a, b, e, f);
    }
  }

  lemma AttributeIsNoType(g: Registry, t: Tid, e: Edge)
    requires ProperNames(g) && t in g.types && exists a :: a in g.Attributes(t) && e in AttributeEdges(g, a)
    ensures e.name == "" || e.name[0] != '$'
  {
    var a :| a in g.Attributes(t) && e in AttributeEdges(g, a);
    if a.name != "" { assert e.name[0] == a.name[0]; }
  }

  lemma MarkedIsNotPlain(name: string, other: string)
    requires Plain(other)
    ensures name + "/[i]" != other
  {
    assert (name + "/[i]")[|name|] == '/';
  }

  lemma SameAttribute(g: Registry, a: Attribute, b: Attribute, e: Edge, f: Edge)
    requires e in AttributeEdges(g, a) && f in AttributeEdges(g, b) && e.name == f.name
    requires Plain(a.name) && Plain(b.name) && (a.name == b.name ==> a == b)
    ensures e.target == f.target
  {
    if a.checker.ContainerOf? && b.checker.ContainerOf? {
      assert a.name == e.name[..|e.name| - 4] == b.name;
    } else if a.checker.ContainerOf? {
      MarkedIsNotPlain(a.name, b.name);
    } else if b.checker.ContainerOf? {
      MarkedIsNotPlain(b.name, a.name);
    }
  }

  /** Proper names make the graph of the registry legible. */
  lemma RegistryLegible(g: Registry, aggregates: seq<(Tid, Tid)>)
    requires g.Closed(aggregates) && ProperNames(g)
    ensures Legible(GraphOf(g, aggregates))
  {
    var graph := GraphOf(g, aggregates);
    forall t, e | t in graph.types && e in graph.next(t) ensures PathElement(e.name) {
      EdgesOriginate(g, aggregates, t);
      OriginIsReadable(g, t, e);
    }
    forall t, e, f | t in graph.types && e in graph.next(t) && f in graph.next(t) && e.name == f.name
      ensures e.target == f.target
    {
      EdgesOriginate(g, aggregates, t);
      OriginIsUnique(g, t, e, f);
    }
  }
}
