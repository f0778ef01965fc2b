/** Walks over a finite graph, cyclic or not, whose edges are tried in a fixed order, and the
    depth-first enumeration in which print-introspected-doxygen.cc records them. */
module TypeWalks {
  import opened Sequences

  type Tid = nat

  /** One way to go on from a type: the path element it adds and the type it leads to. */
  datatype Edge = Edge(name: string, target: Tid)

  ghost predicate Targets(types: set<Tid>, es: seq<Edge>) {
    forall e :: e in es ==> e.target in types
  }

  datatype Graph = Graph(types: set<Tid>, next: Tid -> seq<Edge>) {
    ghost predicate Closed() {
      forall t :: t in types ==> Targets(types, next(t))
    }
  }

  // ----- walks, declaratively

  /** A walk is given by which edge it takes at each type it reaches. */
  type Walk = seq<nat>

  ghost predicate Follows(g: Graph, t: Tid, walk: Walk)
    decreases |walk|
  {
    walk == [] ||
    (walk[0] < |g.next(t)| && Follows(g, g.next(t)[walk[0]].target, walk[1..]))
  }

  /** The types a walk visits, from its root to its end. */
  ghost function Visits(g: Graph, t: Tid, walk: Walk): (r: seq<Tid>)
    requires Follows(g, t, walk)
    ensures |r| == |walk| + 1 && r[0] == t
    decreases |walk|
  {
    if walk == [] then [t] else [t] + Visits(g, g.next(t)[walk[0]].target, walk[1..])
  }

  ghost function Labels(g: Graph, t: Tid, walk: Walk): seq<string>
    requires Follows(g, t, walk)
    decreases |walk|
  {
    if walk == [] then []
    else
      var e := g.next(t)[walk[0]];
      [e.name] + Labels(g, e.target, walk[1..])
  }

  /** A walk along edges that meets no type twice and none of `avoid`. */
  ghost predicate Simple(g: Graph, t: Tid, avoid: seq<Tid>, walk: Walk) {
    && Follows(g, t, walk)
    && Distinct(Visits(g, t, walk))
    && forall i :: 0 <= i < |walk| + 1 ==> Visits(g, t, walk)[i] !in avoid
  }

  function PathString(path: seq<string>): string {
    if path == [] then "" else PathString(path[..|path| - 1]) + ("/" + path[|path| - 1])
  }

  /** What is recorded for a walk reached with `path` already on the path stack. */
  ghost function EntryOf(g: Graph, t: Tid, path: seq<string>, walk: Walk): (Tid, string)
    requires Follows(g, t, walk)
  {
    (Visits(g, t, walk)[|walk|], PathString(path + Labels(g, t, walk)))
  }

  /** Depth-first preorder: a walk comes before its extensions and before later choices. */
  ghost predicate Before(v: Walk, w: Walk)
    decreases |v|
  {
    w != [] && (v == [] || v[0] < w[0] || (v[0] == w[0] && Before(v[1..], w[1..])))
  }

  // ----- the enumeration

  /** The number of types that can still be entered; the recursion's measure. */
  ghost function Fresh(g: Graph, stack: seq<Tid>): nat {
    |g.types - Elements(stack)|
  }

  lemma FreshShrinks(g: Graph, stack: seq<Tid>, t: Tid)
    requires t in g.types && t !in stack
    ensures Fresh(g, stack + [t]) < Fresh(g, stack)
  {
    assert g.types - Elements(stack + [t]) == g.types - Elements(stack) - {t};
  }

  /** What `DoGather` records for `t`, in order. */
  ghost function Recorded(g: Graph, t: Tid, path: seq<string>, stack: seq<Tid>): seq<(Tid, string)>
    requires g.Closed() && t in g.types
    decreases Fresh(g, stack), |g.next(t)| + 1
  {
    if t in stack then []
    else
      [(t, PathString(path))] + RecordedVia(g, t, path, stack, g.next(t))
  }

  /** What is recorded by going on from `t` along the edges `es`. */
  ghost function RecordedVia(g: Graph, t: Tid, path: seq<string>, stack: seq<Tid>, es: seq<Edge>)
    : seq<(Tid, string)>
    requires g.Closed() && t in g.types && t !in stack && Targets(g.types, es)
    decreases Fresh(g, stack), |es|
  {
    if es == [] then []
    else
      FreshShrinks(g, stack, t);
      var e := es[|es| - 1];
      RecordedVia(g, t, path, stack, es[..|es| - 1]) + Recorded(g, e.target, path + [e.name], stack + [t])
  }

  lemma RecordedViaSnoc(g: Graph, t: Tid, path: seq<string>, stack: seq<Tid>, es: seq<Edge>, e: Edge)
    requires g.Closed() && t in g.types && t !in stack && Targets(g.types, es) && e.target in g.types
    ensures Targets(g.types, es + [e])
    ensures RecordedVia(g, t, path, stack, es + [e])
         == RecordedVia(g, t, path, stack, es) + Recorded(g, e.target, path + [e.name], stack + [t])
  {
    assert (es + [e])[..|es|] == es;
  }

  /** Going on along an edge records its target, unless that is on the stack. */
  lemma {:induction false} RecordedAlong(g: Graph, t: Tid, path: seq<string>, stack: seq<Tid>, es: seq<Edge>, e: Edge)
    requires g.Closed() && t in g.types && t !in stack && Targets(g.types, es) && e in es
    requires e.target !in stack + [t]
    ensures (e.target, PathString(path + [e.name])) in RecordedVia(g, t, path, stack, es)
  {
    FreshShrinks(g, stack, t);
    var last, most := es[|es| - 1], es[..|es| - 1];
    if e == last {
      assert Recorded(g, e.target, path + [e.name], stack + [t])[0] == (e.target, PathString(path + [e.name]));
    } else {
      assert e in most;
      RecordedAlong(g, t, path, stack, most, e);
    }
  }

  lemma {:induction false} PathStringConcat(p: seq<string>, q: seq<string>)
    ensures PathString(p + q) == PathString(p) + PathString(q)
  {
    if q == [] {
      assert p + q == p;
    } else {
      assert (p + q)[..|p + q| - 1] == p + q[..|q| - 1];
      PathStringConcat(p, q[..|q| - 1]);
    }
  }

  /** A path string is its elements in order, each after a slash. */
  lemma PathStringFirst(name: string, rest: seq<string>)
    ensures PathString([]) == "" && PathString([name] + rest) == "/" + name + PathString(rest)
  {
    PathStringConcat([name], rest);
    assert [name][..0] == [] && "" + ("/" + name) == "/" + name;
  }

  function Prefixed(k: nat, walks: seq<Walk>): (r: seq<Walk>)
    ensures |r| == |walks| && forall i :: 0 <= i < |r| ==> r[i] == [k] + walks[i]
  {
    seq(|walks|, i requires 0 <= i < |walks| => [k] + walks[i])
  }

  /** The walks behind the records. */
  ghost function Walks(g: Graph, t: Tid, stack: seq<Tid>): seq<Walk>
    requires g.Closed() && t in g.types
    decreases Fresh(g, stack), |g.next(t)| + 1
  {
    if t in stack then [] else [[]] + WalksVia(g, t, stack, |g.next(t)|)
  }

  /** Those that start with one of the first `n` edges of `t`. */
  ghost function WalksVia(g: Graph, t: Tid, stack: seq<Tid>, n: nat): seq<Walk>
    requires g.Closed() && t in g.types && t !in stack && n <= |g.next(t)|
    decreases Fresh(g, stack), n
  {
    if n == 0 then []
    else
      FreshShrinks(g, stack, t);
      WalksVia(g, t, stack, n - 1)
      + Prefixed(n - 1, Walks(g, g.next(t)[n - 1].target, stack + [t]))
  }

  // ----- the walks are exactly the simple ones

  lemma PrefixedMember(k: nat, walks: seq<Walk>, walk: Walk)
    ensures walk in Prefixed(k, walks) <==> walk != [] && walk[0] == k && walk[1..] in walks
  {
    var ps := Prefixed(k, walks);
    if walk in ps {
      var i :| 0 <= i < |ps| && ps[i] == walk;
      assert walk[1..] == walks[i];
    }
    if walk != [] && walk[0] == k && walk[1..] in walks {
      var i :| 0 <= i < |walks| && walks[i] == walk[1..];
      assert ps[i] == walk;
    }
  }

  lemma {:induction false} WalksViaMember(g: Graph, t: Tid, stack: seq<Tid>, n: nat, walk: Walk)
    requires g.Closed() && t in g.types && t !in stack && n <= |g.next(t)|
    requires Targets(g.types, g.next(t))
    ensures walk in WalksVia(g, t, stack, n) <==>
      walk != [] && walk[0] < n && walk[1..] in Walks(g, g.next(t)[walk[0]].target, stack + [t])
  {
    if n > 0 {
      WalksViaMember(g, t, stack, n - 1, walk);
      PrefixedMember(n - 1, Walks(g, g.next(t)[n - 1].target, stack + [t]), walk);
    }
  }

  lemma SimpleStep(g: Graph, t: Tid, avoid: seq<Tid>, walk: Walk)
    requires walk != [] && walk[0] < |g.next(t)| && t !in avoid
    ensures Simple(g, t, avoid, walk) <==>
      Simple(g, g.next(t)[walk[0]].target, avoid + [t], walk[1..])
  {
    var u := g.next(t)[walk[0]].target;
    if Follows(g, t, walk) {
      var all, rest := Visits(g, t, walk), Visits(g, u, walk[1..]);
      assert all == [t] + rest;
      assert forall i :: 0 <= i < |rest| ==> rest[i] == all[i + 1];
      if Simple(g, t, avoid, walk) {
        forall i | 0 <= i < |rest| ensures rest[i] !in avoid + [t] { assert all[0] != all[i + 1]; }
      }
      if Simple(g, u, avoid + [t], walk[1..]) {
        forall i | 0 <= i < |all| ensures all[i] !in avoid {
          if i > 0 { assert rest[i - 1] !in avoid + [t]; }
        }
        assert Distinct(all);
      }
    }
  }

  /** Every recorded walk is simple and every simple walk is recorded. */
  lemma {:induction false} WalksAreTheSimpleOnes(g: Graph, t: Tid, stack: seq<Tid>, walk: Walk)
    requires g.Closed() && t in g.types
    ensures walk in Walks(g, t, stack) <==> Simple(g, t, stack, walk)
    decreases |walk|
  {
    if t in stack {
    } else if walk == [] {
      assert Walks(g, t, stack)[0] == [];
    } else {
      WalksViaMember(g, t, stack, |g.next(t)|, walk);
      if walk[0] < |g.next(t)| {
        WalksAreTheSimpleOnes(g, g.next(t)[walk[0]].target, stack + [t], walk[1..]);
        SimpleStep(g, t, stack, walk);
      }
    }
  }

  // ----- and in depth-first preorder

  ghost predicate Preorder(walks: seq<Walk>) {
    forall i, j :: 0 <= i < j < |walks| ==> Before(walks[i], walks[j])
  }

  /** All walks start with an edge below `n`. */
  ghost predicate StartBelow(walks: seq<Walk>, n: nat) {
    forall i :: 0 <= i < |walks| ==> walks[i] != [] && walks[i][0] < n
  }

  lemma PrefixedInPreorder(k: nat, walks: seq<Walk>)
    requires Preorder(walks)
    ensures Preorder(Prefixed(k, walks)) && StartBelow(Prefixed(k, walks), k + 1)
  {
    var ps := Prefixed(k, walks);
    forall i, j | 0 <= i < j < |ps| ensures Before(ps[i], ps[j]) {
      assert ps[i][1..] == walks[i] && ps[j][1..] == walks[j];
      assert Before(walks[i], walks[j]);
    }
  }

  lemma {:induction false} WalksInPreorder(g: Graph, t: Tid, stack: seq<Tid>)
    requires g.Closed() && t in g.types
    ensures Preorder(Walks(g, t, stack))
    decreases Fresh(g, stack), |g.next(t)| + 1
  {
    if t !in stack { WalksViaInPreorder(g, t, stack, |g.next(t)|); }
  }

  lemma {:induction false} WalksViaInPreorder(g: Graph, t: Tid, stack: seq<Tid>, n: nat)
    requires g.Closed() && t in g.types && t !in stack && n <= |g.next(t)|
    ensures Preorder(WalksVia(g, t, stack, n)) && StartBelow(WalksVia(g, t, stack, n), n)
    decreases Fresh(g, stack), n
  {
    if n > 0 {
      FreshShrinks(g, stack, t);
      var target := g.next(t)[n - 1].target;
      WalksViaInPreorder(g, t, stack, n - 1);
      WalksInPreorder(g, target, stack + [t]);
    }
  }

  // ----- the records are the entries of the walks

  ghost predicate Describes(g: Graph, t: Tid, path: seq<string>,
                            walks: seq<Walk>, records: seq<(Tid, string)>) {
    && |walks| == |records|
    && forall i :: 0 <= i < |walks| ==>
         Follows(g, t, walks[i]) && records[i] == EntryOf(g, t, path, walks[i])
  }

  lemma {:induction false} RecordsDescribeWalks(g: Graph, t: Tid, path: seq<string>, stack: seq<Tid>)
    requires g.Closed() && t in g.types
    ensures Describes(g, t, path, Walks(g, t, stack), Recorded(g, t, path, stack))
    decreases Fresh(g, stack), |g.next(t)| + 1
  {
    if t !in stack {
      var n := |g.next(t)|;
      RecordsDescribeWalksVia(g, t, path, stack, n);
      assert g.next(t)[..n] == g.next(t);
      assert EntryOf(g, t, path, []) == (t, PathString(path)) by {
        assert path + [] == path;
      }
    }
  }

  lemma {:induction false} RecordsDescribeWalksVia(g: Graph, t: Tid, path: seq<string>, stack: seq<Tid>, n: nat)
    requires g.Closed() && t in g.types && t !in stack && n <= |g.next(t)|
    requires Targets(g.types, g.next(t))
    ensures Describes(g, t, path, WalksVia(g, t, stack, n),
                      RecordedVia(g, t, path, stack, g.next(t)[..n]))
    decreases Fresh(g, stack), n
  {
    if n > 0 {
      FreshShrinks(g, stack, t);
      RecordsDescribeWalksVia(g, t, path, stack, n - 1);
      var es := g.next(t);
      assert es[..n][..n - 1] == es[..n - 1];
      var e := es[n - 1];
      RecordsDescribeWalks(g, e.target, path + [e.name], stack + [t]);
      PrefixedDescribes(g, t, path, n - 1, Walks(g, e.target, stack + [t]),
                        Recorded(g, e.target, path + [e.name], stack + [t]));
    }
  }

  lemma PrefixedDescribes(g: Graph, t: Tid, path: seq<string>, k: nat,
                          walks: seq<Walk>, records: seq<(Tid, string)>)
    requires k < |g.next(t)|
    requires var e := g.next(t)[k]; Describes(g, e.target, path + [e.name], walks, records)
    ensures Describes(g, t, path, Prefixed(k, walks), records)
  {
    var e := g.next(t)[k];
    forall i | 0 <= i < |walks|
      ensures Follows(g, t, [k] + walks[i]) && records[i] == EntryOf(g, t, path, [k] + walks[i])
    {
      assert ([k] + walks[i])[1..] == walks[i];
      assert path + [e.name] + Labels(g, e.target, walks[i]) == path + ([e.name] + Labels(g, e.target, walks[i]));
    }
  }

  /** The main result: the records are the entries of exactly the simple walks from `t` that avoid
      the stack, in depth-first preorder, each once. */
  lemma RecordsAreTheSimpleWalks(g: Graph, t: Tid, path: seq<string>, stack: seq<Tid>)
    requires g.Closed() && t in g.types
    ensures exists walks: seq<Walk> ::
      && Preorder(walks)
      && (forall w :: w in walks <==> Simple(g, t, stack, w))
      && Describes(g, t, path, walks, Recorded(g, t, path, stack))
  {
    var walks := Walks(g, t, stack);
    WalksInPreorder(g, t, stack);
    forall w ensures w in walks <==> Simple(g, t, stack, w) {
      WalksAreTheSimpleOnes(g, t, stack, w);
    }
    RecordsDescribeWalks(g, t, path, stack);
  }

  lemma {:induction false} BeforeIsStrict(v: Walk, w: Walk)
    ensures !(Before(v, w) && Before(w, v)) && !Before(v, v)
  {
    if v != [] {
      BeforeIsStrict(v[1..], v[1..]);
      if w != [] { BeforeIsStrict(v[1..], w[1..]); }
    }
  }

  /** A preorder listing of a given set of walks is unique, so the records are determined. */
  lemma {:induction false} PreorderIsUnique(a: seq<Walk>, b: seq<Walk>)
    requires Preorder(a) && Preorder(b) && forall w :: w in a <==> w in b
    ensures a == b
  {
    assert b == [] || b[0] in b;
    if a == [] {
    } else {
      assert a[0] in b && (b[0] in b && b[0] in a);
      if a[0] != b[0] {
        var i :| 0 <= i < |b| && b[i] == a[0];
        var j :| 0 <= j < |a| && a[j] == b[0];
        assert Before(b[0], b[i]) && Before(a[0], a[j]);
        BeforeIsStrict(a[0], b[0]);
      }
      forall w ensures w in a[1..] <==> w in b[1..] {
        RestWithout(a, w);
        RestWithout(b, w);
      }
      PreorderIsUnique(a[1..], b[1..]);
      assert a == [a[0]] + a[1..] && b == [b[0]] + b[1..];
    }
  }

  lemma RestWithout(a: seq<Walk>, w: Walk)
    requires Preorder(a) && a != []
    ensures w in a[1..] <==> w in a && w != a[0]
  {
    BeforeIsStrict(a[0], a[0]);
  }
}
