/** When the lists that print-introspected-doxygen.cc means to make free of duplicates are so. The call that
    should remove them works on a copy, so it is up to the registry and to the recorded aggregations. */
module PathDuplicates {
  import opened PathNames
  import opened Reachability
  import opened Sequences
  import opened TypeGraph
  import opened TypeWalks

  // ----- the recorded aggregations

  /** The name a call notes as unknown, if any: the first of the two that is not registered. */
  function NoteOf(g: Registry, call: (string, string)): Option<string> {
    if call.0 !in g.byName then Some(call.0)
    else if call.1 !in g.byName then Some(call.1)
    else None
  }

  /** The pair a call records, if both names are registered. */
  function PairOf(g: Registry, call: (string, string)): Option<(Tid, Tid)> {
    if call.0 in g.byName && call.1 in g.byName then Some((g.byName[call.0], g.byName[call.1])) else None
  }

  function Noted(g: Registry, calls: seq<(string, string)>): seq<string> {
    Collect((call: (string, string)) => NoteOf(g, call), calls)
  }

  function Paired(g: Registry, calls: seq<(string, string)>): seq<(Tid, Tid)> {
    Collect((call: (string, string)) => PairOf(g, call), calls)
  }

  ghost predicate NoNameNotedTwice(g: Registry, calls: seq<(string, string)>) {
    forall i, j :: 0 <= i < j < |calls| && NoteOf(g, calls[i]).Some? ==> NoteOf(g, calls[i]) != NoteOf(g, calls[j])
  }

  /** The missing names are free of duplicates exactly when no two calls note the same name. */
  lemma NotedDistinctIff(g: Registry, calls: seq<(string, string)>)
    ensures Distinct(Noted(g, calls)) <==> NoNameNotedTwice(g, calls)
  {
    CollectDistinctIff((call: (string, string)) => NoteOf(g, call), calls);
  }

  // ----- the paths recorded from one root

  /** Two walks, from the same or from different roots, that end at the same type with the same path string. */
  ghost predicate Agree(g: Graph, r: Tid, v: Walk, q: Tid, w: Walk)
    requires Follows(g, r, v) && Follows(g, q, w)
  {
    EntryOf(g, r, [], v) == EntryOf(g, q, [], w)
  }

  lemma RecordedMembers(g: Graph, t: Tid, entry: (Tid, string))
    requires g.Closed() && t in g.types
    ensures entry in Recorded(g, t, [], []) <==> exists v :: Simple(g, t, [], v) && EntryOf(g, t, [], v) == entry
  {
    var walks, records := Walks(g, t, []), Recorded(g, t, [], []);
    RecordsDescribeWalks(g, t, [], []);
    if entry in records {
      var i :| 0 <= i < |records| && records[i] == entry;
      WalksAreTheSimpleOnes(g, t, [], walks[i]);
    }
    if v :| Simple(g, t, [], v) && EntryOf(g, t, [], v) == entry {
      WalksAreTheSimpleOnes(g, t, [], v);
      var i :| 0 <= i < |walks| && walks[i] == v;
      assert records[i] == entry;
    }
  }

  /** No two simple walks from `t` agree. */
  ghost predicate NoTwoAgree(g: Graph, t: Tid) {
    forall v, w :: Simple(g, t, [], v) && Simple(g, t, [], w) && v != w ==> !Agree(g, t, v, t, w)
  }

  /** The records are those of different simple walks, and of all of them. */
  lemma RecordedWalks(g: Graph, t: Tid) returns (walks: seq<Walk>)
    requires g.Closed() && t in g.types
    ensures Distinct(walks) && (forall w :: w in walks <==> Simple(g, t, [], w))
    ensures Describes(g, t, [], walks, Recorded(g, t, [], []))
  {
    walks := Walks(g, t, []);
    WalksInPreorder(g, t, []);
    RecordsDescribeWalks(g, t, [], []);
    forall w ensures w in walks <==> Simple(g, t, [], w) { WalksAreTheSimpleOnes(g, t, [], w); }
    forall i, j | 0 <= i < j < |walks| ensures walks[i] != walks[j] {
      assert Before(walks[i], walks[j]);
      BeforeIsStrict(walks[i], walks[j]);
    }
  }

  /** On any graph the records from one root are free of duplicates exactly when no two simple walks agree. */
  lemma RecordsDistinctIff(g: Graph, t: Tid)
    requires g.Closed() && t in g.types
    ensures Distinct(Recorded(g, t, [], [])) <==> NoTwoAgree(g, t)
  {
    var walks := RecordedWalks(g, t);
    var records := Recorded(g, t, [], []);
    if NoTwoAgree(g, t) {
      forall i, j | 0 <= i < j < |records| ensures records[i] != records[j] {
        assert walks[i] in walks && walks[j] in walks && walks[i] != walks[j];
        assert !Agree(g, t, walks[i], t, walks[j]);
      }
    } else {
      var v, w :| Simple(g, t, [], v) && Simple(g, t, [], w) && v != w && Agree(g, t, v, t, w);
      SameRecord(g, t, walks, records, v, w);
    }
  }

  lemma SameRecord(g: Graph, t: Tid, walks: seq<Walk>, records: seq<(Tid, string)>, v: Walk, w: Walk)
    requires Describes(g, t, [], walks, records) && v in walks && w in walks && v != w
    requires Follows(g, t, v) && Follows(g, t, w) && EntryOf(g, t, [], v) == EntryOf(g, t, [], w)
    ensures !Distinct(records)
  {
    var i :| 0 <= i < |walks| && walks[i] == v;
    var j :| 0 <= j < |walks| && walks[j] == w;
    assert records[i] == records[j];
  }

  // ----- the list over all roots

  /** What is recorded from one root after another. */
  ghost function RecordedFromAll(g: Graph, roots: seq<Tid>): seq<(Tid, string)>
    requires g.Closed() && forall t :: t in roots ==> t in g.types
  {
    if roots == [] then []
    else RecordedFromAll(g, roots[..|roots| - 1]) + Recorded(g, roots[|roots| - 1], [], [])
  }

  /** No simple walk from one root agrees with one from the other. */
  ghost predicate Apart(g: Graph, r: Tid, q: Tid) {
    forall v, w :: Simple(g, r, [], v) && Simple(g, q, [], w) ==> !Agree(g, r, v, q, w)
  }

  lemma ApartMeans(g: Graph, r: Tid, q: Tid, x: (Tid, string))
    requires g.Closed() && r in g.types && q in g.types && Apart(g, r, q) && x in Recorded(g, r, [], [])
    ensures x !in Recorded(g, q, [], [])
  {
    RecordedMembers(g, r, x);
    RecordedMembers(g, q, x);
    var v :| Simple(g, r, [], v) && EntryOf(g, r, [], v) == x;
    if x in Recorded(g, q, [], []) {
      var w :| Simple(g, q, [], w) && EntryOf(g, q, [], w) == x;
    }
  }

  lemma ApartIff(g: Graph, r: Tid, q: Tid)
    requires g.Closed() && r in g.types && q in g.types
    ensures Apart(g, r, q) <==> forall x :: x in Recorded(g, r, [], []) ==> x !in Recorded(g, q, [], [])
  {
    if Apart(g, r, q) {
      forall x | x in Recorded(g, r, [], []) ensures x !in Recorded(g, q, [], []) { ApartMeans(g, r, q, x); }
    } else {
      var v, w :| Simple(g, r, [], v) && Simple(g, q, [], w) && Agree(g, r, v, q, w);
      RecordedMembers(g, r, EntryOf(g, r, [], v));
      RecordedMembers(g, q, EntryOf(g, r, [], v));
    }
  }

  lemma {:induction false} ListMembers(g: Graph, roots: seq<Tid>, entry: (Tid, string))
    requires g.Closed() && forall t :: t in roots ==> t in g.types
    ensures entry in RecordedFromAll(g, roots) <==>
      exists i :: 0 <= i < |roots| && entry in Recorded(g, roots[i], [], [])
  {
    if roots != [] {
      var most := roots[..|roots| - 1];
      ListMembers(g, most, entry);
      assert forall i :: 0 <= i < |most| ==> most[i] == roots[i];
    }
  }

  /** No two of the walks from all roots agree. */
  ghost predicate NoneAgree(g: Graph, roots: seq<Tid>) {
    && (forall i :: 0 <= i < |roots| ==> NoTwoAgree(g, roots[i]))
    && (forall i, j :: 0 <= i < j < |roots| ==> Apart(g, roots[i], roots[j]))
  }

  lemma NoneAgreeSnoc(g: Graph, roots: seq<Tid>)
    requires roots != []
    ensures var most, last := roots[..|roots| - 1], roots[|roots| - 1];
      NoneAgree(g, roots) <==>
        NoneAgree(g, most) && NoTwoAgree(g, last) && forall i :: 0 <= i < |most| ==> Apart(g, most[i], last)
  {
    var most, last := roots[..|roots| - 1], roots[|roots| - 1];
    assert forall i :: 0 <= i < |most| ==> most[i] == roots[i];
  }

  /** The list that the program means to make unique is so exactly when no two simple walks, from the same root
      or from two roots, have the same end type and path string. */
  lemma {:induction false} ListDistinctIff(g: Graph, roots: seq<Tid>)
    requires g.Closed() && forall t :: t in roots ==> t in g.types
    ensures Distinct(RecordedFromAll(g, roots)) <==> NoneAgree(g, roots)
  {
    if roots != [] {
      var most, last := roots[..|roots| - 1], roots[|roots| - 1];
      ListDistinctIff(g, most);
      RecordsDistinctIff(g, last);
      NoneAgreeSnoc(g, roots);
      DistinctConcat(RecordedFromAll(g, most), Recorded(g, last, [], []));
      ListApartIff(g, most, last);
    }
  }

  lemma ListApartIff(g: Graph, roots: seq<Tid>, last: Tid)
    requires g.Closed() && last in g.types && forall t :: t in roots ==> t in g.types
    ensures (forall x :: x in RecordedFromAll(g, roots) ==> x !in Recorded(g, last, [], []))
       <==> forall i :: 0 <= i < |roots| ==> Apart(g, roots[i], last)
  {
    if forall i :: 0 <= i < |roots| ==> Apart(g, roots[i], last) {
      forall x | x in RecordedFromAll(g, roots) ensures x !in Recorded(g, last, [], []) {
        ListMembers(g, roots, x);
        var i :| 0 <= i < |roots| && x in Recorded(g, roots[i], [], []);
        ApartMeans(g, roots[i], last, x);
      }
    } else {
      var i :| 0 <= i < |roots| && !Apart(g, roots[i], last);
      ApartIff(g, roots[i], last);
      var x :| x in Recorded(g, roots[i], [], []) && x in Recorded(g, last, [], []);
      ListMembers(g, roots, x);
    }
  }

  /** A root whose own records repeat makes the list repeat. */
  lemma RootRepeats(g: Graph, roots: seq<Tid>, t: Tid)
    requires g.Closed() && (forall r :: r in roots ==> r in g.types) && t in roots
    requires !Distinct(Recorded(g, t, [], []))
    ensures !Distinct(RecordedFromAll(g, roots))
  {
    RecordsDistinctIff(g, t);
    ListDistinctIff(g, roots);
  }

  // ----- edges that a type has twice

  ghost predicate TwinEdges(g: Graph, u: Tid, k: nat, l: nat) {
    k < l < |g.next(u)| && g.next(u)[k] == g.next(u)[l]
  }

  /** An edge that its type has twice can be reached from `t` before the type that it leads to. */
  ghost predicate TwinReached(g: Graph, t: Tid, u: Tid, k: nat, l: nat) {
    TwinEdges(g, u, k, l) && Reaches(g, t, u, g.next(u)[k].target)
  }

  lemma StepAfter(g: Graph, t: Tid, walk: Walk, u: Tid, k: nat)
    requires Simple(g, t, [], walk) && End(g, t, walk) == u
    requires k < |g.next(u)| && g.next(u)[k].target !in Visits(g, t, walk)
    ensures Simple(g, t, [], walk + [k])
    ensures EntryOf(g, t, [], walk + [k])
         == (g.next(u)[k].target, PathString(Labels(g, t, walk) + [g.next(u)[k].name]))
  {
    Append(g, t, walk, k);
    DistinctSnoc(Visits(g, t, walk), g.next(u)[k].target);
    assert [] + Labels(g, t, walk + [k]) == Labels(g, t, walk + [k]);
  }

  /** On any graph such an edge repeats a path. */
  lemma TwinRepeats(g: Graph, t: Tid, u: Tid, k: nat, l: nat)
    requires g.Closed() && t in g.types && TwinReached(g, t, u, k, l)
    ensures !Distinct(Recorded(g, t, [], []))
  {
    var x := g.next(u)[k].target;
    var walk :| LeadsTo(g, t, walk, u, x);
    var short := Shorten(g, t, walk);
    StepAfter(g, t, short, u, k);
    StepAfter(g, t, short, u, l);
    assert (short + [k])[|short|] != (short + [l])[|short|];
    assert Agree(g, t, short + [k], t, short + [l]);
    RecordsDistinctIff(g, t);
  }

  /** At no step of the walk has the type another edge with the same name and target. */
  ghost predicate TwinFree(g: Graph, t: Tid, walk: Walk)
    requires Follows(g, t, walk)
    decreases |walk|
  {
    walk == [] ||
    ((forall k :: 0 <= k < |g.next(t)| && k != walk[0] ==> g.next(t)[k] != g.next(t)[walk[0]])
     && TwinFree(g, g.next(t)[walk[0]].target, walk[1..]))
  }

  /** Without such twins the labels determine the walk. */
  lemma {:induction false} LabelsDetermineWalk(g: Graph, t: Tid, v: Walk, w: Walk)
    requires g.Closed() && Legible(g) && t in g.types && Follows(g, t, v) && Follows(g, t, w)
    requires TwinFree(g, t, v) && Labels(g, t, v) == Labels(g, t, w)
    ensures v == w
    decreases |v|
  {
    if v != [] && w != [] {
      var e, f := g.next(t)[v[0]], g.next(t)[w[0]];
      assert e in g.next(t) && f in g.next(t);
      assert Labels(g, t, v)[0] == e.name && Labels(g, t, w)[0] == f.name;
      assert Labels(g, t, v)[1..] == Labels(g, e.target, v[1..]);
      assert Labels(g, t, w)[1..] == Labels(g, f.target, w[1..]);
      LabelsDetermineWalk(g, e.target, v[1..], w[1..]);
      assert v == [v[0]] + v[1..] && w == [w[0]] + w[1..];
    }
  }

  lemma AgreeingWalksAreEqual(g: Graph, t: Tid, v: Walk, w: Walk)
    requires g.Closed() && Legible(g) && t in g.types && Follows(g, t, v) && Follows(g, t, w)
    requires TwinFree(g, t, v) && Agree(g, t, v, t, w)
    ensures v == w
  {
    LabelsReadable(g, t, v);
    LabelsReadable(g, t, w);
    assert [] + Labels(g, t, v) == Labels(g, t, v) && [] + Labels(g, t, w) == Labels(g, t, w);
    PathStringInjective(Labels(g, t, v), Labels(g, t, w));
    LabelsDetermineWalk(g, t, v, w);
  }

  /** Where a walk takes an edge that its type has twice. */
  lemma {:induction false} TwinStep(g: Graph, t: Tid, walk: Walk) returns (i: nat, l: nat)
    requires Follows(g, t, walk) && !TwinFree(g, t, walk)
    ensures i < |walk|
    ensures var u := Visits(g, t, walk)[i];
      walk[i] < |g.next(u)| && l < |g.next(u)| && l != walk[i] && g.next(u)[l] == g.next(u)[walk[i]]
    decreases |walk|
  {
    var e := g.next(t)[walk[0]];
    if TwinFree(g, e.target, walk[1..]) {
      i := 0;
      l :| 0 <= l < |g.next(t)| && l != walk[0] && g.next(t)[l] == e;
    } else {
      var j;
      j, l := TwinStep(g, e.target, walk[1..]);
      i := j + 1;
    }
  }

  /** A simple walk that takes such an edge reaches it before the type that it leads to. */
  lemma TwinOnWalk(g: Graph, t: Tid, walk: Walk)
    requires Simple(g, t, [], walk) && !TwinFree(g, t, walk)
    ensures exists u: Tid, k: nat, l: nat :: TwinReached(g, t, u, k, l)
  {
    var i, m := TwinStep(g, t, walk);
    var visits := Visits(g, t, walk);
    var u, k := visits[i], walk[i];
    Prefix(g, t, walk, i);
    var x := g.next(u)[k].target;
    var before := visits[..i + 1];
    forall j | 0 <= j < |before| ensures before[j] != x { assert visits[j] != visits[i + 1]; }
    assert LeadsTo(g, t, walk[..i], u, x);
    if k < m {
      assert TwinReached(g, t, u, k, m);
    } else {
      assert TwinReached(g, t, u, m, k);
    }
  }

  /** Where names are legible, the records from one root are free of duplicates exactly when each edge that a
      type has twice is out of reach: every walk from the root to that type passes the type it leads to. */
  lemma PathsDistinctIff(g: Graph, t: Tid)
    requires g.Closed() && Legible(g) && t in g.types
    ensures Distinct(Recorded(g, t, [], [])) <==> forall u: Tid, k: nat, l: nat :: !TwinReached(g, t, u, k, l)
  {
    if u: Tid, k: nat, l: nat :| TwinReached(g, t, u, k, l) {
      TwinRepeats(g, t, u, k, l);
    } else {
      RecordsDistinctIff(g, t);
      forall v, w | Simple(g, t, [], v) && Simple(g, t, [], w) && v != w ensures !Agree(g, t, v, t, w) {
        if Agree(g, t, v, t, w) {
          if TwinFree(g, t, v) { AgreeingWalksAreEqual(g, t, v, w); } else { TwinOnWalk(g, t, v); }
        }
      }
    }
  }

  /** The same for the whole list: no such edge within reach of a root, and no two roots with a path in common. */
  lemma LegibleListDistinctIff(g: Graph, roots: seq<Tid>)
    requires g.Closed() && Legible(g) && forall t :: t in roots ==> t in g.types
    ensures Distinct(RecordedFromAll(g, roots)) <==>
      && (forall t, u: Tid, k: nat, l: nat :: t in roots ==> !TwinReached(g, t, u, k, l))
      && (forall i, j :: 0 <= i < j < |roots| ==> Apart(g, roots[i], roots[j]))
  {
    ListDistinctIff(g, roots);
    forall t | t in roots ensures NoTwoAgree(g, t) <==> forall u: Tid, k: nat, l: nat :: !TwinReached(g, t, u, k, l) {
      PathsDistinctIff(g, t);
      RecordsDistinctIff(g, t);
    }
    if forall i :: 0 <= i < |roots| ==> NoTwoAgree(g, roots[i]) {
      forall t | t in roots ensures NoTwoAgree(g, t) {}
    }
  }

  // ----- edge names that two roots share

  ghost predicate NoSharedName(g: Graph, r: Tid, q: Tid) {
    forall e, f :: e in g.next(r) && f in g.next(q) ==> e.name != f.name
  }

  lemma FirstNames(g: Graph, r: Tid, v: Walk, q: Tid, w: Walk)
    requires Follows(g, r, v) && Follows(g, q, w) && Labels(g, r, v) == Labels(g, q, w)
    ensures if v == [] then w == [] else !NoSharedName(g, r, q)
  {
    if v != [] {
      var e, f := g.next(r)[v[0]], g.next(q)[w[0]];
      assert e in g.next(r) && f in g.next(q);
      assert Labels(g, r, v)[0] == e.name && Labels(g, q, w)[0] == f.name;
    }
  }

  /** Two different roots without a common edge name have no path in common. */
  lemma NoSharedNameMeansApart(g: Graph, r: Tid, q: Tid)
    requires g.Closed() && Legible(g) && r in g.types && q in g.types && r != q && NoSharedName(g, r, q)
    ensures Apart(g, r, q)
  {
    forall v, w | Simple(g, r, [], v) && Simple(g, q, [], w) ensures !Agree(g, r, v, q, w) {
      if Agree(g, r, v, q, w) {
        LabelsReadable(g, r, v);
        LabelsReadable(g, q, w);
        assert [] + Labels(g, r, v) == Labels(g, r, v) && [] + Labels(g, q, w) == Labels(g, q, w);
        PathStringInjective(Labels(g, r, v), Labels(g, q, w));
        FirstNames(g, r, v, q, w);
      }
    }
  }

  // ----- a check on the registry and the roots

  lemma DistinctEdgesHaveNoTwins(g: Registry, aggregates: seq<(Tid, Tid)>, t: Tid)
    requires g.Closed(aggregates) && ProperNames(g) && t in g.types
    requires forall u :: u in g.types ==> Distinct(Edges(g, aggregates, u))
    ensures GraphOf(g, aggregates).Closed() && NoTwoAgree(GraphOf(g, aggregates), t)
  {
    var graph := GraphOf(g, aggregates);
    GraphClosed(g, aggregates);
    RegistryLegible(g, aggregates);
    forall u: Tid, k: nat, l: nat ensures !TwinReached(graph, t, u, k, l) {
      if TwinReached(graph, t, u, k, l) {
        var walk :| LeadsTo(graph, t, walk, u, graph.next(u)[k].target);
        EndsInGraph(graph, t, walk);
      }
    }
    PathsDistinctIff(graph, t);
    RecordsDistinctIff(graph, t);
  }

  /** With proper names, no edge twice at any type, no root twice and no edge name at two roots, nothing in the
      list occurs twice. */
  lemma DistinctEdgesAndRootsSuffice(g: Registry, aggregates: seq<(Tid, Tid)>, roots: seq<Tid>)
    requires g.Closed(aggregates) && ProperNames(g) && forall t :: t in roots ==> t in g.types
    requires forall u :: u in g.types ==> Distinct(Edges(g, aggregates, u))
    requires Distinct(roots)
    requires forall i, j :: 0 <= i < j < |roots| ==> NoSharedName(GraphOf(g, aggregates), roots[i], roots[j])
    ensures GraphOf(g, aggregates).Closed() && Distinct(RecordedFromAll(GraphOf(g, aggregates), roots))
  {
    var graph := GraphOf(g, aggregates);
    GraphClosed(g, aggregates);
    RegistryLegible(g, aggregates);
    forall i | 0 <= i < |roots| ensures NoTwoAgree(graph, roots[i]) {
      assert roots[i] in roots;
      DistinctEdgesHaveNoTwins(g, aggregates, roots[i]);
    }
    forall i, j | 0 <= i < j < |roots| ensures Apart(graph, roots[i], roots[j]) {
      assert roots[i] in roots && roots[j] in roots;
      NoSharedNameMeansApart(graph, roots[i], roots[j]);
    }
    ListDistinctIff(graph, roots);
  }

  // ----- an aggregation recorded twice

  /** Where the edge of aggregation `i` is found among the edges. */
  lemma {:induction false} AggregateEdgeAt(g: Registry, t: Tid, earlier: seq<Edge>, s: seq<(Tid, Tid)>, n: nat, i: nat)
    requires i < n <= |s| && AggregateEdges(g, t, s[i]) != []
    ensures var at := |WithAggregates(g, t, earlier, s, i)|;
      var es := WithAggregates(g, t, earlier, s, n); at < |es| && [es[at]] == AggregateEdges(g, t, s[i])
  {
    if i < n - 1 { AggregateEdgeAt(g, t, earlier, s, n - 1, i); }
  }

  predicate Joins(pair: (Tid, Tid), t: Tid, u: Tid) { pair == (t, u) || pair == (u, t) }

  /** An aggregation of `t` and `u` recorded twice, in either order, gives `t` an edge to `u` twice. */
  lemma RepeatedPairGivesTwins(g: Registry, aggregates: seq<(Tid, Tid)>, i: nat, j: nat, t: Tid, u: Tid)
    returns (k: nat, l: nat)
    requires i < j < |aggregates| && t != u && Joins(aggregates[i], t, u) && Joins(aggregates[j], t, u)
    ensures TwinEdges(GraphOf(g, aggregates), t, k, l) && GraphOf(g, aggregates).next(t)[k].target == u
  {
    var attributes := WithAttributes(g, g.Attributes(t), |g.Attributes(t)|);
    var earlier := WithChildren(g, t, attributes, |g.types|);
    AggregateEdgeAt(g, t, earlier, aggregates, |aggregates|, i);
    AggregateEdgeAt(g, t, earlier, aggregates, |aggregates|, j);
    AggregateEdgeAt(g, t, earlier, aggregates, j, i);
    k, l := |WithAggregates(g, t, earlier, aggregates, i)|, |WithAggregates(g, t, earlier, aggregates, j)|;
    assert GraphOf(g, aggregates).next(t)[k] == GraphOf(g, aggregates).next(t)[l] == Edge("$" + g.Name(u), u);
  }

  /** Such a pair repeats paths in the list as soon as a root reaches one of its types before the other. */
  lemma RepeatedPair(g: Registry, aggregates: seq<(Tid, Tid)>, roots: seq<Tid>, i: nat, j: nat, t: Tid, u: Tid)
    requires g.Closed(aggregates) && forall r :: r in roots ==> r in g.types
    requires i < j < |aggregates| && t != u && Joins(aggregates[i], t, u) && Joins(aggregates[j], t, u)
    requires exists r :: r in roots && Reaches(GraphOf(g, aggregates), r, t, u)
    ensures GraphOf(g, aggregates).Closed() && !Distinct(RecordedFromAll(GraphOf(g, aggregates), roots))
  {
    var graph := GraphOf(g, aggregates);
    GraphClosed(g, aggregates);
    var r :| r in roots && Reaches(graph, r, t, u);
    var k, l := RepeatedPairGivesTwins(g, aggregates, i, j, t, u);
    assert TwinReached(graph, r, t, k, l);
    TwinRepeats(graph, r, t, k, l);
    RootRepeats(graph, roots, r);
  }

  /** Some root reaches `t` before `u`, in the graph of the recorded aggregations. */
  ghost predicate ReachedBefore(g: Registry, calls: seq<(string, string)>, roots: seq<Tid>, t: Tid, u: Tid) {
    t != u && exists r :: r in roots && Reaches(GraphOf(g, Paired(g, calls)), r, t, u)
  }

  /** Some root reaches one of two types before the other. */
  ghost predicate ReachedApart(g: Registry, calls: seq<(string, string)>, roots: seq<Tid>, pair: (Tid, Tid)) {
    exists t, u :: Joins(pair, t, u) && ReachedBefore(g, calls, roots, t, u)
  }

  /** Two equal calls leave a duplicate in the program's lists: the missing name is noted twice if there is one,
      and otherwise paths repeat as soon as a root reaches one of the two types before the other. */
  lemma RepeatedCall(g: Registry, calls: seq<(string, string)>, roots: seq<Tid>, i: nat, j: nat)
    requires i < j < |calls| && calls[i] == calls[j] && g.Closed(Paired(g, calls))
    requires forall r :: r in roots ==> r in g.types
    ensures GraphOf(g, Paired(g, calls)).Closed()
    ensures NoteOf(g, calls[i]).Some? ==> !Distinct(Noted(g, calls))
    ensures PairOf(g, calls[i]).Some? && ReachedApart(g, calls, roots, PairOf(g, calls[i]).value) ==>
      !Distinct(RecordedFromAll(GraphOf(g, Paired(g, calls)), roots))
  {
    GraphClosed(g, Paired(g, calls));
    if NoteOf(g, calls[i]).Some? {
      NotedDistinctIff(g, calls);
    } else {
      var k, l := PairedTwice(g, calls, i, j);
      if ReachedApart(g, calls, roots, PairOf(g, calls[i]).value) {
        var t, u :| Joins(PairOf(g, calls[i]).value, t, u) && ReachedBefore(g, calls, roots, t, u);
        RepeatedPair(g, Paired(g, calls), roots, k, l, t, u);
      }
    }
  }

  lemma PairedTwice(g: Registry, calls: seq<(string, string)>, i: nat, j: nat) returns (k: nat, l: nat)
    requires i < j < |calls| && calls[i] == calls[j] && PairOf(g, calls[i]).Some?
    ensures var pairs := Paired(g, calls); k < l < |pairs| && pairs[k] == pairs[l] == PairOf(g, calls[i]).value
  {
    var f, pair := (call: (string, string)) => PairOf(g, call), PairOf(g, calls[i]).value;
    var before, after := calls[..j], calls[j..];
    assert calls == before + after && before[i] == after[0] == calls[i];
    CollectConcat(f, before, after);
    CollectMembers(f, before, pair);
    CollectMembers(f, after, pair);
    k :| 0 <= k < |Collect(f, before)| && Collect(f, before)[k] == pair;
    var m :| 0 <= m < |Collect(f, after)| && Collect(f, after)[m] == pair;
    l := |Collect(f, before)| + m;
  }

  /** What the calls record keeps the registry closed. */
  lemma RegisteredPairs(g: Registry, calls: seq<(string, string)>)
    requires g.Closed([])
    ensures g.Closed(Paired(g, calls))
  {
    forall pair | pair in Paired(g, calls) ensures pair.0 in g.types && pair.1 in g.types {
      CollectMembers((call: (string, string)) => PairOf(g, call), calls, pair);
    }
  }

  // ----- the program's own calls

  /** Three of them, of which the first and the last are the same; the names are those of the node, of the
      address resolution protocol and of the control message protocol. */
  function NodeCalls(node: string, arp: string, icmp: string): seq<(string, string)> {
    [(node, icmp), (node, arp), (node, icmp)]
  }

  lemma {:induction false} AttributeKept(g: Registry, t: Tid, a: Attribute, e: Edge, n: nat)
    requires n <= |g.Attributes(t)| && a in g.Attributes(t)[..n] && e in AttributeEdges(g, a)
    ensures e in WithAttributes(g, g.Attributes(t), n)
  {
    if a != g.Attributes(t)[n - 1] {
      assert g.Attributes(t)[..n] == g.Attributes(t)[..n - 1] + [g.Attributes(t)[n - 1]];
      AttributeKept(g, t, a, e, n - 1);
    }
  }

  lemma {:induction false} ChildrenKeep(g: Registry, t: Tid, earlier: seq<Edge>, n: nat)
    requires n <= |g.types|
    ensures earlier <= WithChildren(g, t, earlier, n)
  {
    if n > 0 { ChildrenKeep(g, t, earlier, n - 1); }
  }

  lemma {:induction false} AggregatesKeep(g: Registry, t: Tid, earlier: seq<Edge>, s: seq<(Tid, Tid)>, n: nat)
    requires n <= |s|
    ensures earlier <= WithAggregates(g, t, earlier, s, n)
  {
    if n > 0 { AggregatesKeep(g, t, earlier, s, n - 1); }
  }

  /** The edge of an attribute is one of the edges of its type. */
  lemma AttributeEdgeFollowed(g: Registry, aggregates: seq<(Tid, Tid)>, t: Tid, a: Attribute, e: Edge)
    requires a in g.Attributes(t) && e in AttributeEdges(g, a)
    ensures e in Edges(g, aggregates, t)
  {
    var attributes := g.Attributes(t);
    assert attributes[..|attributes|] == attributes;
    AttributeKept(g, t, a, e, |attributes|);
    var earlier := WithAttributes(g, attributes, |attributes|);
    ChildrenKeep(g, t, earlier, |g.types|);
    AggregatesKeep(g, t, WithChildren(g, t, earlier, |g.types|), aggregates, |aggregates|);
  }

  ghost predicate HasItems(g: Registry, r: Tid, t: Tid) {
    exists a :: a in g.Attributes(r) && a.checker == ContainerOf(t)
  }

  /** A type with a container of `t` reaches `t` before any third type. */
  lemma ItemsAreReached(g: Registry, aggregates: seq<(Tid, Tid)>, r: Tid, t: Tid, u: Tid)
    requires HasItems(g, r, t) && u != r && u != t
    ensures Reaches(GraphOf(g, aggregates), r, t, u)
  {
    var graph := GraphOf(g, aggregates);
    var a :| a in g.Attributes(r) && a.checker == ContainerOf(t);
    AttributeEdgeFollowed(g, aggregates, r, a, Edge(a.name + "/[i]", t));
    var k :| 0 <= k < |graph.next(r)| && graph.next(r)[k] == Edge(a.name + "/[i]", t);
    ReachedInOneStep(graph, r, k, u);
  }

  /** A root other than the second type has a container of the first, a different type. */
  ghost predicate ListsItems(g: Registry, roots: seq<Tid>, pair: (Tid, Tid)) {
    pair.0 != pair.1 && exists r :: r in roots && r != pair.1 && HasItems(g, r, pair.0)
  }

  /** Whatever is registered, those calls leave a duplicate in one of the program's lists: a missing name is
      noted twice; and with both names registered, and the list of nodes among the roots, paths repeat. */
  lemma NodeCallsLeaveDuplicates(g: Registry, roots: seq<Tid>, node: string, arp: string, icmp: string)
    requires g.Closed([]) && forall r :: r in roots ==> r in g.types
    ensures var calls := NodeCalls(node, arp, icmp);
      && GraphOf(g, Paired(g, calls)).Closed()
      && (node !in g.byName || icmp !in g.byName ==> !Distinct(Noted(g, calls)))
      && (node in g.byName && icmp in g.byName && ListsItems(g, roots, (g.byName[node], g.byName[icmp])) ==>
            !Distinct(RecordedFromAll(GraphOf(g, Paired(g, calls)), roots)))
  {
    var calls := NodeCalls(node, arp, icmp);
    RegisteredPairs(g, calls);
    RepeatedCall(g, calls, roots, 0, 2);
    if node in g.byName && icmp in g.byName && ListsItems(g, roots, (g.byName[node], g.byName[icmp])) {
      var pair := (g.byName[node], g.byName[icmp]);
      assert calls[0] == (node, icmp) && PairOf(g, calls[0]) == Some(pair);
      var r :| r in roots && r != pair.1 && HasItems(g, r, pair.0);
      ItemsAreReached(g, Paired(g, calls), r, pair.0, pair.1);
      assert Joins(pair, pair.0, pair.1);
      assert ReachedBefore(g, calls, roots, pair.0, pair.1);
    }
  }
}
