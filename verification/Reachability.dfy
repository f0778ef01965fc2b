/** Walks taken apart and put together: what can be reached from a type without passing another one, by any
    walk or, which is the same, by a simple one. */
module Reachability {
  import opened Sequences
  import opened TypeWalks

  /** The type at which a walk ends. */
  ghost function End(g: Graph, t: Tid, walk: Walk): Tid
    requires Follows(g, t, walk)
  {
    Visits(g, t, walk)[|walk|]
  }

  ghost predicate LeadsTo(g: Graph, t: Tid, walk: Walk, u: Tid, avoid: Tid) {
    Follows(g, t, walk) && End(g, t, walk) == u && avoid !in Visits(g, t, walk)
  }

  /** Some walk goes from `t` to `u` and does not pass `avoid`. */
  ghost predicate Reaches(g: Graph, t: Tid, u: Tid, avoid: Tid) {
    exists walk :: LeadsTo(g, t, walk, u, avoid)
  }

  /** One step more at the end. */
  lemma {:induction false} Append(g: Graph, t: Tid, walk: Walk, k: nat)
    requires Follows(g, t, walk) && k < |g.next(End(g, t, walk))|
    ensures var e := g.next(End(g, t, walk))[k];
      && Follows(g, t, walk + [k])
      && Visits(g, t, walk + [k]) == Visits(g, t, walk) + [e.target]
      && Labels(g, t, walk + [k]) == Labels(g, t, walk) + [e.name]
    decreases |walk|
  {
    if walk == [] {
      assert [] + [k] == [k] && [k][1..] == [];
    } else {
      var u := g.next(t)[walk[0]].target;
      assert End(g, t, walk) == End(g, u, walk[1..]);
      Append(g, u, walk[1..], k);
      assert (walk + [k])[1..] == walk[1..] + [k];
    }
  }

  lemma ReachedInOneStep(g: Graph, t: Tid, k: nat, avoid: Tid)
    requires k < |g.next(t)| && avoid != t && avoid != g.next(t)[k].target
    ensures Reaches(g, t, g.next(t)[k].target, avoid)
  {
    var walk := [] + [k];
    assert Visits(g, t, []) == [t];
    Append(g, t, [], k);
    assert Visits(g, t, walk) == [t, g.next(t)[k].target];
    assert LeadsTo(g, t, walk, g.next(t)[k].target, avoid);
  }

  lemma {:induction false} Suffix(g: Graph, t: Tid, walk: Walk, i: nat)
    requires Follows(g, t, walk) && i <= |walk|
    ensures var u := Visits(g, t, walk)[i];
      Follows(g, u, walk[i..]) && Visits(g, u, walk[i..]) == Visits(g, t, walk)[i..]
    decreases |walk|
  {
    if i == 0 {
      assert walk[0..] == walk;
    } else {
      Suffix(g, g.next(t)[walk[0]].target, walk[1..], i - 1);
      assert walk[1..][i - 1..] == walk[i..];
    }
  }

  lemma {:induction false} Prefix(g: Graph, t: Tid, walk: Walk, i: nat)
    requires Follows(g, t, walk) && i <= |walk|
    ensures Follows(g, t, walk[..i]) && Visits(g, t, walk[..i]) == Visits(g, t, walk)[..i + 1]
    ensures i < |walk| ==> var u := Visits(g, t, walk)[i];
      walk[i] < |g.next(u)| && g.next(u)[walk[i]].target == Visits(g, t, walk)[i + 1]
    decreases |walk|
  {
    if i > 0 {
      Prefix(g, g.next(t)[walk[0]].target, walk[1..], i - 1);
      assert walk[..i][1..] == walk[1..][..i - 1];
    }
  }

  lemma {:induction false} EndsInGraph(g: Graph, t: Tid, walk: Walk)
    requires g.Closed() && t in g.types && Follows(g, t, walk)
    ensures End(g, t, walk) in g.types
    decreases |walk|
  {
    if walk != [] {
      var e := g.next(t)[walk[0]];
      assert e in g.next(t);
      EndsInGraph(g, e.target, walk[1..]);
    }
  }

  lemma SimpleSuffix(g: Graph, t: Tid, walk: Walk, i: nat)
    requires Simple(g, t, [], walk) && i <= |walk|
    ensures var u := Visits(g, t, walk)[i];
      && Simple(g, u, [], walk[i..]) && End(g, u, walk[i..]) == End(g, t, walk)
      && forall x :: x in Visits(g, u, walk[i..]) ==> x in Visits(g, t, walk)
  {
    Suffix(g, t, walk, i);
    var all := Visits(g, t, walk);
    forall j, k | 0 <= j < k < |all[i..]| ensures all[i..][j] != all[i..][k] { assert all[i + j] != all[i + k]; }
  }

  /** A simple walk from `t`, given one from where a first step leads. */
  lemma WithStep(g: Graph, t: Tid, k: nat, rest: Walk) returns (short: Walk)
    requires k < |g.next(t)| && Simple(g, g.next(t)[k].target, [], rest)
    ensures Simple(g, t, [], short) && End(g, t, short) == End(g, g.next(t)[k].target, rest)
    ensures forall x :: x in Visits(g, t, short) ==> x == t || x in Visits(g, g.next(t)[k].target, rest)
  {
    var visits := Visits(g, g.next(t)[k].target, rest);
    if i :| 0 <= i < |visits| && visits[i] == t {
      SimpleSuffix(g, g.next(t)[k].target, rest, i);
      short := rest[i..];
    } else {
      short := [k] + rest;
    }
  }

  /** A walk can be shortened to a simple one through some of the same types. */
  lemma {:induction false} Shorten(g: Graph, t: Tid, walk: Walk) returns (short: Walk)
    requires Follows(g, t, walk)
    ensures Simple(g, t, [], short) && End(g, t, short) == End(g, t, walk)
    ensures forall x :: x in Visits(g, t, short) ==> x in Visits(g, t, walk)
    decreases |walk|
  {
    if walk == [] {
      short := [];
    } else {
      var rest := Shorten(g, g.next(t)[walk[0]].target, walk[1..]);
      short := WithStep(g, t, walk[0], rest);
    }
  }
}
