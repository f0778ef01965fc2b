/** Facts about sequences that several parts of the model share: mapping and filtering under
    reordering, stable sorting, and the pigeonhole principle for duplicate-free sequences. */
module Sequences {

  datatype Option<+T> = None | Some(value: T)

  function Map<A, B>(f: A -> B, s: seq<A>): (r: seq<B>)
    ensures |r| == |s|
    ensures forall i :: 0 <= i < |s| ==> r[i] == f(s[i])
  {
    if s == [] then [] else [f(s[0])] + Map(f, s[1..])
  }

  function Filter<A>(p: A -> bool, s: seq<A>): (r: seq<A>)
    ensures |r| <= |s|
  {
    if s == [] then []
    else if p(s[0]) then [s[0]] + Filter(p, s[1..])
    else Filter(p, s[1..])
  }

  lemma {:induction false} FilterMembers<A>(p: A -> bool, s: seq<A>, x: A)
    ensures x in Filter(p, s) <==> x in s && p(x)
  {
    if s != [] {
      FilterMembers(p, s[1..], x);
    }
  }

  lemma {:induction false} MapConcat<A, B>(f: A -> B, s: seq<A>, t: seq<A>)
    ensures Map(f, s + t) == Map(f, s) + Map(f, t)
  {
  }

  lemma {:induction false} FilterConcat<A>(p: A -> bool, s: seq<A>, t: seq<A>)
    ensures Filter(p, s + t) == Filter(p, s) + Filter(p, t)
  {
    if s == [] {
      assert s + t == t;
    } else {
      assert (s + t)[1..] == s[1..] + t && (s + t)[0] == s[0];
      FilterConcat(p, s[1..], t);
    }
  }

  /** `s` without its element at position `i`. */
  function RemoveAt<A>(s: seq<A>, i: nat): (r: seq<A>)
    requires i < |s|
    ensures |r| == |s| - 1
  {
    s[..i] + s[i + 1..]
  }

  lemma RemoveAtMultiset<A>(s: seq<A>, i: nat)
    requires i < |s|
    ensures multiset(RemoveAt(s, i)) == multiset(s) - multiset{s[i]}
    ensures s == s[..i] + ([s[i]] + s[i + 1..])
  {
    assert s == s[..i] + ([s[i]] + s[i + 1..]);
  }

  lemma MapRemoveAt<A, B>(f: A -> B, s: seq<A>, i: nat)
    requires i < |s|
    ensures multiset(Map(f, s)) == multiset(Map(f, RemoveAt(s, i))) + multiset{f(s[i])}
  {
    RemoveAtMultiset(s, i);
    MapConcat(f, s[..i], [s[i]] + s[i + 1..]);
    MapConcat(f, [s[i]], s[i + 1..]);
    MapConcat(f, s[..i], s[i + 1..]);
  }

  lemma FilterRemoveAt<A>(p: A -> bool, s: seq<A>, i: nat)
    requires i < |s|
    ensures multiset(Filter(p, s))
         == multiset(Filter(p, RemoveAt(s, i))) + if p(s[i]) then multiset{s[i]} else multiset{}
  {
    RemoveAtMultiset(s, i);
    FilterConcat(p, s[..i], [s[i]] + s[i + 1..]);
    FilterConcat(p, [s[i]], s[i + 1..]);
    FilterConcat(p, s[..i], s[i + 1..]);
  }

  /** Where the head of `s` is found in a reordering, and that the rests are reorderings too. */
  lemma FindHead<A>(s: seq<A>, t: seq<A>) returns (i: nat)
    requires s != [] && multiset(s) == multiset(t)
    ensures i < |t| && t[i] == s[0] && multiset(s[1..]) == multiset(RemoveAt(t, i))
  {
    assert s == [s[0]] + s[1..];
    assert s[0] in multiset(t);
    i :| 0 <= i < |t| && t[i] == s[0];
    RemoveAtMultiset(t, i);
  }

  lemma {:induction false} MapPermuted<A, B>(f: A -> B, s: seq<A>, t: seq<A>)
    requires multiset(s) == multiset(t)
    ensures multiset(Map(f, s)) == multiset(Map(f, t))
  {
    if s == [] {
      assert |multiset(t)| == 0;
    } else {
      var i := FindHead(s, t);
      MapPermuted(f, s[1..], RemoveAt(t, i));
      MapRemoveAt(f, t, i);
    }
  }

  lemma {:induction false} FilterPermuted<A>(p: A -> bool, s: seq<A>, t: seq<A>)
    requires multiset(s) == multiset(t)
    ensures multiset(Filter(p, s)) == multiset(Filter(p, t))
  {
    if s == [] {
      assert |multiset(t)| == 0;
    } else {
      var i := FindHead(s, t);
      FilterPermuted(p, s[1..], RemoveAt(t, i));
      FilterRemoveAt(p, t, i);
    }
  }

  // ----- sorting

  ghost predicate TotalPreorder<A(!new)>(leq: (A, A) -> bool) {
    && (forall x, y :: leq(x, y) || leq(y, x))
    && (forall x, y, z :: leq(x, y) && leq(y, z) ==> leq(x, z))
  }

  ghost predicate Antisymmetric<A(!new)>(leq: (A, A) -> bool) {
    forall x, y :: leq(x, y) && leq(y, x) ==> x == y
  }

  ghost predicate SortedBy<A>(leq: (A, A) -> bool, s: seq<A>) {
    forall i, j :: 0 <= i < j < |s| ==> leq(s[i], s[j])
  }

  function Insert<A>(leq: (A, A) -> bool, x: A, s: seq<A>): (r: seq<A>)
    ensures multiset(r) == multiset{x} + multiset(s)
  {
    if s == [] then [x]
    else if leq(x, s[0]) then [x] + s
    else
      assert s == [s[0]] + s[1..];
      [s[0]] + Insert(leq, x, s[1..])
  }

  /** A sort that keeps every element; `SortSorts` says it orders them. */
  function Sort<A>(leq: (A, A) -> bool, s: seq<A>): (r: seq<A>)
    ensures multiset(r) == multiset(s)
  {
    if s == [] then []
    else
      assert s == [s[0]] + s[1..];
      Insert(leq, s[0], Sort(leq, s[1..]))
  }

  lemma {:induction false} InsertSorts<A(!new)>(leq: (A, A) -> bool, x: A, s: seq<A>)
    requires TotalPreorder(leq) && SortedBy(leq, s)
    ensures SortedBy(leq, Insert(leq, x, s))
  {
    if s != [] && !leq(x, s[0]) {
      InsertSorts(leq, x, s[1..]);
      var r := Insert(leq, x, s[1..]);
      forall k | 0 <= k < |r| ensures leq(s[0], r[k]) {
        assert r[k] in multiset(r);
        assert r[k] == x || r[k] in s[1..];
      }
    }
  }

  lemma {:induction false} SortSorts<A(!new)>(leq: (A, A) -> bool, s: seq<A>)
    requires TotalPreorder(leq)
    ensures SortedBy(leq, Sort(leq, s))
  {
    if s != [] {
      SortSorts(leq, s[1..]);
      InsertSorts(leq, s[0], Sort(leq, s[1..]));
    }
  }

  lemma TailMultiset<A>(s: seq<A>)
    requires s != []
    ensures multiset(s[1..]) == multiset(s) - multiset{s[0]} && s == [s[0]] + s[1..]
  {
    assert s == [s[0]] + s[1..];
  }

  lemma SortedHeadsAgree<A(!new)>(leq: (A, A) -> bool, s: seq<A>, t: seq<A>)
    requires TotalPreorder(leq) && Antisymmetric(leq) && s != [] && t != []
    requires SortedBy(leq, s) && SortedBy(leq, t) && multiset(s) == multiset(t)
    ensures s[0] == t[0]
  {
    assert s[0] in multiset(t) && t[0] in multiset(s);
    var i :| 0 <= i < |t| && t[i] == s[0];
    var j :| 0 <= j < |s| && s[j] == t[0];
    assert leq(s[0], s[0]) && leq(t[0], t[0]);
    assert leq(t[0], t[i]) && leq(s[0], s[j]);
  }

  /** Under a total order there is only one sorted arrangement of a multiset. */
  lemma {:induction false} SortedArrangementIsUnique<A(!new)>(leq: (A, A) -> bool, s: seq<A>, t: seq<A>)
    requires TotalPreorder(leq) && Antisymmetric(leq)
    requires SortedBy(leq, s) && SortedBy(leq, t) && multiset(s) == multiset(t)
    ensures s == t
  {
    assert |s| == |multiset(s)| == |multiset(t)| == |t|;
    if s != [] {
      SortedHeadsAgree(leq, s, t);
      TailMultiset(s);
      TailMultiset(t);
      SortedArrangementIsUnique(leq, s[1..], t[1..]);
    }
  }

  lemma SortIsCanonical<A(!new)>(leq: (A, A) -> bool, s: seq<A>, t: seq<A>)
    requires TotalPreorder(leq) && Antisymmetric(leq) && multiset(s) == multiset(t)
    ensures Sort(leq, s) == Sort(leq, t)
  {
    SortSorts(leq, s);
    SortSorts(leq, t);
    SortedArrangementIsUnique(leq, Sort(leq, s), Sort(leq, t));
  }

  // ----- pigeonhole

  ghost predicate Distinct<A>(s: seq<A>) {
    forall i, j :: 0 <= i < j < |s| ==> s[i] != s[j]
  }

  lemma DistinctConcat<A>(s: seq<A>, t: seq<A>)
    ensures Distinct(s + t) <==> Distinct(s) && Distinct(t) && forall x :: x in s ==> x !in t
  {
    var st := s + t;
    if Distinct(st) {
      forall i, j | 0 <= i < j < |s| ensures s[i] != s[j] { assert st[i] != st[j]; }
      forall i, j | 0 <= i < j < |t| ensures t[i] != t[j] { assert st[|s| + i] != st[|s| + j]; }
      forall x | x in s ensures x !in t {
        var i :| 0 <= i < |s| && s[i] == x;
        forall j | 0 <= j < |t| ensures t[j] != x { assert st[i] != st[|s| + j]; }
      }
    }
    if Distinct(s) && Distinct(t) && forall x :: x in s ==> x !in t {
      forall i, j | 0 <= i < j < |st| ensures st[i] != st[j] {
        if i < |s| <= j { assert st[i] in s && st[j] in t; }
      }
    }
  }

  /** The results of a partial function over `s`, in order. */
  function Collect<A, B>(f: A -> Option<B>, s: seq<A>): (r: seq<B>) {
    if s == [] then []
    else Collect(f, s[..|s| - 1]) + match f(s[|s| - 1]) case Some(y) => [y] case None => []
  }

  lemma {:induction false} CollectMembers<A, B>(f: A -> Option<B>, s: seq<A>, y: B)
    ensures y in Collect(f, s) <==> exists i :: 0 <= i < |s| && f(s[i]) == Some(y)
  {
    if s != [] {
      var most := s[..|s| - 1];
      CollectMembers(f, most, y);
      if y in Collect(f, most) {
        var i :| 0 <= i < |most| && f(most[i]) == Some(y);
        assert f(s[i]) == Some(y);
      }
      if i :| 0 <= i < |s| && f(s[i]) == Some(y) {
        if i < |most| { assert f(most[i]) == Some(y); }
      }
    }
  }

  lemma {:induction false} CollectConcat<A, B>(f: A -> Option<B>, s: seq<A>, t: seq<A>)
    ensures Collect(f, s + t) == Collect(f, s) + Collect(f, t)
  {
    if t == [] {
      assert s + t == s;
    } else {
      assert (s + t)[..|s + t| - 1] == s + t[..|t| - 1];
      CollectConcat(f, s, t[..|t| - 1]);
    }
  }

  /** No two elements give the same result. */
  ghost predicate NoneTwice<A, B>(f: A -> Option<B>, s: seq<A>) {
    forall i, j :: 0 <= i < j < |s| && f(s[i]).Some? ==> f(s[i]) != f(s[j])
  }

  lemma NoneTwiceSnoc<A, B>(f: A -> Option<B>, s: seq<A>, x: A)
    ensures NoneTwice(f, s + [x]) <==> NoneTwice(f, s) && (f(x).Some? ==> f(x).value !in Collect(f, s))
  {
    var t := s + [x];
    if f(x).Some? { CollectMembers(f, s, f(x).value); }
    if NoneTwice(f, t) {
      forall i, j | 0 <= i < j < |s| && f(s[i]).Some? ensures f(s[i]) != f(s[j]) {
        assert t[i] == s[i] && t[j] == s[j];
      }
      forall i | 0 <= i < |s| && f(x).Some? ensures f(s[i]) != f(x) {
        assert t[i] == s[i] && t[|s|] == x;
      }
    }
    if NoneTwice(f, s) && (f(x).Some? ==> f(x).value !in Collect(f, s)) {
      forall i, j | 0 <= i < j < |t| && f(t[i]).Some? ensures f(t[i]) != f(t[j]) {
        assert t[i] == s[i];
        if j < |s| { assert t[j] == s[j]; }
      }
    }
  }

  /** Nothing is collected twice exactly when no two elements give the same result. */
  lemma {:induction false} CollectDistinctIff<A, B>(f: A -> Option<B>, s: seq<A>)
    ensures Distinct(Collect(f, s)) <==> NoneTwice(f, s)
  {
    if s != [] {
      var most, x := s[..|s| - 1], s[|s| - 1];
      assert s == most + [x];
      CollectDistinctIff(f, most);
      NoneTwiceSnoc(f, most, x);
      assert Collect(f, most) + [] == Collect(f, most);
      if f(x).Some? { DistinctSnoc(Collect(f, most), f(x).value); }
    }
  }

  lemma DistinctSnoc<A>(s: seq<A>, x: A)
    ensures Distinct(s + [x]) <==> Distinct(s) && x !in s
  {
    var t := s + [x];
    if Distinct(t) {
      forall i, j | 0 <= i < j < |s| ensures s[i] != s[j] { assert t[i] != t[j]; }
      forall i | 0 <= i < |s| ensures s[i] != x { assert t[i] != t[|s|]; }
    }
  }

  ghost function Elements<A(!new)>(s: seq<A>): (r: set<A>)
    ensures forall x :: x in r <==> x in s
  {
    set x | x in s
  }

  lemma {:induction false} DistinctSize<A(!new)>(s: seq<A>)
    requires Distinct(s)
    ensures |Elements(s)| == |s|
  {
    if s != [] {
      DistinctSize(s[1..]);
      assert Elements(s) == {s[0]} + Elements(s[1..]);
    }
  }

  lemma SubsetSize<A>(a: set<A>, b: set<A>)
    requires a <= b
    ensures |a| <= |b|
  {
    assert b == a + (b - a);
  }

  /** A duplicate-free sequence over a finite set is no longer than the set. */
  lemma Pigeonhole<A(!new)>(s: seq<A>, universe: set<A>)
    requires Distinct(s) && Elements(s) <= universe
    ensures |s| <= |universe|
  {
    DistinctSize(s);
    SubsetSize(Elements(s), universe);
  }
}
