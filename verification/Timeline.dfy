/** The timeline index of utils/grid.py: binary searches over data ranges and over events, and the
    window queries built on them. */
module Timeline {
  import opened Sequences

  datatype DataRange = DataRange(start: int, end: int, value: string)

  datatype Event = Event(at: int, value: string)

  /** Python's `s[lo:hi]` for bounds that are not negative. */
  function Slice<T>(s: seq<T>, lo: nat, hi: nat): seq<T> {
    var top := if hi < |s| then hi else |s|;
    if lo < top then s[lo..top] else []
  }

  // ----- ranges

  predicate Covers(r: DataRange, key: int) { r.start <= key <= r.end }

  predicate Meets(r: DataRange, start: int, end: int) { r.start <= end && start <= r.end }

  /** Sorted by start, each range well formed, no two sharing a point. */
  predicate SortedDisjoint(ranges: seq<DataRange>) {
    && (forall i :: 0 <= i < |ranges| ==> ranges[i].start <= ranges[i].end)
    && (forall i, j :: 0 <= i < j < |ranges| ==> ranges[i].end < ranges[j].start)
  }

  /** The same, but a range may start where the one before it ends. */
  predicate SortedTouching(ranges: seq<DataRange>) {
    && (forall i :: 0 <= i < |ranges| ==> ranges[i].start <= ranges[i].end)
    && (forall i, j :: 0 <= i < j < |ranges| ==> ranges[i].end <= ranges[j].start)
  }

  /** A range and a window share more than an end point. */
  predicate Overlaps(r: DataRange, start: int, end: int) { r.start < end && start < r.end }

  ghost predicate Covered(ranges: seq<DataRange>, key: int) {
    exists i :: 0 <= i < |ranges| && Covers(ranges[i], key)
  }

  /** The position of the range that covers a key, or -1: a linear scan. */
  function Scan(ranges: seq<DataRange>, key: int): (r: int)
    ensures -1 <= r < |ranges|
    ensures r >= 0 ==> Covers(ranges[r], key)
    ensures r == -1 ==> forall i :: 0 <= i < |ranges| ==> !Covers(ranges[i], key)
  {
    if ranges == [] then -1
    else if Covers(ranges[|ranges| - 1], key) then |ranges| - 1
    else Scan(ranges[..|ranges| - 1], key)
  }

  /** The ranges that meet a window, in order: a linear scan. */
  function Meeting(ranges: seq<DataRange>, start: int, end: int): seq<DataRange> {
    Filter((r: DataRange) => Meets(r, start, end), ranges)
  }

  /** A range meets a window when it starts no later than the window ends and ends no earlier than it starts. */
  lemma MeetingMembers(ranges: seq<DataRange>, start: int, end: int, r: DataRange)
    ensures r in Meeting(ranges, start, end) <==> r in ranges && r.start <= end && start <= r.end
  {
    FilterMembers((x: DataRange) => Meets(x, start, end), ranges, r);
  }

  /** What the two searches give, as the bounds of a slice. */
  function WindowBounds(n: nat, s: int, e: int): (r: (nat, nat))
    requires -1 <= s < n && -1 <= e < n
  {
    if s == -1 && e == -1 then (0, 0)
    else if s == -1 then (0, e + 1)
    else if e == -1 then (s, n)
    else (s, e + 1)
  }

  class TimelineDataRange {
    var ranges: seq<DataRange>

    constructor ()
      ensures ranges == []
    {
      ranges := [];
    }

    method AddRange(range: DataRange)
      modifies this
      ensures ranges == old(ranges) + [range]
    {
      ranges := ranges + [range];
    }

    /** A found position always covers the key; over sorted disjoint ranges the search agrees with a
        linear scan. */
    method Search(key: int) returns (r: int)
      ensures -1 <= r < |ranges|
      ensures r >= 0 ==> ranges[r].start <= key <= ranges[r].end
      ensures SortedTouching(ranges) && r == -1 ==>
        forall i :: 0 <= i < |ranges| ==> key < ranges[i].start || ranges[i].end < key
      ensures SortedTouching(ranges) ==> (r >= 0 <==> Covered(ranges, key))
      ensures SortedDisjoint(ranges) ==> r == Scan(ranges, key)
    {
      var l, u := 0, |ranges| - 1;
      while l <= u
        invariant 0 <= l <= u + 1 <= |ranges|
        invariant SortedTouching(ranges) ==> forall i :: 0 <= i < l || u < i < |ranges| ==> !Covers(ranges[i], key)
        decreases u - l
      {
        var i := (l + u) / 2;
        if key >= ranges[i].start && key <= ranges[i].end {
          if SortedDisjoint(ranges) { ScanIsUnique(ranges, key, i); }
          return i;
        } else if key < ranges[i].start {
          u := i - 1;
        } else {
          l := i + 1;
        }
      }
      return -1;
    }

    /** The bounds of the slice that `GetRanges` returns. */
    method GetRangesBounds(start: int, end: int) returns (lo: nat, hi: nat)
      ensures lo <= |ranges| && hi <= |ranges|
      ensures SortedDisjoint(ranges) ==> (lo, hi) == WindowBounds(|ranges|, Scan(ranges, start), Scan(ranges, end))
      ensures SortedTouching(ranges) && start <= end ==> TouchingBounds(ranges, start, end, lo, hi)
    {
      var s := Search(start);
      var e := Search(end);
      if SortedTouching(ranges) && start <= end {
        TouchingWindow(ranges, start, end, s, e);
      }
      if s == -1 && e == -1 {
        return 0, 0;
      } else if s == -1 {
        return 0, e + 1;
      } else if e == -1 {
        return s, |ranges|;
      } else {
        return s, e + 1;
      }
    }

    method GetRanges(start: int, end: int) returns (r: seq<DataRange>)
      ensures SortedDisjoint(ranges) ==> r == Window(ranges, start, end)
      ensures SortedTouching(ranges) && start <= end ==>
        exists lo: nat, hi: nat :: TouchingBounds(ranges, start, end, lo, hi) && r == Slice(ranges, lo, hi)
    {
      var s := Search(start);
      var e := Search(end);
      if SortedTouching(ranges) && start <= end {
        TouchingWindow(ranges, start, end, s, e);
      }
      if s == -1 && e == -1 {
        return [];
      } else if s == -1 {
        return Slice(ranges, 0, e + 1);
      } else if e == -1 {
        return Slice(ranges, s, |ranges|);
      } else {
        return Slice(ranges, s, e + 1);
      }
    }
  }

  /** The window query as a function: the slice between the two scanned positions. */
  function Window(ranges: seq<DataRange>, start: int, end: int): seq<DataRange> {
    var b := WindowBounds(|ranges|, Scan(ranges, start), Scan(ranges, end));
    Slice(ranges, b.0, b.1)
  }

  lemma Apart(ranges: seq<DataRange>, i: nat, j: nat)
    requires SortedDisjoint(ranges) && i < |ranges| && j < |ranges|
    ensures i < j ==> ranges[i].end < ranges[j].start
    ensures j < i ==> ranges[j].end < ranges[i].start
  {
  }

  lemma ScanIsUnique(ranges: seq<DataRange>, key: int, i: nat)
    requires SortedDisjoint(ranges) && i < |ranges| && Covers(ranges[i], key)
    ensures Scan(ranges, key) == i
  {
    var r := Scan(ranges, key);
    Apart(ranges, r, i);
  }

  /** What holds of the bounds of a query even where ranges touch. With an end of the window in a range,
      every range that shares more than an end point with the window lies between the bounds; all ranges
      between the bounds meet the window if both ends are in a range, and otherwise just when no range
      lies wholly on the side of the end that is in none. */
  ghost predicate TouchingBounds(ranges: seq<DataRange>, start: int, end: int, lo: nat, hi: nat) {
    var s, e, n := Covered(ranges, start), Covered(ranges, end), |ranges|;
    && (s || e ==> forall i :: 0 <= i < n && Overlaps(ranges[i], start, end) ==> lo <= i < hi <= n)
    && (!s && !e ==> lo == hi == 0)
    && (s && e ==> forall i :: lo <= i < hi && i < n ==> Meets(ranges[i], start, end))
    && (!s && e ==> n > 0 && lo == 0 < hi <= n
                    && ((forall i :: lo <= i < hi ==> Meets(ranges[i], start, end)) <==> ranges[0].end >= start))
    && (s && !e ==> n > 0 && lo < hi == n
                    && ((forall i :: lo <= i < hi ==> Meets(ranges[i], start, end)) <==> ranges[n - 1].start <= end))
  }

  /** Any two positions that cover the ends give such bounds. */
  lemma TouchingWindow(ranges: seq<DataRange>, start: int, end: int, s: int, e: int)
    requires SortedTouching(ranges) && start <= end && -1 <= s < |ranges| && -1 <= e < |ranges|
    requires if s >= 0 then Covers(ranges[s], start) else !Covered(ranges, start)
    requires if e >= 0 then Covers(ranges[e], end) else !Covered(ranges, end)
    ensures var b := WindowBounds(|ranges|, s, e); TouchingBounds(ranges, start, end, b.0, b.1)
  {
    var b := WindowBounds(|ranges|, s, e);
    if s >= 0 || e >= 0 {
      forall i | b.0 <= i < b.1 && i < |ranges| { BetweenBounds(ranges, start, end, s, e, i); }
      assert s == -1 ==> b.0 == 0 < b.1;
      assert e == -1 ==> b.0 <= |ranges| - 1 < b.1;
    }
  }

  lemma BetweenBounds(ranges: seq<DataRange>, start: int, end: int, s: int, e: int, i: nat)
    requires SortedTouching(ranges) && -1 <= s < |ranges| && -1 <= e < |ranges| && (s >= 0 || e >= 0)
    requires (s >= 0 ==> Covers(ranges[s], start)) && (e >= 0 ==> Covers(ranges[e], end))
    requires var b := WindowBounds(|ranges|, s, e); b.0 <= i < b.1 && i < |ranges|
    ensures if s >= 0 then ranges[i].end >= start else ranges[i].end >= ranges[0].end
    ensures if e >= 0 then ranges[i].start <= end else ranges[i].start <= ranges[|ranges| - 1].start
  {
  }

  /** Over sorted disjoint ranges, those that meet a window are contiguous. */
  lemma {:induction false} MeetingIsSlice(ranges: seq<DataRange>, start: int, end: int, lo: nat, hi: nat)
    requires lo <= hi <= |ranges|
    requires forall i :: 0 <= i < |ranges| ==> (Meets(ranges[i], start, end) <==> lo <= i < hi)
    ensures Meeting(ranges, start, end) == ranges[lo..hi]
  {
    if ranges != [] {
      var rest := ranges[1..];
      var l, h := if lo > 0 then lo - 1 else 0, if hi > 0 then hi - 1 else 0;
      forall i | 0 <= i < |rest| ensures Meets(rest[i], start, end) <==> l <= i < h {
        assert rest[i] == ranges[i + 1];
      }
      MeetingIsSlice(rest, start, end, l, h);
      assert Meets(ranges[0], start, end) <==> lo == 0 < hi;
    }
  }

  /** When both ends of the window fall in ranges, the query returns exactly the ranges that meet it. */
  lemma WindowExact(ranges: seq<DataRange>, start: int, end: int)
    requires SortedDisjoint(ranges) && start <= end
    requires Scan(ranges, start) >= 0 && Scan(ranges, end) >= 0
    ensures Window(ranges, start, end) == Meeting(ranges, start, end)
  {
    var s, e := Scan(ranges, start), Scan(ranges, end);
    Apart(ranges, e, s);
    forall i | 0 <= i < |ranges| ensures Meets(ranges[i], start, end) <==> s <= i < e + 1 {
      Apart(ranges, i, s);
      Apart(ranges, i, e);
    }
    MeetingIsSlice(ranges, start, end, s, e + 1);
  }

  lemma InSlice<T>(s: seq<T>, lo: nat, hi: nat, i: nat)
    requires lo <= i < hi && i < |s|
    ensures s[i] in Slice(s, lo, hi)
  {
    assert Slice(s, lo, hi)[i - lo] == s[i];
  }

  /** When at least one end falls in a range, every range that meets the window is returned. */
  lemma WindowComplete(ranges: seq<DataRange>, start: int, end: int, i: nat)
    requires SortedDisjoint(ranges) && start <= end
    requires Scan(ranges, start) >= 0 || Scan(ranges, end) >= 0
    requires i < |ranges| && Meets(ranges[i], start, end)
    ensures var b := WindowBounds(|ranges|, Scan(ranges, start), Scan(ranges, end)); b.0 <= i < b.1
    ensures ranges[i] in Window(ranges, start, end)
  {
    var s, e := Scan(ranges, start), Scan(ranges, end);
    if s >= 0 { Apart(ranges, i, s); }
    if e >= 0 { Apart(ranges, i, e); }
    var b := WindowBounds(|ranges|, s, e);
    InSlice(ranges, b.0, b.1, i);
  }

  /** Exactly when the query returns the ranges that meet the window. With one end in a range, no range
      may lie wholly on the other side of the window; with neither, the window must contain no range,
      because then the query returns nothing. */
  lemma WindowExactIff(ranges: seq<DataRange>, start: int, end: int)
    requires SortedDisjoint(ranges) && start <= end
    ensures var s, e := Scan(ranges, start), Scan(ranges, end);
      Window(ranges, start, end) == Meeting(ranges, start, end) <==>
        if s >= 0 && e >= 0 then true
        else if e >= 0 then ranges[0].end >= start
        else if s >= 0 then ranges[|ranges| - 1].start <= end
        else forall i :: 0 <= i < |ranges| ==> ranges[i].end < start || end < ranges[i].start
  {
    var s, e := Scan(ranges, start), Scan(ranges, end);
    if s >= 0 && e >= 0 {
      WindowExact(ranges, start, end);
    } else if e >= 0 {
      EndOnly(ranges, start, end);
    } else if s >= 0 {
      StartOnly(ranges, start, end);
    } else {
      NeitherEnd(ranges, start, end);
    }
  }

  lemma EndOnly(ranges: seq<DataRange>, start: int, end: int)
    requires SortedDisjoint(ranges) && start <= end && Scan(ranges, start) == -1 && Scan(ranges, end) >= 0
    ensures Window(ranges, start, end) == Meeting(ranges, start, end) <==> ranges[0].end >= start
  {
    var e := Scan(ranges, end);
    if ranges[0].end >= start {
      forall i | 0 <= i < |ranges| ensures Meets(ranges[i], start, end) <==> 0 <= i < e + 1 {
        Apart(ranges, 0, i);
        Apart(ranges, i, e);
      }
      MeetingIsSlice(ranges, start, end, 0, e + 1);
    } else {
      NotMeeting(ranges, start, end, ranges[0]);
    }
  }

  lemma StartOnly(ranges: seq<DataRange>, start: int, end: int)
    requires SortedDisjoint(ranges) && start <= end && Scan(ranges, start) >= 0 && Scan(ranges, end) == -1
    ensures Window(ranges, start, end) == Meeting(ranges, start, end) <==> ranges[|ranges| - 1].start <= end
  {
    var s, n := Scan(ranges, start), |ranges|;
    if ranges[n - 1].start <= end {
      forall i | 0 <= i < n ensures Meets(ranges[i], start, end) <==> s <= i < n {
        Apart(ranges, i, n - 1);
        Apart(ranges, i, s);
      }
      MeetingIsSlice(ranges, start, end, s, n);
    } else {
      NotMeeting(ranges, start, end, ranges[n - 1]);
    }
  }

  lemma NotMeeting(ranges: seq<DataRange>, start: int, end: int, r: DataRange)
    requires !Meets(r, start, end)
    ensures r !in Meeting(ranges, start, end)
  {
    FilterMembers((x: DataRange) => Meets(x, start, end), ranges, r);
  }

  lemma NeitherEnd(ranges: seq<DataRange>, start: int, end: int)
    requires Scan(ranges, start) == -1 && Scan(ranges, end) == -1
    ensures Window(ranges, start, end) == Meeting(ranges, start, end) <==>
      forall i :: 0 <= i < |ranges| ==> ranges[i].end < start || end < ranges[i].start
  {
    var p := (x: DataRange) => Meets(x, start, end);
    if i :| 0 <= i < |ranges| && Meets(ranges[i], start, end) {
      FilterMembers(p, ranges, ranges[i]);
    } else if Meeting(ranges, start, end) != [] {
      FilterMembers(p, ranges, Meeting(ranges, start, end)[0]);
    }
  }

  /** A window that contains a range but starts and ends between ranges is answered with nothing. */
  lemma WindowAroundARangeIsEmpty(value: string)
    ensures var ranges := [DataRange(2, 3, value)];
      SortedDisjoint(ranges) && Window(ranges, 1, 4) == [] && Meeting(ranges, 1, 4) == ranges
  {
    var ranges := [DataRange(2, 3, value)];
    assert Scan(ranges, 1) == -1 && Scan(ranges, 4) == -1;
    assert ranges[1..] == [];
    assert Filter((r: DataRange) => Meets(r, 1, 4), ranges[1..]) == [];
  }

  // ----- events

  predicate StrictlyIncreasing(events: seq<Event>) {
    forall i, j :: 0 <= i < j < |events| ==> events[i].at < events[j].at
  }

  predicate Nondecreasing(events: seq<Event>) {
    forall i, j :: 0 <= i < j < |events| ==> events[i].at <= events[j].at
  }

  /** How many events come before a key: a linear scan. */
  function Earlier(events: seq<Event>, key: int): (n: nat)
    ensures n <= |events|
  {
    if events == [] then 0 else Earlier(events[..|events| - 1], key) + if events[|events| - 1].at < key then 1 else 0
  }

  lemma {:induction false} EarlierSplits(events: seq<Event>, key: int, n: nat)
    requires n <= |events|
    requires forall i :: 0 <= i < n ==> events[i].at < key
    requires forall i :: n <= i < |events| ==> events[i].at >= key
    ensures Earlier(events, key) == n
  {
    if events != [] {
      EarlierSplits(events[..|events| - 1], key, if n < |events| then n else n - 1);
    }
  }

  lemma {:induction false} EarlierMeans(events: seq<Event>, key: int)
    requires StrictlyIncreasing(events)
    ensures forall i :: 0 <= i < |events| ==> (events[i].at < key <==> i < Earlier(events, key))
  {
    if events != [] {
      var most := events[..|events| - 1];
      EarlierMeans(most, key);
      assert forall i :: 0 <= i < |most| ==> most[i] == events[i];
      assert forall i :: 0 <= i < |most| ==> most[i].at < events[|events| - 1].at;
      if events[|events| - 1].at < key {
        EarlierSplits(events, key, |events|);
      } else {
        assert Earlier(events, key) == Earlier(most, key) <= |most|;
      }
    }
  }

  class TimelineEvent {
    var events: seq<Event>

    constructor ()
      ensures events == []
    {
      events := [];
    }

    method AddEvent(event: Event)
      modifies this
      ensures events == old(events) + [event]
    {
      events := events + [event];
    }

    /** The position is that of the halving, whatever the times; `FoundIsPosition` and `FoundIsEarlier` say what
        it means when they are sorted. */
    method Search(key: int) returns (l: nat)
      ensures l == Found(events, key)
    {
      l := 0;
      var u := |events| - 1;
      while l <= u
        invariant 0 <= l <= u + 1 <= |events| && Halve(events, key, l, u) == Found(events, key)
        decreases u - l
      {
        var i := (l + u) / 2;
        if key == events[i].at {
          return i;
        } else if key < events[i].at {
          u := i - 1;
        } else {
          l := i + 1;
        }
      }
    }

    /** The upper bound may be one past the end of the list; slicing tolerates that. */
    method GetEventsBounds(start: int, end: int) returns (lo: nat, hi: nat)
      ensures lo == Found(events, start) && hi == Found(events, end) + 1
      ensures lo <= |events| && hi <= |events| + 1
      ensures Nondecreasing(events) ==> Position(events, start, lo) && Position(events, end, hi - 1)
      ensures StrictlyIncreasing(events) ==> (lo, hi) == (Earlier(events, start), Earlier(events, end) + 1)
    {
      var s := Search(start);
      var e := Search(end);
      if Nondecreasing(events) {
        FoundIsPosition(events, start);
        FoundIsPosition(events, end);
      }
      if StrictlyIncreasing(events) {
        FoundIsEarlier(events, start);
        FoundIsEarlier(events, end);
      }
      return s, e + 1;
    }

    /** The slice between the positions found; `FoundAround` says what it holds when times may repeat. */
    method GetEvents(start: int, end: int) returns (r: seq<Event>)
      ensures r == Slice(events, Found(events, start), Found(events, end) + 1)
      ensures StrictlyIncreasing(events) ==> r == EventWindow(events, start, end)
    {
      var s := Search(start);
      var e := Search(end);
      r := Slice(events, s, e + 1);
      if StrictlyIncreasing(events) {
        FoundIsEarlier(events, start);
        FoundIsEarlier(events, end);
      }
    }
  }

  /** Where the search of a key in `[l, u]` ends up. */
  function Halve(events: seq<Event>, key: int, l: nat, u: int): (r: nat)
    requires l <= u + 1 <= |events|
    ensures r <= |events|
    decreases u - l + 1
  {
    if l > u then l
    else
      var i := (l + u) / 2;
      if key == events[i].at then i
      else if key < events[i].at then Halve(events, key, l, i - 1)
      else Halve(events, key, i + 1, u)
  }

  function Found(events: seq<Event>, key: int): nat { Halve(events, key, 0, |events| - 1) }

  /** The first event looked at is the middle one, the earlier of the two middle ones for an even number. */
  lemma MiddleIsHit(events: seq<Event>, key: int)
    requires events != [] && events[(|events| - 1) / 2].at == key
    ensures Found(events, key) == (|events| - 1) / 2
  {
  }

  /** A position that separates the earlier from the later events, and is that of an event with the key if there
      is one. Which one of several depends on the halving. */
  ghost predicate Position(events: seq<Event>, key: int, l: nat) {
    && l <= |events|
    && (forall i :: 0 <= i < l ==> events[i].at <= key) && (forall i :: l <= i < |events| ==> events[i].at >= key)
    && (Occurs(events, key) ==> l < |events| && events[l].at == key)
  }

  lemma {:induction false} HalveIsPosition(events: seq<Event>, key: int, l: nat, u: int)
    requires Nondecreasing(events) && l <= u + 1 <= |events|
    requires (forall i :: 0 <= i < l ==> events[i].at < key) && (forall i :: u < i < |events| ==> events[i].at > key)
    ensures Position(events, key, Halve(events, key, l, u))
    decreases u - l + 1
  {
    if l > u {
      assert forall i :: 0 <= i < |events| ==> events[i].at != key;
    } else {
      var i := (l + u) / 2;
      if key < events[i].at {
        HalveIsPosition(events, key, l, i - 1);
      } else if key > events[i].at {
        HalveIsPosition(events, key, i + 1, u);
      }
    }
  }

  lemma FoundIsPosition(events: seq<Event>, key: int)
    requires Nondecreasing(events)
    ensures Position(events, key, Found(events, key))
  {
    HalveIsPosition(events, key, 0, |events| - 1);
  }

  /** With distinct times the position counts the earlier events, as a linear scan would. */
  lemma FoundIsEarlier(events: seq<Event>, key: int)
    requires StrictlyIncreasing(events)
    ensures Found(events, key) == Earlier(events, key)
  {
    FoundIsPosition(events, key);
    var l := Found(events, key);
    forall i | 0 <= i < l ensures events[i].at < key {
      if l < |events| { assert events[i].at < events[l].at; }
    }
    EarlierSplits(events, key, l);
  }

  /** No event in the window is outside the slice that starts at `s` and ends with `e`. */
  ghost predicate LosesNothing(events: seq<Event>, start: int, end: int, s: nat, e: nat) {
    forall i :: 0 <= i < |events| && start <= events[i].at <= end ==> s <= i <= e
  }

  /** Whatever positions the searches give, nothing is lost exactly when the first is that of the first event at
      `start` and the second that of the last event at `end`. */
  lemma KeptIff(events: seq<Event>, start: int, end: int, s: nat, e: nat)
    requires Nondecreasing(events) && start <= end && Position(events, start, s) && Position(events, end, e)
    ensures LosesNothing(events, start, end, s, e) <==>
      (s == 0 || events[s - 1].at < start) && (e + 1 >= |events| || events[e + 1].at > end)
  {
  }

  ghost predicate AtMostOnce(events: seq<Event>, key: int) {
    forall i, j :: 0 <= i < j < |events| ==> !(events[i].at == key && events[j].at == key)
  }

  /** However the searches halve, no event in the window is lost, exactly when each end of the window is the time
      of at most one event. */
  lemma NothingLostIff(events: seq<Event>, start: int, end: int)
    requires Nondecreasing(events) && start <= end
    ensures (forall s, e :: Position(events, start, s) && Position(events, end, e) ==>
              LosesNothing(events, start, end, s, e))
       <==> AtMostOnce(events, start) && AtMostOnce(events, end)
  {
    if AtMostOnce(events, start) && AtMostOnce(events, end) {
      forall s, e | Position(events, start, s) && Position(events, end, e)
        ensures LosesNothing(events, start, end, s, e)
      {
        OnceIsKept(events, start, end, s, e);
      }
    } else {
      var s, e := TwiceCanBeLost(events, start, end);
    }
  }

  lemma TwiceCanBeLost(events: seq<Event>, start: int, end: int) returns (s: nat, e: nat)
    requires Nondecreasing(events) && start <= end && !(AtMostOnce(events, start) && AtMostOnce(events, end))
    ensures Position(events, start, s) && Position(events, end, e) && !LosesNothing(events, start, end, s, e)
  {
    FoundIsPosition(events, start);
    FoundIsPosition(events, end);
    if !AtMostOnce(events, start) {
      var i, j :| 0 <= i < j < |events| && events[i].at == start == events[j].at;
      s, e := j, Found(events, end);
      assert start <= events[i].at <= end;
    } else {
      var i, j :| 0 <= i < j < |events| && events[i].at == end == events[j].at;
      s, e := Found(events, start), i;
      assert start <= events[j].at <= end;
    }
  }

  lemma OnceIsKept(events: seq<Event>, start: int, end: int, s: nat, e: nat)
    requires Nondecreasing(events) && start <= end && Position(events, start, s) && Position(events, end, e)
    requires AtMostOnce(events, start) && AtMostOnce(events, end)
    ensures LosesNothing(events, start, end, s, e)
  {
    KeptIff(events, start, end, s, e);
  }

  /** Of two events at the end of a window the second is lost. */
  lemma SecondEventIsLost(first: string, second: string)
    ensures var events := [Event(5, first), Event(5, second)];
      Nondecreasing(events) && Slice(events, Found(events, 1), Found(events, 5) + 1) == [events[0]]
      && !LosesNothing(events, 1, 5, Found(events, 1), Found(events, 5))
  {
    var events := [Event(5, first), Event(5, second)];
    assert Halve(events, 1, 0, 1) == Halve(events, 1, 0, -1) == 0 && Halve(events, 5, 0, 1) == 0;
    assert 1 <= events[1].at <= 5;
  }

  predicate Occurs(events: seq<Event>, key: int) { exists i :: 0 <= i < |events| && events[i].at == key }

  /** Nothing strictly inside the window is left out; of the events at an end of it at least one is kept, if
      there is one; and only the last event of the slice may be later than the window, when its end is no
      event time. */
  ghost predicate SliceAround(events: seq<Event>, start: int, end: int, lo: nat, hi: nat) {
    var top := if hi < |events| then hi else |events|;
    && lo <= top
    && (forall i :: 0 <= i < |events| && start < events[i].at < end ==> lo <= i < top)
    && (forall i :: lo <= i < top - 1 ==> start <= events[i].at <= end)
    && (lo < top ==> start <= events[top - 1].at && (Occurs(events, end) ==> events[top - 1].at == end))
    && (Occurs(events, start) ==> lo < top && events[lo].at == start)
    && (Occurs(events, end) ==> lo < top)
  }

  lemma PositionsInOrder(events: seq<Event>, start: int, end: int, s: nat, e: nat)
    requires start < end && Position(events, start, s) && Position(events, end, e)
    ensures s <= e
  {
    if e < |events| { assert events[e].at >= end; }
  }

  /** What the query returns when times may repeat. */
  lemma FoundAround(events: seq<Event>, start: int, end: int)
    requires Nondecreasing(events) && start <= end
    ensures SliceAround(events, start, end, Found(events, start), Found(events, end) + 1)
  {
    FoundIsPosition(events, start);
    FoundIsPosition(events, end);
    if start < end { PositionsInOrder(events, start, end, Found(events, start), Found(events, end)); }
  }

  function EventWindow(events: seq<Event>, start: int, end: int): seq<Event> {
    Slice(events, Earlier(events, start), Earlier(events, end) + 1)
  }

  function Inside(events: seq<Event>, start: int, end: int): seq<Event> {
    Filter((v: Event) => start <= v.at <= end, events)
  }

  lemma {:induction false} InsideIsSlice(events: seq<Event>, start: int, end: int, lo: nat, hi: nat)
    requires lo <= hi <= |events|
    requires forall i :: 0 <= i < |events| ==> (start <= events[i].at <= end <==> lo <= i < hi)
    ensures Inside(events, start, end) == events[lo..hi]
  {
    if events != [] {
      var rest := events[1..];
      var l, h := if lo > 0 then lo - 1 else 0, if hi > 0 then hi - 1 else 0;
      forall i | 0 <= i < |rest| ensures start <= rest[i].at <= end <==> l <= i < h {
        assert rest[i] == events[i + 1];
      }
      InsideIsSlice(rest, start, end, l, h);
      assert start <= events[0].at <= end <==> lo == 0 < hi;
    }
  }

  lemma {:induction false} EarlierMonotone(events: seq<Event>, start: int, end: int)
    requires start <= end
    ensures Earlier(events, start) <= Earlier(events, end)
  {
    if events != [] { EarlierMonotone(events[..|events| - 1], start, end); }
  }

  /** Over strictly increasing times the query returns the events in the window, followed by the first
      event after it unless `end` is itself an event time or nothing comes after. */
  lemma EventWindowIs(events: seq<Event>, start: int, end: int)
    requires StrictlyIncreasing(events) && start <= end
    ensures var e := Earlier(events, end);
      EventWindow(events, start, end)
      == Inside(events, start, end) + if e < |events| && events[e].at != end then [events[e]] else []
  {
    var s, e := Earlier(events, start), Earlier(events, end);
    EarlierMonotone(events, start, end);
    var hi := if e < |events| && events[e].at == end then e + 1 else e;
    EventsInside(events, start, end, s, e, hi);
    WindowIsSlice(events, start, end, s, e, hi);
  }

  lemma WindowIsSlice(events: seq<Event>, start: int, end: int, s: nat, e: nat, hi: nat)
    requires s <= e <= |events| && hi == if e < |events| && events[e].at == end then e + 1 else e
    requires forall i :: 0 <= i < |events| ==> (start <= events[i].at <= end <==> s <= i < hi)
    ensures Slice(events, s, e + 1)
         == Inside(events, start, end) + if e < |events| && events[e].at != end then [events[e]] else []
  {
    InsideIsSlice(events, start, end, s, hi);
  }

  lemma EventsInside(events: seq<Event>, start: int, end: int, s: nat, e: nat, hi: nat)
    requires StrictlyIncreasing(events) && start <= end && s == Earlier(events, start) && e == Earlier(events, end)
    requires hi == if e < |events| && events[e].at == end then e + 1 else e
    ensures forall i :: 0 <= i < |events| ==> (start <= events[i].at <= end <==> s <= i < hi)
  {
    EarlierMeans(events, start);
    EarlierMeans(events, end);
    EarlierMonotone(events, start, end);
    forall i | 0 <= i < |events| ensures start <= events[i].at <= end <==> s <= i < hi {
      assert e < i ==> events[e].at < events[i].at;
    }
  }

  /** The query is exact just when `end` is an event time or no event is later. */
  lemma EventWindowExactIff(events: seq<Event>, start: int, end: int)
    requires StrictlyIncreasing(events) && start <= end
    ensures EventWindow(events, start, end) == Inside(events, start, end) <==>
      (exists i :: 0 <= i < |events| && events[i].at == end) || (forall i :: 0 <= i < |events| ==> events[i].at <= end)
  {
    EventWindowIs(events, start, end);
    EarlierMeans(events, end);
    var e := Earlier(events, end);
    if e < |events| && events[e].at != end {
      assert events[e].at > end;
      forall i | 0 <= i < |events| ensures events[i].at != end {
        if i > e { assert events[e].at < events[i].at; }
      }
    }
  }

  /** A window that ends before the only event is answered with that event. */
  lemma LaterEventIsReturned(value: string)
    ensures var events := [Event(5, value)];
      StrictlyIncreasing(events) && EventWindow(events, 1, 3) == events && Inside(events, 1, 3) == []
  {
    var events := [Event(5, value)];
    EarlierSplits(events, 1, 0);
    EarlierSplits(events, 3, 0);
    InsideIsSlice(events, 1, 3, 0, 0);
  }
}
