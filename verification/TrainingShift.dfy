/** The time shift in generate-training-data.py, which attaches the next step's loss to each row by
    dropping the first time from one column and the last time from the others. */
module TrainingShift {
  import opened Sequences

  datatype Record = Record(time: int, node: int, loss: real)

  /** All records of one simulation time. */
  type Step = seq<Record>

  function Flat(steps: seq<Step>): seq<Record> {
    if steps == [] then [] else steps[0] + Flat(steps[1..])
  }

  /** A trace grouped by increasing time. */
  ghost predicate Trace(steps: seq<Step>) {
    && (forall k :: 0 <= k < |steps| ==> steps[k] != [])
    && (forall k, i :: 0 <= k < |steps| && 0 <= i < |steps[k]| ==> steps[k][i].time == steps[k][0].time)
    && (forall k, l :: 0 <= k < l < |steps| ==> steps[k][0].time < steps[l][0].time)
  }

  function Before(records: seq<Record>, end: int): seq<Record> { Filter((r: Record) => r.time < end, records) }

  function After(records: seq<Record>, start: int): seq<Record> { Filter((r: Record) => r.time > start, records) }

  /** The rows before the last time, each with the record found at the same position among the rows
      after the first time, if there is one. */
  function Shift(records: seq<Record>, start: int, end: int): (r: seq<(Record, Option<Record>)>)
    ensures |r| == |Before(records, end)|
  {
    var rows, later := Before(records, end), After(records, start);
    seq(|rows|, p requires 0 <= p < |rows| => (rows[p], NextAt(later, p)))
  }

  function NextAt(later: seq<Record>, p: nat): Option<Record> {
    if p < |later| then Some(later[p]) else None
  }

  /** The records of node 1. */
  function Mine(records: seq<Record>): seq<Record> { Filter((r: Record) => r.node == 1, records) }

  /** The first and last time at which node 1 reports; the program reads its second time too. */
  function Window(records: seq<Record>): Option<(int, int)> {
    var times := Mine(records);
    if |times| < 2 then None else Some((times[0].time, times[|times| - 1].time))
  }

  function TimeOf(step: Step): int
    requires step != []
  {
    step[0].time
  }

  /** What makes a later record the right one for a row: its loss is wanted for the row's own node ... */
  predicate SameNode(row: Record, next: Record) { row.node == next.node }

  /** ... while the mean loss of a time is the same for all of that time's records. */
  predicate AnyNode(row: Record, next: Record) { true }

  /** A row has been given a fitting record of the next time of the trace. */
  ghost predicate GivenNext(fits: (Record, Record) -> bool, steps: seq<Step>, row: Record, given: Option<Record>)
    requires Trace(steps)
  {
    && given.Some? && fits(row, given.value)
    && exists k :: 0 <= k < |steps| - 1 && row.time == TimeOf(steps[k]) && given.value.time == TimeOf(steps[k + 1])
  }

  /** The second step starts with fitting records for all of the first. */
  ghost predicate Continues(fits: (Record, Record) -> bool, a: Step, b: Step) {
    |a| <= |b| && forall i :: 0 <= i < |a| ==> fits(a[i], b[i])
  }

  /** Each step fits the one before, position by position; all have one size, but the last may be longer. */
  ghost predicate Steady(fits: (Record, Record) -> bool, steps: seq<Step>) {
    forall k :: 0 <= k < |steps| - 1 ==>
      Continues(fits, steps[k], steps[k + 1]) && (k < |steps| - 2 ==> |steps[k]| == |steps[k + 1]|)
  }

  lemma SteadyTail(fits: (Record, Record) -> bool, steps: seq<Step>)
    requires |steps| > 1
    ensures Steady(fits, steps) <==>
      Continues(fits, steps[0], steps[1]) && (|steps| > 2 ==> |steps[0]| == |steps[1]|) && Steady(fits, steps[1..])
  {
    var tail := steps[1..];
    if Steady(fits, steps) {
      assert Continues(fits, steps[0], steps[0 + 1]);
      forall k | 0 <= k < |tail| - 1
        ensures Continues(fits, tail[k], tail[k + 1]) && (k < |tail| - 2 ==> |tail[k]| == |tail[k + 1]|)
      {
        assert Continues(fits, steps[k + 1], steps[k + 1 + 1]);
      }
    }
    if Steady(fits, tail) {
      forall k | 0 < k < |steps| - 1
        ensures Continues(fits, steps[k], steps[k + 1]) && (k < |steps| - 2 ==> |steps[k]| == |steps[k + 1]|)
      {
        assert Continues(fits, tail[k - 1], tail[k - 1 + 1]);
      }
    }
  }

  lemma {:induction false} FlatConcat(a: seq<Step>, b: seq<Step>)
    ensures Flat(a + b) == Flat(a) + Flat(b)
  {
    if a == [] {
      assert a + b == b;
    } else {
      assert (a + b)[0] == a[0] && (a + b)[1..] == a[1..] + b;
      FlatConcat(a[1..], b);
    }
  }

  lemma {:induction false} FilterAll<T>(p: T -> bool, s: seq<T>)
    requires forall x :: x in s ==> p(x)
    ensures Filter(p, s) == s
  {
    if s != [] { FilterAll(p, s[1..]); }
  }

  lemma {:induction false} FilterNone<T>(p: T -> bool, s: seq<T>)
    requires forall x :: x in s ==> !p(x)
    ensures Filter(p, s) == []
  {
    if s != [] { FilterNone(p, s[1..]); }
  }

  lemma {:induction false} FlatMember(steps: seq<Step>, r: Record)
    ensures r in Flat(steps) <==> exists k :: 0 <= k < |steps| && r in steps[k]
  {
    if steps != [] {
      FlatMember(steps[1..], r);
      if k :| 0 <= k < |steps| && r in steps[k] {
        if k > 0 { assert r in steps[1..][k - 1]; }
      }
      if r in Flat(steps[1..]) {
        var k :| 0 <= k < |steps[1..]| && r in steps[1..][k];
        assert r in steps[k + 1];
      }
    }
  }

  lemma {:induction false} FlatTimes(steps: seq<Step>, r: Record)
    requires Trace(steps) && steps != [] && r in Flat(steps)
    ensures TimeOf(steps[0]) <= r.time <= TimeOf(steps[|steps| - 1])
    ensures r.time == TimeOf(steps[0]) <==> r in steps[0]
  {
    FlatMember(steps, r);
    var k :| 0 <= k < |steps| && r in steps[k];
    var i :| 0 <= i < |steps[k]| && steps[k][i] == r;
    assert r.time == TimeOf(steps[k]);
    if r in steps[0] {
      var j :| 0 <= j < |steps[0]| && steps[0][j] == r;
    }
  }

  lemma TraceParts(steps: seq<Step>)
    requires Trace(steps) && steps != []
    ensures Trace(steps[1..]) && Trace(steps[..|steps| - 1])
  {
    TraceSlice(steps, 1, |steps|);
    TraceSlice(steps, 0, |steps| - 1);
    assert steps[1..] == steps[1..|steps|] && steps[..|steps| - 1] == steps[0..|steps| - 1];
  }

  lemma TraceSlice(steps: seq<Step>, lo: nat, hi: nat)
    requires Trace(steps) && lo <= hi <= |steps|
    ensures Trace(steps[lo..hi])
  {
    var part: seq<Step> := steps[lo..hi];
    forall k, l | 0 <= k < l < |part| ensures part[k][0].time < part[l][0].time {
      assert steps[lo + k][0].time < steps[lo + l][0].time;
    }
  }

  lemma FlatSplit(steps: seq<Step>, n: nat)
    requires n <= |steps|
    ensures Flat(steps) == Flat(steps[..n]) + Flat(steps[n..])
  {
    assert steps == steps[..n] + steps[n..];
    FlatConcat(steps[..n], steps[n..]);
  }

  /** Every record of a part of the trace has the time of one of that part's steps. */
  lemma FlatPart(steps: seq<Step>, lo: nat, hi: nat, r: Record) returns (k: nat)
    requires Trace(steps) && lo <= hi <= |steps| && r in Flat(steps[lo..hi])
    ensures lo <= k < hi && r in steps[k] && r.time == TimeOf(steps[k])
  {
    FlatMember(steps[lo..hi], r);
    var j :| 0 <= j < |steps[lo..hi]| && r in steps[lo..hi][j];
    k := lo + j;
    var i :| 0 <= i < |steps[k]| && steps[k][i] == r;
  }

  lemma EarlyAndLate(steps: seq<Step>, a: nat)
    requires Trace(steps) && a < |steps|
    ensures forall r :: r in Flat(steps[0..a]) ==> r.time < TimeOf(steps[a])
    ensures forall r :: r in Flat(steps[0..a + 1]) ==> r.time <= TimeOf(steps[a])
    ensures forall r :: r in Flat(steps[a + 1..|steps|]) ==> r.time > TimeOf(steps[a])
    ensures forall r :: r in Flat(steps[a..|steps|]) ==> r.time >= TimeOf(steps[a])
  {
    forall r | r in Flat(steps[0..a]) ensures r.time < TimeOf(steps[a]) { var k := FlatPart(steps, 0, a, r); }
    forall r | r in Flat(steps[0..a + 1]) ensures r.time <= TimeOf(steps[a]) { var k := FlatPart(steps, 0, a + 1, r); }
    forall r | r in Flat(steps[a + 1..|steps|]) ensures r.time > TimeOf(steps[a]) {
      var k := FlatPart(steps, a + 1, |steps|, r);
    }
    forall r | r in Flat(steps[a..|steps|]) ensures r.time >= TimeOf(steps[a]) {
      var k := FlatPart(steps, a, |steps|, r);
    }
  }

  lemma AfterKeeps(early: seq<Record>, rest: seq<Record>, start: int)
    requires (forall r :: r in early ==> r.time <= start) && (forall r :: r in rest ==> r.time > start)
    ensures After(early + rest, start) == rest
  {
    var late := (r: Record) => r.time > start;
    FilterConcat(late, early, rest);
    FilterNone(late, early);
    FilterAll(late, rest);
  }

  lemma BeforeKeeps(kept: seq<Record>, rest: seq<Record>, end: int)
    requires (forall r :: r in kept ==> r.time < end) && (forall r :: r in rest ==> r.time >= end)
    ensures Before(kept + rest, end) == kept
  {
    var early := (r: Record) => r.time < end;
    FilterConcat(early, kept, rest);
    FilterAll(early, kept);
    FilterNone(early, rest);
  }

  /** The filter after the time of step `a` drops exactly the steps up to `a`. */
  lemma EarlyStepsDropped(steps: seq<Step>, a: nat)
    requires Trace(steps) && a < |steps|
    ensures After(Flat(steps), TimeOf(steps[a])) == Flat(steps[a + 1..])
  {
    FlatSplit(steps, a + 1);
    assert steps[..a + 1] == steps[0..a + 1] && steps[a + 1..] == steps[a + 1..|steps|];
    EarlyAndLate(steps, a);
    AfterKeeps(Flat(steps[..a + 1]), Flat(steps[a + 1..]), TimeOf(steps[a]));
  }

  /** The filter before the time of step `b` drops exactly the steps from `b` on. */
  lemma LateStepsDropped(steps: seq<Step>, b: nat)
    requires Trace(steps) && b < |steps|
    ensures Before(Flat(steps), TimeOf(steps[b])) == Flat(steps[..b])
  {
    FlatSplit(steps, b);
    assert steps[..b] == steps[0..b] && steps[b..] == steps[b..|steps|];
    EarlyAndLate(steps, b);
    BeforeKeeps(Flat(steps[..b]), Flat(steps[b..]), TimeOf(steps[b]));
  }

  /** Every row that is kept is given a fitting record of the next time. */
  ghost predicate Aligned(fits: (Record, Record) -> bool, steps: seq<Step>, rows: seq<Record>, later: seq<Record>)
    requires Trace(steps)
  {
    forall p :: 0 <= p < |rows| ==> GivenAt(fits, steps, rows, later, p)
  }

  ghost predicate GivenAt(fits: (Record, Record) -> bool, steps: seq<Step>,
                          rows: seq<Record>, later: seq<Record>, p: nat)
    requires Trace(steps) && p < |rows|
  {
    GivenNext(fits, steps, rows[p], NextAt(later, p))
  }

  lemma GivenNextTail(fits: (Record, Record) -> bool, steps: seq<Step>, row: Record, given: Option<Record>)
    requires Trace(steps) && |steps| > 1 && Trace(steps[1..])
    requires row.time >= TimeOf(steps[1])
    ensures GivenNext(fits, steps, row, given) <==> GivenNext(fits, steps[1..], row, given)
  {
    if GivenNext(fits, steps, row, given) {
      var k :| 0 <= k < |steps| - 1 && row.time == TimeOf(steps[k]) && given.value.time == TimeOf(steps[k + 1]);
      assert k > 0;
      assert steps[1..][k - 1] == steps[k] && steps[1..][k - 1 + 1] == steps[k + 1];
    }
    if GivenNext(fits, steps[1..], row, given) {
      var k :| 0 <= k < |steps[1..]| - 1
        && row.time == TimeOf(steps[1..][k]) && given.value.time == TimeOf(steps[1..][k + 1]);
      assert steps[k + 1] == steps[1..][k] && steps[k + 1 + 1] == steps[1..][k + 1];
    }
  }

  lemma GivenNextFirst(fits: (Record, Record) -> bool, steps: seq<Step>, row: Record, given: Option<Record>)
    requires Trace(steps) && |steps| > 1 && row.time == TimeOf(steps[0])
    ensures GivenNext(fits, steps, row, given) <==>
      given.Some? && fits(row, given.value) && given.value.time == TimeOf(steps[1])
  {
    if GivenNext(fits, steps, row, given) {
      var k :| 0 <= k < |steps| - 1 && row.time == TimeOf(steps[k]) && given.value.time == TimeOf(steps[k + 1]);
      assert k == 0;
    }
    assert TimeOf(steps[0 + 1]) == TimeOf(steps[1]);
  }

  lemma LaterTimes(steps: seq<Step>, p: nat)
    requires Trace(steps) && |steps| > 1 && Trace(steps[1..]) && p < |Flat(steps[1..])|
    ensures Flat(steps[1..])[p].time == TimeOf(steps[1]) <==> p < |steps[1]|
  {
    var tail := steps[1..];
    var later := Flat(tail);
    assert tail[0] == steps[1] && later == steps[1] + Flat(tail[1..]);
    if p >= |steps[1]| {
      TraceParts(tail);
      assert later[p] == Flat(tail[1..])[p - |steps[1]|];
      assert later[p] in Flat(tail[1..]);
      FlatTimes(tail[1..], later[p]);
    }
  }

  lemma FirstRowAligned(fits: (Record, Record) -> bool, steps: seq<Step>, rows: seq<Record>, p: nat)
    requires Trace(steps) && |steps| > 1 && Trace(steps[1..]) && steps[0] <= rows && p < |steps[0]|
    ensures GivenAt(fits, steps, rows, Flat(steps[1..]), p) <==> p < |steps[1]| && fits(steps[0][p], steps[1][p])
  {
    var later := Flat(steps[1..]);
    assert steps[1..][0] == steps[1] && later == steps[1] + Flat(steps[1..][1..]);
    assert rows[p] == steps[0][p];
    GivenNextFirst(fits, steps, rows[p], NextAt(later, p));
    if p < |later| { LaterTimes(steps, p); }
  }

  /** The rows of the first step are given their next records exactly when the second step continues it. */
  lemma FirstStepAligned(fits: (Record, Record) -> bool, steps: seq<Step>, rows: seq<Record>, later: seq<Record>)
    requires Trace(steps) && |steps| > 1 && Trace(steps[1..]) && steps[0] <= rows && later == Flat(steps[1..])
    ensures (forall p :: 0 <= p < |steps[0]| ==> GivenAt(fits, steps, rows, later, p))
       <==> Continues(fits, steps[0], steps[1])
  {
    forall p | 0 <= p < |steps[0]|
      ensures GivenAt(fits, steps, rows, later, p) <==> p < |steps[1]| && fits(steps[0][p], steps[1][p])
    {
      FirstRowAligned(fits, steps, rows, p);
    }
    if forall p :: 0 <= p < |steps[0]| ==> GivenAt(fits, steps, rows, later, p) {
      assert GivenAt(fits, steps, rows, later, |steps[0]| - 1);
    }
  }

  /** The shift is right for every row exactly when the steps list their nodes steadily. */
  lemma {:induction false} AlignedIff(fits: (Record, Record) -> bool, steps: seq<Step>)
    requires Trace(steps) && steps != []
    ensures Aligned(fits, steps, Flat(steps[..|steps| - 1]), Flat(steps[1..])) <==> Steady(fits, steps)
    decreases |steps|
  {
    TraceParts(steps);
    if |steps| == 1 {
      assert steps[..0] == [];
    } else {
      var tail := steps[1..];
      var n, m := |steps[0]|, |steps[1]|;
      var rows, later := Flat(steps[..|steps| - 1]), Flat(tail);
      assert steps[..|steps| - 1][1..] == tail[..|tail| - 1];
      var rowsTail, laterTail := Flat(tail[..|tail| - 1]), Flat(tail[1..]);
      assert rows == steps[0] + rowsTail && later == steps[1] + laterTail;
      AlignedIff(fits, tail);
      SteadyTail(fits, steps);
      FirstStepAligned(fits, steps, rows, later);
      if |steps| == 2 {
        assert tail[..0] == [];
      } else {
        if n == m { RestAligned(fits, steps, rowsTail, laterTail); }
        if n < m { LongStepMisaligns(fits, steps, rowsTail, laterTail); }
      }
    }
  }

  lemma TailTimes(steps: seq<Step>)
    requires Trace(steps) && |steps| > 2 && Trace(steps[1..])
    ensures var rowsTail := Flat(steps[1..][..|steps| - 2]);
      && steps[1] <= rowsTail
      && forall q :: 0 <= q < |rowsTail| ==> rowsTail[q].time >= TimeOf(steps[1])
  {
    var inner := steps[1..][..|steps| - 2];
    TraceParts(steps[1..]);
    assert inner[0] == steps[1];
    forall q | 0 <= q < |Flat(inner)| ensures Flat(inner)[q].time >= TimeOf(steps[1]) {
      assert Flat(inner)[q] in Flat(inner);
      FlatTimes(inner, Flat(inner)[q]);
    }
  }

  /** With equally long first steps, the rest of the shift is the shift of the rest. */
  lemma RestAligned(fits: (Record, Record) -> bool, steps: seq<Step>, rowsTail: seq<Record>, laterTail: seq<Record>)
    requires Trace(steps) && |steps| > 2 && Trace(steps[1..]) && |steps[0]| == |steps[1]|
    requires rowsTail == Flat(steps[1..][..|steps| - 2])
    ensures Aligned(fits, steps[1..], rowsTail, laterTail) <==>
      forall p :: |steps[0]| <= p < |steps[0] + rowsTail| ==>
        GivenAt(fits, steps, steps[0] + rowsTail, steps[1] + laterTail, p)
  {
    var n, rows, later := |steps[0]|, steps[0] + rowsTail, steps[1] + laterTail;
    TailTimes(steps);
    forall q | 0 <= q < |rowsTail|
      ensures GivenAt(fits, steps[1..], rowsTail, laterTail, q) <==> GivenAt(fits, steps, rows, later, n + q)
    {
      assert rows[n + q] == rowsTail[q] && NextAt(later, n + q) == NextAt(laterTail, q);
      GivenNextTail(fits, steps, rowsTail[q], NextAt(laterTail, q));
    }
    if Aligned(fits, steps[1..], rowsTail, laterTail) {
      forall p | n <= p < |rows| ensures GivenAt(fits, steps, rows, later, p) {
        assert GivenAt(fits, steps[1..], rowsTail, laterTail, p - n);
      }
    }
  }

  /** A second step that is too long shifts its own rows onto each other. */
  lemma LongStepMisaligns(fits: (Record, Record) -> bool, steps: seq<Step>,
                          rowsTail: seq<Record>, laterTail: seq<Record>)
    requires Trace(steps) && |steps| > 2 && Trace(steps[1..]) && |steps[0]| < |steps[1]|
    requires rowsTail == Flat(steps[1..][..|steps| - 2])
    ensures !Aligned(fits, steps, steps[0] + rowsTail, steps[1] + laterTail)
  {
    var n, rows, later := |steps[0]|, steps[0] + rowsTail, steps[1] + laterTail;
    TailTimes(steps);
    assert rows[n] == steps[1][0] && later[n] == steps[1][n];
    GivenNextTail(fits, steps, rows[n], NextAt(later, n));
    GivenNextFirst(fits, steps[1..], rows[n], NextAt(later, n));
    assert !GivenAt(fits, steps, rows, later, n);
  }

  ghost predicate ShiftRight(fits: (Record, Record) -> bool, steps: seq<Step>, start: int, end: int)
    requires Trace(steps)
  {
    var shifted := Shift(Flat(steps), start, end);
    forall p :: 0 <= p < |shifted| ==> GivenNext(fits, steps, shifted[p].0, shifted[p].1)
  }

  /** The steps after the window's end give no kept row its next record. */
  lemma EndOfWindow(fits: (Record, Record) -> bool, steps: seq<Step>, b: nat, p: nat)
    requires Trace(steps) && b < |steps| && Trace(steps[..b + 1]) && p < |Flat(steps[..b])|
    ensures GivenAt(fits, steps, Flat(steps[..b]), Flat(steps[1..]), p)
       <==> GivenAt(fits, steps[..b + 1], Flat(steps[..b]), Flat(steps[..b + 1][1..]), p)
  {
    var prefix, row := steps[..b + 1], Flat(steps[..b])[p];
    var later, inWindow := Flat(steps[1..]), Flat(prefix[1..]);
    assert steps[..b] == steps[0..b] && row in Flat(steps[0..b]);
    var at := FlatPart(steps, 0, b, row);
    FlatSplit(steps[1..], b);
    assert steps[1..][..b] == prefix[1..] && steps[1..][b..] == steps[b + 1..|steps|];
    assert later == inWindow + Flat(steps[b + 1..|steps|]);
    assert TimeOf(prefix[at]) == row.time && TimeOf(prefix[at + 1]) == TimeOf(steps[at + 1]);
    if |inWindow| <= p < |later| {
      assert later[p] in Flat(steps[b + 1..|steps|]);
      var k := FlatPart(steps, b + 1, |steps|, later[p]);
    }
  }

  /** A window that starts after the first step gives that step's rows records from too late a time. */
  lemma LateStart(fits: (Record, Record) -> bool, steps: seq<Step>, a: nat, b: nat)
    requires Trace(steps) && 0 < a <= b < |steps|
    ensures !ShiftRight(fits, steps, TimeOf(steps[a]), TimeOf(steps[b]))
  {
    EarlyStepsDropped(steps, a);
    LateStepsDropped(steps, b);
    var later := Flat(steps[a + 1..]);
    assert steps[..b][0] == steps[0] && Flat(steps[..b])[0] == steps[0][0];
    if later != [] {
      assert steps[a + 1..] == steps[a + 1..|steps|];
      var k := FlatPart(steps, a + 1, |steps|, later[0]);
      assert TimeOf(steps[1]) < TimeOf(steps[k]);
    }
    var shifted := Shift(Flat(steps), TimeOf(steps[a]), TimeOf(steps[b]));
    assert !GivenNext(fits, steps, shifted[0].0, shifted[0].1);
  }

  /** The shift over the window from step `a` to step `b` is right for every kept row exactly when the
      window starts with the trace and its steps are steady. */
  lemma ShiftRightIff(fits: (Record, Record) -> bool, steps: seq<Step>, a: nat, b: nat)
    requires Trace(steps) && a <= b < |steps|
    ensures ShiftRight(fits, steps, TimeOf(steps[a]), TimeOf(steps[b])) <==> a == 0 && Steady(fits, steps[..b + 1])
  {
    if a > 0 {
      LateStart(fits, steps, a, b);
    } else {
      var prefix := steps[..b + 1];
      EarlyStepsDropped(steps, 0);
      LateStepsDropped(steps, b);
      TraceSlice(steps, 0, b + 1);
      assert prefix == steps[0..b + 1] && prefix[..b] == steps[..b];
      AlignedIff(fits, prefix);
      var rows, later := Flat(steps[..b]), Flat(steps[1..]);
      var shifted := Shift(Flat(steps), TimeOf(steps[0]), TimeOf(steps[b]));
      forall p | 0 <= p < |rows|
        ensures GivenNext(fits, steps, shifted[p].0, shifted[p].1)
           <==> GivenAt(fits, prefix, rows, Flat(prefix[1..]), p)
      {
        EndOfWindow(fits, steps, b, p);
      }
      assert |shifted| == |rows|;
    }
  }

  // ----- the window the program chooses

  ghost predicate Reports(step: Step) { exists r :: r in step && r.node == 1 }

  /** Node 1 reports first in step `a` and last in step `b`. */
  ghost predicate ReportsFromTo(steps: seq<Step>, a: nat, b: nat) {
    && a < |steps| && b < |steps| && Reports(steps[a]) && Reports(steps[b])
    && forall k :: 0 <= k < |steps| && Reports(steps[k]) ==> a <= k <= b
  }

  lemma FlatOne(step: Step)
    ensures Flat([step]) == step
  {
    assert [step][1..] == [];
    assert step + [] == step;
  }

  lemma SilentSteps(steps: seq<Step>, lo: nat, hi: nat)
    requires Trace(steps) && lo <= hi <= |steps| && forall k :: lo <= k < hi ==> !Reports(steps[k])
    ensures Mine(Flat(steps[lo..hi])) == []
  {
    forall r | r in Flat(steps[lo..hi]) ensures r.node != 1 { var k := FlatPart(steps, lo, hi, r); }
    FilterNone((r: Record) => r.node == 1, Flat(steps[lo..hi]));
  }

  lemma StepReports(step: Step)
    requires step != [] && forall i :: 0 <= i < |step| ==> step[i].time == TimeOf(step)
    ensures var mine := Mine(step);
      && (Reports(step) ==> mine != [])
      && forall x :: x in mine ==> x.time == TimeOf(step)
  {
    var p := (x: Record) => x.node == 1;
    forall x ensures x in Filter(p, step) <==> x in step && p(x) { FilterMembers(p, step, x); }
    if x :| x in step && x.node == 1 { assert x in Filter(p, step); }
  }

  lemma MineSplit(steps: seq<Step>, n: nat)
    requires n <= |steps|
    ensures Mine(Flat(steps)) == Mine(Flat(steps[..n])) + Mine(Flat(steps[n..]))
  {
    FlatSplit(steps, n);
    FilterConcat((r: Record) => r.node == 1, Flat(steps[..n]), Flat(steps[n..]));
  }

  /** The records of node 1 begin with those of the first step in which it reports ... */
  lemma FirstReport(steps: seq<Step>, a: nat)
    requires Trace(steps) && a < |steps| && Reports(steps[a]) && forall k :: 0 <= k < a ==> !Reports(steps[k])
    ensures Mine(Flat(steps)) != [] && Mine(Flat(steps))[0].time == TimeOf(steps[a])
  {
    StepReports(steps[a]);
    MineSplit(steps, a);
    SilentSteps(steps, 0, a);
    assert steps[..a] == steps[0..a];
    var tail := steps[a..];
    MineSplit(tail, 1);
    assert tail[..1] == [steps[a]];
    FlatOne(steps[a]);
    assert Mine(Flat(steps))[0] == Mine(steps[a])[0];
  }

  /** ... and end with those of the last. */
  lemma LastReport(steps: seq<Step>, b: nat)
    requires Trace(steps) && b < |steps| && Reports(steps[b]) && forall k :: b < k < |steps| ==> !Reports(steps[k])
    ensures var mine := Mine(Flat(steps)); mine != [] && mine[|mine| - 1].time == TimeOf(steps[b])
  {
    StepReports(steps[b]);
    MineSplit(steps, b + 1);
    SilentSteps(steps, b + 1, |steps|);
    assert steps[b + 1..] == steps[b + 1..|steps|];
    var most := steps[..b + 1];
    MineSplit(most, b);
    assert most[b..] == [steps[b]];
    FlatOne(steps[b]);
    var mine, last := Mine(Flat(steps)), Mine(steps[b]);
    assert mine == Mine(Flat(most[..b])) + last;
    assert mine[|mine| - 1] == last[|last| - 1];
  }

  lemma WindowOf(steps: seq<Step>, a: nat, b: nat)
    requires Trace(steps) && ReportsFromTo(steps, a, b) && Window(Flat(steps)).Some?
    ensures a <= b && Window(Flat(steps)) == Some((TimeOf(steps[a]), TimeOf(steps[b])))
  {
    FirstReport(steps, a);
    LastReport(steps, b);
  }

  /** Every trace from which the program reads its two times has a first and a last step with node 1. */
  lemma WindowExists(steps: seq<Step>) returns (a: nat, b: nat)
    requires Trace(steps) && Window(Flat(steps)).Some?
    ensures ReportsFromTo(steps, a, b)
  {
    if forall k :: 0 <= k < |steps| ==> !Reports(steps[k]) {
      assert steps[0..|steps|] == steps;
      SilentSteps(steps, 0, |steps|);
    }
    var k :| 0 <= k < |steps| && Reports(steps[k]);
    a, b := k, k;
    while exists j :: 0 <= j < a && Reports(steps[j])
      invariant a <= k && Reports(steps[a])
      decreases a
    {
      var j :| 0 <= j < a && Reports(steps[j]);
      a := j;
    }
    while exists j :: b < j < |steps| && Reports(steps[j])
      invariant k <= b < |steps| && Reports(steps[b])
      decreases |steps| - b
    {
      var j :| b < j < |steps| && Reports(steps[j]);
      b := j;
    }
  }

  /** The whole shift. `a` and `b`, which every such trace has, are the steps in which node 1 reports first and
      last. Every row of the result carries its own node's next loss exactly when `a` is the first step and
      the steps up to `b` list the same nodes in the same order; it carries the mean loss of the next time
      exactly when `a` is the first step and the steps have one size. In both cases the last step may list
      more. */
  lemma ShiftIsRightIff(steps: seq<Step>) returns (a: nat, b: nat)
    requires Trace(steps) && Window(Flat(steps)).Some?
    ensures ReportsFromTo(steps, a, b)
    ensures var w := Window(Flat(steps)).value;
      && (ShiftRight(SameNode, steps, w.0, w.1) <==> a == 0 && Steady(SameNode, steps[..b + 1]))
      && (ShiftRight(AnyNode, steps, w.0, w.1) <==> a == 0 && Steady(AnyNode, steps[..b + 1]))
  {
    a, b := WindowExists(steps);
    WindowOf(steps, a, b);
    ShiftRightIff(SameNode, steps, a, b);
    ShiftRightIff(AnyNode, steps, a, b);
  }

  /** The records of one time, which the mean loss of that time is taken over, are those of its step; so a
      row given any record of the next time is given the mean of the next step. */
  lemma TimeGroupIsStep(steps: seq<Step>, k: nat)
    requires Trace(steps) && k < |steps|
    ensures Filter((r: Record) => r.time == TimeOf(steps[k]), Flat(steps)) == steps[k]
  {
    var sameTime := (r: Record) => r.time == TimeOf(steps[k]);
    var rest := steps[k..];
    FlatSplit(steps, k);
    assert steps[..k] == steps[0..k] && rest == steps[k..|steps|] && rest[1..] == steps[k + 1..|steps|];
    EarlyAndLate(steps, k);
    assert Flat(rest) == steps[k] + Flat(rest[1..]);
    FilterConcat(sameTime, Flat(steps[..k]), Flat(rest));
    FilterConcat(sameTime, steps[k], Flat(rest[1..]));
    FilterNone(sameTime, Flat(steps[..k]));
    FilterNone(sameTime, Flat(rest[1..]));
    FilterAll(sameTime, steps[k]);
  }

  lemma MineOfTwo(a: Record, b: Record)
    ensures Mine([a, b]) == (if a.node == 1 then [a] else []) + if b.node == 1 then [b] else []
  {
    var p := (r: Record) => r.node == 1;
    assert [a] + [b] == [a, b] && [a][1..] == [] && [b][1..] == [];
    FilterConcat(p, [a], [b]);
    assert Filter(p, [a][1..]) == [] && Filter(p, [b][1..]) == [];
  }

  /** Two nodes that change places between two steps are given each other's loss; the mean is right. */
  lemma SwappedNodesAreMixedUp(x: real, y: real)
    ensures var steps := [[Record(0, 1, x), Record(0, 2, y)], [Record(1, 2, y), Record(1, 1, x)]];
      && Trace(steps) && Window(Flat(steps)) == Some((0, 1))
      && !ShiftRight(SameNode, steps, 0, 1) && ShiftRight(AnyNode, steps, 0, 1)
  {
    var steps: seq<Step> := [[Record(0, 1, x), Record(0, 2, y)], [Record(1, 2, y), Record(1, 1, x)]];
    assert steps[0][0] in steps[0] && steps[1][1] in steps[1];
    assert Reports(steps[0]) && Reports(steps[1]) && ReportsFromTo(steps, 0, 1);
    MineSplit(steps, 1);
    FlatOne(steps[0]);
    FlatOne(steps[1]);
    assert steps[..1] == [steps[0]] && steps[1..] == [steps[1]];
    MineOfTwo(steps[0][0], steps[0][1]);
    MineOfTwo(steps[1][0], steps[1][1]);
    WindowOf(steps, 0, 1);
    var a, b := ShiftIsRightIff(steps);
    assert a == 0 && b == 1;
    assert steps[..2] == steps;
    assert !Continues(SameNode, steps[0], steps[0 + 1]);
  }
}
