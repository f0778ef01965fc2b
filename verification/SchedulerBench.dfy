/** The event loop of utils/bench-scheduler.cc: every executed event schedules another one, until the
    wanted number has been executed. Any scheduler that hands out an earliest pending event will do. */
module SchedulerBench {

  ghost predicate Nondecreasing(times: seq<nat>) {
    forall i, j :: 0 <= i < j < |times| ==> times[i] <= times[j]
  }

  ghost predicate NoneBefore(pending: multiset<nat>, now: nat) {
    forall t :: t in pending ==> now <= t
  }

  lemma {:induction false} EarliestExists(pending: multiset<nat>) returns (t: nat)
    requires |pending| > 0
    ensures t in pending && NoneBefore(pending, t)
    decreases |pending|
  {
    var x: nat :| x in pending;
    var rest := pending - multiset{x};
    t := x;
    if |rest| > 0 {
      var y := EarliestExists(rest);
      t := if y < x then y else x;
    }
    forall u | u in pending ensures t <= u { assert u == x || u in rest; }
  }

  /** The time of event `i` of the population, scheduled at `start` with the delays from draw `first` on. */
  function EventTime(stream: nat -> nat, start: nat, first: nat, i: nat): nat { start + stream(first + i) }

  ghost predicate Drawn(stream: nat -> nat, start: nat, first: nat, n: nat, t: nat) {
    exists i: nat :: i < n && t == EventTime(stream, start, first, i)
  }

  /** The earliest time in a population of `n`. */
  ghost predicate EarliestDrawn(stream: nat -> nat, start: nat, first: nat, n: nat, t: nat) {
    Drawn(stream, start, first, n, t) && forall i: nat :: i < n ==> t <= EventTime(stream, start, first, i)
  }

  /** Exactly the times of the first `n` events are pending. */
  ghost predicate Populated(stream: nat -> nat, start: nat, first: nat, n: nat, pending: multiset<nat>) {
    && (forall t :: t in pending ==> Drawn(stream, start, first, n, t))
    && forall i: nat :: i < n ==> EventTime(stream, start, first, i) in pending
  }

  lemma PopulatedMore(stream: nat -> nat, start: nat, first: nat, n: nat, pending: multiset<nat>)
    requires Populated(stream, start, first, n, pending)
    ensures Populated(stream, start, first, n + 1, pending + multiset{EventTime(stream, start, first, n)})
  {
    var more := pending + multiset{EventTime(stream, start, first, n)};
    forall t | t in more ensures Drawn(stream, start, first, n + 1, t) {
      if t in pending {
        var i: nat :| i < n && t == EventTime(stream, start, first, i);
        assert i < n + 1;
      } else {
        assert t == EventTime(stream, start, first, n);
      }
    }
  }

  lemma FirstOfPopulation(stream: nat -> nat, start: nat, first: nat, n: nat, pending: multiset<nat>, t: nat)
    requires Populated(stream, start, first, n, pending) && t in pending && NoneBefore(pending, t)
    ensures EarliestDrawn(stream, start, first, n, t)
  {
    forall i: nat | i < n ensures t <= EventTime(stream, start, first, i) {
      assert EventTime(stream, start, first, i) in pending;
    }
  }

  /** The simulator: a clock, the times of the pending events, and a stop flag. */
  class Simulator {
    var now: nat
    var pending: multiset<nat>
    var stopped: bool
    ghost var executed: seq<nat>  // the times at which events were executed, since the last reset

    constructor ()
      ensures now == 0 && pending == multiset{} && !stopped && executed == []
    {
      now, pending, stopped, executed := 0, multiset{}, false, [];
    }

    /** No pending event is in the past, and the clock has never gone back. */
    ghost predicate Valid()
      reads this
    {
      && NoneBefore(pending, now)
      && Nondecreasing(executed)
      && (executed != [] ==> executed[|executed| - 1] == now)
    }

    method Schedule(after: nat)
      requires Valid()
      modifies `pending
      ensures Valid() && pending == old(pending) + multiset{now + after}
    {
      pending := pending + multiset{now + after};
    }

    /** Takes an earliest event and moves the clock to it. */
    method TakeNext()
      requires Valid() && |pending| > 0
      modifies `now, `pending, `executed
      ensures Valid() && now >= old(now) && now in old(pending) && pending == old(pending) - multiset{now}
      ensures NoneBefore(old(pending), now)
      ensures executed == old(executed) + [now]
    {
      ghost var least := EarliestExists(pending);
      var t :| t in pending && (forall u :: u in pending ==> t <= u);
      pending := pending - multiset{t};
      now := t;
      executed := executed + [t];
    }

    method Stop()
      modifies `stopped
      ensures stopped
    {
      stopped := true;
    }

    method Destroy()
      modifies this
      ensures Valid() && now == 0 && pending == multiset{} && !stopped && executed == []
    {
      now, pending, stopped, executed := 0, multiset{}, false, [];
    }
  }

  datatype Result = Result(pop: nat, events: nat)

  class Bench {
    const simulator: Simulator
    var population: nat
    var total: nat
    var count: nat
    var draws: nat  // how many delays have been taken from the random stream

    constructor (simulator: Simulator, population: nat, total: nat)
      ensures this.simulator == simulator && this.population == population && this.total == total && count == 0
    {
      this.simulator := simulator;
      this.population, this.total, count, draws := population, total, 0, 0;
    }

    /** The event function: executed events replace themselves until `total` have been executed. */
    method Cb(stream: nat -> nat)
      requires simulator.Valid()
      modifies this`count, this`draws, simulator`pending, simulator`stopped
      ensures simulator.Valid()
      ensures old(count) >= total ==>
        simulator.stopped && count == old(count) && draws == old(draws) && simulator.pending == old(simulator.pending)
      ensures old(count) < total ==>
        && simulator.stopped == old(simulator.stopped) && count == old(count) + 1 && draws == old(draws) + 1
        && simulator.pending == old(simulator.pending) + multiset{simulator.now + stream(old(draws))}
    {
      if count >= total {
        simulator.Stop();
        return;
      }
      var after := stream(draws);
      draws := draws + 1;
      simulator.Schedule(after);
      count := count + 1;
    }

    /** One run from an empty simulator, whatever the delays: exactly `total` events are executed,
        unless there is no population to start from, and the population is kept up throughout. */
    method Run(stream: nat -> nat) returns (r: Result, ghost times: seq<nat>)
      requires simulator.Valid() && simulator.pending == multiset{} && !simulator.stopped && simulator.executed == []
      modifies this`count, this`draws, simulator
      ensures r.pop == population
      ensures r.events == count == if population == 0 then 0 else total
      ensures draws == old(draws) + population + r.events
      ensures Nondecreasing(times)
      ensures |times| == if population == 0 then 0 else total + 1
      ensures population > 0 ==>
        EarliestDrawn(stream, old(simulator.now), old(draws), population, times[0])
      ensures simulator.Valid() && simulator.pending == multiset{} && !simulator.stopped && simulator.executed == []
    {
      count := 0;
      Populate(stream);
      ghost var start, first, initial := simulator.now, old(draws), simulator.pending;
      RunSimulator(stream);
      times := simulator.executed;
      if population > 0 { FirstOfPopulation(stream, start, first, population, initial, times[0]); }
      simulator.Destroy();
      return Result(population, count), times;
    }

    /** Schedules the initial population. */
    method Populate(stream: nat -> nat)
      requires simulator.Valid() && simulator.pending == multiset{}
      modifies this`draws, simulator`pending
      ensures simulator.Valid() && draws == old(draws) + population && |simulator.pending| == population
      ensures Populated(stream, simulator.now, old(draws), population, simulator.pending)
    {
      for i := 0 to population
        invariant simulator.Valid() && |simulator.pending| == i && draws == old(draws) + i
        invariant Populated(stream, simulator.now, old(draws), i, simulator.pending)
      {
        ScheduleNext(stream, old(draws), i);
      }
    }

    method ScheduleNext(stream: nat -> nat, ghost first: nat, ghost i: nat)
      requires simulator.Valid() && draws == first + i
      requires Populated(stream, simulator.now, first, i, simulator.pending)
      modifies this`draws, simulator`pending
      ensures simulator.Valid() && draws == first + i + 1 && |simulator.pending| == old(|simulator.pending|) + 1
      ensures Populated(stream, simulator.now, first, i + 1, simulator.pending)
    {
      ghost var pending := simulator.pending;
      var at := stream(draws);
      draws := draws + 1;
      simulator.Schedule(at);
      assert simulator.pending == pending + multiset{EventTime(stream, simulator.now, first, i)};
      PopulatedMore(stream, simulator.now, first, i, pending);
    }

    /** One iteration of the simulator's loop. */
    method ExecuteNext(stream: nat -> nat)
      requires simulator.Valid() && !simulator.stopped && |simulator.pending| > 0
      modifies this`count, this`draws, simulator
      ensures simulator.Valid() && simulator.executed == old(simulator.executed) + [simulator.now]
      ensures simulator.now in old(simulator.pending) && NoneBefore(old(simulator.pending), simulator.now)
      ensures simulator.stopped <==> old(count) >= total
      ensures count == old(count) + (if simulator.stopped then 0 else 1)
      ensures draws == old(draws) + (if simulator.stopped then 0 else 1)
      ensures |simulator.pending| == old(|simulator.pending|) - (if simulator.stopped then 1 else 0)
    {
      simulator.TakeNext();
      Cb(stream);
    }

    /** `Simulator::Run`: until stopped, or out of events. */
    method RunSimulator(stream: nat -> nat)
      requires simulator.Valid() && !simulator.stopped && count == 0 && simulator.executed == []
      requires |simulator.pending| == population
      modifies this`count, this`draws, simulator
      ensures count == if population == 0 then 0 else total
      ensures draws == old(draws) + count
      ensures simulator.Valid()
      ensures |simulator.executed| == if population == 0 then 0 else total + 1
      ensures simulator.stopped <==> population > 0
      ensures population > 0 ==> |simulator.pending| == population - 1
      ensures population > 0 ==>
        simulator.executed[0] in old(simulator.pending) && NoneBefore(old(simulator.pending), simulator.executed[0])
    {
      while |simulator.pending| > 0 && !simulator.stopped
        invariant simulator.Valid() && count <= total && draws == old(draws) + count
        invariant |simulator.pending| == if simulator.stopped then population - 1 else population
        invariant simulator.stopped ==> population > 0 && count == total
        invariant |simulator.executed| == if simulator.stopped then total + 1 else count
        invariant population == 0 ==> count == 0
        invariant if simulator.executed == [] then simulator.pending == old(simulator.pending)
          else simulator.executed[0] in old(simulator.pending)
               && NoneBefore(old(simulator.pending), simulator.executed[0])
        decreases if simulator.stopped then 0 else total - count + 1
      {
        ExecuteNext(stream);
      }
    }
  }
}
