/** What every run of the test runner keeps, when it can get stuck, how long it can last, and what
    it reports. */
module TestRunnerProofs {
  import opened Sequences
  import opened TestRunner

  // ----- where each job is

  /** How many jobs of `s` have an identity in `[lo, hi)`. */
  function Jobs(s: seq<Job>, lo: nat, hi: nat): nat {
    if s == [] then 0 else (if lo <= s[0].id < hi then 1 else 0) + Jobs(s[1..], lo, hi)
  }

  function InHand(x: Worker, lo: nat, hi: nat): nat {
    if !x.Idle? && lo <= x.job.id < hi then 1 else 0
  }

  /** How many workers hold a job with an identity in `[lo, hi)`. */
  function Held(ws: seq<Worker>, lo: nat, hi: nat): nat {
    if ws == [] then 0 else InHand(ws[0], lo, hi) + Held(ws[1..], lo, hi)
  }

  /** How often the job `id` occurs in a queue. */
  function Occurrences(s: seq<Job>, id: nat): nat { Jobs(s, id, id + 1) }

  /** How many workers hold the job `id`. */
  function Holders(ws: seq<Worker>, id: nat): nat { Held(ws, id, id + 1) }

  /** Every place a job can be: a queue, one worker's hands, or the collector. */
  function Places(s: State, lo: nat, hi: nat): nat {
    Jobs(s.input, lo, hi) + Held(s.workers, lo, hi) + Jobs(s.output, lo, hi) + Jobs(s.collected, lo, hi)
  }

  lemma {:induction false} JobsConcat(s: seq<Job>, t: seq<Job>, lo: nat, hi: nat)
    ensures Jobs(s + t, lo, hi) == Jobs(s, lo, hi) + Jobs(t, lo, hi)
  {
    if s == [] {
      assert s + t == t;
    } else {
      assert (s + t)[1..] == s[1..] + t && (s + t)[0] == s[0];
      JobsConcat(s[1..], t, lo, hi);
    }
  }

  lemma {:induction false} HeldUpdate(ws: seq<Worker>, w: nat, x: Worker, lo: nat, hi: nat)
    requires w < |ws|
    ensures Held(ws[w := x], lo, hi) + InHand(ws[w], lo, hi) == Held(ws, lo, hi) + InHand(x, lo, hi)
  {
    var us := ws[w := x];
    if w == 0 {
      assert us[1..] == ws[1..];
    } else {
      assert us[1..] == ws[1..][w - 1 := x] && us[0] == ws[0];
      HeldUpdate(ws[1..], w - 1, x, lo, hi);
    }
  }

  // ----- the invariant

  predicate Settled(c: Config, j: Job, interrupted: bool) {
    j.id < |c.specs| && (j == c.Ran(j.id) || (interrupted && j == c.Abandoned(j.id)))
  }

  predicate WorkerOk(c: Config, x: Worker, taken: int, interrupted: bool) {
    match x
    case Idle => true
    case Got(j) => j.id < taken && j.id < c.Total() && j == c.Create(j.id)
    case Running(j) => j.id < |c.specs| && j == c.Create(j.id) && !j.isSkip
    case Finished(j) => Settled(c, j, interrupted)
    case Exited(j) => |c.specs| <= j.id < taken
  }

  /** The queue is first-in first-out, so it holds the jobs created last, in order. */
  predicate QueueOk(c: Config, s: State) {
    && |s.input| <= s.created <= c.Total()
    && forall i :: 0 <= i < |s.input| ==> s.input[i] == c.Create(s.created - |s.input| + i)
  }

  predicate PhaseOk(c: Config, s: State) {
    && |s.collected| <= |c.specs| && s.joined <= c.workers == |s.workers|
    && (s.collected != [] ==> Dispatched(c, s))
    && (s.joined > 0 ==> Dispatched(c, s) && |s.collected| == |c.specs|)
    && (forall w :: 0 <= w < s.joined ==> s.workers[w].Exited?)
  }

  /** The size of `[lo, hi)` within `[0, created)`. */
  function Within(created: nat, lo: nat, hi: nat): nat {
    var top := if created < hi then created else hi;
    if lo < top then top - lo else 0
  }

  /** As many places taken in every identity range as jobs created there: one place for each job. */
  ghost predicate OnePlaceEach(s: State) {
    forall lo: nat, hi: nat :: Places(s, lo, hi) == Within(s.created, lo, hi)
  }

  predicate WorkersOk(c: Config, s: State) {
    forall w :: 0 <= w < |s.workers| ==> WorkerOk(c, s.workers[w], s.created - |s.input|, s.interrupted)
  }

  predicate ResultsOk(c: Config, s: State) {
    && (forall i :: 0 <= i < |s.output| ==> Settled(c, s.output[i], s.interrupted))
    && (forall i :: 0 <= i < |s.collected| ==> Settled(c, s.collected[i], s.interrupted))
  }

  ghost predicate Inv(c: Config, s: State) {
    QueueOk(c, s) && PhaseOk(c, s) && WorkersOk(c, s) && ResultsOk(c, s) && OnePlaceEach(s)
    && s.report == Tally(s.collected)
  }

  // ----- the summary as a function of what was collected

  function Names(v: Verdict, s: seq<Job>): seq<string> {
    Map((j: Job) => if v.Skipped? then SkipLine(j) else j.name, Filter((j: Job) => Judge(j) == v, s))
  }

  function Count(v: Verdict, s: seq<Job>): nat {
    |Filter((j: Job) => Judge(j) == v, s)|
  }

  function Tally(s: seq<Job>): Report {
    Report(Count(Passed, s), Count(Skipped, s), Count(Failed, s), Count(ValgrindError, s), Count(Crashed, s),
           Names(Skipped, s), Names(Failed, s), Names(ValgrindError, s), Names(Crashed, s))
  }

  lemma NamesSnoc(v: Verdict, s: seq<Job>, j: Job)
    ensures Count(v, s + [j]) == Count(v, s) + if Judge(j) == v then 1 else 0
    ensures Names(v, s + [j])
         == Names(v, s) + if Judge(j) == v then [if v.Skipped? then SkipLine(j) else j.name] else []
  {
    FilterConcat((j: Job) => Judge(j) == v, s, [j]);
  }

  /** The collector's loop body keeps the tally of everything collected so far. */
  lemma AbsorbTallies(s: seq<Job>, j: Job)
    ensures Absorb(Tally(s), j) == Tally(s + [j])
  {
    NamesSnoc(Passed, s, j);
    NamesSnoc(Skipped, s, j);
    NamesSnoc(Failed, s, j);
    NamesSnoc(ValgrindError, s, j);
    NamesSnoc(Crashed, s, j);
  }

  lemma {:induction false} CountsAddUp(s: seq<Job>)
    ensures Count(Interrupted, s) + Count(Skipped, s) + Count(Passed, s) + Count(Failed, s)
            + Count(ValgrindError, s) + Count(Crashed, s) == |s|
  {
    if s != [] {
      var t, j := s[..|s| - 1], s[|s| - 1];
      assert s == t + [j];
      CountsAddUp(t);
      forall v ensures Count(v, s) == Count(v, t) + if Judge(j) == v then 1 else 0 { NamesSnoc(v, t, j); }
    }
  }

  lemma TallyAccountsForAll(s: seq<Job>)
    ensures var r := Tally(s);
      r.passed + r.skipped + r.failed + r.valgrind + r.crashed + Count(Interrupted, s) == |s|
    ensures var r := Tally(s);
      |r.skippedNames| == r.skipped && |r.failedNames| == r.failed
      && |r.valgrindNames| == r.valgrind && |r.crashedNames| == r.crashed
  {
    CountsAddUp(s);
  }

  // ----- each step keeps the invariant

  lemma InitInv(c: Config)
    ensures Inv(c, Init(c))
  {
    forall lo: nat, hi: nat ensures Places(Init(c), lo, hi) == 0 {
      HeldIdle(c.workers, lo, hi);
    }
  }

  lemma {:induction false} HeldIdle(n: nat, lo: nat, hi: nat)
    ensures Held(seq(n, _ => Worker.Idle), lo, hi) == 0
  {
    if n > 0 {
      assert seq(n, _ => Worker.Idle)[1..] == seq(n - 1, _ => Worker.Idle);
      HeldIdle(n - 1, lo, hi);
    }
  }

  lemma ShipMovesOneJob(c: Config, s: State, w: nat, lo: nat, hi: nat)
    requires Enabled(c, s, Ship(w))
    ensures Places(Apply(c, s, Ship(w)), lo, hi) == Places(s, lo, hi)
  {
    HeldUpdate(s.workers, w, Idle, lo, hi);
    JobsConcat(s.output, [s.workers[w].job], lo, hi);
  }

  lemma GetMovesOneJob(c: Config, s: State, w: nat, lo: nat, hi: nat)
    requires Enabled(c, s, Get(w))
    ensures Places(Apply(c, s, Get(w)), lo, hi) == Places(s, lo, hi)
  {
    HeldUpdate(s.workers, w, Got(s.input[0]), lo, hi);
  }

  /** No step loses or duplicates a job; only `Put` makes a new one. */
  lemma StepMovesOneJob(c: Config, s: State, a: Action, lo: nat, hi: nat)
    requires Enabled(c, s, a)
    ensures Places(Apply(c, s, a), lo, hi) == Places(s, lo, hi) + if a.Put? && lo <= s.created < hi then 1 else 0
  {
    match a {
      case Put => JobsConcat(s.input, [c.Create(s.created)], lo, hi);
      case Collect => JobsConcat(s.collected, [s.output[0]], lo, hi);
      case Join =>
      case Get(w) => GetMovesOneJob(c, s, w, lo, hi);
      case Decide(w) => HeldUpdate(s.workers, w, Decision(s.workers[w].job, s.interrupted), lo, hi);
      case Execute(w) => HeldUpdate(s.workers, w, Finished(Outcome(c, s.workers[w].job)), lo, hi);
      case Ship(w) => ShipMovesOneJob(c, s, w, lo, hi);
      case Interrupt =>
    }
  }

  lemma StepKeepsQueue(c: Config, s: State, a: Action)
    requires QueueOk(c, s) && Enabled(c, s, a)
    ensures QueueOk(c, Apply(c, s, a))
  {
  }

  lemma StepKeepsWorkers(c: Config, s: State, a: Action)
    requires QueueOk(c, s) && WorkersOk(c, s) && Enabled(c, s, a)
    ensures WorkersOk(c, Apply(c, s, a))
  {
    var t := Apply(c, s, a);
    var taken := s.created - |s.input|;
    forall w | 0 <= w < |t.workers|
      ensures WorkerOk(c, t.workers[w], t.created - |t.input|, t.interrupted)
    {
      assert WorkerOk(c, s.workers[w], taken, s.interrupted);
      if a.Get? && w == a.w {
        assert s.input[0] == c.Create(taken);
      }
    }
  }

  lemma StepKeepsResults(c: Config, s: State, a: Action)
    requires QueueOk(c, s) && WorkersOk(c, s) && ResultsOk(c, s) && Enabled(c, s, a)
    ensures ResultsOk(c, Apply(c, s, a))
  {
    if a.Ship? {
      assert WorkerOk(c, s.workers[a.w], s.created - |s.input|, s.interrupted);
    }
  }

  lemma StepKeepsInv(c: Config, s: State, a: Action)
    requires Inv(c, s) && Enabled(c, s, a)
    ensures Inv(c, Apply(c, s, a))
  {
    StepKeepsQueue(c, s, a);
    StepKeepsWorkers(c, s, a);
    StepKeepsResults(c, s, a);
    StepKeepsPlaces(c, s, a);
    if a.Collect? { AbsorbTallies(s.collected, s.output[0]); }
  }

  lemma StepKeepsPlaces(c: Config, s: State, a: Action)
    requires OnePlaceEach(s) && Enabled(c, s, a)
    ensures OnePlaceEach(Apply(c, s, a))
  {
    var t := Apply(c, s, a);
    forall lo: nat, hi: nat ensures Places(t, lo, hi) == Within(t.created, lo, hi) {
      StepMovesOneJob(c, s, a, lo, hi);
      assert Places(s, lo, hi) == Within(s.created, lo, hi);
    }
  }

  lemma {:induction false} RunKeepsInv(c: Config, s: State, acts: seq<Action>)
    requires Inv(c, s) && ValidRun(c, s, acts)
    ensures Inv(c, RunFrom(c, s, acts))
    decreases |acts|
  {
    if acts != [] {
      StepKeepsInv(c, s, acts[0]);
      RunKeepsInv(c, Apply(c, s, acts[0]), acts[1..]);
    }
  }

  /** Safety over every interleaving: each job created so far is in exactly one place, nothing else
      is anywhere, and what was shipped back is the job's own result, or the abandoned job after an
      interrupt. */
  lemma EveryRunIsSafe(c: Config, acts: seq<Action>, id: nat)
    requires ValidRun(c, Init(c), acts)
    ensures var s := RunFrom(c, Init(c), acts);
      Occurrences(s.input, id) + Holders(s.workers, id) + Occurrences(s.output, id) + Occurrences(s.collected, id)
      == if id < s.created then 1 else 0
    ensures ResultsOk(c, RunFrom(c, Init(c), acts))
  {
    InitInv(c);
    RunKeepsInv(c, Init(c), acts);
    var s := RunFrom(c, Init(c), acts);
    assert Places(s, id, id + 1) == Within(s.created, id, id + 1);
  }
}
