/** Progress, termination and the final report of the test runner, over all interleavings. */
module TestRunnerRuns {
  import opened Sequences
  import opened TestRunner
  import opened TestRunnerProofs

  // ----- counting facts drawn from the invariant

  lemma {:induction false} QueueCount(c: Config, q: seq<Job>, first: nat, lo: nat, hi: nat)
    requires first + |q| <= c.Total()
    requires forall i :: 0 <= i < |q| ==> q[i] == c.Create(first + i)
    ensures Jobs(q, lo, hi) == Within(first + |q|, lo, hi) - Within(first, lo, hi)
  {
    if q != [] { QueueCount(c, q[1..], first + 1, lo, hi); }
  }

  lemma {:induction false} SettledCount(c: Config, s: seq<Job>, interrupted: bool)
    requires forall i :: 0 <= i < |s| ==> Settled(c, s[i], interrupted)
    ensures Jobs(s, 0, |c.specs|) == |s| && Jobs(s, |c.specs|, c.Total()) == 0
  {
    if s != [] { SettledCount(c, s[1..], interrupted); }
  }

  lemma {:induction false} HeldBounds(ws: seq<Worker>, lo: nat, hi: nat)
    ensures Held(ws, lo, hi) <= |ws|
    ensures Held(ws, lo, hi) == |ws| ==> forall w :: 0 <= w < |ws| ==> InHand(ws[w], lo, hi) == 1
    ensures Held(ws, lo, hi) == 0 ==> forall w :: 0 <= w < |ws| ==> InHand(ws[w], lo, hi) == 0
    ensures (forall w :: 0 <= w < |ws| ==> InHand(ws[w], lo, hi) == 0) ==> Held(ws, lo, hi) == 0
    ensures (forall w :: 0 <= w < |ws| ==> InHand(ws[w], lo, hi) == 1) ==> Held(ws, lo, hi) == |ws|
  {
    if ws != [] {
      HeldBounds(ws[1..], lo, hi);
      forall w | 1 <= w < |ws| ensures ws[w] == ws[1..][w - 1] {}
    }
  }

  /** The jobs taken from the input queue, split into real jobs and break jobs. */
  lemma TakenJobs(c: Config, s: State)
    requires Inv(c, s)
    ensures var taken := s.created - |s.input|;
      && Held(s.workers, 0, |c.specs|) + |s.output| + |s.collected| == Within(taken, 0, |c.specs|)
      && Held(s.workers, |c.specs|, c.Total()) == Within(taken, |c.specs|, c.Total())
  {
    var J, T := |c.specs|, c.Total();
    var taken := s.created - |s.input|;
    QueueCount(c, s.input, taken, 0, J);
    QueueCount(c, s.input, taken, J, T);
    SettledCount(c, s.output, s.interrupted);
    SettledCount(c, s.collected, s.interrupted);
    assert Places(s, 0, J) == Within(s.created, 0, J);
    assert Places(s, J, T) == Within(s.created, J, T);
  }

  /** Break jobs are queued last: once a worker has exited, no real job is still queued. */
  lemma ExitMeansAllTaken(c: Config, s: State, w: nat)
    requires Inv(c, s) && w < |s.workers| && s.workers[w].Exited?
    ensures forall i :: 0 <= i < |s.input| ==> s.input[i].isBreak
    ensures Jobs(s.input, 0, |c.specs|) == 0
  {
    assert WorkerOk(c, s.workers[w], s.created - |s.input|, s.interrupted);
    QueueCount(c, s.input, s.created - |s.input|, 0, |c.specs|);
  }

  // ----- progress

  ghost predicate Stuck(c: Config, s: State) {
    forall a :: Enabled(c, s, a) ==> a.Interrupt?
  }

  predicate Busy(x: Worker) { x.Got? || x.Running? || x.Finished? }

  lemma BusyMoves(c: Config, s: State, w: nat)
    requires w < |s.workers| && Busy(s.workers[w])
    ensures !Stuck(c, s)
  {
    match s.workers[w]
    case Got(_) => assert Enabled(c, s, Decide(w));
    case Running(_) => assert Enabled(c, s, Execute(w));
    case Finished(_) => assert Enabled(c, s, Ship(w));
  }

  lemma CollectorProgress(c: Config, s: State)
    requires Inv(c, s) && Dispatched(c, s) && |s.collected| < |c.specs| && s.output == [] && c.workers > 0
    requires forall w :: 0 <= w < |s.workers| ==> !Busy(s.workers[w])
    ensures !Stuck(c, s)
  {
    TakenJobs(c, s);
    HeldBounds(s.workers, 0, |c.specs|);
    var taken := s.created - |s.input|;
    assert WorkerOk(c, s.workers[0], taken, s.interrupted);
    forall w | 0 <= w < |s.workers| ensures InHand(s.workers[w], 0, |c.specs|) == 0 {
      assert WorkerOk(c, s.workers[w], taken, s.interrupted);
    }
    assert Enabled(c, s, Get(0));
  }

  lemma JoinProgress(c: Config, s: State)
    requires Inv(c, s) && Dispatched(c, s) && |s.collected| == |c.specs| && s.joined < c.workers
    requires forall w :: 0 <= w < |s.workers| ==> !Busy(s.workers[w])
    ensures !Stuck(c, s)
  {
    TakenJobs(c, s);
    HeldBounds(s.workers, |c.specs|, c.Total());
    if s.workers[s.joined].Exited? {
      assert Enabled(c, s, Join);
    } else {
      assert InHand(s.workers[s.joined], |c.specs|, c.Total()) == 0;
      assert Enabled(c, s, Get(s.joined));
    }
  }

  /** No reachable state with work left to do is stuck, provided there is a worker or no job. */
  lemma NoDeadlock(c: Config, s: State)
    requires Inv(c, s) && !Done(c, s)
    requires c.workers > 0 || c.specs == []
    ensures !Stuck(c, s)
  {
    if !Dispatched(c, s) {
      assert Enabled(c, s, Put);
    } else if exists w :: 0 <= w < |s.workers| && Busy(s.workers[w]) {
      var w :| 0 <= w < |s.workers| && Busy(s.workers[w]);
      BusyMoves(c, s, w);
    } else if |s.collected| < |c.specs| && s.output != [] {
      assert Enabled(c, s, Collect);
    } else if |s.collected| < |c.specs| {
      CollectorProgress(c, s);
    } else {
      JoinProgress(c, s);
    }
  }

  // ----- a bound on every run

  function QueueWork(q: seq<Job>): nat {
    if q == [] then 0 else (if q[0].isBreak then 2 else 5) + QueueWork(q[1..])
  }

  function WorkIn(x: Worker): nat {
    match x
    case Idle => 0
    case Got(j) => if j.isBreak then 1 else 4
    case Running(_) => 3
    case Finished(_) => 2
    case Exited(_) => 0
  }

  function HandWork(ws: seq<Worker>): nat {
    if ws == [] then 0 else WorkIn(ws[0]) + HandWork(ws[1..])
  }

  /** Steps still to come: six for each undispatched job, three for each unqueued break job, and
      less as jobs move on, one for each thread to join, and one for an interrupt. */
  function StepsLeft(c: Config, s: State): int {
    (if s.created < |c.specs| then 6 * (|c.specs| - s.created) + 3 * c.workers else 3 * (c.Total() - s.created))
    + QueueWork(s.input) + HandWork(s.workers) + |s.output| + (c.workers - s.joined) + (if s.interrupted then 0 else 1)
  }

  lemma {:induction false} QueueWorkSnoc(q: seq<Job>, j: Job)
    ensures QueueWork(q + [j]) == QueueWork(q) + if j.isBreak then 2 else 5
  {
    if q != [] {
      assert (q + [j])[1..] == q[1..] + [j];
      QueueWorkSnoc(q[1..], j);
    }
  }

  lemma {:induction false} HandWorkUpdate(ws: seq<Worker>, w: nat, x: Worker)
    requires w < |ws|
    ensures HandWork(ws[w := x]) + WorkIn(ws[w]) == HandWork(ws) + WorkIn(x)
  {
    var us := ws[w := x];
    if w == 0 {
      assert us[1..] == ws[1..];
    } else {
      assert us[1..] == ws[1..][w - 1 := x] && us[0] == ws[0];
      HandWorkUpdate(ws[1..], w - 1, x);
    }
  }

  lemma WorkerStepUsesWork(c: Config, s: State, a: Action)
    requires Enabled(c, s, a) && (a.Get? || a.Decide? || a.Execute? || a.Ship?)
    ensures StepsLeft(c, Apply(c, s, a)) < StepsLeft(c, s)
  {
    HandWorkUpdate(s.workers, a.w, Apply(c, s, a).workers[a.w]);
  }

  lemma MainStepUsesWork(c: Config, s: State, a: Action)
    requires QueueOk(c, s) && Enabled(c, s, a) && (a.Put? || a.Collect? || a.Join? || a.Interrupt?)
    ensures StepsLeft(c, Apply(c, s, a)) < StepsLeft(c, s)
  {
    if a.Put? { QueueWorkSnoc(s.input, c.Create(s.created)); }
  }

  lemma StepUsesWork(c: Config, s: State, a: Action)
    requires Inv(c, s) && Enabled(c, s, a)
    ensures 0 <= StepsLeft(c, Apply(c, s, a)) < StepsLeft(c, s)
  {
    if a.Get? || a.Decide? || a.Execute? || a.Ship? {
      WorkerStepUsesWork(c, s, a);
    } else {
      MainStepUsesWork(c, s, a);
    }
    StepKeepsInv(c, s, a);
    WorkIsLeft(c, Apply(c, s, a));
  }

  lemma WorkIsLeft(c: Config, s: State)
    requires QueueOk(c, s) && PhaseOk(c, s)
    ensures StepsLeft(c, s) >= 0
  {
  }

  lemma {:induction false} RunIsBounded(c: Config, s: State, acts: seq<Action>)
    requires Inv(c, s) && ValidRun(c, s, acts)
    ensures |acts| + StepsLeft(c, RunFrom(c, s, acts)) <= StepsLeft(c, s)
    ensures StepsLeft(c, RunFrom(c, s, acts)) >= 0
    decreases |acts|
  {
    if acts == [] {
      WorkIsLeft(c, s);
    } else {
      StepKeepsInv(c, s, acts[0]);
      StepUsesWork(c, s, acts[0]);
      RunIsBounded(c, Apply(c, s, acts[0]), acts[1..]);
    }
  }

  lemma {:induction false} HandWorkIdle(n: nat)
    ensures HandWork(seq(n, _ => Worker.Idle)) == 0
  {
    if n > 0 {
      assert seq(n, _ => Worker.Idle)[1..] == seq(n - 1, _ => Worker.Idle);
      HandWorkIdle(n - 1);
    }
  }

  /** Termination: six steps for each job and four for each worker, plus one interrupt, at most. */
  lemma EveryRunIsFinite(c: Config, acts: seq<Action>)
    requires ValidRun(c, Init(c), acts)
    ensures |acts| <= 6 * |c.specs| + 4 * c.workers + 1
  {
    InitInv(c);
    HandWorkIdle(c.workers);
    RunIsBounded(c, Init(c), acts);
  }

  lemma {:induction false} RunConcat(c: Config, s: State, acts: seq<Action>, more: seq<Action>)
    requires ValidRun(c, s, acts) && ValidRun(c, RunFrom(c, s, acts), more)
    ensures ValidRun(c, s, acts + more) && RunFrom(c, s, acts + more) == RunFrom(c, RunFrom(c, s, acts), more)
    decreases |acts|
  {
    if acts == [] {
      assert acts + more == more;
    } else {
      assert (acts + more)[1..] == acts[1..] + more && (acts + more)[0] == acts[0];
      RunConcat(c, Apply(c, s, acts[0]), acts[1..], more);
    }
  }

  /** From any state a run leads to one where only the interrupt can still happen. */
  lemma {:induction false} RunsToRest(c: Config, s: State) returns (acts: seq<Action>)
    requires Inv(c, s)
    ensures ValidRun(c, s, acts) && Stuck(c, RunFrom(c, s, acts))
    decreases StepsLeft(c, s)
  {
    acts := [];
    if !Stuck(c, s) {
      var a :| Enabled(c, s, a) && !a.Interrupt?;
      StepKeepsInv(c, s, a);
      StepUsesWork(c, s, a);
      var rest := RunsToRest(c, Apply(c, s, a));
      acts := [a] + rest;
      assert acts[1..] == rest;
    }
  }

  /** Any run, however scheduled and interrupted, can be continued to the end. */
  lemma EveryRunCanFinish(c: Config, acts: seq<Action>) returns (more: seq<Action>)
    requires ValidRun(c, Init(c), acts)
    requires c.workers > 0 || c.specs == []
    ensures ValidRun(c, Init(c), acts + more) && Done(c, RunFrom(c, Init(c), acts + more))
  {
    InitInv(c);
    RunKeepsInv(c, Init(c), acts);
    var s := RunFrom(c, Init(c), acts);
    more := RunsToRest(c, s);
    RunKeepsInv(c, s, more);
    RunConcat(c, Init(c), acts, more);
    if !Done(c, RunFrom(c, s, more)) { NoDeadlock(c, RunFrom(c, s, more)); }
  }

  /** Under any scheduler: when nothing but the signal handler can run any more, the program is at its end. */
  lemma RestIsTheEnd(c: Config, acts: seq<Action>)
    requires ValidRun(c, Init(c), acts) && Stuck(c, RunFrom(c, Init(c), acts))
    requires c.workers > 0 || c.specs == []
    ensures Done(c, RunFrom(c, Init(c), acts))
  {
    InitInv(c);
    RunKeepsInv(c, Init(c), acts);
    if !Done(c, RunFrom(c, Init(c), acts)) { NoDeadlock(c, RunFrom(c, Init(c), acts)); }
  }

  ghost predicate CanDeadlock(c: Config) {
    exists acts :: ValidRun(c, Init(c), acts) && StuckShort(c, RunFrom(c, Init(c), acts))
  }

  /** Blocked forever before the end: only the signal handler can still run. */
  ghost predicate StuckShort(c: Config, s: State) { Stuck(c, s) && !Done(c, s) }

  lemma {:induction false} NoWorkersNothingTaken(c: Config, s: State, acts: seq<Action>)
    requires c.workers == 0 && s.workers == [] && s.output == [] && s.collected == [] && ValidRun(c, s, acts)
    ensures var t := RunFrom(c, s, acts); t.workers == [] && t.output == [] && t.collected == []
    decreases |acts|
  {
    if acts != [] { NoWorkersNothingTaken(c, Apply(c, s, acts[0]), acts[1..]); }
  }

  /** The run can block forever exactly when no worker was started and there is a job to wait for. */
  lemma DeadlockIff(c: Config)
    ensures CanDeadlock(c) <==> c.workers == 0 && c.specs != []
  {
    InitInv(c);
    if c.workers == 0 && c.specs != [] {
      var acts := RunsToRest(c, Init(c));
      NoWorkersNothingTaken(c, Init(c), acts);
      assert StuckShort(c, RunFrom(c, Init(c), acts));
    }
    if CanDeadlock(c) {
      var acts :| ValidRun(c, Init(c), acts) && StuckShort(c, RunFrom(c, Init(c), acts));
      RunKeepsInv(c, Init(c), acts);
      if c.workers > 0 || c.specs == [] { NoDeadlock(c, RunFrom(c, Init(c), acts)); }
    }
  }

  /** In terms of the command line: on a machine with a processor, only a negative `--jobs` blocks. */
  lemma NegativeJobLimitDeadlocks(specs: seq<Spec>, cpus: int, processLimit: int)
    requires cpus >= 1
    ensures CanDeadlock(Config(specs, WorkerCount(cpus, processLimit))) <==> processLimit < 0 && specs != []
  {
    DeadlockIff(Config(specs, WorkerCount(cpus, processLimit)));
  }

  // ----- what the interrupt stops

  /** How many commands return in a run. */
  function Executions(acts: seq<Action>): nat {
    if acts == [] then 0 else (if acts[0].Execute? then 1 else 0) + Executions(acts[1..])
  }

  /** How many workers are in the middle of a command. */
  function RunningCount(ws: seq<Worker>): (n: nat)
    ensures n <= |ws|
  {
    if ws == [] then 0 else (if ws[0].Running? then 1 else 0) + RunningCount(ws[1..])
  }

  lemma {:induction false} RunningUpdate(ws: seq<Worker>, w: nat, x: Worker)
    requires w < |ws|
    ensures RunningCount(ws[w := x]) + (if ws[w].Running? then 1 else 0)
         == RunningCount(ws) + if x.Running? then 1 else 0
  {
    var us := ws[w := x];
    if w == 0 {
      assert us[1..] == ws[1..];
    } else {
      assert us[1..] == ws[1..][w - 1 := x] && us[0] == ws[0];
      RunningUpdate(ws[1..], w - 1, x);
    }
  }

  lemma StepAfterInterrupt(c: Config, s: State, a: Action)
    requires s.interrupted && Enabled(c, s, a)
    ensures var t := Apply(c, s, a);
      t.interrupted && RunningCount(t.workers) + (if a.Execute? then 1 else 0) == RunningCount(s.workers)
  {
    if a.Get? || a.Decide? || a.Execute? || a.Ship? {
      RunningUpdate(s.workers, a.w, Apply(c, s, a).workers[a.w]);
    }
  }

  /** No command is started once the flag is up: those that still return are those that were running. */
  lemma {:induction false} InterruptStopsWork(c: Config, s: State, acts: seq<Action>)
    requires s.interrupted && ValidRun(c, s, acts)
    ensures Executions(acts) + RunningCount(RunFrom(c, s, acts).workers) == RunningCount(s.workers)
    decreases |acts|
  {
    if acts != [] {
      StepAfterInterrupt(c, s, acts[0]);
      InterruptStopsWork(c, Apply(c, s, acts[0]), acts[1..]);
    }
  }

  /** Whenever the interrupt comes, and whatever is scheduled after it: exactly the commands running at that
      moment return before the program ends, which are no more than there are workers. */
  lemma InterruptedRunEnds(c: Config, before: seq<Action>, after: seq<Action>)
    requires ValidRun(c, Init(c), before) && !RunFrom(c, Init(c), before).interrupted
    requires var s := RunFrom(c, Init(c), before).(interrupted := true);
      ValidRun(c, s, after) && Done(c, RunFrom(c, s, after))
    ensures Executions(after) == RunningCount(RunFrom(c, Init(c), before).workers) <= c.workers
  {
    var s := RunFrom(c, Init(c), before);
    InitInv(c);
    RunKeepsInv(c, Init(c), before);
    assert Enabled(c, s, Interrupt);
    StepKeepsInv(c, s, Interrupt);
    var t := s.(interrupted := true);
    InterruptStopsWork(c, t, after);
    RunKeepsInv(c, t, after);
    var end := RunFrom(c, t, after);
    EveryWorkerTakesOneBreak(c, end);
    NoneRunning(end.workers);
  }

  lemma {:induction false} NoneRunning(ws: seq<Worker>)
    requires forall w :: 0 <= w < |ws| ==> !ws[w].Running?
    ensures RunningCount(ws) == 0
  {
    if ws != [] { NoneRunning(ws[1..]); }
  }

  // ----- the final state

  /** At the end nothing is left in a queue and every worker has consumed one break job of its own. */
  lemma EveryWorkerTakesOneBreak(c: Config, s: State)
    requires Inv(c, s) && Done(c, s)
    ensures s.input == [] && s.output == []
    ensures forall w :: 0 <= w < |s.workers| ==> s.workers[w].Exited? && |c.specs| <= s.workers[w].job.id < c.Total()
    ensures forall id :: |c.specs| <= id < c.Total() ==> Holders(s.workers, id) == 1
    ensures forall id :: 0 <= id < |c.specs| ==> Occurrences(s.collected, id) == 1
  {
    var J, T := |c.specs|, c.Total();
    var taken := s.created - |s.input|;
    TakenJobs(c, s);
    forall w | 0 <= w < |s.workers| ensures InHand(s.workers[w], J, T) == 1 {
      assert WorkerOk(c, s.workers[w], taken, s.interrupted);
    }
    HeldBounds(s.workers, J, T);
    assert s.input == [] && s.output == [];
    forall id | 0 <= id < T
      ensures if id < J then Occurrences(s.collected, id) == 1 else Holders(s.workers, id) == 1
    {
      assert Places(s, id, id + 1) == Within(s.created, id, id + 1);
      if id < J {
        HeldBounds(s.workers, id, id + 1);
      } else {
        NoneAbove(c, s.collected, s.interrupted, id);
      }
    }
  }

  lemma {:induction false} NoneAbove(c: Config, s: seq<Job>, interrupted: bool, id: nat)
    requires forall i :: 0 <= i < |s| ==> Settled(c, s[i], interrupted)
    requires id >= |c.specs|
    ensures Jobs(s, id, id + 1) == 0
  {
    if s != [] { NoneAbove(c, s[1..], interrupted, id); }
  }

  /** The first `n` jobs run one after another, without threads or interrupts. */
  function Sequential(c: Config, n: nat): seq<Job>
    requires n <= |c.specs|
  {
    if n == 0 then [] else Sequential(c, n - 1) + [c.Ran(n - 1)]
  }

  lemma {:induction false} FindJob(s: seq<Job>, id: nat) returns (i: nat)
    requires Occurrences(s, id) > 0
    ensures i < |s| && s[i].id == id
  {
    if s[0].id == id {
      i := 0;
    } else {
      i := FindJob(s[1..], id);
      i := i + 1;
    }
  }

  /** `s` holds each of the first `n` jobs once, as it runs when undisturbed. */
  ghost predicate RunOnceEach(c: Config, s: seq<Job>, n: nat) {
    && n <= |c.specs| && |s| == n
    && (forall i :: 0 <= i < |s| ==> s[i].id < n && s[i] == c.Ran(s[i].id))
    && (forall id :: 0 <= id < n ==> Occurrences(s, id) == 1)
  }

  lemma RunOnceEachBut(c: Config, s: seq<Job>, n: nat, i: nat)
    requires RunOnceEach(c, s, n) && i < |s| && s[i].id == n - 1
    ensures RunOnceEach(c, RemoveAt(s, i), n - 1)
  {
    var rest := RemoveAt(s, i);
    forall id: nat | id < n ensures Occurrences(rest, id) == if id == n - 1 then 0 else 1 {
      RemoveAtCount(s, i, id);
      assert Occurrences(s, id) == 1;
    }
    forall k | 0 <= k < |rest| ensures rest[k].id < n - 1 && rest[k] == c.Ran(rest[k].id) {
      assert rest[k] == s[if k < i then k else k + 1];
      JobCounted(rest, k);
    }
  }

  lemma {:induction false} CollectedIsSequential(c: Config, s: seq<Job>, n: nat)
    requires RunOnceEach(c, s, n)
    ensures multiset(s) == multiset(Sequential(c, n))
  {
    if n > 0 {
      assert Occurrences(s, n - 1) == 1;
      var i := FindJob(s, n - 1);
      RunOnceEachBut(c, s, n, i);
      CollectedIsSequential(c, RemoveAt(s, i), n - 1);
      TakenBack(s, i);
      assert s[i] == c.Ran(n - 1);
    }
  }

  lemma TakenBack(s: seq<Job>, i: nat)
    requires i < |s|
    ensures multiset(s) == multiset(RemoveAt(s, i)) + multiset{s[i]}
  {
    RemoveAtMultiset(s, i);
    assert s[i] in multiset(s);
  }

  lemma RemoveAtCount(s: seq<Job>, i: nat, id: nat)
    requires i < |s|
    ensures Occurrences(RemoveAt(s, i), id) == Occurrences(s, id) - if s[i].id == id then 1 else 0
  {
    JobsConcat(s[..i], s[i + 1..], id, id + 1);
    assert s == s[..i] + [s[i]] + s[i + 1..];
    JobsConcat(s[..i] + [s[i]], s[i + 1..], id, id + 1);
    JobsConcat(s[..i], [s[i]], id, id + 1);
  }

  lemma {:induction false} JobCounted(s: seq<Job>, k: nat)
    requires k < |s|
    ensures Occurrences(s, s[k].id) > 0
  {
    if k > 0 { JobCounted(s[1..], k - 1); }
  }

  // ----- the printed summary

  /** Python's order on strings. */
  predicate LexLe(a: string, b: string) {
    a == [] || (b != [] && (a[0] < b[0] || (a[0] == b[0] && LexLe(a[1..], b[1..]))))
  }

  lemma {:induction false} LexLeTotal(a: string, b: string)
    ensures LexLe(a, b) || LexLe(b, a)
    ensures LexLe(a, b) && LexLe(b, a) ==> a == b
  {
    if a != [] && b != [] {
      LexLeTotal(a[1..], b[1..]);
      assert a == [a[0]] + a[1..] && b == [b[0]] + b[1..];
    }
  }

  lemma {:induction false} LexLeTransitive(a: string, b: string, d: string)
    requires LexLe(a, b) && LexLe(b, d)
    ensures LexLe(a, d)
  {
    if a != [] && a[0] == b[0] == d[0] { LexLeTransitive(a[1..], b[1..], d[1..]); }
  }

  lemma LexLeIsTotalOrder()
    ensures TotalPreorder(LexLe) && Antisymmetric(LexLe)
  {
    forall a, b ensures (LexLe(a, b) || LexLe(b, a)) && (LexLe(a, b) && LexLe(b, a) ==> a == b) {
      LexLeTotal(a, b);
    }
    forall a, b, d | LexLe(a, b) && LexLe(b, d) ensures LexLe(a, d) {
      LexLeTransitive(a, b, d);
    }
  }

  /** The report with its name lists sorted, as printed at the end. */
  function Summary(r: Report): Report {
    r.(skippedNames := Sort(LexLe, r.skippedNames), failedNames := Sort(LexLe, r.failedNames),
       valgrindNames := Sort(LexLe, r.valgrindNames), crashedNames := Sort(LexLe, r.crashedNames))
  }

  lemma VerdictPermuted(v: Verdict, s: seq<Job>, t: seq<Job>)
    requires multiset(s) == multiset(t)
    ensures Count(v, s) == Count(v, t) && Sort(LexLe, Names(v, s)) == Sort(LexLe, Names(v, t))
  {
    var p := (j: Job) => Judge(j) == v;
    FilterPermuted(p, s, t);
    assert |Filter(p, s)| == |multiset(Filter(p, s))| == |Filter(p, t)|;
    MapPermuted((j: Job) => if v.Skipped? then SkipLine(j) else j.name, Filter(p, s), Filter(p, t));
    LexLeIsTotalOrder();
    SortIsCanonical(LexLe, Names(v, s), Names(v, t));
  }

  lemma SummaryPermuted(s: seq<Job>, t: seq<Job>)
    requires multiset(s) == multiset(t)
    ensures Summary(Tally(s)) == Summary(Tally(t))
  {
    VerdictPermuted(Passed, s, t);
    VerdictPermuted(Skipped, s, t);
    VerdictPermuted(Failed, s, t);
    VerdictPermuted(ValgrindError, s, t);
    VerdictPermuted(Crashed, s, t);
  }

  lemma CollectedAtEnd(c: Config, acts: seq<Action>)
    requires ValidRun(c, Init(c), acts)
    requires Done(c, RunFrom(c, Init(c), acts)) && !RunFrom(c, Init(c), acts).interrupted
    ensures multiset(RunFrom(c, Init(c), acts).collected) == multiset(Sequential(c, |c.specs|))
  {
    InitInv(c);
    RunKeepsInv(c, Init(c), acts);
    var s := RunFrom(c, Init(c), acts);
    EveryWorkerTakesOneBreak(c, s);
    CollectedIsSequential(c, s.collected, |c.specs|);
  }

  /** Without an interrupt the printed summary does not depend on the schedule: it is that of the
      jobs run one after another. */
  lemma SummaryIsScheduleIndependent(c: Config, acts: seq<Action>)
    requires ValidRun(c, Init(c), acts)
    requires Done(c, RunFrom(c, Init(c), acts)) && !RunFrom(c, Init(c), acts).interrupted
    ensures Summary(RunFrom(c, Init(c), acts).report) == Summary(Tally(Sequential(c, |c.specs|)))
  {
    InitInv(c);
    RunKeepsInv(c, Init(c), acts);
    CollectedAtEnd(c, acts);
    SummaryPermuted(RunFrom(c, Init(c), acts).collected, Sequential(c, |c.specs|));
  }

  lemma {:induction false} CountZero(v: Verdict, s: seq<Job>)
    ensures Count(v, s) == 0 <==> forall j :: j in s ==> Judge(j) != v
  {
    var p := (j: Job) => Judge(j) == v;
    forall j ensures j in Filter(p, s) <==> j in s && Judge(j) == v { FilterMembers(p, s, j); }
    if Count(v, s) != 0 { assert Filter(p, s)[0] in Filter(p, s); }
  }

  /** Every dispatched job is accounted for, and the exit code is 0 exactly when each passed or was skipped. */
  lemma FinalReport(c: Config, acts: seq<Action>)
    requires ValidRun(c, Init(c), acts) && Done(c, RunFrom(c, Init(c), acts))
    ensures var s := RunFrom(c, Init(c), acts);
      && s.report.passed + s.report.skipped + s.report.failed + s.report.valgrind + s.report.crashed
         + Count(Interrupted, s.collected) == |c.specs|
      && (ExitCode(c, s.report) == 0 <==> forall j :: j in s.collected ==> Judge(j) == Passed || Judge(j) == Skipped)
  {
    InitInv(c);
    RunKeepsInv(c, Init(c), acts);
    var s := RunFrom(c, Init(c), acts);
    TallyAccountsForAll(s.collected);
    CountZero(Failed, s.collected);
    CountZero(ValgrindError, s.collected);
    CountZero(Crashed, s.collected);
    CountZero(Interrupted, s.collected);
    if ExitCode(c, s.report) != 0 {
      assert exists j :: j in s.collected && Judge(j) != Passed && Judge(j) != Skipped;
    }
  }

  lemma {:induction false} SequentialMembers(c: Config, n: nat, id: nat)
    requires n <= |c.specs|
    ensures forall j :: j in Sequential(c, n) ==> j.id < n && j == c.Ran(j.id)
    ensures id < n ==> c.Ran(id) in Sequential(c, n)
  {
    if n > 0 { SequentialMembers(c, n - 1, id); }
  }

  lemma SequentialVerdicts(c: Config)
    ensures (forall j :: j in Sequential(c, |c.specs|) ==> Judge(j) == Passed || Judge(j) == Skipped)
       <==> (forall i :: 0 <= i < |c.specs| ==> c.specs[i].skip || c.specs[i].rc == 0)
  {
    forall i | 0 <= i < |c.specs| ensures c.Ran(i) in Sequential(c, |c.specs|) {
      SequentialMembers(c, |c.specs|, i);
    }
    SequentialMembers(c, |c.specs|, 0);
    forall i | 0 <= i < |c.specs|
      ensures (Judge(c.Ran(i)) == Passed || Judge(c.Ran(i)) == Skipped) <==> c.specs[i].skip || c.specs[i].rc == 0
    {
    }
  }

  lemma SameMembers<A>(s: seq<A>, t: seq<A>)
    requires multiset(s) == multiset(t)
    ensures forall x :: x in s <==> x in t
  {
    forall x ensures x in s <==> x in t {
      assert x in s <==> x in multiset(s);
    }
  }

  /** The exit code in terms of the tests themselves. */
  lemma ExitCodeWithoutInterrupt(c: Config, acts: seq<Action>)
    requires ValidRun(c, Init(c), acts)
    requires Done(c, RunFrom(c, Init(c), acts)) && !RunFrom(c, Init(c), acts).interrupted
    ensures ExitCode(c, RunFrom(c, Init(c), acts).report) == 0
       <==> forall i :: 0 <= i < |c.specs| ==> c.specs[i].skip || c.specs[i].rc == 0
  {
    FinalReport(c, acts);
    CollectedAtEnd(c, acts);
    SameMembers(RunFrom(c, Init(c), acts).collected, Sequential(c, |c.specs|));
    SequentialVerdicts(c);
  }
}
