/** The test runner's threads over shared mutable state: two queues of references, and job objects that are
    changed in place by whichever thread holds them. Each method is what one thread does between two points
    at which another thread may run; `Perform` lets an arbitrary scheduler choose the next one. */
module TestRunnerThreads {
  import opened Sequences
  import opened TestRunner
  import opened TestRunnerProofs
  import opened TestRunnerRuns

  // ----- one place for each job means one owner

  lemma {:induction false} HeldAt(ws: seq<Worker>, v: nat, w: nat, id: nat)
    requires v < w < |ws|
    ensures Holders(ws, id) >= InHand(ws[v], id, id + 1) + InHand(ws[w], id, id + 1)
  {
    if v > 0 {
      HeldAt(ws[1..], v - 1, w - 1, id);
    } else {
      HeldOnce(ws[1..], w - 1, id);
    }
  }

  lemma {:induction false} HeldOnce(ws: seq<Worker>, w: nat, id: nat)
    requires w < |ws|
    ensures Holders(ws, id) >= InHand(ws[w], id, id + 1)
  {
    if w > 0 { HeldOnce(ws[1..], w - 1, id); }
  }

  ghost predicate Absent(s: seq<Job>, id: nat) { forall k :: 0 <= k < |s| ==> s[k].id != id }

  lemma AbsentFrom(s: seq<Job>, id: nat)
    requires Occurrences(s, id) == 0
    ensures Absent(s, id)
  {
    forall k | 0 <= k < |s| ensures s[k].id != id { JobCounted(s, k); }
  }

  /** The job in a worker's hands is in no queue, not collected, and in no other worker's hands. */
  lemma HolderIsAlone(s: State, w: nat)
    requires OnePlaceEach(s) && w < |s.workers| && !s.workers[w].Idle?
    ensures var id := s.workers[w].job.id;
      && Absent(s.input, id) && Absent(s.output, id) && Absent(s.collected, id)
      && forall v :: 0 <= v < |s.workers| && v != w && !s.workers[v].Idle? ==> s.workers[v].job.id != id
  {
    var id := s.workers[w].job.id;
    assert Places(s, id, id + 1) == Within(s.created, id, id + 1) <= 1;
    HeldOnce(s.workers, w, id);
    AbsentFrom(s.input, id);
    AbsentFrom(s.output, id);
    AbsentFrom(s.collected, id);
    forall v | 0 <= v < |s.workers| && v != w && !s.workers[v].Idle? ensures s.workers[v].job.id != id {
      if v < w { HeldAt(s.workers, v, w, id); } else { HeldAt(s.workers, w, v, id); }
    }
  }

  // ----- job objects

  class TestJob {
    const id: nat
    var name: string
    var isBreak: bool
    var isSkip: bool
    var skipReason: string
    var returncode: int

    constructor (job: Job)
      ensures Value() == job
    {
      id := job.id;
      name, isBreak, isSkip := job.name, job.isBreak, job.isSkip;
      skipReason, returncode := job.skipReason, job.returncode;
    }

    function Value(): Job
      reads this
    {
      Job(id, name, isBreak, isSkip, skipReason, returncode)
    }

    method SetIsBreak(isBreak: bool)
      modifies this
      ensures Value() == old(Value()).(isBreak := isBreak)
    {
      this.isBreak := isBreak;
    }

    method SetReturncode(returncode: int)
      modifies this
      ensures Value() == old(Value()).(returncode := returncode)
    {
      this.returncode := returncode;
    }
  }

  /** The jobs of a queue as they are now. */
  function Values(q: seq<TestJob>): (r: seq<Job>)
    reads q
    ensures |r| == |q| && forall i :: 0 <= i < |q| ==> r[i] == q[i].Value()
  {
    seq(|q|, i requires 0 <= i < |q| reads q => q[i].Value())
  }

  /** The objects in the workers' hands. */
  function Hands(ts: seq<Stage<TestJob>>): set<TestJob> {
    set t | t in ts && !t.Idle? :: t.job
  }

  function StageValue(t: Stage<TestJob>): Worker
    reads if t.Idle? then {} else {t.job}
  {
    match t
    case Idle => Idle
    case Got(job) => Got(job.Value())
    case Running(job) => Running(job.Value())
    case Finished(job) => Finished(job.Value())
    case Exited(job) => Exited(job.Value())
  }

  function StageValues(ts: seq<Stage<TestJob>>): (r: seq<Worker>)
    reads Hands(ts)
    ensures |r| == |ts| && forall i :: 0 <= i < |ts| ==> r[i] == StageValue(ts[i])
  {
    seq(|ts|, i requires 0 <= i < |ts| reads Hands(ts) =>
      assert ts[i] in ts; StageValue(ts[i]))
  }

  class TestRun {
    const config: Config
    var created: nat
    var inputQueue: seq<TestJob>
    var outputQueue: seq<TestJob>
    var threads: seq<Stage<TestJob>>
    var joinedThreads: nat
    var threadExit: bool
    var collectedJobs: seq<TestJob>  // the jobs the collector's loop has gone through

    var passedTests: nat
    var skippedTests: nat
    var failedTests: nat
    var valgrindErrors: nat
    var crashedTests: nat
    var skippedTestnames: seq<string>
    var failedTestnames: seq<string>
    var valgrindTestnames: seq<string>
    var crashedTestnames: seq<string>

    function Counters(): Report
      reads this
    {
      Report(passedTests, skippedTests, failedTests, valgrindErrors, crashedTests,
             skippedTestnames, failedTestnames, valgrindTestnames, crashedTestnames)
    }

    function View(): State
      reads this, inputQueue, outputQueue, collectedJobs, Hands(threads)
    {
      State(created, Values(inputQueue), StageValues(threads), Values(outputQueue), Values(collectedJobs),
            joinedThreads, threadExit, Counters())
    }

    /** Every job object there is. */
    ghost function Objects(): set<TestJob>
      reads this
    {
      (set job | job in inputQueue + outputQueue + collectedJobs) + Hands(threads)
    }

    ghost predicate Private(w: nat)
      requires w < |threads| && !threads[w].Idle?
      reads this
    {
      var job := threads[w].job;
      && job !in inputQueue && job !in outputQueue && job !in collectedJobs
      && forall v :: 0 <= v < |threads| && v != w && !threads[v].Idle? ==> threads[v].job != job
    }

    /** The object a worker holds can be reached by nobody else, so changing it changes nothing but that
        worker's stage. */
    lemma HeldObjectIsPrivate(w: nat)
      requires Inv(config, View()) && w < |threads| && !threads[w].Idle?
      ensures Private(w)
    {
      HolderIsAlone(View(), w);
      var s, job := View(), threads[w].job;
      assert s.workers[w].job == job.Value();
      forall k | 0 <= k < |inputQueue| ensures inputQueue[k] != job { assert s.input[k].id != job.id; }
      forall k | 0 <= k < |outputQueue| ensures outputQueue[k] != job { assert s.output[k].id != job.id; }
      forall k | 0 <= k < |collectedJobs| ensures collectedJobs[k] != job { assert s.collected[k].id != job.id; }
      forall v | 0 <= v < |threads| && v != w && !threads[v].Idle? ensures threads[v].job != job {
        assert s.workers[v].job.id != job.id;
      }
    }

    /** Starts one thread for each processor to be used, with both queues empty. */
    constructor (specs: seq<Spec>, cpus: int, processLimit: int)
      ensures config == Config(specs, WorkerCount(cpus, processLimit))
      ensures View() == Init(config) && Objects() == {}
    {
      config := Config(specs, WorkerCount(cpus, processLimit));
      created, joinedThreads, threadExit := 0, 0, false;
      inputQueue, outputQueue, collectedJobs := [], [], [];
      threads := seq(WorkerCount(cpus, processLimit), _ => Idle);
      passedTests, skippedTests, failedTests, valgrindErrors, crashedTests := 0, 0, 0, 0, 0;
      skippedTestnames, failedTestnames, valgrindTestnames, crashedTestnames := [], [], [], [];
    }

    /** The dispatcher: real jobs first, then one break job for each worker, each a new object. */
    method PutNextJob()
      requires Enabled(config, View(), Put)
      modifies `inputQueue, `created
      ensures View() == Apply(config, old(View()), Put)
      ensures fresh(Objects() - old(Objects()))
    {
      var job := new TestJob(config.Create(created));
      inputQueue := inputQueue + [job];
      created := created + 1;
      assert Values(inputQueue) == old(Values(inputQueue)) + [job.Value()];
      assert StageValues(threads) == old(StageValues(threads));
    }

    /** The loop body of `worker_thread.run`, up to its next blocking or shared operation. */
    method WorkerGet(w: nat)
      requires Enabled(config, View(), Get(w))
      modifies `inputQueue, `threads
      ensures View() == Apply(config, old(View()), Get(w))
      ensures Objects() <= old(Objects())
    {
      var job := inputQueue[0];
      inputQueue := inputQueue[1..];
      threads := threads[w := Got(job)];
    }

    /** The worker goes on with the job it holds. */
    method GoOn(w: nat, stage: Stage<TestJob>)
      requires w < |threads| && !threads[w].Idle? && !stage.Idle? && stage.job == threads[w].job
      modifies `threads
      ensures View() == old(View()).(workers := old(View()).workers[w := StageValue(stage)])
      ensures Objects() == old(Objects()) && threads == old(threads)[w := stage]
    {
      ghost var before := threads;
      threads := threads[w := stage];
      SameHands(before, w, stage);
    }

    static lemma SameHands(ts: seq<Stage<TestJob>>, w: nat, stage: Stage<TestJob>)
      requires w < |ts| && !ts[w].Idle? && !stage.Idle? && stage.job == ts[w].job
      ensures Hands(ts[w := stage]) == Hands(ts)
    {
      var us := ts[w := stage];
      forall job ensures job in Hands(us) <==> job in Hands(ts) {
        if t :| t in us && !t.Idle? && t.job == job {
          var i :| 0 <= i < |us| && us[i] == t;
          assert ts[i] in ts;
        }
        if t :| t in ts && !t.Idle? && t.job == job {
          var i :| 0 <= i < |ts| && ts[i] == t;
          assert us[i] in us;
        }
      }
    }

    /** Changing the job in a worker's hands changes that worker's stage and nothing else. */
    method MarkHeld(w: nat)
      requires w < |threads| && threads[w].Got? && Private(w)
      modifies threads[w].job
      ensures var x := Got(old(threads[w].job.Value()).(isBreak := true));
        View() == old(View()).(workers := old(View()).workers[w := x])
    {
      threads[w].job.SetIsBreak(true);
    }

    method StoreReturncode(w: nat, returncode: int)
      requires w < |threads| && threads[w].Running? && Private(w)
      modifies threads[w].job
      ensures var x := Running(old(threads[w].job.Value()).(returncode := returncode));
        View() == old(View()).(workers := old(View()).workers[w := x])
    {
      threads[w].job.SetReturncode(returncode);
    }

    method MarkAndGoOn(w: nat)
      requires w < |threads| && threads[w].Got? && Private(w)
      modifies `threads, threads[w].job
      ensures var x := Finished(old(threads[w].job.Value()).(isBreak := true));
        View() == old(View()).(workers := old(View()).workers[w := x])
      ensures Objects() == old(Objects()) && threads == old(threads)[w := Finished(old(threads[w].job))]
      ensures old(threads[w].job).isBreak
    {
      MarkHeld(w);
      assert StageValue(threads[w]) == View().workers[w];
      GoOn(w, Finished(threads[w].job));
    }

    method StoreAndGoOn(w: nat, returncode: int)
      requires w < |threads| && threads[w].Running? && Private(w)
      modifies `threads, threads[w].job
      ensures var x := Finished(old(threads[w].job.Value()).(returncode := returncode));
        View() == old(View()).(workers := old(View()).workers[w := x])
      ensures Objects() == old(Objects())
    {
      StoreReturncode(w, returncode);
      assert StageValue(threads[w]) == View().workers[w];
      GoOn(w, Finished(threads[w].job));
    }

    /** The tests at the top of the loop; an interrupted job is marked in place. */
    method WorkerDecide(w: nat)
      requires Inv(config, View()) && Enabled(config, View(), Decide(w))
      modifies `threads, threads[w].job
      ensures View() == Apply(config, old(View()), Decide(w))
      ensures |threads| == old(|threads|)
      ensures var job := old(threads[w].job);
        && (old(job.isBreak) ==> threads[w] == Exited(job) && job.isBreak)
        && (!old(job.isBreak) && threadExit ==> threads[w] == Finished(job) && job.isBreak)
        && (!old(job.isBreak) && !threadExit && job.isSkip ==> threads[w] == Finished(job) && !job.isBreak)
        && (!old(job.isBreak) && !threadExit && !job.isSkip ==> threads[w] == Running(job) && !job.isBreak)
      ensures Objects() == old(Objects())
    {
      HeldObjectIsPrivate(w);
      DecideHeld(w);
    }

    method DecideHeld(w: nat)
      requires w < |threads| && threads[w].Got? && Private(w)
      modifies `threads, threads[w].job
      ensures View() == Apply(config, old(View()), Decide(w))
      ensures |threads| == old(|threads|)
      ensures var job := old(threads[w].job);
        && (old(job.isBreak) ==> threads[w] == Exited(job) && job.isBreak)
        && (!old(job.isBreak) && threadExit ==> threads[w] == Finished(job) && job.isBreak)
        && (!old(job.isBreak) && !threadExit && job.isSkip ==> threads[w] == Finished(job) && !job.isBreak)
        && (!old(job.isBreak) && !threadExit && !job.isSkip ==> threads[w] == Running(job) && !job.isBreak)
      ensures Objects() == old(Objects())
    {
      var job := threads[w].job;
      if job.isBreak {
        GoOn(w, Exited(job));
      } else if threadExit {
        MarkAndGoOn(w);
      } else if job.isSkip {
        GoOn(w, Finished(job));
      } else {
        GoOn(w, Running(job));
      }
    }

    /** The command returns, and its return code is stored in the job object. */
    method WorkerExecute(w: nat)
      requires Inv(config, View()) && Enabled(config, View(), Execute(w))
      modifies `threads, threads[w].job
      ensures View() == Apply(config, old(View()), Execute(w))
      ensures Objects() == old(Objects())
    {
      HeldObjectIsPrivate(w);
      ExecuteHeld(w);
    }

    method ExecuteHeld(w: nat)
      requires w < |threads| && threads[w].Running? && Private(w)
      modifies `threads, threads[w].job
      ensures View() == Apply(config, old(View()), Execute(w))
      ensures Objects() == old(Objects())
    {
      var job := threads[w].job;
      StoreAndGoOn(w, Outcome(config, job.Value()).returncode);
    }

    method WorkerShip(w: nat)
      requires Enabled(config, View(), Ship(w))
      modifies `outputQueue, `threads
      ensures View() == Apply(config, old(View()), Ship(w))
      ensures Objects() <= old(Objects())
    {
      outputQueue := outputQueue + [threads[w].job];
      threads := threads[w := Idle];
    }

    /** One iteration of the collector's loop. */
    method CollectNext()
      requires Enabled(config, View(), Collect)
      modifies this
      ensures View() == Apply(config, old(View()), Collect)
      ensures Objects() <= old(Objects())
    {
      var job := TakeOutput();
      Count(job);
    }

    method Count(job: TestJob)
      modifies this
      ensures View() == old(View()).(report := Absorb(old(Counters()), job.Value()))
      ensures Objects() == old(Objects())
    {
      if !job.isBreak {
        Record(job);
      }
    }

    method TakeOutput() returns (job: TestJob)
      requires outputQueue != []
      modifies `outputQueue, `collectedJobs
      ensures job == old(outputQueue[0])
      ensures var s := old(View());
        View() == s.(output := s.output[1..], collected := s.collected + [s.output[0]])
      ensures Objects() <= old(Objects())
    {
      job := outputQueue[0];
      outputQueue := outputQueue[1..];
      collectedJobs := collectedJobs + [job];
    }

    /** One counter and its list, by the skip flag and the return code. */
    method Record(job: TestJob)
      requires !job.isBreak
      modifies `passedTests, `skippedTests, `failedTests, `valgrindErrors, `crashedTests
      modifies `skippedTestnames, `failedTestnames, `valgrindTestnames, `crashedTestnames
      ensures Counters() == Absorb(old(Counters()), job.Value())
      ensures var (skip, rc) := (job.isSkip, job.returncode);
        && skippedTests == old(skippedTests) + (if skip then 1 else 0)
        && passedTests == old(passedTests) + (if !skip && rc == 0 then 1 else 0)
        && failedTests == old(failedTests) + (if !skip && rc == 1 then 1 else 0)
        && valgrindErrors == old(valgrindErrors) + (if !skip && rc == 2 then 1 else 0)
        && crashedTests == old(crashedTests) + (if !skip && rc !in {0, 1, 2} then 1 else 0)
      ensures var (skip, rc) := (job.isSkip, job.returncode);
        && skippedTestnames == old(skippedTestnames)
                               + (if skip then [job.name + " (" + job.skipReason + ")"] else [])
        && failedTestnames == old(failedTestnames) + (if !skip && rc == 1 then [job.name] else [])
        && valgrindTestnames == old(valgrindTestnames) + (if !skip && rc == 2 then [job.name] else [])
        && crashedTestnames == old(crashedTestnames) + (if !skip && rc !in {0, 1, 2} then [job.name] else [])
    {
      if job.isSkip {
        skippedTests := skippedTests + 1;
        skippedTestnames := skippedTestnames + [SkipLine(job.Value())];
      } else if job.returncode == 0 {
        passedTests := passedTests + 1;
      } else if job.returncode == 1 {
        failedTests := failedTests + 1;
        failedTestnames := failedTestnames + [job.name];
      } else if job.returncode == 2 {
        valgrindErrors := valgrindErrors + 1;
        valgrindTestnames := valgrindTestnames + [job.name];
      } else {
        crashedTests := crashedTests + 1;
        crashedTestnames := crashedTestnames + [job.name];
      }
    }

    method JoinNext()
      requires Enabled(config, View(), Join)
      modifies `joinedThreads
      ensures View() == Apply(config, old(View()), Join)
      ensures Objects() == old(Objects())
    {
      joinedThreads := joinedThreads + 1;
    }

    method SigintHook()
      modifies `threadExit
      ensures View() == old(View()).(interrupted := true)
      ensures Objects() == old(Objects())
    {
      threadExit := true;
    }

    method Perform(a: Action)
      requires Inv(config, View()) && Enabled(config, View(), a)
      modifies this, Hands(threads)
      ensures View() == Apply(config, old(View()), a)
      ensures fresh(Objects() - old(Objects()))
    {
      match a
      case Put => PutNextJob();
      case Collect => CollectNext();
      case Join => JoinNext();
      case Get(w) => WorkerGet(w);
      case Decide(w) => WorkerDecide(w);
      case Execute(w) => WorkerExecute(w);
      case Ship(w) => WorkerShip(w);
      case Interrupt => SigintHook();
    }

    /** The state is the one that the steps taken so far lead to in the model. */
    ghost predicate Reached(taken: seq<Action>)
      reads this, inputQueue, outputQueue, collectedJobs, Hands(threads)
    {
      ValidRun(config, Init(config), taken) && View() == RunFrom(config, Init(config), taken)
    }

    lemma ReachedInv(taken: seq<Action>)
      requires Reached(taken)
      ensures Inv(config, View())
    {
      InitInv(config);
      RunKeepsInv(config, Init(config), taken);
    }

    /** One thread's step, if that thread is not blocked. */
    method Step(a: Action, ghost taken: seq<Action>) returns (done: bool)
      requires Reached(taken)
      modifies this, Hands(threads)
      ensures done == Enabled(config, old(View()), a)
      ensures Reached(if done then taken + [a] else taken)
      ensures fresh(Objects() - old(Objects()))
    {
      done := Enabled(config, View(), a);
      if done {
        ghost var before := View();
        ReachedInv(taken);
        RunConcat(config, Init(config), taken, [a]);
        Perform(a);
        assert RunFrom(config, before, [a]) == Apply(config, before, a);
      }
    }

    /** A whole run under a scheduler that names one thread's step at a time; a step whose thread
        is blocked is passed over. Whatever the scheduler does, the run is one of the model's. */
    method Run(schedule: seq<Action>) returns (taken: seq<Action>)
      requires View() == Init(config) && Objects() == {}
      modifies this
      ensures ValidRun(config, Init(config), taken) && View() == RunFrom(config, Init(config), taken)
      ensures |taken| <= 6 * |config.specs| + 4 * config.workers + 1
      ensures Inv(config, View()) && fresh(Objects())
    {
      taken := [];
      for i := 0 to |schedule|
        invariant Reached(taken) && fresh(Objects())
      {
        var done := Step(schedule[i], taken);
        if done {
          taken := taken + [schedule[i]];
        }
      }
      ReachedInv(taken);
      EveryRunIsFinite(config, taken);
    }
  }
}
