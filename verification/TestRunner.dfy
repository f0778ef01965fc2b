/** The parallel test runner of test.py as a transition system: a main thread that dispatches jobs,
    queues one break job per worker, collects and joins; worker threads that take from one FIFO
    queue and put to another; and an interrupt flag that may be raised between any two steps.
    Values and single steps; `TestRunnerProofs` reasons about whole runs and `TestRunnerThreads`
    gives the same steps as methods over the shared mutable state. */
module TestRunner {
  import opened Sequences

  /** What the dispatcher knows about a test, with the return code its command will yield. */
  datatype Spec = Spec(name: string, skip: bool, reason: string, rc: int)

  /** `id` is the object's identity: the position at which the job was created. */
  datatype Job = Job(id: nat, name: string, isBreak: bool, isSkip: bool, skipReason: string, returncode: int)

  datatype Config = Config(specs: seq<Spec>, workers: nat) {
    function Total(): nat { |specs| + workers }

    /** The job object that is put on the input queue in position `id`. */
    function Create(id: nat): Job
      requires id < Total()
    {
      if id < |specs| then Job(id, specs[id].name, false, specs[id].skip, specs[id].reason, 0)
      else Job(id, "", true, false, "", 0)
    }

    /** The job as a worker ships it back when no interrupt is seen. */
    function Ran(id: nat): Job
      requires id < |specs|
    {
      if specs[id].skip then Create(id) else Create(id).(returncode := specs[id].rc)
    }

    /** The job as a worker ships it back after seeing the interrupt flag. */
    function Abandoned(id: nat): Job
      requires id < |specs|
    {
      Create(id).(isBreak := true)
    }
  }

  /** How many worker threads are started: `range` of a negative number is empty. */
  function WorkerCount(cpus: int, processLimit: int): (n: nat)
    ensures cpus >= 0 ==> n <= cpus
    ensures processLimit > 0 ==> n <= processLimit
    ensures n == 0 <==> cpus <= 0 || processLimit < 0
    ensures 0 < processLimit <= cpus ==> n == processLimit
    ensures cpus > 0 && (processLimit == 0 || cpus < processLimit) ==> n == cpus
  {
    var processors := if processLimit == 0 || cpus < processLimit then cpus else processLimit;
    if processors < 0 then 0 else processors
  }

  // ----- the summary kept by the collector

  datatype Verdict = Interrupted | Skipped | Passed | Failed | ValgrindError | Crashed

  function Judge(j: Job): Verdict {
    if j.isBreak then Interrupted
    else if j.isSkip then Skipped
    else if j.returncode == 0 then Passed
    else if j.returncode == 1 then Failed
    else if j.returncode == 2 then ValgrindError
    else Crashed
  }

  datatype Report = Report(
    passed: nat, skipped: nat, failed: nat, valgrind: nat, crashed: nat,
    skippedNames: seq<string>, failedNames: seq<string>,
    valgrindNames: seq<string>, crashedNames: seq<string>)

  const EMPTY_REPORT := Report(0, 0, 0, 0, 0, [], [], [], [])

  function SkipLine(j: Job): string { j.name + " (" + j.skipReason + ")" }

  /** One iteration of the collector's loop. */
  function Absorb(r: Report, j: Job): Report {
    match Judge(j)
    case Interrupted => r
    case Skipped => r.(skipped := r.skipped + 1, skippedNames := r.skippedNames + [SkipLine(j)])
    case Passed => r.(passed := r.passed + 1)
    case Failed => r.(failed := r.failed + 1, failedNames := r.failedNames + [j.name])
    case ValgrindError => r.(valgrind := r.valgrind + 1, valgrindNames := r.valgrindNames + [j.name])
    case Crashed => r.(crashed := r.crashed + 1, crashedNames := r.crashedNames + [j.name])
  }

  // ----- states and steps

  /** A worker is at one of the points of its loop where another thread may run; `J` is what it holds. */
  datatype Stage<J> = Idle | Got(job: J) | Running(job: J) | Finished(job: J) | Exited(job: J)

  type Worker = Stage<Job>

  datatype State = State(
    created: nat,             // jobs put on the input queue so far
    input: seq<Job>,
    workers: seq<Worker>,
    output: seq<Job>,
    collected: seq<Job>,      // history of what the collector took
    joined: nat,
    interrupted: bool,        // thread_exit
    report: Report)

  function Init(c: Config): State {
    State(0, [], seq(c.workers, _ => Worker.Idle), [], [], 0, false, EMPTY_REPORT)
  }

  datatype Action =
    | Put                     // main thread: the next real job, or the next break job
    | Collect                 // main thread: one output_queue.get() and its bookkeeping
    | Join                    // main thread: the next thread.join()
    | Get(w: nat)             // worker: input_queue.get()
    | Decide(w: nat)          // worker: break, interrupt and skip tests
    | Execute(w: nat)         // worker: the command returns
    | Ship(w: nat)            // worker: output_queue.put(job)
    | Interrupt               // the signal handler

  predicate Dispatched(c: Config, s: State) { s.created >= c.Total() }

  predicate Done(c: Config, s: State) {
    Dispatched(c, s) && |s.collected| >= |c.specs| && s.joined >= c.workers
  }

  /** Which steps can be taken; `get` blocks on an empty queue and `join` on a live thread. */
  predicate Enabled(c: Config, s: State, a: Action) {
    match a
    case Put => !Dispatched(c, s)
    case Collect => Dispatched(c, s) && |s.collected| < |c.specs| && s.output != []
    case Join =>
      Dispatched(c, s) && |s.collected| >= |c.specs| && s.joined < c.workers
      && s.joined < |s.workers| && s.workers[s.joined].Exited?
    case Get(w) => w < |s.workers| && s.workers[w].Idle? && s.input != []
    case Decide(w) => w < |s.workers| && s.workers[w].Got?
    case Execute(w) => w < |s.workers| && s.workers[w].Running?
    case Ship(w) => w < |s.workers| && s.workers[w].Finished?
    case Interrupt => !s.interrupted
  }

  function Decision(j: Job, interrupted: bool): Worker {
    if j.isBreak then Exited(j)
    else if interrupted then Finished(j.(isBreak := true))
    else if j.isSkip then Finished(j)
    else Running(j)
  }

  /** The command of job `j` returns. */
  function Outcome(c: Config, j: Job): Job {
    if j.id < |c.specs| then j.(returncode := c.specs[j.id].rc) else j
  }

  function Apply(c: Config, s: State, a: Action): State
    requires Enabled(c, s, a)
  {
    match a
    case Put => s.(created := s.created + 1, input := s.input + [c.Create(s.created)])
    case Collect =>
      s.(output := s.output[1..], collected := s.collected + [s.output[0]], report := Absorb(s.report, s.output[0]))
    case Join => s.(joined := s.joined + 1)
    case Get(w) => s.(input := s.input[1..], workers := s.workers[w := Got(s.input[0])])
    case Decide(w) => s.(workers := s.workers[w := Decision(s.workers[w].job, s.interrupted)])
    case Execute(w) => s.(workers := s.workers[w := Finished(Outcome(c, s.workers[w].job))])
    case Ship(w) => s.(output := s.output + [s.workers[w].job], workers := s.workers[w := Idle])
    case Interrupt => s.(interrupted := true)
  }

  /** `acts` can be taken one after another from `s`: an arbitrary interleaving. */
  predicate ValidRun(c: Config, s: State, acts: seq<Action>)
    decreases |acts|
  {
    acts == [] || (Enabled(c, s, acts[0]) && ValidRun(c, Apply(c, s, acts[0]), acts[1..]))
  }

  function RunFrom(c: Config, s: State, acts: seq<Action>): State
    requires ValidRun(c, s, acts)
    decreases |acts|
  {
    if acts == [] then s else RunFrom(c, Apply(c, s, acts[0]), acts[1..])
  }

  /** The program's exit code at the end of `run_tests`. */
  function ExitCode(c: Config, r: Report): int {
    if r.passed + r.skipped == |c.specs| then 0 else 1
  }
}
