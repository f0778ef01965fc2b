/** What the test runner's report says about the tests themselves, and in which order results arrive. */
module TestRunnerReports {
  import opened Sequences
  import opened TestRunner
  import opened TestRunnerProofs
  import opened TestRunnerRuns

  // ----- the output queue

  /** No step reorders what was shipped: it is taken from the output queue in the order it was put there. */
  lemma StepKeepsOrder(c: Config, s: State, a: Action)
    requires Enabled(c, s, a)
    ensures var t := Apply(c, s, a);
      t.collected + t.output == s.collected + s.output + if a.Ship? then [s.workers[a.w].job] else []
  {
    if a.Collect? { assert s.output == [s.output[0]] + s.output[1..]; }
  }

  /** Over any run, what was shipped before stays in front. */
  lemma {:induction false} ShippedInOrder(c: Config, s: State, acts: seq<Action>)
    requires ValidRun(c, s, acts)
    ensures var t := RunFrom(c, s, acts); s.collected + s.output <= t.collected + t.output
    decreases |acts|
  {
    if acts != [] {
      StepKeepsOrder(c, s, acts[0]);
      ShippedInOrder(c, Apply(c, s, acts[0]), acts[1..]);
    }
  }

  // ----- the printed order

  /** The names are ordered by their first difference; a name comes before those that extend it. */
  lemma {:induction false} LexLeMeans(a: string, b: string)
    ensures LexLe(a, b) <==>
      a <= b || exists k :: 0 <= k < |a| && k < |b| && a[..k] == b[..k] && a[k] < b[k]
  {
    if a != [] && b != [] {
      if a[0] == b[0] {
        LexLeMeans(a[1..], b[1..]);
        if a[1..] <= b[1..] { assert a == [a[0]] + a[1..] && b == [b[0]] + b[1..]; }
        if k :| 0 <= k < |a[1..]| && k < |b[1..]| && a[1..][..k] == b[1..][..k] && a[1..][k] < b[1..][k] {
          assert a[..k + 1] == [a[0]] + a[1..][..k] && b[..k + 1] == [b[0]] + b[1..][..k];
        }
        if k :| 0 <= k < |a| && k < |b| && a[..k] == b[..k] && a[k] < b[k] {
          assert a[1..][..k - 1] == a[..k][1..] && b[1..][..k - 1] == b[..k][1..];
        }
      } else if a[0] < b[0] {
        assert a[..0] == b[..0];
      } else if k :| 0 <= k < |a| && k < |b| && a[..k] == b[..k] && a[k] < b[k] {
        assert k > 0 && a[0] == a[..k][0];
      }
    }
  }

  // ----- the report over the tests

  lemma MapFilterSnoc<A, B>(p: A -> bool, f: A -> B, s: seq<A>, x: A)
    ensures Map(f, Filter(p, s + [x])) == Map(f, Filter(p, s)) + if p(x) then [f(x)] else []
    ensures |Filter(p, s + [x])| == |Filter(p, s)| + if p(x) then 1 else 0
  {
    FilterConcat(p, s, [x]);
    assert [x][1..] == [];
    MapConcat(f, Filter(p, s), Filter(p, [x]));
    assert Map(f, [x]) == [f(x)];
  }

  /** How a verdict and its line read off the job as it ran correspond to a property and a line of the test. */
  ghost predicate Corresponds(c: Config, v: Verdict, p: Spec -> bool, line: Spec -> string, i: nat)
    requires i < |c.specs|
  {
    && (Judge(c.Ran(i)) == v <==> p(c.specs[i]))
    && line(c.specs[i]) == if v.Skipped? then SkipLine(c.Ran(i)) else c.Ran(i).name
  }

  /** The jobs with a verdict, when they run undisturbed, are those of the tests with a property, in order. */
  lemma {:induction false} VerdictOfSpecs(c: Config, n: nat, v: Verdict, p: Spec -> bool, line: Spec -> string)
    requires n <= |c.specs| && forall i :: 0 <= i < |c.specs| ==> Corresponds(c, v, p, line, i)
    ensures Names(v, Sequential(c, n)) == Map(line, Filter(p, c.specs[..n]))
    ensures Count(v, Sequential(c, n)) == |Filter(p, c.specs[..n])|
  {
    if n > 0 {
      VerdictOfSpecs(c, n - 1, v, p, line);
      assert Corresponds(c, v, p, line, n - 1);
      OneMoreTest(c, n, v, p, line);
    }
  }

  lemma OneMoreTest(c: Config, n: nat, v: Verdict, p: Spec -> bool, line: Spec -> string)
    requires 0 < n <= |c.specs| && Corresponds(c, v, p, line, n - 1)
    ensures var x := c.specs[n - 1];
      && Names(v, Sequential(c, n)) == Names(v, Sequential(c, n - 1)) + (if p(x) then [line(x)] else [])
      && Map(line, Filter(p, c.specs[..n]))
         == Map(line, Filter(p, c.specs[..n - 1])) + (if p(x) then [line(x)] else [])
      && Count(v, Sequential(c, n)) == Count(v, Sequential(c, n - 1)) + (if p(x) then 1 else 0)
      && |Filter(p, c.specs[..n])| == |Filter(p, c.specs[..n - 1])| + (if p(x) then 1 else 0)
  {
    NamesSnoc(v, Sequential(c, n - 1), c.Ran(n - 1));
    assert c.specs[..n] == c.specs[..n - 1] + [c.specs[n - 1]];
    MapFilterSnoc(p, line, c.specs[..n - 1], c.specs[n - 1]);
  }

  /** An uninterrupted run that is over. */
  ghost predicate Completed(c: Config, acts: seq<Action>) {
    ValidRun(c, Init(c), acts) && Done(c, RunFrom(c, Init(c), acts)) && !RunFrom(c, Init(c), acts).interrupted
  }

  /** What a completed run counts under a verdict, and lists, is read off the tests. */
  lemma VerdictAtEnd(c: Config, acts: seq<Action>, v: Verdict, p: Spec -> bool, line: Spec -> string)
    requires Completed(c, acts) && forall i :: 0 <= i < |c.specs| ==> Corresponds(c, v, p, line, i)
    ensures var s := RunFrom(c, Init(c), acts);
      && s.report == Tally(s.collected) && Count(v, s.collected) == |Filter(p, c.specs)|
      && Sort(LexLe, Names(v, s.collected)) == Sort(LexLe, Map(line, Filter(p, c.specs)))
  {
    var s := RunFrom(c, Init(c), acts);
    InitInv(c);
    RunKeepsInv(c, Init(c), acts);
    CollectedAtEnd(c, acts);
    VerdictPermuted(v, s.collected, Sequential(c, |c.specs|));
    VerdictOfSpecs(c, |c.specs|, v, p, line);
    assert c.specs[..|c.specs|] == c.specs;
  }

  /** At the end of an uninterrupted run, whatever the schedule, the skipped tests are those with the flag, and
      they are listed with the reason in parentheses. */
  lemma SkippedTests(c: Config, acts: seq<Action>)
    requires Completed(c, acts)
    ensures var r, skipped := RunFrom(c, Init(c), acts).report, Filter((x: Spec) => x.skip, c.specs);
      && r.skipped == |skipped|
      && Summary(r).skippedNames == Sort(LexLe, Map((x: Spec) => x.name + " (" + x.reason + ")", skipped))
  {
    VerdictAtEnd(c, acts, Skipped, (x: Spec) => x.skip, (x: Spec) => x.name + " (" + x.reason + ")");
  }

  /** The passed tests are those whose command returned 0. */
  lemma PassedTests(c: Config, acts: seq<Action>)
    requires Completed(c, acts)
    ensures RunFrom(c, Init(c), acts).report.passed == |Filter((x: Spec) => !x.skip && x.rc == 0, c.specs)|
  {
    VerdictAtEnd(c, acts, Passed, (x: Spec) => !x.skip && x.rc == 0, (x: Spec) => x.name);
  }

  /** The failed tests are those whose command returned 1. */
  lemma FailedTests(c: Config, acts: seq<Action>)
    requires Completed(c, acts)
    ensures var r, failed := RunFrom(c, Init(c), acts).report, Filter((x: Spec) => !x.skip && x.rc == 1, c.specs);
      r.failed == |failed| && Summary(r).failedNames == Sort(LexLe, Map((x: Spec) => x.name, failed))
  {
    VerdictAtEnd(c, acts, Failed, (x: Spec) => !x.skip && x.rc == 1, (x: Spec) => x.name);
  }

  /** Those with memory errors are those whose command returned 2. */
  lemma ValgrindTests(c: Config, acts: seq<Action>)
    requires Completed(c, acts)
    ensures var r, errors := RunFrom(c, Init(c), acts).report, Filter((x: Spec) => !x.skip && x.rc == 2, c.specs);
      r.valgrind == |errors| && Summary(r).valgrindNames == Sort(LexLe, Map((x: Spec) => x.name, errors))
  {
    VerdictAtEnd(c, acts, ValgrindError, (x: Spec) => !x.skip && x.rc == 2, (x: Spec) => x.name);
  }

  /** Those that crashed are those whose command returned anything else. */
  lemma CrashedTests(c: Config, acts: seq<Action>)
    requires Completed(c, acts)
    ensures var r, crashed := RunFrom(c, Init(c), acts).report,
                              Filter((x: Spec) => !x.skip && x.rc !in {0, 1, 2}, c.specs);
      r.crashed == |crashed| && Summary(r).crashedNames == Sort(LexLe, Map((x: Spec) => x.name, crashed))
  {
    VerdictAtEnd(c, acts, Crashed, (x: Spec) => !x.skip && x.rc !in {0, 1, 2}, (x: Spec) => x.name);
  }
}
