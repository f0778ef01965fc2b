# Models and proofs for the self-contained algorithms of this ns-3 tree

This project models, in Dafny 4.11, nine algorithms that the repository contains in full, and proves
properties of the models. `dafny verify dfyconfig.toml` checks all of it.

| files | subject |
|---|---|
| `TestRunner.dfy`, `TestRunnerProofs.dfy`, `TestRunnerRuns.dfy`, `TestRunnerReports.dfy`, `TestRunnerThreads.dfy` | the parallel test runner of `test.py`: dispatcher, workers, two queues, break jobs, interrupt, collector |
| `TypeWalks.dfy`, `TypeGraph.dfy`, `PathNames.dfy`, `Reachability.dfy`, `PathDuplicates.dfy`, `PathExamples.dfy`, `PathGathering.dfy` | enumeration of configuration paths in `utils/print-introspected-doxygen.cc` |
| `LoadOrder.dfy`, `LoadOrderSorter.dfy` | library load order in `bindings/python/ns__init__.py` |
| `StyleText.dfy`, `StyleFixer.dfy` | tab and trailing-whitespace passes of `utils/check-style-clang-format.py` |
| `Timeline.dfy`, `Legend.dfy` | window queries and legend packing of `utils/grid.py` |
| `Statistics.dfy`, `SchedulerBench.dfy` | Welford's loop and the event loop of `utils/bench-scheduler.cc` |
| `LargeTransfer.dfy` | resumable sender of `examples/tcp/tcp-large-transfer.cc` |
| `Fairness.dfy` | Jain index of `examples/tcp/dctcp-example.cc` |
| `TrainingShift.dfy`, `TrainingCells.dfy` | training-set construction of `generate-training-data.py` |
| `Sequences.dfy` | shared facts on mapping, filtering, sorting and the pigeonhole principle |

How the models are built:

- The test runner is a transition system whose steps are what one thread does between two points at
  which another may run. A run is any sequence of enabled steps, so a statement about every run covers
  every interleaving and an interrupt at any step. The class `TestRun` holds queues of references to job
  objects that the threads change in place. That a job is in one place only makes such a change private to
  the thread that makes it, so each method of the class is one step of the transition system.
- Loops and in-place updates of the original are loops and in-place updates here (`StaticInformation`,
  `Sorter`, `TimelineDataRange`, `TimelineEvent`, `TopLegendRenderer`, `Bench`, `Sender`,
  `FlowCounters`, the line arrays of the style passes). Each is proved against a function, and the
  theorems are about that function.
- What comes from outside is a parameter: return codes of commands, the answers of a socket, the stream
  of event delays, text extents, the type registry. Quantities in floating point are reals.

What the proofs show about the code itself:

- `--jobs` accepts a negative number. No worker is started then, and the collector blocks for ever as
  soon as there is one job. With a processor and any other setting no run can block.
- `get_ranges` returns nothing for a window that contains ranges but starts and ends between them.
  `WindowExactIff` gives the exact condition under which the query returns the ranges that meet the
  window.
- `get_events` returns one event after the window unless the window ends at an event or after the last. With
  repeated times it can lose events at the ends of the window; however the search halves, it loses none
  exactly when each end is the time of at most one event (`NothingLostIff`).
- `Uniquefy` takes its argument by value, so it removes nothing, although its comment says that the
  container is modified in place. `GetTypicalAggregations` states when its two lists are free of duplicates
  all the same: the missing names exactly when no two calls note the same name; the paths, gathered from all
  roots, exactly when no two simple walks, from one root or from two, have the same end and path string
  (`ListDistinctIff`). For one root and legible names that means that each edge which a type has twice is out
  of reach, because every walk to that type passes the type it leads to (`PathsDistinctIff`). It is enough
  that no type has an edge twice, no root occurs twice and no two roots have an edge name in common
  (`DistinctEdgesAndRootsSuffice`); two roots with a common edge name can fail (`TwoRootsRepeatAPath`).
  The program itself records the aggregation of nodes with one protocol twice. If one of the names is not
  registered, a name is noted twice; otherwise paths repeat as soon as a root reaches one of the two types
  before the other, as the list of nodes does (`RepeatedCall`, `NodeCallsLeaveDuplicates`); with no such root
  neither list holds a duplicate (`UnreachedNodeRepeatsNothing`).
- Expanding a tab can turn an ordinary line into a clang-format guard; the passes are idempotent and
  commute all the same.
- `sort_to_dependencies` recurses for ever on a cycle or on a dependency outside the map; these are
  exactly the maps on which it does. On the others a limit of n nested calls is enough exactly when no chain
  of dependencies has length n - 1 (`SortEndsIff`).
- Once all data are accepted, each further send callback closes the socket again: it is closed at most once
  exactly when at most one callback ends with everything accepted (`ClosedAtMostOnceIff`).
- The label of a training row is that of the right cell, whatever the sort does with ties, exactly when
  no different cell is at the target's distance.
- The next loss of a row is its own node's exactly when node 1 reports in the first step of the trace and
  the steps up to the last in which it reports list the same nodes in the same order. The next mean loss is
  that of the next time exactly when node 1 reports in the first step and those steps are equally long. In
  both cases the last of them may list more nodes (`ShiftIsRightIff`).

## Model

| member | source | states |
|---|---|---|
| TestRunnerProofs.EveryRunIsSafe | test.py:987-1055 | In every reachable state of every interleaving each job created so far is in exactly one of input queue, one worker's hands, output queue or collector, and nothing else is anywhere; a job shipped back carries its own result or, after an interrupt, is the abandoned job |
| TestRunnerProofs.StepMovesOneJob | test.py:987-1055 | No step of any thread loses or duplicates a job; only dispatching makes one |
| TestRunnerProofs.RunKeepsInv | test.py:1430-1526 | The invariant (FIFO queue contents, phase of the main thread, worker contents, results, places, tally) is kept over whole runs |
| TestRunnerProofs.AbsorbTallies | test.py:1767-1803 | The collector's branch chain keeps exactly the counts and name lists of what it has taken |
| TestRunnerRuns.ExitMeansAllTaken | test.py:1740-1747 | Break jobs are queued last, so once a worker has exited no real job is still queued |
| TestRunnerRuns.NoDeadlock | test.py:1744-1768 | With a worker, or with no job, a reachable state that is not final always has a thread that can go on |
| TestRunnerRuns.DeadlockIff | test.py:1466-1469 | A run can block for ever if and only if no worker was started and there is a job |
| TestRunnerRuns.NegativeJobLimitDeadlocks | test.py:1453-1460 | In terms of processors and `--jobs`: blocking is possible exactly for a negative limit and at least one job |
| TestRunnerRuns.EveryRunIsFinite | test.py:1744-1918 | Any run takes at most six steps for each job, four for each worker and one interrupt |
| TestRunnerRuns.EveryRunCanFinish | test.py:1914-1918 | Any run, however scheduled and interrupted, can be continued to the end of the joins |
| TestRunnerRuns.EveryWorkerTakesOneBreak | test.py:1744-1747 | At the end both queues are empty, every worker has consumed one break job of its own, and each real job was collected exactly once |
| TestRunnerRuns.FinalReport | test.py:1759-1803 | Passed, skipped, failed, valgrind, crashed and interrupted add up to the jobs dispatched; the exit code is 0 exactly when each collected job passed or was skipped |
| TestRunnerRuns.SummaryIsScheduleIndependent | test.py:1932-1948 | Without an interrupt the printed counts and sorted name lists are those of the jobs run one after another, for every schedule |
| TestRunnerRuns.ExitCodeWithoutInterrupt | test.py:2011-2014 | Without an interrupt the exit code is 0 exactly when every test is skipped or returns 0 |
| TestRunnerReports.SkippedTests | test.py:1777-1781 | At the end of an uninterrupted run the tests with the skip flag are counted as skipped and listed, sorted, with the reason in parentheses |
| TestRunnerReports.PassedTests | test.py:1784-1788 | Those whose command returned 0 are counted as passed |
| TestRunnerReports.FailedTests | test.py:1789-1792 | Those whose command returned 1 are counted as failed and their names listed, sorted |
| TestRunnerReports.ValgrindTests | test.py:1793-1797 | Those whose command returned 2 are counted and listed as memory errors |
| TestRunnerReports.CrashedTests | test.py:1798-1802 | Those whose command returned anything else are counted and listed as crashed |
| TestRunnerReports.ShippedInOrder | test.py:1767-1769 | Jobs are collected in the order in which workers shipped them |
| TestRunnerReports.LexLeMeans | test.py:1932-1948 | Names are printed in the order of their first difference, a name before those that extend it |
| TestRunnerRuns.RestIsTheEnd | test.py:1744-1918 | Under any scheduler, a run in which nothing but the signal handler can go on is at the program's end, provided there is a worker or no job |
| TestRunnerRuns.InterruptStopsWork | test.py:994-1003 | Once the flag is up no command is started: those that still return and those still running are the ones that were running |
| TestRunnerRuns.InterruptedRunEnds | test.py:994-1003 | Whenever the interrupt comes and whatever follows it, exactly the commands running at that moment return before the program ends, at most one for each worker |
| TestRunner.WorkerCount | test.py:1440-1469 | At most the processors and at most a positive limit; none exactly without a processor or with a negative limit |
| TestRunnerThreads.TestRun.constructor | test.py:1430-1469 | Starts with empty queues and one idle thread for each processor to be used |
| TestRunnerThreads.HolderIsAlone | test.py:987-1055 | A job in a worker's hands is in no queue, not collected and in no other worker's hands |
| TestRunnerThreads.TestRun.HeldObjectIsPrivate | test.py:987-1055 | So the job object a worker holds can be reached by no other thread |
| TestRunnerThreads.TestRun.PutNextJob | test.py:1484-1526 | The next job, a new object, enters at the end of the input queue, break jobs after all real ones |
| TestRunnerThreads.TestRun.WorkerGet | test.py:987-989 | The queue's first job is in the worker's hands and nothing else changes |
| TestRunnerThreads.TestRun.WorkerDecide | test.py:994-1014 | Over the objects: a break job ends the worker; else, under the flag, the job is marked in place and goes back; else a skipped one goes back as it is; else it runs. Nothing else changes |
| TestRunnerThreads.TestRun.WorkerExecute | test.py:1016-1055 | The return code stored in the job object is seen nowhere else |
| TestRunnerThreads.TestRun.WorkerShip | test.py:1055 | The job enters the output queue and the worker is free |
| TestRunnerThreads.TestRun.CollectNext | test.py:1767-1803 | One iteration of the collector: the counters become the model's next report |
| TestRunnerThreads.TestRun.Record | test.py:1777-1803 | Over the fields: skip flag and return code decide which one counter and list change, and how |
| TestRunnerThreads.TestRun.Run | test.py:987-1055 | Under an arbitrary scheduler the mutable state follows a run of the model, keeps the invariant and stops within the bound |
| TypeWalks.WalksAreTheSimpleOnes | utils/print-introspected-doxygen.cc:447-531 | A walk is enumerated if and only if it follows edges, meets no type twice and avoids the types already on the stack |
| TypeWalks.WalksInPreorder | utils/print-introspected-doxygen.cc:456-530 | The enumeration is in depth-first preorder, each walk once |
| TypeWalks.RecordsDescribeWalks | utils/print-introspected-doxygen.cc:372-377 | The i-th record is the end type of the i-th walk with the path string of its labels |
| TypeWalks.RecordsAreTheSimpleWalks | utils/print-introspected-doxygen.cc:447-531 | On any closed finite graph, cyclic or not, the records are the entries of exactly the simple walks, in preorder |
| TypeWalks.PreorderIsUnique | utils/print-introspected-doxygen.cc:456-530 | A preorder listing of a set of walks is unique, so the statement above determines the output |
| TypeWalks.FreshShrinks | utils/print-introspected-doxygen.cc:451-454 | Entering a type not on the stack leaves fewer types to enter: the measure of the recursion |
| TypeGraph.GraphClosed | utils/print-introspected-doxygen.cc:456-529 | Attributes, descendants and aggregations of registered types lead to registered types |
| TypeGraph.EdgesAre | utils/print-introspected-doxygen.cc:456-530 | Over the registry's own fields: a type leads on to exactly what its attributes point to, other than plain Object, or contain, its registered descendants, and what it is aggregated with, each under its name |
| TypeGraph.EdgesInOrder | utils/print-introspected-doxygen.cc:456-530 | Attributes as they are listed, then descendants as they were registered, then aggregations as they were recorded |
| TypeGraph.EdgeRecorded | utils/print-introspected-doxygen.cc:456-530 | Each of these, if not on the stack, is recorded with the path so far and its name |
| TypeWalks.PathStringFirst | utils/print-introspected-doxygen.cc:360-370 | A path string is its elements in order, each after a slash |
| PathDuplicates.NotedDistinctIff | utils/print-introspected-doxygen.cc:328-348 | Over any calls the missing names are free of duplicates if and only if no two calls note the same name |
| PathDuplicates.ListDistinctIff | utils/print-introspected-doxygen.cc:586-590 | On any closed graph the list gathered from all roots is free of duplicates if and only if no two simple walks, from one root or from two, share end type and path string |
| PathDuplicates.RecordsDistinctIff | utils/print-introspected-doxygen.cc:439-445 | The same for the records of one root |
| PathDuplicates.PathsDistinctIff | utils/print-introspected-doxygen.cc:447-531 | Where names are legible the records of one root are free of duplicates if and only if, for each edge that a type has twice, every walk from the root to that type passes the type the edge leads to |
| PathDuplicates.LegibleListDistinctIff | utils/print-introspected-doxygen.cc:586-590 | The list from all roots is so if and only if this holds of each root and no two roots have a path in common |
| PathDuplicates.TwinRepeats | utils/print-introspected-doxygen.cc:447-531 | On any graph an edge that its type has twice, reached before the type it leads to, repeats a path |
| PathDuplicates.DistinctEdgesAndRootsSuffice | utils/print-introspected-doxygen.cc:586-590 | A check on registry and roots alone: proper names, no edge twice at any type, no root twice and no edge name at two roots leave no duplicate in the list |
| PathDuplicates.RepeatedPair | utils/print-introspected-doxygen.cc:510-530 | An aggregation recorded twice, in either order, repeats paths in the list as soon as a root reaches one of its types before the other |
| PathDuplicates.RepeatedCall | utils/print-introspected-doxygen.cc:328-348 | Two equal calls note a name twice if one of their names is not registered, and otherwise repeat paths in the list as soon as a root reaches one of the two types before the other |
| PathDuplicates.NodeCallsLeaveDuplicates | utils/print-introspected-doxygen.cc:565-567 | For the program's repeated call, in any registry: a missing name is noted twice; with both names registered, and a root that has nodes as its items, the list of paths repeats |
| PathNames.PathStringInjective | utils/print-introspected-doxygen.cc:360-370 | A path string determines its elements, container marks included |
| PathNames.RegistryLegible | utils/print-introspected-doxygen.cc:456-529 | Different type names and attribute names make the paths of the registry legible |
| Reachability.Shorten | utils/print-introspected-doxygen.cc:447-531 | What a walk reaches without passing a type, a simple walk, which is what the search follows, reaches too |
| PathExamples.NodeListRepeatsPaths | utils/print-introspected-doxygen.cc:565-567 | A concrete registry with the list of nodes as root, in which the repeated call repeats paths |
| PathExamples.UnreachedNodeRepeatsNothing | utils/print-introspected-doxygen.cc:565-567 | The same calls with a root that leads nowhere: no duplicate in either list |
| PathExamples.TwoRootsRepeatAPath | utils/print-introspected-doxygen.cc:586-590 | Proper names, no edge twice and no path twice from either root, and yet a path twice in the list of both |
| PathExamples.RootTwiceRepeats | utils/print-introspected-doxygen.cc:586-590 | A root that occurs twice repeats a path |
| PathGathering.StaticInformation.DoGather | utils/print-introspected-doxygen.cc:447-531 | Appends exactly the enumeration to the output and restores both stacks, which keep equal length and hold no duplicate |
| PathGathering.StaticInformation.GatherAttributes | utils/print-introspected-doxygen.cc:456-496 | The first loop follows pointers, except to plain Object, and containers, in attribute order |
| PathGathering.StaticInformation.GatherChildren | utils/print-introspected-doxygen.cc:497-509 | The second loop follows registered descendants in registration order |
| PathGathering.StaticInformation.GatherAggregates | utils/print-introspected-doxygen.cc:510-530 | The third loop follows aggregations in either direction |
| PathGathering.StaticInformation.Gather | utils/print-introspected-doxygen.cc:439-445 | From empty stacks the output grows by the enumeration from the root, each registered descendant under its type name among it; nothing is removed afterwards |
| PathGathering.StaticInformation.RecordAggregationInfo | utils/print-introspected-doxygen.cc:328-348 | The pair is added when both names are registered, otherwise the first unknown name is noted |
| PathGathering.StaticInformation.GetTypicalAggregations | utils/print-introspected-doxygen.cc:538-594 | All calls are recorded or noted, then the output is the enumeration from one root after another; either list is free of duplicates exactly when nothing was noted, or recorded, twice |
| PathGathering.StaticInformation.HasAlreadyBeenProcessed | utils/print-introspected-doxygen.cc:379-391 | True exactly for the types on the stack |
| PathGathering.StaticInformation.GetCurrentPath | utils/print-introspected-doxygen.cc:360-370 | The path elements joined by slashes |
| PathGathering.StaticInformation.Get | utils/print-introspected-doxygen.cc:393-406 | The recorded paths of one type, in the order recorded |
| LoadOrder.SortEndsIff | bindings/python/ns__init__.py:407-421 | Under a given recursion limit the sort ends if and only if the map is closed and the limit has room for its longest chain of dependencies |
| LoadOrder.SortCorrect | bindings/python/ns__init__.py:407-421 | Whenever it ends, the sort of a closed map returns each library once, after all its dependencies, layer k holding exactly the libraries whose longest dependency chain has length k |
| LoadOrder.AcyclicChainsAreShort | bindings/python/ns__init__.py:407-416 | Without cycles a limit above the number of libraries has that room |
| LoadOrder.LayersEndIff | bindings/python/ns__init__.py:407-416 | The same from the middle of the recursion, with k rounds done |
| LoadOrder.SortTerminatesIff | bindings/python/ns__init__.py:407-421 | Some recursion limit suffices if and only if the map is closed and acyclic |
| LoadOrder.TwoMapsWithoutOrder | bindings/python/ns__init__.py:407-416 | Two libraries that need each other, and one that needs an unknown one: no recursion limit is enough |
| LoadOrder.StuckRoundMeansBadDependency | bindings/python/ns__init__.py:394-405 | A round that selects nothing while libraries are pending means a dependency that is neither loaded nor pending, or a cycle among the pending ones |
| LoadOrder.RoundsProgress | bindings/python/ns__init__.py:407-416 | On closed acyclic maps every round shortens the pending list |
| LoadOrder.RoundIsHeight | bindings/python/ns__init__.py:394-405 | The round after k rounds selects exactly the libraries of height k |
| LoadOrder.RoundKeepsOrder | bindings/python/ns__init__.py:394-405 | A round takes the libraries whose dependencies are loaded in the order in which they were pending, and leaves the others in theirs |
| LoadOrder.OrderedMeansAcyclic | bindings/python/ns__init__.py:418-421 | An order with dependencies first exists only for closed acyclic maps |
| LoadOrderSorter.Sorter.ModulesThatCanBeLoaded | bindings/python/ns__init__.py:394-405 | The nested loops return the pending libraries whose dependencies are all loaded, in order |
| LoadOrderSorter.Sorter.TakeRound | bindings/python/ns__init__.py:410-415 | Removing and appending in place moves exactly the selected libraries and enters them as the step |
| LoadOrderSorter.Sorter.DependencyOrder | bindings/python/ns__init__.py:407-416 | The recursion fills the steps with the layers, or reports that the recursion limit was reached |
| LoadOrderSorter.Sorter.SortToDependencies | bindings/python/ns__init__.py:418-421 | The joined steps are the layers in order |
| StyleFixer.FixTabsComplies | utils/check-style-clang-format.py:630-665 | Checking a file after its tabs were fixed reports compliance, even where the fix made a new guard |
| StyleFixer.EnabledShrinks | utils/check-style-clang-format.py:636-645 | Lines enabled in the second pass are among those enabled in the first |
| StyleFixer.TabsOkIff | utils/check-style-clang-format.py:630-655 | Over the text alone: a file complies exactly when every tab is on a line that is no guard and before which the formatting was last switched off; exactly the other lines are expanded |
| StyleFixer.TrimmedLineIff | utils/check-style-clang-format.py:580-588 | A line passes the whitespace check exactly when it ends with a newline and no blank stands before that |
| StyleFixer.ExpansionCanMakeAGuard | utils/check-style-clang-format.py:652-655 | A concrete line that is no guard and becomes one |
| StyleFixer.ReportedIffChanged | utils/check-style-clang-format.py:642-655 | A file is reported exactly when the fix changes it, and lines the pass does not look at stay as they are |
| StyleFixer.FixTabsIdempotent | utils/check-style-clang-format.py:630-655 | Fixing twice is fixing once |
| StyleFixer.PassesCommute | utils/check-style-clang-format.py:329-349 | Whitespace then tabs gives the same lines as tabs then whitespace |
| StyleFixer.BothFixesComply | utils/check-style-clang-format.py:329-349 | In the program's order, each pass from a fresh read of the file, the result passes both checks |
| StyleFixer.FixedFileComplies | utils/check-style-clang-format.py:630-670 | Each fixed file, read again, passes its check and is left alone by a second fix |
| StyleText.ReadBack | utils/check-style-clang-format.py:580-605 | Lines that are written are read back unchanged |
| StyleText.RStripExpand | utils/check-style-clang-format.py:582-588 | Trailing blanks can be removed before or after expanding tabs |
| StyleText.StripExpand | utils/check-style-clang-format.py:632-655 | Text without tabs is found by strip before and after expanding |
| StyleText.ExpandKeepsColumns | utils/check-style-clang-format.py:654 | On one line everything ends in the column where it ended before |
| StyleText.TabStops | utils/check-style-clang-format.py:654 | A tab moves on to the next multiple of four, by at least one column |
| StyleText.ExpandOneMore | utils/check-style-clang-format.py:654 | Character by character: a tab becomes as many blanks as lead to the next multiple of four, any other character stays |
| StyleText.ExpandRestarts | utils/check-style-clang-format.py:654 | The columns are counted anew after a newline or a return |
| StyleText.AsciiSpaces | utils/check-style-clang-format.py:582-588 | The ASCII characters that stripping removes |
| StyleText.ReturnBecomesNewline | utils/check-style-clang-format.py:576-577 | Reading turns a return, with or without a newline after it, into a newline |
| StyleText.WriteOfSplit | utils/check-style-clang-format.py:577-605 | No text is lost between reading lines and writing them |
| StyleFixer.NewGuardsEnableNothing | utils/check-style-clang-format.py:636-645 | New guards in enabled places, with the old ones kept, enable no further line |
| StyleFixer.TabsLine | utils/check-style-clang-format.py:639-655 | One line of the loop moves the guard state to the planned one, has tabs to expand exactly when the planned verdict is bad, and becomes the planned line |
| StyleFixer.TabsLoop | utils/check-style-clang-format.py:630-665 | The loop over the lines: the verdict is on the file as it was, and in fix or verbose mode the array holds the fixed lines |
| StyleFixer.WhitespaceLoop | utils/check-style-clang-format.py:580-600 | The same for trailing whitespace |
| StyleFixer.CheckTabsFile | utils/check-style-clang-format.py:610-670 | Reported exactly when a tab is on a line that is not disabled; rewritten only in fix mode and only when reported |
| StyleFixer.CheckTrailingWhitespaceFile | utils/check-style-clang-format.py:558-607 | The file is rewritten only in fix mode and only when it was reported |
| StyleFixer.CheckStyle | utils/check-style-clang-format.py:329-356 | Both passes in order: success is reported in fix mode or for a clean file, and a fixed file passes both checks |
| Timeline.TimelineDataRange.Search | utils/grid.py:99-116 | The binary search agrees with a linear scan over sorted disjoint ranges; a found position always covers the key, ends included, and none is found only if no sorted range does |
| Timeline.TimelineDataRange.GetRangesBounds | utils/grid.py:147-163 | The bounds are those of the slice; where ranges touch they still enclose every range sharing more than an end point with a window of which an end is covered, and it is said exactly when all ranges between them meet the window |
| Timeline.TimelineDataRange.GetRanges | utils/grid.py:130-146 | The query is the slice between the two scanned positions; where ranges touch it is a slice with the bounds just described |
| Timeline.TouchingWindow | utils/grid.py:130-163 | Any two positions that cover the ends of the window give such bounds, whichever of two touching ranges the search hits |
| Timeline.WindowComplete | utils/grid.py:130-146 | When an end of the window falls in a range, every range that meets the window is returned |
| Timeline.WindowExact | utils/grid.py:130-146 | When both ends do, exactly those ranges are returned |
| Timeline.MeetingMembers | utils/grid.py:130-146 | The ranges wanted are those that start no later than the window ends and end no earlier than it starts |
| Timeline.WindowExactIff | utils/grid.py:130-146 | The exact condition, case by case, for the query to return the ranges that meet the window |
| Timeline.WindowAroundARangeIsEmpty | utils/grid.py:139-140 | A concrete window that contains a range and is answered with nothing |
| Timeline.TimelineEvent.Search | utils/grid.py:194-211 | The loop finds the position of the recursive halving, whatever the times |
| Timeline.FoundIsPosition | utils/grid.py:194-211 | For sorted times that position separates the earlier from the later events, and is that of an event with the key if there is one |
| Timeline.FoundIsEarlier | utils/grid.py:194-211 | For distinct times it counts the earlier events, as a linear scan would |
| Timeline.MiddleIsHit | utils/grid.py:202-205 | An event with the key in the middle of the list is the one found |
| Timeline.TimelineEvent.GetEvents | utils/grid.py:219-228 | The query is the slice between the positions found, for any times and ends; for distinct times the one between the linear counts |
| Timeline.FoundAround | utils/grid.py:219-228 | With repeated times, and also for a window with equal ends, it leaves out nothing strictly inside, keeps an event at each end that is an event time, and has at most its last event after the window |
| Timeline.KeptIff | utils/grid.py:219-228 | With repeated times nothing in the window is lost if and only if the searches find the first event at its start and the last at its end |
| Timeline.NothingLostIff | utils/grid.py:219-228 | However the searches halve, nothing in the window is lost if and only if each end is the time of at most one event |
| Timeline.SecondEventIsLost | utils/grid.py:219-228 | Two events at the end of a concrete window, of which the second is lost |
| Timeline.TimelineEvent.GetEventsBounds | utils/grid.py:229-238 | The two positions, the upper bound one further; for sorted times each separates the events, for distinct times they are the linear counts |
| Timeline.EventWindowIs | utils/grid.py:219-228 | The events in the window as a contiguous slice, then at most one event after it |
| Timeline.EventWindowExactIff | utils/grid.py:219-228 | The query is exact if and only if the window ends at an event or no event is later |
| Timeline.LaterEventIsReturned | utils/grid.py:226-228 | A concrete window before the only event is answered with that event |
| Legend.TopLegendRenderer.Layout | utils/grid.py:522-546 | The height returned is the one the placement function computes |
| Legend.TopLegendRenderer.Draw | utils/grid.py:555-588 | Each square is at the corner of its cell and each text two paddings right of it, its baseline a text height down |
| Legend.FirstCell | utils/grid.py:555-575 | The size of each cell, and the place of the first |
| Legend.NextCell | utils/grid.py:564-574 | The next item stands directly right of an item if there is room up to the width, and otherwise at the left padding, below by the largest item height so far |
| Legend.HeightIs | utils/grid.py:522-546 | The height is the last row's position and the largest item height |
| Legend.TwoItemsShareARow | utils/grid.py:522-588 | Two small items side by side, with their height and the second one's place |
| Legend.NoOverlap | utils/grid.py:555-588 | No two cells overlap, within a row or across rows |
| Legend.LegendFitsIff | utils/grid.py:522-546 | All cells lie inside width by computed height if and only if each item fits the width |
| Legend.DrawingStaysInside | utils/grid.py:575-587 | For an item that fits, the square and the text drawn lie inside width by computed height, the text right of the square and ending a padding before the edge |
| Statistics.Summarise | utils/bench-scheduler.cc:332-388 | For two or more results each of the six averages is the arithmetic mean, each second moment the sum of squared deviations from it, and the variance is never negative; nothing for fewer |
| Statistics.LaterSample | utils/bench-scheduler.cc:351-372 | One iteration of the one-pass loop keeps mean and sum of squared deviations of the samples seen |
| Statistics.Accumulate | utils/bench-scheduler.cc:358-362 | The average moves by the deviation over the count and the moment gains the product of the two deviations |
| SchedulerBench.Bench.Run | utils/bench-scheduler.cc:133-161 | Whatever the delays, exactly the wanted number of events is counted unless the population is empty, the first at the least of the population's delays, time never goes back, and the simulator is left clean for the next run |
| SchedulerBench.Bench.Populate | utils/bench-scheduler.cc:143-147 | Exactly the population's delays are pending |
| SchedulerBench.Bench.RunSimulator | utils/bench-scheduler.cc:150-153 | The population is kept up until the last callback stops the loop |
| SchedulerBench.Bench.Cb | utils/bench-scheduler.cc:163-176 | An executed event replaces itself, or stops the simulator once enough were counted |
| SchedulerBench.Simulator.TakeNext | utils/bench-scheduler.cc:150-153 | An earliest pending event is taken and the clock moves to it, never back |
| LargeTransfer.Sender.constructor | examples/tcp/tcp-large-transfer.cc:105-110 | The buffer holds whole periods of the pattern |
| LargeTransfer.Sender.WriteUntilBufferFull | examples/tcp/tcp-large-transfer.cc:221-243 | Whatever the socket answers, the stream stays the periodic pattern up to the bytes counted, no write leaves the buffer, the total is never exceeded, and the socket is closed exactly when all was accepted without a refusal |
| LargeTransfer.Sender.RunCallbacks | examples/tcp/tcp-large-transfer.cc:215-218 | The same over any sequence of callbacks, with the number of times the socket is closed: once for each callback that ends complete |
| LargeTransfer.ClosedAtMostOnceIff | examples/tcp/tcp-large-transfer.cc:239-242 | It is closed at most once if and only if at most one callback ends complete, which is if and only if none but the last does; never if and only if none does |
| LargeTransfer.SecondClose | examples/tcp/tcp-large-transfer.cc:239-242 | A concrete pair of callbacks that closes it twice |
| LargeTransfer.BufferMatchesStream | examples/tcp/tcp-large-transfer.cc:226-231 | Bytes taken at the buffer offset continue the pattern of the stream |
| LargeTransfer.DeliverMeans | examples/tcp/tcp-large-transfer.cc:224-238 | Each write advances the stream by the least of what the socket takes, its free space, what is left of the total and what is left of the buffer; nothing is written without room or after a refusal |
| LargeTransfer.WholeBuffers | examples/tcp/tcp-large-transfer.cc:224-238 | From a buffer boundary, a socket with room for whole buffers gets one with each write, up to the total |
| LargeTransfer.AcceptingSocketGetsAll | examples/tcp/tcp-large-transfer.cc:224-242 | A socket that accepts something each time gets everything and is closed |
| LargeTransfer.SpliceIsVisible | examples/tcp/tcp-large-transfer.cc:49-53 | A loss in the stream goes unseen only if it is a whole number of periods |
| Fairness.FlowCounters.TraceSink | examples/tcp/dctcp-example.cc:125-129 | One counter grows by the packet size, modulo 2^64 |
| Fairness.FlowCounters.TraceAll | examples/tcp/dctcp-example.cc:125-141 | After any packets each counter holds the bytes of its own flow |
| Fairness.FlowCounters.PrintFairness | examples/tcp/dctcp-example.cc:184-200 | The loop computes numerator and denominator of the index modulo 2^64 |
| Fairness.FlowCounters.Measure | examples/tcp/dctcp-example.cc:143-200 | Only what arrives after the counters were reset is measured |
| Fairness.SumsAdd | examples/tcp/dctcp-example.cc:191-195 | The two sums of one counter, and of counters taken together |
| Fairness.IndexAtMostOne | examples/tcp/dctcp-example.cc:184-200 | The square of the sum is at most n times the sum of squares, with equality exactly for equal counters |
| Fairness.IndexAtLeastShare | examples/tcp/dctcp-example.cc:184-200 | The sum of squares is at most the square of the sum, with equality exactly when at most one counter is not zero |
| Fairness.NeverWrapsIff | examples/tcp/dctcp-example.cc:191-197 | No intermediate sum or product wraps if and only if the denominator does not |
| Fairness.SmallCountersDoNotWrap | examples/tcp/dctcp-example.cc:191-197 | Counters of at most B with n * B below 2^32 are safe |
| Fairness.IndexIsFair | examples/tcp/dctcp-example.cc:197-200 | Then the printed index lies between 1/n and 1, is 1 exactly for equal flows and 1/n exactly for a single active flow |
| TrainingShift.ShiftIsRightIff | generate-training-data.py:114-126 | For any trace and the window the program chooses: every kept row gets its own node's next loss if and only if the window starts with the trace and its steps list their nodes steadily, and the next time's mean loss if and only if the window starts with the trace and its steps are equally long |
| TrainingShift.ShiftRightIff | generate-training-data.py:123-126 | The same for any window between two steps and any notion of a fitting record |
| TrainingShift.WindowOf | generate-training-data.py:114-117 | The two times chosen are those of the first and last step in which node 1 reports |
| TrainingShift.WindowExists | generate-training-data.py:114-117 | Every trace from which the two times can be read has such steps |
| TrainingShift.LateStart | generate-training-data.py:123-126 | A window that starts later than the trace gives the first rows records from too late a time |
| TrainingShift.TimeGroupIsStep | generate-training-data.py:119-122 | The records that a time's mean is taken over are those of its step |
| TrainingShift.SwappedNodesAreMixedUp | generate-training-data.py:123-126 | Two nodes that change places are given each other's loss |
| TrainingShift.AlignedIff | generate-training-data.py:123-126 | Dropping the first step from one column and the last from the others pairs every row with a fitting record of the next time exactly when the steps are steady |
| TrainingShift.EarlyStepsDropped | generate-training-data.py:123-124 | The filter after a step's time drops exactly the steps up to it |
| TrainingShift.LateStepsDropped | generate-training-data.py:125 | The filter before a step's time drops exactly that step and the later ones |
| TrainingCells.RetargetChoosesBest | generate-training-data.py:169-173 | Node 1 is sent to a cell of its own rows with least next loss, nearest first; nothing else changes, and a group without node 1 fails |
| TrainingCells.SelectOptimal | generate-training-data.py:164-174 | The same for every group of the loop |
| TrainingCells.LabelHasTargetDistance | generate-training-data.py:214-217 | In any arrangement by distance the label exists and points at the target's distance |
| TrainingCells.LabelIsRightIff | generate-training-data.py:214-217 | The label points at the target cell, whatever the sort does with ties, exactly when no different cell is at its distance |
| TrainingCells.TiedCellIsMislabelled | generate-training-data.py:214-217 | Two different cells at one distance of which the label takes the wrong one |
| TrainingCells.Reorder | generate-training-data.py:207-223 | Distances ascend, distance, load and loss of a cell stay together, and the loop fails only on a distance that no cell has |

## Left out

- Commands that never return or raise: a worker in `run` would hang or die; the model assumes that every command returns.
- The list `failed_jobs` of `test.py`, which depends on result files and only feeds verbose output.
- Result files, printing, argument parsing and the selection of tests and examples in `test.py`.
- Repeated signals: a second interrupt changes nothing, so the step is taken once.
- The internals of `TypeId`: descendants are an arbitrary relation and the registry is a finite table; it is not part of this model how types are registered.
- Discovery, linking and loading of libraries in `ns__init__.py`; the dependency map is the input.
- Timeline.TimelineDataRange.Search: agreement with the scan is for sorted ranges that share no point; where ranges touch, the position found depends on the halving, and only coverage is stated.
- Sorting of ranges and events by start time: a library call; sortedness is a hypothesis of the theorems.
- Colours, fonts and drawing in `grid.py`; text sizes are an arbitrary function.
- Time stamps, rates and square roots in `bench-scheduler.cc`; the variance whose root is printed is modelled.
- Rounding in floating point everywhere.
- The verbose messages of the style checker, its include-prefix and clang-format passes, the search for files and the process pool.
- The sockets and the network below the sender; an accepted amount between 0 and what was offered, or a refusal, is assumed of `Send`.
- Average and aggregate throughput lines of the fairness report, which divide the same sums by a time.
- Database queries, merging of tables, distances between positions and the training itself in `generate-training-data.py`.
- The order in which the database returns records: a trace is taken to be grouped by increasing time, which the query does not ask for. With fewer than two records of node 1 the program stops with an error.
