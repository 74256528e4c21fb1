# Decision kernels of the orchestrator daemon

A model of the daemon's pure decision code, the part that takes plain data in and
gives a verdict out, with proofs of what each verdict means. One module stands for
one source file; where the source loops or updates fields in place, so does the
model, and each such method is proved against a specification that does not
mention its steps. What the specifications compute with is in turn pinned to the data
it reads, by lemmas that name none of it.

- **Pipeline graph** - `Graphs`, `Pipeline`, `Tarjan`, `DetectCycles`, `Traversals`
  and `Readiness`. Reachability is the existence of a path. Tarjan's search is a class
  whose four-part invariant is kept by every step; cycle detection is proved to
  return exactly the strongly connected components that hold a cycle, and its
  specification is shown to have one solution. The readiness sweep is run as a
  step machine: a run that can go no further has settled everything if and only
  if no node waits on itself.
- **Cron** - `Calendar`, `CronFields`, `Cron`. The Gregorian calendar is defined by
  stepping days and in closed form, and the two agree. The field parser works on
  text, with the 32-bit stepping loop's wrap-around.
- **Derived waits** - `ChildAwaiting`. The memoised recursion rewrites the array it reads;
  the result is the least fixed point, stated as reachability through running runs,
  for every run that no circle of running runs lies below.
- **File import** - `Blackboard`. A directory whose every operation may fail.
- **Statistics and accounting** - `Distribution`, `CopilotJournal`.
- **Routing** - `Condition`, `EdgeRouter`, over parsed `Yaml` values.
- **Protocols** - `Admission`, `FireDecision`, `DeclaredWait`: transition systems with
  invariants over every history.
- **Scanners** - `ByteScanners`, `HarnessArgv`, over UTF-8 by sections 3 and 4 of
  RFC 3629 (`Utf8`) and over text (`Text`).

Where the code and its comments disagree, the model follows the code:

- The cron search comment holds four years of minutes to be enough for any match a
  cron expression can have (cron_schedule.rs:68). Across a skipped century it is not:
  `Cron.NeverFiresWrongIff` says exactly when, `Cron.CenturyOutrunsHorizon` is an instance.
- The Enter rule is described as an Enter after a typed byte (declared_wait.rs:330), but
  a frame is judged as a whole. `DeclaredWait.VerdictsAgreeIff` says exactly when that
  makes no difference; `DeclaredWait.EnterBeforeTypingLifts` lifts where the rule would
  not, `DeclaredWait.TypedAfterLiftForgotten` does not where it would.
- A cron step close to 2^32 wraps around in the release build and inserts values below
  the range's start (`CronFields.WrapInsertsBelow`). `CronFields.InsertedIsDenoted` says
  exactly when a part means what it denotes, `CronFields.FieldMeansIff` when a field does.
- The two journal readers treat white space around a line differently (copilot_journal.rs:78
  and :147), so the ventilation can miss readings the total includes
  (`CopilotJournal.PaddedReadingLost`); `CopilotJournal.ReportedTotalConserved` says
  exactly when it does not.

## Model

| member | source | states |
|---|---|---|
| `Tarjan.Search.StrongConnect` | crates/pdo-daemon/src/graph_resolver.rs:225-261 | a finished call keeps the search invariant (every emitted component is a whole class of mutual reachability; stack nodes reach open nodes and are reached by them) and leaves `v` either popped with the stack as it was, or stacked with a lowlink that is the index of an older stack node it reaches and that bounds every edge left into the old stack |
| `Tarjan.Search.Visit` | crates/pdo-daemon/src/graph_resolver.rs:232-243 | one edge of the open node: descend into an unexplored target, or lower the lowlink to the index of a target still on the stack; either way one more target is accounted for |
| `Tarjan.Search.Open` | crates/pdo-daemon/src/graph_resolver.rs:226-230 | numbering and pushing a node that all open nodes reach keeps the invariant |
| `Tarjan.Search.Close` | crates/pdo-daemon/src/graph_resolver.rs:247-258 | after the last edge the node is finished: its component is emitted when the lowlink is its own index, otherwise it stays on the stack |
| `Tarjan.Search.PopComponent` | crates/pdo-daemon/src/graph_resolver.rs:248-257 | pops down to and including the root; the emitted component is the popped part in pop order and the stack below is untouched |
| `Tarjan.AbsorbCall` | crates/pdo-daemon/src/graph_resolver.rs:234-238 | after the recursive call the minimum of the two lowlinks is again the index of a reached stack node and bounds all edges into the old stack |
| `Tarjan.AbsorbSeen` | crates/pdo-daemon/src/graph_resolver.rs:239-243 | the same after an already explored target, on the stack or popped |
| `Tarjan.MutualIsLeftover` | crates/pdo-daemon/src/graph_resolver.rs:247-258 | when lowlink equals index, nothing outside the popped part is mutually reachable with the root |
| `Tarjan.LeftoversAreMutual` | crates/pdo-daemon/src/graph_resolver.rs:247-258 | everything stacked at or above the root is mutually reachable with it |
| `Tarjan.PoppedIsComponent` | crates/pdo-daemon/src/graph_resolver.rs:247-258 | the popped nodes are exactly one equivalence class of mutual reachability, without repetition |
| `Tarjan.CloseComponent` | crates/pdo-daemon/src/graph_resolver.rs:247-258 | emitting the component and closing the node re-establishes the whole invariant |
| `Tarjan.LeaveOnStack` | crates/pdo-daemon/src/graph_resolver.rs:247-247 | closing a node that is not a root re-establishes the invariant without popping |
| `DetectCycles.BuildGraph` | crates/pdo-daemon/src/graph_resolver.rs:200-212 | the adjacency holds exactly the edges between declared nodes, and the self-edge set exactly the nodes with an edge to themselves |
| `DetectCycles.Components` | crates/pdo-daemon/src/graph_resolver.rs:264-275 | the searches from all nodes emit components that partition the declared nodes |
| `DetectCycles.CycleIffClosedWalk` | crates/pdo-daemon/src/graph_resolver.rs:277-281 | a component passes the filter (two members or a self-edge) exactly when its members lie on a closed walk |
| `DetectCycles.DetectCycles` | crates/pdo-daemon/src/graph_resolver.rs:182-295 | two distinct nodes share a returned cycle iff each reaches the other; a node is listed iff it lies on a closed walk; no node is in two cycles; members and cycles come in node order |
| `DetectCycles.CycleListUnique` | crates/pdo-daemon/src/graph_resolver.rs:182-191 | that specification has one solution: the declared graph alone determines the list |
| `DetectCycles.NoCyclesMeansAcyclic` | crates/pdo-daemon/src/graph_resolver.rs:182-191 | the list is empty iff no declared node lies on a closed walk |
| `Readiness.ReadyNodes` | crates/pdo-daemon/src/graph_resolver.rs:9-95 | the sweep returns the ready nodes, in node order |
| `Readiness.ReadyAmongAre` | crates/pdo-daemon/src/graph_resolver.rs:12-94 | a node is swept iff it is spawnable, not started, not left to a fan-out, not guarded by conditional edges only, and all its unconditional non-Start sources are done |
| `Readiness.SweptIff` | crates/pdo-daemon/src/graph_resolver.rs:9-95 | said of the document alone: a node is swept iff it is an unstarted agent or script, no edge from outside its collection other than a Start node's feeds it, it has an unconditional edge or none, and every non-Start source of its unconditional edges has delivered, a collection as a whole |
| `Readiness.FanOutNeverSwept` | crates/pdo-daemon/src/graph_resolver.rs:22-43 | a collection member fed from outside its collection, by another node than a declared Start, is never swept |
| `Readiness.InnerMemberSwept` | crates/pdo-daemon/src/graph_resolver.rs:22-43 | a member fed only by Start nodes and its own collection is swept as soon as what it waits on has delivered |
| `Pipeline.DeclaredType` | crates/pdo-daemon/src/graph_resolver.rs:31-36 | a declared node has exactly the type it is declared with, an undeclared id none |
| `Readiness.RootsAreReady` | crates/pdo-daemon/src/graph_resolver.rs:45-66 | an unstarted spawnable node without incoming edges is ready |
| `Readiness.GuardedNodesWait` | crates/pdo-daemon/src/graph_resolver.rs:45-63 | a node fed only by conditional edges is never ready |
| `Readiness.CollectionIsBarrier` | crates/pdo-daemon/src/graph_resolver.rs:78-86 | nothing fed by a collection member is ready before the whole region is done |
| `Readiness.ReadyStaysReady` | crates/pdo-daemon/src/graph_resolver.rs:12-94 | spawning one ready node leaves the others ready, so the whole list may be spawned |
| `Readiness.SpawnedOnce` | crates/pdo-daemon/src/graph_resolver.rs:19-21 | in every run of spawns and settlements no node is spawned twice |
| `Readiness.SpawnedAfterSources` | crates/pdo-daemon/src/graph_resolver.rs:65-93 | in any pipeline, a node is spawned only when every non-Start source of an unconditional edge into it has settled, collection members aside |
| `Readiness.RunLength` | crates/pdo-daemon/src/graph_resolver.rs:12-94 | a run has as many events as nodes started plus nodes settled, at most twice the spawnable nodes, so driving the sweep ends |
| `Readiness.BackwardsClosesWalk` | crates/pdo-daemon/src/graph_resolver.rs:65-93 | where every member of a finite set waits on another member, the waiting closes a cycle |
| `Readiness.QuiescentMeansSettled` | crates/pdo-daemon/src/graph_resolver.rs:9-95 | without a waiting cycle, a state where nothing is ready and nothing runs has every spawnable node settled |
| `Readiness.WaitCycleNeverStarts` | crates/pdo-daemon/src/graph_resolver.rs:65-93 | a node on a waiting cycle is never spawned, whatever the run does |
| `Readiness.NoSilentStall` | crates/pdo-daemon/src/graph_resolver.rs:9-95 | a run that can go no further has settled every spawnable node if and only if no node waits on itself; it then spawned and settled each exactly once |
| `Readiness.NoCyclesNoStall` | crates/pdo-daemon/src/graph_resolver.rs:9-95 | an empty cycle list rules the stall out |
| `Traversals.DownstreamExcluding` | crates/pdo-daemon/src/graph_resolver.rs:337-362 | returns exactly the nodes other than the start reachable through non-excluded edges; the worklist terminates on cycles |
| `Traversals.ExcludingIntoStart` | crates/pdo-daemon/src/graph_resolver.rs:328-336 | excluding more edges, all pointing at the start, changes no slice |
| `Traversals.ComputeBodySubgraph` | crates/pdo-daemon/src/graph_resolver.rs:111-180 | each error arises exactly under its condition (no Loop node of that id; no body target; no edge from the body back to `break` or `done`); otherwise the result is the least set holding the body targets and closed under successors of non-Loop members, without the loop itself |
| `Traversals.CollectBody` | crates/pdo-daemon/src/graph_resolver.rs:132-164 | the worklist computes that least set and terminates on cyclic bodies |
| `Traversals.LeastBodyUnique` | crates/pdo-daemon/src/graph_resolver.rs:107-110 | there is only one such set, so an exit-less body is reported exactly when that set has no edge to break or done |
| `Traversals.BodyTargets` | crates/pdo-daemon/src/graph_resolver.rs:121-126 | collects the targets of the edges that leave the loop by its body port |
| `Calendar.DayNumberOfDateOf` | crates/pdo-daemon/src/cron_schedule.rs:95-119 | the calendar by stepping one day at a time and the closed-form day count agree |
| `Calendar.DateOfDayNumber` | crates/pdo-daemon/src/cron_schedule.rs:95-119 | round trip: a date is found again from its day number |
| `Calendar.NextAnniversary` | crates/pdo-daemon/src/cron_schedule.rs:68-75 | a day of the year that every year has recurs within 366 days |
| `Calendar.NextWeekdayInMonth` | crates/pdo-daemon/src/cron_schedule.rs:68-75 | every weekday falls in a given month within 366 days |
| `CronFields.InsertRange` | crates/pdo-daemon/src/cron_schedule.rs:160-164 | the 32-bit stepping loop inserts exactly the values of its stride, wrap-around included |
| `CronFields.InsertedIsDenoted` | crates/pdo-daemon/src/cron_schedule.rs:160-164 | a part contributes exactly what it denotes on paper iff `lo + step` stays below 2^32 |
| `CronFields.ParseField` | crates/pdo-daemon/src/cron_schedule.rs:122-167 | an accepted field yields the strictly sorted union of what its parts insert; a rejected one the error of its first faulty part |
| `CronFields.DenotesIff` | crates/pdo-daemon/src/cron_schedule.rs:160-164 | what a part denotes: the values of its range congruent to `lo` modulo the step |
| `CronFields.WrapInsertsIff` | crates/pdo-daemon/src/cron_schedule.rs:160-164 | what a wrapping part inserts instead: the values up to `lo` congruent to it modulo 2^32 less the step |
| `CronFields.FieldMeansIff` | crates/pdo-daemon/src/cron_schedule.rs:122-167 | the values of an accepted field are exactly those some part denotes iff whatever a wrapping part inserts is denoted by some part; they are never empty, and in range when they mean what is denoted |
| `CronFields.WrapInsertsBelow` | crates/pdo-daemon/src/cron_schedule.rs:160-164 | counterexample: minutes `30/4294967295` are accepted and hold 0 to 30, where 30 alone is denoted |
| `CronFields.CoveredWrap` | crates/pdo-daemon/src/cron_schedule.rs:122-167 | a field may wrap and still mean what it says: `*,30/4294967295` |
| `CronFields.FieldHasValue` | crates/pdo-daemon/src/cron_schedule.rs:122-167 | whatever the steps, an accepted field holds a value of its range |
| `CronFields.PartReads` | crates/pdo-daemon/src/cron_schedule.rs:127-158 | every spelling of a part (star, number or range, with or without a step) is read as what it says, or refused for a bad or zero step or for its range, in that order |
| `CronFields.RangeRefused` | crates/pdo-daemon/src/cron_schedule.rs:144-151 | what is neither a star nor a number is refused by its text; of two with a dash between them, the first that is no number |
| `CronFields.PrintedPartReads` | crates/pdo-daemon/src/cron_schedule.rs:127-158 | a part printed as `lo-hi/step` is read back as that part |
| `CronFields.PrintedFieldReads` | crates/pdo-daemon/src/cron_schedule.rs:122-158 | parts printed and joined by commas are read back as those parts, for any number of them |
| `Text.SplitOnIff` | crates/pdo-daemon/src/cron_schedule.rs:126-126 | the comma parts of a field are the one way to write it as pieces without a comma |
| `CronFields.StarReads` | crates/pdo-daemon/src/cron_schedule.rs:144-146 | a bare star is the whole range |
| `CronFields.ParseDow` | crates/pdo-daemon/src/cron_schedule.rs:169-182 | the weekdays are the image of the 0-7 values modulo 7, strictly sorted |
| `Cron.Parse` | crates/pdo-daemon/src/cron_schedule.rs:33-52 | five fields are demanded; the first faulty field decides the error; an accepted schedule holds the five fields and remembers which day field was not a bare star |
| `Cron.NextFireAfter` | crates/pdo-daemon/src/cron_schedule.rs:61-77 | returns the earliest matching minute of the 4*366 days after `now`, and none only when nothing in them matches |
| `Cron.MatchesIff` | crates/pdo-daemon/src/cron_schedule.rs:95-119 | in civil time, weekdays counted from Sunday 4 January 1970: a minute matches iff minute, hour and month are in their fields and the day is, by either day field when both are restricted, by the restricted one, or always |
| `Cron.CandidatesAreAfterNow` | crates/pdo-daemon/src/cron_schedule.rs:61-66 | the search starts at the first minute strictly after `now` |
| `Cron.FiresWithinYear` | crates/pdo-daemon/src/cron_schedule.rs:68-77 | a parsed schedule that admits a day of the year other than 29 February fires within 366 days of any minute |
| `Cron.OnlyLeapDays` | crates/pdo-daemon/src/cron_schedule.rs:95-119 | a schedule without such a day matches on 29 February or never |
| `Cron.NeverFiresIff` | crates/pdo-daemon/src/cron_schedule.rs:57-77 | the search finds nothing iff the schedule admits no ordinary day, and no leap day either or only with the horizon lying between the last slot of the leap day before a skipped century and the first slot of the one after it |
| `Cron.NeverFiresWrongIff` | crates/pdo-daemon/src/cron_schedule.rs:57-77 | "never fires" is reported of a schedule that does match later exactly for leap-day-only schedules in that position |
| `Cron.LeapSlotInHorizon` | crates/pdo-daemon/src/cron_schedule.rs:68-70 | anywhere else the horizon holds a matching minute of a 29 February |
| `Cron.OutrunMatchesNothing` | crates/pdo-daemon/src/cron_schedule.rs:68-70 | in that position no minute of the horizon falls on a matching 29 February |
| `Cron.FiresAfterCentury` | crates/pdo-daemon/src/cron_schedule.rs:68-77 | the match that is missed: the first slot of 29 February four years after the skipped century |
| `Cron.OutrunYear` | crates/pdo-daemon/src/cron_schedule.rs:68-70 | only the century year among this year and the next four need be checked |
| `Cron.CenturyOutrunsHorizon` | crates/pdo-daemon/src/cron_schedule.rs:33-77 | counterexample to "4 years is enough", from the text on: `0 0 29 2 *`, looked at on 1 March 2096, is reported never to fire, although it does in 2104 |
| `ChildAwaiting.ApplyOverlay` | crates/pdo-daemon/src/child_awaiting.rs:36-53 | every run is left alone or lifted by its first derived child; a run below which no chain of running runs is circular ends AwaitingUser iff its wait derives, whatever the other links; terminates on any links |
| `ChildAwaiting.Overlay.EffectiveAwaiting` | crates/pdo-daemon/src/child_awaiting.rs:58-132 | for a run without a circle of running runs below it the answer is exactly the derived wait; the array stays consistent with the memo, earlier answers stay, and the cycle guard makes the recursion end |
| `ChildAwaiting.Overlay.LiftFromChildren` | crates/pdo-daemon/src/child_awaiting.rs:76-128 | the case of a running run: the first awaiting child in order lifts it, and none means it does not wait |
| `ChildAwaiting.Overlay.LiftBy` | crates/pdo-daemon/src/child_awaiting.rs:93-127 | the in-place rewrite keeps every other run and every earlier lift intact |
| `ChildAwaiting.DerivedFromChild` | crates/pdo-daemon/src/child_awaiting.rs:55-57 | a derived wait is the run's own or comes through a running parent link from a child |
| `ChildAwaiting.ParentAwaitingSince` | crates/pdo-daemon/src/child_awaiting.rs:134-142 | the earliest instant of the child's own waits, none iff it has none |
| `ChildAwaiting.Overlay.SinceOf` | crates/pdo-daemon/src/child_awaiting.rs:93-121 | a lift counts from that instant, or from a fresh reading of the clock |
| `ChildAwaiting.LiftAttemptsTouches` | crates/pdo-daemon/src/child_awaiting.rs:110-116 | only the first attempt of the latest iteration may change, from running to awaiting |
| `ChildAwaiting.OverlayStatuses` | crates/pdo-daemon/src/child_awaiting.rs:25-35 | such a run is AwaitingUser iff its wait derives and otherwise keeps its status; one that waits itself keeps its whole state |
| `ChildAwaiting.AwaitingWasDerived` | crates/pdo-daemon/src/child_awaiting.rs:25-35 | whatever the links, no run is left awaiting without a derived wait |
| `ChildAwaiting.OverlayTouches` | crates/pdo-daemon/src/child_awaiting.rs:99-124 | identities, node sets and the parent's own reason are kept; a changed node was running and now names a child of the run with a derived wait that hangs from it |
| `ChildAwaiting.OverlayTouchesOneNode` | crates/pdo-daemon/src/child_awaiting.rs:99-124 | at most one node of a run changes |
| `ChildAwaiting.OverlayRaises` | crates/pdo-daemon/src/child_awaiting.rs:91-129 | every run the overlay changes was running and now awaits a child with a derived wait: the running node the child hangs from awaits it with cause, sentence, child id and earliest instant, its first latest attempt follows, every other node is unchanged, a missing reason is filled in |
| `ChildAwaiting.OverlayIdempotent` | crates/pdo-daemon/src/child_awaiting.rs:36-53 | a second overlay leaves such a run as the first did |
| `ChildAwaiting.AcyclicOverlay` | crates/pdo-daemon/src/child_awaiting.rs:36-53 | on acyclic links the waits of all runs are exactly the derived ones, and a second overlay changes nothing |
| `ChildAwaiting.IndexChildren` | crates/pdo-daemon/src/child_awaiting.rs:37-47 | the child lists hold exactly the children of each run, in run order |
| `StringOrder.LexLeIff` | crates/pdo-daemon/src/child_awaiting.rs:134-142 | the order in which the earliest instant is found: a prefix first, else the smaller character at the first difference |
| `Blackboard.SanitizeImportName` | crates/pdo-daemon/src/blackboard.rs:56-64 | an accepted name is not empty, `.` or `..` and holds no separator and no control character |
| `Blackboard.SanitizeIff` | crates/pdo-daemon/src/blackboard.rs:56-64 | the name is the last component without the white space around it; it is refused iff that is empty, `.` or `..`, or holds a control character |
| `Text.TrimOf` | crates/pdo-daemon/src/blackboard.rs:58-59 | trimming takes away all white space at both ends and nothing else |
| `Blackboard.SanitizeIdempotent` | crates/pdo-daemon/src/blackboard.rs:56-64 | sanitizing a sanitized name changes nothing |
| `Blackboard.DirectoryIgnored` | crates/pdo-daemon/src/blackboard.rs:58-59 | what precedes the last separator does not matter |
| `Blackboard.SuffixBeforeExtension` | crates/pdo-daemon/src/blackboard.rs:66-73 | the suffix goes before the extension, or at the end of a name without one; a leading dot is no extension |
| `Blackboard.CandidateInjective` | crates/pdo-daemon/src/blackboard.rs:66-73 | no two tries for a file are the same name |
| `Blackboard.CandidateSafe` | crates/pdo-daemon/src/blackboard.rs:66-73 | every name tried for a safe name is safe |
| `Blackboard.TriesBounded` | crates/pdo-daemon/src/blackboard.rs:88-111 | tries that are all taken are no more than the names there are, so the suffix search ends |
| `Blackboard.ClaimName` | crates/pdo-daemon/src/blackboard.rs:88-111 | claims the first free name, or fails having changed nothing |
| `Blackboard.RemoveAll` | crates/pdo-daemon/src/blackboard.rs:115-119 | the clean-up touches only written names, and restores the old directory when every removal succeeds |
| `Blackboard.WriteFiles` | crates/pdo-daemon/src/blackboard.rs:84-114 | on the way every written name is the first free one; an error leaves nothing but written names behind |
| `Blackboard.ImportFiles` | crates/pdo-daemon/src/blackboard.rs:75-122 | all or nothing: on success the directory is the old one plus the files at first free names, in order; on an error every old file is intact, and nothing else remains if the removals succeed |
| `Blackboard.ImportedContents` | crates/pdo-daemon/src/blackboard.rs:75-79 | a successful import keeps the old files and holds each file's bytes under its returned name, and adds no other name |
| `Blackboard.PlacedNames` | crates/pdo-daemon/src/blackboard.rs:66-97 | a file keeps its name when that is free, otherwise it takes the least number from 1 on that makes stem, dash, number and extension a free name |
| `Blackboard.PlacedFresh` | crates/pdo-daemon/src/blackboard.rs:75-79 | the returned names are new and pairwise distinct |
| `Blackboard.PlacedSafe` | crates/pdo-daemon/src/blackboard.rs:56-73 | importing safe names writes safe names only |
| `Distribution.QuantileMonotone` | crates/pdo-daemon/src/distribution.rs:56-66 | quantiles of a sorted sample grow with the probability |
| `Distribution.QuantileBetween` | crates/pdo-daemon/src/distribution.rs:56-66 | a quantile lies between the two observations it interpolates |
| `Distribution.MedianIsMiddle` | crates/pdo-daemon/src/distribution.rs:56-66 | the median is the middle observation or the mean of the middle two |
| `Distribution.DistributionMeans` | crates/pdo-daemon/src/distribution.rs:73-121 | every number of the summary from the sorted observations: the mean as their sum, quartiles and median at their fractional ranks, the extremes, and the fences as extreme observations within one and a half quartile distances |
| `Distribution.SumAdds` | crates/pdo-daemon/src/distribution.rs:79-79 | the sum adds up over pieces |
| `Distribution.SummaryOrdered` | crates/pdo-daemon/src/distribution.rs:73-93 | min <= q1 <= median <= q3 <= max, min <= mean <= max, min <= fence_low <= fence_high <= max, both fences observations |
| `Distribution.FencesAreExtreme` | crates/pdo-daemon/src/distribution.rs:95-121 | a fence is the extreme observation inside its bound |
| `Distribution.ZeroIqrFences` | crates/pdo-daemon/src/distribution.rs:100-104 | equal quartiles are the fences |
| `Distribution.PermutationInvariant` | crates/pdo-daemon/src/distribution.rs:73-93 | the summary does not depend on the order of the sample |
| `Distribution.DistributionOrdered` | crates/pdo-daemon/src/distribution.rs:73-121 | the whole chain for any non-empty sample in any order |
| `CopilotJournal.MaxTotalNanoAiu` | crates/pdo-daemon/src/copilot_journal.rs:73-98 | the largest reading of the usage events, none iff there is no reading |
| `CopilotJournal.SingleCacheModel` | crates/pdo-daemon/src/copilot_journal.rs:112-128 | names a model iff exactly one real id occurs |
| `CopilotJournal.ObservedUsage` | crates/pdo-daemon/src/copilot_journal.rs:130-219 | the groups are the charged keys in first-appearance order, each with the sum of its deltas; the index map always agrees with the list |
| `CopilotJournal.AppearancesUnique` | crates/pdo-daemon/src/copilot_journal.rs:130-139 | the group keys are unique and are exactly the keys some delta was charged to |
| `CopilotJournal.ChargesSplit` | crates/pdo-daemon/src/copilot_journal.rs:187-213 | the deltas charged to keys and those charged to no one make up all deltas |
| `CopilotJournal.ChargeMeans` | crates/pdo-daemon/src/copilot_journal.rs:130-219 | a usage line adds what it reads beyond the largest total before it, charged to the one real model it names, else to the last selected model unless that is the picker, else to no one, under the last selected effort |
| `CopilotJournal.ReportedIsLargest` | crates/pdo-daemon/src/copilot_journal.rs:73-98 | in terms of the events, the reported total is the largest one a usage event carries, none iff none carries one |
| `CopilotJournal.ChargesTelescope` | crates/pdo-daemon/src/copilot_journal.rs:187-190 | all deltas together are the largest total read |
| `CopilotJournal.Conservation` | crates/pdo-daemon/src/copilot_journal.rs:130-219 | groups plus unattributed deltas are exactly the largest total read |
| `CopilotJournal.ReportedTotalConserved` | crates/pdo-daemon/src/copilot_journal.rs:73-98 | the total the other reader reports is conserved iff no line that parses only after trimming out-reads every line that parses as it stands |
| `CopilotJournal.PaddedReadingLost` | crates/pdo-daemon/src/copilot_journal.rs:73-98 | counterexample to conservation of the reported total: one padded line reads 5 and is ventilated as nothing |
| `CopilotJournal.UsdSumConverts` | crates/pdo-daemon/src/copilot_journal.rs:54-60 | converting each group and adding is converting the sum |
| `CopilotJournal.DollarInNano` | crates/pdo-daemon/src/copilot_journal.rs:50-60 | 10^11 nano-AIU are a dollar, and amounts convert in proportion |
| `DeclaredWait.ClassifyInput` | crates/pdo-daemon/src/declared_wait.rs:293-328 | the loop computes the signal of the byte automaton that skips escape sequences whole |
| `DeclaredWait.PlainBytes` | crates/pdo-daemon/src/declared_wait.rs:320-325 | in plain input, printable bytes and bytes from 0x80 are typed, carriage return and line feed are Enter |
| `DeclaredWait.EscapeSequences` | crates/pdo-daemon/src/declared_wait.rs:302-319 | `ESC [` up to a final byte, `ESC O` and one byte, ESC and another byte signal nothing, and an unfinished sequence swallows the rest |
| `DeclaredWait.SignalSplits` | crates/pdo-daemon/src/declared_wait.rs:293-328 | reading two pieces in a row is the union of the first and of the second read from where the first ended |
| `DeclaredWait.ClassifySplitsIff` | crates/pdo-daemon/src/declared_wait.rs:293-328 | a frame may be cut after `a` for every continuation iff `a` ends outside an escape sequence, or already signals both |
| `DeclaredWait.PtyTyped.NotePtyInput` | crates/pdo-daemon/src/declared_wait.rs:345-363 | one frame: remembers typing, and on an Enter with typing remembered forgets it and lifts |
| `DeclaredWait.PtyTyped.DeclareWait` | crates/pdo-daemon/src/declared_wait.rs:185-253 | refused without a live session or when the event cannot be appended, a no-op on the same cause and cleaned message, else declared or refreshed, which forgets the session's typing |
| `DeclaredWait.RepeatIsNoop` | crates/pdo-daemon/src/declared_wait.rs:5-10 | after an accepted declaration, another one is a no-op iff its cause is the same and its message cleans to the same text, as the message shown does; otherwise it refreshes |
| `DeclaredWait.PtyTyped.NoteTypedText` | crates/pdo-daemon/src/declared_wait.rs:369-378 | text sent on the user's behalf counts as typed |
| `DeclaredWait.TypedSetMeaning` | crates/pdo-daemon/src/declared_wait.rs:330-378 | after any history the remembered set holds a session iff something was typed there with no Enter at or after it and no declaration after it |
| `DeclaredWait.LiftsIff` | crates/pdo-daemon/src/declared_wait.rs:336-364 | a frame lifts iff it holds an Enter and something was typed in it or in an earlier event with no Enter in or after that event and no declaration after it |
| `DeclaredWait.OtherSessionsUntouched` | crates/pdo-daemon/src/declared_wait.rs:347-359 | an event leaves the typing of every other session alone |
| `DeclaredWait.ByteRuleMeaning` | crates/pdo-daemon/src/declared_wait.rs:330-335 | the described rule applied byte by byte lifts iff typing is remembered and the frame holds an Enter, or one of its Enters follows one of its typed bytes; it remembers what is typed after the last Enter |
| `DeclaredWait.FrameAgreesIff` | crates/pdo-daemon/src/declared_wait.rs:330-364 | from the same remembered typing, code and rule give a frame the same verdict iff it does not type only after its last Enter, or typing is remembered; and remember the same iff it does not type after its last Enter |
| `DeclaredWait.RuleSetMeaning` | crates/pdo-daemon/src/declared_wait.rs:330-364 | after any history the rule remembers what the code does, and besides it exactly the sessions whose last news is a frame that types after its last Enter |
| `DeclaredWait.VerdictsAgreeIff` | crates/pdo-daemon/src/declared_wait.rs:330-364 | after any history, the exact condition on history and frame under which the code's verdict is that of the rule |
| `DeclaredWait.MemoriesAgreeIff` | crates/pdo-daemon/src/declared_wait.rs:330-364 | code and rule remember the same throughout a history iff no frame of it types after its last Enter |
| `DeclaredWait.EnterBeforeTypingLifts` | crates/pdo-daemon/src/declared_wait.rs:330-364 | counterexample to "an Enter that follows a typed byte": a frame with the Enter first lifts, where the rule does not |
| `DeclaredWait.TypedAfterLiftForgotten` | crates/pdo-daemon/src/declared_wait.rs:330-364 | counterexample the other way: what is typed after the lifting Enter of a frame is forgotten, so the next Enter does not lift, where the rule does |
| `DeclaredWait.TruncatedFits` | crates/pdo-daemon/src/declared_wait.rs:29-44 | a message is one line of at most 100 characters |
| `DeclaredWait.TruncateMeans` | crates/pdo-daemon/src/declared_wait.rs:29-44 | it is the words joined by single spaces, or the first 99 characters of that and an ellipsis |
| `DeclaredWait.CleanMeans` | crates/pdo-daemon/src/declared_wait.rs:204-212 | an agent's own message becomes that line, any other loses the white space around it, and a blank one is none |
| `DeclaredWait.TruncateIdempotent` | crates/pdo-daemon/src/declared_wait.rs:29-44 | truncating on both sides is truncating once |
| `Condition.KeyOrderIrrelevant` | crates/pdo-daemon/src/condition.rs:130-162 | the order of mapping keys, at any depth, never changes a verdict |
| `Condition.ClauseMeans` | crates/pdo-daemon/src/condition.rs:32-75 | a one-operator clause is the operator applied to the resolved operand, and false when it does not resolve |
| `Condition.EqualityMeans` | crates/pdo-daemon/src/condition.rs:64-94 | `eq` compares the field, or the iteration for `iter`, with the scalar or the variable the operand names: same kind, same value, not NaN; `neq` is the opposite |
| `Condition.OrderMeans` | crates/pdo-daemon/src/condition.rs:66-108 | `lt`, `lte`, `gt` and `gte` order numbers, infinities included, and texts at their first difference; other kinds never |
| `Condition.MembershipMeans` | crates/pdo-daemon/src/condition.rs:70-118 | `in` holds iff some item of the list stands for a value like the field, `not_in` iff none does |
| `Condition.NeverMet` | crates/pdo-daemon/src/condition.rs:46-74 | an unknown operator, or an undefined variable as operand or list item, is never met |
| `Condition.ConditionMeans` | crates/pdo-daemon/src/condition.rs:32-56 | a condition is met iff it is a mapping, tags aside, every key a text, and every entry met: alternatives under `any`, otherwise one clause per operator |
| `Condition.EntriesAreConjunction` | crates/pdo-daemon/src/condition.rs:130-162 | the early-return loop over entries is their conjunction |
| `Condition.ClausesAreAlternatives` | crates/pdo-daemon/src/condition.rs:164-169 | `any` is the disjunction of its clauses |
| `Condition.MembershipIsAlternatives` | crates/pdo-daemon/src/condition.rs:110-118 | `in` over a list and `any` over `eq` agree iff every item resolves or no resolving item equals the field |
| `Condition.LiteralMembership` | crates/pdo-daemon/src/condition.rs:110-118 | over a list of literals they always agree |
| `Condition.NegationsAreExact` | crates/pdo-daemon/src/condition.rs:59-75 | `neq` and `not_in` negate `eq` and `in` exactly when the operand resolves, missing fields included |
| `Condition.OrderOperators` | crates/pdo-daemon/src/condition.rs:66-69 | the four order operators are one order: trichotomy with `eq`, and exchanging sides exchanges them |
| `Condition.MissingField` | crates/pdo-daemon/src/condition.rs:77-118 | a missing field satisfies the two negative operators only |
| `Condition.SameResolved` | crates/pdo-daemon/src/variable_resolver.rs:26-43 | operands alike up to key order resolve alike |
| `Condition.ResolveAllIndexed` | crates/pdo-daemon/src/variable_resolver.rs:35-41 | a sequence resolves iff all its items do, item by item |
| `EdgeRouter.FiredEdges` | crates/pdo-daemon/src/edge_router.rs:29-80 | the two passes return the outgoing edges the declarative rule selects, in order |
| `EdgeRouter.FiringIsSubsequence` | crates/pdo-daemon/src/edge_router.rs:26-28 | the fired edges are an order-preserving subsequence of the outgoing ones |
| `EdgeRouter.FiringMembers` | crates/pdo-daemon/src/edge_router.rs:59-79 | an outgoing edge is fired iff the rule selects it |
| `EdgeRouter.FiredIff` | crates/pdo-daemon/src/edge_router.rs:29-80 | said of the edges: a guarded edge fires iff its guard is met, an else edge iff no edge with a met guard shares a port with it, any other edge always |
| `EdgeRouter.ElseFiresOrIsCovered` | crates/pdo-daemon/src/edge_router.rs:3-14 | an unguarded edge fires, or a fired guarded edge shares a port with it |
| `EdgeRouter.ElseExcludesMatched` | crates/pdo-daemon/src/edge_router.rs:3-14 | an else edge that shares a port with a matched edge does not fire, and the matched one does |
| `EdgeRouter.PermutationOnlyPermutes` | crates/pdo-daemon/src/edge_router.rs:29-80 | permuting the outgoing edges only permutes the fired ones |
| `Admission.CountLiveNodeSessionsExcluding` | crates/pdo-daemon/src/admission.rs:108-135 | the nested loops count the session-holding nodes of live runs other than the excluded slot |
| `Admission.NodeTakesSlot` | crates/pdo-daemon/src/admission.rs:108-135 | in a run that is running, awaiting or paused, a running or awaiting node takes exactly one slot; any other node or run takes none |
| `Admission.NoNodesNoSlots` | crates/pdo-daemon/src/admission.rs:108-135 | runs without nodes take no slot |
| `Admission.ExclusionDiscounts` | crates/pdo-daemon/src/admission.rs:94-135 | the exclusion discounts one slot when exactly that slot is held live, and none otherwise |
| `Admission.RestartAlwaysAdmitted` | crates/pdo-daemon/src/admission.rs:36-38 | restarting an iteration that is live is admitted even at the cap |
| `Admission.StepKeepsCap` | crates/pdo-daemon/src/admission.rs:1-16 | every gated spawn, restart, settlement and run ending keeps the live sessions within the cap |
| `Admission.ReviveKeepsCapIff` | crates/pdo-daemon/src/admission.rs:1-16 | bringing an ended run back to life keeps the cap iff there is room for the sessions its nodes still hold |
| `Admission.CapHoldsThroughout` | crates/pdo-daemon/src/admission.rs:1-16 | in every state of every history at most `cap` sessions are live |
| `HarnessArgv.RenderToken` | crates/pdo-daemon/src/harness_argv.rs:66-94 | the loop renders a token in one left-to-right pass |
| `HarnessArgv.RenderingIsMeaning` | crates/pdo-daemon/src/harness_argv.rs:66-94 | a token printed from brace-free literals and closed holes renders to the literals with each value put in once, or is dropped iff some hole is empty |
| `HarnessArgv.HoleOfName` | crates/pdo-daemon/src/harness_argv.rs:35-50 | each of the six hole names stands for its own value, any other name for none |
| `HarnessArgv.HoleReplaced` | crates/pdo-daemon/src/harness_argv.rs:85-92 | a closed hole is replaced by its value, which is not scanned again |
| `HarnessArgv.LiteralCarried` | crates/pdo-daemon/src/harness_argv.rs:69-86 | text without an opening brace is carried over |
| `HarnessArgv.Render` | crates/pdo-daemon/src/harness_argv.rs:52-64 | joins exactly the surviving tokens, in order, by single spaces |
| `HarnessArgv.DroppedLeavesNoTrace` | crates/pdo-daemon/src/harness_argv.rs:52-57 | a dropped token leaves the tail as if it were not in the template |
| `ByteScanners.CapTail` | crates/pdo-daemon/src/guard_runner.rs:44-56 | an over-limit text keeps its longest suffix of at most `limit` bytes that starts on a boundary, after the marker |
| `ByteScanners.TailKeepsAlmostAll` | crates/pdo-daemon/src/guard_runner.rs:44-56 | on valid UTF-8 the tail is valid and at most three bytes short of the limit |
| `ByteScanners.CappedValid` | crates/pdo-daemon/src/guard_runner.rs:40-56 | the marked output is valid UTF-8 |
| `ByteScanners.MarkerReads` | crates/pdo-daemon/src/guard_runner.rs:42-42 | the marker is the UTF-8 of its sentence |
| `ByteScanners.FloorBoundary` | crates/pdo-daemon/src/harness_catalogue.rs:247-255 | the greatest boundary at or below the clamped index |
| `ByteScanners.FloorIsNear` | crates/pdo-daemon/src/harness_catalogue.rs:247-255 | on valid text at most three bytes are lost |
| `ByteScanners.WindowFrom` | crates/pdo-daemon/src/harness_catalogue.rs:236-245 | the slice between the two floors, which are in order |
| `ByteScanners.WindowValid` | crates/pdo-daemon/src/harness_catalogue.rs:236-245 | a window is valid text of at most the length asked, and loses at most three bytes at each end |
| `ByteScanners.OptionBlock` | crates/pdo-daemon/src/harness_catalogue.rs:204-227 | the block ends where the first later option line starts, or with the capped window; no earlier line opens an option |
| `ByteScanners.OptionBlockValid` | crates/pdo-daemon/src/harness_catalogue.rs:204-227 | the block of a valid help text is valid text within the window |
| `ByteScanners.OpensIff` | crates/pdo-daemon/src/harness_catalogue.rs:229-234 | a line opens an option iff a dash follows its leading white space and that takes at most eight bytes |
| `ByteScanners.SpaceIsWhitespace` | crates/pdo-daemon/src/harness_catalogue.rs:231-233 | the white space skipped byte by byte is the white space of the text encoded |
| `Utf8.SplitAtBoundary` | crates/pdo-daemon/src/harness_catalogue.rs:247-255 | valid text cut at a boundary gives two valid texts |
| `Utf8.BoundaryNear` | crates/pdo-daemon/src/harness_catalogue.rs:247-255 | a boundary is never more than three bytes away, on either side |
| `Utf8.BoundaryIff` | crates/pdo-daemon/src/harness_catalogue.rs:247-255 | the boundaries of an encoded text are exactly the places between its characters |
| `Utf8.ValidIsEncoded` | crates/pdo-daemon/src/harness_catalogue.rs:247-255 | every valid text is the encoding of some characters |
| `Utf8.EncodedIsValid` | crates/pdo-daemon/src/harness_catalogue.rs:247-255 | every encoding is valid |
| `FireDecision.FiresIff` | crates/pdo-daemon/src/fire_decision.rs:105-172 | a tick fires iff it is enabled and due, has room, is not stopped by its guard and has a prompt if one is required; the input is the guard's output or the template |
| `FireDecision.VerdictIff` | crates/pdo-daemon/src/fire_decision.rs:105-172 | every verdict and when it is given: silent when off or not due, a recorded skip without room or stopped by the guard, a refusal for a missing required prompt, otherwise a fire |
| `FireDecision.SkipNamesCause` | crates/pdo-daemon/src/fire_decision.rs:105-149 | a recorded skip names its cause: the limit that decides which live counts have room, or the guard without whose verdict the tick would not be skipped |
| `FireDecision.MoreRoomStillFires` | crates/pdo-daemon/src/fire_decision.rs:105-172 | a tick that fires fires the same with fewer live runs and under any policy that is no stricter |
| `FireDecision.DrainsToCeiling` | crates/pdo-daemon/src/fire_decision.rs:16-35 | over any ticks, run endings and policy edits, while the ceilings in force are at most `c`, a trigger stays within `c` once there, and above it only falls, by one for each run that ends |
| `FireDecision.LiveWithinCeiling` | crates/pdo-daemon/src/fire_decision.rs:16-35 | between edits a bounded trigger never exceeds its ceiling, or what was live when it was set |
| `FireDecision.RiseNeedsRoom` | crates/pdo-daemon/src/fire_decision.rs:105-124 | whatever the edits, the live count rises only through a tick that found room under the ceiling then in force |
| `FireDecision.CeilingIsReached` | crates/pdo-daemon/src/fire_decision.rs:16-35 | open ticks alone fill the trigger up to its ceiling, or without bound |

## Left out

- Database, HTTP, tmux, git and subprocess work around the kernels: the model takes what they deliver as arguments, the clock's readings included, or lets them fail at will.
- The event log and its projection: statuses, node maps and run lists are given as projected.
- YAML, JSON and journal parsing: values and events are given as parsed; a journal line carries what each of the two readers makes of it.
- Time zones, daylight saving, RFC 3339 formatting and chrono's year limits: instants are UTC minutes without bound.
- Floating-point rounding, and the loss of 64-bit integers widened to a float: numbers are exact, with infinities and NaN kept in conditions.
- The suffix counter of an import and the session counters are unbounded here, 32-bit or pointer-sized in the source.
- ChildAwaiting.ApplyOverlay: for a run above a circle of running runs states only that a lift is justified and that the recursion ends, because the answer the cycle guard gives is memoised and may keep a run from being lifted.
- Admission.StepKeepsCap: a terminal run does not come back to life in the step system, because reviving one whose nodes still project as holding sessions is gated elsewhere; Admission.ReviveKeepsCapIff says when it keeps the cap.
- DeclaredWait.LiftsIff: speaks of the trigger of a lift; whether the event is then appended depends on the projected cause, which is not modelled.
- Sessions that are not node sessions: the bridge ignores their frames before the keystroke machine is reached.
- Node ids and run ids are taken to be unique, as the maps keyed by them presuppose.
- Library sorts are taken as sorted permutations, by insertion (`Sorting`).
- The prose heuristics of the harness catalogue (quoted runs, keyword lists) and halt-message rendering, which have no crisp specification.
- Error messages: an error carries what it names, not its wording.
