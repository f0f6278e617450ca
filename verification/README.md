# Verified models of the simulation tool chain

A Dafny model of seven parts of the repository, each with the properties that make it trustworthy:
the gatherer of configuration paths, the test runner's worker pool, the routing telemetry with its
TTL cache and control log, the load order of the Python bindings, the style fixer, the statistics of
the scheduler benchmark, and the timeline look-ups of the trace viewer. `dafny verify dfyconfig.toml`
checks all of it.

| file | what it models |
|---|---|
| `ConfigPaths.dfy` | `ConfigGraph`: types, edges, simple paths, and what a depth-first walk with a stack of visited types yields. `ConfigPaths`: the class `StaticInformation`, proved to yield that, in place, with both stacks restored |
| `ConfigUnique.dfy`, `ConfigNames.dfy`, `ConfigRoots.dfy` | when the recorded list repeats an entry: doubled edges, the naming rules of the type registry, the aggregations that a program registers, and walks from several roots |
| `ConfigEdges.dfy` | what the edges out of a type are: its containers, pointers, children and aggregations, each with its step |
| `Containers.dfy` | the helper meant to leave only unique items, and the orders it sorts by |
| `WorkerPool.dfy` | the pool as a machine of interleaved steps (main thread, workers, SIGINT) and its invariant |
| `WorkerPoolRuns.dfy` | conservation of jobs, progress, a bound on every run, what happens after an interrupt |
| `TestRun.dfy` | the tally, the exit status, and the class `Runner`, which refines the machine step by step |
| `ControlLog.dfy` | the three counter maps, the control log and the summary |
| `TtlCache.dfy` | the TTL cache, which forgets, against one that does not |
| `Telemetry.dfy` | the class `RoutingTelemetry` over both |
| `RoutingState.dfy` | the state row of a routing table |
| `RunPrefix.dfy` | the file names of a run |
| `LoadOrder.dfy`, `LibrarySorter.dfy` | rounds of loading, and the methods that compute them |
| `StyleFixer.dfy` | the loop over the lines of a file, for any line checker |
| `LineCheckers.dfy` | the three line checkers and what running them in a row achieves |
| `LineFixes.dfy` | what the fixes make of a line and of a file, character by character, and which lines are guarded |
| `PyStrings.dfy` | the Python string operations they use |
| `Welford.dfy`, `Bench.dfy` | statistics over runs, and a single run |
| `Timeline.dfy` | binary searches over ranges and events |
| `FiniteSums.dfy`, `Sequences.dfy`, `Options.dfy` | sums over finite sets, lists without repetition, an optional value |

## What is proved

* **Configuration paths.** On any type graph, cyclic or not, a walk from empty stacks records exactly
  the labelled simple paths from the root, each once, in path order. It may still record an entry
  twice. On any graph it does when a doubled edge can be reached from the root without passing the
  edge's target; under the rules by which types and attributes are named, it does exactly when some
  type in such reach is aggregated twice with the same other type, or with its own child. Walks from
  several roots repeat an entry between them exactly when they share a root or meet. The clean-up meant
  to remove repetitions gets a copy of the list.
* **Worker pool.** Under every interleaving, with SIGINT at any moment, each job object is in exactly
  one place; no run is stuck before its end if and only if there is a worker or nothing to do; no run
  takes more than seven steps a job and four a worker; after SIGINT only jobs whose worker had already
  looked at the flag are started; the six counts add up; without SIGINT they depend on the suite alone,
  and with it all but the interrupted can only fall; the exit status is 0 exactly when all jobs passed or
  were skipped. Passing means return code 0, of the very task the job was made for.
* **Telemetry.** Maps and log agree in every reachable state, modulo the width of each counter, and the
  sums across the maps come out right exactly when no counter has wrapped. Each row that the bounded
  cache logs answers to a row of the unbounded one for the same packet and time, and shows no more hops
  if TTLs never grow, but it may show fewer. A delivery is logged exactly when the record of some send
  was kept, and logged alike exactly when that send had the packet's first TTL, as for all timely
  deliveries; a late one may be missing or, if the packet was sent on meanwhile, lose hops. Records stay
  young exactly when the clock does not start more than eight seconds before the last eviction, whose
  time is kept from one simulation to the next.
* **Routing state.** The ratio is 1, and the entropy 0, exactly when all entries share one next hop;
  neither depends on the order of the table.
* **File names.** Prefixes are injective although scenario and routing are joined without a separator.
  Names are normalized first, so two runs share their files exactly when their normalized names agree.
* **Load order.** The rounds come to an end if and only if the dependency map is closed and acyclic,
  and the round of a module is the length of the longest chain below it.
* **Style fixer.** What each fix does to a line is stated character by character; white space and tabs
  are fixed without changing anything else. Fixing makes a file compliant and fixing twice changes nothing more, for each checker
  and for any of the three in a row, although expanding tabs can turn a line into a guard.
* **Statistics.** The online averages and second moments are the mean and the sum of squared deviations;
  every run of a suite counts the wanted number of events.
* **Timelines.** The look-ups agree with a plain filter exactly under conditions on the ends of the
  interval that are stated, with an input that fails each; ranges that abut are covered too.

## Where the code and its comments part

* `Uniquefy` says that it works in place; it takes its argument by value
  (utils/print-introspected-doxygen.cc:398-419). So the list of entries is not freed of repetitions; the
  registrations at lines 549-569 name one aggregation twice (lines 555 and 557).
* The cache is said to keep records for eight seconds; the time of the last eviction is a file-level
  variable that neither Start nor Stop resets, so after a restart of the clock records can stay longer
  (helperfiles/routing_telemetry4.cc:140-142).
* The helper of the timeline that returns the ranges between two times returns none at all when
  neither time lies in a range (utils/grid.py:156-157).

## Model

| member | source | states |
|---|---|---|
| ConfigGraph.WalksAreFreshPaths | utils/print-introspected-doxygen.cc:437-521 | below any set of types already on the stack, the enumeration that the recursion follows holds a path if and only if it is simple and avoids that set |
| ConfigGraph.WalksIncreasing | utils/print-introspected-doxygen.cc:437-521 | the paths come in the order of the edges taken, a path before its extensions, so none comes twice |
| ConfigGraph.GatheredIsEntries | utils/print-introspected-doxygen.cc:437-521 | what the recursion appends is, one for one and in order, the end type and the joined labels of the enumerated paths |
| ConfigGraph.GatherEnumeratesSimplePaths | utils/print-introspected-doxygen.cc:430-521 | main result: from empty stacks there is one entry for each simple path from the root and no other, for every graph |
| ConfigGraph.GatherExact | utils/print-introspected-doxygen.cc:430-521 | an entry is recorded if and only if some simple path ends in its type and spells its string |
| ConfigEdges.EdgeIff | utils/print-introspected-doxygen.cc:446-520 | there is an edge out of a type exactly for each container (its name with `/[i]`), each pointer not to the base class (its name), each child and each aggregation (a dollar and the type's name) |
| ConfigEdges.EdgesInOrder | utils/print-introspected-doxygen.cc:446-520 | attributes come before children and these before aggregations, each kind in its own order |
| ConfigEdges.PathGoesOn | utils/print-introspected-doxygen.cc:466-470 | a path to a type goes on along each such edge to a type not on it, by a slash and the step |
| ConfigEdges.PathsOfOneStep | utils/print-introspected-doxygen.cc:446-520 | so a container named n of another type is reported as /n/[i], a pointer as /n |
| ConfigUnique.WithoutLoops | utils/print-introspected-doxygen.cc:437-521 | a walk that avoids a type can be made simple and still avoids it, so reach is a matter of plain graph search |
| ConfigUnique.DoubleInReachRepeats | utils/print-introspected-doxygen.cc:500-520 | on every graph, whatever the names: two equal edges in reach of the root without passing their target make the list repeat an entry |
| ConfigUnique.JoinTells | utils/print-introspected-doxygen.cc:350-360 | a path built of steps that are names, or names followed by `/[i]`, determines its steps |
| ConfigUnique.UniqueIffNoDouble | utils/print-introspected-doxygen.cc:437-521 | where steps are such names and equal steps out of a type lead to one type, the list is free of repetitions if and only if no doubled edge is in reach |
| ConfigNames.NamesTell | src/core/model/type-id.cc:386-391 | the naming rules give both: types have different names, attributes of a type too (lines 700-704), and neither holds a slash |
| ConfigNames.DoubledIff | utils/print-introspected-doxygen.cc:487-520 | under the rules an edge is doubled if and only if two aggregations join the same types, or one joins a type with its own child |
| ConfigNames.UniqueIffNothingRedundant | utils/print-introspected-doxygen.cc:430-521 | main result on repetitions: under the rules the list is free of them if and only if no such aggregation is in reach of the root |
| ConfigNames.RegistrationUniqueIff | utils/print-introspected-doxygen.cc:318-338 | the same for the graph that any list of registrations builds |
| ConfigNames.RegisteredTwiceRepeats | utils/print-introspected-doxygen.cc:318-338 | for every registry and every list of registrations: two known types registered twice repeat an entry in each walk that reaches one without passing the other |
| ConfigNames.RepeatedAggregationRepeatsEntry | utils/print-introspected-doxygen.cc:549-557 | a registry that knows just two types, the two registrations, and the repeated entry |
| ConfigNames.TwoTypesAreNamed | src/core/model/type-id.cc:386-391 | that registry obeys the naming rules, so they can be met where an entry repeats |
| ConfigRoots.MeetMeansShared | utils/print-introspected-doxygen.cc:576-580 | on every graph: if equal steps lead from two roots to different types with an equal edge, the two walks have an entry in common |
| ConfigRoots.SharedMeansMeet | utils/print-introspected-doxygen.cc:576-580 | where steps are names, two different roots have an entry in common only so |
| ConfigRoots.RootsUniqueIff | utils/print-introspected-doxygen.cc:576-580 | under the naming rules the list of all walks is free of repetitions if and only if each walk is (nothing redundant in reach), no root comes twice, and no two walks meet |
| Containers.Uniquefy | utils/print-introspected-doxygen.cc:413-419 | what becomes of the copy: sorted, each item once, none lost and none new |
| ConfigPaths.StaticInformation.constructor | utils/print-introspected-doxygen.cc:295-314 | a new object has empty stacks, lists and output |
| ConfigPaths.StaticInformation.RecordAggregationInfo | utils/print-introspected-doxygen.cc:318-338 | a pair of known names is recorded; otherwise the first unknown name, and only that, is noted |
| ConfigPaths.StaticInformation.GetCurrentPath | utils/print-introspected-doxygen.cc:350-360 | the labels on the stack, each after a slash |
| ConfigPaths.StaticInformation.RecordOutput | utils/print-introspected-doxygen.cc:362-367 | appends the type with the current path |
| ConfigPaths.StaticInformation.HasAlreadyBeenProcessed | utils/print-introspected-doxygen.cc:369-381 | answers whether the type is on the current stack |
| ConfigPaths.StaticInformation.Get | utils/print-introspected-doxygen.cc:383-396 | the recorded paths of one type, in order |
| ConfigPaths.StaticInformation.Follow | utils/print-introspected-doxygen.cc:466-470 | pushing, recursing and popping leave both stacks as they were and record what lies along the edge |
| ConfigPaths.StaticInformation.GatherAttributes | utils/print-introspected-doxygen.cc:446-486 | the loop over the attributes records exactly what lies along the attribute edges |
| ConfigPaths.StaticInformation.GatherChildren | utils/print-introspected-doxygen.cc:487-499 | likewise the loop over the registered children |
| ConfigPaths.StaticInformation.GatherPartners | utils/print-introspected-doxygen.cc:500-520 | likewise the loop over the aggregations |
| ConfigPaths.StaticInformation.DoGather | utils/print-introspected-doxygen.cc:437-521 | terminates on every graph, restores path and stack, and appends what the specification yields; the stack never holds a type twice |
| ConfigPaths.StaticInformation.Gather | utils/print-introspected-doxygen.cc:429-435 | what the walk appended stays as it is, although the clean-up is called on it |
| ConfigPaths.StaticInformation.GetNoTypeIds | utils/print-introspected-doxygen.cc:421-427 | the names come back as noted, repetitions included |
| ConfigPaths.GatheredFromExact | utils/print-introspected-doxygen.cc:576-580 | walks from several roots record an entry if and only if it belongs to a simple path from one of them |
| ConfigPaths.PathsAfterGather | utils/print-introspected-doxygen.cc:527-584 | after registering any aggregations and walking from any roots, the paths reported for a type are those of the simple paths from some root that end in it |
| WorkerPool.StepKeepsInv | test.py:1079-1163 | every step of the main thread, a worker or SIGINT keeps the invariant: FIFO order, valid reports, the balance of jobs and sentinels, one place for each object |
| WorkerPool.RunKeepsInv | test.py:1079-1163 | so does every run, and suite and number of workers stay the same |
| WorkerPool.DecideMeans | test.py:1081-1112 | a sentinel ends a worker whatever the flag says, the flag comes before the mark for skipping, and only then a job is started |
| WorkerPoolRuns.JobsAreConserved | test.py:1675-1677 | in every reachable state each object enqueued is in exactly one of input queue, workers, output queue and collected; once a worker has returned no real job is left in the input queue |
| WorkerPoolRuns.StartedOnce | test.py:1109-1163 | a job is started at most once, and is started exactly when it is running or was handed back as run |
| WorkerPoolRuns.Progress | test.py:1929-1955 | with a worker or with nothing to do, somebody can step until the run is over |
| WorkerPoolRuns.FinishesIffWorkers | test.py:1615-1618 | every run that can go no further is over, if and only if there is a worker or nothing to do |
| WorkerPoolRuns.StepsLeftFalls | test.py:1079-1163 | a measure over queues and workers falls with every step of a thread and stays with SIGINT |
| WorkerPoolRuns.RunIsBounded | test.py:1952-1955 | from any state the steps of a run are bounded by the measure |
| WorkerPoolRuns.RunsAreShort | test.py:1637-1677 | no run takes more than seven steps for each job and four for each worker |
| WorkerPoolRuns.NoStartAfterInterrupt | test.py:1093-1096 | once the flag is set, the only jobs that still start are those whose worker had already looked at it, at most one a worker |
| TestRun.StatusesCoverAll | test.py:1954-1988 | each collected job falls under exactly one of the six statuses |
| TestRun.DoneIsClean | test.py:2111-2112 | after the joins both queues are empty and all workers have returned |
| TestRun.DoneCounts | test.py:1952-1955 | each real job has then been collected once, no sentinel ever |
| TestRun.TallyIsOfSuite | test.py:1952-1988 | without SIGINT the number of jobs in each status depends on the suite alone, not on the schedule |
| TestRun.TallyIsAtMostOfSuite | test.py:1093-1096 | SIGINT at any moment can only take away from the count of a status |
| TestRun.TallyAgreesIff | test.py:1952-1988 | all counts are those of the suite if and only if no job was handed back as a break |
| TestRun.NamesAreCounted | test.py:1962-1988 | each list of names is as long as its count |
| TestRun.WaitsForEver | test.py:1952-1953 | with no worker and some job no reachable state is the end, and the run is stuck as soon as all is dispatched |
| TestRun.Outcome | test.py:2221-2224 | main result: the six counts add up to the number of jobs, and the exit status is 0 if and only if every job was handed back as passed or skipped |
| TestRun.CodesDecide | test.py:1952-2224 | main result on return codes, in terms of the tasks: every collected job has the code of its task; without SIGINT the five counts are the numbers of the tasks that return 0, 1, 2 and anything else and of those to be skipped, and the status is 0 if and only if every task is skipped or returns 0; with SIGINT, if and only if each was handed back so |
| TestRun.StartedExactly | test.py:1102-1151 | without SIGINT the jobs started are those not to be skipped, each once |
| TestRun.AddedMeans | test.py:1954-1988 | field by field and code by code, what one collected job adds |
| TestRun.Runner.SigintHook | test.py:634-637 | sets the flag and nothing else |
| TestRun.Runner.Enqueue | test.py:1637-1677 | one turn of dispatch is a step of the machine; after the jobs come the sentinels of lines 1929-1932 |
| TestRun.Runner.Count | test.py:1954-1988 | a collected job adds to the counter and the list of its status and, if it failed, to the failed jobs, and changes nothing else |
| TestRun.TallyAppend | test.py:1954-1988 | so the counters and lists are always those of the jobs collected, in order |
| TestRun.Runner.Collect | test.py:1952-1955 | one turn of collection is a step of the machine |
| TestRun.Runner.Join | test.py:2111-2112 | waits for a worker that has returned |
| TestRun.Runner.Advance | test.py:1079-1163 | the branches of the loop: sentinel, flag, skip, start, finish, hand back |
| TestRun.Runner.WorkerTurn | test.py:1079-1163 | one step of a worker's loop is a step of the machine |
| TestRun.Runner.Turn | test.py:1079-1163 | until the end some step is possible, and any possible one may be taken |
| TestRun.Runner.Run | test.py:1615-2224 | whatever the order of turns the run ends, with counters and status as in Outcome and CodesDecide; only with no worker and some job there is no status, for the main thread waits for ever |
| ControlLog.BumpTracks | helperfiles/routing_telemetry4.cc:414-445 | a counter bumped together with a new row still equals the weight of its class in the log, modulo its width |
| ControlLog.LogKeepsAgreement | helperfiles/routing_telemetry4.cc:404-474 | logging a message keeps all three maps in agreement with the log, and the log indexed |
| ControlLog.SessionAgrees | helperfiles/routing_telemetry4.cc:404-474 | so they agree after any list of messages, with one row a message |
| ControlLog.SessionCounts | helperfiles/routing_telemetry4.cc:414-445 | after any messages, for each node, protocol and type the packet count is their number and the byte count their bytes modulo 2^64, and with the destination the stream index their number modulo 2^32 |
| ControlLog.AgreeingCountsMessages | helperfiles/routing_telemetry4.cc:414-445 | the same of any log that the maps agree with |
| ControlLog.IndexCountsMessages | helperfiles/routing_telemetry4.cc:441-445 | each row carries the number of messages so far of its node, protocol and type to its destination, modulo 2^32 |
| ControlLog.ColumnsMean | helperfiles/routing_telemetry4.cc:422-439 | transferMode marks broadcast and the first octets 224 to 239; land tells an unknown originator, the originator itself and a relay; isRerr marks AODV type 3 |
| ControlLog.IndicesHaveNoGaps | helperfiles/routing_telemetry4.cc:441-445 | the indices of a stream read in order are 1, 2, 3 and so on, modulo 2^32 |
| ControlLog.CrossMapConservation | helperfiles/routing_telemetry4.cc:414-445 | the packet count is the number of rows if and only if that is below 2^64, and the stream indices over all destinations add up to it if and only if no stream has wrapped |
| ControlLog.ByteConservation | helperfiles/routing_telemetry4.cc:419-420 | the byte count is the sum over the rows if and only if that is below 2^64 |
| ControlLog.SummaryPktsAddUp | helperfiles/routing_telemetry4.cc:269-274 | the packets of the summary add up to the whole log if and only if no count has wrapped |
| ControlLog.SummaryBytesAddUp | helperfiles/routing_telemetry4.cc:269-274 | likewise the bytes |
| ControlLog.SummaryMeans | helperfiles/routing_telemetry4.cc:269-274 | the summary has a row for each node, protocol and type of some message, with their number and bytes modulo 2^64 |
| TtlCache.RunExists | helperfiles/routing_telemetry4.cc:581-606 | from every cache, every list of events has a run |
| TtlCache.SendMeans | helperfiles/routing_telemetry4.cc:584-606 | a send moves the time of the last eviction exactly if a second has passed, whether or not anything is dropped; records over eight seconds old then go; up to 20000 all the rest stay as first stored, above that none does |
| TtlCache.DeliverMeans | helperfiles/routing_telemetry4.cc:626-647 | a delivery forgets its own record and nothing else |
| TtlCache.RowMeans | helperfiles/routing_telemetry4.cc:626-644 | the hops of a row are how far the TTL has fallen, never less than 0 |
| TtlCache.NothingDroppedForASecond | helperfiles/routing_telemetry4.cc:591-606 | under a steady clock, for a second after an eviction was due no step drops a record, but for a delivery its own and a new record on top of 20000 |
| TtlCache.EachRowHasCounterpart | helperfiles/routing_telemetry4.cc:626-647 | each row logged answers to a row of the unbounded cache for the same packet and time, with no fewer hops there if TTLs never grow on the way |
| TtlCache.TimelyDeliveryIsExact | helperfiles/routing_telemetry4.cc:584-606 | a packet delivered at most eight seconds after it was first sent, with no overflow in between, is logged as the unbounded cache would |
| TtlCache.DeliveryIsExactIff | helperfiles/routing_telemetry4.cc:581-647 | a delivery is logged as the unbounded cache would if and only if some send of the packet with its first TTL put in a record that no overflow and no due eviction dropped; no clock is assumed |
| TtlCache.DeliveryIsLoggedIff | helperfiles/routing_telemetry4.cc:581-647 | a delivery is logged at all if and only if the record of some send of the packet was kept; so a row is wrong exactly when the send that was kept had another TTL than the first |
| TtlCache.LateResendLosesHops | helperfiles/routing_telemetry4.cc:584-600 | a packet dropped from the cache and then sent on: two hops are logged where there were six, under a steady clock and falling TTLs |
| TtlCache.LateDeliveryIsNotLogged | helperfiles/routing_telemetry4.cc:590-600 | a packet dropped from the cache and delivered: nothing is logged where there were six hops |
| TtlCache.HeldWasKept | helperfiles/routing_telemetry4.cc:584-606 | what the cache holds was put there by a send since, and kept |
| TtlCache.SizeIsBounded | helperfiles/routing_telemetry4.cc:602-606 | the cache never holds more than 20000 records after a step |
| TtlCache.AlwaysAged | helperfiles/routing_telemetry4.cc:590-600 | under a clock that never goes back, after each data packet sent all records are younger than nine seconds |
| TtlCache.YoungIffClockNotFarBack | helperfiles/routing_telemetry4.cc:140-142 | over all simulations that start at a time, this holds if and only if the kept time of the last eviction is at most eight seconds ahead of it |
| TtlCache.OldRecordSurvives | helperfiles/routing_telemetry4.cc:590-600 | otherwise here is one in which an older record stays |
| Telemetry.RoutingTelemetry.constructor | helperfiles/routing_telemetry4.cc:120-142 | the initial static state |
| Telemetry.RoutingTelemetry.Start | helperfiles/routing_telemetry4.cc:173-196 | takes the configuration and opens new files, or is ignored when already started; the TTL cache is left alone |
| Telemetry.StartForRun | helperfiles/routing_telemetry4.cc:1243-1267 | the session records under seed, run, period, upper-case routing name and the prefix of the normalized names, into new files; while a session runs the call changes nothing |
| Telemetry.RoutingTelemetry.Stop | helperfiles/routing_telemetry4.cc:262-287 | writes one row for each key in key order, whose packets and bytes add up to the log exactly when nothing has wrapped, then empties the maps |
| Telemetry.RoutingTelemetry.WriteSummary | helperfiles/routing_telemetry4.cc:269-274 | what is appended is the summary, and it adds up to the log exactly when no count has wrapped |
| Telemetry.RoutingTelemetry.Summarize | helperfiles/routing_telemetry4.cc:269-274 | the loop writes exactly one row for each key, in order |
| Telemetry.RoutingTelemetry.LogCtrl | helperfiles/routing_telemetry4.cc:404-474 | one bump in each map and one row with the columns of the run, keeping the invariant; the maps then count the logged messages by node, protocol, type and destination; outside a session the maps are bumped and the null stream is met |
| Telemetry.RoutingTelemetry.DropOldRecords | helperfiles/routing_telemetry4.cc:595-599 | erasing while iterating leaves exactly the records not older than eight seconds |
| Telemetry.RoutingTelemetry.CacheOnSend | helperfiles/routing_telemetry4.cc:582-606 | is the step of the cache for a packet sent |
| Telemetry.RoutingTelemetry.OnIpv4Tx | helperfiles/routing_telemetry4.cc:554-609 | a control packet changes log and counters only, a data packet the cache only, a packet without header nothing; the null stream is met exactly by a control packet outside a session |
| Telemetry.RoutingTelemetry.OnIpv4Rx | helperfiles/routing_telemetry4.cc:610-649 | likewise; a known packet gives one row with run, addresses and hops, never negative, if the file is open, and is forgotten |
| RoutingState.CountNextHops | helperfiles/routing_telemetry4.cc:1080-1081 | one entry for each next hop met, holding how often it is met |
| RoutingState.MaxCount | helperfiles/routing_telemetry4.cc:1082-1083 | the largest value of the map, in whatever order it is read |
| RoutingState.Entropy | helperfiles/routing_telemetry4.cc:1086-1091 | the sum over the map in any order is the entropy of the counts |
| RoutingState.ComputeRoutingStateMetrics | helperfiles/routing_telemetry4.cc:1056-1099 | the identifying columns, then zeros for the empty table, and otherwise its size, the entropy of its next hops and the share of the commonest |
| RoutingState.CountsSumToSize | helperfiles/routing_telemetry4.cc:1080-1081 | the counts of the distinct next hops add up to the size of the table |
| RoutingState.LargestCountCovers | helperfiles/routing_telemetry4.cc:1080-1083 | the largest count times the number of next hops is at least the size, with equality exactly when all are used equally |
| RoutingState.RatioIsOneIffOneHop | helperfiles/routing_telemetry4.cc:1082-1084 | the ratio is in (0, 1], and 1 if and only if all entries share one next hop |
| RoutingState.RatioTimesHopsIsAtLeastOne | helperfiles/routing_telemetry4.cc:1082-1084 | the ratio is at least one over the number of next hops |
| RoutingState.EntropyIsZeroIffOneHop | helperfiles/routing_telemetry4.cc:1086-1091 | the entropy is never negative, and 0 if and only if all entries share one next hop |
| RoutingState.EntropyOfEqualUse | helperfiles/routing_telemetry4.cc:1086-1091 | when k next hops are used equally often the entropy is -log2(1/k) |
| RoutingState.OrderIsIrrelevant | helperfiles/routing_telemetry4.cc:1066-1098 | tables with the same next hops in any order have the same row |
| RoutingState.ShuffledTablesShareRow | helperfiles/routing_telemetry4.cc:1066-1098 | in particular tables with the same entries in any order |
| RunPrefix.BuildPrefixInjective | helperfiles/routing_telemetry4.cc:1219-1240 | for one base and scenarios without slashes, the prefix determines scenario, routing, seed and run |
| RunPrefix.NormalizeScenario | helperfiles/routing_telemetry4.cc:1249-1250 | blanks become underscores and slashes hyphens, all else stays |
| RunPrefix.NormalizeRouting | helperfiles/routing_telemetry4.cc:1252-1253 | every character in upper case |
| RunPrefix.FilesSharedIff | helperfiles/routing_telemetry4.cc:1243-1256 | two runs write to the same files if and only if seeds, runs and normalized names agree, for all names |
| RunPrefix.FilesSharedMeans | helperfiles/routing_telemetry4.cc:1243-1256 | in terms of the names: numbers equal, scenarios equal but for blank or underscore and slash or hyphen, routing names equal but for case |
| RunPrefix.UpperMeans | helperfiles/routing_telemetry4.cc:1252-1253 | a normalized routing name has no small letter and differs from the name in case only |
| RunPrefix.DecimalReadsBack | helperfiles/routing_telemetry4.cc:1231-1237 | the numbers are written in base ten, without zeros in front |
| RunPrefix.PrefixExample | helperfiles/routing_telemetry4.cc:1226-1238 | the prefix of one run, in full |
| RunPrefix.ScenariosCanCollide | helperfiles/routing_telemetry4.cc:1249-1250 | two different scenarios that do |
| LoadOrder.RoundKeepsSplit | bindings/python/ns__init__.py:452-457 | pending and loaded modules always split the keys between them, each without repetition |
| LoadOrder.FinishesIffClosedAndAcyclic | bindings/python/ns__init__.py:445-460 | the rounds reach an empty pending list if and only if the map is closed and acyclic |
| LoadOrder.CycleNeverFinishes | bindings/python/ns__init__.py:445-460 | two libraries that depend on each other: a closed map no list of rounds finishes |
| LoadOrder.UnlistedNeverFinishes | bindings/python/ns__init__.py:436-439 | a library that depends on an unlisted one: an acyclic map no list of rounds finishes |
| LoadOrder.RoundIsLongestChain | bindings/python/ns__init__.py:445-460 | the round of a module is the length of the longest dependency chain below it |
| LoadOrder.DependencyInEarlierRound | bindings/python/ns__init__.py:445-460 | a dependency is taken in a strictly earlier round |
| LoadOrder.RoundTakesSomething | bindings/python/ns__init__.py:452-457 | on a closed acyclic map every round takes at least one module |
| LoadOrder.StuckForEver | bindings/python/ns__init__.py:458-460 | after a round that takes nothing, nothing ever changes |
| LoadOrder.StuckHasCycle | bindings/python/ns__init__.py:436-441 | a closed map whose round takes nothing has a cycle |
| LibrarySorter.ModulesThatCanBeLoaded | bindings/python/ns__init__.py:432-443 | the pending modules whose dependencies are all loaded, in order |
| LibrarySorter.Sorter.Move | bindings/python/ns__init__.py:452-457 | the modules leave one list and join the other and the step, each once, the rest in order |
| LibrarySorter.Sorter.TakeRound | bindings/python/ns__init__.py:450-457 | is one round of the specification |
| LibrarySorter.Sorter.DependencyOrder | bindings/python/ns__init__.py:445-460 | finishes if and only if the map is closed and acyclic, with the steps of the rounds |
| LibrarySorter.SortToDependencies | bindings/python/ns__init__.py:462-467 | then the result has every library once, each after all it depends on |
| StyleFixer.CheckManuallyFile | utils/check-style-clang-format.py:532-573 | the verdict is that of all lines not guarded, even when the loop stops early; with fix the new content is the fixed file, otherwise the old one |
| StyleFixer.SecondPassIsClean | utils/check-style-clang-format.py:539-562 | what is enabled in a second pass was enabled in the first, so the second pass finds every line it looks at in order, although lines vanish and guards may appear |
| StyleFixer.FixedFileReadsBack | utils/check-style-clang-format.py:536-571 | written and read again, a fixed file has the fixed lines without those that became empty |
| StyleFixer.FixIsFinal | utils/check-style-clang-format.py:568-573 | for every line checker that obeys three laws a fixed file is compliant and a second fix changes nothing |
| StyleFixer.FixKeepsUnguarded | utils/check-style-clang-format.py:532-573 | a fix keeps what a checker that ignores guards has established, if it does so line by line |
| StyleFixer.FixKeepsGuarded | utils/check-style-clang-format.py:532-573 | likewise for a checker with guards, if the fix makes and moves no guard |
| LineCheckers.WhitespaceIsLineFixer | utils/check-style-clang-format.py:627-657 | the whitespace checker obeys the laws on every line |
| LineCheckers.TabsIsLineFixer | utils/check-style-clang-format.py:660-692 | so does the tab checker: it leaves guards the same guards and lines lines |
| LineCheckers.LicensesIsLineFixer | utils/check-style-clang-format.py:695-756 | so does the licence checker |
| LineCheckers.SpdxReplaces | utils/check-style-clang-format.py:743-744 | replacing the first licence line leaves the marks and blanks around it and changes only that text |
| LineCheckers.EachFixIsFinal | utils/check-style-clang-format.py:512-573 | for the three checkers, on any content: fixed means compliant, and fixing twice is fixing once |
| LineFixes.WhitespaceMeans | utils/check-style-clang-format.py:643-648 | a line loses just the white space at its end and gets a newline, and is compliant if that is what it was |
| LineFixes.TabMeans | utils/check-style-clang-format.py:680-684 | a tab becomes one to four blanks that end at a column divisible by four |
| LineFixes.OtherMeans | utils/check-style-clang-format.py:680-684 | every other character stays |
| LineFixes.FixesKeepText | utils/check-style-clang-format.py:532-571 | on any file, fixing white space or tabs keeps all that is not white space, in order |
| LineFixes.LicenceLineGoes | utils/check-style-clang-format.py:733-746 | a licence line in any comment is not compliant; the first keeps its comment around the new text, any other becomes the empty string |
| LineFixes.OnlyLicenceLinesGo | utils/check-style-clang-format.py:733-736 | and only such lines are not compliant |
| LineFixes.FirstLicenceLine | utils/check-style-clang-format.py:743-744 | the first line as it stands in many files |
| LineFixes.OtherLicenceLine | utils/check-style-clang-format.py:745-746 | and one of the others |
| LineFixes.GuardsMean | utils/check-style-clang-format.py:47-57 | the six guards, with any white space around them |
| LineFixes.FixedLineByLine | utils/check-style-clang-format.py:541-561 | a line after an off guard with no on guard since, and no guard itself, stays; every other line is fixed |
| LineFixes.CompliantLineByLine | utils/check-style-clang-format.py:541-566 | a file is compliant if and only if each line not so guarded is |
| LineCheckers.TabFixMakesGuard | utils/check-style-clang-format.py:680-684 | a line that is no guard and becomes one |
| LineCheckers.FixAllPassesAll | utils/check-style-clang-format.py:366-376 | whichever of the three checks are made of a file, their fixes in a row leave a file that passes them all, and a second run changes nothing |
| LineCheckers.CheckStyle | utils/check-style-clang-format.py:366-383 | for any files and any choice of the three checks for each: with fix every file passes those chosen for it afterwards; without, nothing changes and the answer is whether all pass |
| LineCheckers.CheckStyleFiles | utils/check-style-clang-format.py:386-440 | one check over the files it applies to, and the others stay |
| Welford.NextSample | utils/bench-scheduler.cc:347-351 | one update takes mean and second moment of a sample to those of the sample with one more value |
| Welford.DescribesMean | utils/bench-scheduler.cc:335-351 | what the update keeps is the mean and the sum of squared deviations from it, which is not negative |
| Welford.Summarize | utils/bench-scheduler.cc:320-361 | with two runs or more, for all six quantities: average is the mean of the column and second moment the sum of squared deviations, although the first sample seeds the average and is processed again |
| Bench.Bench.Cb | utils/bench-scheduler.cc:163-177 | the event replaces itself by one successor and is counted, or stops the simulation |
| Bench.Bench.Run | utils/bench-scheduler.cc:131-160 | with any population exactly the wanted number of events is counted, in time order, wherever the random stream stands; one pending event is lost to the stopping one, one delay is drawn for each event scheduled, and the object can be run again |
| Bench.Bench.Suite | utils/bench-scheduler.cc:275-296 | the priming run and all that follow count the same, and use up the random stream at the same rate |
| Timeline.TimelineDataRange.Search | utils/grid.py:113-130 | finds a range that contains the key if and only if there is one |
| Timeline.TimelineDataRange.AddRange | utils/grid.py:132-137 | appends; the list stays in order if and only if the new range may follow |
| Timeline.TimelineDataRange.GetRangesBounds | utils/grid.py:165-181 | with one end covered nothing that meets the interval is left out, up to touching points when ranges touch; with both covered nothing else is selected |
| Timeline.TimelineDataRange.GetRanges | utils/grid.py:147-163 | on disjoint ranges the result is the filter of the whole list if and only if the stated condition on the two ends holds; on ranges that may abut it is the filter up to ranges that share only an end point with the interval, again under an exact condition |
| Timeline.OverlapsSelectedIff | utils/grid.py:147-163 | that condition: an end is covered, or nothing lies strictly between |
| Timeline.RangeBetweenIsMissed | utils/grid.py:156-157 | the range from 2 to 3, missed between 1 and 4 |
| Timeline.LookupAgreesIff | utils/grid.py:147-163 | that condition: both ends covered; or one, and the list does not reach past the other; or none, and no range lies strictly between |
| Timeline.BothEndsCovered | utils/grid.py:162-163 | with both ends covered the result is the filter, even for start after end |
| Timeline.NeitherCovered | utils/grid.py:156-157 | with no end covered the empty result is right if and only if no range lies strictly between |
| Timeline.TimelineEvent.Search | utils/grid.py:217-234 | an event at the key if there is one, else the place where one would go |
| Timeline.TimelineEvent.GetEventsBounds | utils/grid.py:255-264 | also with events at equal times: none strictly inside is left out, none before the start is selected, only the last may be after the end |
| Timeline.TimelineEvent.GetEvents | utils/grid.py:244-253 | on increasing times the result is the filter of the whole list if and only if the stated condition on the times holds, and otherwise the filter and the first event after the end |
| Timeline.EventsSelected | utils/grid.py:244-253 | there is one event too many exactly when none is at the end, some is after it, and none lies between the end and a later start; start may be after end |
| Timeline.EventAfterEndIsSelected | utils/grid.py:244-253 | the event at 5, selected between 1 and 4 |

## Left out

- The weather and attenuation classes, the scratch scenarios and the search-and-rescue protocol are not part of this model.
- RunPrefix.FilesSharedIff: seeds and runs are natural numbers of any size; creating the directories is left out; `std::toupper` is that of the C locale.
- ConfigPaths.StaticInformation.Gather: the answers of the ns-3 type registry are arbitrary, but fixed during a walk; printing is left out. std::sort is an insertion sort.
- ConfigNames.UniqueIffNothingRedundant: the naming rules are hypotheses. The registry enforces that names differ; that they hold no slash, and that attributes are not called `[i]` and do not begin with a dollar, is convention.
- WorkerPool: what a job returns is arbitrary but fixed for each job; subprocesses, valgrind, elapsed times, names, XML and HTML output and argument parsing are left out. Taking from a queue, reading the flag, starting, finishing and handing back are separate steps; each is atomic.
- TestRun.Runner.Count: a job's number stands for its name, and the reason for a skip is left out.
- TestRun.Runner.Run: the dispatch of examples (test.py:1680-1924) differs from that of suites only in the job's fields, and is one loop here.
- Telemetry.RoutingTelemetry.LogCtrl: after the null stream is met nothing more is said of the program. How packets are classified and measured is arbitrary.
- Telemetry: snapshots, drops and the debug counters are left out. Times are whole nanoseconds.
- RoutingState.ComputeRoutingStateMetrics: arithmetic is on exact reals, the logarithm is any function (with the signs of a logarithm where the entropy's sign is stated), and counts do not overflow.
- LibrarySorter.Sorter.DependencyOrder: when a round takes nothing the source recurses until Python's recursion limit; here the answer is false. A dependency map whose rounds exceed that limit is not modelled either. Finding libraries and reading their dependencies are left out.
- LineCheckers.CheckStyle: which checks apply to a file's name is a parameter; the checks of include prefixes and of formatting, which run before and after the three, are left out.
- StyleFixer.CheckManuallyFile: content is text after the translation of line ends; the messages for verbose mode, the process pool, the clang-format check and the check of include prefixes (which depends on which files exist) are left out.
- Welford.Summarize: exact reals in place of doubles; the square roots and the printing are left out.
- Bench.Bench.Run: the simulator is modelled as a clock and a bag of pending times from which a least one is taken; the delays are any function of the draw's number, not negative; timers are left out, and the simulator is destroyed at the end of each run.
- Timeline.TimelineDataRange.Search: requires ordered ranges, as the sorting calls are left out; drawing is left out.
- Timeline.TimelineEvent.Search: requires ordered events, likewise.
