# Verified model of the server's core components

This project models five components of the server and proves what they are for. It covers the
process scheduler, the LRU cache, the path normaliser, request-target decoding and routing, and
the duration arithmetic of the estimator and the backoff iterator. `dafny verify dfyconfig.toml`
checks everything.

| file | what it holds |
|---|---|
| `Sequences.dfy` | splitting and joining on a separator, shared by paths and targets |
| `PathNormalize.dfy` | the path normaliser and what a path means |
| `LruModel.dfy`, `Lru.dfy` | the recency list on values with its laws; the cache on the heap |
| `Jobs.dfy`, `P90Estimator.dfy` | job records, pending queue, finished store; the duration window |
| `SchedulerModel.dfy`, `Scheduler.dfy` | the scheduler's callbacks as steps on values; the class that takes them |
| `SchedulerRuns.dfy` | whole runs of the scheduler in its environment |
| `PercentCoding.dfy`, `UriParser.dfy`, `Router.dfy` | percent decoding, target parsing, route selection |
| `Backoff.dfy` | the delays of the backoff iterator and the retry loop |

Code that works in place is a method or a class. Its contract ties the new state to a function on
values, and the laws are lemmas about that function. Where a contract names such a function, some
lemma says without it, in numbers and bytes, what it answers: `TurnInFull` and `ExitWithCode` for
the scheduler, `StepOnListed` for the cache, `TargetRoundTrip` for targets, `OneRoute` for routes.

**Scheduler.** Each callback of the event loop is one atomic method, because one thread runs the
loop. A run is any sequence of events: turns of the loop with any spawn result, including the
failure -1, stops, exits, expiring timers and delivered timers. An exit of a spawned process is
delivered at most once, at any later time, even after the process was killed and its job started
again. An expired timer may be delivered after the entry that owned it has gone. The laws over runs
are for submitted jobs with distinct ids. `SafeExactlyForDistinctIds` shows that this is no stronger
than needed: the slot counters are right over all runs exactly when the ids are distinct.
`TickKeepsLanes` gives the exact step at which a repeated id breaks them.

**Where the code differs from what its comments say**

* The half-lane test for SLOW jobs (`process/aps_scheduler.cpp:122-124`) restricts nothing, because
  the function goes on to return true. `Scheduling.Scheduler.Schedulable` proves that a job is
  schedulable exactly when some slot is free, `WhereTheHalfLaneTestFails` says in which states the
  test would have refused it, and `HalfLaneIsBorrowed` is a run into such a state.
* `decoded_path` is documented as normalized (`httpd/http_uri.h:24`), but the parser never calls the
  normaliser: `/a/../b` decodes to itself (`DotsAreKept`). `DecodedPathIsNormalExactly` says for
  every raw path when the decoded path is in normal form; raw paths without escapes come out as they
  are (`PlainPathStays`).
* The exit callback matches by id only. `LateExitDropsTheNextRun` is a run in which the exit of a
  killed process removes the next run of its job, so that a normal exit is never stored.
  `ExitsHitTheirRun` says, for entries in either lane, exactly when an exit ends its own run.
* A start in the SLOW lane whose spawn fails holds its slot for ever, unless the exit of an earlier
  run of the job is still to come (`FailedSlowStartIsStuck`, with an input in `FailedSpawnSticks`).
  `StaysExactlyWhenStuck` and `StuckExactlyAfterFailedSpawn` show that these are the only entries
  that never leave. They cannot hold every slot, and every other job not dropped yet can still
  finish (`AllButStuckCanFinish`).
* The backoff shift drops bits for wide shifts. `ClosedForm` gives the exact inputs on which the
  delay is not the capped geometric one: those where the shift pushes every bit of the base out of
  the 64, where the delay is zero instead of the cap, and, past shift 63, a zero base. `DelayCollapses`
  is such an input.

## Model

| member | source | states |
|---|---|---|
| PathNormalize.Normalize | foundation/path_normalize.h:10-69 | the tokenizing loop, the stack of segments and the printing loop compute the normal form of the path |
| PathNormalize.SkipSeparators | foundation/path_normalize.h:26-30 | skipping a run of separators changes no token still to come |
| PathNormalize.ScanToken | foundation/path_normalize.h:32-36 | the scan ends at the first separator or at the end, and the token holds none |
| PathNormalize.Print | foundation/path_normalize.h:57-66 | the printing loop joins the segments, behind a separator for absolute paths |
| PathNormalize.Reduce1Walks | foundation/path_normalize.h:37-54 | handling one token moves the location the stack stands for exactly as entering that name does |
| PathNormalize.EnterByName | foundation/path_normalize.h:37-54 | in resolution `.` stays, `..` goes up and stays at the root, any other name goes down |
| PathNormalize.NormalPreservesMeaning | foundation/path_normalize.h:10-69 | from every starting directory the normal form leads to the same place as the path, by pathname resolution without symbolic links |
| PathNormalize.NormalKeepsAbsoluteness | foundation/path_normalize.h:19-59 | the normal form is absolute exactly when the path is |
| PathNormalize.NormalIsNoLonger | foundation/path_normalize.h:57-68 | normalising never lengthens a path |
| PathNormalize.NormalIsInNormalForm | foundation/path_normalize.h:21-68 | no empty or dot segment, no parent segment in absolute results, only a leading run of them in relative ones |
| PathNormalize.FixedExactlyInNormalForm | foundation/path_normalize.h:21-68 | the paths left unchanged are exactly those in normal form |
| PathNormalize.NormalIsIdempotent | foundation/path_normalize.h:71-77 | normalising twice is normalising once |
| PathNormalize.NormalIsCanonical | foundation/path_normalize.h:19-68 | two paths have the same normal form exactly when they lead to the same place from every directory, relative or absolute in any combination |
| Lru.NodeList.Unlink | foundation/lru.inl:36-51 | taking a node out keeps the links well formed in both directions and the other nodes in order |
| Lru.NodeList.Splice | foundation/lru.inl:18-31 | splicing moves one node to the front and keeps the order and values of the others |
| Lru.LRU.constructor | foundation/lru.inl:1-6 | a cache starts empty, with its index in agreement |
| Lru.LRU.Get | foundation/lru.inl:8-21 | answers the listed value, moves a hit to the front, inserts nothing on a miss, and keeps list and index in agreement |
| Lru.LRU.Put | foundation/lru.inl:23-42 | overwrites and moves to the front, or evicts the least recent entry when full and adds at the front; size stays within capacity |
| Lru.LRU.EvictLast | foundation/lru.inl:33-37 | the victim is the last node, and leaves both the list and the index |
| Lru.LRU.Erase | foundation/lru.inl:44-54 | removes exactly the given key from the list and the index |
| Lru.LRU.IndexAgrees | foundation/lru.inl:10-53 | the index knows exactly the listed keys, which are distinct, and points at the listed value of each |
| LruModel.StepOnListed | foundation/lru.inl:8-54 | an operation on a key listed at position i: a get or put brings the entry, with the old or the new value, to the front, an erase takes it out, and the others stay as they are |
| LruModel.StepOnMissing | foundation/lru.inl:8-54 | an operation on a key not listed: only a put changes anything, and drops the last entry exactly when the list is full |
| LruModel.Inclusion | foundation/lru.inl:8-54 | under any operations the smaller cache is a subsequence of the larger one, which is ahead by at most the difference of the capacities |
| LruModel.HitsAreMonotone | foundation/lru.inl:8-21 | every hit in the smaller cache is a hit with the same value in the larger one |
| LruModel.KeysAreTheLatest | foundation/lru.inl:8-42 | without erasures the keys are the first `capacity` of the touched keys, latest first and without repeats |
| LruModel.ValuesAreTheLatest | foundation/lru.inl:23-42 | every cached value is the one last put for its key, erasures or not |
| LruModel.FoundExactlyWhenRecent | foundation/lru.inl:8-42 | without erasures a key is found exactly when it was touched and fewer than `capacity` other keys have been touched since |
| LruModel.FoundWhenRecent | foundation/lru.inl:8-54 | whatever is erased, a key touched, not erased since, and with fewer than `capacity` other keys touched since is found |
| LruModel.ErasuresKeepOlderKeys | foundation/lru.inl:44-54 | with erasures an older key can be found as well: a concrete run |
| LruModel.PlaceInRecency | foundation/lru.inl:18-31 | the keys ahead of a key in recency order are those touched since its last touch |
| Scheduling.Scheduler.Make | process/aps_scheduler.cpp:47-72 | construction fails exactly on a missing context, queue or store or fewer than four slots, and otherwise starts with nothing running |
| Scheduling.Scheduler.RunLoop | process/aps_scheduler.cpp:89-106 | one turn of the loop takes the starting step of the model when not stopped, a job waits and a slot is free, and nothing otherwise; a timer is set exactly for a FAST start, to the computed timeout |
| Scheduling.Scheduler.Schedulable | process/aps_scheduler.cpp:108-128 | a job is schedulable exactly when the counters together are below the number of slots, whatever its lane |
| Scheduling.Scheduler.Schedule | process/aps_scheduler.cpp:130-195 | a FAST job gets the FAST lane exactly while one more fits into a quarter of the slots, a SLOW job exactly when SLOW jobs hold three quarters already; a timer goes with that lane alone; the entry is recorded unless the id runs already |
| Scheduling.Scheduler.HandleExit | process/aps_scheduler.cpp:197-232 | a known entry leaves its lane; a normal exit is stored and its duration recorded, any other is dropped: the step that ExitWithCode and ExitBySignal describe |
| Scheduling.Scheduler.HandleTimeout | process/aps_scheduler.cpp:256-283 | a known entry leaves its lane and its job is queued again as SLOW |
| Scheduling.Scheduler.ComputeTimeout | process/aps_scheduler.cpp:234-254 | 30 seconds below 15 samples, else the least integer not below one and a half times the 90th percentile; at least 90% of the samples are shorter |
| Scheduling.TimeoutInNumbers | process/aps_scheduler.cpp:234-254 | the timeout the contracts name is 30 seconds below 15 samples and from then on the least integer not below one and a half times the percentile, and nothing else |
| SchedulerModel.TurnInFull | process/aps_scheduler.cpp:89-192 | in any state a turn changes nothing when stopped, with nothing waiting or without a free slot; otherwise the front job gets its lane by the quarters, only that lane's counter moves, and only a FAST entry owns a timer |
| SchedulerModel.ExitWithCode | process/aps_scheduler.cpp:203-214 | an exit with any code from 0 to 255 stores the record under the id and records the whole seconds run, if at least one, among the latest 1000 |
| SchedulerModel.ExitBySignal | process/aps_scheduler.cpp:215-231 | a death by any signal, with a core dump or without, leaves store and samples alone and the table without the entry |
| SchedulerModel.SecondsTruncate | process/aps_scheduler.cpp:210-212 | durations are cut to whole seconds, toward zero |
| SchedulerModel.TickKeepsLanes | process/aps_scheduler.cpp:108-192 | starting a job keeps counters and lane limits right exactly when its id is not running already |
| SchedulerModel.ReleaseKeepsLanes | process/aps_scheduler.cpp:221-231 | releasing the slot of a running job keeps the counters right and never underflows |
| SchedulerModel.FreeSlotMeansRoom | process/aps_scheduler.cpp:110-127 | with the counters right, a slot is free exactly when fewer jobs run than there are slots |
| SchedulerModel.WhereTheHalfLaneTestFails | process/aps_scheduler.cpp:118-127 | a slot is free and the half-lane test fails exactly when the slow lane is full and the fast lane at least half full but not full |
| SchedulerRuns.LaneSafety | process/aps_scheduler.cpp:66-155 | in every reachable state the counters are the numbers of running entries per lane, FAST at most a quarter of the slots and SLOW at most the rest |
| SchedulerRuns.TurnStartsFront | process/aps_scheduler.cpp:89-192 | in every reachable state a turn changes nothing when stopped, with nothing waiting or as many entries as slots; otherwise it starts the front job in the lane the quarters give, with an exit to come unless the spawn failed and a timer armed exactly if FAST |
| SchedulerRuns.ExitsAreFinished | process/aps_scheduler.cpp:203-214 | in every reachable state the exit of a running job with any code finishes it, with its record and its whole seconds kept |
| SchedulerRuns.KillsAreDropped | process/aps_scheduler.cpp:215-231 | the death of a running job by any signal drops it without a record or a sample |
| SchedulerRuns.StoppedStartsNothing | process/aps_scheduler.cpp:84-92 | once stopped, no continuation starts a job |
| SchedulerRuns.JobConservation | process/aps_scheduler.cpp:89-283 | every submitted job is in exactly one of queue, running table, store and dropped; starts are normal exits plus drops plus timeouts plus running entries |
| SchedulerRuns.JobsKeepTheirSpecs | process/aps_scheduler.cpp:13-45 | a job carries its submitted specification everywhere; it waits as submitted until first started, and as SLOW after |
| SchedulerRuns.GoneForGood | process/aps_finished_storage.cpp:7-15 | a finished or dropped job never waits or runs again, and its stored record never changes |
| SchedulerRuns.TimersMatchTheirRuns | process/aps_scheduler.cpp:167-192 | an outstanding timer belongs to the FAST entry of its job's latest start or its job has left for good; exactly the FAST entries have one |
| SchedulerRuns.TimeoutsHitTheirRun | process/aps_scheduler.cpp:256-283 | a delivered timer ends the FAST run that armed it and puts its job at the end of the queue as SLOW, or changes nothing; so the SLOW branch is never taken |
| SchedulerRuns.ExitsHitTheirRun | process/aps_scheduler.cpp:197-201 | an exit that finds its job running, in either lane, ends its own run exactly when the job has not been started again since |
| SchedulerRuns.EntriesAreOfTheLatestStart | process/aps_scheduler.cpp:13-45 | a running entry holds the process and the time of its job's latest start, and a stored record the time of that start |
| SchedulerRuns.SafeExactlyForDistinctIds | process/aps_scheduler.cpp:189-192 | the counters are right over all runs exactly when the submitted ids are distinct |
| SchedulerRuns.FirstInFirstOut | process/aps_pending_queue.cpp:20-45 | the starts followed by the queue always are the initial queue followed by the jobs queued again |
| SchedulerRuns.StartsInTurn | process/aps_scheduler.cpp:89-96 | the job at position p is the (p+1)-th start, made by the (p+1)-th turn that is not stopped and finds a free slot |
| SchedulerRuns.WindowIsOfFinishedJobs | process/aps_scheduler.cpp:203-214 | the estimator's window is the last 1000 positive run times, as stored, of the finished jobs in finishing order |
| SchedulerRuns.StaysExactlyWhenStuck | process/aps_scheduler.cpp:197-283 | a running entry stays whatever happens exactly when it is SLOW and no exit of its job is to come; every other entry leaves in some continuation |
| SchedulerRuns.StuckExactlyAfterFailedSpawn | process/aps_scheduler.cpp:157-192 | that is the case exactly for a SLOW entry whose spawn returned -1 while no exit of an earlier start of its job is to come |
| SchedulerRuns.FailedSlowStartIsStuck | process/aps_scheduler.cpp:157-192 | a start in the SLOW lane whose spawn fails stays running for ever exactly when no exit of an earlier run of the job is still to come |
| SchedulerRuns.FailedSpawnSticks | process/aps_scheduler.cpp:157-192 | a SLOW job whose first spawn fails is stuck |
| SchedulerRuns.StuckWithinSlowLane | process/aps_scheduler.cpp:66-71 | with four slots or more, stuck entries take at most the slow lane, so never every slot |
| SchedulerRuns.FrontCanStart | process/aps_scheduler.cpp:89-128 | from every reachable unstopped state with a waiting job, some continuation starts the front job next |
| SchedulerRuns.AllButStuckCanFinish | process/aps_scheduler.cpp:89-283 | from every reachable unstopped state, some continuation empties the queue, drops nothing more, and stores every job that is neither dropped already nor stuck |
| SchedulerRuns.HalfLaneIsBorrowed | process/aps_scheduler.cpp:118-127 | a run in which a SLOW job starts in the FAST lane although the half-lane test fails |
| SchedulerRuns.LateExitDropsTheNextRun | process/aps_scheduler.cpp:197-201 | a run in which a killed process's exit drops the next run and its normal exit is not stored |
| SchedulerRuns.DuplicateIdLosesASlot | process/aps_scheduler.cpp:189-192 | a run in which a repeated id makes the counters exceed the running table |
| Jobs.PendingQ.Push | process/aps_pending_queue.cpp:20-27 | a job goes to the end of the queue |
| Jobs.PendingQ.Pop | process/aps_pending_queue.cpp:34-45 | the front job is returned and removed |
| Jobs.FinishedStorage.Store | process/aps_finished_storage.cpp:7-15 | a record is added, and one already stored under the id stays |
| Jobs.FinishedStorage.Find | process/aps_finished_storage.cpp:17-26 | the stored record, or the default one, empty and with exit code -1, when there is none |
| P90.P90Estimator.Add | process/aps_p90_estimator.cpp:16-28 | the window becomes the latest `capacity` of its samples and the new duration if positive |
| P90.PositivesPieceByPiece | process/aps_p90_estimator.cpp:16-21 | the durations counted are exactly those of one second or more, in order |
| P90.WindowIsTheLatest | process/aps_p90_estimator.cpp:20-27 | over any history the window is the last `capacity` positive durations added |
| P90.P90Estimator.Compute | process/aps_p90_estimator.cpp:30-55 | the least value that at least 90% of the samples do not exceed, which is a sample, or zero for no samples; the index needs no clamp |
| P90.SelectedIsP90 | process/aps_p90_estimator.cpp:41-54 | the element of rank ceil(0.9 n) of any selection with the same multiset is the 90th percentile |
| P90.P90IsUnique | process/aps_p90_estimator.cpp:41-54 | there is only one 90th percentile |
| P90.NthElement | process/aps_p90_estimator.cpp:45-52 | selection in place keeps the multiset, with nothing larger before the position and nothing smaller after it |
| PercentCoding.Char2HexInvertsDigits | foundation/inline_utils.h:4-16 | a character has a hex value exactly when it is the digit of that value in upper or lower case |
| PercentCoding.DecodePercent | httpd/http_helper.cpp:17-60 | a missing source fails and leaves the output alone; otherwise the loop answers and leaves in its output what the decoding function says, on success and on failure |
| PercentCoding.DecodeIsExact | httpd/http_helper.cpp:29-59 | success with a text exactly for the encodings of that text under the flags, failure exactly at the first percent sign without two hex digits, with what stands before it decoded |
| PercentCoding.BadEscapes | httpd/http_helper.cpp:30-37 | what ends the decoding: a percent sign with fewer than two bytes behind it, or with one of the two no hex digit |
| PercentCoding.EscapedSlash | httpd/http_helper.cpp:40-45 | an escaped slash anywhere is decoded under the slash flag and stays as written, in its case, without it |
| PercentCoding.DecodeQuery | httpd/http_helper.cpp:82-90 | the text-returning wrapper gives nothing for malformed input |
| PercentCoding.DecodeAcross | httpd/http_helper.cpp:29-57 | a plain byte that is no hex digit cuts the input: the two sides are decoded on their own |
| PercentCoding.DecodeOfEncode | httpd/http_helper.cpp:29-57 | decoding undoes percent encoding when the percent sign, and the plus sign where it stands for a space, are escaped, and the slash where it is not to be decoded is not |
| UriParser.Parse | httpd/http_uri_parser.cpp:18-53 | parsing never fails, splits at the first question mark, and fills every field from the target alone; without a question mark the query and the parameters are empty |
| UriParser.RawPathOf | httpd/http_uri_parser.cpp:38-44 | a target without a question mark is all path, any other is cut at the first one |
| UriParser.ParsePath | httpd/http_uri_parser.cpp:55-77 | the decoded path is the joined decodings of the segments, malformed ones included: the function that PathRoundTrip, SlashCuts and MalformedSegment determine |
| UriParser.ParseQuery | httpd/http_uri_parser.cpp:79-96 | the pairs of the non-empty tokens are appended in order: the function that PairIsExact and AmpersandCuts determine |
| UriParser.SegmentwiseIsOnePass | httpd/http_uri_parser.cpp:57-74 | the whole raw path is well-formed exactly when all its segments are, and then both ways of decoding agree |
| UriParser.SegmentsContribute | httpd/http_uri_parser.cpp:62-72 | a well-formed segment contributes its decoding, a malformed one the decoding of what stands before its first bad escape |
| UriParser.PathRoundTrip | httpd/http_uri_parser.cpp:55-77 | decoding undoes percent encoding of any path, slashes escaped or not, with plus signs standing for themselves |
| UriParser.SlashCuts | httpd/http_uri_parser.cpp:57-74 | a slash cuts any raw path into two that are decoded on their own, malformed or not |
| UriParser.MalformedSegment | httpd/http_uri_parser.cpp:62-72 | a path with a malformed segment decodes to the texts of the others and what stands before the bad escape in that one |
| UriParser.DecodedPathIsNormalExactly | httpd/http_uri.h:24 | the decoded path is in the normaliser's normal form exactly when the names its decoded segments spell, cut at decoded slashes too, already are |
| UriParser.PlainPathStays | httpd/http_uri_parser.cpp:55-77 | a raw path without escapes is its own decoding |
| UriParser.DotsAreKept | httpd/http_uri.h:24 | a path with a parent segment that the parser leaves as it is, not in normal form |
| UriParser.PairIsExact | httpd/http_uri_parser.cpp:83-90 | a token is read as exactly the pair it spells: a key up to the first equals sign and a value, or a key alone, each by its encoding, or empty when malformed |
| UriParser.QueryRoundTrip | httpd/http_uri_parser.cpp:38-96 | any list of tokens, with values, without, or malformed, joined by ampersands behind any path, is read as the pairs they spell, in order |
| UriParser.EncodedPairs | httpd/http_uri_parser.cpp:83-90 | percent encoding that escapes the delimiters, the percent and the plus sign spells the pair, and the key alone when the value is empty |
| UriParser.AmpersandCuts | httpd/http_uri_parser.cpp:82 | an ampersand cuts any query into two, and the empty query has no pairs, so that leading, trailing and doubled ampersands add none |
| UriParser.PlusIsSpace | httpd/http_helper.cpp:51-53 | a plus sign in a value is read as the space 0x20 |
| UriParser.MalformedIsEmpty | httpd/http_helper.cpp:82-90 | a malformed key, value or bare key is read as empty, and the other half of the pair as it is |
| UriParser.TargetRoundTrip | httpd/http_uri_parser.cpp:18-96 | any path and any list of parameters, percent-encoded and put together in any admissible way, come back from the whole target |
| Router.HttpRouter.Add | httpd/http_router.cpp:13-16 | a route is added or overwritten, the others stay |
| Router.HttpRouter.FindHandler | httpd/http_router.cpp:36-66 | the loop of shrinking prefixes ends with the choice of the longest match |
| Router.LastSlash | httpd/http_router.cpp:57-59 | the last slash at or before a position |
| Router.SkipTo | httpd/http_router.cpp:57-65 | no candidate lies between a prefix that did not match and the next one tried |
| Router.HttpRouter.Dispatch | httpd/http_router.cpp:18-34 | the choice depends on the target through its decoded path only |
| Router.ChoiceIsLongestMatch | httpd/http_router.cpp:45-66 | the name chosen is that of the longest registered key that is the path, the root, or a prefix ending just before a slash; the empty name if there is none |
| Router.ChosenByPrefix | httpd/http_router.cpp:45-66 | a registered key that is the path, the root, or ends before a slash of the path is chosen when no longer key is the path or ends before a slash |
| Router.NothingChosen | httpd/http_router.cpp:40-66 | exactly the paths without a leading slash are rejected; a path no key matches asks for the empty name |
| Router.OneRoute | tests/http_router_matching_test.cpp:162-165 | a route answers for its key and what is below it, not for a longer name that starts alike; the root answers for every path |
| Router.AddedRouteTakesOver | httpd/http_router.cpp:13-16 | a new route takes over exactly the paths that have it as a candidate no shorter than their old match |
| Router.QueryDoesNotMatter | tests/http_router_matching_test.cpp:152-155 | a query string behind a path never changes the choice |
| Router.EncodingDoesNotMatter | httpd/http_router.cpp:18-29 | however a path is percent-encoded, escaped slashes included, the choice is that of the path itself |
| Backoff.BackoffIterator.constructor | foundation/exponential_backoff_iterator.h:21-35 | the first value is the delay before retry 0, computed even when no retry is allowed |
| Backoff.BackoffIterator.Compute | foundation/exponential_backoff_iterator.h:70-88 | the value is the 64-bit shifted base under the cap, or anything up to it with jitter |
| Backoff.BackoffIterator.Equal | foundation/exponential_backoff_iterator.h:50-57 | equal to the end iterator exactly when no retry is left; other iterators compare by base and retry, save that any two without retries left are equal when the other is beyond its maximum |
| Backoff.BackoffIterator.Increment | foundation/exponential_backoff_iterator.h:59-67 | one retry on, stopping at the last, with the value of the retry reached |
| Backoff.WideShiftDelay | foundation/exponential_backoff_iterator.h:70-80 | from shift 32 to 63 the delay is zero when 2^(64-i) divides the base and the cap otherwise |
| Backoff.ClosedForm | foundation/exponential_backoff_iterator.h:70-80 | the delay is min(base * 2^i, cap) exactly unless the cap is positive and either i is below 64 and 2^(64-i) divides a positive base, where the delay is zero, or i is 64 or more and the base is zero, where it is the cap |
| Backoff.ClosedFormForTheFirst33 | foundation/exponential_backoff_iterator.h:71-86 | for the first 33 retries, whatever base and cap, the delay is min(base * 2^i, cap), and with jitter exactly the values from 0 to that are possible |
| Backoff.DelayCollapses | foundation/exponential_backoff_iterator.h:73-74 | base 2 waits the full cap at retry 62 and not at all at retry 63 |
| Backoff.RetryLoop | foundation/exponential_backoff_iterator.h:121-141 | the loop calls until success or until `maxRetries` sleeps, with one call more than sleeps, each sleep an iterator value |
| Backoff.ExponentialRetry | foundation/exponential_backoff_iterator.h:121-141 | in addition the sleeps are at most their number times the cap in total, and at most base * (2^n - 1) unless the base is zero, the cap is not and more than 64 retries are allowed |
| Backoff.TotalIsBounded | foundation/exponential_backoff_iterator.h:70-88 | both bounds for any sleeps the iterator can yield, with or without jitter |
| Backoff.TotalBoundIsExact | foundation/exponential_backoff_iterator.h:73-80 | without jitter the geometric bound fails exactly for a zero base, a positive cap and more than 64 sleeps |

## Left out

- Process control (`process/process_handler.cpp`, `process/process_manager.cpp`, `process/process_killer.cpp`): spawning is any pid or -1, killing has no result the scheduler sees.
- Sockets, sessions, handlers and stock responses under `httpd/`, and `curl_client/`: the router stops at the name it asks a handler for.
- Server start-up, configuration, logging, packaging and the load simulator.
- Mutexes and threads: locked methods are atomic; clocks are arbitrary integers in nanoseconds; jitter is any value in range.
- Scheduling.Scheduler.ComputeTimeout: one and a half times the percentile is exact in integers, while the source multiplies doubles, which are exact below 2^52 seconds.
- Scheduling.Scheduler.constructor: runs are proved from an empty finished store; a store handed over with records in it keeps them.
- Lru.LRU.Put: a capacity of at least one is required, because with zero the source takes the last element of an empty list; keys and values are not heap references.
- P90.P90Estimator.Add: for positive durations a capacity of at least one is required, because with zero the source pops an empty deque; the scheduler uses 1000.
- PathNormalize.Normalize: the result is returned instead of being swapped into the argument, and characters are Dafny's `char` instead of a template parameter.
- PercentCoding.DecodePercent: the two flag bits are two booleans.
- Router.HttpRouter.FindHandler: an empty name, asked of the handler factory when nothing matches, is a choice like any other.
- A bound on how often a job is queued again: a SLOW job can be given a FAST slot and time out again, so there is none.
