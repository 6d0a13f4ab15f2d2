# Soft-failure pipeline: verified model

The repository watches optical links for slow degradation. Samples arrive as JSON lines, are cut
into rolling windows per link and channel, scored, and turned by a policy into reroute requests that
a path manager carries out against a limited protection capacity. This project models the parts of
that pipeline where fast, stateful or concurrent code has to agree with something simpler, and
proves that it does, for every input, every run and every interleaving of steps.

Code that works by changing state is a class or a method with loops here (the path manager, the
healer and its link states, the windows and the ingest callback, the line reassembly, the calibrated
head, the slicing loop), each proved equal to a function on values; the laws are lemmas about those
functions.

| file | what it holds |
|---|---|
| `Basics.dfy` | options, filter, map and reverse |
| `Topology.dfy` | the topology file and the two services' path lookups |
| `PathManager.dfy`, `RerouteLaws.dfy` | one reroute; conservation, replay, duplicates, allocation, status |
| `Healer.dfy`, `HealerLaws.dfy` | one observation; a counter-free specification, independence of links, emission rate |
| `Protocol.dfy` | the pipeline, and other clients, as one transition system with loss, reordering and duplication |
| `FileOrder.dfy` | the log file against the journal: a run in which they disagree, and which runs keep them in step |
| `Statistics.dfy`, `LeastSquares.dfy` | the three written forms of the window statistics; why the slope is right |
| `Telemetry.dfy`, `Ingest.dfy` | samples, frames, windows, the keyed demultiplexer and its runs |
| `Buckets.dfy` | exactly when a source whose bucket is shared still gets its own windows |
| `Tables.dfy`, `Batch.dfy` | sorting, grouping and striding; the data-frame slicing and its agreement with the stream |
| `Labels.dfy`, `Loading.dfy` | horizon labels; labels, order and failures from the loaded table to the output |
| `Horizon.dfy` | the logistic head, its calibration and the false-positive bound |
| `Framing.dfy` | newline framing over arbitrary chunks, with the guard against runaway lines |

What the models take as parameters: the clock, the scorer, whether a write or send succeeds, what
`recv` and `send` return, square root, logarithm and exponential, and the data-frame library's sort.
That sort is any function that orders a column: rows with equal timestamps may come out in any
order, but the same column is always arranged the same way, for labels and windows alike.

Where the code and its documentation part, the model follows the code:

- `add_horizon_labels` speaks of the next `horizon_s` seconds and counts samples.
  `Labels.SecondsReadingIff` says exactly which timestamps make the two readings one;
  `Labels.GapBreaksReading` and `Labels.TieBreaksReading` give traces where they differ, with a gap and
  with a repeated timestamp.
- `ml/features.py` calls itself the reference for the ingest process. The frames agree exactly when
  both read the last channel id and every optional number alike, which an empty or null channel id, a
  number in its place or a number sent as text may prevent (`Telemetry.FramesAgreeIff`); the vectorised
  statistics agree exactly from two samples on (`Telemetry.VectorisedAgreesIff`). The windows of a
  source agree under every sort exactly when the source gets its own windows from its bucket, and it is
  too short for a window, or its timestamps never step back and equal timestamps come with equal
  samples (`Batch.AgreeIffInOrder`).
- The batch side and the ingest process read the samples of a table alike exactly when they read every
  optional number alike and the channel ids are all missing, or all given as text that is not empty
  (`Batch.DefaultsAgreeIff`): a number sent as text is converted by one and replaced by the other
  (`Batch.NumberAsTextReadsApart`), and an empty channel cell is dropped by one and filled by the other.
- A path without a role is a working path to the path manager and not to the healer
  (`Topology.ResolversAgreeIff`).
- Samples of different links can land in one window. Every source over a set of links gets its own
  windows exactly when no link id extends another past a bar (`Ingest.AllSlideIff`); for one stream and
  source, exactly when windows hold one sample, or the source is too short for a window and none of its
  samples is late enough in its bucket to complete one, or no sample of another source precedes one of
  its own there (`Buckets.StreamSlidesIff`).
- Calibration is meant to make the false-positive gate hold. `Horizon.AlarmsAtMostIff` and
  `Horizon.GateIff` say exactly when it does, for any head and any scores. A rising head (k > 0) meets
  it on 50 or more windows whenever the scores around the cut differ (`Horizon.GateHolds`), and fails on
  equal scores (`Horizon.EqualScoresAllAlarm`); a falling head, which calibration leaves alone, can be
  alarmed by every score (`Horizon.FallingHeadAllAlarm`).
- The duplicate check of the path manager remembers one path per link, so a link asked to alternate
  between two paths is charged again (`RerouteLaws.AlternatingTargetsPayTwice`); the exact condition
  for a free repeat is `RerouteLaws.RepeatIsFreeIff`.
- The path manager does not check roles, so on the shipped topology one request takes the unused
  protection path down (`RerouteLaws.UnusedProtectionCanGoDown`) and two bring a vacated working path
  back up (`RerouteLaws.DownWorkingCanComeBack`). `RerouteLaws.ProtectionStatusIff` and
  `RerouteLaws.WorkingStatusIff` say exactly after which traffic a status can be trusted, and
  `RerouteLaws.SpoilsProtectionIff` and `RerouteLaws.SpoilsWorkingIff` which request spoils it.
- The log file is written outside the lock, so it can list records in another order than the journal
  (`FileOrder.FileCanDisagree`). In every run it is a prefix of the journal exactly when each record
  written came next in the journal, which without write failures is to say it was the oldest pending
  (`FileOrder.FileFollowsJournalIff`); it keeps the journal's order exactly when each record written came
  after everything already on file (`FileOrder.FileKeepsOrderIff`). A write failure sets the two apart
  (`FileOrder.FailureLeavesGap`, `FileOrder.FailureKeepsOrder`).
- A trailing line without a newline keeps a final carriage return that a terminated line would lose
  (`Framing.UnterminatedKeepsCr`); nothing else tells the two apart (`Framing.FinalNewlineIff`).

## Model

| member | source | states |
|---|---|---|
| Topology.HealerPathIsFirst | apps/healer/main.py:97-101 | The healer's lookup returns the first path in file order that is marked working and carries the link, and nothing only if no path qualifies |
| Topology.ManagerPathIsFirst | apps/path_manager/main.py:92-96 | The path manager's lookup returns the first path in file order that carries the link and is working or gives no role |
| Topology.ResolversAgreeIff | apps/path_manager/main.py:92-96 | The path manager and the healer resolve a link to the same path exactly when the first path the manager would pick names its role |
| Topology.ShippedIsValid | configs/topology.yaml:1-16 | The shipped topology is one the model admits |
| PathManager.TopologyState.constructor | apps/path_manager/main.py:63-81 | The loaded state: each path with its defaults, full capacity, standby only for protection, nothing moved |
| RerouteLaws.AsLoaded | apps/path_manager/main.py:68-75 | Each path as loaded: the file's links, role or "working", standby only for protection and active otherwise, both capacities the file's number or 1 |
| PathManager.TopologyState.ApplyReroute | apps/path_manager/main.py:102-146 | One call under the lock: whole new state, answer and file line, in every branch |
| RerouteLaws.AnswerWords | apps/path_manager/main.py:104-146 | Which answer each kind of request gets, word for word, unknown paths before repeats before capacity |
| PathManager.TopologyState.AppendLog | apps/path_manager/main.py:148-154 | The record is appended to the file, or lost if the disk refuses |
| PathManager.TopologyState.WorkingPathForLink | apps/path_manager/main.py:92-96 | The loop over the loaded paths is the first-match lookup on the file |
| RerouteLaws.JournalExplainsState | apps/path_manager/main.py:102-139 | After any run the journal alone determines capacities, statuses and the moved table |
| RerouteLaws.CapacityConserved | apps/path_manager/main.py:67-75 | For every path and run, capacity spent equals the records targeting it, and never exceeds what was configured |
| RerouteLaws.CapacityInFile | apps/path_manager/main.py:72-73 | In every run capacity left plus records targeting the path equals the number in the file, or 1 if it gives none |
| RerouteLaws.RunMonotone | apps/path_manager/main.py:133-139 | As a run goes on capacity only falls and the journal only grows |
| RerouteLaws.JournalTargetsKnown | apps/path_manager/main.py:104-139 | Every record is an accepted request of the run between paths the topology knows |
| RerouteLaws.JournalBounded | apps/path_manager/main.py:119-139 | Over any run accepted moves number at most the sum of configured capacities |
| RerouteLaws.ReplayRebuildsState | apps/path_manager/main.py:108-146 | Replaying only the journal accepts every record as a fresh move and rebuilds the state exactly |
| RerouteLaws.RepeatIsFreeIff | apps/path_manager/main.py:108-118 | A request is answered as already applied, at no cost, exactly when its link's last accepted move went to the same path |
| RerouteLaws.AcceptedIffMoved | apps/path_manager/main.py:104-146 | If its own link has one route, a request was accepted exactly when that link has moved by the end of the run, whatever other links ask |
| RerouteLaws.OneRecordPerLink | apps/path_manager/main.py:77-80 | A link with one route has one record if it moved and none otherwise, whatever other links ask |
| RerouteLaws.DuplicatesAgree | apps/path_manager/main.py:77-80 | All answers for a link with one route agree, and together cost one unit if accepted and none if refused, among arbitrary requests of other links |
| RerouteLaws.AlternatingTargetsPayTwice | apps/path_manager/main.py:108-139 | Counterexample: alternating between two targets charges the same request twice and gives nothing back |
| RerouteLaws.FirstComeFirstServed | apps/path_manager/main.py:119-139 | The links riding a path are exactly the first distinct links that asked for it, as many as its capacity, if those asking have one route each |
| RerouteLaws.AcceptedIffEarlyEnough | apps/path_manager/main.py:104-131 | A request is accepted exactly when its paths are known and its link is among the first ones served |
| RerouteLaws.StatusMeansUse | apps/path_manager/main.py:133-136 | For working-to-protection traffic a protection path is standby iff its capacity is untouched and any other path, role given or not, is down iff an accepted move left it |
| RerouteLaws.StatusFollowsMoves | apps/path_manager/main.py:133-136 | In every working-to-protection run, the empty one included, a path not for protection is active until an accepted move leaves it and down afterwards, and a protection path on standby until one arrives and active afterwards |
| RerouteLaws.ProtectionStatusIff | apps/path_manager/main.py:133-135 | Under any traffic, a protection path is "standby iff untouched" exactly when no record left it while none had arrived by the end |
| RerouteLaws.WorkingStatusIff | apps/path_manager/main.py:133-135 | Under any traffic, a path that is not for protection, role given or not, is "down iff left" exactly when, if traffic left it, none came onto it after the last time |
| RerouteLaws.SpoilsProtectionIff | apps/path_manager/main.py:104-135 | The next request makes a truthful protection status wrong exactly when it is a fresh move off the untouched path to another |
| RerouteLaws.SpoilsWorkingIff | apps/path_manager/main.py:104-135 | The next request makes the truthful status of such a path wrong exactly when it is a fresh move onto it, from another, while it is down |
| RerouteLaws.UnusedProtectionCanGoDown | apps/path_manager/main.py:133-135 | Counterexample on the shipped topology: one posted request takes the protection path down with its capacity untouched |
| RerouteLaws.DownWorkingCanComeBack | apps/path_manager/main.py:133-135 | Counterexample on the shipped topology: after two requests a working path that traffic has left is active |
| Healer.HealerService.constructor | apps/healer/main.py:85-94 | A new healer knows no link and has sent nothing |
| Healer.HealerService.WorkingPathForLink | apps/healer/main.py:97-101 | The loop over the topology is the first-match lookup |
| Healer.HealerService.SetDefault | apps/healer/main.py:113 | A link's state object is created once and never shared with another link |
| Healer.HealerService.Emit | apps/healer/main.py:163-164 | The same payload goes out over REST and then over gRPC |
| Healer.HealerService.Judge | apps/healer/main.py:114-176 | The policy on the link's state object: new counters, action and calls made, in every branch |
| Healer.HealerService.Observe | apps/healer/main.py:112-176 | One observation changes the state of its own link only, as decided, and sends both copies or nothing |
| HealerLaws.LinksDoNotInterfere | apps/healer/main.py:112-176 | In any interleaving a link's state and actions are those of its own observations alone |
| HealerLaws.FilteredRunAgrees | apps/healer/main.py:112-176 | The run on the full trace and the run on one link's part give that link the same history |
| HealerLaws.LinkTracksTrace | apps/healer/main.py:113-127 | The counter is the length of the longest hot suffix and the stored timestamp that of the latest firing |
| HealerLaws.HealerMeetsSpec | apps/healer/main.py:112-176 | Step n takes exactly the action a counter-free specification prescribes, with every field of the payload it prescribes |
| HealerLaws.EmissionGap | apps/healer/main.py:129-132 | Emissions i and j of a link are at least (j - i) times the hysteresis apart, even if timestamps run backwards |
| HealerLaws.EmissionRate | apps/healer/main.py:129-166 | Any span of time holds at most floor(span / hysteresis) + 1 emissions of a link |
| HealerLaws.NowInMilliseconds | apps/healer/main.py:107-110 | A timestamp counts in milliseconds and the clock, which only stands in for a missing one, in seconds |
| HealerLaws.EmissionGapMillis | apps/healer/main.py:107-132 | With timestamps, emissions i and j of a link are at least (j - i) * 1000 * hysteresis milliseconds apart |
| HealerLaws.SuppressedIffSoon | apps/healer/main.py:129-143 | With timestamps, a completed streak is suppressed exactly when it comes less than 1000 * hysteresis milliseconds after the latest emission |
| Protocol.RunsAreSequential | apps/path_manager/main.py:102-154 | In every interleaving, whatever other clients post, the manager's state and answers are those of its requests one after the other, and records on file, in writing and failed add up to the journal |
| Protocol.FileOrderIsFree | apps/path_manager/main.py:141-152 | From any state with two records pending outside the lock, either can reach the file first |
| FileOrder.FileCanDisagree | apps/path_manager/main.py:139-141 | In every world with two hot sources whose protection paths have room for both there is a run after which journal and file list two records in opposite orders |
| FileOrder.ShippedFileCanDisagree | configs/thresholds.yaml:1-8 | With the shipped window, thresholds and links it happens once the protection path holds two |
| FileOrder.FileFollowsJournalIff | apps/path_manager/main.py:139-154 | In every run the file is a prefix of the journal exactly when each record written came next in it; without failures and repeated records, exactly when each was the oldest pending |
| FileOrder.FileKeepsOrderIff | apps/path_manager/main.py:139-154 | In every run without repeated records, write failures or not, the file keeps the journal's order exactly when each record written came after everything already on file; writing the oldest pending first is enough |
| FileOrder.FailureLeavesGap | apps/path_manager/main.py:148-154 | Counterexample run: with a failed write, writing the oldest pending only leaves a file that is no prefix of the journal |
| FileOrder.FailureKeepsOrder | apps/path_manager/main.py:148-154 | Counterexample run: with a failed write, a file in order although another than the oldest pending record was written |
| FileOrder.JournalDistinct | apps/path_manager/main.py:108-139 | The journal of a run in which only the healer asks holds no record twice |
| FileOrder.RoundsRequest | apps/healer/main.py:121-164 | A source scored hot throughout has its request out after exactly window + streak - 1 samples: the lower bound is met |
| FileOrder.RequestContents | apps/infer/serve.py:72-82 | The request carries the link's paths, the scorer's three numbers for its window, the horizon and the last sample's time |
| Protocol.GrpcCopyIs | apps/path_manager/grpc_server.py:42-58 | The gRPC copy differs from the REST one at most in a horizon of zero, read as 600 |
| Protocol.RunsAreIssued | apps/healer/main.py:145-164 | Every request in flight or served names the healer's paths for its link and was called for by that link's own observations, or was posted by another client |
| Protocol.AnswersAgree | apps/path_manager/grpc_server.py:42-58 | Under loss, reordering and duplication all answers about a link only the healer asks for agree and cost at most one unit, whatever others post about other links |
| Protocol.RidersAreFirstServed | apps/path_manager/main.py:119-139 | In every interleaving a path carries exactly the first links whose requests took the lock, if only the healer asks for the links that want it |
| Protocol.OnlyCapacityRefuses | apps/path_manager/main.py:104-131 | With a well-formed shared topology a request of the healer's is refused exactly when its link came too late for the capacity, if only the healer asks for the links that want its path |
| Protocol.StatusTellsUse | apps/path_manager/main.py:133-135 | In every interleaving, with a well-formed topology and other clients moving traffic as the healer does, path status tells what happened to the path |
| Protocol.MovesWereCalledFor | apps/healer/main.py:117-127 | No traffic moves unless its link's own observations completed a rested streak or another client posted the request |
| Protocol.RunsArePaid | apps/ingest_cpp/src/main.cpp:170-182 | Frames of a link, scored or travelling, never exceed its samples beyond the first window less one |
| Protocol.NoRequestTooEarly | apps/healer/main.py:121-127 | For any scorer, channels, losses and interleaving, no request of the healer's about an unconfusable link exists before window + streak - 1 of its samples |
| Protocol.ShippedLowerBound | configs/thresholds.yaml:1-8 | With the shipped window and streak that is 62 samples |
| Statistics.MeanLoop | apps/ingest_cpp/src/window.cpp:29-38 | The accumulator loop computes the mean, zero for no values |
| Statistics.StddevLoop | apps/ingest_cpp/src/window.cpp:40-51 | The accumulator loop computes the root of the population variance |
| Statistics.SlopeLoop | apps/ingest_cpp/src/window.cpp:53-71 | The accumulator loop computes the closed-form least-squares slope; its zero-denominator guard never fires from two points on |
| Statistics.MeanIndex | ml/features.py:57-58 | The mean of the array of indices is (n - 1) / 2, the constant the C++ form writes down |
| Statistics.SpreadAboutMean | ml/features.py:59-61 | The denominator is n(n^2 - 1)/12, zero for one point and positive from two on |
| Statistics.SlopeFormsAgree | ml/features.py:51-75 | Loop, scalar array and vectorised slope are one number; the vectorised one exists exactly from two points on |
| Statistics.VarianceFormsAgree | ml/features.py:107 | The array library's variance is the loop's |
| Statistics.VarianceOfPopulation | apps/ingest_cpp/src/window.cpp:40-51 | n^2 times the variance is n times the sum of squares less the squared sum: the population variance |
| LeastSquares.ErrorExcess | ml/features.py:51-62 | The error of any line is that of the fitted line plus two explicit squares |
| LeastSquares.SlopeIsOptimal | ml/features.py:51-62 | No line fits better than the one with this slope through the means, and every other line fits strictly worse |
| LeastSquares.SlopeSign | apps/ingest_cpp/src/window.cpp:53-71 | A series that never falls has a non-negative slope, positive exactly when it rises somewhere |
| LeastSquares.SlopeOfAffine | ml/features.py:51-62 | Shifting a series leaves the slope alone and scaling scales it |
| LeastSquares.SlopeOfLine | ml/features.py:51-62 | On a + b*i the slope is b |
| LeastSquares.SlopeOfReversed | ml/features.py:51-62 | Reversing a series negates its slope |
| Telemetry.FramesAgreeIff | ml/features.py:117-130 | Reference and ingest build the same frame from the same samples, of any JSON types, exactly when both read the last channel id and every optional number alike |
| Telemetry.LogBerByValue | apps/ingest_cpp/src/window.cpp:24-27 | The logarithm of the bit error rate itself from 1e-15 on, of 1e-15 below |
| Telemetry.DefaultsByValue | apps/ingest_cpp/src/validate.cpp:73-95 | "C1", 0.0 and -99.0 where a sample says nothing usable |
| Telemetry.VectorisedAgreesIff | ml/features.py:210-230 | The vectorised row is the frame's statistics in feature order exactly from two samples on |
| Telemetry.Window.constructor | apps/ingest_cpp/src/window.cpp:73 | Capacity zero means the default window length; the window starts empty |
| Telemetry.Window.Push | apps/ingest_cpp/src/window.cpp:75-80 | The eviction loop leaves exactly the newest samples up to the capacity |
| Telemetry.Window.SeriesOf | apps/ingest_cpp/src/window.cpp:93-116 | One value per sample, oldest first, in the channel asked for |
| Telemetry.Window.Stats | apps/ingest_cpp/src/window.cpp:118-133 | The eight statistics, each from its own series |
| Telemetry.Window.BuildFrame | apps/ingest_cpp/src/main.cpp:47-77 | The frame of the window: last sample's identity, five series, eight statistics |
| Ingest.IngestService.constructor | apps/ingest_cpp/src/main.cpp:142-148 | No windows, all counters zero, log clock started |
| Ingest.IngestService.FindOrCreate | apps/ingest_cpp/src/main.cpp:170-174 | The key's own window, created once, shared with no other key |
| Ingest.IngestService.PushSample | apps/ingest_cpp/src/main.cpp:170-175 | Exactly the sample's bucket rolls on, all others stay |
| Ingest.IngestService.CountInvalid | apps/ingest_cpp/src/main.cpp:156-166 | Invalid lines are counted, and reported at most every ten seconds |
| Ingest.IngestService.HandleLine | apps/ingest_cpp/src/main.cpp:152-192 | One line: windows, counters and the frame offered, valid or not |
| Ingest.IngestService.ServeClient | apps/ingest_cpp/src/main.cpp:152-192 | A whole connection: windows are those of all samples so far, the frames offered are exactly those of the windows the run emits, the frame counter grows by exactly those the peer took, every line is counted once |
| Ingest.LinksCollideIff | apps/ingest_cpp/src/window.cpp:135-137 | Two links can share a bucket exactly when one id is the other followed by a bar and anything |
| Ingest.UnconfusableOwnsKey | apps/ingest_cpp/src/window.cpp:135-137 | Where no id of the stream extends the link's past a bar or is extended by it, the link's buckets are its own |
| Ingest.PlainLinksUnconfusable | apps/ingest_cpp/src/window.cpp:135-137 | Ids without a bar are never confused |
| Ingest.SharedBucketMixesSources | apps/ingest_cpp/src/main.cpp:170-175 | Counterexample at every window length from two on: n - 1 samples of one source and one of another in the same bucket give the other a window it does not have on its own |
| Ingest.AllSlideIff | apps/ingest_cpp/src/window.cpp:135-137 | Every stream over a set of links gives every source its own sliding windows exactly when no link id extends another past a bar |
| Ingest.WindowHoldsNewest | apps/ingest_cpp/src/main.cpp:170-175 | In any interleaving an unshared bucket holds exactly the newest samples of its source |
| Ingest.StreamSlides | apps/ingest_cpp/src/main.cpp:170-182 | In any interleaving the windows emitted for a source with a bucket of its own are its sliding windows, in order |
| Ingest.FirstWindowAtSixty | apps/ingest_cpp/src/main.cpp:173-180 | A source with a bucket of its own gets its first window at its 60th sample and one each from then on |
| Buckets.WindowIsNewest | apps/ingest_cpp/src/main.cpp:170-175 | In any interleaving a bucket, shared or not, holds exactly the newest samples that fell into it |
| Buckets.StreamSlidesIff | apps/ingest_cpp/src/main.cpp:170-182 | For every stream and source, the windows emitted for it are its own sliding windows exactly when its bucket leaves it undisturbed, and so are their number right and none mixed |
| Buckets.OwnsKeyUndisturbed | apps/ingest_cpp/src/window.cpp:135-137 | A source with a bucket of its own is undisturbed |
| Ingest.IterFrames | ml/features.py:233-243 | The buffering generator yields one frame per sliding window, in order, and raises exactly at the first one that cannot be converted |
| Tables.ArrangedSorts | ml/features.py:176 | Whatever the sort does with ties, the arranged table is ordered and holds the same rows |
| Tables.StableSortSorts | ml/features.py:176 | Such a sort exists |
| Tables.SwappingSortSorts | ml/features.py:176 | For any two tied entries of an ordered column there is also one that swaps them |
| Tables.SortIsUnique | ml/features.py:176 | If rows with equal timestamps look alike, all sorts give tables that look alike |
| Tables.EverySortFixesIff | ml/features.py:176 | Every sort leaves a table looking as it was exactly when it is ordered and its ties look alike |
| Tables.GroupKeysSorted | ml/features.py:175 | Grouping visits each key of the table once, in ascending order |
| Tables.StringLessIff | ml/features.py:175 | Two ids are ordered by the first character in which they differ, or by one ending first |
| Batch.DefaultsAgreeIff | ml/features.py:161-179 | A table of samples of any JSON types is read as the ingest process reads the samples exactly when every optional number is read alike and the channel ids are all missing or all given as non-empty text |
| Batch.NumberAsTextReadsApart | ml/features.py:169-179 | Counterexample: a number sent as text keeps its value in the batch and becomes the default in the stream |
| Batch.ViewsAreMatrices | ml/features.py:179-182 | Strided, transposed views of the numeric table are the matrices of the strided windows |
| Batch.TailsAreLasts | ml/features.py:185-186 | Metadata row i is the last row of window i, at any stride |
| Batch.WindowsFromDataframe | ml/features.py:149-207 | For any sort, missing cells and columns filled or dropped and other values converted, it fails exactly if a group long enough holds one that cannot be; otherwise matrices, statistics and metadata with the label columns present all describe the same windows, group after group, short groups dropped |
| Loading.LoadsIff | ml/features.py:177-179 | Slicing fails exactly when a key with a window's worth of rows has a cell that cannot be converted |
| Loading.IncompleteRowsDrop | ml/features.py:175 | Rows with an empty key cell play no part |
| Loading.MetaCarriesLabels | ml/features.py:185-194 | Metadata row i of a key carries ids, time, label, hard_fail and y_horizon, present or not, of the loaded row that is the last of its window in the key's order of time |
| Loading.OutputAscends | ml/features.py:175-206 | Output rows come in blocks, one a key, in ascending order of link and then channel |
| Batch.BatchWindowsOfKey | ml/features.py:175-195 | Whatever else the table holds, a key's windows are its own group's |
| Batch.BatchIsStridedStream | ml/features.py:175-207 | For any sort, interleaved stream and shuffling of it into a table, a source in time order and undisturbed in its bucket has as batch windows every stride-th window the stream emitted for it |
| Batch.OutputsAreFrames | ml/features.py:143-207 | For such a source the returned statistics, matrices and metadata rows are the features, the autoencoder input and the identity of every stride-th frame the ingest process offers for it |
| Batch.WindowContentsAgree | ml/features.py:185-207 | For one window the metadata, the frame's identity and the statistics of both sides agree |
| Telemetry.FrameMatrixIsMatrix | ml/features.py:143-146 | The autoencoder input stacked from a frame's series is the matrix sliced out of the table |
| Batch.AgreeIffInOrder | ml/features.py:175-176 | In stream order and stride one both sides agree on a source under every sort exactly when it is undisturbed in its bucket, and too short or its timestamps never step back and equal timestamps come with equal samples |
| Labels.FutureMeansFailsWithin | data/generator/gnpy_like.py:251-261 | Shift, reverse, rolling maximum, reverse gives 1 exactly when one of the next H samples fails, and 0 otherwise |
| Labels.SecondsReadingIff | data/generator/gnpy_like.py:242-249 | The documented reading, a failure strictly later and at most the horizon in seconds away, holds for every failure pattern exactly when clock and sample count agree up to the horizon |
| Labels.OncePerSecondOnTheClock | data/generator/gnpy_like.py:208 | One sample per second, as the generator spaces them, makes them agree |
| Labels.GapBreaksReading | data/generator/gnpy_like.py:253-258 | Counterexample: after a gap the next failure counts however late it is |
| Labels.TieBreaksReading | data/generator/gnpy_like.py:253-258 | Counterexample: with a repeated timestamp a failure in the same instant counts as still to come |
| Labels.LabellingKeepsRows | data/generator/gnpy_like.py:247-268 | Labelling changes neither the samples nor the time order of any group |
| Labels.LabelledGroup | data/generator/gnpy_like.py:236-268 | For any sort, each row of the labelled table, put back in its own order, carries its own failure mask and the label of its place in its sorted group |
| Labels.WindowLabel | ml/features.py:185-194 | For any sort, each batch window carries the label of its newest row, read in its own group |
| Loading.EveryRowLabelled | data/generator/gnpy_like.py:247-268 | Every row of the labelled table says by its own OSNR and BER whether it fails, and by those of the rows after it in its source's order of time whether one fails within the horizon |
| Loading.LabelsReachMeta | ml/train/train.py:65-68 | Labelled, then sliced: metadata row i keeps the fault's name and carries that mask and label, by the readings in the loaded table |
| Horizon.AlarmIff | ml/models/horizon.py:50-52 | A rising head's prediction reaches p exactly when the score reaches the midpoint plus the offset of p, a falling one's exactly when it does not exceed it; a flat head predicts one half |
| Horizon.PredictInvertsScore | ml/models/horizon.py:74-77 | Predicting the score of a probability gives it back exactly when it lies within 1e-9 of neither 0 nor 1, and the nearer of 1e-9 and 1 - 1e-9 otherwise |
| Horizon.HorizonHead.CalibrateThreshold | ml/models/horizon.py:79-99 | The midpoint moves right to the quantile less the offset, or stays; bad targets and thresholds raise, send it to infinity or leave it, as the code does |
| Horizon.CalibratedIs | ml/models/horizon.py:94-98 | The slope stays and the midpoint goes to the quantile less log(t / (1 - t)) / k if that lies to the right |
| Horizon.QuantileIsLinear | ml/models/horizon.py:94 | The quantile mixes the two ordered scores around position (n - 1) * q in the ratio the position divides them |
| Horizon.QuantileOfEven | ml/models/horizon.py:94 | On n evenly spaced scores in any order it is the first plus (n - 1) * q steps |
| Horizon.CalibratedOnEvenScores | ml/models/horizon.py:79-99 | The scores 0.00, 0.02 to 1.00 move a head of slope one to 0.998 - log(7/3) |
| Horizon.QuantileSeparates | ml/models/horizon.py:94 | The interpolated quantile lies at or below the m-th largest score, and above the next one exactly when the two differ |
| Horizon.AlarmsAtMostIff | ml/models/horizon.py:79-99 | For any head, any scores and any m, moved midpoint or not, at most m alarms are left exactly when the score that decides it is no alarm |
| Horizon.CalibrationBoundIff | ml/models/horizon.py:79-99 | For any head the alarms left stay within 1 + floor((n - 1) * target) exactly when the deciding score is no alarm; for a rising head always if the scores around the cut differ, and only then if the midpoint moved |
| Horizon.DistinctSeparated | ml/models/horizon.py:94 | Distinct scores always differ around the cut |
| Horizon.CalibrationBound | ml/models/horizon.py:79-99 | A rising head on distinct scores leaves at most that many alarms, exactly that many if the midpoint moved |
| Horizon.EqualScoresAllAlarm | ml/models/horizon.py:85-99 | Counterexample: equal scores all stay on the alarm side |
| Horizon.AllowanceMeetsGate | ml/train/train.py:90 | With the shipped target the allowance meets the 2% gate exactly from 50 windows on, the trainer's minimum |
| Horizon.GateIff | ml/models/horizon.py:189-194 | For any head and scores the rate after calibration meets the 2% gate exactly when the score deciding between floor(0.02 n) alarms and more is none |
| Horizon.FallingHeadAllAlarm | ml/models/horizon.py:92-93 | Counterexample: a falling head is left alone and alarmed by every score at or below its cut, distinct or not |
| Horizon.GateHolds | ml/models/horizon.py:189-194 | If the scores around the cut differ a rising head meets the gate from 50 windows on, and only then if the midpoint moved |
| Horizon.CommittedReport | models/train_report.json:4-8 | 11480 nominal windows with different scores around the cut leave exactly 23 alarms, and 23/11480 is the reported rate to within half the spacing of doubles |
| Framing.TakeLines | apps/ingest_cpp/src/jsonl_server.cpp:143-158 | The scan with the moving start hands over the complete lines and leaves the bytes after the last newline |
| Framing.HandleClient | apps/ingest_cpp/src/jsonl_server.cpp:127-167 | What the handler gets from any sequence of reads, interrupts, errors and end of stream |
| Framing.ConnectionDelivers | apps/ingest_cpp/src/jsonl_server.cpp:131-167 | Reads of data with interrupts between them, with no newline-free run beyond 1 MiB, hand over exactly what all the data means |
| Framing.InterruptsChangeNothing | apps/ingest_cpp/src/jsonl_server.cpp:136-139 | An interrupted read anywhere changes nothing |
| Framing.NothingAfterEnd | apps/ingest_cpp/src/jsonl_server.cpp:133-141 | Whatever follows end of stream or an error changes nothing |
| Framing.GuardForgets | apps/ingest_cpp/src/jsonl_server.cpp:158-161 | A partial line beyond 1048576 bytes is forgotten whole and reading goes on as if afresh; up to that many bytes are kept |
| Framing.TerminatedLine | apps/ingest_cpp/src/jsonl_server.cpp:149-155 | Exactly one CR is taken off a terminated line, and an empty line or one CR alone is not handed over |
| Framing.ReadOn | apps/ingest_cpp/src/jsonl_server.cpp:142-158 | Reading two parts is reading the first and carrying its rest into the second |
| Framing.SilentGuardDelivers | apps/ingest_cpp/src/jsonl_server.cpp:142-166 | While the runaway guard is silent only the concatenated bytes matter, not how they were cut |
| Framing.DeliversExactlyIff | apps/ingest_cpp/src/jsonl_server.cpp:159-161 | The handler gets exactly the lines of the stream if and only if the guard never fires: what it drops is always missed |
| Framing.EveryChunkingSafeIff | apps/ingest_cpp/src/jsonl_server.cpp:159-161 | Every way of cutting a stream delivers it exactly if and only if no newline-free run exceeds 1 MiB |
| Framing.FinalNewlineIff | apps/ingest_cpp/src/jsonl_server.cpp:149-166 | A newline at the end of a stream makes no difference exactly when the bytes it terminates do not end in CR |
| Framing.UnterminatedKeepsCr | apps/ingest_cpp/src/jsonl_server.cpp:163-166 | Counterexample: "a" and CR arrive with the CR if the connection closes there, without it if a newline follows |
| Framing.EncodedMeaningIff | apps/ingest_cpp/src/jsonl_server.cpp:149-155 | Lines come back unchanged from their encoding exactly when each is non-empty, free of newlines and not ending in CR |
| Framing.RoundTripIff | apps/ingest_cpp/src/jsonl_server.cpp:127-167 | A list of lines arrives unchanged under every cutting exactly when every line is clean in that sense and at most 1 MiB |
| Framing.SendLine | apps/ingest_cpp/src/jsonl_server.cpp:233-259 | Whatever partial writes, interrupts and failures occur, the wire holds exactly the prefix taken, and success means the whole line and its newline |
| Framing.TakenBySends | apps/ingest_cpp/src/jsonl_server.cpp:246-256 | Sends that take nothing do not matter, and nothing after a broken one does |
| Framing.TakenAddsUp | apps/ingest_cpp/src/jsonl_server.cpp:246-256 | Unbroken sends take the sum of what each reports |
| Framing.OneLineEncoded | apps/ingest_cpp/src/jsonl_server.cpp:237-238 | What is sent for a line is the line and a newline |

## Left out

- Sockets, HTTP, gRPC transport, event loops, the command line, logging and file opening: reads, sends, deliveries and writes are parameters or steps.
- Isolation forest, autoencoder and logistic regression fitting: opaque libraries; the scorer is an arbitrary function of the frame.
- IEEE rounding: arithmetic is over exact reals; square root and base-ten logarithm are unknown functions, exponential and logarithm are known by their laws only, so overflow in `predict` is not seen.
- Optical physics, trace generation and `first_hard_fail_s`: random draws and single-column lookups.
- JSON parsing and validation: an accepted line is a sample, a rejected one is nothing.
- The inference server's own line reader and its length limit: a frame it drops is a lost frame in `Protocol.dfy`.
- Infinite or not-a-number scores, timestamps and thresholds.
- The healer's two calls are made one after the other and each waits for its answer; `Protocol.dfy` lets both be in flight at once, which allows more runs, and takes one observation as one step per link.
- Integer overflow of a horizon or timestamp beyond the width of the gRPC fields.
- A role given as an explicit null in the topology file (which the path manager reads as the word "None").
- Batch.WindowsFromDataframe: a table without one of the required columns, for which the code raises an error, required cells that are empty or no numbers, and a window length or stride below 1 are not modelled; a channel id that is not text is taken for what it prints as; when no group is long enough the result is empty in every part.
- Labels.LabelledGroup: a table without rows, for which the code raises an error, is labelled as a table without rows; duplicate row indices and empty key cells, which the code also rejects, do not arise; the horizon is at least 1.
- Horizon.HorizonHead.CalibrateThreshold: a midpoint of minus infinity or not a number is not modelled, and predictions are stated for a finite midpoint only.
- Framing.HandleClient: stopping the server is where the list of reads ends; a single read is not limited to the buffer size, which allows more runs.
- Framing.SendLine: connecting, reconnecting and back-off are not modelled; the peer is gone where the list of results runs out.
- Startup, artifact saving and loading, endpoint parsing: plumbing with single-branch facts.
