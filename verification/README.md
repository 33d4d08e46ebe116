# Verification of pkg/stats

`pkg/stats` keeps resource statistics per item (a container, a VM, the host):
fifteen minutes of samples in memory, seven days of minutes in one ring file per
item, and alerts over the minutes. This project models its four layers in Dafny
and proves what each promises, over whole runs where the promise is about runs.

**Ring file** (`disk.dfy`, `ringprotocol.dfy`, `ringsafety.dfy`,
`ringsteps.dfy`, `ringruns.dfy`, `ringstamps.dfy`, `ringmap.dfy`, `seqlock.dfy`,
`risingwrites.dfy`, `ring.dfy`, `bytes.dfy`, `headercodec.dfy`). A disk is what
is durable plus the writes issued since; a 4-byte word is written whole, a
header copy can tear, a failed operation may have written any part of itself,
and a power loss keeps for each word what was durable or any write issued since.
`RingRuns` runs the calls of the writer one disk operation at a time with
failures and power losses anywhere; `Seqlock` adds readers that take no lock,
reading word by word between the writer's operations; `RingFiles` holds the
objects themselves, whose methods perform exactly the operations of such runs.
`HeaderCodec` is the byte format.

**Recorder and store** (`recorder.dfy`, `recorderruns.dfy`, `entry.dfy`,
`recorderlog.dfy`, `recorderreads.dfy`, `faults.dfy`, `population.dfy`,
`closing.dfy`). `Recorders` says what a sample does to an item: which values are
stored, when the pending minute is committed, what a clock step drops.
`RecorderRuns` follows every value through whole runs. `Entries` is the object
that does it, on a ring file and a live ring, and carries that history along, so
`RecorderLogs` can say what its ring holds, slot by slot. `RisingWrites` shows
that readers beside a writer whose minutes rise are safe, and `RecorderReads`
that a recorder is such a writer until its clock steps back: a cell can then be
torn only for a minute the ring already held when it was opened.
`Populations` is which items are kept. `Closing` is the on-minute hook against
Close with any number of threads.

**Query and live ring** (`query.dfy`, `itemquery.dfy`, `livering.dfy`). Windows,
points and modular indices, related to the plain map from minutes to what was
committed, to the plain log of puts, and (`ItemQueries.QueryShowsLast`,
`ItemQueries.QueryShowsRecorded`) to the samples themselves.

**Evaluator** (`rules.dfy`, `alertmodel.dfy`, `alertviews.dfy`, `alertruns.dfy`,
`alertlog.dfy`, `alertcalls.dfy`, `history.dfy`, `evaluator.dfy`,
`eventqueue.dfy`, `atomicfile.dfy`). The alert state machine minute by minute,
what an event and a change of rules mean in terms of the calls alone
(`AlertCalls`), the recount from history at a restart, the proof that restarts cannot be seen in the events
(`Histories` takes the history from the ring itself), the queue that hands
events out, and the file the state is kept in.

`types.dfy` and `ordering.dfy` hold shared values and byte order.

## Conventions

- A string is its bytes, one `char` below 256 for each. Integers are unbounded;
  64-bit fields and 32-bit stamps are cut to their width where they are stored
  or compared. The division and the remainder that truncate toward zero are
  written out (`TruncDiv`, `TruncMod`).
- Floating point is exact: `Float` adds infinities and NaN to the reals, a stored
  value is a real or absent. Rounding to 32 bits is not modelled.
- `Unclean` are the slots of a ring whose stamp in the file is not of a commit
  that returned. A new ring has none, only a failed commit adds its own slot, and
  a commit that returns clears it again.
- Minutes are below 2^32 where a stamp is involved. The stamp of minute 0 is that
  of an empty slot: its commit leaves nothing that shows (`RingProtocol.KeptWith`)
  and reading it matches any empty slot 0 (`RingMap.MinuteZeroReadsRaw`).
- Where an outcome is the system's to choose (a disk error, the order of a map,
  a thread's turn) it is nondeterministic or an input of the step, and the
  statement holds for every choice. Which operations of a disk succeed is a
  function given with it (`works`), so an operation can only fail if the disk
  failed; whether reads work is an input of the call.

## Where the code and its documentation differ

- `pkg/stats/live.go:59` promises a grid that ends at floor(now/5)*5. The code's
  division truncates toward zero, so for a negative clock that is not a multiple
  of 5 the grid ends 5 seconds later than that, after the clock. The model follows
  the code (`LiveRings.LiveRing.Snapshot`); `LiveRings.GridEndsAtFloorIff` says
  exactly when the promise holds and `LiveRings.GridEndsAfterClock` gives a clock
  at which it does not.
- `pkg/stats/types.go:131-134` says IsPartial is false for any error that has
  another cause, alone or joined. It is true for a wrap around a join that mixes
  a key error with another cause (`Faults.WrapHidesFailure`). `Faults.PartialIff`
  gives the exact condition, and `Entries.TellsAll` shows that no error of Record
  meets it.

## Model

| member | source | states |
|---|---|---|
| RingRuns.RunsAreSafe | pkg/stats/ring.go:213-225 | every state of every run of a new ring keeps the safety invariant: commits, new series and header writes in any order, each operation whole, failed or partly written, power losses and restarts at any point |
| RingRuns.CrashConsistent | pkg/stats/ring.go:275-308 | whatever a power loss leaves at any point of any run: the file parses, to the current header or one a call was writing, and is long enough for it; every slot reads as nothing or as one whole minute; minutes committed before the last sync read whole; a series the current header lacks reads as gaps |
| RingRuns.StepKeeps | pkg/stats/ring.go:310-383 | each single disk operation of writeMinute, addSeries and setForgotten, success or failure, and each power loss keeps the invariant |
| RingRuns.InvRecovers | pkg/stats/ring.go:275-308 | the recovery statement for any state within the invariant, whatever led to it |
| RingRuns.KillKeepsCommitted | pkg/stats/ring.go:352-383 | without a power loss every minute whose commit returned reads back whole for every series until its slot is reused |
| RingRuns.CrashKeeps | pkg/stats/ring.go:275-308 | a restart on what a power loss left is again a state within the invariant |
| RingSafety.SafeParses | pkg/stats/ring.go:275-308 | parsing chooses the valid copy with the higher number, and the ring reopened on it is safe whichever copy won |
| RingSafety.SafeReadsWhole | pkg/stats/ring.go:352-383 | in every crash image of a safe ring a slot whose stamp is not 0 holds the whole minute of that stamp |
| RingSteps.StampKeepsSafe | pkg/stats/ring.go:380-382 | writing the stamp keeps the ring safe only because every word of the row was durable before |
| RingSteps.ZeroKeepsSafe | pkg/stats/ring.go:356-364 | zeroing the stamp first takes the old minute back, so no old stamp can meet new values |
| RingSteps.HeaderKeepsSafe | pkg/stats/ring.go:213-225 | a header copy written whole or torn never disturbs the copy in use |
| RingSteps.HeaderSettles | pkg/stats/ring.go:213-225 | once synced, the new header is the one every crash image parses to |
| RingSteps.BlockSettles | pkg/stats/ring.go:325-335 | the columns of a new series are durable gaps before any header can list it |
| Disk.SyncNarrows | pkg/stats/ring.go:362-364 | a sync only rules out what a power loss could leave |
| Disk.VisibleMay | pkg/stats/ring.go:385-394 | what is visible is one of the things a power loss can leave |
| RingFiles.RingFile.WriteMinute | pkg/stats/ring.go:352-383 | the method performs the operations of a commit in order as a run of the protocol; on success exactly this minute is kept in its slot (of minute 0 nothing shows) and nothing else changes; on failure at most that slot is lost; it fails exactly when an operation of the disk does |
| RingFiles.RingFile.AddSeries | pkg/stats/ring.go:310-342 | returns the index of the key, appends a key after the others, and fails with a bad key or a full ring exactly when the key is out of bounds or is new on a ring of 48; any other failure is one of the disk, and a failed operation of the disk always one |
| RingFiles.RingFile.SetForgotten | pkg/stats/ring.go:344-350 | publishes the time on success and changes nothing else; a run of the protocol either way; it fails exactly when an operation of the disk does |
| RingFiles.RingFile.WriteHeader | pkg/stats/ring.go:213-225 | writes the copy not in use, syncs, and only then takes the header over |
| RingFiles.RingFile.CreateRing | pkg/stats/ring.go:229-260 | a bad name, or a system call that fails, makes no ring, with the error that says which; otherwise the ring starts in the state every run starts from |
| RingFiles.RingFile.Reopen | pkg/stats/ring.go:262-308 | opening what a power loss left is the protocol step of a restart and gives a valid ring again |
| RingFiles.RingFile.ReadWindow | pkg/stats/ring.go:407-472 | refuses windows outside 1 to 10 080 minutes and closed rings; else one cell per minute for exactly the series asked for, wrapped windows in two pieces, each cell as the file shows it; an I/O error exactly when a read fails |
| RingFiles.RingFile.ReadPieces | pkg/stats/ring.go:417-432 | one or two reads give, for each minute of the window, the word of its slot |
| RingFiles.RingFile.BuildCells | pkg/stats/ring.go:457-470 | a cell is there exactly when both stamps are the wanted minute and no value is absent |
| RingFiles.RingFile.NewestMinute | pkg/stats/ring.go:474-488 | the largest stamp of the file |
| RingFiles.DiskFile.Do | pkg/stats/ring.go:359-361 | an operation of the file succeeds whole or fails after writing any part of it |
| RingMap.LookupIff | pkg/stats/ring.go:188-189 | a minute other than 0 is found exactly when it was the last one written to slot m mod 10 080, and as it was written |
| RingMap.RecentFound | pkg/stats/ring.go:352-383 | under increasing commits exactly the committed ones of the last 10 080 minutes are found, minute 0 apart |
| RingMap.ReadRefinesMap | pkg/stats/ring.go:457-470 | in a slot without the traces of a failed commit, reading any minute but 0, negative ones included, gives exactly what the map holds |
| RingMap.ReadIsWhole | pkg/stats/ring.go:457-470 | with failed commits too, a minute reads as a gap or as one whole minute written to its slot |
| RingMap.MinuteZeroReadsRaw | pkg/stats/ring.go:459-461 | the exception: minute 0 matches an empty slot, and reads whatever values lie there |
| RingMap.NewestIsLast | pkg/stats/ring.go:474-488 | under increasing commits the newest minute is the last commit |
| RingMap.PlainRestart | pkg/stats/ring.go:262-308 | a process that stops without a power loss and opens the ring again finds the same map, whatever was in progress |
| RingStamps.StampsAfter | pkg/stats/ring.go:352-383 | only the two stamp writes of a commit ever move a stamp a reader sees |
| RingStamps.BooksAfter | pkg/stats/ring.go:356-361 | a stamp other than 0 is only put in a slot that shows 0 |
| Seqlock.ActionKeeps | pkg/stats/ring.go:407-471 | every step of the writer and of any reader keeps what links the stamps a reader saw to the words it read |
| Seqlock.NoTornReads | pkg/stats/ring.go:407-471 | in every interleaving of the writer's operations with any number of readers reading word by word, a cell is that of one committed minute (average, least and greatest) unless that minute was stamped again between that reader's own two readings of its stamp; what other readers or other minutes see does not matter |
| RisingWrites.RisingKeeps | pkg/stats/ring.go:407-471 | over whole runs in which the minutes of the commits begun rise, failed ones included, each is stamped once at most, and a minute a reader finds was there at the start or stamped before |
| RisingWrites.TornOnlyIfKeptAgain | pkg/stats/ring.go:396-404 | so, given rising commits, a cell can only be torn for a minute the ring held at the start and the writer committed again |
| RisingWrites.RisingNeverTears | pkg/stats/ring.go:407-471 | and when the rising commits are above every minute the ring held, no reader ever returns a torn cell; that they rise is a hypothesis here, which RecorderReads discharges for a recorder |
| RecorderReads.RecorderNeverTears | pkg/stats/ring.go:396-471 | beside any run of a recorder: if what was committed on the ring since some state are, in order, minutes of one era of the run, a cell is torn only for a minute the ring held then and the recorder committed again, and never when the first commit is above everything it held |
| RecorderReads.ItemNeverTears | pkg/stats/ring.go:396-471 | the same for the item object and everything it did to its ring since it was opened, until its clock steps back |
| HeaderCodec.EncodeHeader | pkg/stats/ring.go:93-117 | writing each field at its offset in a zeroed buffer gives the fields one after the other, the checksum of them all and zeros: no field overlaps another |
| HeaderCodec.DecodeHeader | pkg/stats/ring.go:119-159 | the checks in order, first fault first |
| HeaderCodec.RoundTripIff | pkg/stats/ring.go:93-159 | a header decodes to itself exactly when the format can hold it: version 1, 10 080 minutes, a name of 1 to 256 bytes, at most 48 keys of 1 to 63 bytes, a signed 64-bit time, an unsigned 64-bit number |
| HeaderCodec.DecodedIsEncodable | pkg/stats/ring.go:119-159 | whatever bytes decode give a header within those bounds |
| HeaderCodec.OnlySealedDecodes | pkg/stats/ring.go:119-134 | only bytes with the magic and the checksum of what is before it decode, and of those another version is told apart |
| HeaderCodec.DamagedByteSeen | pkg/stats/ring.go:119-128 | bytes that decode never do again with any one of their first 3370 bytes changed, the checksum included |
| HeaderCodec.FieldReadsBack | pkg/stats/ring.go:53-63 | each field reads back from its own offset |
| HeaderCodec.WrittenCopyDecodes | pkg/stats/ring.go:93-159 | the header a ring keeps is the header found in the bytes it wrote |
| HeaderCodec.ColumnsTile | pkg/stats/ring.go:68-188 | every word behind the stamps up to ringFileSize belongs to exactly one slot of one column of one series |
| Bytes.LittleRoundTrip | pkg/stats/ring.go:96-98 | little-endian fields read back |
| Bytes.SignedRoundTrip | pkg/stats/ring.go:98-138 | a signed 64-bit time survives its unsigned field exactly when it fits |
| Bytes.ChecksumSeesByte | pkg/stats/ring.go:115-128 | a byte changed anywhere changes the CRC-32 of the bytes |
| Recorders.StoredFits | pkg/stats/store.go:382-416 | what clean lets through never takes ring keys and pending keys together past 48 |
| Recorders.StoresAllItCan | pkg/stats/store.go:382-416 | every finite value a 32-bit float can hold is stored under a key of 1 to 63 bytes the item has; of new keys all are until 48 are reached, and then those turned away come after those let in; refused are exactly these and the keys of a bad length |
| Recorders.RecordedFits | pkg/stats/store.go:333-378 | every call keeps that bound, rollovers, failed commits and clock steps included |
| Recorders.AddingFits | pkg/stats/store.go:419-435 | so at a commit each pending key is in bounds and still fits: the cap is never hit there |
| RecorderRuns.Conservation | pkg/stats/store.go:333-378 | the accepted samples, in order, are those of ended minutes followed by the pending ones: every stored value of a key is in exactly one minute, the one whose 60 seconds hold its time |
| RecorderRuns.AcceptedIff | pkg/stats/store.go:333-349 | a sample is accepted exactly if the item is open and it is not late, or late by more than 60 seconds, which ends the era; a sample that is not accepted changes nothing |
| RecorderRuns.GatheredExact | pkg/stats/store.go:366-376 | the running aggregate of a key is the exact sum, least, greatest and count of its values |
| RecorderRuns.SummaryExact | pkg/stats/store.go:426-433 | the cell committed for a key is the exact mean, least and greatest of its values in that minute, in this order, and a gap without any |
| RecorderRuns.MinutesIncrease | pkg/stats/store.go:340-365 | between clock steps minutes end in strictly increasing order, the pending one after them all |
| RecorderRuns.SteadyIsOneEra | pkg/stats/store.go:340-347 | an era ends exactly when an admitted sample is more than a minute before the last one |
| RecorderRuns.InputKeeps | pkg/stats/store.go:333-378 | each call keeps the whole accounting |
| Entries.Clean | pkg/stats/store.go:382-416 | stores exactly the finite values under good keys the cap has room for by byte order, and tells of every refused key in that order |
| Entries.CountHeld | pkg/stats/store.go:383-389 | counts the keys of the ring and the pending keys it lacks |
| Entries.RefusalMeans | pkg/stats/store.go:402-413 | a bad key error is for a length outside 1 to 63, a cap error for a value that would have been stored below the cap |
| Entries.AddOne | pkg/stats/store.go:427-430 | making the series of a pending key fails only on the disk |
| Entries.Entry.Commit | pkg/stats/store.go:419-435 | writes for every pending key its exact summary at the index of that key; it fails exactly when an operation of the disk does, and then loses at most the slot |
| Entries.Entry.Roll | pkg/stats/store.go:357-365 | commits the pending minute exactly when the sample is of a later one, and opens the new one either way; what is due is committed whenever no operation of the disk fails |
| Entries.Entry.Record | pkg/stats/store.go:333-378 | one input of the history that Conservation and MinutesIncrease are about; late samples are turned down within a minute, more than a minute back drops what is pending and live; the live ring gets one put with exactly the stored values; what is due is committed unless an operation of the disk fails; the errors for a removed, a closed and a late sample (by 60 seconds at most) exactly then |
| Entries.Entry.Close | pkg/stats/store.go:151-163 | commits what is pending, for good, as the last input of that history, and it is committed whenever no operation of the disk fails |
| Entries.TellsAll | pkg/stats/store.go:377 | Record's error is nil exactly when nothing was refused and no commit failed, and partial exactly when keys were refused and no commit failed |
| Entries.FoldIn | pkg/stats/store.go:366-376 | adding the values of a sample in any order of its keys gives each key one value more and leaves the others |
| Entries.Entry.constructor | pkg/stats/store.go:289-290 | an entry starts with an empty history on its ring |
| Entries.RecordHolds | pkg/stats/store.go:333-378 | each call of Record, whatever the fate of its commit, leaves the ring as its history says: a slot whose last commit returned holds that minute and shows nothing else, one no commit was tried for is as it was |
| Entries.Entry.Remove | pkg/stats/store.go:530-542 | a removed entry turns every later call down and its ring is closed |
| Entries.Entry.SetForgotten | pkg/stats/store.go:440-453 | marking an item, or reviving it, changes nothing of its minutes or its history |
| RecorderLogs.FiledKeeps | pkg/stats/store.go:419-435 | a committed minute has a series for every key with a value, and the index of a key never changes |
| RecorderLogs.LogIncreasing | pkg/stats/store.go:357-365 | without clock steps the commits that returned are an increasing log of exactly the committed minutes |
| RecorderLogs.SamplesOfMinute | pkg/stats/store.go:333-378 | in increasing minutes the accepted samples of a minute are exactly those of its batch |
| RecorderLogs.EndHolds | pkg/stats/store.go:419-435 | the end of a minute, committed, failed or lost to a clock step, keeps the ring as its history says |
| RecorderLogs.LastRecordedHeld | pkg/stats/store.go:333-435 | after any run on any ring, clock steps and failed commits included, the map at a slot whose last commit returned is exactly the statistics of that minute under the index of each key, and at a slot without commits what it was |
| RecorderLogs.LastIsRecorded | pkg/stats/store.go:333-378 | while the clock does not step back, for any minute of the last lap that is exactly what was recorded for the key in that minute, and a gap if nothing was |
| RecorderLogs.HoldsLog | pkg/stats/store.go:333-435 | when no commit failed, a ring that held a log holds that log and the commits since, and shows nothing else |
| Faults.IsPartialLoop | pkg/stats/types.go:131-146 | the loop with its early exits decides the predicate the exactness lemmas are about |
| Faults.PartialExact | pkg/stats/types.go:131-146 | on joins of leaves, wrapped or not, at any depth, IsPartial holds exactly when there are only rejections |
| Faults.PartialIff | pkg/stats/types.go:131-146 | on every error tree: it holds exactly for only rejections or for trees where a wrap hides a mixed join |
| Faults.WrapHidesFailure | pkg/stats/types.go:131-146 | one wrap around a mixed join makes IsPartial true although a key error is not the only cause |
| LiveRings.LiveRing.Put | pkg/stats/live.go:34-57 | one more put at the slot of the time, with every value but those of new keys past 48; times before 1970 are ignored |
| LiveRings.LiveRing.Snapshot | pkg/stats/live.go:60-80 | the 180 slots that end at the slot of now, each key slot by slot as the log of puts says |
| LiveRings.GridEndsAtFloorIff | pkg/stats/live.go:59-62 | the documented end of the grid, floor(now/5)*5, is the one the code computes if and only if the clock is not negative or is a multiple of 5 |
| LiveRings.GridEndsAfterClock | pkg/stats/live.go:59-62 | at -1 the grid ends at 0, where the floor is -5 |
| LiveRings.LiveRing.Reset | pkg/stats/live.go:82-87 | empties the ring |
| LiveRings.LiveRing.Fill | pkg/stats/live.go:46-56 | stores what the cap allows at one index and nothing elsewhere |
| LiveRings.ReplacedIsPut | pkg/stats/live.go:42-56 | replacing an index in every column is one more put of the log |
| LiveRings.ShownIff | pkg/stats/live.go:66-77 | a slot shows a value exactly when the last put on its ring index was for that slot and stored that value |
| LiveRings.WindowShowsLastPut | pkg/stats/live.go:60-80 | while times do not go back, every slot of the window shows its last put |
| LiveRings.NegativeSlotsEmpty | pkg/stats/live.go:70 | slots before 1970 show nothing although empty indices are stamped 0 |
| Queries.FloorToIsFloor | pkg/stats/query.go:10 | the double remainder rounds down to a multiple, negatives included |
| Queries.WindowFits | pkg/stats/query.go:57-62 | for every clock and range the minutes read are exactly those of the points, at most 10 080, all 10 080 for seven days, and the last point holds the last complete minute |
| Queries.EachMinuteOnce | pkg/stats/query.go:98-106 | each minute of the window falls in exactly one point |
| Queries.MinuteInSpan | pkg/stats/query.go:98-106 | and it is the point whose span of time holds the minute |
| Queries.FoldedMeans | pkg/stats/query.go:103-119 | a point is a gap exactly without minutes; else its extremes are those of its minutes and enclose its mean |
| Queries.RangeSpans | pkg/stats/query.go:18-31 | how far each range reaches and how far apart its points are, in seconds |
| Queries.Buckets | pkg/stats/query.go:98-121 | the loop folds, for each point, exactly its own minutes |
| Queries.Bucket | pkg/stats/query.go:103-119 | one pass keeps sum, extremes and count; that this is the mean is ItemQueries.FoldedIsMean |
| ItemQueries.FoldedIsMean | pkg/stats/query.go:103-119 | the fold of a point is the sum of the averages of its present minutes divided by their number, the least of their least values and the greatest of their greatest |
| ItemQueries.Query | pkg/stats/query.go:15-92 | closed store, unknown item and a ring closed since the lookup are told apart; otherwise live points from the live ring or points from the window of the range, with the times of the first and the last; series sorted, alert series and series without data left out |
| ItemQueries.QueryMinutes | pkg/stats/query.go:57-77 | one fold per series of the ring, over the cells of its window |
| ItemQueries.QueryLive | pkg/stats/query.go:43-56 | every live value is its own mean and extremes, at the time of its slot |
| ItemQueries.List | pkg/stats/query.go:79-92 | exactly the series with data outside the alert chart, in byte order |
| ItemQueries.ListedIff | pkg/stats/query.go:84-90 | left out are exactly the keys "alert" and "alert/...", and series without any value |
| ItemQueries.QueryRefinesMap | pkg/stats/query.go:57-77 | every point folds exactly the kept minutes of its span, as they were committed, when no slot of the span has the traces of a failed commit and the span does not hold minute 0 |
| ItemQueries.RecentMinutes | pkg/stats/store.go:243-255 | the newest minute and the minutes that end there, or 0 when the ring is younger than that |
| ItemQueries.CommittedReadsBack | pkg/stats/store.go:419-435 | from samples to disk and back: a committed minute reads back as the exact mean, least and greatest of its recorded values, on any ring |
| ItemQueries.ItemShowsLast | pkg/stats/ring.go:407-472 | end to end, for any item on any ring, clock steps and failed commits included: a minute whose slot had its last commit return reads as exactly the statistics of the values Record accepted in the minute last committed there, and as a gap if that is another minute |
| ItemQueries.ItemShowsRecorded | pkg/stats/ring.go:407-472 | while the clock does not step back, reading any minute of the last lap whose last commit did not fail gives the mean, least and greatest of the values Record accepted for the key in that minute, once it is over, and a gap where there were none |
| ItemQueries.QueryShowsLast | pkg/stats/query.go:57-77 | so every point of a query of any item folds exactly what was last recorded in the minutes of its span |
| ItemQueries.QueryShowsRecorded | pkg/stats/query.go:57-77 | and exactly what was recorded in those minutes while the clock does not step back |
| ItemQueries.PointsOrdered | pkg/stats/query.go:103-119 | every such point has min <= avg <= max, and is a gap exactly when nothing was recorded in its span |
| ItemQueries.RingStaysOrdered | pkg/stats/store.go:419-435 | what an item commits is ordered, so whoever opens its ring next starts from ordered minutes, as PointsOrdered asks |
| ItemQueries.RingHoldsLog | pkg/stats/ring.go:474-488 | the ring of an item without failed commits is the map of its log, across restarts, and its newest minute is the last of them when they increase |
| Populations.Store.Entry | pkg/stats/store.go:260-292 | revives or makes an item exactly when the store is open, there is room, its file was not skipped and the write works; each error exactly when due; an error changes nothing; both bounds are kept |
| Populations.Store.Forget | pkg/stats/store.go:440-471 | marks the item and removes exactly the forgotten items there is no room for, unless the write fails, which changes nothing; an error otherwise exactly when a removed file cannot be deleted; both bounds are kept |
| Populations.Store.Sweep | pkg/stats/store.go:480-503 | a readable item stays exactly if it is alive or forgotten for less than 604 800 seconds, and its newest minute or last sample is younger than that; an unreadable one stays; an error exactly when a file cannot be read or deleted |
| Populations.ForgottenStaysSevenDays | pkg/stats/store.go:437-503 | over any later calls of Forget and Sweep a forgotten item with recent data stays, as it was, exactly until a sweep that can read it comes 604 800 seconds after the forgetting, unless it has to make room |
| Populations.ForgetKeepsSevenDays | pkg/stats/store.go:437-503 | the same counted from the time given to Forget |
| Populations.Store.OldFirst | pkg/stats/store.go:454-465 | the forgotten items sorted by time and name |
| Populations.EvictedAreOldest | pkg/stats/store.go:463-469 | what is removed was forgotten before everything forgotten that stays |
| Populations.EvictedIsPrefix | pkg/stats/store.go:463-469 | the first of the sorted names past 256 are the items with 256 others after them |
| Populations.ForgetBounded | pkg/stats/store.go:440-471 | after a Forget at most 256 items are forgotten |
| Populations.RevivedBounded | pkg/stats/store.go:270-291 | admission keeps at most 256 live items |
| Ordering.Sort | pkg/stats/store.go:394 | the members of a set once each in byte order |
| Closing.StepKeeps | pkg/stats/store.go:128-173 | every step of recording threads, removals and Close keeps the accounting of owed hooks |
| Closing.HooksInOrder | pkg/stats/store.go:295-330 | a hook runs at most once for a commit, and for the commits of one item in their order |
| Closing.AllHooksRan | pkg/stats/store.go:164-172 | when Close returns the hook has run for every committed minute |
| Closing.NothingAfterReturn | pkg/stats/store.go:114-120 | after Close returned no hook runs and nothing is committed, whatever steps follow |
| Closing.CloseHookIsLast | pkg/stats/store.go:164-171 | the hook Close calls for an item is that item's last, all earlier ones have run |
| Closing.QuietStep | pkg/stats/store.go:150-166 | from the moment Close calls its own hooks nothing can be committed |
| Closing.WaitEnds | pkg/stats/store.go:164-166 | while Close waits one of the threads it waits for can go on |
| Rules.ValidateExact | pkg/stats/rules.go:28-42 | accepts exactly the lists within every bound; otherwise names the first faulty rule and its first fault |
| Rules.FaultMeans | pkg/stats/rules.go:28-42 | the fault named is the first of unknown key, duplicate, threshold outside 1 to 100 and minutes outside 1 to 120 that the rule shows |
| Rules.DefaultRulesValid | pkg/stats/rules.go:20-25 | the defaults, cpu_high and mem_high from 90 percent on for 10 and 5 minutes, pass their own validation |
| AlertViews.OnMinuteByKey | pkg/stats/evaluator.go:184-220 | a minute acts on each rule key on its own, events of cpu_high first |
| AlertViews.ReconcileByKey | pkg/stats/evaluator.go:303-344 | so does a recount |
| AlertViews.EffectiveShape | pkg/stats/evaluator.go:142-151 | the rules in force are one for each key, cpu_high then mem_high |
| AlertViews.MergedRules | pkg/stats/evaluator.go:231-238 | a change replaces the rules of the keys listed and keeps the other key |
| AlertCalls.RunsCounted | pkg/stats/evaluator.go:184-220 | whatever minutes of an item are evaluated, with gaps, the run of each key is the number of high minutes one after the other that end with the last, up to 120; its rules and every other item are untouched |
| AlertCalls.UnbrokenMinutes | pkg/stats/evaluator.go:189-193 | each of these minutes was evaluated and high, and the one before them was not |
| AlertCalls.MinuteEmits | pkg/stats/evaluator.go:184-220 | the events of a minute: firing when such a run reaches the window and no alert is held, resolved when the minute is not high, cpu_high first, with Since and Value |
| AlertCalls.FiringMeansHigh | pkg/stats/evaluator.go:184-220 | a firing event means that each minute of the window was evaluated and high, and Since is the first minute of that run, 119 minutes back at most |
| AlertCalls.RepeatedMinute | pkg/stats/evaluator.go:189-193 | the minute evaluated last is not evaluated again |
| AlertCalls.RulesKept | pkg/stats/evaluator.go:184-271 | minutes, recounts and Resolve change no rule of any item and nothing of another item |
| AlertCalls.ChangeSetsRules | pkg/stats/evaluator.go:225-246 | an accepted change puts exactly the listed rules in force for that item and keeps its other key and every other item; a rejected one changes nothing |
| AlertCalls.CallRecounts | pkg/stats/evaluator.go:225-253 | a start and an accepted change leave each alert held exactly when the rule then in force is on, the ring is at most 2 minutes old and its high minutes at the end reach the window; they emit exactly the difference, with Since and Value |
| AlertCalls.UnreadableKeeps | pkg/stats/evaluator.go:303-308 | a recount that cannot read the ring changes nothing and emits nothing |
| AlertCalls.ResolveEnds | pkg/stats/evaluator.go:257-271 | Resolve ends each alert with one event, value 0 and its own Since, and leaves no alert and no run |
| AlertCalls.PruneKeeps | pkg/stats/evaluator.go:276-286 | Prune keeps the named items whole, rules included, and no other |
| AlertCalls.ReloadKeeps | pkg/stats/evaluator.go:100-133 | a restart from what was saved has every item with the same rules, alerts and runs |
| AlertRuns.RestartsInvisible | pkg/stats/evaluator.go:251-253 | a life with restarts anywhere emits the same events as the same life without them, Since and Value included |
| AlertRuns.FoldActivatesExactly | pkg/stats/evaluator.go:184-220 | folding a history without a missing minute makes an alert active exactly when the rule is enabled and the run at the end reaches its window |
| AlertRuns.RecountReachesFold | pkg/stats/evaluator.go:303-344 | from any prior alerts a recount reaches the active set of the fold and emits exactly the difference |
| AlertRuns.StaleRecountResolves | pkg/stats/evaluator.go:309-310 | an item down for more than 2 minutes loses its runs: active alerts resolve, none fires |
| AlertRuns.RecountSilentIff | pkg/stats/evaluator.go:303-344 | a recount is silent exactly when each alert is held if and only if its run reaches the window |
| AlertRuns.MissedMinuteShows | pkg/stats/evaluator.go:189-193 | a minute never evaluated makes a restart visible: the alert stays under onMinute and resolves under a recount |
| Histories.ReadShowsRows | pkg/stats/evaluator.go:303-326 | the 120 minutes a recount reads from a ring whose committed minutes are rows are the last rows, gaps before the first; which is the reading RestartsInvisible assumes |
| Histories.AlertSeriesHidden | pkg/stats/query.go:84-88 | the two series the evaluator judges are those no query lists |
| Histories.NextSession | pkg/stats/store.go:243-255 | each start finds in the ring the log of all earlier ones |
| Histories.ReopenedShowsRows | pkg/stats/store.go:243-255 | so after any number of restarts what is read is the newest minute and the last rows |
| Histories.RestartFromRing | pkg/stats/evaluator.go:251-253 | and the recount from that ring emits nothing and keeps the alerts of an item that agreed with its history |
| AlertLog.ApplyTracksIff | pkg/stats/evaluator.go:184-286 | the events of one call lead every alert from what was held to what is held, exactly when the call is no Prune that drops an active alert |
| AlertLog.AlertsAlternate | pkg/stats/evaluator.go:184-271 | over any run the events of each item and key alternate firing and resolved, each resolved with the Since of its firing, and the active alerts are those whose last event is firing |
| AlertLog.RunKeepsValid | pkg/stats/evaluator.go:416-426 | every run keeps valid rules, unique known active keys, runs of 0 to 120 and no idle item |
| AlertLog.LoadableIff | pkg/stats/evaluator.go:108-124 | the checks of load accept exactly those item states |
| AlertLog.SavedIsLoadable | pkg/stats/evaluator.go:100-133 | loading what any run saved gives back every rule, alert and run |
| AlertLog.LoadedIsValid | pkg/stats/evaluator.go:100-133 | whatever load keeps of a file is a state runs can start from |
| Evaluators.Evaluator.constructor | pkg/stats/evaluator.go:76-98 | an unusable file counts for nothing, a usable one restores its items |
| Evaluators.Evaluator.Load | pkg/stats/evaluator.go:100-133 | all items or none |
| Evaluators.Evaluator.RulesOf | pkg/stats/evaluator.go:142-151 | defaults overlaid by what the item holds |
| Evaluators.Evaluator.OnMinute | pkg/stats/evaluator.go:184-220 | the records updated in place hold what the value model of the call gives, with its events in order, other items untouched; and unless the last write failed a restart from the file restores exactly this state; after a failed one it restores the state saved before; the file is written exactly when something was evaluated, and fails exactly when the write does |
| Evaluators.Evaluator.CountRun | pkg/stats/evaluator.go:319-326 | counts the trailing high minutes up to the window |
| Evaluators.Evaluator.SetRules | pkg/stats/evaluator.go:225-246 | rejects an invalid name or rule list without any change; else the listed rules are in force and the other key keeps its rule, no other item is touched, the records hold what the recount gives, and the file restores them |
| Evaluators.Evaluator.Rebuild | pkg/stats/evaluator.go:251-253 | the records hold what the recount of the value model gives, and the file restores them |
| Evaluators.Evaluator.Resolve | pkg/stats/evaluator.go:257-271 | ends every active alert of the item and clears its runs, keeping its rules and every other item |
| Evaluators.Evaluator.Prune | pkg/stats/evaluator.go:276-286 | keeps exactly the items of the store, each as it was |
| Evaluators.Evaluator.Save | pkg/stats/evaluator.go:435-448 | writes unless the file holds the state already; exactly a failed write leaves the file as it was, and is remembered |
| EventQueue.ExactlyOnceInOrder | pkg/stats/evaluator.go:359-404 | in every interleaving, re-entrant and panicking emits included, what was emitted is a prefix of all events in lock order, one thread drains at most, and events wait without a drainer only after a panic |
| EventQueue.DrainerLeavesNothing | pkg/stats/evaluator.go:385-392 | a drainer that leaves normally has emitted every event queued so far |
| EventQueue.CallDrainsLeftovers | pkg/stats/evaluator.go:359-373 | after any call that queues, whatever waits has a drainer |
| EventQueue.StepKeeps | pkg/stats/evaluator.go:359-404 | each section under the lock, each emit, panic and recovery keeps the order |
| EventQueue.EmittedAlternates | pkg/stats/evaluator.go:355-404 | what is emitted for an item and key alternates firing and resolved |
| AtomicFiles.FileSystem.WriteFileAtomic | pkg/stats/evaluator.go:451-473 | from the first system call to the last a power loss leaves what was there or the whole of the new contents; after an error the path is as it was; once the names are durable only the new contents can be found; it fails exactly when one of its system calls does |
| AtomicFiles.GuardedMeans | pkg/stats/evaluator.go:450 | what a power loss leaves is no file or whole contents, one of those allowed |
| AtomicFiles.GuardedAfter | pkg/stats/evaluator.go:450 | a program that starts again can rely on the same |

## Left out

- Rounding to 32-bit floats, and sums of 64-bit floats: all arithmetic on values is exact.
- The collision probability of CRC-32 and SHA-256: a torn header copy never decodes (one damaged byte never does, by `HeaderCodec.DamagedByteSeen`), and every item has a file of its own.
- JSON: what is saved is the state itself. Units, chart names and the shape of results are presentation.
- File modes, Restrict, mkdirPrivate, Chtimes and the Windows branches of `pkg/stats/fsys.go`: best-effort calls without state.
- Open's directory scan, quarantine of `*.ring.bad` and removal of `*.ring.tmp`: file names and ages only.
- The same minute committed twice while a query reads it, after a backward clock step or a restart within the minute: documented as unsupported; `RecorderReads.ItemNeverTears` excepts it, and `Seqlock.NoTornReads` says which cells it can concern.
- A hook that calls Close: documented as a deadlock.
- Two threads recording the same item at once: `Closing` lets one thread at a time record an item; the order of two hooks of one item is not promised otherwise.
- Overflow of 64-bit times: clocks are far from it.
- RingFiles.RingFile.ReadWindow: reads with no writer at work; reading between the writer's operations is `Seqlock`, which models readWindow word by word on values.
- Seqlock.NoTornReads: the series read are those known when the call starts, as readWindow takes them once.
- EventQueue.ExactlyOnceInOrder: do and drain are steps of a state machine, not loops over an object, because other threads act between their sections.
- Closing.AllHooksRan: Record, remove and Close are steps of a state machine for the same reason; the minute itself is `Entries`.
- Populations.Store.Sweep: the store sees an item as its times (forgotten, newest minute, last sample), not as the ring object; removing old `*.ring.tmp` and `*.ring.bad` files is not modelled.
- RingFiles.RingFile.WriteMinute: not minutes a 32-bit stamp cannot hold, which begin in the year 10136; writeMinute takes them and cuts the stamp.
- RingFiles.RingFile.CreateRing: the temporary file, its sync, close and rename are one outcome, done or failed.
- AlertCalls.FiringMeansHigh: is about minutes of one item after a start without runs; with recounts in between `AlertRuns.RecountReachesFold` says what fires.
- RingFiles.RingFile.Reopen: opens what a power loss can leave of a ring; files this program did not write, which parseRing turns down, are covered for their header only (`HeaderCodec.DecodeHeader`).
- Entries.Entry.Roll: takes times below the limit of a 32-bit stamp, as WriteMinute does; Record ignores times before 1970 before it gets here.
- Entries.Entry.Record: the same.
- ItemQueries.ItemShowsLast: says nothing of a slot whose last commit failed; `RingMap.ReadIsWhole` does.
- ItemQueries.Query: the range is one of the five, so the error for any other is not modelled.
- Evaluators.Evaluator.constructor: an unusable file counts for nothing; that it is then moved to alerts.json.bad, if it can be, is not modelled.
- Evaluators.Evaluator.SetRules: the minutes read from the store and the clock are parameters, as for Rebuild.
- Evaluators.Evaluator.Rebuild: the minutes read from the store and the clock are parameters; `ItemQueries.RecentMinutes` is the reading and `Histories.RestartFromRing` puts the two together.
- The aggregates of a pending minute are values in a map rather than objects updated through pointers: nothing else points at them.
