# Verification model of speedtest-go

This project models the parts of speedtest-go whose correctness depends on more than one function,
and proves what each of them promises. Check everything with `dafny verify dfyconfig.toml`
(Dafny 4.11).

| files | what they model |
|---|---|
| `GeoipProtocol.dfy` | request goroutines, the updater and the shutdown sequence sharing one geolocation handle under a read-write lock, as a system of small steps |
| `GeoipHandler.dfy` | the handler object: `LocateIP`, `SetGeoIP`, `CloseGeoIP`, updating its fields in place |
| `Updater.dfy` | the update cycle (download, extract, verify, rename, swap) on a file system in which every step may fail |
| `TokenBucket.dfy`, `RateLimiterRuns.dfy`, `RateLimiterPromises.dfy`, `RateLimiter.dfy` | the per-IP limiter: bucket arithmetic, runs with and without eviction, what clients can count on, and the object with its two maps |
| `Metrics.dfy`, `PingRouting.dfy`, `Transfer.dfy` | jitter, percentile, rolling window, slow-start trim; where ping samples go; how bytes are split over streams |
| `Store.dfy`, `History.dfy` | the results table and the history panel that pages through it |
| `Toasts.dfy` | the toast queue against a bounded FIFO |
| `Utf8.dfy` | cutting text on a code-point boundary |
| `Sorting.dfy`, `Wrappers.dfy` | the sorted permutation and its uniqueness; shared vocabulary |

Where the source updates state, the model does too: classes with the source's fields, loops where
the source loops. Each such method is proved equal to a step of a specification function, and the
properties are proved about that function over every run.

## What the model shows beyond the source's own comments

- No run can observe an eviction exactly when the time to live is at least a minute less one clock
  tick (`RateLimiterRuns.EvictionUnobservableIff`). The shipped fifteen minutes are far on the
  safe side; with less, a client can drain its bucket twice within one minute
  (`RateLimiterRuns.EarlySweepDoubles`), so the same condition is exact for the admission bound
  (`RateLimiterRuns.AdmissionBoundIff`). Retry-After stays sound whatever the time to live; when it is
  exact and when it is tight have conditions of their own (`RateLimiterPromises.RetriesExactIff`,
  `RateLimiterPromises.RetryAfterTightIff`).
- The comment above `CloseGeoIP` says no `LocateIP` can be running by then. The drain has a deadline
  and only logs when it is missed. `CloseGeoIP` can be called with a request inside `LocateIP`, and a
  history write can meet the closed store, if and only if the drain missed its deadline
  (`GeoipProtocol.OverlapsIffDrainMissed`, with the runs in `GeoipProtocol.MissedDrain` and
  `GeoipProtocol.SaveAfterMissedDrain`). The lock keeps the request out of a closed lookup all the same.
- A page past row 1,000,000 is served from row 1,000,000, so the pages of a longer table repeat rows
  (`History.PagesAreTheTableIff` gives the exact condition, `History.LongTableRepeats` such a table).
- A share the server refuses (0, or more than 1 GiB) is served as a whole default-size download. The
  default is the server's own setting while the page asks for its own, so a split download then
  receives too much or too little, unless the default downloads make up the very total
  (`Transfer.StreamsReceiveTotalIff` gives the exact condition for every total,
  `Transfer.PageReceivesTotalIff` the short one for the page's settings, `Transfer.DefaultsMiss` inputs
  that miss both ways).
- Should a temp file be given the target's own name, the deferred removal deletes the file just put in
  place: after an update the target lacks the delivery exactly in that case (`Updater.Updater.Tick`;
  `Updater.NamesClash` is such a cycle). The names are random, so this needs a target named like one.
- A head of bytes counted in no time at all has rate 0 on the gauge, and trimming it still lowers the
  result (`Metrics.InstantHeadLowers`); cross-multiplied, the rule for slow heads has no exception.

## Assumptions

- One `allow` is atomic for its IP: the source releases its mutex before it reserves, and reserving
  and cancelling are separate calls.
- A request is never dated before an earlier request or sweep.
- Temp names are new in their directory when they are handed out; panics do not occur.
- Real numbers stand for JavaScript numbers; rounding and infinities are outside the model.
- The hooks of the toast queue do not call back into it.

## Model

| member | source | states |
|---|---|---|
| `GeoipProtocol.InvKept` | internal/handler/handler.go:186-235 | every step of any goroutine keeps the lock exclusive, each handle in custody, readers inside the installed lookup only, and the shutdown order |
| `GeoipProtocol.RunInv` | internal/handler/handler.go:186-235 | every state of every run of requests, updater and shutdown satisfies that invariant |
| `GeoipProtocol.NeverInsideClosedLookup` | internal/handler/handler.go:186-193 | whoever is inside `Locate` is inside the installed lookup, and it is open, whatever swaps and shutdown do meanwhile |
| `GeoipProtocol.CloseFindsNobodyInside` | internal/handler/handler.go:195-218 | a `Close` is a first one and finds no request inside that lookup |
| `GeoipProtocol.HandleConservation` | internal/geoip/updater.go:183-206 | at each moment every opened handle is in exactly one place (with the updater, installed, closed), and is closed at most once |
| `GeoipProtocol.AllClosedAtTheEnd` | main.go:204-213 | once `CloseGeoIP` has run and no tick is in flight every handle has been closed exactly once |
| `GeoipProtocol.NobodyEntersAfterClose` | internal/handler/handler.go:220-235 | after `CloseGeoIP` nothing is ever installed or entered again, even if a late swap comes |
| `GeoipProtocol.CleanDrainSavesAll` | main.go:180-213 | from the end of a drain in time on, before and after the store and the lookup are closed, no request is running and no history write has met the closed store |
| `GeoipProtocol.OverlapsIffDrainMissed` | internal/handler/handler.go:220-224 | `CloseGeoIP` can be called with a request inside `LocateIP`, and a history write can meet the closed store, if and only if the drain missed its deadline |
| `GeoipProtocol.MissedDrain` | main.go:194-211 | a run in which a request is inside the lookup while `CloseGeoIP` waits for the lock |
| `GeoipProtocol.SaveAfterMissedDrain` | main.go:194-203 | a run in which that request then saves into the closed store |
| `GeoipProtocol.LocateGoesOnToSave` | internal/handler/results_handler.go:151-165 | a `LocateIP` enters the installed lookup, or none, gives the lock back either way and goes on to the save |
| `GeoipProtocol.EnabledOnlyLooks` | internal/handler/handler.go:173-177 | `geoipEnabled` enters no lookup and saves nothing |
| `GeoipProtocol.SaveIsLateIff` | main.go:194-203 | in every run a save is counted as late exactly when the store was closed some time before it |
| `GeoipProtocol.HotSwap` | internal/geoip/updater.go:183-200 | a run in which the new lookup takes the place of the old one, which is closed |
| `GeoipProtocol.FailedRename` | internal/geoip/updater.go:192-196 | a run in which a lookup that could not be renamed into place is closed and the old one stays |
| `GeoipProtocol.LateSwap` | main.go:204-213 | a run in which a swap comes after a clean shutdown, and both lookups end up closed |
| `GeoipProtocol.LoopEndsByCancel` | internal/geoip/updater.go:116-130 | the update loop returns in no run before it is cancelled |
| `GeoipProtocol.NoDeadlock` | internal/handler/handler.go:186-235 | with new readers held back while a writer waits, as Go does: whenever somebody waits for the lock a waiter can take it now, or somebody inside can take a step towards giving it back |
| `GeoipProtocol.WritersAreNotStarved` | internal/handler/handler.go:204-206 | while a writer waits nobody else gets in to read and nobody inside moves away from leaving |
| `GeoipProtocol.SetIsOneTransition` | internal/handler/handler.go:204-218 | the steps of `SetGeoIP` under the lock amount to one transition of the shared state |
| `GeoipProtocol.CloseIsOneTransition` | internal/handler/handler.go:225-235 | the steps of `CloseGeoIP` under the lock amount to one transition of the shared state |
| `GeoipProtocol.LockProtects` | internal/handler/handler.go:82-93 | while one goroutine is in a write section no other changes the lookup, the flag, or the state of a handle it can reach |
| `GeoipHandler.Lookup.Close` | internal/geoip/geoip.go:94-100 | counts one close and reports its error |
| `GeoipHandler.Lookup.Locate` | internal/geoip/geoip.go:78-92 | may be called on an open lookup only |
| `GeoipHandler.Handler.constructor` | internal/handler/handler.go:119-142 | starts without a lookup and not closed |
| `GeoipHandler.Handler.GeoipEnabled` | internal/handler/handler.go:173-177 | on exactly when a lookup is installed |
| `GeoipHandler.Handler.LocateIP` | internal/handler/handler.go:186-193 | empty without a lookup, otherwise the installed, open lookup's answer |
| `GeoipHandler.Handler.SetGeoIP` | internal/handler/handler.go:204-218 | is exactly the protocol's transition: installs the argument and closes what it replaces, or closes the argument after shutdown |
| `GeoipHandler.Handler.CloseGeoIP` | internal/handler/handler.go:225-235 | is exactly the protocol's transition: nothing installed, the old lookup closed once, the flag up for good; passes on the error of that close |
| `Updater.MmdbNameIsSuffix` | internal/geoip/updater.go:308-315 | the base-name check accepts exactly the names that end in .mmdb in any case once trailing slashes are gone, whatever the directories |
| `Updater.MmdbNameSpelled` | internal/geoip/updater.go:308-315 | the same check letter by letter: .mmdb in either case, then nothing but slashes |
| `Updater.Capped` | internal/geoip/updater.go:259 | the first 209,715,200 bytes |
| `Updater.DeliveryMeans` | internal/geoip/updater.go:149-200 | spelled out step by step: which bytes a cycle delivers, and when it delivers none |
| `Updater.OpensUnlessRenameFails` | internal/geoip/updater.go:180-196 | a lookup is opened exactly when the cycle would deliver if only the rename worked |
| `Updater.NamesClash` | internal/geoip/updater.go:171-206 | a cycle that delivers and leaves no file, because a temp file was given the target's name |
| `Updater.OneMoreTick` | internal/geoip/updater.go:116-130 | one more cycle turns the result of a run into the result of the longer run |
| `Updater.Disk.Write` | internal/geoip/updater.go:251-259 | puts one file in place; the trace gains every state from the empty file to the whole one |
| `Updater.Disk.Remove` | internal/geoip/updater.go:171 | takes one path away, or nothing when it fails |
| `Updater.Disk.Rename` | internal/geoip/updater.go:188-192 | replaces whatever is at the new path in one step |
| `Updater.Updater.FetchBundle` | internal/geoip/updater.go:215-274 | yields a bundle exactly when the reply, its size and every file step allow it; on every other path only a temp file that could not be removed is left |
| `Updater.Updater.Extract` | internal/geoip/updater.go:283-334 | succeeds exactly when the archive has a readable first regular .mmdb entry, and then writes that entry cut at 200 MiB; otherwise only a temp file that could not be removed is left |
| `Updater.Updater.Prepare` | internal/geoip/updater.go:149-178 | either stops, for the reason of the first step that failed, and has tidied up as far as removals work, or leaves exactly the bundle and the extracted entry; no state on the way touches another path |
| `Updater.Updater.Commit` | internal/geoip/updater.go:180-206 | verify, then rename, then swap; the opened lookup ends up installed or closed, and the one it replaces closed |
| `Updater.Updater.CleanUp` | internal/geoip/updater.go:171-178 | the two deferred removals, each state on the way included |
| `Updater.Updater.Tick` | internal/geoip/updater.go:149-207 | updates exactly when something is delivered that the opener accepted, and opens a lookup exactly when it gets that far; after an update the target holds the delivery if and only if no removal took it away; outside the temp files that cannot be removed the directory is that of a transaction; at every state on the way the target holds what it held or the whole delivery; the lookup is handed on or closed |
| `Updater.FilesAfter` | internal/geoip/updater.go:171-192 | through two temp files, rename and failing removals, the directory is that of the transaction outside the paths left behind |
| `Updater.CommitIsWhole` | internal/geoip/updater.go:188-192 | no state during rename and removals shows a torn target |
| `Updater.DiskGoesOn` | internal/geoip/updater.go:116-130 | what a run says of the directory survives one more cycle, temp files left behind included |
| `Updater.Updater.RunCycle` | internal/geoip/updater.go:132-146 | one cycle keeps everything a run promises |
| `Updater.Updater.Run` | internal/geoip/updater.go:116-130 | after any number of cycles, removals failing or not, the target holds the last delivery and nothing changed outside it and the temp files left behind; it never held anything but whole deliveries; every cycle that opened a lookup has one, closed once or installed, and the handler serves the last delivery |
| `TokenBucket.AskSpends` | internal/handler/ratelimit_handler.go:142-157 | a request is admitted exactly when a token is there; denied, it leaves the bucket where the clock put it |
| `TokenBucket.CreditComposes` | internal/handler/ratelimit_handler.go:124-129 | waiting in two steps earns what waiting once earns, cap included |
| `TokenBucket.CreditBounds` | internal/handler/ratelimit_handler.go:124-129 | time only adds, up to the cap, and a clock that steps back neither adds nor takes |
| `TokenBucket.MinuteRefills` | internal/handler/ratelimit_handler.go:124-129 | 60 seconds of clock ticks without requests fill any bucket, to R tokens |
| `RateLimiterRuns.BucketHistory` | internal/handler/ratelimit_handler.go:124-131 | a bucket never holds less than nothing or more than its cap, and was last moved by a request of its own IP |
| `RateLimiterRuns.EntryMatchesHistory` | internal/handler/ratelimit_handler.go:101-132 | a kept entry is the never-evicted bucket itself, and an IP without one has a bucket that is full again |
| `RateLimiterRuns.SameAnswers` | internal/handler/ratelimit_handler.go:101-158 | with a time to live of a minute less one tick or more every run gets the answers of a limiter that never evicts |
| `RateLimiterRuns.EvictionUnobservableIff` | internal/handler/ratelimit_handler.go:21-27 | eviction changes no answer of any run if and only if the time to live is at least a minute less one tick |
| `RateLimiterRuns.EarlySweepIsObserved` | internal/handler/ratelimit_handler.go:101-111 | a concrete run that tells the two limiters apart when the time to live is shorter |
| `RateLimiterRuns.CreditPaysForAdmissions` | internal/handler/ratelimit_handler.go:142-157 | what a window admits was in the bucket at its start or earned since |
| `RateLimiterRuns.AdmissionBound` | internal/handler/ratelimit_handler.go:124-158 | in every window of d ticks of every run with evictions an IP is admitted at most R + R d / (60 ticks per second) times |
| `RateLimiterRuns.EarlySweepDoubles` | internal/handler/ratelimit_handler.go:101-132 | with a shorter time to live, a run that admits 2 R requests of one IP within one minute |
| `RateLimiterRuns.AdmissionBoundIff` | internal/handler/ratelimit_handler.go:21-27 | the bound holds in every window of every run if and only if the time to live is at least a minute less one tick |
| `RateLimiterPromises.SpacedNeverDenied` | internal/handler/ratelimit_handler.go:124-158 | a client that spaces its requests 60/R seconds apart is never denied, whatever the time to live |
| `RateLimiterPromises.DenialsLeaveNoTrace` | internal/handler/ratelimit_handler.go:150-155 | without the denied requests the bucket holds the same credit at every later time |
| `RateLimiterPromises.DenialsCostNothing` | internal/handler/ratelimit_handler.go:101-158 | deleting all denied requests from a run leaves every remaining answer unchanged, for every time to live |
| `RateLimiterPromises.KeptTrails` | internal/handler/ratelimit_handler.go:101-158 | the simulation behind it: without the denied requests an IP's entry may be evicted sooner, but while kept it is never behind |
| `RateLimiterPromises.RetryExact` | internal/handler/ratelimit_handler.go:138-158 | a retry is admitted exactly when the advertised wait has passed, and earlier the wait has shrunk by what was waited, if the retry comes within the time to live or a token is earned before an entry can go |
| `RateLimiterPromises.RetriesExactIff` | internal/handler/ratelimit_handler.go:21-27 | every retry of every run is answered so if and only if a token is earned in one tick more than the time to live |
| `RateLimiterPromises.RetryAfterIsSound` | internal/handler/ratelimit_handler.go:183-190 | for every time to live: Retry-After is 1 to 60 seconds, and a retry that waits for it is admitted |
| `RateLimiterPromises.RetryAfterIsTight` | internal/handler/ratelimit_handler.go:183-190 | a retry that comes a second early is denied, when an entry outlives the longest wait less one second |
| `RateLimiterPromises.RetryAfterTightIff` | internal/handler/ratelimit_handler.go:21-27 | so it is in every run if and only if an entry outlives that wait, or no wait is longer than a second |
| `RateLimiterPromises.SweptRetryIsEarly` | internal/handler/ratelimit_handler.go:101-158 | the run that shows it otherwise: denied, swept, admitted |
| `RateLimiter.TokenLimiter.ReserveN` | internal/handler/ratelimit_handler.go:144 | takes a token now and reports what is missing |
| `RateLimiter.TokenLimiter.CancelAt` | internal/handler/ratelimit_handler.go:154 | hands the token back, capped |
| `RateLimiter.TokenLimiter.ReserveOrCancel` | internal/handler/ratelimit_handler.go:144-157 | is one request of the bucket specification |
| `RateLimiter.RateLimiter.LimiterFor` | internal/handler/ratelimit_handler.go:117-132 | the IP's own bucket, created full on first use, with lastSeen refreshed and every other entry untouched |
| `RateLimiter.RateLimiter.Allow` | internal/handler/ratelimit_handler.go:138-158 | both maps and the verdict are those of one step of a run |
| `RateLimiter.RateLimiter.Gc` | internal/handler/ratelimit_handler.go:101-111 | both maps lose exactly the IPs last seen before now - ttl |
| `RateLimiter.RateLimiter.DeleteOlder` | internal/handler/ratelimit_handler.go:105-110 | the loop visits every key and deletes the stale ones from both maps |
| `RateLimiter.RunLimiter` | internal/handler/ratelimit_handler.go:101-158 | the object, through any interleaving of requests and sweeps, ends in the table of the run and gives its answers; with a time to live of at least a minute less one tick they are those of a limiter that never evicts, and within the bound in every window |
| `RateLimiter.NewRateLimiter` | internal/handler/ratelimit_handler.go:55-67 | no limiter for a rate of zero or less, otherwise an empty one |
| `RateLimiter.Serve` | internal/handler/ratelimit_handler.go:164-195 | only the three test paths are limited; a refusal carries the whole seconds to wait, rounded up and at least one |
| `Metrics.JitterRFC3550` | static/metrics.mjs:112-122 | the loop computes the weighted sum of the absolute steps with weights (1/16)(15/16)^k over the finite samples |
| `Metrics.RecurrenceStep` | static/metrics.mjs:117-120 | the closed form obeys the recurrence |
| `Metrics.JitterRecurrence` | static/metrics.mjs:112-122 | one more sample moves the jitter a sixteenth of the way to its distance from the last one; it starts at 0 |
| `Metrics.JitterBounds` | static/metrics.mjs:94-110 | the jitter lies between 0 and any bound on the distance of neighbours |
| `Metrics.ConstantJitter` | static/metrics.mjs:94-110 | k steps of size d, up or down, give d(1 - (15/16)^k) |
| `Metrics.BadSampleIsIgnored` | static/metrics.mjs:105-114 | inserting a non-finite sample anywhere leaves the samples used, and so the jitter, unchanged |
| `Metrics.GoodSampleIsKept` | static/metrics.mjs:105-114 | a finite sample at any position is used, between those before and those after it |
| `Metrics.PercentileIgnoresOrder` | static/metrics.mjs:141-152 | the order of the samples does not matter |
| `Metrics.PercentileRises` | static/metrics.mjs:141-152 | a higher percentage never gives a lower value, across all segments and clamped ends |
| `Metrics.PercentileInterpolates` | static/metrics.mjs:124-152 | at rank k + t the value is s[k] + t (s[k+1] - s[k]), where s is the samples in ascending order |
| `Metrics.PercentileEndsAndBounds` | static/metrics.mjs:141-152 | the least sample at 0, the greatest at 100, never outside them, and 0 without samples |
| `Metrics.WindowIsTheTail` | static/metrics.mjs:73-79 | pushing every sample in turn leaves the last maxLen, and never fewer than one |
| `Metrics.LossIsFailureShare` | static/metrics.mjs:54-58 | the loss is the percentage of failed pings |
| `Metrics.RecordChunks` | static/app.js:682-699 | each chunk dated from the measurement start on, and no other, leaves one point at its time with the bytes counted so far, itself included; the total is that of the last point |
| `Metrics.BaselineIsLast` | static/app.js:744-752 | the trim subtracts the last point inside the warm-up, or the start |
| `Metrics.TrimDropsASlowStart` | static/app.js:739-756 | the trimmed time is positive, the result over that time is exactly the bytes after the baseline, and trimming does not lower it exactly when the head was no faster than the whole, for every baseline |
| `Metrics.ShortTestIsWhole` | static/app.js:740-751 | without a warm-up, without points, or when no point reaches its end, the result is the rate of the whole test |
| `Metrics.InstantHeadLowers` | static/app.js:739-756 | the corner in which the gauge's rate of the head, 0 for no elapsed time, says otherwise |
| `PingRouting.TestState.SetStage` | static/app.js:398-404 | changes the phase and nothing else |
| `PingRouting.TestState.OnSample` | static/app.js:594-610 | routes one completed ping into every array it belongs to, and shows the window's loss |
| `PingRouting.TestState.RunTest` | static/app.js:587-627 | any sequence of stage changes and completed pings is a run of the specification |
| `PingRouting.PhaseIsLastStage` | static/app.js:398-404 | after any events the phase is that of the last stage event, idle before any |
| `PingRouting.SamplesByPhase` | static/app.js:594-608 | each array holds exactly the pings completed in its phase, as the last stage event before each tells it, the round-trip arrays those that succeeded, and the window is fed every ping |
| `PingRouting.LoadedIsDownloadThenUpload` | static/app.js:599-608 | in a test in order the loaded round-trip times are the download's ok ones followed by the upload's |
| `PingRouting.LossIsRecentFailures` | static/app.js:561-562 | the loss shown is the failure share of the last min(n, 20) pings |
| `Transfer.SharesSplitTotal` | static/app.js:667-669 | the shares add up to the requested total, differ by at most one byte, and the longer ones come first |
| `Transfer.RequestedBytes` | internal/handler/handler.go:389-402 | what the server sends for each kind of `bytes` and `size` parameter, in bytes |
| `Transfer.DownloadBySize` | internal/handler/handler.go:428-444 | the count is the sum of what every write took, a failing one included; every write asks for what is left, at most 1 MiB, and the loop ends only on a failure or at the total |
| `Transfer.SentIsTotal` | internal/handler/handler.go:428-444 | never more than asked, and all of it unless a write that was made failed |
| `Transfer.EmptySharesServed` | internal/handler/handler.go:392-400 | with fewer bytes than streams, every stream without a byte gets a whole default download |
| `Transfer.LargeSharesServed` | internal/handler/handler.go:392-400 | with every share above 1 GiB, every stream gets a whole default download |
| `Transfer.EdgeSharesServed` | internal/handler/handler.go:392-400 | with shares of 1 GiB and 1 GiB and a byte, exactly the longer ones get a whole default download |
| `Transfer.StreamsReceiveTotalIff` | internal/handler/handler.go:392-408 | for every total the page asks for and every size the server is set to, the streams together receive the total if and only if every share is within 1 byte and 1 GiB, or the default downloads served instead make up the total |
| `Transfer.PageReceivesTotalIff` | static/app.js:133-149 | for whole megabytes over at most 32 streams: if and only if no stream's part exceeds 1 GiB or the parts are the server's default |
| `Transfer.DefaultsMiss` | internal/handler/handler.go:392-408 | 2 GiB asked for in one stream, with 25 MiB and with 10 GiB received |
| `Transfer.WorkerSize` | static/app.js:897-912 | a worker ends, posts full 1 MiB chunks and then the rest, its whole part unless aborted, and nothing after the signal |
| `Transfer.WorkersCoverTotal` | static/app.js:898 | rounding each part up covers the total and overshoots it by less than one byte a stream |
| `Transfer.Upload` | static/app.js:897-930 | all workers together post at least the total, unless one was aborted, and less than one byte a stream more |
| `Store.SavedRowComesFirst` | internal/store/store_sqlite.go:168-177 | a row no older than the others is listed first, the rest unchanged |
| `Store.NewestFirstOrder` | internal/store/store_sqlite.go:168-177 | later rows come first, and of two rows of one moment the one with the higher id |
| `Store.PruneCutsTail` | internal/store/store_sqlite.go:222-236 | pruning cuts the tail off the newest-first list, exactly the rows older than the cutoff |
| `Store.Table.Save` | internal/store/store_sqlite.go:128-158 | adds one row under an id above every id ever used, dated now if undated |
| `Store.Table.List` | internal/store/store_sqlite.go:160-184 | the slice of the newest-first list, an error for a limit below one, a negative offset read as zero |
| `Store.Table.Count` | internal/store/store_sqlite.go:186-194 | the number of rows |
| `Store.Table.Delete` | internal/store/store_sqlite.go:196-207 | removes the row with that id and says whether there was one |
| `Store.Table.PruneOlderThan` | internal/store/store_sqlite.go:222-236 | keeps the rows no older than the cutoff, does nothing for a cutoff of zero or less, and counts |
| `History.ComputePageWindow` | static/history.mjs:88-107 | for all inputs: exactly the ends and the pages near the current one, consecutive, with one ellipsis exactly where pages are hidden, never two together, at most max(7, 2w+5) buttons; for whole numbers the shown pages are spelled out |
| `History.FloorOrIs` | static/history.mjs:89-91 | not-a-number and zero give the fallback, any other number its floor |
| `History.ListResults` | internal/handler/results_handler.go:85-109 | the table's count, and at most 1 .. 100 rows of the newest-first list from an offset of 0 .. 1,000,000 on |
| `History.RefreshSettles` | static/history.mjs:342-377 | whatever totals the server reports, refresh ends on an existing page within as many fetches as the page number, showing the reply to a fetch of that page |
| `History.RefreshMovesByListings` | static/history.mjs:342-377 | from fetch to fetch refresh moves only to the last page of the listing it just got; a failed reply moves nothing and leaves the last known total |
| `History.RefreshOfFixedTable` | static/history.mjs:342-377 | on a table that does not change it takes at most two fetches and settles on the nearest existing page |
| `History.HistoryPanel.constructor` | static/history.mjs:116-124 | page 1, page size floored and clamped to 5..100, 20 if not a number |
| `History.HistoryPanel.Refresh` | static/history.mjs:342-377 | page, total and view are those of the settled reply |
| `History.HistoryPanel.GoToPage` | static/history.mjs:334-340 | clamps the target to the known pages, and fetches only when it changes |
| `History.PagesAreAPrefix` | internal/handler/results_handler.go:90-93 | the first n pages are the first n * size rows as long as no offset was clamped |
| `History.PagesAreTheTableIff` | internal/handler/results_handler.go:40-45 | all pages together are the newest-first table, each row once, if and only if the last page starts within the offset cap |
| `History.LongTableRepeats` | internal/handler/results_handler.go:90-93 | a table of 1,000,101 rows whose pages are not the table |
| `Toasts.RunIsSound` | static/toast.mjs:57-116 | over any run at most max toasts show, those shown are the ones added and not removed in order, adds minus removes is the number showing, and every removal and action happens at most once |
| `Toasts.PushEvictsOldest` | static/toast.mjs:70-74 | a push evicts from the oldest on, and only as many as it must |
| `Toasts.TickRemovesExpired` | static/toast.mjs:86-96 | a tick removes exactly the toasts without an action whose time is up: 3 s, 5 s for a warning, 8 s for an error |
| `Toasts.TriggerFiresOnce` | static/toast.mjs:98-116 | a trigger fires the action of a toast still showing and removes it; on a toast already gone it does nothing |
| `Toasts.ToastQueue.constructor` | static/toast.mjs:41-50 | starts empty with its cap |
| `Toasts.ToastQueue.Active` | static/toast.mjs:78-80 | the toasts not dismissed, in order |
| `Toasts.ToastQueue.Push` | static/toast.mjs:57-76 | a new toast with the next id, higher than any before; the queue takes the push step of the specification |
| `Toasts.ToastQueue.EvictSurplus` | static/toast.mjs:71-74 | the loop dismisses the oldest until at most max are live |
| `Toasts.ToastQueue.Tick` | static/toast.mjs:86-96 | the loop takes the tick step of the specification |
| `Toasts.ToastQueue.Dismiss` | static/toast.mjs:98-102 | takes the dismiss step; a second dismissal changes nothing |
| `Toasts.ToastQueue.Trigger` | static/toast.mjs:108-116 | takes the trigger step of the specification |
| `Toasts.ToastQueue.Perform` | static/toast.mjs:57-116 | one call of the page is the event it stands for, or nothing for a missing toast |
| `Toasts.RunQueue` | static/toast.mjs:57-116 | any sequence of calls on a new queue ends in the state of a run of the events they stand for, within its bounds |
| `Utf8.Truncate` | internal/handler/results_handler.go:320-330 | the loop finds the cut: the last byte within the budget that continues nothing |
| `Utf8.BoundaryIff` | internal/handler/results_handler.go:325-328 | in valid UTF-8 a position is a code-point boundary exactly when its byte is not a continuation byte |
| `Utf8.ValidIsEncoded` | internal/handler/results_handler.go:325-328 | the strings this model calls valid are encodings of scalar values, by the table of section 3 of RFC 3629 |
| `Utf8.EncodedIsValid` | internal/handler/results_handler.go:325-328 | and every such encoding is valid |
| `Utf8.TruncatedOnAnyBytes` | internal/handler/results_handler.go:320-330 | on any bytes: a prefix within the budget that ends before a byte continuing nothing, with only continuation bytes between |
| `Utf8.TruncatedIsLongest` | internal/handler/results_handler.go:318-330 | the result is valid, the longest aligned prefix within the budget, and at most three bytes short of it |
| `Utf8.TruncateComposes` | internal/handler/results_handler.go:320-330 | truncating twice is truncating once to the smaller budget, on any bytes; so it is idempotent |

## Left out

- AskSpends: does not model the floating-point and nanosecond rounding of the bucket library, which is not part of this model; the arithmetic is exact.
- Allow: does not model two overlapping calls for one IP, because the bucket is taken out of the map before it is asked.
- RunInv: its runs do not hold back new readers while a writer waits, which only adds runs; `NoDeadlock` and `WritersAreNotStarved`, which are about progress, do.
- Tick: does not model what a temp file that could not be removed contains, only at which paths one can be left, nor panics between opening a lookup and handing it on.
- ComputePageWindow: does not model infinite page numbers.
- Refresh: does not model two refreshes in flight at once, nor totals that are not whole numbers.
- PercentileEndsAndBounds: does not model samples that are not numbers.
- SetStage: does not model the labels it writes to the page.
- WorkerSize: does not model uploads that fail with an HTTP error; an aborted signal stands for every early end.
- ToastQueue: ids come from a counter of the queue where the source has one counter for all queues, and a negative cap, with which the source's eviction loop would not end, is not a value of the model.
- `downloadByTime`, the time-mode workers and the browser's abort events, which depend on the wall clock and on buffers.
- The average and mean jitter of `windowStats`, the gauge, the bufferbloat grade, the float clamping and CSV escaping, each settled by reading one function.
- The history store's SQL engine, its migrations and `DeleteAll`; the mmdb, gzip and tar decoders; the HTTP client.
- Admission to the concurrent-test semaphore, request routing, headers, logging, metrics and configuration layering.
