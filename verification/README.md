# Verified models of QuDAG's bookkeeping

A Dafny 4.11 project that models the stateful bookkeeping of the QuDAG repository — lock-free
counters, caches, retries, batching, mock topologies, persistent stores, framing and regression
detection — and proves what it promises. `dafny verify dfyconfig.toml` checks everything.

## What is modelled

Each module follows one component.

| module | component |
|---|---|
| `MemoryTracker` | the allocation tracker: two atomics, a fetch-add and a compare-and-swap retry loop |
| `ResourceLimiter` | check, commit and asynchronous release of memory and task quotas |
| `LruCache`, `LruRuns` | the benchmark runner's dict + deque LRU cache with expiry, and its runs |
| `CommandExecutor` | command results cached with a time to live over a 32-entry LRU |
| `AsyncOptimizer` | retry with capped backoff, execution in chunks, the batching stream processor |
| `MockNetwork`, `MockTopology` | mock nodes and their counters; ring, mesh and star as graphs |
| `LogRotation` | rotation to the lowest free number and pruning of the oldest logs |
| `PeerStore`, `PeerNetwork` | the peer database: load, save, import, export, ban, unban; the reputation scores and blacklist a ban reaches |
| `Performance` | command counters, extremes and averages |
| `Sanitizer` | the multi-pass input sanitiser |
| `RpcFraming` | length-prefixed frames and the request retry loop |
| `Regression` | verdicts, severities, reports and alerts |
| `Sums`, `Recency`, `Options` | machine words and sums over maps; recency lists shared by both caches; values that may be missing |

**State.** An object whose methods update its fields is a class, and each of its methods is proved
against a function of the old state. The functions are then the steps of a run, and the main results
are about every run. What a method does to its fields is also stated with the numbers and names of the
source written out, so that the function cannot mean something else.

**Concurrency.** `MemoryTracker`, `ResourceLimiter` and `CommandExecutor` are also state machines
whose steps are single atomic accesses or critical sections. A run is any interleaving of any number
of threads, jobs or calls. `MemoryTracker.Tracker.Alloc` is the loop itself, run by one thread while
the others do anything between its accesses.

**Inputs.** Clock readings, timeouts, random identifiers, the order in which a hash map is iterated,
what a future or the network yields, and whether a batch is accepted are parameters with no
assumption on them. A log directory is a map from names to files, and a stream is a sequence of
bytes. JSON is a pair of partial functions; only `CachedEqualsUncached` assumes that what was encoded
decodes to itself.

## Where the code differs from what its names, comments or tests suggest

The model follows the code in each case, and each item names the lemmas that prove it.

- The security check of the fuzz runner expects that patterns such as "rm -rf" and "system32" never
  come out of the sanitiser. Of the 27 listed patterns 11 never do; the other 16 can, because the
  characters are filtered after the only pass that deletes patterns (`NeverComesOutIff`, with an
  input in `DataComesOut`). What comes out is every short text of allowed lower-case characters
  (`OutputsAre`), and sanitising twice is not the same as once (`NotIdempotent`, `IdempotentIff`).
- A reset of the allocation tracker is two stores. An allocation between them has its peak wiped out
  even if no block was live before (`ResetRaceLosesPeak`). The peak read at rest is the largest
  `current` since the reset iff no thread still owed more than that when the peak was reset
  (`PeakAtRestIff`), and it is then the real growth iff no allocation since left less outstanding
  than when the counter was zeroed (`PeakIsGrowthIff`). A block that is live at a reset and freed
  later can take both counters to the top of the word (`ResetWhileLiveBreaks`).
- The resource limit is exceeded when jobs overlap, by at most k - 1 requests, and that much is
  reached (`OverrunIsBounded`, `OverrunIsReached`). Once the sum in the check can wrap around, even
  this bound fails (`BoundKeptIff`).
- Guards dropped outside a runtime never give their amount back, so with no job left the counter is
  zero iff they held nothing (`LostStays`, `BackAtZeroIff`; a run in `LostByte`).
- `MockNode::stop` clears the peers and leaves `active_connections` as it was (`StopLeavesActive`),
  and removing by an identifier that several peers share counts one of them. The counter is the
  number of peers iff neither ever happened (`CountersOverRun`).
- A ring gives every node two peers only from three nodes on. Two nodes have each other, and a single
  node lists itself (`RingDegreeIff`).
- `batch_execute` takes its chunk size from the permits free on entry. With none free and work to do
  it drains nothing, forever (`ChunksTerminateIff`).
- `max_delay` does not bound the first sleep, so it bounds every sleep of a call iff the base is within
  it or there is no sleep (`SleepsWithinMaxIff`). A base delay that is not a whole number of
  milliseconds can make the second sleep shorter than the first (`NeverDecreasesIff`; a configuration
  in `FractionalBaseShrinks`).
- Log cleanup takes any file whose name begins with the log's name for an old log. The log just
  rotated is certain to be kept iff fewer than `max_log_files` old logs are as recent, and certain to
  be lost iff that many are more recent; in between the order of reading the directory decides
  (`RotatedLogSurvivesIff`; a directory and an order in `RotatedLogRemoved`).
- Unbanning resets trust to 50 rather than to what it was before the ban (`UnbanRestoresIff`). It goes
  by address, so it is certain to lift a given peer's ban iff no other record has that address
  (`UnbanLiftsIff`; a database in `UnbanMissesThePeer`), and it does not call the network
  (`BanThenUnban`).
- A ban takes a hundred points off a score, which blacklists a peer only if it had under fifty or was
  listed already (`BlacklistPeer`). A trusted peer is not blacklisted by a ban, and a blacklisted one
  stays so when it is trusted (`TrustAndBan`). The entry lasts until a cleanup a day later
  (`BlacklistedIff`). A connection draws a new identifier and ignores the address, so a banned address
  connects again, under a second record (`BanThenConnect`).
- A ban or a removal reads the text of an id as the bytes of one. By the libp2p specification of peer
  ids, sections "Peer Ids" and "String representation", the text is base58 and the bytes are a
  multihash, so the id under which a peer was filed never parses: it can be neither banned nor removed
  (`FiledNeverParses`, `AddedCannotBeBanned`).
- A command that completes before its start has been counted stays pending for good
  (`EarlyCompletion`). The pending count is right iff at no moment more commands had completed than
  been counted (`PendingOverRun`).
- A frame of more than 10 MiB is written but refused on reading; a length of 4 GiB or more is cut to 32
  bits (`ReadBackIff`).
- The count of completions is cut to 32 bits before it divides. A count cut to zero, or a total that
  is not a duration, panics (`Performance.Tracker.RecordCommandCompletion`,
  `Performance.Tracker.GetMetrics`).
- What a report calls an improvement is any measurement below its baseline that is no regression, also
  for throughput, where it is a loss (`ImprovementIff`; a report in `LossIsBestImprovement`).
- A `max_size` of zero or less makes the LRU cache's `put` raise an IndexError (`LRUCache.Put`).

## Model

Results first, then the state-changing operations they rest on.

| member | source | states |
|---|---|---|
| MemoryTracker.PeakWithInFlight | benchmarks/benches/memory_benchmarks.rs:21-55 | at every moment of every interleaving, resets included, the larger of the peak and the most any thread still owes is the larger of the largest `current` computed since the peak was reset and what was owed at that reset |
| MemoryTracker.PeakAtRestIff | benchmarks/benches/memory_benchmarks.rs:21-55 | whenever no thread is in flight the peak is the largest `current` since the last reset iff no thread owed more than that at the reset |
| MemoryTracker.CalmResetsAreSafe | benchmarks/benches/memory_benchmarks.rs:21-55 | resets that find no thread in the loop never cost a peak |
| MemoryTracker.HighestIsGrowthIff | benchmarks/benches/memory_benchmarks.rs:21-60 | the largest `current` since the reset is the largest real growth iff no allocation since left less outstanding than when the counter was zeroed |
| MemoryTracker.PeakIsGrowthIff | benchmarks/benches/memory_benchmarks.rs:21-60 | what a benchmark reads: at rest, with nothing owed at the reset, the peak is the real growth since then under the same condition |
| MemoryTracker.PeakExactAtRest | benchmarks/benches/memory_benchmarks.rs:36-55 | in every interleaving without a reset, at rest the peak is the largest `current` ever computed and the highest value the counter ever had |
| MemoryTracker.PeakIsMonotone | benchmarks/benches/memory_benchmarks.rs:41-52 | between resets of the peak it never decreases |
| MemoryTracker.ResetRaceLosesPeak | benchmarks/benches/memory_benchmarks.rs:21-24 | a run in which nothing is live at the reset, and which ends at rest with ten bytes in use and peak zero |
| MemoryTracker.ResetWhileLiveBreaks | benchmarks/benches/memory_benchmarks.rs:21-24 | a run in which two bytes live at a reset are freed later, and both counters end at 2^64 - 1 |
| MemoryTracker.RetriesBounded | benchmarks/benches/memory_benchmarks.rs:21-52 | lock freedom in every run: a thread's real failures never outnumber the others' successful swaps and the resets of the peak, and are fewer while it has not read the latest peak |
| MemoryTracker.RetriesBoundedByGap | benchmarks/benches/memory_benchmarks.rs:42-52 | while the peak is not reset they are at most `current - peak first read` |
| MemoryTracker.CounterAccounts | benchmarks/benches/memory_benchmarks.rs:21-60 | in every state of every run, resets included, the counter is the size of the outstanding blocks less what the last reset left behind, modulo the word; it is their exact size iff nothing was left behind |
| MemoryTracker.NeverUnderflows | benchmarks/benches/memory_benchmarks.rs:57-60 | without a reset a free never takes the counter below zero |
| ResourceLimiter.OverrunIsBounded | cli-standalone/src/async_optimizations.rs:413-453 | over all interleavings with at most k jobs between reading and committing, each asking at most m, used plus admitted-but-uncommitted exceeds the limit by at most k - 1 times the smaller of m and the limit, so at most (k - 1) * m |
| ResourceLimiter.BoundKeptIff | cli-standalone/src/async_optimizations.rs:413-453 | for either resource, that bound, and the coarser one, hold in every run iff the sum in the check cannot wrap around |
| ResourceLimiter.OverrunIsReached | cli-standalone/src/async_optimizations.rs:413-453 | the bound is tight for either resource: for every k and m some run ends with exactly that much in use |
| ResourceLimiter.SequentialLimit | cli-standalone/src/async_optimizations.rs:413-453 | with one job in flight at a time the limit itself is kept |
| ResourceLimiter.CounterIsConserved | cli-standalone/src/async_optimizations.rs:413-486 | the counter is the sum over live guards, pending releases and lost guards, so a release never saturates, and with every job gone it is zero |
| ResourceLimiter.ConservedIffFits | cli-standalone/src/async_optimizations.rs:433-486 | with no assumption on the jobs, the counter equals that sum throughout a run iff the sum always fits in a word |
| ResourceLimiter.BackAtZeroIff | cli-standalone/src/async_optimizations.rs:456-486 | once only such guards are left, the counter is zero iff they held nothing |
| ResourceLimiter.LostStays | cli-standalone/src/async_optimizations.rs:472-486 | a guard dropped without a runtime is never released |
| ResourceLimiter.LostByte | cli-standalone/src/async_optimizations.rs:472-486 | a run after which one byte stays counted with no job left to release it |
| LruRuns.BiggerCacheIncludesSmaller | benchmarking/optimized_benchmark_runner.py:73-101 | on the same calls a bigger cache holds every entry of a smaller one with the same value and timestamp, answers every lookup the smaller answers alike, and has at least as many hits, expiry included |
| LruRuns.ReliableIsHeld | benchmarking/optimized_benchmark_runner.py:73-101 | retention, read off the calls: the value last put is held, and a lookup in time hits, as long as no get found it expired and fewer than `max_size` other keys were called between two calls that name it |
| LruRuns.HitsReturnLastPut | benchmarking/optimized_benchmark_runner.py:73-101 | a hit returns the value last put under the key, younger than the TTL |
| LruRuns.OrderedByLastCall | benchmarking/optimized_benchmark_runner.py:79-101 | over every run the deque is ordered by the last call that names each key |
| LruRuns.EvictsLeastRecentlyUsed | benchmarking/optimized_benchmark_runner.py:91-101 | a put of a new key into a full cache removes exactly one entry, the one called least recently; any other put removes nothing |
| LruRuns.CountersAddUp | benchmarking/optimized_benchmark_runner.py:73-101 | hits plus misses is the number of lookups, and the size stays within `max_size` |
| CommandExecutor.HitsAreFreshAndLatest | cli-standalone/src/startup.rs:160-241 | over every interleaving of calls and clears, a reply from the cache decodes the result most recently stored under the key since the last clear, younger than the TTL it was stored with |
| CommandExecutor.HoldsMostRecent | cli-standalone/src/startup.rs:160-241 | at every moment the cache holds, in order, the 32 most recently used of the results stored and not replaced or cleared since |
| CommandExecutor.HitIffFresh | cli-standalone/src/startup.rs:160-203 | a lookup is answered from the cache iff something fresh was stored under its key since the last clear and the key is among the 32 most recently used |
| CommandExecutor.NothingEvicted | cli-standalone/src/startup.rs:160-241 | while at most 32 keys are in use nothing is evicted, so a lookup hits iff a fresh result was stored |
| CommandExecutor.OrderedByLastUse | cli-standalone/src/startup.rs:160-241 | at every moment of every run the cache is ordered by the last step that looked each key up or stored under it |
| CommandExecutor.EvictsLeastRecentlyUsed | cli-standalone/src/startup.rs:206-241 | a result stored under a new key in a cache of 32 removes exactly one entry, used before every other; any other store removes no other key |
| CommandExecutor.CachedEqualsUncached | cli-standalone/src/startup.rs:160-241 | for a deterministic command every result any caller gets, cached or not, is the command's own; a call that runs it ends with that result, with its error, or with a codec error if the result has no text |
| CommandExecutor.FailedCallKeepsResults | cli-standalone/src/startup.rs:160-203 | at any moment of any run, a lookup and a call that ends without a result to store keep every stored result and its expiry |
| AsyncOptimizer.ExecuteWithRetry | cli-standalone/src/async_optimizations.rs:95-141 | between 1 and max(1, max_attempts) attempts; the result is the last attempt's; every earlier one failed with an error that is neither a cancellation nor internal, and the last succeeded, failed with one of those or was the last allowed; one sleep of the stated delay between attempts |
| AsyncOptimizer.DelayFormula | cli-standalone/src/async_optimizations.rs:101-137 | for an integer multiplier and a whole-millisecond base within the maximum, the k-th sleep is min(base * multiplier^k, cap) |
| AsyncOptimizer.NeverDecreasesIff | cli-standalone/src/async_optimizations.rs:131-137 | for every configuration, the sleeps of a call never get shorter iff there is at most one or the first step does not shrink |
| AsyncOptimizer.FractionalBaseShrinks | cli-standalone/src/async_optimizations.rs:134-137 | a base of 1.5 ms is followed by a sleep of 1 ms |
| AsyncOptimizer.TotalSleepBounded | cli-standalone/src/async_optimizations.rs:103-140 | the whole loop sleeps at most the base once and the maximum every other time |
| AsyncOptimizer.ExecuteChunks | cli-standalone/src/async_optimizations.rs:154-162 | result i belongs to operation i; the chunks are the operations in order, none empty, every one but the last exactly of the chunk size |
| AsyncOptimizer.ChunksTerminateIff | cli-standalone/src/async_optimizations.rs:148-162 | the loop ends iff the chunk size is positive or there is nothing to do |
| AsyncOptimizer.BatchExecute | cli-standalone/src/async_optimizations.rs:144-165 | with a permit free on entry, or nothing to do: every operation's result, in order, in chunks of as many operations as permits are free, all but the last full |
| AsyncOptimizer.BatchExecuteTen | cli-standalone/src/performance.rs:414-434 | every task's result, in order, for every list, in chunks of ten, all but the last full |
| AsyncOptimizer.ProcessStream | cli-standalone/src/async_optimizations.rs:195-221 | whatever the timeouts do, the batches are the received items in order in pieces of 1 to max(1, buffer_size); every item after whose arrival the timeout has passed ends a batch, and a batch under max(1, buffer_size) ends with such an item or with the last of all; a refused batch is the last and then they are a prefix |
| AsyncOptimizer.SleepsWithinMaxIff | cli-standalone/src/async_optimizations.rs:101-137 | the maximum bounds every sleep of a call iff there is none or the base is within it |
| MockNetwork.CountersOverRun | cli-standalone/src/mocks.rs:173-257 | over every run no two peers share an address, the total counts accepted peers, and `active` is the number of peers iff no stop met a running node with peers and no removal met a shared identifier |
| MockNetwork.StopLeavesActive | cli-standalone/src/mocks.rs:195-211 | start, add, stop: no peers and one active connection |
| MockTopology.RingDegreeIff | cli-standalone/src/mocks.rs:780-799 | every node has two peers iff there are at least three nodes, and then they are distinct and not the node itself |
| MockTopology.RingSymmetric | cli-standalone/src/mocks.rs:780-799 | the peer relation of a ring is symmetric |
| MockTopology.RingConnected | cli-standalone/src/mocks.rs:780-799 | every node reaches every other over peer links, in at most half the ring |
| MockTopology.MeshPeersAreTheOthers | cli-standalone/src/mocks.rs:764-777 | each node lists exactly the other n - 1, each once |
| MockTopology.MeshIdempotent | cli-standalone/src/mocks.rs:764-777 | configuring a mesh again changes nothing, counters included |
| MockTopology.StarEdgeListsCentre | cli-standalone/src/mocks.rs:802-816 | a peripheral node lists the centre only, and the centre lists it back |
| LogRotation.RotatedLogSurvivesIff | cli-standalone/src/node_manager.rs:568-613 | over every order of reading the directory: the log just rotated is certain to be kept iff fewer than `max_log_files` old logs are as recent, and certain to be lost iff that many are more recent |
| LogRotation.CleansToIff | cli-standalone/src/node_manager.rs:583-613 | sorting what was read and dropping from the front can leave exactly the directories from which only old logs went, as many as exceed the maximum, none newer than one that stays |
| LogRotation.CleanedUpInWords | cli-standalone/src/node_manager.rs:583-613 | a file whose name does not begin with "qudag.log", and the log itself, stay as they were; of the other names with that prefix at most `max_log_files` stay, and all of them if they are no more |
| LogRotation.PidFileStays | cli-standalone/src/node_manager.rs:15-17 | so no cleanup touches the pid file or the configuration kept beside the logs |
| LogRotation.RotatedName | cli-standalone/src/node_manager.rs:560-568 | the n-th name is "qudag.log." and the decimal digits of n |
| LogRotation.RotatedLogRemoved | cli-standalone/src/node_manager.rs:568-613 | a directory and an order of reading it for which the log just rotated is the one removed |
| PeerStore.SaveThenLoad | cli-standalone/src/peer_manager.rs:136-165 | saving and starting again from the file restores the same map, whatever order it was written in |
| PeerStore.ExportThenImport | cli-standalone/src/peer_manager.rs:378-427 | an untagged export imported without merging restores the same map and counts every record |
| PeerStore.ImportAfterExport | cli-standalone/src/peer_manager.rs:378-427 | importing an exported list lays its records over the base map |
| PeerStore.ImportTwice | cli-standalone/src/peer_manager.rs:390-395 | importing a list again, repeated ids included, changes nothing |
| PeerStore.UnbanRestoresIff | cli-standalone/src/peer_manager.rs:336-368 | unbanning lifts every ban, and restores the record as it was iff its trust was neutral and it was not banned before |
| PeerStore.BanThenUnban | cli-standalone/src/peer_manager.rs:326-375 | a peer banned and then unbanned by an address no other record has gets its record back unbanned; with the network nothing is undone, and it is blacklisted iff it was before or its score was under fifty |
| PeerStore.BanThenConnect | cli-standalone/src/peer_manager.rs:180-349 | after a ban the same address connects unless the identifier drawn this time is itself blacklisted, and leaves a second record with that address |
| PeerStore.UnbanLiftsIff | cli-standalone/src/peer_manager.rs:352-368 | an unban by its own address lifts a peer's ban in every order of iteration iff no other record has that address |
| PeerStore.UnbanMissesThePeer | cli-standalone/src/peer_manager.rs:352-368 | two records at one address, and an order in which the banned one stays banned |
| PeerStore.FiledNeverParses | cli-standalone/src/peer_manager.rs:186-223 | with base58 texts and multihash bytes, the text an id was filed under never parses as an id |
| PeerStore.AddedCannotBeBanned | cli-standalone/src/peer_manager.rs:180-349 | so banning or removing a peer by the id it was given fails and changes neither the database nor the network |
| PeerNetwork.BlacklistedIff | core/network/src/lib.rs:176-239 | over every run of updates, trust and cleanups a peer is blacklisted iff some update took its score below the limit and no cleanup came a day or more after the last such update |
| PeerNetwork.TrustAndBan | core/network/src/lib.rs:199-224 | a trusted peer that is banned is not blacklisted, a banned one that is then trusted still is |
| Performance.MetricsOverRun | cli-standalone/src/performance.rs:97-134 | over every run completed + failed is the number of stored durations, the extremes bound them all, and for 1 to 2^32 - 1 completions min <= average <= max and the average is their sum over their number |
| Performance.CountersOverRun | cli-standalone/src/performance.rs:77-127 | over every run completed and failed count the completions that succeeded and failed, total the starts counted; each command's durations are stored in order; each extreme is a stored duration, or what it was initially |
| Performance.PendingOverRun | cli-standalone/src/performance.rs:77-134 | in every interleaving of the spawned increments pending >= total - completed - failed, with equality iff at no moment more commands had completed than been counted |
| Performance.EarlyCompletion | cli-standalone/src/performance.rs:77-134 | completion before the counted start: one task, completed, and still pending |
| Performance.PendingIsExact | cli-standalone/src/performance.rs:77-134 | when each increment precedes its completion, pending is the number of commands begun and not ended |
| Sanitizer.OutputIsSafe | fuzz/simple_fuzz_runner.rs:291-330 | for every input the output is a subsequence of the lower-cased input, of at most 1024 characters, all allowed, so no pattern with a disallowed character occurs in it |
| Sanitizer.ReplaceDeletesAll | fuzz/simple_fuzz_runner.rs:294-319 | for every text and pattern one pass cuts the text at the pattern, each piece but the last ending where the pattern first occurs after the piece began and the last without it, and leaves the pieces joined without it |
| Sanitizer.CutIsUnique | fuzz/simple_fuzz_runner.rs:294-319 | there is only one such cut, so this determines what a pass leaves |
| Sanitizer.SanitizedIs | fuzz/simple_fuzz_runner.rs:291-330 | the output is the lower-cased input with the 27 patterns deleted one after the other in this sense, its allowed characters, and of these the first 1024 |
| Sanitizer.ClimbsAreDeleted | fuzz/simple_fuzz_runner.rs:98-98 | one pass takes every "../" off the front of a path |
| Sanitizer.OutputsAre | fuzz/simple_fuzz_runner.rs:291-330 | a text is the output for some input iff it is short, lower-case and made of allowed characters |
| Sanitizer.NeverComesOutIff | fuzz/simple_fuzz_runner.rs:258-330 | no output ever contains a given listed pattern iff it has a disallowed character: true of eleven, false of sixteen |
| Sanitizer.DataComesOut | fuzz/simple_fuzz_runner.rs:291-330 | an input for which a listed pattern comes out |
| Sanitizer.UnchangedIff | fuzz/simple_fuzz_runner.rs:291-330 | an input comes back unchanged iff it is lower-case, allowed, short enough and free of every listed pattern |
| Sanitizer.IdempotentIff | fuzz/simple_fuzz_runner.rs:291-330 | a second sanitising changes nothing iff the first output is free of every listed pattern |
| Sanitizer.NotIdempotent | fuzz/simple_fuzz_runner.rs:291-330 | for each of the sixteen an output that a second sanitising changes |
| Sanitizer.SanitizeInput | fuzz/simple_fuzz_runner.rs:291-330 | the four loops compute the passes over the whole pattern list in order, then the filter and the cut |
| RpcFraming.FramesRoundTripIff | cli-standalone/src/rpc.rs:383-404 | a sequence of messages written as frames is read back as itself, the bytes after it untouched, iff each has at most 10 MiB |
| RpcFraming.ReadBackIff | cli-standalone/src/rpc.rs:383-404 | the same for one message of any length |
| RpcFraming.FramesInjective | cli-standalone/src/rpc.rs:383-404 | the bytes determine the messages |
| RpcFraming.LengthRoundTrip | cli-standalone/src/rpc.rs:124-138 | an integer written big-endian in n bytes (four in the code) is read back as itself |
| RpcFraming.BytesRoundTrip | cli-standalone/src/rpc.rs:124-138 | any n bytes are the encoding of what they decode to |
| RpcFraming.BigEndian | cli-standalone/src/rpc.rs:124-138 | in four bytes the first counts 2^24, then 2^16, 2^8 and 1 |
| RpcFraming.FrameIs | cli-standalone/src/rpc.rs:383-391 | a frame is the length in that order, cut to 32 bits, and then the data |
| RpcFraming.ReadFrameIs | cli-standalone/src/rpc.rs:392-404 | for any bytes: too few for a length or for what it announces are the end of the stream, a length over 10 MiB is refused, and otherwise exactly that many bytes after it are the message |
| RpcFraming.SendRequest | cli-standalone/src/rpc.rs:322-361 | a signing error ends the call before any attempt; otherwise the first success is returned, or the last attempt's error after all attempts, or a generic one when none is allowed; one sleep between attempts |
| Regression.UnitsDoNotMatter | benchmarks/src/regression.rs:116-194 | scaling value, baseline and deviation by any positive factor leaves the whole analysis unchanged |
| Regression.RegressionCutoffs | benchmarks/src/regression.rs:129-194 | for every baseline and configuration a measurement regresses iff it is more than the threshold percentage above it (latency, memory), below it (throughput) or either (others); an infinite threshold is never passed |
| Regression.AnalysisIs | benchmarks/src/regression.rs:116-194 | a measurement is analysed iff a baseline of its name has its metric; it regresses iff outside the threshold on the side that is worse for the metric, and only then is it graded, by its change in percent |
| Regression.SeverityCutoffs | benchmarks/src/regression.rs:49-57 | none under 5 percent in either direction, minor from 5, moderate from 15, major from 30, critical from 50 |
| Regression.SeverityMonotone | benchmarks/src/regression.rs:49-57 | a larger change is never graded lower, and the direction does not matter |
| Regression.RegressionsGradedIff | benchmarks/src/regression.rs:129-144 | every measurement called a regression has a severity iff the baseline is zero or the threshold is at least five percent |
| Regression.DefaultRegressionsAreGraded | benchmarks/src/regression.rs:84-144 | under the default configuration every regression is at least minor |
| Regression.GenerateReport | benchmarks/src/regression.rs:197-241 | the counts are those of the results; worst is the first regression of largest absolute change, best the first non-regression of lowest negative change |
| Regression.CountBounds | benchmarks/src/regression.rs:116-207 | in reports on analysed measurements critical + major <= regressions <= results <= measurements, and no regression's change is a NaN |
| Regression.HistoryIsTail | benchmarks/src/regression.rs:350-367 | the history is the last hundred reports, and forgetting older ones never changes an alert |
| Regression.ImprovementIff | benchmarks/src/regression.rs:213-231 | a result counts as an improvement iff it is no regression and below its baseline, whatever the metric |
| Regression.LossIsBestImprovement | benchmarks/src/regression.rs:213-231 | a throughput that fell is the best improvement of a report in which another rose |
| MemoryTracker.Tracker.Alloc | benchmarks/benches/memory_benchmarks.rs:36-55 | whatever the other threads do in between, resets included, the loop ends, looking at most once per interference and twice more; the size has been added to the counter, modulo the word, and the peak is the larger of its own `current` and what the others left |
| ResourceLimiter.Limiter.AcquireResources | cli-standalone/src/async_optimizations.rs:433-453 | run alone: where no sum wraps, adds exactly the request iff both counters stay within their limits; a refusal changes nothing |
| LruCache.LRUCache.Get | benchmarking/optimized_benchmark_runner.py:73-89 | a key in the dict whose entry is younger than the TTL gives its value and counts a hit, any other None and a miss; dict and deque keep the same keys, each once; a hit moves the key to the end of the deque, an expired entry goes |
| LruCache.LRUCache.Put | benchmarking/optimized_benchmark_runner.py:91-101 | the value is stored with the time, in the same sense, unless `max_size` is zero or less: then an IndexError changes nothing |
| CommandExecutor.Executor.ExecuteCached | cli-standalone/src/startup.rs:160-203 | one whole call: runs the command iff nothing fresh is stored, replies with the decoded entry or the outcome, stores successes only |
| MockNetwork.MockNode.AddPeer | cli-standalone/src/mocks.rs:214-239 | refuses an address already listed and changes nothing then; otherwise one peer and both counters up |
| MockNetwork.MockNode.RemovePeer | cli-standalone/src/mocks.rs:242-257 | fails iff no peer has the identifier; otherwise all that have it go and `active` drops by one |
| MockNetwork.MockNode.Stop | cli-standalone/src/mocks.rs:195-211 | succeeds iff the node was running; drops the peers, not the counters |
| MockNetwork.TestScenario.ConfigureRing | cli-standalone/src/mocks.rs:780-799 | from any state and enumeration, each node has met the next and the previous one, and nothing else changed |
| MockNetwork.TestScenario.ConfigureFullMesh | cli-standalone/src/mocks.rs:764-777 | each node has met every other, in enumeration order |
| MockNetwork.TestScenario.ConfigureStar | cli-standalone/src/mocks.rs:802-816 | the centre has met every other node and every other node the centre; an unknown centre changes nothing |
| LogRotation.NodeManager.RotateLogs | cli-standalone/src/node_manager.rs:544-580 | a small or absent log is left alone; otherwise it takes the lowest free number, at most the number of rotated logs plus one, over no existing file, and the cleanup follows; no other file changes its contents |
| LogRotation.NodeManager.CleanupOldLogs | cli-standalone/src/node_manager.rs:583-613 | the log and every file whose name does not begin with "qudag.log" stay; the others are sorted by age, stably, and dropped from the front, exactly as many as exceed `max_log_files`, none newer than one that stays |
| PeerStore.PeerManager.SavePeers | cli-standalone/src/peer_manager.rs:155-165 | the file lists each record of the map once |
| PeerStore.PeerManager.ImportPeers | cli-standalone/src/peer_manager.rs:378-403 | replaces or merges, returns exactly the growth over the base map, and saves |
| PeerStore.PeerManager.ExportPeers | cli-standalone/src/peer_manager.rs:406-427 | lists once each exactly the records that have one of the tags, or all |
| PeerStore.PeerManager.ListPeers | cli-standalone/src/peer_manager.rs:243-280 | a record that was there keeps everything but when it was last seen and its latency, which are its last contact's, or stay without one; a connected peer without a record gets a neutral one from its first contact; every record is returned once |
| PeerStore.PeerManager.AddPeer | cli-standalone/src/peer_manager.rs:168-214 | a valid address that connects gives a fresh persistent record under the text of the identifier the network drew, and a save if one is due; anything else changes nothing |
| PeerStore.PeerManager.RemovePeer | cli-standalone/src/peer_manager.rs:168-240 | an id whose bytes parse: exactly its record goes, and a save if due; any other id changes nothing |
| PeerStore.PeerManager.BanPeer | cli-standalone/src/peer_manager.rs:168-349 | an id whose bytes parse costs its peer a hundred points with the network, a record under it gets trust 0 and the tag "banned" at the end and keeps the rest, and a save if due; any other id changes nothing |
| PeerStore.PeerManager.UnbanPeer | cli-standalone/src/peer_manager.rs:168-375 | the first record with the address in the order of iteration, if there is any, gets trust 50 and loses every "banned", its other tags stay; saves if due; the network is not called |
| PeerNetwork.NetworkManager.BlacklistPeer | core/network/src/lib.rs:490-502 | takes a hundred points off, clamped; the peer is blacklisted after it iff it was before or had under fifty |
| PeerNetwork.NetworkManager.UpdateReputation | core/network/src/lib.rs:199-213 | the score, zero if there was none, moves by the difference and is clamped to 100 either way; the peer is listed from now if it ends under minus fifty, and no other peer changes |
| PeerNetwork.NetworkManager.ConnectPeer | core/network/src/lib.rs:357-401 | refused iff the identifier drawn is blacklisted or the transport fails, whatever the address |
| PeerNetwork.NetworkManager.CleanupExpired | core/network/src/lib.rs:231-239 | removes exactly the entries that are a day old or more |
| Performance.Tracker.RecordCommandCompletion | cli-standalone/src/performance.rs:97-134 | the duration is appended to its command's, one of completed and failed rises by one, pending falls unless zero, the extremes are compared, and the average becomes the sum of all durations over the count unless that panics |
| Performance.Tracker.GetMetrics | cli-standalone/src/performance.rs:155-175 | one average for each command, its sum over its count; panics iff some count is cut to zero or some sum is not a duration |
| RpcFraming.Stream.SendRequestOnce | cli-standalone/src/rpc.rs:364-413 | writes one frame and reads one, with every fault of connecting, sending and reading, and turns a malformed, failed or empty response into its error |
| Regression.Monitor.ShouldAlert | benchmarks/src/regression.rs:360-367 | alerts iff there are three reports and the last three all have regressions |

## Left out

- The DAG consensus, cryptography, exchange and vault are not part of this model, nor is the network apart from reputation scores, the blacklist and the check a connection makes.
- Process control, sockets, file reads and writes, real JSON, HTTP, logging and the command line.
- `MemoryPool`, `TaskPool::spawn`, `CircuitBreaker`, `execute_with_retry` of the performance module, `update_peer_metadata`, `test_all_peers`, `simulate_activity`, `configure_custom`, trends and connection pooling: they would only add easy members.
- `optimize_for_batching` in the benchmark runner: asyncio futures around a lock entered again across an await.
- Weak memory: atomic accesses are sequentially consistent steps. An allocation that fails touches no counter and is no step.
- Overflow checks of debug builds: `usize` arithmetic wraps around, as in a release build.
- Rounding of floating point: delays and regressions use exact reals, the latter with infinities and NaN; the cast to `u64` is modelled with its clamping, a baseline of negative zero is not.
- What happens inside `execute`: waiting for a permit and the timeout decide an attempt's outcome, which is an input.
- The `lru` crate's own code: the executor's cache is a recency list. Poisoned locks, and results of several types under one key.
- Intermediate node states while a node starts or stops: its state lock is held throughout. The other statistics of a mock node.
- Address validation, failures of a save, and the difference between two clock readings taken for one peer record.
- I/O errors during log rotation, and directory entries whose names are not text.
- ExecuteWithRetry: delays are in exact arithmetic rather than in `f64`.
- DelayFormula: covers integer multipliers and whole-millisecond bases within the maximum; NeverDecreasesIff and TotalSleepBounded cover every configuration.
- BatchExecute: requires a free permit or nothing to do, because otherwise the loop never ends (ChunksTerminateIff).
- ExecuteChunks: requires a positive chunk size or nothing to do, for the same reason.
- ImprovementIff: over a negative baseline above and below change places.
- OverrunIsBounded: requires that the sum in the check cannot wrap around, which BoundKeptIff shows to be exactly when it holds.
- SequentialLimit: the case k = 1 of the same condition.
- CounterIsConserved: under the same condition; ConservedIffFits has none.
- NeverUnderflows: for outstanding bytes that fit in a word, as those of one address space do.
- PeakExactAtRest: without resets, and its second half, about the counter's highest value, is for outstanding bytes that fit in a word; PeakAtRestIff and PeakIsGrowthIff cover resets.
- HighestIsGrowthIff: for outstanding bytes that never fill half of a 64-bit address space.
- PeakIsGrowthIff: under the same condition, and when nothing was owed at the reset; PeakAtRestIff covers the rest.
- BackAtZeroIff: for amounts that fit in a word together, the condition of ConservedIffFits.
- ReliableIsHeld: a sufficient condition, because a call that misses does not displace anything and so an entry may also stay longer.
- ProcessStream: whether the batch timeout has passed when an item arrives is an input.
- FiledNeverParses: rests on what the libp2p specification says about peer ids; the libp2p crates are not part of this model.
- BlacklistedIff: scores are exact reals, and the other things the network manager does with peers are not modelled.
- UnchangedIff: Unicode tables are parameters; lower-casing is taken to yield lower-case characters only and to leave them alone.
- IdempotentIff: under the same reading of lower-casing. The condition is on the output, which is the input of the second pass; OutputsAre says which outputs there are.
- OutputsAre: also takes the tables to agree with printable ASCII.
- NeverComesOutIff: under the same reading of the tables, as are DataComesOut and NotIdempotent.
- FramesInjective: for messages that can be read back.
