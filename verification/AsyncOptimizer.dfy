/**
 Retry with capped exponential backoff, execution in chunks, and the batching stream
 processor. What a future yields, whether a timeout has passed and whether a batch is
 accepted are inputs.
 */
module AsyncOptimizer {
  import opened Sums

  datatype AsyncError =
    | Timeout
    | ResourceExhausted
    | Cancelled
    | Io(message: string)
    | Network(message: string)
    | Internal(message: string)
  {
    predicate IsRetryable() {
      !Cancelled? && !Internal?
    }
  }

  datatype Result<T> = Ok(value: T) | Err(error: AsyncError)

  // --- Retry ---

  const NANOS_PER_MILLI: nat := 1_000_000

  // Delays are in nanoseconds.
  datatype RetryConfig = RetryConfig(maxAttempts: nat, baseDelay: nat, maxDelay: nat, multiplier: real)

  // A float converted to `u64`: truncated and clamped.
  function ToU64(x: real): (r: nat)
    ensures r <= U64_MAX
  {
    if x < 0.0 then 0 else if x.Floor > U64_MAX then U64_MAX else x.Floor
  }

  // Whole milliseconds scaled by the multiplier.
  function Scaled(millis: real, multiplier: real): nat {
    ToU64(millis * multiplier)
  }

  function NextDelay(c: RetryConfig, delay: nat): nat {
    Min(Scaled((delay / NANOS_PER_MILLI) as real, c.multiplier) * NANOS_PER_MILLI, c.maxDelay)
  }

  // The next delay in words: the whole milliseconds so far times the multiplier, its fraction dropped,
  // and no more than the maximum.
  lemma NextDelayIs(c: RetryConfig, delay: nat) returns (millis: nat)
    requires 0.0 <= (delay / 1_000_000) as real * c.multiplier < U64_MAX as real
    ensures millis as real <= (delay / 1_000_000) as real * c.multiplier < millis as real + 1.0
    ensures NextDelay(c, delay) == if millis * 1_000_000 <= c.maxDelay then millis * 1_000_000 else c.maxDelay
  {
    millis := Scaled((delay / NANOS_PER_MILLI) as real, c.multiplier);
  }

  // The sleep after k + 1 failed attempts.
  function Delay(c: RetryConfig, k: nat): nat {
    if k == 0 then c.baseDelay else NextDelay(c, Delay(c, k - 1))
  }

  predicate Retries<T>(c: RetryConfig, k: nat, outcome: Result<T>) {
    outcome.Err? && outcome.error.IsRetryable() && k < c.maxAttempts
  }

  ghost predicate AreDelays(c: RetryConfig, sleeps: seq<nat>) {
    forall k | 0 <= k < |sleeps| :: sleeps[k] == Delay(c, k)
  }

  /** `operation(k)` is what attempt k yields, the timeout and the permit included. The loop stops
      at the first attempt that succeeds, fails for good or is the last allowed, and sleeps
      once between attempts. */
  method ExecuteWithRetry<T>(c: RetryConfig, operation: nat -> Result<T>)
    returns (result: Result<T>, attempt: nat, sleeps: seq<nat>)
    ensures 1 <= attempt <= Max(1, c.maxAttempts)
    ensures result == operation(attempt)
    ensures forall k | 1 <= k < attempt :: Retries(c, k, operation(k))
    ensures !Retries(c, attempt, result)
    ensures forall k | 1 <= k < attempt ::
              operation(k).Err? && !operation(k).error.Cancelled? && !operation(k).error.Internal?
    ensures result.Ok? || attempt >= c.maxAttempts || result.error.Cancelled? || result.error.Internal?
    ensures |sleeps| == attempt - 1 && AreDelays(c, sleeps)
  {
    attempt := 0;
    var delay := c.baseDelay;
    sleeps := [];
    while true
      invariant |sleeps| == attempt && AreDelays(c, sleeps)
      invariant forall k | 1 <= k <= attempt :: Retries(c, k, operation(k))
      invariant delay == Delay(c, attempt)
      invariant attempt > 0 ==> attempt < c.maxAttempts
      decreases Max(1, c.maxAttempts) - attempt
    {
      attempt := attempt + 1;
      result := operation(attempt);
      if result.Ok? {
        return;
      }
      if attempt >= c.maxAttempts {
        return;
      }
      if !result.error.IsRetryable() {
        return;
      }
      sleeps := sleeps + [delay];
      delay := NextDelay(c, delay);
    }
  }

  function Power(b: nat, e: nat): nat {
    if e == 0 then 1 else b * Power(b, e - 1)
  }

  // The longest delay the code can produce after the first.
  function Cap(c: RetryConfig): nat {
    Min(c.maxDelay, U64_MAX * NANOS_PER_MILLI)
  }

  lemma ToU64Whole(n: nat)
    ensures ToU64(n as real) == Min(n, U64_MAX)
  {
  }

  lemma RealTimes(a: nat, b: nat)
    ensures a as real * b as real == (a * b) as real
  {
  }

  lemma ScaledWhole(ms: nat, m: nat)
    ensures Scaled(ms as real, m as real) == Min(ms * m, U64_MAX)
  {
    RealTimes(ms, m);
    ToU64Whole(ms * m);
  }

  lemma NextDelayWhole(c: RetryConfig, ms: nat, m: nat)
    requires c.multiplier == m as real
    ensures NextDelay(c, ms * NANOS_PER_MILLI) == Min(ms * m * NANOS_PER_MILLI, Cap(c))
  {
    ScaledWhole(ms, m);
    assert ms * NANOS_PER_MILLI / NANOS_PER_MILLI == ms;
  }

  lemma NextDelayAtCap(c: RetryConfig, m: nat)
    requires c.multiplier == m as real && m >= 2 && Cap(c) >= NANOS_PER_MILLI
    ensures NextDelay(c, Cap(c)) == Cap(c)
  {
    var ms := Cap(c) / NANOS_PER_MILLI;
    ScaledWhole(ms, m);
    MulMonotone(2, m, ms);
    assert ms * m == m * ms;
    assert Cap(c) <= 2 * ms * NANOS_PER_MILLI;
  }

  lemma RealMulMonotone(a: real, b: real, r: real)
    requires a <= b && r >= 0.0
    ensures a * r <= b * r
  {
    assert (b - a) * r >= 0.0;
  }

  lemma ScaledMonotone(a: real, b: real, r: real)
    requires 0.0 <= a <= b
    ensures Scaled(a, r) <= Scaled(b, r)
  {
    if r >= 0.0 {
      RealMulMonotone(a, b, r);
      ToU64Monotone(a * r, b * r);
    } else {
      RealMulMonotone(0.0, a, -r);
      NegativeProduct(a, r);
      ToU64OfNegative(a * r);
    }
  }

  lemma NegativeProduct(a: real, r: real)
    requires a * -r >= 0.0
    ensures a * r <= 0.0
  {
    assert a * r == -(a * -r);
  }

  lemma ToU64Monotone(x: real, y: real)
    requires x <= y
    ensures ToU64(x) <= ToU64(y)
  {
  }

  lemma ToU64OfNegative(x: real)
    requires x <= 0.0
    ensures ToU64(x) == 0
  {
  }

  lemma NextDelayMonotone(c: RetryConfig, d: nat, e: nat)
    requires d <= e
    ensures NextDelay(c, d) <= NextDelay(c, e)
  {
    ScaledMonotone((d / NANOS_PER_MILLI) as real, (e / NANOS_PER_MILLI) as real, c.multiplier);
  }

  /** For an integer multiplier and a base of whole milliseconds within the cap, the sleeps are
      base * multiplier^k, capped. */
  lemma {:induction false} DelayFormula(c: RetryConfig, ms: nat, m: nat, k: nat)
    requires m >= 1 && c.multiplier == m as real
    requires c.baseDelay == ms * NANOS_PER_MILLI <= Cap(c)
    ensures Delay(c, k) == Min(ms * Power(m, k) * NANOS_PER_MILLI, Cap(c))
  {
    if k > 0 {
      DelayFormula(c, ms, m, k - 1);
      var raw := ms * Power(m, k - 1);
      assert ms * Power(m, k) == raw * m by {
        Reassociate(ms, m, Power(m, k - 1));
      }
      if raw * NANOS_PER_MILLI > Cap(c) {
        StartsBelow(c, ms, m, k - 1);
      }
      NextDelayCapped(c, raw, m);
    }
  }

  lemma Reassociate(a: nat, b: nat, c: nat)
    ensures a * (b * c) == a * c * b
  {
  }

  // One step of a delay that is either below the cap or already there.
  lemma NextDelayCapped(c: RetryConfig, raw: nat, m: nat)
    requires m >= 1 && c.multiplier == m as real
    requires raw * NANOS_PER_MILLI > Cap(c) ==> m >= 2 && Cap(c) >= NANOS_PER_MILLI
    ensures NextDelay(c, Min(raw * NANOS_PER_MILLI, Cap(c))) == Min(raw * m * NANOS_PER_MILLI, Cap(c))
  {
    if raw * NANOS_PER_MILLI <= Cap(c) {
      NextDelayWhole(c, raw, m);
    } else {
      MulMonotone(1, m, raw);
      assert raw * m == m * raw;
      NextDelayAtCap(c, m);
    }
  }

  // Only a growing delay can pass the cap.
  lemma StartsBelow(c: RetryConfig, ms: nat, m: nat, e: nat)
    requires m >= 1 && ms * NANOS_PER_MILLI <= Cap(c) < ms * Power(m, e) * NANOS_PER_MILLI
    ensures m >= 2 && ms >= 1
  {
    PowerOfOne(e);
  }

  lemma {:induction false} PowerOfOne(e: nat)
    ensures Power(1, e) == 1
  {
    if e > 0 {
      PowerOfOne(e - 1);
    }
  }

  /** Exactly when the sleeps of a call never get shorter, of which there are fewer than the attempts:
      there is at most one, or the first step does not shrink. For that the base must be within the
      maximum, and truncating it to milliseconds must not cost more than the multiplier gains. */
  lemma NeverDecreasesIff(c: RetryConfig)
    ensures (forall k: nat | k + 2 < c.maxAttempts :: Delay(c, k) <= Delay(c, k + 1)) <==>
              || c.maxAttempts <= 2
              || (c.baseDelay <= c.maxDelay
                  && c.baseDelay <= Scaled((c.baseDelay / NANOS_PER_MILLI) as real, c.multiplier) * NANOS_PER_MILLI)
  {
    var first: nat := 0;
    assert Delay(c, first + 1) == NextDelay(c, c.baseDelay);
    if c.baseDelay <= NextDelay(c, c.baseDelay) {
      forall k: nat | k + 2 < c.maxAttempts ensures Delay(c, k) <= Delay(c, k + 1) {
        DelayStep(c, k);
      }
    } else if c.maxAttempts > 2 {
      assert Delay(c, first) > Delay(c, first + 1);
    }
  }

  lemma {:induction false} DelayStep(c: RetryConfig, k: nat)
    requires c.baseDelay <= NextDelay(c, c.baseDelay)
    ensures Delay(c, k) <= Delay(c, k + 1)
  {
    if k > 0 {
      DelayStep(c, k - 1);
      NextDelayMonotone(c, Delay(c, k - 1), Delay(c, k));
    }
  }

  // The maximum bounds every sleep of a call exactly when there is none, or it bounds the first,
  // which is the base itself.
  lemma SleepsWithinMaxIff(c: RetryConfig)
    ensures (forall k: nat | k + 1 < c.maxAttempts :: Delay(c, k) <= c.maxDelay) <==>
              c.maxAttempts <= 1 || c.baseDelay <= c.maxDelay
  {
    var first: nat := 0;
    assert Delay(c, first) == c.baseDelay;
    if c.baseDelay <= c.maxDelay {
      forall k: nat | k + 1 < c.maxAttempts ensures Delay(c, k) <= c.maxDelay {
        if k > 0 {
          assert Delay(c, k) == NextDelay(c, Delay(c, k - 1));
        }
      }
    } else if c.maxAttempts > 1 {
      assert Delay(c, first) > c.maxDelay;
    }
  }

  // A base of one and a half milliseconds is cut to one on the first retry.
  lemma {:induction false} FractionalBaseShrinks()
    ensures var c := RetryConfig(3, 1_500_000, 5_000_000_000, 1.0);
            Delay(c, 0) == 1_500_000 && Delay(c, 1) == 1_000_000
  {
    var c := RetryConfig(3, 1_500_000, 5_000_000_000, 1.0);
    ScaledWhole(1, 1);
    assert Delay(c, 1) == NextDelay(c, Delay(c, 0));
  }

  /** The whole retry loop sleeps for at most the base once and the maximum every other time. The
      first sleep is the only one the maximum does not bound. */
  lemma {:induction false} TotalSleepBounded(c: RetryConfig, sleeps: seq<nat>)
    requires AreDelays(c, sleeps)
    ensures forall k | 1 <= k < |sleeps| :: sleeps[k] <= c.maxDelay
    ensures sleeps != [] ==> Total(sleeps) <= c.baseDelay + (|sleeps| - 1) * c.maxDelay
  {
    if |sleeps| > 1 {
      var n := |sleeps| - 1;
      TotalSleepBounded(c, sleeps[..n]);
      MulStep(n - 1, c.maxDelay);
      assert sleeps[n] == NextDelay(c, Delay(c, n - 1));
    } else if |sleeps| == 1 {
      assert Total(sleeps[..0]) == 0;
    }
  }

  // --- Execution in chunks ---

  function Map<F, T>(f: F -> T, s: seq<F>): (r: seq<T>)
    ensures |r| == |s|
    ensures forall i | 0 <= i < |s| :: r[i] == f(s[i])
  {
    seq(|s|, i requires 0 <= i < |s| => f(s[i]))
  }

  function Flatten<T>(parts: seq<seq<T>>): seq<T> {
    if parts == [] then [] else Flatten(parts[..|parts| - 1]) + parts[|parts| - 1]
  }

  // What is left after n rounds of the loop, each draining a chunk from the front.
  function Remaining<F>(operations: seq<F>, chunkSize: nat, n: nat): seq<F> {
    if n == 0 then operations
    else
      var left := Remaining(operations, chunkSize, n - 1);
      left[Min(chunkSize, |left|)..]
  }

  lemma {:induction false} RemainingSize<F>(operations: seq<F>, chunkSize: nat, n: nat)
    ensures chunkSize == 0 ==> Remaining(operations, chunkSize, n) == operations
    ensures chunkSize > 0 ==> |Remaining(operations, chunkSize, n)| <= Max(0, |operations| - n)
  {
    if n > 0 {
      RemainingSize(operations, chunkSize, n - 1);
    }
  }

  /** The loop comes to an end exactly when the chunk size is positive or there is nothing to do.
      The chunk size is the number of permits free on entry, so with every permit taken and
      work to do it drains nothing, forever. */
  lemma ChunksTerminateIff<F>(operations: seq<F>, chunkSize: nat)
    ensures (exists n: nat :: Remaining(operations, chunkSize, n) == []) <==> chunkSize > 0 || operations == []
  {
    if chunkSize > 0 {
      RemainingSize(operations, chunkSize, |operations|);
      assert Remaining(operations, chunkSize, |operations|) == [];
    } else if operations == [] {
      assert Remaining(operations, chunkSize, 0) == [];
    } else {
      forall n: nat ensures Remaining(operations, chunkSize, n) != [] {
        RemainingSize(operations, chunkSize, n);
      }
    }
  }

  // The chunks hold the operations in order, and all but the last are full.
  ghost predicate CutInto<F>(operations: seq<F>, chunks: seq<seq<F>>, chunkSize: nat) {
    && Flatten(chunks) == operations
    && (forall i | 0 <= i < |chunks| :: 1 <= |chunks[i]| <= chunkSize)
    && (forall i | 0 <= i < |chunks| - 1 :: |chunks[i]| == chunkSize)
  }

  // n rounds have drained the chunks, and `left` is what remains.
  ghost predicate Draining<F>(operations: seq<F>, chunks: seq<seq<F>>, left: seq<F>, chunkSize: nat) {
    && Flatten(chunks) + left == operations
    && left == Remaining(operations, chunkSize, |chunks|)
    && (forall n | 0 <= n < |chunks| :: Remaining(operations, chunkSize, n) != [])
    && (forall i | 0 <= i < |chunks| :: 1 <= |chunks[i]| <= chunkSize)
    && (forall i | 0 <= i < |chunks| :: |chunks[i]| == chunkSize || (i == |chunks| - 1 && left == []))
  }

  lemma DrainOne<F>(operations: seq<F>, chunks: seq<seq<F>>, left: seq<F>, chunkSize: nat)
    requires Draining(operations, chunks, left, chunkSize) && left != [] && chunkSize > 0
    ensures var n := Min(chunkSize, |left|);
            && Draining(operations, chunks + [left[..n]], left[n..], chunkSize)
            && Flatten(chunks + [left[..n]]) == Flatten(chunks) + left[..n]
  {
    var n := Min(chunkSize, |left|);
    FlattenExtend(chunks, left[..n]);
    assert Flatten(chunks) + left[..n] + left[n..] == operations;
    assert Remaining(operations, chunkSize, |chunks| + 1) == left[n..];
  }

  lemma MapConcat<F, T>(f: F -> T, a: seq<F>, b: seq<F>)
    ensures Map(f, a + b) == Map(f, a) + Map(f, b)
  {
  }

  /** Result i belongs to operation i; the chunks run one after another are the operations in
      order, none empty, and all of them as large as the chunk size allows but the last. As many
      rounds as there are chunks drain the list, and no fewer. */
  method ExecuteChunks<F, T>(operations: seq<F>, chunkSize: nat, run: F -> T)
    returns (results: seq<T>, chunks: seq<seq<F>>)
    requires chunkSize > 0 || operations == []
    ensures results == Map(run, operations) && CutInto(operations, chunks, chunkSize)
    ensures Remaining(operations, chunkSize, |chunks|) == []
    ensures forall n | 0 <= n < |chunks| :: Remaining(operations, chunkSize, n) != []
  {
    var left := operations;
    results, chunks := [], [];
    while left != []
      invariant Draining(operations, chunks, left, chunkSize)
      invariant results == Map(run, Flatten(chunks))
      decreases |left|
    {
      DrainOne(operations, chunks, left, chunkSize);
      var chunkLen := Min(chunkSize, |left|);
      var chunk := left[..chunkLen];
      left := left[chunkLen..];
      MapConcat(run, Flatten(chunks), chunk);
      results := results + Map(run, chunk);
      chunks := chunks + [chunk];
    }
  }

  lemma FlattenExtend<T>(parts: seq<seq<T>>, part: seq<T>)
    ensures Flatten(parts + [part]) == Flatten(parts) + part
  {
    assert (parts + [part])[..|parts|] == parts;
  }

  // The optimizer's batch_execute: the chunk size is the permits available on entry.
  method BatchExecute<F, T>(operations: seq<F>, availablePermits: nat, run: F -> T)
    returns (results: seq<T>, chunks: seq<seq<F>>)
    requires availablePermits > 0 || operations == []
    ensures |results| == |operations| && forall i | 0 <= i < |operations| :: results[i] == run(operations[i])
    ensures CutInto(operations, chunks, Min(availablePermits, |operations|))
  {
    results, chunks := ExecuteChunks(operations, Min(availablePermits, |operations|), run);
  }

  // The performance module's batch_execute: at most ten at a time, which is never zero.
  method BatchExecuteTen<F, T>(tasks: seq<F>, run: F -> T) returns (results: seq<T>, chunks: seq<seq<F>>)
    ensures |results| == |tasks| && forall i | 0 <= i < |tasks| :: results[i] == run(tasks[i])
    ensures CutInto(tasks, chunks, if |tasks| < 10 then |tasks| else 10)
  {
    results, chunks := ExecuteChunks(tasks, Min(|tasks|, 10), run);
  }

  // --- Stream processing ---

  ghost predicate SizesWithin<T>(batches: seq<seq<T>>, bound: nat) {
    forall b | 0 <= b < |batches| :: 1 <= |batches[b]| <= bound
  }

  ghost predicate AllFull<T>(batches: seq<seq<T>>, size: nat) {
    forall b | 0 <= b < |batches| :: |batches[b]| == size
  }

  ghost predicate AllAccepted(accepts: nat -> bool, n: nat) {
    forall b: nat | b < n :: accepts(b)
  }

  ghost predicate Patient(elapsed: nat -> bool) {
    forall i: nat :: !elapsed(i)
  }

  // What has been handed over, and all of it accepted, leaves the buffer to come.
  ghost predicate Waiting<T>(batches: seq<seq<T>>, buffer: seq<T>, received: seq<T>, bound: nat,
                             accepts: nat -> bool, patient: bool)
  {
    && Flatten(batches) + buffer == received
    && SizesWithin(batches, bound)
    && AllAccepted(accepts, |batches|)
    && (patient ==> AllFull(batches, bound))
  }

  // The last batch handed over was refused.
  ghost predicate Refused<T>(batches: seq<seq<T>>, items: seq<T>, bound: nat, accepts: nat -> bool, patient: bool) {
    && batches != [] && Flatten(batches) <= items
    && SizesWithin(batches, bound)
    && AllAccepted(accepts, |batches| - 1) && !accepts(|batches| - 1)
    && (patient ==> AllFull(batches[..|batches| - 1], bound))
  }

  // One more item in the buffer.
  lemma ReceiveItem<T>(batches: seq<seq<T>>, buffer: seq<T>, items: seq<T>, i: nat, bound: nat,
                       accepts: nat -> bool, patient: bool)
    requires i < |items| && Waiting(batches, buffer, items[..i], bound, accepts, patient)
    ensures Waiting(batches, buffer + [items[i]], items[..i + 1], bound, accepts, patient)
  {
    assert Flatten(batches) + (buffer + [items[i]]) == Flatten(batches) + buffer + [items[i]];
  }

  // The buffer handed over as one more batch, accepted or not.
  lemma FlushedBatch<T>(batches: seq<seq<T>>, buffer: seq<T>, received: seq<T>, items: seq<T>, bound: nat,
                        accepts: nat -> bool, patient: bool)
    requires Waiting(batches, buffer, received, bound, accepts, patient) && 1 <= |buffer| <= bound
    requires received <= items
    ensures var after := batches + [buffer];
            && (!accepts(|batches|) ==> Refused(after, items, bound, accepts, patient))
            && (accepts(|batches|) && (patient ==> |buffer| == bound) ==>
                  Waiting(after, [], received, bound, accepts, patient))
            && Flatten(after) == received && SizesWithin(after, bound) && after[..|after| - 1] == batches
  {
    FlattenExtend(batches, buffer);
    assert received + [] == received;
  }

  // The first item still waiting when n have arrived.
  function FirstWaiting(bufferSize: nat, elapsed: nat -> bool, n: nat): (first: nat)
    ensures first <= n
    decreases n, 0
  {
    if n == 0 then 0
    else if IsDue(bufferSize, elapsed, n - 1) then n
    else FirstWaiting(bufferSize, elapsed, n - 1)
  }

  // Item i fills the buffer, or arrives after the timeout.
  predicate IsDue(bufferSize: nat, elapsed: nat -> bool, i: nat)
    decreases i, 1
  {
    i + 1 - FirstWaiting(bufferSize, elapsed, i) >= bufferSize || elapsed(i)
  }

  // How many items the first b batches hold.
  function HeldBy<T>(batches: seq<seq<T>>, b: nat): nat
    requires b <= |batches|
  {
    |Flatten(batches[..b])|
  }

  // Item i is the last of some batch.
  ghost predicate EndsBatch<T>(batches: seq<seq<T>>, i: nat) {
    exists b :: 1 <= b <= |batches| && HeldBy(batches, b) == i + 1
  }

  // What has been handed over when n items have arrived: all up to the last that was due.
  ghost predicate CutWhereDue<T>(batches: seq<seq<T>>, bufferSize: nat, elapsed: nat -> bool, n: nat) {
    && |Flatten(batches)| == FirstWaiting(bufferSize, elapsed, n)
    && forall i | 0 <= i < |Flatten(batches)| :: EndsBatch(batches, i) <==> IsDue(bufferSize, elapsed, i)
  }

  lemma {:induction false} NoneDueSince(bufferSize: nat, elapsed: nat -> bool, n: nat, i: nat)
    requires FirstWaiting(bufferSize, elapsed, n) <= i < n
    ensures !IsDue(bufferSize, elapsed, i)
  {
    if i < n - 1 {
      NoneDueSince(bufferSize, elapsed, n - 1, i);
    }
  }

  lemma {:induction false} FlattenGrows<T>(batches: seq<seq<T>>, b: nat)
    requires b <= |batches|
    ensures HeldBy(batches, b) <= |Flatten(batches)|
    decreases |batches|
  {
    if b < |batches| {
      assert batches[..|batches| - 1][..b] == batches[..b];
      FlattenGrows(batches[..|batches| - 1], b);
    } else {
      assert batches[..b] == batches;
    }
  }

  // One more batch ends where it ends, and leaves the other ends alone.
  lemma OneMoreEnd<T>(batches: seq<seq<T>>, batch: seq<T>, i: nat)
    requires batch != [] && i < |Flatten(batches)| + |batch|
    ensures EndsBatch(batches + [batch], i) <==>
              (i < |Flatten(batches)| && EndsBatch(batches, i)) || i == |Flatten(batches)| + |batch| - 1
  {
    var after := batches + [batch];
    FlattenExtend(batches, batch);
    assert after[..|after|] == after;
    assert HeldBy(after, |after|) == |Flatten(batches)| + |batch|;
    forall b | 1 <= b <= |batches|
      ensures HeldBy(after, b) == HeldBy(batches, b) <= |Flatten(batches)|
    {
      assert after[..b] == batches[..b];
      FlattenGrows(batches, b);
    }
  }

  // A batch shorter than the bound ends with an item whose timeout has passed, or with the last of all.
  ghost predicate ShortEndLate<T>(batches: seq<seq<T>>, bound: nat, elapsed: nat -> bool, total: nat) {
    forall b | 1 <= b <= |batches| && |batches[b - 1]| < bound ::
      HeldBy(batches, b) >= 1 && (elapsed(HeldBy(batches, b) - 1) || HeldBy(batches, b) == total)
  }

  // Every item handed over whose timeout has passed ends its batch.
  ghost predicate TimeoutsEnd<T>(batches: seq<seq<T>>, elapsed: nat -> bool) {
    forall i | 0 <= i < |Flatten(batches)| && elapsed(i) :: EndsBatch(batches, i)
  }

  lemma ShortExtend<T>(batches: seq<seq<T>>, batch: seq<T>, bound: nat, elapsed: nat -> bool, total: nat)
    requires ShortEndLate(batches, bound, elapsed, total) && batch != []
    requires var held := |Flatten(batches)| + |batch|; |batch| >= bound || elapsed(held - 1) || held == total
    ensures ShortEndLate(batches + [batch], bound, elapsed, total)
  {
    HeldByExtend(batches, batch);
  }

  // One more batch leaves what the others hold alone.
  lemma HeldByExtend<T>(batches: seq<seq<T>>, batch: seq<T>)
    ensures forall b | 0 <= b <= |batches| :: HeldBy(batches + [batch], b) == HeldBy(batches, b)
    ensures HeldBy(batches + [batch], |batches| + 1) == |Flatten(batches)| + |batch|
  {
    var after := batches + [batch];
    FlattenExtend(batches, batch);
    assert after[..|after|] == after;
    forall b | 0 <= b <= |batches| ensures HeldBy(after, b) == HeldBy(batches, b) {
      assert after[..b] == batches[..b];
    }
  }

  // The buffer handed over with item n ends a batch there and nowhere else; `n` items were before it.
  lemma CutOnce<T>(batches: seq<seq<T>>, buffer: seq<T>, bufferSize: nat, elapsed: nat -> bool, n: nat)
    requires CutWhereDue(batches, bufferSize, elapsed, n) && buffer != [] && |Flatten(batches)| + |buffer| == n + 1
    ensures |Flatten(batches + [buffer])| == n + 1
    ensures forall i | 0 <= i <= n ::
              EndsBatch(batches + [buffer], i) <==> (i < n && IsDue(bufferSize, elapsed, i)) || i == n
    ensures IsDue(bufferSize, elapsed, n) ==> CutWhereDue(batches + [buffer], bufferSize, elapsed, n + 1)
  {
    FlattenExtend(batches, buffer);
    forall i | 0 <= i <= n
      ensures EndsBatch(batches + [buffer], i) <==> (i < n && IsDue(bufferSize, elapsed, i)) || i == n
    {
      OneMoreEnd(batches, buffer, i);
      if |Flatten(batches)| <= i < n {
        NoneDueSince(bufferSize, elapsed, n, i);
      }
    }
  }

  // Of the items handed over, exactly those end a batch that were due, or that are the last of all.
  ghost predicate EndsAreDue<T>(batches: seq<seq<T>>, bufferSize: nat, elapsed: nat -> bool, total: nat) {
    forall i | 0 <= i < |Flatten(batches)| ::
      EndsBatch(batches, i) <==> IsDue(bufferSize, elapsed, i) || i == total - 1
  }

  /** `elapsed(i)` tells whether the batch timeout has passed when item i arrives, `accepts(b)`
      whether the processor accepts batch b. Whatever the timeouts do, the batches handed over
      are the received items in order, cut into nonempty pieces no longer than the buffer. A
      refused batch is the last one handed over, and then they are a prefix. A batch ends with the
      item that fills the buffer, with one that arrives after the timeout, and with the last item of
      all, and nowhere else; so without timeouts every batch but the last is full. */
  method ProcessStream<T>(bufferSize: nat, items: seq<T>, elapsed: nat -> bool, accepts: nat -> bool)
    returns (ok: bool, batches: seq<seq<T>>)
    ensures Flatten(batches) <= items
    ensures ok ==> Flatten(batches) == items && AllAccepted(accepts, |batches|)
    ensures !ok ==> batches != [] && AllAccepted(accepts, |batches| - 1) && !accepts(|batches| - 1)
    ensures SizesWithin(batches, Max(1, bufferSize))
    ensures Patient(elapsed) && batches != [] ==> AllFull(batches[..|batches| - 1], Max(1, bufferSize))
    ensures EndsAreDue(batches, bufferSize, elapsed, |items|)
    ensures TimeoutsEnd(batches, elapsed)
    ensures ShortEndLate(batches, Max(1, bufferSize), elapsed, |items|)
  {
    var buffer: seq<T>;
    ok, batches, buffer := ReceiveAll(bufferSize, items, elapsed, accepts);
    // Flush remaining items.
    if ok && buffer != [] {
      LastFlush(batches, buffer, bufferSize, items, elapsed, accepts);
      ok, batches := FlushBuffer(buffer, batches, accepts);
    } else if ok {
      CutIsDue(batches, bufferSize, elapsed, |items|, |items|);
    }
    DueIncludesTimeouts(batches, bufferSize, elapsed, |items|);
  }

  lemma DueIncludesTimeouts<T>(batches: seq<seq<T>>, bufferSize: nat, elapsed: nat -> bool, total: nat)
    requires EndsAreDue(batches, bufferSize, elapsed, total)
    ensures TimeoutsEnd(batches, elapsed)
  {
  }

  lemma CutAtEnd<T>(batches: seq<seq<T>>, buffer: seq<T>, items: seq<T>, bufferSize: nat, elapsed: nat -> bool)
    requires CutWhereDue(batches, bufferSize, elapsed, |items|) && buffer != [] && Flatten(batches) + buffer == items
    ensures EndsAreDue(batches + [buffer], bufferSize, elapsed, |items|)
  {
    FlattenExtend(batches, buffer);
    forall i | 0 <= i < |items|
      ensures EndsBatch(batches + [buffer], i) <==> IsDue(bufferSize, elapsed, i) || i == |items| - 1
    {
      OneMoreEnd(batches, buffer, i);
      if |Flatten(batches)| <= i {
        NoneDueSince(bufferSize, elapsed, |items|, i);
      }
    }
  }

  // A cut with everything handed over, or stopped early, ends where it should.
  lemma CutIsDue<T>(batches: seq<seq<T>>, bufferSize: nat, elapsed: nat -> bool, n: nat, total: nat)
    requires CutWhereDue(batches, bufferSize, elapsed, n) && n <= total
    ensures EndsAreDue(batches, bufferSize, elapsed, total)
  {
    if batches != [] && |Flatten(batches)| == total && total > 0 {
      assert batches[..|batches|] == batches && HeldBy(batches, |batches|) == total;
      assert EndsBatch(batches, total - 1);
    }
  }

  lemma WaitingSize<T>(batches: seq<seq<T>>, buffer: seq<T>, received: seq<T>, bound: nat,
                       accepts: nat -> bool, patient: bool)
    requires Waiting(batches, buffer, received, bound, accepts, patient)
    ensures |Flatten(batches)| + |buffer| == |received|
  {
    assert |Flatten(batches) + buffer| == |received|;
  }

  // The loop when n items have arrived.
  ghost predicate Receiving<T>(batches: seq<seq<T>>, buffer: seq<T>, bufferSize: nat, items: seq<T>, n: nat,
                               elapsed: nat -> bool, accepts: nat -> bool)
  {
    && n <= |items| && |buffer| < Max(1, bufferSize)
    && Waiting(batches, buffer, items[..n], Max(1, bufferSize), accepts, Patient(elapsed))
    && CutWhereDue(batches, bufferSize, elapsed, n)
    && ShortEndLate(batches, Max(1, bufferSize), elapsed, |items|)
  }

  // The loop, or the last flush, when a batch has been refused.
  ghost predicate Stopped<T>(batches: seq<seq<T>>, bufferSize: nat, items: seq<T>,
                             elapsed: nat -> bool, accepts: nat -> bool)
  {
    && Refused(batches, items, Max(1, bufferSize), accepts, Patient(elapsed))
    && EndsAreDue(batches, bufferSize, elapsed, |items|)
    && ShortEndLate(batches, Max(1, bufferSize), elapsed, |items|)
  }

  // One more item, which waits or is flushed with those before it.
  lemma NextItem<T>(batches: seq<seq<T>>, buffer: seq<T>, bufferSize: nat, items: seq<T>, n: nat,
                    elapsed: nat -> bool, accepts: nat -> bool)
    requires n < |items| && Receiving(batches, buffer, bufferSize, items, n, elapsed, accepts)
    ensures var more := buffer + [items[n]];
            var flush, after := |more| >= bufferSize || elapsed(n), batches + [more];
            && (!flush ==> Receiving(batches, more, bufferSize, items, n + 1, elapsed, accepts))
            && (flush && accepts(|batches|) ==> Receiving(after, [], bufferSize, items, n + 1, elapsed, accepts))
            && (flush && !accepts(|batches|) ==> Stopped(after, bufferSize, items, elapsed, accepts))
  {
    var bound, patient, more := Max(1, bufferSize), Patient(elapsed), buffer + [items[n]];
    ReceiveItem(batches, buffer, items, n, bound, accepts, patient);
    WaitingSize(batches, buffer, items[..n], bound, accepts, patient);
    if |more| >= bufferSize || elapsed(n) {
      WaitingSize(batches, more, items[..n + 1], bound, accepts, patient);
      FlushedBatch(batches, more, items[..n + 1], items, bound, accepts, patient);
      CutOnce(batches, more, bufferSize, elapsed, n);
      ShortExtend(batches, more, bound, elapsed, |items|);
      CutIsDue(batches + [more], bufferSize, elapsed, n + 1, |items|);
    }
  }

  // What is left in the buffer, flushed when the channel is closed.
  lemma LastFlush<T>(batches: seq<seq<T>>, buffer: seq<T>, bufferSize: nat, items: seq<T>,
                     elapsed: nat -> bool, accepts: nat -> bool)
    requires Receiving(batches, buffer, bufferSize, items, |items|, elapsed, accepts) && buffer != []
    ensures var after := batches + [buffer];
            && EndsAreDue(after, bufferSize, elapsed, |items|)
            && ShortEndLate(after, Max(1, bufferSize), elapsed, |items|)
            && Flatten(after) == items && SizesWithin(after, Max(1, bufferSize))
            && AllAccepted(accepts, |batches|)
            && (Patient(elapsed) ==> AllFull(after[..|after| - 1], Max(1, bufferSize)))
  {
    var bound, patient := Max(1, bufferSize), Patient(elapsed);
    assert items[..|items|] == items;
    WaitingSize(batches, buffer, items, bound, accepts, patient);
    FlushedBatch(batches, buffer, items, items, bound, accepts, patient);
    CutAtEnd(batches, buffer, items, bufferSize, elapsed);
    ShortExtend(batches, buffer, bound, elapsed, |items|);
  }

  // The loop of process_stream: until the channel is closed or a batch is refused.
  method ReceiveAll<T>(bufferSize: nat, items: seq<T>, elapsed: nat -> bool, accepts: nat -> bool)
    returns (ok: bool, batches: seq<seq<T>>, buffer: seq<T>)
    ensures if ok then Receiving(batches, buffer, bufferSize, items, |items|, elapsed, accepts)
            else Stopped(batches, bufferSize, items, elapsed, accepts)
  {
    buffer, batches := [], [];
    var i := 0;
    while i < |items|
      invariant 0 <= i <= |items|
      invariant Receiving(batches, buffer, bufferSize, items, i, elapsed, accepts)
    {
      NextItem(batches, buffer, bufferSize, items, i, elapsed, accepts);
      buffer := buffer + [items[i]];
      var shouldFlush := |buffer| >= bufferSize || elapsed(i);
      i := i + 1;
      if shouldFlush {
        ok, batches := FlushBuffer(buffer, batches, accepts);
        buffer := [];
        if !ok {
          return;
        }
      }
    }
    ok := true;
  }

  // Hand over what the buffer holds as one more batch.
  method FlushBuffer<T>(buffer: seq<T>, batches: seq<seq<T>>, accepts: nat -> bool)
    returns (ok: bool, after: seq<seq<T>>)
    ensures buffer == [] ==> ok && after == batches
    ensures buffer != [] ==> ok == accepts(|batches|) && after == batches + [buffer]
  {
    if buffer == [] {
      return true, batches;
    }
    after := batches + [buffer];
    ok := accepts(|batches|);
  }
}
