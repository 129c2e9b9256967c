/**
 Performance tracking of commands: counters, extremes and averages of durations (in
 nanoseconds), updated under locks. The counters of a started command are incremented by a
 spawned task, which may run late.
 */
module Performance {
  import opened Sums

  const U32_MODULUS: nat := 0x1_0000_0000
  const NANOS_PER_SEC: nat := 1_000_000_000

  // The initial minimum, and the largest duration there is.
  const UNSET_MIN: nat := U64_MAX * NANOS_PER_SEC
  const DURATION_MAX: nat := UNSET_MIN + NANOS_PER_SEC - 1

  type Times = map<string, seq<nat>>

  datatype Metrics = Metrics(
    times: Times,
    total: nat,
    completed: nat,
    failed: nat,
    pending: nat,
    longest: nat,
    shortest: nat,
    average: nat)

  const INITIAL := Metrics(map[], 0, 0, 0, 0, 0, UNSET_MIN, 0)

  function Length(s: seq<nat>): nat { |s| }

  ghost function Count(t: Times): nat { SumBy(t, Length) }

  ghost function Sum(t: Times): nat { SumBy(t, Total) }

  function Recorded(t: Times, command: string, duration: nat): Times {
    t[command := (if command in t then t[command] else []) + [duration]]
  }

  function AfterStart(m: Metrics): Metrics {
    m.(total := m.total + 1, pending := m.pending + 1)
  }

  // Everything a completion updates before the average.
  function Tallied(m: Metrics, command: string, duration: nat, success: bool): Metrics {
    m.(times := Recorded(m.times, command, duration),
       pending := if m.pending == 0 then 0 else m.pending - 1,
       completed := if success then m.completed + 1 else m.completed,
       failed := if success then m.failed else m.failed + 1,
       longest := Max(m.longest, duration),
       shortest := Min(m.shortest, duration))
  }

  // The average is over a count cut to 32 bits; a count that is cut to zero, or a sum that does
  // not fit a duration, panics.
  ghost predicate Panics(m: Metrics) {
    (m.completed + m.failed) % U32_MODULUS == 0 || Sum(m.times) > DURATION_MAX
  }

  // A sum of durations divided by a count cut to 32 bits.
  function Average(sum: nat, count: nat): nat
    requires count % U32_MODULUS != 0
  {
    sum / (count % U32_MODULUS)
  }

  // The average of one command's durations panics.
  predicate NoAverage(times: seq<nat>) {
    Total(times) > DURATION_MAX || |times| % U32_MODULUS == 0
  }

  ghost function AfterCompletion(m: Metrics, command: string, duration: nat, success: bool): Metrics {
    var t := Tallied(m, command, duration, success);
    if Panics(t) then t else t.(average := Average(Sum(t.times), t.completed + t.failed))
  }

  class Tracker {
    var commandTimes: Times
    var totalTasks: nat
    var completedTasks: nat
    var failedTasks: nat
    var pendingTasks: nat
    var maxDuration: nat
    var minDuration: nat
    var averageDuration: nat

    ghost function View(): Metrics
      reads this
    {
      Metrics(commandTimes, totalTasks, completedTasks, failedTasks, pendingTasks,
              maxDuration, minDuration, averageDuration)
    }

    constructor ()
      ensures View() == INITIAL
    {
      commandTimes := map[];
      totalTasks, completedTasks, failedTasks, pendingTasks := 0, 0, 0, 0;
      maxDuration, minDuration, averageDuration := 0, UNSET_MIN, 0;
    }

    // What start_command spawns, when it runs.
    method CountStart()
      modifies this
      ensures View() == AfterStart(old(View()))
      ensures View() == old(View()).(total := old(totalTasks) + 1, pending := old(pendingTasks) + 1)
    {
      totalTasks := totalTasks + 1;
      pendingTasks := pendingTasks + 1;
    }

    method RecordCommandCompletion(command: string, duration: nat, success: bool) returns (panicked: bool)
      modifies this
      ensures View() == AfterCompletion(old(View()), command, duration, success)
      ensures panicked == Panics(Tallied(old(View()), command, duration, success))
      ensures commandTimes == old(commandTimes)[command :=
                                (if command in old(commandTimes) then old(commandTimes)[command] else []) + [duration]]
      ensures completedTasks == old(completedTasks) + (if success then 1 else 0)
      ensures failedTasks == old(failedTasks) + (if success then 0 else 1)
      ensures pendingTasks == (if old(pendingTasks) == 0 then 0 else old(pendingTasks) - 1)
      ensures totalTasks == old(totalTasks)
      ensures maxDuration == if duration > old(maxDuration) then duration else old(maxDuration)
      ensures minDuration == if duration < old(minDuration) then duration else old(minDuration)
      ensures panicked <==> || (completedTasks + failedTasks) % 0x1_0000_0000 == 0
                            || Sum(commandTimes) > 18_446_744_073_709_551_615 * 1_000_000_000 + 999_999_999
      ensures averageDuration == if panicked then old(averageDuration)
                                 else Sum(commandTimes) / ((completedTasks + failedTasks) % 0x1_0000_0000)
    {
      Tally(command, duration, success);
      var totalCompleted := completedTasks + failedTasks;
      var totalDuration := SumAll(commandTimes);
      if totalDuration > DURATION_MAX || totalCompleted % U32_MODULUS == 0 {
        return true;
      }
      averageDuration := Average(totalDuration, totalCompleted);
      return false;
    }

    // Everything before the average is recalculated.
    method Tally(command: string, duration: nat, success: bool)
      modifies this
      ensures View() == Tallied(old(View()), command, duration, success)
    {
      var stored := if command in commandTimes then commandTimes[command] else [];
      commandTimes := commandTimes[command := stored + [duration]];
      pendingTasks := if pendingTasks == 0 then 0 else pendingTasks - 1;
      if success {
        completedTasks := completedTasks + 1;
      } else {
        failedTasks := failedTasks + 1;
      }
      if duration > maxDuration {
        maxDuration := duration;
      }
      if duration < minDuration {
        minDuration := duration;
      }
    }

    // The sum of all stored durations, over the commands in any order.
    method SumAll(t: Times) returns (sum: nat)
      ensures sum == Sum(t)
    {
      sum := 0;
      var rest := t;
      while rest != map[]
        invariant sum + Sum(rest) == Sum(t)
        decreases |rest|
      {
        var k :| k in rest;
        SumByRemove(rest, k, Total);
        sum := sum + Total(rest[k]);
        rest := rest - {k};
      }
    }

    /** The average duration of each command; a command whose count is cut to zero, or whose sum is
        not a duration, panics. */
    method GetMetrics() returns (panicked: bool, averages: map<string, nat>)
      ensures panicked <==> exists k :: k in commandTimes && NoAverage(commandTimes[k])
      ensures panicked <==>
                exists k | k in commandTimes ::
                  || Total(commandTimes[k]) > 18_446_744_073_709_551_615 * 1_000_000_000 + 999_999_999
                  || |commandTimes[k]| % 0x1_0000_0000 == 0
      ensures !panicked ==> averages.Keys == commandTimes.Keys
      ensures !panicked ==>
                forall k | k in commandTimes ::
                  && |commandTimes[k]| % 0x1_0000_0000 != 0
                  && averages[k] == Total(commandTimes[k]) / (|commandTimes[k]| % 0x1_0000_0000)
    {
      averages := map[];
      var rest := commandTimes.Keys;
      while rest != {}
        invariant rest <= commandTimes.Keys
        invariant averages.Keys == commandTimes.Keys - rest
        invariant forall k | k in averages ::
                    && !NoAverage(commandTimes[k])
                    && averages[k] == Average(Total(commandTimes[k]), |commandTimes[k]|)
        decreases |rest|
      {
        var k :| k in rest;
        var times := commandTimes[k];
        if NoAverage(times) {
          return true, averages;
        }
        averages := averages[k := Average(Total(times), |times|)];
        rest := rest - {k};
      }
      panicked := false;
    }
  }

  // --- Runs: starts are counted late, completions come in any order ---

  datatype Event =
    | Started(task: nat)                                                    // the spawned increment runs
    | Completed(task: nat, command: string, duration: nat, success: bool)

  ghost function Step(m: Metrics, e: Event): Metrics {
    match e
    case Started(_) => AfterStart(m)
    case Completed(_, command, duration, success) => AfterCompletion(m, command, duration, success)
  }

  ghost function Run(events: seq<Event>): Metrics {
    if events == [] then INITIAL else Step(Run(events[..|events| - 1]), events[|events| - 1])
  }

  lemma RecordedSums(t: Times, command: string, duration: nat)
    ensures Count(Recorded(t, command, duration)) == Count(t) + 1
    ensures Sum(Recorded(t, command, duration)) == Sum(t) + duration
  {
    var stored := if command in t then t[command] else [];
    var added := stored + [duration];
    assert added[..|stored|] == stored;
    if command in t {
      SumByReplace(t, command, added, Length);
      SumByReplace(t, command, added, Total);
    } else {
      SumByInsert(t, command, added, Length);
      SumByInsert(t, command, added, Total);
    }
  }

  // Every stored duration lies between the extremes.
  ghost predicate Bounded(m: Metrics) {
    forall c, i | c in m.times && 0 <= i < |m.times[c]| :: m.shortest <= m.times[c][i] <= m.longest
  }

  // So does the mean.
  ghost predicate MeanBounded(m: Metrics) {
    Count(m.times) * m.shortest <= Sum(m.times) <= Count(m.times) * m.longest
  }

  lemma TallyKeepsMean(m: Metrics, command: string, duration: nat, success: bool)
    requires MeanBounded(m)
    ensures MeanBounded(Tallied(m, command, duration, success))
  {
    RecordedSums(m.times, command, duration);
    Widen(Count(m.times), m.shortest, m.longest, Sum(m.times), duration);
  }

  lemma TallyKeepsBounds(m: Metrics, command: string, duration: nat, success: bool)
    requires Bounded(m)
    ensures Bounded(Tallied(m, command, duration, success))
  {
    var t := Tallied(m, command, duration, success);
    forall c, i | c in t.times && 0 <= i < |t.times[c]| ensures t.shortest <= t.times[c][i] <= t.longest {
      if c in m.times && i < |m.times[c]| {
        assert t.times[c][i] == m.times[c][i];
      }
    }
  }

  // A completion changes the average only after the tally.
  lemma CompletionIsTally(m: Metrics, command: string, duration: nat, success: bool)
    ensures var m', t := AfterCompletion(m, command, duration, success), Tallied(m, command, duration, success);
            m'.(average := 0) == t.(average := 0)
  {
  }

  lemma {:induction false} CountsAlongRun(events: seq<Event>)
    ensures var m := Run(events); m.completed + m.failed == Count(m.times) && Bounded(m) && MeanBounded(m)
  {
    if events != [] {
      var m, e := Run(events[..|events| - 1]), events[|events| - 1];
      CountsAlongRun(events[..|events| - 1]);
      if e.Completed? {
        RecordedSums(m.times, e.command, e.duration);
        TallyKeepsMean(m, e.command, e.duration, e.success);
        TallyKeepsBounds(m, e.command, e.duration, e.success);
        CompletionIsTally(m, e.command, e.duration, e.success);
      }
    }
  }

  lemma Widen(n: nat, lo: nat, hi: nat, sum: nat, d: nat)
    requires n * lo <= sum <= n * hi
    ensures (n + 1) * Min(lo, d) <= sum + d <= (n + 1) * Max(hi, d)
  {
    MulMonotone(Min(lo, d), lo, n);
    MulMonotone(hi, Max(hi, d), n);
    assert n * Min(lo, d) == Min(lo, d) * n && n * lo == lo * n;
    assert n * Max(hi, d) == Max(hi, d) * n && n * hi == hi * n;
    MulStep(n, Min(lo, d));
    MulStep(n, Max(hi, d));
  }

  lemma QuotientBetween(n: nat, lo: nat, hi: nat, sum: nat)
    requires n > 0 && n * lo <= sum <= n * hi
    ensures lo <= sum / n <= hi
  {
    var q := sum / n;
    assert sum == q * n + sum % n;
    assert n * lo == lo * n && n * hi == hi * n;
    MulStep(q, n);
    MulStep(hi, n);
    if q < lo {
      MulMonotone(q + 1, lo, n);
      assert false;
    }
    if q > hi {
      MulMonotone(hi + 1, q, n);
      assert false;
    }
  }

  // Completions before the 32-bit count wraps and while the sum is a duration.
  ghost predicate InRange(m: Metrics) {
    0 < Count(m.times) < U32_MODULUS && Sum(m.times) <= DURATION_MAX
  }

  lemma InRangeCount(m: Metrics)
    requires InRange(m)
    ensures Count(m.times) % U32_MODULUS == Count(m.times)
  {
  }

  // A completion in range recalculates the average over everything stored.
  lemma AverageAfter(m: Metrics, command: string, duration: nat, success: bool)
    requires var m' := AfterCompletion(m, command, duration, success);
             InRange(m') && m'.completed + m'.failed == Count(m'.times)
    ensures var m' := AfterCompletion(m, command, duration, success);
            m'.average == Sum(m'.times) / Count(m'.times)
  {
    var t := Tallied(m, command, duration, success);
    CompletionIsTally(m, command, duration, success);
    InRangeCount(t);
    assert t.completed + t.failed == Count(t.times);
    assert !Panics(t);
  }

  lemma {:induction false} AverageAlongRun(events: seq<Event>)
    ensures InRange(Run(events)) ==> Run(events).average == Sum(Run(events).times) / Count(Run(events).times)
  {
    if events != [] && InRange(Run(events)) {
      var before, e := events[..|events| - 1], events[|events| - 1];
      match e
      case Started(_) =>
        AverageAlongRun(before);
        assert Run(events) == AfterStart(Run(before));
      case Completed(_, command, duration, success) =>
        CountsAlongRun(events);
        AverageAfter(Run(before), command, duration, success);
    }
  }

  // How many completions succeeded, how many failed, and how long one command took each time.
  function Outcomes(events: seq<Event>, success: bool): nat {
    if events == [] then 0
    else
      var e := events[|events| - 1];
      Outcomes(events[..|events| - 1], success) + if e.Completed? && e.success == success then 1 else 0
  }

  function Durations(events: seq<Event>, command: string): seq<nat> {
    if events == [] then []
    else
      var e := events[|events| - 1];
      Durations(events[..|events| - 1], command)
      + if e.Completed? && e.command == command then [e.duration] else []
  }

  ghost predicate IsStored(m: Metrics, d: nat) {
    exists c, i :: c in m.times && 0 <= i < |m.times[c]| && m.times[c][i] == d
  }

  // Each extreme is some stored duration, or what it was before there was one; only durations as long as
  // the initial minimum leave that in place.
  ghost predicate ExtremesAttained(m: Metrics) {
    && (IsStored(m, m.longest) || (m.longest == 0 && m.times == map[]))
    && (IsStored(m, m.shortest) || m.shortest == 18_446_744_073_709_551_615 * 1_000_000_000)
  }

  lemma StoredStays(m: Metrics, command: string, duration: nat, success: bool, d: nat)
    ensures var t := Tallied(m, command, duration, success);
            IsStored(t, duration) && (IsStored(m, d) ==> IsStored(t, d))
  {
    var t := Tallied(m, command, duration, success);
    var n := |t.times[command]| - 1;
    assert t.times[command][n] == duration;
    if IsStored(m, d) {
      var c, i :| c in m.times && 0 <= i < |m.times[c]| && m.times[c][i] == d;
      assert t.times[c][i] == d;
    }
  }

  lemma TallyKeepsExtremes(m: Metrics, command: string, duration: nat, success: bool)
    requires ExtremesAttained(m)
    ensures ExtremesAttained(Tallied(m, command, duration, success))
  {
    StoredStays(m, command, duration, success, m.longest);
    StoredStays(m, command, duration, success, m.shortest);
  }

  lemma {:induction false} DurationsAreStored(events: seq<Event>, command: string)
    ensures var times := Run(events).times;
            Durations(events, command) == if command in times then times[command] else []
  {
    if events != [] {
      var m, e := Run(events[..|events| - 1]), events[|events| - 1];
      DurationsAreStored(events[..|events| - 1], command);
      if e.Completed? {
        CompletionIsTally(m, e.command, e.duration, e.success);
        assert Run(events).times == Recorded(m.times, e.command, e.duration);
      }
    }
  }

  lemma {:induction false} ExtremesAlongRun(events: seq<Event>)
    ensures ExtremesAttained(Run(events))
  {
    if events != [] {
      var m, e := Run(events[..|events| - 1]), events[|events| - 1];
      ExtremesAlongRun(events[..|events| - 1]);
      if e.Completed? {
        TallyKeepsExtremes(m, e.command, e.duration, e.success);
        SameExtremes(m, e.command, e.duration, e.success);
      }
    }
  }

  lemma SameExtremes(m: Metrics, command: string, duration: nat, success: bool)
    requires ExtremesAttained(Tallied(m, command, duration, success))
    ensures ExtremesAttained(AfterCompletion(m, command, duration, success))
  {
    var m', t := AfterCompletion(m, command, duration, success), Tallied(m, command, duration, success);
    CompletionIsTally(m, command, duration, success);
    assert m'.times == t.times && m'.longest == t.longest && m'.shortest == t.shortest;
    assert forall d :: IsStored(t, d) ==> IsStored(m', d);
  }

  lemma {:induction false} OutcomesAreCounted(events: seq<Event>)
    ensures var m := Run(events);
            m.completed == Outcomes(events, true) && m.failed == Outcomes(events, false) && m.total == Starts(events)
  {
    if events != [] {
      var m, e := Run(events[..|events| - 1]), events[|events| - 1];
      OutcomesAreCounted(events[..|events| - 1]);
      if e.Completed? {
        CompletionIsTally(m, e.command, e.duration, e.success);
      }
    }
  }

  /** Over every run: the counters count the starts that have run and the completions that succeeded and
      failed; each command's durations are stored in order; and each extreme is some stored duration once
      there is one, unless all of them are as long as the initial minimum. */
  lemma CountersOverRun(events: seq<Event>)
    ensures var m := Run(events);
            && m.completed == Outcomes(events, true) && m.failed == Outcomes(events, false)
            && m.total == Starts(events)
            && (forall c :: Durations(events, c) == if c in m.times then m.times[c] else [])
            && ExtremesAttained(m)
  {
    forall c ensures Durations(events, c) == if c in Run(events).times then Run(events).times[c] else [] {
      DurationsAreStored(events, c);
    }
    OutcomesAreCounted(events);
    ExtremesAlongRun(events);
  }

  /** Over every run: completed plus failed is the number of stored durations, the extremes bound
      them all, and after at least one and fewer than 2^32 completions whose sum is a duration the
      average lies between the extremes and is their sum divided by their number. */
  lemma {:induction false} MetricsOverRun(events: seq<Event>)
    ensures var m := Run(events);
            && m.completed + m.failed == Count(m.times)
            && Bounded(m)
            && (InRange(m) ==> m.average == Sum(m.times) / Count(m.times) && m.shortest <= m.average <= m.longest)
  {
    var m := Run(events);
    CountsAlongRun(events);
    AverageAlongRun(events);
    if InRange(m) {
      QuotientBetween(Count(m.times), m.shortest, m.longest, Sum(m.times));
    }
  }

  // The pending counter alone: up with each start, down with each completion unless it is zero.
  function Pending(events: seq<Event>): nat {
    if events == [] then 0
    else
      var before := Pending(events[..|events| - 1]);
      if events[|events| - 1].Started? then before + 1 else if before == 0 then 0 else before - 1
  }

  // Completions that found no pending task and so did not decrement.
  function Saturations(events: seq<Event>): nat {
    if events == [] then 0
    else
      Saturations(events[..|events| - 1])
      + if events[|events| - 1].Completed? && Pending(events[..|events| - 1]) == 0 then 1 else 0
  }

  lemma {:induction false} PendingAlongRun(events: seq<Event>)
    ensures var m := Run(events);
            m.pending == Pending(events) && m.pending + m.completed + m.failed == m.total + Saturations(events)
  {
    if events != [] {
      PendingAlongRun(events[..|events| - 1]);
    }
  }

  // How many of the events are counted starts, and how many are completions.
  function Starts(events: seq<Event>): nat {
    if events == [] then 0 else Starts(events[..|events| - 1]) + if events[|events| - 1].Started? then 1 else 0
  }

  function Completions(events: seq<Event>): nat {
    if events == [] then 0
    else Completions(events[..|events| - 1]) + if events[|events| - 1].Completed? then 1 else 0
  }

  ghost predicate NotAheadAt(events: seq<Event>, n: nat)
    requires n <= |events|
  {
    Completions(events[..n]) <= Starts(events[..n])
  }

  // At no moment have more commands completed than been counted.
  ghost predicate NeverAhead(events: seq<Event>) {
    forall n | 0 <= n <= |events| :: NotAheadAt(events, n)
  }

  lemma SamePrefix(events: seq<Event>, m: nat, n: nat)
    requires n <= m <= |events|
    ensures NotAheadAt(events[..m], n) <==> NotAheadAt(events, n)
  {
    assert events[..m][..n] == events[..n];
  }

  lemma NeverAheadPrefix(events: seq<Event>)
    requires events != []
    ensures NeverAhead(events) <==> NeverAhead(events[..|events| - 1]) && Completions(events) <= Starts(events)
  {
    var m := |events| - 1;
    assert events[..|events|] == events;
    assert NotAheadAt(events, |events|) <==> Completions(events) <= Starts(events);
    forall n | 0 <= n <= m ensures NotAheadAt(events[..m], n) <==> NotAheadAt(events, n) {
      SamePrefix(events, m, n);
    }
  }

  lemma {:induction false} SaturationsIff(events: seq<Event>)
    ensures Saturations(events) == 0 <==> NeverAhead(events)
    ensures Pending(events) + Completions(events) == Starts(events) + Saturations(events)
  {
    if events == [] {
      assert events[..0] == [];
    } else {
      SaturationsIff(events[..|events| - 1]);
      NeverAheadPrefix(events);
    }
  }

  /** In every interleaving the pending count is at least the counted commands less the finished ones,
      and it is exactly that if and only if at no moment more commands had completed than been counted. */
  lemma {:induction false} PendingOverRun(events: seq<Event>)
    ensures var m := Run(events);
            && m.pending >= m.total - m.completed - m.failed
            && (m.pending == m.total - m.completed - m.failed <==> NeverAhead(events))
  {
    PendingAlongRun(events);
    SaturationsIff(events);
  }

  // A command that completes before its start is counted stays pending for good.
  lemma EarlyCompletion(command: string, duration: nat)
    ensures var m := Run([Completed(0, command, duration, true), Started(0)]);
            m.total == 1 && m.completed == 1 && m.failed == 0 && m.pending == 1
  {
    var events := [Completed(0, command, duration, true), Started(0)];
    var first := Completed(0, command, duration, true);
    assert events[..1] == [first] && [first][..0] == [];
    assert Run([first]) == AfterCompletion(INITIAL, command, duration, true);
    CompletionIsTally(INITIAL, command, duration, true);
    assert Run(events) == AfterStart(Run([first]));
  }

  // Commands whose start has been counted, and those that have completed.
  function Begun(events: seq<Event>): set<nat> {
    if events == [] then {}
    else
      var e := events[|events| - 1];
      Begun(events[..|events| - 1]) + if e.Started? then {e.task} else {}
  }

  function Ended(events: seq<Event>): set<nat> {
    if events == [] then {}
    else
      var e := events[|events| - 1];
      Ended(events[..|events| - 1]) + if e.Completed? then {e.task} else {}
  }

  // Each task is counted once and completes once, after it was counted.
  predicate CountedFirst(events: seq<Event>) {
    events == []
    || (var before, e := events[..|events| - 1], events[|events| - 1];
        && CountedFirst(before)
        && if e.Started? then e.task !in Begun(before) else e.task in Begun(before) && e.task !in Ended(before))
  }

  lemma OpenOneMore(begun: set<nat>, ended: set<nat>, t: nat)
    requires ended <= begun && t !in begun
    ensures |(begun + {t}) - ended| == |begun - ended| + 1
  {
    assert (begun + {t}) - ended == (begun - ended) + {t};
  }

  lemma OpenOneLess(begun: set<nat>, ended: set<nat>, t: nat)
    requires ended <= begun && t in begun && t !in ended
    ensures |begun - (ended + {t})| == |begun - ended| - 1
  {
    assert begun - (ended + {t}) == (begun - ended) - {t};
  }

  // What the last event does to the two sets.
  lemma LastEvent(events: seq<Event>)
    requires events != [] && CountedFirst(events)
    ensures var before, e := events[..|events| - 1], events[|events| - 1];
            && CountedFirst(before)
            && (e.Started? ==> Begun(events) == Begun(before) + {e.task} && Ended(events) == Ended(before)
                               && e.task !in Begun(before))
            && (e.Completed? ==> Begun(events) == Begun(before) && Ended(events) == Ended(before) + {e.task}
                                 && e.task in Begun(before) && e.task !in Ended(before))
  {
  }

  lemma {:induction false} EndedAfterBegun(events: seq<Event>)
    requires CountedFirst(events)
    ensures Ended(events) <= Begun(events)
  {
    if events != [] {
      LastEvent(events);
      EndedAfterBegun(events[..|events| - 1]);
    }
  }

  lemma {:induction false} OpenTasks(events: seq<Event>)
    requires CountedFirst(events)
    ensures Pending(events) == |Begun(events) - Ended(events)|
    ensures Saturations(events) == 0
  {
    if events != [] {
      var before, e := events[..|events| - 1], events[|events| - 1];
      LastEvent(events);
      OpenTasks(before);
      EndedAfterBegun(before);
      if e.Started? {
        OpenOneMore(Begun(before), Ended(before), e.task);
      } else {
        OpenOneLess(Begun(before), Ended(before), e.task);
      }
    }
  }

  /** When every increment runs before its task completes, no decrement is lost: pending is exactly
      the number of tasks that have begun and not ended. */
  lemma PendingIsExact(events: seq<Event>)
    requires CountedFirst(events)
    ensures var m := Run(events);
            && m.pending == |Begun(events) - Ended(events)|
            && m.pending == m.total - m.completed - m.failed
  {
    OpenTasks(events);
    PendingAlongRun(events);
  }
}
