/**
 The lock-free allocation tracker: two shared `usize` counters updated by
 fetch-add, fetch-sub and a compare-and-swap retry loop.

 Threads are interleaved one atomic access at a time, with sequentially consistent
 accesses. A thread that is in no phase is idle.
 */
module MemoryTracker {
  import opened Sums

  type Thread = nat
  type Block = nat

  // Where a thread stands inside `alloc`, `dealloc` or `reset`.
  datatype Phase =
    | Reserved(block: Block, size: nat)                             // System.alloc returned
    | Counted(block: Block, size: nat, current: nat)                // fetch_add done
    | Racing(block: Block, size: nat, current: nat, seen: nat)      // at the test of the CAS loop
    | Releasing(block: Block, size: nat)                            // System.dealloc returned
    | Resetting                                                     // first store done
  {
    predicate InLoop() {
      Counted? || Racing?
    }
  }

  /** `usage` and `peak` are the tracker's fields `allocated` and `peak_usage`. The rest is what the program around it
      does: `held` are the blocks it owns, `counted` the blocks added to the counter and not
      yet subtracted, `base` the size of `counted` when the counter was last zeroed. */
  datatype State = State(
    usage: nat,
    peak: nat,
    threads: map<Thread, Phase>,
    held: map<Block, nat>,
    counted: map<Block, nat>,
    base: nat)
  {
    predicate Quiescent() {
      threads == map[]
    }
  }

  const INIT := State(0, 0, map[], map[], map[], 0)

  datatype Action =
    | SystemAlloc(t: Thread, block: Block, size: nat)
    | FetchAdd(t: Thread)
    | LoadPeak(t: Thread)
    | CasSucceeds(t: Thread)
    | CasFails(t: Thread)          // another value is found, or a spurious failure
    | LeaveLoop(t: Thread)
    | SystemDealloc(t: Thread, block: Block)
    | FetchSub(t: Thread)
    | ResetAllocated(t: Thread)
    | ResetPeak(t: Thread)
  {
    predicate IsReset() {
      ResetAllocated? || ResetPeak?
    }
  }

  ghost predicate Fresh(s: State, b: Block) {
    && b !in s.held
    && b !in s.counted
    && forall u :: !Holds(s, u, b)
  }

  ghost predicate Enabled(s: State, a: Action) {
    var p := if a.t in s.threads then s.threads[a.t] else Resetting;
    var idle := a.t !in s.threads;
    match a
    case SystemAlloc(_, b, size) => idle && Fresh(s, b) && size < WORD
    case FetchAdd(_) => p.Reserved?
    case LoadPeak(_) => p.Counted?
    case CasSucceeds(_) => p.Racing? && p.current > p.seen && s.peak == p.seen
    case CasFails(_) => p.Racing? && p.current > p.seen
    case LeaveLoop(_) => p.Racing? && p.current <= p.seen
    case SystemDealloc(_, b) => idle && b in s.held
    case FetchSub(_) => p.Releasing?
    case ResetAllocated(_) => idle
    case ResetPeak(_) => !idle && p.Resetting?
  }

  ghost function Apply(s: State, a: Action): State
    requires Enabled(s, a)
  {
    match a
    case SystemAlloc(t, b, size) => s.(threads := s.threads[t := Reserved(b, size)])
    case FetchAdd(t) =>
      var p := s.threads[t];
      var current := Wrap(s.usage + p.size);
      s.(usage := current,
         counted := s.counted[p.block := p.size],
         threads := s.threads[t := Counted(p.block, p.size, current)])
    case LoadPeak(t) =>
      var p := s.threads[t];
      s.(threads := s.threads[t := Racing(p.block, p.size, p.current, s.peak)])
    case CasSucceeds(t) =>
      var p := s.threads[t];
      s.(peak := p.current, threads := s.threads - {t}, held := s.held[p.block := p.size])
    case CasFails(t) => s.(threads := s.threads[t := s.threads[t].(seen := s.peak)])
    case LeaveLoop(t) =>
      var p := s.threads[t];
      s.(threads := s.threads - {t}, held := s.held[p.block := p.size])
    case SystemDealloc(t, b) =>
      s.(threads := s.threads[t := Releasing(b, s.held[b])], held := s.held - {b})
    case FetchSub(t) =>
      var p := s.threads[t];
      s.(usage := Wrap(s.usage - p.size), counted := s.counted - {p.block}, threads := s.threads - {t})
    case ResetAllocated(t) =>
      s.(usage := 0, base := Bytes(s.counted), threads := s.threads[t := Resetting])
    case ResetPeak(t) => s.(peak := 0, threads := s.threads - {t})
  }

  function Size(n: nat): nat { n }

  ghost function Bytes(blocks: map<Block, nat>): nat {
    SumBy(blocks, Size)
  }

  // Any interleaving of any number of threads: tr[i] takes action acts[i] to tr[i + 1].
  ghost predicate Steps(tr: seq<State>, acts: seq<Action>) {
    && |tr| == |acts| + 1
    && forall i | 0 <= i < |acts| :: Enabled(tr[i], acts[i]) && tr[i + 1] == Apply(tr[i], acts[i])
  }

  ghost predicate IsRun(tr: seq<State>, acts: seq<Action>) {
    Steps(tr, acts) && tr[0] == INIT
  }

  ghost predicate NoReset(acts: seq<Action>) {
    forall i | 0 <= i < |acts| :: !acts[i].IsReset()
  }

  // --- Conservation: what the counter holds ---

  ghost predicate Holds(s: State, t: Thread, b: Block) {
    t in s.threads && !s.threads[t].Resetting? && s.threads[t].block == b
  }

  // A block in the hands of a thread is not held by the program, and is counted unless its
  // fetch_add is still to come.
  ghost predicate ThreadOk(s: State, p: Phase)
    requires !p.Resetting?
  {
    && p.block !in s.held
    && if p.Reserved? then p.block !in s.counted
       else p.block in s.counted && s.counted[p.block] == p.size
  }

  ghost predicate OwnersOk(s: State) {
    && (forall b | b in s.held :: b in s.counted && s.counted[b] == s.held[b])
    && (forall t | t in s.threads && !s.threads[t].Resetting? :: ThreadOk(s, s.threads[t]))
    && (forall t, u, b | Holds(s, t, b) && Holds(s, u, b) :: t == u)
  }

  ghost predicate Covered(s: State) {
    forall b | b in s.counted && b !in s.held :: exists t :: Holds(s, t, b)
  }

  ghost predicate Accounted(s: State) {
    s.usage == Wrap(Bytes(s.counted) - s.base)
  }

  ghost predicate BlocksOk(s: State) {
    OwnersOk(s) && Covered(s) && Accounted(s)
  }

  lemma BlocksStep(s: State, a: Action)
    requires BlocksOk(s) && Enabled(s, a)
    ensures BlocksOk(Apply(s, a))
  {
    OwnersStep(s, a);
    CoveredStep(s, a);
    AccountedStep(s, a);
  }

  lemma OwnersStep(s: State, a: Action)
    requires OwnersOk(s) && Enabled(s, a)
    ensures OwnersOk(Apply(s, a))
  {
    var s' := Apply(s, a);
    forall t, u, b | Holds(s', t, b) && Holds(s', u, b) ensures t == u {
      assert t != a.t ==> Holds(s, t, b) && ThreadOk(s, s.threads[t]);
      assert u != a.t ==> Holds(s, u, b) && ThreadOk(s, s.threads[u]);
      assert !a.SystemAlloc? && !a.SystemDealloc? && (t == a.t || u == a.t) ==> Holds(s, a.t, b);
    }
    forall t | t in s'.threads && !s'.threads[t].Resetting? ensures ThreadOk(s', s'.threads[t]) {
      if t != a.t {
        assert Holds(s, t, s.threads[t].block) && ThreadOk(s, s.threads[t]);
      }
      if a.t in s.threads && !s.threads[a.t].Resetting? {
        assert Holds(s, a.t, s.threads[a.t].block) && ThreadOk(s, s.threads[a.t]);
      }
    }
  }

  lemma CoveredStep(s: State, a: Action)
    requires Covered(s) && Enabled(s, a)
    ensures Covered(Apply(s, a))
  {
    var s' := Apply(s, a);
    forall b | b in s'.counted && b !in s'.held ensures exists t :: Holds(s', t, b) {
      if b in s.counted && b !in s.held {
        var u :| Holds(s, u, b);
        assert Holds(s', u, b);
      } else {
        assert Holds(s', a.t, b);
      }
    }
  }

  lemma AccountedStep(s: State, a: Action)
    requires OwnersOk(s) && Accounted(s) && Enabled(s, a)
    ensures Accounted(Apply(s, a))
  {
    if a.FetchAdd? {
      var p := s.threads[a.t];
      assert ThreadOk(s, p);
      SumByInsert(s.counted, p.block, p.size, Size);
      WrapAdd(Bytes(s.counted) - s.base, p.size);
    } else if a.FetchSub? {
      var p := s.threads[a.t];
      assert ThreadOk(s, p);
      SumByRemove(s.counted, p.block, Size);
      var size: int := p.size;
      WrapAdd(Bytes(s.counted) - s.base, -size);
    }
  }

  lemma {:induction false} BlocksAlongRun(tr: seq<State>, acts: seq<Action>, i: nat)
    requires IsRun(tr, acts) && i <= |acts|
    ensures BlocksOk(tr[i])
  {
    if i > 0 {
      BlocksAlongRun(tr, acts, i - 1);
      BlocksStep(tr[i - 1], acts[i - 1]);
    }
  }

  /** In every state of every run, resets included, the counter is the size of the blocks added
      and not yet subtracted, less what was outstanding when it was last zeroed, modulo the
      word. It reports that size exactly when the zeroing left nothing (a multiple of the
      word) behind. At rest the blocks counted are the blocks the program holds. */
  lemma CounterAccounts(tr: seq<State>, acts: seq<Action>, i: nat)
    requires IsRun(tr, acts) && i <= |acts|
    ensures tr[i].usage == Wrap(Bytes(tr[i].counted) - tr[i].base)
    ensures Bytes(tr[i].counted) < WORD ==>
              (tr[i].usage == Bytes(tr[i].counted) <==> Wrap(tr[i].base) == 0)
    ensures tr[i].Quiescent() ==> tr[i].counted == tr[i].held
  {
    BlocksAlongRun(tr, acts, i);
    var n, b := Bytes(tr[i].counted), tr[i].base;
    WrapShift(b % WORD, b / WORD);
    WrapShift(n - b % WORD, -(b / WORD));
    assert n - b == n - b % WORD + (-(b / WORD)) * WORD;
    if n < WORD {
      var d := n - b % WORD;
      if d < 0 {
        WrapShift(d, 1);
      }
    }
  }

  lemma {:induction false} NoResetBase(tr: seq<State>, acts: seq<Action>, i: nat)
    requires IsRun(tr, acts) && NoReset(acts) && i <= |acts|
    ensures tr[i].base == 0
  {
    if i > 0 {
      NoResetBase(tr, acts, i - 1);
      assert !acts[i - 1].IsReset();
    }
  }

  /** Without a reset a fetch_sub never takes the counter below zero: the block it subtracts is
      still part of the total. */
  lemma NeverUnderflows(tr: seq<State>, acts: seq<Action>, i: nat)
    requires IsRun(tr, acts) && NoReset(acts) && i < |acts|
    requires acts[i].FetchSub? && Bytes(tr[i].counted) < WORD
    ensures tr[i].usage == Bytes(tr[i].counted)
    ensures tr[i].threads[acts[i].t].size <= tr[i].usage
    ensures tr[i + 1].usage == tr[i].usage - tr[i].threads[acts[i].t].size
  {
    BlocksAlongRun(tr, acts, i);
    NoResetBase(tr, acts, i);
    var p := tr[i].threads[acts[i].t];
    assert ThreadOk(tr[i], p);
    SumByRemove(tr[i].counted, p.block, Size);
  }

  // --- The peak, resets included ---

  // What a thread still has to publish: it has computed a `current`, and has not read a peak that
  // makes publishing it unnecessary.
  function Owed(p: Phase): nat {
    if p.Counted? || (p.Racing? && p.current > p.seen) then p.current else 0
  }

  // The most any thread owes.
  ghost function LargestOwed(threads: map<Thread, Phase>): (r: nat)
    ensures forall t | t in threads :: Owed(threads[t]) <= r
    ensures r == 0 || exists t :: t in threads && Owed(threads[t]) == r
    decreases |threads|
  {
    if threads == map[] then 0
    else
      var t :| t in threads;
      assert threads == (threads - {t})[t := threads[t]];
      Max(Owed(threads[t]), LargestOwed(threads - {t}))
  }

  // The largest `current` computed in the first n steps since the peak was last reset, from the
  // fetch_adds alone.
  ghost function Highest(tr: seq<State>, acts: seq<Action>, n: nat): nat
    requires |tr| == |acts| + 1 && n <= |acts|
  {
    if n == 0 || acts[n - 1].ResetPeak? then 0
    else
      var before := Highest(tr, acts, n - 1);
      if acts[n - 1].FetchAdd? then Max(before, tr[n].usage) else before
  }

  // What was owed when the peak was last reset.
  ghost function OwedAtReset(tr: seq<State>, acts: seq<Action>, n: nat): nat
    requires |tr| == |acts| + 1 && n <= |acts|
  {
    if n == 0 then 0
    else if acts[n - 1].ResetPeak? then LargestOwed(tr[n - 1].threads)
    else OwedAtReset(tr, acts, n - 1)
  }

  // Nothing exceeds `high`, and it is either published or still owed.
  ghost predicate PeakOk(s: State, high: nat) {
    && s.peak <= high
    && (forall t | t in s.threads :: Owed(s.threads[t]) <= high)
    && (s.peak == high || exists t :: t in s.threads && Owed(s.threads[t]) == high)
  }

  lemma PeakStep(s: State, a: Action, high: nat)
    requires Enabled(s, a) && !a.ResetPeak? && PeakOk(s, high)
    ensures PeakOk(Apply(s, a), if a.FetchAdd? then Max(high, Apply(s, a).usage) else high)
    ensures s.peak <= Apply(s, a).peak
  {
    var s' := Apply(s, a);
    if a.FetchAdd? && s'.usage > high {
      assert Owed(s'.threads[a.t]) == s'.usage;
    } else if s.peak != high {
      var t :| t in s.threads && Owed(s.threads[t]) == high;
      if t != a.t || s'.peak != high {
        assert t in s'.threads && Owed(s'.threads[t]) == high;
      }
    }
  }

  // A reset of the peak loses what was published, not what is owed.
  lemma PeakReset(s: State, a: Action)
    requires Enabled(s, a) && a.ResetPeak?
    ensures PeakOk(Apply(s, a), LargestOwed(s.threads))
  {
    var s', high := Apply(s, a), LargestOwed(s.threads);
    if high != 0 {
      var t :| t in s.threads && Owed(s.threads[t]) == high;
      assert t in s'.threads && Owed(s'.threads[t]) == high;
    }
  }

  lemma {:induction false} PeakAlongRun(tr: seq<State>, acts: seq<Action>, n: nat)
    requires IsRun(tr, acts) && n <= |acts|
    ensures PeakOk(tr[n], Max(Highest(tr, acts, n), OwedAtReset(tr, acts, n)))
  {
    if n > 0 {
      PeakAlongRun(tr, acts, n - 1);
      if acts[n - 1].ResetPeak? {
        PeakReset(tr[n - 1], acts[n - 1]);
      } else {
        PeakStep(tr[n - 1], acts[n - 1], Max(Highest(tr, acts, n - 1), OwedAtReset(tr, acts, n - 1)));
      }
    }
  }

  /** At every moment of every interleaving, resets included, the larger of the peak and the most any
      thread still owes is the larger of two numbers: the largest `current` computed since the last
      reset of the peak, and what was owed at that reset. */
  lemma {:induction false} PeakWithInFlight(tr: seq<State>, acts: seq<Action>, n: nat)
    requires IsRun(tr, acts) && n <= |acts|
    ensures Max(tr[n].peak, LargestOwed(tr[n].threads)) == Max(Highest(tr, acts, n), OwedAtReset(tr, acts, n))
  {
    PeakAlongRun(tr, acts, n);
  }

  /** Whenever no thread is in flight, the peak is the largest `current` computed since the last reset
      of the peak if and only if no thread owed more than that at the reset. */
  lemma {:induction false} PeakAtRestIff(tr: seq<State>, acts: seq<Action>, n: nat)
    requires IsRun(tr, acts) && n <= |acts| && tr[n].Quiescent()
    ensures tr[n].peak == Highest(tr, acts, n) <==> OwedAtReset(tr, acts, n) <= Highest(tr, acts, n)
  {
    PeakAlongRun(tr, acts, n);
  }

  // Every reset of the peak in the first n steps finds no thread in the loop.
  ghost predicate CalmResets(tr: seq<State>, acts: seq<Action>, n: nat)
    requires |tr| == |acts| + 1 && n <= |acts|
  {
    forall k, t | 0 <= k < n && acts[k].ResetPeak? && t in tr[k].threads :: !tr[k].threads[t].InLoop()
  }

  /** Resets that find no thread in the loop never cost a peak. */
  lemma {:induction false} CalmResetsAreSafe(tr: seq<State>, acts: seq<Action>, n: nat)
    requires IsRun(tr, acts) && n <= |acts| && CalmResets(tr, acts, n)
    ensures OwedAtReset(tr, acts, n) == 0
    ensures tr[n].Quiescent() ==> tr[n].peak == Highest(tr, acts, n)
  {
    if n > 0 {
      CalmResetsAreSafe(tr, acts, n - 1);
      if tr[n].Quiescent() {
        PeakAtRestIff(tr, acts, n);
      }
    } else {
      PeakAtRestIff(tr, acts, 0);
    }
  }

  // Between resets of the peak it never decreases.
  lemma {:induction false} PeakIsMonotone(tr: seq<State>, acts: seq<Action>, i: nat, j: nat)
    requires IsRun(tr, acts) && i <= j <= |acts|
    requires forall k | i <= k < j :: !acts[k].ResetPeak?
    ensures tr[i].peak <= tr[j].peak
    decreases j
  {
    if i < j {
      PeakIsMonotone(tr, acts, i, j - 1);
      PeakAlongRun(tr, acts, j - 1);
      PeakStep(tr[j - 1], acts[j - 1], Max(Highest(tr, acts, j - 1), OwedAtReset(tr, acts, j - 1)));
    }
  }

  // --- The peak as a measure of growth ---

  // How much more is outstanding than when the counter was last zeroed.
  ghost function Growth(s: State): int {
    Bytes(s.counted) - s.base
  }

  // The largest growth an allocation has reached since the peak was last reset.
  ghost function LargestGrowth(tr: seq<State>, acts: seq<Action>, n: nat): int
    requires |tr| == |acts| + 1 && n <= |acts|
  {
    if n == 0 || acts[n - 1].ResetPeak? then 0
    else
      var before := LargestGrowth(tr, acts, n - 1);
      if acts[n - 1].FetchAdd? then Max(before, Growth(tr[n])) else before
  }

  // Since the peak was last reset, every allocation left at least as much outstanding as there was
  // when the counter was zeroed.
  ghost predicate NeverBelowBase(tr: seq<State>, acts: seq<Action>, n: nat)
    requires |tr| == |acts| + 1 && n <= |acts|
  {
    || n == 0
    || acts[n - 1].ResetPeak?
    || (NeverBelowBase(tr, acts, n - 1) && (acts[n - 1].FetchAdd? ==> Growth(tr[n]) >= 0))
  }

  // Outstanding bytes never fill half the address space.
  ghost predicate HalfFull(tr: seq<State>) {
    forall i | 0 <= i < |tr| :: 2 * Bytes(tr[i].counted) < WORD
  }

  lemma WrapNegative(x: int)
    requires x < WORD && x + WORD > 0
    ensures x < 0 ==> Wrap(x) == x + WORD
  {
    if x < 0 {
      WrapShift(x, 1);
    }
  }

  lemma {:induction false} BaseHalfFull(tr: seq<State>, acts: seq<Action>, i: nat)
    requires IsRun(tr, acts) && HalfFull(tr) && i <= |acts|
    ensures 2 * tr[i].base < WORD
  {
    if i > 0 {
      BaseHalfFull(tr, acts, i - 1);
      assert 2 * Bytes(tr[i - 1].counted) < WORD;
    }
  }

  // What the counter says about growth in a state of a run.
  lemma UsageIsGrowth(tr: seq<State>, acts: seq<Action>, i: nat)
    requires IsRun(tr, acts) && HalfFull(tr) && i <= |acts|
    ensures 2 * Growth(tr[i]) < WORD
    ensures if Growth(tr[i]) >= 0 then tr[i].usage == Growth(tr[i]) else 2 * tr[i].usage > WORD
  {
    BlocksAlongRun(tr, acts, i);
    BaseHalfFull(tr, acts, i);
    assert 2 * Bytes(tr[i].counted) < WORD;
    WrapNegative(Growth(tr[i]));
  }

  lemma {:induction false} GrowthAlongRun(tr: seq<State>, acts: seq<Action>, n: nat)
    requires IsRun(tr, acts) && HalfFull(tr) && n <= |acts|
    ensures 2 * LargestGrowth(tr, acts, n) < WORD
    ensures if NeverBelowBase(tr, acts, n) then Highest(tr, acts, n) == LargestGrowth(tr, acts, n)
            else 2 * Highest(tr, acts, n) > WORD
  {
    if n > 0 {
      GrowthAlongRun(tr, acts, n - 1);
      UsageIsGrowth(tr, acts, n);
    }
  }

  /** When the counter measures growth: the largest `current` computed since the last reset of the
      peak is the largest real growth, if and only if no allocation since left less outstanding than
      there was when the counter was zeroed. A block that was live at a reset and is freed later breaks
      this only when it takes the total below that base. */
  lemma {:induction false} HighestIsGrowthIff(tr: seq<State>, acts: seq<Action>, n: nat)
    requires IsRun(tr, acts) && HalfFull(tr) && n <= |acts|
    ensures Highest(tr, acts, n) == LargestGrowth(tr, acts, n) <==> NeverBelowBase(tr, acts, n)
  {
    GrowthAlongRun(tr, acts, n);
  }

  /** What a benchmark reads: at rest, when no thread owed anything at the last reset, the peak is the
      largest real growth since then if and only if no allocation left the total below the base. */
  lemma {:induction false} PeakIsGrowthIff(tr: seq<State>, acts: seq<Action>, n: nat)
    requires IsRun(tr, acts) && HalfFull(tr) && n <= |acts| && tr[n].Quiescent()
    requires OwedAtReset(tr, acts, n) == 0
    ensures tr[n].peak == LargestGrowth(tr, acts, n) <==> NeverBelowBase(tr, acts, n)
  {
    PeakAtRestIff(tr, acts, n);
    HighestIsGrowthIff(tr, acts, n);
  }

  // --- Without resets ---

  // The largest value the counter ever had, read off the states alone.
  ghost predicate IsHighWater(tr: seq<State>, high: nat) {
    && (forall i | 0 <= i < |tr| :: tr[i].usage <= high)
    && (exists i :: 0 <= i < |tr| && tr[i].usage == high)
  }

  lemma {:induction false} HighestBounds(tr: seq<State>, acts: seq<Action>, i: nat, n: nat)
    requires IsRun(tr, acts) && NoReset(acts) && i <= n <= |acts|
    requires forall j | 0 <= j < |tr| :: Bytes(tr[j].counted) < WORD
    ensures tr[i].usage <= Highest(tr, acts, n)
    decreases n
  {
    if n > 0 {
      assert !acts[n - 1].IsReset();
      HighestBounds(tr, acts, if i < n then i else n - 1, n - 1);
      if i == n && acts[n - 1].FetchSub? {
        NeverUnderflows(tr, acts, n - 1);
      }
    }
  }

  lemma {:induction false} HighestAttained(tr: seq<State>, acts: seq<Action>, n: nat) returns (i: nat)
    requires IsRun(tr, acts) && NoReset(acts) && n <= |acts|
    ensures i <= n && tr[i].usage == Highest(tr, acts, n)
  {
    i := 0;
    if n > 0 {
      assert !acts[n - 1].IsReset();
      i := HighestAttained(tr, acts, n - 1);
      if acts[n - 1].FetchAdd? && Highest(tr, acts, n) == tr[n].usage {
        i := n;
      }
    }
  }

  lemma {:induction false} NothingOwed(tr: seq<State>, acts: seq<Action>, n: nat)
    requires IsRun(tr, acts) && NoReset(acts) && n <= |acts|
    ensures OwedAtReset(tr, acts, n) == 0
  {
    if n > 0 {
      assert !acts[n - 1].IsReset();
      NothingOwed(tr, acts, n - 1);
    }
  }

  /** Without a reset, once no thread is in flight the peak is the largest `current` ever computed,
      and, as long as the outstanding bytes fit in a word, the largest value the counter ever had. */
  lemma {:induction false} PeakExactAtRest(tr: seq<State>, acts: seq<Action>)
    requires IsRun(tr, acts) && NoReset(acts) && tr[|acts|].Quiescent()
    ensures tr[|acts|].peak == Highest(tr, acts, |acts|)
    ensures (forall i | 0 <= i < |tr| :: Bytes(tr[i].counted) < WORD) ==> IsHighWater(tr, tr[|acts|].peak)
  {
    NothingOwed(tr, acts, |acts|);
    PeakAtRestIff(tr, acts, |acts|);
    if forall i | 0 <= i < |tr| :: Bytes(tr[i].counted) < WORD {
      forall i | 0 <= i < |tr| ensures tr[i].usage <= Highest(tr, acts, |acts|) {
        HighestBounds(tr, acts, i, |acts|);
      }
      var i := HighestAttained(tr, acts, |acts|);
    }
  }

  // --- What a reset can break ---

  ghost predicate Ends(tr: seq<State>, acts: seq<Action>, s: State) {
    IsRun(tr, acts) && tr[|acts|] == s
  }

  lemma Extend(tr: seq<State>, acts: seq<Action>, s: State, a: Action) returns (tr': seq<State>, acts': seq<Action>)
    requires Ends(tr, acts, s) && Enabled(s, a)
    ensures acts' == acts + [a] && Ends(tr', acts', Apply(s, a))
  {
    tr', acts' := tr + [Apply(s, a)], acts + [a];
  }

  // One whole allocation by an idle thread that nobody disturbs and that raises the peak.
  lemma AllocDuring(tr: seq<State>, acts: seq<Action>, s: State, t: Thread, b: Block, size: nat)
    returns (tr': seq<State>, acts': seq<Action>, s': State)
    requires Ends(tr, acts, s) && t !in s.threads && Fresh(s, b) && 0 < size < WORD
    requires s.peak < Wrap(s.usage + size)
    ensures Ends(tr', acts', s') && acts' == acts + [SystemAlloc(t, b, size), FetchAdd(t), LoadPeak(t), CasSucceeds(t)]
    ensures s' == s.(usage := Wrap(s.usage + size), peak := Wrap(s.usage + size),
                     held := s.held[b := size], counted := s.counted[b := size])
  {
    var current := Wrap(s.usage + size);
    var s1 := s.(threads := s.threads[t := Reserved(b, size)]);
    var s2 := s.(usage := current, counted := s.counted[b := size],
                 threads := s.threads[t := Counted(b, size, current)]);
    var s3 := s2.(threads := s.threads[t := Racing(b, size, current, s.peak)]);
    s' := s.(usage := current, peak := current, held := s.held[b := size], counted := s.counted[b := size]);
    tr', acts' := Extend(tr, acts, s, SystemAlloc(t, b, size));
    tr', acts' := Extend(tr', acts', s1, FetchAdd(t));
    assert Apply(s1, FetchAdd(t)) == s2 by {
      assert s1.threads[t := Counted(b, size, current)] == s2.threads;
    }
    tr', acts' := Extend(tr', acts', s2, LoadPeak(t));
    assert Apply(s2, LoadPeak(t)) == s3 by {
      assert s2.threads[t := Racing(b, size, current, s.peak)] == s3.threads;
    }
    tr', acts' := Extend(tr', acts', s3, CasSucceeds(t));
    assert Apply(s3, CasSucceeds(t)) == s' by {
      assert s3.threads - {t} == s.threads;
    }
  }

  lemma FreeAlone(tr: seq<State>, acts: seq<Action>, s: State, b: Block)
    returns (tr': seq<State>, acts': seq<Action>, s': State)
    requires Ends(tr, acts, s) && s.Quiescent() && b in s.held && b in s.counted
    ensures Ends(tr', acts', s') && acts' == acts + [SystemDealloc(0, b), FetchSub(0)]
    ensures s' == s.(usage := Wrap(s.usage - s.held[b]), held := s.held - {b}, counted := s.counted - {b})
  {
    var s1 := s.(threads := map[0 := Releasing(b, s.held[b])], held := s.held - {b});
    s' := s.(usage := Wrap(s.usage - s.held[b]), held := s.held - {b}, counted := s.counted - {b});
    tr', acts' := Extend(tr, acts, s, SystemDealloc(0, b));
    assert Apply(s, SystemDealloc(0, b)) == s1;
    tr', acts' := Extend(tr', acts', s1, FetchSub(0));
    assert Apply(s1, FetchSub(0)) == s';
  }

  lemma ResetAlone(tr: seq<State>, acts: seq<Action>, s: State)
    returns (tr': seq<State>, acts': seq<Action>, s': State)
    requires Ends(tr, acts, s) && s.Quiescent()
    ensures Ends(tr', acts', s') && acts' == acts + [ResetAllocated(0), ResetPeak(0)]
    ensures s' == s.(usage := 0, peak := 0, base := Bytes(s.counted))
  {
    var s1 := s.(usage := 0, base := Bytes(s.counted), threads := map[0 := Resetting]);
    s' := s.(usage := 0, peak := 0, base := Bytes(s.counted));
    tr', acts' := Extend(tr, acts, s, ResetAllocated(0));
    assert Apply(s, ResetAllocated(0)) == s1;
    tr', acts' := Extend(tr', acts', s1, ResetPeak(0));
    assert Apply(s1, ResetPeak(0)) == s';
  }

  /** A reset while two bytes are live breaks both counters: freeing them wraps the counter around
      zero, and the next byte allocated brings the peak to 2^64 - 1 as well. */
  lemma ResetWhileLiveBreaks() returns (tr: seq<State>, acts: seq<Action>, s: State)
    ensures Ends(tr, acts, s) && s.Quiescent()
    ensures s.held == map[8 := 1] && s.usage == WORD - 1 && s.peak == WORD - 1
  {
    tr, acts, s := [INIT], [], INIT;
    tr, acts, s := AllocDuring(tr, acts, s, 0, 7, 2);
    tr, acts, s := ResetAlone(tr, acts, s);
    tr, acts, s := FreeAlone(tr, acts, s, 7);
    WrapNegative(-2);
    assert s.usage == WORD - 2;
    tr, acts, s := AllocDuring(tr, acts, s, 0, 8, 1);
    assert s.held == map[8 := 1];
  }

  /** No block need be live when a reset begins: an allocation that runs between its two stores has its
      peak wiped out. At the end ten bytes are in use, nothing was left behind, and the peak is zero. */
  lemma ResetRaceLosesPeak() returns (tr: seq<State>, acts: seq<Action>, s: State)
    ensures Ends(tr, acts, s) && s.Quiescent()
    ensures acts == [ResetAllocated(0), SystemAlloc(1, 7, 10), FetchAdd(1), LoadPeak(1), CasSucceeds(1), ResetPeak(0)]
    ensures s.usage == 10 && s.peak == 0 && s.base == 0 && s.held == map[7 := 10]
  {
    var s1 := INIT.(threads := map[0 := Resetting]);
    tr, acts := Extend([INIT], [], INIT, ResetAllocated(0));
    assert Apply(INIT, ResetAllocated(0)) == s1;
    var s5: State;
    tr, acts, s5 := AllocDuring(tr, acts, s1, 1, 7, 10);
    tr, acts := Extend(tr, acts, s5, ResetPeak(0));
    s := s5.(peak := 0, threads := s5.threads - {0});
    assert s.threads == map[];
  }

  // --- Progress of the retry loop ---

  // Failures of thread `t` in the first n steps that found a peak other than the one it had read.
  ghost function RealFailures(tr: seq<State>, acts: seq<Action>, t: Thread, n: nat): nat
    requires |tr| == |acts| + 1 && n <= |acts|
  {
    if n == 0 then 0
    else RealFailures(tr, acts, t, n - 1) + if FailsFor(tr[n - 1], acts[n - 1], t) then 1 else 0
  }

  ghost function Successes(acts: seq<Action>, n: nat): nat
    requires n <= |acts|
  {
    if n == 0 then 0 else Successes(acts, n - 1) + if acts[n - 1].CasSucceeds? then 1 else 0
  }

  // A real failure of `t` at this step.
  ghost predicate FailsFor(s: State, a: Action, t: Thread) {
    a == CasFails(t) && t in s.threads && s.threads[t].Racing? && s.threads[t].seen != s.peak
  }

  ghost predicate RacesWith(s: State, t: Thread, current: nat) {
    t in s.threads && s.threads[t].Racing? && s.threads[t].current == current
  }

  ghost predicate StaysInLoop(tr: seq<State>, t: Thread) {
    forall i | 0 <= i < |tr| :: t in tr[i].threads && tr[i].threads[t].Racing?
  }

  // How often the first n steps reset the peak.
  ghost function Resets(acts: seq<Action>, n: nat): nat
    requires n <= |acts|
  {
    if n == 0 then 0 else Resets(acts, n - 1) + if acts[n - 1].ResetPeak? then 1 else 0
  }

  // A real failure catches up with the peak; only another thread's success or a reset moves it on.
  lemma {:induction false} RaceStep(s: State, a: Action, t: Thread, current: nat)
    requires Enabled(s, a) && RacesWith(s, t, current) && RacesWith(Apply(s, a), t, current)
    ensures var s' := Apply(s, a);
            if FailsFor(s, a, t) then s'.threads[t].seen == s'.peak == s.peak && s.threads[t].seen < current
            else s'.threads[t].seen == s.threads[t].seen
                 && (s'.peak == s.peak || a.CasSucceeds? || a.ResetPeak?)
  {
  }

  lemma StaysRacing(s: State, a: Action, t: Thread, current: nat)
    requires Enabled(s, a) && RacesWith(s, t, current)
    requires t in Apply(s, a).threads && Apply(s, a).threads[t].Racing?
    ensures RacesWith(Apply(s, a), t, current)
  {
  }

  // A thread that has just read the peak, and stays in its loop from then on.
  ghost predicate IsRaceFrom(tr: seq<State>, acts: seq<Action>, t: Thread) {
    Steps(tr, acts) && StaysInLoop(tr, t) && tr[0].threads[t].seen == tr[0].peak
  }

  /** Lock freedom, in every run. While a thread stays in its loop, its real failures never outnumber
      the successful swaps of the others and the resets of the peak, and while it has not read the
      latest peak there are fewer of them. */
  lemma {:induction false} RetriesBounded(tr: seq<State>, acts: seq<Action>, t: Thread, n: nat)
    requires IsRaceFrom(tr, acts, t) && n <= |acts|
    ensures RacesWith(tr[n], t, tr[0].threads[t].current)
    ensures RealFailures(tr, acts, t, n) <= Successes(acts, n) + Resets(acts, n)
    ensures tr[n].threads[t].seen != tr[n].peak ==> RealFailures(tr, acts, t, n) < Successes(acts, n) + Resets(acts, n)
  {
    if n > 0 {
      var s, a, current := tr[n - 1], acts[n - 1], tr[0].threads[t].current;
      RetriesBounded(tr, acts, t, n - 1);
      assert tr[n].threads[t].Racing? && tr[n] == Apply(s, a);
      StaysRacing(s, a, t, current);
      RaceStep(s, a, t, current);
    }
  }

  /** While the peak is not reset, each real failure also closes the gap between the thread's `current`
      and the peak it last read, so there are at most `current - seen` of them. */
  lemma {:induction false} RetriesBoundedByGap(tr: seq<State>, acts: seq<Action>, t: Thread, n: nat)
    requires IsRaceFrom(tr, acts, t) && n <= |acts|
    requires forall k | 0 <= k < n :: !acts[k].ResetPeak?
    ensures var first, last := tr[0].threads[t], tr[n].threads[t];
            var failures := RealFailures(tr, acts, t, n);
            && last.seen <= tr[n].peak
            && failures + first.seen <= last.seen
            && (failures > 0 ==> failures <= first.current - first.seen)
  {
    if n > 0 {
      var s, a, current := tr[n - 1], acts[n - 1], tr[0].threads[t].current;
      RetriesBoundedByGap(tr, acts, t, n - 1);
      RetriesBounded(tr, acts, t, n - 1);
      RetriesBounded(tr, acts, t, n);
      assert tr[n] == Apply(s, a) && !a.ResetPeak?;
      RaceStep(s, a, t, current);
    }
  }

  // --- The code itself, run by one thread among others ---

  /** What the other threads do before one of this thread's accesses: they leave some value in
      each counter, resets included, and the next weak swap may fail for no reason. */
  datatype Turn = Turn(usage: nat, peak: nat, spurious: bool)

  // The peak after the turns, while this thread has not changed it.
  function LastPeak(peak: nat, turns: seq<Turn>): nat {
    if turns == [] then peak else turns[|turns| - 1].peak
  }

  class Tracker {
    var usage: nat
    var peakUsage: nat

    constructor ()
      ensures usage == 0 && peakUsage == 0
    {
      usage, peakUsage := 0, 0;
    }

    method Reset()
      modifies this
      ensures usage == 0 && peakUsage == 0
    {
      usage := 0;
      peakUsage := 0;
    }

    method Interfere(turn: Turn)
      modifies this
      ensures usage == turn.usage && peakUsage == turn.peak
    {
      usage, peakUsage := turn.usage, turn.peak;
    }

    /** compare_exchange_weak: the value found is returned when the swap did not happen. */
    method CompareExchangeWeak(expected: nat, desired: nat, spurious: bool) returns (ok: bool, found: nat)
      modifies this`peakUsage
      ensures ok == (old(peakUsage) == expected && !spurious)
      ensures found == old(peakUsage)
      ensures peakUsage == if ok then desired else old(peakUsage)
    {
      ok, found := peakUsage == expected && !spurious, peakUsage;
      if ok {
        peakUsage := desired;
      }
    }

    /** The body of `alloc` after System.alloc returned a block: the size is added to the counter, where
        the others may change it again. Whatever they do, the loop ends, and when it does the peak is the
        larger of this thread's `current` and the peak the others left; it looks at the shared peak at
        most once per turn of the others, and twice more. */
    method Alloc(size: nat, turns: seq<Turn>) returns (current: nat, ghost used: nat, ghost looks: nat)
      modifies this
      ensures current == (old(usage) + size) % 0x1_0000_0000_0000_0000
      ensures used <= |turns| && looks <= |turns| + 2
      ensures usage == if used == 0 then current else turns[used - 1].usage
      ensures var left := if used == 0 then old(peakUsage) else turns[used - 1].peak;
              peakUsage == if current > left then current else left
    {
      usage := Wrap(usage + size);
      current := usage;
      used := 0;
      var i := 0;
      if i < |turns| {
        Interfere(turns[i]);
        i := i + 1;
        used := i;
      }
      var peak: nat := peakUsage;
      looks := 1;
      while current > peak
        invariant i == used <= |turns|
        invariant usage == if used == 0 then current else turns[used - 1].usage
        invariant peakUsage == LastPeak(old(peakUsage), turns[..used])
        invariant current <= peak ==> peak == peakUsage
        invariant looks <= used + 1 + if used == |turns| && peak == peakUsage then 1 else 0
        decreases |turns| - i, if peak == peakUsage then 0 else 1
      {
        var spurious := false;
        if i < |turns| {
          Interfere(turns[i]);
          spurious := turns[i].spurious;
          i := i + 1;
          used := i;
        }
        var ok, found := CompareExchangeWeak(peak, current, spurious);
        if ok {
          break;
        }
        peak := found;
        looks := looks + 1;
      }
    }

    // The body of `dealloc` after System.dealloc.
    method Dealloc(size: nat)
      modifies this`usage
      ensures usage == (old(usage) - size) % 0x1_0000_0000_0000_0000
    {
      usage := Wrap(usage - size);
    }
  }
}
