/**
 The resource limiter: two counters behind read-write locks, an `acquire` whose check and
 commit are separate critical sections, and guards that release asynchronously when dropped.

 Jobs are interleaved one critical section at a time. The check takes two read locks, one
 after the other, so another job may commit or release between its two reads.
 */
module ResourceLimiter {
  import opened Sums

  datatype Resource = Memory | Tasks

  // An amount of each resource.
  datatype Amount = Amount(memory: nat, tasks: nat) {
    function Of(r: Resource): nat {
      if r.Memory? then memory else tasks
    }
  }

  // The code's test for one resource, negated: `current + needed > limit` in `usize`.
  predicate Fits(current: nat, needed: nat, limit: nat) {
    Wrap(current + needed) <= limit
  }

  function SaturatingSub(a: nat, b: nat): nat {
    if b <= a then a - b else 0
  }

  // --- The limiter itself ---

  class Limiter {
    const limit: Amount
    var currentMemory: nat
    var currentTasks: nat

    ghost function Counters(): Amount
      reads this
    {
      Amount(currentMemory, currentTasks)
    }

    constructor (limit: Amount)
      ensures this.limit == limit && Counters() == Amount(0, 0)
    {
      this.limit := limit;
      currentMemory, currentTasks := 0, 0;
    }

    method CheckResources(needed: Amount) returns (ok: bool)
      ensures ok == forall r: Resource :: Fits(Counters().Of(r), needed.Of(r), limit.Of(r))
      ensures ok <==> && (currentMemory + needed.memory) % 0x1_0000_0000_0000_0000 <= limit.memory
                      && (currentTasks + needed.tasks) % 0x1_0000_0000_0000_0000 <= limit.tasks
    {
      var memory, tasks := currentMemory, currentTasks;
      if Wrap(memory + needed.memory) > limit.memory {
        assert !Fits(Counters().Of(Memory), needed.Of(Memory), limit.Of(Memory));
        return false;
      }
      if Wrap(tasks + needed.tasks) > limit.tasks {
        assert !Fits(Counters().Of(Tasks), needed.Of(Tasks), limit.Of(Tasks));
        return false;
      }
      return true;
    }

    method Commit(amount: Amount)
      modifies this
      ensures Counters() == Committed(old(Counters()), amount)
      ensures currentMemory == (old(currentMemory) + amount.memory) % 0x1_0000_0000_0000_0000
      ensures currentTasks == (old(currentTasks) + amount.tasks) % 0x1_0000_0000_0000_0000
    {
      currentMemory := Wrap(currentMemory + amount.memory);
      currentTasks := Wrap(currentTasks + amount.tasks);
    }

    /** Acquire, run with no other job in between. On success the limits are kept; a refusal
        changes nothing. */
    method AcquireResources(needed: Amount) returns (ok: bool)
      modifies this
      ensures ok == forall r: Resource :: Fits(old(Counters()).Of(r), needed.Of(r), limit.Of(r))
      ensures Counters() == if ok then Committed(old(Counters()), needed) else old(Counters())
      ensures ok ==> forall r: Resource :: Counters().Of(r) <= limit.Of(r)
      ensures old(currentMemory) + needed.memory < WORD && old(currentTasks) + needed.tasks < WORD ==>
                && (ok <==> && old(currentMemory) + needed.memory <= limit.memory
                            && old(currentTasks) + needed.tasks <= limit.tasks)
                && currentMemory == old(currentMemory) + (if ok then needed.memory else 0)
                && currentTasks == old(currentTasks) + (if ok then needed.tasks else 0)
    {
      ok := CheckResources(needed);
      if ok {
        assert Fits(Counters().Of(Memory), needed.Of(Memory), limit.Of(Memory));
        assert Fits(Counters().Of(Tasks), needed.Of(Tasks), limit.Of(Tasks));
        Commit(needed);
      }
    }

    method ReleaseResources(amount: Amount)
      modifies this
      ensures Counters() == Released(old(Counters()), amount)
      ensures currentMemory + amount.memory == old(currentMemory)
              || (currentMemory == 0 && amount.memory > old(currentMemory))
      ensures currentTasks + amount.tasks == old(currentTasks)
              || (currentTasks == 0 && amount.tasks > old(currentTasks))
    {
      currentMemory := if amount.memory <= currentMemory then currentMemory - amount.memory else 0;
      currentTasks := if amount.tasks <= currentTasks then currentTasks - amount.tasks else 0;
    }
  }

  function Committed(c: Amount, a: Amount): Amount {
    Amount(Wrap(c.memory + a.memory), Wrap(c.tasks + a.tasks))
  }

  function Released(c: Amount, a: Amount): Amount {
    Amount(SaturatingSub(c.memory, a.memory), SaturatingSub(c.tasks, a.tasks))
  }

  // --- Many jobs on one limiter ---

  type Job = nat

  // Where a job stands; one that was refused or has released everything is gone.
  datatype Phase =
    | ReadMemory(need: Amount, seenMemory: nat)
    | ReadTasks(need: Amount, seenMemory: nat, seenTasks: nat)
    | Admitted(need: Amount)      // the check passed, the write locks are still to come
    | Holding(need: Amount)       // has its ResourceGuard
    | Dropped(need: Amount)       // guard dropped, the spawned release has not run
    | Lost(need: Amount)          // dropped without a runtime: never released
  {
    predicate InFlight() {
      ReadMemory? || ReadTasks? || Admitted?
    }
  }

  datatype State = State(counters: Amount, jobs: map<Job, Phase>)

  const INIT := State(Amount(0, 0), map[])

  datatype Action =
    | BeginCheck(j: Job, need: Amount)   // read the memory counter
    | ReadSecond(j: Job)                 // read the counter of tasks
    | Pass(j: Job)
    | Refuse(j: Job)
    | Cancel(j: Job)                     // the caller drops the pending future
    | Commit(j: Job)                     // both write locks: add to both counters
    | DropGuard(j: Job)
    | DropGuardNoRuntime(j: Job)
    | Release(j: Job)

  predicate Passes(limit: Amount, p: Phase) {
    && p.ReadTasks?
    && Fits(p.seenMemory, p.need.memory, limit.memory)
    && Fits(p.seenTasks, p.need.tasks, limit.tasks)
  }

  predicate Enabled(limit: Amount, s: State, a: Action) {
    if a.BeginCheck? then a.j !in s.jobs
    else
      && a.j in s.jobs
      && var p := s.jobs[a.j];
         match a
         case BeginCheck(_, _) => true
         case ReadSecond(_) => p.ReadMemory?
         case Pass(_) => Passes(limit, p)
         case Refuse(_) => p.ReadTasks? && !Passes(limit, p)
         case Cancel(_) => p.InFlight()
         case Commit(_) => p.Admitted?
         case DropGuard(_) => p.Holding?
         case DropGuardNoRuntime(_) => p.Holding?
         case Release(_) => p.Dropped?
  }

  // What a job asks and what it has read are added up; where no sum wraps, the job is admitted exactly
  // when both sums are within the limits, whatever the counters are by then.
  lemma AdmittedIff(limit: Amount, s: State, j: Job)
    requires j in s.jobs && s.jobs[j].ReadTasks?
    requires s.jobs[j].seenMemory + s.jobs[j].need.memory < WORD && s.jobs[j].seenTasks + s.jobs[j].need.tasks < WORD
    ensures var p := s.jobs[j];
            && (Enabled(limit, s, Pass(j)) <==> && p.seenMemory + p.need.memory <= limit.memory
                                                && p.seenTasks + p.need.tasks <= limit.tasks)
            && (Enabled(limit, s, Refuse(j)) <==> !Enabled(limit, s, Pass(j)))
  {
  }

  function Apply(limit: Amount, s: State, a: Action): State
    requires Enabled(limit, s, a)
  {
    match a
    case BeginCheck(j, need) => s.(jobs := s.jobs[j := ReadMemory(need, s.counters.memory)])
    case ReadSecond(j) =>
      var p := s.jobs[j];
      s.(jobs := s.jobs[j := ReadTasks(p.need, p.seenMemory, s.counters.tasks)])
    case Pass(j) => s.(jobs := s.jobs[j := Admitted(s.jobs[j].need)])
    case Refuse(j) => s.(jobs := s.jobs - {j})
    case Cancel(j) => s.(jobs := s.jobs - {j})
    case Commit(j) =>
      State(Committed(s.counters, s.jobs[j].need), s.jobs[j := Holding(s.jobs[j].need)])
    case DropGuard(j) => s.(jobs := s.jobs[j := Dropped(s.jobs[j].need)])
    case DropGuardNoRuntime(j) => s.(jobs := s.jobs[j := Lost(s.jobs[j].need)])
    case Release(j) => State(Released(s.counters, s.jobs[j].need), s.jobs - {j})
  }

  predicate IsRun(limit: Amount, tr: seq<State>, acts: seq<Action>) {
    && |tr| == |acts| + 1
    && tr[0] == INIT
    && forall i | 0 <= i < |acts| :: Enabled(limit, tr[i], acts[i]) && tr[i + 1] == Apply(limit, tr[i], acts[i])
  }

  ghost function InFlight(s: State): set<Job> {
    set j | j in s.jobs && s.jobs[j].InFlight()
  }

  // At most k jobs are between their first read and their commit, each asking at most m of r.
  ghost predicate Within(s: State, r: Resource, k: nat, m: nat) {
    |InFlight(s)| <= k && forall j | j in s.jobs :: s.jobs[j].need.Of(r) <= m
  }

  ghost predicate AllWithin(tr: seq<State>, r: Resource, k: nat, m: nat) {
    forall i | 0 <= i < |tr| :: Within(tr[i], r, k, m)
  }

  // What a phase has added to the counter.
  function Taken(r: Resource): Phase -> nat {
    (p: Phase) => if p.InFlight() then 0 else p.need.Of(r)
  }

  // What a phase is still going to add unless it gives up: its check has passed, or will pass on
  // the value of this counter it has read.
  function Claimed(r: Resource, limit: Amount): Phase -> nat {
    (p: Phase) =>
      if p.Admitted? then p.need.Of(r)
      else if r.Memory? && (p.ReadMemory? || p.ReadTasks?) && Fits(p.seenMemory, p.need.memory, limit.memory)
      then p.need.memory
      else if r.Tasks? && p.ReadTasks? && Fits(p.seenTasks, p.need.tasks, limit.tasks)
      then p.need.tasks
      else 0
  }

  // The most a job can be admitted for, short of a sum that wraps around.
  function Cap(limit: Amount, r: Resource, m: nat): nat {
    Min(m, limit.Of(r))
  }

  // A limit, overrun by k - 1 jobs of `each`.
  function Overrun(limit: nat, k: nat, each: nat): (bound: nat)
    requires k >= 1
    ensures bound >= limit
  {
    MulNonNegative(k - 1, each);
    limit + (k - 1) * each
  }

  // The sum in the check cannot wrap around, whatever the other jobs have been admitted for.
  ghost predicate NoWrap(limit: Amount, r: Resource, k: nat, m: nat)
    requires k >= 1
  {
    Overrun(limit.Of(r), k, Cap(limit, r, m)) + m < WORD
  }

  ghost predicate StateOk(limit: Amount, s: State, r: Resource, k: nat, m: nat)
    requires k >= 1
  {
    && s.counters.Of(r) == SumBy(s.jobs, Taken(r))
    && s.counters.Of(r) + SumBy(s.jobs, Claimed(r, limit)) <= Overrun(limit.Of(r), k, Cap(limit, r, m))
    && ClaimsCapped(limit, s, r, m)
  }

  ghost predicate ClaimsCapped(limit: Amount, s: State, r: Resource, m: nat) {
    forall j | j in s.jobs :: Claimed(r, limit)(s.jobs[j]) <= Cap(limit, r, m)
  }

  // Claims are made by jobs in flight only.
  lemma OtherClaims(limit: Amount, s: State, j: Job, r: Resource, k: nat, m: nat)
    requires Within(s, r, k, m) && ClaimsCapped(limit, s, r, m) && j in InFlight(s)
    ensures SumBy(s.jobs - {j}, Claimed(r, limit)) <= (k - 1) * Cap(limit, r, m)
  {
    var g, others, rest, cap := Claimed(r, limit), s.jobs - {j}, InFlight(s) - {j}, Cap(limit, r, m);
    forall i | i in others ensures g(others[i]) <= cap && (i in rest || g(others[i]) == 0) {
      assert others[i] == s.jobs[i];
    }
    SumByBound(others, g, cap, rest);
    assert |rest| == |InFlight(s)| - 1;
    MulMonotone(|rest|, k - 1, cap);
  }

  // Reading counter `r` is the only step that adds to the claims on it.
  predicate Reads(a: Action, r: Resource) {
    if r.Memory? then a.BeginCheck? else a.ReadSecond?
  }

  // A job that has just read the counter claims at most what the limit leaves.
  lemma ReadClaim(limit: Amount, s: State, a: Action, r: Resource, k: nat, m: nat)
    requires Enabled(limit, s, a) && k >= 1 && StateOk(limit, s, r, k, m) && NoWrap(limit, r, k, m)
    requires Reads(a, r) && Within(Apply(limit, s, a), r, k, m)
    ensures var s', f := Apply(limit, s, a), Claimed(r, limit);
            && a.j in InFlight(s')
            && (f(s'.jobs[a.j]) > 0 ==> s.counters.Of(r) + f(s'.jobs[a.j]) <= limit.Of(r))
            && f(s'.jobs[a.j]) <= Cap(limit, r, m)
            && (a.j in s.jobs ==> f(s.jobs[a.j]) == 0)
            && ClaimsCapped(limit, s', r, m)
  {
    var s', c := Apply(limit, s, a), s.counters.Of(r);
    var need := s'.jobs[a.j].need.Of(r);
    assert need <= m;
    assert Wrap(c + need) == c + need;
    forall j | j in s'.jobs ensures Claimed(r, limit)(s'.jobs[j]) <= Cap(limit, r, m) {
      if j != a.j {
        assert s'.jobs[j] == s.jobs[j];
      }
    }
  }

  lemma ReadKeepsBound(limit: Amount, s: State, a: Action, r: Resource, k: nat, m: nat)
    requires Enabled(limit, s, a) && k >= 1 && StateOk(limit, s, r, k, m) && NoWrap(limit, r, k, m)
    requires Reads(a, r) && Within(Apply(limit, s, a), r, k, m)
    ensures StateOk(limit, Apply(limit, s, a), r, k, m)
  {
    SplitSums(limit, s, a, r);
    ReadClaim(limit, s, a, r, k, m);
    OtherClaims(limit, Apply(limit, s, a), a.j, r, k, m);
  }

  // How one step changes the two sums: only the acting job's term differs.
  lemma SplitSums(limit: Amount, s: State, a: Action, r: Resource)
    requires Enabled(limit, s, a)
    ensures var s', others := Apply(limit, s, a), s.jobs - {a.j};
            forall f: Phase -> nat | f == Taken(r) || f == Claimed(r, limit) ::
              && SumBy(s.jobs, f) == SumBy(others, f) + (if a.j in s.jobs then f(s.jobs[a.j]) else 0)
              && SumBy(s'.jobs, f) == SumBy(others, f) + (if a.j in s'.jobs then f(s'.jobs[a.j]) else 0)
    ensures Apply(limit, s, a).jobs - {a.j} == s.jobs - {a.j}
  {
    var s', others := Apply(limit, s, a), s.jobs - {a.j};
    assert s'.jobs - {a.j} == others;
    forall f: Phase -> nat | f == Taken(r) || f == Claimed(r, limit)
      ensures SumBy(s.jobs, f) == SumBy(others, f) + (if a.j in s.jobs then f(s.jobs[a.j]) else 0)
      ensures SumBy(s'.jobs, f) == SumBy(others, f) + (if a.j in s'.jobs then f(s'.jobs[a.j]) else 0)
    {
      SplitSum(s.jobs, a.j, f);
      SplitSum(s'.jobs, a.j, f);
    }
  }

  lemma SplitSum(jobs: map<Job, Phase>, j: Job, f: Phase -> nat)
    ensures SumBy(jobs, f) == SumBy(jobs - {j}, f) + if j in jobs then f(jobs[j]) else 0
  {
    if j in jobs {
      SumByRemove(jobs, j, f);
    } else {
      assert jobs - {j} == jobs;
    }
  }

  lemma StepKeepsBound(limit: Amount, s: State, a: Action, r: Resource, k: nat, m: nat)
    requires Enabled(limit, s, a) && k >= 1 && StateOk(limit, s, r, k, m) && NoWrap(limit, r, k, m)
    requires Within(Apply(limit, s, a), r, k, m)
    ensures StateOk(limit, Apply(limit, s, a), r, k, m)
  {
    if Reads(a, r) {
      ReadKeepsBound(limit, s, a, r, k, m);
    } else {
      SplitSums(limit, s, a, r);
      ClaimsStayCapped(limit, s, a, r, m);
    }
  }

  lemma ClaimsStayCapped(limit: Amount, s: State, a: Action, r: Resource, m: nat)
    requires Enabled(limit, s, a) && ClaimsCapped(limit, s, r, m) && !Reads(a, r)
    ensures ClaimsCapped(limit, Apply(limit, s, a), r, m)
  {
    var s', f := Apply(limit, s, a), Claimed(r, limit);
    forall j | j in s'.jobs ensures f(s'.jobs[j]) <= Cap(limit, r, m) {
      if j != a.j {
        assert s'.jobs[j] == s.jobs[j];
      } else if j in s.jobs {
        assert f(s'.jobs[j]) <= f(s.jobs[j]);
      }
    }
  }

  lemma {:induction false} BoundAlongRun(limit: Amount, tr: seq<State>, acts: seq<Action>, i: nat, r: Resource,
                                         k: nat, m: nat)
    requires IsRun(limit, tr, acts) && i <= |acts|
    requires AllWithin(tr, r, k, m) && k >= 1 && NoWrap(limit, r, k, m)
    ensures StateOk(limit, tr[i], r, k, m)
  {
    if i == 0 {
      MulNonNegative(k - 1, Cap(limit, r, m));
    } else {
      BoundAlongRun(limit, tr, acts, i - 1, r, k, m);
      assert Within(tr[i], r, k, m);
      StepKeepsBound(limit, tr[i - 1], acts[i - 1], r, k, m);
    }
  }

  // What is used and what admitted jobs are about to add.
  ghost function Spoken(limit: Amount, s: State, r: Resource): nat {
    s.counters.Of(r) + SumBy(s.jobs, Claimed(r, limit))
  }

  /** Over every interleaving, what is used plus what admitted jobs are about to add exceeds the
      limit by at most (k - 1) * m, and by no more than k - 1 times the limit itself. */
  lemma OverrunIsBounded(limit: Amount, tr: seq<State>, acts: seq<Action>, i: nat, r: Resource, k: nat, m: nat)
    requires IsRun(limit, tr, acts) && i <= |acts|
    requires AllWithin(tr, r, k, m) && k >= 1 && NoWrap(limit, r, k, m)
    ensures Spoken(limit, tr[i], r) <= Overrun(limit.Of(r), k, Cap(limit, r, m)) <= Overrun(limit.Of(r), k, m)
  {
    BoundAlongRun(limit, tr, acts, i, r, k, m);
    MulMonotoneRight(k - 1, Cap(limit, r, m), m);
  }

  // With one job in flight at a time the limit itself is kept.
  lemma SequentialLimit(limit: Amount, tr: seq<State>, acts: seq<Action>, i: nat, r: Resource, m: nat)
    requires IsRun(limit, tr, acts) && i <= |acts|
    requires AllWithin(tr, r, 1, m) && limit.Of(r) + m < WORD
    ensures tr[i].counters.Of(r) <= limit.Of(r)
  {
    BoundAlongRun(limit, tr, acts, i, r, 1, m);
  }

  /** The counter is the sum over the live guards, the releases still to run and the guards lost
      without a runtime. So a release never saturates, and once every job is gone the counter is
      back at zero. */
  lemma CounterIsConserved(limit: Amount, tr: seq<State>, acts: seq<Action>, i: nat, r: Resource, k: nat, m: nat)
    requires IsRun(limit, tr, acts) && i <= |acts|
    requires AllWithin(tr, r, k, m) && k >= 1 && NoWrap(limit, r, k, m)
    ensures tr[i].counters.Of(r) == SumBy(tr[i].jobs, Taken(r))
    ensures i < |acts| && acts[i].Release? ==>
              && tr[i].jobs[acts[i].j].need.Of(r) <= tr[i].counters.Of(r)
              && tr[i + 1].counters.Of(r) == tr[i].counters.Of(r) - tr[i].jobs[acts[i].j].need.Of(r)
    ensures tr[i].jobs == map[] ==> tr[i].counters.Of(r) == 0
  {
    BoundAlongRun(limit, tr, acts, i, r, k, m);
    if i < |acts| && acts[i].Release? {
      SumByRemove(tr[i].jobs, acts[i].j, Taken(r));
    }
  }

  lemma {:induction false} CounterFits(limit: Amount, tr: seq<State>, acts: seq<Action>, i: nat, r: Resource)
    requires IsRun(limit, tr, acts) && i <= |acts|
    ensures tr[i].counters.Of(r) < WORD
  {
    if i > 0 {
      CounterFits(limit, tr, acts, i - 1, r);
    }
  }

  lemma {:induction false} ConservedWhileFitting(limit: Amount, tr: seq<State>, acts: seq<Action>, i: nat, r: Resource)
    requires IsRun(limit, tr, acts) && i <= |acts|
    requires forall j | 0 <= j < |tr| :: SumBy(tr[j].jobs, Taken(r)) < WORD
    ensures tr[i].counters.Of(r) == SumBy(tr[i].jobs, Taken(r))
  {
    if i > 0 {
      ConservedWhileFitting(limit, tr, acts, i - 1, r);
      SplitSums(limit, tr[i - 1], acts[i - 1], r);
      assert tr[i] == Apply(limit, tr[i - 1], acts[i - 1]);
      assert SumBy(tr[i].jobs, Taken(r)) < WORD;
    }
  }

  /** Exactly when the counter can be trusted, with no assumption on the jobs: it is the sum of
      what is outstanding throughout a run if and only if that sum always fits in a word. */
  lemma ConservedIffFits(limit: Amount, tr: seq<State>, acts: seq<Action>, r: Resource)
    requires IsRun(limit, tr, acts)
    ensures (forall i | 0 <= i < |tr| :: tr[i].counters.Of(r) == SumBy(tr[i].jobs, Taken(r)))
       <==> (forall i | 0 <= i < |tr| :: SumBy(tr[i].jobs, Taken(r)) < WORD)
  {
    forall i | 0 <= i < |tr| ensures tr[i].counters.Of(r) < WORD {
      CounterFits(limit, tr, acts, i, r);
    }
    if forall i | 0 <= i < |tr| :: SumBy(tr[i].jobs, Taken(r)) < WORD {
      forall i | 0 <= i < |tr| ensures tr[i].counters.Of(r) == SumBy(tr[i].jobs, Taken(r)) {
        ConservedWhileFitting(limit, tr, acts, i, r);
      }
    }
  }

  // --- Guards dropped without a runtime ---

  // Nothing ever happens to a lost guard again.
  lemma {:induction false} LostStays(limit: Amount, tr: seq<State>, acts: seq<Action>, i: nat, n: nat, j: Job)
    requires IsRun(limit, tr, acts) && i <= n <= |acts| && j in tr[i].jobs && tr[i].jobs[j].Lost?
    ensures j in tr[n].jobs && tr[n].jobs[j] == tr[i].jobs[j]
    decreases n
  {
    if i < n {
      LostStays(limit, tr, acts, i, n - 1, j);
      assert tr[n] == Apply(limit, tr[n - 1], acts[n - 1]) && acts[n - 1].j != j;
    }
  }

  /** Once every job is gone but those whose guards were dropped without a runtime, the counter is what
      they took, so it is back at zero if and only if they took nothing. */
  lemma BackAtZeroIff(limit: Amount, tr: seq<State>, acts: seq<Action>, i: nat, r: Resource)
    requires IsRun(limit, tr, acts) && i <= |acts|
    requires forall j | 0 <= j < |tr| :: SumBy(tr[j].jobs, Taken(r)) < WORD
    requires forall j | j in tr[i].jobs :: tr[i].jobs[j].Lost?
    ensures tr[i].counters.Of(r) == 0 <==> forall j | j in tr[i].jobs :: tr[i].jobs[j].need.Of(r) == 0
  {
    ConservedWhileFitting(limit, tr, acts, i, r);
    SumByZero(tr[i].jobs, Taken(r));
    assert forall j | j in tr[i].jobs :: Taken(r)(tr[i].jobs[j]) == tr[i].jobs[j].need.Of(r);
  }

  // One job that takes a byte and drops its guard without a runtime: the byte is never given back.
  lemma LostByte(limit: Amount) returns (tr: seq<State>, acts: seq<Action>)
    requires limit.memory >= 1
    ensures IsRun(limit, tr, acts)
    ensures tr[|acts|] == State(Amount(1, 0), map[0 := Lost(Amount(1, 0))])
  {
    var need, none := Amount(1, 0), Amount(0, 0);
    acts := [BeginCheck(0, need), ReadSecond(0), Pass(0), Commit(0), DropGuardNoRuntime(0)];
    tr := [INIT, State(none, map[0 := ReadMemory(need, 0)]), State(none, map[0 := ReadTasks(need, 0, 0)]),
           State(none, map[0 := Admitted(need)]), State(need, map[0 := Holding(need)]),
           State(need, map[0 := Lost(need)])];
    assert Passes(limit, ReadTasks(need, 0, 0));
    forall i | 0 <= i < |acts| ensures Enabled(limit, tr[i], acts[i]) && tr[i + 1] == Apply(limit, tr[i], acts[i]) {
    }
  }

  // --- The bound is reached ---

  ghost predicate Reachable(limit: Amount, s: State, r: Resource, k: nat, m: nat) {
    exists tr, acts :: IsRun(limit, tr, acts) && AllWithin(tr, r, k, m) && tr[|acts|] == s
  }

  lemma ReachNext(limit: Amount, s: State, a: Action, s': State, r: Resource, k: nat, m: nat)
    requires Reachable(limit, s, r, k, m) && Enabled(limit, s, a) && s' == Apply(limit, s, a)
    requires Within(s', r, k, m)
    ensures Reachable(limit, s', r, k, m)
  {
    var tr, acts :| IsRun(limit, tr, acts) && AllWithin(tr, r, k, m) && tr[|acts|] == s;
    var tr', acts' := tr + [s'], acts + [a];
    forall i | 0 <= i < |acts'|
      ensures Enabled(limit, tr'[i], acts'[i]) && tr'[i + 1] == Apply(limit, tr'[i], acts'[i])
    {
      if i < |acts| {
        assert tr'[i] == tr[i] && tr'[i + 1] == tr[i + 1] && acts'[i] == acts[i];
      }
    }
    assert IsRun(limit, tr', acts') && AllWithin(tr', r, k, m) && tr'[|acts'|] == s';
  }

  lemma RunTo(limit: Amount, s: State, r: Resource, k: nat, m: nat) returns (tr: seq<State>, acts: seq<Action>)
    requires Reachable(limit, s, r, k, m)
    ensures IsRun(limit, tr, acts) && AllWithin(tr, r, k, m) && tr[|acts|] == s
  {
    tr, acts :| IsRun(limit, tr, acts) && AllWithin(tr, r, k, m) && tr[|acts|] == s;
  }

  function Only(r: Resource, n: nat): Amount {
    if r.Memory? then Amount(n, 0) else Amount(0, n)
  }

  /** Jobs that want resource `r` alone: those below `ones` hold one unit, those below `taken` hold
      `size`, and those below `all` were admitted for `asked`. */
  datatype Crowd = Crowd(r: Resource, ones: nat, taken: nat, all: nat, size: nat, asked: nat) {
    ghost predicate Fits(k: nat, m: nat) {
      ones <= taken <= all <= taken + k && m >= 1 && size <= m && asked <= m
    }

    function PhaseOf(j: Job): Phase {
      if j < ones then Holding(Only(r, 1))
      else if j < taken then Holding(Only(r, size))
      else Admitted(Only(r, asked))
    }

    ghost function Jobs(): map<Job, Phase> {
      map j: Job | 0 <= j < all :: PhaseOf(j)
    }

    // The state in which the counter stands at c.
    ghost function At(c: nat): State {
      State(Only(r, c), Jobs())
    }
  }

  lemma {:induction false} RangeSize(s: set<nat>, a: nat, b: nat)
    requires a <= b && forall j :: j in s <==> a <= j < b
    ensures |s| == b - a
    decreases b
  {
    if a < b {
      RangeSize(s - {b - 1}, a, b - 1);
    } else {
      assert s == {};
    }
  }

  // The crowd, or the crowd and one more job in any phase.
  lemma CrowdWithin(s: State, g: Crowd, k: nat, m: nat, p: Phase)
    requires g.Fits(k, m) && p.need.Of(g.r) <= m
    requires s.jobs == g.Jobs() || (g.all < g.taken + k && s.jobs == g.Jobs()[g.all := p])
    ensures Within(s, g.r, k, m)
  {
    var inside := InFlight(s);
    if s.jobs == g.Jobs() || !p.InFlight() {
      RangeSize(inside, g.taken, g.all);
    } else {
      RangeSize(inside, g.taken, g.all + 1);
    }
  }

  // The crowd and one more job, in some phase.
  ghost function WithLate(g: Crowd, c: nat, p: Phase): State {
    g.At(c).(jobs := g.Jobs()[g.all := p])
  }

  // The late job takes a step while the others wait.
  lemma LateStep(limit: Amount, g: Crowd, c: nat, p: Phase, a: Action, q: Phase, k: nat, m: nat)
    requires g.Fits(k, m) && g.all < g.taken + k && q.need.Of(g.r) <= m
    requires Reachable(limit, WithLate(g, c, p), g.r, k, m)
    requires var s := WithLate(g, c, p);
             Enabled(limit, s, a) && Apply(limit, s, a) == s.(jobs := s.jobs[g.all := q])
    ensures Reachable(limit, WithLate(g, c, q), g.r, k, m)
  {
    assert WithLate(g, c, p).jobs[g.all := q] == WithLate(g, c, q).jobs;
    CrowdWithin(WithLate(g, c, q), g, k, m, q);
    ReachNext(limit, WithLate(g, c, p), a, WithLate(g, c, q), g.r, k, m);
  }

  // One more job goes through the whole check while the others wait.
  lemma AdmitOne(limit: Amount, g: Crowd, c: nat, n: nat, k: nat, m: nat)
    requires g.Fits(k, m) && g.all < g.taken + k && n <= m
    requires Reachable(limit, g.At(c), g.r, k, m) && Fits(c, n, limit.Of(g.r))
    ensures Reachable(limit, WithLate(g, c, Admitted(Only(g.r, n))), g.r, k, m)
  {
    var s, z, need := g.At(c), g.all, Only(g.r, n);
    var p1, p2 := ReadMemory(need, s.counters.memory), ReadTasks(need, s.counters.memory, s.counters.tasks);
    CrowdWithin(WithLate(g, c, p1), g, k, m, p1);
    ReachNext(limit, s, BeginCheck(z, need), WithLate(g, c, p1), g.r, k, m);
    LateStep(limit, g, c, p1, ReadSecond(z), p2, k, m);
    assert Passes(limit, p2);
    LateStep(limit, g, c, p2, Pass(z), Admitted(need), k, m);
  }

  lemma {:induction false} FillTo(limit: Amount, r: Resource, x: nat, size: nat, k: nat, m: nat)
    requires k >= 1 && size <= m && m >= 1 && x <= limit.Of(r) < WORD
    ensures Reachable(limit, Crowd(r, x, x, x, size, size).At(x), r, k, m)
  {
    var g := Crowd(r, x, x, x, size, size);
    if x == 0 {
      assert g.At(0) == INIT;
      assert IsRun(limit, [INIT], []) && AllWithin([INIT], r, k, m);
    } else {
      var w := x - 1;
      var g' := Crowd(r, w, w, w, size, size);
      FillTo(limit, r, w, size, k, m);
      AdmitOne(limit, g', w, 1, k, m);
      var s := WithLate(g', w, Admitted(Only(r, 1)));
      assert g.Jobs() == s.jobs[w := Holding(Only(r, 1))];
      CrowdWithin(g.At(x), g, k, m, Holding(Only(r, 1)));
      ReachNext(limit, s, Commit(w), g.At(x), r, k, m);
    }
  }

  lemma AdmitNext(limit: Amount, g: Crowd, c: nat, k: nat, m: nat)
    requires g.Fits(k, m) && g.all < g.taken + k
    requires Reachable(limit, g.At(c), g.r, k, m) && Fits(c, g.asked, limit.Of(g.r))
    ensures Reachable(limit, g.(all := g.all + 1).At(c), g.r, k, m)
  {
    AdmitOne(limit, g, c, g.asked, k, m);
    assert g.(all := g.all + 1).Jobs() == g.Jobs()[g.all := Admitted(Only(g.r, g.asked))];
  }

  lemma {:induction false} AdmitMany(limit: Amount, g: Crowd, c: nat, n: nat, k: nat, m: nat)
    requires g.Fits(k, m) && g.all == g.taken && n <= k
    requires Reachable(limit, g.At(c), g.r, k, m) && Fits(c, g.asked, limit.Of(g.r))
    ensures Reachable(limit, g.(all := g.taken + n).At(c), g.r, k, m)
  {
    if n > 0 {
      AdmitMany(limit, g, c, n - 1, k, m);
      AdmitNext(limit, g.(all := g.taken + n - 1), c, k, m);
    }
  }

  lemma CommitOne(limit: Amount, g: Crowd, c: nat, k: nat, m: nat)
    requires g.Fits(k, m) && g.taken < g.all && g.asked == g.size && c + g.size < WORD
    requires Reachable(limit, g.At(c), g.r, k, m)
    ensures Reachable(limit, g.(taken := g.taken + 1).At(c + g.size), g.r, k, m)
  {
    var g', y := g.(taken := g.taken + 1), g.taken;
    assert g'.Jobs() == g.Jobs()[y := Holding(Only(g.r, g.size))];
    CrowdWithin(g'.At(c + g.size), g', k, m, Holding(Only(g.r, g.size)));
    ReachNext(limit, g.At(c), Commit(y), g'.At(c + g.size), g.r, k, m);
  }

  // c and n times `size`, added one at a time.
  function Added(c: nat, n: nat, size: nat): nat {
    if n == 0 then c else Added(c, n - 1, size) + size
  }

  lemma {:induction false} AddedIs(c: nat, n: nat, size: nat)
    ensures Added(c, n, size) == c + n * size
  {
    if n > 0 {
      AddedIs(c, n - 1, size);
      MulStep(n - 1, size);
    }
  }

  lemma {:induction false} CommitMany(limit: Amount, g: Crowd, c: nat, n: nat, k: nat, m: nat)
    requires g.Fits(k, m) && g.taken + n <= g.all && g.asked == g.size && Added(c, n, g.size) < WORD
    requires Reachable(limit, g.At(c), g.r, k, m)
    ensures Reachable(limit, g.(taken := g.taken + n).At(Added(c, n, g.size)), g.r, k, m)
  {
    if n > 0 {
      CommitMany(limit, g, c, n - 1, k, m);
      CommitOne(limit, g.(taken := g.taken + n - 1), Added(c, n - 1, g.size), k, m);
    }
  }

  // n jobs are admitted one after another for `size` each, where the limit leaves just that, and
  // then all commit.
  lemma CommitTogether(limit: Amount, r: Resource, x: nat, size: nat, n: nat, k: nat, m: nat) returns (g: Crowd, c: nat)
    requires k >= 1 && n <= k && m >= 1 && size <= m && x + size <= limit.Of(r) < WORD
    requires Added(x, n, size) < WORD
    ensures c == Added(x, n, size)
    ensures g.Fits(k, m) && g.r == r && g.taken == g.all && g.asked == size
    ensures Reachable(limit, g.At(c), r, k, m)
  {
    FillTo(limit, r, x, size, k, m);
    g := Crowd(r, x, x, x, size, size);
    AdmitMany(limit, g, x, n, k, m);
    g := g.(all := x + n);
    c := Added(x, n, size);
    CommitMany(limit, g, x, n, k, m);
    g := g.(taken := x + n);
  }

  /** The overrun bound is tight: for either resource and every k and m some run with at most k jobs in
      flight, each asking at most m, ends with exactly the bound in use. */
  lemma OverrunIsReached(limit: Amount, r: Resource, k: nat, m: nat) returns (tr: seq<State>, acts: seq<Action>)
    requires k >= 1 && m >= 1 && Overrun(limit.Of(r), k, Cap(limit, r, m)) < WORD
    ensures IsRun(limit, tr, acts) && AllWithin(tr, r, k, m)
    ensures tr[|acts|].counters.Of(r) == Overrun(limit.Of(r), k, Cap(limit, r, m))
  {
    var size := Cap(limit, r, m);
    var x := limit.Of(r) - size;
    AddedIs(x, k, size);
    MulStep(k - 1, size);
    var g, c := CommitTogether(limit, r, x, size, k, k, m);
    tr, acts := RunTo(limit, g.At(c), r, k, m);
  }

  // --- Exactly when the bound holds ---

  // Every run with at most k jobs in flight asking at most m stays within the bound.
  ghost predicate BoundKept(limit: Amount, r: Resource, k: nat, m: nat, bound: nat) {
    forall tr: seq<State>, acts: seq<Action>, i: nat
      | IsRun(limit, tr, acts) && AllWithin(tr, r, k, m) && i < |tr| :: Spoken(limit, tr[i], r) <= bound
  }

  lemma NotKept(limit: Amount, r: Resource, k: nat, m: nat, bound: nat, tr: seq<State>, acts: seq<Action>)
    requires IsRun(limit, tr, acts) && AllWithin(tr, r, k, m) && Spoken(limit, tr[|acts|], r) > bound
    ensures !BoundKept(limit, r, k, m, bound)
  {
  }

  // The job admitted last, and the crowd without it.
  lemma LastOfCrowd(g: Crowd)
    requires g.ones <= g.taken < g.all
    ensures var last: Job := g.all - 1;
            && last in g.Jobs() && g.Jobs()[last] == Admitted(Only(g.r, g.asked))
            && g.Jobs() - {last} == g.(all := g.all - 1).Jobs()
  {
    var last: Job := g.all - 1;
    assert g.Jobs() - {last} == g.(all := g.all - 1).Jobs();
  }

  lemma {:induction false} CrowdClaims(limit: Amount, g: Crowd, n: nat)
    requires g.ones <= g.taken && g.all == g.taken + n
    ensures SumBy(g.Jobs(), Claimed(g.r, limit)) == Added(0, n, g.asked)
    decreases n
  {
    var f := Claimed(g.r, limit);
    if n == 0 {
      SumByBound(g.Jobs(), f, 0, {});
    } else {
      var last: Job := g.all - 1;
      LastOfCrowd(g);
      CrowdClaims(limit, g.(all := last), n - 1);
      SumByRemove(g.Jobs(), last, f);
      assert g.(all := last) == g.(all := g.all - 1);
      assert f(Admitted(Only(g.r, g.asked))) == g.asked;
    }
  }

  // How many commits of `size` bring x within m of the word.
  lemma {:induction false} CommitsNeeded(x: nat, k: nat, size: nat, m: nat) returns (n: nat)
    requires x + m < WORD <= Added(x, k, size) + m
    ensures 1 <= n <= k && Added(x, n - 1, size) + m < WORD <= Added(x, n, size) + m
    decreases k
  {
    n := k;
    if Added(x, k - 1, size) + m >= WORD {
      n := CommitsNeeded(x, k - 1, size, m);
    }
  }

  /** The bound is kept in every run if and only if the sum in the check cannot wrap around: the limit,
      k - 1 admitted requests and one of m fit in a word together. Otherwise some run brings the
      counter so high that the sum wraps and the check admits requests it should refuse. */
  lemma BoundKeptIff(limit: Amount, r: Resource, k: nat, m: nat)
    requires k >= 1 && 1 <= m < WORD && limit.Of(r) < WORD
    ensures BoundKept(limit, r, k, m, Overrun(limit.Of(r), k, Cap(limit, r, m))) <==> NoWrap(limit, r, k, m)
    ensures BoundKept(limit, r, k, m, Overrun(limit.Of(r), k, m)) <==> NoWrap(limit, r, k, m)
  {
    var low, high := Overrun(limit.Of(r), k, Cap(limit, r, m)), Overrun(limit.Of(r), k, m);
    MulMonotoneRight(k - 1, Cap(limit, r, m), m);
    if NoWrap(limit, r, k, m) {
      BoundIsKept(limit, r, k, m, low, high);
    } else {
      BoundIsNotKept(limit, r, k, m, low, high);
    }
  }

  lemma BoundIsKept(limit: Amount, r: Resource, k: nat, m: nat, low: nat, high: nat)
    requires k >= 1 && NoWrap(limit, r, k, m)
    requires low == Overrun(limit.Of(r), k, Cap(limit, r, m)) <= high
    ensures BoundKept(limit, r, k, m, low) && BoundKept(limit, r, k, m, high)
  {
    forall tr: seq<State>, acts: seq<Action>, i: nat | IsRun(limit, tr, acts) && AllWithin(tr, r, k, m) && i < |tr|
      ensures Spoken(limit, tr[i], r) <= low
    {
      OverrunIsBounded(limit, tr, acts, i, r, k, m);
    }
  }

  lemma BoundIsNotKept(limit: Amount, r: Resource, k: nat, m: nat, low: nat, high: nat)
    requires k >= 1 && 1 <= m < WORD && limit.Of(r) < WORD && !NoWrap(limit, r, k, m)
    requires low <= high == Overrun(limit.Of(r), k, m)
    ensures !BoundKept(limit, r, k, m, low) && !BoundKept(limit, r, k, m, high)
  {
    var tr, acts := WrappedAdmissions(limit, r, k, m);
    NotKept(limit, r, k, m, low, tr, acts);
    NotKept(limit, r, k, m, high, tr, acts);
  }

  // k requests of m admitted at once, on a counter at which each of them wraps the sum.
  lemma AdmitAll(limit: Amount, g: Crowd, c: nat, k: nat, m: nat) returns (tr: seq<State>, acts: seq<Action>)
    requires g.Fits(k, m) && g.taken == g.all && Fits(c, m, limit.Of(g.r))
    requires Reachable(limit, g.At(c), g.r, k, m)
    ensures IsRun(limit, tr, acts) && AllWithin(tr, g.r, k, m)
    ensures Spoken(limit, tr[|acts|], g.r) == c + Added(0, k, m)
  {
    var big := g.(asked := m);
    assert big.Jobs() == g.Jobs();
    AdmitMany(limit, big, c, k, k, m);
    CrowdClaims(limit, big.(all := g.taken + k), k);
    tr, acts := RunTo(limit, big.(all := g.taken + k).At(c), g.r, k, m);
  }

  // n commits bring the counter within m of the word, and then k requests of m are admitted.
  lemma WrappedAdmissions(limit: Amount, r: Resource, k: nat, m: nat) returns (tr: seq<State>, acts: seq<Action>)
    requires k >= 1 && 1 <= m < WORD && limit.Of(r) < WORD && !NoWrap(limit, r, k, m)
    ensures IsRun(limit, tr, acts) && AllWithin(tr, r, k, m)
    ensures Spoken(limit, tr[|acts|], r) > Overrun(limit.Of(r), k, m)
  {
    var size := Cap(limit, r, m);
    var x := limit.Of(r) - size;
    AddedIs(x, k - 1, size);
    var n := CommitsNeeded(x, k, size, m);
    var g, c := CommitTogether(limit, r, x, size, n, k, m);
    WrapsToFit(c, m, size, limit.Of(r));
    tr, acts := AdmitAll(limit, g, c, k, m);
    AddedIs(0, k - 1, m);
  }

  lemma WrapsToFit(current: nat, needed: nat, over: nat, limit: nat)
    requires WORD <= current + needed < WORD + over && over <= limit < WORD
    ensures Fits(current, needed, limit)
  {
    WrapShift(current + needed - WORD, 1);
  }
}
