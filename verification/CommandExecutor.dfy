/**
 Cached command execution: results are stored, serialised, in a 32-entry LRU cache with a
 time to live per entry. Looking up, running the command and storing its result are separate
 steps, so calls overlap; clock readings are inputs.
 */
module CommandExecutor {
  import opened Options
  import opened Recency

  const CAPACITY: nat := 32

  datatype Cached = Cached(result: string, timestamp: int, ttl: int)

  // The serialiser and deserialiser of one result type.
  datatype Codec<!R> = Codec(encode: R -> Option<string>, decode: string -> Option<R>)

  ghost predicate Faithful<R(!new)>(codec: Codec<R>) {
    forall r :: codec.encode(r).Some? ==> codec.decode(codec.encode(r).value) == Some(r)
  }

  datatype Outcome<R> = Ok(value: R) | Failed

  // How a call ends: with a result, with the command's own error, or with a codec error.
  datatype Reply<R> = Done(value: R) | CommandError | CodecError

  // --- The LRU cache the executor is built on ---

  type Lru = seq<Entry<Cached>>

  function Touch(l: Lru, key: string): Lru {
    if Has(l, key) then Without(l, key) + [Find(l, key)] else l
  }

  function Store(l: Lru, key: string, c: Cached): Lru {
    var rest := Without(l, key);
    (if !Has(l, key) && |l| >= CAPACITY then rest[1..] else rest) + [Entry(key, c)]
  }

  predicate IsHit(l: Lru, key: string, now: int) {
    Has(l, key) && now - Find(l, key).value.timestamp < Find(l, key).value.ttl
  }

  function ReplyFromCache<R>(codec: Codec<R>, l: Lru, key: string): Reply<R>
    requires Has(l, key)
  {
    match codec.decode(Find(l, key).value.result)
    case Some(r) => Done(r)
    case None => CodecError
  }

  function ReplyFromRun<R>(codec: Codec<R>, outcome: Outcome<R>): Reply<R> {
    if outcome.Failed? then CommandError
    else if codec.encode(outcome.value).None? then CodecError
    else Done(outcome.value)
  }

  function AfterRun<R>(codec: Codec<R>, l: Lru, key: string, ttl: int, outcome: Outcome<R>, now: int): Lru {
    if outcome.Ok? && codec.encode(outcome.value).Some?
    then Store(l, key, Cached(codec.encode(outcome.value).value, now, ttl))
    else l
  }

  // --- The code ---

  class Executor {
    var commandCache: Lru

    constructor ()
      ensures commandCache == []
    {
      commandCache := [];
    }

    method GetFromCache(key: string) returns (cached: Option<Cached>)
      modifies this
      ensures cached == if Has(old(commandCache), key) then Some(Find(old(commandCache), key).value) else None
      ensures commandCache == Touch(old(commandCache), key)
      ensures |commandCache| == |old(commandCache)|
      ensures cached.Some? ==> commandCache[|commandCache| - 1] == Entry(key, cached.value)
    {
      if Has(commandCache, key) {
        var e := Find(commandCache, key);
        commandCache := Without(commandCache, key) + [e];
        return Some(e.value);
      }
      return None;
    }

    method CacheResult<R>(codec: Codec<R>, key: string, result: R, ttl: int, now: int) returns (ok: bool)
      modifies this
      ensures ok == codec.encode(result).Some?
      ensures commandCache == AfterRun(codec, old(commandCache), key, ttl, Ok(result), now)
    {
      var serialized := codec.encode(result);
      if serialized.None? {
        return false;
      }
      if !Has(commandCache, key) && |commandCache| >= CAPACITY {
        commandCache := commandCache[1..];
      } else {
        commandCache := Without(commandCache, key);
      }
      commandCache := commandCache + [Entry(key, Cached(serialized.value, now, ttl))];
      return true;
    }

    method ClearCache()
      modifies this
      ensures commandCache == []
    {
      commandCache := [];
    }

    /** One call with no other call in between. `outcome` is what the command would return; it
        is run, and can change the stored results, only when the cache has nothing fresh. */
    method ExecuteCached<R>(codec: Codec<R>, key: string, ttl: int, lookupTime: int,
                            outcome: Outcome<R>, storeTime: int)
      returns (reply: Reply<R>, ran: bool)
      modifies this
      ensures ran == !IsHit(old(commandCache), key, lookupTime)
      ensures reply == if ran then ReplyFromRun(codec, outcome) else ReplyFromCache(codec, old(commandCache), key)
      ensures commandCache == if ran
                              then AfterRun(codec, Touch(old(commandCache), key), key, ttl, outcome, storeTime)
                              else Touch(old(commandCache), key)
      ensures ran <==> || !Has(old(commandCache), key)
                       || var found := Find(old(commandCache), key).value; lookupTime - found.timestamp >= found.ttl
      ensures ran && outcome.Failed? ==> reply == CommandError && |commandCache| == |old(commandCache)|
      ensures ran && outcome.Ok? ==>
                match codec.encode(outcome.value)
                case None => reply == CodecError && |commandCache| == |old(commandCache)|
                case Some(text) =>
                  && reply == Done(outcome.value) && commandCache != []
                  && commandCache[|commandCache| - 1] == Entry(key, Cached(text, storeTime, ttl))
    {
      var cached := GetFromCache(key);
      if cached.Some? {
        if lookupTime - cached.value.timestamp < cached.value.ttl {
          var decoded := codec.decode(cached.value.result);
          return if decoded.Some? then Done(decoded.value) else CodecError, false;
        }
      }
      ran := true;
      if outcome.Ok? {
        var ok := CacheResult(codec, key, outcome.value, ttl, storeTime);
        reply := if ok then Done(outcome.value) else CodecError;
      } else {
        reply := CommandError;
      }
    }
  }

  // --- Overlapping calls ---

  type Call = nat

  datatype Request = Request(key: string, ttl: int)

  datatype State = State(cache: Lru, running: map<Call, Request>)

  datatype Action<R> =
    | Lookup(call: Call, request: Request, now: int)
    | Finish(call: Call, outcome: Outcome<R>, now: int)
    | Clear

  // A call already running is not looked up again, and only a running call finishes.
  predicate Legal<R>(s: State, a: Action<R>) {
    match a
    case Lookup(call, _, _) => call !in s.running
    case Finish(call, _, _) => call in s.running
    case Clear => true
  }

  function Step<R>(codec: Codec<R>, s: State, a: Action<R>): State
    requires Legal(s, a)
  {
    match a
    case Lookup(call, request, now) =>
      State(Touch(s.cache, request.key),
            if IsHit(s.cache, request.key, now) then s.running else s.running[call := request])
    case Finish(call, outcome, now) =>
      var request := s.running[call];
      State(AfterRun(codec, s.cache, request.key, request.ttl, outcome, now), s.running - {call})
    case Clear => s.(cache := [])
  }

  // The reply a caller gets at this step, if any.
  function ReplyOf<R>(codec: Codec<R>, s: State, a: Action<R>): Option<Reply<R>>
    requires Legal(s, a)
  {
    match a
    case Lookup(_, request, now) =>
      if IsHit(s.cache, request.key, now) then Some(ReplyFromCache(codec, s.cache, request.key)) else None
    case Finish(_, outcome, _) => Some(ReplyFromRun(codec, outcome))
    case Clear => None
  }

  ghost predicate IsRun<R>(codec: Codec<R>, tr: seq<State>, acts: seq<Action<R>>) {
    && |tr| == |acts| + 1
    && tr[0] == State([], map[])
    && forall i | 0 <= i < |acts| :: Legal(tr[i], acts[i]) && tr[i + 1] == Step(codec, tr[i], acts[i])
  }

  // What this step stores under `key`, if anything.
  function Stores<R>(codec: Codec<R>, s: State, a: Action<R>, key: string): Option<Cached>
    requires Legal(s, a)
  {
    if a.Finish? && s.running[a.call].key == key && a.outcome.Ok?
    then
      match codec.encode(a.outcome.value)
      case Some(text) => Some(Cached(text, a.now, s.running[a.call].ttl))
      case None => None
    else None
  }

  // What was last stored under `key` and not cleared since, read off the steps alone.
  ghost function LastStored<R>(codec: Codec<R>, tr: seq<State>, acts: seq<Action<R>>, i: nat,
                               key: string): Option<Cached>
    requires IsRun(codec, tr, acts) && i <= |acts|
  {
    if i == 0 || acts[i - 1].Clear? then None
    else
      var stored := Stores(codec, tr[i - 1], acts[i - 1], key);
      if stored.Some? then stored else LastStored(codec, tr, acts, i - 1, key)
  }

  lemma StoreMember(l: Lru, key: string, c: Cached, e: Entry<Cached>)
    requires NoDup(l)
    ensures e in Store(l, key, c) ==> e == Entry(key, c) || (e in l && e.key != key)
  {
    WithoutKeeps(l, key, e);
    var rest := Without(l, key);
    var r := if !Has(l, key) && |l| >= CAPACITY then rest[1..] else rest;
    assert e in r ==> e in rest;
    assert e in r + [Entry(key, c)] <==> e in r || e == Entry(key, c);
  }

  lemma StoreNoDup(l: Lru, key: string, c: Cached)
    requires NoDup(l)
    ensures NoDup(Store(l, key, c))
  {
    WithoutNoDup(l, key);
    var rest := Without(l, key);
    forall i | 0 <= i < |rest| ensures rest[i].key != key {
      WithoutKeeps(l, key, rest[i]);
    }
  }

  lemma StoreMembers(l: Lru, key: string, c: Cached)
    requires NoDup(l)
    ensures NoDup(Store(l, key, c))
    ensures forall e :: e in Store(l, key, c) ==> e == Entry(key, c) || (e in l && e.key != key)
  {
    StoreNoDup(l, key, c);
    forall e
      ensures e in Store(l, key, c) ==> e == Entry(key, c) || (e in l && e.key != key)
    {
      StoreMember(l, key, c, e);
    }
  }

  lemma TouchMembers(l: Lru, key: string)
    requires NoDup(l)
    ensures NoDup(Touch(l, key)) && |Touch(l, key)| == |l|
    ensures forall e :: e in Touch(l, key) <==> e in l
  {
    if Has(l, key) {
      WithoutMembers(l, key);
      var rest := Without(l, key);
      assert forall i | 0 <= i < |rest| :: rest[i] in rest;
      forall e | e in l && e.key == key ensures e == Find(l, key) {
        FindIsMember(l, e);
      }
    }
  }

  lemma {:induction false} CacheWellFormed<R>(codec: Codec<R>, tr: seq<State>, acts: seq<Action<R>>, i: nat)
    requires IsRun(codec, tr, acts) && i <= |acts|
    ensures NoDup(tr[i].cache) && |tr[i].cache| <= CAPACITY
  {
    if i > 0 {
      CacheWellFormed(codec, tr, acts, i - 1);
      var s, a := tr[i - 1], acts[i - 1];
      if a.Lookup? {
        TouchMembers(s.cache, a.request.key);
      } else if a.Finish? && a.outcome.Ok? && codec.encode(a.outcome.value).Some? {
        var request := s.running[a.call];
        StoreMembers(s.cache, request.key, Cached(codec.encode(a.outcome.value).value, a.now, request.ttl));
      }
    }
  }

  // An entry present after a step was stored by it or was already there and is not replaced.
  lemma StepMember<R>(codec: Codec<R>, s: State, a: Action<R>, e: Entry<Cached>)
    requires Legal(s, a) && NoDup(s.cache) && e in Step(codec, s, a).cache
    ensures !a.Clear?
    ensures Stores(codec, s, a, e.key) == Some(e.value) || (Stores(codec, s, a, e.key).None? && e in s.cache)
  {
    if a.Lookup? {
      TouchMembers(s.cache, a.request.key);
    } else if a.Finish? {
      var key := s.running[a.call].key;
      var stored := Stores(codec, s, a, key);
      if stored.Some? {
        StoreMember(s.cache, key, stored.value, e);
      }
    }
  }

  lemma {:induction false} EntriesAreLastStored<R>(codec: Codec<R>, tr: seq<State>, acts: seq<Action<R>>, i: nat,
                                                   e: Entry<Cached>)
    requires IsRun(codec, tr, acts) && i <= |acts| && e in tr[i].cache
    ensures LastStored(codec, tr, acts, i, e.key) == Some(e.value)
  {
    CacheWellFormed(codec, tr, acts, i - 1);
    StepMember(codec, tr[i - 1], acts[i - 1], e);
    if Stores(codec, tr[i - 1], acts[i - 1], e.key).None? {
      EntriesAreLastStored(codec, tr, acts, i - 1, e);
    }
  }

  /** Over every interleaving of calls and clears, a reply from the cache decodes the result most
      recently stored under that key since the last clear, which is younger than the time to live
      it was stored with. */
  lemma {:induction false} HitsAreFreshAndLatest<R>(codec: Codec<R>, tr: seq<State>, acts: seq<Action<R>>, i: nat)
    requires IsRun(codec, tr, acts) && i < |acts| && acts[i].Lookup?
    ensures ReplyOf(codec, tr[i], acts[i]).Some? ==>
              var stored := LastStored(codec, tr, acts, i, acts[i].request.key);
              && stored.Some?
              && acts[i].now - stored.value.timestamp < stored.value.ttl
              && ReplyOf(codec, tr[i], acts[i]).value
                 == match codec.decode(stored.value.result) case Some(r) => Done(r) case None => CodecError
  {
    var key := acts[i].request.key;
    if IsHit(tr[i].cache, key, acts[i].now) {
      EntriesAreLastStored(codec, tr, acts, i, Find(tr[i].cache, key));
    }
  }

  // --- What the cache still holds ---

  function Newest(l: Lru): Lru {
    if |l| <= CAPACITY then l else l[|l| - CAPACITY..]
  }

  // Every result stored since the last clear, least recently used first, as if none were evicted,
  // from the steps alone. A lookup uses a result that is among the newest.
  ghost function Remembered<R>(codec: Codec<R>, tr: seq<State>, acts: seq<Action<R>>, i: nat): Lru
    requires IsRun(codec, tr, acts) && i <= |acts|
  {
    if i == 0 || acts[i - 1].Clear? then []
    else
      var l, s, a := Remembered(codec, tr, acts, i - 1), tr[i - 1], acts[i - 1];
      if a.Lookup? then (if Has(Newest(l), a.request.key) then Touch(l, a.request.key) else l)
      else
        var key := s.running[a.call].key;
        var stored := Stores(codec, s, a, key);
        if stored.Some? then Without(l, key) + [Entry(key, stored.value)] else l
  }

  // Removing a key from a list in two parts.
  lemma {:induction false} WithoutLater(p: Lru, q: Lru, key: string)
    requires !Has(p, key)
    ensures Without(p + q, key) == p + Without(q, key)
  {
    if p == [] {
      assert p + q == q;
    } else {
      assert (p + q)[1..] == p[1..] + q && (p + q)[0] == p[0];
      assert p[0].key != key;
      WithoutLater(p[1..], q, key);
    }
  }

  lemma {:induction false} WithoutEarlier(p: Lru, q: Lru, key: string)
    requires !Has(q, key)
    ensures Without(p + q, key) == Without(p, key) + q
  {
    if p == [] {
      assert p + q == q;
    } else {
      assert (p + q)[1..] == p[1..] + q && (p + q)[0] == p[0];
      if p[0].key != key {
        WithoutEarlier(p[1..], q, key);
      }
    }
  }

  lemma KeyInLater(p: Lru, q: Lru, key: string)
    requires NoDup(p + q) && Has(q, key)
    ensures !Has(p, key) && Has(p + q, key) && Find(p + q, key) == Find(q, key)
  {
    var e := Find(q, key);
    assert e.key == key;
    var j :| 0 <= j < |q| && q[j] == e;
    var l := p + q;
    assert l[|p| + j] == q[j];
    forall i | 0 <= i < |p| ensures p[i].key != key {
      assert l[i] == p[i] && l[i].key != l[|p| + j].key;
    }
    FindIsMember(l, e);
  }

  lemma TouchLater(p: Lru, q: Lru, key: string)
    requires NoDup(p + q) && Has(q, key)
    ensures Touch(p + q, key) == p + Touch(q, key) && |Touch(q, key)| == |q|
  {
    KeyInLater(p, q, key);
    WithoutLater(p, q, key);
  }

  lemma NewestPart(older: Lru, newer: Lru)
    requires if older == [] then |newer| <= CAPACITY else |newer| == CAPACITY
    ensures Newest(older + newer) == newer
  {
    assert (older + newer)[|older|..] == newer;
  }

  // A list is what the cache holds of it, after what it has evicted.
  ghost predicate Holds(l: Lru, older: Lru, kept: Lru) {
    l == older + kept && if older == [] then |kept| <= CAPACITY else |kept| == CAPACITY
  }

  lemma HoldsNewest(l: Lru) returns (older: Lru)
    ensures Holds(l, older, Newest(l))
  {
    older := l[..|l| - |Newest(l)|];
  }

  lemma NewestTouch(l: Lru, key: string)
    requires NoDup(l) && Has(Newest(l), key)
    ensures Newest(Touch(l, key)) == Touch(Newest(l), key)
  {
    var older := HoldsNewest(l);
    TouchLater(older, Newest(l), key);
    NewestPart(older, Touch(Newest(l), key));
  }

  lemma StoreParts(older: Lru, kept: Lru, key: string, c: Cached) returns (evicted: Lru)
    requires NoDup(older + kept) && Holds(older + kept, older, kept)
    ensures Holds(Without(older + kept, key) + [Entry(key, c)], evicted, Store(kept, key, c))
  {
    var e := Entry(key, c);
    if Has(kept, key) {
      KeyInLater(older, kept, key);
      WithoutLater(older, kept, key);
      evicted := older;
    } else {
      WithoutEarlier(older, kept, key);
      var rest := Without(older, key);
      evicted := if |kept| < CAPACITY then [] else rest + [kept[0]];
      assert rest + kept + [e] == evicted + Store(kept, key, c);
    }
  }

  lemma NewestStore(l: Lru, key: string, c: Cached)
    requires NoDup(l)
    ensures Newest(Without(l, key) + [Entry(key, c)]) == Store(Newest(l), key, c)
  {
    var older := HoldsNewest(l);
    var evicted := StoreParts(older, Newest(l), key, c);
    NewestPart(evicted, Store(Newest(l), key, c));
  }

  // What a store leaves in a list that evicts nothing.
  lemma RememberOne(l: Lru, key: string, c: Cached)
    requires NoDup(l)
    ensures var l' := Without(l, key) + [Entry(key, c)];
            NoDup(l') && forall e :: e in l' <==> e == Entry(key, c) || (e in l && e.key != key)
  {
    WithoutMembers(l, key);
    NoDupAppend(Without(l, key), Entry(key, c));
  }

  lemma {:induction false} HoldsNewestOf<R>(codec: Codec<R>, tr: seq<State>, acts: seq<Action<R>>, i: nat)
    requires IsRun(codec, tr, acts) && i <= |acts|
    ensures var l := Remembered(codec, tr, acts, i);
            && tr[i].cache == Newest(l)
            && NoDup(l)
            && forall e :: e in l <==> LastStored(codec, tr, acts, i, e.key) == Some(e.value)
  {
    if i > 0 && !acts[i - 1].Clear? {
      HoldsNewestOf(codec, tr, acts, i - 1);
      var l, s, a := Remembered(codec, tr, acts, i - 1), tr[i - 1], acts[i - 1];
      if a.Lookup? {
        if Has(s.cache, a.request.key) {
          NewestTouch(l, a.request.key);
          TouchMembers(l, a.request.key);
        }
      } else {
        var key := s.running[a.call].key;
        var stored := Stores(codec, s, a, key);
        if stored.Some? {
          NewestStore(l, key, stored.value);
          RememberOne(l, key, stored.value);
        }
      }
    }
  }

  /** At every moment of every run the cache holds the 32 most recently used results, in that
      order, of those stored and not replaced or cleared since. */
  lemma HoldsMostRecent<R>(codec: Codec<R>, tr: seq<State>, acts: seq<Action<R>>, i: nat)
    requires IsRun(codec, tr, acts) && i <= |acts|
    ensures var l := Remembered(codec, tr, acts, i);
            && tr[i].cache == (if |l| <= 32 then l else l[|l| - 32..])
            && NoDup(l)
            && forall e :: e in l <==> LastStored(codec, tr, acts, i, e.key) == Some(e.value)
  {
    HoldsNewestOf(codec, tr, acts, i);
  }

  /** A lookup is answered from the cache exactly when something fresh was stored under its key
      since the last clear and the key is among the 32 most recently used. */
  lemma {:induction false} HitIffFresh<R>(codec: Codec<R>, tr: seq<State>, acts: seq<Action<R>>, i: nat)
    requires IsRun(codec, tr, acts) && i < |acts| && acts[i].Lookup?
    ensures ReplyOf(codec, tr[i], acts[i]).Some? <==>
            var key, now := acts[i].request.key, acts[i].now;
            var stored := LastStored(codec, tr, acts, i, key);
            && stored.Some?
            && now - stored.value.timestamp < stored.value.ttl
            && Has(Newest(Remembered(codec, tr, acts, i)), key)
  {
    HoldsMostRecent(codec, tr, acts, i);
    var key := acts[i].request.key;
    if Has(tr[i].cache, key) {
      EntriesAreLastStored(codec, tr, acts, i, Find(tr[i].cache, key));
    }
  }

  // The keys requested in a run.
  ghost predicate KeysIn<R>(acts: seq<Action<R>>, keys: set<string>) {
    forall i | 0 <= i < |acts| && acts[i].Lookup? :: acts[i].request.key in keys
  }

  lemma {:induction false} DistinctKeys(l: Lru, keys: set<string>)
    requires NoDup(l) && forall e | e in l :: e.key in keys
    ensures |l| <= |keys|
  {
    if l != [] {
      var n := |l| - 1;
      assert l[n] in l;
      forall e | e in l[..n] ensures e.key in keys - {l[n].key} {
        assert e in l;
      }
      DistinctKeys(l[..n], keys - {l[n].key});
    }
  }

  lemma {:induction false} KeysAlongRun<R>(codec: Codec<R>, tr: seq<State>, acts: seq<Action<R>>, i: nat,
                                           keys: set<string>)
    requires IsRun(codec, tr, acts) && i <= |acts| && KeysIn(acts, keys)
    ensures forall c | c in tr[i].running :: tr[i].running[c].key in keys
    ensures forall key | LastStored(codec, tr, acts, i, key).Some? :: key in keys
  {
    if i > 0 {
      KeysAlongRun(codec, tr, acts, i - 1, keys);
      assert acts[i - 1].Lookup? ==> acts[i - 1].request.key in keys;
      assert tr[i] == Step(codec, tr[i - 1], acts[i - 1]);
    }
  }

  /** While at most 32 different keys are used nothing is ever evicted, so no command is run
      needlessly. */
  lemma {:induction false} NothingEvicted<R>(codec: Codec<R>, tr: seq<State>, acts: seq<Action<R>>, i: nat,
                                             keys: set<string>)
    requires IsRun(codec, tr, acts) && i < |acts| && acts[i].Lookup?
    requires KeysIn(acts, keys) && |keys| <= 32
    ensures tr[i].cache == Remembered(codec, tr, acts, i)
    ensures ReplyOf(codec, tr[i], acts[i]).Some? <==>
            var stored := LastStored(codec, tr, acts, i, acts[i].request.key);
            stored.Some? && acts[i].now - stored.value.timestamp < stored.value.ttl
  {
    var l, key := Remembered(codec, tr, acts, i), acts[i].request.key;
    HoldsMostRecent(codec, tr, acts, i);
    KeysAlongRun(codec, tr, acts, i, keys);
    DistinctKeys(l, keys);
    HitIffFresh(codec, tr, acts, i);
    var stored := LastStored(codec, tr, acts, i, key);
    if stored.Some? {
      assert Entry(key, stored.value) in l;
    }
  }

  // --- What is evicted ---

  // The step looks the key up, or stores something under it.
  predicate Uses<R>(codec: Codec<R>, s: State, a: Action<R>, key: string)
    requires Legal(s, a)
  {
    (a.Lookup? && a.request.key == key) || Stores(codec, s, a, key).Some?
  }

  // The last step that uses the key; -1 if there is none.
  ghost function LastUse<R>(codec: Codec<R>, tr: seq<State>, acts: seq<Action<R>>, i: nat, key: string): (n: int)
    requires IsRun(codec, tr, acts) && i <= |acts|
    ensures n < i
  {
    if i == 0 then -1
    else if Uses(codec, tr[i - 1], acts[i - 1], key) then i - 1
    else LastUse(codec, tr, acts, i - 1, key)
  }

  // The same for every key.
  ghost function LastUses<R>(codec: Codec<R>, tr: seq<State>, acts: seq<Action<R>>, i: nat): string -> int
    requires IsRun(codec, tr, acts) && i <= |acts|
  {
    (key: string) => LastUse(codec, tr, acts, i, key)
  }

  // What is used now was used after everything else, which stays as it was.
  ghost predicate UsedNow(key: string, before: string -> int, after: string -> int) {
    forall k | k != key :: after(k) == before(k) < after(key)
  }

  lemma TouchOrdered(l: Lru, key: string, before: string -> int, after: string -> int)
    requires NoDup(l) && Ordered(l, before) && UsedNow(key, before, after)
    ensures Ordered(Touch(l, key), after)
  {
    var rest := Without(l, key);
    WithoutOrdered(l, key, before);
    WithoutAbsent(l, key);
    OrderedStep(rest, rest, if Has(l, key) then [Find(l, key)] else [], key, before, after);
    assert rest + [] == rest;
  }

  lemma StoreOrdered(l: Lru, key: string, c: Cached, before: string -> int, after: string -> int)
    requires NoDup(l) && Ordered(l, before) && UsedNow(key, before, after)
    ensures Ordered(Store(l, key, c), after)
  {
    var rest := Without(l, key);
    WithoutOrdered(l, key, before);
    WithoutAbsent(l, key);
    OrderedStep(rest, if !Has(l, key) && |l| >= CAPACITY then rest[1..] else rest, [Entry(key, c)], key, before, after);
  }

  lemma StepOrdered<R>(codec: Codec<R>, s: State, a: Action<R>, before: string -> int, after: string -> int, now: int)
    requires Legal(s, a) && NoDup(s.cache) && Ordered(s.cache, before)
    requires forall k :: before(k) < now && after(k) == if Uses(codec, s, a, k) then now else before(k)
    ensures Ordered(Step(codec, s, a).cache, after)
  {
    if a.Lookup? {
      TouchOrdered(s.cache, a.request.key, before, after);
    } else if a.Finish? {
      var key := s.running[a.call].key;
      var stored := Stores(codec, s, a, key);
      if stored.Some? {
        StoreOrdered(s.cache, key, stored.value, before, after);
      }
    }
  }

  /** At every moment of every run the cache is ordered by last use, read off the steps alone. */
  lemma {:induction false} OrderedByLastUse<R>(codec: Codec<R>, tr: seq<State>, acts: seq<Action<R>>, i: nat)
    requires IsRun(codec, tr, acts) && i <= |acts|
    ensures Ordered(tr[i].cache, LastUses(codec, tr, acts, i))
  {
    if i > 0 {
      OrderedByLastUse(codec, tr, acts, i - 1);
      CacheWellFormed(codec, tr, acts, i - 1);
      StepOrdered(codec, tr[i - 1], acts[i - 1], LastUses(codec, tr, acts, i - 1), LastUses(codec, tr, acts, i), i - 1);
    }
  }

  lemma StoreKeeps(l: Lru, key: string, c: Cached)
    requires NoDup(l) && (Has(l, key) || |l| < 32)
    ensures forall e | e in l && e.key != key :: e in Store(l, key, c)
  {
    var rest := Without(l, key);
    WithoutMembers(l, key);
    assert forall e | e in rest :: e in rest + [Entry(key, c)];
  }

  lemma StoreEvicts(l: Lru, key: string, c: Cached, used: string -> int)
    requires NoDup(l) && Ordered(l, used) && !Has(l, key) && |l| == 32
    ensures l[0] !in Store(l, key, c)
    ensures forall e | e in l && e != l[0] :: e in Store(l, key, c) && used(l[0].key) < used(e.key)
  {
    var l' := l[1..] + [Entry(key, c)];
    assert l' == Store(l, key, c);
    forall e | e in l && e != l[0] ensures e in l' && used(l[0].key) < used(e.key) {
      var j :| 0 <= j < |l| && l[j] == e;
      assert l'[j - 1] == e;
    }
  }

  /** Storing a result under a key that a cache of 32 does not hold removes exactly one entry, and every
      other entry was used after the removed one. Any other store removes no other key. */
  lemma EvictsLeastRecentlyUsed<R>(codec: Codec<R>, tr: seq<State>, acts: seq<Action<R>>, i: nat)
    requires IsRun(codec, tr, acts) && i < |acts| && acts[i].Finish?
    requires Stores(codec, tr[i], acts[i], tr[i].running[acts[i].call].key).Some?
    ensures var l, l', key := tr[i].cache, tr[i + 1].cache, tr[i].running[acts[i].call].key;
            && (forall e | e in l && e.key != key && (Has(l, key) || |l| < 32) :: e in l')
            && (!Has(l, key) && |l| == 32 ==>
                  exists victim ::
                    && victim in l && victim !in l'
                    && forall e | e in l && e != victim ::
                         && e in l'
                         && LastUse(codec, tr, acts, i, victim.key) < LastUse(codec, tr, acts, i, e.key))
  {
    var l, key := tr[i].cache, tr[i].running[acts[i].call].key;
    var c := Stores(codec, tr[i], acts[i], key).value;
    CacheWellFormed(codec, tr, acts, i);
    OrderedByLastUse(codec, tr, acts, i);
    if Has(l, key) || |l| < 32 {
      StoreKeeps(l, key, c);
    } else {
      StoreEvicts(l, key, c, LastUses(codec, tr, acts, i));
      assert l[0] in l;
    }
  }

  // --- Agreement with the uncached command ---

  // Running `key` yields `command(key)` whenever it succeeds.
  ghost predicate Deterministic<R>(tr: seq<State>, acts: seq<Action<R>>, command: string -> R)
    requires |tr| == |acts| + 1
  {
    forall i | 0 <= i < |acts| && acts[i].Finish? && acts[i].call in tr[i].running && acts[i].outcome.Ok? ::
      acts[i].outcome.value == command(tr[i].running[acts[i].call].key)
  }

  lemma {:induction false} CacheHoldsCommand<R(!new)>(codec: Codec<R>, tr: seq<State>, acts: seq<Action<R>>, i: nat,
                                                     command: string -> R, e: Entry<Cached>)
    requires IsRun(codec, tr, acts) && i <= |acts| && Deterministic(tr, acts, command)
    requires e in tr[i].cache
    ensures codec.encode(command(e.key)) == Some(e.value.result)
  {
    CacheWellFormed(codec, tr, acts, i - 1);
    StepMember(codec, tr[i - 1], acts[i - 1], e);
    if Stores(codec, tr[i - 1], acts[i - 1], e.key).None? {
      CacheHoldsCommand(codec, tr, acts, i - 1, command, e);
    }
  }

  /** For a deterministic command every result any caller gets, cached or not and however calls
      overlap, is the command's own result for that caller's key. */
  lemma CachedEqualsUncached<R(!new)>(codec: Codec<R>, tr: seq<State>, acts: seq<Action<R>>, i: nat,
                                      command: string -> R)
    requires IsRun(codec, tr, acts) && i < |acts| && Faithful(codec) && Deterministic(tr, acts, command)
    requires ReplyOf(codec, tr[i], acts[i]).Some?
    ensures var key := if acts[i].Lookup? then acts[i].request.key else tr[i].running[acts[i].call].key;
            var reply := ReplyOf(codec, tr[i], acts[i]).value;
            && (acts[i].Lookup? ==> reply == Done(command(key)))
            && (reply.Done? ==> reply.value == command(key))
            && (acts[i].Finish? ==>
                  reply == if acts[i].outcome.Failed? then CommandError
                           else if codec.encode(command(key)).None? then CodecError
                           else Done(command(key)))
  {
    if acts[i].Lookup? {
      CacheHoldsCommand(codec, tr, acts, i, command, Find(tr[i].cache, acts[i].request.key));
    }
  }

  /** At any moment of any run, a lookup and a call that ends without a result to store, because the
      command fails or its result cannot be encoded, leave every stored result and its expiry as
      they were; a lookup may only make its entry the most recent one. */
  lemma FailedCallKeepsResults<R>(codec: Codec<R>, tr: seq<State>, acts: seq<Action<R>>, i: nat)
    requires IsRun(codec, tr, acts) && i < |acts|
    requires match acts[i]
             case Lookup(_, _, _) => true
             case Finish(_, outcome, _) => outcome.Failed? || codec.encode(outcome.value).None?
             case Clear => false
    ensures forall e :: e in tr[i + 1].cache <==> e in tr[i].cache
    ensures acts[i].Finish? ==> tr[i + 1].cache == tr[i].cache
    ensures forall key :: LastStored(codec, tr, acts, i + 1, key) == LastStored(codec, tr, acts, i, key)
  {
    CacheWellFormed(codec, tr, acts, i);
    if acts[i].Lookup? {
      TouchMembers(tr[i].cache, acts[i].request.key);
    }
    assert tr[i + 1] == Step(codec, tr[i], acts[i]);
  }
}
