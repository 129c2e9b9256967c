/**
 What the LRU cache promises over whole runs of gets and puts: hits return what was last put,
 the least recently used key goes first, and a bigger cache never serves less.
 */
module LruRuns {
  import opened LruCache
  import opened Options
  import opened Recency

  datatype Op<V> =
    | GetOp(key: string, now: int)
    | PutOp(key: string, value: V, now: int)

  function Step<V>(maxSize: int, ttl: int, c: Cache<V>, op: Op<V>): Cache<V> {
    match op
    case GetOp(key, now) => AfterGet(c, key, now, ttl)
    case PutOp(key, value, now) => AfterPut(c, key, value, now, maxSize)
  }

  function Run<V>(maxSize: int, ttl: int, ops: seq<Op<V>>): Cache<V> {
    if ops == [] then Cache([], 0, 0)
    else Step(maxSize, ttl, Run(maxSize, ttl, ops[..|ops| - 1]), ops[|ops| - 1])
  }

  function Room(maxSize: int): nat {
    if maxSize > 0 then maxSize else 0
  }

  ghost predicate Sound<V>(c: Cache<V>, maxSize: int) {
    NoDup(c.entries) && |c.entries| <= Room(maxSize)
  }

  // A call keeps the other entries in order, except perhaps the first, and puts the key it used
  // at the end.
  lemma StepShape<V>(maxSize: int, ttl: int, c: Cache<V>, op: Op<V>) returns (kept: Entries<V>, used: Entries<V>)
    requires Sound(c, maxSize)
    ensures Step(maxSize, ttl, c, op).entries == kept + used
    ensures var rest := Without(c.entries, op.key); kept == rest || (rest != [] && kept == rest[1..])
    ensures used == [] || (|used| == 1 && used[0].key == op.key
                           && (op.PutOp? || IsHit(c.entries, op.key, op.now, ttl)))
  {
    var rest, l' := Without(c.entries, op.key), Step(maxSize, ttl, c, op).entries;
    if l' == rest {
      kept, used := rest, [];
    } else {
      kept, used := l'[..|l'| - 1], [l'[|l'| - 1]];
    }
  }

  lemma StepSound<V>(maxSize: int, ttl: int, c: Cache<V>, op: Op<V>)
    requires Sound(c, maxSize)
    ensures Sound(Step(maxSize, ttl, c, op), maxSize)
  {
    var kept, used := StepShape(maxSize, ttl, c, op);
    WithoutNoDup(c.entries, op.key);
    WithoutAbsent(c.entries, op.key);
    ShapeNoDup(Without(c.entries, op.key), kept, used, op.key);
    StepSize(maxSize, ttl, c, op);
  }

  lemma ShapeNoDup<V>(rest: Entries<V>, kept: Entries<V>, used: Entries<V>, key: string)
    requires NoDup(rest) && !Has(rest, key)
    requires kept == rest || (rest != [] && kept == rest[1..])
    requires used == [] || (|used| == 1 && used[0].key == key)
    ensures NoDup(kept + used)
  {
    assert !Has(kept, key);
    if used != [] {
      NoDupAppend(kept, used[0]);
      assert kept + used == kept + [used[0]];
    } else {
      assert kept + used == kept;
    }
  }

  lemma StepSize<V>(maxSize: int, ttl: int, c: Cache<V>, op: Op<V>)
    requires Sound(c, maxSize)
    ensures |Step(maxSize, ttl, c, op).entries| <= Room(maxSize)
  {
  }

  lemma {:induction false} RunSound<V>(maxSize: int, ttl: int, ops: seq<Op<V>>)
    ensures Sound(Run(maxSize, ttl, ops), maxSize)
  {
    if ops != [] {
      RunSound(maxSize, ttl, ops[..|ops| - 1]);
      StepSound(maxSize, ttl, Run(maxSize, ttl, ops[..|ops| - 1]), ops[|ops| - 1]);
    }
  }

  // --- Two caches of different sizes on the same calls ---

  // The smaller cache's entries are, in the same order, among the bigger one's; and the bigger
  // one has at least as much free space.
  ghost predicate Included<V>(a: Cache<V>, b: Cache<V>, small: int, big: int) {
    && Sound(a, small) && Sound(b, big)
    && Sub(a.entries, b.entries)
    && Room(small) - |a.entries| <= Room(big) - |b.entries|
    && a.hits <= b.hits
  }

  lemma IncludedAnswers<V>(a: Cache<V>, b: Cache<V>, small: int, big: int, key: string)
    requires Included(a, b, small, big) && Has(a.entries, key)
    ensures Has(b.entries, key) && Find(b.entries, key) == Find(a.entries, key)
  {
    SubMembers(a.entries, b.entries);
    FindIsMember(b.entries, Find(a.entries, key));
  }

  lemma IncludedStep<V>(a: Cache<V>, b: Cache<V>, small: int, big: int, ttl: int, op: Op<V>)
    requires small <= big && Included(a, b, small, big)
    ensures Included(Step(small, ttl, a, op), Step(big, ttl, b, op), small, big)
  {
    StepSound(small, ttl, a, op);
    StepSound(big, ttl, b, op);
    SubWithout(a.entries, b.entries, op.key);
    if Has(a.entries, op.key) {
      IncludedAnswers(a, b, small, big, op.key);
    }
    match op
    case GetOp(key, now) =>
      IncludedGet(a, b, small, big, ttl, key, now);
    case PutOp(key, value, now) =>
      IncludedPut(a, b, small, big, key, value, now);
  }

  lemma IncludedGet<V>(a: Cache<V>, b: Cache<V>, small: int, big: int, ttl: int, key: string, now: int)
    requires Included(a, b, small, big)
    ensures Sub(AfterGet(a, key, now, ttl).entries, AfterGet(b, key, now, ttl).entries)
  {
    SubWithout(a.entries, b.entries, key);
    if IsHit(b.entries, key, now, ttl) {
      var e := Find(b.entries, key);
      if Has(a.entries, key) {
        IncludedAnswers(a, b, small, big, key);
        SubAppend(Without(a.entries, key), Without(b.entries, key), e);
      } else {
        SubWiden(Without(a.entries, key), Without(b.entries, key), e);
      }
    } else if Has(a.entries, key) {
      IncludedAnswers(a, b, small, big, key);
    }
  }

  lemma {:induction false} SubWiden<V>(a: seq<Entry<V>>, b: seq<Entry<V>>, e: Entry<V>)
    requires Sub(a, b)
    ensures Sub(a, b + [e])
  {
    if a != [] {
      assert (b + [e])[1..] == b[1..] + [e];
      if a[0] == b[0] && Sub(a[1..], b[1..]) {
        SubWiden(a[1..], b[1..], e);
      } else {
        SubWiden(a, b[1..], e);
      }
    }
  }

  lemma IncludedPut<V>(a: Cache<V>, b: Cache<V>, small: int, big: int, key: string, value: V, now: int)
    requires small <= big && Included(a, b, small, big)
    ensures Sub(AfterPut(a, key, value, now, small).entries, AfterPut(b, key, value, now, big).entries)
  {
    var e := Entry(key, Stamped(value, now));
    SubWithout(a.entries, b.entries, key);
    if Has(a.entries, key) {
      IncludedAnswers(a, b, small, big, key);
      SubAppend(Without(a.entries, key), Without(b.entries, key), e);
    } else if small > 0 {
      // Only the bigger cache may know the key already.
      var a', b' := a.entries, Without(b.entries, key);
      if |a'| == small {
        SubDropLeft(a', b');
        a' := a'[1..];
        if !Has(b.entries, key) && |b.entries| == big {
          SubDropBoth(a.entries, b.entries);
          b' := b.entries[1..];
        }
      }
      SubAppend(a', b', e);
    }
  }

  lemma {:induction false} RunIncluded<V>(small: int, big: int, ttl: int, ops: seq<Op<V>>)
    requires small <= big
    ensures Included(Run(small, ttl, ops), Run(big, ttl, ops), small, big)
  {
    if ops != [] {
      var ops' := ops[..|ops| - 1];
      RunIncluded(small, big, ttl, ops');
      IncludedStep(Run(small, ttl, ops'), Run(big, ttl, ops'), small, big, ttl, ops[|ops| - 1]);
    }
  }

  /** On the same calls, whatever the clock reads and whatever expires, the bigger cache holds
      every entry of the smaller one with the same value and timestamp. So it answers every
      lookup the smaller one answers, with the same value, and its hits are never fewer. */
  lemma BiggerCacheIncludesSmaller<V>(small: int, big: int, ttl: int, ops: seq<Op<V>>)
    requires small <= big
    ensures forall e :: e in Run(small, ttl, ops).entries ==> e in Run(big, ttl, ops).entries
    ensures Run(small, ttl, ops).hits <= Run(big, ttl, ops).hits
    ensures forall key, now :: Answer(Run(small, ttl, ops), key, now, ttl).Some? ==>
              Answer(Run(big, ttl, ops), key, now, ttl) == Answer(Run(small, ttl, ops), key, now, ttl)
  {
    RunIncluded(small, big, ttl, ops);
    var a, b := Run(small, ttl, ops), Run(big, ttl, ops);
    SubMembers(a.entries, b.entries);
    forall key, now | Answer(a, key, now, ttl).Some?
      ensures Answer(b, key, now, ttl) == Answer(a, key, now, ttl)
    {
      IncludedAnswers(a, b, small, big, key);
    }
  }

  // --- What a hit returns, read off the calls alone ---

  function LastPut<V>(ops: seq<Op<V>>, key: string): Option<Stamped<V>> {
    if ops == [] then None
    else
      var op := ops[|ops| - 1];
      if op.PutOp? && op.key == key then Some(Stamped(op.value, op.now))
      else LastPut(ops[..|ops| - 1], key)
  }

  lemma {:induction false} EntriesAreLastPuts<V>(maxSize: int, ttl: int, ops: seq<Op<V>>, e: Entry<Stamped<V>>)
    requires e in Run(maxSize, ttl, ops).entries
    ensures LastPut(ops, e.key) == Some(e.value)
  {
    var ops', op := ops[..|ops| - 1], ops[|ops| - 1];
    var l := Run(maxSize, ttl, ops').entries;
    RunSound(maxSize, ttl, ops');
    WithoutMembers(l, op.key);
    if e in l && !(op.PutOp? && op.key == e.key) {
      EntriesAreLastPuts(maxSize, ttl, ops', e);
    } else if op.PutOp? && op.key == e.key && e != Entry(op.key, Stamped(op.value, op.now)) {
      // Nothing else under the key survives the put.
      assert e in l;
      FindIsMember(l, e);
      assert false;
    }
  }

  /** A hit returns the value last put under the key, and that put is younger than the TTL;
      an expired or absent key is a miss. */
  lemma HitsReturnLastPut<V>(maxSize: int, ttl: int, ops: seq<Op<V>>, key: string, now: int)
    ensures var answer := Answer(Run(maxSize, ttl, ops), key, now, ttl);
            answer.Some? ==>
              && LastPut(ops, key).Some?
              && LastPut(ops, key).value.value == answer.value
              && now - LastPut(ops, key).value.time < ttl
  {
    var l := Run(maxSize, ttl, ops).entries;
    if IsHit(l, key, now, ttl) {
      EntriesAreLastPuts(maxSize, ttl, ops, Find(l, key));
    }
  }

  // --- Who is evicted, and who stays ---

  // The index of the last call that names the key, put or get; -1 if there is none.
  function LastCall<V>(ops: seq<Op<V>>, key: string): (i: int)
    ensures -1 <= i < |ops|
  {
    if ops == [] then -1
    else if ops[|ops| - 1].key == key then |ops| - 1
    else LastCall(ops[..|ops| - 1], key)
  }

  ghost predicate ByCall<V>(ops: seq<Op<V>>, l: Entries<V>) {
    Ordered(l, (key: string) => LastCall(ops, key))
  }

  /** Over every run the deque is ordered by last call, read off the calls alone. */
  lemma {:induction false} OrderedByLastCall<V>(maxSize: int, ttl: int, ops: seq<Op<V>>)
    ensures ByCall(ops, Run(maxSize, ttl, ops).entries)
  {
    if ops != [] {
      var ops', op := ops[..|ops| - 1], ops[|ops| - 1];
      var c := Run(maxSize, ttl, ops');
      OrderedByLastCall(maxSize, ttl, ops');
      RunSound(maxSize, ttl, ops');
      var before, after := (key: string) => LastCall(ops', key), (key: string) => LastCall(ops, key);
      WithoutOrdered(c.entries, op.key, before);
      WithoutMembers(c.entries, op.key);
      var kept, used := StepShape(maxSize, ttl, c, op);
      OrderedStep(Without(c.entries, op.key), kept, used, op.key, before, after);
    }
  }

  // What a put does to the entries of a cache that is sound.
  lemma PutMembers<V>(maxSize: int, ttl: int, c: Cache<V>, key: string, value: V, now: int)
    requires Sound(c, maxSize) && maxSize >= 1
    ensures var l, l' := c.entries, AfterPut(c, key, value, now, maxSize).entries;
            var full := !Has(l, key) && |l| == maxSize;
            && (full ==> l[0] !in l')
            && forall e | e in l && e.key != key && !(full && e == l[0]) :: e in l'
  {
    var l, e' := c.entries, Entry(key, Stamped(value, now));
    WithoutMembers(l, key);
    if !Has(l, key) && |l| == maxSize {
      var l' := l[1..] + [e'];
      assert forall i | 1 <= i < |l| :: l'[i - 1] == l[i];
      assert forall i | 1 <= i < |l| :: l[i].key != l[0].key;
    } else {
      var rest := Without(l, key);
      assert forall e | e in rest :: e in rest + [e'];
    }
  }

  /** A put into a full cache of a key it does not hold removes exactly one entry, and every
      other key was called after the removed one. Any other put removes nothing. */
  lemma {:induction false} EvictsLeastRecentlyUsed<V>(maxSize: int, ttl: int, ops: seq<Op<V>>, key: string, value: V,
                                                      now: int)
    requires maxSize >= 1
    ensures var l := Run(maxSize, ttl, ops).entries;
            var l' := Run(maxSize, ttl, ops + [PutOp(key, value, now)]).entries;
            && (forall e | e in l && e.key != key && (Has(l, key) || |l| < maxSize) :: e in l')
            && (!Has(l, key) && |l| == maxSize ==>
                  exists victim ::
                    && victim in l && victim !in l'
                    && forall e | e in l && e != victim ::
                         && e in l'
                         && LastCall(ops, victim.key) < LastCall(ops, e.key))
  {
    var ops' := ops + [PutOp(key, value, now)];
    assert ops'[..|ops|] == ops;
    var c := Run(maxSize, ttl, ops);
    var l, l' := c.entries, Run(maxSize, ttl, ops').entries;
    RunSound(maxSize, ttl, ops);
    PutMembers(maxSize, ttl, c, key, value, now);
    OrderedByLastCall(maxSize, ttl, ops);
    if !Has(l, key) && |l| == maxSize {
      var victim := l[0];
      assert victim in l && victim !in l';
      forall e | e in l && e != victim
        ensures e in l' && LastCall(ops, victim.key) < LastCall(ops, e.key)
      {
        assert Has(l, e.key);
        var j :| 0 <= j < |l| && l[j] == e;
      }
    }
  }

  // The other keys called since the last call that names this one.
  function OthersSince<V>(ops: seq<Op<V>>, key: string): set<string> {
    if ops == [] || ops[|ops| - 1].key == key then {}
    else OthersSince(ops[..|ops| - 1], key) + {ops[|ops| - 1].key}
  }

  /** What a caller may rely on, read off the calls alone: the value last put, as long as no get has
      found it expired and fewer than `maxSize` other keys have ever been called between two calls
      that name it. */
  function Reliable<V>(maxSize: int, ttl: int, ops: seq<Op<V>>, key: string): Option<Stamped<V>> {
    if ops == [] then None
    else
      var op, before := ops[|ops| - 1], Reliable(maxSize, ttl, ops[..|ops| - 1], key);
      if op.key != key then (if |OthersSince(ops, key)| < maxSize then before else None)
      else match op
        case PutOp(_, value, now) => if maxSize >= 1 then Some(Stamped(value, now)) else None
        case GetOp(_, now) => if before.Some? && now - before.value.time < ttl then before else None
  }

  lemma {:induction false} CalledSince<V>(ops: seq<Op<V>>, key: string, other: string)
    requires LastCall(ops, key) < LastCall(ops, other)
    ensures other in OthersSince(ops, key)
  {
    if ops[|ops| - 1].key != other {
      CalledSince(ops[..|ops| - 1], key, other);
    }
  }

  // As many distinct keys as entries.
  lemma {:induction false} KeysBound<V>(l: Entries<V>, keys: set<string>)
    requires NoDup(l) && forall i | 0 <= i < |l| :: l[i].key in keys
    ensures |l| <= |keys|
  {
    if l != [] {
      var n := |l| - 1;
      KeysBound(l[..n], keys - {l[n].key});
    }
  }

  // When the first entry of a full cache gives way to another key, that many keys have been called
  // since its own last call.
  lemma EvictedAfterMany<V>(maxSize: int, ttl: int, ops: seq<Op<V>>)
    requires ops != [] && maxSize >= 1
    requires var l := Run(maxSize, ttl, ops[..|ops| - 1]).entries; |l| == maxSize && !Has(l, ops[|ops| - 1].key)
    ensures |OthersSince(ops, Run(maxSize, ttl, ops[..|ops| - 1]).entries[0].key)| >= maxSize
  {
    var ops', op := ops[..|ops| - 1], ops[|ops| - 1];
    var l := Run(maxSize, ttl, ops').entries;
    var key := l[0].key;
    RunSound(maxSize, ttl, ops');
    OrderedByLastCall(maxSize, ttl, ops');
    var others := OthersSince(ops', key);
    forall i | 1 <= i < |l| ensures l[i].key in others && l[i].key != op.key {
      CalledSince(ops', key, l[i].key);
    }
    KeysBound(l[1..], others - {op.key});
    assert OthersSince(ops, key) == (others - {op.key}) + {op.key};
  }

  /** Retention: what is reliable is in the cache, whatever the clock reads. So a lookup of it that is
      in time hits. */
  lemma {:induction false} ReliableIsHeld<V>(maxSize: int, ttl: int, ops: seq<Op<V>>, key: string)
    ensures var s := Reliable(maxSize, ttl, ops, key);
            s.Some? ==>
              && Entry(key, s.value) in Run(maxSize, ttl, ops).entries
              && forall now :: now - s.value.time < ttl ==>
                   Answer(Run(maxSize, ttl, ops), key, now, ttl) == Some(s.value.value)
  {
    var s := Reliable(maxSize, ttl, ops, key);
    if s.Some? {
      var ops', op, e := ops[..|ops| - 1], ops[|ops| - 1], Entry(key, s.value);
      var c := Run(maxSize, ttl, ops');
      ReliableIsHeld(maxSize, ttl, ops', key);
      RunSound(maxSize, ttl, ops');
      if op.key != key || op.GetOp? {
        FindIsMember(c.entries, e);
        StepKeeps(maxSize, ttl, ops, e);
      }
      RunSound(maxSize, ttl, ops);
      FindIsMember(Run(maxSize, ttl, ops).entries, e);
    }
  }

  // One more call keeps a reliable entry.
  lemma StepKeeps<V>(maxSize: int, ttl: int, ops: seq<Op<V>>, e: Entry<Stamped<V>>)
    requires ops != [] && e in Run(maxSize, ttl, ops[..|ops| - 1]).entries
    requires var op := ops[|ops| - 1];
             if op.key == e.key then op.GetOp? && Fresh(e.value, op.now, ttl)
             else |OthersSince(ops, e.key)| < maxSize
    ensures e in Run(maxSize, ttl, ops).entries
  {
    var ops', op := ops[..|ops| - 1], ops[|ops| - 1];
    var c := Run(maxSize, ttl, ops');
    RunSound(maxSize, ttl, ops');
    FindIsMember(c.entries, e);
    WithoutMembers(c.entries, op.key);
    if op.PutOp? {
      PutMembers(maxSize, ttl, c, op.key, op.value, op.now);
      if !Has(c.entries, op.key) && |c.entries| == maxSize && e == c.entries[0] {
        EvictedAfterMany(maxSize, ttl, ops);
      }
    }
  }

  function Gets<V>(ops: seq<Op<V>>): nat {
    if ops == [] then 0 else Gets(ops[..|ops| - 1]) + if ops[|ops| - 1].GetOp? then 1 else 0
  }

  // Every lookup is counted once, and there are never more entries than fit.
  lemma {:induction false} CountersAddUp<V>(maxSize: int, ttl: int, ops: seq<Op<V>>)
    ensures Run(maxSize, ttl, ops).hits + Run(maxSize, ttl, ops).misses == Gets(ops)
    ensures |Run(maxSize, ttl, ops).entries| <= Room(maxSize)
  {
    RunSound(maxSize, ttl, ops);
    if ops != [] {
      CountersAddUp(maxSize, ttl, ops[..|ops| - 1]);
    }
  }
}
