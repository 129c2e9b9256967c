/**
 The benchmark runner's LRU cache with expiry: a dict of (value, timestamp) and a deque of
 keys. Clock readings are inputs and need not be monotone.
 */
module LruCache {
  import opened Options
  import opened Recency

  // A stored value and the clock reading at which it was put.
  datatype Stamped<V> = Stamped(value: V, time: int)

  type Entries<V> = seq<Entry<Stamped<V>>>

  // What a `put` may do: the deque is empty when `max_size` leaves no room at all.
  datatype PutResult = Stored | IndexError

  // --- The cache as a recency list ---

  datatype Cache<V> = Cache(entries: Entries<V>, hits: nat, misses: nat)

  predicate Fresh<V>(s: Stamped<V>, now: int, ttl: int) {
    now - s.time < ttl
  }

  predicate IsHit<V>(l: Entries<V>, key: string, now: int, ttl: int) {
    Has(l, key) && Fresh(Find(l, key).value, now, ttl)
  }

  function AfterGet<V>(c: Cache<V>, key: string, now: int, ttl: int): Cache<V> {
    if IsHit(c.entries, key, now, ttl)
    then Cache(Without(c.entries, key) + [Find(c.entries, key)], c.hits + 1, c.misses)
    else Cache(Without(c.entries, key), c.hits, c.misses + 1)
  }

  function Answer<V>(c: Cache<V>, key: string, now: int, ttl: int): Option<V> {
    if IsHit(c.entries, key, now, ttl) then Some(Find(c.entries, key).value.value) else None
  }

  predicate Raises<V>(l: Entries<V>, key: string, maxSize: int) {
    l == [] && maxSize <= 0
  }

  function AfterPut<V>(c: Cache<V>, key: string, value: V, now: int, maxSize: int): Cache<V> {
    var e := Entry(key, Stamped(value, now));
    if Has(c.entries, key) then c.(entries := Without(c.entries, key) + [e])
    else if |c.entries| < maxSize then c.(entries := c.entries + [e])
    else if c.entries == [] then c
    else c.(entries := c.entries[1..] + [e])
  }

  // --- The code ---

  ghost predicate Distinct(order: seq<string>) {
    forall i, j | 0 <= i < j < |order| :: order[i] != order[j]
  }

  function RemoveFirst(order: seq<string>, key: string): seq<string> {
    if order == [] then []
    else if order[0] == key then order[1..]
    else [order[0]] + RemoveFirst(order[1..], key)
  }

  ghost function EntriesOf<V>(cache: map<string, Stamped<V>>, order: seq<string>): Entries<V>
    requires forall k | k in order :: k in cache
  {
    seq(|order|, i requires 0 <= i < |order| => Entry(order[i], cache[order[i]]))
  }

  class LRUCache<V> {
    var cache: map<string, Stamped<V>>
    var order: seq<string>
    const maxSize: int
    const ttl: int
    var hits: nat
    var misses: nat

    // The deque holds exactly the keys of the dict, each once, and no more than fit.
    ghost predicate Valid()
      reads this
    {
      && Distinct(order)
      && (forall k :: k in cache <==> k in order)
      && |order| <= if maxSize > 0 then maxSize else 0
    }

    ghost function View(): Cache<V>
      reads this
      requires Valid()
    {
      Cache(EntriesOf(cache, order), hits, misses)
    }

    constructor (maxSize: int, ttl: int)
      ensures this.maxSize == maxSize && this.ttl == ttl
      ensures Valid() && View() == Cache([], 0, 0)
    {
      this.maxSize, this.ttl := maxSize, ttl;
      cache, order := map[], [];
      hits, misses := 0, 0;
    }

    method Get(key: string, now: int) returns (result: Option<V>)
      requires Valid()
      modifies this
      ensures Valid()
      ensures result == if key in old(cache) && now - old(cache)[key].time < ttl then Some(old(cache)[key].value)
                        else None
      ensures hits == old(hits) + (if result.Some? then 1 else 0)
      ensures misses == old(misses) + (if result.None? then 1 else 0)
      ensures result == Answer(old(View()), key, now, ttl)
      ensures View() == AfterGet(old(View()), key, now, ttl)
    {
      if key in cache {
        var e := cache[key];
        if now - e.time < ttl {
          GetHits(cache, order, hits, misses, key, now, ttl);
          hits := hits + 1;
          order := RemoveFirst(order, key);
          order := order + [key];
          return Some(e.value);
        }
        GetExpires(cache, order, hits, misses, key, now, ttl);
        cache := cache - {key};
        order := RemoveFirst(order, key);
      } else {
        GetFindsNothing(cache, order, hits, misses, key, now, ttl);
      }
      misses := misses + 1;
      return None;
    }

    method Put(key: string, value: V, now: int) returns (result: PutResult)
      requires Valid()
      modifies this
      ensures Valid()
      ensures result.IndexError? <==> maxSize <= 0
      ensures result.IndexError? ==> cache == old(cache) && order == old(order)
      ensures result.Stored? ==> key in cache && cache[key] == Stamped(value, now)
      ensures hits == old(hits) && misses == old(misses)
      ensures result.IndexError? == Raises(old(View()).entries, key, maxSize)
      ensures View() == AfterPut(old(View()), key, value, now, maxSize)
    {
      EntriesFind(cache, order, key);
      if key in cache {
        EntriesRemove(cache, order, key);
        RemoveMembers(order, key);
        order := RemoveFirst(order, key);
      } else if |cache| >= maxSize {
        SizesAgree(cache, order);
        if order == [] {
          return IndexError;
        }
        EntriesEvict(cache, order);
        var oldest := order[0];
        order := order[1..];
        cache := cache - {oldest};
      } else {
        SizesAgree(cache, order);
      }
      assert key !in order && Distinct(order);
      EntriesAppend(cache, order, key, Stamped(value, now));
      cache := cache[key := Stamped(value, now)];
      order := order + [key];
      return Stored;
    }
  }

  lemma {:induction false} RemoveMembers(order: seq<string>, key: string)
    requires Distinct(order)
    ensures Distinct(RemoveFirst(order, key))
    ensures forall k :: k in RemoveFirst(order, key) <==> k in order && k != key
    ensures |RemoveFirst(order, key)| == if key in order then |order| - 1 else |order|
  {
    if order != [] {
      assert forall k :: k in order <==> k == order[0] || k in order[1..];
      RemoveMembers(order[1..], key);
      assert order[0] !in RemoveFirst(order[1..], key);
      var r := RemoveFirst(order, key);
      forall i, j | 0 <= i < j < |r| ensures r[i] != r[j] {
        if order[0] != key && i == 0 {
          assert r[j] == RemoveFirst(order[1..], key)[j - 1];
        }
      }
    }
  }

  // Storing a key that is not in the deque and appending it there adds one entry at the end.
  lemma EntriesAppend<V>(cache: map<string, Stamped<V>>, order: seq<string>, key: string, s: Stamped<V>)
    requires (forall k | k in order :: k in cache) && key !in order
    ensures EntriesOf(cache[key := s], order + [key]) == EntriesOf(cache, order) + [Entry(key, s)]
  {
    assert forall i | 0 <= i < |order| :: order[i] in order;
  }

  lemma EntriesEvict<V>(cache: map<string, Stamped<V>>, order: seq<string>)
    requires (forall k | k in order :: k in cache) && Distinct(order) && order != []
    ensures forall k | k in order[1..] :: k in cache - {order[0]}
    ensures EntriesOf(cache - {order[0]}, order[1..]) == EntriesOf(cache, order)[1..]
  {
  }

  lemma {:induction false} SizesAgree<V>(cache: map<string, Stamped<V>>, order: seq<string>)
    requires Distinct(order) && forall k :: k in cache <==> k in order
    ensures |cache| == |order|
  {
    if order == [] {
      assert cache == map[];
    } else {
      assert forall k :: k in order <==> k == order[0] || k in order[1..];
      SizesAgree(cache - {order[0]}, order[1..]);
      assert |cache| == |cache - {order[0]}| + 1;
    }
  }

  lemma {:induction false} EntriesFind<V>(cache: map<string, Stamped<V>>, order: seq<string>, key: string)
    requires forall k | k in order :: k in cache
    ensures Has(EntriesOf(cache, order), key) <==> key in order
    ensures key in order ==> Find(EntriesOf(cache, order), key) == Entry(key, cache[key])
  {
    var l := EntriesOf(cache, order);
    if order != [] {
      assert key in order <==> key == order[0] || key in order[1..];
      EntriesFind(cache, order[1..], key);
      assert l[1..] == EntriesOf(cache, order[1..]);
      assert l[0].key == order[0];
    }
  }

  lemma EntriesCons<V>(cache: map<string, Stamped<V>>, key: string, order: seq<string>)
    requires key in cache && forall k | k in order :: k in cache
    ensures EntriesOf(cache, [key] + order) == [Entry(key, cache[key])] + EntriesOf(cache, order)
  {
    assert forall i | 0 <= i < |order| :: ([key] + order)[i + 1] == order[i];
  }

  lemma {:induction false} EntriesRemove<V>(cache: map<string, Stamped<V>>, order: seq<string>, key: string)
    requires (forall k | k in order :: k in cache) && Distinct(order)
    ensures forall k | k in RemoveFirst(order, key) :: k in cache
    ensures EntriesOf(cache, RemoveFirst(order, key)) == Without(EntriesOf(cache, order), key)
  {
    if order != [] {
      var first, rest := order[0], order[1..];
      assert order == [first] + rest && first in order;
      assert forall k | k in rest :: k in order;
      EntriesRemove(cache, rest, key);
      EntriesCons(cache, first, rest);
      var l := EntriesOf(cache, order);
      assert l[0].key == first && l[1..] == EntriesOf(cache, rest);
      if first != key {
        EntriesCons(cache, first, RemoveFirst(rest, key));
      }
    }
  }

  // A hit: the key moves to the end of the deque, and its entry to the end of the list.
  lemma MovedToEnd<V>(cache: map<string, Stamped<V>>, order: seq<string>, key: string)
    requires (forall k :: k in cache <==> k in order) && Distinct(order) && key in cache
    ensures var order' := RemoveFirst(order, key) + [key];
            && Distinct(order') && |order'| == |order|
            && (forall k :: k in cache <==> k in order')
            && EntriesOf(cache, order') == Without(EntriesOf(cache, order), key) + [Entry(key, cache[key])]
  {
    EntriesFind(cache, order, key);
    EntriesRemove(cache, order, key);
    RemoveMembers(order, key);
    var rest := RemoveFirst(order, key);
    EntriesAppend(cache, rest, key, cache[key]);
    assert cache[key := cache[key]] == cache;
    assert forall k :: k in rest + [key] <==> k in rest || k == key;
  }

  // An expired entry: the key leaves both the dict and the deque.
  lemma Dropped<V>(cache: map<string, Stamped<V>>, order: seq<string>, key: string)
    requires (forall k :: k in cache <==> k in order) && Distinct(order) && key in cache
    ensures var cache', order' := cache - {key}, RemoveFirst(order, key);
            && Distinct(order') && |order'| <= |order|
            && (forall k :: k in cache' <==> k in order')
            && EntriesOf(cache', order') == Without(EntriesOf(cache, order), key)
  {
    EntriesRemove(cache, order, key);
    RemoveMembers(order, key);
  }

  // --- What each branch of a get does to the recency list ---

  lemma GetHits<V>(cache: map<string, Stamped<V>>, order: seq<string>, hits: nat, misses: nat,
                   key: string, now: int, ttl: int)
    requires (forall k :: k in cache <==> k in order) && Distinct(order) && key in cache && Fresh(cache[key], now, ttl)
    ensures var order', c := RemoveFirst(order, key) + [key], Cache(EntriesOf(cache, order), hits, misses);
            && Distinct(order') && |order'| == |order| && (forall k :: k in cache <==> k in order')
            && Answer(c, key, now, ttl) == Some(cache[key].value)
            && Cache(EntriesOf(cache, order'), hits + 1, misses) == AfterGet(c, key, now, ttl)
  {
    EntriesFind(cache, order, key);
    MovedToEnd(cache, order, key);
  }

  lemma GetExpires<V>(cache: map<string, Stamped<V>>, order: seq<string>, hits: nat, misses: nat,
                      key: string, now: int, ttl: int)
    requires (forall k :: k in cache <==> k in order) && Distinct(order) && key in cache && !Fresh(cache[key], now, ttl)
    ensures var cache', order' := cache - {key}, RemoveFirst(order, key);
            var c := Cache(EntriesOf(cache, order), hits, misses);
            && Distinct(order') && |order'| <= |order| && (forall k :: k in cache' <==> k in order')
            && Answer(c, key, now, ttl) == None
            && Cache(EntriesOf(cache', order'), hits, misses + 1) == AfterGet(c, key, now, ttl)
  {
    EntriesFind(cache, order, key);
    Dropped(cache, order, key);
  }

  lemma GetFindsNothing<V>(cache: map<string, Stamped<V>>, order: seq<string>, hits: nat, misses: nat,
                           key: string, now: int, ttl: int)
    requires (forall k :: k in cache <==> k in order) && Distinct(order) && key !in cache
    ensures var c := Cache(EntriesOf(cache, order), hits, misses);
            && Answer(c, key, now, ttl) == None
            && Cache(EntriesOf(cache, order), hits, misses + 1) == AfterGet(c, key, now, ttl)
  {
    EntriesFind(cache, order, key);
  }
}
