/**
 Recency lists: the entries of an LRU cache, least recently used first, without repeated keys.
 Both caches of the program are compared against them.
 */
module Recency {

  datatype Entry<V> = Entry(key: string, value: V)

  predicate Has<V>(l: seq<Entry<V>>, key: string) {
    exists i :: 0 <= i < |l| && l[i].key == key
  }

  ghost predicate NoDup<V>(l: seq<Entry<V>>) {
    forall i, j | 0 <= i < j < |l| :: l[i].key != l[j].key
  }

  // The first entry for `key`.
  function Find<V>(l: seq<Entry<V>>, key: string): (e: Entry<V>)
    requires Has(l, key)
    ensures e in l && e.key == key
  {
    if l[0].key == key then l[0] else Find(l[1..], key)
  }

  function Without<V>(l: seq<Entry<V>>, key: string): (r: seq<Entry<V>>)
    ensures |r| == if Has(l, key) then |l| - 1 else |l|
    ensures forall e :: e in r ==> e in l
    ensures !Has(l, key) ==> r == l
  {
    if l == [] then []
    else if l[0].key == key then
      assert Has(l, key);
      l[1..]
    else
      assert forall i | 0 < i < |l| :: l[i] == l[1..][i - 1];
      [l[0]] + Without(l[1..], key)
  }

  lemma {:induction false} FindIsMember<V>(l: seq<Entry<V>>, e: Entry<V>)
    requires NoDup(l) && e in l
    ensures Has(l, e.key) && Find(l, e.key) == e
  {
    if l[0] != e {
      assert e in l[1..];
      FindIsMember(l[1..], e);
      var i :| 0 <= i < |l| && l[i] == e;
    }
  }

  lemma {:induction false} WithoutKeeps<V>(l: seq<Entry<V>>, key: string, e: Entry<V>)
    requires NoDup(l)
    ensures e in Without(l, key) <==> e in l && e.key != key
  {
    if l != [] {
      assert e in l <==> e == l[0] || e in l[1..];
      if l[0].key == key {
        assert e in l[1..] ==> e.key != key;
      } else {
        WithoutKeeps(l[1..], key, e);
        assert e in Without(l, key) <==> e == l[0] || e in Without(l[1..], key);
      }
    }
  }

  lemma {:induction false} WithoutNoDup<V>(l: seq<Entry<V>>, key: string)
    requires NoDup(l)
    ensures NoDup(Without(l, key))
  {
    if l != [] && l[0].key != key {
      var r := Without(l[1..], key);
      WithoutNoDup(l[1..], key);
      forall j | 0 <= j < |r| ensures r[j].key != l[0].key {
        assert r[j] in l[1..];
      }
    }
  }

  lemma WithoutAbsent<V>(l: seq<Entry<V>>, key: string)
    requires NoDup(l)
    ensures !Has(Without(l, key), key)
  {
    var r := Without(l, key);
    forall i | 0 <= i < |r| ensures r[i].key != key {
      WithoutKeeps(l, key, r[i]);
    }
  }

  lemma WithoutMembers<V>(l: seq<Entry<V>>, key: string)
    requires NoDup(l)
    ensures NoDup(Without(l, key)) && !Has(Without(l, key), key)
    ensures forall e :: e in Without(l, key) <==> e in l && e.key != key
  {
    WithoutNoDup(l, key);
    WithoutAbsent(l, key);
    forall e ensures e in Without(l, key) <==> e in l && e.key != key {
      WithoutKeeps(l, key, e);
    }
  }

  lemma NoDupAppend<V>(l: seq<Entry<V>>, e: Entry<V>)
    requires NoDup(l) && !Has(l, e.key)
    ensures NoDup(l + [e])
  {
  }

  // --- Ordered by use ---

  // Each entry was used, at the moment `used` tells, before those that follow it.
  ghost predicate Ordered<V>(l: seq<Entry<V>>, used: string -> int) {
    forall i, j | 0 <= i < j < |l| :: used(l[i].key) < used(l[j].key)
  }

  lemma OrderedTail<V>(l: seq<Entry<V>>, used: string -> int)
    requires Ordered(l, used) && l != []
    ensures Ordered(l[1..], used)
    ensures forall e | e in l[1..] :: used(l[0].key) < used(e.key)
  {
    var r := l[1..];
    assert forall i | 0 <= i < |r| :: r[i] == l[i + 1];
  }

  lemma OrderedPrepend<V>(e: Entry<V>, l: seq<Entry<V>>, used: string -> int)
    requires Ordered(l, used) && forall i | 0 <= i < |l| :: used(e.key) < used(l[i].key)
    ensures Ordered([e] + l, used)
  {
    assert forall i | 0 < i < |l| + 1 :: ([e] + l)[i] == l[i - 1];
  }

  lemma {:induction false} WithoutOrdered<V>(l: seq<Entry<V>>, key: string, used: string -> int)
    requires Ordered(l, used)
    ensures Ordered(Without(l, key), used)
  {
    if l != [] {
      OrderedTail(l, used);
      if l[0].key != key {
        var r := Without(l[1..], key);
        WithoutOrdered(l[1..], key, used);
        assert forall i | 0 <= i < |r| :: r[i] in l[1..];
        OrderedPrepend(l[0], r, used);
      }
    }
  }

  // Dropping the first of the other entries, or none, and appending the key used now keeps the order.
  lemma OrderedStep<V>(rest: seq<Entry<V>>, kept: seq<Entry<V>>, last: seq<Entry<V>>, key: string,
                       before: string -> int, after: string -> int)
    requires Ordered(rest, before) && !Has(rest, key)
    requires kept == rest || (rest != [] && kept == rest[1..])
    requires last == [] || (|last| == 1 && last[0].key == key)
    requires forall k | k != key :: after(k) == before(k) < after(key)
    ensures Ordered(kept + last, after)
  {
    if kept != rest {
      OrderedTail(rest, before);
      assert forall i | 0 <= i < |kept| :: kept[i] == rest[i + 1];
    }
    assert forall i | 0 <= i < |kept| :: kept[i].key != key;
    var l := kept + last;
    forall i, j | 0 <= i < j < |l| ensures after(l[i].key) < after(l[j].key) {
      assert l[i] == kept[i];
    }
  }

  // --- Order-preserving inclusion ---

  ghost predicate Sub<V>(a: seq<Entry<V>>, b: seq<Entry<V>>) {
    if a == [] then true
    else if b == [] then false
    else (a[0] == b[0] && Sub(a[1..], b[1..])) || Sub(a, b[1..])
  }

  lemma {:induction false} SubMembers<V>(a: seq<Entry<V>>, b: seq<Entry<V>>)
    requires Sub(a, b)
    ensures forall e :: e in a ==> e in b
  {
    if a != [] {
      assert forall e | e in a :: e == a[0] || e in a[1..];
      if a[0] == b[0] && Sub(a[1..], b[1..]) {
        SubMembers(a[1..], b[1..]);
      } else {
        SubMembers(a, b[1..]);
      }
    }
  }

  lemma {:induction false} SubDropLeft<V>(a: seq<Entry<V>>, b: seq<Entry<V>>)
    requires a != [] && Sub(a, b)
    ensures Sub(a[1..], b)
  {
    if a[0] == b[0] && Sub(a[1..], b[1..]) {
      assert a[1..] == [] || Sub(a[1..], b[1..]);
    } else {
      SubDropLeft(a, b[1..]);
    }
  }

  // When both sides lose their first entry the inclusion survives.
  lemma SubDropBoth<V>(a: seq<Entry<V>>, b: seq<Entry<V>>)
    requires a != [] && Sub(a, b)
    ensures Sub(a[1..], b[1..])
  {
    if !(a[0] == b[0] && Sub(a[1..], b[1..])) {
      SubDropLeft(a, b[1..]);
    }
  }

  lemma {:induction false} SubAppend<V>(a: seq<Entry<V>>, b: seq<Entry<V>>, e: Entry<V>)
    requires Sub(a, b)
    ensures Sub(a + [e], b + [e])
  {
    if a == [] {
      SubSingle(b, e);
      assert a + [e] == [e];
    } else {
      assert (b + [e])[1..] == b[1..] + [e];
      if a[0] == b[0] && Sub(a[1..], b[1..]) {
        SubAppend(a[1..], b[1..], e);
        assert (a + [e])[1..] == a[1..] + [e];
      } else {
        SubAppend(a, b[1..], e);
      }
    }
  }

  lemma {:induction false} SubSingle<V>(b: seq<Entry<V>>, e: Entry<V>)
    ensures Sub([e], b + [e])
  {
    if b != [] {
      SubSingle(b[1..], e);
      assert (b + [e])[1..] == b[1..] + [e];
    }
  }

  lemma {:induction false} SubWithout<V>(a: seq<Entry<V>>, b: seq<Entry<V>>, key: string)
    requires Sub(a, b) && NoDup(a) && NoDup(b)
    ensures Sub(Without(a, key), Without(b, key))
  {
    if a != [] {
      var b' := [b[0]] + Without(b[1..], key);
      if a[0] == b[0] && Sub(a[1..], b[1..]) {
        SubWithout(a[1..], b[1..], key);
      } else {
        SubWithout(a, b[1..], key);
        if b[0].key == key {
          // The tail of b has no other entry for the key.
          assert !Has(b[1..], key);
        } else {
          SubCons(Without(a, key), Without(b[1..], key), b[0]);
        }
      }
    }
  }

  lemma SubCons<V>(a: seq<Entry<V>>, b: seq<Entry<V>>, e: Entry<V>)
    requires Sub(a, b)
    ensures Sub(a, [e] + b)
  {
    assert ([e] + b)[1..] == b;
  }
}
