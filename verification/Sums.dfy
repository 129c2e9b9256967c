/**
 Machine words, and sums over finite maps: what the concurrent counters of this
 project are compared against.
 */
module Sums {

  // Number of values of a 64-bit `usize`.
  const WORD: nat := 0x1_0000_0000_0000_0000

  const U64_MAX: nat := 0xFFFF_FFFF_FFFF_FFFF

  function Wrap(x: int): (r: nat)
    ensures r < WORD
    ensures 0 <= x < WORD ==> r == x
  {
    x % WORD
  }

  function Max(a: int, b: int): int {
    if a >= b then a else b
  }

  function Min(a: int, b: int): int {
    if a <= b then a else b
  }

  lemma WrapAdd(x: int, y: int)
    ensures Wrap(Wrap(x) + y) == Wrap(x + y)
  {
    var q := x / WORD;
    assert x + y == Wrap(x) + y + q * WORD;
    WrapShift(Wrap(x) + y, q);
  }

  lemma WrapShift(x: int, q: int)
    ensures Wrap(x + q * WORD) == Wrap(x)
  {
    var a, b := x / WORD, (x + q * WORD) / WORD;
    assert x + q * WORD == b * WORD + (x + q * WORD) % WORD;
    assert x == a * WORD + x % WORD;
    assert (b - a - q) * WORD == x % WORD - (x + q * WORD) % WORD;
  }

  function Total(s: seq<nat>): nat {
    if s == [] then 0 else Total(s[..|s| - 1]) + s[|s| - 1]
  }

  // The sum of `f` over the values of `m`.
  ghost function SumBy<K, V>(m: map<K, V>, f: V -> nat): nat
    decreases |m|
  {
    if m == map[] then 0
    else
      var k :| k in m;
      f(m[k]) + SumBy(m - {k}, f)
  }

  // The choice inside SumBy does not matter: any entry can be split off.
  lemma {:induction false} SumByRemove<K, V>(m: map<K, V>, k: K, f: V -> nat)
    requires k in m
    ensures SumBy(m, f) == f(m[k]) + SumBy(m - {k}, f)
    decreases |m|
  {
    var j :| j in m && SumBy(m, f) == f(m[j]) + SumBy(m - {j}, f);
    if j != k {
      SumByRemove(m - {j}, k, f);
      SumByRemove(m - {k}, j, f);
      assert m - {j} - {k} == m - {k} - {j};
    }
  }

  lemma SumByInsert<K, V>(m: map<K, V>, k: K, v: V, f: V -> nat)
    requires k !in m
    ensures SumBy(m[k := v], f) == f(v) + SumBy(m, f)
  {
    SumByRemove(m[k := v], k, f);
    assert m[k := v] - {k} == m;
  }

  lemma SumByReplace<K, V>(m: map<K, V>, k: K, v: V, f: V -> nat)
    requires k in m
    ensures SumBy(m[k := v], f) + f(m[k]) == SumBy(m, f) + f(v)
  {
    SumByRemove(m, k, f);
    SumByRemove(m[k := v], k, f);
    assert m[k := v] - {k} == m - {k};
  }

  // A sum whose nonzero terms lie in `support` and are each at most `bound`.
  lemma {:induction false} SumByBound<K, V>(m: map<K, V>, f: V -> nat, bound: nat, support: set<K>)
    requires forall k | k in m :: f(m[k]) <= bound && (k in support || f(m[k]) == 0)
    ensures SumBy(m, f) <= |support| * bound
    decreases |m|
  {
    if m == map[] {
      MulNonNegative(|support|, bound);
    } else {
      var k :| k in m;
      SumByRemove(m, k, f);
      var rest := m - {k};
      if k in support {
        SumByBound(rest, f, bound, support - {k});
        MulStep(|support - {k}|, bound);
        assert |support| == |support - {k}| + 1;
      } else {
        SumByBound(rest, f, bound, support);
      }
    }
  }

  lemma MulNonNegative(a: nat, b: nat)
    ensures a * b >= 0
  {
  }

  lemma MulStep(a: nat, b: nat)
    ensures (a + 1) * b == a * b + b
  {
  }

  lemma MulSplit(a: nat, b: nat, c: nat)
    requires a <= b
    ensures a * c + (b - a) * c == b * c
  {
  }

  lemma MulMonotone(a: nat, b: nat, c: nat)
    requires a <= b
    ensures a * c <= b * c
  {
    MulNonNegative(b - a, c);
    MulSplit(a, b, c);
  }

  lemma MulMonotoneRight(a: nat, b: nat, c: nat)
    requires b <= c
    ensures a * b <= a * c
  {
    MulNonNegative(a, c - b);
    assert a * c == a * b + a * (c - b);
  }

  // A sum is zero exactly when all its terms are.
  lemma {:induction false} SumByZero<K, V>(m: map<K, V>, f: V -> nat)
    ensures SumBy(m, f) == 0 <==> forall k | k in m :: f(m[k]) == 0
    decreases |m|
  {
    if m != map[] {
      var k :| k in m;
      SumByRemove(m, k, f);
      SumByZero(m - {k}, f);
      assert forall j :: j in m <==> j == k || j in m - {k};
    }
  }
}
