/** The capacity arithmetic of the hash tables: wi_log2, wi_exp2m1, WI_CLAMP and the load window. */
module Capacity {
  const MIN_COUNT: nat := 11
  const MAX_COUNT: nat := 16777213

  function Log2(n: nat): nat {
    if n < 2 then 0 else Log2(n / 2) + 1
  }

  function Exp2(n: nat): (r: nat)
    ensures r >= 1
  {
    if n == 0 then 1 else 2 * Exp2(n - 1)
  }

  function Exp2m1(n: nat): nat {
    Exp2(n) - 1
  }

  function Clamp(x: nat, low: nat, high: nat): nat {
    if x > high then high else if x < low then low else x
  }

  /** The bucket count a rehash chooses for n entries. */
  function Rehashed(n: nat, minCount: nat): nat {
    Clamp(Exp2m1(Log2(n) + 1), minCount, MAX_COUNT)
  }

  function InitialCount(capacity: nat): nat {
    var c := Exp2m1(Log2(capacity) + 1);
    if c > MIN_COUNT then c else MIN_COUNT
  }

  /** The test that triggers a rehash. */
  predicate NeedsRehash(buckets: nat, minCount: nat, count: nat) {
    || (buckets >= 3 * count && buckets > minCount)
    || (count >= 3 * buckets && buckets < MAX_COUNT)
  }

  predicate LoadWindow(buckets: nat, minCount: nat, count: nat) {
    && (buckets < 3 * count || buckets <= minCount)
    && (count < 3 * buckets || buckets >= MAX_COUNT)
  }

  /** 2^(log2 n) <= n < 2^(log2 n + 1): the capacity rounds n up to one less than a power of two. */
  lemma {:induction false} CapacityBounds(n: nat)
    requires n >= 1
    ensures n <= Exp2m1(Log2(n) + 1) <= 2 * n - 1
  {
    if n >= 2 {
      CapacityBounds(n / 2);
    }
  }

  /** One rehash always lands inside the window, whatever the counts were. */
  lemma RehashRestoresWindow(n: nat, minCount: nat)
    requires minCount >= MIN_COUNT
    ensures Rehashed(n, minCount) >= 1
    ensures LoadWindow(Rehashed(n, minCount), minCount, n)
  {
    if n >= 1 {
      CapacityBounds(n);
    }
  }

  /** A fresh table holds at least the requested capacity and starts inside the window. */
  lemma InitialWindow(capacity: nat)
    ensures InitialCount(capacity) >= 11 && InitialCount(capacity) >= capacity
    ensures InitialCount(capacity) == 11 || InitialCount(capacity) < 2 * capacity
    ensures LoadWindow(InitialCount(capacity), InitialCount(capacity), 0)
  {
    if capacity >= 1 {
      CapacityBounds(capacity);
    }
  }
}
