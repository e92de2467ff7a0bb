/** wi-runtime.c and wi-pool.c: retain, release with its cascade of deallocs, autorelease and the pools. */
module Runtime {
  import opened Basics
  import opened Ledger

  /** The entries of one _wi_pool_array, which fills a page. */
  const POOL_ARRAY_SIZE := (4096 - 8 - 8) / 8

  const POOL_STACK_INITIAL_SIZE := 4

  /** A pool: its arrays, the one being filled first. */
  datatype Pool = Pool(count: nat, arrays: seq<seq<nat>>)

  ghost function Entries(arrays: seq<seq<nat>>): multiset<nat> {
    if arrays == [] then multiset{} else multiset(arrays[0]) + Entries(arrays[1..])
  }

  ghost function Length(arrays: seq<seq<nat>>): nat {
    if arrays == [] then 0 else |arrays[0]| + Length(arrays[1..])
  }

  /** Only the first array may have room left; count tells how many entries there are. */
  ghost predicate GoodPool(pool: Pool) {
    && pool.count == Length(pool.arrays)
    && (forall i :: 0 <= i < |pool.arrays| ==> 0 < |pool.arrays[i]| <= POOL_ARRAY_SIZE)
    && (forall i :: 1 <= i < |pool.arrays| ==> |pool.arrays[i]| == POOL_ARRAY_SIZE)
  }

  ghost function Pending(stack: seq<Pool>): multiset<nat> {
    if stack == [] then multiset{} else Entries(stack[|stack| - 1].arrays) + Pending(stack[..|stack| - 1])
  }

  /** The pools on the stack, whose entries are the pending references. */
  ghost predicate PoolsHold(stack: seq<Pool>, capacity: nat, pending: multiset<nat>) {
    && pending == Pending(stack)
    && |stack| <= capacity
    && forall i :: 0 <= i < |stack| ==> GoodPool(stack[i])
  }

  class Runtime {
    var heap: Heap
    var next: nat
    var stack: seq<Pool>
    var capacity: nat
    /** References held by the code that calls the runtime. */
    ghost var ext: multiset<nat>
    /** References the pools hold, each to be released once. */
    ghost var pending: multiset<nat>
    /** Instances whose dealloc is under way. */
    ghost var dying: set<nat>

    ghost predicate Sound()
      reads this
    {
      Balanced(heap, next, ext, pending) && Dying(heap, dying)
    }

    /** The state between two calls. */
    ghost predicate Valid()
      reads this
    {
      Sound() && PoolsHold(stack, capacity, pending) && dying == {}
    }

    constructor ()
      ensures Valid() && heap == map[] && ext == multiset{} && stack == []
    {
      heap := map[];
      next := 0;
      stack := [];
      capacity := 0;
      ext := multiset{};
      pending := multiset{};
      dying := {};
      new;
      assert forall a :: CountOf(heap, a) == 0 == RefsTo(heap, 0, a);
    }

    /** wi_runtime_create_instance: the caller holds the one reference there is. */
    method CreateInstance() returns (a: nat)
      requires Valid()
      modifies this
      ensures Valid() && a !in old(heap) && heap == old(heap)[a := Instance(1, [])]
      ensures ext == old(ext) + multiset{a} && stack == old(stack)
    {
      BalanceCreate(heap, next, ext, pending);
      a := next;
      heap := heap[a := Instance(1, [])];
      next := next + 1;
      ext := ext + multiset{a};
    }

    /** wi_retain, of an instance that is live. */
    method Retain(a: int) returns (r: int)
      requires Valid() && (a != NULL ==> a in heap)
      modifies this
      ensures Valid() && r == a && stack == old(stack)
      ensures a == NULL ==> heap == old(heap) && ext == old(ext)
      ensures a != NULL ==> ext == old(ext) + multiset{a} && heap == old(heap)[a := old(heap)[a].(count := old(heap)[a].count + 1)]
    {
      if a == NULL {
        return NULL;
      }
      BalanceRetain(heap, next, ext, pending, a);
      heap := heap[a := heap[a].(count := heap[a].count + 1)];
      ext := ext + multiset{a};
      r := a;
    }

    /** wi_release, of a reference the caller holds: the last one has the instance's dealloc release what the
        instance holds, and its memory freed. */
    method Release(a: int)
      requires Sound() && (a != NULL ==> a >= 0 && ext[a] > 0)
      modifies this`heap, this`ext, this`dying
      ensures Sound() && dying == old(dying) && Cascade(old(heap), heap, next, dying)
      ensures ext == if a == NULL then old(ext) else old(ext) - multiset{a}
      ensures a == NULL ==> heap == old(heap)
      ensures a != NULL ==> a in old(heap) && old(heap)[a].count > 0
      ensures a != NULL && old(heap)[a].count > 1 ==> heap == old(heap)[a := old(heap)[a].(count := old(heap)[a].count - 1)]
      ensures a != NULL && old(heap)[a].count == 1 ==> a !in heap
      decreases Total(heap, next), 2
    {
      hide Balanced, Dying, Cascade, Total;
      if a == NULL {
        CascadeNone(heap, next, dying);
        return;
      }
      ReleaseStep(heap, next, ext, pending, dying, a);
      ghost var before, was := heap, dying;
      heap := heap[a := heap[a].(count := heap[a].count - 1)];
      ext := ext - multiset{a};
      if heap[a].count == 0 {
        dying := dying + {a};
        DeathStep(before, heap, next, old(ext), pending, was, a);
        ghost var dead := heap;
        Destroy(a);
        assert was + {a} - {a} == was;
        CascadeMore(before, dead, heap, next, was);
      }
    }

    /** The count is down to zero: the instance's dealloc runs, and its memory is freed. */
    method Destroy(a: nat)
      requires Sound() && a in dying
      modifies this`heap, this`ext, this`dying
      ensures Sound() && dying == old(dying) - {a} && Cascade(old(heap), heap, next, dying)
      ensures ext == old(ext) && a !in heap
      decreases Total(heap, next), 1
    {
      hide Balanced, Cascade, Total;
      ghost var before := heap;
      BelowNext(heap, next, ext, pending, a);
      Dealloc(a);
      FreeStep(before, heap, next, ext, pending, dying, a);
      dying := dying - {a};
      heap := heap - {a};
    }

    /** A dealloc: each of the references the instance holds is read from it and released, in order, with all
        that follows from that in between. */
    method Dealloc(a: nat)
      requires Sound() && a in dying
      modifies this`heap, this`ext, this`dying
      ensures Sound() && dying == old(dying) && ext == old(ext)
      ensures heap[a].owned == [] && Cascade(old(heap)[a := heap[a]], heap, next, dying)
      decreases Total(heap, next), 0
    {
      hide Balanced, Cascade, Total;
      ghost var before := heap;
      BelowNext(heap, next, ext, pending, a);
      assert before[a := before[a]] == before;
      CascadeNone(heap, next, dying);
      while heap[a].owned != []
        invariant Sound() && dying == old(dying) && ext == old(ext)
        invariant Cascade(before[a := heap[a]], heap, next, dying) && Total(heap, next) <= Total(before, next)
        decreases Total(heap, next)
      {
        ghost var h := heap;
        var b := heap[a].owned[0];
        heap := heap[a := heap[a].(owned := heap[a].owned[1..])];
        DeallocStep(h, heap, next, ext, pending, dying, a);
        CascadePop(before, h, next, dying, a);
        ext := ext + multiset{b};
        ghost var popped := heap;
        Release(b);
        CascadeMore(before[a := popped[a]], popped, heap, next, dying);
        CascadeTotal(popped, heap, next, dying);
        CascadeKeeps(popped, heap, next, dying, a);
      }
    }

    /** An instance takes over a reference its caller holds, as a collection does with what it retained. */
    method Adopt(owner: nat, a: nat)
      requires Valid() && owner in heap && ext[a] > 0
      modifies this`heap, this`ext
      ensures Valid() && ext == old(ext) - multiset{a}
      ensures heap == old(heap)[owner := old(heap)[owner].(owned := old(heap)[owner].owned + [a])]
    {
      hide Balanced, PoolsHold;
      DyingOwned(heap, dying, owner, heap[owner].owned + [a]);
      var owned := heap[owner].owned + [a];
      BalanceOwned(heap, next, ext, pending, owner, owned, ext - multiset{a});
      heap := heap[owner := heap[owner].(owned := owned)];
      ext := ext - multiset{a};
    }

    /** An instance releases one of the references it holds. */
    method Abandon(owner: nat, i: nat)
      requires Valid() && owner in heap && i < |heap[owner].owned|
      modifies this`heap, this`ext, this`dying
      ensures Valid() && ext == old(ext)
      ensures var owned := old(heap)[owner].owned;
        Cascade(old(heap)[owner := old(heap)[owner].(owned := owned[..i] + owned[i + 1..])], heap, next, {})
    {
      hide Balanced, PoolsHold, Dying, Cascade, Total;
      BalanceAbandon(heap, next, ext, pending, owner, i);
      var owned := heap[owner].owned;
      var a := owned[i];
      heap := heap[owner := heap[owner].(owned := owned[..i] + owned[i + 1..])];
      ext := ext + multiset{a};
      Release(a);
      assert ext == old(ext);
    }

    /** wi_autorelease: the caller's reference becomes the top pool's. Without a pool it stays as it is,
        never to be released. */
    method Autorelease(a: int) returns (r: int)
      requires Valid() && (a != NULL ==> a >= 0 && ext[a] > 0)
      modifies this`stack, this`ext, this`pending
      ensures Valid() && r == a
      ensures a == NULL || old(stack) == [] ==> ext == old(ext) && stack == old(stack)
      ensures a != NULL && old(stack) != [] ==>
        var top := |stack| - 1;
        && ext == old(ext) - multiset{a} && |stack| == |old(stack)| && stack[..top] == old(stack)[..top]
        && Entries(stack[top].arrays) == Entries(old(stack)[top].arrays) + multiset{a}
    {
      hide Balanced, PoolsHold, Dying, Entries, Pending;
      r := a;
      if a == NULL || stack == [] {
        return;
      }
      var top := |stack| - 1;
      var pool := stack[top];
      var arrays := if pool.arrays == [] then [[]] else pool.arrays;
      if |arrays[0]| >= POOL_ARRAY_SIZE {
        arrays := [[]] + arrays;
      }
      arrays := arrays[0 := arrays[0] + [a]];
      PushFront(if pool.arrays == [] then [[]] else pool.arrays, a);
      PoolsAdd(stack, capacity, pending, arrays, a);
      stack := stack[top := Pool(pool.count + 1, arrays)];
      assert stack[..top] == old(stack)[..top];
      BalanceMove(heap, next, ext, pending, ext - multiset{a}, pending + multiset{a});
      ext := ext - multiset{a};
      pending := pending + multiset{a};
    }

    /** wi_pool_init: the new pool goes on top of the stack, which grows by doubling. */
    method InitPool()
      requires Valid()
      modifies this`stack, this`capacity
      ensures Valid() && stack == old(stack) + [Pool(0, [])]
      ensures |old(stack)| < old(capacity) ==> capacity == old(capacity)
      ensures |old(stack)| == old(capacity) ==>
        capacity == if old(capacity) < 2 then POOL_STACK_INITIAL_SIZE else 2 * old(capacity)
    {
      hide Balanced, Dying;
      PoolsPush(stack, capacity, pending);
      hide PoolsHold;
      if |stack| >= capacity {
        capacity := capacity + capacity;
        if capacity < POOL_STACK_INITIAL_SIZE {
          capacity := POOL_STACK_INITIAL_SIZE;
        }
      }
      stack := stack + [Pool(0, [])];
    }

    /** wi_pool_drain: each entry of the pool is released, once; nothing else is. */
    method Drain(p: nat)
      requires Valid() && p < |stack|
      modifies this`heap, this`ext, this`dying, this`pending, this`stack
      ensures Valid() && ext == old(ext) && stack == old(stack)[p := Pool(0, [])]
      ensures Cascade(old(heap), heap, next, {})
    {
      hide Balanced, Dying, Cascade, PoolsHold, Pending, GoodPool;
      var arrays := stack[p].arrays;
      ghost var rest := PoolsDrained(stack, capacity, pending, p);
      CascadeNone(heap, next, dying);
      var k := 0;
      while k < |arrays|
        invariant 0 <= k <= |arrays|
        invariant Sound() && dying == {} && ext == old(ext) && pending == rest + Entries(arrays[k..])
        invariant stack == old(stack) && Cascade(old(heap), heap, next, {})
      {
        ghost var before := heap;
        assert arrays[k..][1..] == arrays[k + 1..];
        DrainArray(arrays[k]);
        CascadeMore(old(heap), before, heap, next, {});
        k := k + 1;
      }
      assert pending == rest by { assert arrays[k..] == []; }
      stack := stack[p := Pool(0, [])];
    }

    /** The drain of one array. */
    method DrainArray(instances: seq<nat>)
      requires Sound() && multiset(instances) <= pending
      modifies this`heap, this`ext, this`dying, this`pending
      ensures Sound() && dying == old(dying) && ext == old(ext) && pending == old(pending) - multiset(instances)
      ensures Cascade(old(heap), heap, next, dying)
    {
      hide Balanced, Dying, Cascade, Total;
      CascadeNone(heap, next, dying);
      ghost var base := pending - multiset(instances);
      assert instances[0..] == instances;
      var i := 0;
      while i < |instances|
        invariant 0 <= i <= |instances|
        invariant Sound() && dying == old(dying) && ext == old(ext) && Cascade(old(heap), heap, next, dying)
        invariant pending == base + multiset(instances[i..])
      {
        ghost var before := heap;
        SplitRef(instances, i, base);
        ReleaseEntry(instances[i]);
        CascadeMore(old(heap), before, heap, next, dying);
        i := i + 1;
      }
      assert instances[i..] == [];
    }

    method ReleaseEntry(instance: nat)
      requires Sound() && pending[instance] > 0
      modifies this`heap, this`ext, this`dying, this`pending
      ensures Sound() && dying == old(dying) && ext == old(ext) && pending == old(pending) - multiset{instance}
      ensures Cascade(old(heap), heap, next, dying)
    {
      hide Balanced, Dying, Cascade, Total;
      MoveOne(ext, pending, instance);
      BalanceMove(heap, next, ext, pending, ext + multiset{instance}, pending - multiset{instance});
      ext := ext + multiset{instance};
      pending := pending - multiset{instance};
      Release(instance);
    }

    /** wi_release of the pool on top of the stack: it is drained and taken off. */
    method ReleasePool()
      requires Valid() && stack != []
      modifies this
      ensures Valid() && ext == old(ext) && stack == old(stack)[..|old(stack)| - 1]
      ensures stack == [] ==> capacity == 0
      ensures Cascade(old(heap), heap, next, {})
    {
      hide Balanced, Dying, Cascade, PoolsHold;
      var top := |stack| - 1;
      Drain(top);
      PoolsPop(stack, capacity, pending);
      assert stack[..top] == old(stack)[..top];
      stack := stack[..top];
      if stack == [] {
        capacity := 0;
      }
    }
  }

  lemma BelowNext(h: Heap, n: nat, ext: multiset<nat>, pending: multiset<nat>, a: nat)
    requires Balanced(h, n, ext, pending) && a in h
    ensures a < n
  {
  }

  /** A dealloc under way is not touched by the cascades it starts. */
  lemma CascadeKeeps(h: Heap, h': Heap, n: nat, dying: set<nat>, a: nat)
    requires Cascade(h, h', n, dying) && Dying(h, dying) && Dying(h', dying) && a in dying
    ensures a in h' && h'[a] == h[a]
  {
  }

  lemma PoolAdd(pool: Pool, arrays: seq<seq<nat>>, a: nat)
    requires GoodPool(pool)
    requires var before := if pool.arrays == [] then [[]] else pool.arrays;
      arrays == if |before[0]| >= POOL_ARRAY_SIZE then [[a]] + before else before[0 := before[0] + [a]]
    ensures GoodPool(Pool(pool.count + 1, arrays)) && Entries(arrays) == Entries(pool.arrays) + multiset{a}
  {
    var before := if pool.arrays == [] then [[]] else pool.arrays;
    if |before[0]| >= POOL_ARRAY_SIZE {
      assert arrays[1..] == before;
    } else {
      assert arrays[1..] == before[1..];
      assert pool.arrays == [] ==> before[1..] == [];
    }
  }

  lemma PushFront(arrays: seq<seq<nat>>, a: nat)
    ensures ([[]] + arrays)[0 := [] + [a]] == [[a]] + arrays
  {
    assert [] + [a] == [a];
  }

  lemma MoveOne(ext: multiset<nat>, pending: multiset<nat>, x: nat)
    requires pending[x] > 0
    ensures (ext + multiset{x}) + (pending - multiset{x}) == ext + pending
    ensures (ext + multiset{x}) - multiset{x} == ext
  {
  }

  lemma PoolsAdd(stack: seq<Pool>, capacity: nat, pending: multiset<nat>, arrays: seq<seq<nat>>, a: nat)
    requires PoolsHold(stack, capacity, pending) && stack != []
    requires var pool := stack[|stack| - 1];
      var before := if pool.arrays == [] then [[]] else pool.arrays;
      arrays == if |before[0]| >= POOL_ARRAY_SIZE then [[a]] + before else before[0 := before[0] + [a]]
    ensures Entries(arrays) == Entries(stack[|stack| - 1].arrays) + multiset{a}
    ensures var pool := Pool(stack[|stack| - 1].count + 1, arrays);
      PoolsHold(stack[|stack| - 1 := pool], capacity, pending + multiset{a})
  {
    var pool := stack[|stack| - 1];
    PoolAdd(pool, arrays, a);
    PendingTop(stack, Pool(pool.count + 1, arrays));
    hide GoodPool, Pending, Entries;
    var other, all := Pending(stack), Pending(stack[|stack| - 1 := Pool(pool.count + 1, arrays)]);
    Cancel(all, Entries(pool.arrays), other, multiset{a});
  }

  lemma Cancel(x: multiset<nat>, y: multiset<nat>, z: multiset<nat>, w: multiset<nat>)
    requires x + y == z + (y + w)
    ensures x == z + w
  {
    forall a
      ensures x[a] == (z + w)[a]
    {
      assert (x + y)[a] == (z + (y + w))[a];
    }
  }

  lemma PoolsPush(stack: seq<Pool>, capacity: nat, pending: multiset<nat>)
    requires PoolsHold(stack, capacity, pending)
    ensures |stack| <= capacity
    ensures forall capacity' :: capacity' > |stack| ==> PoolsHold(stack + [Pool(0, [])], capacity', pending)
  {
  }

  lemma PoolsPop(stack: seq<Pool>, capacity: nat, pending: multiset<nat>)
    requires PoolsHold(stack, capacity, pending) && stack != [] && stack[|stack| - 1].arrays == []
    ensures PoolsHold(stack[..|stack| - 1], capacity, pending)
    ensures |stack| == 1 ==> PoolsHold(stack[..|stack| - 1], 0, pending)
  {
  }

  /** What the other pools have pending. */
  lemma PoolsDrained(stack: seq<Pool>, capacity: nat, pending: multiset<nat>, p: nat) returns (rest: multiset<nat>)
    requires PoolsHold(stack, capacity, pending) && p < |stack|
    ensures pending == rest + Entries(stack[p].arrays) && PoolsHold(stack[p := Pool(0, [])], capacity, rest)
  {
    rest := Pending(stack[p := Pool(0, [])]);
    PendingOther(stack, p, Pool(0, []));
  }

  lemma DyingOwned(h: Heap, dying: set<nat>, a: nat, owned: seq<nat>)
    requires Dying(h, dying) && a in h && a !in dying
    ensures Dying(h[a := h[a].(owned := owned)], dying)
  {
  }

  lemma PendingTop(stack: seq<Pool>, pool: Pool)
    requires stack != []
    ensures Pending(stack[|stack| - 1 := pool]) + Entries(stack[|stack| - 1].arrays) == Pending(stack) + Entries(pool.arrays)
  {
    var top := |stack| - 1;
    assert stack[top := pool][..top] == stack[..top];
  }

  lemma {:induction false} PendingOther(stack: seq<Pool>, p: nat, pool: Pool)
    requires p < |stack|
    ensures Pending(stack[p := pool]) + Entries(stack[p].arrays) == Pending(stack) + Entries(pool.arrays)
  {
    var top := |stack| - 1;
    if p == top {
      PendingTop(stack, pool);
    } else {
      assert stack[p := pool][..top] == stack[..top][p := pool] && stack[p := pool][top] == stack[top];
      PendingOther(stack[..top], p, pool);
      hide Entries;
      Regroup(Entries(stack[top].arrays), Pending(stack[..top][p := pool]), Entries(stack[p].arrays),
              Pending(stack[..top]), Entries(pool.arrays));
    }
  }

  lemma Regroup(a: multiset<nat>, b: multiset<nat>, c: multiset<nat>, d: multiset<nat>, e: multiset<nat>)
    requires b + c == d + e
    ensures (a + b) + c == (a + d) + e
  {
    assert (a + b) + c == a + (b + c) && (a + d) + e == a + (d + e);
  }

  /** An instance's i-th reference comes loose. */
  lemma BalanceAbandon(h: Heap, n: nat, ext: multiset<nat>, pending: multiset<nat>, owner: nat, i: nat)
    requires Balanced(h, n, ext, pending) && Dying(h, {}) && owner in h && i < |h[owner].owned|
    ensures var owned := h[owner].owned; var a := owned[i]; var h' := h[owner := h[owner].(owned := owned[..i] + owned[i + 1..])];
      && Balanced(h', n, ext + multiset{a}, pending) && Dying(h', {})
      && (ext + multiset{a})[a] > 0 && (ext + multiset{a}) - multiset{a} == ext
  {
    var owned := h[owner].owned;
    assert owned == owned[..i] + [owned[i]] + owned[i + 1..];
    BalanceOwned(h, n, ext, pending, owner, owned[..i] + owned[i + 1..], ext + multiset{owned[i]});
  }

  lemma SplitRef(refs: seq<nat>, i: nat, base: multiset<nat>)
    requires i < |refs|
    ensures (base + multiset(refs[i..]))[refs[i]] > 0
    ensures (base + multiset(refs[i..])) - multiset{refs[i]} == base + multiset(refs[i + 1..])
  {
    assert refs[i..] == [refs[i]] + refs[i + 1..];
  }
}
