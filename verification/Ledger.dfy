/** The ownership ledger of wi-runtime.c and wi-pool.c: who holds the references an instance's retain count
    counts, as functions of the heap. */
module Ledger {

  /** A live instance: its retain count, and the references it holds itself, in the order in which its dealloc
      releases them; once it is under way, those still to be released. */
  datatype Instance = Instance(count: nat, owned: seq<nat>)

  type Heap = map<nat, Instance>

  /** How many references to a the instances below address n hold. */
  ghost function RefsTo(h: Heap, n: nat, a: nat): nat {
    if n == 0 then 0
    else (if n - 1 in h then multiset(h[n - 1].owned)[a] else 0) + RefsTo(h, n - 1, a)
  }

  /** How many references are held by instances at all. */
  ghost function Total(h: Heap, n: nat): nat {
    if n == 0 then 0
    else (if n - 1 in h then |h[n - 1].owned| else 0) + Total(h, n - 1)
  }

  ghost function CountOf(h: Heap, a: nat): nat {
    if a in h then h[a].count else 0
  }

  /** Every retain count is the number of references held outside, by live instances and by the pools; an
      address that is not live is referred to from nowhere. */
  ghost predicate Balanced(h: Heap, n: nat, ext: multiset<nat>, pending: multiset<nat>) {
    && (forall a :: a in h ==> a < n)
    && (forall a {:trigger CountOf(h, a)} :: CountOf(h, a) == ext[a] + pending[a] + RefsTo(h, n, a))
  }

  /** The instances whose dealloc is under way are those whose count is zero. */
  ghost predicate Dying(h: Heap, dying: set<nat>) {
    && (forall a :: a in dying ==> a in h && h[a].count == 0)
    && (forall a :: a in h && h[a].count == 0 ==> a in dying)
  }

  lemma {:induction false} RefsSame(h: Heap, h': Heap, n: nat, a: nat)
    requires forall b :: b in h && b < n ==> b in h' && h'[b].owned == h[b].owned
    requires forall b :: b in h' && b < n && b !in h ==> h'[b].owned == []
    ensures RefsTo(h', n, a) == RefsTo(h, n, a) && Total(h', n) == Total(h, n)
  {
    if n > 0 {
      RefsSame(h, h', n - 1, a);
    }
  }

  lemma {:induction false} RefsUpdate(h: Heap, n: nat, a: nat, owned: seq<nat>, b: nat)
    requires a in h && a < n
    ensures var h' := h[a := h[a].(owned := owned)];
      && RefsTo(h', n, b) + multiset(h[a].owned)[b] == RefsTo(h, n, b) + multiset(owned)[b]
      && Total(h', n) + |h[a].owned| == Total(h, n) + |owned|
  {
    var h' := h[a := h[a].(owned := owned)];
    if n - 1 == a {
      RefsBelow(h, h', n - 1, b);
    } else {
      RefsUpdate(h, n - 1, a, owned, b);
    }
  }

  /** Only what lies below n counts. */
  lemma {:induction false} RefsBelow(h: Heap, h': Heap, n: nat, b: nat)
    requires forall c :: c < n ==> (c in h <==> c in h') && (c in h ==> h'[c].owned == h[c].owned)
    ensures RefsTo(h', n, b) == RefsTo(h, n, b) && Total(h', n) == Total(h, n)
  {
    if n > 0 {
      RefsBelow(h, h', n - 1, b);
    }
  }

  // ----- the entries of the ledger -----

  /** One more reference held outside. */
  lemma BalanceRetain(h: Heap, n: nat, ext: multiset<nat>, pending: multiset<nat>, a: nat)
    requires Balanced(h, n, ext, pending) && a in h
    ensures Balanced(h[a := h[a].(count := h[a].count + 1)], n, ext + multiset{a}, pending)
  {
    var h' := h[a := h[a].(count := h[a].count + 1)];
    forall b
      ensures CountOf(h', b) == (ext + multiset{a})[b] + pending[b] + RefsTo(h', n, b)
    {
      assert CountOf(h, b) == ext[b] + pending[b] + RefsTo(h, n, b);
      RefsSame(h, h', n, b);
    }
  }

  /** One reference held outside given up. */
  lemma BalanceRelease(h: Heap, n: nat, ext: multiset<nat>, pending: multiset<nat>, a: nat)
    requires Balanced(h, n, ext, pending) && ext[a] > 0
    ensures a in h && h[a].count > 0
    ensures Balanced(h[a := h[a].(count := h[a].count - 1)], n, ext - multiset{a}, pending)
    ensures Total(h[a := h[a].(count := h[a].count - 1)], n) == Total(h, n)
  {
    assert CountOf(h, a) == ext[a] + pending[a] + RefsTo(h, n, a);
    var h' := h[a := h[a].(count := h[a].count - 1)];
    RefsSame(h, h', n, a);
    forall b
      ensures CountOf(h', b) == (ext - multiset{a})[b] + pending[b] + RefsTo(h', n, b)
    {
      assert CountOf(h, b) == ext[b] + pending[b] + RefsTo(h, n, b);
      RefsSame(h, h', n, b);
    }
  }

  /** Changing what an instance holds moves references between it and the outside. */
  lemma BalanceOwned(h: Heap, n: nat, ext: multiset<nat>, pending: multiset<nat>, a: nat, owned: seq<nat>, ext': multiset<nat>)
    requires Balanced(h, n, ext, pending) && a in h
    requires forall b :: ext'[b] + multiset(owned)[b] == ext[b] + multiset(h[a].owned)[b]
    ensures Balanced(h[a := h[a].(owned := owned)], n, ext', pending)
    ensures Total(h[a := h[a].(owned := owned)], n) + |h[a].owned| == Total(h, n) + |owned|
  {
    var h' := h[a := h[a].(owned := owned)];
    RefsUpdate(h, n, a, owned, a);
    forall b
      ensures CountOf(h', b) == ext'[b] + pending[b] + RefsTo(h', n, b)
    {
      assert CountOf(h, b) == ext[b] + pending[b] + RefsTo(h, n, b);
      RefsUpdate(h, n, a, owned, b);
    }
  }

  /** An instance nobody refers to, and which holds nothing, may be freed. */
  lemma BalanceFree(h: Heap, n: nat, ext: multiset<nat>, pending: multiset<nat>, a: nat)
    requires Balanced(h, n, ext, pending) && a in h && h[a] == Instance(0, [])
    ensures Balanced(h - {a}, n, ext, pending) && Total(h - {a}, n) == Total(h, n)
  {
    RefsSame(h - {a}, h, n, a);
    forall b
      ensures CountOf(h - {a}, b) == ext[b] + pending[b] + RefsTo(h - {a}, n, b)
    {
      assert CountOf(h, b) == ext[b] + pending[b] + RefsTo(h, n, b);
      RefsSame(h - {a}, h, n, b);
    }
  }

  lemma BalanceCreate(h: Heap, n: nat, ext: multiset<nat>, pending: multiset<nat>)
    requires Balanced(h, n, ext, pending)
    ensures Balanced(h[n := Instance(1, [])], n + 1, ext + multiset{n}, pending)
  {
    var h' := h[n := Instance(1, [])];
    forall b
      ensures CountOf(h', b) == (ext + multiset{n})[b] + pending[b] + RefsTo(h', n + 1, b)
    {
      assert CountOf(h, b) == ext[b] + pending[b] + RefsTo(h, n, b);
      RefsBelow(h, h', n, b);
    }
  }

  lemma BalanceMove(h: Heap, n: nat, ext: multiset<nat>, pending: multiset<nat>, ext': multiset<nat>, pending': multiset<nat>)
    requires Balanced(h, n, ext, pending) && ext' + pending' == ext + pending
    ensures Balanced(h, n, ext', pending')
  {
    forall b
      ensures CountOf(h, b) == ext'[b] + pending'[b] + RefsTo(h, n, b)
    {
      assert CountOf(h, b) == ext[b] + pending[b] + RefsTo(h, n, b);
      assert (ext' + pending')[b] == (ext + pending)[b];
    }
  }

  // ----- releases and their cascades -----

  /** What a run of releases leaves alone: what is gone stays gone, what is left holds what it held, and the
      instances whose dealloc is under way are not touched. */
  ghost predicate Cascade(h: Heap, h': Heap, n: nat, dying: set<nat>) {
    && (forall a :: a in h' ==> a in h && h'[a].owned == h[a].owned && h'[a].count <= h[a].count)
    && (forall a :: a in dying ==> a in h')
    && Total(h', n) <= Total(h, n)
  }

  lemma CascadeNone(h: Heap, n: nat, dying: set<nat>)
    requires Dying(h, dying)
    ensures Cascade(h, h, n, dying)
  {
  }

  lemma CascadeTotal(h: Heap, h': Heap, n: nat, dying: set<nat>)
    requires Cascade(h, h', n, dying)
    ensures Total(h', n) <= Total(h, n)
  {
  }

  lemma CascadeMore(h: Heap, h': Heap, h'': Heap, n: nat, dying: set<nat>)
    requires Cascade(h, h', n, dying) && Cascade(h', h'', n, dying)
    ensures Cascade(h, h'', n, dying)
  {
  }

  /** A release that is not the last. */
  lemma ReleaseStep(h: Heap, n: nat, ext: multiset<nat>, pending: multiset<nat>, dying: set<nat>, a: nat)
    requires Balanced(h, n, ext, pending) && Dying(h, dying) && ext[a] > 0
    ensures a in h && h[a].count > 0 && a !in dying
    ensures h[a].count > 1 ==>
      var h' := h[a := h[a].(count := h[a].count - 1)];
      Balanced(h', n, ext - multiset{a}, pending) && Dying(h', dying) && Cascade(h, h', n, dying)
  {
    BalanceRelease(h, n, ext, pending, a);
    hide Balanced;
  }

  /** The last one: the instance keeps what it holds, for its dealloc to release. */
  lemma DeathStep(h: Heap, h': Heap, n: nat, ext: multiset<nat>, pending: multiset<nat>, dying: set<nat>, a: nat)
    requires Balanced(h, n, ext, pending) && Dying(h, dying) && ext[a] > 0 && a in h && h[a].count == 1
    requires h' == h[a := h[a].(count := 0)]
    ensures Balanced(h', n, ext - multiset{a}, pending) && Dying(h', dying + {a}) && a !in dying
    ensures Cascade(h, h', n, dying) && Total(h', n) == Total(h, n)
  {
    BalanceRelease(h, n, ext, pending, a);
    hide Balanced;
  }

  /** One turn of a dealloc: the next reference is read from the instance, and is the dealloc's to release. */
  lemma DeallocStep(h: Heap, h': Heap, n: nat, ext: multiset<nat>, pending: multiset<nat>, dying: set<nat>, a: nat)
    requires Balanced(h, n, ext, pending) && Dying(h, dying) && a in dying && h[a].owned != []
    requires h' == h[a := h[a].(owned := h[a].owned[1..])]
    ensures var b := h[a].owned[0];
      && Balanced(h', n, ext + multiset{b}, pending) && Dying(h', dying) && Total(h', n) < Total(h, n)
      && (ext + multiset{b}) - multiset{b} == ext
  {
    var owned := h[a].owned;
    assert owned == [owned[0]] + owned[1..];
    BalanceOwned(h, n, ext, pending, a, owned[1..], ext + multiset{owned[0]});
    hide Balanced;
  }

  /** What a cascade leaves alone stays alone while the dealloc of a, which began in h, goes on. */
  lemma CascadePop(h: Heap, h': Heap, n: nat, dying: set<nat>, a: nat)
    requires a in h && a < n && a in h' && h'[a].count == 0 && h'[a].owned != []
    requires Cascade(h[a := h'[a]], h', n, dying)
    ensures var left := h'[a].(owned := h'[a].owned[1..]);
      Cascade(h[a := left], h'[a := left], n, dying)
  {
    var before, left := h[a := h'[a]], h'[a].(owned := h'[a].owned[1..]);
    RefsUpdate(before, n, a, left.owned, a);
    RefsUpdate(h', n, a, left.owned, a);
    assert before[a := left] == h[a := left];
  }

  /** The dealloc is done, and the memory freed. */
  lemma FreeStep(h: Heap, h': Heap, n: nat, ext: multiset<nat>, pending: multiset<nat>, dying: set<nat>, a: nat)
    requires Balanced(h', n, ext, pending) && Dying(h', dying) && a in dying && h'[a].owned == []
    requires a in h && a < n && Cascade(h[a := h'[a]], h', n, dying)
    ensures Balanced(h' - {a}, n, ext, pending) && Dying(h' - {a}, dying - {a}) && Cascade(h, h' - {a}, n, dying - {a})
  {
    BalanceFree(h', n, ext, pending, a);
    RefsUpdate(h, n, a, [], a);
    RefsSame(h[a := h[a].(owned := [])], h[a := h'[a]], n, a);
    hide Balanced, Total;
  }

  // ----- what a balanced ledger means -----

  lemma {:induction false} SomeOwner(h: Heap, n: nat, a: nat) returns (owner: nat)
    requires RefsTo(h, n, a) > 0
    ensures owner in h && a in h[owner].owned
  {
    if n - 1 in h && multiset(h[n - 1].owned)[a] > 0 {
      owner := n - 1;
    } else {
      owner := SomeOwner(h, n - 1, a);
    }
  }

  lemma {:induction false} OwnersCount(h: Heap, n: nat, owner: nat, a: nat)
    requires owner in h && owner < n
    ensures RefsTo(h, n, a) >= multiset(h[owner].owned)[a]
  {
    if owner < n - 1 {
      OwnersCount(h, n - 1, owner, a);
    }
  }

  /** What died in a cascade is exactly what nothing refers to any more, from outside, from a pool or from an
      instance that survived. */
  lemma DeadExactly(h: Heap, h': Heap, n: nat, ext: multiset<nat>, pending: multiset<nat>, a: nat)
    requires Balanced(h', n, ext, pending) && Dying(h', {}) && Cascade(h, h', n, {}) && a in h
    ensures a !in h' <==> ext[a] + pending[a] == 0 && forall owner :: owner in h' ==> a !in h[owner].owned
  {
    assert CountOf(h', a) == ext[a] + pending[a] + RefsTo(h', n, a);
    forall owner | owner in h' && a in h'[owner].owned
      ensures RefsTo(h', n, a) > 0
    {
      OwnersCount(h', n, owner, a);
    }
    if RefsTo(h', n, a) > 0 {
      var owner := SomeOwner(h', n, a);
    }
  }

  /** No live instance holds a reference to one that has been freed. */
  lemma NoDangling(h: Heap, n: nat, ext: multiset<nat>, pending: multiset<nat>, owner: nat, a: nat)
    requires Balanced(h, n, ext, pending) && owner in h && a in h[owner].owned
    ensures a in h && h[a].count > 0
  {
    OwnersCount(h, n, owner, a);
    assert CountOf(h, a) == ext[a] + pending[a] + RefsTo(h, n, a);
  }

  /** Where instances do not own each other in a circle, nothing outlives the last outside reference: every
      live instance can be traced back to the outside or to a pool. */
  lemma {:induction false} TracedBack(h: Heap, n: nat, ext: multiset<nat>, pending: multiset<nat>, rank: nat -> nat, a: nat)
    returns (root: nat)
    requires Balanced(h, n, ext, pending) && Dying(h, {}) && a in h
    requires forall b, c :: b in h && c in h[b].owned ==> rank(b) < rank(c)
    ensures root in h && ext[root] + pending[root] > 0
    decreases rank(a)
  {
    assert CountOf(h, a) == ext[a] + pending[a] + RefsTo(h, n, a);
    if ext[a] + pending[a] > 0 {
      root := a;
    } else {
      var owner := SomeOwner(h, n, a);
      root := TracedBack(h, n, ext, pending, rank, owner);
    }
  }

  lemma NothingLeaks(h: Heap, n: nat, rank: nat -> nat)
    requires Balanced(h, n, multiset{}, multiset{}) && Dying(h, {})
    requires forall b, c :: b in h && c in h[b].owned ==> rank(b) < rank(c)
    ensures h == map[]
  {
    if h != map[] {
      var a :| a in h;
      var root := TracedBack(h, n, multiset{}, multiset{}, rank, a);
    }
  }

  /** Each owns the next, and the last the first. */
  ghost predicate Circle(h: Heap, c: seq<nat>) {
    && c != [] && (forall i :: 0 <= i < |c| ==> c[i] in h)
    && (forall i :: 0 <= i < |c| - 1 ==> c[i + 1] in h[c[i]].owned)
    && c[0] in h[c[|c| - 1]].owned
  }

  /** With nothing held outside or pending, following owners from the head of a trail comes back to it. */
  lemma {:induction false} CircleFrom(h: Heap, n: nat, trail: seq<nat>) returns (c: seq<nat>)
    requires Balanced(h, n, multiset{}, multiset{}) && Dying(h, {})
    requires trail != [] && (forall i :: 0 <= i < |trail| ==> trail[i] in h)
    requires forall i :: 0 <= i < |trail| - 1 ==> trail[i + 1] in h[trail[i]].owned
    ensures Circle(h, c)
    decreases h.Keys - set a | a in trail
  {
    assert CountOf(h, trail[0]) == RefsTo(h, n, trail[0]);
    var owner := SomeOwner(h, n, trail[0]);
    if j :| 0 <= j < |trail| && trail[j] == owner {
      c := trail[..j + 1];
    } else {
      var longer := [owner] + trail;
      assert owner in h.Keys - (set a | a in trail) && owner in longer;
      assert forall a :: a in trail ==> a in longer;
      c := CircleFrom(h, n, longer);
    }
  }

  /** Once nothing is held outside or pending, something is left exactly if some instances own each other in a
      circle. */
  lemma LeaksExactly(h: Heap, n: nat)
    requires Balanced(h, n, multiset{}, multiset{}) && Dying(h, {})
    ensures h != map[] <==> exists c :: Circle(h, c)
  {
    if h != map[] {
      var a :| a in h;
      var c := CircleFrom(h, n, [a]);
    }
  }

  /** Two instances that own each other are never freed, with nobody left to release them. */
  lemma CircleLeaks()
    ensures exists h, n :: h != map[] && Balanced(h, n, multiset{}, multiset{}) && Dying(h, {})
  {
    var h: Heap := map[0 := Instance(1, [1]), 1 := Instance(1, [0])];
    forall a
      ensures CountOf(h, a) == RefsTo(h, 2, a)
    {
      assert RefsTo(h, 0, a) == 0;
      assert RefsTo(h, 1, a) == multiset([1])[a];
      assert RefsTo(h, 2, a) == multiset([0])[a] + multiset([1])[a];
    }
    assert Balanced(h, 2, multiset{}, multiset{}) && Dying(h, {});
  }
}
