/** wi-array.c: an array of pointers to slots, edited by shifting the pointers, at one index or at all those of
    an index set; and wi-indexset.c, ascending lists kept in such an array. */
module ArrayEdits {
  import opened Basics
  import opened Capacity
  import opened Slab

  const ARRAY_MIN_COUNT: nat := 10

  // ----- editing at an index set, as functions of the contents -----

  function InsertedAt<T>(s: seq<T>, x: T, i: nat): seq<T>
    requires i <= |s|
  {
    s[..i] + [x] + s[i..]
  }

  /** An index the source accepts for an insertion: one there is, or the first of none. */
  predicate CanInsertAt(count: nat, i: nat) {
    i < count || (count == 0 && i == 0)
  }

  ghost predicate Ascending(indexes: seq<nat>) {
    forall j, k :: 0 <= j < k < |indexes| ==> indexes[j] < indexes[k]
  }

  /** Each index can be inserted at when its turn comes. */
  ghost predicate Insertable(count: nat, indexes: seq<nat>) {
    forall k :: 0 <= k < |indexes| ==> CanInsertAt(count + k, indexes[k])
  }

  /** Each index less the removals before it is one there is when its turn comes. */
  ghost predicate Removable(count: nat, indexes: seq<nat>) {
    forall k :: 0 <= k < |indexes| ==> k <= indexes[k] < count
  }

  /** The first n insertions, one after the other. */
  function Inserted<T>(s: seq<T>, data: seq<T>, indexes: seq<nat>, n: nat): (r: seq<T>)
    requires n <= |data| == |indexes| && Insertable(|s|, indexes)
    ensures |r| == |s| + n
  {
    if n == 0 then s else InsertedAt(Inserted(s, data, indexes, n - 1), data[n - 1], indexes[n - 1])
  }

  /** What a sequence has at the places that are not among the given ones, counted from place i on. */
  function Without<T>(s: seq<T>, places: set<nat>, i: nat): seq<T>
    requires i <= |s|
    decreases |s| - i
  {
    if i == |s| then [] else (if i in places then [] else [s[i]]) + Without(s, places, i + 1)
  }

  function Places(indexes: seq<nat>): set<nat> {
    set i | i in indexes
  }

  /** From behind the last place left out, nothing is. */
  lemma {:induction false} WithoutBeyond<T>(s: seq<T>, places: set<nat>, i: nat)
    requires i <= |s| && forall q :: q in places ==> q < i
    ensures Without(s, places, i) == s[i..]
    decreases |s| - i
  {
    if i < |s| {
      WithoutBeyond(s, places, i + 1);
      assert s[i..] == [s[i]] + s[i + 1..];
    }
  }

  /** What is kept of a sequence that begins with u is what is kept of u, and what is kept behind it. */
  lemma {:induction false} WithoutSplit<T>(s: seq<T>, u: seq<T>, places: set<nat>, places': set<nat>, i: nat)
    requires i <= |u| <= |s| && s[..|u|] == u
    requires forall q :: 0 <= q < |u| ==> (q in places <==> q in places')
    ensures Without(s, places, i) == Without(u, places', i) + Without(s, places, |u|)
    decreases |u| - i
  {
    hide Without;
    if i == |u| {
      WithoutEnd(u, places');
      assert [] + Without(s, places, i) == Without(s, places, i);
    } else {
      assert s[i] == s[..|u|][i] == u[i];
      WithoutSplit(s, u, places, places', i + 1);
      WithoutStep(s, places, i);
      WithoutStep(u, places', i);
      Associate([u[i]], Without(u, places', i + 1), Without(s, places, |u|));
    }
  }

  lemma WithoutEnd<T>(s: seq<T>, places: set<nat>)
    ensures Without(s, places, |s|) == []
  {
  }

  lemma WithoutStep<T>(s: seq<T>, places: set<nat>, i: nat)
    requires i < |s|
    ensures i in places ==> Without(s, places, i) == Without(s, places, i + 1)
    ensures i !in places ==> Without(s, places, i) == [s[i]] + Without(s, places, i + 1)
  {
  }

  /** Behind the place p that is left out, everything is kept. */
  lemma WithoutFrom<T>(s: seq<T>, places: set<nat>, p: nat)
    requires p < |s| && p in places && forall q :: q in places ==> q <= p
    ensures Without(s, places, p) == s[p + 1..]
  {
    WithoutStep(s, places, p);
    WithoutBeyond(s, places, p + 1);
  }

  /** Inserting at a place past all those left out, and leaving it out too, changes nothing. */
  lemma WithoutInserted<T>(s: seq<T>, x: T, p: nat, places: set<nat>)
    requires p <= |s| && forall q :: q in places ==> q < p
    ensures Without(InsertedAt(s, x, p), places + {p}, 0) == Without(s, places, 0)
  {
    hide Without;
    var r, front, all := InsertedAt(s, x, p), s[..p], places + {p};
    InsertedEnds(s, x, p);
    hide InsertedAt;
    WithoutSplit(r, front, all, places, 0);
    WithoutFrom(r, all, p);
    WithoutSplit(s, front, places, places, 0);
    WithoutBeyond(s, places, p);
  }

  lemma InsertedEnds<T>(s: seq<T>, x: T, p: nat)
    requires p <= |s|
    ensures var r := InsertedAt(s, x, p); |r| == |s| + 1 && r[..p] == s[..p] && r[p + 1..] == s[p..]
  {
  }

  /** Removing what stands at a place past all those left out. */
  lemma WithoutRemoved<T>(s: seq<T>, p: nat, places: set<nat>)
    requires p < |s| && forall q :: q in places ==> q < p
    ensures var kept := |Without(s[..p], places, 0)|;
      && |Without(s, places, 0)| == kept + |s| - p
      && Without(s, places + {p}, 0) == RemovedAt(Without(s, places, 0), kept)
  {
    hide Without;
    var front, all := s[..p], places + {p};
    WithoutSplit(s, front, places, places, 0);
    WithoutBeyond(s, places, p);
    WithoutSplit(s, front, all, places, 0);
    WithoutFrom(s, all, p);
    RemovedFirst(Without(front, places, 0), s[p..]);
  }

  lemma RemovedFirst<T>(a: seq<T>, b: seq<T>)
    requires b != []
    ensures RemovedAt(a + b, |a|) == a + b[1..]
  {
  }

  lemma PlacesBelow(indexes: seq<nat>, n: nat) returns (places: set<nat>)
    requires n < |indexes| && Ascending(indexes)
    ensures places == Places(indexes[..n]) && forall q :: q in places ==> q < indexes[n]
    ensures Places(indexes[..n + 1]) == places + {indexes[n]}
  {
    places := Places(indexes[..n]);
    PlacesSnoc(indexes, n);
  }

  lemma PlacesSnoc(indexes: seq<nat>, n: nat)
    requires n < |indexes|
    ensures Places(indexes[..n + 1]) == Places(indexes[..n]) + {indexes[n]}
  {
  }

  lemma InsertionFits<T>(s: seq<T>, data: seq<T>, indexes: seq<nat>, n: nat)
    requires n < |data| == |indexes| && Insertable(|s|, indexes)
    ensures CanInsertAt(|s| + n, indexes[n])
    ensures Inserted(s, data, indexes, n + 1) == InsertedAt(Inserted(s, data, indexes, n), data[n], indexes[n])
  {
  }

  /** Ascending insertions put each datum at its own index, and leave the rest in order. */
  lemma {:induction false} InsertedMeaning<T>(s: seq<T>, data: seq<T>, indexes: seq<nat>, n: nat)
    requires n <= |data| == |indexes| && Insertable(|s|, indexes) && Ascending(indexes)
    ensures forall k :: 0 <= k < n ==> indexes[k] < |s| + n && Inserted(s, data, indexes, n)[indexes[k]] == data[k]
    ensures Without(Inserted(s, data, indexes, n), Places(indexes[..n]), 0) == s
  {
    if n == 0 {
      assert Places(indexes[..0]) == {};
      WithoutBeyond(s, {}, 0);
    } else {
      var p := indexes[n - 1];
      var before := Inserted(s, data, indexes, n - 1);
      InsertedMeaning(s, data, indexes, n - 1);
      InsertionFits(s, data, indexes, n - 1);
      var places := PlacesBelow(indexes, n - 1);
      hide Without, Places;
      WithoutInserted(before, data[n - 1], p, places);
    }
  }

  /** The first n removals: each index less those removed before it. */
  function Removed<T>(s: seq<T>, indexes: seq<nat>, n: nat): (r: seq<T>)
    requires n <= |indexes| && Removable(|s|, indexes)
    ensures |r| == |s| - n
    decreases n
  {
    if n == 0 then s else RemovedAt(Removed(s, indexes, n - 1), indexes[n - 1] - (n - 1))
  }

  lemma {:induction false} AscendingApart(indexes: seq<nat>, k: nat)
    requires k < |indexes| && Ascending(indexes)
    ensures indexes[k] >= k
  {
    if k > 0 {
      AscendingApart(indexes, k - 1);
    }
  }

  lemma AscendingRemovable(count: nat, indexes: seq<nat>)
    requires Ascending(indexes) && forall k :: 0 <= k < |indexes| ==> indexes[k] < count
    ensures Removable(count, indexes)
  {
    forall k | 0 <= k < |indexes|
      ensures k <= indexes[k]
    {
      AscendingApart(indexes, k);
    }
  }

  lemma RemovedStep<T>(s: seq<T>, indexes: seq<nat>, n: nat)
    requires n < |indexes| && Removable(|s|, indexes)
    ensures n <= indexes[n] && indexes[n] - n < |s| - n == |Removed(s, indexes, n)|
    ensures Removed(s, indexes, n + 1) == RemovedAt(Removed(s, indexes, n), indexes[n] - n)
  {
  }

  /** Removing with the running offset leaves out exactly the places of the index set. */
  lemma {:induction false} RemovedMeaning<T>(s: seq<T>, indexes: seq<nat>, n: nat)
    requires n <= |indexes| && Ascending(indexes) && Removable(|s|, indexes)
    ensures Removed(s, indexes, n) == Without(s, Places(indexes[..n]), 0)
    decreases n
  {
    if n == 0 {
      assert Places(indexes[..0]) == {};
      WithoutBeyond(s, {}, 0);
    } else {
      RemovedMeaning(s, indexes, n - 1);
      OneMoreRemoved(s, indexes, n - 1);
    }
  }

  lemma OneMoreRemoved<T>(s: seq<T>, indexes: seq<nat>, n: nat)
    requires n < |indexes| && Ascending(indexes) && Removable(|s|, indexes)
    requires Removed(s, indexes, n) == Without(s, Places(indexes[..n]), 0)
    ensures Removed(s, indexes, n + 1) == Without(s, Places(indexes[..n + 1]), 0)
  {
    hide Without, Places, Removed, RemovedAt;
    RemovedStep(s, indexes, n);
    var places := PlacesBelow(indexes, n);
    hide Ascending;
    WithoutRemoved(s, indexes[n], places);
  }

  function Within(places: set<nat>, from: nat, to: nat): set<nat> {
    set q | q in places && from <= q < to
  }

  lemma {:induction false} WithoutCount<T>(s: seq<T>, places: set<nat>, i: nat)
    requires i <= |s|
    ensures |Without(s, places, i)| == |s| - i - |Within(places, i, |s|)|
    decreases |s| - i
  {
    if i < |s| {
      var later := Within(places, i + 1, |s|);
      WithoutCount(s, places, i + 1);
      assert Within(places, i, |s|) == if i in places then later + {i} else later;
    } else {
      assert Within(places, i, |s|) == {};
    }
  }

  lemma {:induction false} PlacesCount(indexes: seq<nat>)
    ensures |Places(indexes)| <= |indexes|
    ensures |Places(indexes)| == |indexes| ==> forall j, k :: 0 <= j < k < |indexes| ==> indexes[j] != indexes[k]
  {
    if indexes != [] {
      var n := |indexes| - 1;
      PlacesCount(indexes[..n]);
      PlacesSnoc(indexes, n);
      assert indexes[..n + 1] == indexes;
      if indexes[n] in Places(indexes[..n]) {
        assert Places(indexes) == Places(indexes[..n]);
      }
    }
  }

  /** For indexes in order that is so exactly where none stands twice. */
  lemma RemovedMeaningExactly<T>(s: seq<T>, indexes: seq<nat>)
    requires Removable(|s|, indexes) && forall j, k :: 0 <= j < k < |indexes| ==> indexes[j] <= indexes[k]
    ensures Removed(s, indexes, |indexes|) == Without(s, Places(indexes), 0) <==> Ascending(indexes)
  {
    hide Without, Removed;
    assert indexes[..|indexes|] == indexes;
    if Ascending(indexes) {
      RemovedMeaning(s, indexes, |indexes|);
    } else {
      PlacesCount(indexes);
      WithoutCount(s, Places(indexes), 0);
      assert Within(Places(indexes), 0, |s|) == Places(indexes);
    }
  }

  /** Removing at the index set just inserted at restores what was there. */
  lemma InsertThenRemove<T>(s: seq<T>, data: seq<T>, indexes: seq<nat>)
    requires |data| == |indexes| && Insertable(|s|, indexes) && Ascending(indexes)
    ensures var r := Inserted(s, data, indexes, |indexes|);
      Removable(|r|, indexes) && Removed(r, indexes, |indexes|) == s
  {
    InsertedMeaning(s, data, indexes, |indexes|);
    AscendingRemovable(|Inserted(s, data, indexes, |indexes|)|, indexes);
    RemovedMeaning(Inserted(s, data, indexes, |indexes|), indexes, |indexes|);
  }

  /** An index that stands twice takes away the datum before it as well. */
  lemma TwiceTakesBoth<T>(a: T, b: T, c: T)
    ensures Removable(3, [2, 2]) && Removed([a, b, c], [2, 2], 2) == [a]
  {
    assert Removed([a, b, c], [2, 2], 1) == [a, b];
  }

  // ----- the array -----

  ghost function DataOf<T>(mem: seq<Cell<T>>, slots: seq<nat>): (s: seq<T>)
    requires forall k :: 0 <= k < |slots| ==> slots[k] < |mem|
    ensures |s| == |slots|
  {
    seq(|slots|, k requires 0 <= k < |slots| => mem[slots[k]].data)
  }

  lemma DataFrame<T>(mem: seq<Cell<T>>, mem': seq<Cell<T>>, slots: seq<nat>)
    requires forall k :: 0 <= k < |slots| ==> slots[k] < |mem| && slots[k] < |mem'| && mem'[slots[k]].data == mem[slots[k]].data
    ensures DataOf(mem', slots) == DataOf(mem, slots)
  {
  }

  lemma DataInserted<T>(mem: seq<Cell<T>>, slots: seq<nat>, item: nat, i: nat)
    requires i <= |slots| && item < |mem| && forall k :: 0 <= k < |slots| ==> slots[k] < |mem|
    ensures forall k :: 0 <= k < |InsertedAt(slots, item, i)| ==> InsertedAt(slots, item, i)[k] < |mem|
    ensures DataOf(mem, InsertedAt(slots, item, i)) == InsertedAt(DataOf(mem, slots), mem[item].data, i)
  {
  }

  lemma DataRemoved<T>(mem: seq<Cell<T>>, slots: seq<nat>, i: nat)
    requires i < |slots| && forall k :: 0 <= k < |slots| ==> slots[k] < |mem|
    ensures forall k :: 0 <= k < |RemovedAt(slots, i)| ==> RemovedAt(slots, i)[k] < |mem|
    ensures DataOf(mem, RemovedAt(slots, i)) == RemovedAt(DataOf(mem, slots), i)
  {
  }

  lemma DistinctInserted(slots: seq<nat>, item: nat, i: nat)
    requires i <= |slots| && Distinct(slots) && item !in Places(slots)
    ensures Distinct(InsertedAt(slots, item, i)) && Places(InsertedAt(slots, item, i)) == Places(slots) + {item}
  {
  }

  lemma DistinctRemoved(slots: seq<nat>, i: nat)
    requires i < |slots| && Distinct(slots)
    ensures Distinct(RemovedAt(slots, i)) && Places(RemovedAt(slots, i)) == Places(slots) - {slots[i]}
  {
  }

  class MutableArray<T(0)> {
    const minCount: nat
    const pool: SlotPool<T>
    var items: array<int>
    var dataCount: nat
    /** The slots of the data, in order. */
    ghost var slots: seq<nat>

    /** The array's slots, and the loose ones not yet or no longer in it, are all that are in use. */
    ghost predicate Holding(loose: set<nat>)
      reads this, items, pool
    {
      && pool.Valid() && minCount >= ARRAY_MIN_COUNT
      && dataCount == |slots| <= items.Length && dataCount <= MAX_COUNT
      && (forall k :: 0 <= k < |slots| ==> items[k] == slots[k])
      && (forall k :: 0 <= k < |slots| ==> slots[k] < |pool.mem|)
      && Distinct(slots) && Places(slots) !! loose && Places(slots) + loose == pool.InUse()
    }

    ghost predicate Valid()
      reads this, items, pool
    {
      Holding({})
    }

    ghost function Contents(): seq<T>
      requires forall k :: 0 <= k < |slots| ==> slots[k] < |pool.mem|
      reads this, pool
    {
      DataOf(pool.mem, slots)
    }

    constructor (capacity: nat, perPage: nat)
      requires perPage > 0
      ensures Valid() && fresh(items) && fresh(pool) && Contents() == []
    {
      var count := Exp2m1(Log2(capacity) + 1);
      minCount := if count > ARRAY_MIN_COUNT then count else ARRAY_MIN_COUNT;
      pool := new SlotPool(perPage);
      items := new int[if count > ARRAY_MIN_COUNT then count else ARRAY_MIN_COUNT](_ => NULL);
      dataCount := 0;
      slots := [];
    }

    /** Item slots are conserved: what the page cursor has handed out holds a datum or is on the free list. */
    lemma SlotConservation()
      requires Valid()
      ensures (|pool.pages| - 1) * pool.perPage + pool.offset == dataCount + |pool.free|
    {
      pool.Conservation();
      DistinctCount(slots);
      assert Places(slots) == set i | i in slots;
    }

    /** realloc of the items. */
    method Resize(count: nat, ghost loose: set<nat>)
      requires Holding(loose) && count >= dataCount
      modifies this`items
      ensures Holding(loose) && fresh(items) && items.Length == count
    {
      hide SlotPool.Valid;
      var items' := new int[count](_ => NULL);
      forall k | 0 <= k < dataCount {
        items'[k] := items[k];
      }
      items := items';
    }

    /** _wi_array_grow. */
    method Grow(index: nat, ghost loose: set<nat>)
      requires Holding(loose) && dataCount <= items.Length <= index
      modifies this`items
      ensures Holding(loose) && fresh(items) && items.Length == (index + 1) * 3 / 2 > index
    {
      Resize((index + 1) * 3 / 2, loose);
    }

    /** The items are less than three times the data, or as few as they get. */
    predicate Tight()
      reads this, items
    {
      items.Length < 3 * dataCount || items.Length <= minCount
    }

    /** _WI_ARRAY_CHECK_OPTIMIZE and _wi_array_optimize. */
    method CheckOptimize()
      requires Valid()
      modifies this`items
      ensures Valid() && Tight() && (items == old(items) || fresh(items))
    {
      if (items.Length >= 3 * dataCount && items.Length > minCount)
         || (dataCount >= 3 * items.Length && items.Length < MAX_COUNT) {
        Resize(Clamp(dataCount, minCount, MAX_COUNT), {});
      }
    }

    /** _wi_array_create_item, and the datum put in it. */
    method CreateItem(data: T) returns (item: nat)
      requires Valid()
      modifies pool
      ensures Holding({item}) && item < |pool.mem| && pool.mem[item].data == data
      ensures Contents() == old(Contents())
    {
      hide SlotPool.Valid;
      item := pool.Create();
      pool.Write(item, data, NULL);
      DataFrame(old(pool.mem), pool.mem, slots);
    }

    /** The pointer to a new item goes in at index; those from there on move up by one. */
    method InsertItem(item: nat, index: nat)
      requires Holding({item}) && item < |pool.mem| && dataCount < items.Length && index <= dataCount < MAX_COUNT
      modifies items, this`dataCount, this`slots
      ensures Valid() && Contents() == InsertedAt(old(Contents()), pool.mem[item].data, index)
    {
      hide SlotPool.Valid, Distinct, Places;
      DistinctInserted(slots, item, index);
      DataInserted(pool.mem, slots, item, index);
      forall k | index < k <= dataCount {
        items[k] := items[k - 1];
      }
      items[index] := item;
      dataCount := dataCount + 1;
      slots := InsertedAt(slots, item, index);
      assert pool.InUse() == Places(slots) + {};
    }

    /** wi_mutable_array_add_data. */
    method AddData(data: T)
      requires Valid() && dataCount < MAX_COUNT
      modifies this, pool, items
      ensures Valid() && Contents() == old(Contents()) + [data] && (items == old(items) || fresh(items))
    {
      hide SlotPool.Valid;
      var item := CreateItem(data);
      if dataCount >= items.Length {
        Grow(dataCount, {item});
      }
      InsertItem(item, dataCount);
    }

    /** wi_mutable_array_insert_data_at_index. */
    method InsertDataAtIndex(data: T, index: nat)
      requires Valid() && dataCount < MAX_COUNT && CanInsertAt(dataCount, index)
      modifies this, pool, items
      ensures Valid() && Contents() == InsertedAt(old(Contents()), data, index) && (items == old(items) || fresh(items))
    {
      hide SlotPool.Valid;
      if dataCount == 0 && index == 0 {
        AddData(data);
        return;
      }
      var item := CreateItem(data);
      if dataCount >= items.Length {
        Grow(dataCount + 1, {item});
      }
      InsertItem(item, index);
    }

    /** wi_mutable_array_remove_data_at_index. */
    method RemoveDataAtIndex(index: nat)
      requires Valid() && index < dataCount
      modifies this, pool, items
      ensures Valid() && Contents() == RemovedAt(old(Contents()), index) && Tight()
      ensures items == old(items) || fresh(items)
    {
      hide SlotPool.Valid, Distinct, Places;
      RemoveItem(index);
      CheckOptimize();
    }

    method RemoveItem(index: nat)
      requires Valid() && index < dataCount
      modifies this`dataCount, this`slots, pool, items
      ensures Valid() && Contents() == RemovedAt(old(Contents()), index)
    {
      hide SlotPool.Valid, Distinct;
      DistinctRemoved(slots, index);
      DataRemoved(pool.mem, slots, index);
      assert slots[index] in Places(slots);
      hide Places;
      pool.Remove(items[index]);
      DataFrame(old(pool.mem), pool.mem, RemovedAt(slots, index));
      items[index] := NULL;
      if index != dataCount - 1 {
        forall k | index <= k < dataCount - 1 {
          items[k] := items[k + 1];
        }
        items[dataCount - 1] := NULL;
      }
      dataCount := dataCount - 1;
      slots := RemovedAt(slots, index);
      assert Places(slots) + {} == pool.InUse();
    }

    /** wi_mutable_array_insert_data_from_array_at_indexes. */
    method InsertDataFromArrayAtIndexes(other: seq<T>, indexes: seq<nat>)
      requires Valid() && |other| == |indexes| && dataCount + |other| <= MAX_COUNT && Insertable(dataCount, indexes)
      modifies this, pool, items
      ensures Valid() && Contents() == Inserted(old(Contents()), other, indexes, |indexes|)
      ensures items == old(items) || fresh(items)
    {
      hide SlotPool.Valid, Distinct, Places, InsertedAt;
      var offset := 0;
      while offset < |indexes|
        invariant 0 <= offset <= |indexes| && Valid() && dataCount == old(dataCount) + offset
        invariant Contents() == Inserted(old(Contents()), other, indexes, offset)
        invariant items == old(items) || fresh(items)
      {
        InsertionFits(old(Contents()), other, indexes, offset);
        InsertDataAtIndex(other[offset], indexes[offset]);
        offset := offset + 1;
      }
    }

    /** wi_mutable_array_remove_data_at_indexes, of indexes that are all in range when their turn comes. */
    method RemoveDataAtIndexes(indexes: seq<nat>)
      requires Valid() && Removable(dataCount, indexes)
      modifies this, pool, items
      ensures Valid() && Contents() == Removed(old(Contents()), indexes, |indexes|)
      ensures items == old(items) || fresh(items)
    {
      hide SlotPool.Valid, Distinct, Places, RemovedAt;
      var offset := 0;
      while offset < |indexes|
        invariant 0 <= offset <= |indexes| && Valid() && dataCount == old(dataCount) - offset
        invariant Contents() == Removed(old(Contents()), indexes, offset)
        invariant items == old(items) || fresh(items)
      {
        RemovedStep(old(Contents()), indexes, offset);
        RemoveDataAtIndex(indexes[offset] - offset);
        offset := offset + 1;
      }
    }

    /** wi_mutable_array_add_data_sorted: before the first datum the new one comes before. */
    method AddDataSorted(data: T, before: (T, T) -> bool)
      requires Valid() && dataCount < MAX_COUNT
      modifies this, pool, items
      ensures Valid() && Contents() == InsertedAt(old(Contents()), data, SortedPlace(old(Contents()), data, before))
      ensures items == old(items) || fresh(items)
    {
      hide SlotPool.Valid, Distinct, Places;
      var item := CreateItem(data);
      var i := 0;
      while i < dataCount && !before(data, pool.mem[items[i]].data)
        invariant 0 <= i <= dataCount
        invariant forall k :: 0 <= k < i ==> !before(data, Contents()[k])
      {
        i := i + 1;
      }
      SortedPlaceAt(Contents(), data, before, i);
      if dataCount >= items.Length {
        Grow(if i < dataCount then dataCount + 1 else dataCount, {item});
      }
      InsertItem(item, i);
    }
  }

  // ----- index sets -----

  function SortedPlace<T>(s: seq<T>, x: T, before: (T, T) -> bool): (p: nat)
    ensures p <= |s| && (p < |s| ==> before(x, s[p])) && forall k :: 0 <= k < p ==> !before(x, s[k])
  {
    if s == [] || before(x, s[0]) then 0 else 1 + SortedPlace(s[1..], x, before)
  }

  lemma SortedPlaceAt<T>(s: seq<T>, x: T, before: (T, T) -> bool, p: nat)
    requires p <= |s| && (p < |s| ==> before(x, s[p])) && forall k :: 0 <= k < p ==> !before(x, s[k])
    ensures SortedPlace(s, x, before) == p
  {
  }

  ghost predicate NonDescending(s: seq<nat>) {
    forall j, k :: 0 <= j < k < |s| ==> s[j] <= s[k]
  }

  function Less(): (nat, nat) -> bool {
    (x, y) => x < y
  }

  /** x belongs in s at p. */
  ghost predicate Belongs(s: seq<nat>, x: nat, p: nat) {
    p <= |s| && (forall k :: 0 <= k < p ==> s[k] <= x) && (forall k :: p <= k < |s| ==> x < s[k])
  }

  lemma PlaceBelongs(s: seq<nat>, x: nat)
    requires NonDescending(s)
    ensures Belongs(s, x, SortedPlace(s, x, Less()))
  {
  }

  function Shifted(k: nat, p: nat): nat {
    if k < p then k else k + 1
  }

  lemma InsertedElements(s: seq<nat>, x: nat, p: nat)
    requires p <= |s|
    ensures var r := InsertedAt(s, x, p);
      && |r| == |s| + 1 && r[p] == x && multiset(r) == multiset(s) + multiset{x}
      && (forall k :: 0 <= k < |s| ==> r[Shifted(k, p)] == s[k])
      && (forall k :: 0 <= k < |r| ==> r[k] == if k < p then s[k] else if k == p then x else s[k - 1])
  {
    assert s == s[..p] + s[p..];
  }

  lemma StaysInOrder(s: seq<nat>, x: nat, p: nat)
    requires NonDescending(s) && Belongs(s, x, p)
    ensures NonDescending(InsertedAt(s, x, p))
    ensures Ascending(s) && x !in s ==> Ascending(InsertedAt(s, x, p))
  {
    InsertedElements(s, x, p);
    hide InsertedAt;
  }

  lemma WasStrict(s: seq<nat>, x: nat, p: nat)
    requires p <= |s| && Ascending(InsertedAt(s, x, p))
    ensures Ascending(s) && x !in s
  {
    InsertedElements(s, x, p);
    var r := InsertedAt(s, x, p);
    hide InsertedAt;
    forall j, k | 0 <= j < k < |s|
      ensures s[j] < s[k]
    {
      assert r[Shifted(j, p)] < r[Shifted(k, p)];
    }
    forall j | 0 <= j < |s|
      ensures s[j] != x
    {
      assert r[Shifted(j, p)] == s[j];
      if j < p {
        assert r[j] < r[p];
      } else {
        assert r[p] < r[j + 1];
      }
    }
  }

  /** Adding an index keeps the list in order and loses nothing. It stays strictly ascending exactly if the
      index was not in it: adding one again makes it stand there twice. */
  lemma AddedInOrder(s: seq<nat>, x: nat)
    requires NonDescending(s)
    ensures var r := InsertedAt(s, x, SortedPlace(s, x, Less()));
      && NonDescending(r) && multiset(r) == multiset(s) + multiset{x}
      && (Ascending(r) <==> Ascending(s) && x !in s)
  {
    var p := SortedPlace(s, x, Less());
    PlaceBelongs(s, x);
    InsertedElements(s, x, p);
    StaysInOrder(s, x, p);
    hide InsertedAt, NonDescending, Belongs;
    if Ascending(InsertedAt(s, x, p)) {
      WasStrict(s, x, p);
    }
  }

  class IndexSet {
    const indexes: MutableArray<nat>

    ghost predicate Valid()
      reads this, indexes, indexes.items, indexes.pool
    {
      indexes.Valid() && NonDescending(indexes.Contents())
    }

    /** wi_mutable_indexset_add_index. */
    method AddIndex(index: nat)
      requires Valid() && indexes.dataCount < MAX_COUNT
      modifies indexes, indexes.pool, indexes.items
      ensures Valid() && multiset(indexes.Contents()) == multiset(old(indexes.Contents())) + multiset{index}
      ensures Ascending(indexes.Contents()) <==> Ascending(old(indexes.Contents())) && index !in old(indexes.Contents())
    {
      AddedInOrder(indexes.Contents(), index);
      indexes.AddDataSorted(index, Less());
    }

    constructor (perPage: nat)
      requires perPage > 0
      ensures Valid() && indexes.Contents() == [] && fresh(indexes) && fresh(indexes.pool) && fresh(indexes.items)
    {
      indexes := new MutableArray(0, perPage);
    }
  }
}
