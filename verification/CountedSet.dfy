/** Multisets given by a count for each element. */
module Bags {
  /** How often a set with these counts holds each element. */
  ghost function Bag<T>(counts: map<T, nat>): multiset<T> {
    if counts == map[] then multiset{}
    else
      var x :| x in counts;
      Bag(counts - {x})[x := counts[x]]
  }

  ghost function CountOf<T>(counts: map<T, nat>, x: T): nat {
    if x in counts then counts[x] else 0
  }

  lemma {:induction false} BagCounts<T>(counts: map<T, nat>, x: T)
    ensures Bag(counts)[x] == CountOf(counts, x)
    decreases |counts|
  {
    if counts != map[] {
      var y :| y in counts && Bag(counts) == Bag(counts - {y})[y := counts[y]];
      var rest := counts - {y};
      assert rest.Keys == counts.Keys - {y};
      BagCounts(rest, x);
      assert x != y ==> CountOf(rest, x) == CountOf(counts, x);
      assert x != y ==> Bag(counts)[x] == Bag(rest)[x];
    }
  }

  lemma BagsEqual<T>(counts: map<T, nat>, bag: multiset<T>)
    requires forall x :: bag[x] == CountOf(counts, x)
    ensures Bag(counts) == bag
  {
    forall x
      ensures Bag(counts)[x] == bag[x]
    {
      BagCounts(counts, x);
    }
    MultisetsEqual(Bag(counts), bag);
  }

  lemma MultisetsEqual<T>(a: multiset<T>, b: multiset<T>)
    requires forall x :: a[x] == b[x]
    ensures a == b
  {
  }
}

/** wi-set.c: the same table, holding a count for each element. */
module CountedSet {
  import opened Bags
  import opened Basics
  import opened Slab
  import opened HashTable

  ghost predicate Counted<T(0)>(s: Table<T, nat>)
    reads s, s.buckets, s.pool
  {
    s.Valid() && forall x :: x in s.Contents() ==> s.Contents()[x] > 0
  }

  ghost function Elements<T>(bag: multiset<T>): set<T> {
    set x | x in bag
  }

  /** data_count is the number of distinct elements. */
  lemma DistinctElements<T(0)>(s: Table<T, nat>)
    requires Counted(s)
    ensures s.count == |Elements(Bag(s.Contents()))|
  {
    s.InvParts();
    ElementsAreKeys(s.Contents());
  }

  method AddData<T(==,0)>(s: Table<T, nat>, x: T)
    requires Counted(s)
    modifies s, s.buckets, s.pool
    ensures Counted(s) && Bag(s.Contents()) == old(Bag(s.Contents())) + multiset{x}
    ensures s.buckets == old(s.buckets) || fresh(s.buckets)
  {
    hide Table.Inv, Bag;
    ghost var before := s.Contents();
    s.InvParts();
    var b := s.BucketForKey(x, Home(s.hash(x), s.buckets.Length));
    if b != NULL {
      s.Overwrite(x, s.pool.mem[b].data.value + 1, b);
    } else {
      s.InsertNew(x, 1);
    }
    s.CheckRehash();
    AddToBag(before, x);
  }

  lemma AddToBag<T>(counts: map<T, nat>, x: T)
    ensures Bag(counts[x := CountOf(counts, x) + 1]) == Bag(counts) + multiset{x}
  {
    forall y
      ensures Bag(counts)[y] == CountOf(counts, y)
    {
      BagCounts(counts, y);
    }
    BagsEqual(counts[x := CountOf(counts, x) + 1], Bag(counts) + multiset{x});
  }

  lemma RemoveFromBag<T>(counts: map<T, nat>, x: T)
    requires x in counts && counts[x] > 0
    ensures Bag(if counts[x] == 1 then counts - {x} else counts[x := counts[x] - 1]) == Bag(counts) - multiset{x}
    ensures Bag(counts - {x}) == Bag(counts)[x := 0]
  {
    forall y
      ensures Bag(counts)[y] == CountOf(counts, y)
    {
      BagCounts(counts, y);
    }
    BagsEqual(if counts[x] == 1 then counts - {x} else counts[x := counts[x] - 1], Bag(counts) - multiset{x});
    BagsEqual(counts - {x}, Bag(counts)[x := 0]);
  }

  lemma NotInBag<T>(counts: map<T, nat>, x: T)
    requires x !in counts
    ensures Bag(counts)[x] == 0
  {
    BagCounts(counts, x);
  }

  /** wi_mutable_set_remove_data: one occurrence of a counted set's element, every occurrence otherwise. */
  method RemoveData<T(==,0)>(s: Table<T, nat>, x: T, counted: bool)
    requires Counted(s)
    modifies s, s.buckets, s.pool
    ensures Counted(s)
    ensures Bag(s.Contents()) == if counted then old(Bag(s.Contents())) - multiset{x} else old(Bag(s.Contents()))[x := 0]
    ensures s.buckets == old(s.buckets) || fresh(s.buckets)
  {
    hide Table.Inv, Bag;
    ghost var before := s.Contents();
    var i, b, prev, j := s.FindLink(x);
    if b != NULL {
      RemoveFromBag(before, x);
      var left := s.pool.mem[b].data.value - 1;
      if counted && left > 0 {
        s.Overwrite(x, left, b);
      } else {
        s.Unlink(i, b, prev, j);
      }
    } else {
      NotInBag(before, x);
    }
    s.CheckRehash();
  }

  /** wi_set_count_for_data */
  method CountForData<T(==,0)>(s: Table<T, nat>, x: T) returns (n: nat)
    requires Counted(s)
    ensures n == Bag(s.Contents())[x]
  {
    BagCounts(s.Contents(), x);
    var value, _ := s.DataForKey(x, 0);
    n := value;
  }

  /** _wi_set_copy: re-adds every element as often as it is held, to a table of another size. */
  method Copy<T(==,0)>(s: Table<T, nat>) returns (copy: Table<T, nat>)
    requires Counted(s)
    ensures fresh(copy) && fresh(copy.buckets) && fresh(copy.pool) && Counted(copy)
    ensures Bag(copy.Contents()) == Bag(s.Contents())
  {
    hide Table.Inv, Chain, Placed, Flat, Bag, Counted, ContentsOf, Total;
    CountedParts(s);
    s.InvParts();
    copy := new Table(s.count, s.hash, s.pool.perPage);
    BagNil<T>();
    EmptyCounted(copy);
    ghost var done: seq<Node<T, nat>> := [];
    assert s.chains[0..] == s.chains;
    var i := 0;
    while i < s.buckets.Length
      invariant 0 <= i <= |s.chains| && done + Flat(s.chains[i..]) == Flat(s.chains)
      invariant fresh(copy) && fresh(copy.buckets) && fresh(copy.pool) && Counted(copy)
      invariant Bag(copy.Contents()) == Total(done)
    {
      FlatFrom(s.chains, i);
      CopyChain(s, copy, s.buckets[i], s.chains[i], done);
      assert (done + s.chains[i]) + Flat(s.chains[i + 1..]) == done + (s.chains[i] + Flat(s.chains[i + 1..]));
      done := done + s.chains[i];
      i := i + 1;
    }
    FlatEnd(s.chains);
    assert done + [] == done;
    TotalFlat(s.hash, s.chains, s.nodes, s.owner);
  }

  lemma CountedParts<T(0)>(s: Table<T, nat>)
    requires Counted(s)
    ensures s.Valid()
  {
  }

  lemma EmptyCounted<T(0)>(s: Table<T, nat>)
    requires s.Valid() && s.Contents() == map[]
    ensures Counted(s)
  {
  }

  method CopyChain<T(==,0)>(s: Table<T, nat>, copy: Table<T, nat>, head: int,
                            ghost list: seq<Node<T, nat>>, ghost done: seq<Node<T, nat>>)
    requires Chain(s.pool.mem, head, list)
    requires copy != s && copy.pool != s.pool && Counted(copy) && Bag(copy.Contents()) == Total(done)
    modifies copy, copy.buckets, copy.pool
    ensures Counted(copy) && Bag(copy.Contents()) == Total(done + list)
    ensures copy.buckets == old(copy.buckets) || fresh(copy.buckets)
  {
    hide Table.Inv, Chain, Bag, Total;
    var b := head;
    ghost var rest, all := list, done;
    assert done + [] == done;
    while b != NULL
      invariant Chain(s.pool.mem, b, rest) && all + rest == done + list
      invariant Counted(copy) && Bag(copy.Contents()) == Total(all)
      invariant copy.buckets == old(copy.buckets) || fresh(copy.buckets)
      decreases rest
    {
      ChainHead(s.pool.mem, b, rest);
      var j := 0;
      while j < s.pool.mem[b].data.value
        invariant 0 <= j <= s.pool.mem[b].data.value && Counted(copy)
        invariant Bag(copy.Contents()) == Total(all) + Times(rest[0].key, j)
        invariant copy.buckets == old(copy.buckets) || fresh(copy.buckets)
      {
        AddData(copy, s.pool.mem[b].data.key);
        TimesNext(rest[0].key, j);
        j := j + 1;
      }
      Shift(all, rest);
      TotalSnoc(all, rest[0]);
      all := all + [rest[0]];
      b := s.pool.mem[b].next;
      rest := rest[1..];
    }
    ChainEnd(s.pool.mem, rest);
    assert all + [] == all;
  }

  ghost function Times<T>(x: T, n: nat): multiset<T> {
    multiset{}[x := n]
  }

  lemma TimesNext<T>(x: T, n: nat)
    ensures Times(x, n) + multiset{x} == Times(x, n + 1)
  {
  }

  /** What the buckets of s add up to. */
  ghost function Total<T>(s: seq<Node<T, nat>>): multiset<T> {
    if s == [] then multiset{} else Total(s[..|s| - 1]) + Times(s[|s| - 1].key, s[|s| - 1].value)
  }

  lemma TotalSnoc<T>(s: seq<Node<T, nat>>, x: Node<T, nat>)
    ensures Total(s + [x]) == Total(s) + Times(x.key, x.value)
  {
  }

  lemma BagNil<T>()
    ensures Bag<T>(map[]) == multiset{} == Total<T>([])
  {
  }

  lemma {:induction false} TotalCounts<T>(s: seq<Node<T, nat>>, nodes: map<T, Node<T, nat>>, x: T)
    requires Distinct(s)
    requires forall y :: y in s ==> y.key in nodes && nodes[y.key] == y
    ensures Total(s)[x] == if x in nodes && nodes[x].key == x && nodes[x] in s then nodes[x].value else 0
  {
    if s != [] {
      var last := s[|s| - 1];
      assert s == s[..|s| - 1] + [last] && last in s;
      TotalCounts(s[..|s| - 1], nodes, x);
      assert last !in s[..|s| - 1];
    }
  }

  lemma TotalFlat<T>(hash: T -> nat, chains: seq<seq<Node<T, nat>>>, nodes: map<T, Node<T, nat>>, owner: map<nat, T>)
    requires Placed(hash, chains, nodes, owner)
    ensures Total(Flat(chains)) == Bag(ContentsOf(nodes))
  {
    FlatPlaced(hash, chains, nodes, owner);
    var total := Total(Flat(chains));
    forall x
      ensures total[x] == CountOf(ContentsOf(nodes), x)
    {
      TotalCounts(Flat(chains), nodes, x);
    }
    BagsEqual(ContentsOf(nodes), total);
  }

  // ----- equality -----

  /** The inner loop of _wi_set_is_equal: is every element of a chain in the other set? */
  method ContainsChain<T(==,0)>(s: Table<T, nat>, other: Table<T, nat>, head: int, ghost chain: seq<Node<T, nat>>)
    returns (contained: bool)
    requires Chain(s.pool.mem, head, chain) && other.Inv()
    ensures contained <==> forall x :: x in chain ==> x.key in other.Contents()
  {
    hide Table.Inv, ContentsOf;
    var b := head;
    ghost var rest := chain;
    while b != NULL
      invariant Chain(s.pool.mem, b, rest) && |rest| <= |chain| && rest == chain[|chain| - |rest|..]
      invariant forall x :: x in chain[..|chain| - |rest|] ==> x.key in other.Contents()
      decreases rest
    {
      var _, found := other.DataForKey(s.pool.mem[b].data.key, 0);
      assert rest[0] == chain[|chain| - |rest|];
      if !found {
        return false;
      }
      assert chain[..|chain| - |rest| + 1] == chain[..|chain| - |rest|] + [rest[0]];
      b := s.pool.mem[b].next;
      rest := rest[1..];
    }
    return true;
  }

  /** _wi_set_is_equal: the sets hold the same elements, however often. */
  method IsEqual<T(==,0)>(s: Table<T, nat>, other: Table<T, nat>) returns (equal: bool)
    requires Counted(s) && Counted(other)
    ensures equal <==> SameElements(s.Contents(), other.Contents())
  {
    hide Table.Inv, Chain, Placed, ContentsOf, Bag, Elements;
    s.InvParts();
    other.InvParts();
    ElementsAreKeys(s.Contents());
    ElementsAreKeys(other.Contents());
    if s.count != other.count {
      return false;
    }
    var i := 0;
    while i < s.buckets.Length
      invariant 0 <= i <= |s.chains|
      invariant forall j, x :: 0 <= j < i && x in s.chains[j] ==> x.key in other.Contents()
    {
      var contained := ContainsChain(s, other, s.buckets[i], s.chains[i]);
      if !contained {
        ghost var x :| x in s.chains[i] && x.key !in other.Contents();
        PlacedAt(s.hash, s.chains, s.nodes, s.owner, i, x);
        assert x.key in s.Contents().Keys;
        return false;
      }
      i := i + 1;
    }
    PlacedAll(s.hash, s.chains, s.nodes, s.owner);
    assert s.Contents().Keys <= other.Contents().Keys;
    SubsetOfSameSize(s.Contents().Keys, other.Contents().Keys);
    return true;
  }

  lemma ElementsAreKeys<T>(counts: map<T, nat>)
    requires forall x :: x in counts ==> counts[x] > 0
    ensures Elements(Bag(counts)) == counts.Keys
  {
    var elements := Elements(Bag(counts));
    forall x
      ensures x in elements <==> x in counts.Keys
    {
      BagCounts(counts, x);
    }
    assert elements == counts.Keys;
  }

  ghost predicate Positive<T>(counts: map<T, nat>) {
    forall x :: x in counts ==> counts[x] > 0
  }

  /** What _wi_set_is_equal decides. */
  ghost predicate SameElements<T>(counts: map<T, nat>, other: map<T, nat>) {
    Elements(Bag(counts)) == Elements(Bag(other))
  }

  /** The test answers rightly against every other set if and only if the set is empty: holding an element once
      more is not noticed. */
  lemma EqualityRight<T>(counts: map<T, nat>)
    requires Positive(counts)
    ensures (forall other: map<T, nat> :: Positive(other) ==> (SameElements(counts, other) <==> Bag(counts) == Bag(other)))
       <==> counts == map[]
  {
    hide Bag, Elements;
    ElementsAreKeys(counts);
    if counts == map[] {
      forall other: map<T, nat> | Positive(other)
        ensures SameElements(counts, other) <==> Bag(counts) == Bag(other)
      {
        ElementsAreKeys(other);
        assert other.Keys == {} ==> other == map[];
      }
    } else {
      var x :| x in counts;
      var more: nat := counts[x] + 1;
      var other: map<T, nat> := counts[x := more];
      ElementsAreKeys(other);
      assert other.Keys == counts.Keys;
      BagCounts(counts, x);
      BagCounts(other, x);
      assert Positive(other) && SameElements(counts, other) && Bag(counts) != Bag(other);
    }
  }

  /** Where nothing is held twice it decides whether the multisets are equal. */
  lemma EqualityOfOnes<T>(counts: map<T, nat>, other: map<T, nat>)
    requires (forall x :: x in counts ==> counts[x] == 1) && forall x :: x in other ==> other[x] == 1
    ensures SameElements(counts, other) <==> Bag(counts) == Bag(other)
  {
    hide Bag, Elements;
    ElementsAreKeys(counts);
    ElementsAreKeys(other);
    if counts.Keys == other.Keys {
      assert forall x :: x in counts <==> x in other.Keys;
      MapsEqual(counts, other);
    }
  }

  /** One x and two pass for equal. */
  lemma CountsNotCompared<T>(x: T)
    ensures SameElements(map[x := 1], map[x := 2]) && Bag(map[x := 1]) != Bag(map[x := 2])
  {
    hide Bag, Elements;
    ElementsAreKeys(map[x := 1]);
    ElementsAreKeys(map[x := 2]);
    BagCounts(map[x := 1], x);
    BagCounts(map[x := 2], x);
  }

  // ----- runs -----

  datatype Change<T> = Add(element: T) | Take(element: T) | TakeAll

  ghost function Changed<T>(bag: multiset<T>, change: Change<T>, counted: bool): multiset<T> {
    match change
    case Add(x) => bag + multiset{x}
    case Take(x) => if counted then bag - multiset{x} else bag[x := 0]
    case TakeAll => multiset{}
  }

  ghost function ChangedBy<T>(bag: multiset<T>, changes: seq<Change<T>>, counted: bool): multiset<T>
    decreases changes
  {
    if changes == [] then bag else ChangedBy(Changed(bag, changes[0], counted), changes[1..], counted)
  }

  method Apply<T(==,0)>(s: Table<T, nat>, change: Change<T>, counted: bool)
    requires Counted(s)
    modifies s, s.buckets, s.pool
    ensures Counted(s) && Bag(s.Contents()) == Changed(old(Bag(s.Contents())), change, counted)
    ensures s.buckets == old(s.buckets) || fresh(s.buckets)
  {
    hide Table.Inv, Bag;
    match change {
      case Add(x) => AddData(s, x);
      case Take(x) => RemoveData(s, x, counted);
      case TakeAll =>
        s.RemoveAllData();
        BagNil<T>();
    }
  }

  lemma ChangedNext<T>(bag: multiset<T>, changes: seq<Change<T>>, i: nat, counted: bool)
    requires i < |changes|
    ensures ChangedBy(bag, changes[i..], counted) == ChangedBy(Changed(bag, changes[i], counted), changes[i + 1..], counted)
  {
    assert changes[i..][1..] == changes[i + 1..];
  }

  /** Any run of additions and removals, with the rehashes it triggers, does to the set what it does to a
      multiset, and conserves slots. */
  method Replay<T(==,0)>(s: Table<T, nat>, changes: seq<Change<T>>, counted: bool)
    requires Counted(s)
    modifies s, s.buckets, s.pool
    ensures Counted(s) && Bag(s.Contents()) == ChangedBy(old(Bag(s.Contents())), changes, counted)
    ensures (|s.pool.pages| - 1) * s.pool.perPage + s.pool.offset == |Elements(Bag(s.Contents()))| + |s.pool.free|
  {
    hide Table.Inv, Bag, Elements, Changed;
    var i := 0;
    assert changes[0..] == changes;
    while i < |changes|
      invariant 0 <= i <= |changes| && Counted(s) && (s.buckets == old(s.buckets) || fresh(s.buckets))
      invariant ChangedBy(Bag(s.Contents()), changes[i..], counted) == ChangedBy(old(Bag(s.Contents())), changes, counted)
    {
      ChangedNext(Bag(s.Contents()), changes, i, counted);
      Apply(s, changes[i], counted);
      i := i + 1;
    }
    s.SlotConservation();
    DistinctElements(s);
  }
}
