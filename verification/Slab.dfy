/** The slot allocator that wi-dictionary.c, wi-set.c and wi-array.c each carry a copy of: pages of
    slots handed out in order, and a free list threaded through the slots' link field.

    Memory is explicit. A slot's address is its number in allocation order, the fields of the slot at
    address a are those of mem[a], and NULL is an address no slot has. */
module Slab {
  import opened Basics

  datatype Cell<P> = Cell(data: P, next: int, link: int)

  /** s lists, in order, the addresses reached from head through link. */
  ghost predicate FreeChain<P>(mem: seq<Cell<P>>, head: int, s: seq<nat>)
    decreases s
  {
    if s == [] then head == NULL
    else head == s[0] && s[0] < |mem| && FreeChain(mem, mem[s[0]].link, s[1..])
  }

  ghost predicate Distinct<T>(s: seq<T>) {
    forall i, j :: 0 <= i < j < |s| ==> s[i] != s[j]
  }

  ghost predicate SameLink<P>(mem: seq<Cell<P>>, mem': seq<Cell<P>>, s: seq<nat>) {
    |mem| <= |mem'| && forall a :: a in s && a < |mem| ==> mem'[a].link == mem[a].link
  }

  /** A free list depends on the link fields of its own slots only. */
  lemma {:induction false} FreeFrame<P>(mem: seq<Cell<P>>, mem': seq<Cell<P>>, head: int, s: seq<nat>)
    requires FreeChain(mem, head, s) && SameLink(mem, mem', s)
    ensures FreeChain(mem', head, s)
    decreases s
  {
    if s != [] {
      FreeFrame(mem, mem', mem[s[0]].link, s[1..]);
    }
  }

  /** The slots n pages hold. */
  ghost function Span(n: nat, perPage: nat): nat {
    if n == 0 then 0 else Span(n - 1, perPage) + perPage
  }

  lemma {:induction false} SpanIsProduct(n: nat, perPage: nat)
    ensures Span(n, perPage) == n * perPage
  {
    if n > 0 {
      SpanIsProduct(n - 1, perPage);
      assert n * perPage == (n - 1) * perPage + perPage;
    }
  }

  class SlotPool<P(0)> {
    const perPage: nat
    var mem: seq<Cell<P>>
    var pages: seq<nat>
    var offset: nat
    var freeList: int
    ghost var free: seq<nat>

    ghost predicate Valid()
      reads this
    {
      && 0 < perPage && offset <= perPage
      && |mem| == Span(|pages|, perPage)
      && (if pages == [] then offset == perPage else pages[|pages| - 1] == |mem| - perPage)
      && Distinct(free)
      && (forall a :: a in free ==> a < Handed())
      && FreeChain(mem, freeList, free)
    }

    /** The addresses below this one have been handed out at least once. */
    ghost function Handed(): int
      reads this
    {
      |mem| - (perPage - offset)
    }

    /** The slots handed out and not given back. */
    ghost function InUse(): set<nat>
      reads this
    {
      set a: nat | a < Handed() && a !in free
    }

    constructor (perPage: nat)
      requires perPage > 0
      ensures Valid() && InUse() == {} && this.perPage == perPage
    {
      this.perPage := perPage;
      mem, pages, offset, freeList := [], [], perPage, NULL;
      free := [];
    }

    /** Slot conservation: what the page cursor has handed out is in use or on the free list. */
    lemma Conservation()
      requires Valid()
      ensures (|pages| - 1) * perPage + offset == Handed() == |InUse()| + |free|
    {
      var freed := set a | a in free;
      SpanIsProduct(|pages|, perPage);
      assert (|pages| - 1) * perPage == |pages| * perPage - perPage;
      DistinctCount(free);
      assert Below(Handed()) == InUse() + freed;
    }

    /** Puts the slot at the page cursor on the empty free list, after a new page if the last one is used up. */
    method Refill()
      requires Valid() && freeList == NULL
      modifies this
      ensures Valid() && free == [old(Handed())] && Handed() == old(Handed()) + 1
      ensures |old(mem)| <= |mem| && forall a :: 0 <= a < |old(mem)| && a != free[0] ==> mem[a] == old(mem)[a]
    {
      if offset == perPage {
        var blank: P := *;
        var page := seq(perPage, _ => Cell(blank, NULL, NULL));
        pages := pages + [|mem|];
        mem := mem + page;
        offset := 0;
      }
      freeList := pages[|pages| - 1] + offset;
      offset := offset + 1;
      mem := mem[freeList := mem[freeList].(link := NULL)];
      free := [freeList];
    }

    method Create() returns (s: nat)
      requires Valid()
      modifies this
      ensures Valid()
      ensures s < |mem| && s !in old(InUse()) && InUse() == old(InUse()) + {s}
      ensures |old(mem)| <= |mem|
      ensures forall a :: 0 <= a < |old(mem)| && a != s ==> mem[a] == old(mem)[a]
      ensures old(free) != [] ==> s == old(free)[0] && free == old(free)[1..] && Handed() == old(Handed())
      ensures old(free) == [] ==> free == [] && s == old(Handed()) && Handed() == s + 1
    {
      if freeList == NULL {
        Refill();
      }
      ghost var before, handed := free, Handed();
      s := freeList;
      freeList := mem[s].link;
      free := free[1..];
      assert before == [s] + free && Handed() == handed;
      assert forall a :: a in before <==> a == s || a in free;
      assert forall j :: 0 <= j < |free| ==> free[j] == before[j + 1] && before[j + 1] != before[0];
      assert before[0] == s && s in before && s < handed && s !in free;
    }

    /** Assigns the data and next fields of a slot; its link is the allocator's own. */
    method Write(s: nat, data: P, next: int)
      requires Valid() && s < |mem|
      modifies this`mem
      ensures Valid() && InUse() == old(InUse()) && Handed() == old(Handed())
      ensures mem == old(mem)[s := old(mem)[s].(data := data, next := next)]
    {
      mem := mem[s := mem[s].(data := data, next := next)];
      FreeFrame(old(mem), mem, freeList, free);
    }

    method Remove(s: nat)
      requires Valid() && s in InUse()
      modifies this
      ensures Valid() && |mem| == |old(mem)| && Handed() == old(Handed())
      ensures forall a :: 0 <= a < |mem| ==> mem[a].data == old(mem)[a].data && mem[a].next == old(mem)[a].next
      ensures free == [s] + old(free) && InUse() == old(InUse()) - {s}
    {
      mem := mem[s := mem[s].(link := freeList)];
      FreeFrame(old(mem), mem, freeList, free);
      freeList := s;
      free := [s] + free;
    }
  }

  /** The first n addresses. */
  ghost function Below(n: nat): (s: set<nat>)
    ensures |s| == n && forall a: nat :: a in s <==> a < n
  {
    if n == 0 then {} else Below(n - 1) + {n - 1}
  }

  lemma {:induction false} DistinctCount<T>(s: seq<T>)
    requires Distinct(s)
    ensures |set x | x in s| == |s|
  {
    if s != [] {
      DistinctCount(s[1..]);
      assert (set x | x in s) == {s[0]} + set x | x in s[1..];
    }
  }
}
