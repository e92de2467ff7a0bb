/** The chained hash table under wi-dictionary.c and wi-set.c: bucket chains threaded through next,
    the slot allocator, and a rehash whenever the load leaves its window. */
module HashTable {
  import opened Basics
  import opened Capacity
  import opened Slab

  datatype Entry<K, V> = Entry(key: K, value: V)
  type Memory<K, V> = seq<Cell<Entry<K, V>>>

  /** A bucket as the chains see it: where it lives and what it holds. */
  datatype Node<K, V> = Node(addr: nat, key: K, value: V)

  function Home(h: nat, n: nat): (i: nat)
    requires n > 0
    ensures i < n
  {
    h % n
  }

  /** Starting from head and following next, memory holds exactly the buckets of s. */
  ghost predicate Chain<K, V>(mem: Memory<K, V>, head: int, s: seq<Node<K, V>>)
    decreases s
  {
    if s == [] then head == NULL
    else
      && head == s[0].addr < |mem|
      && mem[head].data == Entry(s[0].key, s[0].value)
      && Chain(mem, mem[head].next, s[1..])
  }

  ghost predicate Chained<K, V>(mem: Memory<K, V>, heads: seq<int>, chains: seq<seq<Node<K, V>>>) {
    && |heads| == |chains| > 0
    && forall i :: 0 <= i < |chains| ==> Chain(mem, heads[i], chains[i])
  }

  /** Of n chains, the i-th is s: it lists the buckets of exactly the keys that hash to i, once each. */
  ghost predicate Settled<K, V>(hash: K -> nat, n: nat, i: nat, s: seq<Node<K, V>>, nodes: map<K, Node<K, V>>)
    requires n > 0
  {
    && Distinct(s)
    && (forall x :: x in s ==> x.key in nodes && nodes[x.key] == x && Home(hash(x.key), n) == i)
    && (forall k :: k in nodes && Home(hash(k), n) == i ==> nodes[k] in s)
  }

  /** nodes says which bucket holds each key and owner which key each address holds: one key a bucket. */
  ghost predicate Owned<K, V>(nodes: map<K, Node<K, V>>, owner: map<nat, K>) {
    && (forall k :: k in nodes ==> nodes[k].key == k && nodes[k].addr in owner && owner[nodes[k].addr] == k)
    && (forall a :: a in owner ==> owner[a] in nodes && nodes[owner[a]].addr == a)
  }

  /** Every slot in use holds one key of its own, and sits exactly once, in the chain that key hashes to. */
  ghost predicate Placed<K, V>(hash: K -> nat, chains: seq<seq<Node<K, V>>>, nodes: map<K, Node<K, V>>, owner: map<nat, K>)
  {
    && |chains| > 0
    && Owned(nodes, owner)
    && forall i :: 0 <= i < |chains| ==> Settled(hash, |chains|, i, chains[i], nodes)
  }

  ghost function ContentsOf<K, V>(nodes: map<K, Node<K, V>>): map<K, V> {
    map k | k in nodes :: nodes[k].value
  }

  datatype Update<K, V> = Set(key: K, value: V) | Remove(key: K) | RemoveAll

  ghost function Updated<K, V>(m: map<K, V>, u: Update<K, V>): map<K, V> {
    match u
    case Set(key, value) => m[key := value]
    case Remove(key) => m - {key}
    case RemoveAll => map[]
  }

  ghost function Replayed<K, V>(m: map<K, V>, updates: seq<Update<K, V>>): map<K, V>
    decreases updates
  {
    if updates == [] then m else Replayed(Updated(m, updates[0]), updates[1..])
  }

  class Table<K(==,0), V(==,0)> {
    const hash: K -> nat
    const minCount: nat
    const pool: SlotPool<Entry<K, V>>
    var buckets: array<int>
    var count: nat
    ghost var chains: seq<seq<Node<K, V>>>
    ghost var nodes: map<K, Node<K, V>>
    ghost var owner: map<nat, K>

    /** Everything but the load window. */
    ghost predicate Inv()
      reads this, buckets, pool
    {
      && pool.Valid()
      && minCount >= MIN_COUNT
      && Chained(pool.mem, buckets[..], chains)
      && Placed(hash, chains, nodes, owner)
      && owner.Keys == pool.InUse()
      && |nodes| == |owner| == count
    }

    lemma InvParts()
      requires Inv()
      ensures pool.perPage > 0 && buckets.Length == |chains| && Placed(hash, chains, nodes, owner)
      ensures forall i :: 0 <= i < |chains| ==> Chain(pool.mem, buckets[i], chains[i])
      ensures |Contents()| == count
    {
      assert Contents().Keys == nodes.Keys;
    }

    ghost predicate Valid()
      reads this, buckets, pool
    {
      Inv() && LoadWindow(buckets.Length, minCount, count)
    }

    /** There are fewer than three entries for each bucket, until there are as many buckets as there may be. */
    lemma LoadBelow()
      requires Valid()
      ensures |Contents()| < 3 * buckets.Length || buckets.Length >= 16777213
      ensures buckets.Length < 3 * |Contents()| || buckets.Length <= minCount
    {
      InvParts();
    }

    /** The map the table stands for. */
    ghost function Contents(): map<K, V>
      reads this
    {
      ContentsOf(nodes)
    }

    constructor (capacity: nat, hash: K -> nat, perPage: nat)
      requires perPage > 0
      ensures Valid() && fresh(buckets) && fresh(pool)
      ensures Contents() == map[] && this.hash == hash
      ensures 11 <= buckets.Length && capacity <= buckets.Length && (buckets.Length == 11 || buckets.Length < 2 * capacity)
    {
      this.hash := hash;
      minCount := InitialCount(capacity);
      count := 0;
      pool := new SlotPool(perPage);
      buckets := new int[InitialCount(capacity)](_ => NULL);
      chains := seq(InitialCount(capacity), _ => []);
      nodes, owner := map[], map[];
      new;
      InitialWindow(capacity);
    }

    method BucketForKey(key: K, i: nat) returns (b: int)
      requires Inv() && i == Home(hash(key), |chains|)
      ensures b == NULL <==> key !in nodes
      ensures b != NULL ==> key in nodes && b == nodes[key].addr && b < |pool.mem|
      ensures b != NULL ==> pool.mem[b].data.value == nodes[key].value
    {
      b := buckets[i];
      ghost var rest := chains[i];
      while b != NULL
        invariant Chain(pool.mem, b, rest)
        invariant forall x :: x in rest ==> x in chains[i]
        invariant key in nodes ==> nodes[key] in rest
        decreases rest
      {
        assert rest[0] in chains[i];
        if pool.mem[b].data.key == key {
          return;
        }
        b := pool.mem[b].next;
        rest := rest[1..];
      }
    }

    /** wi_dictionary_data_for_key and wi_dictionary_contains_key: a lookup is a lookup in the map. */
    method DataForKey(key: K, absent: V) returns (value: V, found: bool)
      requires Inv()
      ensures found == (key in Contents())
      ensures value == if key in Contents() then Contents()[key] else absent
    {
      var b := BucketForKey(key, Home(hash(key), buckets.Length));
      if b != NULL {
        return pool.mem[b].data.value, true;
      }
      return absent, false;
    }

    method InsertNew(key: K, value: V)
      requires Inv() && key !in nodes
      modifies this`count, this`chains, this`nodes, this`owner, buckets, pool
      ensures Inv() && Contents() == old(Contents())[key := value]
    {
      hide Chain, Chained, Placed, ContentsOf, SlotPool.Valid, SlotPool.InUse, SlotPool.Handed;
      ghost var mem, heads, before, all := pool.mem, buckets[..], chains, nodes;
      AsManyHeads(mem, heads, before);
      var i := Home(hash(key), buckets.Length);
      var b := pool.Create();
      pool.Write(b, Entry(key, value), buckets[i]);
      ghost var x := Node(b, key, value);
      buckets[i] := b;
      Inserted(mem, pool.mem, heads, buckets[..], hash, before, all, owner, x, i);
      count := count + 1;
      chains := before[i := [x] + before[i]];
      nodes := all[key := x];
      owner := owner[b := key];
    }

    method Overwrite(key: K, value: V, b: nat)
      requires Inv() && key in nodes && b == nodes[key].addr && b < |pool.mem|
      modifies this`chains, this`nodes, pool
      ensures Inv() && Contents() == old(Contents())[key := value]
    {
      hide Chain, Placed, ContentsOf, SlotPool.Valid;
      ghost var i, j := ChainOf(hash, chains, nodes, owner, key);
      pool.Write(b, Entry(key, value), pool.mem[b].next);
      ghost var x := Node(b, key, value);
      ChainedOverwrite(old(pool.mem), pool.mem, buckets[..], chains, hash, nodes, owner, x, i, j);
      PlacedOverwrite(hash, chains, nodes, owner, x, i, j);
      chains := chains[i := chains[i][j := x]];
      nodes := nodes[key := x];
    }

    method CheckRehash()
      requires Inv()
      modifies this`buckets, this`chains, pool
      ensures Valid() && nodes == old(nodes) && count == old(count)
      ensures buckets == old(buckets) || fresh(buckets)
    {
      if NeedsRehash(buckets.Length, minCount, count) {
        Rehash();
      }
    }

    /** _wi_dictionary_optimize: a new bucket array, every bucket relinked at the head of its new chain. */
    method Rehash()
      requires Inv()
      modifies this`buckets, this`chains, pool
      ensures Valid() && nodes == old(nodes) && count == old(count) && fresh(buckets)
    {
      hide Chain, Placed, SlotPool.Valid, Moving, Rehashed;
      RehashRestoresWindow(count, minCount);
      var n := Rehashed(count, minCount);
      var moved := new int[n](_ => NULL);
      ghost var m := MoveStart(hash, chains, nodes, owner, n);
      ChainedEmpty(pool.mem, moved[..], m.chains);
      var i := 0;
      while i < buckets.Length
        invariant 0 <= i <= |chains| && moved.Length == n == |m.chains|
        invariant fresh(moved) && buckets == old(buckets) && chains == old(chains)
        invariant pool.Valid() && pool.InUse() == owner.Keys
        invariant Chained(pool.mem, moved[..], m.chains) && ChainedFrom(pool.mem, buckets[..], chains, i)
        invariant Moving(hash, chains, nodes, owner, m, i) && m.rest == []
      {
        m := MoveEnter(hash, chains, nodes, owner, m, i);
        m := RehashChain(moved, buckets[i], m, i + 1);
        i := i + 1;
      }
      MoveDone(hash, chains, nodes, owner, m);
      buckets := moved;
      chains := m.chains;
    }

    /** The inner loop: relinks every bucket of one chain, reading each next before overwriting it. */
    method RehashChain(moved: array<int>, head: int, ghost start: Move<K, V>, ghost i: nat) returns (ghost m: Move<K, V>)
      requires moved != buckets && moved.Length == |start.chains| > 0
      requires pool.Valid() && pool.InUse() == owner.Keys
      requires Chained(pool.mem, moved[..], start.chains) && ChainedFrom(pool.mem, buckets[..], chains, i)
      requires Moving(hash, chains, nodes, owner, start, i) && Chain(pool.mem, head, start.rest)
      modifies moved, pool`mem
      ensures pool.Valid() && pool.InUse() == owner.Keys
      ensures |m.chains| == |start.chains| && m.rest == []
      ensures Chained(pool.mem, moved[..], m.chains) && ChainedFrom(pool.mem, buckets[..], chains, i)
      ensures Moving(hash, chains, nodes, owner, m, i)
    {
      hide Chain, Chained, ChainedFrom, SlotPool.Valid, Moving;
      var b := head;
      m := start;
      while b != NULL
        invariant pool.Valid() && pool.InUse() == owner.Keys
        invariant |m.chains| == |start.chains| == moved.Length
        invariant Chained(pool.mem, moved[..], m.chains) && ChainedFrom(pool.mem, buckets[..], chains, i)
        invariant Moving(hash, chains, nodes, owner, m, i) && Chain(pool.mem, b, m.rest)
        decreases m.rest
      {
        ChainHead(pool.mem, b, m.rest);
        var next := pool.mem[b].next;
        var home := Home(hash(pool.mem[b].data.key), moved.Length);
        ghost var mem, heads := pool.mem, moved[..];
        pool.Write(b, pool.mem[b].data, moved[home]);
        moved[home] := b;
        MoveAddresses(hash, chains, nodes, owner, m, i);
        ChainedMove(mem, pool.mem, heads, m.chains, buckets[..], chains, m.rest, i, home);
        m := MoveStep(hash, chains, nodes, owner, m, i);
        assert moved[..] == heads[home := b];
        b := next;
      }
      ChainEnd(pool.mem, m.rest);
    }

    /** _wi_dictionary_set_data_for_key */
    method SetDataForKey(value: V, key: K)
      requires Valid()
      modifies this, buckets, pool
      ensures Valid() && Contents() == old(Contents())[key := value]
      ensures buckets == old(buckets) || fresh(buckets)
    {
      hide Chain, Placed, ContentsOf, SlotPool.Valid;
      var b := BucketForKey(key, Home(hash(key), buckets.Length));
      if b != NULL {
        Overwrite(key, value, b);
      } else {
        InsertNew(key, value);
      }
      CheckRehash();
    }

    /** Takes the j-th bucket of chain i, whose predecessor is at prev, out of the chain. */
    method Bypass(i: nat, b: nat, prev: int, ghost j: nat)
      requires Inv() && i < |chains| && j < |chains[i]| && b == chains[i][j].addr
      requires prev == if j == 0 then NULL else chains[i][j - 1].addr
      modifies this`chains, buckets, pool
      ensures pool.Valid() && pool.InUse() == old(pool.InUse()) && b in pool.InUse()
      ensures chains == old(chains)[i := RemovedAt(old(chains)[i], j)]
      ensures Chained(pool.mem, buckets[..], chains)
    {
      hide Chain, Chained, Placed, SlotPool.Valid;
      BucketAt(pool.mem, buckets[..], hash, chains, nodes, owner, i, j);
      var next := pool.mem[b].next;
      if b == buckets[i] {
        buckets[i] := next;
      }
      if prev != NULL {
        BucketAt(pool.mem, old(buckets[..]), hash, chains, nodes, owner, i, j - 1);
        pool.Write(prev, pool.mem[prev].data, next);
      }
      ChainedUnlink(old(pool.mem), pool.mem, old(buckets[..]), chains, hash, nodes, owner, i, j);
      chains := chains[i := RemovedAt(chains[i], j)];
      assert buckets[..] == old(buckets[..])[i := if j == 0 then next else old(buckets[i])];
    }

    method Unlink(i: nat, b: nat, prev: int, ghost j: nat)
      requires Inv() && i < |chains| && j < |chains[i]| && b == chains[i][j].addr
      requires prev == if j == 0 then NULL else chains[i][j - 1].addr
      modifies this`count, this`chains, this`nodes, this`owner, buckets, pool
      ensures Inv() && Contents() == old(Contents()) - {old(chains)[i][j].key}
    {
      hide Chain, Placed, ContentsOf, SlotPool.Valid;
      ghost var x := chains[i][j];
      PlacedRemove(hash, chains, nodes, owner, i, j);
      Bypass(i, b, prev, j);
      ghost var mem := pool.mem;
      pool.Remove(b);
      ChainedFrame(mem, pool.mem, buckets[..], chains);
      count := count - 1;
      nodes := nodes - {x.key};
      owner := owner - {x.addr};
    }

    /** The removal search: the bucket that holds key, and the bucket before it in the chain. */
    method FindLink(key: K) returns (i: nat, b: int, prev: int, ghost j: nat)
      requires Inv()
      ensures i < |chains| && (b == NULL <==> key !in nodes)
      ensures b != NULL ==> j < |chains[i]| && chains[i][j] == nodes[key] && nodes[key].key == key
      ensures b != NULL ==> b == nodes[key].addr < |pool.mem| && pool.mem[b].data.value == nodes[key].value
      ensures b != NULL ==> prev == if j == 0 then NULL else chains[i][j - 1].addr
    {
      i := Home(hash(key), buckets.Length);
      b := buckets[i];
      prev := NULL;
      j := 0;
      while b != NULL && pool.mem[b].data.key != key
        invariant 0 <= j <= |chains[i]| && Chain(pool.mem, b, chains[i][j..])
        invariant prev == if j == 0 then NULL else chains[i][j - 1].addr
        invariant forall j' :: 0 <= j' < j ==> chains[i][j'].key != key
        decreases |chains[i]| - j
      {
        prev := b;
        b := pool.mem[b].next;
        j := j + 1;
      }
      if b != NULL {
        ChainHead(pool.mem, b, chains[i][j..]);
        PlacedAt(hash, chains, nodes, owner, i, chains[i][j]);
      } else {
        ChainEnd(pool.mem, chains[i][j..]);
        NotPlaced(hash, chains, nodes, owner, key);
      }
    }

    /** _wi_dictionary_remove_data_for_key */
    method RemoveDataForKey(key: K)
      requires Valid()
      modifies this, buckets, pool
      ensures Valid() && Contents() == old(Contents()) - {key}
      ensures buckets == old(buckets) || fresh(buckets)
    {
      hide Chain, Placed, SlotPool.Valid;
      var i, b, prev, j := FindLink(key);
      if b != NULL {
        Unlink(i, b, prev, j);
      }
      CheckRehash();
    }

    /** _wi_dictionary_bucket_remove over one chain. Only link is overwritten, so next still leads on. */
    method RemoveChain(i: nat)
      requires Inv() && i < |chains|
      modifies this`count, this`chains, this`nodes, this`owner, pool
      ensures pool.Valid() && owner.Keys == pool.InUse() && |nodes| == |owner| == count
      ensures Placed(hash, chains, nodes, owner) && chains == old(chains)[i := []]
      ensures ChainedBut(pool.mem, buckets[..], chains, i)
    {
      hide Chain, Placed, SlotPool.Valid, ChainedBut;
      ChainedButAll(pool.mem, buckets[..], chains, i);
      var b := buckets[i];
      while b != NULL
        invariant pool.Valid() && owner.Keys == pool.InUse() && |nodes| == |owner| == count
        invariant |chains| == |old(chains)| && chains == old(chains)[i := chains[i]]
        invariant Placed(hash, chains, nodes, owner)
        invariant ChainedBut(pool.mem, buckets[..], chains, i) && Chain(pool.mem, b, chains[i])
        decreases chains[i]
      {
        ChainHead(pool.mem, b, chains[i]);
        b := RemoveFirst(i, b);
      }
      ChainEnd(pool.mem, chains[i]);
    }

    method RemoveFirst(i: nat, b: nat) returns (next: int)
      requires pool.Valid() && owner.Keys == pool.InUse() && |nodes| == |owner| == count
      requires Placed(hash, chains, nodes, owner) && i < |chains| && b < |pool.mem|
      requires ChainedBut(pool.mem, buckets[..], chains, i) && Chain(pool.mem, b, chains[i])
      modifies this`count, this`chains, this`nodes, this`owner, pool
      ensures pool.Valid() && owner.Keys == pool.InUse() && |nodes| == |owner| == count
      ensures old(chains)[i] != [] && chains == old(chains)[i := old(chains)[i][1..]]
      ensures Placed(hash, chains, nodes, owner)
      ensures ChainedBut(pool.mem, buckets[..], chains, i) && Chain(pool.mem, next, chains[i])
    {
      hide Chain, Placed, SlotPool.Valid, ChainedBut;
      ChainHead(pool.mem, b, chains[i]);
      PlacedRemove(hash, chains, nodes, owner, i, 0);
      ghost var mem, x := pool.mem, chains[i][0];
      assert RemovedAt(chains[i], 0) == chains[i][1..];
      pool.Remove(b);
      count := count - 1;
      next := pool.mem[b].next;
      ChainedButFrame(mem, pool.mem, buckets[..], chains, i, next, chains[i][1..]);
      chains := chains[i := chains[i][1..]];
      nodes := nodes - {x.key};
      owner := owner - {x.addr};
    }

    /** _wi_dictionary_remove_all_data */
    method RemoveAllData()
      requires Valid()
      modifies this, buckets, pool
      ensures Valid() && Contents() == map[]
      ensures buckets == old(buckets) || fresh(buckets)
    {
      hide Chain, Placed, SlotPool.Valid;
      var i := 0;
      while i < buckets.Length
        invariant 0 <= i <= |chains| && Inv() && buckets == old(buckets)
        invariant forall j :: 0 <= j < i ==> chains[j] == []
      {
        RemoveChain(i);
        ghost var heads := buckets[..];
        buckets[i] := NULL;
        assert buckets[..] == heads[i := NULL];
        ChainedButEmpty(pool.mem, heads, chains, i);
        i := i + 1;
      }
      EmptyPlaced(hash, chains, nodes, owner);
      CheckRehash();
    }

    /** Slot conservation: what the page cursor has handed out is an entry or on the free list. */
    lemma SlotConservation()
      requires Inv()
      ensures (|pool.pages| - 1) * pool.perPage + pool.offset == count + |pool.free|
    {
      pool.Conservation();
    }

    /** Any run of updates, with the rehashes it triggers, does to the table what it does to the map. */
    method Replay(updates: seq<Update<K, V>>)
      requires Valid()
      modifies this, buckets, pool
      ensures Valid() && Contents() == Replayed(old(Contents()), updates)
      ensures (|pool.pages| - 1) * pool.perPage + pool.offset == |Contents()| + |pool.free|
      ensures |Contents()| < 3 * buckets.Length || buckets.Length >= 16777213
    {
      hide Inv, LoadWindow, ContentsOf;
      var i := 0;
      while i < |updates|
        invariant 0 <= i <= |updates| && Valid() && (buckets == old(buckets) || fresh(buckets))
        invariant Replayed(Contents(), updates[i..]) == Replayed(old(Contents()), updates)
      {
        match updates[i] {
          case Set(key, value) => SetDataForKey(value, key);
          case Remove(key) => RemoveDataForKey(key);
          case RemoveAll => RemoveAllData();
        }
        assert updates[i..][1..] == updates[i + 1..];
        i := i + 1;
      }
      SlotConservation();
      InvParts();
      LoadBelow();
    }

    /** _wi_enumerator_dictionary_enumerator: one step of the resumable walk. */
    method Next(context: Context<K, V>) returns (b: int)
      requires Inv() && context.Fits(pool.mem, chains)
      modifies context
      ensures context.Fits(pool.mem, chains)
      ensures b == NULL <==> old(context.Pending(chains)) == []
      ensures b == NULL ==> context.Pending(chains) == []
      ensures b != NULL ==> b == old(context.Pending(chains))[0].addr && 0 <= b < |pool.mem|
      ensures b != NULL ==> context.Pending(chains) == old(context.Pending(chains))[1..]
      ensures b != NULL ==>
        pool.mem[b].data == Entry(old(context.Pending(chains))[0].key, old(context.Pending(chains))[0].value)
    {
      hide Chain, Placed, SlotPool.Valid, Flat;
      b := context.bucket;
      if b == NULL {
        ChainEnd(pool.mem, context.current);
      } else {
        ChainHead(pool.mem, b, context.current);
      }
      ghost var all := context.Pending(chains);
      if b != NULL {
        if pool.mem[b].next != NULL {
          b := pool.mem[b].next;
          context.bucket := b;
          context.current := context.current[1..];
          ChainHead(pool.mem, b, context.current);
          assert all == context.current + Flat(chains[context.index + 1..]);
          assert all[1..] == context.current[1..] + Flat(chains[context.index + 1..]);
          return;
        } else {
          ChainEnd(pool.mem, context.current[1..]);
          context.index := context.index + 1;
          context.bucket := NULL;
          context.current := [];
          assert all == [] + Flat(chains[context.index..]) == Flat(chains[context.index..]);
        }
      }
      b := Scan(context);
    }

    /** The second half of a step: the first chain from index on that is not empty. */
    method Scan(context: Context<K, V>) returns (b: int)
      requires Inv() && context.bucket == NULL && context.current == [] && context.index <= |chains|
      modifies context
      ensures context.Fits(pool.mem, chains)
      ensures b == NULL <==> old(context.Pending(chains)) == []
      ensures b == NULL ==> context.Pending(chains) == []
      ensures b != NULL ==> b == old(context.Pending(chains))[0].addr && 0 <= b < |pool.mem|
      ensures b != NULL ==> context.Pending(chains) == old(context.Pending(chains))[1..]
      ensures b != NULL ==>
        pool.mem[b].data == Entry(old(context.Pending(chains))[0].key, old(context.Pending(chains))[0].value)
    {
      hide Chain, Placed, SlotPool.Valid, Flat;
      ghost var all := Flat(chains[context.index..]);
      while context.index < buckets.Length
        invariant context.index <= |chains| && context.bucket == NULL && context.current == []
        invariant all == Flat(chains[context.index..])
      {
        b := buckets[context.index];
        FlatFrom(chains, context.index);
        if b != NULL {
          context.bucket := b;
          context.current := chains[context.index];
          ChainHead(pool.mem, b, context.current);
          assert all[1..] == context.current[1..] + Flat(chains[context.index + 1..]);
          return;
        }
        ChainEnd(pool.mem, chains[context.index]);
        assert [] + Flat(chains[context.index + 1..]) == Flat(chains[context.index + 1..]);
        context.index := context.index + 1;
      }
      ChainNil(pool.mem);
      FlatEnd(chains);
      return NULL;
    }

    /** Running the enumerator to its end over an unmodified table visits every entry exactly once. */
    method Entries() returns (entries: seq<Entry<K, V>>)
      requires Inv()
      ensures Lists(entries, Contents())
    {
      InvParts();
      hide Inv, Chain, Placed, SlotPool.Valid, Flat, ContentsOf, Lists, EntriesOf;
      var context := new Context();
      entries := [];
      ghost var all, left := Flat(chains), Flat(chains);
      assert chains[0..] == chains && [] + EntriesOf(all) == EntriesOf(all);
      var b := Next(context);
      while b != NULL
        invariant context.Fits(pool.mem, chains) && (b == NULL <==> left == [])
        invariant b != NULL ==> 0 <= b < |pool.mem| && pool.mem[b].data == EntryOf(left[0])
        invariant b != NULL ==> context.Pending(chains) == left[1..]
        invariant entries + EntriesOf(left) == EntriesOf(all)
        decreases |left|
      {
        EntriesFirst(left);
        Associate(entries, [pool.mem[b].data], EntriesOf(left[1..]));
        entries := entries + [pool.mem[b].data];
        left := left[1..];
        b := Next(context);
      }
      EntriesEnd(entries, all);
      FlatLists(hash, chains, nodes, owner, entries);
    }

    method EqualChain(other: Table<K, V>, absent: V, head: int, ghost s: seq<Node<K, V>>) returns (equal: bool)
      requires Chain(pool.mem, head, s) && other.Inv()
      ensures equal <==> forall x :: x in s ==> x.value == LookupOr(other.Contents(), x.key, absent)
    {
      hide Inv, ContentsOf;
      var b := head;
      ghost var rest := s;
      while b != NULL
        invariant Chain(pool.mem, b, rest) && |rest| <= |s| && rest == s[|s| - |rest|..]
        invariant forall x :: x in s[..|s| - |rest|] ==> x.value == LookupOr(other.Contents(), x.key, absent)
        decreases rest
      {
        var value, _ := other.DataForKey(pool.mem[b].data.key, absent);
        assert rest[0] == s[|s| - |rest|];
        if pool.mem[b].data.value != value {
          return false;
        }
        assert s[..|s| - |rest| + 1] == s[..|s| - |rest|] + [rest[0]];
        b := pool.mem[b].next;
        rest := rest[1..];
      }
      return true;
    }

    /** _wi_dictionary_is_equal: equal sizes, and every value here is what a lookup there returns. */
    method IsEqual(other: Table<K, V>, absent: V) returns (equal: bool)
      requires Inv() && other.Inv()
      ensures equal <==> SameByLookup(Contents(), other.Contents(), absent)
    {
      hide Inv, Chain, Placed, ContentsOf;
      InvParts();
      other.InvParts();
      if count != other.count {
        return false;
      }
      var i := 0;
      while i < buckets.Length
        invariant 0 <= i <= |chains|
        invariant forall j, x :: 0 <= j < i && x in chains[j] ==> x.value == LookupOr(other.Contents(), x.key, absent)
      {
        var same := EqualChain(other, absent, buckets[i], chains[i]);
        if !same {
          ghost var x :| x in chains[i] && x.value != LookupOr(other.Contents(), x.key, absent);
          PlacedAt(hash, chains, nodes, owner, i, x);
          return false;
        }
        i := i + 1;
      }
      PlacedAll(hash, chains, nodes, owner);
      return true;
    }

    method CopyChain(copy: Table<K, V>, head: int, ghost s: seq<Node<K, V>>, ghost done: seq<Node<K, V>>)
      requires Chain(pool.mem, head, s)
      requires copy != this && copy.pool != pool && copy.Valid() && copy.Contents() == MapOf(done)
      modifies copy, copy.buckets, copy.pool
      ensures copy.Valid() && copy.Contents() == MapOf(done + s)
      ensures copy.buckets == old(copy.buckets) || fresh(copy.buckets)
    {
      hide Chain, Inv, LoadWindow, ContentsOf, MapOf;
      var b := head;
      ghost var rest, all := s, done;
      assert done + [] == done;
      while b != NULL
        invariant Chain(pool.mem, b, rest) && all + rest == done + s
        invariant copy.Valid() && copy.Contents() == MapOf(all)
        invariant copy.buckets == old(copy.buckets) || fresh(copy.buckets)
        decreases rest
      {
        ChainHead(pool.mem, b, rest);
        copy.SetDataForKey(pool.mem[b].data.value, pool.mem[b].data.key);
        Shift(all, rest);
        MapOfSnoc(all, rest[0]);
        all := all + [rest[0]];
        b := pool.mem[b].next;
        rest := rest[1..];
      }
      ChainEnd(pool.mem, rest);
      assert all + [] == all;
    }

    /** _wi_dictionary_copy */
    method Copy() returns (copy: Table<K, V>)
      requires Inv()
      ensures fresh(copy) && fresh(copy.buckets) && fresh(copy.pool) && copy.Valid()
      ensures copy.Contents() == Contents()
    {
      hide Inv, Chain, Placed, LoadWindow, Flat, ContentsOf, MapOf;
      InvParts();
      copy := new Table(count, hash, pool.perPage);
      ghost var done: seq<Node<K, V>> := [];
      MapOfNil<K, V>();
      assert chains[0..] == chains;
      var i := 0;
      while i < buckets.Length
        invariant 0 <= i <= |chains| && done + Flat(chains[i..]) == Flat(chains)
        invariant fresh(copy) && fresh(copy.buckets) && fresh(copy.pool) && copy.Valid()
        invariant copy.Contents() == MapOf(done)
      {
        FlatFrom(chains, i);
        CopyChain(copy, buckets[i], chains[i], done);
        assert (done + chains[i]) + Flat(chains[i + 1..]) == done + (chains[i] + Flat(chains[i + 1..]));
        done := done + chains[i];
        i := i + 1;
      }
      FlatEnd(chains);
      assert done + [] == done;
      MapOfFlat(hash, chains, nodes, owner);
    }
  }

  /** wi_enumerator_context_t: the chain index and the bucket returned last. */
  class Context<K(0), V(0)> {
    var index: nat
    var bucket: int
    ghost var current: seq<Node<K, V>>

    constructor ()
      ensures index == 0 && bucket == NULL && current == []
    {
      index, bucket, current := 0, NULL, [];
    }

    ghost predicate Fits(mem: Memory<K, V>, chains: seq<seq<Node<K, V>>>)
      reads this
    {
      && Chain(mem, bucket, current)
      && index <= |chains|
      && (bucket != NULL ==> index < |chains|)
    }

    /** The buckets the walk has still to visit, in order. */
    ghost function Pending(chains: seq<seq<Node<K, V>>>): seq<Node<K, V>>
      requires index <= |chains| && (bucket != NULL ==> index < |chains| && current != [])
      reads this
    {
      if bucket == NULL then Flat(chains[index..]) else current[1..] + Flat(chains[index + 1..])
    }
  }

  // ----- memory -----

  ghost predicate Agree<K, V>(mem: Memory<K, V>, mem': Memory<K, V>, s: seq<Node<K, V>>) {
    |mem| <= |mem'| && forall x :: x in s && x.addr < |mem| ==>
      mem'[x.addr].data == mem[x.addr].data && mem'[x.addr].next == mem[x.addr].next
  }

  /** A chain depends on the memory of its own buckets only. */
  lemma {:induction false} ChainFrame<K, V>(mem: Memory<K, V>, mem': Memory<K, V>, head: int, s: seq<Node<K, V>>)
    requires Chain(mem, head, s) && Agree(mem, mem', s)
    ensures Chain(mem', head, s)
    decreases s
  {
    if s != [] {
      ChainFrame(mem, mem', mem[head].next, s[1..]);
    }
  }

  lemma ChainedFrame<K, V>(mem: Memory<K, V>, mem': Memory<K, V>, heads: seq<int>, chains: seq<seq<Node<K, V>>>)
    requires Chained(mem, heads, chains) && |mem| == |mem'|
    requires forall a :: 0 <= a < |mem| ==> mem'[a].data == mem[a].data && mem'[a].next == mem[a].next
    ensures Chained(mem', heads, chains)
  {
    forall i | 0 <= i < |chains|
      ensures Chain(mem', heads[i], chains[i])
    {
      ChainFrame(mem, mem', heads[i], chains[i]);
    }
  }

  lemma ChainHead<K, V>(mem: Memory<K, V>, head: int, s: seq<Node<K, V>>)
    requires Chain(mem, head, s) && head != NULL
    ensures s != [] && head == s[0].addr < |mem| && mem[head].data == Entry(s[0].key, s[0].value)
    ensures Chain(mem, mem[head].next, s[1..])
  {
  }

  lemma ChainNil<K, V>(mem: Memory<K, V>)
    ensures Chain(mem, NULL, [])
  {
  }

  lemma ChainEnd<K, V>(mem: Memory<K, V>, s: seq<Node<K, V>>)
    requires Chain(mem, NULL, s)
    ensures s == []
  {
  }

  lemma {:induction false} ChainAt<K, V>(mem: Memory<K, V>, head: int, s: seq<Node<K, V>>, j: nat)
    requires Chain(mem, head, s) && j < |s|
    ensures s[j].addr < |mem| && mem[s[j].addr].data == Entry(s[j].key, s[j].value)
    ensures Chain(mem, mem[s[j].addr].next, s[j + 1..])
    ensures j == 0 ==> head == s[0].addr
    decreases j
  {
    if j > 0 {
      ChainAt(mem, mem[head].next, s[1..], j - 1);
    }
  }

  /** Linking a slot that was not in use in front of chain i. */
  lemma ChainedPush<K, V>(mem: Memory<K, V>, mem': Memory<K, V>, heads: seq<int>, chains: seq<seq<Node<K, V>>>,
                          hash: K -> nat, nodes: map<K, Node<K, V>>, owner: map<nat, K>, x: Node<K, V>, i: nat)
    requires Chained(mem, heads, chains) && i < |chains|
    requires Placed(hash, chains, nodes, owner)
    requires |mem| <= |mem'| && x.addr < |mem'| && x.addr !in owner
    requires mem'[x.addr].data == Entry(x.key, x.value) && mem'[x.addr].next == heads[i]
    requires forall a :: 0 <= a < |mem| && a != x.addr ==> mem'[a] == mem[a]
    ensures Chained(mem', heads[i := x.addr], chains[i := [x] + chains[i]])
  {
    forall j | 0 <= j < |chains|
      ensures Chain(mem', heads[j], chains[j])
    {
      ChainFrame(mem, mem', heads[j], chains[j]);
    }
  }

  lemma {:induction false} ChainOverwrite<K, V>(mem: Memory<K, V>, mem': Memory<K, V>, head: int, s: seq<Node<K, V>>,
                                                x: Node<K, V>, j: nat)
    requires Chain(mem, head, s) && j < |s| && x.addr == s[j].addr < |mem| == |mem'|
    requires forall i :: 0 <= i < |s| && i != j ==> s[i].addr != x.addr
    requires mem' == mem[x.addr := mem[x.addr].(data := Entry(x.key, x.value))]
    ensures Chain(mem', head, s[j := x])
    decreases s
  {
    if j == 0 {
      ChainFrame(mem, mem', mem[head].next, s[1..]);
    } else {
      assert s[j := x][1..] == s[1..][j - 1 := x];
      ChainOverwrite(mem, mem', mem[head].next, s[1..], x, j - 1);
    }
  }

  lemma ChainedOverwrite<K, V>(mem: Memory<K, V>, mem': Memory<K, V>, heads: seq<int>, chains: seq<seq<Node<K, V>>>,
                               hash: K -> nat, nodes: map<K, Node<K, V>>, owner: map<nat, K>,
                               x: Node<K, V>, i: nat, j: nat)
    requires Chained(mem, heads, chains) && Placed(hash, chains, nodes, owner)
    requires i < |chains| && j < |chains[i]| && x.addr == chains[i][j].addr < |mem|
    requires mem' == mem[x.addr := mem[x.addr].(data := Entry(x.key, x.value))]
    ensures Chained(mem', heads, chains[i := chains[i][j := x]])
  {
    AddressesDiffer(hash, chains, nodes, owner, i, j);
    forall i' | 0 <= i' < |chains| && i' != i
      ensures Chain(mem', heads[i'], chains[i'])
    {
      ChainFrame(mem, mem', heads[i'], chains[i']);
    }
    ChainOverwrite(mem, mem', heads[i], chains[i], x, j);
  }

  /** Bypassing the j-th bucket: the head moves, or the predecessor's next does. */
  lemma {:induction false} ChainUnlink<K, V>(mem: Memory<K, V>, mem': Memory<K, V>, head: int, s: seq<Node<K, V>>, j: nat)
    requires Chain(mem, head, s) && j < |s| && |mem| == |mem'| && s[j].addr < |mem|
    requires forall i, k :: 0 <= i < k < |s| ==> s[i].addr != s[k].addr
    requires j == 0 ==> mem' == mem
    requires j > 0 ==> s[j - 1].addr < |mem|
    requires j > 0 ==> mem' == mem[s[j - 1].addr := mem[s[j - 1].addr].(next := mem[s[j].addr].next)]
    ensures Chain(mem', if j == 0 then mem[s[j].addr].next else head, RemovedAt(s, j))
    decreases s
  {
    if j == 0 {
      assert RemovedAt(s, 0) == s[1..];
    } else if j == 1 {
      assert RemovedAt(s, 1) == [s[0]] + s[2..];
      ChainFrame(mem, mem', mem[s[1].addr].next, s[2..]);
    } else {
      assert RemovedAt(s, j)[1..] == RemovedAt(s[1..], j - 1);
      ChainUnlink(mem, mem', mem[head].next, s[1..], j - 1);
    }
  }

  lemma ChainedUnlink<K, V>(mem: Memory<K, V>, mem': Memory<K, V>, heads: seq<int>, chains: seq<seq<Node<K, V>>>,
                            hash: K -> nat, nodes: map<K, Node<K, V>>, owner: map<nat, K>, i: nat, j: nat)
    requires Chained(mem, heads, chains) && Placed(hash, chains, nodes, owner)
    requires i < |chains| && j < |chains[i]| && |mem| == |mem'| && chains[i][j].addr < |mem|
    requires j == 0 ==> mem' == mem
    requires j > 0 ==> chains[i][j - 1].addr < |mem|
    requires j > 0 ==>
      mem' == mem[chains[i][j - 1].addr := mem[chains[i][j - 1].addr].(next := mem[chains[i][j].addr].next)]
    ensures Chained(mem', heads[i := if j == 0 then mem[chains[i][j].addr].next else heads[i]],
                    chains[i := RemovedAt(chains[i], j)])
  {
    forall k | 0 <= k < |chains[i]| {
      AddressesDiffer(hash, chains, nodes, owner, i, k);
    }
    forall i' | 0 <= i' < |chains| && i' != i
      ensures Chain(mem', heads[i'], chains[i'])
    {
      ChainFrame(mem, mem', heads[i'], chains[i']);
    }
    ChainUnlink(mem, mem', heads[i], chains[i], j);
  }

  // ----- placement -----

  /** No other bucket of any chain shares the address of this one. */
  lemma AddressesDiffer<K, V>(hash: K -> nat, chains: seq<seq<Node<K, V>>>, nodes: map<K, Node<K, V>>, owner: map<nat, K>,
                              i: nat, j: nat)
    requires Placed(hash, chains, nodes, owner) && i < |chains| && j < |chains[i]|
    ensures forall j' :: 0 <= j' < |chains[i]| && j' != j ==> chains[i][j'].addr != chains[i][j].addr
    ensures forall i', x :: 0 <= i' < |chains| && i' != i && x in chains[i'] ==> x.addr != chains[i][j].addr
  {
  }

  lemma BucketAt<K, V>(mem: Memory<K, V>, heads: seq<int>, hash: K -> nat, chains: seq<seq<Node<K, V>>>,
                       nodes: map<K, Node<K, V>>, owner: map<nat, K>, i: nat, j: nat)
    requires Chained(mem, heads, chains) && Placed(hash, chains, nodes, owner)
    requires i < |chains| && j < |chains[i]|
    ensures |heads| == |chains|
    ensures chains[i][j].addr in owner && chains[i][j].addr < |mem|
    ensures heads[i] == chains[i][j].addr <==> j == 0
  {
    assert chains[i][j] in chains[i];
    AddressesDiffer(hash, chains, nodes, owner, i, j);
    ChainAt(mem, heads[i], chains[i], j);
  }

  lemma ChainOf<K, V>(hash: K -> nat, chains: seq<seq<Node<K, V>>>, nodes: map<K, Node<K, V>>, owner: map<nat, K>, key: K)
    returns (i: nat, j: nat)
    requires Placed(hash, chains, nodes, owner) && key in nodes
    ensures i < |chains| && j < |chains[i]| && chains[i][j] == nodes[key] && nodes[key].key == key
  {
    i := Home(hash(key), |chains|);
    j :| 0 <= j < |chains[i]| && chains[i][j] == nodes[key];
  }

  lemma PlacedAt<K, V>(hash: K -> nat, chains: seq<seq<Node<K, V>>>, nodes: map<K, Node<K, V>>, owner: map<nat, K>,
                       i: nat, x: Node<K, V>)
    requires Placed(hash, chains, nodes, owner) && i < |chains| && x in chains[i]
    ensures x.key in nodes && nodes[x.key] == x
    ensures x.key in ContentsOf(nodes) && ContentsOf(nodes)[x.key] == x.value
  {
  }

  lemma PlacedAll<K, V>(hash: K -> nat, chains: seq<seq<Node<K, V>>>, nodes: map<K, Node<K, V>>, owner: map<nat, K>)
    requires Placed(hash, chains, nodes, owner)
    ensures forall k :: k in ContentsOf(nodes) ==>
      exists i, x :: 0 <= i < |chains| && x in chains[i] && x.key == k && x.value == ContentsOf(nodes)[k]
  {
    forall k | k in nodes
      ensures exists i, x :: 0 <= i < |chains| && x in chains[i] && x.key == k && x.value == nodes[k].value
    {
      var i := Home(hash(k), |chains|);
      assert Settled(hash, |chains|, i, chains[i], nodes) && nodes[k] in chains[i];
    }
  }

  lemma NotPlaced<K, V>(hash: K -> nat, chains: seq<seq<Node<K, V>>>, nodes: map<K, Node<K, V>>, owner: map<nat, K>, key: K)
    requires Placed(hash, chains, nodes, owner)
    requires forall x :: x in chains[Home(hash(key), |chains|)] ==> x.key != key
    ensures key !in nodes && ContentsOf(nodes) - {key} == ContentsOf(nodes)
  {
  }

  lemma AsManyHeads<K, V>(mem: Memory<K, V>, heads: seq<int>, chains: seq<seq<Node<K, V>>>)
    requires Chained(mem, heads, chains)
    ensures |heads| == |chains| > 0
  {
  }

  /** All of what inserting a key keeps. */
  lemma Inserted<K, V>(mem: Memory<K, V>, mem': Memory<K, V>, heads: seq<int>, heads': seq<int>, hash: K -> nat,
                       chains: seq<seq<Node<K, V>>>, nodes: map<K, Node<K, V>>, owner: map<nat, K>, x: Node<K, V>, i: nat)
    requires Chained(mem, heads, chains) && Placed(hash, chains, nodes, owner)
    requires x.key !in nodes && x.addr !in owner && i == Home(hash(x.key), |chains|)
    requires |mem| <= |mem'| && x.addr < |mem'| && heads' == heads[i := x.addr]
    requires mem'[x.addr].data == Entry(x.key, x.value) && mem'[x.addr].next == heads[i]
    requires forall a :: 0 <= a < |mem| && a != x.addr ==> mem'[a] == mem[a]
    ensures var chains', nodes', owner' := chains[i := [x] + chains[i]], nodes[x.key := x], owner[x.addr := x.key];
      && Chained(mem', heads', chains') && Placed(hash, chains', nodes', owner')
      && ContentsOf(nodes') == ContentsOf(nodes)[x.key := x.value]
      && |nodes'| == |nodes| + 1 && |owner'| == |owner| + 1 && owner'.Keys == owner.Keys + {x.addr}
  {
    hide Chain, Placed, ContentsOf;
    ChainedPush(mem, mem', heads, chains, hash, nodes, owner, x, i);
    PlacedPush(hash, chains, nodes, owner, x, i);
    OneMore(nodes, owner, x);
  }

  lemma OneMore<K, V>(nodes: map<K, Node<K, V>>, owner: map<nat, K>, x: Node<K, V>)
    requires x.key !in nodes && x.addr !in owner
    ensures |nodes[x.key := x]| == |nodes| + 1 && |owner[x.addr := x.key]| == |owner| + 1
    ensures owner[x.addr := x.key].Keys == owner.Keys + {x.addr}
  {
    assert nodes[x.key := x] - {x.key} == nodes && owner[x.addr := x.key] - {x.addr} == owner;
  }

  lemma SettledPush<K, V>(hash: K -> nat, n: nat, i: nat, s: seq<Node<K, V>>, nodes: map<K, Node<K, V>>, x: Node<K, V>)
    requires n > 0 && Settled(hash, n, i, s, nodes) && x.key !in nodes
    ensures Settled(hash, n, i, if Home(hash(x.key), n) == i then [x] + s else s, nodes[x.key := x])
  {
  }

  lemma PlacedPush<K, V>(hash: K -> nat, chains: seq<seq<Node<K, V>>>, nodes: map<K, Node<K, V>>, owner: map<nat, K>,
                         x: Node<K, V>, i: nat)
    requires Placed(hash, chains, nodes, owner)
    requires x.key !in nodes && x.addr !in owner && i == Home(hash(x.key), |chains|)
    ensures Placed(hash, chains[i := [x] + chains[i]], nodes[x.key := x], owner[x.addr := x.key])
    ensures ContentsOf(nodes[x.key := x]) == ContentsOf(nodes)[x.key := x.value]
  {
    hide Settled;
    var after := chains[i := [x] + chains[i]];
    forall j | 0 <= j < |chains|
      ensures Settled(hash, |chains|, j, after[j], nodes[x.key := x])
    {
      SettledPush(hash, |chains|, j, chains[j], nodes, x);
    }
  }

  lemma OverwriteMembers<T>(s: seq<T>, j: nat, x: T)
    requires j < |s| && Distinct(s) && (x == s[j] || x !in s)
    ensures Distinct(s[j := x])
    ensures forall y :: y in s[j := x] <==> y == x || (y in s && y != s[j])
  {
    var s' := s[j := x];
    assert s'[j] == x;
    forall y | y in s && y != s[j]
      ensures y in s'
    {
      var l :| 0 <= l < |s| && s[l] == y;
      assert s'[l] == y;
    }
  }

  lemma SettledOverwrite<K, V>(hash: K -> nat, n: nat, i: nat, s: seq<Node<K, V>>, nodes: map<K, Node<K, V>>,
                               x: Node<K, V>, j: nat)
    requires n > 0 && Settled(hash, n, i, s, nodes) && j < |s| && x.key == s[j].key
    requires forall k :: k in nodes ==> nodes[k].key == k
    ensures Settled(hash, n, i, s[j := x], nodes[x.key := x])
  {
    assert s[j] in s;
    OverwriteMembers(s, j, x);
  }

  lemma PlacedOverwrite<K, V>(hash: K -> nat, chains: seq<seq<Node<K, V>>>, nodes: map<K, Node<K, V>>, owner: map<nat, K>,
                              x: Node<K, V>, i: nat, j: nat)
    requires Placed(hash, chains, nodes, owner) && i < |chains| && j < |chains[i]|
    requires x.key == chains[i][j].key && x.addr == chains[i][j].addr
    ensures Placed(hash, chains[i := chains[i][j := x]], nodes[x.key := x], owner)
    ensures ContentsOf(nodes[x.key := x]) == ContentsOf(nodes)[x.key := x.value]
  {
    assert chains[i][j] in chains[i];
    var after := chains[i := chains[i][j := x]];
    forall l | 0 <= l < |chains|
      ensures Settled(hash, |chains|, l, after[l], nodes[x.key := x])
    {
      if l == i {
        SettledOverwrite(hash, |chains|, i, chains[i], nodes, x, j);
      }
    }
  }

  lemma RemovedMembers<T>(s: seq<T>, j: nat)
    requires j < |s| && Distinct(s)
    ensures Distinct(RemovedAt(s, j))
    ensures forall x :: x in RemovedAt(s, j) <==> x in s && x != s[j]
  {
  }

  lemma PlacedRemove<K, V>(hash: K -> nat, chains: seq<seq<Node<K, V>>>, nodes: map<K, Node<K, V>>, owner: map<nat, K>,
                           i: nat, j: nat)
    requires Placed(hash, chains, nodes, owner) && i < |chains| && j < |chains[i]|
    ensures chains[i][j].key in nodes && chains[i][j].addr in owner
    ensures Placed(hash, chains[i := RemovedAt(chains[i], j)], nodes - {chains[i][j].key}, owner - {chains[i][j].addr})
    ensures ContentsOf(nodes - {chains[i][j].key}) == ContentsOf(nodes) - {chains[i][j].key}
  {
    var x := chains[i][j];
    assert x in chains[i];
    RemovedMembers(chains[i], j);
    var after := chains[i := RemovedAt(chains[i], j)];
    forall l | 0 <= l < |chains|
      ensures Settled(hash, |chains|, l, after[l], nodes - {x.key})
    {
    }
  }

  // ----- rehashing -----

  /** A rehash in progress: the new chains, what they hold, and what is left of the chain being emptied. */
  datatype Move<K, V> = Move(chains: seq<seq<Node<K, V>>>, done: map<K, Node<K, V>>, rest: seq<Node<K, V>>)

  ghost predicate ChainedFrom<K, V>(mem: Memory<K, V>, heads: seq<int>, chains: seq<seq<Node<K, V>>>, i: nat) {
    && |heads| == |chains|
    && forall j :: i <= j < |chains| ==> Chain(mem, heads[j], chains[j])
  }

  /** Old chains below i are spent. Every key is in its new chain, in rest, or still in an old chain. */
  ghost predicate Moving<K, V>(hash: K -> nat, chains: seq<seq<Node<K, V>>>, nodes: map<K, Node<K, V>>, owner: map<nat, K>,
                               m: Move<K, V>, i: nat)
  {
    && Placed(hash, chains, nodes, owner)
    && |m.chains| > 0
    && (forall j :: 0 <= j < |m.chains| ==> Settled(hash, |m.chains|, j, m.chains[j], m.done))
    && (forall k :: k in m.done ==> k in nodes && nodes[k] == m.done[k] && Home(hash(k), |chains|) < i)
    && Distinct(m.rest)
    && (forall x :: x in m.rest ==>
          x.key in nodes && nodes[x.key] == x && x.key !in m.done && Home(hash(x.key), |chains|) < i)
    && (forall k :: k in nodes && k !in m.done ==> nodes[k] in m.rest || Home(hash(k), |chains|) >= i)
  }

  lemma ChainedEmpty<K, V>(mem: Memory<K, V>, heads: seq<int>, chains: seq<seq<Node<K, V>>>)
    requires |heads| == |chains| > 0
    requires forall i :: 0 <= i < |chains| ==> chains[i] == [] && heads[i] == NULL
    ensures Chained(mem, heads, chains)
  {
  }

  lemma MoveStart<K, V>(hash: K -> nat, chains: seq<seq<Node<K, V>>>, nodes: map<K, Node<K, V>>, owner: map<nat, K>, n: nat)
    returns (m: Move<K, V>)
    requires Placed(hash, chains, nodes, owner) && n > 0
    ensures Moving(hash, chains, nodes, owner, m, 0) && |m.chains| == n && m.rest == []
    ensures forall i :: 0 <= i < n ==> m.chains[i] == []
  {
    m := Move(seq(n, _ => []), map[], []);
  }

  lemma MoveEnter<K, V>(hash: K -> nat, chains: seq<seq<Node<K, V>>>, nodes: map<K, Node<K, V>>, owner: map<nat, K>,
                        m: Move<K, V>, i: nat) returns (m': Move<K, V>)
    requires Moving(hash, chains, nodes, owner, m, i) && m.rest == [] && i < |chains|
    ensures m' == m.(rest := chains[i]) && Moving(hash, chains, nodes, owner, m', i + 1)
  {
    m' := m.(rest := chains[i]);
  }

  lemma MoveStep<K, V>(hash: K -> nat, chains: seq<seq<Node<K, V>>>, nodes: map<K, Node<K, V>>, owner: map<nat, K>,
                       m: Move<K, V>, i: nat) returns (m': Move<K, V>)
    requires Moving(hash, chains, nodes, owner, m, i) && m.rest != []
    ensures Moving(hash, chains, nodes, owner, m', i)
    ensures var x := m.rest[0]; var home := Home(hash(x.key), |m.chains|);
      m' == Move(m.chains[home := [x] + m.chains[home]], m.done[x.key := x], m.rest[1..])
  {
    hide Placed, Settled;
    var x := m.rest[0];
    var home := Home(hash(x.key), |m.chains|);
    m' := Move(m.chains[home := [x] + m.chains[home]], m.done[x.key := x], m.rest[1..]);
    assert m.rest == [x] + m'.rest && x in m.rest;
    NodeKeys(hash, chains, nodes, owner);
    forall j | 0 <= j < |m.chains|
      ensures Settled(hash, |m.chains|, j, m'.chains[j], m'.done)
    {
      SettledPush(hash, |m.chains|, j, m.chains[j], m.done, x);
    }
    forall y | y in m'.rest
      ensures y in m.rest && y.key != x.key
    {
    }
  }

  lemma NodeKeys<K, V>(hash: K -> nat, chains: seq<seq<Node<K, V>>>, nodes: map<K, Node<K, V>>, owner: map<nat, K>)
    requires Placed(hash, chains, nodes, owner)
    ensures forall k :: k in nodes ==> nodes[k].key == k
  {
  }

  lemma MoveDone<K, V>(hash: K -> nat, chains: seq<seq<Node<K, V>>>, nodes: map<K, Node<K, V>>, owner: map<nat, K>, m: Move<K, V>)
    requires Moving(hash, chains, nodes, owner, m, |chains|) && m.rest == []
    ensures Placed(hash, m.chains, nodes, owner)
  {
  }

  lemma MoveAddresses<K, V>(hash: K -> nat, chains: seq<seq<Node<K, V>>>, nodes: map<K, Node<K, V>>, owner: map<nat, K>,
                            m: Move<K, V>, i: nat)
    requires Moving(hash, chains, nodes, owner, m, i) && m.rest != []
    ensures forall j, y :: 0 <= j < |m.chains| && y in m.chains[j] ==> y.addr != m.rest[0].addr
    ensures forall j, y :: i <= j < |chains| && y in chains[j] ==> y.addr != m.rest[0].addr
    ensures forall y :: y in m.rest[1..] ==> y.addr != m.rest[0].addr
  {
  }

  /** Relinking the first bucket of rest leaves every other chain, old and new, as it was. */
  lemma ChainedMove<K, V>(mem: Memory<K, V>, mem': Memory<K, V>, moved: seq<int>, to: seq<seq<Node<K, V>>>,
                          heads: seq<int>, chains: seq<seq<Node<K, V>>>, rest: seq<Node<K, V>>, i: nat, home: nat)
    requires Chained(mem, moved, to) && ChainedFrom(mem, heads, chains, i)
    requires rest != [] && home < |to| && Chain(mem, rest[0].addr, rest)
    requires forall j, y :: 0 <= j < |to| && y in to[j] ==> y.addr != rest[0].addr
    requires forall j, y :: i <= j < |chains| && y in chains[j] ==> y.addr != rest[0].addr
    requires forall y :: y in rest[1..] ==> y.addr != rest[0].addr
    requires mem' == mem[rest[0].addr := mem[rest[0].addr].(next := moved[home])]
    ensures Chained(mem', moved[home := rest[0].addr], to[home := [rest[0]] + to[home]])
    ensures ChainedFrom(mem', heads, chains, i) && Chain(mem', mem[rest[0].addr].next, rest[1..])
  {
    forall j | 0 <= j < |to|
      ensures Chain(mem', moved[j], to[j])
    {
      ChainFrame(mem, mem', moved[j], to[j]);
    }
    forall j | i <= j < |chains|
      ensures Chain(mem', heads[j], chains[j])
    {
      ChainFrame(mem, mem', heads[j], chains[j]);
    }
    ChainFrame(mem, mem', mem[rest[0].addr].next, rest[1..]);
  }

  // ----- enumeration -----

  ghost function Flat<T>(ss: seq<seq<T>>): seq<T> {
    if ss == [] then [] else ss[0] + Flat(ss[1..])
  }

  lemma FlatFrom<T>(ss: seq<seq<T>>, i: nat)
    requires i < |ss|
    ensures Flat(ss[i..]) == ss[i] + Flat(ss[i + 1..])
  {
  }

  lemma FlatEnd<T>(ss: seq<seq<T>>)
    ensures Flat(ss[|ss|..]) == []
  {
  }

  lemma Shift<T>(a: seq<T>, b: seq<T>)
    requires b != []
    ensures (a + [b[0]]) + b[1..] == a + b
  {
  }

  ghost function EntryOf<K, V>(x: Node<K, V>): Entry<K, V> {
    Entry(x.key, x.value)
  }

  ghost function EntriesOf<K, V>(s: seq<Node<K, V>>): seq<Entry<K, V>> {
    seq(|s|, i requires 0 <= i < |s| => EntryOf(s[i]))
  }

  lemma EntriesFirst<K, V>(s: seq<Node<K, V>>)
    requires s != []
    ensures EntriesOf(s) == [EntryOf(s[0])] + EntriesOf(s[1..])
  {
  }

  lemma EntriesEnd<K, V>(entries: seq<Entry<K, V>>, all: seq<Node<K, V>>)
    requires entries + EntriesOf<K, V>([]) == EntriesOf(all)
    ensures |entries| == |all| && forall j :: 0 <= j < |entries| ==> entries[j] == EntryOf(all[j])
  {
    assert entries + [] == entries;
  }

  /** entries lists m: each of its entries once, and nothing else. */
  ghost predicate Lists<K, V>(entries: seq<Entry<K, V>>, m: map<K, V>) {
    && |entries| == |m|
    && (forall i, j :: 0 <= i < j < |entries| ==> entries[i].key != entries[j].key)
    && (forall e :: e in entries ==> e.key in m && m[e.key] == e.value)
    && (forall k :: k in m ==> Entry(k, m[k]) in entries)
  }

  ghost function MapOf<K, V>(s: seq<Node<K, V>>): map<K, V> {
    if s == [] then map[] else MapOf(s[..|s| - 1])[s[|s| - 1].key := s[|s| - 1].value]
  }

  lemma MapOfNil<K, V>()
    ensures MapOf<K, V>([]) == map[]
  {
  }

  lemma MapOfSnoc<K, V>(s: seq<Node<K, V>>, x: Node<K, V>)
    ensures MapOf(s + [x]) == MapOf(s)[x.key := x.value]
  {
  }

  ghost function LookupOr<K, V>(m: map<K, V>, k: K, absent: V): V {
    if k in m then m[k] else absent
  }

  /** What _wi_dictionary_is_equal decides. */
  ghost predicate SameByLookup<K, V>(m: map<K, V>, n: map<K, V>, absent: V) {
    |m| == |n| && forall k :: k in m ==> m[k] == LookupOr(n, k, absent)
  }

  /** The test decides map equality exactly when every key is present on the other side. */
  lemma LookupEquality<K, V>(m: map<K, V>, n: map<K, V>, absent: V)
    ensures m == n <==> SameByLookup(m, n, absent) && m.Keys <= n.Keys
    ensures absent !in m.Values ==> (SameByLookup(m, n, absent) <==> m == n)
  {
    if SameByLookup(m, n, absent) && (m.Keys <= n.Keys || absent !in m.Values) {
      forall k | k in m
        ensures k in n
      {
        assert m[k] in m.Values;
      }
      assert m.Keys <= n.Keys;
      SubsetOfSameSize(m.Keys, n.Keys);
      assert forall k :: k in m ==> m[k] == n[k];
    }
  }

  /** Given a key that is not in the dictionary, the test answers rightly against every other one if and only if
      no value is NULL: where one is, moving it to the other key is not noticed. */
  lemma LookupEqualityRight<K, V>(m: map<K, V>, absent: V, other: K)
    requires other !in m
    ensures (forall n :: SameByLookup(m, n, absent) <==> m == n) <==> absent !in m.Values
  {
    if absent in m.Values {
      var k :| k in m && m[k] == absent;
      var n := (m - {k})[other := absent];
      assert (m - {k}).Keys == m.Keys - {k};
      assert n.Keys == m.Keys - {k} + {other};
      assert |n| == |n.Keys| == |m.Keys| == |m|;
      assert SameByLookup(m, n, absent) && other in n;
    } else {
      forall n
        ensures SameByLookup(m, n, absent) <==> m == n
      {
        LookupEquality(m, n, absent);
      }
    }
  }

  /** A NULL value under a key the other side lacks passes for equal. */
  lemma NullConfusesEquality<V>(absent: V, v: V)
    ensures SameByLookup(map[0 := absent], map[1 := v], absent) && map[0 := absent] != map[1 := v]
  {
  }

  lemma {:induction false} SubsetOfSameSize<T>(a: set<T>, b: set<T>)
    requires a <= b && |a| == |b|
    ensures a == b
  {
    assert b == a + (b - a);
  }

  lemma {:induction false} FlatMembers<T>(ss: seq<seq<T>>, x: T)
    ensures x in Flat(ss) <==> exists i :: 0 <= i < |ss| && x in ss[i]
  {
    if ss != [] {
      FlatMembers(ss[1..], x);
      if x in Flat(ss[1..]) {
        var i :| 0 <= i < |ss[1..]| && x in ss[1..][i];
        assert x in ss[i + 1];
      }
    }
  }

  lemma {:induction false} FlatDistinct<T>(ss: seq<seq<T>>)
    requires forall i :: 0 <= i < |ss| ==> Distinct(ss[i])
    requires forall i, j, x :: 0 <= i < j < |ss| && x in ss[i] ==> x !in ss[j]
    ensures Distinct(Flat(ss))
  {
    if ss != [] {
      var rest := Flat(ss[1..]);
      FlatDistinct(ss[1..]);
      forall i, j | 0 <= i < j < |Flat(ss)|
        ensures Flat(ss)[i] != Flat(ss)[j]
      {
        if i < |ss[0]| <= j {
          assert rest[j - |ss[0]|] in rest;
          FlatMembers(ss[1..], rest[j - |ss[0]|]);
        }
      }
    }
  }

  /** Read off chain by chain, the buckets are those of the keys, once each. */
  lemma FlatPlaced<K, V>(hash: K -> nat, chains: seq<seq<Node<K, V>>>, nodes: map<K, Node<K, V>>, owner: map<nat, K>)
    requires Placed(hash, chains, nodes, owner)
    ensures Distinct(Flat(chains))
    ensures forall x :: x in Flat(chains) ==> x.key in nodes && nodes[x.key] == x
    ensures forall k :: k in nodes ==> nodes[k] in Flat(chains) && nodes[k].key == k
  {
    forall x | x in Flat(chains)
      ensures x.key in nodes && nodes[x.key] == x
    {
      FlatMembers(chains, x);
    }
    forall k | k in nodes
      ensures nodes[k] in Flat(chains)
    {
      var i := Home(hash(k), |chains|);
      assert Settled(hash, |chains|, i, chains[i], nodes);
      FlatMembers(chains, nodes[k]);
    }
    forall i, j, x | 0 <= i < j < |chains| && x in chains[i]
      ensures x !in chains[j]
    {
      assert Settled(hash, |chains|, i, chains[i], nodes) && Settled(hash, |chains|, j, chains[j], nodes);
    }
    forall i | 0 <= i < |chains|
      ensures Distinct(chains[i])
    {
      assert Settled(hash, |chains|, i, chains[i], nodes);
    }
    hide Placed, Settled;
    FlatDistinct(chains);
  }

  lemma FlatLists<K, V>(hash: K -> nat, chains: seq<seq<Node<K, V>>>, nodes: map<K, Node<K, V>>, owner: map<nat, K>,
                        entries: seq<Entry<K, V>>)
    requires Placed(hash, chains, nodes, owner) && |entries| == |Flat(chains)|
    requires forall j :: 0 <= j < |entries| ==> entries[j] == EntryOf(Flat(chains)[j])
    ensures Lists(entries, ContentsOf(nodes))
  {
    hide Placed, Flat;
    FlatPlaced(hash, chains, nodes, owner);
    ListsByKey(Flat(chains), nodes, entries);
  }

  lemma ListsByKey<K, V>(all: seq<Node<K, V>>, nodes: map<K, Node<K, V>>, entries: seq<Entry<K, V>>)
    requires Distinct(all) && |entries| == |all|
    requires forall x :: x in all ==> x.key in nodes && nodes[x.key] == x
    requires forall k :: k in nodes ==> nodes[k] in all && nodes[k].key == k
    requires forall j :: 0 <= j < |entries| ==> entries[j] == EntryOf(all[j])
    ensures Lists(entries, ContentsOf(nodes))
  {
    var m := ContentsOf(nodes);
    CountByKey(all, nodes);
    assert m.Keys == nodes.Keys;
    forall j | 0 <= j < |all|
      ensures all[j] in all && entries[j] == Entry(all[j].key, m[all[j].key])
    {
      assert all[j] in all;
    }
    forall k | k in m
      ensures Entry(k, m[k]) in entries
    {
      var j :| 0 <= j < |all| && all[j] == nodes[k];
      assert entries[j] == Entry(k, m[k]);
    }
  }

  lemma CountByKey<K, V>(all: seq<Node<K, V>>, nodes: map<K, Node<K, V>>)
    requires Distinct(all)
    requires forall x :: x in all ==> x.key in nodes && nodes[x.key] == x
    requires forall k :: k in nodes ==> nodes[k] in all && nodes[k].key == k
    ensures |all| == |nodes|
    decreases |all|
  {
    if all == [] {
      assert nodes == map[];
    } else {
      var x := all[0];
      assert all == [x] + all[1..] && x in all;
      CountByKey(all[1..], nodes - {x.key});
    }
  }

  lemma {:induction false} MapOfDistinct<K, V>(s: seq<Node<K, V>>, nodes: map<K, Node<K, V>>)
    requires forall x :: x in s ==> x.key in nodes && nodes[x.key] == x
    ensures forall k :: k in MapOf(s) <==> k in nodes && nodes[k].key == k && nodes[k] in s
    ensures forall k :: k in MapOf(s) ==> MapOf(s)[k] == nodes[k].value
  {
    if s != [] {
      MapOfDistinct(s[..|s| - 1], nodes);
      assert s == s[..|s| - 1] + [s[|s| - 1]];
    }
  }

  lemma MapsEqual<K, V>(m: map<K, V>, n: map<K, V>)
    requires (forall k :: k in m <==> k in n) && forall k :: k in m ==> m[k] == n[k]
    ensures m == n
  {
  }

  lemma MapOfFlat<K, V>(hash: K -> nat, chains: seq<seq<Node<K, V>>>, nodes: map<K, Node<K, V>>, owner: map<nat, K>)
    requires Placed(hash, chains, nodes, owner)
    ensures MapOf(Flat(chains)) == ContentsOf(nodes)
  {
    hide Placed;
    FlatPlaced(hash, chains, nodes, owner);
    MapOfDistinct(Flat(chains), nodes);
    MapsEqual(MapOf(Flat(chains)), ContentsOf(nodes));
  }

  // ----- emptying -----

  ghost predicate ChainedBut<K, V>(mem: Memory<K, V>, heads: seq<int>, chains: seq<seq<Node<K, V>>>, i: nat) {
    && |heads| == |chains| > 0
    && forall j :: 0 <= j < |chains| && j != i ==> Chain(mem, heads[j], chains[j])
  }

  lemma ChainedButAll<K, V>(mem: Memory<K, V>, heads: seq<int>, chains: seq<seq<Node<K, V>>>, i: nat)
    requires Chained(mem, heads, chains)
    ensures ChainedBut(mem, heads, chains, i)
  {
  }

  lemma ChainedButFrame<K, V>(mem: Memory<K, V>, mem': Memory<K, V>, heads: seq<int>, chains: seq<seq<Node<K, V>>>,
                              i: nat, head: int, s: seq<Node<K, V>>)
    requires ChainedBut(mem, heads, chains, i) && i < |chains| && |mem| == |mem'| && Chain(mem, head, s)
    requires forall a :: 0 <= a < |mem| ==> mem'[a].data == mem[a].data && mem'[a].next == mem[a].next
    ensures ChainedBut(mem', heads, chains[i := s], i) && Chain(mem', head, s)
  {
    forall j | 0 <= j < |chains| && j != i
      ensures Chain(mem', heads[j], chains[j])
    {
      ChainFrame(mem, mem', heads[j], chains[j]);
    }
    ChainFrame(mem, mem', head, s);
  }

  lemma ChainedButEmpty<K, V>(mem: Memory<K, V>, heads: seq<int>, chains: seq<seq<Node<K, V>>>, i: nat)
    requires ChainedBut(mem, heads, chains, i) && i < |chains| && chains[i] == []
    ensures Chained(mem, heads[i := NULL], chains)
  {
  }

  lemma EmptyPlaced<K, V>(hash: K -> nat, chains: seq<seq<Node<K, V>>>, nodes: map<K, Node<K, V>>, owner: map<nat, K>)
    requires Placed(hash, chains, nodes, owner) && forall i :: 0 <= i < |chains| ==> chains[i] == []
    ensures nodes == map[]
  {
    forall k
      ensures k !in nodes
    {
      NotPlaced(hash, chains, nodes, owner, k);
    }
  }
}
