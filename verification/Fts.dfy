/** wi-fts.c with WI_FTS_LOGICAL | WI_FTS_NOSTAT, the options every caller in the library passes.

    Memory is a field: an entry is an address in mem, malloc adds one, free removes it, so that every
    access is proved to be to an entry that has been allocated and not freed. */
module Fts {
  import opened Basics
  import opened FtsSpec

  const ROOT_LEVEL: int := 0
  const ROOT_PARENT_LEVEL: int := -1

  /** WI_FTSENT. skip is fts_instr == WI_FTS_SKIP. */
  datatype Ent = Ent(name: string, pathlen: nat, info: Info, level: int, parent: int, link: int,
                     skip: bool, id: Id, errno: int)

  type Memory = map<nat, Ent>

  /** An entry still to be freed, as the proof sees it. */
  datatype Node = Node(addr: nat, name: string, path: string, info: Info, id: Id)

  ghost predicate NodeAt(mem: Memory, x: Node, level: nat, parent: int) {
    && x.addr in mem
    && mem[x.addr].name == x.name
    && mem[x.addr].info == x.info
    && mem[x.addr].level == level
    && (x.info != INIT ==> mem[x.addr].parent == parent)
    && (x.info == D ==> mem[x.addr].id == x.id && mem[x.addr].errno == 0)
    && (level > 0 ==> mem[x.addr].pathlen == |x.path|)
  }

  /** A row of siblings, threaded through link. */
  ghost predicate RowAt(mem: Memory, row: seq<Node>, level: nat, parent: int) {
    && row != []
    && (forall j :: 0 <= j < |row| ==> NodeAt(mem, row[j], level, parent))
    && (forall i, j :: 0 <= i < j < |row| ==> row[i].addr != row[j].addr)
    && (forall j :: 0 <= j < |row| - 1 ==> mem[row[j].addr].link == row[j + 1].addr)
    && mem[row[|row| - 1].addr].link == NULL
  }

  ghost predicate InRows(rows: seq<seq<Node>>, a: nat) {
    exists i, j :: 0 <= i < |rows| && 0 <= j < |rows[i]| && rows[i][j].addr == a
  }

  ghost function ParentOf(rows: seq<seq<Node>>, i: nat, rootParent: nat): int
    requires i <= |rows| && forall j :: 0 <= j < i ==> rows[j] != []
  {
    if i == 0 then rootParent else rows[i - 1][0].addr
  }

  /** One row for each level: the entry on the current path, then its siblings to come. */
  ghost predicate Threaded(mem: Memory, rows: seq<seq<Node>>, rootParent: nat) {
    && rows != []
    && (forall i :: 0 <= i < |rows| ==> rows[i] != [])
    && (forall i {:trigger ParentOf(rows, i, rootParent)} :: 0 <= i < |rows| ==>
          RowAt(mem, rows[i], i, ParentOf(rows, i, rootParent)))
  }

  /** Memory holds the rows, the parent of the roots, and nothing else. */
  ghost predicate Held(mem: Memory, rows: seq<seq<Node>>, rootParent: nat) {
    && rootParent in mem && mem[rootParent].level == ROOT_PARENT_LEVEL
    && (forall a :: a in mem ==> a == rootParent || InRows(rows, a))
  }

  /** wi_fts_load has set the path length of the root being walked. */
  ghost predicate Loaded(mem: Memory, rows: seq<seq<Node>>) {
    rows != [] && rows[0] != [] && rows[0][0].addr in mem &&
    (rows[0][0].info != INIT ==> mem[rows[0][0].addr].pathlen == |rows[0][0].path|)
  }

  ghost function Ids(rows: seq<seq<Node>>): seq<Id>
    requires forall i :: 0 <= i < |rows| ==> rows[i] != []
  {
    seq(|rows|, i requires 0 <= i < |rows| => rows[i][0].id)
  }

  /** An entry below a directory whose contents were just read. */
  ghost predicate KidOf(w: World, ancestors: seq<Id>, dir: string, x: Node) {
    GoodName(x.name) && x.path == Join(dir, x.name) && (x.info, x.id) == Classify(w, ancestors, x.path)
  }

  /** Every entry not yet returned is as stat left it; those on the path above the last are open directories. */
  ghost predicate Sound(w: World, rows: seq<seq<Node>>) {
    && rows != []
    && (forall i :: 0 <= i < |rows| ==> rows[i] != [])
    && (forall i {:trigger SoundRow(w, rows, i)} :: 0 <= i < |rows| ==> SoundRow(w, rows, i))
    && (forall i :: 0 <= i < |rows| - 1 ==> rows[i][0].info == D)
  }

  ghost predicate SoundRow(w: World, rows: seq<seq<Node>>, i: nat)
    requires i < |rows| && forall i :: 0 <= i < |rows| ==> rows[i] != []
  {
    var ancestors := Ids(rows[..i]);
    var x := rows[i][0];
    && (x.info == D ==> Classify(w, ancestors, x.path) == (D, x.id))
    && if i == 0 then
         && (forall j :: 1 <= j < |rows[0]| ==> SoundRoot(w, rows[0][j]))
         && (x.info != INIT ==> x.path != "" && x.name == Basename(x.path))
       else
         && (forall j :: 1 <= j < |rows[i]| ==> KidOf(w, ancestors, rows[i - 1][0].path, rows[i][j]))
         && x.info != INIT && GoodName(x.name) && x.path == Join(rows[i - 1][0].path, x.name)
  }

  ghost predicate SoundRoot(w: World, x: Node) {
    x.path != "" && x.name == x.path && (x.info, x.id) == Classify(w, [], x.path)
  }

  ghost function VisitRow(w: World, skip: Event -> bool, ancestors: seq<Id>, row: seq<Node>, level: nat): seq<Event>
    requires w.Valid()
  {
    if row == [] then []
    else
      Visit(w, skip, ancestors, row[0].path, if level == 0 then Basename(row[0].path) else row[0].name, level)
      + VisitRow(w, skip, ancestors, row[1..], level)
  }

  /** What is still to come once the current entry is done with. */
  ghost function After(w: World, skip: Event -> bool, rows: seq<seq<Node>>): seq<Event>
    requires w.Valid() && forall i :: 0 <= i < |rows| ==> rows[i] != []
    decreases |rows|
  {
    if rows == [] then []
    else
      var top := |rows| - 1;
      VisitRow(w, skip, Ids(rows[..top]), rows[top][1..], top)
      + if top == 0 then []
        else [Event(DP, rows[top - 1][0].path, rows[top - 1][0].name, top - 1)] + After(w, skip, rows[..top])
  }

  /** What the current entry itself still owes: the inside of a directory just shown. */
  ghost function Pending(w: World, skip: Event -> bool, ancestors: seq<Id>, x: Node, level: nat): seq<Event>
    requires w.Valid()
  {
    if x.info == D && x.id in w.dirs && x.id !in ancestors
    then Inside(w, skip, ancestors, x.id, x.path, x.name, level) else []
  }

  /** The events the walker owes from here on, if the caller skips as skip says. */
  ghost function Future(w: World, skip: Event -> bool, rows: seq<seq<Node>>): seq<Event>
    requires w.Valid() && rows != [] && forall i :: 0 <= i < |rows| ==> rows[i] != []
  {
    var top := |rows| - 1;
    Pending(w, skip, Ids(rows[..top]), rows[top][0], top) + After(w, skip, rows)
  }

  ghost function Last(rows: seq<seq<Node>>): Node
    requires rows != [] && rows[|rows| - 1] != []
  {
    rows[|rows| - 1][0]
  }

  /** The state between two calls: memory, the current entry and the path buffer all fit the rows. */
  ghost predicate Walking(w: World, mem: Memory, rows: seq<seq<Node>>, rootParent: nat, cur: int, path: string) {
    && Threaded(mem, rows, rootParent) && Held(mem, rows, rootParent) && Loaded(mem, rows)
    && Sound(w, rows)
    && cur == Last(rows).addr && cur in mem && mem[cur].level == |rows| - 1
    && (forall a :: a in mem && a != cur ==> !mem[a].skip)
    && (|rows| > 1 || Last(rows).info == D ==> path == Last(rows).path)
    && (Last(rows).info == INIT ==> |rows| == 1 && |rows[0]| > 1)
  }

  // ----- memory -----

  lemma RowFrame(mem: Memory, mem': Memory, row: seq<Node>, level: nat, parent: int)
    requires RowAt(mem, row, level, parent)
    requires forall j :: 0 <= j < |row| ==> row[j].addr in mem' && mem'[row[j].addr] == mem[row[j].addr]
    ensures RowAt(mem', row, level, parent)
  {
  }

  lemma RowTail(mem: Memory, row: seq<Node>, level: nat, parent: int)
    requires RowAt(mem, row, level, parent) && |row| > 1
    ensures RowAt(mem - {row[0].addr}, row[1..], level, parent)
  {
  }

  lemma RowWrite(mem: Memory, row: seq<Node>, level: nat, parent: int, e: Ent, x: Node)
    requires RowAt(mem, row, level, parent)
    requires x.addr == row[0].addr && e.link == mem[x.addr].link && NodeAt(mem[x.addr := e], x, level, parent)
    ensures RowAt(mem[x.addr := e], row[0 := x], level, parent)
  {
  }

  /** An address's level tells its row, so rows never share an entry. */
  lemma Apart(mem: Memory, rows: seq<seq<Node>>, rootParent: nat, i: nat, j: nat)
    requires Threaded(mem, rows, rootParent) && i < |rows| && j < |rows[i]|
    ensures rows[i][j].addr in mem && mem[rows[i][j].addr].level == i
    ensures forall i', j' :: 0 <= i' < |rows| && i' != i && 0 <= j' < |rows[i']| ==>
      rows[i'][j'].addr in mem && rows[i'][j'].addr != rows[i][j].addr
  {
    assert RowAt(mem, rows[i], i, ParentOf(rows, i, rootParent));
    assert NodeAt(mem, rows[i][j], i, ParentOf(rows, i, rootParent));
    forall i', j' | 0 <= i' < |rows| && i' != i && 0 <= j' < |rows[i']|
      ensures rows[i'][j'].addr in mem && rows[i'][j'].addr != rows[i][j].addr
    {
      assert RowAt(mem, rows[i'], i', ParentOf(rows, i', rootParent));
      assert NodeAt(mem, rows[i'][j'], i', ParentOf(rows, i', rootParent));
    }
  }

  /** Rows below the top do not notice a change at one address of the top row. */
  lemma LowerRows(mem: Memory, mem': Memory, rows: seq<seq<Node>>, rootParent: nat, i: nat)
    requires Threaded(mem, rows, rootParent) && i < |rows| - 1
    requires forall a :: a in mem && a != rows[|rows| - 1][0].addr ==> a in mem' && mem'[a] == mem[a]
    ensures RowAt(mem', rows[i], i, ParentOf(rows, i, rootParent))
  {
    Apart(mem, rows, rootParent, |rows| - 1, 0);
    RowFrame(mem, mem', rows[i], i, ParentOf(rows, i, rootParent));
  }

  lemma HeldBy(mem: Memory, rows: seq<seq<Node>>, rows': seq<seq<Node>>, mem': Memory, rootParent: nat, gone: int)
    requires Held(mem, rows, rootParent) && rootParent != gone
    requires rootParent in mem' && mem'[rootParent].level == ROOT_PARENT_LEVEL
    requires forall a :: a in mem' ==> a in mem && a != gone
    requires forall i, j :: 0 <= i < |rows| && 0 <= j < |rows[i]| && rows[i][j].addr != gone ==> InRows(rows', rows[i][j].addr)
    ensures Held(mem', rows', rootParent)
  {
  }

  /** Freeing the current entry where a sibling follows. */
  lemma RowsNext(mem: Memory, rows: seq<seq<Node>>, rootParent: nat)
    requires Threaded(mem, rows, rootParent) && Held(mem, rows, rootParent) && |rows[|rows| - 1]| > 1
    ensures var top := |rows| - 1;
      var mem' := mem - {rows[top][0].addr};
      var rows' := rows[top := rows[top][1..]];
      Threaded(mem', rows', rootParent) && Held(mem', rows', rootParent)
  {
    hide RowAt, InRows;
    var top := |rows| - 1;
    var mem' := mem - {rows[top][0].addr};
    var rows' := rows[top := rows[top][1..]];
    forall i | 0 <= i < |rows'|
      ensures RowAt(mem', rows'[i], i, ParentOf(rows', i, rootParent))
    {
      if i < top {
        LowerRows(mem, mem', rows, rootParent, i);
      } else {
        RowTail(mem, rows[top], top, ParentOf(rows, top, rootParent));
      }
    }
    HeldNext(mem, rows, rootParent);
  }

  lemma HeldNext(mem: Memory, rows: seq<seq<Node>>, rootParent: nat)
    requires Threaded(mem, rows, rootParent) && Held(mem, rows, rootParent) && |rows[|rows| - 1]| > 1
    ensures var top := |rows| - 1;
      Held(mem - {rows[top][0].addr}, rows[top := rows[top][1..]], rootParent)
  {
    hide RowAt, InRows;
    var top := |rows| - 1;
    var rows' := rows[top := rows[top][1..]];
    Apart(mem, rows, rootParent, top, 0);
    forall i, j | 0 <= i < |rows| && 0 <= j < |rows[i]| && rows[i][j].addr != rows[top][0].addr
      ensures InRows(rows', rows[i][j].addr)
    {
      Listed(rows', i, if i == top then j - 1 else j);
    }
    HeldBy(mem, rows, rows', mem - {rows[top][0].addr}, rootParent, rows[top][0].addr);
  }

  lemma Listed(rows: seq<seq<Node>>, i: nat, j: nat)
    requires i < |rows| && j < |rows[i]|
    ensures InRows(rows, rows[i][j].addr)
  {
  }

  lemma ListedRewritten(rows: seq<seq<Node>>, x: Node, i: nat, j: nat)
    requires i < |rows| && j < |rows[i]| && rows[|rows| - 1] != [] && x.addr == rows[|rows| - 1][0].addr
    ensures InRows(rows[|rows| - 1 := rows[|rows| - 1][0 := x]], rows[i][j].addr)
  {
    assert rows[|rows| - 1 := rows[|rows| - 1][0 := x]][i][j].addr == rows[i][j].addr;
  }

  /** Freeing the last entry of a row. */
  lemma RowsUp(mem: Memory, rows: seq<seq<Node>>, rootParent: nat)
    requires Threaded(mem, rows, rootParent) && Held(mem, rows, rootParent) && |rows| > 1 && |rows[|rows| - 1]| == 1
    ensures var mem' := mem - {rows[|rows| - 1][0].addr};
      Threaded(mem', rows[..|rows| - 1], rootParent) && Held(mem', rows[..|rows| - 1], rootParent)
  {
    hide RowAt, InRows;
    var top := |rows| - 1;
    var mem' := mem - {rows[top][0].addr};
    var rows' := rows[..top];
    forall i | 0 <= i < |rows'|
      ensures RowAt(mem', rows'[i], i, ParentOf(rows', i, rootParent))
    {
      LowerRows(mem, mem', rows, rootParent, i);
    }
    HeldUp(mem, rows, rootParent);
  }

  lemma HeldUp(mem: Memory, rows: seq<seq<Node>>, rootParent: nat)
    requires Threaded(mem, rows, rootParent) && Held(mem, rows, rootParent) && |rows| > 1 && |rows[|rows| - 1]| == 1
    ensures Held(mem - {rows[|rows| - 1][0].addr}, rows[..|rows| - 1], rootParent)
  {
    hide RowAt, InRows;
    var top := |rows| - 1;
    Apart(mem, rows, rootParent, top, 0);
    forall i, j | 0 <= i < |rows| && 0 <= j < |rows[i]| && rows[i][j].addr != rows[top][0].addr
      ensures InRows(rows[..top], rows[i][j].addr)
    {
      Listed(rows[..top], i, j);
    }
    HeldBy(mem, rows, rows[..top], mem - {rows[top][0].addr}, rootParent, rows[top][0].addr);
  }

  /** Rewriting the current entry in place. */
  lemma RowsWrite(mem: Memory, rows: seq<seq<Node>>, rootParent: nat, e: Ent, x: Node)
    requires Threaded(mem, rows, rootParent) && Held(mem, rows, rootParent)
    requires var top := |rows| - 1;
      && x.addr == rows[top][0].addr && x.addr in mem && e.link == mem[x.addr].link
      && NodeAt(mem[x.addr := e], x, top, ParentOf(rows, top, rootParent))
    ensures var rows' := rows[|rows| - 1 := rows[|rows| - 1][0 := x]];
      Threaded(mem[x.addr := e], rows', rootParent) && Held(mem[x.addr := e], rows', rootParent)
  {
    hide RowAt, InRows;
    var top := |rows| - 1;
    var mem' := mem[x.addr := e];
    var rows' := rows[top := rows[top][0 := x]];
    Apart(mem, rows, rootParent, top, 0);
    forall i | 0 <= i < |rows'|
      ensures RowAt(mem', rows'[i], i, ParentOf(rows', i, rootParent))
    {
      if i < top {
        LowerRows(mem, mem', rows, rootParent, i);
      } else {
        RowWrite(mem, rows[top], top, ParentOf(rows, top, rootParent), e, x);
      }
    }
    forall i, j | 0 <= i < |rows| && 0 <= j < |rows[i]|
      ensures InRows(rows', rows[i][j].addr)
    {
      ListedRewritten(rows, x, i, j);
    }
    HeldBy(mem, rows, rows', mem', rootParent, -1);
  }

  /** Hanging a new row of children below the current entry. */
  lemma RowsPush(mem: Memory, mem': Memory, rows: seq<seq<Node>>, rootParent: nat, row: seq<Node>)
    requires Threaded(mem, rows, rootParent) && Held(mem, rows, rootParent)
    requires RowAt(mem', row, |rows|, rows[|rows| - 1][0].addr)
    requires forall a :: a in mem ==> a in mem' && mem'[a] == mem[a]
    requires forall a :: a in mem' ==> a in mem || exists j :: 0 <= j < |row| && row[j].addr == a
    ensures Threaded(mem', rows + [row], rootParent) && Held(mem', rows + [row], rootParent)
  {
    hide InRows, RowAt;
    var rows' := rows + [row];
    forall i | 0 <= i < |rows'|
      ensures RowAt(mem', rows'[i], i, ParentOf(rows', i, rootParent))
    {
      if i < |rows| {
        RowGrows(mem, mem', rows[i], i, ParentOf(rows, i, rootParent));
      }
    }
    RowNonempty(mem', row, |rows|, rows[|rows| - 1][0].addr);
    forall a | a in mem' && a != rootParent
      ensures InRows(rows', a)
    {
      if a in mem {
        InMore(rows, row, a);
      } else {
        var j :| 0 <= j < |row| && row[j].addr == a;
        Listed(rows', |rows|, j);
      }
    }
  }

  lemma RowGrows(mem: Memory, mem': Memory, row: seq<Node>, level: nat, parent: int)
    requires RowAt(mem, row, level, parent)
    requires forall a :: a in mem ==> a in mem' && mem'[a] == mem[a]
    ensures RowAt(mem', row, level, parent)
  {
  }

  lemma RowNonempty(mem: Memory, row: seq<Node>, level: nat, parent: int)
    requires RowAt(mem, row, level, parent)
    ensures row != []
  {
  }

  lemma InMore(rows: seq<seq<Node>>, row: seq<Node>, a: nat)
    requires InRows(rows, a)
    ensures InRows(rows + [row], a)
  {
    var i, j :| 0 <= i < |rows| && 0 <= j < |rows[i]| && rows[i][j].addr == a;
    assert (rows + [row])[i][j].addr == a;
  }

  class Fts {
    const world: World
    var mem: Memory
    var next: nat
    var cur: int
    var path: string
    ghost var rows: seq<seq<Node>>
    ghost var rootParent: nat

    ghost predicate Inv()
      reads this
    {
      && world.Valid()
      && (forall a :: a in mem ==> a < next)
      && if cur == NULL then mem == map[] else cur in mem && Walking(world, mem, rows, rootParent, cur, path)
    }

    /** Everything the walker still owes. */
    ghost function Owed(skip: Event -> bool): seq<Event>
      requires Inv()
      reads this
    {
      if cur == NULL then [] else Future(world, skip, rows)
    }

    /** The current entry as the caller sees it. */
    function Current(): (e: Event)
      requires Inv() && cur != NULL
      reads this
    {
      Event(mem[cur].info, path, mem[cur].name, mem[cur].level)
    }

    /** A stream with nothing in it yet. */
    constructor (w: World)
      requires w.Valid()
      ensures Inv() && world == w && cur == NULL && mem == map[]
    {
      world := w;
      mem := map[];
      next := 0;
      cur := NULL;
      path := "";
    }

    /** wi_fts_open. A path of no length makes it fail, with everything it had allocated freed again. The
        source does not provide for having no roots at all: reading or closing the stream then follows the NULL
        parent of its dummy entry. */
    method Open(roots: seq<string>) returns (ok: bool, errno: int)
      requires Inv() && cur == NULL
      modifies this
      ensures ok == ("" !in roots) && (roots != [] ==> Inv())
      ensures |roots| == 1 ==> (errno == 0 <==> ok && !world.stat(roots[0]).Missing?)
      ensures ok ==> cur != NULL && cur in mem && mem[cur].info == INIT && !mem[cur].skip
      ensures ok && roots != [] ==> forall skip :: Owed(skip) == Walk(world, skip, roots)
      ensures !ok ==> cur == NULL
      ensures roots == [] ==> mem[cur].level == ROOT_LEVEL && mem[cur].link == NULL && mem[cur].parent == NULL
    {
      hide RowAt, Threaded, Grown, Walking, Future, SoundRoot, Walk;
      var parent := Alloc(Ent("", 0, INIT, ROOT_PARENT_LEVEL, NULL, NULL, false, NO_ID, 0));
      rootParent := parent;
      var root, tail := NULL, NULL;
      errno := 0;
      ghost var row := [];
      ghost var mem0 := mem;
      assert mem0.Keys == {parent};
      GrownNil(mem, 0, parent);
      var i := 0;
      while i < |roots|
        invariant 0 <= i <= |roots| && |row| == i && cur == NULL && rootParent == parent
        invariant |roots| == 1 ==> (errno != 0 <==> i == 1 && world.stat(roots[0]).Missing?)
        invariant forall a :: a in mem ==> a < next
        invariant Grown(mem0, mem, row, 0, parent)
        invariant root == (if row == [] then NULL else row[0].addr)
        invariant tail == (if row == [] then NULL else row[|row| - 1].addr)
        invariant forall j :: 0 <= j < i ==> roots[j] != "" && row[j].path == roots[j] && SoundRoot(world, row[j])
      {
        if roots[i] == "" {
          FreeList(root, mem0, row, 0, parent);
          Free(parent);
          assert mem == map[];
          return false, 1;
        }
        var info;
        ghost var x;
        root, tail, info, x := AddRoot(roots[i], parent, root, tail, mem0, row);
        if info == NS {
          errno := 1;
        } else if info == SLNONE {
          errno := 0;
        }
        row := row + [x];
        i := i + 1;
      }
      ghost var before := mem;
      cur := Alloc(Ent("", 0, INIT, ROOT_LEVEL, NULL, root, false, NO_ID, 0));
      ok := true;
      if roots == [] {
        return;
      }
      rows := OpenStep(world, before, mem, mem0, rootParent, cur, path, row);
      forall skip
        ensures Future(world, skip, rows) == Walk(world, skip, roots)
      {
        FutureOpen(world, skip, rows, roots);
      }
      assert "" !in roots;
    }

    /** One turn of the loop in wi_fts_open. A root that is "." or ".." is a directory like any other. */
    method AddRoot(root: string, parent: nat, head: int, tail: int, ghost mem0: Memory, ghost row: seq<Node>)
      returns (head': int, tail': int, info: Info, ghost x: Node)
      requires parent == rootParent && mem0.Keys == {parent} && mem0[parent].level == ROOT_PARENT_LEVEL
      requires Grown(mem0, mem, row, 0, parent) && forall a :: a in mem ==> a < next
      requires head == (if row == [] then NULL else row[0].addr)
      requires tail == (if row == [] then NULL else row[|row| - 1].addr)
      requires root != ""
      modifies this`mem, this`next
      ensures Grown(mem0, mem, row + [x], 0, parent) && forall a :: a in mem ==> a < next
      ensures head' == (row + [x])[0].addr && tail' == x.addr
      ensures x.path == root && SoundRoot(world, x) && info == Classify(world, [], root).0
    {
      hide RowAt, Grown;
      GrownKeeps(mem0, mem, row, 0, parent);
      var id;
      info, id := StatEnt(root, root, parent, []);
      info := if info == DOT then D else info;
      var ent := Ent(root, 0, info, ROOT_LEVEL, parent, NULL, false, id, if info == NS then 1 else 0);
      x := Node(next, root, root, info, id);
      assert Ids([]) == [];
      head', tail' := LinkLast(ent, head, tail, mem0, row, x, 0, parent);
    }

    /** wi_fts_lfree: each entry of a list is freed, once. */
    method FreeList(head: int, ghost mem0: Memory, ghost row: seq<Node>, ghost level: nat, ghost parent: nat)
      requires Grown(mem0, mem, row, level, parent)
      requires head == (if row == [] then NULL else row[0].addr)
      modifies this`mem
      ensures mem == mem0
    {
      hide Grown, RowAt;
      var head := head;
      ghost var row := row;
      while head != NULL
        invariant Grown(mem0, mem, row, level, parent)
        invariant head == (if row == [] then NULL else row[0].addr)
        decreases |row|
      {
        GrownDrop(mem0, mem, row, level, parent);
        var p: nat := head;
        head := mem[p].link;
        Free(p);
        row := row[1..];
      }
      GrownOld(mem0, mem, level, parent);
    }

    /** wi_fts_set with WI_FTS_SKIP, on the current entry. */
    method Skip()
      requires Inv() && cur != NULL
      modifies this`mem
      ensures Inv() && mem[cur].skip && Current() == old(Current())
      ensures forall skip :: Owed(skip) == old(Owed(skip))
    {
      hide Walking, Future;
      CurrentEntry(world, mem, rows, rootParent, cur, path);
      InstructStep(world, mem, rows, rootParent, cur, path, true);
      mem := mem[cur := mem[cur].(skip := true)];
    }

    /** wi_fts_close: from wherever the walk has come to, frees each entry left, once. */
    method Close()
      requires Inv()
      modifies this
      ensures Inv() && cur == NULL && mem == map[]
    {
      hide Walking, Threaded, Held;
      if cur != NULL {
        CloseStart(world, mem, rows, rootParent, cur, path);
        ghost var rs := rows;
        ghost var top := |Top(rs)|;
        var p: nat := cur;
        while mem[p].level >= ROOT_LEVEL
          invariant Closable(mem, rs, rootParent, p) && top == |Top(rs)|
          invariant forall a :: a in mem ==> a < next
          decreases |rs|, top
        {
          rs := CloseStep(mem, rs, rootParent, p);
          top := |Top(rs)|;
          var freep := p;
          p := if mem[p].link != NULL then mem[p].link else mem[p].parent;
          Free(freep);
        }
        CloseEnd(mem, rs, rootParent, p);
        Free(p);
        cur := NULL;
      }
    }

    method Alloc(ent: Ent) returns (a: nat)
      requires forall b :: b in mem ==> b < next
      modifies this`mem, this`next
      ensures a == old(next) && next == a + 1 && a !in old(mem) && mem == old(mem)[a := ent]
    {
      a := next;
      next := next + 1;
      mem := mem[a := ent];
    }

    method Free(a: nat)
      requires a in mem
      modifies this`mem
      ensures mem == old(mem) - {a}
    {
      mem := mem - {a};
    }

    /** wi_fts_stat of accpath, for an entry called name whose parent is at parent: a directory is compared
        with every ancestor up to the root. The proof's rs are the rows above the entry. */
    method StatEnt(name: string, accpath: string, parent: nat, ghost rs: seq<seq<Node>>) returns (info: Info, id: Id)
      requires rootParent in mem && mem[rootParent].level == ROOT_PARENT_LEVEL
      requires if rs == [] then parent == rootParent
               else Threaded(mem, rs, rootParent) && parent == Last(rs).addr
      requires forall i :: 0 <= i < |rs| ==> rs[i] != [] && rs[i][0].info == D
      ensures info == DOT ==> IsDot(name)
      ensures !IsDot(name) || rs == [] ==> (if info == DOT then D else info, id) == Classify(world, Ids(rs), accpath)
      ensures !IsDot(name) || rs == [] ==> KindIs(world.stat(accpath), Ids(rs), if info == DOT then D else info)
    {
      hide RowAt, Threaded;
      match world.stat(accpath)
      case Missing => return NS, NO_ID;
      case DanglingLink => return SLNONE, NO_ID;
      case Regular => return F, NO_ID;
      case Symlink => return SL, NO_ID;
      case OtherKind => return DEFAULT, NO_ID;
      case Directory(dir) =>
        if IsDot(name) {
          return DOT, dir;
        }
        var t: nat := parent;
        ghost var i := |rs|;
        if i > 0 {
          OnPath(mem, rs, rootParent, i - 1);
        }
        while mem[t].level >= ROOT_LEVEL
          invariant 0 <= i <= |rs| && t == ParentOf(rs, i, rootParent) && t in mem
          invariant i > 0 ==> mem[t].level == i - 1
          invariant forall k :: i <= k < |rs| ==> rs[k][0].id != dir
          decreases i
        {
          i := i - 1;
          OnPath(mem, rs, rootParent, i);
          if mem[t].id == dir {
            assert Ids(rs)[i] == dir;
            return DC, dir;
          }
          t := mem[t].parent;
          if i > 0 {
            OnPath(mem, rs, rootParent, i - 1);
          }
        }
        assert forall k :: 0 <= k < |rs| ==> Ids(rs)[k] == rs[k][0].id;
        return D, dir;
    }

    /** NAPPEND: where an entry's path ends, less a trailing slash. */
    ghost predicate CanAppend(p: nat)
      reads this
    {
      p in mem && 0 < mem[p].pathlen <= |path|
    }

    function Append(p: nat): (n: nat)
      requires CanAppend(p)
      reads this
      ensures n <= |path| && path[..n] == Stem(path[..mem[p].pathlen])
    {
      if path[mem[p].pathlen - 1] == '/' then mem[p].pathlen - 1 else mem[p].pathlen
    }

    method LinkLast(ent: Ent, head: int, tail: int, ghost mem0: Memory, ghost row: seq<Node>, ghost x: Node,
                    ghost level: nat, ghost parent: nat) returns (head': int, tail': int)
      requires Grown(mem0, mem, row, level, parent) && forall a :: a in mem ==> a < next
      requires head == (if row == [] then NULL else row[0].addr)
      requires tail == (if row == [] then NULL else row[|row| - 1].addr)
      requires x.addr == next && NodeAt(mem[next := ent], x, level, parent) && ent.link == NULL && !ent.skip
      modifies this`mem, this`next
      ensures Grown(mem0, mem, row + [x], level, parent) && forall a :: a in mem ==> a < next
      ensures head' == (row + [x])[0].addr && tail' == x.addr
    {
      hide RowAt, Grown;
      var p := Alloc(ent);
      if head == NULL {
        head' := p;
      } else {
        head' := head;
        GrownTail(mem0, old(mem), row, level, parent);
        mem := mem[tail := mem[tail].(link := p)];
      }
      tail' := p;
      GrownSnoc(mem0, old(mem), mem, row, x, level, parent);
    }

    /** One turn of the loop in wi_fts_build: names the entry in the path buffer, stats it, links it in last. */
    method AddEntry(name: string, base: string, head: int, tail: int, ghost mem0: Memory, ghost row: seq<Node>)
      returns (head': int, tail': int, ghost x: Node)
      requires !IsDot(name) && rows != [] && rows[|rows| - 1] != [] && cur == Last(rows).addr
      requires Threaded(mem0, rows, rootParent) && rootParent in mem0 && mem0[rootParent].level == ROOT_PARENT_LEVEL
      requires forall i :: 0 <= i < |rows| ==> rows[i] != [] && rows[i][0].info == D
      requires Grown(mem0, mem, row, |rows|, cur) && forall a :: a in mem ==> a < next
      requires head == (if row == [] then NULL else row[0].addr)
      requires tail == (if row == [] then NULL else row[|row| - 1].addr)
      modifies this`mem, this`next, this`path
      ensures Grown(mem0, mem, row + [x], |rows|, cur) && forall a :: a in mem ==> a < next
      ensures head' == (row + [x])[0].addr && tail' == x.addr
      ensures x.name == name && x.path == base + name && (x.info, x.id) == Classify(world, Ids(rows), x.path)
    {
      hide RowAt, Grown;
      path := base + name;
      GrownThreaded(mem0, mem, rows, rootParent, row, |rows|, cur);
      OnPath(mem, rows, rootParent, |rows| - 1);
      var info, id := StatEnt(name, path, cur, rows);
      var ent := Ent(name, |path|, info, mem[cur].level + 1, cur, NULL, false, id, if info == NS then 1 else 0);
      x := Node(next, name, path, info, id);
      head', tail' := LinkLast(ent, head, tail, mem0, row, x, |rows|, cur);
    }

    /** The loop in wi_fts_build over the names of a directory. */
    method ReadNames(names: seq<string>, base: string, ghost dir: string) returns (head: int, ghost row: seq<Node>)
      requires rows != [] && rows[|rows| - 1] != [] && cur == Last(rows).addr
      requires Threaded(mem, rows, rootParent) && rootParent in mem && mem[rootParent].level == ROOT_PARENT_LEVEL
      requires forall i :: 0 <= i < |rows| ==> rows[i] != [] && rows[i][0].info == D
      requires forall a :: a in mem ==> a < next
      requires base == Stem(dir) + "/" && forall n :: n in names ==> GoodName(n)
      modifies this`mem, this`next, this`path
      ensures Grown(old(mem), mem, row, |rows|, cur) && forall a :: a in mem ==> a < next
      ensures Built(world, Ids(rows), dir, Kids(names), row)
      ensures head == (if row == [] then NULL else row[0].addr)
    {
      hide Threaded, Grown, Built, Classify, GoodName;
      row := [];
      head := NULL;
      var tail := NULL;
      var k := 0;
      GrownNil(mem, |rows|, cur);
      BuiltNil(world, Ids(rows), dir);
      assert names[..0] == [];
      while k < |names|
        invariant 0 <= k <= |names|
        invariant forall a :: a in mem ==> a < next
        invariant Grown(old(mem), mem, row, |rows|, cur)
        invariant Built(world, Ids(rows), dir, Kids(names[..k]), row)
        invariant head == (if row == [] then NULL else row[0].addr)
        invariant tail == (if row == [] then NULL else row[|row| - 1].addr)
      {
        if !IsDot(names[k]) {
          ghost var x;
          head, tail, x := AddEntry(names[k], base, head, tail, old(mem), row);
          BuiltSnoc(world, Ids(rows), dir, names, k, row, x);
          row := row + [x];
        }
        KidsSnoc(names, k);
        assert Kids(names[..k]) + [] == Kids(names[..k]);
        k := k + 1;
      }
      assert names[..|names|] == names;
    }

    /** wi_fts_build for wi_fts_read: reads the current directory into a list of entries, each one
        stat'ed through the path buffer, and leaves the buffer ready for the first name. */
    method Build() returns (head: int, ghost row: seq<Node>)
      requires rows != [] && rows[|rows| - 1] != [] && cur == Last(rows).addr && cur in mem
      requires Threaded(mem, rows, rootParent) && rootParent in mem && mem[rootParent].level == ROOT_PARENT_LEVEL
      requires forall i :: 0 <= i < |rows| ==> rows[i] != [] && rows[i][0].info == D
      requires forall a :: a in mem ==> a < next
      requires mem[cur].pathlen == |path| > 0
      requires GoodListing(world.list(path))
      modifies this`mem, this`next, this`path
      ensures forall a :: a in mem ==> a < next
      ensures world.list(old(path)).Unreadable? ==>
        head == NULL && path == old(path) && mem == old(mem)[cur := old(mem)[cur].(info := DNR, errno := 1)]
      ensures world.list(old(path)).Names? ==>
        var kids := Kids(world.list(old(path)).names);
        if kids == [] then
          head == NULL && path == Stem(old(path)) && mem == old(mem)[cur := old(mem)[cur].(info := DP)]
        else
          && Built(world, Ids(rows), old(path), kids, row) && row != [] && head == row[0].addr
          && Grown(old(mem), mem, row, |rows|, cur)
          && path == Stem(old(path)) + "/"
    {
      hide Threaded, Grown, Built, GoodName;
      ghost var dir := path;
      match world.list(path) {
        case Unreadable =>
          mem := mem[cur := mem[cur].(info := DNR, errno := 1)];
          return NULL, [];
        case Names(names) =>
          assert path[..|path|] == path;
          var len := Append(cur);
          var base := path[..len] + "/";
          head, row := ReadNames(names, base, dir);
          BuiltCount(world, Ids(rows), dir, Kids(names), row);
          if head == NULL {
            path := base[..|base| - 1];
            GrownOld(old(mem), mem, |rows|, cur);
            mem := mem[cur := mem[cur].(info := DP)];
          } else {
            path := base;
          }
      }
    }

    /** The tail of wi_fts_read: puts an entry's name in the path buffer, after its directory's path. */
    method ShowName(p: nat, ghost dir: string)
      requires p in mem && mem[p].parent in mem && mem[mem[p].parent].pathlen == |dir| > 0
      requires Stem(dir) + "/" <= path
      modifies this`path
      ensures path == Join(dir, mem[p].name)
    {
      BelowDirectory(dir, path);
      path := path[..Append(mem[p].parent)] + "/" + mem[p].name;
    }

    /** wi_fts_load: the buffer takes a root's path, the root the last component as its name. */
    method Load(p: nat)
      requires p in mem
      modifies this`mem, this`path
      ensures path == old(mem)[p].name
      ensures mem == old(mem)[p := old(mem)[p].(pathlen := |path|, name := Basename(path))]
    {
      path := mem[p].name;
      mem := mem[p := mem[p].(pathlen := |path|, name := Basename(path))];
    }

    /** Enters the current directory: its first entry becomes current, or it is closed at once. */
    method Enter(ghost skip: Event -> bool)
      requires Inv() && cur != NULL && mem[cur].info == D && !mem[cur].skip && !skip(Current())
      modifies this
      ensures Inv() && cur != NULL && cur in mem && !mem[cur].skip
      ensures old(Owed(skip)) == [Current()] + Owed(skip)
    {
      hide Walking, Threaded, Future, Built, Grown, GoodListing;
      CurrentEntry(world, mem, rows, rootParent, cur, path);
      Openable(world, mem, rows, rootParent, cur, path);
      var head, row := Build();
      if head == NULL {
        rows := ClosedStep(world, skip, old(mem), rows, rootParent, cur, old(path), mem[cur].info, mem[cur].errno);
      } else {
        GrownRow(old(mem), mem, row, |rows|, cur);
        rows := EnteredStep(world, skip, old(mem), mem, rows, rootParent, cur, old(path), row);
        ShowName(head, old(path));
        cur := head;
      }
      CurrentEntry(world, mem, rows, rootParent, cur, path);
    }

    /** Moves on from the current entry, freeing it: to its next sibling, or up, or out. */
    method Next(ghost skip: Event -> bool)
      requires Inv() && cur != NULL && mem[cur].info != D && !mem[cur].skip
      modifies this
      ensures Inv() && (cur != NULL ==> cur in mem && !mem[cur].skip)
      ensures old(Owed(skip)) == if cur == NULL then [] else [Current()] + Owed(skip)
    {
      hide Walking, Threaded, Future;
      CurrentEntry(world, mem, rows, rootParent, cur, path);
      Links(world, mem, rows, rootParent, cur, path);
      var tmp: nat := cur;
      if mem[tmp].link != NULL {
        var p: nat := mem[tmp].link;
        if mem[p].level == ROOT_LEVEL {
          rows := RootStep(world, skip, mem, rows, rootParent, cur, path);
          Free(tmp);
          Load(p);
        } else {
          ghost var dir;
          rows, dir := SiblingStep(world, skip, mem, rows, rootParent, cur, path);
          Free(tmp);
          ShowName(p, dir);
        }
        cur := p;
      } else {
        var p: nat := mem[tmp].parent;
        if mem[p].level == ROOT_PARENT_LEVEL {
          EndStep(world, skip, mem, rows, rootParent, cur, path);
          Free(tmp);
          Free(p);
          cur := NULL;
          return;
        }
        rows := UpStep(world, skip, mem, rows, rootParent, cur, path);
        Free(tmp);
        path := path[..mem[p].pathlen];
        mem := mem[p := mem[p].(info := if mem[p].errno != 0 then ERR else DP)];
        cur := p;
      }
      CurrentEntry(world, mem, rows, rootParent, cur, path);
    }

    /** wi_fts_read. The caller has asked to skip the current directory's contents exactly when skip says so. */
    method Read(ghost skip: Event -> bool) returns (p: int)
      requires Inv()
      requires cur != NULL && mem[cur].info == D ==> (mem[cur].skip <==> skip(Current()))
      modifies this
      ensures Inv() && p == cur && (cur != NULL ==> cur in mem && !mem[cur].skip)
      ensures old(Owed(skip)) == if cur == NULL then [] else [Current()] + Owed(skip)
    {
      hide Walking, Future;
      if cur == NULL {
        return NULL;
      }
      CurrentEntry(world, mem, rows, rootParent, cur, path);
      var instr := mem[cur].skip;
      InstructStep(world, mem, rows, rootParent, cur, path, false);
      mem := mem[cur := mem[cur].(skip := false)];
      if mem[cur].info == D {
        if instr {
          rows := SkipStep(world, skip, mem, rows, rootParent, cur, path);
          mem := mem[cur := mem[cur].(info := DP)];
          CurrentEntry(world, mem, rows, rootParent, cur, path);
        } else {
          Enter(skip);
        }
      } else {
        Next(skip);
      }
      p := cur;
    }
  }

  /** A whole run: reading to the end yields exactly the walk, and leaves nothing allocated. */
  method Traverse(w: World, roots: seq<string>, skip: Event -> bool) returns (ok: bool, events: seq<Event>)
    requires w.Valid() && roots != []
    ensures ok == ("" !in roots)
    ensures ok ==> events == Walk(w, skip, roots) && Kinds(w, events, [], [])
  {
    hide Kinds, Walking, Future, Walk, World.Valid, Fts.Inv, Fts.Owed;
    var fts := new Fts(w);
    events := [];
    var errno;
    ok, errno := fts.Open(roots);
    if ok {
      assert fts.Owed(skip) == Walk(w, skip, roots);
      var p := fts.Read(skip);
      ghost var left := if p == NULL then [] else [fts.Current()] + fts.Owed(skip);
      while p != NULL
        invariant fts.Inv() && p == fts.cur
        invariant p != NULL ==> fts.cur in fts.mem && !fts.mem[fts.cur].skip
        invariant left == if p == NULL then [] else [fts.Current()] + fts.Owed(skip)
        invariant Walk(w, skip, roots) == events + left
        decreases |left|
      {
        var e := fts.Current();
        ghost var owed := fts.Owed(skip);
        assert events + left == (events + [e]) + owed;
        events := events + [e];
        if e.info == D && skip(e) {
          fts.Skip();
          assert fts.Owed(skip) == owed;
        }
        p := fts.Read(skip);
        left := owed;
      }
    }
    fts.Close();
    WalkKinds(w, skip, roots);
  }

  // ----- building a row -----

  /** row holds one stat'ed entry for each of the names, in order. */
  ghost predicate Built(w: World, ancestors: seq<Id>, dir: string, kids: seq<string>, row: seq<Node>) {
    && |row| == |kids|
    && forall j :: 0 <= j < |row| ==> row[j].name == kids[j] && KidOf(w, ancestors, dir, row[j])
  }

  /** mem' is mem with a new row added. */
  ghost predicate Grown(mem: Memory, mem': Memory, row: seq<Node>, level: nat, parent: nat) {
    && (row != [] ==> RowAt(mem', row, level, parent))
    && (forall a :: a in mem ==> a in mem' && mem'[a] == mem[a])
    && (forall a :: a in mem' && a !in mem ==> !mem'[a].skip && exists j :: 0 <= j < |row| && row[j].addr == a)
    && (forall j :: 0 <= j < |row| ==> row[j].addr !in mem)
  }

  lemma KidsSnoc(names: seq<string>, k: nat)
    requires k < |names|
    ensures Kids(names[..k + 1]) == Kids(names[..k]) + if IsDot(names[k]) then [] else [names[k]]
  {
    KidsConcat(names[..k], [names[k]]);
    assert names[..k + 1] == names[..k] + [names[k]];
  }

  lemma {:induction false} KidsConcat(a: seq<string>, b: seq<string>)
    ensures Kids(a + b) == Kids(a) + Kids(b)
  {
    if a == [] {
      assert a + b == b;
    } else {
      assert (a + b)[1..] == a[1..] + b;
      KidsConcat(a[1..], b);
    }
  }

  lemma BuiltNil(w: World, ancestors: seq<Id>, dir: string)
    ensures Built(w, ancestors, dir, [], [])
  {
  }

  lemma BuiltSnoc(w: World, ancestors: seq<Id>, dir: string, names: seq<string>, k: nat, row: seq<Node>, x: Node)
    requires k < |names| && !IsDot(names[k]) && Built(w, ancestors, dir, Kids(names[..k]), row)
    requires x.name == names[k] && GoodName(x.name)
    requires x.path == Stem(dir) + "/" + x.name && (x.info, x.id) == Classify(w, ancestors, x.path)
    ensures Built(w, ancestors, dir, Kids(names[..k + 1]), row + [x])
  {
    KidsSnoc(names, k);
  }

  lemma BuiltCount(w: World, ancestors: seq<Id>, dir: string, kids: seq<string>, row: seq<Node>)
    requires Built(w, ancestors, dir, kids, row)
    ensures |row| == |kids|
  {
  }

  lemma GrownNil(mem: Memory, level: nat, parent: nat)
    ensures Grown(mem, mem, [], level, parent)
  {
  }

  lemma GrownThreaded(mem: Memory, mem': Memory, rows: seq<seq<Node>>, rootParent: nat, row: seq<Node>, level: nat, parent: nat)
    requires Threaded(mem, rows, rootParent) && Grown(mem, mem', row, level, parent)
    ensures Threaded(mem', rows, rootParent)
    ensures forall a :: a in mem ==> a in mem' && mem'[a] == mem[a]
  {
  }

  lemma GrownOld(mem: Memory, mem': Memory, level: nat, parent: nat)
    requires Grown(mem, mem', [], level, parent)
    ensures mem' == mem
  {
  }

  lemma GrownTail(mem: Memory, mem': Memory, row: seq<Node>, level: nat, parent: nat)
    requires Grown(mem, mem', row, level, parent) && row != []
    ensures row[|row| - 1].addr in mem'
  {
  }

  /** Linking one more entry at the end of the list. */
  lemma GrownSnoc(mem: Memory, mid: Memory, mem': Memory, row: seq<Node>, x: Node, level: nat, parent: nat)
    requires Grown(mem, mid, row, level, parent) && x.addr !in mid && x.addr in mem' && !mem'[x.addr].skip
    requires row == [] ==> mem' == mid[x.addr := mem'[x.addr]]
    requires row != [] ==> var l := row[|row| - 1].addr;
      l in mid && mem' == mid[x.addr := mem'[x.addr]][l := mid[l].(link := x.addr)]
    requires NodeAt(mem', x, level, parent) && mem'[x.addr].link == NULL
    ensures Grown(mem, mem', row + [x], level, parent)
  {
    RowSnoc(mid, mem', row, x, level, parent);
    var row' := row + [x];
    forall a | a in mem' && a !in mem
      ensures !mem'[a].skip && exists j :: 0 <= j < |row'| && row'[j].addr == a
    {
      if a == x.addr {
        assert row'[|row|].addr == a;
      } else {
        var j :| 0 <= j < |row| && row[j].addr == a;
        assert row'[j].addr == a;
      }
    }
  }

  lemma RowSnoc(mid: Memory, mem': Memory, row: seq<Node>, x: Node, level: nat, parent: nat)
    requires row != [] ==> RowAt(mid, row, level, parent)
    requires x.addr !in mid && NodeAt(mem', x, level, parent) && mem'[x.addr].link == NULL
    requires row != [] ==> var l := row[|row| - 1].addr;
      l in mid && mem' == mid[x.addr := mem'[x.addr]][l := mid[l].(link := x.addr)]
    ensures RowAt(mem', row + [x], level, parent)
  {
    var row' := row + [x];
    forall j | 0 <= j < |row'|
      ensures NodeAt(mem', row'[j], level, parent)
    {
      if j < |row| {
        assert NodeAt(mid, row[j], level, parent);
      }
    }
    forall i, j | 0 <= i < j < |row'|
      ensures row'[i].addr != row'[j].addr
    {
      assert NodeAt(mid, row[i], level, parent);
    }
    forall j | 0 <= j < |row|
      ensures mem'[row[j].addr].link == row'[j + 1].addr
    {
      assert NodeAt(mid, row[j], level, parent);
    }
  }

  lemma GrownKeeps(mem: Memory, mem': Memory, row: seq<Node>, level: nat, parent: nat)
    requires Grown(mem, mem', row, level, parent)
    ensures forall a :: a in mem ==> a in mem' && mem'[a] == mem[a]
  {
  }

  /** Freeing the first entry of the list. */
  lemma GrownDrop(mem: Memory, mem': Memory, row: seq<Node>, level: nat, parent: nat)
    requires Grown(mem, mem', row, level, parent) && row != []
    ensures row[0].addr in mem'
    ensures mem'[row[0].addr].link == if |row| > 1 then row[1].addr else NULL
    ensures Grown(mem, mem' - {row[0].addr}, row[1..], level, parent)
  {
    var x := row[0].addr;
    assert NodeAt(mem', row[0], level, parent);
    if |row| > 1 {
      RowTail(mem', row, level, parent);
    }
    forall a | a in mem' - {x} && a !in mem
      ensures exists j :: 0 <= j < |row| - 1 && row[1..][j].addr == a
    {
      var j :| 0 <= j < |row| && row[j].addr == a;
      assert row[1..][j - 1].addr == a;
    }
  }

  // ----- opening -----

  /** wi_fts_open's dummy entry, linked to the roots, is the one walked off first. */
  lemma OpenStep(w: World, before: Memory, mem: Memory, mem0: Memory, rootParent: nat, cur: nat, path: string, row: seq<Node>)
    returns (rows: seq<seq<Node>>)
    requires mem0.Keys == {rootParent} && mem0[rootParent].level == ROOT_PARENT_LEVEL && !mem0[rootParent].skip
    requires Grown(mem0, before, row, 0, rootParent) && row != [] && cur !in before
    requires mem == before[cur := Ent("", 0, INIT, ROOT_LEVEL, NULL, row[0].addr, false, NO_ID, 0)]
    requires forall j :: 0 <= j < |row| ==> SoundRoot(w, row[j])
    ensures Walking(w, mem, rows, rootParent, cur, path)
    ensures |rows| == 1 && rows[0] != [] && rows[0][0].info == INIT && rows[0][1..] == row
  {
    var first := Node(cur, "", "", INIT, NO_ID);
    var all := [first] + row;
    rows := [all];
    assert RowAt(before, row, 0, rootParent);
    RowCons(before, mem, row, first, 0, rootParent);
    assert ParentOf(rows, 0, rootParent) == rootParent;
    OpenHeld(before, mem, mem0, rootParent, row, all, cur);
    assert SoundRow(w, rows, 0);
  }

  lemma RowCons(mid: Memory, mem: Memory, row: seq<Node>, x: Node, level: nat, parent: int)
    requires RowAt(mid, row, level, parent) && x.addr !in mid && x.addr in mem && row[0].addr in mem
    requires mem == mid[x.addr := mem[x.addr]] && mem[x.addr].link == row[0].addr && NodeAt(mem, x, level, parent)
    ensures RowAt(mem, [x] + row, level, parent)
  {
    var all := [x] + row;
    forall j | 0 <= j < |all|
      ensures NodeAt(mem, all[j], level, parent)
    {
      if j > 0 {
        assert NodeAt(mid, row[j - 1], level, parent);
      }
    }
    forall i, j | 0 <= i < j < |all|
      ensures all[i].addr != all[j].addr
    {
      assert NodeAt(mid, row[j - 1], level, parent);
    }
    forall j | 0 <= j < |all| - 1
      ensures mem[all[j].addr].link == all[j + 1].addr
    {
      if j > 0 {
        assert NodeAt(mid, row[j - 1], level, parent);
      }
    }
    assert NodeAt(mid, row[|row| - 1], level, parent);
  }

  lemma OpenHeld(before: Memory, mem: Memory, mem0: Memory, rootParent: nat, row: seq<Node>, all: seq<Node>, cur: nat)
    requires mem0.Keys == {rootParent} && mem0[rootParent].level == ROOT_PARENT_LEVEL && !mem0[rootParent].skip
    requires Grown(mem0, before, row, 0, rootParent) && cur !in before && cur in mem && mem == before[cur := mem[cur]]
    requires !mem[cur].skip
    requires |all| == |row| + 1 && all[0].addr == cur && all[1..] == row
    ensures Held(mem, [all], rootParent) && cur != rootParent
    ensures forall a :: a in mem && a != cur ==> !mem[a].skip
  {
    forall a | a in mem && a != rootParent
      ensures InRows([all], a)
    {
      if a == cur {
        Listed([all], 0, 0);
      } else {
        var j :| 0 <= j < |row| && row[j].addr == a;
        assert all[j + 1] == all[1..][j];
        Listed([all], 0, j + 1);
      }
    }
  }

  lemma FutureOpen(w: World, skip: Event -> bool, rows: seq<seq<Node>>, roots: seq<string>)
    requires w.Valid() && |rows| == 1 && rows[0] != [] && rows[0][0].info == INIT
    requires |rows[0][1..]| == |roots| && forall j :: 0 <= j < |roots| ==> rows[0][1..][j].path == roots[j]
    ensures Future(w, skip, rows) == Walk(w, skip, roots)
  {
    VisitRoots(w, skip, rows[0][1..], roots);
    assert Ids(rows[..0]) == [];
  }

  lemma {:induction false} VisitRoots(w: World, skip: Event -> bool, row: seq<Node>, roots: seq<string>)
    requires w.Valid() && |row| == |roots| && forall j :: 0 <= j < |roots| ==> row[j].path == roots[j]
    ensures VisitRow(w, skip, [], row, 0) == Walk(w, skip, roots)
  {
    if row != [] {
      VisitRoots(w, skip, row[1..], roots[1..]);
    }
  }

  // ----- closing -----

  ghost function Top(rows: seq<seq<Node>>): seq<Node> {
    if rows == [] then [] else rows[|rows| - 1]
  }

  /** The state of the loop in wi_fts_close. */
  ghost predicate Closable(mem: Memory, rows: seq<seq<Node>>, rootParent: nat, p: nat) {
    && p in mem
    && if rows == [] then
         p == rootParent && mem.Keys == {rootParent} && mem[rootParent].level == ROOT_PARENT_LEVEL
       else
         && Threaded(mem, rows, rootParent) && Held(mem, rows, rootParent) && p == Last(rows).addr
         && mem[p].level == |rows| - 1
         && (forall i :: 0 <= i < |rows| ==> rows[i][0].info == INIT ==> |rows[i]| > 1)
         && (forall i, j :: 0 <= i < |rows| && 1 <= j < |rows[i]| ==> rows[i][j].info != INIT)
  }

  lemma CloseStart(w: World, mem: Memory, rows: seq<seq<Node>>, rootParent: nat, cur: int, path: string)
    requires Walking(w, mem, rows, rootParent, cur, path)
    ensures cur in mem && Closable(mem, rows, rootParent, cur)
  {
    hide RowAt, InRows;
    CurrentEntry(w, mem, rows, rootParent, cur, path);
    forall i | 0 <= i < |rows|
      ensures rows[i][0].info == INIT ==> |rows[i]| > 1
      ensures forall j :: 1 <= j < |rows[i]| ==> rows[i][j].info != INIT
    {
      assert SoundRow(w, rows, i);
    }
  }

  lemma CloseStep(mem: Memory, rows: seq<seq<Node>>, rootParent: nat, p: nat) returns (rows': seq<seq<Node>>)
    requires Closable(mem, rows, rootParent, p) && mem[p].level >= ROOT_LEVEL
    ensures var p' := if mem[p].link != NULL then mem[p].link else mem[p].parent;
      p' >= 0 && Closable(mem - {p}, rows', rootParent, p')
    ensures |rows'| < |rows| || (|rows'| == |rows| && |Top(rows')| < |Top(rows)|)
  {
    hide RowAt, InRows, Held;
    var top := |rows| - 1;
    if |rows[top]| > 1 {
      rows' := rows[top := rows[top][1..]];
      CloseNext(mem, rows, rootParent, p);
    } else if top > 0 {
      rows' := rows[..top];
      CloseUp(mem, rows, rootParent, p);
    } else {
      rows' := [];
      CloseLast(mem, rows, rootParent, p);
    }
  }

  lemma CloseNext(mem: Memory, rows: seq<seq<Node>>, rootParent: nat, p: nat)
    requires Closable(mem, rows, rootParent, p) && rows != [] && |rows[|rows| - 1]| > 1
    ensures mem[p].link >= 0
    ensures Closable(mem - {p}, rows[|rows| - 1 := rows[|rows| - 1][1..]], rootParent, mem[p].link)
  {
    var top := |rows| - 1;
    RowLinks(mem, rows, rootParent);
    hide RowAt, InRows;
    RowSecond(mem, rows[top], top, ParentOf(rows, top, rootParent));
    RowsNext(mem, rows, rootParent);
  }

  lemma CloseUp(mem: Memory, rows: seq<seq<Node>>, rootParent: nat, p: nat)
    requires Closable(mem, rows, rootParent, p) && |rows| > 1 && |rows[|rows| - 1]| == 1
    ensures mem[p].link == NULL && mem[p].parent >= 0
    ensures Closable(mem - {p}, rows[..|rows| - 1], rootParent, mem[p].parent)
  {
    var top := |rows| - 1;
    RowLinks(mem, rows, rootParent);
    hide RowAt, InRows;
    RowsUp(mem, rows, rootParent);
    OnPath(mem, rows, rootParent, top);
    OnPath(mem, rows, rootParent, top - 1);
    Apart(mem, rows, rootParent, top, 0);
  }

  lemma CloseLast(mem: Memory, rows: seq<seq<Node>>, rootParent: nat, p: nat)
    requires Closable(mem, rows, rootParent, p) && |rows| == 1 && |rows[0]| == 1
    ensures mem[p].link == NULL && mem[p].parent >= 0
    ensures Closable(mem - {p}, [], rootParent, mem[p].parent)
  {
    RowLinks(mem, rows, rootParent);
    OnPath(mem, rows, rootParent, 0);
    AllFreed(mem, rows, rootParent);
    forall a | a in mem
      ensures a == p || a == rootParent
    {
      if a != rootParent {
        var i, j :| 0 <= i < |rows| && 0 <= j < |rows[i]| && rows[i][j].addr == a;
      }
    }
    hide RowAt, InRows;
    assert (mem - {p}).Keys == {rootParent};
  }

  /** Where the current entry's link leads. */
  lemma RowLinks(mem: Memory, rows: seq<seq<Node>>, rootParent: nat)
    requires Threaded(mem, rows, rootParent)
    ensures var row := rows[|rows| - 1];
      && row[0].addr in mem && RowAt(mem, row, |rows| - 1, ParentOf(rows, |rows| - 1, rootParent))
      && mem[row[0].addr].link == if |row| > 1 then row[1].addr else NULL
  {
    assert RowAt(mem, rows[|rows| - 1], |rows| - 1, ParentOf(rows, |rows| - 1, rootParent));
    assert NodeAt(mem, rows[|rows| - 1][0], |rows| - 1, ParentOf(rows, |rows| - 1, rootParent));
  }

  lemma CloseEnd(mem: Memory, rows: seq<seq<Node>>, rootParent: nat, p: nat)
    requires Closable(mem, rows, rootParent, p) && mem[p].level < ROOT_LEVEL
    ensures mem - {p} == map[]
  {
  }

  /** The path length of the current directory is that of the buffer. */
  lemma PathLength(mem: Memory, rows: seq<seq<Node>>, rootParent: nat, w: World, path: string)
    requires Threaded(mem, rows, rootParent) && Loaded(mem, rows) && Sound(w, rows)
    requires var x := rows[|rows| - 1][0]; x.info == D && path == x.path
    ensures var x := rows[|rows| - 1][0]; x.addr in mem && mem[x.addr].pathlen == |path| > 0
  {
    OnPath(mem, rows, rootParent, |rows| - 1);
    assert SoundRow(w, rows, |rows| - 1);
  }

  // ----- entering a directory -----

  lemma Openable(w: World, mem: Memory, rows: seq<seq<Node>>, rootParent: nat, cur: int, path: string)
    requires w.Valid() && Walking(w, mem, rows, rootParent, cur, path) && Last(rows).info == D
    ensures Threaded(mem, rows, rootParent)
    ensures rootParent in mem && mem[rootParent].level == ROOT_PARENT_LEVEL
    ensures forall i :: 0 <= i < |rows| ==> rows[i][0].info == D
    ensures cur in mem && mem[cur].pathlen == |path| > 0 && path == Last(rows).path
    ensures GoodListing(w.list(path))
  {
    hide RowAt, InRows;
    PathLength(mem, rows, rootParent, w, path);
    assert GoodListing(w.list(path));
  }

  lemma RowHead(mem: Memory, rows: seq<seq<Node>>, rootParent: nat)
    requires Threaded(mem, rows, rootParent)
    ensures NodeAt(mem, rows[|rows| - 1][0], |rows| - 1, ParentOf(rows, |rows| - 1, rootParent))
  {
  }

  lemma GrownRow(mem: Memory, mem': Memory, row: seq<Node>, level: nat, parent: nat)
    requires Grown(mem, mem', row, level, parent) && row != []
    ensures RowAt(mem', row, level, parent)
    ensures forall a :: a in mem ==> a in mem' && mem'[a] == mem[a]
    ensures forall a :: a in mem' ==> a in mem || exists j :: 0 <= j < |row| && row[j].addr == a
    ensures forall a :: a in mem' && a !in mem ==> !mem'[a].skip
    ensures row[0].addr in mem' && row[0].addr !in mem && mem'[row[0].addr].name == row[0].name
    ensures mem'[row[0].addr].info == row[0].info && mem'[row[0].addr].level == level
    ensures row[0].info != INIT ==> mem'[row[0].addr].parent == parent
  {
  }

  lemma BelowDirectory(dir: string, path: string)
    requires dir != "" && Stem(dir) + "/" <= path
    ensures |dir| <= |path| && Stem(path[..|dir|]) == Stem(dir)
  {
  }

  /** Only the path of a root can end in a slash. */
  lemma StemIsPath(w: World, rows: seq<seq<Node>>)
    requires Sound(w, rows)
    ensures |rows| > 1 ==> Stem(rows[|rows| - 1][0].path) == rows[|rows| - 1][0].path
  {
    if |rows| > 1 {
      assert SoundRow(w, rows, |rows| - 1);
      StemJoin(rows[|rows| - 2][0].path, rows[|rows| - 1][0].name);
    }
  }

  lemma IdsSnoc(rows: seq<seq<Node>>)
    requires rows != [] && forall i :: 0 <= i < |rows| ==> rows[i] != []
    ensures Ids(rows) == Ids(rows[..|rows| - 1]) + [rows[|rows| - 1][0].id]
  {
  }

  lemma BuiltSound(w: World, rows: seq<seq<Node>>, kids: seq<string>, row: seq<Node>)
    requires Sound(w, rows) && rows[|rows| - 1][0].info == D && row != []
    requires Built(w, Ids(rows), rows[|rows| - 1][0].path, kids, row)
    ensures Sound(w, rows + [row])
    ensures row[0].path == Stem(rows[|rows| - 1][0].path) + "/" + row[0].name && row[0].info != INIT
  {
    var rows' := rows + [row];
    forall i | 0 <= i < |rows'|
      ensures SoundRow(w, rows', i)
    {
      if i < |rows| {
        assert SoundRow(w, rows, i);
        assert rows'[..i] == rows[..i];
      } else {
        assert rows'[..i] == rows;
      }
    }
  }

  /** The directory turned out unreadable or empty, and is closed at once. */
  lemma FutureClosed(w: World, skip: Event -> bool, rows: seq<seq<Node>>, x: Node)
    requires w.Valid() && Sound(w, rows)
    requires var y := rows[|rows| - 1][0];
      && y.info == D && !skip(Event(D, y.path, y.name, |rows| - 1)) && x == y.(info := x.info)
      && match w.list(y.path)
         case Unreadable => x.info == DNR
         case Names(names) => Kids(names) == [] && x.info == DP
    ensures Future(w, skip, rows)
         == [Event(x.info, if x.info == DNR then x.path else Stem(x.path), x.name, |rows| - 1)]
            + Future(w, skip, rows[|rows| - 1 := rows[|rows| - 1][0 := x]])
  {
    hide Future, After, Closing, VisitRow, Inside;
    Enterable(w, rows);
    Nonempty(w, rows);
    hide Sound;
    var top := |rows| - 1;
    var below, row := rows[..top], rows[top][0 := x];
    FutureOf(w, skip, below, rows[top]);
    FutureOf(w, skip, below, row);
    assert rows == below + [rows[top]] && rows[top := row] == below + [row] && row[1..] == rows[top][1..];
    InsideClosed(w, skip, Ids(below), rows[top][0], x, top);
  }

  lemma InsideClosed(w: World, skip: Event -> bool, ancestors: seq<Id>, y: Node, x: Node, level: nat)
    requires w.Valid() && y.id in w.dirs && y.id !in ancestors && !skip(Event(D, y.path, y.name, level)) && x == y.(info := x.info)
    requires match w.list(y.path)
      case Unreadable => x.info == DNR
      case Names(names) => Kids(names) == [] && x.info == DP
    ensures Inside(w, skip, ancestors, y.id, y.path, y.name, level)
         == [Event(x.info, if x.info == DNR then x.path else Stem(x.path), x.name, level)]
  {
  }

  lemma {:induction false} VisitBuilt(w: World, skip: Event -> bool, ancestors: seq<Id>, dir: string, kids: seq<string>,
                                      row: seq<Node>, level: nat)
    requires w.Valid() && level > 0 && Built(w, ancestors, dir, kids, row)
    ensures VisitRow(w, skip, ancestors, row, level) == VisitKids(w, skip, ancestors, dir, kids, level)
    decreases row
  {
    if row != [] {
      VisitBuilt(w, skip, ancestors, dir, kids[1..], row[1..], level);
    }
  }

  lemma VisitKidsFirst(w: World, skip: Event -> bool, ancestors: seq<Id>, dir: string, kids: seq<string>,
                       row: seq<Node>, level: nat)
    requires w.Valid() && level > 0 && Built(w, ancestors, dir, kids, row) && row != []
    ensures VisitKids(w, skip, ancestors, dir, kids, level)
         == [Event(row[0].info, row[0].path, row[0].name, level)] + Pending(w, skip, ancestors, row[0], level)
            + VisitRow(w, skip, ancestors, row[1..], level)
  {
    VisitBuilt(w, skip, ancestors, dir, kids[1..], row[1..], level);
    assert KidOf(w, ancestors, dir, row[0]) && row[0].name == kids[0];
  }

  /** The first entry of the directory is visited first, then its contents, then the other entries, then
      the directory is closed. */
  lemma FutureEntered(w: World, skip: Event -> bool, rows: seq<seq<Node>>, row: seq<Node>)
    requires w.Valid() && Sound(w, rows) && row != []
    requires var y := rows[|rows| - 1][0];
      && y.info == D && !skip(Event(D, y.path, y.name, |rows| - 1)) && w.list(y.path).Names?
      && Built(w, Ids(rows), y.path, Kids(w.list(y.path).names), row)
    ensures Future(w, skip, rows)
         == [Event(row[0].info, row[0].path, row[0].name, |rows|)] + Future(w, skip, rows + [row])
  {
    hide Built, SoundRow;
    var top := |rows| - 1;
    var y := rows[top][0];
    var kids := Kids(w.list(y.path).names);
    BuiltCount(w, Ids(rows), y.path, kids, row);
    Enterable(w, rows);
    IdsSnoc(rows);
    RoomShrinks(w, Ids(rows[..top]), y.id);
    VisitKidsFirst(w, skip, Ids(rows), y.path, kids, row, |rows|);
    AfterRow(w, skip, rows, row);
    assert (rows + [row])[..|rows|] == rows;
    var first := [Event(row[0].info, row[0].path, row[0].name, |rows|)];
    var last := [Event(DP, y.path, y.name, top)];
    var pending := Pending(w, skip, Ids(rows), row[0], |rows|);
    var others := VisitRow(w, skip, Ids(rows), row[1..], |rows|);
    assert Pending(w, skip, Ids(rows[..top]), y, top) == first + pending + others + last;
    Regroup(first, pending, others, last, After(w, skip, rows));
  }

  lemma Regroup<T>(a: seq<T>, b: seq<T>, c: seq<T>, d: seq<T>, e: seq<T>)
    ensures (a + b + c + d) + e == a + (b + (c + (d + e)))
  {
  }

  // ----- the future -----

  /** The current entry in memory is the last row's first. */
  lemma CurrentEntry(w: World, mem: Memory, rows: seq<seq<Node>>, rootParent: nat, cur: int, path: string)
    requires Walking(w, mem, rows, rootParent, cur, path)
    ensures rows != [] && forall i :: 0 <= i < |rows| ==> rows[i] != []
    ensures cur in mem && cur == Last(rows).addr && cur != rootParent
    ensures mem[cur].info == Last(rows).info && mem[cur].name == Last(rows).name && mem[cur].level == |rows| - 1
    ensures |rows| > 1 || Last(rows).info == D ==> path == Last(rows).path
  {
    hide RowAt, SoundRow, InRows;
    OnPath(mem, rows, rootParent, |rows| - 1);
  }

  lemma Links(w: World, mem: Memory, rows: seq<seq<Node>>, rootParent: nat, cur: int, path: string)
    requires Walking(w, mem, rows, rootParent, cur, path)
    ensures var top := |rows| - 1; var row := rows[top];
      && cur in mem
      && (|row| > 1 <==> mem[cur].link != NULL)
      && (|row| > 1 ==> mem[cur].link == row[1].addr && row[1].addr in mem && mem[row[1].addr].level == top)
      && (|row| == 1 ==>
            && mem[cur].parent == ParentOf(rows, top, rootParent) && mem[cur].parent in mem
            && (top == 0 <==> mem[mem[cur].parent].level == ROOT_PARENT_LEVEL))
    ensures forall a :: a in mem && a != cur ==> !mem[a].skip
  {
    hide SoundRow, InRows;
    var top := |rows| - 1;
    var row := rows[top];
    assert RowAt(mem, row, top, ParentOf(rows, top, rootParent));
    assert NodeAt(mem, row[0], top, ParentOf(rows, top, rootParent));
    if |row| > 1 {
      assert NodeAt(mem, row[1], top, ParentOf(rows, top, rootParent));
    }
    hide RowAt;
    if top > 0 {
      OnPath(mem, rows, rootParent, top - 1);
    }
  }

  // ----- one step of the walk -----

  lemma InstructStep(w: World, mem: Memory, rows: seq<seq<Node>>, rootParent: nat, cur: int, path: string, skip: bool)
    requires Walking(w, mem, rows, rootParent, cur, path) && cur in mem
    ensures Walking(w, mem[cur := mem[cur].(skip := skip)], rows, rootParent, cur, path)
  {
    hide RowAt, SoundRow, InRows;
    var top := |rows| - 1;
    RowHead(mem, rows, rootParent);
    RowsWrite(mem, rows, rootParent, mem[cur].(skip := skip), Last(rows));
    assert rows[top][0 := rows[top][0]] == rows[top];
    assert rows[top := rows[top]] == rows;
  }

  lemma SkipStep(w: World, skip: Event -> bool, mem: Memory, rows: seq<seq<Node>>, rootParent: nat, cur: int, path: string)
    returns (rows': seq<seq<Node>>)
    requires w.Valid() && Walking(w, mem, rows, rootParent, cur, path) && cur in mem
    requires Last(rows).info == D && skip(Event(D, path, Last(rows).name, |rows| - 1))
    ensures Walking(w, mem[cur := mem[cur].(info := DP)], rows', rootParent, cur, path)
    ensures Future(w, skip, rows) == [Event(DP, path, Last(rows).name, |rows| - 1)] + Future(w, skip, rows')
    ensures |rows'| == |rows|
  {
    hide RowAt, SoundRow, InRows, Future;
    var top := |rows| - 1;
    var x := Last(rows).(info := DP);
    rows' := rows[top := rows[top][0 := x]];
    RowHead(mem, rows, rootParent);
    RowsWrite(mem, rows, rootParent, mem[cur].(info := DP), x);
    SoundDone(w, rows, x);
    FutureSkip(w, skip, rows, x);
  }

  lemma ClosedStep(w: World, skip: Event -> bool, mem: Memory, rows: seq<seq<Node>>, rootParent: nat, cur: int, path: string,
                   info: Info, errno: int) returns (rows': seq<seq<Node>>)
    requires w.Valid() && Walking(w, mem, rows, rootParent, cur, path) && cur in mem
    requires Last(rows).info == D && !skip(Event(D, path, Last(rows).name, |rows| - 1))
    requires match w.list(path)
      case Unreadable => info == DNR
      case Names(names) => Kids(names) == [] && info == DP
    ensures var path' := if info == DNR then path else Stem(path);
      && Walking(w, mem[cur := mem[cur].(info := info, errno := errno)], rows', rootParent, cur, path')
      && Future(w, skip, rows) == [Event(info, path', Last(rows).name, |rows| - 1)] + Future(w, skip, rows')
      && |rows'| == |rows|
  {
    hide RowAt, SoundRow, InRows, Future;
    var top := |rows| - 1;
    var x := Last(rows).(info := info);
    rows' := rows[top := rows[top][0 := x]];
    RowHead(mem, rows, rootParent);
    RowsWrite(mem, rows, rootParent, mem[cur].(info := info, errno := errno), x);
    SoundDone(w, rows, x);
    FutureClosed(w, skip, rows, x);
    StemIsPath(w, rows);
  }

  lemma EnteredStep(w: World, skip: Event -> bool, mem: Memory, mem': Memory, rows: seq<seq<Node>>, rootParent: nat,
                    cur: int, path: string, row: seq<Node>) returns (rows': seq<seq<Node>>)
    requires w.Valid() && Walking(w, mem, rows, rootParent, cur, path) && cur in mem && !mem[cur].skip
    requires Last(rows).info == D && !skip(Event(D, path, Last(rows).name, |rows| - 1))
    requires w.list(path).Names? && Built(w, Ids(rows), path, Kids(w.list(path).names), row) && row != []
    requires RowAt(mem', row, |rows|, cur)
    requires forall a :: a in mem ==> a in mem' && mem'[a] == mem[a]
    requires forall a :: a in mem' ==> a in mem || exists j :: 0 <= j < |row| && row[j].addr == a
    requires forall a :: a in mem' && a !in mem ==> !mem'[a].skip
    ensures row[0].path == Join(path, row[0].name) && rows' == rows + [row]
    ensures row[0].addr in mem' && mem'[row[0].addr].parent == cur && mem'[row[0].addr].name == row[0].name
    ensures Walking(w, mem', rows', rootParent, row[0].addr, row[0].path)
    ensures Future(w, skip, rows) == [Event(row[0].info, row[0].path, row[0].name, |rows|)] + Future(w, skip, rows')
  {
    hide RowAt, SoundRow, InRows, Future, Built;
    rows' := rows + [row];
    RowsPush(mem, mem', rows, rootParent, row);
    BuiltSound(w, rows, Kids(w.list(path).names), row);
    FutureEntered(w, skip, rows, row);
    RowHead(mem', rows', rootParent);
  }

  lemma RootStep(w: World, skip: Event -> bool, mem: Memory, rows: seq<seq<Node>>, rootParent: nat, cur: int, path: string)
    returns (rows': seq<seq<Node>>)
    requires w.Valid() && Walking(w, mem, rows, rootParent, cur, path)
    requires Last(rows).info != D && |rows| == 1 && |rows[0]| > 1
    ensures |rows'| == 1
    ensures var p := rows[0][1].addr;
      && p in mem && p != cur && cur in mem
      && var name := mem[p].name;
      && Walking(w, (mem - {cur})[p := mem[p].(pathlen := |name|, name := Basename(name))], rows', rootParent, p, name)
      && Future(w, skip, rows) == [Event(mem[p].info, name, Basename(name), 0)] + Future(w, skip, rows')
  {
    hide RowAt, SoundRow, InRows, Future;
    var y := rows[0][1];
    var x := y.(name := Basename(y.path));
    rows' := NextRows(rows, x);
    NextEntry(w, mem, rows, rootParent);
    RowsNext(mem, rows, rootParent);
    SoundNext(w, rows, x);
    FutureNext(w, skip, rows, x);
    var left := rows[0 := rows[0][1..]];
    assert left[0] == rows[0][1..];
    RowsWrite(mem - {cur}, left, rootParent, mem[y.addr].(pathlen := |y.name|, name := Basename(y.name)), x);
    assert rows' == left[0 := left[0][0 := x]];
  }

  lemma SiblingStep(w: World, skip: Event -> bool, mem: Memory, rows: seq<seq<Node>>, rootParent: nat, cur: int, path: string)
    returns (rows': seq<seq<Node>>, dir: string)
    requires w.Valid() && Walking(w, mem, rows, rootParent, cur, path)
    requires Last(rows).info != D && |rows| > 1 && |rows[|rows| - 1]| > 1
    ensures |rows'| == |rows|
    ensures var p := rows[|rows| - 1][1].addr;
      && p in mem && p != cur && cur in mem
      && mem[p].parent in mem && mem[p].parent != cur && mem[mem[p].parent].pathlen == |dir| > 0
      && Stem(dir) + "/" <= path
      && Walking(w, mem - {cur}, rows', rootParent, p, Join(dir, mem[p].name))
      && Future(w, skip, rows)
         == [Event(mem[p].info, Join(dir, mem[p].name), mem[p].name, |rows| - 1)] + Future(w, skip, rows')
  {
    hide RowAt, SoundRow, InRows, Future;
    var top := |rows| - 1;
    var x := rows[top][1];
    dir := rows[top - 1][0].path;
    rows' := NextRows(rows, x);
    NextEntry(w, mem, rows, rootParent);
    Apart(mem, rows, rootParent, top, 0);
    assert rows[0][0].addr in mem - {cur};
    RowsNext(mem, rows, rootParent);
    SoundNext(w, rows, x);
    FutureNext(w, skip, rows, x);
    assert rows[top][1..][0 := x] == rows[top][1..];
    assert path == Stem(dir) + "/" + rows[top][0].name;
  }

  lemma UpStep(w: World, skip: Event -> bool, mem: Memory, rows: seq<seq<Node>>, rootParent: nat, cur: int, path: string)
    returns (rows': seq<seq<Node>>)
    requires w.Valid() && Walking(w, mem, rows, rootParent, cur, path)
    requires Last(rows).info != D && |rows| > 1 && |rows[|rows| - 1]| == 1
    ensures |rows'| == |rows| - 1
    ensures var p := rows[|rows| - 2][0].addr;
      && p in mem && p != cur && cur in mem && mem[p].errno == 0 && mem[p].pathlen <= |path|
      && Walking(w, (mem - {cur})[p := mem[p].(info := DP)], rows', rootParent, p, path[..mem[p].pathlen])
      && Future(w, skip, rows) == [Event(DP, path[..mem[p].pathlen], mem[p].name, |rows| - 2)] + Future(w, skip, rows')
  {
    hide RowAt, SoundRow, InRows, Future;
    var top := |rows| - 2;
    var d := rows[top][0];
    var x := d.(info := DP);
    rows' := rows[..top + 1][top := rows[top][0 := x]];
    Above(w, mem, rows, rootParent, path);
    Apart(mem, rows, rootParent, top + 1, 0);
    assert rows[0][0].addr in mem - {cur};
    RowsUp(mem, rows, rootParent);
    SoundUp(w, rows, x);
    FutureUp(w, skip, rows, x);
    RowsWrite(mem - {cur}, rows[..top + 1], rootParent, mem[d.addr].(info := DP), x);
  }

  lemma EndStep(w: World, skip: Event -> bool, mem: Memory, rows: seq<seq<Node>>, rootParent: nat, cur: int, path: string)
    requires w.Valid() && Walking(w, mem, rows, rootParent, cur, path)
    requires Last(rows).info != D && |rows| == 1 && |rows[0]| == 1
    ensures cur in mem && rootParent in mem && rootParent != cur && (mem - {cur}) - {rootParent} == map[]
    ensures Future(w, skip, rows) == []
  {
  }

  /** What the next sibling looks like in memory. */
  lemma NextEntry(w: World, mem: Memory, rows: seq<seq<Node>>, rootParent: nat)
    requires Threaded(mem, rows, rootParent) && Held(mem, rows, rootParent) && Loaded(mem, rows) && Sound(w, rows)
    requires |rows[|rows| - 1]| > 1
    ensures var top := |rows| - 1; var a := rows[top][0].addr; var y := rows[top][1];
      && a in mem && y.addr in mem && y.addr != a
      && NodeAt(mem, y, top, ParentOf(rows, top, rootParent)) && y.info != INIT
      && (top == 0 ==> SoundRoot(w, y))
      && (top > 0 ==>
            var d := rows[top - 1][0];
            && d.addr in mem && d.addr != a && mem[d.addr].pathlen == |d.path| > 0 && d.info == D
            && y.path == Join(d.path, y.name) && rows[top][0].path == Join(d.path, rows[top][0].name))
  {
    hide InRows, RowAt;
    var top := |rows| - 1;
    RowSecond(mem, rows[top], top, ParentOf(rows, top, rootParent));
    SoundSecond(w, rows);
    if top > 0 {
      PathAbove(w, mem, rows, rootParent);
    }
  }

  lemma SoundSecond(w: World, rows: seq<seq<Node>>)
    requires Sound(w, rows) && |rows[|rows| - 1]| > 1
    ensures var top := |rows| - 1; var y := rows[top][1];
      && y.info != INIT
      && (top == 0 ==> SoundRoot(w, y))
      && (top > 0 ==>
            var d := rows[top - 1][0];
            y.path == Join(d.path, y.name) && rows[top][0].path == Join(d.path, rows[top][0].name))
  {
    assert SoundRow(w, rows, |rows| - 1);
  }

  lemma RowSecond(mem: Memory, row: seq<Node>, level: nat, parent: int)
    requires RowAt(mem, row, level, parent) && |row| > 1
    ensures NodeAt(mem, row[0], level, parent) && NodeAt(mem, row[1], level, parent) && row[0].addr != row[1].addr
  {
  }

  lemma PathAbove(w: World, mem: Memory, rows: seq<seq<Node>>, rootParent: nat)
    requires Threaded(mem, rows, rootParent) && Loaded(mem, rows) && Sound(w, rows) && |rows| > 1
    ensures var d := rows[|rows| - 2][0];
      && d.addr in mem && d.addr != rows[|rows| - 1][0].addr && mem[d.addr].pathlen == |d.path| > 0
      && d.info == D && mem[d.addr].errno == 0 && mem[d.addr].name == d.name
      && NodeAt(mem, d, |rows| - 2, ParentOf(rows, |rows| - 2, rootParent))
  {
    var top := |rows| - 2;
    assert SoundRow(w, rows, top);
    assert RowAt(mem, rows[top], top, ParentOf(rows, top, rootParent));
    assert NodeAt(mem, rows[top][0], top, ParentOf(rows, top, rootParent));
    hide RowAt;
    Apart(mem, rows, rootParent, top, 0);
  }

  /** The buffer still begins with the path of the directory above. */
  lemma Above(w: World, mem: Memory, rows: seq<seq<Node>>, rootParent: nat, path: string)
    requires Threaded(mem, rows, rootParent) && Loaded(mem, rows) && Sound(w, rows) && |rows| > 1
    requires path == Last(rows).path
    ensures var d := rows[|rows| - 2][0];
      && d.addr in mem && d.addr != Last(rows).addr && mem[d.addr].pathlen == |d.path| <= |path|
      && path[..|d.path|] == d.path && mem[d.addr].errno == 0 && mem[d.addr].name == d.name && d.info == D
      && NodeAt(mem, d, |rows| - 2, ParentOf(rows, |rows| - 2, rootParent))
  {
    hide RowAt;
    var d := rows[|rows| - 2][0].path;
    PathAbove(w, mem, rows, rootParent);
    assert SoundRow(w, rows, |rows| - 1);
    var s := Stem(d) + "/";
    assert path == s + Last(rows).name;
    assert d == s[..|d|];
    assert path[..|d|] == s[..|d|];
  }

  lemma AllFreed(mem: Memory, rows: seq<seq<Node>>, rootParent: nat)
    requires Threaded(mem, rows, rootParent) && Held(mem, rows, rootParent) && |rows| == 1 && |rows[0]| == 1
    ensures rows[0][0].addr in mem && rootParent != rows[0][0].addr
    ensures (mem - {rows[0][0].addr}) - {rootParent} == map[]
  {
    Apart(mem, rows, rootParent, 0, 0);
    forall a | a in mem
      ensures a == rootParent || a == rows[0][0].addr
    {
    }
  }

  ghost predicate IsNext(rows: seq<seq<Node>>, x: Node)
    requires rows != []
  {
    var row := rows[|rows| - 1];
    |row| > 1 && x == if |rows| == 1 then row[1].(name := Basename(row[1].path)) else row[1]
  }

  ghost function NextRows(rows: seq<seq<Node>>, x: Node): seq<seq<Node>>
    requires rows != [] && |rows[|rows| - 1]| > 1
  {
    rows[|rows| - 1 := rows[|rows| - 1][1..][0 := x]]
  }

  lemma SoundNext(w: World, rows: seq<seq<Node>>, x: Node)
    requires Sound(w, rows) && IsNext(rows, x)
    ensures Sound(w, NextRows(rows, x))
  {
    var top := |rows| - 1;
    var rows' := NextRows(rows, x);
    forall i | 0 <= i < |rows'|
      ensures SoundRow(w, rows', i)
    {
      assert SoundRow(w, rows, i);
      assert rows'[..i] == rows[..i];
      if i == top {
        assert forall j :: 1 <= j < |rows'[top]| ==> rows'[top][j] == rows[top][j + 1];
      }
    }
  }

  /** What follows a row of siblings: the directory above is closed, and then its own siblings come. */
  ghost function Closing(w: World, skip: Event -> bool, below: seq<seq<Node>>): seq<Event>
    requires w.Valid() && forall i :: 0 <= i < |below| ==> below[i] != []
  {
    if below == [] then []
    else [Event(DP, Last(below).path, Last(below).name, |below| - 1)] + After(w, skip, below)
  }

  lemma AfterRow(w: World, skip: Event -> bool, below: seq<seq<Node>>, row: seq<Node>)
    requires w.Valid() && row != [] && forall i :: 0 <= i < |below| ==> below[i] != []
    ensures After(w, skip, below + [row])
         == VisitRow(w, skip, Ids(below), row[1..], |below|) + Closing(w, skip, below)
  {
  }

  lemma FutureOf(w: World, skip: Event -> bool, below: seq<seq<Node>>, row: seq<Node>)
    requires w.Valid() && row != [] && forall i :: 0 <= i < |below| ==> below[i] != []
    ensures Future(w, skip, below + [row])
         == Pending(w, skip, Ids(below), row[0], |below|)
            + (VisitRow(w, skip, Ids(below), row[1..], |below|) + Closing(w, skip, below))
    ensures row[0].info != D ==> Pending(w, skip, Ids(below), row[0], |below|) == []
  {
  }

  lemma Nonempty(w: World, rows: seq<seq<Node>>)
    requires Sound(w, rows)
    ensures rows != [] && forall i :: 0 <= i < |rows| ==> rows[i] != []
  {
  }

  lemma FutureNext(w: World, skip: Event -> bool, rows: seq<seq<Node>>, x: Node)
    requires w.Valid() && Sound(w, rows) && IsNext(rows, x) && rows[|rows| - 1][0].info != D
    ensures Future(w, skip, rows) == [Event(x.info, x.path, x.name, |rows| - 1)] + Future(w, skip, NextRows(rows, x))
  {
    hide Sound, After, Closing, Future, Pending, Visit, VisitRow;
    Nonempty(w, rows);
    var top := |rows| - 1;
    var below, row := rows[..top], rows[top][1..][0 := x];
    VisitNext(w, skip, rows, x);
    FutureOf(w, skip, below, rows[top]);
    FutureOf(w, skip, below, row);
    assert rows == below + [rows[top]] && NextRows(rows, x) == below + [row];
    assert row[1..] == rows[top][2..];
    Regroup([Event(x.info, x.path, x.name, top)], Pending(w, skip, Ids(below), x, top),
            VisitRow(w, skip, Ids(below), row[1..], top), [], Closing(w, skip, below));
  }

  lemma VisitNext(w: World, skip: Event -> bool, rows: seq<seq<Node>>, x: Node)
    requires w.Valid() && Sound(w, rows) && IsNext(rows, x)
    ensures var top := |rows| - 1; var ids := Ids(rows[..top]);
      VisitRow(w, skip, ids, rows[top][1..], top)
      == [Event(x.info, x.path, x.name, top)] + (Pending(w, skip, ids, x, top) + VisitRow(w, skip, ids, rows[top][2..], top))
  {
    hide Classify, Inside, Visit, Pending;
    var top := |rows| - 1;
    var ids := Ids(rows[..top]);
    ClassifyNext(w, rows, x);
    hide Sound;
    assert rows[top][1..][1..] == rows[top][2..];
    VisitPending(w, skip, ids, x, top);
  }

  lemma ClassifyNext(w: World, rows: seq<seq<Node>>, x: Node)
    requires Sound(w, rows) && IsNext(rows, x)
    ensures Classify(w, Ids(rows[..|rows| - 1]), x.path) == (x.info, x.id)
    ensures x.path == rows[|rows| - 1][1].path
    ensures x.name == if |rows| == 1 then Basename(x.path) else rows[|rows| - 1][1].name
  {
    assert SoundRow(w, rows, |rows| - 1);
    assert |rows| == 1 ==> Ids(rows[..|rows| - 1]) == [];
  }

  lemma VisitPending(w: World, skip: Event -> bool, ids: seq<Id>, x: Node, level: nat)
    requires w.Valid() && Classify(w, ids, x.path) == (x.info, x.id)
    ensures Visit(w, skip, ids, x.path, x.name, level)
         == [Event(x.info, x.path, x.name, level)] + Pending(w, skip, ids, x, level)
  {
  }

  lemma SoundUp(w: World, rows: seq<seq<Node>>, x: Node)
    requires Sound(w, rows) && |rows| > 1 && x == rows[|rows| - 2][0].(info := DP)
    ensures Sound(w, rows[..|rows| - 1][|rows| - 2 := rows[|rows| - 2][0 := x]])
  {
    var below := rows[..|rows| - 1];
    forall i | 0 <= i < |below|
      ensures SoundRow(w, below, i)
    {
      assert SoundRow(w, rows, i);
      assert below[..i] == rows[..i];
    }
    SoundDone(w, below, x);
  }

  lemma FutureUp(w: World, skip: Event -> bool, rows: seq<seq<Node>>, x: Node)
    requires w.Valid() && Sound(w, rows) && |rows| > 1 && |rows[|rows| - 1]| == 1
    requires rows[|rows| - 1][0].info != D && x == rows[|rows| - 2][0].(info := DP)
    ensures Future(w, skip, rows) == [Event(DP, x.path, x.name, |rows| - 2)]
            + Future(w, skip, rows[..|rows| - 1][|rows| - 2 := rows[|rows| - 2][0 := x]])
  {
    hide After, VisitRow, Visit, Inside, Future;
    Nonempty(w, rows);
    hide Sound;
    var below, row := rows[..|rows| - 1], rows[|rows| - 1];
    assert rows == below + [row] && row[1..] == [];
    FutureOf(w, skip, below, row);
    VisitNone(w, skip, Ids(below), |below|);
    AfterSame(w, skip, below, x);
    FutureDone(w, skip, below[|below| - 1 := below[|below| - 1][0 := x]]);
  }

  lemma VisitNone(w: World, skip: Event -> bool, ids: seq<Id>, level: nat)
    requires w.Valid()
    ensures VisitRow(w, skip, ids, [], level) == []
  {
  }

  lemma FutureDone(w: World, skip: Event -> bool, rows: seq<seq<Node>>)
    requires w.Valid() && rows != [] && (forall i :: 0 <= i < |rows| ==> rows[i] != []) && Last(rows).info != D
    ensures Future(w, skip, rows) == After(w, skip, rows)
  {
  }

  /** A directory stays sound when it is closed. */
  lemma SoundDone(w: World, rows: seq<seq<Node>>, x: Node)
    requires Sound(w, rows)
    requires var y := rows[|rows| - 1][0]; y.info == D && x == y.(info := x.info) && x.info != D && x.info != INIT
    ensures Sound(w, rows[|rows| - 1 := rows[|rows| - 1][0 := x]])
  {
    var top := |rows| - 1;
    var rows' := rows[top := rows[top][0 := x]];
    forall i | 0 <= i < |rows'|
      ensures SoundRow(w, rows', i)
    {
      assert SoundRow(w, rows, i);
      assert rows'[..i] == rows[..i];
    }
  }

  /** What is to come after the current entry does not depend on the entry. */
  lemma AfterSame(w: World, skip: Event -> bool, rows: seq<seq<Node>>, x: Node)
    requires w.Valid() && rows != [] && forall i :: 0 <= i < |rows| ==> rows[i] != []
    ensures After(w, skip, rows[|rows| - 1 := rows[|rows| - 1][0 := x]]) == After(w, skip, rows)
  {
    var top := |rows| - 1;
    var rows' := rows[top := rows[top][0 := x]];
    assert rows'[..top] == rows[..top] && rows'[top][1..] == rows[top][1..];
  }

  lemma FutureSkip(w: World, skip: Event -> bool, rows: seq<seq<Node>>, x: Node)
    requires w.Valid() && Sound(w, rows)
    requires var y := rows[|rows| - 1][0];
      y.info == D && x == y.(info := DP) && skip(Event(D, y.path, y.name, |rows| - 1))
    ensures Future(w, skip, rows)
         == [Event(DP, x.path, x.name, |rows| - 1)] + Future(w, skip, rows[|rows| - 1 := rows[|rows| - 1][0 := x]])
  {
    Enterable(w, rows);
    AfterSame(w, skip, rows, x);
  }

  /** An open directory is one of the file system's, and not among its own ancestors. */
  lemma Enterable(w: World, rows: seq<seq<Node>>)
    requires w.Valid() && Sound(w, rows) && rows[|rows| - 1][0].info == D
    ensures var x := rows[|rows| - 1][0]; x.id in w.dirs && x.id !in Ids(rows[..|rows| - 1])
  {
    assert SoundRow(w, rows, |rows| - 1);
  }

  /** No directory stands twice on the path descended, so that the descent is at most as deep as there are
      directories. */
  lemma DescentDistinct(w: World, rows: seq<seq<Node>>)
    requires w.Valid() && Sound(w, rows)
    ensures forall i, j :: 0 <= i < j < |rows| && rows[j][0].info == D ==> rows[i][0].id != rows[j][0].id
    ensures |rows| - 1 <= |w.dirs|
  {
    forall j | 0 <= j < |rows| && rows[j][0].info == D
      ensures rows[j][0].id in w.dirs && forall i :: 0 <= i < j ==> rows[i][0].id != rows[j][0].id
    {
      assert SoundRow(w, rows, j);
      var above := Ids(rows[..j]);
      assert forall i :: 0 <= i < j ==> above[i] == rows[i][0].id && above[i] in above;
    }
    DistinctFit(seq(|rows| - 1, i requires 0 <= i < |rows| - 1 => rows[i][0].id), w.dirs);
  }

  lemma {:induction false} DistinctFit<T>(s: seq<T>, all: set<T>)
    requires (forall i :: 0 <= i < |s| ==> s[i] in all) && forall i, j :: 0 <= i < j < |s| ==> s[i] != s[j]
    ensures |s| <= |all|
  {
    if s != [] {
      DistinctFit(s[1..], all - {s[0]});
    }
  }

  lemma OnPath(mem: Memory, rows: seq<seq<Node>>, rootParent: nat, i: nat)
    requires Threaded(mem, rows, rootParent) && i < |rows|
    ensures var x := rows[i][0];
      && x.addr in mem && mem[x.addr].level == i
      && (x.info != INIT ==> mem[x.addr].parent == ParentOf(rows, i, rootParent))
      && (x.info == D ==> mem[x.addr].id == x.id && mem[x.addr].errno == 0)
      && mem[x.addr].info == x.info && mem[x.addr].name == x.name
      && (i > 0 ==> mem[x.addr].pathlen == |x.path|)
  {
    assert RowAt(mem, rows[i], i, ParentOf(rows, i, rootParent));
    assert NodeAt(mem, rows[i][0], i, ParentOf(rows, i, rootParent));
  }
}
