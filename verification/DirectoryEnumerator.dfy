/** wi-directory-enumerator.c: the visible entries below a directory, as a filter over the file-tree walk. */
module DirectoryEnumerator {
  import opened Basics
  import opened FtsSpec
  import opened Fts

  /** What wi_directory_enumerator_get_next_path reports, other than the end. */
  datatype Found = Path(path: string) | Error(path: string)

  predicate Hidden(e: Event) {
    e.level > 0 && e.name != "" && e.name[0] == '.'
  }

  /** The directories whose contents are skipped: hidden ones, and those the caller asks to skip. */
  ghost function Policy(prune: Event -> bool): Event -> bool {
    e => Hidden(e) || (e.level > 0 && prune(e))
  }

  lemma PolicyIs(prune: Event -> bool, e: Event)
    ensures Policy(prune)(e) == (Hidden(e) || (e.level > 0 && prune(e)))
  {
  }

  /** What the enumerator makes of one event of the walk. */
  function Report(e: Event): seq<Found> {
    if e.level == 0 || Hidden(e) then []
    else match e.info
      case DC => [Error(e.path)]
      case DNR => [Error(e.path)]
      case ERR => [Error(e.path)]
      case DP => []
      case _ => [Path(e.path)]
  }

  ghost function Reports(events: seq<Event>): seq<Found> {
    if events == [] then [] else Report(events[0]) + Reports(events[1..])
  }

  // ----- what a directory holds, by recursion over the file system alone -----

  /** The entries at and below path: nothing hidden, each directory before its contents, a directory met
      again among its own ancestors reported as an error instead of entered. */
  ghost function Show(w: World, prune: Event -> bool, ancestors: seq<Id>, path: string, name: string, level: nat): seq<Found>
    requires w.Valid()
    decreases Room(w, ancestors), 0, 1
  {
    if level > 0 && name != "" && name[0] == '.' then []
    else
      var (info, id) := Classify(w, ancestors, path);
      if info == D then (if level == 0 then [] else [Path(path)]) + ShowInside(w, prune, ancestors, id, path, name, level)
      else if level == 0 then []
      else if info == DC then [Error(path)] else [Path(path)]
  }

  ghost function ShowInside(w: World, prune: Event -> bool, ancestors: seq<Id>, id: Id, path: string, name: string,
                            level: nat): seq<Found>
    requires w.Valid() && id in w.dirs && id !in ancestors
    decreases Room(w, ancestors), 0, 0
  {
    if level > 0 && prune(Event(D, path, name, level)) then []
    else if w.list(path).Unreadable? then if level == 0 then [] else [Error(path)]
    else
      RoomShrinks(w, ancestors, id);
      ShowKids(w, prune, ancestors + [id], path, Kids(w.list(path).names), level + 1)
  }

  ghost function ShowKids(w: World, prune: Event -> bool, ancestors: seq<Id>, dir: string, kids: seq<string>,
                          level: nat): seq<Found>
    requires w.Valid()
    decreases Room(w, ancestors), |kids|, 2
  {
    if kids == [] then []
    else
      Show(w, prune, ancestors, Join(dir, kids[0]), kids[0], level) + ShowKids(w, prune, ancestors, dir, kids[1..], level)
  }

  // ----- the filter over the walk is that recursion -----

  lemma {:induction false} ReportsConcat(a: seq<Event>, b: seq<Event>)
    ensures Reports(a + b) == Reports(a) + Reports(b)
  {
    if a == [] {
      assert a + b == b;
    } else {
      assert (a + b)[1..] == a[1..] + b;
      ReportsConcat(a[1..], b);
    }
  }

  lemma ReportsOne(e: Event)
    ensures Reports([e]) == Report(e)
  {
  }

  lemma {:induction false} VisitShows(w: World, prune: Event -> bool, ancestors: seq<Id>, path: string, name: string, level: nat)
    requires w.Valid()
    ensures Reports(Visit(w, Policy(prune), ancestors, path, name, level)) == Show(w, prune, ancestors, path, name, level)
    decreases Room(w, ancestors), 0, 1
  {
    hide Reports, Inside, ShowInside;
    var (info, id) := Classify(w, ancestors, path);
    var e := Event(info, path, name, level);
    ReportsOne(e);
    if info == D {
      InsideShows(w, prune, ancestors, id, path, name, level);
      ReportsConcat([e], Inside(w, Policy(prune), ancestors, id, path, name, level));
    } else {
      assert [e] + [] == [e];
    }
  }

  lemma {:induction false} InsideShows(w: World, prune: Event -> bool, ancestors: seq<Id>, id: Id, path: string, name: string,
                                       level: nat)
    requires w.Valid() && id in w.dirs && id !in ancestors
    ensures Reports(Inside(w, Policy(prune), ancestors, id, path, name, level))
         == if Hidden(Event(D, path, name, level)) then [] else ShowInside(w, prune, ancestors, id, path, name, level)
    decreases Room(w, ancestors), 0, 0
  {
    hide Reports, VisitKids, ShowKids, Kids;
    ReportsOne(Event(DP, path, name, level));
    ReportsOne(Event(DP, Stem(path), name, level));
    ReportsOne(Event(DNR, path, name, level));
    if !Policy(prune)(Event(D, path, name, level)) && w.list(path).Names? {
      var kids := Kids(w.list(path).names);
      RoomShrinks(w, ancestors, id);
      KidsShow(w, prune, ancestors + [id], path, kids, level + 1);
      ReportsConcat(VisitKids(w, Policy(prune), ancestors + [id], path, kids, level + 1), [Event(DP, path, name, level)]);
      ShowNone(w, prune, ancestors + [id], path, level + 1);
    }
  }

  lemma ShowNone(w: World, prune: Event -> bool, ancestors: seq<Id>, dir: string, level: nat)
    requires w.Valid()
    ensures ShowKids(w, prune, ancestors, dir, [], level) == []
  {
  }

  lemma {:induction false} KidsShow(w: World, prune: Event -> bool, ancestors: seq<Id>, dir: string, kids: seq<string>, level: nat)
    requires w.Valid()
    ensures Reports(VisitKids(w, Policy(prune), ancestors, dir, kids, level)) == ShowKids(w, prune, ancestors, dir, kids, level)
    decreases Room(w, ancestors), |kids| + 1
  {
    hide Visit, Show;
    if kids != [] {
      VisitShows(w, prune, ancestors, Join(dir, kids[0]), kids[0], level);
      KidsShow(w, prune, ancestors, dir, kids[1..], level);
      ReportsConcat(Visit(w, Policy(prune), ancestors, Join(dir, kids[0]), kids[0], level),
                    VisitKids(w, Policy(prune), ancestors, dir, kids[1..], level));
    }
  }

  lemma WalkShows(w: World, prune: Event -> bool, root: string)
    requires w.Valid()
    ensures Reports(Walk(w, Policy(prune), [root])) == Show(w, prune, [], root, Basename(root), 0)
  {
    VisitShows(w, prune, [], root, Basename(root), 0);
    var visit := Visit(w, Policy(prune), [], root, Basename(root), 0);
    assert [root][1..] == [];
    assert visit + [] == visit;
  }

  // ----- nothing hidden is ever reported -----

  /** No component after the first begins with a dot. */
  ghost predicate DotFree(below: string) {
    forall i :: 0 <= i < |below| && below[i] == '/' ==> i + 1 < |below| && below[i + 1] != '.'
  }

  ghost predicate Below(root: string, found: Found) {
    exists below {:trigger DotFree(below)} :: DotFree(below) && found.path == Stem(root) + below
  }

  lemma BelowBy(root: string, found: Found, below: string)
    requires DotFree(below) && found.path == Stem(root) + below
    ensures Below(root, found)
  {
  }

  lemma DotFreeJoin(below: string, name: string)
    requires DotFree(below) && GoodName(name) && name[0] != '.'
    ensures DotFree(below + "/" + name)
  {
  }

  /** below is what path has after root; it is empty for the root itself. */
  lemma {:induction false} ShowVisible(w: World, prune: Event -> bool, ancestors: seq<Id>, path: string, name: string,
                                       level: nat, root: string, below: string)
    requires w.Valid() && DotFree(below) && Stem(path) == Stem(root) + below
    requires level > 0 ==> GoodName(name) && path == Stem(path)
    ensures forall f :: f in Show(w, prune, ancestors, path, name, level) ==> Below(root, f)
    decreases Room(w, ancestors), 0, 1
  {
    hide Below, DotFree;
    var (info, id) := Classify(w, ancestors, path);
    if level > 0 {
      BelowBy(root, Path(path), below);
      BelowBy(root, Error(path), below);
    }
    if info == D && w.list(path).Names? {
      RoomShrinks(w, ancestors, id);
      assert GoodListing(w.list(path));
      KidsNames(w.list(path).names);
      KidsVisible(w, prune, ancestors + [id], path, Kids(w.list(path).names), level + 1, root, below);
    }
  }

  lemma {:induction false} KidsVisible(w: World, prune: Event -> bool, ancestors: seq<Id>, dir: string, kids: seq<string>,
                                       level: nat, root: string, below: string)
    requires w.Valid() && DotFree(below) && Stem(dir) == Stem(root) + below && level > 0
    requires forall n :: n in kids ==> GoodName(n)
    ensures forall f :: f in ShowKids(w, prune, ancestors, dir, kids, level) ==> Below(root, f)
    decreases Room(w, ancestors), |kids| + 1
  {
    hide Below, DotFree;
    if kids != [] {
      var name := kids[0];
      assert GoodName(name);
      if name[0] != '.' {
        StemJoin(dir, name);
        DotFreeJoin(below, name);
        assert Join(dir, name) == Stem(root) + (below + "/" + name);
        ShowVisible(w, prune, ancestors, Join(dir, name), name, level, root, below + "/" + name);
      }
      KidsVisible(w, prune, ancestors, dir, kids[1..], level, root, below);
    }
  }

  // ----- nothing is reported twice -----

  lemma {:induction false} ShowUnder(w: World, prune: Event -> bool, ancestors: seq<Id>, path: string, name: string, level: nat)
    requires w.Valid() && Stem(path) == path
    ensures forall f :: f in Show(w, prune, ancestors, path, name, level) ==> Under(path, f.path)
    decreases Room(w, ancestors), 0, 1
  {
    hide Under, ShowKids, Kids;
    var (info, id) := Classify(w, ancestors, path);
    UnderSelf(path);
    if info == D && w.list(path).Names? {
      var kids := Kids(w.list(path).names);
      RoomShrinks(w, ancestors, id);
      KidsGood(w, path);
      ShowKidsUnder(w, prune, ancestors + [id], path, kids, level + 1);
      forall p, k | k in kids && Under(Join(path, k), p)
        ensures Under(path, p)
      {
        UnderJoin(path, k);
        UnderTrans(path, Join(path, k), p);
      }
    }
  }

  lemma {:induction false} ShowKidsUnder(w: World, prune: Event -> bool, ancestors: seq<Id>, dir: string, kids: seq<string>,
                                         level: nat)
    requires w.Valid() && forall n :: n in kids ==> GoodName(n)
    ensures forall f :: f in ShowKids(w, prune, ancestors, dir, kids, level) ==> exists k :: k in kids && Under(Join(dir, k), f.path)
    decreases Room(w, ancestors), |kids| + 1
  {
    hide Under, Show;
    if kids != [] {
      assert kids[0] in kids;
      StemJoin(dir, kids[0]);
      ShowUnder(w, prune, ancestors, Join(dir, kids[0]), kids[0], level);
      ShowKidsUnder(w, prune, ancestors, dir, kids[1..], level);
    }
  }

  /** As long as no directory lists a name twice, no path is reported twice, nor any error. */
  lemma {:induction false} ShowOnce(w: World, prune: Event -> bool, ancestors: seq<Id>, path: string, name: string, level: nat)
    requires w.Valid() && ListsOnce(w)
    ensures Unrepeated(Show(w, prune, ancestors, path, name, level))
    decreases Room(w, ancestors), 0, 1
  {
    hide Under, ShowKids, Kids;
    var (info, id) := Classify(w, ancestors, path);
    if info == D && w.list(path).Names? {
      var kids := Kids(w.list(path).names);
      RoomShrinks(w, ancestors, id);
      KidsGood(w, path);
      KidsAll(w.list(path).names);
      ShowKidsUnder(w, prune, ancestors + [id], path, kids, level + 1);
      ShowKidsOnce(w, prune, ancestors + [id], path, kids, level + 1);
      var below := ShowKids(w, prune, ancestors + [id], path, kids, level + 1);
      forall f | f in below
        ensures f.path != path
      {
        var k :| k in kids && Under(Join(path, k), f.path);
        UnderLonger(path, k, f.path);
      }
      UnrepeatedConcat([Path(path)], below);
    }
  }

  lemma {:induction false} ShowKidsOnce(w: World, prune: Event -> bool, ancestors: seq<Id>, dir: string, kids: seq<string>, level: nat)
    requires w.Valid() && ListsOnce(w) && Unrepeated(kids) && forall n :: n in kids ==> GoodName(n)
    ensures Unrepeated(ShowKids(w, prune, ancestors, dir, kids, level))
    decreases Room(w, ancestors), |kids| + 1
  {
    hide Under, Show;
    if kids != [] {
      var name, rest := kids[0], kids[1..];
      assert name in kids;
      assert forall k :: k in rest ==> k in kids && k != name;
      StemJoin(dir, name);
      ShowUnder(w, prune, ancestors, Join(dir, name), name, level);
      ShowOnce(w, prune, ancestors, Join(dir, name), name, level);
      ShowKidsUnder(w, prune, ancestors, dir, rest, level);
      ShowKidsOnce(w, prune, ancestors, dir, rest, level);
      var first := Show(w, prune, ancestors, Join(dir, name), name, level);
      var more := ShowKids(w, prune, ancestors, dir, rest, level);
      forall f | f in first
        ensures f !in more
      {
        if f in more {
          var k :| k in rest && Under(Join(dir, k), f.path);
          UnderOne(dir, name, k, f.path);
        }
      }
      UnrepeatedConcat(first, more);
    }
  }

  // ----- what is reported, by chains of names -----

  /** A chain of names down from path leads to what is found at its end. On the way nothing is hidden, and every
      directory is read, none of its own ancestors, and below the root not pruned. At the end stands an entry, an
      error if it is a directory again among its ancestors; one that is entered and cannot be read is an error, too. */
  ghost predicate Finds(w: World, prune: Event -> bool, ancestors: seq<Id>, path: string, name: string, level: nat,
                        down: seq<string>, found: Found)
    decreases |down|
  {
    && (level > 0 ==> name == "" || name[0] != '.')
    && if down == [] then
         level > 0 &&
         match w.stat(path)
         case Directory(id) =>
           if id in ancestors then found == Error(path)
           else found == Path(path) || (found == Error(path) && !prune(Event(D, path, name, level)) && w.list(path).Unreadable?)
         case _ => found == Path(path)
       else
         && w.stat(path).Directory? && w.stat(path).id !in ancestors
         && (level > 0 ==> !prune(Event(D, path, name, level)))
         && w.list(path).Names? && down[0] in w.list(path).names && down[0] != "." && down[0] != ".."
         && Finds(w, prune, ancestors + [w.stat(path).id], Join(path, down[0]), down[0], level + 1, down[1..], found)
  }

  ghost predicate IsFound(w: World, prune: Event -> bool, ancestors: seq<Id>, path: string, name: string, level: nat, found: Found) {
    exists down :: Finds(w, prune, ancestors, path, name, level, down, found)
  }

  /** The recursion lists exactly what the chains lead to. */
  lemma {:induction false} ShowExactly(w: World, prune: Event -> bool, ancestors: seq<Id>, path: string, name: string, level: nat)
    requires w.Valid()
    ensures forall f ::
      f in Show(w, prune, ancestors, path, name, level) <==> IsFound(w, prune, ancestors, path, name, level, f)
    decreases Room(w, ancestors), 0, 1
  {
    hide ShowKids, Kids, IsFound;
    var (info, id) := Classify(w, ancestors, path);
    if info == D && w.list(path).Names? {
      var kids := Kids(w.list(path).names);
      RoomShrinks(w, ancestors, id);
      ShowKidsExactly(w, prune, ancestors + [id], path, kids, level + 1);
      ShowNames(w, prune, ancestors, path, name, level);
    }
    forall f
      ensures f in Show(w, prune, ancestors, path, name, level) <==> IsFound(w, prune, ancestors, path, name, level, f)
    {
      FoundSteps(w, prune, ancestors, path, name, level, f);
    }
  }

  lemma ShowNames(w: World, prune: Event -> bool, ancestors: seq<Id>, path: string, name: string, level: nat)
    requires w.Valid() && Classify(w, ancestors, path).0 == D && w.list(path).Names?
    ensures level > 0 && name != "" && name[0] == '.' ==> Show(w, prune, ancestors, path, name, level) == []
    ensures !(level > 0 && name != "" && name[0] == '.') ==>
      var below := if level > 0 && prune(Event(D, path, name, level)) then []
                   else ShowKids(w, prune, ancestors + [Classify(w, ancestors, path).1], path, Kids(w.list(path).names), level + 1);
      Show(w, prune, ancestors, path, name, level) == (if level == 0 then [] else [Path(path)]) + below
  {
    hide ShowKids, Kids;
  }

  /** The same, one step at a time. */
  ghost predicate FoundStep(w: World, prune: Event -> bool, ancestors: seq<Id>, path: string, name: string, level: nat, f: Found) {
    && (level > 0 ==> name == "" || name[0] != '.')
    && match w.stat(path)
       case Directory(id) =>
         if id in ancestors then level > 0 && f == Error(path)
         else
           || (level > 0 && f == Path(path))
           || ((level > 0 ==> !prune(Event(D, path, name, level))) &&
               match w.list(path)
               case Unreadable => level > 0 && f == Error(path)
               case Names(names) =>
                 exists k :: k in Kids(names) && IsFound(w, prune, ancestors + [id], Join(path, k), k, level + 1, f))
       case _ => level > 0 && f == Path(path)
  }

  lemma FoundSteps(w: World, prune: Event -> bool, ancestors: seq<Id>, path: string, name: string, level: nat, f: Found)
    ensures IsFound(w, prune, ancestors, path, name, level, f) <==> FoundStep(w, prune, ancestors, path, name, level, f)
  {
    hide Kids;
    if w.stat(path).Directory? && w.list(path).Names? {
      KidsAll(w.list(path).names);
    }
    if IsFound(w, prune, ancestors, path, name, level, f) {
      var down :| Finds(w, prune, ancestors, path, name, level, down, f);
      if down != [] {
        var id := w.stat(path).id;
        assert Finds(w, prune, ancestors + [id], Join(path, down[0]), down[0], level + 1, down[1..], f);
        assert down[0] in Kids(w.list(path).names);
      }
    }
    if FoundStep(w, prune, ancestors, path, name, level, f) {
      if k :| && w.stat(path).Directory? && w.stat(path).id !in ancestors && w.list(path).Names? && k in Kids(w.list(path).names)
              && (level > 0 ==> !prune(Event(D, path, name, level)))
              && IsFound(w, prune, ancestors + [w.stat(path).id], Join(path, k), k, level + 1, f) {
        var down :| Finds(w, prune, ancestors + [w.stat(path).id], Join(path, k), k, level + 1, down, f);
        assert ([k] + down)[1..] == down;
        assert Finds(w, prune, ancestors, path, name, level, [k] + down, f);
      } else {
        assert Finds(w, prune, ancestors, path, name, level, [], f);
      }
    }
  }

  lemma {:induction false} ShowKidsExactly(w: World, prune: Event -> bool, ancestors: seq<Id>, dir: string, kids: seq<string>, level: nat)
    requires w.Valid()
    ensures forall f ::
      f in ShowKids(w, prune, ancestors, dir, kids, level) <==>
      exists k :: k in kids && IsFound(w, prune, ancestors, Join(dir, k), k, level, f)
    decreases Room(w, ancestors), |kids| + 1
  {
    hide Show, IsFound;
    if kids != [] {
      assert kids == [kids[0]] + kids[1..];
      ShowExactly(w, prune, ancestors, Join(dir, kids[0]), kids[0], level);
      ShowKidsExactly(w, prune, ancestors, dir, kids[1..], level);
    }
  }

  /** What is found lies where the chain leads; it is an error only if a directory stands there. */
  lemma {:induction false} FindsAt(w: World, prune: Event -> bool, ancestors: seq<Id>, path: string, name: string, level: nat,
                                   down: seq<string>, found: Found)
    requires Finds(w, prune, ancestors, path, name, level, down, found)
    ensures found.path == PathDown(path, down) && (found.Error? ==> w.stat(found.path).Directory?)
    decreases |down|
  {
    if down != [] {
      FindsAt(w, prune, ancestors + [w.stat(path).id], Join(path, down[0]), down[0], level + 1, down[1..], found);
    }
  }

  /** Nothing but a directory is ever reported as an error: a file is a path. */
  lemma ErrorsAreDirectories(w: World, prune: Event -> bool, root: string, found: Found)
    requires w.Valid() && found in Show(w, prune, [], root, Basename(root), 0)
    ensures found.Error? ==> w.stat(found.path).Directory?
    ensures !w.stat(found.path).Directory? ==> found == Path(found.path)
  {
    hide Show;
    ShowExactly(w, prune, [], root, Basename(root), 0);
    var down :| Finds(w, prune, [], root, Basename(root), 0, down, found);
    FindsAt(w, prune, [], root, Basename(root), 0, down, found);
  }

  // ----- the enumerator -----

  class Enumerator {
    const fts: Fts
    var ftsent: int

    /** Between two calls the walk stands at its start, at its end, or at the entry last reported. */
    ghost predicate Inv()
      reads this, fts
    {
      && fts.Inv() && (ftsent == NULL || ftsent == fts.cur)
      && (fts.cur != NULL ==>
            fts.cur in fts.mem &&
            if ftsent == NULL then fts.mem[fts.cur].info == INIT && !fts.mem[fts.cur].skip
            else fts.mem[fts.cur].level > 0 && !Hidden(fts.Current()))
    }

    /** All that is still to be reported. */
    ghost function Left(prune: Event -> bool): seq<Found>
      requires Inv()
      reads this, fts
    {
      Reports(fts.Owed(Policy(prune)))
    }

    /** The caller has asked to skip the directory last reported exactly when prune says so. */
    ghost predicate Heeds(prune: Event -> bool)
      requires Inv()
      reads this, fts
    {
      fts.cur != NULL && fts.mem[fts.cur].info == D ==> (fts.mem[fts.cur].skip <==> prune(fts.Current()))
    }

    constructor (w: World)
      requires w.Valid()
      ensures Inv() && fts.world == w && fts.cur == NULL && ftsent == NULL && fresh(fts)
    {
      fts := new Fts(w);
      ftsent := NULL;
    }

    /** wi_directory_enumerator_init_with_path: a path that is empty or names nothing is refused, and the
        stream closed. */
    method InitWithPath(path: string) returns (ok: bool)
      requires Inv() && fts.cur == NULL && ftsent == NULL
      modifies this, fts
      ensures Inv() && ok == (path != "" && !fts.world.stat(path).Missing?)
      ensures ok ==> forall prune :: Heeds(prune) && Left(prune) == Show(fts.world, prune, [], path, Basename(path), 0)
      ensures !ok ==> fts.mem == map[]
    {
      hide Walking, Future, Walk, Show, Reports;
      var errno;
      ok, errno := fts.Open([path]);
      if !ok || errno != 0 {
        fts.Close();
        return false;
      }
      forall prune
        ensures Left(prune) == Show(fts.world, prune, [], path, Basename(path), 0)
      {
        WalkShows(fts.world, prune, path);
      }
    }

    /** wi_directory_enumerator_get_next_path. */
    method GetNextPath(ghost prune: Event -> bool) returns (found: Option<Found>)
      requires Inv() && Heeds(prune)
      modifies this, fts
      ensures Inv() && (fts.cur != NULL ==> !fts.mem[fts.cur].skip)
      ensures match found
        case None => fts.cur == NULL && old(Left(prune)) == []
        case Some(f) => ftsent != NULL && old(Left(prune)) == [f] + Left(prune)
    {
      hide Walking, Future, Reports, Policy;
      ghost var policy := Policy(prune);
      ghost var left := Left(prune);
      if fts.cur != NULL {
        PolicyIs(prune, fts.Current());
      }
      while true
        invariant fts.Inv() && (fts.cur != NULL ==> fts.cur in fts.mem)
        invariant fts.cur != NULL && fts.mem[fts.cur].info == D ==>
          (fts.mem[fts.cur].skip <==> policy(fts.Current()))
        invariant Reports(fts.Owed(policy)) == left
        decreases |fts.Owed(policy)|
      {
        ghost var owed := fts.Owed(policy);
        ftsent := fts.Read(policy);
        if ftsent == NULL {
          assert Reports([]) == [] by { ReportsNone(); }
          return None;
        }
        var e := fts.Current();
        EventReports(e, fts.Owed(policy));
        PolicyIs(prune, e);
        if e.level == 0 {
          continue;
        }
        if e.name != "" && e.name[0] == '.' {
          fts.Skip();
          continue;
        }
        match e.info {
          case DC => return Some(Error(e.path));
          case DNR => return Some(Error(e.path));
          case ERR => return Some(Error(e.path));
          case DP => continue;
          case _ => return Some(Path(e.path));
        }
      }
    }

    /** wi_directory_enumerator_skip_descendents. */
    method SkipDescendents()
      requires Inv()
      modifies fts
      ensures Inv() && (ftsent != NULL && fts.cur != NULL ==> fts.mem[fts.cur].skip)
      ensures fts.cur == old(fts.cur) && (fts.cur != NULL ==> fts.Current() == old(fts.Current()))
      ensures forall prune :: Left(prune) == old(Left(prune))
    {
      hide Walking, Future, Reports;
      if ftsent != NULL {
        fts.Skip();
      }
    }

    /** Closes the stream, wherever the enumeration has come to. */
    method Dealloc()
      requires Inv()
      modifies this, fts
      ensures Inv() && fts.mem == map[]
    {
      hide Walking, Future;
      fts.Close();
      ftsent := NULL;
    }
  }

  lemma ReportsNone()
    ensures Reports([]) == []
  {
  }

  lemma EventReports(e: Event, events: seq<Event>)
    ensures Reports([e] + events) == Report(e) + Reports(events)
  {
  }

  /** A whole enumeration lists what the directory holds, and leaves nothing allocated. */
  method List(w: World, path: string, prune: Event -> bool) returns (ok: bool, found: seq<Found>)
    requires w.Valid()
    ensures ok == (path != "" && !w.stat(path).Missing?)
    ensures ok ==> found == Show(w, prune, [], path, Basename(path), 0)
    ensures ok ==> forall f :: f in found <==> IsFound(w, prune, [], path, Basename(path), 0, f)
  {
    hide IsFound, Walking, Future, Walk, Show, Reports;
    var enumerator := new Enumerator(w);
    found := [];
    ok := enumerator.InitWithPath(path);
    if ok {
      ghost var all := Show(w, prune, [], path, Basename(path), 0);
      ghost var left := all;
      assert enumerator.Left(prune) == all && enumerator.Heeds(prune);
      var next := enumerator.GetNextPath(prune);
      while next != None
        invariant enumerator.Inv() && (enumerator.fts.cur != NULL ==> !enumerator.fts.mem[enumerator.fts.cur].skip)
        invariant next.Some? ==> enumerator.ftsent != NULL
        invariant all == found + if next == None then [] else [next.value] + enumerator.Left(prune)
        decreases if next == None then 0 else 1 + |enumerator.Left(prune)|
      {
        ghost var rest := enumerator.Left(prune);
        assert found + ([next.value] + rest) == (found + [next.value]) + rest;
        found := found + [next.value];
        if enumerator.fts.cur != NULL {
          var e := enumerator.fts.Current();
          if prune(e) {
            enumerator.SkipDescendents();
            assert enumerator.Left(prune) == rest;
          }
        }
        next := enumerator.GetNextPath(prune);
      }
    }
    enumerator.Dealloc();
    ShowExactly(w, prune, [], path, Basename(path), 0);
  }
}
