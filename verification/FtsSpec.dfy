/** What a logical file-tree walk ought to yield, stated without the walker's state. */
module FtsSpec {

  /** st_dev and st_ino. */
  datatype Id = Id(dev: int, ino: int)

  /** stat(2), and lstat(2) where stat fails. */
  datatype Stat = Missing | DanglingLink | Directory(id: Id) | Regular | Symlink | OtherKind

  ghost predicate GoodName(name: string) {
    name != "" && '/' !in name
  }

  ghost predicate GoodListing(l: Listing) {
    l.Names? ==> forall n :: n in l.names ==> GoodName(n)
  }

  datatype Listing = Unreadable | Names(names: seq<string>)

  /** The file system as the walker sees it: what stat and readdir say of each path. Symbolic links to
      directories make paths of any length; the directories they lead to are finitely many. */
  datatype World = World(stat: string -> Stat, list: string -> Listing, dirs: set<Id>) {
    ghost predicate Valid() {
      && (forall p :: stat(p).Directory? ==> stat(p).id in dirs)
      && (forall p :: GoodListing(list(p)))
    }
  }

  datatype Info = INIT | D | DC | DEFAULT | DNR | DOT | DP | ERR | F | NS | SL | SLNONE

  datatype Event = Event(info: Info, path: string, name: string, level: nat)

  const NO_ID := Id(0, 0)

  predicate IsDot(name: string) {
    name == "." || name == ".."
  }

  /** wi_fts_stat: a directory that is one of its own ancestors is a cycle, not a directory. */
  function Classify(w: World, ancestors: seq<Id>, path: string): (Info, Id) {
    match w.stat(path)
    case Missing => (NS, NO_ID)
    case DanglingLink => (SLNONE, NO_ID)
    case Directory(id) => (if id in ancestors then DC else D, id)
    case Regular => (F, NO_ID)
    case Symlink => (SL, NO_ID)
    case OtherKind => (DEFAULT, NO_ID)
  }

  /** A path without its one trailing slash. */
  function Stem(path: string): string {
    if path != "" && path[|path| - 1] == '/' then path[..|path| - 1] else path
  }

  function Join(path: string, name: string): string {
    Stem(path) + "/" + name
  }

  /** The name a root is shown under: what follows its last slash, unless it is "/" itself. */
  function Basename(path: string): string {
    if path == "/" then path else AfterSlash(path)
  }

  function AfterSlash(path: string): string {
    if '/' !in path then path
    else if path[0] == '/' && '/' !in path[1..] then path[1..]
    else AfterSlash(path[1..])
  }

  function Kids(names: seq<string>): seq<string> {
    if names == [] then []
    else (if IsDot(names[0]) then [] else [names[0]]) + Kids(names[1..])
  }

  /** The directories a descent may still enter. */
  ghost function Room(w: World, ancestors: seq<Id>): nat {
    |w.dirs - set id | id in ancestors|
  }

  lemma RoomShrinks(w: World, ancestors: seq<Id>, id: Id)
    requires id in w.dirs && id !in ancestors
    ensures Room(w, ancestors + [id]) < Room(w, ancestors)
  {
    var before := w.dirs - set i | i in ancestors;
    var after := w.dirs - set i | i in ancestors + [id];
    assert after == before - {id};
    assert id in before;
  }

  /** The events of one entry. skip tells of which directories the caller asks to skip the contents. */
  ghost function Visit(w: World, skip: Event -> bool, ancestors: seq<Id>, path: string, name: string, level: nat): seq<Event>
    requires w.Valid()
    decreases Room(w, ancestors), 0, 1
  {
    var (info, id) := Classify(w, ancestors, path);
    [Event(info, path, name, level)]
    + if info == D then Inside(w, skip, ancestors, id, path, name, level) else []
  }

  /** What follows a directory's pre-order event, up to and including its second event. */
  ghost function Inside(w: World, skip: Event -> bool, ancestors: seq<Id>, id: Id, path: string, name: string, level: nat): seq<Event>
    requires w.Valid() && id in w.dirs && id !in ancestors
    decreases Room(w, ancestors), 0, 0
  {
    if skip(Event(D, path, name, level)) then [Event(DP, path, name, level)]
    else if w.list(path).Unreadable? then [Event(DNR, path, name, level)]
    else
      var kids := Kids(w.list(path).names);
      if kids == [] then [Event(DP, Stem(path), name, level)]
      else
        RoomShrinks(w, ancestors, id);
        VisitKids(w, skip, ancestors + [id], path, kids, level + 1) + [Event(DP, path, name, level)]
  }

  ghost function VisitKids(w: World, skip: Event -> bool, ancestors: seq<Id>, dir: string, kids: seq<string>, level: nat): seq<Event>
    requires w.Valid()
    decreases Room(w, ancestors), |kids|, 2
  {
    if kids == [] then []
    else
      Visit(w, skip, ancestors, Join(dir, kids[0]), kids[0], level) + VisitKids(w, skip, ancestors, dir, kids[1..], level)
  }

  /** The whole walk. */
  ghost function Walk(w: World, skip: Event -> bool, roots: seq<string>): seq<Event>
    requires w.Valid()
  {
    if roots == [] then []
    else Visit(w, skip, [], roots[0], Basename(roots[0]), 0) + Walk(w, skip, roots[1..])
  }

  // ----- the walk is finite, and how deep it goes -----

  /** Symbolic-link cycles notwithstanding, no event lies deeper than there are directories. */
  lemma {:induction false} VisitDepth(w: World, skip: Event -> bool, ancestors: seq<Id>, path: string, name: string, level: nat)
    requires w.Valid()
    ensures forall e :: e in Visit(w, skip, ancestors, path, name, level) ==> level <= e.level <= level + Room(w, ancestors)
    decreases Room(w, ancestors), 0
  {
    var (info, id) := Classify(w, ancestors, path);
    if info == D && !skip(Event(D, path, name, level)) && w.list(path).Names? {
      RoomShrinks(w, ancestors, id);
      VisitKidsDepth(w, skip, ancestors + [id], path, Kids(w.list(path).names), level + 1);
    }
  }

  lemma {:induction false} VisitKidsDepth(w: World, skip: Event -> bool, ancestors: seq<Id>, dir: string, kids: seq<string>, level: nat)
    requires w.Valid()
    ensures forall e :: e in VisitKids(w, skip, ancestors, dir, kids, level) ==> level <= e.level <= level + Room(w, ancestors)
    decreases Room(w, ancestors), |kids| + 1
  {
    if kids != [] {
      VisitDepth(w, skip, ancestors, Join(dir, kids[0]), kids[0], level);
      VisitKidsDepth(w, skip, ancestors, dir, kids[1..], level);
    }
  }

  lemma {:induction false} WalkDepth(w: World, skip: Event -> bool, roots: seq<string>)
    requires w.Valid()
    ensures forall e :: e in Walk(w, skip, roots) ==> e.level <= |w.dirs|
  {
    if roots != [] {
      VisitDepth(w, skip, [], roots[0], Basename(roots[0]), 0);
      assert w.dirs - (set i | i in []) == w.dirs;
      WalkDepth(w, skip, roots[1..]);
    }
  }

  // ----- nesting -----

  /** Reading events as brackets: D opens a directory, DP or DNR closes the innermost one open, anything
      else is a leaf in it. Every entry's path is its directory's path joined with its own name; a
      directory is closed under the path it was opened under, save that a root may lose a trailing slash. */
  ghost predicate Bracketed(events: seq<Event>, open: seq<string>, end: seq<string>)
    decreases events
  {
    if events == [] then open == end
    else
      var e := events[0];
      if e.info == DP || e.info == DNR then
        && open != [] && e.level == |open| - 1
        && (e.path == open[|open| - 1] || (e.level == 0 && e.path == Stem(open[0])))
        && Bracketed(events[1..], open[..|open| - 1], end)
      else
        && e.level == |open|
        && (open != [] ==> e.path == Join(open[|open| - 1], e.name))
        && Bracketed(events[1..], if e.info == D then open + [e.path] else open, end)
  }

  lemma {:induction false} KidsNames(names: seq<string>)
    ensures forall n :: n in Kids(names) ==> n in names && !IsDot(n)
  {
    if names != [] {
      KidsNames(names[1..]);
    }
  }

  lemma StemJoin(dir: string, name: string)
    requires GoodName(name)
    ensures Stem(Join(dir, name)) == Join(dir, name)
  {
  }

  lemma {:induction false} BracketedConcat(a: seq<Event>, b: seq<Event>, open: seq<string>, mid: seq<string>, end: seq<string>)
    requires Bracketed(a, open, mid) && Bracketed(b, mid, end)
    ensures Bracketed(a + b, open, end)
    decreases a
  {
    if a == [] {
      assert a + b == b;
    } else {
      assert (a + b)[1..] == a[1..] + b;
      var e := a[0];
      var open' := if e.info == DP || e.info == DNR then open[..|open| - 1]
                   else if e.info == D then open + [e.path] else open;
      BracketedConcat(a[1..], b, open', mid, end);
    }
  }

  /** Every directory opened is closed, after exactly its own contents. */
  lemma {:induction false} VisitBracketed(w: World, skip: Event -> bool, ancestors: seq<Id>, path: string, name: string,
                                          open: seq<string>)
    requires w.Valid() && (open != [] ==> path == Join(open[|open| - 1], name) && GoodName(name))
    ensures Bracketed(Visit(w, skip, ancestors, path, name, |open|), open, open)
    decreases Room(w, ancestors), 0, 1
  {
    var (info, id) := Classify(w, ancestors, path);
    var visit := Visit(w, skip, ancestors, path, name, |open|);
    if info == D {
      if open != [] {
        StemJoin(open[|open| - 1], name);
      }
      InsideBracketed(w, skip, ancestors, id, path, name, open);
      assert visit[1..] == Inside(w, skip, ancestors, id, path, name, |open|);
    } else {
      assert visit[1..] == [];
    }
  }

  lemma {:induction false} InsideBracketed(w: World, skip: Event -> bool, ancestors: seq<Id>, id: Id, path: string,
                                           name: string, open: seq<string>)
    requires w.Valid() && id in w.dirs && id !in ancestors && (open != [] ==> Stem(path) == path)
    ensures Bracketed(Inside(w, skip, ancestors, id, path, name, |open|), open + [path], open)
    decreases Room(w, ancestors), 0, 0
  {
    var within := open + [path];
    assert within[..|within| - 1] == open;
    if !skip(Event(D, path, name, |open|)) && w.list(path).Names? && Kids(w.list(path).names) != [] {
      var kids := Kids(w.list(path).names);
      RoomShrinks(w, ancestors, id);
      assert GoodListing(w.list(path));
      KidsNames(w.list(path).names);
      VisitKidsBracketed(w, skip, ancestors + [id], path, kids, within);
      BracketedConcat(VisitKids(w, skip, ancestors + [id], path, kids, |within|),
                      [Event(DP, path, name, |open|)], within, within, open);
    }
  }

  lemma {:induction false} VisitKidsBracketed(w: World, skip: Event -> bool, ancestors: seq<Id>, dir: string,
                                              kids: seq<string>, open: seq<string>)
    requires w.Valid() && open != [] && dir == open[|open| - 1] && forall n :: n in kids ==> GoodName(n)
    ensures Bracketed(VisitKids(w, skip, ancestors, dir, kids, |open|), open, open)
    decreases Room(w, ancestors), |kids| + 1
  {
    if kids != [] {
      VisitBracketed(w, skip, ancestors, Join(dir, kids[0]), kids[0], open);
      VisitKidsBracketed(w, skip, ancestors, dir, kids[1..], open);
      BracketedConcat(Visit(w, skip, ancestors, Join(dir, kids[0]), kids[0], |open|),
                      VisitKids(w, skip, ancestors, dir, kids[1..], |open|), open, open, open);
    }
  }

  lemma {:induction false} WalkBracketed(w: World, skip: Event -> bool, roots: seq<string>)
    requires w.Valid()
    ensures Bracketed(Walk(w, skip, roots), [], [])
  {
    if roots != [] {
      VisitBracketed(w, skip, [], roots[0], Basename(roots[0]), []);
      WalkBracketed(w, skip, roots[1..]);
      BracketedConcat(Visit(w, skip, [], roots[0], Basename(roots[0]), 0), Walk(w, skip, roots[1..]), [], [], []);
    }
  }

  // ----- what an entry is said to be -----

  /** What an entry is reported as, given what stat says of it and which directories are open around it. */
  ghost predicate KindIs(stat: Stat, open: seq<Id>, info: Info) {
    match stat
    case Missing => info == NS
    case DanglingLink => info == SLNONE
    case Directory(id) => info == (if id in open then DC else D)
    case Regular => info == F
    case Symlink => info == SL
    case OtherKind => info == DEFAULT
  }

  /** Every event but the second of a directory is of the kind that stat of its path dictates; a directory is a
      cycle exactly if it is one of those opened and not yet closed at that point of the events. */
  ghost predicate Kinds(w: World, events: seq<Event>, open: seq<Id>, end: seq<Id>)
    decreases events
  {
    if events == [] then open == end
    else
      var e := events[0];
      if e.info == DP || e.info == DNR then open != [] && Kinds(w, events[1..], open[..|open| - 1], end)
      else
        && KindIs(w.stat(e.path), open, e.info)
        && Kinds(w, events[1..], if e.info == D then open + [w.stat(e.path).id] else open, end)
  }

  lemma {:induction false} KindsConcat(w: World, a: seq<Event>, b: seq<Event>, open: seq<Id>, mid: seq<Id>, end: seq<Id>)
    requires Kinds(w, a, open, mid) && Kinds(w, b, mid, end)
    ensures Kinds(w, a + b, open, end)
    decreases a
  {
    if a == [] {
      assert a + b == b;
    } else {
      assert (a + b)[1..] == a[1..] + b;
      var e := a[0];
      var open' := if e.info == DP || e.info == DNR then open[..|open| - 1]
                   else if e.info == D then open + [w.stat(e.path).id] else open;
      KindsConcat(w, a[1..], b, open', mid, end);
    }
  }

  lemma {:induction false} VisitKinds(w: World, skip: Event -> bool, ancestors: seq<Id>, path: string, name: string, level: nat)
    requires w.Valid()
    ensures Kinds(w, Visit(w, skip, ancestors, path, name, level), ancestors, ancestors)
    decreases Room(w, ancestors), 0, 1
  {
    var (info, id) := Classify(w, ancestors, path);
    var visit := Visit(w, skip, ancestors, path, name, level);
    if info == D {
      InsideKinds(w, skip, ancestors, id, path, name, level);
      assert visit[1..] == Inside(w, skip, ancestors, id, path, name, level);
    } else {
      assert visit[1..] == [];
    }
  }

  lemma {:induction false} InsideKinds(w: World, skip: Event -> bool, ancestors: seq<Id>, id: Id, path: string,
                                       name: string, level: nat)
    requires w.Valid() && id in w.dirs && id !in ancestors
    ensures Kinds(w, Inside(w, skip, ancestors, id, path, name, level), ancestors + [id], ancestors)
    decreases Room(w, ancestors), 0, 0
  {
    var within := ancestors + [id];
    assert within[..|within| - 1] == ancestors;
    if !skip(Event(D, path, name, level)) && w.list(path).Names? && Kids(w.list(path).names) != [] {
      var kids := Kids(w.list(path).names);
      RoomShrinks(w, ancestors, id);
      VisitKidsKinds(w, skip, within, path, kids, level + 1);
      KindsConcat(w, VisitKids(w, skip, within, path, kids, level + 1), [Event(DP, path, name, level)], within, within, ancestors);
    }
  }

  lemma {:induction false} VisitKidsKinds(w: World, skip: Event -> bool, ancestors: seq<Id>, dir: string, kids: seq<string>, level: nat)
    requires w.Valid()
    ensures Kinds(w, VisitKids(w, skip, ancestors, dir, kids, level), ancestors, ancestors)
    decreases Room(w, ancestors), |kids| + 1
  {
    if kids != [] {
      VisitKinds(w, skip, ancestors, Join(dir, kids[0]), kids[0], level);
      VisitKidsKinds(w, skip, ancestors, dir, kids[1..], level);
      KindsConcat(w, Visit(w, skip, ancestors, Join(dir, kids[0]), kids[0], level),
                  VisitKids(w, skip, ancestors, dir, kids[1..], level), ancestors, ancestors, ancestors);
    }
  }

  /** So it is with all events of a walk. */
  lemma {:induction false} WalkKinds(w: World, skip: Event -> bool, roots: seq<string>)
    requires w.Valid()
    ensures Kinds(w, Walk(w, skip, roots), [], [])
  {
    if roots != [] {
      VisitKinds(w, skip, [], roots[0], Basename(roots[0]), 0);
      WalkKinds(w, skip, roots[1..]);
      KindsConcat(w, Visit(w, skip, [], roots[0], Basename(roots[0]), 0), Walk(w, skip, roots[1..]), [], [], []);
    }
  }

  /** When exactly a root directory is closed under the very path it was given as: an empty one loses its
      trailing slash, and "/" even its whole path. */
  lemma RootClosedAs(w: World, skip: Event -> bool, root: string)
    requires w.Valid() && root != "" && Classify(w, [], root).0 == D
    ensures var visit := Visit(w, skip, [], root, Basename(root), 0);
      && |visit| >= 2 && visit[0].path == root
      && (visit[|visit| - 1].path != root <==>
            && root[|root| - 1] == '/' && !skip(visit[0])
            && w.list(root).Names? && Kids(w.list(root).names) == [])
  {
    var inside := Inside(w, skip, [], Classify(w, [], root).1, root, Basename(root), 0);
    assert Visit(w, skip, [], root, Basename(root), 0) == [Event(D, root, Basename(root), 0)] + inside;
    assert Stem(root) != root <==> root[|root| - 1] == '/';
    assert inside[|inside| - 1].path == root || inside == [Event(DP, Stem(root), Basename(root), 0)];
  }

  /** An empty "/" is closed under no path at all. */
  lemma EmptyRootClosed()
    ensures var w := World(p => if p == "/" then Directory(Id(1, 2)) else Missing, p => Names([]), {Id(1, 2)});
      w.Valid() && Visit(w, _ => false, [], "/", Basename("/"), 0) == [Event(D, "/", "/", 0), Event(DP, "", "/", 0)]
  {
    var w := World(p => if p == "/" then Directory(Id(1, 2)) else Missing, p => Names([]), {Id(1, 2)});
    assert Stem("/") == "";
    assert Inside(w, _ => false, [], Id(1, 2), "/", "/", 0) == [Event(DP, "", "/", 0)];
  }

  // ----- each entry once -----

  ghost predicate Unrepeated<T>(s: seq<T>) {
    forall i, j :: 0 <= i < j < |s| ==> s[i] != s[j]
  }

  /** No directory lists a name twice. */
  ghost predicate ListsOnce(w: World) {
    forall p :: w.list(p).Names? ==> Unrepeated(w.list(p).names)
  }

  /** The paths of entries met for the first time, in the order in which they are. */
  ghost function Met(events: seq<Event>): seq<string> {
    if events == [] then []
    else (if events[0].info == DP || events[0].info == DNR then [] else [events[0].path]) + Met(events[1..])
  }

  /** Where a chain of names leads down from a path. */
  function PathDown(path: string, down: seq<string>): string
    decreases |down|
  {
    if down == [] then path else PathDown(Join(path, down[0]), down[1..])
  }

  /** The chain can be gone down: each entry on the way but the last is a directory, is none of its own
      ancestors, is not skipped and can be read, and lists the next name. */
  ghost predicate Leads(w: World, skip: Event -> bool, ancestors: seq<Id>, path: string, name: string, level: nat, down: seq<string>)
    decreases |down|
  {
    down == [] ||
      (&& w.stat(path).Directory? && w.stat(path).id !in ancestors && !skip(Event(D, path, name, level))
       && w.list(path).Names? && down[0] in w.list(path).names && down[0] != "." && down[0] != ".."
       && Leads(w, skip, ancestors + [w.stat(path).id], Join(path, down[0]), down[0], level + 1, down[1..]))
  }

  lemma {:induction false} MetConcat(a: seq<Event>, b: seq<Event>)
    ensures Met(a + b) == Met(a) + Met(b)
  {
    if a == [] {
      assert a + b == b;
    } else {
      assert (a + b)[1..] == a[1..] + b;
      MetConcat(a[1..], b);
    }
  }

  lemma MetOne(e: Event)
    ensures Met([e]) == if e.info == DP || e.info == DNR then [] else [e.path]
  {
  }

  lemma {:induction false} KidsAll(names: seq<string>)
    ensures forall n :: n in Kids(names) <==> n in names && !IsDot(n)
    ensures Unrepeated(names) ==> Unrepeated(Kids(names))
  {
    if names != [] {
      KidsAll(names[1..]);
      assert names == [names[0]] + names[1..];
    }
  }

  /** p is q, or lies below it. */
  ghost predicate Under(q: string, p: string) {
    |q| <= |p| && p[..|q|] == q && (|p| > |q| ==> p[|q|] == '/')
  }

  lemma UnderTrans(q: string, r: string, p: string)
    requires Under(q, r) && Under(r, p)
    ensures Under(q, p)
  {
    assert p[..|q|] == p[..|r|][..|q|];
  }

  lemma UnderJoin(dir: string, name: string)
    requires GoodName(name) && Stem(dir) == dir
    ensures Under(dir, Join(dir, name))
  {
  }

  /** Nothing lies below two entries of one directory. */
  lemma UnderOne(dir: string, name: string, other: string, p: string)
    requires GoodName(name) && GoodName(other) && Under(Join(dir, name), p) && Under(Join(dir, other), p)
    ensures name == other
  {
    var n := |Stem(dir)| + 1;
    var q, r := Join(dir, name), Join(dir, other);
    assert forall k :: n <= k < |q| ==> p[k] == p[..|q|][k] && p[k] == name[k - n] && p[k] in name;
    assert forall k :: n <= k < |r| ==> p[k] == p[..|r|][k] && p[k] == other[k - n] && p[k] in other;
    assert |q| == |r|;
    assert q[n..] == name && r[n..] == other;
  }

  lemma UnrepeatedConcat<T>(a: seq<T>, b: seq<T>)
    requires Unrepeated(a) && Unrepeated(b) && forall x :: x in a ==> x !in b
    ensures Unrepeated(a + b)
  {
    forall i, j | 0 <= i < j < |a + b|
      ensures (a + b)[i] != (a + b)[j]
    {
      assert i < |a| ==> (a + b)[i] in a;
      assert j >= |a| ==> (a + b)[j] in b;
    }
  }

  /** Whatever is met below an entry lies below its path. */
  lemma {:induction false} VisitUnder(w: World, skip: Event -> bool, ancestors: seq<Id>, path: string, name: string, level: nat)
    requires w.Valid() && Stem(path) == path
    ensures forall p :: p in Met(Visit(w, skip, ancestors, path, name, level)) ==> Under(path, p)
    decreases Room(w, ancestors), 0, 1
  {
    hide Met, Under, VisitKids, Kids;
    VisitMet(w, skip, ancestors, path, name, level);
    UnderSelf(path);
    var (info, id) := Classify(w, ancestors, path);
    if info == D && !skip(Event(D, path, name, level)) && w.list(path).Names? {
      var kids := Kids(w.list(path).names);
      RoomShrinks(w, ancestors, id);
      KidsGood(w, path);
      KidsUnder(w, skip, ancestors + [id], path, kids, level + 1);
      forall k | k in kids
        ensures Under(path, Join(path, k))
      {
        UnderJoin(path, k);
      }
      forall p, k | k in kids && Under(Join(path, k), p)
        ensures Under(path, p)
      {
        UnderTrans(path, Join(path, k), p);
      }
    }
  }

  lemma UnderSelf(path: string)
    ensures Under(path, path)
  {
  }

  lemma KidsGood(w: World, path: string)
    requires w.Valid() && w.list(path).Names?
    ensures forall n :: n in Kids(w.list(path).names) ==> GoodName(n)
  {
    assert GoodListing(w.list(path));
    KidsNames(w.list(path).names);
  }

  /** What a visit meets: the entry, and its contents if it is gone into. */
  lemma VisitMet(w: World, skip: Event -> bool, ancestors: seq<Id>, path: string, name: string, level: nat)
    requires w.Valid()
    ensures var (info, id) := Classify(w, ancestors, path);
      Met(Visit(w, skip, ancestors, path, name, level))
      == [path] + if info == D && !skip(Event(D, path, name, level)) && w.list(path).Names?
                  then Met(VisitKids(w, skip, ancestors + [id], path, Kids(w.list(path).names), level + 1)) else []
  {
    hide Met, VisitKids, Kids;
    var (info, id) := Classify(w, ancestors, path);
    MetOne(Event(info, path, name, level));
    MetOne(Event(DP, path, name, level));
    MetOne(Event(DP, Stem(path), name, level));
    MetOne(Event(DNR, path, name, level));
    MetNone(w, skip, ancestors + [id], path, level + 1);
    if info == D {
      MetConcat([Event(info, path, name, level)], Inside(w, skip, ancestors, id, path, name, level));
      if !skip(Event(D, path, name, level)) && w.list(path).Names? {
        MetConcat(VisitKids(w, skip, ancestors + [id], path, Kids(w.list(path).names), level + 1),
                  [Event(DP, path, name, level)]);
      }
    } else {
      MetConcat([Event(info, path, name, level)], []);
    }
  }

  lemma MetNone(w: World, skip: Event -> bool, ancestors: seq<Id>, dir: string, level: nat)
    requires w.Valid()
    ensures Met([]) == [] && Met(VisitKids(w, skip, ancestors, dir, [], level)) == []
  {
  }

  lemma MetKids(w: World, skip: Event -> bool, ancestors: seq<Id>, dir: string, kids: seq<string>, level: nat)
    requires w.Valid() && kids != []
    ensures Met(VisitKids(w, skip, ancestors, dir, kids, level))
         == Met(Visit(w, skip, ancestors, Join(dir, kids[0]), kids[0], level))
            + Met(VisitKids(w, skip, ancestors, dir, kids[1..], level))
  {
    hide Met, Visit;
    MetConcat(Visit(w, skip, ancestors, Join(dir, kids[0]), kids[0], level),
              VisitKids(w, skip, ancestors, dir, kids[1..], level));
  }

  lemma {:induction false} KidsUnder(w: World, skip: Event -> bool, ancestors: seq<Id>, dir: string, kids: seq<string>, level: nat)
    requires w.Valid() && forall n :: n in kids ==> GoodName(n)
    ensures forall p :: p in Met(VisitKids(w, skip, ancestors, dir, kids, level)) ==>
      exists k :: k in kids && Under(Join(dir, k), p)
    decreases Room(w, ancestors), |kids| + 1
  {
    hide Met, Under, Visit, VisitKids;
    if kids == [] {
      MetNone(w, skip, ancestors, dir, level);
    } else {
      assert kids[0] in kids;
      MetKids(w, skip, ancestors, dir, kids, level);
      StemJoin(dir, kids[0]);
      VisitUnder(w, skip, ancestors, Join(dir, kids[0]), kids[0], level);
      KidsUnder(w, skip, ancestors, dir, kids[1..], level);
    }
  }

  lemma UnderLonger(dir: string, name: string, p: string)
    requires GoodName(name) && Under(Join(dir, name), p)
    ensures |p| > |dir|
  {
  }

  /** No entry is met twice. */
  lemma {:induction false} VisitOnce(w: World, skip: Event -> bool, ancestors: seq<Id>, path: string, name: string, level: nat)
    requires w.Valid() && ListsOnce(w)
    ensures Unrepeated(Met(Visit(w, skip, ancestors, path, name, level)))
    decreases Room(w, ancestors), 0, 1
  {
    hide Met, Under, VisitKids, Kids;
    VisitMet(w, skip, ancestors, path, name, level);
    var (info, id) := Classify(w, ancestors, path);
    if info == D && !skip(Event(D, path, name, level)) && w.list(path).Names? {
      var kids := Kids(w.list(path).names);
      RoomShrinks(w, ancestors, id);
      KidsGood(w, path);
      KidsAll(w.list(path).names);
      KidsUnder(w, skip, ancestors + [id], path, kids, level + 1);
      KidsOnce(w, skip, ancestors + [id], path, kids, level + 1);
      var below := Met(VisitKids(w, skip, ancestors + [id], path, kids, level + 1));
      forall p | p in below
        ensures p != path
      {
        var k :| k in kids && Under(Join(path, k), p);
        UnderLonger(path, k, p);
      }
      UnrepeatedConcat([path], below);
    }
  }

  lemma {:induction false} KidsOnce(w: World, skip: Event -> bool, ancestors: seq<Id>, dir: string, kids: seq<string>, level: nat)
    requires w.Valid() && ListsOnce(w) && Unrepeated(kids) && forall n :: n in kids ==> GoodName(n)
    ensures Unrepeated(Met(VisitKids(w, skip, ancestors, dir, kids, level)))
    decreases Room(w, ancestors), |kids| + 1
  {
    hide Met, Under, Visit, VisitKids;
    if kids == [] {
      MetNone(w, skip, ancestors, dir, level);
    } else {
      var name, rest := kids[0], kids[1..];
      assert name in kids;
      assert forall k :: k in rest ==> k in kids && k != name;
      MetKids(w, skip, ancestors, dir, kids, level);
      StemJoin(dir, name);
      VisitUnder(w, skip, ancestors, Join(dir, name), name, level);
      VisitOnce(w, skip, ancestors, Join(dir, name), name, level);
      KidsUnder(w, skip, ancestors, dir, rest, level);
      KidsOnce(w, skip, ancestors, dir, rest, level);
      var first := Met(Visit(w, skip, ancestors, Join(dir, name), name, level));
      var more := Met(VisitKids(w, skip, ancestors, dir, rest, level));
      forall p | p in first
        ensures p !in more
      {
        if p in more {
          var k :| k in rest && Under(Join(dir, k), p);
          UnderOne(dir, name, k, p);
        }
      }
      UnrepeatedConcat(first, more);
    }
  }

  /** Met are the paths some chain leads to. */
  ghost predicate Reached(w: World, skip: Event -> bool, ancestors: seq<Id>, path: string, name: string, level: nat, p: string) {
    exists down :: Leads(w, skip, ancestors, path, name, level, down) && PathDown(path, down) == p
  }

  lemma {:induction false} VisitReaches(w: World, skip: Event -> bool, ancestors: seq<Id>, path: string, name: string, level: nat)
    requires w.Valid()
    ensures forall p :: p in Met(Visit(w, skip, ancestors, path, name, level)) <==> Reached(w, skip, ancestors, path, name, level, p)
    decreases Room(w, ancestors), 0, 1
  {
    hide Met, VisitKids, Kids, Reached;
    VisitMet(w, skip, ancestors, path, name, level);
    var (info, id) := Classify(w, ancestors, path);
    if info == D && !skip(Event(D, path, name, level)) && w.list(path).Names? {
      var names := w.list(path).names;
      RoomShrinks(w, ancestors, id);
      KidsAll(names);
      KidsReach(w, skip, ancestors + [id], path, Kids(names), level + 1);
      forall p
        ensures Reached(w, skip, ancestors, path, name, level, p)
          <==> p == path || exists k :: k in Kids(names) && Reached(w, skip, ancestors + [id], Join(path, k), k, level + 1, p)
      {
        ReachedStep(w, skip, ancestors, path, name, level, p);
      }
    } else {
      forall p
        ensures Reached(w, skip, ancestors, path, name, level, p) <==> p == path
      {
        ReachedLeaf(w, skip, ancestors, path, name, level, p);
      }
    }
  }

  lemma ReachedLeaf(w: World, skip: Event -> bool, ancestors: seq<Id>, path: string, name: string, level: nat, p: string)
    requires !(Classify(w, ancestors, path).0 == D && !skip(Event(D, path, name, level)) && w.list(path).Names?)
    ensures Reached(w, skip, ancestors, path, name, level, p) <==> p == path
  {
    assert Leads(w, skip, ancestors, path, name, level, []) && PathDown(path, []) == path;
  }

  lemma ReachedStep(w: World, skip: Event -> bool, ancestors: seq<Id>, path: string, name: string, level: nat, p: string)
    requires Classify(w, ancestors, path).0 == D && !skip(Event(D, path, name, level)) && w.list(path).Names?
    ensures var id := Classify(w, ancestors, path).1;
      Reached(w, skip, ancestors, path, name, level, p)
      <==> p == path || exists k :: k in Kids(w.list(path).names) && Reached(w, skip, ancestors + [id], Join(path, k), k, level + 1, p)
  {
    var id := Classify(w, ancestors, path).1;
    KidsAll(w.list(path).names);
    assert Leads(w, skip, ancestors, path, name, level, []) && PathDown(path, []) == path;
    hide Kids;
    if Reached(w, skip, ancestors, path, name, level, p) && p != path {
      var down :| Leads(w, skip, ancestors, path, name, level, down) && PathDown(path, down) == p;
      assert Leads(w, skip, ancestors + [id], Join(path, down[0]), down[0], level + 1, down[1..]);
      assert down[0] in Kids(w.list(path).names);
    }
    forall k | k in Kids(w.list(path).names) && Reached(w, skip, ancestors + [id], Join(path, k), k, level + 1, p)
      ensures Reached(w, skip, ancestors, path, name, level, p)
    {
      var down :| Leads(w, skip, ancestors + [id], Join(path, k), k, level + 1, down) && PathDown(Join(path, k), down) == p;
      assert ([k] + down)[1..] == down;
      assert Leads(w, skip, ancestors, path, name, level, [k] + down) && PathDown(path, [k] + down) == p;
    }
  }

  lemma {:induction false} KidsReach(w: World, skip: Event -> bool, ancestors: seq<Id>, dir: string, kids: seq<string>, level: nat)
    requires w.Valid()
    ensures forall p ::
      p in Met(VisitKids(w, skip, ancestors, dir, kids, level)) <==>
      exists k :: k in kids && Reached(w, skip, ancestors, Join(dir, k), k, level, p)
    decreases Room(w, ancestors), |kids| + 1
  {
    hide Met, Visit, VisitKids, Reached;
    if kids == [] {
      MetNone(w, skip, ancestors, dir, level);
    } else {
      assert kids == [kids[0]] + kids[1..];
      MetKids(w, skip, ancestors, dir, kids, level);
      VisitReaches(w, skip, ancestors, Join(dir, kids[0]), kids[0], level);
      KidsReach(w, skip, ancestors, dir, kids[1..], level);
    }
  }

  /** The walk of a root meets exactly the paths that chains of names lead to, and, as long as no directory lists
      a name twice, each of them once. */
  lemma WalkMeets(w: World, skip: Event -> bool, root: string)
    requires w.Valid()
    ensures forall p :: p in Met(Walk(w, skip, [root])) <==> Reached(w, skip, [], root, Basename(root), 0, p)
    ensures ListsOnce(w) ==> Unrepeated(Met(Walk(w, skip, [root])))
  {
    hide Met, Visit, Reached;
    var visit := Visit(w, skip, [], root, Basename(root), 0);
    assert [root][1..] == [];
    assert Walk(w, skip, [root]) == visit by { assert visit + [] == visit; }
    VisitReaches(w, skip, [], root, Basename(root), 0);
    if ListsOnce(w) {
      VisitOnce(w, skip, [], root, Basename(root), 0);
    }
  }

  // ----- paths and names -----

  /** Going down from a path puts a slash and a name behind it for each step; a trailing slash serves for the first. */
  ghost function Slashed(down: seq<string>): string {
    if down == [] then "" else "/" + down[0] + Slashed(down[1..])
  }

  lemma {:induction false} PathDownIs(path: string, down: seq<string>)
    requires forall n :: n in down ==> GoodName(n)
    ensures down != [] ==> PathDown(path, down) == Stem(path) + Slashed(down)
    ensures path == "" || path[|path| - 1] != '/' ==> Stem(path) == path
    ensures Stem(path + "/") == path
    decreases |down|
  {
    assert (path + "/")[..|path|] == path;
    if down != [] {
      var next := Join(path, down[0]);
      assert down[0] in down;
      PathDownIs(next, down[1..]);
      StemJoin(path, down[0]);
      assert Stem(path) + ("/" + down[0] + Slashed(down[1..])) == next + Slashed(down[1..]);
    }
  }

  /** A root is called by what stands behind its last slash; "/" is called "/". */
  lemma {:induction false} BasenameIs(dir: string, base: string)
    requires '/' !in base
    ensures Basename(base) == base && Basename("/") == "/"
    ensures dir + base != "" ==> Basename(dir + "/" + base) == base
    decreases |dir|
  {
    var path := dir + "/" + base;
    if dir == "" {
      assert path == ['/'] + base && path[1..] == base;
    } else {
      assert path[1..] == dir[1..] + "/" + base;
      assert path[|dir|] == '/' && path[1..][|dir| - 1] == '/';
      AfterSlashIs(dir, base);
    }
  }

  lemma {:induction false} AfterSlashIs(dir: string, base: string)
    requires '/' !in base
    ensures AfterSlash(dir + "/" + base) == base
    decreases |dir|
  {
    var path := dir + "/" + base;
    assert path[|dir|] == '/';
    if dir == "" {
      assert path == ['/'] + base && path[1..] == base;
    } else {
      assert path[1..] == dir[1..] + "/" + base;
      assert path[1..][|dir| - 1] == '/';
      AfterSlashIs(dir[1..], base);
    }
  }
}
