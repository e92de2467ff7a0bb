/** Path normalisation, wi-string.c: components are taken out of an array in place, by an unsigned index. */
module Paths {
  import opened Strings

  /** wi_uinteger_t is 64 bits wide, and wraps. */
  const WORD: int := 0x1_0000_0000_0000_0000

  function Wrap(i: int): nat {
    i % WORD
  }

  function NonEmpty(pieces: seq<string>): seq<string> {
    if pieces == [] then []
    else (if pieces[0] == "" then [] else [pieces[0]]) + NonEmpty(pieces[1..])
  }

  /** What stands between the slashes, a leading slash being a component of its own. */
  function Components(path: string): seq<string> {
    var pieces := Split(path, "/");
    [if pieces[0] == "" then "/" else pieces[0]] + NonEmpty(pieces[1..])
  }

  /** _wi_string_path_components. */
  method PathComponents(path: string) returns (kept: seq<string>)
    requires CString(path)
    ensures kept == Components(path)
  {
    hide Components, NonEmpty, Split;
    var components := ComponentsSeparatedBy(path, "/");
    kept := [];
    var i := 0;
    while i < |components|
      invariant 0 <= i <= |components|
      invariant i == 0 ==> kept == []
      invariant i > 0 ==> Components(path) == kept + NonEmpty(components[i..])
    {
      NextComponents(path, components, i, kept);
      if |components[i]| > 0 {
        kept := kept + [components[i]];
      } else if i == 0 {
        kept := kept + ["/"];
      }
      i := i + 1;
    }
    NoComponents(components[i..], kept);
  }

  lemma NextComponents(path: string, pieces: seq<string>, i: nat, kept: seq<string>)
    requires pieces == Split(path, "/") && i < |pieces|
    requires if i == 0 then kept == [] else Components(path) == kept + NonEmpty(pieces[i..])
    ensures Components(path)
         == (kept + if pieces[i] != "" then [pieces[i]] else if i == 0 then ["/"] else []) + NonEmpty(pieces[i + 1..])
  {
    hide Split;
    if i > 0 {
      var first := if pieces[i] != "" then [pieces[i]] else [];
      assert pieces[i..][1..] == pieces[i + 1..];
      assert NonEmpty(pieces[i..]) == first + NonEmpty(pieces[i + 1..]);
      hide NonEmpty;
      assert kept + (first + NonEmpty(pieces[i + 1..])) == (kept + first) + NonEmpty(pieces[i + 1..]);
    }
  }

  lemma NoComponents(none: seq<string>, kept: seq<string>)
    requires none == []
    ensures kept + NonEmpty(none) == kept
  {
  }

  predicate IsAbsolute(path: string) {
    path != "" && path[0] == '/'
  }

  /** One component taken on board: dropped, cancelled against the one before, or kept. */
  function Step(done: seq<string>, c: string, absolute: bool): seq<string> {
    if c == "" || c == "/" || c == "." then done
    else if absolute && c == ".." && done != [] then done[..|done| - 1]
    else done + [c]
  }

  function Steps(done: seq<string>, rest: seq<string>, absolute: bool): seq<string>
    decreases |rest|
  {
    if rest == [] then done else Steps(Step(done, rest[0], absolute), rest[1..], absolute)
  }

  function Normalized(path: string): string {
    if path == "" || path == "/" then path
    else
      var kept := Steps([], Components(path), IsAbsolute(path));
      (if IsAbsolute(path) then "/" else "") + Join(kept, "/")
  }

  // ----- the tilde -----

  /** The directories that getpwnam gives for names of users; the one under "" is that of the user who runs. */
  type Homes = map<string, string>

  function FirstComponent(path: string): string {
    path[..Break(path, "/")]
  }

  /** A path that begins with "~" or "~user", if there is such a user, begins with the home directory instead. */
  function Expanded(path: string, homes: Homes): string {
    if path == "" || path[0] != '~' then path
    else
      var first := FirstComponent(path);
      if first[1..] in homes then homes[first[1..]] + path[|first|..] else path
  }

  lemma FirstOfComponents(path: string)
    ensures Split(path, "/")[0] == FirstComponent(path)
    ensures |FirstComponent(path)| <= |path| && Components(path) != []
    ensures path != "" && path[0] != '/' ==> FirstComponent(path) != "" && Components(path)[0] == FirstComponent(path)
  {
  }

  /** wi_mutable_string_expand_tilde_in_path. */
  method ExpandTilde(path: MutableString, homes: Homes)
    requires CString(path.chars)
    modifies path
    ensures path.chars == Expanded(old(path.chars), homes)
  {
    hide Components, Break, Split;
    if path.chars == "" || path.chars[0] != '~' {
      return;
    }
    var components := PathComponents(path.chars);
    FirstOfComponents(path.chars);
    var first := components[0];
    if first[1..] in homes {
      FrontReplaced(path.chars, |first|, homes[first[1..]]);
      path.DeleteCharactersInRange(0, |first|);
      path.InsertStringAtIndex(homes[first[1..]], 0);
    }
  }

  lemma FrontReplaced(s: string, n: nat, front: string)
    requires n <= |s|
    ensures var rest := s[..0] + s[0 + n..]; rest[..0] + front + rest[0..] == front + s[n..]
  {
  }

  /** What wi_mutable_string_normalize_path makes of a path. */
  function NormalizedAt(path: string, homes: Homes): string {
    Normalized(Expanded(path, homes))
  }

  lemma NormalizedAll(path: string)
    ensures var kept := Steps([], Components(path), IsAbsolute(path));
      Normalized(path) == (if IsAbsolute(path) then "/" else "") + Join(kept, "/")
  {
    if path == "/" {
      SplitSlash("");
      assert Components(path) == ["/"];
    } else if path == "" {
      assert Components(path) == ["/"];
    }
  }

  lemma NormalizedEnds(homes: Homes)
    ensures NormalizedAt("", homes) == "" && NormalizedAt("/", homes) == "/"
  {
  }

  lemma ExpandedPlain(path: string, homes: Homes)
    requires CString(path) && forall name :: name in homes ==> CString(homes[name])
    ensures CString(Expanded(path, homes))
  {
  }

  /** wi_mutable_string_normalize_path. The index may wrap below zero, and wraps back as the loop steps on. */
  method NormalizePath(path: MutableString, homes: Homes)
    requires CString(path.chars) && forall name :: name in homes ==> CString(homes[name])
    requires |Expanded(path.chars, homes)| < WORD - 1
    modifies path
    ensures path.chars == NormalizedAt(old(path.chars), homes)
  {
    hide Reached, Components, NonEmpty, Steps, Join, Wrap, Normalized, Expanded;
    if path.chars == "" || path.chars == "/" {
      NormalizedEnds(homes);
      return;
    }
    ExpandedPlain(path.chars, homes);
    ExpandTilde(path, homes);
    NormalizedAll(path.chars);
    var absolute := IsAbsolute(path.chars);
    var kept := PathComponents(path.chars);
    ComponentsCount(path.chars);
    var i: nat, count: nat := 0, |kept|;
    ghost var all := kept;
    assert Reached(kept, 0, all, absolute) by { ReachedStart(all, absolute); }
    while i < count
      invariant i <= count == |kept| < WORD
      invariant Reached(kept, i, all, absolute)
      decreases count - i
    {
      var component := kept[i];
      if component == "" || component == "/" {
        DropOne(kept, i, all, absolute);
        kept := kept[..i] + kept[i + 1..];
        WrapsBack(i);
        i := Wrap(i - 1);
        count := count - 1;
      } else if component == "." {
        DropOne(kept, i, all, absolute);
        kept := kept[..i] + kept[i + 1..];
        WrapsBack(i);
        i := Wrap(i - 1);
        count := count - 1;
      } else if absolute && component == ".." && i > 0 {
        DropTwo(kept, i, all, absolute);
        kept := kept[..i - 1] + kept[i..];
        kept := kept[..i - 1] + kept[i..];
        WrapsBack(i - 1);
        i := Wrap(i - 2);
        count := count - 2;
      } else {
        KeepOne(kept, i, all, absolute);
        WrapsOn(i);
      }
      i := Wrap(i + 1);
    }
    ReachedEnd(kept, all, absolute);
    var joined := ComponentsJoined(kept, "/");
    path.chars := (if absolute then "/" else "") + joined;
  }

  /** Stepping back from i below zero, if need be, and on by one. */
  lemma WrapsBack(i: nat)
    requires i < WORD
    ensures Wrap(Wrap(i - 1) + 1) == i
  {
  }

  lemma WrapsOn(i: nat)
    requires i + 1 < WORD
    ensures Wrap(i + 1) == i + 1
  {
  }

  /** The loop has come to index i: what is before it is done with, what is after it is still to come. */
  ghost predicate Reached(kept: seq<string>, i: nat, all: seq<string>, absolute: bool) {
    i <= |kept| && Steps(kept[..i], kept[i..], absolute) == Steps([], all, absolute)
  }

  lemma ReachedStart(all: seq<string>, absolute: bool)
    ensures Reached(all, 0, all, absolute)
  {
  }

  lemma DropOne(kept: seq<string>, i: nat, all: seq<string>, absolute: bool)
    requires Reached(kept, i, all, absolute) && i < |kept| && kept[i] in ["", "/", "."]
    ensures Reached(kept[..i] + kept[i + 1..], i, all, absolute) && |kept[..i] + kept[i + 1..]| == |kept| - 1
  {
  }

  lemma DropTwo(kept: seq<string>, i: nat, all: seq<string>, absolute: bool)
    requires Reached(kept, i, all, absolute) && absolute && 0 < i < |kept| && kept[i] == ".."
    ensures var dropped := kept[..i - 1] + kept[i..];
      && |dropped| == |kept| - 1
      && |dropped[..i - 1] + dropped[i..]| == |kept| - 2
      && Reached(dropped[..i - 1] + dropped[i..], i - 1, all, absolute)
  {
    var dropped := kept[..i - 1] + kept[i..];
    var twice := dropped[..i - 1] + dropped[i..];
    assert kept[i..][1..] == kept[i + 1..];
    assert twice[..i - 1] == kept[..i][..i - 1] && twice[i - 1..] == kept[i + 1..];
  }

  lemma KeepOne(kept: seq<string>, i: nat, all: seq<string>, absolute: bool)
    requires Reached(kept, i, all, absolute) && i < |kept| && kept[i] !in ["", "/", "."]
    requires !(absolute && kept[i] == ".." && i > 0)
    ensures Reached(kept, i + 1, all, absolute)
  {
    assert kept[i..][1..] == kept[i + 1..];
    assert kept[..i + 1] == kept[..i] + [kept[i]];
  }

  lemma ReachedEnd(kept: seq<string>, all: seq<string>, absolute: bool)
    requires Reached(kept, |kept|, all, absolute)
    ensures kept == Steps([], all, absolute)
  {
  }

  lemma ComponentsCount(path: string)
    ensures |Components(path)| <= |path| + 1
  {
    SplitLength(path, "/");
    NonEmptyCount(Split(path, "/")[1..]);
  }

  lemma {:induction false} NonEmptyCount(pieces: seq<string>)
    ensures |NonEmpty(pieces)| <= |pieces|
  {
    if pieces != [] {
      NonEmptyCount(pieces[1..]);
    }
  }

  /** Names joined by slashes have those components, behind a leading slash one more; the empty path has "/". */
  lemma ComponentsOfNames(names: seq<string>)
    requires forall n :: n in names ==> n != "" && '/' !in n
    ensures names != [] ==> Components(Join(names, "/")) == names
    ensures Components("/" + Join(names, "/")) == ["/"] + names
    ensures Components("") == ["/"]
  {
    hide Split, Join;
    NonEmptySubset(names);
    SplitSlash(Join(names, "/"));
    assert ["" ] + Split(Join(names, "/"), "/") == Split("/" + Join(names, "/"), "/");
    if names == [] {
      JoinOfNone();
      SplitOfNone();
      assert ["", ""][1..] == [""] && NonEmpty([""]) == [];
    } else {
      SplitJoin(names, '/');
      assert forall n :: n in names[1..] ==> n in names;
      NonEmptySubset(names[1..]);
      assert names[0] in names && ([""] + names)[1..] == names;
      SplitOfNone();
    }
  }

  lemma JoinOfNone()
    ensures Join([], "/") == ""
  {
  }

  lemma SplitOfNone()
    ensures Split("", "/") == [""] && NonEmpty([""][1..]) == []
  {
  }

  // ----- what a path means -----

  /** Where one component leads from a directory, going by names alone; above the root is the root. */
  function Move(dir: seq<string>, c: string): seq<string> {
    if c == "" || c == "/" || c == "." then dir
    else if c != ".." then dir + [c]
    else if dir == [] then [] else dir[..|dir| - 1]
  }

  function Resolve(dir: seq<string>, components: seq<string>): seq<string>
    decreases |components|
  {
    if components == [] then dir else Resolve(Move(dir, components[0]), components[1..])
  }

  /** Where a path leads from the directory cwd. */
  function Meaning(path: string, cwd: seq<string>): seq<string> {
    Resolve(if IsAbsolute(path) then [] else cwd, Split(path, "/"))
  }

  /** Components that name something, and where ".." can only come first if the path is absolute. */
  ghost predicate Normal(components: seq<string>, absolute: bool) {
    && (forall c :: c in components ==> c != "" && c != "/" && c != ".")
    && (absolute ==> forall j :: 1 <= j < |components| ==> components[j] != "..")
  }

  lemma {:induction false} ResolveConcat(dir: seq<string>, a: seq<string>, b: seq<string>)
    ensures Resolve(dir, a + b) == Resolve(Resolve(dir, a), b)
    decreases |a|
  {
    if a == [] {
      assert a + b == b;
    } else {
      assert (a + b)[1..] == a[1..] + b;
      ResolveConcat(Move(dir, a[0]), a[1..], b);
    }
  }

  lemma {:induction false} ResolveNonEmpty(dir: seq<string>, pieces: seq<string>)
    ensures Resolve(dir, NonEmpty(pieces)) == Resolve(dir, pieces)
    decreases |pieces|
  {
    if pieces != [] {
      var first := if pieces[0] == "" then [] else [pieces[0]];
      ResolveConcat(dir, first, NonEmpty(pieces[1..]));
      ResolveNonEmpty(Resolve(dir, first), pieces[1..]);
      assert [pieces[0]][1..] == [];
    }
  }

  lemma ResolveComponents(dir: seq<string>, path: string)
    ensures Resolve(dir, Components(path)) == Resolve(dir, Split(path, "/"))
  {
    var pieces := Split(path, "/");
    var components := Components(path);
    assert components[1..] == NonEmpty(pieces[1..]);
    SlashFree(path);
    assert pieces[0] in pieces;
    ResolveNonEmpty(Move(dir, pieces[0]), pieces[1..]);
  }

  lemma SlashFree(path: string)
    ensures forall p :: p in Split(path, "/") ==> '/' !in p && p != "/"
  {
    SplitFree(path, "/");
    forall p | p in Split(path, "/")
      ensures '/' !in p
    {
    }
  }

  lemma {:induction false} StepsResolve(dir: seq<string>, done: seq<string>, rest: seq<string>, absolute: bool)
    requires Normal(done, absolute) && (absolute ==> dir == [])
    ensures Resolve(dir, Steps(done, rest, absolute)) == Resolve(Resolve(dir, done), rest)
    ensures Normal(Steps(done, rest, absolute), absolute)
    decreases |rest|
  {
    if rest != [] {
      var done' := Step(done, rest[0], absolute);
      StepResolve(dir, done, rest[0], absolute);
      StepsResolve(dir, done', rest[1..], absolute);
      ResolveConcat(Resolve(dir, done), [rest[0]], rest[1..]);
      assert rest == [rest[0]] + rest[1..];
    }
  }

  /** Cancelling ".." against the component before is right, since that is a name, or leads up from the root. */
  lemma StepResolve(dir: seq<string>, done: seq<string>, c: string, absolute: bool)
    requires Normal(done, absolute) && (absolute ==> dir == [])
    ensures Resolve(dir, Step(done, c, absolute)) == Resolve(Resolve(dir, done), [c])
    ensures Normal(Step(done, c, absolute), absolute)
  {
    ResolveConcat(dir, done, [c]);
    ResolveOne(Resolve(dir, done), c);
    if absolute && c == ".." && done != [] {
      CancelLast(done, absolute);
    } else if c != "" && c != "/" && c != "." {
      NormalMore(done, c, absolute);
    }
  }

  lemma ResolveOne(dir: seq<string>, c: string)
    ensures Resolve(dir, [c]) == Move(dir, c)
  {
  }

  lemma NormalMore(done: seq<string>, c: string, absolute: bool)
    requires Normal(done, absolute) && c != "" && c != "/" && c != "." && !(absolute && c == ".." && done != [])
    ensures Normal(done + [c], absolute)
  {
  }

  /** From the root, the last component and ".." after it cancel out. */
  lemma CancelLast(done: seq<string>, absolute: bool)
    requires absolute && Normal(done, absolute) && done != []
    ensures Resolve([], done[..|done| - 1]) == Move(Resolve([], done), "..")
    ensures Normal(done[..|done| - 1], absolute)
  {
    hide Resolve;
    var before, last := done[..|done| - 1], done[|done| - 1];
    assert done == before + [last];
    ResolveConcat([], before, [last]);
    ResolveOne(Resolve([], before), last);
    LastIsName(done);
    if before == [] {
      ResolveNone();
    }
  }

  lemma ResolveNone()
    ensures Resolve([], []) == []
  {
  }

  lemma LastIsName(done: seq<string>)
    requires Normal(done, true) && done != []
    ensures var last := done[|done| - 1]; last != "" && last != "/" && last != "." && (last == ".." ==> |done| == 1)
    ensures Normal(done[..|done| - 1], true)
  {
    var before := done[..|done| - 1];
    assert done[|done| - 1] in done;
    assert forall j :: 0 <= j < |before| ==> before[j] == done[j] && done[j] in done;
  }

  // ----- the theorems -----

  /** Normalising changes nothing about where a path leads, from anywhere. */
  lemma MeaningKept(path: string, cwd: seq<string>)
    ensures Meaning(Normalized(path), cwd) == Meaning(path, cwd)
  {
    if path != "" && path != "/" {
      var dir := if IsAbsolute(path) then [] else cwd;
      var kept := Steps([], Components(path), IsAbsolute(path));
      StepsResolve(dir, [], Components(path), IsAbsolute(path));
      ResolveComponents(dir, path);
      NormalizedSplits(path);
      ResolveEmpty(dir, kept, IsAbsolute(path));
    }
  }

  lemma ResolveEmpty(dir: seq<string>, kept: seq<string>, absolute: bool)
    ensures Resolve(dir, (if absolute then [""] else []) + if kept == [] then [""] else kept) == Resolve(dir, kept)
  {
    ResolveConcat(dir, if absolute then [""] else [], if kept == [] then [""] else kept);
    assert [""][1..] == [] && Resolve(dir, [""]) == dir;
  }

  lemma SplitSlash(s: string)
    ensures Split("/" + s, "/") == [""] + Split(s, "/")
  {
  }

  /** The normalised path splits into the components kept. */
  lemma NormalizedSplits(path: string)
    requires path != "" && path != "/"
    ensures var absolute := IsAbsolute(path); var kept := Steps([], Components(path), absolute);
      && Split(Normalized(path), "/") == (if absolute then [""] else []) + (if kept == [] then [""] else kept)
      && Normal(kept, absolute) && IsAbsolute(Normalized(path)) == absolute
  {
    var absolute := IsAbsolute(path);
    var kept := Steps([], Components(path), absolute);
    var joined := Join(kept, "/");
    StepsResolve([], [], Components(path), absolute);
    StepsSubset([], Components(path), absolute);
    ComponentsFree(path);
    if kept == [] {
      assert joined[..|joined|] == "";
    } else {
      assert kept[0] in kept;
      forall p | p in kept
        ensures '/' !in p
      {
      }
      SplitJoin(kept, '/');
      assert joined[0] == kept[0][0];
    }
    SplitSlash(joined);
    assert "" + joined == joined;
  }

  lemma {:induction false} StepsSubset(done: seq<string>, rest: seq<string>, absolute: bool)
    ensures forall p :: p in Steps(done, rest, absolute) ==> p in done || (p in rest && p != "/")
    decreases |rest|
  {
    if rest != [] {
      StepsSubset(Step(done, rest[0], absolute), rest[1..], absolute);
    }
  }

  lemma ComponentsFree(path: string)
    ensures forall p :: p in Components(path) && p != "/" ==> '/' !in p
  {
    SlashFree(path);
    NonEmptySubset(Split(path, "/")[1..]);
  }

  lemma {:induction false} NonEmptySubset(pieces: seq<string>)
    ensures forall p :: p in NonEmpty(pieces) ==> p in pieces && p != ""
    ensures (forall p :: p in pieces ==> p != "") ==> NonEmpty(pieces) == pieces
  {
    if pieces != [] {
      NonEmptySubset(pieces[1..]);
      assert pieces == [pieces[0]] + pieces[1..] && pieces[0] in pieces;
      assert (forall p :: p in pieces ==> p != "") ==> pieces[0] != "" && forall p :: p in pieces[1..] ==> p in pieces;
    }
  }

  lemma {:induction false} StepsNormal(done: seq<string>, rest: seq<string>, absolute: bool)
    requires Normal(done + rest, absolute)
    ensures Steps(done, rest, absolute) == done + rest
    decreases |rest|
  {
    if rest == [] {
      assert done + rest == done;
    } else {
      assert (done + rest)[|done|] == rest[0] && rest[0] in done + rest;
      assert done + rest == (done + [rest[0]]) + rest[1..];
      StepsNormal(done + [rest[0]], rest[1..], absolute);
    }
  }

  /** A normalised path has for components those kept, behind its leading slash. */
  lemma ComponentsKept(path: string)
    requires path != "" && path != "/" && Steps([], Components(path), IsAbsolute(path)) != []
    ensures var absolute := IsAbsolute(path); var kept := Steps([], Components(path), absolute);
      Components(Normalized(path)) == if absolute then ["/"] + kept else kept
  {
    hide Split, Normalized, Steps, Components, NonEmpty;
    var absolute := IsAbsolute(path);
    var kept := Steps([], Components(path), absolute);
    NormalizedSplits(path);
    assert kept[0] in kept && forall c :: c in kept[1..] ==> c in kept;
    NonEmptySubset(kept);
    NonEmptySubset(kept[1..]);
    ComponentsOf(Normalized(path));
    if absolute {
      assert ([""] + kept)[1..] == kept;
    } else {
      assert [] + kept == kept && [kept[0]] + kept[1..] == kept;
    }
  }

  lemma ComponentsOf(path: string)
    ensures var pieces := Split(path, "/");
      Components(path) == [if pieces[0] == "" then "/" else pieces[0]] + NonEmpty(pieces[1..])
  {
  }

  lemma StepsSlash(rest: seq<string>, absolute: bool)
    ensures Steps([], ["/"] + rest, absolute) == Steps([], rest, absolute)
  {
    assert (["/"] + rest)[1..] == rest;
  }

  /** Tildes aside, normalising twice is normalising once. */
  lemma Idempotent(path: string)
    ensures Normalized(Normalized(path)) == Normalized(path)
  {
    hide Split, Components, Steps, Join, Normal;
    if path != "" && path != "/" {
      var absolute := IsAbsolute(path);
      var kept := Steps([], Components(path), absolute);
      NormalizedSplits(path);
      NormalizedAll(path);
      if kept == [] {
        NormalizedNothing(path);
      } else {
        ComponentsKept(path);
        StepsSlash(kept, absolute);
        assert [] + kept == kept;
        StepsNormal([], kept, absolute);
        NormalizedAll(Normalized(path));
      }
    }
  }

  lemma NormalizedNothing(path: string)
    requires Steps([], Components(path), IsAbsolute(path)) == []
    ensures Normalized(path) == if IsAbsolute(path) then "/" else ""
  {
    hide Components, Steps;
    NormalizedAll(path);
  }

  /** The first component that is neither empty nor ".". */
  function FirstNamed(pieces: seq<string>): string {
    if pieces == [] then ""
    else if pieces[0] == "" || pieces[0] == "/" || pieces[0] == "." then FirstNamed(pieces[1..])
    else pieces[0]
  }

  lemma {:induction false} FirstNonEmpty(pieces: seq<string>)
    ensures FirstNamed(NonEmpty(pieces)) == FirstNamed(pieces)
  {
    if pieces != [] {
      FirstNonEmpty(pieces[1..]);
      if pieces[0] == "" {
        assert NonEmpty(pieces) == NonEmpty(pieces[1..]);
      } else {
        assert NonEmpty(pieces)[1..] == NonEmpty(pieces[1..]);
      }
    }
  }

  lemma {:induction false} StepsFirst(done: seq<string>, rest: seq<string>)
    ensures var kept := Steps(done, rest, false);
      if done != [] then kept != [] && kept[0] == done[0]
      else if kept == [] then FirstNamed(rest) == "" else kept[0] == FirstNamed(rest)
    decreases |rest|
  {
    if rest != [] {
      StepsFirst(Step(done, rest[0], false), rest[1..]);
    }
  }

  predicate HasTilde(path: string) {
    path != "" && path[0] == '~'
  }

  /** A normalised path begins with a tilde exactly where the path is relative, and the first of its components
      to name anything does. */
  lemma TildeUncovered(path: string)
    ensures HasTilde(Normalized(path)) <==> !IsAbsolute(path) && HasTilde(FirstNamed(Split(path, "/")))
    ensures HasTilde(Normalized(path)) ==> FirstComponent(Normalized(path)) == FirstNamed(Split(path, "/"))
  {
    hide Split, Normalized;
    var kept := Steps([], Components(path), IsAbsolute(path));
    NormalizedAll(path);
    if !IsAbsolute(path) {
      StepsFirst([], Components(path));
      FirstNonEmpty(Split(path, "/")[1..]);
      assert Components(path)[1..] == NonEmpty(Split(path, "/")[1..]);
      assert FirstNamed(Components(path)) == FirstNamed(Split(path, "/")) by { SlashFree(path); }
      assert "" + Join(kept, "/") == Join(kept, "/");
      if kept != [] {
        KeptFree(path);
        SplitJoin(kept, '/');
        FirstOfComponents(Join(kept, "/"));
      }
    }
  }

  lemma KeptFree(path: string)
    requires Steps([], Components(path), IsAbsolute(path)) != []
    ensures var kept := Steps([], Components(path), IsAbsolute(path));
      && (forall p :: p in kept ==> '/' !in p)
      && kept[0] != "" && Join(kept, "/") != "" && Join(kept, "/")[0] == kept[0][0]
  {
    hide Steps, Components;
    var kept := Steps([], Components(path), IsAbsolute(path));
    StepsSubset([], Components(path), IsAbsolute(path));
    ComponentsFree(path);
    StepsResolve([], [], Components(path), IsAbsolute(path));
    assert kept[0] in kept;
  }

  /** What the first pass leaves begins with the name of a user, which a second pass expands. */
  ghost predicate UncoversUser(path: string, homes: Homes) {
    var expanded := Expanded(path, homes);
    var first := FirstNamed(Split(expanded, "/"));
    !IsAbsolute(expanded) && HasTilde(first) && first[1..] in homes
  }

  /** Normalising a path as the library does, tilde and all, twice is doing so once, unless the first pass
      uncovers the name of a user. If home directories are absolute, exactly unless it does. */
  lemma NormalizedOnceExactly(path: string, homes: Homes)
    ensures !UncoversUser(path, homes) ==> NormalizedAt(NormalizedAt(path, homes), homes) == NormalizedAt(path, homes)
    ensures (forall name :: name in homes ==> IsAbsolute(homes[name])) ==>
      (NormalizedAt(NormalizedAt(path, homes), homes) == NormalizedAt(path, homes) <==> !UncoversUser(path, homes))
  {
    hide Split, Normalized, FirstNamed;
    var expanded := Expanded(path, homes);
    var normal := Normalized(expanded);
    TildeUncovered(expanded);
    Idempotent(expanded);
    if UncoversUser(path, homes) && forall name :: name in homes ==> IsAbsolute(homes[name]) {
      assert IsAbsolute(Expanded(normal, homes));
      NormalForm(Expanded(normal, homes));
    }
  }

  /** Normalising "./~r" gives "~r", and normalising that the home directory of r. */
  lemma UserUncovered()
    ensures var homes := map["r" := "/home/r"];
      NormalizedAt("./~r", homes) == "~r" && NormalizedAt(NormalizedAt("./~r", homes), homes) != NormalizedAt("./~r", homes)
  {
    hide Split, Normalized;
    var homes := map["r" := "/home/r"];
    var path := "./~r";
    assert Join([".", "~r"], "/") == path by { assert [".", "~r"][1..] == ["~r"]; }
    SplitJoin([".", "~r"], '/');
    assert [".", "~r"][1..] == ["~r"];
    NormalizedOnceExactly(path, homes);
    NormalizedAll(path);
    assert NonEmpty(["~r"]) == ["~r"] by { assert ["~r"][1..] == []; }
    assert Components(path) == [".", "~r"];
    assert Steps([], ["~r"], false) == ["~r"] by { assert ["~r"][1..] == []; }
    assert FirstNamed(["~r"]) == "~r" && "~r"[1..] == "r";
  }

  /** The tilde leads to the home directory, and the rest of the path from there. */
  lemma TildeLeadsHome(path: string, homes: Homes, cwd: seq<string>)
    requires HasTilde(path) && FirstComponent(path)[1..] in homes && homes[FirstComponent(path)[1..]] != ""
    ensures Meaning(NormalizedAt(path, homes), cwd)
         == Resolve(Meaning(homes[FirstComponent(path)[1..]], cwd), Split(path, "/")[1..])
  {
    hide Resolve, Normalized, Split, Break;
    var first := FirstComponent(path);
    var home := homes[first[1..]];
    MeaningKept(Expanded(path, homes), cwd);
    MeaningConcat(path, home, cwd);
  }

  lemma MeaningConcat(path: string, home: string, cwd: seq<string>)
    requires home != ""
    ensures Meaning(home + path[|FirstComponent(path)|..], cwd) == Resolve(Meaning(home, cwd), Split(path, "/")[1..])
  {
    hide Resolve, Split, Break;
    var i := Break(path, "/");
    var dir := if IsAbsolute(home) then [] else cwd;
    if i == |path| {
      SplitWhole(path);
      assert [path][1..] == [] && home + path[i..] == home;
      ResolveNothing(Resolve(dir, Split(home, "/")));
    } else {
      var rest := path[i + 1..];
      assert home + path[i..] == home + "/" + rest;
      SplitConcat(home, rest);
      ResolveConcat(dir, Split(home, "/"), Split(rest, "/"));
      SplitHere(path, i);
    }
  }

  /** A path without a tilde, or with that of nobody known, is only normalised. */
  lemma UnknownStays(path: string, homes: Homes)
    requires HasTilde(path) ==> FirstComponent(path)[1..] !in homes
    ensures NormalizedAt(path, homes) == Normalized(path)
  {
  }

  lemma ResolveNothing(dir: seq<string>)
    ensures Resolve(dir, []) == dir
  {
  }

  lemma {:induction false} SplitConcat(a: string, b: string)
    ensures Split(a + "/" + b, "/") == Split(a, "/") + Split(b, "/")
    decreases |a|
  {
    hide Break, Split;
    var i := Break(a, "/");
    var s := a + "/" + b;
    assert s[i] == '/' && forall k :: 0 <= k < i ==> s[k] == a[k];
    BreakAt(s, "/", i);
    SplitHere(s, i);
    if i == |a| {
      SplitWhole(a);
      assert s[..i] == a && s[i + 1..] == b;
    } else {
      var rest := a[i + 1..];
      SplitConcat(rest, b);
      SplitHere(a, i);
      assert s[..i] == a[..i] && s[i + 1..] == rest + "/" + b;
      assert [a[..i]] + (Split(rest, "/") + Split(b, "/")) == ([a[..i]] + Split(rest, "/")) + Split(b, "/");
    }
  }

  lemma SplitWhole(s: string)
    requires Break(s, "/") == |s|
    ensures Split(s, "/") == [s]
  {
  }

  lemma SplitHere(s: string, i: nat)
    requires i == Break(s, "/") < |s|
    ensures Split(s, "/") == [s[..i]] + Split(s[i + 1..], "/")
  {
  }

  /** No component of a normalised path is empty or ".", and in an absolute one only the first may be "..". */
  lemma NormalForm(path: string)
    ensures var normal := Normalized(path);
      && IsAbsolute(normal) == IsAbsolute(path)
      && (IsAbsolute(path) && normal != "/" ==> Split(normal, "/")[0] == "" && Normal(Split(normal, "/")[1..], true))
      && (!IsAbsolute(path) && normal != "" ==> Normal(Split(normal, "/"), false))
  {
    if path != "" && path != "/" {
      NormalizedSplits(path);
      var kept := Steps([], Components(path), IsAbsolute(path));
      assert ([""] + kept)[1..] == kept;
      assert [] + kept == kept;
    }
  }
}
