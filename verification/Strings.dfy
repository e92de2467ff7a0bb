/** Searching, splitting, joining and editing of strings: wi-compat.c and wi-string.c. */
module Strings {
  import Basics

  const NUL: char := '\0'
  const NOT_FOUND: int := -1

  /** The contents of a NUL-terminated string. */
  ghost predicate CString(s: string) {
    NUL !in s
  }

  /** Reading a C string, its terminator included. */
  function At(s: string, i: nat): char
    requires i <= |s|
  {
    if i < |s| then s[i] else NUL
  }

  // ----- searching -----

  /** find stands in s at i. */
  predicate OccursAt(s: string, find: string, i: nat) {
    i + |find| <= |s| && s[i..i + |find|] == find
  }

  /** i is where find first stands in s, if anywhere. */
  ghost predicate FirstAt(s: string, find: string, i: int) {
    if i == NOT_FOUND then forall k: nat :: !OccursAt(s, find, k)
    else i >= 0 && OccursAt(s, find, i) && forall k: nat :: k < i ==> !OccursAt(s, find, k)
  }

  /** The first slen characters, or as many as there are. */
  function Prefix(s: string, slen: nat): string {
    if slen < |s| then s[..slen] else s
  }

  /** wi_strnstr: the first occurrence that lies wholly within the first slen characters. */
  method StrNStr(s: string, find: string, slen: nat) returns (p: int)
    requires CString(s) && CString(find)
    ensures FirstAt(Prefix(s, slen), find, p)
  {
    var i: nat := 0;
    if find != "" {
      var c := find[0];
      var rest := find[1..];
      var slen' := slen;
      while true
        invariant i <= |s| && slen' == slen - i >= 0
        invariant forall k: nat :: k < i ==> !OccursAt(Prefix(s, slen), find, k)
        decreases |s| - i
      {
        var k, n := FindChar(s, c, i, slen');
        if k == NOT_FOUND {
          NoFirst(s, find, slen, i, |s|);
          return NOT_FOUND;
        }
        NoFirst(s, find, slen, i, k);
        i, slen' := k + 1, n;
        if |rest| > slen' {
          return NOT_FOUND;
        }
        OccursSplit(s, find, slen, k);
        if OccursAt(s, rest, i) {
          break;
        }
      }
      i := i - 1;
    }
    p := i;
  }

  /** The inner loop: the next place of c, as long as characters are left. */
  method FindChar(s: string, c: char, from: nat, slen: nat) returns (k: int, n: nat)
    requires CString(s) && from <= |s| && c != NUL
    ensures k == NOT_FOUND ==> forall j :: from <= j < |s| && j - from < slen ==> s[j] != c
    ensures k != NOT_FOUND ==> from <= k < |s| && s[k] == c && n == slen - (k + 1 - from)
    ensures k != NOT_FOUND ==> forall j :: from <= j < k ==> s[j] != c
  {
    k, n := from, slen;
    while true
      invariant from <= k <= |s| && n == slen - (k - from)
      invariant forall j :: from <= j < k ==> s[j] != c
      decreases |s| - k
    {
      if n < 1 || At(s, k) == NUL {
        return NOT_FOUND, n;
      }
      n := n - 1;
      if s[k] == c {
        return;
      }
      k := k + 1;
    }
  }

  lemma NoFirst(s: string, find: string, slen: nat, from: nat, to: nat)
    requires find != "" && to <= |s|
    requires forall j :: from <= j < to && j < slen ==> s[j] != find[0]
    ensures forall k: nat :: from <= k < to ==> !OccursAt(Prefix(s, slen), find, k)
  {
    forall k: nat | from <= k < to
      ensures !OccursAt(Prefix(s, slen), find, k)
    {
      if k + |find| <= |Prefix(s, slen)| {
        assert Prefix(s, slen)[k..k + |find|][0] == s[k];
      }
    }
  }

  lemma OccursSplit(s: string, find: string, slen: nat, k: nat)
    requires find != "" && k < |s| && s[k] == find[0] && k + |find| <= slen
    ensures OccursAt(Prefix(s, slen), find, k) <==> OccursAt(s, find[1..], k + 1)
  {
    if k + |find| <= |s| {
      assert s[k..k + |find|] == [s[k]] + s[k + 1..k + |find|];
      assert find == [find[0]] + find[1..];
      assert Prefix(s, slen)[k..k + |find|] == s[k..k + |find|];
    }
  }

  // ----- replacing -----

  /** Where find first stands in s, or NOT_FOUND. */
  function Index(s: string, find: string): (i: int)
    ensures FirstAt(s, find, i)
  {
    IndexFrom(s, find, 0)
  }

  function IndexFrom(s: string, find: string, from: nat): (i: int)
    requires from <= |s| + 1 && forall k: nat :: k < from ==> !OccursAt(s, find, k)
    ensures FirstAt(s, find, i)
    decreases |s| + 1 - from
  {
    if from > |s| then NOT_FOUND
    else if OccursAt(s, find, from) then from
    else IndexFrom(s, find, from + 1)
  }

  lemma FirstUnique(s: string, find: string, i: int, j: int)
    requires FirstAt(s, find, i) && FirstAt(s, find, j)
    ensures i == j
  {
  }

  /** Each leftmost occurrence of target replaced, starting over after it. */
  function Replaced(s: string, target: string, replacement: string): string
    requires target != ""
    decreases |s|
  {
    var i := Index(s, target);
    if i == NOT_FOUND then s
    else s[..i] + replacement + Replaced(s[i + |target|..], target, replacement)
  }

  function Join(pieces: seq<string>, separator: string): string {
    if pieces == [] then ""
    else if |pieces| == 1 then pieces[0]
    else pieces[0] + separator + Join(pieces[1..], separator)
  }

  /** s cut at the leftmost occurrences of target. */
  function Cut(s: string, target: string): (pieces: seq<string>)
    requires target != ""
    ensures pieces != []
    decreases |s|
  {
    var i := Index(s, target);
    if i == NOT_FOUND then [s] else [s[..i]] + Cut(s[i + |target|..], target)
  }

  /** Every piece is followed by the first place the target stands at, read from where the piece begins. */
  ghost predicate LeftmostCut(pieces: seq<string>, target: string) {
    && (forall j :: 0 <= j < |pieces| - 1 ==> FirstAt(pieces[j] + target, target, |pieces[j]|))
    && (pieces != [] ==> FirstAt(pieces[|pieces| - 1], target, NOT_FOUND))
  }

  /** The pieces between the replaced occurrences are those of the original, in the same places: the target
      stands between them before, the replacement after. */
  lemma {:induction false} ReplacedPieces(s: string, target: string, replacement: string)
    requires target != ""
    ensures s == Join(Cut(s, target), target)
    ensures Replaced(s, target, replacement) == Join(Cut(s, target), replacement)
    ensures LeftmostCut(Cut(s, target), target)
    decreases |s|
  {
    hide Index;
    var i := Index(s, target);
    if i != NOT_FOUND {
      var rest := s[i + |target|..];
      ReplacedPieces(rest, target, replacement);
      CutMore(s[..i], Cut(rest, target), target, replacement);
      assert s == s[..i] + target + rest;
      FirstPiece(s, target, i);
    }
  }

  lemma CutMore(first: string, pieces: seq<string>, target: string, replacement: string)
    requires pieces != [] && LeftmostCut(pieces, target)
    ensures Join([first] + pieces, target) == first + target + Join(pieces, target)
    ensures Join([first] + pieces, replacement) == first + replacement + Join(pieces, replacement)
    ensures FirstAt(first + target, target, |first|) ==> LeftmostCut([first] + pieces, target)
  {
  }

  lemma FirstPiece(s: string, target: string, i: nat)
    requires target != "" && FirstAt(s, target, i)
    ensures FirstAt(s[..i] + target, target, i)
  {
    var t := s[..i] + target;
    assert s[i..i + |target|] == target;
    assert t == s[..i + |target|];
    assert t[i..i + |target|] == target;
    forall k: nat | k < i
      ensures !OccursAt(t, target, k)
    {
      assert !OccursAt(s, target, k);
      if k + |target| <= |t| {
        assert t[k..k + |target|] == s[k..k + |target|];
      }
    }
  }

  /** A string has only one such cut. */
  lemma {:induction false} CutUnique(pieces: seq<string>, target: string)
    requires target != "" && pieces != [] && LeftmostCut(pieces, target)
    ensures Cut(Join(pieces, target), target) == pieces
    decreases |pieces|
  {
    var s := Join(pieces, target);
    if |pieces| == 1 {
      FirstUnique(s, target, NOT_FOUND, Index(s, target));
    } else {
      var i := |pieces[0]|;
      var rest := Join(pieces[1..], target);
      assert s[..i] == pieces[0] && s[i + |target|..] == rest;
      FirstInPrefix(pieces[0] + target, rest, target, i);
      assert s == (pieces[0] + target) + rest;
      FirstUnique(s, target, i, Index(s, target));
      CutUnique(pieces[1..], target);
    }
  }

  lemma FirstInPrefix(s: string, rest: string, target: string, i: nat)
    requires FirstAt(s, target, i)
    ensures FirstAt(s + rest, target, i)
  {
    assert (s + rest)[i..i + |target|] == s[i..i + |target|];
    forall k: nat | k < i
      ensures !OccursAt(s + rest, target, k)
    {
      assert !OccursAt(s, target, k);
      assert (s + rest)[k..k + |target|] == s[k..k + |target|];
    }
  }

  /** A target of one character is replaced wherever it stands. */
  function Substituted(s: string, c: char, replacement: string): string {
    if s == "" then "" else (if s[0] == c then replacement else [s[0]]) + Substituted(s[1..], c, replacement)
  }

  lemma {:induction false} ReplacedChar(s: string, c: char, replacement: string)
    ensures Replaced(s, [c], replacement) == Substituted(s, c, replacement)
    decreases |s|
  {
    hide Replaced;
    if s == "" {
      ReplacedEnd("", [c], replacement);
    } else if s[0] == c {
      ReplacedHere(s, c, replacement);
      ReplacedChar(s[1..], c, replacement);
    } else {
      ReplacedLater(s, c, replacement);
      ReplacedChar(s[1..], c, replacement);
    }
  }

  lemma ReplacedHere(s: string, c: char, replacement: string)
    requires s != "" && s[0] == c
    ensures Replaced(s, [c], replacement) == replacement + Replaced(s[1..], [c], replacement)
  {
  }

  lemma ReplacedLater(s: string, c: char, replacement: string)
    requires s != "" && s[0] != c
    ensures Replaced(s, [c], replacement) == [s[0]] + Replaced(s[1..], [c], replacement)
  {
    IndexTail(s, c);
    var i := Index(s, [c]);
    if i == NOT_FOUND {
      assert s == [s[0]] + s[1..];
    } else {
      var rest := Replaced(s[i + 1..], [c], replacement);
      assert s[1..][..i - 1] == s[1..i] && s[1..][i - 1 + 1..] == s[i + 1..];
      hide Replaced, Index;
      assert s[..i] + replacement + rest == [s[0]] + (s[1..i] + replacement + rest);
    }
  }

  lemma IndexTail(s: string, c: char)
    requires s != "" && s[0] != c
    ensures Index(s, [c]) == if Index(s[1..], [c]) == NOT_FOUND then NOT_FOUND else Index(s[1..], [c]) + 1
  {
    var j := Index(s[1..], [c]);
    forall k: nat
      ensures OccursAt(s, [c], k) <==> k > 0 && OccursAt(s[1..], [c], k - 1)
    {
      if 0 < k < |s| {
        assert s[k..k + 1] == [s[k]] && s[1..][k - 1..k] == [s[k]];
      }
    }
    var i := if j == NOT_FOUND then NOT_FOUND else j + 1;
    if j != NOT_FOUND {
      assert OccursAt(s, [c], i);
    }
    forall k: nat | i == NOT_FOUND || k < i
      ensures !OccursAt(s, [c], k)
    {
    }
    FirstUnique(s, [c], i, Index(s, [c]));
  }

  /** s' is s with the first occurrence of target after at, i characters further on, replaced up to at'. */
  ghost predicate ReplacedAt(s: string, at: nat, i: nat, target: string, replacement: string, s': string, at': nat) {
    && at + i + |target| <= |s| && at' == at + i + |replacement| <= |s'|
    && FirstAt(s[at..], target, i)
    && s'[..at'] == s[..at + i] + replacement && s'[at'..] == s[at + i + |target|..]
  }

  lemma EmptyOccurs(s: string)
    ensures OccursAt(s, "", 0)
  {
  }

  /** wi_mutable_string_t, as far as its contents go. */
  class MutableString {
    var chars: string

    constructor (s: string)
      ensures chars == s
    {
      chars := s;
    }

    method DeleteCharactersInRange(location: nat, length: nat)
      requires location + length <= |chars|
      modifies this
      ensures chars == old(chars[..location] + chars[location + length..])
    {
      chars := chars[..location] + chars[location + length..];
    }

    method InsertStringAtIndex(other: string, index: nat)
      requires index <= |chars|
      modifies this
      ensures chars == old(chars[..index] + other + chars[index..])
    {
      chars := chars[..index] + other + chars[index..];
    }

    method ReplaceCharactersInRange(location: nat, length: nat, replacement: string)
      requires location + length <= |chars|
      modifies this
      ensures chars == old(chars[..location] + replacement + chars[location + length..])
    {
      DeleteCharactersInRange(location, length);
      InsertStringAtIndex(replacement, location);
      assert chars == old(chars[..location] + replacement + chars[location + length..]);
    }

    /** wi_string_index_of_string_in_range, forward and with regard to case. */
    method IndexOfStringInRange(other: string, location: nat, length: nat) returns (index: int)
      requires location + length <= |chars| && CString(chars) && CString(other)
      ensures length == 0 ==> index == NOT_FOUND
      ensures index != NOT_FOUND ==> location <= index
      ensures length > 0 ==>
        FirstAt(chars[location..location + length], other, if index == NOT_FOUND then NOT_FOUND else index - location)
    {
      if length == 0 {
        return NOT_FOUND;
      }
      var p := StrNStr(chars[location..], other, length);
      assert Prefix(chars[location..], length) == chars[location..location + length];
      index := if p == NOT_FOUND then NOT_FOUND else location + p;
    }

    /** One turn of the loop in wi_mutable_string_replace_string_with_string: the search goes on after the
        inserted text. An empty target is found at once, and leaves as much to search as before. */
    method ReplaceNext(target: string, replacement: string, location: nat) returns (found: bool, location': nat)
      requires location <= |chars| && CString(chars) && CString(target) && CString(replacement)
      modifies this
      ensures CString(chars) && location' <= |chars|
      ensures !found ==> chars == old(chars) && location' == location
      ensures !found ==> FirstAt(chars[location..], target, NOT_FOUND) || chars[location..] == ""
      ensures found ==> exists i: nat :: ReplacedAt(old(chars), location, i, target, replacement, chars, location')
      ensures target == "" && location < |old(chars)| ==> found && |chars| - location' == |old(chars)| - location
    {
      location' := location;
      EmptyOccurs(chars[location..]);
      var index := IndexOfStringInRange(target, location, |chars| - location);
      assert chars[location..location + (|chars| - location)] == chars[location..];
      found := index != NOT_FOUND;
      if found {
        assert FirstAt(chars[location..], target, index - location);
        ReplaceCharactersInRange(index, |target|, replacement);
        location' := index + |replacement|;
        assert chars[..location'] == old(chars)[..index] + replacement;
        assert chars[location'..] == old(chars)[index + |target|..];
        assert ReplacedAt(old(chars), location, index - location, target, replacement, chars, location');
      }
    }

    /** wi_mutable_string_replace_string_with_string, without options. */
    method ReplaceString(target: string, replacement: string)
      requires target != "" && CString(chars) && CString(target) && CString(replacement)
      modifies this
      ensures CString(chars) && chars == Replaced(old(chars), target, replacement)
    {
      var location: nat := 0;
      var found := true;
      while found
        invariant location <= |chars| && CString(chars)
        invariant Replaced(old(chars), target, replacement)
               == chars[..location] + if found then Replaced(chars[location..], target, replacement) else chars[location..]
        decreases found, |chars| - location
      {
        ghost var before, at := chars, location;
        found, location := ReplaceNext(target, replacement, location);
        if found {
          ghost var i: nat :| ReplacedAt(before, at, i, target, replacement, chars, location);
          ReplacedStep(before, at, i, chars, location, target, replacement);
        } else {
          ReplacedEnd(chars[location..], target, replacement);
        }
      }
      assert chars == chars[..location] + chars[location..];
    }
  }

  lemma ReplacedStep(s: string, at: nat, i: nat, s': string, at': nat, target: string, replacement: string)
    requires target != "" && ReplacedAt(s, at, i, target, replacement, s', at')
    ensures s[..at] + Replaced(s[at..], target, replacement) == s'[..at'] + Replaced(s'[at'..], target, replacement)
    ensures |s'| - at' < |s| - at
  {
    var rest := s[at..];
    FirstUnique(rest, target, i, Index(rest, target));
    assert |s'| == at' + |s'[at'..]| && |s| == at + i + |target| + |s[at + i + |target|..]|;
    assert rest[i + |target|..] == s[at + i + |target|..];
    var tail := Replaced(s'[at'..], target, replacement);
    assert Replaced(rest, target, replacement) == rest[..i] + replacement + tail;
    hide Replaced, FirstAt;
    assert s[..at] + rest[..i] == s[..at + i];
    Regroup(s[..at], rest[..i], replacement, tail);
  }

  lemma Regroup(a: string, b: string, c: string, d: string)
    ensures a + (b + c + d) == ((a + b) + c) + d
  {
  }

  lemma ReplacedEnd(s: string, target: string, replacement: string)
    requires target != "" && (FirstAt(s, target, NOT_FOUND) || s == "")
    ensures Replaced(s, target, replacement) == s
  {
  }

  // ----- splitting and joining -----

  /** The characters up to the first one in delim. */
  function Break(s: string, delim: string): (i: nat)
    ensures i <= |s| && (i < |s| ==> s[i] in delim)
    ensures forall k :: 0 <= k < i ==> s[k] !in delim
  {
    if s == "" || s[0] in delim then 0 else 1 + Break(s[1..], delim)
  }

  /** s cut at every character in delim. */
  function Split(s: string, delim: string): (pieces: seq<string>)
    ensures pieces != []
    decreases |s|
  {
    var i := Break(s, delim);
    if i == |s| then [s] else [s[..i]] + Split(s[i + 1..], delim)
  }

  lemma {:induction false} JoinSplit(s: string, c: char)
    ensures Join(Split(s, [c]), [c]) == s
    decreases |s|
  {
    hide Break, Join;
    var i := Break(s, [c]);
    if i < |s| {
      var rest := Split(s[i + 1..], [c]);
      JoinSplit(s[i + 1..], c);
      JoinFirst(s[..i], rest, [c]);
      assert s[i] in [c];
      Parted(s, i);
    } else {
      JoinOne(s, [c]);
    }
  }

  lemma Parted(s: string, i: nat)
    requires i < |s|
    ensures s == s[..i] + [s[i]] + s[i + 1..]
  {
  }

  lemma JoinOne(piece: string, separator: string)
    ensures Join([piece], separator) == piece
  {
  }

  lemma JoinFirst(first: string, pieces: seq<string>, separator: string)
    requires pieces != []
    ensures Join([first] + pieces, separator) == first + separator + Join(pieces, separator)
  {
  }

  lemma {:induction false} SplitFree(s: string, delim: string)
    ensures forall p, c :: p in Split(s, delim) && c in p ==> c !in delim
    decreases |s|
  {
    var i := Break(s, delim);
    if i < |s| {
      SplitFree(s[i + 1..], delim);
    }
  }

  lemma {:induction false} SplitJoin(pieces: seq<string>, c: char)
    requires pieces != [] && forall p :: p in pieces ==> c !in p
    ensures Split(Join(pieces, [c]), [c]) == pieces
    decreases |pieces|
  {
    var s := Join(pieces, [c]);
    var i := |pieces[0]|;
    assert pieces[0] in pieces && s[..i] == pieces[0];
    assert forall k :: 0 <= k < i ==> s[k] == pieces[0][k];
    BreakAt(s, [c], i);
    if |pieces| > 1 {
      SplitJoin(pieces[1..], c);
      assert s[..i] == pieces[0] && s[i + 1..] == Join(pieces[1..], [c]);
    }
  }

  lemma BreakAt(s: string, delim: string, i: nat)
    requires i <= |s| && (i < |s| ==> s[i] in delim) && forall k :: 0 <= k < i ==> s[k] !in delim
    ensures Break(s, delim) == i
  {
  }

  /** Splitting undoes joining exactly for pieces, at least one, that are free of the separator. */
  lemma SplitJoinExactly(pieces: seq<string>, c: char)
    ensures Split(Join(pieces, [c]), [c]) == pieces <==> pieces != [] && forall p :: p in pieces ==> c !in p
  {
    SplitFree(Join(pieces, [c]), [c]);
    if pieces != [] && forall p :: p in pieces ==> c !in p {
      SplitJoin(pieces, c);
    }
  }

  function Lengths(pieces: seq<string>): nat {
    if pieces == [] then 0 else |pieces[0]| + Lengths(pieces[1..])
  }

  lemma {:induction false} JoinLength(pieces: seq<string>, separator: string)
    requires pieces != []
    ensures |Join(pieces, separator)| == Lengths(pieces) + (|pieces| - 1) * |separator|
  {
    if |pieces| == 1 {
      assert pieces[1..] == [];
    } else {
      JoinLength(pieces[1..], separator);
      Distribute(|pieces| - 1, |separator|);
    }
  }

  lemma Distribute(n: int, m: int)
    ensures n * m == (n - 1) * m + m
  {
  }

  lemma {:induction false} SplitLength(s: string, delim: string)
    ensures |s| == Lengths(Split(s, delim)) + |Split(s, delim)| - 1
    decreases |s|
  {
    hide Break;
    var i := Break(s, delim);
    if i == |s| {
      assert [s][1..] == [];
    } else {
      SplitLength(s[i + 1..], delim);
      assert Split(s, delim)[1..] == Split(s[i + 1..], delim);
    }
  }

  /** Splitting is at the separator's characters, not at the separator. The two are the same exactly where
      the separator is one character, or where none of its characters occurs. */
  lemma SplitIsCutExactly(s: string, separator: string)
    requires separator != ""
    ensures Split(s, separator) == Cut(s, separator) <==> |separator| == 1 || forall c :: c in s ==> c !in separator
  {
    hide Split, Cut;
    if |separator| == 1 {
      OneCharCut(s, separator[0]);
      assert separator == [separator[0]];
    } else {
      NoCharCut(s, separator);
      if Split(s, separator) == Cut(s, separator) {
        SameCutIsOne(s, separator);
      }
    }
  }

  /** "a, b" has three components separated by ", ", one of them empty. */
  lemma SpaceSeparatesToo()
    ensures Split("a, b", ", ") == ["a", "", "b"] != Cut("a, b", ", ")
  {
    hide Cut;
    var s := "a, b";
    assert s[2..] == " b" && s[3..] == "b";
    BreakAt(s, ", ", 1);
    BreakAt(" b", ", ", 0);
    BreakAt("b", ", ", 1);
    assert " b"[1..] == "b";
    assert Split("b", ", ") == ["b"];
    assert Split(" b", ", ") == [""] + ["b"];
    assert s[..1] == "a";
    assert Split(s, ", ") == ["a"] + Split(" b", ", ");
    assert ',' in s && ',' in ", ";
    SplitIsCutExactly(s, ", ");
  }

  lemma OneCharCut(s: string, c: char)
    ensures Split(s, [c]) == Cut(s, [c])
  {
    hide Split, Cut;
    JoinSplit(s, c);
    SplitFree(s, [c]);
    FreeIsLeftmost(Split(s, [c]), c);
    CutUnique(Split(s, [c]), [c]);
  }

  lemma NoCharCut(s: string, separator: string)
    requires separator != ""
    ensures (forall c :: c in s ==> c !in separator) ==> Split(s, separator) == [s] == Cut(s, separator)
  {
  }

  lemma SameCutIsOne(s: string, separator: string)
    requires |separator| > 1 && Split(s, separator) == Cut(s, separator)
    ensures forall c :: c in s ==> c !in separator
  {
    hide Split, Cut;
    var pieces := Split(s, separator);
    ReplacedPieces(s, separator, "");
    SplitLength(s, separator);
    JoinLength(pieces, separator);
    OnlyOne(|pieces| - 1, |separator|);
    SplitFree(s, separator);
    assert pieces == [pieces[0]] && Join(pieces, separator) == pieces[0];
    assert s in pieces;
  }

  lemma OnlyOne(n: nat, m: nat)
    requires m > 1 && n * m == n
    ensures n == 0
  {
  }

  lemma NotIn(s: string, separator: string)
    requires separator != "" && forall c :: c in s ==> c !in separator
    ensures forall k: nat :: !OccursAt(s, separator, k)
  {
    forall k: nat
      ensures !OccursAt(s, separator, k)
    {
      if k + |separator| <= |s| {
        assert s[k..k + |separator|][0] == s[k] && s[k] in s && separator[0] in separator;
      }
    }
  }

  lemma FreeIsLeftmost(pieces: seq<string>, c: char)
    requires forall p, d :: p in pieces && d in p ==> d !in [c]
    ensures LeftmostCut(pieces, [c])
  {
    forall p | p in pieces
      ensures FirstAt(p, [c], NOT_FOUND) && FirstAt(p + [c], [c], |p|)
    {
      forall d | d in p
        ensures d !in [c]
      {
      }
      NotIn(p, [c]);
      var t := p + [c];
      forall k: nat | k < |p|
        ensures !OccursAt(t, [c], k)
      {
        assert t[k..k + 1][0] == p[k] && p[k] in p;
      }
      assert t[|p|..|p| + 1] == [c];
    }
  }

  /** wi_array_components_joined_by_string. */
  method ComponentsJoined(pieces: seq<string>, separator: string) returns (s: string)
    ensures s == Join(pieces, separator)
  {
    s := "";
    var i := 0;
    while i < |pieces|
      invariant 0 <= i <= |pieces|
      invariant s + Join(pieces[i..], separator) == Join(pieces, separator)
    {
      assert pieces[i..][1..] == pieces[i + 1..];
      s := s + pieces[i];
      if i < |pieces| - 1 {
        s := s + separator;
      }
      i := i + 1;
    }
  }

  /** The C string that begins at s in a buffer. */
  function StringAt(buffer: seq<char>, s: nat): string
    decreases |buffer| - s
  {
    if s >= |buffer| || buffer[s] == NUL then "" else [buffer[s]] + StringAt(buffer, s + 1)
  }

  ghost predicate Terminated(buffer: seq<char>, s: nat) {
    exists e :: s <= e < |buffer| && buffer[e] == NUL
  }

  lemma {:induction false} StringAtParts(buffer: seq<char>, s: nat, e: nat)
    requires s <= e < |buffer| && buffer[e] == NUL && forall k :: s <= k < e ==> buffer[k] != NUL
    ensures StringAt(buffer, s) == buffer[s..e]
    decreases e - s
  {
    if s < e {
      StringAtParts(buffer, s + 1, e);
    }
  }

  lemma {:induction false} FirstTerminator(buffer: seq<char>, s: nat) returns (e: nat)
    requires Terminated(buffer, s)
    ensures s <= e < |buffer| && buffer[e] == NUL && forall k :: s <= k < e ==> buffer[k] != NUL
    decreases |buffer| - s
  {
    if buffer[s] == NUL {
      e := s;
    } else {
      e := FirstTerminator(buffer, s + 1);
    }
  }

  /** wi_strsep: a terminator is written over the first delimiter, and the search goes on behind it. */
  method StrSep(buffer: array<char>, s: int, delim: string) returns (tok: int, next: int)
    requires s == NOT_FOUND || (0 <= s && Terminated(buffer[..], s))
    requires CString(delim)
    modifies buffer
    ensures tok == s
    ensures s == NOT_FOUND ==> next == NOT_FOUND && buffer[..] == old(buffer[..])
    ensures s != NOT_FOUND ==>
      var was := StringAt(old(buffer[..]), s); var i := Break(was, delim);
      && StringAt(buffer[..], s) == was[..i]
      && (i == |was| ==> next == NOT_FOUND && buffer[..] == old(buffer[..]))
      && (i < |was| ==>
            && next == s + i + 1 && Terminated(buffer[..], next) && StringAt(buffer[..], next) == was[i + 1..]
            && buffer[..] == old(buffer[..])[s + i := NUL])
  {
    hide StringAt, Break;
    tok := s;
    if s == NOT_FOUND {
      return tok, NOT_FOUND;
    }
    var k := s;
    ghost var bytes := buffer[..];
    ghost var e := FirstTerminator(bytes, s);
    StringAtParts(bytes, s, e);
    while buffer[k] != NUL && buffer[k] !in delim
      invariant s <= k <= e && forall j :: s <= j < k ==> bytes[j] !in delim
      decreases e - k
    {
      k := k + 1;
    }
    BreakAt(StringAt(bytes, s), delim, k - s);
    if buffer[k] == NUL {
      next := NOT_FOUND;
    } else {
      buffer[k] := NUL;
      next := k + 1;
      StringAtParts(buffer[..], s, k);
      StringAtParts(buffer[..], next, e);
    }
  }

  /** wi_string_components_separated_by_string: tokens are taken off a copy until there are none. The
      separator's characters each separate. */
  method ComponentsSeparatedBy(s: string, separator: string) returns (pieces: seq<string>)
    requires CString(s) && CString(separator)
    ensures pieces == Split(s, separator)
  {
    hide StringAt, Break, Split, Terminated;
    var buffer := Duplicate(s);
    var rest: int := 0;
    ghost var left := s;
    pieces := [];
    while rest != NOT_FOUND
      invariant rest == NOT_FOUND || (0 <= rest && Terminated(buffer[..], rest) && StringAt(buffer[..], rest) == left)
      invariant Split(s, separator) == pieces + if rest == NOT_FOUND then [] else Split(left, separator)
      decreases if rest == NOT_FOUND then -1 else |left|
    {
      var piece;
      ghost var more;
      piece, rest, more := NextComponent(buffer, rest, separator, left);
      Basics.Associate(pieces, [piece], if rest == NOT_FOUND then [] else Split(more, separator));
      pieces := pieces + [piece];
      left := more;
    }
  }

  /** One turn of the loop. */
  method NextComponent(buffer: array<char>, at: nat, separator: string, ghost left: string)
    returns (piece: string, rest: int, ghost more: string)
    requires Terminated(buffer[..], at) && StringAt(buffer[..], at) == left && CString(separator)
    modifies buffer
    ensures Split(left, separator) == [piece] + if rest == NOT_FOUND then [] else Split(more, separator)
    ensures rest == NOT_FOUND ||
      (0 <= rest && Terminated(buffer[..], rest) && StringAt(buffer[..], rest) == more && |more| < |left|)
  {
    hide StringAt, Break, Split, Terminated;
    SplitOnce(left, separator);
    var tok;
    tok, rest := StrSep(buffer, at, separator);
    piece := StringAt(buffer[..], tok);
    more := if rest == NOT_FOUND then "" else left[Break(left, separator) + 1..];
  }

  /** wi_strdup. */
  method Duplicate(s: string) returns (buffer: array<char>)
    requires CString(s)
    ensures fresh(buffer) && Terminated(buffer[..], 0) && StringAt(buffer[..], 0) == s
  {
    var copy := s + [NUL];
    buffer := new char[|copy|](i requires 0 <= i < |copy| => copy[i]);
    assert buffer[..] == copy && copy[|s|] == NUL;
    StringAtParts(copy, 0, |s|);
  }

  lemma SplitOnce(s: string, delim: string)
    ensures var i := Break(s, delim);
      Split(s, delim) == [s[..i]] + if i == |s| then [] else Split(s[i + 1..], delim)
  {
    assert s[..|s|] == s;
  }
}
