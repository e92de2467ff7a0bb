/** wi-json.c: the reader, a loop over characters that remembers a container, the one around it and a key,
    and the writers. */
module Json {
  import opened Basics
  import opened Escapes
  import opened Numerals
  import opened Strings

  const INT64_MAX: int := 0x7FFF_FFFF_FFFF_FFFF

  // ----- what is written -----

  datatype Entry = Entry(key: string, value: Value)

  /** A value to write. The entries of a dictionary are listed in the order in which its keys are sorted. */
  datatype Value = Str(text: string) | Num(number: int) | Bool(flag: bool) | Null | Obj(entries: seq<Entry>) | Arr(elements: seq<Value>)

  /** wi_number_string of an integer. */
  function Signed(n: int): string {
    if n < 0 then "-" + Decimal(-n) else Decimal(n)
  }

  function Written(v: Value): string
    decreases v
  {
    match v
    case Str(text) => "\"" + JsonEscaped(text) + "\""
    case Num(n) => Signed(n)
    case Bool(b) => if b then "true" else "false"
    case Null => "null"
    case Obj(entries) => "{" + Join(WrittenEntries(entries), ", ") + "}"
    case Arr(elements) => "[" + Join(WrittenElements(elements), ", ") + "]"
  }

  /** _wi_json_string_for_key_and_value: the key is written as it is. */
  function WrittenEntry(e: Entry): string
    decreases e
  {
    "\"" + e.key + "\":" + Written(e.value)
  }

  function WrittenEntries(entries: seq<Entry>): (strings: seq<string>)
    ensures |strings| == |entries|
    decreases entries
  {
    if entries == [] then [] else [WrittenEntry(entries[0])] + WrittenEntries(entries[1..])
  }

  function WrittenElements(elements: seq<Value>): (strings: seq<string>)
    ensures |strings| == |elements|
    decreases elements
  {
    if elements == [] then [] else [Written(elements[0])] + WrittenElements(elements[1..])
  }

  // ----- what is read -----

  /** An instance read; a container is known by its address. */
  datatype Datum = Text(text: string) | Integer(number: int) | Float(digits: string) | Boolean(flag: bool) | Nothing | Ref(addr: nat)

  datatype Container = Dict(entries: map<string, Datum>) | Sequence(elements: seq<Datum>)

  /** The reader's variables, and the containers made so far. */
  datatype State = State(heap: seq<Container>, top: int, current: int, underlying: int, key: Option<string>)

  /** Unset is where the source goes on with a length it has not set, past the end of a string, or through NULL. */
  datatype Error = NoKey | NoString | NoLiteral | Unset

  datatype Result = Done(heap: seq<Container>, top: int) | Failed(error: Error)

  /** One turn of the reader's loop: the new state, and how many characters were taken. */
  datatype Outcome = Next(st: State, used: nat) | Stop(error: Error)

  predicate Fits(st: State) {
    && -1 <= st.top < |st.heap| && -1 <= st.current < |st.heap| && -1 <= st.underlying < |st.heap|
  }

  /** The quoted-string reader, from behind the opening quote: the text, and how many characters were skipped.
      A backslash stands for the character after it, whichever it is; "u" stands for nothing. */
  function Quoted(t: string): Option<(string, nat)>
    decreases |t|
  {
    if t == "" || t[0] == '"' then Some(("", 0))
    else if t[0] == '\\' && |t| > 1 then
      if t[1] in "\"\\/bfrnt" then Prefixed([t[1]], 1, Quoted(t[2..]))
      else if t[1] == 'u' then Prefixed("", 1, Quoted(t[2..]))
      else None
    else Prefixed([t[0]], 0, Quoted(t[1..]))
  }

  function Prefixed(text: string, skipped: nat, rest: Option<(string, nat)>): Option<(string, nat)> {
    match rest
    case None => None
    case Some((t, n)) => Some((text + t, skipped + n))
  }

  lemma PrefixedNothing(rest: Option<(string, nat)>)
    ensures Prefixed("", 0, rest) == rest
  {
    if rest.Some? {
      assert "" + rest.value.0 == rest.value.0;
    }
  }

  lemma PrefixedTwice(a: string, n: nat, b: string, m: nat, rest: Option<(string, nat)>)
    ensures Prefixed(a, n, Prefixed(b, m, rest)) == Prefixed(a + b, n + m, rest)
  {
    if rest.Some? {
      assert a + (b + rest.value.0) == (a + b) + rest.value.0;
    }
  }

  /** _wi_json_quoted_string_for_string. */
  method QuotedStringForString(s: string) returns (quoted: Option<string>, characters: nat)
    requires s != ""
    ensures match Quoted(s[1..])
      case None => quoted == None
      case Some((text, skipped)) => quoted == Some(text) && characters == |text| + skipped
  {
    var text, skipped := "", 0;
    characters := 0;
    var i := 1;
    PrefixedNothing(Quoted(s[1..]));
    while i < |s|
      invariant 1 <= i <= |s|
      invariant Quoted(s[1..]) == Prefixed(text, skipped, Quoted(s[i..]))
    {
      var ch := s[i];
      assert s[i..][1..] == s[i + 1..];
      if ch == '"' {
        break;
      } else if ch == '\\' && i + 1 < |s| {
        assert s[i..][2..] == s[i + 2..];
        i := i + 1;
        ch := s[i];
        if ch in "\"\\/bfrnt" {
          PrefixedTwice(text, skipped, [ch], 1, Quoted(s[i + 1..]));
          text := text + [ch];
        } else if ch != 'u' {
          return None, 0;
        } else {
          PrefixedTwice(text, skipped, "", 1, Quoted(s[i + 1..]));
          assert text + "" == text;
        }
        skipped := skipped + 1;
      } else {
        PrefixedTwice(text, skipped, [ch], 0, Quoted(s[i + 1..]));
        text := text + [ch];
      }
      i := i + 1;
    }
    assert Quoted(s[i..]) == Some(("", 0)) && text + "" == text;
    return Some(text), |text| + skipped;
  }

  predicate IsNumeral(c: char) {
    '0' <= c <= '9' || c == '.' || c == '-'
  }

  /** _wi_json_number_string_for_string: how far a number reaches, unless it reaches the end. */
  function NumeralLength(s: string): (n: nat)
    ensures n <= |s| && (forall k :: 0 <= k < n ==> IsNumeral(s[k])) && (n < |s| ==> !IsNumeral(s[n]))
  {
    if s == "" || !IsNumeral(s[0]) then 0 else 1 + NumeralLength(s[1..])
  }

  /** wi_number_with_integer of wi_string_uinteger. */
  function ToInteger(n: nat): int {
    if n > INT64_MAX then n - UINT64_MAX - 1 else n
  }

  function Numeral(digits: string): Datum {
    if '.' in digits then Float(digits) else Integer(ToInteger(Unsigned(digits, UINT64_MAX)))
  }

  /** Storing a value in the current container. */
  function Put(st: State, d: Datum, used: nat): (o: Outcome)
    requires Fits(st)
    ensures o.Next? ==> Fits(o.st)
  {
    if st.current == NULL then Stop(Unset)
    else match st.heap[st.current]
      case Sequence(elements) => Next(st.(heap := st.heap[st.current := Sequence(elements + [d])]), used)
      case Dict(entries) =>
        if st.key == None then Stop(NoKey)
        else Next(st.(heap := st.heap[st.current := Dict(entries[st.key.value := d])], key := None), used)
  }

  function Literal(st: State, s: string, word: string, d: Datum): Outcome
    requires Fits(st)
  {
    if |s| < |word| then Stop(Unset)
    else if !(word <= s) then Stop(NoLiteral)
    else Put(st, d, |word| + 1)
  }

  /** A new container: it is stored in the current one, which is remembered, and becomes the current one. */
  function Open(st: State, container: Container): (o: Outcome)
    requires Fits(st)
    ensures o.Next? ==> Fits(o.st)
  {
    var addr := |st.heap|;
    var entered := st.(heap := st.heap + [container], current := addr, top := if st.top == NULL then addr else st.top);
    if st.current == NULL then Next(entered, 1)
    else match st.heap[st.current]
      case Sequence(elements) =>
        Next(entered.(heap := st.heap[st.current := Sequence(elements + [Ref(addr)])] + [container], underlying := st.current), 1)
      case Dict(entries) =>
        if st.key == None then Stop(NoKey)
        else Next(entered.(heap := st.heap[st.current := Dict(entries[st.key.value := Ref(addr)])] + [container],
                          underlying := st.current, key := if container.Dict? then None else st.key), 1)
  }

  function Step(st: State, s: string): (o: Outcome)
    requires Fits(st) && s != ""
    ensures o.Next? ==> Fits(o.st) && o.used >= 1
  {
    var ch := s[0];
    if ch == '{' then Open(st, Dict(map[]))
    else if ch == '[' then Open(st, Sequence([]))
    else if ch == '}' || ch == ']' then Next(st.(current := st.underlying, key := None), 1)
    else if ch == '"' then
      match Quoted(s[1..])
      case None => Stop(NoString)
      case Some((text, skipped)) =>
        var used := |text| + skipped + 2;
        if st.key == None then Next(st.(key := Some(text)), used) else Put(st, Text(text), used)
    else if '0' <= ch <= '9' then
      var n := NumeralLength(s);
      if n == |s| then Stop(Unset) else Put(st, Numeral(s[..n]), n + 1)
    else if ch == 't' then Literal(st, s, "true", Boolean(true))
    else if ch == 'f' then Literal(st, s, "false", Boolean(false))
    else if ch == 'n' then if "null" <= s then Put(st, Nothing, 5) else Stop(Unset)
    else Next(st, 1)
  }

  function Drop(s: string, n: nat): string {
    if n <= |s| then s[n..] else ""
  }

  /** The whole loop. */
  function Run(st: State, s: string): Result
    requires Fits(st)
    decreases |s|
  {
    if s == "" then Done(st.heap, st.top)
    else match Step(st, s)
      case Stop(error) => Failed(error)
      case Next(st', used) => Run(st', Drop(s, used))
  }

  const START := State([], NULL, NULL, NULL, None)

  /** wi_json_instance_for_string. */
  method InstanceForString(s: string) returns (result: Result)
    ensures result == Run(START, s)
  {
    hide Step;
    var st := START;
    var i := 0;
    while i < |s|
      invariant Fits(st) && Run(START, s) == Run(st, Drop(s, i))
    {
      match Step(st, s[i..]) {
        case Stop(error) => return Failed(error);
        case Next(st', used) =>
          assert Drop(s[i..], used) == Drop(s, i + used);
          st, i := st', i + used;
      }
    }
    return Done(st.heap, st.top);
  }

  // ----- strings -----

  lemma QuotedStep(c: char, rest: string)
    ensures c != '"' && c != '\\' ==> Quoted([c] + rest) == Prefixed([c], 0, Quoted(rest))
    ensures c in "\"\\/bfrnt" ==> Quoted(['\\', c] + rest) == Prefixed([c], 1, Quoted(rest))
    ensures c == 'u' ==> Quoted(['\\', c] + rest) == Prefixed("", 1, Quoted(rest))
    ensures c !in "\"\\/bfrnt" && c != 'u' ==> Quoted(['\\', c] + rest) == None
    ensures Quoted("\"" + rest) == Some(("", 0))
  {
  }

  /** The reader, given an escaped text and its closing quote, returns the text, and stops at that quote. */
  lemma {:induction false} EscapedReadBack(v: string, rest: string)
    ensures match Quoted(JsonEscaped(v) + "\"" + rest)
      case None => false
      case Some((text, skipped)) => text == v && |text| + skipped == |JsonEscaped(v)|
    decreases |v|
  {
    hide Quoted;
    if v == "" {
      QuotedStep('u', rest);
      assert JsonEscaped(v) + "\"" + rest == "\"" + rest;
    } else {
      EscapedReadBack(v[1..], rest);
      var tail := JsonEscaped(v[1..]) + "\"" + rest;
      assert JsonEscaped(v) + "\"" + rest == JsonChar(v[0]) + tail;
      assert v == [v[0]] + v[1..];
      EscapedChar(v[0], tail);
    }
  }

  lemma EscapedChar(c: char, tail: string)
    ensures Quoted(JsonChar(c) + tail) == Prefixed([c], |JsonChar(c)| - 1, Quoted(tail))
  {
  }

  ghost predicate Plain(s: string) {
    '"' !in s && '\\' !in s
  }

  /** A key is written without escaping. It reads back exactly where it has neither quote nor backslash. */
  lemma {:induction false} KeyReadBackExactly(k: string, rest: string)
    ensures (Quoted(k + "\"" + rest).Some? && Quoted(k + "\"" + rest).value.0 == k) <==> Plain(k)
    ensures Plain(k) ==> Quoted(k + "\"" + rest) == Some((k, 0))
    decreases |k|
  {
    if k == "" {
      QuotedStep('u', rest);
      assert k + "\"" + rest == "\"" + rest;
    } else {
      var tail := k[1..] + "\"" + rest;
      var text := k + "\"" + rest;
      assert text == [k[0]] + tail;
      assert k == [k[0]] + k[1..];
      if k[0] == '"' {
        QuotedStep('u', tail);
        assert text == "\"" + tail;
      } else if k[0] == '\\' {
        BackslashKey(k, rest);
      } else {
        QuotedStep(k[0], tail);
        KeyReadBackExactly(k[1..], rest);
      }
    }
  }

  /** The key a"b is cut at its quote. */
  lemma QuoteCutsKey()
    ensures Quoted("a\"b" + "\"" + ":1") == Some(("a", 0))
  {
    assert "a\"b" + "\"" + ":1" == ['a'] + ("\"" + "b\":1");
    QuotedStep('a', "\"" + "b\":1");
    QuotedStep('u', "b\":1");
    assert "a" + "" == "a";
  }

  lemma BackslashKey(k: string, rest: string)
    requires k != "" && k[0] == '\\'
    ensures Quoted(k + "\"" + rest).Some? ==> Quoted(k + "\"" + rest).value.0 != k
  {
    var text := k + "\"" + rest;
    if |k| == 1 {
      assert text == ['\\', '"'] + rest;
      QuotedStep('"', rest);
    } else {
      var tail := k[2..] + "\"" + rest;
      assert text == ['\\', k[1]] + tail;
      QuotedStep(k[1], tail);
      if k[1] == 'u' {
        NeverCatchesUp(k[..2], k[2..], rest);
        assert k == k[..2] + k[2..];
      } else if k[1] == '\\' {
        NeverCatchesUp([k[1]], k[2..], rest);
        assert k == [k[0]] + ([k[1]] + k[2..]);
      } else {
        assert k[1] !in "\"\\/bfrnt" ==> Quoted(text) == None;
      }
    }
  }

  lemma SameHead(c: char, rest: Option<(string, nat)>, n: nat, w: string, tail: string)
    requires w != ""
    ensures Prefixed([c], n, rest).Some? && Prefixed([c], n, rest).value.0 == w + tail
        ==> c == w[0] && rest.value.0 == w[1..] + tail
  {
    if rest.Some? && [c] + rest.value.0 == w + tail {
      assert ([c] + rest.value.0)[1..] == rest.value.0 && (w + tail)[1..] == w[1..] + tail;
      assert ([c] + rest.value.0)[0] == c && (w + tail)[0] == w[0];
    }
  }

  /** Once characters have been skipped, what is read lags behind what was written for good. */
  lemma {:induction false} NeverCatchesUp(w: string, k: string, rest: string)
    requires w != "" && '"' !in w
    ensures Quoted(k + "\"" + rest).Some? ==> Quoted(k + "\"" + rest).value.0 != w + k
    decreases |k|
  {
    hide Quoted;
    var text := k + "\"" + rest;
    if k == "" {
      QuotedStep('u', rest);
      assert text == "\"" + rest;
    } else if k[0] == '"' {
      QuotedStep('u', k[1..] + "\"" + rest);
      assert text == "\"" + (k[1..] + "\"" + rest);
    } else if k[0] != '\\' {
      PlainLags(w, k, rest);
      NeverCatchesUp(w[1..] + [k[0]], k[1..], rest);
    } else if |k| == 1 {
      assert text == ['\\', '"'] + rest;
      QuotedStep('"', rest);
      SameHead('"', Quoted(rest), 1, w, k);
    } else {
      EscapeLags(w, k, rest);
      if k[1] == 'u' {
        NeverCatchesUp(w + k[..2], k[2..], rest);
      } else if k[1] == w[0] {
        NeverCatchesUp(w[1..] + k[..2], k[2..], rest);
      }
    }
  }

  lemma PlainLags(w: string, k: string, rest: string)
    requires w != "" && k != "" && k[0] != '"' && k[0] != '\\'
    ensures var tail := Quoted(k[1..] + "\"" + rest);
      Quoted(k + "\"" + rest).Some? && Quoted(k + "\"" + rest).value.0 == w + k
      ==> tail.Some? && tail.value.0 == (w[1..] + [k[0]]) + k[1..]
  {
    hide Quoted;
    var tail := k[1..] + "\"" + rest;
    QuotedStep(k[0], tail);
    assert k + "\"" + rest == [k[0]] + tail;
    SameHead(k[0], Quoted(tail), 0, w, k);
    assert w[1..] + k == (w[1..] + [k[0]]) + k[1..];
  }

  lemma EscapeLags(w: string, k: string, rest: string)
    requires w != "" && |k| > 1 && k[0] == '\\'
    ensures var tail := Quoted(k[2..] + "\"" + rest);
      Quoted(k + "\"" + rest).Some? && Quoted(k + "\"" + rest).value.0 == w + k
      ==> tail.Some? && tail.value.0 == (if k[1] == 'u' then w + k[..2] else w[1..] + k[..2]) + k[2..]
          && (k[1] != 'u' ==> k[1] == w[0])
  {
    hide Quoted;
    var tail := k[2..] + "\"" + rest;
    QuotedStep(k[1], tail);
    assert k + "\"" + rest == ['\\', k[1]] + tail;
    SameHead(k[1], Quoted(tail), 1, w, k);
    assert w + k == (w + k[..2]) + k[2..];
    assert w[1..] + k == (w[1..] + k[..2]) + k[2..];
    PrefixedSkip(Quoted(tail));
  }

  lemma PrefixedSkip(rest: Option<(string, nat)>)
    ensures rest.Some? ==> Prefixed("", 1, rest) == Some((rest.value.0, 1 + rest.value.1))
    ensures rest == None ==> Prefixed("", 1, rest) == None
  {
    if rest.Some? {
      assert "" + rest.value.0 == rest.value.0;
    }
  }

  // ----- text with white space in it -----

  datatype Place = Before | BeforeColon | AfterColon | After

  /** The white space in a text: before and behind the j-th part of the container at path p, and around its
      colon. An empty container has it before part 0. */
  type Gaps = (seq<nat>, nat, Place) -> string

  predicate IsWhite(c: char) {
    c == ' ' || c == '\t' || c == '\r' || c == '\n'
  }

  ghost predicate White(gaps: Gaps) {
    forall p, j, place, c :: c in gaps(p, j, place) ==> IsWhite(c)
  }

  /** How the writer sets its texts: a space behind each comma. */
  const CANONICAL: Gaps := (p, j, place) => if place == Before && j > 0 then " " else ""

  /** The text of v with these gaps in it, and tail behind it. */
  function ValueText(v: Value, gaps: Gaps, p: seq<nat>, tail: string): (s: string)
    ensures s != ""
    decreases v
  {
    match v
    case Str(text) => "\"" + (JsonEscaped(text) + ("\"" + tail))
    case Num(n) => Signed(n) + tail
    case Bool(b) => (if b then "true" else "false") + tail
    case Null => "null" + tail
    case Obj(entries) => "{" + EntriesText(entries, gaps, p, 0, "}" + tail)
    case Arr(elements) => "[" + ElementsText(elements, gaps, p, 0, "]" + tail)
  }

  function EntryText(e: Entry, gaps: Gaps, p: seq<nat>, j: nat, tail: string): string
    decreases e
  {
    gaps(p, j, Before) + ("\"" + (e.key + ("\"" + (gaps(p, j, BeforeColon) + (":" +
      (gaps(p, j, AfterColon) + ValueText(e.value, gaps, p + [j], tail)))))))
  }

  function EntriesText(entries: seq<Entry>, gaps: Gaps, p: seq<nat>, j: nat, tail: string): string
    decreases entries
  {
    if entries == [] then gaps(p, j, Before) + tail
    else
      EntryText(entries[0], gaps, p, j, gaps(p, j, After) +
        if |entries| == 1 then tail else "," + EntriesText(entries[1..], gaps, p, j + 1, tail))
  }

  function ElementsText(elements: seq<Value>, gaps: Gaps, p: seq<nat>, j: nat, tail: string): string
    decreases elements
  {
    if elements == [] then gaps(p, j, Before) + tail
    else
      gaps(p, j, Before) + ValueText(elements[0], gaps, p + [j], gaps(p, j, After) +
        if |elements| == 1 then tail else "," + ElementsText(elements[1..], gaps, p, j + 1, tail))
  }

  /** What the writer writes is that, with its own gaps. */
  lemma {:induction false} WrittenText(v: Value, p: seq<nat>, tail: string)
    ensures ValueText(v, CANONICAL, p, tail) == Written(v) + tail
    decreases v
  {
    hide JsonEscaped, Signed, Join, EntriesText, ElementsText, WrittenEntries, WrittenElements;
    match v {
      case Str(text) =>
        InBrackets("\"", JsonEscaped(text), "\"", tail);
      case Obj(entries) =>
        WrittenEntriesText(entries, p, 0, "}" + tail);
        InBrackets("{", Join(WrittenEntries(entries), ", "), "}", tail);
      case Arr(elements) =>
        WrittenElementsText(elements, p, 0, "]" + tail);
        InBrackets("[", Join(WrittenElements(elements), ", "), "]", tail);
      case _ =>
    }
  }

  lemma InBrackets(open: string, text: string, close: string, tail: string)
    ensures open + text + close + tail == open + ("" + (text + (close + tail))) == open + (text + (close + tail))
  {
  }

  lemma {:induction false} WrittenEntriesText(entries: seq<Entry>, p: seq<nat>, j: nat, tail: string)
    requires j == 0 || entries != []
    ensures EntriesText(entries, CANONICAL, p, j, tail) == (if j > 0 then " " else "") + (Join(WrittenEntries(entries), ", ") + tail)
    decreases entries
  {
    hide EntryText, WrittenEntry, Join;
    if entries != [] {
      var first := WrittenEntry(entries[0]);
      var more := if |entries| == 1 then tail else "," + EntriesText(entries[1..], CANONICAL, p, j + 1, tail);
      WrittenEntryText(entries[0], p, j, "" + more);
      assert "" + more == more;
      if |entries| > 1 {
        var strings := WrittenEntries(entries);
        WrittenEntriesText(entries[1..], p, j + 1, tail);
        assert strings[1..] == WrittenEntries(entries[1..]);
        JoinComma(strings, tail);
      } else {
        assert entries[1..] == [] && WrittenEntries(entries) == [first];
        JoinOne(first, ", ");
      }
    } else {
      JoinNone(", ");
    }
  }

  lemma JoinNone(separator: string)
    ensures Join([], separator) == ""
  {
  }

  lemma JoinComma(strings: seq<string>, tail: string)
    requires |strings| > 1
    ensures Join(strings, ", ") + tail == strings[0] + ("," + (" " + (Join(strings[1..], ", ") + tail)))
  {
    hide Join;
    var more := Join(strings[1..], ", ");
    assert Join(strings, ", ") == strings[0] + ", " + more by { JoinMore(strings); }
    assert ", " == "," + " ";
  }

  lemma JoinMore(strings: seq<string>)
    requires |strings| > 1
    ensures Join(strings, ", ") == strings[0] + ", " + Join(strings[1..], ", ")
  {
  }

  lemma {:induction false} WrittenEntryText(e: Entry, p: seq<nat>, j: nat, tail: string)
    ensures EntryText(e, CANONICAL, p, j, tail) == (if j > 0 then " " else "") + (WrittenEntry(e) + tail)
    decreases e
  {
    WrittenText(e.value, p + [j], tail);
    hide ValueText, Written;
    var v := Written(e.value) + tail;
    assert "" + (":" + ("" + v)) == ":" + v;
    assert "\"" + (e.key + ("\"" + (":" + v))) == ("\"" + e.key + "\":" + Written(e.value)) + tail;
  }

  lemma {:induction false} WrittenElementsText(elements: seq<Value>, p: seq<nat>, j: nat, tail: string)
    requires j == 0 || elements != []
    ensures ElementsText(elements, CANONICAL, p, j, tail)
         == (if j > 0 then " " else "") + (Join(WrittenElements(elements), ", ") + tail)
    decreases elements
  {
    hide ValueText, Written, Join;
    if elements != [] {
      var more := if |elements| == 1 then tail else "," + ElementsText(elements[1..], CANONICAL, p, j + 1, tail);
      WrittenText(elements[0], p + [j], "" + more);
      assert "" + more == more;
      if |elements| > 1 {
        var strings := WrittenElements(elements);
        WrittenElementsText(elements[1..], p, j + 1, tail);
        assert strings[1..] == WrittenElements(elements[1..]);
        JoinComma(strings, tail);
      } else {
        assert elements[1..] == [] && WrittenElements(elements) == [Written(elements[0])];
        JoinOne(Written(elements[0]), ", ");
      }
    } else {
      JoinNone(", ");
    }
  }

  // ----- what the reader makes of a text -----

  /** What may be written: keys that differ and read back, integers that fit. */
  ghost predicate Writable(v: Value)
    decreases v
  {
    match v
    case Arr(elements) => forall j :: 0 <= j < |elements| ==> Writable(elements[j])
    case Num(n) => -INT64_MAX - 1 <= n <= INT64_MAX
    case Obj(entries) => WritableEntries(entries)
    case _ => true
  }

  ghost predicate WritableEntries(entries: seq<Entry>)
    decreases entries
  {
    entries != [] ==>
      && Plain(entries[0].key) && Writable(entries[0].value)
      && (forall e :: e in entries[1..] ==> e.key != entries[0].key)
      && WritableEntries(entries[1..])
  }

  /** A number or literal, after which the reader takes one character too many. */
  predicate Bare(v: Value) {
    v.Num? || v.Bool? || v.Null?
  }

  predicate IsContainer(v: Value) {
    v.Obj? || v.Arr?
  }

  function DatumOf(v: Value): Datum
    requires !IsContainer(v)
  {
    match v
    case Str(text) => Text(text)
    case Num(n) => Integer(ToInteger(if n < 0 then -n else n))
    case Bool(b) => Boolean(b)
    case Null => Nothing
  }

  /** The character too many is the closing bracket: the last part is bare, with no white space behind it. */
  ghost predicate Swallowed(entries: seq<Entry>, gaps: Gaps, p: seq<nat>, j: nat) {
    entries != [] && Bare(entries[|entries| - 1].value) && gaps(p, j + |entries| - 1, After) == ""
  }

  ghost predicate SwallowedBy(elements: seq<Value>, gaps: Gaps, p: seq<nat>, j: nat) {
    elements != [] && Bare(elements[|elements| - 1]) && gaps(p, j + |elements| - 1, After) == ""
  }

  function StringTaken(st: State, text: string): Outcome
    requires Fits(st)
  {
    if st.key == None then Next(st.(key := Some(text)), 0) else Put(st, Text(text), 0)
  }

  function Closing(st: State): State {
    st.(current := st.underlying, key := None)
  }

  /** The reader's state after a value, whatever it was before: a string is a key where there is none yet, a
      container is entered and left again, unless its closing bracket is swallowed. */
  ghost function ValueTaken(st: State, v: Value, gaps: Gaps, p: seq<nat>): (o: Outcome)
    requires Fits(st)
    ensures o.Next? ==> Fits(o.st)
    decreases v
  {
    match v
    case Str(text) => StringTaken(st, text)
    case Obj(entries) =>
      (match Open(st, Dict(map[]))
       case Stop(error) => Stop(error)
       case Next(st1, _) =>
         match EntriesTaken(st1, entries, gaps, p, 0)
         case Stop(error) => Stop(error)
         case Next(st2, _) => Next(if Swallowed(entries, gaps, p, 0) then st2 else Closing(st2), 0))
    case Arr(elements) =>
      (match Open(st, Sequence([]))
       case Stop(error) => Stop(error)
       case Next(st1, _) =>
         match ElementsTaken(st1, elements, gaps, p, 0)
         case Stop(error) => Stop(error)
         case Next(st2, _) => Next(if SwallowedBy(elements, gaps, p, 0) then st2 else Closing(st2), 0))
    case _ => Put(st, DatumOf(v), 0)
  }

  ghost function EntryTaken(st: State, e: Entry, gaps: Gaps, p: seq<nat>, j: nat): (o: Outcome)
    requires Fits(st)
    ensures o.Next? ==> Fits(o.st)
    decreases e
  {
    match StringTaken(st, e.key)
    case Stop(error) => Stop(error)
    case Next(st1, _) => ValueTaken(st1, e.value, gaps, p + [j])
  }

  ghost function EntriesTaken(st: State, entries: seq<Entry>, gaps: Gaps, p: seq<nat>, j: nat): (o: Outcome)
    requires Fits(st)
    ensures o.Next? ==> Fits(o.st)
    decreases entries
  {
    if entries == [] then Next(st, 0)
    else
      match EntryTaken(st, entries[0], gaps, p, j)
      case Stop(error) => Stop(error)
      case Next(st1, _) => EntriesTaken(st1, entries[1..], gaps, p, j + 1)
  }

  ghost function ElementsTaken(st: State, elements: seq<Value>, gaps: Gaps, p: seq<nat>, j: nat): (o: Outcome)
    requires Fits(st)
    ensures o.Next? ==> Fits(o.st)
    decreases elements
  {
    if elements == [] then Next(st, 0)
    else
      match ValueTaken(st, elements[0], gaps, p + [j])
      case Stop(error) => Stop(error)
      case Next(st1, _) => ElementsTaken(st1, elements[1..], gaps, p, j + 1)
  }

  /** Going on with the rest of the text. */
  ghost function Then(o: Outcome, rest: string): Result
    requires o.Next? ==> Fits(o.st)
  {
    match o
    case Stop(error) => Failed(error)
    case Next(st, _) => Run(st, rest)
  }

  lemma RunStep(st: State, s: string, used: nat, rest: string)
    requires Fits(st) && s != "" && (Step(st, s).Next? ==> Step(st, s).used == used) && Drop(s, used) == rest
    ensures Run(st, s) == Then(Step(st, s), rest)
  {
  }

  /** A character that begins nothing. */
  predicate Idle(c: char) {
    && c != '{' && c != '[' && c != '}' && c != ']' && c != '"' && c != 't' && c != 'f' && c != 'n'
    && !('0' <= c <= '9')
  }

  lemma StepIdle(st: State, s: string)
    requires Fits(st) && s != "" && Idle(s[0])
    ensures Step(st, s) == Next(st, 1)
  {
    hide Open, Put, Literal, Quoted, Numeral, NumeralLength;
  }

  lemma StepQuote(st: State, s: string, text: string, skipped: nat)
    requires Fits(st) && s != "" && s[0] == '"' && Quoted(s[1..]) == Some((text, skipped))
    ensures Step(st, s) == if st.key == None then Next(st.(key := Some(text)), |text| + skipped + 2)
                           else Put(st, Text(text), |text| + skipped + 2)
  {
    hide Open, Put, Literal, Quoted, Numeral, NumeralLength;
  }

  lemma PutUsed(st: State, d: Datum, used: nat, rest: string)
    requires Fits(st)
    ensures Then(Put(st, d, used), rest) == Then(Put(st, d, 0), rest)
    ensures Put(st, d, used).Next? ==> Put(st, d, used).used == used
  {
  }

  /** Characters that begin nothing are passed over, white space and line breaks among them. */
  lemma RunSkip(st: State, c: char, rest: string)
    requires Fits(st) && Idle(c)
    ensures Run(st, [c] + rest) == Run(st, rest)
  {
    hide Run, Step;
    assert ([c] + rest)[1..] == rest;
    StepIdle(st, [c] + rest);
    RunStep(st, [c] + rest, 1, rest);
  }

  lemma {:induction false} RunWhite(st: State, gap: string, rest: string)
    requires Fits(st) && forall c :: c in gap ==> IsWhite(c)
    ensures Run(st, gap + rest) == Run(st, rest)
  {
    if gap == "" {
      assert gap + rest == rest;
    } else {
      assert gap + rest == [gap[0]] + (gap[1..] + rest) && gap[0] in gap;
      RunSkip(st, gap[0], gap[1..] + rest);
      RunWhite(st, gap[1..], rest);
    }
  }

  lemma {:induction false} PlainEscaped(k: string)
    requires Plain(k)
    ensures JsonEscaped(k) == k
  {
    if k != "" {
      PlainEscaped(k[1..]);
      assert k == [k[0]] + k[1..] && k[0] in k;
    }
  }

  lemma RunString(st: State, text: string, rest: string)
    requires Fits(st)
    ensures Run(st, "\"" + (JsonEscaped(text) + ("\"" + rest))) == Then(StringTaken(st, text), rest)
  {
    hide Run, Step, Quoted, JsonEscaped, Put;
    var s := "\"" + (JsonEscaped(text) + ("\"" + rest));
    EscapedReadBack(text, rest);
    assert s[1..] == JsonEscaped(text) + "\"" + rest;
    var used := |JsonEscaped(text)| + 2;
    assert s[used..] == rest;
    StepQuote(st, s, text, |JsonEscaped(text)| - |text|);
    PutUsed(st, Text(text), used, rest);
    RunStep(st, s, used, rest);
  }

  lemma {:induction false} NumeralReaches(digits: string, tail: string)
    requires (forall c :: c in digits ==> IsNumeral(c)) && (tail != "" ==> !IsNumeral(tail[0]))
    ensures NumeralLength(digits + tail) == |digits|
  {
    if digits == "" {
      assert digits + tail == tail;
    } else {
      assert (digits + tail)[1..] == digits[1..] + tail;
      NumeralReaches(digits[1..], tail);
    }
  }

  lemma StepDigits(st: State, n: nat, tail: string)
    requires Fits(st) && n <= INT64_MAX + 1 && tail != "" && !IsNumeral(tail[0])
    ensures Step(st, Decimal(n) + tail) == Put(st, Integer(ToInteger(n)), |Decimal(n)| + 1)
  {
    hide Decimal, Unsigned, NumeralLength, Put;
    var digits := Decimal(n);
    var s := digits + tail;
    DecimalDigits(n);
    DecimalRead(n, UINT64_MAX);
    NumeralReaches(digits, tail);
    assert s[..|digits|] == digits && s[0] == digits[0] && digits[0] in digits;
    assert '.' !in digits;
  }

  lemma RunDigits(st: State, n: nat, c: char, rest: string)
    requires Fits(st) && n <= INT64_MAX + 1 && !IsNumeral(c)
    ensures Run(st, Decimal(n) + ([c] + rest)) == Then(Put(st, Integer(ToInteger(n)), 0), rest)
  {
    hide Decimal, Step;
    var digits := Decimal(n);
    var s := digits + ([c] + rest);
    StepDigits(st, n, [c] + rest);
    assert Drop(s, |digits| + 1) == rest;
    RunStep(st, s, |digits| + 1, rest);
  }

  lemma RunWord(st: State, word: string, d: Datum, c: char, rest: string)
    requires Fits(st)
    requires (word == "true" && d == Boolean(true)) || (word == "false" && d == Boolean(false)) || (word == "null" && d == Nothing)
    ensures Run(st, word + ([c] + rest)) == Then(Put(st, d, 0), rest)
  {
    hide Run, Put, Open, Quoted, Numeral, NumeralLength;
    var s := word + ([c] + rest);
    assert word <= s && s[|word| + 1..] == rest && s[0] == word[0];
    PutUsed(st, d, |word| + 1, rest);
    RunStep(st, s, |word| + 1, rest);
  }

  lemma RunNumber(st: State, n: int, c: char, rest: string)
    requires Fits(st) && -INT64_MAX - 1 <= n <= INT64_MAX && !IsNumeral(c)
    ensures Run(st, Signed(n) + ([c] + rest)) == Then(Put(st, DatumOf(Num(n)), 0), rest)
  {
    hide Run, Then, Put, Decimal;
    var s := [c] + rest;
    if n < 0 {
      RunSkip(st, '-', Decimal(-n) + s);
      assert Signed(n) + s == ['-'] + (Decimal(-n) + s);
      RunDigits(st, -n, c, rest);
    } else {
      RunDigits(st, n, c, rest);
    }
  }

  /** After a bare value a character is lost, whichever it is. */
  lemma {:induction false} RunBare(st: State, v: Value, gaps: Gaps, p: seq<nat>, c: char, rest: string)
    requires Fits(st) && Bare(v) && Writable(v) && !IsNumeral(c)
    ensures Run(st, ValueText(v, gaps, p, [c] + rest)) == Then(Put(st, DatumOf(v), 0), rest)
  {
    hide Run, Then, Put, Signed, ToInteger;
    match v {
      case Num(n) => RunNumber(st, n, c, rest);
      case Bool(b) => RunWord(st, if b then "true" else "false", Boolean(b), c, rest);
      case Null => RunWord(st, "null", Nothing, c, rest);
    }
  }

  lemma RunOpen(st: State, c: char, rest: string)
    requires Fits(st) && (c == '{' || c == '[')
    ensures Run(st, [c] + rest) == Then(Open(st, if c == '{' then Dict(map[]) else Sequence([])), rest)
  {
    assert ([c] + rest)[1..] == rest;
    RunStep(st, [c] + rest, 1, rest);
  }

  lemma RunClose(st: State, c: char, rest: string)
    requires Fits(st) && (c == '}' || c == ']')
    ensures Run(st, [c] + rest) == Run(Closing(st), rest)
  {
    assert ([c] + rest)[1..] == rest;
    RunStep(st, [c] + rest, 1, rest);
  }

  /** A value, and white space and a character behind it: that is lost if the value is bare and no white space
      takes its place. */
  lemma {:induction false} RunValue(st: State, v: Value, gaps: Gaps, p: seq<nat>, gap: string, c: char, rest: string)
    requires Fits(st) && Writable(v) && White(gaps) && !IsNumeral(c) && forall d :: d in gap ==> IsWhite(d)
    ensures Run(st, ValueText(v, gaps, p, gap + ([c] + rest)))
         == Then(ValueTaken(st, v, gaps, p), if Bare(v) && gap == "" then rest else [c] + rest)
    decreases v
  {
    hide Run, Put, Open, White;
    var tail := gap + ([c] + rest);
    match v {
      case Str(text) =>
        RunString(st, text, tail);
        RunGap(StringTaken(st, text), gap, [c] + rest);
      case Obj(entries) =>
        RunOpen(st, '{', EntriesText(entries, gaps, p, 0, "}" + tail));
        RunObject(st, entries, gaps, p, tail);
        RunGap(ValueTaken(st, v, gaps, p), gap, [c] + rest);
      case Arr(elements) =>
        RunOpen(st, '[', ElementsText(elements, gaps, p, 0, "]" + tail));
        RunArray(st, elements, gaps, p, tail);
        RunGap(ValueTaken(st, v, gaps, p), gap, [c] + rest);
      case _ =>
        if gap == "" {
          assert tail == [c] + rest;
          RunBare(st, v, gaps, p, c, rest);
        } else {
          assert tail == [gap[0]] + (gap[1..] + ([c] + rest)) && gap[0] in gap;
          RunBare(st, v, gaps, p, gap[0], gap[1..] + ([c] + rest));
          RunGap(Put(st, DatumOf(v), 0), gap[1..], [c] + rest);
        }
    }
  }

  lemma RunGap(o: Outcome, gap: string, rest: string)
    requires (o.Next? ==> Fits(o.st)) && forall d :: d in gap ==> IsWhite(d)
    ensures Then(o, gap + rest) == Then(o, rest)
  {
    if o.Next? {
      RunWhite(o.st, gap, rest);
    }
  }

  lemma {:induction false} RunObject(st: State, entries: seq<Entry>, gaps: Gaps, p: seq<nat>, tail: string)
    requires Fits(st) && WritableEntries(entries) && White(gaps)
    ensures Then(Open(st, Dict(map[])), EntriesText(entries, gaps, p, 0, "}" + tail))
         == Then(ValueTaken(st, Obj(entries), gaps, p), tail)
    decreases entries, 1
  {
    hide Run, Open, White, EntriesText, EntriesTaken;
    var o := Open(st, Dict(map[]));
    if o.Next? {
      RunEntries(o.st, entries, gaps, p, 0, '}', tail);
      var done := EntriesTaken(o.st, entries, gaps, p, 0);
      if done.Next? && !Swallowed(entries, gaps, p, 0) {
        RunClose(done.st, '}', tail);
      }
    }
  }

  lemma {:induction false} RunArray(st: State, elements: seq<Value>, gaps: Gaps, p: seq<nat>, tail: string)
    requires Fits(st) && (forall j :: 0 <= j < |elements| ==> Writable(elements[j])) && White(gaps)
    ensures Then(Open(st, Sequence([])), ElementsText(elements, gaps, p, 0, "]" + tail))
         == Then(ValueTaken(st, Arr(elements), gaps, p), tail)
    decreases elements, 1
  {
    hide Run, Open, White, ElementsText, ElementsTaken;
    var o := Open(st, Sequence([]));
    if o.Next? {
      RunElements(o.st, elements, gaps, p, 0, ']', tail);
      var done := ElementsTaken(o.st, elements, gaps, p, 0);
      if done.Next? && !SwallowedBy(elements, gaps, p, 0) {
        RunClose(done.st, ']', tail);
      }
    }
  }

  lemma {:induction false} RunEntry(st: State, e: Entry, gaps: Gaps, p: seq<nat>, j: nat, gap: string, c: char, rest: string)
    requires Fits(st) && Plain(e.key) && Writable(e.value) && White(gaps) && !IsNumeral(c) && forall d :: d in gap ==> IsWhite(d)
    ensures Run(st, EntryText(e, gaps, p, j, gap + ([c] + rest)))
         == Then(EntryTaken(st, e, gaps, p, j), if Bare(e.value) && gap == "" then rest else [c] + rest)
    decreases e
  {
    hide Run, ValueText, ValueTaken;
    var value := ValueText(e.value, gaps, p + [j], gap + ([c] + rest));
    var colon := gaps(p, j, BeforeColon) + (":" + (gaps(p, j, AfterColon) + value));
    RunWhite(st, gaps(p, j, Before), "\"" + (e.key + ("\"" + colon)));
    PlainEscaped(e.key);
    RunString(st, e.key, colon);
    var o := StringTaken(st, e.key);
    if o.Next? {
      RunWhite(o.st, gaps(p, j, BeforeColon), ":" + (gaps(p, j, AfterColon) + value));
      RunSkip(o.st, ':', gaps(p, j, AfterColon) + value);
      RunWhite(o.st, gaps(p, j, AfterColon), value);
      RunValue(o.st, e.value, gaps, p + [j], gap, c, rest);
    }
  }

  /** Whatever state the reader is in, and whatever the entries hold: it stores each where its variables put it. */
  lemma {:induction false} RunEntries(st: State, entries: seq<Entry>, gaps: Gaps, p: seq<nat>, j: nat, c: char, rest: string)
    requires Fits(st) && WritableEntries(entries) && White(gaps) && !IsNumeral(c)
    ensures Run(st, EntriesText(entries, gaps, p, j, [c] + rest))
         == Then(EntriesTaken(st, entries, gaps, p, j), if Swallowed(entries, gaps, p, j) then rest else [c] + rest)
    decreases entries, 0
  {
    hide Run, EntryText, EntryTaken;
    var tail := [c] + rest;
    if entries == [] {
      RunWhite(st, gaps(p, j, Before), tail);
    } else if |entries| == 1 {
      RunEntry(st, entries[0], gaps, p, j, gaps(p, j, After), c, rest);
      assert entries[1..] == [];
    } else {
      var more := EntriesText(entries[1..], gaps, p, j + 1, tail);
      RunEntry(st, entries[0], gaps, p, j, gaps(p, j, After), ',', more);
      var o := EntryTaken(st, entries[0], gaps, p, j);
      if o.Next? {
        RunSkip(o.st, ',', more);
        RunEntries(o.st, entries[1..], gaps, p, j + 1, c, rest);
      }
    }
  }

  lemma {:induction false} RunElements(st: State, elements: seq<Value>, gaps: Gaps, p: seq<nat>, j: nat, c: char, rest: string)
    requires Fits(st) && (forall k :: 0 <= k < |elements| ==> Writable(elements[k])) && White(gaps) && !IsNumeral(c)
    ensures Run(st, ElementsText(elements, gaps, p, j, [c] + rest))
         == Then(ElementsTaken(st, elements, gaps, p, j), if SwallowedBy(elements, gaps, p, j) then rest else [c] + rest)
    decreases elements, 0
  {
    hide Run, ValueText, ValueTaken;
    var tail := [c] + rest;
    if elements == [] {
      RunWhite(st, gaps(p, j, Before), tail);
    } else {
      var after := gaps(p, j, After) + if |elements| == 1 then tail else "," + ElementsText(elements[1..], gaps, p, j + 1, tail);
      RunWhite(st, gaps(p, j, Before), ValueText(elements[0], gaps, p + [j], after));
      if |elements| == 1 {
        RunValue(st, elements[0], gaps, p + [j], gaps(p, j, After), c, rest);
        assert elements[1..] == [];
      } else {
        var more := ElementsText(elements[1..], gaps, p, j + 1, tail);
        RunValue(st, elements[0], gaps, p + [j], gaps(p, j, After), ',', more);
        var o := ValueTaken(st, elements[0], gaps, p + [j]);
        if o.Next? {
          RunSkip(o.st, ',', more);
          RunElements(o.st, elements[1..], gaps, p, j + 1, c, rest);
        }
      }
    }
  }

  // ----- reading back -----

  ghost function KeysOf(entries: seq<Entry>): set<string> {
    set e | e in entries :: e.key
  }

  /** d, in the containers from lo on, is the value v. */
  ghost predicate Reads(h: seq<Container>, lo: nat, d: Datum, v: Value)
    decreases v
  {
    match v
    case Str(text) => d == Text(text)
    case Num(n) => d == Integer(n)
    case Bool(b) => d == Boolean(b)
    case Null => d == Nothing
    case Arr(elements) =>
      && d.Ref? && lo <= d.addr < |h| && h[d.addr].Sequence?
      && |h[d.addr].elements| == |elements|
      && forall j :: 0 <= j < |elements| ==> Reads(h, lo, h[d.addr].elements[j], elements[j])
    case Obj(entries) =>
      && d.Ref? && lo <= d.addr < |h| && h[d.addr].Dict?
      && h[d.addr].entries.Keys == KeysOf(entries)
      && forall j :: 0 <= j < |entries| ==> Reads(h, lo, h[d.addr].entries[entries[j].key], entries[j].value)
  }

  /** Reading the text gives the dictionary of these entries. */
  ghost predicate ReadsBack(text: string, entries: seq<Entry>) {
    match Run(START, text)
    case Failed(_) => false
    case Done(h, top) => top >= 0 && Reads(h, 0, Ref(top), Obj(entries))
  }

  /** So does reading what was written. */
  ghost predicate ReadBack(entries: seq<Entry>) {
    ReadsBack(Written(Obj(entries)), entries)
  }

  /** The integers come back as they were: those that are not negative, and the least of all, whose
      magnitude wraps around to it. */
  ghost predicate Honest(v: Value)
    decreases v
  {
    match v
    case Num(n) => n >= 0 || n == -INT64_MAX - 1
    case Obj(entries) => forall j :: 0 <= j < |entries| ==> Honest(entries[j].value)
    case Arr(elements) => forall j :: 0 <= j < |elements| ==> Honest(elements[j])
    case _ => true
  }

  /** Arrays hold no containers. */
  ghost predicate FlatArrays(v: Value)
    decreases v
  {
    match v
    case Obj(entries) => forall j :: 0 <= j < |entries| ==> FlatArrays(entries[j].value)
    case Arr(elements) => forall j :: 0 <= j < |elements| ==> !IsContainer(elements[j])
    case _ => true
  }

  /** After such a value the reader is back in the dictionary it was in: only one container around the
      current one is remembered, and a bare value may swallow the closing bracket. */
  ghost predicate Returns(v: Value, gaps: Gaps, p: seq<nat>) {
    match v
    case Obj(entries) => !Swallowed(entries, gaps, p, 0) && forall j :: 0 <= j < |entries| ==> !IsContainer(entries[j].value)
    case Arr(elements) => !SwallowedBy(elements, gaps, p, 0)
    case _ => true
  }

  /** In every dictionary, the reader returns from each value but the last. */
  ghost predicate Good(entries: seq<Entry>, gaps: Gaps, p: seq<nat>, j: nat)
    decreases entries
  {
    entries != [] ==>
      && (|entries| > 1 ==> Returns(entries[0].value, gaps, p + [j]))
      && (entries[0].value.Obj? ==> Good(entries[0].value.entries, gaps, p + [j], 0))
      && Good(entries[1..], gaps, p, j + 1)
  }

  /** About to read a key, in a dictionary. */
  ghost predicate Ready(st: State) {
    Fits(st) && st.top != NULL && st.current != NULL && st.heap[st.current].Dict? && st.key == None
  }

  ghost function Here(st: State): map<string, Datum>
    requires Ready(st)
  {
    st.heap[st.current].entries
  }

  /** Containers refer to containers made after them. */
  ghost predicate Closed(h: seq<Container>) {
    forall a :: 0 <= a < |h| ==> Above(h[a], a, |h|)
  }

  ghost predicate Above(c: Container, a: nat, n: nat) {
    match c
    case Dict(entries) => forall k :: k in entries && entries[k].Ref? ==> a < entries[k].addr < n
    case Sequence(elements) => forall i :: 0 <= i < |elements| && elements[i].Ref? ==> a < elements[i].addr < n
  }

  /** Of the containers there were, only the one at c has changed. */
  ghost predicate Grown(h: seq<Container>, h': seq<Container>, c: int) {
    |h| <= |h'| && forall a :: 0 <= a < |h| && a != c ==> h'[a] == h[a]
  }

  ghost function Stored(st: State, k: string, d: Datum): State
    requires Ready(st)
  {
    st.(heap := st.heap[st.current := Dict(Here(st)[k := d])])
  }

  /** A new container, entered under the key k. */
  ghost function Entered(st: State, k: string, container: Container): State
    requires Ready(st)
  {
    var addr := |st.heap|;
    Stored(st, k, Ref(addr)).(heap := Stored(st, k, Ref(addr)).heap + [container], current := addr, underlying := st.current,
                              key := if container.Dict? then None else Some(k))
  }

  lemma EnteredOpen(st: State, k: string, container: Container)
    requires Ready(st) && container in [Dict(map[]), Sequence([])]
    ensures Open(st.(key := Some(k)), container) == Next(Entered(st, k, container), 1) && Fits(Entered(st, k, container))
    ensures Grown(st.heap, Entered(st, k, container).heap, st.current)
    ensures Closed(st.heap) ==> Closed(Entered(st, k, container).heap)
  {
  }

  lemma {:induction false} ScalarTaken(st: State, e: Entry, gaps: Gaps, p: seq<nat>, j: nat)
    requires Ready(st) && !IsContainer(e.value)
    ensures EntryTaken(st, e, gaps, p, j) == Next(Stored(st, e.key, DatumOf(e.value)), 0)
  {
  }

  function Data(elements: seq<Value>): (data: seq<Datum>)
    requires forall j :: 0 <= j < |elements| ==> !IsContainer(elements[j])
    ensures |data| == |elements| && forall j :: 0 <= j < |elements| ==> data[j] == DatumOf(elements[j])
  {
    if elements == [] then [] else [DatumOf(elements[0])] + Data(elements[1..])
  }

  /** In an array that is read under a key, each scalar is put behind those before it. */
  lemma {:induction false} FlatElements(st: State, elements: seq<Value>, gaps: Gaps, p: seq<nat>, j: nat)
    requires Fits(st) && st.current != NULL && st.heap[st.current].Sequence? && st.key.Some?
    requires forall k :: 0 <= k < |elements| ==> !IsContainer(elements[k])
    ensures ElementsTaken(st, elements, gaps, p, j)
         == Next(st.(heap := st.heap[st.current := Sequence(st.heap[st.current].elements + Data(elements))]), 0)
    decreases elements
  {
    var before := st.heap[st.current].elements;
    if elements == [] {
      assert before + [] == before;
    } else {
      var st1 := st.(heap := st.heap[st.current := Sequence(before + [DatumOf(elements[0])])]);
      assert ValueTaken(st, elements[0], gaps, p + [j]) == Next(st1, 0);
      FlatElements(st1, elements[1..], gaps, p, j + 1);
      Associate(before, [DatumOf(elements[0])], Data(elements[1..]));
    }
  }

  lemma {:induction false} ScalarsStay(st: State, entries: seq<Entry>, gaps: Gaps, p: seq<nat>, j: nat)
    requires Ready(st) && forall k :: 0 <= k < |entries| ==> !IsContainer(entries[k].value)
    ensures var o := EntriesTaken(st, entries, gaps, p, j);
      o.Next? && o.st.current == st.current && o.st.underlying == st.underlying
    decreases entries
  {
    if entries != [] {
      ScalarTaken(st, entries[0], gaps, p, j);
      ScalarsStay(Stored(st, entries[0].key, DatumOf(entries[0].value)), entries[1..], gaps, p, j + 1);
    }
  }

  lemma {:induction false} ReadsKept(h: seq<Container>, h': seq<Container>, lo: nat, lo': nat, d: Datum, v: Value)
    requires Closed(h) && |h| <= |h'| && (d.Ref? ==> lo <= d.addr < |h|) && lo' <= lo
    requires forall a :: lo <= a < |h| ==> h'[a] == h[a]
    ensures Reads(h', lo', d, v) <==> Reads(h, lo, d, v)
    decreases v
  {
    if v.Obj? && d.Ref? && h[d.addr].Dict? && h[d.addr].entries.Keys == KeysOf(v.entries) {
      forall j | 0 <= j < |v.entries|
        ensures Reads(h', lo', h[d.addr].entries[v.entries[j].key], v.entries[j].value)
            <==> Reads(h, lo, h[d.addr].entries[v.entries[j].key], v.entries[j].value)
      {
        assert v.entries[j] in v.entries && v.entries[j].key in KeysOf(v.entries);
        ReadsKept(h, h', lo, lo', h[d.addr].entries[v.entries[j].key], v.entries[j].value);
      }
    } else if v.Arr? && d.Ref? && h[d.addr].Sequence? && |h[d.addr].elements| == |v.elements| {
      forall j | 0 <= j < |v.elements|
        ensures Reads(h', lo', h[d.addr].elements[j], v.elements[j]) <==> Reads(h, lo, h[d.addr].elements[j], v.elements[j])
      {
        ReadsKept(h, h', lo, lo', h[d.addr].elements[j], v.elements[j]);
      }
    }
  }

  /** What the current dictionary holds, once the entries have been added to m. */
  ghost predicate Filled(m: map<string, Datum>, entries: seq<Entry>, lo: nat, c: Container, h: seq<Container>) {
    && c.Dict? && c.entries.Keys == m.Keys + KeysOf(entries)
    && (forall k :: k in m && k !in KeysOf(entries) ==> c.entries[k] == m[k])
    && (forall j :: 0 <= j < |entries| ==> FilledAt(entries[j], lo, c, h))
  }

  ghost predicate FilledAt(e: Entry, lo: nat, c: Container, h: seq<Container>) {
    && c.Dict? && e.key in c.entries
    && var d := c.entries[e.key];
      (d.Ref? ==> lo <= d.addr < |h|) && (Reads(h, lo, d, e.value) <==> Honest(e.value))
  }

  lemma {:induction false} ScalarReads(h: seq<Container>, lo: nat, v: Value)
    requires Writable(v) && !IsContainer(v)
    ensures Reads(h, lo, DatumOf(v), v) <==> Honest(v)
  {
  }

  lemma {:induction false} FilledOne(m: map<string, Datum>, e: Entry, d: Datum, lo: nat, h: seq<Container>)
    requires (d.Ref? ==> lo <= d.addr < |h|) && (Reads(h, lo, d, e.value) <==> Honest(e.value))
    ensures Filled(m, [e], lo, Dict(m[e.key := d]), h)
  {
    assert KeysOf([e]) == {e.key};
  }

  /** An entry whose value is the last in its dictionary, or lets the reader return. */
  lemma {:induction false} EntryRead(st: State, e: Entry, gaps: Gaps, p: seq<nat>, j: nat)
    requires Ready(st) && Closed(st.heap) && Writable(e.value) && FlatArrays(e.value)
    requires e.value.Obj? ==> Good(e.value.entries, gaps, p + [j], 0)
    ensures var o := EntryTaken(st, e, gaps, p, j);
      && o.Next? && o.st.top == st.top && Closed(o.st.heap) && Grown(st.heap, o.st.heap, st.current)
      && Filled(Here(st), [e], |st.heap|, o.st.heap[st.current], o.st.heap)
    decreases e
  {
    hide Filled, Good, Open, ElementsTaken, EntriesTaken, Grown, Closed, Reads, Honest;
    match e.value {
      case Obj(entries) => ObjectRead(st, e, gaps, p, j);
      case Arr(elements) => ArrayRead(st, e, gaps, p, j);
      case _ => ScalarRead(st, e, gaps, p, j);
    }
  }

  lemma {:induction false} ScalarRead(st: State, e: Entry, gaps: Gaps, p: seq<nat>, j: nat)
    requires Ready(st) && Closed(st.heap) && Writable(e.value) && !IsContainer(e.value)
    ensures var o := EntryTaken(st, e, gaps, p, j);
      && o.Next? && o.st.top == st.top && Closed(o.st.heap) && Grown(st.heap, o.st.heap, st.current)
      && Filled(Here(st), [e], |st.heap|, o.st.heap[st.current], o.st.heap)
  {
    hide Filled, Reads, Honest, EntryTaken;
    ScalarTaken(st, e, gaps, p, j);
    var h := Stored(st, e.key, DatumOf(e.value)).heap;
    ScalarReads(h, |st.heap|, e.value);
    FilledOne(Here(st), e, DatumOf(e.value), |st.heap|, h);
  }

  lemma {:induction false} ArrayTaken(st: State, e: Entry, gaps: Gaps, p: seq<nat>, j: nat)
    requires Ready(st) && FlatArrays(e.value) && e.value.Arr?
    ensures var o := EntryTaken(st, e, gaps, p, j);
      && o.Next? && o.st.top == st.top
      && o.st.heap == Stored(st, e.key, Ref(|st.heap|)).heap + [Sequence(Data(e.value.elements))]
      && (Returns(e.value, gaps, p + [j]) ==> o.st.current == st.current && o.st.key == None)
  {
    hide ElementsTaken, Open;
    var elements := e.value.elements;
    var st1 := Entered(st, e.key, Sequence([]));
    EnteredOpen(st, e.key, Sequence([]));
    FlatElements(st1, elements, gaps, p + [j], 0);
    assert [] + Data(elements) == Data(elements);
    assert st1.heap[|st.heap| := Sequence(Data(elements))]
        == Stored(st, e.key, Ref(|st.heap|)).heap + [Sequence(Data(elements))];
  }

  lemma {:induction false} ArrayRead(st: State, e: Entry, gaps: Gaps, p: seq<nat>, j: nat)
    requires Ready(st) && Closed(st.heap) && Writable(e.value) && FlatArrays(e.value) && e.value.Arr?
    ensures var o := EntryTaken(st, e, gaps, p, j);
      && o.Next? && o.st.top == st.top && Closed(o.st.heap) && Grown(st.heap, o.st.heap, st.current)
      && Filled(Here(st), [e], |st.heap|, o.st.heap[st.current], o.st.heap)
      && (Returns(e.value, gaps, p + [j]) ==> Ready(o.st) && o.st.current == st.current)
  {
    hide Filled, Honest, EntryTaken, Returns, Reads, Closed;
    var a := |st.heap|;
    ArrayTaken(st, e, gaps, p, j);
    var h := Stored(st, e.key, Ref(a)).heap + [Sequence(Data(e.value.elements))];
    ArrayClosed(st, e.key, e.value.elements);
    ArrayReads(h, a, e.value.elements);
    FilledOne(Here(st), e, Ref(a), a, h);
  }

  lemma AboveMore(c: Container, a: nat, n: nat)
    requires Above(c, a, n)
    ensures Above(c, a, n + 1)
  {
  }

  lemma AboveStored(m: map<string, Datum>, k: string, a: nat, n: nat)
    requires Above(Dict(m), a, n) && a < n
    ensures Above(Dict(m[k := Ref(n)]), a, n + 1)
  {
  }

  lemma {:induction false} AboveScalars(elements: seq<Value>, a: nat, n: nat)
    requires forall j :: 0 <= j < |elements| ==> !IsContainer(elements[j])
    ensures Above(Sequence(Data(elements)), a, n)
  {
    forall j | 0 <= j < |elements|
      ensures !Data(elements)[j].Ref?
    {
    }
  }

  lemma ClosedPush(h: seq<Container>, c: nat, changed: Container, pushed: Container)
    requires Closed(h) && c < |h| && Above(changed, c, |h| + 1) && Above(pushed, |h|, |h| + 1)
    ensures Closed(h[c := changed] + [pushed])
  {
    hide Above;
    forall a | 0 <= a < |h|
      ensures Above(h[a], a, |h| + 1)
    {
      AboveMore(h[a], a, |h|);
    }
  }

  lemma {:induction false} ArrayClosed(st: State, k: string, elements: seq<Value>)
    requires Ready(st) && Closed(st.heap) && forall j :: 0 <= j < |elements| ==> !IsContainer(elements[j])
    ensures Closed(Stored(st, k, Ref(|st.heap|)).heap + [Sequence(Data(elements))])
  {
    hide Above, Data, DatumOf, Closed;
    var n, c := |st.heap|, st.current;
    HereAbove(st);
    AboveScalars(elements, n, n + 1);
    AboveStored(Here(st), k, c, n);
    ClosedPush(st.heap, c, Dict(Here(st)[k := Ref(n)]), Sequence(Data(elements)));
  }

  lemma HereAbove(st: State)
    requires Ready(st) && Closed(st.heap)
    ensures Above(Dict(Here(st)), st.current, |st.heap|)
  {
  }

  lemma {:induction false} ArrayReads(h: seq<Container>, a: nat, elements: seq<Value>)
    requires forall j :: 0 <= j < |elements| ==> Writable(elements[j]) && !IsContainer(elements[j])
    requires a < |h| && h[a] == Sequence(Data(elements))
    ensures Reads(h, a, Ref(a), Arr(elements)) <==> Honest(Arr(elements))
  {
    forall j | 0 <= j < |elements|
      ensures Reads(h, a, h[a].elements[j], elements[j]) <==> Honest(elements[j])
    {
      ScalarReads(h, a, elements[j]);
    }
  }

  lemma {:induction false} ObjectRead(st: State, e: Entry, gaps: Gaps, p: seq<nat>, j: nat)
    requires Ready(st) && Closed(st.heap) && Writable(e.value) && FlatArrays(e.value) && e.value.Obj?
    requires Good(e.value.entries, gaps, p + [j], 0)
    ensures var o := EntryTaken(st, e, gaps, p, j);
      && o.Next? && o.st.top == st.top && Closed(o.st.heap) && Grown(st.heap, o.st.heap, st.current)
      && Filled(Here(st), [e], |st.heap|, o.st.heap[st.current], o.st.heap)
    decreases e, 0
  {
    hide Filled, Reads, Honest, EntriesTaken, Good, Closed;
    var a := |st.heap|;
    var st1 := Entered(st, e.key, Dict(map[]));
    EnteredOpen(st, e.key, Dict(map[]));
    EntriesRead(st1, e.value.entries, gaps, p + [j], 0);
    var h := EntriesTaken(st1, e.value.entries, gaps, p + [j], 0).st.heap;
    ObjectFilled(h, a, e.value.entries);
    FilledOne(Here(st), e, Ref(a), a, h);
  }

  lemma {:induction false} ObjectFilled(h: seq<Container>, a: nat, entries: seq<Entry>)
    requires Closed(h) && a < |h| && Filled(map[], entries, a + 1, h[a], h)
    ensures Reads(h, a, Ref(a), Obj(entries)) <==> Honest(Obj(entries))
  {
    forall j | 0 <= j < |entries|
      ensures Reads(h, a, h[a].entries[entries[j].key], entries[j].value) <==> Honest(entries[j].value)
    {
      assert FilledAt(entries[j], a + 1, h[a], h);
      ReadsKept(h, h, a + 1, a, h[a].entries[entries[j].key], entries[j].value);
    }
    assert h[a].entries.Keys == KeysOf(entries);
  }

  /** After a value that lets the reader return, it is where it was. */
  lemma {:induction false} ReturnsHere(st: State, e: Entry, gaps: Gaps, p: seq<nat>, j: nat)
    requires Ready(st) && Closed(st.heap) && Writable(e.value) && FlatArrays(e.value) && Returns(e.value, gaps, p + [j])
    ensures var o := EntryTaken(st, e, gaps, p, j);
      && o.Next? && o.st.top == st.top && Closed(o.st.heap) && Grown(st.heap, o.st.heap, st.current)
      && Ready(o.st) && o.st.current == st.current
      && Filled(Here(st), [e], |st.heap|, Dict(Here(o.st)), o.st.heap)
    decreases e, 1
  {
    hide Filled, Closed, Reads, Honest, ElementsTaken, EntriesTaken;
    match e.value {
      case Obj(entries) =>
        ScalarsGood(entries, gaps, p + [j], 0);
        hide Good;
        ObjectRead(st, e, gaps, p, j);
        EnteredOpen(st, e.key, Dict(map[]));
        ScalarsStay(Entered(st, e.key, Dict(map[])), entries, gaps, p + [j], 0);
        FilledDict(Here(st), [e], |st.heap|, EntryTaken(st, e, gaps, p, j).st.heap, st.current);
      case Arr(elements) =>
        ArrayRead(st, e, gaps, p, j);
      case _ =>
        ScalarRead(st, e, gaps, p, j);
        ScalarTaken(st, e, gaps, p, j);
    }
  }

  lemma {:induction false} FilledDict(m: map<string, Datum>, entries: seq<Entry>, lo: nat, h: seq<Container>, c: nat)
    requires c < |h| && Filled(m, entries, lo, h[c], h)
    ensures h[c].Dict?
  {
  }

  lemma {:induction false} ScalarsGood(entries: seq<Entry>, gaps: Gaps, p: seq<nat>, j: nat)
    requires forall k :: 0 <= k < |entries| ==> !IsContainer(entries[k].value)
    ensures Good(entries, gaps, p, j)
    decreases |entries|
  {
    if entries != [] {
      ScalarsGood(entries[1..], gaps, p, j + 1);
    }
  }

  lemma {:induction false} EntriesRead(st: State, entries: seq<Entry>, gaps: Gaps, p: seq<nat>, j: nat)
    requires Ready(st) && Closed(st.heap) && WritableEntries(entries) && Good(entries, gaps, p, j)
    requires forall k :: 0 <= k < |entries| ==> FlatArrays(entries[k].value)
    ensures var o := EntriesTaken(st, entries, gaps, p, j);
      && o.Next? && o.st.top == st.top && Closed(o.st.heap) && Grown(st.heap, o.st.heap, st.current)
      && Filled(Here(st), entries, |st.heap|, o.st.heap[st.current], o.st.heap)
    decreases entries
  {
    hide Reads, Honest, Closed, EntryTaken, Writable, FlatArrays, Returns, Filled;
    if entries == [] {
      FilledNone(Here(st), |st.heap|, st.heap);
    } else {
      var e, rest := entries[0], entries[1..];
      if |entries| == 1 {
        EntryRead(st, e, gaps, p, j);
        assert rest == [] && entries == [e];
      } else {
        ReturnsHere(st, e, gaps, p, j);
        var st1 := EntryTaken(st, e, gaps, p, j).st;
        EntriesRead(st1, rest, gaps, p, j + 1);
        KeyDiffers(entries);
        FilledMore(Here(st), st1.heap, EntriesTaken(st1, rest, gaps, p, j + 1).st.heap, st.current, e, rest, |st.heap|);
        assert [e] + rest == entries;
      }
    }
  }

  lemma FilledNone(m: map<string, Datum>, lo: nat, h: seq<Container>)
    ensures Filled(m, [], lo, Dict(m), h)
  {
    assert KeysOf([]) == {};
  }

  lemma {:induction false} KeyDiffers(entries: seq<Entry>)
    requires WritableEntries(entries) && entries != []
    ensures entries[0].key !in KeysOf(entries[1..])
  {
  }

  /** The later entries leave the first one as it was read. */
  lemma {:induction false} FilledMore(m: map<string, Datum>, h1: seq<Container>, h: seq<Container>, c: nat, e: Entry, rest: seq<Entry>, lo: nat)
    requires Closed(h1) && Closed(h) && c < lo <= |h1| && Grown(h1, h, c) && e.key !in KeysOf(rest)
    requires h1[c].Dict? && Filled(m, [e], lo, h1[c], h1) && Filled(h1[c].entries, rest, |h1|, h[c], h)
    ensures Filled(m, [e] + rest, lo, h[c], h)
  {
    hide Reads, Honest, Closed;
    var entries := [e] + rest;
    assert KeysOf([e]) == {e.key};
    assert KeysOf(entries) == {e.key} + KeysOf(rest);
    FirstStays(m, h1, h, c, e, lo);
    forall j | 0 <= j < |entries|
      ensures FilledAt(entries[j], lo, h[c], h)
    {
      if j > 0 {
        assert FilledAt(rest[j - 1], |h1|, h[c], h);
        ReadsKept(h, h, |h1|, lo, h[c].entries[entries[j].key], entries[j].value);
      }
    }
  }

  lemma {:induction false} FirstStays(m: map<string, Datum>, h1: seq<Container>, h: seq<Container>, c: nat, e: Entry, lo: nat)
    requires Closed(h1) && c < lo <= |h1| && Grown(h1, h, c)
    requires Filled(m, [e], lo, h1[c], h1) && h[c].Dict? && e.key in h[c].entries && h[c].entries[e.key] == h1[c].entries[e.key]
    ensures FilledAt(e, lo, h[c], h)
  {
    hide Reads, Honest, Closed;
    assert FilledAt([e][0], lo, h1[c], h1);
    ReadsKept(h1, h, lo, lo, h1[c].entries[e.key], e.value);
  }

  // ----- and where not -----

  /** The reader is in a container made after the first n. */
  ghost predicate Away(st: State, n: nat) {
    Fits(st) && st.top != NULL && n <= |st.heap| && n <= st.current
  }

  /** And so is the container it would go back to: it never again comes to one of the first n. */
  ghost predicate Beyond(st: State, n: nat) {
    Away(st, n) && n <= st.underlying
  }

  ghost predicate Kept(st: State, o: Outcome, n: nat) {
    o.Next? ==> n <= |st.heap| <= |o.st.heap| && o.st.top == st.top && o.st.heap[..n] == st.heap[..n]
  }

  lemma StringAway(st: State, text: string, n: nat)
    requires Away(st, n)
    ensures var o := StringTaken(st, text);
      Kept(st, o, n) && (o.Next? ==> Away(o.st, n) && (Beyond(st, n) ==> Beyond(o.st, n)))
  {
  }

  lemma OpenAway(st: State, container: Container, n: nat)
    requires Away(st, n)
    ensures var o := Open(st, container); Kept(st, o, n) && (o.Next? ==> Beyond(o.st, n))
  {
  }

  lemma KeptMore(st: State, o: Outcome, o': Outcome, n: nat)
    requires Kept(st, o, n) && o.Next? && Kept(o.st, o', n)
    ensures Kept(st, o', n)
  {
  }

  /** Away from them the reader leaves the first n containers alone, and once it has been in another, for good. */
  lemma {:induction false} ValueAway(st: State, v: Value, gaps: Gaps, p: seq<nat>, n: nat)
    requires Away(st, n)
    ensures var o := ValueTaken(st, v, gaps, p);
      Kept(st, o, n) && (o.Next? ==> Away(o.st, n) && (Beyond(st, n) || IsContainer(v) ==> Beyond(o.st, n)))
    decreases v
  {
    hide Open, EntriesTaken, ElementsTaken;
    match v {
      case Str(text) => StringAway(st, text, n);
      case Obj(entries) =>
        OpenAway(st, Dict(map[]), n);
        var o := Open(st, Dict(map[]));
        if o.Next? {
          EntriesAway(o.st, entries, gaps, p, 0, n);
        }
      case Arr(elements) =>
        OpenAway(st, Sequence([]), n);
        var o := Open(st, Sequence([]));
        if o.Next? {
          ElementsAway(o.st, elements, gaps, p, 0, n);
        }
      case _ =>
    }
  }

  lemma {:induction false} EntriesAway(st: State, entries: seq<Entry>, gaps: Gaps, p: seq<nat>, j: nat, n: nat)
    requires Away(st, n)
    ensures var o := EntriesTaken(st, entries, gaps, p, j);
      && Kept(st, o, n)
      && (o.Next? ==> Away(o.st, n))
      && (o.Next? && (Beyond(st, n) || exists k :: 0 <= k < |entries| && IsContainer(entries[k].value)) ==> Beyond(o.st, n))
    decreases entries
  {
    assert Fits(st);
    hide Away, Beyond, Kept, ValueTaken, StringTaken, IsContainer;
    if entries == [] {
      KeptSame(st, n);
    } else {
      var keyed := StringTaken(st, entries[0].key);
      StringAway(st, entries[0].key, n);
      if keyed.Next? {
        ValueAway(keyed.st, entries[0].value, gaps, p + [j], n);
        var o := EntryTaken(st, entries[0], gaps, p, j);
        if o.Next? {
          KeptMore(st, keyed, o, n);
          EntriesAway(o.st, entries[1..], gaps, p, j + 1, n);
          KeptMore(st, o, EntriesTaken(o.st, entries[1..], gaps, p, j + 1), n);
          assert forall k :: 1 <= k < |entries| ==> entries[k] == entries[1..][k - 1];
        } else {
          KeptStop(st, o, n);
        }
      } else {
        KeptStop(st, keyed, n);
      }
    }
  }

  lemma KeptSame(st: State, n: nat)
    requires Away(st, n)
    ensures Kept(st, Next(st, 0), n)
  {
  }

  lemma KeptStop(st: State, o: Outcome, n: nat)
    requires o.Stop?
    ensures Kept(st, o, n)
  {
  }

  lemma {:induction false} ElementsAway(st: State, elements: seq<Value>, gaps: Gaps, p: seq<nat>, j: nat, n: nat)
    requires Away(st, n)
    ensures var o := ElementsTaken(st, elements, gaps, p, j);
      Kept(st, o, n) && (o.Next? ==> Away(o.st, n) && (Beyond(st, n) ==> Beyond(o.st, n)))
    decreases elements
  {
    assert Fits(st);
    hide Away, Beyond, Kept, ValueTaken;
    if elements == [] {
      KeptSame(st, n);
    } else {
      ValueAway(st, elements[0], gaps, p + [j], n);
      var o := ValueTaken(st, elements[0], gaps, p + [j]);
      if o.Next? {
        ElementsAway(o.st, elements[1..], gaps, p, j + 1, n);
        KeptMore(st, o, ElementsTaken(o.st, elements[1..], gaps, p, j + 1), n);
      } else {
        KeptStop(st, o, n);
      }
    }
  }

  /** A container that does not let the reader return leaves it away. */
  lemma {:induction false} LeavesAway(st: State, e: Entry, gaps: Gaps, p: seq<nat>, j: nat)
    requires Ready(st) && IsContainer(e.value) && !Returns(e.value, gaps, p + [j])
    ensures var o := EntryTaken(st, e, gaps, p, j);
      o.Next? ==>
        && Away(o.st, |st.heap|) && o.st.top == st.top
        && o.st.heap[..|st.heap|] == Stored(st, e.key, Ref(|st.heap|)).heap
  {
    hide EntriesTaken, ElementsTaken, Open;
    var n := |st.heap|;
    if e.value.Obj? {
      var st1 := Entered(st, e.key, Dict(map[]));
      EnteredOpen(st, e.key, Dict(map[]));
      EntriesAway(st1, e.value.entries, gaps, p + [j], 0, n);
      assert st1.heap[..n] == Stored(st, e.key, Ref(n)).heap;
    } else {
      var st1 := Entered(st, e.key, Sequence([]));
      EnteredOpen(st, e.key, Sequence([]));
      ElementsAway(st1, e.value.elements, gaps, p + [j], 0, n);
      assert st1.heap[..n] == Stored(st, e.key, Ref(n)).heap;
    }
  }

  /** The entry is missing from the dictionary at a, or what stands there is not its value. */
  ghost predicate Unread(h: seq<Container>, a: int, e: Entry) {
    0 <= a < |h| && h[a].Dict? && (e.key in h[a].entries ==> !Reads(h, 0, h[a].entries[e.key], e.value))
  }

  lemma {:induction false} LostMeansUnread(h: seq<Container>, a: nat, entries: seq<Entry>, e: Entry)
    requires e in entries && Unread(h, a, e)
    ensures !Reads(h, 0, Ref(a), Obj(entries))
  {
    var j :| 0 <= j < |entries| && entries[j] == e;
    assert e.key in KeysOf(entries);
  }

  /** Where the reader does not find its way back, it fails, or some entry is lost: the one after a container it
      has not come back from, or one in the last dictionary. */
  lemma {:induction false} EntryLost(st: State, entries: seq<Entry>, gaps: Gaps, p: seq<nat>, j: nat) returns (e: Entry)
    requires Ready(st) && Closed(st.heap) && WritableEntries(entries) && !Good(entries, gaps, p, j)
    requires forall k :: 0 <= k < |entries| ==> FlatArrays(entries[k].value)
    requires forall e :: e in entries ==> e.key !in Here(st)
    ensures e in entries
    ensures var o := EntriesTaken(st, entries, gaps, p, j);
      o.Next? ==> o.st.top == st.top && Grown(st.heap, o.st.heap, st.current) && Unread(o.st.heap, st.current, e)
    decreases entries
  {
    hide EntryTaken, Returns, Reads, Unread, Closed, FlatArrays, Writable;
    var first, rest := entries[0], entries[1..];
    assert first in entries;
    if |entries| == 1 {
      assert rest == [] && Good(rest, gaps, p, j + 1);
      LastLost(st, first, gaps, p, j);
      e := first;
    } else if Returns(first.value, gaps, p + [j]) {
      e := RestLost(st, entries, gaps, p, j);
    } else {
      e := entries[1];
      NextLost(st, entries, gaps, p, j);
    }
  }

  lemma {:induction false} RestLost(st: State, entries: seq<Entry>, gaps: Gaps, p: seq<nat>, j: nat) returns (e: Entry)
    requires Ready(st) && Closed(st.heap) && WritableEntries(entries) && !Good(entries, gaps, p, j)
    requires forall k :: 0 <= k < |entries| ==> FlatArrays(entries[k].value)
    requires forall e :: e in entries ==> e.key !in Here(st)
    requires |entries| > 1 && Returns(entries[0].value, gaps, p + [j])
    ensures e in entries
    ensures var o := EntriesTaken(st, entries, gaps, p, j);
      o.Next? ==> o.st.top == st.top && Grown(st.heap, o.st.heap, st.current) && Unread(o.st.heap, st.current, e)
    decreases entries, 0
  {
    hide EntryTaken, Reads, Unread, Closed, FlatArrays, Writable;
    var first, rest := entries[0], entries[1..];
    ReturnsHere(st, first, gaps, p, j);
    var st1 := EntryTaken(st, first, gaps, p, j).st;
    ReturnsGood(first.value, gaps, p + [j]);
    KeyDiffers(entries);
    assert KeysOf([first]) == {first.key};
    forall e | e in rest
      ensures e.key !in Here(st1)
    {
      assert e in entries && e.key in KeysOf(rest);
    }
    e := EntryLost(st1, rest, gaps, p, j + 1);
  }

  lemma {:induction false} NextLost(st: State, entries: seq<Entry>, gaps: Gaps, p: seq<nat>, j: nat)
    requires Ready(st) && WritableEntries(entries) && |entries| > 1 && !Returns(entries[0].value, gaps, p + [j])
    requires forall e :: e in entries ==> e.key !in Here(st)
    ensures var o := EntriesTaken(st, entries, gaps, p, j);
      o.Next? ==> o.st.top == st.top && Grown(st.heap, o.st.heap, st.current) && Unread(o.st.heap, st.current, entries[1])
  {
    hide EntryTaken, Reads, Away;
    var first, rest := entries[0], entries[1..];
    var n, o := |st.heap|, EntryTaken(st, first, gaps, p, j);
    LeavesAway(st, first, gaps, p, j);
    assert entries[1] in entries && entries[1] in rest && entries[1].key != first.key;
    if o.Next? {
      EntriesAway(o.st, rest, gaps, p, j + 1, n);
      var after := EntriesTaken(o.st, rest, gaps, p, j + 1);
      hide EntriesTaken;
      if after.Next? {
        assert after.st.heap[..n] == Stored(st, first.key, Ref(n)).heap;
        forall a | 0 <= a < n
          ensures after.st.heap[a] == Stored(st, first.key, Ref(n)).heap[a]
        {
          assert after.st.heap[..n][a] == after.st.heap[a];
        }
      }
    }
  }

  lemma {:induction false} LastLost(st: State, e: Entry, gaps: Gaps, p: seq<nat>, j: nat)
    requires Ready(st) && Closed(st.heap) && Writable(e.value) && FlatArrays(e.value)
    requires e.value.Obj? && !Good(e.value.entries, gaps, p + [j], 0)
    ensures var o := EntryTaken(st, e, gaps, p, j);
      o.Next? ==> o.st.top == st.top && Grown(st.heap, o.st.heap, st.current) && Unread(o.st.heap, st.current, e)
    decreases e, 0
  {
    hide EntriesTaken, Good, Closed, Open;
    var a := |st.heap|;
    var st1 := Entered(st, e.key, Dict(map[]));
    EnteredOpen(st, e.key, Dict(map[]));
    var f := EntryLost(st1, e.value.entries, gaps, p + [j], 0);
    var o := EntriesTaken(st1, e.value.entries, gaps, p + [j], 0);
    if o.Next? {
      LostMeansUnread(o.st.heap, a, e.value.entries, f);
    }
  }

  lemma {:induction false} ReturnsGood(v: Value, gaps: Gaps, p: seq<nat>)
    requires Returns(v, gaps, p)
    ensures v.Obj? ==> Good(v.entries, gaps, p, 0)
  {
    if v.Obj? {
      ScalarsGood(v.entries, gaps, p, 0);
    }
  }

  // ----- the theorems -----

  const OPENED := State([Dict(map[])], 0, 0, NULL, None)

  lemma {:induction false} RunText(entries: seq<Entry>, gaps: Gaps, trailing: string)
    requires WritableEntries(entries) && White(gaps) && forall c :: c in trailing ==> IsWhite(c)
    ensures Run(START, ValueText(Obj(entries), gaps, [], trailing))
         == match EntriesTaken(OPENED, entries, gaps, [], 0)
            case Stop(error) => Failed(error)
            case Next(st, _) => Done(st.heap, st.top)
  {
    hide Run, EntriesText, EntriesTaken, White;
    RunOpen(START, '{', EntriesText(entries, gaps, [], 0, "}" + trailing));
    assert Open(START, Dict(map[])) == Next(OPENED, 1);
    RunEntries(OPENED, entries, gaps, [], 0, '}', trailing);
    var o := EntriesTaken(OPENED, entries, gaps, [], 0);
    if o.Next? {
      RunClose(o.st, '}', trailing);
      RunTrailing(o.st, trailing);
      RunTrailing(Closing(o.st), trailing);
    }
  }

  lemma RunTrailing(st: State, trailing: string)
    requires Fits(st) && forall c :: c in trailing ==> IsWhite(c)
    ensures Run(st, trailing) == Done(st.heap, st.top)
  {
    RunWhite(st, trailing, "");
    assert trailing + "" == trailing;
  }

  /** However deep dictionaries are nested, and wherever the text has white space in it: it reads as the dictionary
      it is the text of exactly if no integer is negative (but for the least one), and in each dictionary every
      value but the last lets the reader back: no dictionary there holds another container, and no container ends
      with a number, a boolean or null directly before its bracket. */
  lemma {:induction false} LaidReadBack(entries: seq<Entry>, gaps: Gaps, trailing: string)
    requires WritableEntries(entries) && forall j :: 0 <= j < |entries| ==> FlatArrays(entries[j].value)
    requires White(gaps) && forall c :: c in trailing ==> IsWhite(c)
    ensures ReadsBack(ValueText(Obj(entries), gaps, [], trailing), entries)
       <==> Honest(Obj(entries)) && Good(entries, gaps, [], 0)
  {
    hide Reads, Honest, Filled, Run, EntriesTaken, Good, FlatArrays, ValueText, White, WritableEntries, Unread;
    RunText(entries, gaps, trailing);
    var o := EntriesTaken(OPENED, entries, gaps, [], 0);
    if Good(entries, gaps, [], 0) {
      EntriesRead(OPENED, entries, gaps, [], 0);
      ObjectFilled(o.st.heap, 0, entries);
    } else {
      var e := EntryLost(OPENED, entries, gaps, [], 0);
      if o.Next? {
        LostMeansUnread(o.st.heap, 0, entries, e);
      }
    }
  }

  /** What is written reads back under the same condition, no white space standing before the brackets. */
  lemma {:induction false} ReadBackExactly(entries: seq<Entry>)
    requires WritableEntries(entries) && forall j :: 0 <= j < |entries| ==> FlatArrays(entries[j].value)
    ensures ReadBack(entries) <==> Honest(Obj(entries)) && Good(entries, CANONICAL, [], 0)
  {
    hide Reads, Honest, Run, Good, FlatArrays, ValueText, Written, WritableEntries, ReadsBack;
    WrittenText(Obj(entries), [], "");
    assert Written(Obj(entries)) + "" == Written(Obj(entries));
    LaidReadBack(entries, CANONICAL, "");
  }

  /** Where the reader finds its way back, only the integers decide. */
  lemma {:induction false} GoodReadBack(entries: seq<Entry>)
    requires WritableEntries(entries) && forall j :: 0 <= j < |entries| ==> FlatArrays(entries[j].value)
    requires Good(entries, CANONICAL, [], 0)
    ensures ReadBack(entries) <==> Honest(Obj(entries))
  {
    hide Honest, ReadBack, Good, WritableEntries, FlatArrays;
    ReadBackExactly(entries);
  }

  /** Any text of the dictionary with no white space directly before a bracket is read as what was written is. */
  lemma {:induction false} TightReadBack(entries: seq<Entry>, gaps: Gaps, trailing: string)
    requires WritableEntries(entries) && forall j :: 0 <= j < |entries| ==> FlatArrays(entries[j].value)
    requires White(gaps) && (forall p, j :: gaps(p, j, After) == "") && forall c :: c in trailing ==> IsWhite(c)
    ensures ReadsBack(ValueText(Obj(entries), gaps, [], trailing), entries) <==> ReadBack(entries)
  {
    hide Good, White, Writable, WritableEntries, FlatArrays, ReadsBack, ReadBack, ValueText, Honest;
    LaidReadBack(entries, gaps, trailing);
    ReadBackExactly(entries);
    GoodTight(entries, gaps, [], 0);
  }

  lemma {:induction false} GoodTight(entries: seq<Entry>, gaps: Gaps, p: seq<nat>, j: nat)
    requires forall q, i :: gaps(q, i, After) == ""
    ensures Good(entries, gaps, p, j) <==> Good(entries, CANONICAL, p, j)
    decreases entries
  {
    if entries != [] {
      if entries[0].value.Obj? {
        GoodTight(entries[0].value.entries, gaps, p + [j], 0);
      }
      GoodTight(entries[1..], gaps, p, j + 1);
    }
  }

  /** {"a":{"b":1}, "c":2} does not read back: "c" ends up in the dictionary under "a". */
  lemma BraceSwallowed()
    ensures var entries := [Entry("a", Obj([Entry("b", Num(1))])), Entry("c", Num(2))];
      WritableEntries(entries) && !ReadBack(entries)
  {
    hide Run, Reads, ReadBack, Written;
    var inner := [Entry("b", Num(1))];
    var entries := [Entry("a", Obj(inner)), Entry("c", Num(2))];
    NestedWritable(inner, entries);
    assert !Returns(entries[0].value, CANONICAL, [] + [0]);
    ReadBackExactly(entries);
  }

  lemma {:induction false} NestedWritable(inner: seq<Entry>, entries: seq<Entry>)
    requires inner == [Entry("b", Num(1))] && entries == [Entry("a", Obj(inner)), Entry("c", Num(2))]
    ensures WritableEntries(entries) && Honest(Obj(entries)) && forall j :: 0 <= j < |entries| ==> FlatArrays(entries[j].value)
  {
    assert inner[1..] == [] && WritableEntries([]);
    assert Writable(inner[0].value) && WritableEntries(inner);
    assert entries[1..] == [entries[1]] && entries[1..][1..] == [];
    assert Writable(entries[1].value) && WritableEntries(entries[1..]);
    assert Writable(entries[0].value) && entries[0].key != entries[1].key;
    assert Honest(inner[0].value) && Honest(entries[0].value) && Honest(entries[1].value);
    assert FlatArrays(inner[0].value) && FlatArrays(entries[0].value) && FlatArrays(entries[1].value);
  }

  /** With a line break before its closing brace it does. */
  lemma BraceSeen(gaps: Gaps)
    requires White(gaps) && gaps([0], 0, After) != ""
    ensures var entries := [Entry("a", Obj([Entry("b", Num(1))])), Entry("c", Num(2))];
      ReadsBack(ValueText(Obj(entries), gaps, [], ""), entries)
  {
    hide ReadsBack, ValueText, White;
    var inner := [Entry("b", Num(1))];
    var entries := [Entry("a", Obj(inner)), Entry("c", Num(2))];
    NestedWritable(inner, entries);
    ScalarsGood(inner, gaps, [0], 0);
    ScalarsGood(entries[1..], gaps, [], 1);
    assert [] + [0] == [0] && Returns(entries[0].value, gaps, [0]);
    assert Good(entries, gaps, [], 0);
    LaidReadBack(entries, gaps, "");
  }

  /** {"n":-1} does not: the sign is skipped. */
  lemma SignSkipped()
    ensures var entries := [Entry("n", Num(-1))];
      WritableEntries(entries) && !ReadBack(entries)
  {
    hide Run, Reads, ReadBack, Written;
    var entries := [Entry("n", Num(-1))];
    assert entries[1..] == [] && WritableEntries([]);
    assert Writable(entries[0].value) && !Honest(entries[0].value) && FlatArrays(entries[0].value);
    ReadBackExactly(entries);
  }

  /** A dictionary of scalars, arrays of scalars and dictionaries of scalars. */
  ghost predicate TwoLevels(entries: seq<Entry>) {
    forall j :: 0 <= j < |entries| ==>
      match entries[j].value
      case Obj(inner) => forall k :: 0 <= k < |inner| ==> !IsContainer(inner[k].value)
      case Arr(elements) => forall k :: 0 <= k < |elements| ==> !IsContainer(elements[k])
      case _ => true
  }

  ghost predicate BareEnd(v: Value) {
    match v
    case Obj(entries) => entries != [] && Bare(entries[|entries| - 1].value)
    case Arr(elements) => elements != [] && Bare(elements[|elements| - 1])
    case _ => false
  }

  /** No container but the last value ends with a number, a boolean or null. */
  ghost predicate NoBareEnd(entries: seq<Entry>) {
    forall j :: 0 <= j < |entries| - 1 ==> !BareEnd(entries[j].value)
  }

  lemma {:induction false} TwoLevelsGood(entries: seq<Entry>, p: seq<nat>, i: nat)
    requires TwoLevels(entries)
    ensures Good(entries, CANONICAL, p, i) <==> NoBareEnd(entries)
    decreases |entries|
  {
    if entries != [] {
      var first, rest := entries[0].value, entries[1..];
      if first.Obj? {
        ScalarsGood(first.entries, CANONICAL, p + [i], 0);
      }
      assert forall j :: 0 <= j < |rest| ==> rest[j] == entries[j + 1];
      TwoLevelsGood(rest, p, i + 1);
      assert Returns(first, CANONICAL, p + [i]) <==> !BareEnd(first);
      hide BareEnd;
      if NoBareEnd(rest) && (|entries| > 1 ==> !BareEnd(first)) {
        forall j | 0 <= j < |entries| - 1
          ensures !BareEnd(entries[j].value)
        {
          if j > 0 {
            assert rest[j - 1] == entries[j];
          }
        }
      }
    }
  }

  /** Two levels deep the condition is that no container but the last value ends in a bare one. */
  lemma {:induction false} TwoLevelsReadBack(entries: seq<Entry>)
    requires WritableEntries(entries) && TwoLevels(entries)
    ensures ReadBack(entries) <==> Honest(Obj(entries)) && NoBareEnd(entries)
  {
    hide Honest, ReadBack, Good, WritableEntries, NoBareEnd;
    TwoLevelsGood(entries, [], 0);
    TwoLevelsFlat(entries);
    hide TwoLevels;
    ReadBackExactly(entries);
  }

  lemma {:induction false} TwoLevelsFlat(entries: seq<Entry>)
    requires TwoLevels(entries)
    ensures forall j :: 0 <= j < |entries| ==> FlatArrays(entries[j].value)
  {
  }

  /** A dictionary of arrays of scalars reads back, each element in its place, exactly if no integer is negative
      and no array but the last ends with a number, a boolean or null. */
  lemma {:induction false} ArraysReadBack(entries: seq<Entry>)
    requires WritableEntries(entries)
    requires forall j :: 0 <= j < |entries| ==>
      entries[j].value.Arr? && forall k :: 0 <= k < |entries[j].value.elements| ==> !IsContainer(entries[j].value.elements[k])
    ensures ReadBack(entries) <==>
      && (forall j, k :: 0 <= j < |entries| && 0 <= k < |entries[j].value.elements| ==> Honest(entries[j].value.elements[k]))
      && (forall j :: 0 <= j < |entries| - 1 ==>
            entries[j].value.elements == [] || !Bare(entries[j].value.elements[|entries[j].value.elements| - 1]))
  {
    hide ReadBack;
    TwoLevelsReadBack(entries);
    assert forall j :: 0 <= j < |entries| ==>
      (Honest(entries[j].value) <==> forall k :: 0 <= k < |entries[j].value.elements| ==> Honest(entries[j].value.elements[k]));
  }

  /** {"a":[1], "b":["x"]} does not read back: "b" is put into the array, and so is the one after it. */
  lemma BracketSwallowed()
    ensures var entries := [Entry("a", Arr([Num(1)])), Entry("b", Arr([Str("x")]))];
      WritableEntries(entries) && !ReadBack(entries)
  {
    hide ReadBack;
    var entries := [Entry("a", Arr([Num(1)])), Entry("b", Arr([Str("x")]))];
    assert entries[1..] == [entries[1]] && entries[1..][1..] == [] && WritableEntries([]);
    assert Writable(entries[1].value) && WritableEntries(entries[1..]);
    assert Writable(entries[0].value) && entries[0].key != entries[1].key;
    assert Bare(entries[0].value.elements[0]);
    ArraysReadBack(entries);
  }

  /** Flat dictionaries always read back, as long as no number is negative. */
  lemma {:induction false} FlatReadBack(entries: seq<Entry>)
    requires WritableEntries(entries)
    requires forall e :: e in entries ==> !IsContainer(e.value) && (e.value.Num? ==> e.value.number >= 0)
    ensures ReadBack(entries)
  {
    hide Reads, Run, ReadBack;
    forall j | 0 <= j < |entries|
      ensures !IsContainer(entries[j].value) && Honest(entries[j].value) && !BareEnd(entries[j].value)
    {
      assert entries[j] in entries;
    }
    assert TwoLevels(entries) && NoBareEnd(entries);
    hide TwoLevels, NoBareEnd;
    TwoLevelsReadBack(entries);
  }

  /** A string, or an array or a dictionary of strings. */
  ghost predicate OfStrings(v: Value) {
    match v
    case Str(_) => true
    case Obj(entries) => forall k :: 0 <= k < |entries| ==> entries[k].value.Str?
    case Arr(elements) => forall k :: 0 <= k < |elements| ==> elements[k].Str?
    case _ => false
  }

  lemma {:induction false} StringsHonest(v: Value)
    requires OfStrings(v)
    ensures Honest(v) && !BareEnd(v)
  {
  }

  /** So do dictionaries of strings, of arrays of strings and of dictionaries of strings. */
  lemma {:induction false} StringsReadBack(entries: seq<Entry>)
    requires WritableEntries(entries) && forall j :: 0 <= j < |entries| ==> OfStrings(entries[j].value)
    ensures ReadBack(entries)
  {
    hide ReadBack, BareEnd, WritableEntries;
    assert TwoLevels(entries);
    hide OfStrings, TwoLevels;
    forall j | 0 <= j < |entries|
      ensures Honest(entries[j].value) && !BareEnd(entries[j].value)
    {
      StringsHonest(entries[j].value);
    }
    TwoLevelsReadBack(entries);
  }

  /** {"l":[{"a":"b"}]} does not: the key is not forgotten in an array, and "a" becomes the value under it. */
  lemma DictionaryInArrayLost()
    ensures var entries := [Entry("l", Arr([Obj([Entry("a", Str("b"))])]))];
      WritableEntries(entries) && !ReadBack(entries)
  {
    hide Run, Written;
    var inner := [Entry("a", Str("b"))];
    var entries := [Entry("l", Arr([Obj(inner)]))];
    assert inner[1..] == [] && entries[1..] == [] && WritableEntries([]);
    assert Writable(inner[0].value) && WritableEntries(inner) && Writable(Obj(inner)) && Writable(entries[0].value);
    WrittenText(Obj(entries), [], "");
    assert Written(Obj(entries)) + "" == Written(Obj(entries));
    RunText(entries, CANONICAL, "");
    DictionaryInArray(inner, entries);
  }

  const IN_LIST := State([Dict(map["l" := Ref(1)]), Sequence([])], 0, 1, 0, Some("l"))
  const IN_DICTIONARY := State([Dict(map["l" := Ref(1)]), Sequence([Ref(2)]), Dict(map[])], 0, 2, 1, Some("l"))
  const MISREAD := State([Dict(map["l" := Ref(1)]), Sequence([Ref(2)]), Dict(map["l" := Text("a")])], 0, 2, 1, Some("b"))

  lemma ListOpened()
    ensures Open(OPENED.(key := Some("l")), Sequence([])) == Next(IN_LIST, 1)
    ensures Open(IN_LIST, Dict(map[])) == Next(IN_DICTIONARY, 1)
  {
    assert [] + [Ref(2)] == [Ref(2)];
    assert IN_LIST.heap[1 := Sequence([Ref(2)])] + [Dict(map[])] == IN_DICTIONARY.heap;
    assert OPENED.heap[0 := Dict(map["l" := Ref(1)])] + [Sequence([])] == IN_LIST.heap;
  }

  lemma {:induction false} Misread(inner: seq<Entry>, gaps: Gaps, p: seq<nat>)
    requires inner == [Entry("a", Str("b"))]
    ensures EntriesTaken(IN_DICTIONARY, inner, gaps, p, 0) == Next(MISREAD, 0)
  {
    assert IN_DICTIONARY.heap[2 := Dict(map["l" := Text("a")])] == MISREAD.heap;
    assert StringTaken(IN_DICTIONARY, "a") == Next(MISREAD.(key := None), 0);
    assert inner[1..] == [];
  }

  lemma {:induction false} DictionaryInArray(inner: seq<Entry>, entries: seq<Entry>)
    requires inner == [Entry("a", Str("b"))] && entries == [Entry("l", Arr([Obj(inner)]))]
    ensures var o := EntriesTaken(OPENED, entries, CANONICAL, [], 0);
      o.Next? ==> o.st.top == 0 && !Reads(o.st.heap, 0, Ref(0), Obj(entries))
  {
    hide Open, Reads, EntriesTaken, ElementsTaken;
    ListOpened();
    Misread(inner, CANONICAL, [] + [0] + [0]);
    var elements := [Obj(inner)];
    ElementsOne(IN_LIST, elements, CANONICAL, [] + [0]);
    assert EntryTaken(OPENED, entries[0], CANONICAL, [], 0) == Next(Closing(Closing(MISREAD)), 0);
    EntriesOne(OPENED, entries, CANONICAL, []);
    MisreadLost(inner, entries);
  }

  lemma {:induction false} ElementsOne(st: State, elements: seq<Value>, gaps: Gaps, p: seq<nat>)
    requires Fits(st) && |elements| == 1
    ensures ElementsTaken(st, elements, gaps, p, 0) == match ValueTaken(st, elements[0], gaps, p + [0])
      case Stop(error) => Stop(error)
      case Next(st1, _) => Next(st1, 0)
  {
    assert elements[1..] == [];
  }

  lemma {:induction false} EntriesOne(st: State, entries: seq<Entry>, gaps: Gaps, p: seq<nat>)
    requires Fits(st) && |entries| == 1
    ensures EntriesTaken(st, entries, gaps, p, 0) == match EntryTaken(st, entries[0], gaps, p, 0)
      case Stop(error) => Stop(error)
      case Next(st1, _) => Next(st1, 0)
  {
    assert entries[1..] == [];
  }

  lemma {:induction false} MisreadLost(inner: seq<Entry>, entries: seq<Entry>)
    requires inner == [Entry("a", Str("b"))] && entries == [Entry("l", Arr([Obj(inner)]))]
    ensures !Reads(MISREAD.heap, 0, Ref(0), Obj(entries))
  {
    assert inner[0] in inner && "a" in KeysOf(inner);
    assert !Reads(MISREAD.heap, 0, Ref(2), Obj(inner));
    assert MISREAD.heap[1].elements[0] == Ref(2) && entries[0].value.elements[0] == Obj(inner);
    assert !Reads(MISREAD.heap, 0, Ref(1), entries[0].value);
  }

  ghost predicate Empty(v: Value) {
    v == Obj([]) || v == Arr([])
  }

  /** The containers made for empty values. */
  ghost function Empties(elements: seq<Value>): (containers: seq<Container>)
    ensures |containers| == |elements|
  {
    if elements == [] then []
    else [if elements[0].Obj? then Dict(map[]) else Sequence([])] + Empties(elements[1..])
  }

  ghost function RefsFrom(n: nat, count: nat): (refs: seq<Datum>)
    ensures |refs| == count && forall i :: 0 <= i < count ==> refs[i] == Ref(n + i)
    decreases count
  {
    if count == 0 then [] else [Ref(n)] + RefsFrom(n + 1, count - 1)
  }

  /** Containers in an array are put into it in the order in which they stand. */
  lemma {:induction false} EmptiesTaken(st: State, elements: seq<Value>, gaps: Gaps, p: seq<nat>, j: nat)
    requires Fits(st) && st.top != NULL && st.current != NULL && st.heap[st.current].Sequence?
    requires forall k :: 0 <= k < |elements| ==> Empty(elements[k])
    ensures var o := ElementsTaken(st, elements, gaps, p, j);
      && o.Next? && o.st.current == st.current
      && o.st.heap == st.heap[st.current := Sequence(st.heap[st.current].elements + RefsFrom(|st.heap|, |elements|))] + Empties(elements)
    decreases elements
  {
    var before, n, c := st.heap[st.current].elements, |st.heap|, st.current;
    if elements == [] {
      assert before + [] == before && st.heap + [] == st.heap;
    } else {
      var first, rest := elements[0], elements[1..];
      var new1 := if first.Obj? then Dict(map[]) else Sequence([]);
      EmptyTaken(st, first, gaps, p + [j]);
      var st1 := ValueTaken(st, first, gaps, p + [j]).st;
      EmptiesTaken(st1, rest, gaps, p, j + 1);
      var refs := RefsFrom(n + 1, |rest|);
      Associate(before, [Ref(n)], refs);
      assert st1.heap[c := Sequence(before + [Ref(n)] + refs)] + Empties(rest)
          == st.heap[c := Sequence(before + [Ref(n)] + refs)] + ([new1] + Empties(rest));
    }
  }

  lemma {:induction false} EmptyTaken(st: State, v: Value, gaps: Gaps, p: seq<nat>)
    requires Fits(st) && st.top != NULL && st.current != NULL && st.heap[st.current].Sequence? && Empty(v)
    ensures var o := ValueTaken(st, v, gaps, p);
      && o.Next? && o.st.current == st.current && o.st.top == st.top
      && o.st.heap == st.heap[st.current := Sequence(st.heap[st.current].elements + [Ref(|st.heap|)])]
                      + [if v.Obj? then Dict(map[]) else Sequence([])]
  {
  }

  /** A number with a point in it is kept as its digits. */
  lemma RunFloat(st: State, digits: string, c: char, rest: string)
    requires Fits(st) && digits != "" && '0' <= digits[0] <= '9' && '.' in digits && !IsNumeral(c)
    requires forall d :: d in digits ==> '0' <= d <= '9' || d == '.' || d == '-'
    ensures Run(st, digits + ([c] + rest)) == Then(Put(st, Float(digits), 0), rest)
  {
    hide Run, Put, Open, Quoted, NumeralLength, Unsigned;
    var s := digits + ([c] + rest);
    NumeralReaches(digits, [c] + rest);
    assert s[..|digits|] == digits && s[0] == digits[0] && s[|digits| + 1..] == rest;
    PutUsed(st, Float(digits), |digits| + 1, rest);
    RunStep(st, s, |digits| + 1, rest);
  }

  /** The first container is the one returned, whatever follows it. */
  lemma {:induction false} TopStays(st: State, s: string)
    requires Fits(st) && st.top != NULL
    ensures Run(st, s).Done? ==> Run(st, s).top == st.top
    decreases |s|
  {
    hide Quoted, Numeral, NumeralLength;
    if s != "" {
      StepTop(st, s);
      match Step(st, s) {
        case Stop(_) =>
        case Next(st', used) => TopStays(st', Drop(s, used));
      }
    }
  }

  lemma StepTop(st: State, s: string)
    requires Fits(st) && st.top != NULL && s != ""
    ensures Step(st, s).Next? ==> Step(st, s).st.top == st.top
  {
    hide Quoted, Numeral, NumeralLength;
  }

  /** A string that is not closed reaches to the end. */
  lemma {:induction false} OpenString(v: string)
    ensures Quoted(JsonEscaped(v)).Some? && Quoted(JsonEscaped(v)).value.0 == v
  {
    if v != "" {
      OpenString(v[1..]);
      EscapedChar(v[0], JsonEscaped(v[1..]));
      assert v == [v[0]] + v[1..];
    }
  }

  // ----- failures -----

  /** Where a key should stand, anything but a string fails. */
  lemma {:induction false} ValueForKeyFails(st: State, v: Value, gaps: Gaps, p: seq<nat>, gap: string, c: char, rest: string)
    requires Ready(st) && Writable(v) && !v.Str? && White(gaps) && !IsNumeral(c) && forall d :: d in gap ==> IsWhite(d)
    ensures Run(st, ValueText(v, gaps, p, gap + ([c] + rest))) == Failed(NoKey)
  {
    hide Run, ValueText, White;
    RunValue(st, v, gaps, p, gap, c, rest);
  }

  /** A string with an escape that is none fails. */
  lemma UnknownEscapeFails(st: State, text: string, c: char, rest: string)
    requires Fits(st) && c !in "\"\\/bfrntu"
    ensures Run(st, "\"" + (JsonEscaped(text) + (['\\', c] + rest))) == Failed(NoString)
  {
    hide Quoted, JsonEscaped;
    var s := "\"" + (JsonEscaped(text) + (['\\', c] + rest));
    NotQuoted(text, c, rest);
    assert s[1..] == JsonEscaped(text) + (['\\', c] + rest);
  }

  lemma {:induction false} NotQuoted(text: string, c: char, rest: string)
    requires c !in "\"\\/bfrntu"
    ensures Quoted(JsonEscaped(text) + (['\\', c] + rest)) == None
  {
    hide Quoted;
    var bad := ['\\', c] + rest;
    if text == "" {
      QuotedStep(c, rest);
      assert JsonEscaped(text) + bad == bad;
    } else {
      NotQuoted(text[1..], c, rest);
      var tail := JsonEscaped(text[1..]) + bad;
      assert JsonEscaped(text) + bad == JsonChar(text[0]) + tail;
      EscapedChar(text[0], tail);
    }
  }

  /** So does a word that begins as "true" or "false" and is neither. */
  lemma UnknownWordFails(st: State, s: string)
    requires Fits(st)
    requires (|s| >= 4 && s[0] == 't' && !("true" <= s)) || (|s| >= 5 && s[0] == 'f' && !("false" <= s))
    ensures Run(st, s) == Failed(NoLiteral)
  {
    hide Quoted, Open, Put, Numeral, NumeralLength;
  }
}
