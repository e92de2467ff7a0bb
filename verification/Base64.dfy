/** wi-base64.c: the encoder and the decoder, against base 64 as RFC 4648 section 4 has it: 24 bits are four
    groups of six. A shift is a division or product by a power of two, a mask a remainder. */
module Base64 {
  import opened Basics

  type byte = b: int | 0 <= b < 256
  type sextet = x: int | 0 <= x < 64

  /** The alphabet: letters, small letters, digits, "+" and "/". */
  function Symbol(x: sextet): char {
    if x < 26 then 'A' + x as char
    else if x < 52 then 'a' + (x - 26) as char
    else if x < 62 then '0' + (x - 52) as char
    else if x == 62 then '+' else '/'
  }

  const CAPITALS := "ABCDEFGHIJKLMNOPQRSTUVWXYZ"
  const SMALL := "abcdefghijklmnopqrstuvwxyz"
  const FIGURES := "0123456789"
  const ALPHABET := CAPITALS + SMALL + FIGURES + "+/"

  lemma CapitalAt(x: nat)
    requires x < 26
    ensures CAPITALS[x] == 'A' + x as char
  {
  }

  lemma SmallAt(x: nat)
    requires x < 26
    ensures SMALL[x] == 'a' + x as char
  {
  }

  lemma FigureAt(x: nat)
    requires x < 10
    ensures FIGURES[x] == '0' + x as char
  {
  }

  /** The symbols are those of the alphabet, in its order. */
  lemma SymbolIs(x: sextet)
    ensures |ALPHABET| == 64 && Symbol(x) == ALPHABET[x]
  {
    if x < 26 {
      CapitalAt(x);
    } else if x < 52 {
      SmallAt(x - 26);
    } else if x < 62 {
      FigureAt(x - 52);
    }
  }

  function Bits(a: byte, b: byte, c: byte): nat {
    a * 0x1_0000 + b * 0x100 + c
  }

  /** Six bits of the 24, from the left. */
  function Six(bits: nat, k: nat): sextet {
    (if k == 0 then bits / 0x4_0000 else if k == 1 then bits / 0x1000 else if k == 2 then bits / 0x40 else bits) % 64
  }

  function Encoded(data: seq<byte>): string {
    if data == [] then ""
    else if |data| == 1 then
      var n := Bits(data[0], 0, 0);
      [Symbol(Six(n, 0)), Symbol(Six(n, 1))] + "=="
    else if |data| == 2 then
      var n := Bits(data[0], data[1], 0);
      [Symbol(Six(n, 0)), Symbol(Six(n, 1)), Symbol(Six(n, 2))] + "="
    else
      var n := Bits(data[0], data[1], data[2]);
      [Symbol(Six(n, 0)), Symbol(Six(n, 1)), Symbol(Six(n, 2)), Symbol(Six(n, 3))] + Encoded(data[3..])
  }

  lemma {:induction false} EncodedLength(data: seq<byte>)
    ensures |Encoded(data)| == 4 * ((|data| + 2) / 3)
    decreases |data|
  {
    hide Six, Bits, Symbol;
    if |data| > 2 {
      EncodedLength(data[3..]);
      assert (|data| + 2) / 3 == (|data| - 3 + 2) / 3 + 1;
    }
  }

  /** The encoder's masks and shifts pick out the six-bit groups. */
  lemma MasksAreSixes(a: byte, b: byte, c: byte)
    ensures var n := Bits(a, b, c);
      && Six(n, 0) == a / 4 && Six(n, 1) == a % 4 * 16 + b / 16
      && Six(n, 2) == b % 16 * 4 + c / 64 && Six(n, 3) == c % 64
  {
    FirstSix(a, b, c);
    SecondSix(a, b, c);
    ThirdSix(a, b, c);
    FourthSix(a, b, c);
    hide Six, Bits;
  }

  lemma FirstSix(a: byte, b: byte, c: byte)
    ensures Six(Bits(a, b, c), 0) == a / 4
  {
  }

  lemma SecondSix(a: byte, b: byte, c: byte)
    ensures Six(Bits(a, b, c), 1) == a % 4 * 16 + b / 16
  {
    assert Bits(a, b, c) / 0x1000 == a * 16 + b / 16;
    assert a * 16 == a / 4 * 64 + a % 4 * 16;
  }

  lemma ThirdSix(a: byte, b: byte, c: byte)
    ensures Six(Bits(a, b, c), 2) == b % 16 * 4 + c / 64
  {
    var x := b % 16 * 4 + c / 64;
    assert Bits(a, b, c) / 0x40 == a * 1024 + b * 4 + c / 64;
    assert b * 4 == b / 16 * 64 + b % 16 * 4;
    Remainder(a * 16 + b / 16, x);
  }

  lemma Remainder(q: nat, x: nat)
    requires x < 64
    ensures (q * 64 + x) % 64 == x
  {
  }

  lemma FourthSix(a: byte, b: byte, c: byte)
    ensures Six(Bits(a, b, c), 3) == c % 64
  {
  }

  /** wi_base64_string_from_data. */
  method StringFromData(bytes: seq<byte>) returns (base64: string)
    ensures base64 == Encoded(bytes)
  {
    hide Encoded;
    base64 := "";
    var position := 0;
    var inbuffer := new byte[3](_ => 0);
    var outbuffer := new sextet[4](_ => 0);
    assert bytes[0..] == bytes;
    while position < |bytes|
      invariant 0 <= position
      invariant base64 + Encoded(From(bytes, position)) == Encoded(bytes)
    {
      var group := EncodeGroup(bytes, position, inbuffer, outbuffer);
      Associate(base64, group, Encoded(From(bytes, position + 3)));
      base64 := base64 + group;
      position := position + 3;
    }
    assert Encoded([]) == "" by { EncodedLength([]); }
  }

  function From(bytes: seq<byte>, position: nat): seq<byte> {
    if position < |bytes| then bytes[position..] else []
  }

  /** One turn of the encoder's loop: three bytes, or what is left of them and zeros, become four symbols. */
  method EncodeGroup(bytes: seq<byte>, position: nat, inbuffer: array<byte>, outbuffer: array<sextet>) returns (group: string)
    requires position < |bytes| && inbuffer.Length == 3 && outbuffer.Length == 4
    modifies inbuffer, outbuffer
    ensures Encoded(From(bytes, position)) == group + Encoded(From(bytes, position + 3))
  {
    hide Encoded, Symbols4;
    var i := 0;
    while i < 3
      invariant 0 <= i <= 3
      invariant forall k :: 0 <= k < i ==> inbuffer[k] == if position + k < |bytes| then bytes[position + k] else 0
    {
      inbuffer[i] := if position + i < |bytes| then bytes[position + i] else 0;
      i := i + 1;
    }
    outbuffer[0] := inbuffer[0] / 4;
    outbuffer[1] := inbuffer[0] % 4 * 16 + inbuffer[1] / 16;
    outbuffer[2] := inbuffer[1] % 16 * 4 + inbuffer[2] / 64;
    outbuffer[3] := inbuffer[2] % 64;
    var remaining := |bytes| - position;
    var count := if remaining == 1 then 2 else if remaining == 2 then 3 else 4;
    group := Group(outbuffer[..], count);
    assert From(From(bytes, position), 3) == From(bytes, position + 3);
    EncodedGroup(From(bytes, position), inbuffer[..], outbuffer[..], count, group);
  }

  /** The symbols of a group, and its padding. */
  method Group(outbuffer: seq<sextet>, count: nat) returns (group: string)
    requires |outbuffer| == 4 && count <= 4
    ensures group == Symbols4(outbuffer)[..count] + "===="[count..]
  {
    group := "";
    var i := 0;
    while i < count
      invariant 0 <= i <= count && group == Symbols4(outbuffer)[..i]
    {
      group := group + [Symbol(outbuffer[i])];
      i := i + 1;
    }
    while i < 4
      invariant count <= i <= 4 && group == Symbols4(outbuffer)[..count] + "===="[count..i]
    {
      group := group + "=";
      i := i + 1;
    }
  }

  function Symbols4(x: seq<sextet>): string
    requires |x| == 4
  {
    [Symbol(x[0]), Symbol(x[1]), Symbol(x[2]), Symbol(x[3])]
  }

  lemma EncodedGroup(rest: seq<byte>, inbuffer: seq<byte>, outbuffer: seq<sextet>, count: nat, group: string)
    requires rest != [] && |inbuffer| == 3 && |outbuffer| == 4
    requires forall k :: 0 <= k < 3 ==> inbuffer[k] == if k < |rest| then rest[k] else 0
    requires count == if |rest| == 1 then 2 else if |rest| == 2 then 3 else 4
    requires outbuffer[0] == inbuffer[0] / 4 && outbuffer[1] == inbuffer[0] % 4 * 16 + inbuffer[1] / 16
    requires outbuffer[2] == inbuffer[1] % 16 * 4 + inbuffer[2] / 64 && outbuffer[3] == inbuffer[2] % 64
    requires group == Symbols4(outbuffer)[..count] + "===="[count..]
    ensures Encoded(rest) == group + Encoded(From(rest, 3))
  {
    var a, b, c := inbuffer[0], inbuffer[1], inbuffer[2];
    MasksAreSixes(a, b, c);
    hide Six, Symbol;
    var n := Bits(a, b, c);
    assert Symbols4(outbuffer) == [Symbol(Six(n, 0)), Symbol(Six(n, 1)), Symbol(Six(n, 2)), Symbol(Six(n, 3))];
    hide Bits;
    EncodedCase(rest, n, Symbols4(outbuffer), count);
  }

  lemma EncodedCase(rest: seq<byte>, n: nat, symbols: string, count: nat)
    requires rest != []
    requires n == Bits(rest[0], if |rest| > 1 then rest[1] else 0, if |rest| > 2 then rest[2] else 0)
    requires symbols == [Symbol(Six(n, 0)), Symbol(Six(n, 1)), Symbol(Six(n, 2)), Symbol(Six(n, 3))]
    requires count == if |rest| == 1 then 2 else if |rest| == 2 then 3 else 4
    ensures Encoded(rest) == symbols[..count] + "===="[count..] + Encoded(From(rest, 3))
  {
    hide Six, Symbol, Bits;
    if |rest| == 1 {
      assert symbols[..2] + "===="[2..] == Encoded(rest);
    } else if |rest| == 2 {
      assert symbols[..3] + "===="[3..] == Encoded(rest);
    } else {
      assert symbols[..4] + "===="[4..] == symbols;
      assert rest[3..] == From(rest, 3);
    }
  }

  // ----- decoding -----

  /** A symbol's value; 64 for the padding, 65 for a character that means nothing. */
  function Value(c: char): (x: nat)
    ensures x <= 65
  {
    if 'A' <= c <= 'Z' then (c - 'A') as int
    else if 'a' <= c <= 'z' then (c - 'a') as int + 26
    else if '0' <= c <= '9' then (c - '0') as int + 52
    else if c == '+' then 62
    else if c == '=' then 64
    else if c == '/' then 63
    else 65
  }

  /** Each symbol has its place in the alphabet for its value, and every other character but the padding means
      nothing. */
  lemma ValueExactly(x: sextet, c: char)
    ensures |ALPHABET| == 64
    ensures Value(c) == x as nat <==> c == ALPHABET[x]
    ensures Value(c) == 64 <==> c == '='
    ensures Value(c) == 65 <==> c !in ALPHABET && c != '='
  {
    SymbolIs(x);
    ValueOfSymbol(x);
    if Value(c) < 64 {
      SymbolIs(Value(c));
      SymbolOfValue(c);
    }
    if c in ALPHABET {
      var k :| 0 <= k < |ALPHABET| && ALPHABET[k] == c;
      SymbolIs(k);
      ValueOfSymbol(k);
    }
  }

  lemma SymbolOfValue(c: char)
    requires Value(c) < 64
    ensures Symbol(Value(c)) == c
  {
  }

  /** The symbols up to the first padding; all else is passed over. */
  function Symbols(s: string): seq<sextet> {
    if s == "" || Value(s[0]) == 64 then []
    else if Value(s[0]) == 65 then Symbols(s[1..])
    else [Value(s[0])] + Symbols(s[1..])
  }

  predicate Padded(s: string) {
    '=' in s
  }

  function First(x: sextet, y: sextet): byte {
    x as int * 4 + y / 16
  }

  function Second(y: sextet, z: sextet): byte {
    y as int % 16 * 16 + z / 4
  }

  function Third(z: sextet, w: sextet): byte {
    z as int % 4 * 64 + w
  }

  /** Four symbols are three bytes. What is left over counts only if padding follows: two symbols are one byte
      and three are two. A single one is completed by whatever the second place of the buffer held. */
  function Decoded(x: seq<sextet>, padded: bool, stale: sextet): seq<byte> {
    if |x| >= 4 then [First(x[0], x[1]), Second(x[1], x[2]), Third(x[2], x[3])] + Decoded(x[4..], padded, x[1])
    else if !padded || x == [] then []
    else if |x| == 1 then [First(x[0], stale)]
    else if |x| == 2 then [First(x[0], x[1])]
    else [First(x[0], x[1]), Second(x[1], x[2])]
  }

  /** What is still to come, with the symbols in the buffer and the text left. */
  function ToCome(buffered: seq<sextet>, s: string, stale: sextet): seq<byte> {
    Decoded(buffered + Symbols(s), Padded(s), stale)
  }

  lemma Passed(x: seq<sextet>, s: string, stale: sextet)
    requires s != "" && Value(s[0]) == 65
    ensures ToCome(x, s, stale) == ToCome(x, s[1..], stale)
  {
  }

  lemma Buffered(x: seq<sextet>, s: string, stale: sextet, stale': sextet)
    requires s != "" && Value(s[0]) < 64 && |x| < 3 && (if |x| == 1 then stale' == Value(s[0]) else stale' == stale)
    ensures ToCome(x, s, stale) == ToCome(x + [Value(s[0])], s[1..], stale')
  {
    assert x + Symbols(s) == (x + [Value(s[0])]) + Symbols(s[1..]);
  }

  lemma Emitted(x: seq<sextet>, s: string, stale: sextet)
    requires s != "" && Value(s[0]) < 64 && |x| == 3
    ensures ToCome(x, s, stale)
         == [First(x[0], x[1]), Second(x[1], x[2]), Third(x[2], Value(s[0]))] + ToCome([], s[1..], x[1])
  {
    var all := x + Symbols(s);
    assert all[4..] == Symbols(s[1..]) == [] + Symbols(s[1..]);
  }

  lemma Finished(x: seq<sextet>, s: string, stale: sextet)
    requires |x| < 4 && (s == "" || Value(s[0]) == 64)
    ensures ToCome(x, s, stale) ==
      if s == "" || x == [] then [] else if |x| == 1 then [First(x[0], stale)]
      else if |x| == 2 then [First(x[0], x[1])] else [First(x[0], x[1]), Second(x[1], x[2])]
  {
  }

  /** wi_data_from_base64_string. The buffer is not initialised. */
  method DataFromString(s: string) returns (data: seq<byte>)
    ensures exists stale :: data == Decoded(Symbols(s), Padded(s), stale)
  {
    hide Decoded, Symbols, Padded, Value, First, Second, Third, ToCome;
    var inbuffer := new sextet[4];
    ghost var stale := inbuffer[1];
    data := [];
    var position, offset := 0, 0;
    ghost var all := Decoded(Symbols(s), Padded(s), stale);
    assert all == ToCome([], s[0..], stale) by { Start(s, stale); }
    ghost var finished := false;
    while position < |s|
      invariant 0 <= position <= |s| && 0 <= offset < 4 && !finished
      invariant all == data + ToCome(inbuffer[..offset], s[position..], inbuffer[1])
    {
      ghost var rest, x, second := s[position..], inbuffer[..offset], inbuffer[1];
      var ch := Value(s[position]);
      position := position + 1;
      assert s[position..] == rest[1..] && rest[0] == s[position - 1];
      if ch == 65 {
        Passed(x, rest, second);
      } else {
        var count, stop := 3, false;
        if ch == 64 {
          Finished(x, rest, second);
          if offset == 0 {
            finished := true;
            break;
          } else if offset == 1 || offset == 2 {
            count := 1;
          } else {
            count := 2;
          }
          offset := 3;
          stop := true;
        } else if offset < 3 {
          Buffered(x, rest, second, if offset == 1 then ch else second);
        } else {
          Emitted(x, rest, second);
        }
        inbuffer[offset] := if ch == 64 then 61 else ch;
        offset := offset + 1;
        if offset == 4 {
          var outbuffer := [First(inbuffer[0], inbuffer[1]), Second(inbuffer[1], inbuffer[2]), Third(inbuffer[2], inbuffer[3])];
          data := data + outbuffer[..count];
          offset := 0;
          assert outbuffer[..3] == outbuffer && inbuffer[..0] == [];
        } else {
          assert inbuffer[..offset] == x + [ch];
        }
        if stop {
          finished := true;
          assert data == all;
          break;
        }
      }
    }
    if !finished {
      assert s[position..] == "";
      Finished(inbuffer[..offset], "", inbuffer[1]);
    }
  }

  lemma Start(s: string, stale: sextet)
    ensures Decoded(Symbols(s), Padded(s), stale) == ToCome([], s[0..], stale)
  {
    assert s[0..] == s && [] + Symbols(s) == Symbols(s);
  }

  // ----- round trip -----

  lemma ValueOfSymbol(x: sextet)
    ensures Value(Symbol(x)) == x
  {
  }

  lemma SymbolIsNotPadding(x: sextet)
    ensures Symbol(x) != '='
  {
  }

  lemma SymbolsOf(x: sextet, s: string)
    ensures Symbols([Symbol(x)] + s) == [x] + Symbols(s)
    ensures Padded([Symbol(x)] + s) == Padded(s)
  {
    ValueOfSymbol(x);
    SymbolIsNotPadding(x);
    hide Symbol, Value;
    assert ([Symbol(x)] + s)[1..] == s;
  }

  lemma SymbolsOf4(x: sextet, y: sextet, z: sextet, w: sextet, s: string)
    ensures Symbols([Symbol(x), Symbol(y), Symbol(z), Symbol(w)] + s) == [x, y, z, w] + Symbols(s)
    ensures Padded([Symbol(x), Symbol(y), Symbol(z), Symbol(w)] + s) == Padded(s)
  {
    var s3 := [Symbol(w)] + s;
    var s2 := [Symbol(z)] + s3;
    var s1 := [Symbol(y)] + s2;
    SymbolsOf(w, s);
    SymbolsOf(z, s3);
    SymbolsOf(y, s2);
    SymbolsOf(x, s1);
    hide Symbol, Symbols, Padded;
    assert [Symbol(x), Symbol(y), Symbol(z), Symbol(w)] + s == [Symbol(x)] + s1;
  }

  /** The groups of six put together again are the bytes. */
  lemma SixesAreBytes(a: byte, b: byte, c: byte)
    ensures var n := Bits(a, b, c);
      First(Six(n, 0), Six(n, 1)) == a && Second(Six(n, 1), Six(n, 2)) == b && Third(Six(n, 2), Six(n, 3)) == c
  {
    MasksAreSixes(a, b, c);
    hide Six, Bits;
  }

  /** Decoding what was encoded gives the bytes back, whatever was in the buffer. */
  lemma {:induction false} RoundTrip(data: seq<byte>, stale: sextet)
    ensures Decoded(Symbols(Encoded(data)), Padded(Encoded(data)), stale) == data
    decreases |data|
  {
    hide Six, Bits, First, Second, Third, Symbol;
    if data == [] {
    } else if |data| == 1 {
      var n := Bits(data[0], 0, 0);
      SixesAreBytes(data[0], 0, 0);
      PaddingEnds("==");
      EndsPadded2(Six(n, 0), Six(n, 1), "==");
    } else if |data| == 2 {
      var n := Bits(data[0], data[1], 0);
      SixesAreBytes(data[0], data[1], 0);
      PaddingEnds("=");
      EndsPadded3(Six(n, 0), Six(n, 1), Six(n, 2), "=");
    } else {
      var n := Bits(data[0], data[1], data[2]);
      SixesAreBytes(data[0], data[1], data[2]);
      SymbolsOf4(Six(n, 0), Six(n, 1), Six(n, 2), Six(n, 3), Encoded(data[3..]));
      RoundTrip(data[3..], Six(n, 1));
      var x := [Six(n, 0), Six(n, 1), Six(n, 2), Six(n, 3)];
      assert (x + Symbols(Encoded(data[3..])))[4..] == Symbols(Encoded(data[3..]));
      assert data == [data[0], data[1], data[2]] + data[3..];
    }
  }

  lemma PaddingEnds(padding: string)
    requires padding != "" && forall c :: c in padding ==> c == '='
    ensures Symbols(padding) == [] && Padded(padding)
  {
    assert padding[0] in padding && Value('=') == 64;
  }

  lemma EndsPadded2(x: sextet, y: sextet, s: string)
    requires Symbols(s) == [] && Padded(s)
    ensures Symbols([Symbol(x), Symbol(y)] + s) == [x, y] && Padded([Symbol(x), Symbol(y)] + s)
  {
    SymbolsOf(y, s);
    SymbolsOf(x, [Symbol(y)] + s);
    hide Symbol, Symbols, Padded;
    assert [Symbol(x), Symbol(y)] + s == [Symbol(x)] + ([Symbol(y)] + s);
  }

  lemma EndsPadded3(x: sextet, y: sextet, z: sextet, s: string)
    requires Symbols(s) == [] && Padded(s)
    ensures Symbols([Symbol(x), Symbol(y), Symbol(z)] + s) == [x, y, z] && Padded([Symbol(x), Symbol(y), Symbol(z)] + s)
  {
    SymbolsOf(z, s);
    SymbolsOf(y, [Symbol(z)] + s);
    SymbolsOf(x, [Symbol(y)] + ([Symbol(z)] + s));
    hide Symbol, Symbols, Padded;
    assert [Symbol(x), Symbol(y), Symbol(z)] + s == [Symbol(x)] + ([Symbol(y)] + ([Symbol(z)] + s));
  }

  /** Characters outside the alphabet change nothing, wherever they stand. */
  lemma {:induction false} OthersIgnored(before: string, others: string, after: string)
    requires forall c :: c in others ==> c !in ALPHABET && c != '='
    ensures Symbols(before + others + after) == Symbols(before + after)
    ensures Padded(before + others + after) == Padded(before + after)
    decreases |before| + |others|
  {
    hide Value;
    var s := before + others + after;
    if before != "" {
      OthersIgnored(before[1..], others, after);
      assert s[1..] == before[1..] + others + after && (before + after)[1..] == before[1..] + after;
    } else if others != "" {
      OthersIgnored("", others[1..], after);
      assert s[1..] == "" + others[1..] + after && others[0] in others;
      ValueExactly(0, others[0]);
      assert s == [others[0]] + ("" + others[1..] + after);
    } else {
      assert s == before + after;
    }
  }

  /** Line breaks and the like, wherever they are put into an encoding, change nothing about what it decodes to. */
  lemma WrappedRoundTrip(data: seq<byte>, before: string, others: string, after: string, stale: sextet)
    requires before + after == Encoded(data) && forall c :: c in others ==> c !in ALPHABET && c != '='
    ensures Decoded(Symbols(before + others + after), Padded(before + others + after), stale) == data
  {
    OthersIgnored(before, others, after);
    RoundTrip(data, stale);
  }

  /** Four symbols give three bytes; what is left over gives none without padding, and else one byte less than there
      are symbols, but one for a single symbol. */
  lemma {:induction false} DecodedLength(x: seq<sextet>, padded: bool, stale: sextet)
    ensures |Decoded(x, padded, stale)| == |x| / 4 * 3 +
      if !padded || |x| % 4 == 0 then 0 else if |x| % 4 == 1 then 1 else |x| % 4 - 1
    decreases |x|
  {
    if |x| >= 4 {
      DecodedLength(x[4..], padded, x[1]);
      assert |x[4..]| / 4 == |x| / 4 - 1 && |x[4..]| % 4 == |x| % 4;
    }
  }

  lemma EncodedCases(a: byte, b: byte, c: byte, rest: seq<byte>)
    ensures var n := Bits(a, 0, 0); Encoded([a]) == [Symbol(Six(n, 0)), Symbol(Six(n, 1))] + "=="
    ensures var n := Bits(a, b, 0); Encoded([a, b]) == [Symbol(Six(n, 0)), Symbol(Six(n, 1)), Symbol(Six(n, 2))] + "="
    ensures var n := Bits(a, b, c);
      Encoded([a, b, c] + rest) == [Symbol(Six(n, 0)), Symbol(Six(n, 1)), Symbol(Six(n, 2)), Symbol(Six(n, 3))] + Encoded(rest)
  {
    hide Six, Bits, Symbol;
    assert ([a, b, c] + rest)[3..] == rest;
  }

  lemma SixesFit(a: byte, b: byte, c: byte)
    ensures 0 <= a / 4 < 64 && 0 <= a % 4 * 16 + b / 16 < 64 && 0 <= b % 16 * 4 + c / 64 < 64 && 0 <= c % 64 < 64
  {
  }

  /** What the three lengths of a group are encoded as. */
  lemma GroupOfOne(a: byte)
    ensures Encoded([a]) == [ALPHABET[a / 4], ALPHABET[a % 4 * 16]] + "=="
  {
    hide Encoded, Six, Bits, Symbol;
    EncodedCases(a, 0, 0, []);
    MasksAreSixes(a, 0, 0);
    SixesFit(a, 0, 0);
    SymbolIs(a / 4);
    SymbolIs(a % 4 * 16 + 0 / 16);
  }

  lemma GroupOfTwo(a: byte, b: byte)
    ensures Encoded([a, b]) == [ALPHABET[a / 4], ALPHABET[a % 4 * 16 + b / 16], ALPHABET[b % 16 * 4]] + "="
  {
    hide Encoded, Six, Bits, Symbol;
    EncodedCases(a, b, 0, []);
    MasksAreSixes(a, b, 0);
    SixesFit(a, b, 0);
    SymbolIs(a / 4);
    SymbolIs(a % 4 * 16 + b / 16);
    SymbolIs(b % 16 * 4 + 0 / 64);
  }

  lemma GroupOfThree(a: byte, b: byte, c: byte, rest: seq<byte>)
    ensures Encoded([a, b, c] + rest)
         == [ALPHABET[a / 4], ALPHABET[a % 4 * 16 + b / 16], ALPHABET[b % 16 * 4 + c / 64], ALPHABET[c % 64]] + Encoded(rest)
  {
    hide Encoded, Six, Bits, Symbol;
    EncodedCases(a, b, c, rest);
    MasksAreSixes(a, b, c);
    SixesFit(a, b, c);
    SymbolIs(a / 4);
    SymbolIs(a % 4 * 16 + b / 16);
    SymbolIs(b % 16 * 4 + c / 64);
    SymbolIs(c % 64);
  }

  lemma AlphabetAt(x: sextet)
    ensures x < 26 ==> ALPHABET[x] == CAPITALS[x]
    ensures 26 <= x < 52 ==> ALPHABET[x] == SMALL[x - 26]
    ensures 52 <= x < 62 ==> ALPHABET[x] == FIGURES[x - 52]
  {
  }

  /** Vectors of RFC 4648, section 10: "f", "fo" and "foobar". */
  lemma Vectors()
    ensures Encoded([102]) == "Zg==" && Encoded([102, 111]) == "Zm8=" && Encoded([102, 111, 111, 98, 97, 114]) == "Zm9vYmFy"
  {
    hide Encoded;
    ShortVectors();
    FooVector([98, 97, 114]);
    BarVector();
    assert [102, 111, 111] + [98, 97, 114] == [102, 111, 111, 98, 97, 114];
    assert "Zm9v" + "YmFy" == "Zm9vYmFy";
  }

  lemma ShortVectors()
    ensures Encoded([102]) == "Zg==" && Encoded([102, 111]) == "Zm8="
  {
    VectorSymbols();
    hide Encoded;
    GroupOfOne(102);
    GroupOfTwo(102, 111);
  }

  lemma FooVector(rest: seq<byte>)
    ensures Encoded([102, 111, 111] + rest) == "Zm9v" + Encoded(rest)
  {
    VectorSymbols();
    hide Encoded;
    GroupOfThree(102, 111, 111, rest);
  }

  lemma BarVector()
    ensures Encoded([98, 97, 114]) == "YmFy"
  {
    VectorSymbols();
    hide Encoded;
    GroupOfThree(98, 97, 114, []);
    EncodedNothing();
    assert [98, 97, 114] + [] == [98, 97, 114] && "YmFy" + "" == "YmFy";
  }

  lemma VectorSymbols()
    ensures |ALPHABET| == 64
    ensures ALPHABET[25] == 'Z' && ALPHABET[38] == 'm' && ALPHABET[61] == '9' && ALPHABET[47] == 'v' && ALPHABET[32] == 'g'
    ensures ALPHABET[60] == '8' && ALPHABET[24] == 'Y' && ALPHABET[5] == 'F' && ALPHABET[50] == 'y'
  {
    AlphabetAt(25);
    AlphabetAt(38);
    AlphabetAt(61);
    AlphabetAt(47);
    AlphabetAt(32);
    AlphabetAt(60);
    AlphabetAt(24);
    AlphabetAt(5);
    AlphabetAt(50);
  }

  lemma EncodedNothing()
    ensures Encoded([]) == ""
  {
  }
}
