/** wi-byteorder.c: packing a double into eight bytes and back, by frexp, ldexp and floor alone, taken as exact.

    What a pattern of 64 bits means is stated on its own, as IEEE 754-2008 section 3.4 does, and so is which
    reals are doubles; the writer and the reader are proved against those. */
module Ieee754 {
  type byte = b: int | 0 <= b < 256

  const EXP_MAX := 2047
  const EXP_OFFSET := 1023
  const EXP_POSITION := 20

  const TWO_20: int := 0x10_0000
  const TWO_21: int := 0x20_0000
  const TWO_31: int := 0x8000_0000
  const TWO_32: int := 0x1_0000_0000
  const TWO_52: int := 0x10_0000_0000_0000
  const TWO_63: int := 0x8000_0000_0000_0000
  const TWO_53: int := 0x20_0000_0000_0000

  type word = w: int | 0 <= w < TWO_32

  /** A double. Minus zero is not told apart from zero, nor one NaN from another. */
  datatype Double = Finite(value: real) | Infinite(negative: bool) | NaN

  // ----- powers of two -----

  function Pow2(k: int): (r: real)
    ensures r > 0.0
    decreases if k >= 0 then k else -k
  {
    if k == 0 then 1.0 else if k > 0 then 2.0 * Pow2(k - 1) else Pow2(k + 1) / 2.0
  }

  lemma Pow2Step(k: int)
    ensures Pow2(k + 1) == 2.0 * Pow2(k)
  {
  }

  /** Multiplication, kept from the solver's own nonlinear reasoning where it is hidden. */
  function Times(x: real, y: real): real {
    x * y
  }

  lemma TimesTwice(x: real, y: real)
    ensures Times(x, 2.0 * y) == 2.0 * Times(x, y)
  {
  }

  lemma TimesOne(x: real)
    ensures Times(x, 1.0) == x
  {
  }

  lemma Pow2Add(a: int, b: int)
    ensures Pow2(a + b) == Pow2(a) * Pow2(b)
  {
    Pow2Times(a, b);
    hide Pow2;
  }

  lemma {:induction false} Pow2Times(a: int, b: int)
    ensures Pow2(a + b) == Times(Pow2(a), Pow2(b))
    decreases if b >= 0 then b else -b
  {
    assert Pow2(0) == 1.0;
    hide Pow2, Times;
    if b == 0 {
      TimesOne(Pow2(a));
    } else if b > 0 {
      Pow2Times(a, b - 1);
      Pow2Step(a + b - 1);
      Pow2Step(b - 1);
      TimesTwice(Pow2(a), Pow2(b - 1));
    } else {
      Pow2Times(a, b + 1);
      Pow2Step(a + b);
      Pow2Step(b);
      TimesTwice(Pow2(a), Pow2(b));
    }
  }

  lemma {:induction false} Pow2Monotonic(a: int, b: int)
    requires a < b
    ensures 2.0 * Pow2(a) <= Pow2(b)
    decreases b - a
  {
    if a + 1 < b {
      Pow2Monotonic(a, b - 1);
    }
    Pow2Step(b - 1);
  }

  lemma Pow2Constants()
    ensures Pow2(20) == TWO_20 as real && Pow2(21) == TWO_21 as real && Pow2(32) == TWO_32 as real
    ensures Pow2(52) == TWO_52 as real && Pow2(53) == TWO_53 as real
  {
    Pow2Quarter(0);
    Pow2Quarter(4);
    Pow2Quarter(8);
    Pow2Quarter(12);
    Pow2Quarter(16);
    Pow2Step(20);
    Pow2Add(20, 12);
    Pow2Add(32, 20);
    Pow2Step(52);
  }

  lemma Pow2Quarter(k: nat)
    ensures Pow2(k + 4) == 16.0 * Pow2(k)
  {
    Pow2Step(k);
    Pow2Step(k + 1);
    Pow2Step(k + 2);
    Pow2Step(k + 3);
  }

  // ----- frexp and ldexp -----

  function Ldexp(x: real, k: int): real {
    Times(x, Pow2(k))
  }

  lemma LdexpAdd(x: real, a: int, b: int)
    ensures Ldexp(Ldexp(x, a), b) == Ldexp(x, a + b)
  {
    Pow2Times(a, b);
    TimesAssoc(x, Pow2(a), Pow2(b));
    hide Times, Pow2;
  }

  lemma TimesAssoc(x: real, y: real, z: real)
    ensures Times(Times(x, y), z) == Times(x, Times(y, z))
  {
  }

  lemma LdexpSum(x: real, y: real, k: int)
    ensures Ldexp(x + y, k) == Ldexp(x, k) + Ldexp(y, k)
  {
  }

  lemma LdexpLess(x: real, y: real, k: int)
    ensures x < y <==> Ldexp(x, k) < Ldexp(y, k)
  {
  }

  lemma LdexpUp(x: real, k: int)
    ensures Ldexp(x, k + 1) == Ldexp(2.0 * x, k)
  {
  }

  lemma LdexpConstants(x: real)
    ensures Ldexp(x, 0) == x && Ldexp(x, 21) == x * TWO_21 as real && Ldexp(x, 32) == x * TWO_32 as real
    ensures Ldexp(x, 52) == x * TWO_52 as real && Ldexp(x, 53) == x * TWO_53 as real
    ensures Ldexp(x, 31) == x * TWO_31 as real
  {
    Pow2Constants();
    Pow2Step(31);
    assert Pow2(0) == 1.0;
    hide Pow2;
  }

  /** The exponent frexp gives: v is at least half of two to it, and less than it. */
  function Exponent(v: real): int
    requires v > 0.0
    decreases if v >= 1.0 then v.Floor else if v < 0.5 then (1.0 / v).Floor else 0
  {
    if v >= 1.0 then Exponent(v / 2.0) + 1
    else if v < 0.5 then
      assert 1.0 / v >= 2.0;
      assert 1.0 / (2.0 * v) == (1.0 / v) / 2.0;
      Exponent(2.0 * v) - 1
    else 0
  }

  /** frexp of a positive number. */
  function Frexp(v: real): (real, int)
    requires v > 0.0
  {
    (Ldexp(v, -Exponent(v)), Exponent(v))
  }

  lemma {:induction false} ExponentFits(v: real)
    requires v > 0.0
    ensures 0.5 <= Ldexp(v, -Exponent(v)) < 1.0
    decreases if v >= 1.0 then v.Floor else if v < 0.5 then (1.0 / v).Floor else 0
  {
    LdexpConstants(v);
    hide Ldexp;
    if v >= 1.0 {
      ExponentFits(v / 2.0);
      LdexpUp(v / 2.0, -Exponent(v));
    } else if v < 0.5 {
      assert 1.0 / v >= 2.0;
      assert 1.0 / (2.0 * v) == (1.0 / v) / 2.0;
      ExponentFits(2.0 * v);
      LdexpUp(v, -Exponent(2.0 * v));
    }
  }

  /** What the C standard says of frexp. */
  lemma FrexpParts(v: real)
    requires v > 0.0
    ensures 0.5 <= Frexp(v).0 < 1.0 && Ldexp(Frexp(v).0, Frexp(v).1) == v
  {
    ExponentFits(v);
    LdexpAdd(v, -Exponent(v), Exponent(v));
    LdexpConstants(v);
    hide Ldexp, Exponent;
  }

  lemma ExponentAtMost(f: real, exp: int, k: int)
    requires f >= 0.5 && Ldexp(f, exp) < Ldexp(1.0, k)
    ensures exp <= k
  {
    hide Ldexp;
    if exp > k {
      LdexpOrder(0.5, k + 1, exp);
      LdexpUp(0.5, k);
      LdexpLess(f, 0.5, exp);
    }
  }

  lemma ExponentAbove(f: real, exp: int, k: int)
    requires f < 1.0 && Ldexp(f, exp) >= Ldexp(1.0, k)
    ensures exp > k
  {
    hide Ldexp;
    if exp <= k {
      LdexpOrder(1.0, exp, k);
      LdexpLess(f, 1.0, exp);
    }
  }

  lemma LdexpOrder(x: real, a: int, b: int)
    requires x > 0.0 && a <= b
    ensures Ldexp(x, a) <= Ldexp(x, b)
  {
    if a < b {
      Pow2Monotonic(a, b);
      hide Pow2;
    }
  }

  // ----- which reals are doubles, and what a pattern means -----

  /** binary64: an integer of at most 53 bits, scaled by a power of two between 2^-1074 and 2^971. */
  ghost predicate IsScaled(v: real, m: int, q: int) {
    0 <= m < TWO_53 && -1074 <= q <= 971 && v == Ldexp(m as real, q)
  }

  function Abs(v: real): real {
    if v < 0.0 then -v else v
  }

  ghost predicate Binary64(v: real) {
    exists m, q :: IsScaled(Abs(v), m, q)
  }

  ghost predicate IsDouble(d: Double) {
    d.Finite? ==> Binary64(d.value)
  }

  /** The magnitude of biased exponent e and fraction m. */
  function Magnitude(e: int, m: int): real {
    if e == 0 then Ldexp(m as real, -1074) else Ldexp((TWO_52 + m) as real, e - 1075)
  }

  ghost predicate Fields(v: real, e: int, m: int) {
    0 <= e < EXP_MAX && 0 <= m < TWO_52 && v == Magnitude(e, m)
  }

  function Biased(first: word): int {
    first / TWO_20 % (EXP_MAX + 1)
  }

  function Fraction(first: word, second: word): int {
    first % TWO_20 * TWO_32 + second
  }

  /** One sign bit, eleven of exponent, 52 of fraction. */
  function Meaning(first: word, second: word): Double {
    var negative := first >= TWO_31;
    var e, m := Biased(first), Fraction(first, second);
    if e == EXP_MAX then if m == 0 then Infinite(negative) else NaN
    else Finite(if negative then -Magnitude(e, m) else Magnitude(e, m))
  }

  predicate NegativeZero(first: word, second: word) {
    first == TWO_31 && second == 0
  }

  /** Every double is a magnitude: an integer short of bits is scaled up, until its scale is the smallest. */
  lemma {:induction false} Normalised(v: real, m: int, q: int) returns (e: int, f: int)
    requires IsScaled(v, m, q)
    ensures Fields(v, e, f)
    decreases q + 1074
  {
    hide Ldexp;
    if m >= TWO_52 {
      e, f := q + 1075, m - TWO_52;
    } else if q == -1074 {
      e, f := 0, m;
    } else {
      LdexpUp(m as real, q - 1);
      assert 2.0 * m as real == (2 * m) as real;
      e, f := Normalised(v, 2 * m, q - 1);
    }
  }

  /** Patterns are ordered as the numbers they stand for. */
  lemma MagnitudeOrder(e: int, m: int, e': int, m': int)
    requires 0 <= e && 0 <= m < TWO_52 && 0 <= m' < TWO_52
    requires e < e' || (e == e' && m < m')
    ensures Magnitude(e, m) < Magnitude(e', m')
  {
    hide Ldexp;
    var least := TWO_52 as real;
    if e == e' {
      LdexpLess(m as real, m' as real, -1074);
      LdexpLess((TWO_52 + m) as real, (TWO_52 + m') as real, e - 1075);
    } else {
      if e == 0 {
        LdexpLess(m as real, least, -1074);
        LdexpOrder(least, -1074, e' - 1075);
      } else {
        LdexpLess((TWO_52 + m) as real, 2.0 * least, e - 1075);
        LdexpUp(least, e - 1075);
        LdexpOrder(least, e - 1074, e' - 1075);
      }
      LdexpLess((TWO_52 + m') as real, least, e' - 1075);
    }
  }

  lemma MagnitudeZero(e: int, m: int)
    requires 0 <= e && 0 <= m < TWO_52
    ensures Magnitude(e, m) >= 0.0
    ensures Magnitude(e, m) == 0.0 <==> e == 0 && m == 0
  {
  }

  /** No two patterns mean the same, but for the two zeros and the NaNs. */
  lemma MeaningInjective(first: word, second: word, first': word, second': word)
    requires Meaning(first, second) == Meaning(first', second') != NaN
    requires !NegativeZero(first, second) && !NegativeZero(first', second')
    ensures first == first' && second == second'
  {
    hide Magnitude;
    var e, m, e', m' := Biased(first), Fraction(first, second), Biased(first'), Fraction(first', second');
    MagnitudeZero(e, m);
    MagnitudeZero(e', m');
    if e < e' || (e == e' && m < m') {
      MagnitudeOrder(e, m, e', m');
    } else if e' < e || (e == e' && m' < m) {
      MagnitudeOrder(e', m', e, m);
    }
    WordParts(first, second);
    WordParts(first', second');
  }

  lemma WordParts(first: word, second: word)
    ensures first == (if first >= TWO_31 then TWO_31 else 0) + Biased(first) * TWO_20 + Fraction(first, second) / TWO_32
    ensures second == Fraction(first, second) % TWO_32
    ensures 0 <= Biased(first) <= EXP_MAX && 0 <= Fraction(first, second) < TWO_52
  {
  }

  // ----- bytes -----

  function WordAt(bytes: seq<byte>, at: nat): word
    requires at + 4 <= |bytes|
  {
    bytes[at] as int * 0x100_0000 + bytes[at + 1] as int * 0x1_0000 + bytes[at + 2] as int * 0x100 + bytes[at + 3]
  }

  /** Bytes as one number in base 256, the most significant first. */
  function Number(bytes: seq<byte>): nat {
    if bytes == [] then 0 else Number(bytes[..|bytes| - 1]) * 256 + bytes[|bytes| - 1]
  }

  /** What 64 bits mean, from the left: the sign, eleven bits of exponent, 52 of fraction. */
  function Interchange(bits: nat): Double {
    var negative, e, m := bits / TWO_63 % 2 == 1, bits / TWO_52 % 2048, bits % TWO_52;
    if e == EXP_MAX then if m == 0 then Infinite(negative) else NaN
    else Finite(if negative then -Magnitude(e, m) else Magnitude(e, m))
  }

  /** The bits of the eight bytes at offset. */
  function BitsAt(bytes: seq<byte>, offset: nat): nat
    requires offset + 8 <= |bytes|
  {
    Number(bytes[offset..offset + 8])
  }

  function MeaningAt(bytes: seq<byte>, offset: nat): Double
    requires offset + 8 <= |bytes|
  {
    Interchange(BitsAt(bytes, offset))
  }

  lemma NumberEight(b: seq<byte>)
    requires |b| == 8
    ensures Number(b) == (b[0] as int * 0x100_0000 + b[1] as int * 0x1_0000 + b[2] as int * 0x100 + b[3] as int) * TWO_32
                         + (b[4] as int * 0x100_0000 + b[5] as int * 0x1_0000 + b[6] as int * 0x100 + b[7] as int)
  {
    NumberFour(b[..4]);
    var n4 := Number(b[..4]);
    NumberNext(b, 4);
    NumberNext(b, 5);
    NumberNext(b, 6);
    NumberNext(b, 7);
    assert b[..8] == b;
  }

  lemma NumberNext(b: seq<byte>, k: nat)
    requires k < |b|
    ensures Number(b[..k + 1]) == Number(b[..k]) * 256 + b[k] as int
  {
    assert b[..k + 1][..k] == b[..k];
  }

  lemma NumberFour(b: seq<byte>)
    requires |b| == 4
    ensures Number(b) == b[0] as int * 0x100_0000 + b[1] as int * 0x1_0000 + b[2] as int * 0x100 + b[3] as int
  {
    NumberNext(b, 0);
    NumberNext(b, 1);
    NumberNext(b, 2);
    NumberNext(b, 3);
    assert b[..0] == [] && b[..4] == b;
  }

  /** Sign, exponent and fraction are the digits of that number. */
  lemma BitsAre(bytes: seq<byte>, offset: nat)
    requires offset + 8 <= |bytes|
    ensures var first, second := WordAt(bytes, offset), WordAt(bytes, offset + 4);
      && BitsAt(bytes, offset) == first * TWO_32 + second
      && BitsAt(bytes, offset) == (if first >= TWO_31 then TWO_63 else 0) + Biased(first) * TWO_52 + Fraction(first, second)
      && MeaningAt(bytes, offset) == Meaning(first, second)
      && (NegativeZero(first, second) <==> BitsAt(bytes, offset) == TWO_63)
  {
    hide Magnitude;
    var b := bytes[offset..offset + 8];
    NumberEight(b);
    var first, second := WordAt(bytes, offset), WordAt(bytes, offset + 4);
    WordParts(first, second);
    BitFields(if first >= TWO_31 then 1 else 0, Biased(first), Fraction(first, second));
  }

  lemma BitFields(s: nat, e: nat, m: nat)
    requires s < 2 && e < 2048 && m < TWO_52
    ensures var bits := s * TWO_63 + e * TWO_52 + m;
      bits / TWO_63 % 2 == s && bits / TWO_52 % 2048 == e && bits % TWO_52 == m
  {
  }

  lemma BytesOfWord(w: word)
    ensures w / 0x100_0000 < 256
    ensures w / 0x100_0000 * 0x100_0000 + w / 0x1_0000 % 256 * 0x1_0000 + w / 0x100 % 256 * 0x100 + w % 256 == w
  {
    Shift8(w);
    Shift16(w);
    Shift24(w);
  }

  lemma Shift8(w: int)
    ensures w == w / 0x100 * 0x100 + w % 256
  {
  }

  lemma Shift16(w: int)
    ensures w / 0x100 == w / 0x1_0000 * 0x100 + w / 0x100 % 256
  {
  }

  lemma Shift24(w: int)
    ensures w / 0x1_0000 == w / 0x100_0000 * 0x100 + w / 0x1_0000 % 256
  {
  }

  /** A word is known by its bytes. */
  lemma WordsEqual(a: seq<byte>, b: seq<byte>, at: nat)
    requires |a| == |b| && at + 4 <= |a| && WordAt(a, at) == WordAt(b, at)
    ensures a[at] == b[at] && a[at + 1] == b[at + 1] && a[at + 2] == b[at + 2] && a[at + 3] == b[at + 3]
  {
  }

  // ----- the writer -----

  /** floor and the rest, at the border of the two words. */
  lemma SplitAt32(n: int)
    requires 0 <= n < TWO_53
    ensures var x := n as real / TWO_32 as real;
      x.Floor == n / TWO_32 && ((x - x.Floor as real) * TWO_32 as real).Floor == n % TWO_32
  {
  }

  /** A normal number: frexp's exponent is the biased one less 1022, and the fraction comes off in two pieces. */
  lemma NormalParts(v: real, e: int, m: int)
    requires Fields(v, e, m) && e > 0 && v > 0.0
    ensures var (f, exp) := Frexp(v);
      && exp == e - 1022
      && Ldexp(f, 21) == (TWO_52 + m) as real / TWO_32 as real
  {
    hide Ldexp, Frexp, Exponent;
    var n := (TWO_52 + m) as real;
    var (f, exp) := Frexp(v);
    FrexpParts(v);
    NormalBounds(v, e, m);
    ExponentAtMost(f, exp, e - 1022);
    ExponentAbove(f, exp, e - 1023);
    // f = v / 2^exp = n / 2^53
    LdexpAdd(f, exp, 1075 - e);
    LdexpAdd(n, e - 1075, 1075 - e);
    LdexpConstants(n);
    LdexpConstants(f);
  }

  lemma NormalBounds(v: real, e: int, m: int)
    requires Fields(v, e, m) && e > 0
    ensures Ldexp(1.0, e - 1023) <= v < Ldexp(1.0, e - 1022)
  {
    hide Ldexp;
    LdexpConstants(1.0);
    LdexpAdd(1.0, 52, e - 1075);
    LdexpAdd(1.0, 53, e - 1075);
    LdexpLess((TWO_52 + m) as real, TWO_52 as real, e - 1075);
    LdexpLess((TWO_52 + m) as real, TWO_53 as real, e - 1075);
  }

  /** A denormal number: how many of its bits lie in the first word. */
  lemma DenormalParts(v: real, m: int)
    requires Fields(v, 0, m) && v > 0.0
    ensures var (f, exp) := Frexp(v);
      && -1074 < exp < -1021
      && (exp < -1042 ==> m < TWO_32 && Ldexp(f, exp + 1074) == m as real)
      && Ldexp(f, exp + 1042) == m as real / TWO_32 as real
  {
    hide Ldexp, Frexp, Exponent;
    var n := m as real;
    var (f, exp) := Frexp(v);
    FrexpParts(v);
    DenormalBounds(v, m);
    ExponentAtMost(f, exp, -1022);
    ExponentAbove(f, exp, -1074);
    LdexpAdd(f, exp, 1074);
    LdexpAdd(f, exp, 1042);
    LdexpAdd(n, -1074, 1074);
    LdexpAdd(n, -1074, 1042);
    LdexpAdd(n, -32, 32);
    LdexpConstants(n);
    LdexpConstants(Ldexp(n, -32));
    if exp < -1042 {
      LdexpOrder(1.0, exp, -1042);
      LdexpLess(f, 1.0, exp);
      LdexpAdd(1.0, 32, -1074);
      LdexpConstants(1.0);
      LdexpLess(n, TWO_32 as real, -1074);
    }
  }

  lemma DenormalBounds(v: real, m: int)
    requires Fields(v, 0, m) && v > 0.0
    ensures Ldexp(1.0, -1074) <= v < Ldexp(1.0, -1022)
  {
    hide Ldexp;
    MagnitudeZero(0, m);
    LdexpConstants(1.0);
    LdexpAdd(1.0, 52, -1074);
    LdexpLess(m as real, 1.0, -1074);
    LdexpLess(m as real, TWO_52 as real, -1074);
  }

  // ----- the two functions -----

  method ReadDouble(base: array<byte>, offset: nat) returns (value: Double)
    requires offset + 8 <= base.Length
    ensures value == match MeaningAt(base[..], offset)
      case NaN => Infinite(base[offset] >= 0x80)
      case meaning => meaning
  {
    hide BitsAt, MeaningAt;
    var first: word := WordAt(base[..], offset);
    var second: word := WordAt(base[..], offset + 4);
    BitsAre(base[..], offset);
    ReadsAs(first, second);
    if first == 0 && second == 0 {
      value := Finite(0.0);
    } else {
      var exp := first / TWO_20 % 0x800;
      if exp == EXP_MAX {
        value := Infinite(false);
      } else if exp == 0 {
        var mantissa := first % TWO_20;
        var v := Ldexp(mantissa as real, exp - EXP_OFFSET - EXP_POSITION + 1);
        v := v + Ldexp(second as real, exp - EXP_OFFSET - EXP_POSITION + 1 - 32);
        value := Finite(v);
      } else {
        var mantissa := first % TWO_20 + TWO_20;
        var v := Ldexp(mantissa as real, exp - EXP_OFFSET - EXP_POSITION);
        v := v + Ldexp(second as real, exp - EXP_OFFSET - EXP_POSITION - 32);
        value := Finite(v);
      }
    }
    if first >= TWO_31 {
      value := Negated(value);
    }
  }

  function Negated(d: Double): Double {
    match d
    case Finite(v) => Finite(-v)
    case Infinite(negative) => Infinite(!negative)
    case NaN => NaN
  }

  /** The two words' parts, scaled apart, add up to the magnitude. */
  lemma ReadsAs(first: word, second: word)
    ensures first == 0 && second == 0 ==> Meaning(first, second) == Finite(0.0)
    ensures var e, m := Biased(first), Fraction(first, second);
      && (e == 0 ==> Magnitude(e, m) == Ldexp((first % TWO_20) as real, -1042) + Ldexp(second as real, -1074))
      && (e > 0 ==> Magnitude(e, m) == Ldexp((first % TWO_20 + TWO_20) as real, e - 1043) + Ldexp(second as real, e - 1075))
  {
    hide Ldexp;
    MagnitudeZero(0, 0);
    var e, h := Biased(first), first % TWO_20;
    PartsAdd(h, second, -1074);
    PartsAdd(h + TWO_20, second, e - 1075);
  }

  lemma PartsAdd(h: int, l: int, k: int)
    ensures Ldexp((h * TWO_32 + l) as real, k) == Ldexp(h as real, k + 32) + Ldexp(l as real, k)
  {
    hide Ldexp;
    LdexpConstants(h as real);
    LdexpAdd(h as real, 32, k);
    LdexpSum((h * TWO_32) as real, l as real, k);
    assert (h * TWO_32) as real == h as real * TWO_32 as real;
  }

  /** The bytes of two words, as the writer stores them. */
  method Store(base: array<byte>, offset: nat, first: word, second: word)
    requires offset + 8 <= base.Length
    modifies base
    ensures WordAt(base[..], offset) == first && WordAt(base[..], offset + 4) == second
    ensures base[..offset] == old(base[..offset]) && base[offset + 8..] == old(base[offset + 8..])
  {
    hide WordAt;
    base[offset] := first / 0x100_0000 % 256;
    base[offset + 1] := first / 0x1_0000 % 256;
    base[offset + 2] := first / 0x100 % 256;
    base[offset + 3] := first % 256;
    base[offset + 4] := second / 0x100_0000 % 256;
    base[offset + 5] := second / 0x1_0000 % 256;
    base[offset + 6] := second / 0x100 % 256;
    base[offset + 7] := second % 256;
    WordStored(base[..], offset, first);
    WordStored(base[..], offset + 4, second);
  }

  lemma WordStored(bytes: seq<byte>, at: nat, w: word)
    requires at + 4 <= |bytes| && bytes[at] == w / 0x100_0000 % 256 && bytes[at + 1] == w / 0x1_0000 % 256
    requires bytes[at + 2] == w / 0x100 % 256 && bytes[at + 3] == w % 256
    ensures WordAt(bytes, at) == w
  {
    BytesOfWord(w);
  }

  /** The first part of wi_write_double_to_ieee754: the two words. Each | has its operands' bits apart, so
      that it is a sum. */
  method Encode(value: Double) returns (first: word, second: word)
    requires IsDouble(value)
    ensures Meaning(first, second) == if value.NaN? then Infinite(false) else value
    ensures !NegativeZero(first, second)
  {
    hide Ldexp, Frexp, Magnitude, Biased, Fraction, Meaning, NegativeZero;
    var sign, v := 0, value;
    if value == Infinite(true) || (value.Finite? && value.value < 0.0) {
      sign := TWO_31;
      v := Negated(value);
    }
    if v == Finite(0.0) {
      ZeroMeans();
      return 0, 0;
    }
    if !v.Finite? {
      InfinityMeans(sign);
      return sign + EXP_MAX * TWO_20, 0;
    }
    assert v.value > 0.0 && Abs(v.value) == Abs(value.value);
    ghost var e, m := DoubleFields(v.value);
    Composed(sign, e, m / TWO_32, m % TWO_32);
    MagnitudeZero(e, m);
    var fmantissa, exp := Frexp(v.value).0, Frexp(v.value).1;
    if exp > EXP_MAX - EXP_OFFSET + 1 {
      first, second := sign + EXP_MAX * TWO_20, 0;
      NormalOrNot(v.value, e, m);
    } else if exp < -(EXP_OFFSET - 2) {
      NormalOrNot(v.value, e, m);
      SplitAt32(m);
      var shift := (EXP_POSITION + 1) + (EXP_OFFSET - 2) + exp;
      if shift < 0 {
        first := sign;
        shift := shift + 32;
        if shift < 0 {
          second := 0;
          DenormalParts(v.value, m);
        } else {
          DenormalParts(v.value, m);
          second := Ldexp(fmantissa, shift).Floor;
        }
      } else {
        DenormalParts(v.value, m);
        var fsmantissa := Ldexp(fmantissa, shift);
        var mantissa := fsmantissa.Floor;
        first := sign + mantissa;
        LdexpConstants(fsmantissa - mantissa as real);
        second := Ldexp(fsmantissa - mantissa as real, 32).Floor;
      }
    } else {
      NormalOrNot(v.value, e, m);
      NormalParts(v.value, e, m);
      SplitAt32(TWO_52 + m);
      var fsmantissa := Ldexp(fmantissa, EXP_POSITION + 1);
      var mantissa := fsmantissa.Floor;
      mantissa := mantissa - TWO_20;
      fsmantissa := fsmantissa - TWO_20 as real;
      LdexpConstants(fsmantissa - mantissa as real);
      first := sign + (exp + EXP_OFFSET - 1) * TWO_20 + mantissa;
      second := Ldexp(fsmantissa - mantissa as real, 32).Floor;
    }
    EncodedMeans(value, sign, e, m, first, second);
  }

  lemma InfinityMeans(sign: int)
    requires sign == 0 || sign == TWO_31
    ensures 0 <= sign + EXP_MAX * TWO_20 < TWO_32
    ensures Meaning(sign + EXP_MAX * TWO_20, 0) == Infinite(sign == TWO_31) && !NegativeZero(sign + EXP_MAX * TWO_20, 0)
  {
    hide Magnitude;
    Composed(sign, EXP_MAX, 0, 0);
  }

  /** Sign, exponent and fraction put together mean the value. */
  lemma EncodedMeans(value: Double, sign: int, e: int, m: int, first: word, second: word)
    requires value.Finite? && value.value != 0.0 && Fields(Abs(value.value), e, m)
    requires sign == (if value.value < 0.0 then TWO_31 else 0)
    requires first == sign + e * TWO_20 + m / TWO_32 && second == m % TWO_32
    ensures Meaning(first, second) == value && !NegativeZero(first, second)
  {
    hide Ldexp, Magnitude;
    Composed(sign, e, m / TWO_32, m % TWO_32);
    MagnitudeZero(e, m);
  }

  /** Putting a pattern together from its parts. */
  lemma Composed(sign: int, e: int, h: int, l: int)
    requires (sign == 0 || sign == TWO_31) && 0 <= e <= EXP_MAX && 0 <= h < TWO_20 && 0 <= l < TWO_32
    ensures var first := sign + e * TWO_20 + h;
      && 0 <= first < TWO_32 && (first >= TWO_31 <==> sign == TWO_31)
      && Biased(first) == e && Fraction(first, l) == h * TWO_32 + l
  {
  }

  lemma DoubleFields(v: real) returns (e: int, m: int)
    requires Binary64(v) && v >= 0.0
    ensures Fields(v, e, m)
  {
    var m0, q :| IsScaled(Abs(v), m0, q);
    e, m := Normalised(v, m0, q);
  }

  /** frexp's exponent tells a normal number from a denormal one. */
  lemma NormalOrNot(v: real, e: int, m: int)
    requires Fields(v, e, m) && v > 0.0
    ensures Frexp(v).1 < -1021 <==> e == 0
    ensures Frexp(v).1 <= 1024
  {
    hide Ldexp, Frexp, Magnitude;
    if e == 0 {
      DenormalParts(v, m);
    } else {
      NormalParts(v, e, m);
    }
  }

  method WriteDouble(base: array<byte>, offset: nat, value: Double)
    requires offset + 8 <= base.Length && IsDouble(value)
    modifies base
    ensures MeaningAt(base[..], offset) == if value.NaN? then Infinite(false) else value
    ensures BitsAt(base[..], offset) != TWO_63
    ensures base[..offset] == old(base[..offset]) && base[offset + 8..] == old(base[offset + 8..])
  {
    hide Meaning, IsDouble, BitsAt, MeaningAt, WordAt;
    var first, second := Encode(value);
    Store(base, offset, first, second);
    BitsAre(base[..], offset);
  }

  // ----- round trips -----

  /** What was written is read back: every double, the NaNs excepted, which become an infinity. */
  method WriteThenRead(base: array<byte>, offset: nat, value: Double) returns (value': Double)
    requires offset + 8 <= base.Length && IsDouble(value)
    modifies base
    ensures value' == if value.NaN? then Infinite(false) else value
  {
    hide Meaning, IsDouble, MeaningAt, BitsAt;
    WriteDouble(base, offset, value);
    value' := ReadDouble(base, offset);
  }

  /** What was read is written back as it was, unless it is a NaN or minus zero; those change. */
  method ReadThenWrite(base: array<byte>, offset: nat)
    requires offset + 8 <= base.Length
    modifies base
    ensures base[..] == old(base[..]) <==>
      && !old(MeaningAt(base[..], offset)).NaN?
      && old(BitsAt(base[..], offset)) != TWO_63
  {
    hide Meaning, IsDouble, WordAt, BitsAt, MeaningAt;
    ghost var before := base[..];
    BitsAre(before, offset);
    MeaningIsDouble(WordAt(before, offset), WordAt(before, offset + 4));
    var value := ReadDouble(base, offset);
    assert IsDouble(value) by { InfiniteIsDouble(value); }
    WriteDouble(base, offset, value);
    ghost var after := base[..];
    BitsAre(after, offset);
    if !MeaningAt(before, offset).NaN? && !NegativeZero(WordAt(before, offset), WordAt(before, offset + 4)) {
      MeaningInjective(WordAt(before, offset), WordAt(before, offset + 4), WordAt(after, offset), WordAt(after, offset + 4));
      SameBytes(before, after, offset);
    }
  }

  lemma InfiniteIsDouble(d: Double)
    ensures !d.Finite? ==> IsDouble(d)
  {
  }

  lemma SameBytes(a: seq<byte>, b: seq<byte>, offset: nat)
    requires |a| == |b| && offset + 8 <= |a| && a[..offset] == b[..offset] && a[offset + 8..] == b[offset + 8..]
    requires WordAt(a, offset) == WordAt(b, offset) && WordAt(a, offset + 4) == WordAt(b, offset + 4)
    ensures a == b
  {
    WordsEqual(a, b, offset);
    WordsEqual(a, b, offset + 4);
    forall k | 0 <= k < |a|
      ensures a[k] == b[k]
    {
      if k < offset {
        assert a[k] == a[..offset][k];
      } else if k >= offset + 8 {
        assert a[k] == a[offset + 8..][k - offset - 8];
      }
    }
  }

  /** Every pattern stands for a double. */
  lemma MeaningIsDouble(first: word, second: word)
    ensures IsDouble(Meaning(first, second))
  {
    hide Ldexp, Magnitude;
    WordParts(first, second);
    var e, m := Biased(first), Fraction(first, second);
    if e < EXP_MAX {
      MagnitudeZero(e, m);
      MagnitudeScaled(e, m);
      var v := Meaning(first, second).value;
      assert Abs(v) == Magnitude(e, m);
    }
  }

  lemma MagnitudeScaled(e: int, m: int)
    requires 0 <= e < EXP_MAX && 0 <= m < TWO_52
    ensures exists n, q :: IsScaled(Magnitude(e, m), n, q)
  {
    if e == 0 {
      assert IsScaled(Magnitude(e, m), m, -1074);
    } else {
      assert IsScaled(Magnitude(e, m), TWO_52 + m, e - 1075);
    }
  }

  /** The patterns 8000000000000000, which means what 0000000000000000 does, and 7FF0000000000001 are not
      written for what they mean. */
  lemma PatternsLost()
    ensures Meaning(TWO_31, 0) == Meaning(0, 0) == Finite(0.0) && NegativeZero(TWO_31, 0)
    ensures Meaning(0x7FF0_0000, 1) == NaN
  {
    hide Ldexp, Magnitude;
    MagnitudeZero(0, 0);
  }

  /** The bytes 40 09 21 FB 54 44 2D 18 are the double nearest to pi, 7074237752028440 * 2^-51. */
  lemma PiBytes()
    ensures MeaningAt([0x40, 0x09, 0x21, 0xFB, 0x54, 0x44, 0x2D, 0x18], 0) == Finite(Ldexp(7074237752028440.0, -51))
  {
    hide Ldexp;
    var b: seq<byte> := [0x40, 0x09, 0x21, 0xFB, 0x54, 0x44, 0x2D, 0x18];
    NumberEight(b);
    assert b[0..0 + 8] == b;
    BitFields(0, 1024, 0x921F_B544_42D18);
  }

  /** The only eight bytes that mean one are 3F F0 00 00 00 00 00 00. */
  lemma OneBytes(b: seq<byte>)
    requires |b| == 8 && MeaningAt(b, 0) == Finite(1.0)
    ensures b == [0x3F, 0xF0, 0, 0, 0, 0, 0, 0]
  {
    hide Ldexp, Meaning, MeaningAt, BitsAt;
    var one: seq<byte> := [0x3F, 0xF0, 0, 0, 0, 0, 0, 0];
    OneMeans();
    BitsAre(b, 0);
    ZeroMeans();
    MeaningInjective(WordAt(b, 0), WordAt(b, 4), 0x3FF0_0000, 0);
    SameBytes(b, one, 0);
  }

  lemma OneMeans()
    ensures Meaning(0x3FF0_0000, 0) == Finite(1.0)
  {
    LdexpConstants(1.0);
    LdexpAdd(1.0, 52, -52);
    hide Ldexp;
  }

  lemma ZeroMeans()
    ensures Meaning(TWO_31, 0) == Meaning(0, 0) == Finite(0.0) && !NegativeZero(0, 0)
  {
    hide Ldexp, Magnitude;
    MagnitudeZero(0, 0);
  }
}
