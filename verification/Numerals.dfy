/** Numbers in text: printing with %lu and %lld, and reading with strtoul in base 0. */
module Numerals {

  const UINT64_MAX: int := 0xFFFF_FFFF_FFFF_FFFF

  const DIGITS := "0123456789abcdef"

  function Digit(d: nat): (c: char)
    requires d < 16
  {
    DIGITS[d]
  }

  /** A character's value as a digit, or 16. */
  function DigitValue(c: char): (d: nat)
    ensures d <= 16
  {
    if '0' <= c <= '9' then (c - '0') as int
    else if 'a' <= c <= 'f' then (c - 'a') as int + 10
    else if 'A' <= c <= 'F' then (c - 'A') as int + 10
    else 16
  }

  function Decimal(n: nat): (s: string)
    ensures s != ""
  {
    if n < 10 then [Digit(n)] else Decimal(n / 10) + [Digit(n % 10)]
  }

  predicate AllDigits(s: string, base: nat) {
    forall i :: 0 <= i < |s| ==> DigitValue(s[i]) < base
  }

  function ValueOf(s: string, base: nat): nat
    requires AllDigits(s, base)
  {
    if s == "" then 0 else ValueOf(s[..|s| - 1], base) * base + DigitValue(s[|s| - 1])
  }

  predicate IsSpace(c: char) {
    c == ' ' || '\t' <= c <= '\r'
  }

  function Unspaced(s: string): string {
    if s != "" && IsSpace(s[0]) then Unspaced(s[1..]) else s
  }

  /** A number without sign: "0x" makes it hexadecimal, a leading "0" octal. Anything after the digits, or a
      value past 64 bits, makes it zero. */
  function Magnitude(s: string): nat {
    var (digits, base) :=
      if |s| > 2 && s[0] == '0' && (s[1] == 'x' || s[1] == 'X') then (s[2..], 16)
      else if s != "" && s[0] == '0' then (s, 8)
      else (s, 10);
    if AllDigits(digits, base) && ValueOf(digits, base) <= UINT64_MAX then ValueOf(digits, base) else 0
  }

  /** wi_string_uint32 and wi_string_uint64: strtoul in base 0 skips space, and a minus sign negates the word. A
      value above max reads as zero. */
  function Unsigned(s: string, max: nat): nat {
    var t := Unspaced(s);
    var n := Magnitude(if t != "" && (t[0] == '+' || t[0] == '-') then t[1..] else t);
    var word := if t != "" && t[0] == '-' && n > 0 then UINT64_MAX + 1 - n else n;
    if word <= max then word else 0
  }

  lemma DigitOf(d: nat)
    requires d < 10
    ensures DigitValue(Digit(d)) == d && '0' <= Digit(d) <= '9' && (d > 0 ==> Digit(d) != '0')
  {
  }

  lemma {:induction false} DecimalDigits(n: nat)
    ensures AllDigits(Decimal(n), 10) && ValueOf(Decimal(n), 10) == n
    ensures n > 0 ==> Decimal(n)[0] != '0'
    ensures forall c :: c in Decimal(n) ==> '0' <= c <= '9'
  {
    DigitOf(n % 10);
    hide Digit, DigitValue;
    if n >= 10 {
      DecimalDigits(n / 10);
      var s := Decimal(n);
      assert s[..|s| - 1] == Decimal(n / 10);
      assert s[0] == Decimal(n / 10)[0];
    } else {
      assert Decimal(n)[..0] == "";
      assert Decimal(n) == [Digit(n)];
    }
  }

  /** A printed number is read back, as far as the type reaches; beyond that it reads as zero. */
  lemma DecimalRead(n: nat, max: nat)
    ensures Unsigned(Decimal(n), max) == if n <= max && n <= UINT64_MAX then n else 0
  {
    var s := Decimal(n);
    DecimalDigits(n);
    assert s[0] in s && Unspaced(s) == s;
    if n == 0 {
      assert s == "0";
      assert "0"[..0] == "";
    }
  }

  /** A sign or space before the number is read, too; a minus takes it from the top of the word. */
  lemma SignedRead(n: nat, max: nat)
    requires 0 < n <= UINT64_MAX
    ensures Unsigned("+" + Decimal(n), max) == Unsigned(" " + Decimal(n), max) == if n <= max then n else 0
    ensures Unsigned("-" + Decimal(n), max) == if UINT64_MAX + 1 - n <= max then UINT64_MAX + 1 - n else 0
  {
    hide ValueOf, Decimal;
    var s := Decimal(n);
    DecimalDigits(n);
    assert s[0] in s && Unspaced(s) == s;
    assert ("+" + s)[1..] == ("-" + s)[1..] == (" " + s)[1..] == s;
    assert Unspaced("+" + s) == "+" + s && Unspaced("-" + s) == "-" + s && Unspaced(" " + s) == s;
  }

  lemma FigureIs(d: nat)
    requires d < 10
    ensures Digit(d) == '0' + d as char && DigitValue('0' + d as char) == d
  {
  }

  /** "0x1aF" is hexadecimal and "017" octal; "18a" is no number. */
  lemma Bases()
    ensures Magnitude("0x1aF") == 431 && Magnitude("017") == 15 && Magnitude("18a") == 0
  {
    assert "0x1aF"[2..] == "1aF";
    assert AllDigits("1aF", 16) && AllDigits("017", 8);
    ThreeDigits("1aF", 16);
    ThreeDigits("017", 8);
    assert DigitValue("18a"[2]) == 10;
  }

  lemma TwoDigits(s: string, base: nat)
    requires |s| == 2 && AllDigits(s, base)
    ensures ValueOf(s, base) == DigitValue(s[0]) * base + DigitValue(s[1])
  {
    assert s[..1][..0] == "" && s[..1][0] == s[0];
    assert ValueOf(s[..1], base) == ValueOf(s[..1][..0], base) * base + DigitValue(s[0]);
  }

  lemma ThreeDigits(s: string, base: nat)
    requires |s| == 3 && AllDigits(s, base)
    ensures ValueOf(s, base) == (DigitValue(s[0]) * base + DigitValue(s[1])) * base + DigitValue(s[2])
  {
    TwoDigits(s[..2], base);
  }

  /** Space of every kind is skipped before a number; a text that begins with anything else but a sign or a figure
      reads as zero. */
  lemma FirstCharacter(c: char, s: string, max: nat)
    ensures c == ' ' || c == '\t' || c == '\n' || c == '\U{b}' || c == '\U{c}' || c == '\r' ==> Unsigned([c] + s, max) == Unsigned(s, max)
    ensures !(c == ' ' || '\t' <= c <= '\r' || c == '+' || c == '-' || '0' <= c <= '9') ==> Unsigned([c] + s, max) == 0
  {
    hide ValueOf;
    var t := [c] + s;
    assert t[1..] == s && t[0] == c;
    if !(c == ' ' || '\t' <= c <= '\r' || c == '+' || c == '-' || '0' <= c <= '9') {
      assert DigitValue(t[0]) >= 10 && !AllDigits(t, 10);
    }
  }
}
