/** Printing numbers on the serial line and parsing them back. Output is the sequence of characters sent. */
module Numbers {
  import opened Wrappers
  import opened Machine
  import Bits

  function Pow16(n: nat): (r: nat)
    ensures r > 0
  {
    if n == 0 then 1 else 16 * Pow16(n - 1)
  }

  function Pow10(n: nat): nat {
    if n == 0 then 1 else 10 * Pow10(n - 1)
  }

  // ----- Hexadecimal ---------------------------------------------------------------

  predicate IsHexDigit(c: char) {
    '0' <= c <= '9' || 'a' <= c <= 'f' || 'A' <= c <= 'F'
  }

  function HexVal(c: char): nat
    requires IsHexDigit(c)
  {
    if '0' <= c <= '9' then (c - '0') as nat
    else if 'a' <= c <= 'f' then (c - 'a') as nat + 10
    else (c - 'A') as nat + 10
  }

  function HexChar(n: nat): (c: char)
    requires n < 16
    ensures IsHexDigit(c) && HexVal(c) == n && c != 'x' && c != 'X'
  {
    if n < 10 then '0' + n as char else 'a' + (n - 10) as char
  }

  const LOWER: string := "0123456789abcdef"
  const UPPER: string := "0123456789ABCDEF"

  /** The digits and their values, as two rows of characters: n is the value of the n-th character of
      either row and of nothing else, and the lower row is the one printed. */
  lemma HexTable(c: char, n: nat)
    requires n < 16
    ensures IsHexDigit(c) && HexVal(c) == n <==> c == LOWER[n] || c == UPPER[n]
    ensures IsHexDigit(c) ==> HexVal(c) < 16
    ensures HexChar(n) == LOWER[n]
  {
  }

  /** The low d hexadecimal digits of v, most significant first. */
  function Hex(v: nat, d: nat): (s: string)
    ensures |s| == d && forall i :: 0 <= i < d ==> IsHexDigit(s[i]) && s[i] != 'x' && s[i] != 'X'
  {
    if d == 0 then "" else Hex(v / 16, d - 1) + [HexChar(v % 16)]
  }

  /** Quotient and remainder by 16 * p, one hex digit at a time. */
  lemma HexSplit(v: nat, p: nat)
    requires p > 0
    ensures v / (16 * p) == v / 16 / p
    ensures v % (16 * p) == v / 16 % p * 16 + v % 16
  {
    var y := v / 16;
    var q, r := y / p, y % p;
    assert y == p * q + r;
    Bits.DivModUnique(v, 16 * p, q, r * 16 + v % 16) by {
      assert 16 * p * q == 16 * (p * q);
    }
  }

  lemma {:induction false} DigitShift(v: nat, d: nat)
    ensures Hex(v, d + 1) == [HexChar(v / Pow16(d) % 16)] + Hex(v, d)
  {
    if d > 0 {
      DigitShift(v / 16, d - 1);
      HexSplit(v, Pow16(d - 1));
    }
  }

  /** serial_write_hex; a shift by 64 or more would be undefined. */
  method WriteHex(v: nat, digits: nat) returns (out: string)
    requires v < WORD && digits <= 16
    ensures out == Hex(v, digits)
  {
    out := "";
    var i := digits;
    while i > 0
      invariant 0 <= i <= digits && Hex(v, digits) == out + Hex(v, i)
    {
      i := i - 1;
      var n := v / Pow16(i) % 16;
      DigitShift(v, i);
      out := out + [HexChar(n)];
    }
  }

  predicate AllHex(s: string) {
    forall i :: 0 <= i < |s| ==> IsHexDigit(s[i])
  }

  /** The number a run of hex digits of any length denotes. */
  function HexNumber(s: string): nat
    requires AllHex(s)
  {
    if s == "" then 0 else HexNumber(s[..|s| - 1]) * 16 + HexVal(s[|s| - 1])
  }

  /** What the parse loop accumulates in 64 bits. */
  function HexValue(s: string): nat
    requires AllHex(s)
  {
    if s == "" then 0 else HexValue(s[..|s| - 1]) * 16 % WORD + HexVal(s[|s| - 1])
  }

  /** Dropping the overflow at every digit leaves the number modulo 2^64. */
  lemma {:induction false} HexValueMeaning(s: string)
    requires AllHex(s)
    ensures HexValue(s) == HexNumber(s) % WORD
  {
    if s != "" {
      var front, digit := s[..|s| - 1], HexVal(s[|s| - 1]);
      HexValueMeaning(front);
      assert HexNumber(s) == HexNumber(front) * 16 + digit;
      hide HexNumber, HexVal;
      ShiftedWord(HexNumber(front), digit);
    }
  }

  lemma ShiftedWord(x: nat, digit: nat)
    requires digit < 16
    ensures x % WORD * 16 % WORD + digit == (x * 16 + digit) % WORD
  {
    var q, r := x / WORD, x % WORD;
    var t, u := r * 16 / WORD, r * 16 % WORD;
    assert u % 16 == 0;
    Bits.DivModUnique(x * 16 + digit, WORD, q * 16 + t, u + digit);
  }

  /** A leading 0x or 0X. */
  function Digits(s: string): string {
    if |s| >= 2 && s[0] == '0' && (s[1] == 'x' || s[1] == 'X') then s[2..] else s
  }

  /** What a string parses to: at least one digit and nothing else. */
  ghost function Parsed(s: string): Option<nat> {
    if Digits(s) != "" && AllHex(Digits(s)) then Some(HexNumber(Digits(s)) % WORD) else None
  }

  /** A string is accepted exactly when it is a non-empty run of digits, alone or behind 0x or 0X. */
  lemma ParsedExactly(s: string)
    ensures Parsed(s).Some? <==> exists t :: AllHex(t) && t != "" && (s == t || s == "0x" + t || s == "0X" + t)
  {
    if Parsed(s).Some? {
      var t := Digits(s);
      assert AllHex(t) && (t == s || s == [s[0], s[1]] + t);
    } else if t :| AllHex(t) && t != "" && (s == t || s == "0x" + t || s == "0X" + t) {
      PrefixDropped(t);
      assert false;
    }
  }

  /** parse_hex over a C string. Shifting left by 4 in 64 bits drops what overflows; or-ing a digit into
      the cleared low bits adds it. */
  method ParseHex(s: string) returns (r: Option<nat>)
    ensures r == Parsed(s)
  {
    var t := Digits(s);
    if |t| == 0 || !IsHexDigit(t[0]) {
      return None;
    }
    var val, i := 0, 0;
    while i < |t| && IsHexDigit(t[i])
      invariant i <= |t| && AllHex(t[..i]) && val == HexValue(t[..i])
    {
      assert t[..i + 1][..i] == t[..i];
      val := val * 16 % WORD + HexVal(t[i]);
      i := i + 1;
    }
    if i != |t| {
      return None;
    }
    assert t[..i] == t;
    HexValueMeaning(t);
    return Some(val);
  }

  /** Printed digits denote the number's low digits, however many there are. */
  lemma {:induction false} HexRoundTrip(v: nat, d: nat)
    ensures HexNumber(Hex(v, d)) == v % Pow16(d)
  {
    if d > 0 {
      var p, h := Pow16(d - 1), Hex(v / 16, d - 1);
      var c := HexChar(v % 16);
      HexRoundTrip(v / 16, d - 1);
      assert Hex(v, d) == h + [c] && Pow16(d) == 16 * p && HexVal(c) == v % 16;
      hide Hex, Pow16, HexNumber, HexVal, HexChar;
      LastDigit(h, c);
      assert v % (16 * p) == v / 16 % p * 16 + v % 16 by { HexSplit(v, p); }
    }
  }

  lemma LastDigit(s: string, c: char)
    requires AllHex(s) && IsHexDigit(c)
    ensures AllHex(s + [c]) && HexNumber(s + [c]) == HexNumber(s) * 16 + HexVal(c)
  {
    assert (s + [c])[..|s|] == s;
  }

  lemma {:induction false} PowBound(d: nat)
    requires d <= 16
    ensures Pow16(d) <= WORD
  {
    assert Pow16(4) == 0x1_0000;
    assert Pow16(8) == 0x1_0000_0000;
    assert Pow16(12) == 0x1_0000_0000_0000;
    assert Pow16(16) == WORD;
    PowMonotone(d, 16);
  }

  lemma {:induction false} PowMonotone(j: nat, k: nat)
    requires j <= k
    ensures Pow16(j) <= Pow16(k)
  {
    if j < k {
      PowMonotone(j, k - 1);
    }
  }

  lemma PrefixDropped(s: string)
    requires AllHex(s)
    ensures Digits(s) == s && Digits("0x" + s) == s && Digits("0X" + s) == s
  {
    assert ("0x" + s)[2..] == s && ("0X" + s)[2..] == s;
  }

  /** The capital of a lower-case letter. */
  function Capital(c: char): char {
    if 'a' <= c <= 'z' then (c as int - 32) as char else c
  }

  /** t with any of its letters in capitals. */
  ghost predicate EitherCase(s: string, t: string) {
    |s| == |t| && forall i :: 0 <= i < |s| ==> s[i] == t[i] || s[i] == Capital(t[i])
  }

  lemma {:induction false} SameNumber(s: string, t: string)
    requires AllHex(t) && EitherCase(s, t)
    ensures AllHex(s) && HexNumber(s) == HexNumber(t)
  {
    if s != "" {
      SameNumber(s[..|s| - 1], t[..|t| - 1]);
      assert s == s[..|s| - 1] + [s[|s| - 1]];
    }
  }

  /** parse_hex of printed digits, in either case, with and without the prefix. */
  lemma HexRoundTripParsed(v: nat, d: nat, s: string)
    requires 1 <= d <= 16 && EitherCase(s, Hex(v, d))
    ensures Parsed(s) == Parsed("0x" + s) == Parsed("0X" + s) == Some(v % Pow16(d))
  {
    HexRoundTrip(v, d);
    PowBound(d);
    SameNumber(s, Hex(v, d));
    hide HexNumber, Pow16, Hex, Digits;
    PrefixDropped(s);
    Bits.DivModUnique(v % Pow16(d), WORD, 0, v % Pow16(d));
  }

  // ----- Decimal -------------------------------------------------------------------

  function DigitCount(v: nat): nat {
    if v < 10 then 1 else 1 + DigitCount(v / 10)
  }

  function DecChar(n: nat): (c: char)
    requires n < 10
    ensures '0' <= c <= '9' && (c - '0') as nat == n
  {
    '0' + n as char
  }

  /** Decimal notation without leading zeros. */
  function Decimal(v: nat): (s: string)
    ensures |s| == DigitCount(v)
  {
    (if v < 10 then "" else Decimal(v / 10)) + [DecChar(v % 10)]
  }

  predicate AllDecimal(s: string) {
    forall i :: 0 <= i < |s| ==> '0' <= s[i] <= '9'
  }

  /** The number a string of decimal digits denotes. */
  function DecimalValue(s: string): nat
    requires AllDecimal(s)
  {
    if s == "" then 0 else 10 * DecimalValue(s[..|s| - 1]) + (s[|s| - 1] - '0') as nat
  }

  /** One more digit at the end. */
  lemma DecimalSnoc(s: string, c: char)
    requires AllDecimal(s) && '0' <= c <= '9'
    ensures AllDecimal(s + [c]) && DecimalValue(s + [c]) == 10 * DecimalValue(s) + (c - '0') as nat
  {
    assert (s + [c])[..|s|] == s;
  }

  lemma {:induction false} DecimalMeaning(v: nat)
    ensures AllDecimal(Decimal(v)) && DecimalValue(Decimal(v)) == v
  {
    var front := if v < 10 then "" else Decimal(v / 10);
    assert Decimal(v) == front + [DecChar(v % 10)];
    assert AllDecimal("") && DecimalValue("") == 0;
    if v >= 10 {
      DecimalMeaning(v / 10);
    }
    hide Decimal, DecimalValue, DigitCount, DecChar;
    DecimalSnoc(front, DecChar(v % 10));
  }

  lemma {:induction false} DigitCountBound(v: nat, n: nat)
    requires n > 0 && v < Pow10(n)
    ensures DigitCount(v) <= n
  {
    if v >= 10 {
      assert n > 1;
      DigitCountBound(v / 10, n - 1);
    }
  }

  /** n digits are just enough. */
  lemma {:induction false} DigitCountExact(v: nat)
    ensures DigitCount(v) >= 1 && v < Pow10(DigitCount(v)) && (v > 0 ==> v >= Pow10(DigitCount(v) - 1))
  {
    if v >= 10 {
      DigitCountExact(v / 10);
    } else {
      assert Pow10(0) == 1 && Pow10(1) == 10;
    }
  }

  /** A 64-bit number has at most 20 digits. */
  lemma WordDigits(v: nat)
    requires v < WORD
    ensures DigitCount(v) <= 20
  {
    assert Pow10(5) == 10_0000;
    assert Pow10(10) == 100_0000_0000;
    assert Pow10(15) == 1000_0000_0000_0000;
    assert Pow10(20) == 1_0000_0000_0000_0000_0000;
    DigitCountBound(v, 20);
  }

  function Reversed(s: string): string {
    if s == "" then "" else Reversed(s[1..]) + [s[0]]
  }

  /** digit_count */
  method CountDigits(v: nat) returns (n: nat)
    ensures n == DigitCount(v)
  {
    n := 1;
    var w := v;
    while w >= 10
      invariant n + DigitCount(w) == DigitCount(v) + 1
    {
      w := w / 10;
      n := n + 1;
    }
  }

  /** serial_write_dec through its 21-character buffer. */
  method WriteDec(v: nat) returns (out: string)
    requires v < WORD
    ensures out == Decimal(v)
  {
    if v == 0 {
      assert Decimal(0) == [DecChar(0)] == "0";
      return "0";
    }
    var buf := new char[21];
    var i := FillDigits(v, buf);
    out := "";
    while i > 0
      invariant 0 <= i <= 20 && Decimal(v) == out + Reversed(buf[..i])
    {
      i := i - 1;
      ReversedSnoc(buf[..i], buf[i]);
      assert buf[..i + 1] == buf[..i] + [buf[i]];
      out := out + [buf[i]];
    }
  }

  /** The digits, least significant first; 20 are always enough. */
  method FillDigits(v: nat, buf: array<char>) returns (i: nat)
    requires 0 < v < WORD && buf.Length == 21
    modifies buf
    ensures i <= 20 && Decimal(v) == Reversed(buf[..i])
  {
    hide Rest, Decimal, DigitCount, DecChar;
    var w: nat := v;
    i := 0;
    WordDigits(v);
    RestStart(v);
    assert buf[..0] == "";
    while w > 0
      invariant i <= 20 && (w > 0 ==> i + DigitCount(w) == DigitCount(v))
      invariant Decimal(v) == Rest(w) + Reversed(buf[..i])
    {
      ghost var before := buf[..i];
      LastDecimal(w);
      buf[i] := DecChar(w % 10);
      ReversedSnoc(before, DecChar(w % 10));
      assert buf[..i + 1] == before + [DecChar(w % 10)];
      Regroup(Rest(w / 10), [DecChar(w % 10)], Reversed(before));
      i := i + 1;
      w := w / 10;
    }
    RestEnd(Reversed(buf[..i]));
  }

  /** The digits still to be stored. */
  ghost function Rest(w: nat): string {
    if w > 0 then Decimal(w) else ""
  }

  lemma RestStart(v: nat)
    requires v > 0
    ensures Decimal(v) == Rest(v) + Reversed("")
  {
  }

  lemma RestEnd(s: string)
    ensures Rest(0) + s == s
  {
  }

  lemma Regroup(a: string, b: string, c: string)
    ensures a + b + c == a + (b + c)
  {
  }

  lemma LastDecimal(w: nat)
    requires w > 0
    ensures Rest(w) == Rest(w / 10) + [DecChar(w % 10)]
    ensures w / 10 > 0 ==> DigitCount(w) == 1 + DigitCount(w / 10)
    ensures DigitCount(w) >= 1
  {
  }

  lemma {:induction false} ReversedSnoc(s: string, c: char)
    ensures Reversed(s + [c]) == [c] + Reversed(s)
  {
    if s == "" {
      assert s + [c] == [c];
    } else {
      ReversedSnoc(s[1..], c);
      assert (s + [c])[1..] == s[1..] + [c];
    }
  }

  function Zeros(n: nat): string {
    if n == 0 then "" else "0" + Zeros(n - 1)
  }

  /** %0Nu: zeros up to the width, then the digits. */
  method PrintUnsigned(v: nat, width: nat) returns (out: string)
    requires v < WORD
    ensures |out| == if DigitCount(v) < width then width else DigitCount(v)
    ensures AllDecimal(out) && DecimalValue(out) == v
  {
    var w := width;
    out := "";
    var n := CountDigits(v);
    while n < w
      invariant w <= width && |out| == width - w && (w < n ==> w == width)
      invariant AllDecimal(out) && DecimalValue(out) == 0
    {
      assert (out + "0")[..|out|] == out;
      out := out + "0";
      w := w - 1;
    }
    var digits := WriteDec(v);
    DecimalMeaning(v);
    PaddedValue(out, digits);
    out := out + digits;
  }

  /** Leading zeros do not change the value. */
  lemma {:induction false} PaddedValue(z: string, s: string)
    requires AllDecimal(z) && DecimalValue(z) == 0 && AllDecimal(s)
    ensures AllDecimal(z + s) && DecimalValue(z + s) == DecimalValue(s)
  {
    if s == "" {
      assert z + s == z;
    } else {
      PaddedValue(z, s[..|s| - 1]);
      assert (z + s)[..|z + s| - 1] == z + s[..|s| - 1];
    }
  }

  /** %0Nd: the sign is not counted in the width. The most negative number has no 64-bit negation. */
  method PrintSigned(v: int, width: nat) returns (out: string)
    requires -0x8000_0000_0000_0000 < v < 0x8000_0000_0000_0000
    ensures v < 0 ==> |out| > 0 && out[0] == '-'
    ensures var digits := if v < 0 then -v else v;
            var body := if v < 0 then out[1..] else out;
            && |body| == (if DigitCount(digits) < width then width else DigitCount(digits))
            && AllDecimal(body) && DecimalValue(body) == digits
  {
    if v < 0 {
      var body := PrintUnsigned(-v, width);
      out := "-" + body;
      assert out[1..] == body;
    } else {
      out := PrintUnsigned(v, width);
    }
  }
}
