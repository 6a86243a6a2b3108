/**
 * Hexadecimal text as the script produces and reads it: the minimal
 * lower-case rendering of BigInt.prototype.toString(16), left padding with
 * String.prototype.padStart, the "0x"-prefixed 32-byte field encoding of
 * fieldToBytes32, and BigInt's reading of a "0x" literal.
 */
module Hex {
  import opened Wrappers

  /** Hex digits in a 32-byte word. */
  const WORD_DIGITS: nat := 64

  /** 2^256: the first value that no longer fits a 32-byte word. */
  const WORD_LIMIT: nat := 0x1_0000_0000_0000_0000_0000_0000_0000_0000_0000_0000_0000_0000_0000_0000_0000_0000

  /** 16 to the power e. */
  function Pow16(e: nat): (r: nat)
    ensures r >= 1
  {
    if e == 0 then 1 else 16 * Pow16(e - 1)
  }

  lemma {:induction false} Pow16Add(a: nat, b: nat)
    ensures Pow16(a + b) == Pow16(a) * Pow16(b)
    decreases a
  {
    if a > 0 {
      Pow16Add(a - 1, b);
      assert Pow16(a + b) == 16 * Pow16(a - 1 + b);
    }
  }

  /** A word of 64 hex digits holds exactly the values below WORD_LIMIT. */
  lemma WordLimitDigits()
    ensures Pow16(WORD_DIGITS) == WORD_LIMIT
  {
    assert Pow16(1) == 0x10;
    Pow16Add(1, 1);
    assert Pow16(2) == 0x100;
    Pow16Add(2, 2);
    assert Pow16(4) == 0x1_0000;
    Pow16Add(4, 4);
    assert Pow16(8) == 0x1_0000_0000;
    Pow16Add(8, 8);
    assert Pow16(16) == 0x1_0000_0000_0000_0000;
    Pow16Add(16, 16);
    assert Pow16(32) == 0x1_0000_0000_0000_0000_0000_0000_0000_0000;
    Pow16Add(32, 32);
  }

  predicate IsHexDigit(c: char) {
    '0' <= c <= '9' || 'a' <= c <= 'f' || 'A' <= c <= 'F'
  }

  predicate IsLowerHexDigit(c: char) {
    '0' <= c <= '9' || 'a' <= c <= 'f'
  }

  predicate AllHex(s: string) {
    forall i :: 0 <= i < |s| ==> IsHexDigit(s[i])
  }

  predicate AllLowerHex(s: string) {
    forall i :: 0 <= i < |s| ==> IsLowerHexDigit(s[i])
  }

  /** The value of one hex digit, either case. */
  function DigitValue(c: char): (d: nat)
    requires IsHexDigit(c)
    ensures d < 16
    ensures d == 0 <==> c == '0'
  {
    if c <= '9' then c as int - '0' as int
    else if c <= 'F' then c as int - 'A' as int + 10
    else c as int - 'a' as int + 10
  }

  /** The lower-case digit for d, as toString(16) writes it. */
  function HexDigit(d: nat): (c: char)
    requires d < 16
    ensures IsLowerHexDigit(c) && DigitValue(c) == d
  {
    if d < 10 then (48 + d) as char else (87 + d) as char
  }

  function Repeat(c: char, n: nat): (r: string)
    ensures |r| == n
  {
    seq(n, _ => c)
  }

  /** BigInt(v).toString(16): lower-case digits, no leading zero, "0" for zero. */
  function ToHex(v: nat): (s: string)
    ensures |s| >= 1 && AllLowerHex(s) && AllHex(s)
    ensures s[0] == '0' ==> v == 0
    decreases v
  {
    if v < 16 then [HexDigit(v)] else ToHex(v / 16) + [HexDigit(v % 16)]
  }

  /** The value of a string of hex digits, most significant digit first. */
  function ParseHex(s: string): (v: nat)
    requires AllHex(s)
    ensures v < Pow16(|s|)
    decreases |s|
  {
    if s == [] then 0 else 16 * ParseHex(s[..|s| - 1]) + DigitValue(s[|s| - 1])
  }

  /** s.padStart(width, fill): a string already at least width long is returned unchanged. */
  function PadStart(s: string, width: nat, fill: char): string {
    if |s| >= width then s else Repeat(fill, width - |s|) + s
  }

  /** fieldToBytes32(value): "0x" and the hex digits of value, left-padded with '0' to 64. */
  function FieldToBytes32(v: nat): string {
    "0x" + PadStart(ToHex(v), WORD_DIGITS, '0')
  }

  /** A "0x" (or "0X") prefix followed by at least one hex digit. */
  predicate IsHexLiteral(s: string) {
    |s| >= 3 && s[0] == '0' && (s[1] == 'x' || s[1] == 'X') && AllHex(s[2..])
  }

  /** BigInt(s) for a string argument written as a hex literal; None for any string that is not a "0x" hex literal. */
  function BigIntFromHexLiteral(s: string): Option<nat> {
    if IsHexLiteral(s) then Some(ParseHex(s[2..])) else None
  }

  /** toString(16) needs at most k digits exactly when the value is below 16^k. */
  lemma {:induction false} ToHexLength(v: nat, k: nat)
    requires k >= 1
    ensures |ToHex(v)| <= k <==> v < Pow16(k)
    decreases v
  {
    if v >= 16 && k > 1 {
      ToHexLength(v / 16, k - 1);
    }
  }

  /** Reading back what toString(16) wrote gives the value. */
  lemma {:induction false} ParseToHex(v: nat)
    ensures ParseHex(ToHex(v)) == v
    decreases v
  {
    var s := ToHex(v);
    if v < 16 {
      assert s[..|s| - 1] == [];
    } else {
      ParseToHex(v / 16);
      assert s[..|s| - 1] == ToHex(v / 16);
    }
  }

  /** A run of '0' digits has value zero. */
  lemma {:induction false} ParseZeros(n: nat)
    ensures ParseHex(Repeat('0', n)) == 0
  {
    if n > 0 {
      ParseZeros(n - 1);
      assert Repeat('0', n)[..n - 1] == Repeat('0', n - 1);
    }
  }

  /** Left padding with '0' does not change the value read back. */
  lemma {:induction false} ParseLeadingZeros(n: nat, s: string)
    requires AllHex(s)
    ensures AllHex(Repeat('0', n) + s)
    ensures ParseHex(Repeat('0', n) + s) == ParseHex(s)
    decreases |s|
  {
    var z := Repeat('0', n) + s;
    assert AllHex(z) by {
      forall i | 0 <= i < |z| ensures IsHexDigit(z[i]) {
        if i >= n { assert z[i] == s[i - n]; }
      }
    }
    if s == [] {
      assert z == Repeat('0', n);
      ParseZeros(n);
    } else {
      var t := s[..|s| - 1];
      ParseLeadingZeros(n, t);
      assert z[..|z| - 1] == Repeat('0', n) + t;
    }
  }

  /** A hex string of value zero is all '0' digits. */
  lemma {:induction false} ZeroValueDigits(s: string)
    requires AllHex(s) && ParseHex(s) == 0
    ensures s == Repeat('0', |s|)
    decreases |s|
  {
    if s != [] {
      var t := s[..|s| - 1];
      ZeroValueDigits(t);
      assert s == t + [s[|s| - 1]];
    }
  }

  /** Padding with '0' keeps a string lower-case hex. */
  lemma PadZerosLowerHex(t: string, width: nat)
    requires AllLowerHex(t)
    ensures AllLowerHex(PadStart(t, width, '0'))
  {
    if |t| < width {
      var z := Repeat('0', width - |t|);
      var p := z + t;
      forall i | 0 <= i < |p| ensures IsLowerHexDigit(p[i]) {
        if i >= |z| { assert p[i] == t[i - |z|]; }
      }
    }
  }

  /**
   * For v below 2^256, fieldToBytes32(v) is "0x" followed by exactly 64
   * lower-case hex digits; for larger v the padding is a no-op and the
   * string is longer.
   */
  lemma FieldToBytes32Shape(v: nat)
    ensures |FieldToBytes32(v)| == 2 + WORD_DIGITS <==> v < WORD_LIMIT
    ensures v < WORD_LIMIT ==>
      FieldToBytes32(v)[..2] == "0x" && AllLowerHex(FieldToBytes32(v)[2..])
  {
    assert |ToHex(v)| <= WORD_DIGITS <==> v < WORD_LIMIT by {
      ToHexLength(v, WORD_DIGITS);
      WordLimitDigits();
    }
    var t := ToHex(v);
    var p := PadStart(t, WORD_DIGITS, '0');
    assert FieldToBytes32(v)[2..] == p;
    PadZerosLowerHex(t, WORD_DIGITS);
  }

  /** A value below 2^256, padded to 64 digits, is 64 hex digits that parse back to it. */
  lemma PaddedWord(v: nat)
    requires v < WORD_LIMIT
    ensures var p := PadStart(ToHex(v), WORD_DIGITS, '0');
      |p| == WORD_DIGITS && AllHex(p) && ParseHex(p) == v
  {
    var t := ToHex(v);
    assert |t| <= WORD_DIGITS by {
      ToHexLength(v, WORD_DIGITS);
      WordLimitDigits();
    }
    assert ParseHex(t) == v by { ParseToHex(v); }
    var p := PadStart(t, WORD_DIGITS, '0');
    if |t| < WORD_DIGITS {
      var n := WORD_DIGITS - |t|;
      assert p == Repeat('0', n) + t;
      ParseLeadingZeros(n, t);
    } else {
      assert p == t;
    }
  }

  /** BigInt(fieldToBytes32(v)) == v, for every v: the round trip line 40 relies on. */
  lemma FieldRoundTrip(v: nat)
    ensures BigIntFromHexLiteral(FieldToBytes32(v)) == Some(v)
  {
    var t := ToHex(v);
    var f := FieldToBytes32(v);
    var p := PadStart(t, WORD_DIGITS, '0');
    assert f[2..] == p;
    ParseToHex(v);
    if |t| < WORD_DIGITS {
      ParseLeadingZeros(WORD_DIGITS - |t|, t);
    }
  }

  /** A non-zero value times 16 plus a digit renders as the value's digits followed by that digit. */
  lemma ToHexSnoc(p: nat, d: nat)
    requires p >= 1 && d < 16
    ensures ToHex(16 * p + d) == ToHex(p) + [HexDigit(d)]
  {
    var v := 16 * p + d;
    assert v / 16 == p && v % 16 == d;
  }

  /** A lower-case digit is rendered back as itself. */
  lemma DigitRoundTrip(c: char)
    requires IsLowerHexDigit(c)
    ensures HexDigit(DigitValue(c)) == c
  {
  }

  /** A single digit padded to n + 1 places is n zeros and the digit. */
  lemma PadSingleDigit(t: string, c: char)
    requires t == Repeat('0', |t|)
    ensures PadStart([c], |t| + 1, '0') == t + [c]
  {
  }

  /** Padding to one more place after appending a digit is appending to the padded string. */
  lemma PadSnoc(u: string, n: nat, c: char)
    requires |u| <= n
    ensures PadStart(u + [c], n + 1, '0') == PadStart(u, n, '0') + [c]
  {
    if |u| < n {
      var z := Repeat('0', n - |u|);
      assert z + (u + [c]) == z + u + [c];
    }
  }

  /**
   * A lower-case hex string of n >= 1 digits is the n-digit padding of the
   * toString(16) rendering of its own value: fixed-width lower-case hex and
   * padded minimal hex agree.
   */
  lemma {:induction false} CanonicalHex(s: string)
    requires |s| >= 1 && AllLowerHex(s)
    ensures AllHex(s) && PadStart(ToHex(ParseHex(s)), |s|, '0') == s
    decreases |s|
  {
    var n := |s| - 1;
    var t, c := s[..n], s[n];
    assert s == t + [c];
    assert AllLowerHex(t) && AllHex(t) && IsLowerHexDigit(c);
    if ParseHex(t) == 0 {
      ZeroValueDigits(t);
      CanonicalFirstDigit(t, c);
    } else {
      CanonicalHex(t);
      CanonicalNextDigit(t, c);
    }
  }

  /** Zeros followed by one digit: the rendering is that digit, padded back with the zeros. */
  lemma CanonicalFirstDigit(t: string, c: char)
    requires t == Repeat('0', |t|) && IsLowerHexDigit(c)
    ensures AllHex(t + [c]) && PadStart(ToHex(ParseHex(t + [c])), |t| + 1, '0') == t + [c]
  {
    var s := t + [c];
    assert AllHex(s);
    assert s[..|t|] == t;
    ParseZeros(|t|);
    assert ParseHex(s) == DigitValue(c);
    DigitRoundTrip(c);
    PadSingleDigit(t, c);
  }

  /** A canonical string with a non-zero value stays canonical when a digit is appended. */
  lemma CanonicalNextDigit(t: string, c: char)
    requires AllHex(t) && IsLowerHexDigit(c) && ParseHex(t) >= 1
    requires PadStart(ToHex(ParseHex(t)), |t|, '0') == t
    ensures AllHex(t + [c]) && PadStart(ToHex(ParseHex(t + [c])), |t| + 1, '0') == t + [c]
  {
    var s := t + [c];
    assert AllHex(s);
    assert s[..|t|] == t;
    assert ParseHex(s) == 16 * ParseHex(t) + DigitValue(c);
    RenderNextDigit(ParseHex(s), ParseHex(t), c, t);
  }

  /** v == 16p + d, rendered and padded to one more place, is the padded rendering of p followed by d's digit. */
  lemma RenderNextDigit(v: nat, p: nat, c: char, t: string)
    requires p >= 1 && IsLowerHexDigit(c) && v == 16 * p + DigitValue(c)
    requires PadStart(ToHex(p), |t|, '0') == t
    ensures PadStart(ToHex(v), |t| + 1, '0') == t + [c]
  {
    DigitRoundTrip(c);
    ToHexSnoc(p, DigitValue(c));
    PadSnoc(ToHex(p), |t|, c);
  }

  /** A 64-digit lower-case hex string, prefixed with "0x", is fieldToBytes32 of its value. */
  lemma LowerWordIsField(s: string)
    requires |s| == WORD_DIGITS && AllLowerHex(s)
    ensures AllHex(s) && FieldToBytes32(ParseHex(s)) == "0x" + s
  {
    CanonicalHex(s);
  }
}
