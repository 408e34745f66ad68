/**
 * The string conversions the game uses: `Number.prototype.toString` in base
 * 10 and 16 for integers, `padStart`, and ASCII case mapping.
 */
module Text {

  /** `s.padStart(n, pad)` with a one-character pad: prepend `pad` until the length reaches `n`. */
  function PadStart(s: string, n: nat, pad: char): (r: string)
    ensures |r| == (if |s| >= n then |s| else n)
    decreases n - |s|
  {
    if |s| >= n then s else PadStart([pad] + s, n, pad)
  }

  /** The padded string is max(n, |s|) long, ends with `s`, and starts with pad characters only. */
  lemma {:induction false} PadStartShape(s: string, n: nat, pad: char)
    ensures var r := PadStart(s, n, pad);
      |r| == (if |s| >= n then |s| else n) &&
      r[|r| - |s|..] == s &&
      forall i :: 0 <= i < |r| - |s| ==> r[i] == pad
    decreases n - |s|
  {
    if |s| < n {
      PadStartShape([pad] + s, n, pad);
      var r := PadStart(s, n, pad);
      assert r[|r| - |s| - 1..] == [pad] + s;
      assert r[|r| - |s|..] == r[|r| - |s| - 1..][1..];
    }
  }

  /** `z` zero characters. */
  function Zeros(z: nat): (r: string)
    ensures |r| == z && forall i :: 0 <= i < z ==> r[i] == '0'
  {
    seq(z, _ => '0')
  }

  // ---- base 10 ----

  function DecimalDigit(d: nat): (ch: char)
    requires d < 10
    ensures IsDecimalDigit(ch)
  {
    ('0' as int + d) as char
  }

  predicate IsDecimalDigit(ch: char) {
    '0' <= ch <= '9'
  }

  function DecimalDigitValue(ch: char): nat
    requires IsDecimalDigit(ch)
  {
    ch as nat - '0' as nat
  }

  /** `n.toString()` for a non-negative integer: no leading zeros, "0" for zero. */
  function DecimalString(n: nat): (s: string)
    ensures |s| > 0 && forall i :: 0 <= i < |s| ==> IsDecimalDigit(s[i])
    ensures |s| > 1 ==> s[0] != '0'
  {
    if n < 10 then [DecimalDigit(n)] else DecimalString(n / 10) + [DecimalDigit(n % 10)]
  }

  /** The number a string of decimal digits denotes. */
  function DecimalValue(s: string): nat
    requires forall i :: 0 <= i < |s| ==> IsDecimalDigit(s[i])
  {
    if s == [] then 0 else DecimalValue(s[..|s| - 1]) * 10 + DecimalDigitValue(s[|s| - 1])
  }

  lemma {:induction false} DecimalRoundTrip(n: nat)
    ensures DecimalValue(DecimalString(n)) == n
  {
    if n >= 10 {
      DecimalRoundTrip(n / 10);
      var s := DecimalString(n);
      assert s[..|s| - 1] == DecimalString(n / 10);
    }
  }

  /** Leading zeros do not change the value of a digit string. */
  lemma {:induction false} DecimalValueLeadingZeros(z: nat, s: string)
    requires forall i :: 0 <= i < |s| ==> IsDecimalDigit(s[i])
    ensures forall i :: 0 <= i < z + |s| ==> IsDecimalDigit((Zeros(z) + s)[i])
    ensures DecimalValue(Zeros(z) + s) == DecimalValue(s)
    decreases |s|
  {
    var t := Zeros(z) + s;
    if s == [] {
      assert t == Zeros(z);
      AllZeros(z);
    } else {
      assert t[..|t| - 1] == Zeros(z) + s[..|s| - 1];
      DecimalValueLeadingZeros(z, s[..|s| - 1]);
    }
  }

  lemma {:induction false} AllZeros(z: nat)
    ensures DecimalValue(Zeros(z)) == 0
  {
    if z > 0 {
      assert Zeros(z)[..z - 1] == Zeros(z - 1);
      AllZeros(z - 1);
    }
  }

  /** Scores below 1000 have at most three digits; from 1000 on they have four or more. */
  lemma DecimalLength(n: nat)
    ensures n < 10 ==> |DecimalString(n)| == 1
    ensures 10 <= n < 100 ==> |DecimalString(n)| == 2
    ensures 100 <= n < 1000 ==> |DecimalString(n)| == 3
    ensures n >= 1000 ==> |DecimalString(n)| >= 4
  {
    if n >= 10 {
      DecimalLength(n / 10);
    }
  }

  // ---- base 16 ----

  predicate IsLowerHexDigit(ch: char) {
    '0' <= ch <= '9' || 'a' <= ch <= 'f'
  }

  /** The lower-case digit of value `d`, as `toString(16)` writes it. */
  function HexDigit(d: nat): (ch: char)
    requires d < 16
    ensures IsLowerHexDigit(ch)
    ensures ch == '0' <==> d == 0
  {
    if d < 10 then ('0' as int + d) as char else ('a' as int + d - 10) as char
  }

  /** `n.toString(16)` for a non-negative integer: lower case, no leading zeros. */
  function HexString(n: nat): (s: string)
    ensures |s| > 0
    ensures forall i :: 0 <= i < |s| ==> IsLowerHexDigit(s[i])
    ensures s[0] == '0' <==> n == 0
    ensures n == 0 ==> s == "0"
  {
    if n < 16 then [HexDigit(n)] else HexString(n / 16) + [HexDigit(n % 16)]
  }

  /** `c.toString(16)` for any integer: a minus sign before the digits of a negative one. */
  function ToHex(c: int): (r: string)
    ensures |r| > 0
    ensures r[0] == '-' <==> c < 0
    ensures forall i :: (if c < 0 then 1 else 0) <= i < |r| ==> IsLowerHexDigit(r[i])
  {
    if c < 0 then "-" + HexString(-c) else HexString(c)
  }

  /** ASCII `toUpperCase` (only a..z change). */
  function ToUpper(s: string): (r: string)
    ensures |r| == |s|
  {
    seq(|s|, i requires 0 <= i < |s| => if 'a' <= s[i] <= 'z' then (s[i] as int - 32) as char else s[i])
  }

  /** ASCII `toLowerCase` (only A..Z change). */
  function ToLower(s: string): (r: string)
    ensures |r| == |s|
  {
    seq(|s|, i requires 0 <= i < |s| => if 'A' <= s[i] <= 'Z' then (s[i] as int + 32) as char else s[i])
  }

  /** The colour text of the LED payload: `c.toString(16).padStart(6, "0").toUpperCase()`. */
  function HexColor(c: int): (r: string)
    ensures |r| == if |ToHex(c)| >= 6 then |ToHex(c)| else 6
    ensures forall i :: 0 <= i < |r| - |ToHex(c)| ==> r[i] == '0'
    ensures forall i :: 0 <= i < |r| ==> !('a' <= r[i] <= 'z')
  {
    PadStartShape(ToHex(c), 6, '0');
    ToUpper(PadStart(ToHex(c), 6, '0'))
  }

  predicate IsUpperHexDigit(ch: char) {
    '0' <= ch <= '9' || 'A' <= ch <= 'F'
  }

  function UpperHexValue(ch: char): nat
    requires IsUpperHexDigit(ch)
  {
    if ch <= '9' then ch as nat - '0' as nat else ch as nat - 'A' as nat + 10
  }

  /** The number a string of upper-case hex digits denotes. */
  function HexValue(s: string): nat
    requires forall i :: 0 <= i < |s| ==> IsUpperHexDigit(s[i])
  {
    if s == [] then 0 else HexValue(s[..|s| - 1]) * 16 + UpperHexValue(s[|s| - 1])
  }

  function Pow16(k: nat): nat {
    if k == 0 then 1 else 16 * Pow16(k - 1)
  }

  lemma {:induction false} HexStringLength(n: nat, k: nat)
    requires k > 0 && n < Pow16(k)
    ensures |HexString(n)| <= k
  {
    if n >= 16 {
      HexStringLength(n / 16, k - 1);
    }
  }

  lemma ToUpperAppend(a: string, b: string)
    ensures ToUpper(a + b) == ToUpper(a) + ToUpper(b)
  {
  }

  lemma ToUpperZeros(z: nat)
    ensures ToUpper(Zeros(z)) == Zeros(z)
  {
  }

  /** Upper-casing the digits of `n.toString(16)` gives upper-case hex digits denoting `n`. */
  lemma {:induction false} HexStringUpper(n: nat)
    ensures forall i :: 0 <= i < |HexString(n)| ==> IsUpperHexDigit(ToUpper(HexString(n))[i])
    ensures HexValue(ToUpper(HexString(n))) == n
  {
    var s := HexString(n);
    var u := ToUpper(s);
    if n < 16 {
      assert u == [ToUpper([HexDigit(n)])[0]];
      assert u[..0] == [];
    } else {
      HexStringUpper(n / 16);
      var t := HexString(n / 16);
      ToUpperAppend(t, [HexDigit(n % 16)]);
      assert u[..|u| - 1] == ToUpper(t);
    }
  }

  /**
   * Every colour of 24 bits is written as exactly six upper-case hex digits
   * that denote the colour itself.
   */
  lemma HexColorSixDigits(c: int)
    requires 0 <= c < 0x1000000
    ensures |HexColor(c)| == 6
    ensures forall i :: 0 <= i < 6 ==> IsUpperHexDigit(HexColor(c)[i])
    ensures HexValue(HexColor(c)) == c
  {
    assert Pow16(6) == 0x1000000;
    HexStringLength(c, 6);
    HexStringUpper(c);
    var s := HexString(c);
    var z := 6 - |s|;
    PadStartShape(s, 6, '0');
    assert PadStart(s, 6, '0') == Zeros(z) + s;
    ToUpperAppend(Zeros(z), s);
    ToUpperZeros(z);
    HexValueLeadingZeros(z, ToUpper(s));
  }

  lemma {:induction false} HexValueLeadingZeros(z: nat, s: string)
    requires forall i :: 0 <= i < |s| ==> IsUpperHexDigit(s[i])
    ensures forall i :: 0 <= i < z + |s| ==> IsUpperHexDigit((Zeros(z) + s)[i])
    ensures HexValue(Zeros(z) + s) == HexValue(s)
    decreases |s|
  {
    var t := Zeros(z) + s;
    if s == [] {
      assert t == Zeros(z);
      HexZeros(z);
    } else {
      assert t[..|t| - 1] == Zeros(z) + s[..|s| - 1];
      HexValueLeadingZeros(z, s[..|s| - 1]);
    }
  }

  lemma {:induction false} HexZeros(z: nat)
    ensures HexValue(Zeros(z)) == 0
  {
    if z > 0 {
      assert Zeros(z)[..z - 1] == Zeros(z - 1);
      HexZeros(z - 1);
    }
  }
}
