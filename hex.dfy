/**
 * Hexadecimal text as the encoders write it: `v.toString(16)` (the shortest
 * lowercase form) widened with `padStart(width, '0')`. FixedHex is the
 * reference form (exactly `width` digits) and HexValue reads digits back.
 */
module Hex {

  /** 16 to the power n. */
  function Pow16(n: nat): (r: nat)
    ensures r >= 1
  {
    if n == 0 then 1 else 16 * Pow16(n - 1)
  }

  predicate IsHexDigit(c: char)
  {
    '0' <= c <= '9' || 'a' <= c <= 'f'
  }

  predicate AllHexDigits(s: string)
  {
    forall i :: 0 <= i < |s| ==> IsHexDigit(s[i])
  }

  /** The lowercase digit for 0 <= d < 16. */
  function HexDigit(d: nat): (c: char)
    requires d < 16
    ensures IsHexDigit(c)
  {
    if d < 10 then ('0' as int + d) as char else ('a' as int + d - 10) as char
  }

  /** The value of one digit; the inverse of HexDigit. */
  function DigitValue(c: char): (d: nat)
    requires IsHexDigit(c)
    ensures d < 16 && HexDigit(d) == c
  {
    if c <= '9' then (c as int) - ('0' as int) else (c as int) - ('a' as int) + 10
  }

  /** `v.toString(16)` for a non-negative integer v. */
  function ToHexString(v: nat): (s: string)
    ensures 1 <= |s|
  {
    if v < 16 then [HexDigit(v)] else ToHexString(v / 16) + [HexDigit(v % 16)]
  }

  /** `v.toString(16)` for any integer v: a minus sign and the digits of -v when negative. */
  function NumberToHex(v: int): (s: string)
    ensures v >= 0 ==> s == ToHexString(v)
  {
    if v < 0 then "-" + ToHexString(-v) else ToHexString(v)
  }

  function Repeat(c: char, n: nat): (s: string)
    ensures |s| == n
  {
    if n == 0 then [] else [c] + Repeat(c, n - 1)
  }

  /** `s.padStart(len, fill)` for a one-character fill. */
  function PadStart(s: string, len: nat, fill: char): (r: string)
    ensures |r| == if |s| >= len then |s| else len
  {
    if |s| >= len then s else Repeat(fill, len - |s|) + s
  }

  /** Exactly `width` lowercase digits of v modulo 16^width, most significant first. */
  function FixedHex(v: nat, width: nat): (s: string)
    ensures |s| == width
  {
    if width == 0 then "" else FixedHex(v / 16, width - 1) + [HexDigit(v % 16)]
  }

  /** The value of a string of hex digits, most significant first. */
  function HexValue(s: string): (v: nat)
    requires AllHexDigits(s)
    ensures v < Pow16(|s|)
  {
    if s == [] then 0 else 16 * HexValue(s[..|s| - 1]) + DigitValue(s[|s| - 1])
  }

  /** Number of digits `toString(16)` produces for v. */
  function NumDigits(v: nat): (n: nat)
  {
    if v < 16 then 1 else 1 + NumDigits(v / 16)
  }

  // ---------------------------------------------------------------------
  // Round trips between values and digit strings
  // ---------------------------------------------------------------------

  /** The fixed-width form consists of hex digits only. */
  lemma {:induction false} FixedHexDigits(v: nat, width: nat)
    ensures AllHexDigits(FixedHex(v, width))
  {
    if width > 0 {
      FixedHexDigits(v / 16, width - 1);
    }
  }

  /** Reading back `width` digits gives the value, if it fits in them. */
  lemma {:induction false} HexValueOfFixedHex(v: nat, width: nat)
    requires v < Pow16(width)
    ensures AllHexDigits(FixedHex(v, width))
    ensures HexValue(FixedHex(v, width)) == v
  {
    FixedHexDigits(v, width);
    if width > 0 {
      var s := FixedHex(v, width);
      assert s[..width - 1] == FixedHex(v / 16, width - 1);
      HexValueOfFixedHex(v / 16, width - 1);
    }
  }

  /** Every digit string is the fixed-width form of its value. */
  lemma {:induction false} FixedHexOfHexValue(s: string)
    requires AllHexDigits(s)
    ensures FixedHex(HexValue(s), |s|) == s
  {
    if s != [] {
      var init := s[..|s| - 1];
      var v := HexValue(s);
      assert v / 16 == HexValue(init) && v % 16 == DigitValue(s[|s| - 1]);
      FixedHexOfHexValue(init);
      assert s == init + [s[|s| - 1]];
    }
  }

  /** `toString(16)` is the fixed-width form with exactly NumDigits(v) digits. */
  lemma {:induction false} ToHexStringIsFixedHex(v: nat)
    ensures v < Pow16(NumDigits(v))
    ensures ToHexString(v) == FixedHex(v, NumDigits(v))
  {
    if v >= 16 {
      ToHexStringIsFixedHex(v / 16);
    }
  }

  /** A value below 16^width has at most width digits. */
  lemma {:induction false} NumDigitsAtMost(v: nat, width: nat)
    requires width >= 1 && v < Pow16(width)
    ensures NumDigits(v) <= width
  {
    if v >= 16 {
      NumDigitsAtMost(v / 16, width - 1);
    }
  }

  /** Leading zeros widen the fixed-width form. */
  lemma {:induction false} FixedHexWiden(v: nat, m: nat, j: nat)
    requires v < Pow16(m)
    ensures Repeat('0', j) + FixedHex(v, m) == FixedHex(v, m + j)
    decreases j
  {
    if j > 0 {
      FixedHexWiden(v, m, j - 1);
      PowMonotone(m, m + j - 1);
      FixedHexOneMore(v, m + j - 1);
      calc {
        Repeat('0', j) + FixedHex(v, m);
        ['0'] + (Repeat('0', j - 1) + FixedHex(v, m));
        ['0'] + FixedHex(v, m + j - 1);
        FixedHex(v, m + j);
      }
    }
  }

  lemma {:induction false} FixedHexOneMore(v: nat, m: nat)
    requires v < Pow16(m)
    ensures FixedHex(v, m + 1) == ['0'] + FixedHex(v, m)
  {
    if m > 0 {
      FixedHexOneMore(v / 16, m - 1);
    }
  }

  lemma {:induction false} PowMonotone(m: nat, n: nat)
    requires m <= n
    ensures Pow16(m) <= Pow16(n)
    decreases n
  {
    if m < n {
      PowMonotone(m, n - 1);
    }
  }

  lemma Pow16Values()
    ensures Pow16(2) == 0x100 && Pow16(4) == 0x1_0000 && Pow16(6) == 0x100_0000 && Pow16(8) == 0x1_0000_0000
  {
  }

  /**
   * `v.toString(16).padStart(width, '0')` is exactly `width` digits of v
   * whenever v fits in them.
   */
  lemma PaddedHex(v: nat, width: nat)
    requires width >= 1 && v < Pow16(width)
    ensures PadStart(ToHexString(v), width, '0') == FixedHex(v, width)
  {
    ToHexStringIsFixedHex(v);
    NumDigitsAtMost(v, width);
    var n := NumDigits(v);
    var digits := FixedHex(v, n);
    assert |digits| == n;
    if n < width {
      assert PadStart(digits, width, '0') == Repeat('0', width - n) + digits;
    }
    FixedHexWiden(v, n, width - n);
  }
}
