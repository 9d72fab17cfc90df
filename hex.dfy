/**
 * Hexadecimal text as the protocol uses it: Python's `int(s, 16)` restricted
 * to plain digits, and the upper-case, zero-padded `X` format.
 */
module Hex {
  import opened Results

  /** The upper-case digits in value order (`_HEX_DIGITS` of the source). */
  const Digits: string := "0123456789ABCDEF"

  const TwoPow32: int := 0x1_0000_0000
  const TwoPow31: int := 0x8000_0000

  function Pow16(n: nat): (p: nat)
    ensures p >= 1
  {
    if n == 0 then 1 else 16 * Pow16(n - 1)
  }

  /** A digit `int(_, 16)` accepts: either case. */
  predicate IsHexDigit(c: char) {
    '0' <= c <= '9' || 'A' <= c <= 'F' || 'a' <= c <= 'f'
  }

  /** A digit the `X` format produces. */
  predicate IsUpperHexDigit(c: char) {
    '0' <= c <= '9' || 'A' <= c <= 'F'
  }

  lemma UpperDigitsAreDigits(c: char)
    ensures IsUpperHexDigit(c) <==> c in Digits
  {
    if IsUpperHexDigit(c) {
      var i := if c <= '9' then c as int - '0' as int else c as int - 'A' as int + 10;
      assert Digits[i] == c;
    }
  }

  function DigitValue(c: char): (d: nat)
    requires IsHexDigit(c)
    ensures d < 16
  {
    if '0' <= c <= '9' then c as nat - '0' as nat
    else if 'A' <= c <= 'F' then c as nat - 'A' as nat + 10
    else c as nat - 'a' as nat + 10
  }

  /** The upper-case digit of value d. */
  function HexChar(d: nat): (c: char)
    requires d < 16
    ensures IsUpperHexDigit(c) && DigitValue(c) == d
    ensures c == Digits[d]
  {
    if d < 10 then ('0' as int + d) as char else ('A' as int + d - 10) as char
  }

  /** Upper-case digits are exactly the HexChar of their value. */
  lemma HexCharOfDigitValue(c: char)
    requires IsUpperHexDigit(c)
    ensures HexChar(DigitValue(c)) == c
  {
  }

  predicate IsHexString(s: string) {
    forall i :: 0 <= i < |s| ==> IsHexDigit(s[i])
  }

  predicate IsUpperHex(s: string) {
    forall i :: 0 <= i < |s| ==> IsUpperHexDigit(s[i])
  }

  /** The value of a digit string, most significant digit first. */
  function HexValue(s: string): (v: nat)
    requires IsHexString(s)
    ensures v < Pow16(|s|)
  {
    if |s| == 0 then 0
    else
      var p := HexValue(s[..|s| - 1]);
      assert p <= Pow16(|s| - 1) - 1;
      16 * p + DigitValue(s[|s| - 1])
  }

  /** `int(s, 16)` on a string of plain digits; None where Python raises ValueError. */
  function ParseHex(s: string): (r: Option<nat>)
    ensures r.Some? <==> |s| > 0 && IsHexString(s)
    ensures r.Some? ==> r.value < Pow16(|s|)
  {
    if |s| > 0 && IsHexString(s) then Some(HexValue(s)) else None
  }

  /** `f"{v % 16**width:0{width}X}"`: exactly `width` upper-case digits. */
  function ToHex(v: nat, width: nat): (s: string)
    ensures |s| == width && IsUpperHex(s)
  {
    if width == 0 then [] else ToHex(v / 16, width - 1) + [HexChar(v % 16)]
  }

  lemma ModOfSum(v: nat, d: nat, k: nat, x: nat)
    requires d >= 1 && x < d && v == d * k + x
    ensures v % d == x && v / d == k
  {
    var q, r := v / d, v % d;
    assert d * q + r == d * k + x;
    if q > k {
      assert d * q >= d * (k + 1) by { MulMono(d, k + 1, q); }
      assert false;
    } else if q < k {
      assert d * k >= d * (q + 1) by { MulMono(d, q + 1, k); }
      assert false;
    }
  }

  lemma MulMono(d: nat, a: nat, b: nat)
    requires a <= b
    ensures d * a <= d * b
  {
  }

  /** One more digit: the low digit and the higher digits combine into the wider remainder. */
  lemma DivModStep(v: nat, m: nat)
    requires m >= 1
    ensures 16 * ((v / 16) % m) + v % 16 == v % (16 * m)
  {
    var q, r := v / 16, v % 16;
    var k, q' := q / m, q % m;
    assert v == 16 * q + r;
    assert q == m * k + q';
    assert v == (16 * m) * k + (16 * q' + r);
    assert 16 * q' + r < 16 * m;
    ModOfSum(v, 16 * m, k, 16 * q' + r);
  }

  /** Formatting then parsing gives the value modulo 16^width. */
  lemma {:induction false} ToHexValue(v: nat, width: nat)
    ensures IsHexString(ToHex(v, width))
    ensures HexValue(ToHex(v, width)) == v % Pow16(width)
  {
    var s := ToHex(v, width);
    assert IsHexString(s) by {
      forall i | 0 <= i < |s| ensures IsHexDigit(s[i]) {
        assert IsUpperHexDigit(s[i]);
      }
    }
    if width > 0 {
      ToHexValue(v / 16, width - 1);
      assert s[..width - 1] == ToHex(v / 16, width - 1);
      DivModStep(v, Pow16(width - 1));
    }
  }

  /** A value that fits in `width` digits is read back exactly from its formatting. */
  lemma ParseToHex(v: nat, width: nat)
    requires 0 < width && v < Pow16(width)
    ensures ParseHex(ToHex(v, width)) == Some(v)
  {
    ToHexValue(v, width);
  }

  /** Parsing then formatting an upper-case digit string gives the string back. */
  lemma {:induction false} HexValueToHex(s: string)
    requires IsUpperHex(s)
    ensures IsHexString(s) && ToHex(HexValue(s), |s|) == s
  {
    assert IsHexString(s);
    if |s| > 0 {
      var p, c := s[..|s| - 1], s[|s| - 1];
      assert IsUpperHex(p);
      var v := HexValue(s);
      ModOfSum(v, 16, HexValue(p), DigitValue(c));
      HexValueToHex(p);
      HexCharOfDigitValue(c);
      assert s == p + [c];
    }
  }

  lemma Pow16Of8()
    ensures Pow16(2) == 256 && Pow16(8) == TwoPow32
  {
    assert Pow16(2) == 256;
    assert Pow16(4) == 65536;
    assert Pow16(8) == 65536 * 65536;
  }
}
