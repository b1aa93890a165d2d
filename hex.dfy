/**
 * Lowercase hexadecimal text, as both programs print it: `hex` with
 * `setw(w) << setfill('0')` in HexDump.cpp, `{:0wx}` in Rust/Hexdump.rs.
 */
module Hex {
  import opened Basics

  /** An unsigned 8-bit value, what `unsigned char` and `u8` hold. */
  newtype byte = x: int | 0 <= x < 256

  predicate IsHexDigit(c: char) { '0' <= c <= '9' || 'a' <= c <= 'f' }

  /** Text made of lowercase hexadecimal digits only. */
  predicate IsHex(s: string)
  {
    forall i | 0 <= i < |s| :: IsHexDigit(s[i])
  }

  type HexString = s: string | IsHex(s)

  function DigitValue(c: char): (d: nat)
    requires IsHexDigit(c)
    ensures d < 16
  {
    if c <= '9' then c as int - '0' as int else c as int - 'a' as int + 10
  }

  /** The lowercase digit for a value below 16. */
  function Digit(d: nat): (c: char)
    requires d < 16
    ensures IsHexDigit(c) && DigitValue(c) == d
  {
    if d < 10 then ('0' as int + d) as char else ('a' as int + d - 10) as char
  }

  /** The number a digit string denotes, most significant digit first. */
  function ValueOf(s: HexString): nat
  {
    if |s| == 0 then 0 else 16 * ValueOf(s[..|s| - 1]) + DigitValue(s[|s| - 1])
  }

  function Pow16(k: nat): (p: nat)
    ensures p >= 1
  {
    if k == 0 then 1 else 16 * Pow16(k - 1)
  }

  /** The digits `hex` prints for n before any padding: no leading zero, "0" for zero. */
  function Numeral(n: nat): (s: string)
    ensures 1 <= |s|
  {
    if n < 16 then [Digit(n)] else Numeral(n / 16) + [Digit(n % 16)]
  }

  /** Appending a digit to hexadecimal text keeps it hexadecimal and multiplies its value by 16. */
  lemma {:induction false} Shift(s: HexString, c: char)
    requires IsHexDigit(c)
    ensures IsHex(s + [c]) && ValueOf(s + [c]) == 16 * ValueOf(s) + DigitValue(c)
  {
    var t := s + [c];
    assert t[..|t| - 1] == s;
  }

  /** A numeral is hexadecimal text denoting n, without a leading zero unless it is "0". */
  lemma {:induction false} NumeralDenotes(n: nat)
    ensures IsHex(Numeral(n)) && ValueOf(Numeral(n)) == n
    ensures 1 < |Numeral(n)| ==> Numeral(n)[0] != '0'
  {
    if n < 16 {
      Shift([], Digit(n));
      assert [] + [Digit(n)] == Numeral(n);
    } else {
      var prefix := Numeral(n / 16);
      NumeralDenotes(n / 16);
      Shift(prefix, Digit(n % 16));
      assert |prefix| == 1 ==> prefix == [Digit(n / 16)];
    }
  }

  /** The w lowest-order hexadecimal digits of n, zero-filled on the left. */
  function FixedWidth(n: nat, w: nat): (s: string)
    ensures |s| == w
  {
    if w == 0 then [] else FixedWidth(n / 16, w - 1) + [Digit(n % 16)]
  }

  lemma {:induction false} FixedWidthValue(n: nat, w: nat)
    requires n < Pow16(w)
    ensures IsHex(FixedWidth(n, w)) && ValueOf(FixedWidth(n, w)) == n
  {
    if w > 0 {
      assert n / 16 < Pow16(w - 1);
      FixedWidthValue(n / 16, w - 1);
      Shift(FixedWidth(n / 16, w - 1), Digit(n % 16));
    }
  }

  /** A numeral is its own value written at its own width. */
  lemma {:induction false} FixedWidthOfNumeral(n: nat)
    ensures FixedWidth(n, |Numeral(n)|) == Numeral(n)
  {
    if n >= 16 {
      FixedWidthOfNumeral(n / 16);
    }
  }

  lemma {:induction false} ValueBound(s: HexString)
    ensures ValueOf(s) < Pow16(|s|)
  {
    if s != [] {
      var front: HexString := s[..|s| - 1];
      ValueBound(front);
    }
  }

  lemma {:induction false} Pow16Monotone(a: nat, b: nat)
    requires a <= b
    ensures Pow16(a) <= Pow16(b)
  {
    if a < b {
      Pow16Monotone(a, b - 1);
    }
  }

  /** The numeral of n has at most w digits exactly when n is below 16^w. */
  lemma {:induction false} NumeralFits(n: nat, w: nat)
    requires 1 <= w
    ensures |Numeral(n)| <= w <==> n < Pow16(w)
  {
    if |Numeral(n)| <= w {
      NumeralDenotes(n);
      ValueBound(Numeral(n));
      Pow16Monotone(|Numeral(n)|, w);
    }
    if n < Pow16(w) && 16 <= n {
      assert 2 <= w;
      assert n / 16 < Pow16(w - 1);
      NumeralFits(n / 16, w - 1);
    }
  }

  /**
   * What `setw(width) << setfill('0') << hex << n` and `{:0<width>x}` print:
   * the digits of n, left-padded with '0' to at least width characters and
   * never cut short.
   */
  function Padded(n: nat, width: nat): string
  {
    FixedWidth(n, Max(width, |Numeral(n)|))
  }

  /** The padded text denotes n, is the wider of width and n's numeral, and is only padded, never cut. */
  lemma {:induction false} PaddedDenotes(n: nat, width: nat)
    ensures |Padded(n, width)| == Max(width, |Numeral(n)|)
    ensures IsHex(Padded(n, width)) && ValueOf(Padded(n, width)) == n
    ensures width < |Padded(n, width)| ==> Padded(n, width) == Numeral(n)
  {
    var w := Max(width, |Numeral(n)|);
    assert n < Pow16(w) by {
      NumeralDenotes(n);
      ValueBound(Numeral(n));
      Pow16Monotone(|Numeral(n)|, w);
    }
    FixedWidthValue(n, w);
    if width < w {
      FixedWidthOfNumeral(n);
    }
  }

  /** The padded text is exactly `width` wide iff n has at most `width` digits. */
  lemma {:induction false} PaddedWidth(n: nat, width: nat)
    requires 1 <= width
    ensures |Padded(n, width)| == width <==> n < Pow16(width)
  {
    NumeralFits(n, width);
  }

  /** The two digits printed for a byte, high nibble first. */
  function ByteHex(b: byte): (s: string)
    ensures |s| == 2
  {
    FixedWidth(b as nat, 2)
  }

  /** A byte's two digits are hexadecimal, read back as the byte, and are what `setw(2)` zero-filling prints. */
  lemma {:induction false} ByteHexDenotes(b: byte)
    ensures IsHexDigit(ByteHex(b)[0]) && IsHexDigit(ByteHex(b)[1])
    ensures 16 * DigitValue(ByteHex(b)[0]) + DigitValue(ByteHex(b)[1]) == b as nat
    ensures ByteHex(b) == Padded(b as nat, 2)
  {
    var s := ByteHex(b);
    assert Pow16(2) == 256;
    FixedWidthValue(b as nat, 2);
    var front: HexString := s[..1];
    assert s[..|s| - 1] == front;
    assert front[..0] == [];
    NumeralFits(b as nat, 2);
  }
}
