/** Hexadecimal numerals as byte strings: Python's `int(text, 16)` on plain digits, and
    the formats `08x` and `%x`. */
module Hex {
  newtype Byte = b: int | 0 <= b < 256

  const FIELD_LIMIT: nat := 0x1_0000_0000

  // The digits 0-9 are 0x30-0x39, A-F are 0x41-0x46, a-f are 0x61-0x66.

  predicate IsHexDigit(b: Byte) {
    0x30 <= b <= 0x39 || 0x41 <= b <= 0x46 || 0x61 <= b <= 0x66
  }

  function DigitValue(b: Byte): (d: nat)
    requires IsHexDigit(b)
    ensures d < 16
  {
    if b <= 0x39 then (b - 0x30) as nat
    else if b <= 0x46 then (b - 0x41) as nat + 10
    else (b - 0x61) as nat + 10
  }

  function Digit(d: nat): (b: Byte)
    requires d < 16
    ensures IsHexDigit(b) && DigitValue(b) == d
  {
    if d < 10 then (0x30 + d) as Byte else (0x61 + d - 10) as Byte
  }

  function Lower(b: Byte): Byte {
    if 0x41 <= b <= 0x46 then b + 0x20 else b
  }

  predicate IsHex(s: seq<Byte>) {
    forall i :: 0 <= i < |s| ==> IsHexDigit(s[i])
  }

  function Value(s: seq<Byte>): nat
    requires IsHex(s)
  {
    if s == [] then 0 else Value(s[..|s| - 1]) * 16 + DigitValue(s[|s| - 1])
  }

  /** The format `x`: no leading zero, except for zero itself. */
  function Text(v: nat): (s: seq<Byte>)
    ensures s != [] && IsHex(s)
  {
    if v < 16 then [Digit(v)] else Text(v / 16) + [Digit(v % 16)]
  }

  function ZeroDigits(n: nat): (s: seq<Byte>)
    ensures |s| == n && IsHex(s)
  {
    seq(n, _ => 0x30)
  }

  /** The format `08x`: at least `width` digits. */
  function Padded(v: nat, width: nat): (s: seq<Byte>)
    ensures IsHex(s) && |s| >= width
  {
    var t := Text(v);
    if |t| < width then ZeroDigits(width - |t|) + t else t
  }

  /** The same numeral, built from the last digit. */
  function Fixed(v: nat, width: nat): (s: seq<Byte>)
    ensures |s| == width && IsHex(s)
  {
    if width == 0 then [] else Fixed(v / 16, width - 1) + [Digit(v % 16)]
  }

  function Power16(n: nat): (p: nat)
    ensures p > 0
  {
    if n == 0 then 1 else 16 * Power16(n - 1)
  }

  lemma {:induction false} ValueAppend(s: seq<Byte>, d: nat)
    requires IsHex(s) && d < 16
    ensures Value(s + [Digit(d)]) == Value(s) * 16 + d
  {
    assert (s + [Digit(d)])[..|s|] == s;
  }

  lemma {:induction false} TextValue(v: nat)
    ensures Value(Text(v)) == v
  {
    if v >= 16 {
      TextValue(v / 16);
      ValueAppend(Text(v / 16), v % 16);
    }
  }

  lemma {:induction false} LastPlace(v: nat, p: nat) returns (q: nat, r: nat)
    requires v < 16 * p
    ensures q == v / 16 && r == v % 16 && q < p && q * 16 + r == v
  {
    q, r := v / 16, v % 16;
  }

  lemma {:induction false} FixedValue(v: nat, width: nat)
    requires v < Power16(width)
    ensures Value(Fixed(v, width)) == v
  {
    if width > 0 {
      var q, r := LastPlace(v, Power16(width - 1));
      FixedValue(q, width - 1);
      ValueAppend(Fixed(q, width - 1), r);
    }
  }

  lemma {:induction false} ValueBound(s: seq<Byte>)
    requires IsHex(s)
    ensures Value(s) < Power16(|s|)
  {
    if s != [] {
      ValueBound(s[..|s| - 1]);
    }
  }

  /** Reading a numeral and writing it at the same width only changes letter case. */
  lemma {:induction false} FixedOfValue(s: seq<Byte>)
    requires IsHex(s)
    ensures Fixed(Value(s), |s|) == seq(|s|, i requires 0 <= i < |s| => Lower(s[i]))
  {
    if s != [] {
      var t, d := s[..|s| - 1], s[|s| - 1];
      FixedOfValue(t);
      var v := Value(s);
      assert v == Value(t) * 16 + DigitValue(d);
      assert v / 16 == Value(t) && v % 16 == DigitValue(d);
      assert Digit(DigitValue(d)) == Lower(d);
    }
  }

  lemma {:induction false} FixedZero(n: nat)
    ensures Fixed(0, n) == seq(n, _ => 0x30)
  {
    if n > 0 {
      FixedZero(n - 1);
    }
  }

  lemma {:induction false} PaddedSmall(v: nat, width: nat)
    requires v < 16 && width > 0
    ensures Padded(v, width) == Fixed(v, width)
  {
    FixedZero(width - 1);
    assert ZeroDigits(width - 1) == Fixed(0, width - 1);
    assert Padded(v, width) == ZeroDigits(width - 1) + [Digit(v)];
  }

  lemma {:induction false} PaddedStep(v: nat, width: nat)
    requires v >= 16 && width > 1
    ensures Padded(v, width) == Padded(v / 16, width - 1) + [Digit(v % 16)]
  {
  }

  lemma {:induction false} Shifted(v: nat, p: nat)
    ensures v < 16 * p <==> v / 16 < p
  {
  }

  /** The `08x` format is a fixed-width numeral exactly for the numbers that fit. */
  lemma {:induction false} PaddedFits(v: nat, width: nat)
    requires width > 0
    ensures v < Power16(width) ==> Padded(v, width) == Fixed(v, width)
    ensures v >= Power16(width) ==> |Padded(v, width)| > width
    decreases width
  {
    Shifted(v, Power16(width - 1));
    if v < 16 {
      PaddedSmall(v, width);
    } else if width == 1 {
      assert Power16(1) == 16 && Text(v) == Text(v / 16) + [Digit(v % 16)];
    } else {
      PaddedFits(v / 16, width - 1);
      PaddedStep(v, width);
    }
  }

  lemma {:induction false} EightDigits()
    ensures Power16(8) == FIELD_LIMIT
  {
    assert Power16(4) == 65536;
    assert Power16(8) == 16 * (16 * (16 * (16 * Power16(4))));
  }

  // ----- the digits and numerals as characters -----

  const DIGITS: string := "0123456789abcdefABCDEF"

  /** The value of each of these characters. */
  function CharValue(k: nat): nat {
    if k < 16 then k else k - 6
  }

  lemma {:induction false} DigitCodes()
    ensures |DIGITS| == 22
    ensures forall k :: 0 <= k < 22 ==>
      DIGITS[k] as int == if k < 10 then 0x30 + k else if k < 16 then 0x61 + k - 10 else 0x41 + k - 16
  {
  }

  /** A byte is a digit exactly when it is one of the characters, and has its value. */
  lemma {:induction false} DigitMeans(b: Byte)
    ensures |DIGITS| == 22
    ensures IsHexDigit(b) <==> exists k :: 0 <= k < 22 && DIGITS[k] as int == b as int
    ensures forall k :: 0 <= k < 22 && DIGITS[k] as int == b as int ==> IsHexDigit(b) && DigitValue(b) == CharValue(k)
  {
    DigitCodes();
    if IsHexDigit(b) {
      assert DIGITS[if b <= 0x39 || b >= 0x61 then DigitValue(b) else DigitValue(b) + 6] as int == b as int;
    }
  }

  /** What is written are the first sixteen of them. */
  lemma {:induction false} DigitWritten(d: nat)
    requires d < 16
    ensures |DIGITS| == 22 && Digit(d) as int == DIGITS[d] as int
  {
  }

  /** Positional notation. */
  lemma {:induction false} ValueConcat(s: seq<Byte>, t: seq<Byte>)
    requires IsHex(s) && IsHex(t)
    ensures Value(s + t) == Value(s) * Power16(|t|) + Value(t)
  {
    if t == [] {
      assert s + t == s;
    } else {
      var n := |t| - 1;
      ValueConcat(s, t[..n]);
      LastDigit(t);
      assert s + t == s + t[..n] + [t[n]];
      LastDigit(s + t[..n] + [t[n]]);
      assert (s + t[..n] + [t[n]])[..|s| + n] == s + t[..n];
      Times16(Value(s), Power16(n));
    }
  }

  lemma {:induction false} LastDigit(s: seq<Byte>)
    requires IsHex(s) && s != []
    ensures Value(s) == Value(s[..|s| - 1]) * 16 + DigitValue(s[|s| - 1])
  {
  }

  lemma {:induction false} Times16(a: nat, b: nat)
    ensures a * (16 * b) == 16 * (a * b)
  {
  }

  lemma {:induction false} ZerosValue(n: nat)
    ensures Value(ZeroDigits(n)) == 0
  {
    if n > 0 {
      assert ZeroDigits(n) == ZeroDigits(n - 1) + [Digit(0)];
      ZerosValue(n - 1);
      ValueAppend(ZeroDigits(n - 1), 0);
    }
  }

  lemma {:induction false} LeadingZeros(n: nat, s: seq<Byte>)
    requires IsHex(s)
    ensures Value(ZeroDigits(n) + s) == Value(s)
  {
    ZerosValue(n);
    ValueConcat(ZeroDigits(n), s);
  }

  /** A written number has the number's value, and its width unless it needs more. */
  lemma {:induction false} PaddedValue(v: nat, width: nat)
    ensures Value(Padded(v, width)) == v
    ensures |Padded(v, width)| == if |Text(v)| < width then width else |Text(v)|
  {
    var t, p := Text(v), Padded(v, width);
    TextValue(v);
    if |t| < width {
      LeadingZeros(width - |t|, t);
      assert p == ZeroDigits(width - |t|) + t;
    } else {
      assert p == t;
    }
  }

  /** The format `x` has no leading zero and no upper case letter. */
  lemma {:induction false} TextForm(v: nat)
    ensures v > 0 ==> Text(v)[0] != 0x30
    ensures forall i :: 0 <= i < |Text(v)| ==> Text(v)[i] <= 0x39 || Text(v)[i] >= 0x61
  {
    if v >= 16 {
      TextForm(v / 16);
    }
  }

  function UpperDigit(d: nat): (b: Byte)
    requires d < 16
    ensures IsHexDigit(b) && DigitValue(b) == d && b <= 0x46  // no lower case
  {
    if d < 10 then (0x30 + d) as Byte else (0x41 + d - 10) as Byte
  }

  /** The numeral in upper case, as other programs write it. */
  function UpperNumeral(v: nat, width: nat): (s: seq<Byte>)
    ensures |s| == width && IsHex(s) && forall i :: 0 <= i < width ==> s[i] <= 0x46
  {
    if width == 0 then [] else UpperNumeral(v / 16, width - 1) + [UpperDigit(v % 16)]
  }

  lemma {:induction false} UpperDigitValue(s: seq<Byte>, d: nat)
    requires IsHex(s) && d < 16
    ensures Value(s + [UpperDigit(d)]) == Value(s) * 16 + d
  {
    assert (s + [UpperDigit(d)])[..|s|] == s;
  }

  lemma {:induction false} UpperNumeralValue(v: nat, width: nat)
    requires v < Power16(width)
    ensures Value(UpperNumeral(v, width)) == v
  {
    if width > 0 {
      var q, r := LastPlace(v, Power16(width - 1));
      UpperNumeralValue(q, width - 1);
      UpperDigitValue(UpperNumeral(q, width - 1), r);
    }
  }

  function Upper(b: Byte): Byte {
    if 0x61 <= b <= 0x66 then b - 0x20 else b
  }

  function Raised(s: seq<Byte>): (r: seq<Byte>)
    ensures |r| == |s|
  {
    seq(|s|, i requires 0 <= i < |s| => Upper(s[i]))
  }

  /** Raising the letters of a written numeral gives the one in upper case. */
  lemma {:induction false} RaisedNumeral(v: nat, width: nat)
    ensures Raised(Fixed(v, width)) == UpperNumeral(v, width)
  {
    if width > 0 {
      RaisedNumeral(v / 16, width - 1);
      var f := Fixed(v / 16, width - 1);
      assert Raised(f + [Digit(v % 16)]) == Raised(f) + [Upper(Digit(v % 16))];
    }
  }

  ghost predicate SameButCase(s: seq<Byte>, t: seq<Byte>) {
    |s| == |t| && forall i :: 0 <= i < |s| ==> Lower(s[i]) == Lower(t[i])
  }

  lemma {:induction false} RaisedIsSame(s: seq<Byte>)
    ensures SameButCase(s, Raised(s))
  {
  }

  /** Letter case does not matter to the reader. */
  lemma {:induction false} CaseInsensitive(s: seq<Byte>, t: seq<Byte>)
    requires SameButCase(s, t)
    ensures IsHex(s) <==> IsHex(t)
    ensures IsHex(s) ==> Value(s) == Value(t)
  {
    if s != [] {
      var n := |s| - 1;
      CaseInsensitive(s[..n], t[..n]);
      assert IsHex(s) <==> IsHex(s[..n]) && IsHexDigit(s[n]);
      assert IsHex(t) <==> IsHex(t[..n]) && IsHexDigit(t[n]);
    }
  }
}
