/** Positional number rendering and parsing: the decimal text of `str(n)` and
    the hexadecimal text of `format(n, 'x')`, `format(n, 'X')` and their
    zero-padded `'0<w>x'` / `'02X'` forms, together with the inverse readings
    used to state what the rendered text means. */
module Text {

  function Pow(base: nat, e: nat): (r: nat)
    requires IsRadix(base)
    ensures r > 0
  {
    if e == 0 then 1 else Scale(Pow(base, e - 1), base)
  }

  /** The character for digit `d` (0..15); letters are upper-case iff `upper`. */
  function DigitChar(d: nat, upper: bool): (c: char)
    requires d < 16
  {
    if d < 10 then (d + '0' as int) as char
    else if upper then (d - 10 + 'A' as int) as char
    else (d - 10 + 'a' as int) as char
  }

  predicate IsDigitChar(c: char) {
    '0' <= c <= '9' || 'a' <= c <= 'f' || 'A' <= c <= 'F'
  }

  function DigitValue(c: char): (d: nat)
    requires IsDigitChar(c)
    ensures d < 16
    ensures d < 10 <==> '0' <= c <= '9'
  {
    if '0' <= c <= '9' then c as int - '0' as int
    else if 'a' <= c <= 'f' then c as int - 'a' as int + 10
    else c as int - 'A' as int + 10
  }

  lemma DigitRoundTrip(d: nat, upper: bool)
    requires d < 16
    ensures IsDigitChar(DigitChar(d, upper))
    ensures DigitValue(DigitChar(d, upper)) == d
  {
  }

  /** Every character of `s` is a digit of `base` (2, 10 or 16) written in
      the given letter case. */
  predicate IsDigits(s: string, base: nat, upper: bool) {
    forall i :: 0 <= i < |s| ==> IsCaseDigit(s[i], base, upper)
  }

  predicate IsCaseDigit(c: char, base: nat, upper: bool) {
    && IsDigitChar(c)
    && DigitValue(c) < base
    && (if upper then !('a' <= c <= 'f') else !('A' <= c <= 'F'))
  }

  /** The value of a digit string in `base`, most significant digit first. */
  function RadixValue(s: string, base: nat): (v: nat)
    requires IsRadix(base)
    requires forall i :: 0 <= i < |s| ==> IsDigitChar(s[i])
  {
    if |s| == 0 then 0
    else Scale(RadixValue(s[..|s| - 1], base), base) + DigitValue(s[|s| - 1])
  }

  /** The bases the rendered texts use: binary, decimal and hexadecimal. */
  predicate IsRadix(base: nat) {
    base == 2 || base == 10 || base == 16
  }

  /* Multiplication, division and remainder by a radix, written out per
     radix so that every factor and divisor the solver sees is a constant. */

  function Scale(x: nat, base: nat): nat
    requires IsRadix(base)
  {
    if base == 2 then 2 * x else if base == 10 then 10 * x else 16 * x
  }

  function Quot(v: nat, base: nat): nat
    requires IsRadix(base)
  {
    if base == 2 then v / 2 else if base == 10 then v / 10 else v / 16
  }

  function Rem(v: nat, base: nat): nat
    requires IsRadix(base)
  {
    if base == 2 then v % 2 else if base == 10 then v % 10 else v % 16
  }

  /** The shortest digit string of `v` in `base`: "0" for zero, otherwise no
      leading zero. This is Python's `str(v)` for base 10 and
      `format(v, 'x')` / `format(v, 'X')` for base 16. */
  function RadixText(v: nat, base: nat, upper: bool): (s: string)
    requires IsRadix(base)
    ensures 1 <= |s|
    ensures IsDigits(s, base, upper)
    ensures RadixValue(s, base) == v
    ensures |s| > 1 ==> s[0] != '0'
  {
    if v < base then
      DigitRoundTrip(v, upper);
      [DigitChar(v, upper)]
    else
      Recompose(v, base);
      var q, d := Quot(v, base), Rem(v, base);
      var front := RadixText(q, base, upper);
      var last := DigitChar(d, upper);
      DigitRoundTrip(d, upper);
      var s := front + [last];
      AppendDigit(front, d, base, upper);
      assert RadixValue(s, base) == v;
      s
  }

  /** Appending digit `d` keeps a digit string and scales its value by the
      base before adding `d`. */
  lemma AppendDigit(front: string, d: nat, base: nat, upper: bool)
    requires d < base && IsRadix(base)
    requires IsDigits(front, base, upper)
    ensures IsDigits(front + [DigitChar(d, upper)], base, upper)
    ensures RadixValue(front + [DigitChar(d, upper)], base) == Scale(RadixValue(front, base), base) + d
  {
    var s := front + [DigitChar(d, upper)];
    DigitRoundTrip(d, upper);
    assert s[..|s| - 1] == front;
  }

  /** Division by a radix and its remainder put back together; a value of
      at least `base` has a positive quotient smaller than itself. */
  lemma Recompose(v: nat, base: nat)
    requires IsRadix(base)
    ensures Scale(Quot(v, base), base) + Rem(v, base) == v
    ensures Rem(v, base) < base
    ensures v >= base ==> 0 < Quot(v, base) < v
  {
    if base == 2 {
    } else if base == 10 {
    } else {
    }
  }

  /** Scaling by a radix keeps the order. */
  lemma ScaleMonotone(a: nat, b: nat, base: nat)
    requires IsRadix(base)
    requires a <= b
    ensures Scale(a, base) <= Scale(b, base)
  {
    if base == 2 {
    } else if base == 10 {
    } else {
    }
  }

  /** A value below `p * base` has a quotient below `p`. */
  lemma DivBound(v: nat, base: nat, p: nat)
    requires IsRadix(base)
    requires v < Scale(p, base)
    ensures Quot(v, base) < p
  {
    if base == 2 {
    } else if base == 10 {
    } else {
    }
  }

  /** Pads `s` on the left with '0' up to `width` characters; a longer `s` is
      kept whole (Python's zero-fill width never truncates). */
  function PadZeros(s: string, width: nat): (p: string)
    ensures |p| == if |s| >= width then |s| else width
    ensures p[|p| - |s|..] == s
    ensures forall i :: 0 <= i < |p| - |s| ==> p[i] == '0'
  {
    if |s| >= width then s else seq(width - |s|, _ => '0') + s
  }

  /** Python's `format(v, '0<width>x')` (or `'X'` when `upper`). */
  function HexPadded(v: nat, width: nat, upper: bool): string
  {
    PadZeros(RadixText(v, 16, upper), width)
  }

  lemma {:induction false} RadixValueBound(s: string, base: nat)
    requires IsRadix(base)
    requires forall i :: 0 <= i < |s| ==> IsDigitChar(s[i]) && DigitValue(s[i]) < base
    ensures RadixValue(s, base) < Pow(base, |s|)
  {
    if |s| > 0 {
      var init := s[..|s| - 1];
      RadixValueBound(init, base);
      var d := DigitValue(s[|s| - 1]);
      var u := RadixValue(init, base);
      ScaleMonotone(u + 1, Pow(base, |init|), base);
      assert RadixValue(s, base) == Scale(u, base) + d;
      assert Scale(u + 1, base) == Scale(u, base) + base;
      assert Pow(base, |s|) == Scale(Pow(base, |init|), base);
    }
  }

  lemma {:induction false} RadixTextShort(v: nat, base: nat, upper: bool, width: nat)
    requires IsRadix(base)
    requires 1 <= width
    requires v < Pow(base, width)
    ensures |RadixText(v, base, upper)| <= width
  {
    if v >= base {
      assert width >= 2;
      DivBound(v, base, Pow(base, width - 1));
      RadixTextShort(Quot(v, base), base, upper, width - 1);
    }
  }

  lemma {:induction false} LeadingZerosValue(z: nat, s: string, base: nat)
    requires IsRadix(base)
    requires forall i :: 0 <= i < |s| ==> IsDigitChar(s[i])
    ensures RadixValue(seq(z, _ => '0') + s, base) == RadixValue(s, base)
    decreases |s|, z
  {
    var t := seq(z, _ => '0') + s;
    if |s| == 0 {
      assert t == seq(z, _ => '0');
      if z > 0 {
        assert t[..|t| - 1] == seq(z - 1, _ => '0') + [];
        LeadingZerosValue(z - 1, [], base);
      }
    } else {
      assert t[..|t| - 1] == seq(z, _ => '0') + s[..|s| - 1];
      LeadingZerosValue(z, s[..|s| - 1], base);
    }
  }

  /** When `v` has at most `width` hexadecimal digits, the padded rendering is
      exactly `width` digits of the requested case and reads back as `v`. */
  lemma HexPaddedExact(v: nat, width: nat, upper: bool)
    requires 1 <= width
    requires v < Pow(16, width)
    ensures |HexPadded(v, width, upper)| == width
    ensures IsDigits(HexPadded(v, width, upper), 16, upper)
    ensures RadixValue(HexPadded(v, width, upper), 16) == v
  {
    var s := RadixText(v, 16, upper);
    RadixTextShort(v, 16, upper, width);
    var p := HexPadded(v, width, upper);
    if |s| < width {
      assert p == seq(width - |s|, _ => '0') + s;
      LeadingZerosValue(width - |s|, s, 16);
    }
  }
}
