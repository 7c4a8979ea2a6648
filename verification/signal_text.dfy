/** `to_hex` from the cocotb test of the game clock generator: the rendering
    used when signal values are dumped. A value is given by its string form
    `str(obj)`; when the stripped text is a binary numeral of at least 16
    digits it is rendered as "0x" followed by zero-padded lower-case hex,
    otherwise the value is returned unchanged (here: its text). */
module SignalText {
  import opened Text

  /** The characters Python's `str.isspace` accepts, which `str.strip()`
      removes from both ends. */
  predicate IsSpace(c: char) {
    || c == ' ' || c == '\t' || c == '\n' || c == '\r'
    || c == '\U{000B}' || c == '\U{000C}'
    || '\U{001C}' <= c <= '\U{001F}'
    || c == '\U{0085}' || c == '\U{00A0}' || c == '\U{1680}'
    || '\U{2000}' <= c <= '\U{200A}'
    || c == '\U{2028}' || c == '\U{2029}' || c == '\U{202F}'
    || c == '\U{205F}' || c == '\U{3000}'
  }

  function TrimStart(s: string): (r: string)
    ensures |r| <= |s| && r == s[|s| - |r|..]
    ensures forall i :: 0 <= i < |s| - |r| ==> IsSpace(s[i])
    ensures |r| > 0 ==> !IsSpace(r[0])
  {
    if |s| > 0 && IsSpace(s[0]) then TrimStart(s[1..]) else s
  }

  function TrimEnd(s: string): (r: string)
    ensures |r| <= |s| && r == s[..|r|]
    ensures forall i :: |r| <= i < |s| ==> IsSpace(s[i])
    ensures |r| > 0 ==> !IsSpace(r[|r| - 1])
  {
    if |s| > 0 && IsSpace(s[|s| - 1]) then TrimEnd(s[..|s| - 1]) else s
  }

  /** Python's `s.strip()`: the longest middle part of `s` that neither starts
      nor ends with white space, everything cut off being white space. */
  function Strip(s: string): (r: string)
    ensures |r| <= |s|
    ensures |r| > 0 ==> !IsSpace(r[0]) && !IsSpace(r[|r| - 1])
  {
    TrimEnd(TrimStart(s))
  }

  /** Python's `s.replace(c, "")`. */
  function RemoveChar(s: string, c: char): (r: string)
    ensures |r| <= |s|
    ensures forall i :: 0 <= i < |r| ==> r[i] != c
  {
    if |s| == 0 then ""
    else if s[0] == c then RemoveChar(s[1..], c)
    else [s[0]] + RemoveChar(s[1..], c)
  }

  predicate IsBinaryText(t: string) {
    forall i :: 0 <= i < |t| ==> t[i] == '0' || t[i] == '1'
  }

  /** The test `t.replace("1","").replace("0","") == ""` holds exactly for
      texts made of the characters 0 and 1 (the empty text included). */
  lemma {:induction false} OnlyBitsRemain(t: string)
    ensures RemoveChar(RemoveChar(t, '1'), '0') == "" <==> IsBinaryText(t)
  {
    if |t| > 0 {
      OnlyBitsRemain(t[1..]);
      var rest := RemoveChar(t[1..], '1');
      if t[0] != '1' {
        assert RemoveChar(t, '1') == [t[0]] + rest;
        assert RemoveChar(t, '1')[1..] == rest;
        if t[0] != '0' {
          assert RemoveChar(RemoveChar(t, '1'), '0') == [t[0]] + RemoveChar(rest, '0');
          assert !IsBinaryText(t);
        } else {
          assert RemoveChar(RemoveChar(t, '1'), '0') == RemoveChar(rest, '0');
        }
      }
      assert IsBinaryText(t) <==> (t[0] == '0' || t[0] == '1') && IsBinaryText(t[1..]);
    }
  }

  lemma {:induction false} Pow2Monotone(a: nat, b: nat)
    requires a <= b
    ensures Pow(2, a) <= Pow(2, b)
    decreases b
  {
    if a < b {
      Pow2Monotone(a, b - 1);
    }
  }

  lemma {:induction false} FourBitsPerHexDigit(k: nat)
    ensures Pow(2, 4 * k) == Pow(16, k)
  {
    if k > 0 {
      FourBitsPerHexDigit(k - 1);
      var j := 4 * (k - 1);
      calc {
        Pow(2, 4 * k);
        2 * Pow(2, j + 3);
        2 * (2 * Pow(2, j + 2));
        2 * (2 * (2 * Pow(2, j + 1)));
        2 * (2 * (2 * (2 * Pow(2, j))));
        16 * Pow(2, j);
      }
    }
  }

  /** An n-digit binary numeral fits in (n + 3) / 4 hexadecimal digits. */
  lemma BinaryFitsHexDigits(t: string)
    requires IsBinaryText(t)
    ensures RadixValue(t, 2) < Pow(16, (|t| + 3) / 4)
  {
    var k := (|t| + 3) / 4;
    RadixValueBound(t, 2);
    Pow2Monotone(|t|, 4 * k);
    FourBitsPerHexDigit(k);
  }

  /** The length from which a value is rendered in hexadecimal: the guard is
      `len >= 16`, so exactly 16 digits already qualify. */
  const HexThreshold: nat := 16

  predicate Convertible(t: string) {
    |t| >= HexThreshold && IsBinaryText(t)
  }

  /** `r` is "0x" followed by `n` lower-case hexadecimal digits whose value
      is `v`. */
  predicate IsHexRendering(r: string, n: nat, v: nat) {
    && |r| == 2 + n
    && r[..2] == "0x"
    && IsDigits(r[2..], 16, false)
    && RadixValue(r[2..], 16) == v
  }

  function ToHex(text: string): (r: string)
    ensures Convertible(Strip(text)) ==>
      IsHexRendering(r, (|Strip(text)| + 3) / 4, RadixValue(Strip(text), 2))
    ensures !Convertible(Strip(text)) ==> r == text
  {
    var t := Strip(text);
    OnlyBitsRemain(t);
    if |t| >= HexThreshold && RemoveChar(RemoveChar(t, '1'), '0') == "" then
      var value := RadixValue(t, 2);
      var hexLen := (|t| + 3) / 4;
      BinaryFitsHexDigits(t);
      HexPaddedExact(value, hexLen, false);
      var r := "0x" + HexPadded(value, hexLen, false);
      assert r[2..] == HexPadded(value, hexLen, false);
      r
    else
      text
  }

  /** A text that neither starts nor ends with white space is its own
      stripped form. */
  lemma StripKeeps(s: string)
    requires |s| > 0 && !IsSpace(s[0]) && !IsSpace(s[|s| - 1])
    ensures Strip(s) == s
  {
  }

  lemma StripDropsSurroundingSpace(t: string)
    requires |t| > 0 && !IsSpace(t[0]) && !IsSpace(t[|t| - 1])
    ensures Strip(" " + t + "\n") == t
  {
    assert (" " + t + "\n")[1..] == t + "\n";
    assert (t + "\n")[..|t|] == t;
  }

  /** Fifteen binary digits stay as they are. */
  lemma FifteenBitsUnchanged(t: string)
    requires |t| == 15 && IsBinaryText(t)
    ensures ToHex(t) == t
  {
    StripKeeps(t);
  }

  /** Sixteen binary digits are already converted, to four lower-case
      hexadecimal digits with the same value; the white space around them
      is not part of the rendering. */
  lemma SixteenBitsConverted(t: string)
    requires |t| == 16 && IsBinaryText(t)
    ensures IsHexRendering(ToHex(" " + t + "\n"), 4, RadixValue(t, 2))
  {
    StripDropsSurroundingSpace(t);
    assert (|t| + 3) / 4 == 4;
  }

  /** A character that is neither white space nor a binary digit survives
      stripping, so the stripped text is not binary. */
  lemma StrippedNotBinary(t: string, i: nat)
    requires i < |t| && t[i] != '0' && t[i] != '1' && !IsSpace(t[i])
    ensures !IsBinaryText(Strip(t))
  {
    var front := TrimStart(t);
    var j := |t| - |front|;
    assert j <= i;
    assert front[i - j] == t[i];
    var s := TrimEnd(front);
    assert i - j < |s|;
    assert s[i - j] == t[i];
  }

  /** A character other than white space, 0 and 1 anywhere in the text keeps
      the text unchanged, however long it is. */
  lemma NonBinaryUnchanged(t: string, i: nat)
    requires i < |t| && t[i] != '0' && t[i] != '1' && !IsSpace(t[i])
    ensures ToHex(t) == t
  {
    StrippedNotBinary(t, i);
  }
}
