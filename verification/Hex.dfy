/** Hexadecimal text. */
module Hex {
  import opened Wrappers
  import opened Strings

  const HEX_DIGITS := "0123456789abcdef"

  function HexChar(d: nat): char
    requires d < 16
  {
    HEX_DIGITS[d]
  }

  function HexDigit(c: char): Option<nat> {
    if '0' <= c <= '9' then Some(c as int - '0' as int)
    else if 'a' <= c <= 'f' then Some(c as int - 'a' as int + 10)
    else if 'A' <= c <= 'F' then Some(c as int - 'A' as int + 10)
    else None
  }

  /** `int(s, 16)` on plain digits; None where it raises ValueError. */
  function ParseHex(s: string): Option<nat> {
    if s == [] then
      None
    else
      var last := HexDigit(s[|s| - 1]);
      if |s| == 1 || last.None? then
        last
      else
        var front := ParseHex(s[..|s| - 1]);
        if front.None? then None else Some(16 * front.value + last.value)
  }

  function Pow16(w: nat): nat {
    if w == 0 then 1 else 16 * Pow16(w - 1)
  }

  /** `'%0<w>x' % v` for a value that fits in `w` digits. */
  function HexText(v: nat, w: nat): (t: string)
    ensures |t| == w
  {
    if w == 0 then "" else HexText(v / 16, w - 1) + [HexChar(v % 16)]
  }

  predicate IsLowerHex(c: char) {
    '0' <= c <= '9' || 'a' <= c <= 'f'
  }

  lemma {:induction false} HexTextDigits(v: nat, w: nat)
    ensures forall i :: 0 <= i < w ==> IsLowerHex(HexText(v, w)[i])
  {
    if w > 0 {
      HexTextDigits(v / 16, w - 1);
    }
  }

  lemma DigitRoundTrip(d: nat)
    requires d < 16
    ensures HexDigit(HexChar(d)) == Some(d)
  {}

  lemma ParseHexStep(front: string, c: char)
    requires ParseHex(front).Some? && HexDigit(c).Some?
    ensures ParseHex(front + [c]) == Some(16 * ParseHex(front).value + HexDigit(c).value)
  {
    assert (front + [c])[..|front|] == front;
  }

  lemma ParseHexDigit(c: char)
    requires HexDigit(c).Some?
    ensures ParseHex([c]) == HexDigit(c)
  {}

  /** One more digit behind the text of a number, or behind nothing for 0. */
  lemma ParseHexAppend(front: string, q: nat, c: char, d: nat)
    requires HexDigit(c) == Some(d) && (if front == [] then q == 0 else ParseHex(front) == Some(q))
    ensures ParseHex(front + [c]) == Some(16 * q + d)
  {
    if front == [] {
      ParseHexDigit(c);
      assert front + [c] == [c];
    } else {
      ParseHexStep(front, c);
    }
  }

  lemma FitsShifted(v: nat, w: nat)
    requires w > 0 && v < Pow16(w)
    ensures v / 16 < Pow16(w - 1) && v == 16 * (v / 16) + v % 16
  {}

  /** Printing and reading back a number gives the number. */
  lemma {:induction false} ParseHexText(v: nat, w: nat)
    requires w > 0 && v < Pow16(w)
    ensures ParseHex(HexText(v, w)) == Some(v)
  {
    FitsShifted(v, w);
    if w > 1 {
      ParseHexText(v / 16, w - 1);
    } else {
      assert Pow16(0) == 1;
    }
    DigitRoundTrip(v % 16);
    ParseHexAppend(HexText(v / 16, w - 1), v / 16, HexChar(v % 16), v % 16);
  }

  lemma DigitInAnyCase(c: char)
    ensures HexDigit(LowerChar(c)) == HexDigit(c)
  {}

  /** Upper-case digits have the values of lower-case ones. */
  lemma {:induction false} ParseHexInAnyCase(s: string)
    ensures ParseHex(Lower(s)) == ParseHex(s)
  {
    if s != [] {
      var front := s[..|s| - 1];
      assert Lower(s)[..|s| - 1] == Lower(front);
      DigitInAnyCase(s[|s| - 1]);
      ParseHexInAnyCase(front);
    }
  }

  lemma Widths()
    ensures Pow16(1) == 16 && Pow16(2) == 256 && Pow16(4) == 65536
  {}
}
