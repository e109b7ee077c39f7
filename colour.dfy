/**
 * Colour settings: a `"#RRGGBB"` text becomes a 24-bit integer with
 * `int("0x" + text[1:], 16)`, and that integer is split into its red, green
 * and blue bytes with `(c >> 16) & 0xFF`, `(c >> 8) & 0xFF` and `c & 0xFF`
 * before it is sent to an LED.
 */
module Colour {
  import opened Bits
  import opened Python

  /** One LED colour as the three bytes the device receives. */
  datatype Rgb = Rgb(r: nat, g: nat, b: nat)

  /**
   * `int("0x" + text[1:], 16)`. The first character is dropped whatever it is;
   * Python ignores trailing whitespace and refuses an empty digit string or
   * any non-hexadecimal character with `ValueError` (shown as `None`).
   */
  function ParseColour(text: string): (c: Option<nat>)
    ensures c.Some? ==> |text| >= 2 && IsHexDigit(text[1])
    ensures c.Some? ==> c.value < Pow2(4 * (|text| - 1))
  {
    var digits := TrimRight(Drop(text, 1));
    if digits != [] && AllHexDigits(digits) then
      TrimRightPrefix(Drop(text, 1));
      HexValueBound(digits);
      Pow2Monotone(4 * |digits|, 4 * (|text| - 1));
      Some(DigitsValue(digits, 16))
    else None
  }

  /** The button colours as integers, or `None` when one of them raises `ValueError`. */
  function ColourValues(cs: seq<string>): (vs: Option<seq<nat>>)
  {
    if forall i :: 0 <= i < |cs| ==> ParseColour(cs[i]).Some?
    then Some(seq(|cs|, i requires 0 <= i < |cs| => ParseColour(cs[i]).value))
    else None
  }

  /** The `BLC` loop of `run`: each button colour is parsed in turn. */
  method ParseColours(cs: seq<string>) returns (vs: Option<seq<nat>>)
    ensures vs == ColourValues(cs)
    ensures vs.Some? ==> |vs.value| == |cs| && forall i :: 0 <= i < |cs| ==> ParseColour(cs[i]) == Some(vs.value[i])
    ensures vs.None? ==> exists i :: 0 <= i < |cs| && ParseColour(cs[i]).None?
  {
    var values: seq<nat> := [];
    for b := 0 to |cs|
      invariant |values| == b
      invariant forall j :: 0 <= j < b ==> ParseColour(cs[j]) == Some(values[j])
    {
      var c := ParseColour(cs[b]);
      if c.None? {
        return None;
      }
      values := values + [c.value];
    }
    assert values == seq(|cs|, i requires 0 <= i < |cs| => ParseColour(cs[i]).value);
    return Some(values);
  }

  /** `x & 0xFF` on a non-negative integer. */
  function LowByte(x: nat): (y: nat)
    ensures y < 256
  {
    x % Pow2(8)
  }

  /** `((c >> 16) & 0xFF, (c >> 8) & 0xFF, c & 0xFF)`: each channel is a byte. */
  function Channels(c: nat): (rgb: Rgb)
    ensures rgb.r < 256 && rgb.g < 256 && rgb.b < 256
  {
    Rgb(LowByte(Shr(c, 16)), LowByte(Shr(c, 8)), LowByte(c))
  }

  /** The 24-bit value `r * 65536 + g * 256 + b`. */
  function Pack(rgb: Rgb): nat
  {
    rgb.r * 65536 + rgb.g * 256 + rgb.b
  }

  /** `& 0xFF` keeps exactly the eight lowest bits. */
  lemma LowByteBits(x: nat, j: nat)
    ensures Bit(LowByte(x), j) <==> j < 8 && Bit(x, j)
  {
    MaskBit(x, 8, j);
  }

  /** Splitting a 24-bit colour into channels and packing them again gives the colour back. */
  lemma PackChannels(c: nat)
    requires c < Pow2(24)
    ensures Pack(Channels(c)) == c
  {
    ColourPowers();
    var q1 := c / 256;
    var q2 := q1 / 256;
    ShrIsDiv(c, 8);
    ShrShr(c, 8, 8);
    ShrIsDiv(q1, 8);
    assert Shr(c, 8) == q1 && Shr(c, 16) == q2;
    assert c == 256 * q1 + c % 256;
    assert q1 == 256 * q2 + q1 % 256;
    assert q2 < 256;
    assert LowByte(q2) == q2;
  }

  /** Packing three bytes and splitting the value gives the bytes back. */
  lemma ChannelsPack(rgb: Rgb)
    requires rgb.r < 256 && rgb.g < 256 && rgb.b < 256
    ensures Pack(rgb) < Pow2(24)
    ensures Channels(Pack(rgb)) == rgb
  {
    ColourPowers();
    var c := Pack(rgb);
    ShrIsDiv(c, 16);
    ShrIsDiv(c, 8);
    DivModUnique(c, 65536, rgb.r, rgb.g * 256 + rgb.b);
    DivModUnique(c, 256, rgb.r * 256 + rgb.g, rgb.b);
    DivModUnique(rgb.r * 256 + rgb.g, 256, rgb.r, rgb.g);
  }

  // ---------------------------------------------------------------------------
  // The "#RRGGBB" form

  /** The lower-case hexadecimal digit for `d < 16`. */
  function HexChar(d: nat): (c: char)
    requires d < 16
    ensures IsHexDigit(c) && DigitValue(c) == d
  {
    if d < 10 then DigitChar(d) else (('a' as int) + d - 10) as char
  }

  /** A byte as two hexadecimal digits. */
  function HexByte(x: nat): (s: string)
    requires x < 256
    ensures |s| == 2 && AllHexDigits(s)
  {
    [HexChar(x / 16), HexChar(x % 16)]
  }

  /** The six-digit colour text `"#rrggbb"`. */
  function ColourText(rgb: Rgb): (s: string)
    requires rgb.r < 256 && rgb.g < 256 && rgb.b < 256
    ensures |s| == 7 && s[0] == '#'
  {
    "#" + HexByte(rgb.r) + HexByte(rgb.g) + HexByte(rgb.b)
  }

  lemma DigitsValueAppend(a: string, c: char, base: nat)
    requires AllHexDigits(a) && IsHexDigit(c)
    ensures AllHexDigits(a + [c])
    ensures DigitsValue(a + [c], base) == DigitsValue(a, base) * base + DigitValue(c)
  {
    assert (a + [c])[..|a|] == a;
  }

  /** Appending one byte's two digits multiplies by 256 and adds the byte. */
  lemma DigitsValueAppendByte(a: string, x: nat)
    requires AllHexDigits(a) && x < 256
    ensures AllHexDigits(a + HexByte(x))
    ensures DigitsValue(a + HexByte(x), 16) == DigitsValue(a, 16) * 256 + x
  {
    var h := HexByte(x);
    DigitsValueAppend(a, h[0], 16);
    DigitsValueAppend(a + [h[0]], h[1], 16);
    assert a + [h[0]] + [h[1]] == a + h;
  }

  /** A value of `n` hexadecimal digits is below `16^n`. */
  lemma {:induction false} HexValueBound(s: string)
    requires AllHexDigits(s)
    ensures DigitsValue(s, 16) < Pow2(4 * |s|)
    decreases |s|
  {
    if s != [] {
      var init := s[..|s| - 1];
      HexValueBound(init);
      var k := 4 * |init|;
      Pow2Add(k, 4);
      ColourPowers();
      assert 4 * |s| == k + 4;
    }
  }

  /** Any `"#"` followed by six hexadecimal digits parses to a 24-bit value. */
  lemma ParseColourBound(text: string)
    requires |text| == 7 && AllHexDigits(text[1..])
    ensures ParseColour(text).Some? && ParseColour(text).value < Pow2(24)
  {
    var digits := text[1..];
    assert Drop(text, 1) == digits;
    assert !IsSpace(digits[|digits| - 1]);
    assert TrimRight(digits) == digits;
    HexValueBound(digits);
  }

  /** Writing a colour as `"#rrggbb"` and parsing it gives the packed 24-bit value back. */
  lemma ParseColourText(rgb: Rgb)
    requires rgb.r < 256 && rgb.g < 256 && rgb.b < 256
    ensures ParseColour(ColourText(rgb)) == Some(Pack(rgb))
  {
    var text := ColourText(rgb);
    var hr, hg, hb := HexByte(rgb.r), HexByte(rgb.g), HexByte(rgb.b);
    var digits := hr + hg + hb;
    assert text[1..] == digits;
    assert Drop(text, 1) == digits;
    assert !IsSpace(digits[|digits| - 1]);
    assert TrimRight(digits) == digits;
    DigitsValueAppendByte([], rgb.r);
    assert [] + hr == hr;
    DigitsValueAppendByte(hr, rgb.g);
    DigitsValueAppendByte(hr + hg, rgb.b);
  }
}
