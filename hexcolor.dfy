/**
 * Hex formatting of a quantized colour: `f"#{r:02x}{g:02x}{b:02x}"`.
 * `:02x` writes an integer in lower-case hexadecimal, padded with zeros to two
 * digits; every channel of a decoded 8-bit pixel, and so of its bucket, is below
 * 256 and takes exactly two digits. `ParseHex` reads such a string back and is
 * the partner that shows no information is lost.
 */
module HexColor {
  import opened Wrappers
  import opened Quantize

  /** A lower-case hexadecimal digit, as `:x` writes them. */
  predicate IsHexDigit(ch: char) {
    '0' <= ch <= '9' || 'a' <= ch <= 'f'
  }

  /** The digit for a value below 16: `0`-`9`, then `a`-`f`. */
  function HexDigit(d: int): (ch: char)
    requires 0 <= d < 16
    ensures IsHexDigit(ch)
  {
    if d < 10 then ('0' as int + d) as char else ('a' as int + d - 10) as char
  }

  /** `format(v, "02x")` for a channel value: high digit, then low digit. */
  function Hex2(v: int): (s: string)
    requires IsChannel(v)
    ensures |s| == 2 && IsHexDigit(s[0]) && IsHexDigit(s[1])
  {
    [HexDigit(v / 16), HexDigit(v % 16)]
  }

  /** `#rrggbb`: a hash followed by two hex digits per channel. */
  function FormatHex(c: Color): (s: string)
    requires IsPixel(c)
    ensures |s| == 7 && s[0] == '#'
    ensures forall i :: 1 <= i < 7 ==> IsHexDigit(s[i])
  {
    "#" + Hex2(c.r) + Hex2(c.g) + Hex2(c.b)
  }

  /** The value of a lower-case hex digit. */
  function DigitValue(ch: char): (r: Option<int>)
    ensures r.Some? <==> IsHexDigit(ch)
    ensures r.Some? ==> 0 <= r.value < 16 && HexDigit(r.value) == ch
  {
    if '0' <= ch <= '9' then Some(ch as int - '0' as int)
    else if 'a' <= ch <= 'f' then Some(ch as int - 'a' as int + 10)
    else None
  }

  /** The channel written as two hex digits. */
  function ParseHex2(hi: char, lo: char): (r: Option<int>)
    ensures r.Some? ==> IsChannel(r.value)
  {
    match (DigitValue(hi), DigitValue(lo))
    case (Some(h), Some(l)) => Some(16 * h + l)
    case _ => None
  }

  /** Reads `#rrggbb` back into a colour; anything else is `None`. */
  function ParseHex(s: string): (r: Option<Color>)
    ensures r.Some? ==> IsPixel(r.value)
  {
    if |s| != 7 || s[0] != '#' then None
    else
      match (ParseHex2(s[1], s[2]), ParseHex2(s[3], s[4]), ParseHex2(s[5], s[6]))
      case (Some(r), Some(g), Some(b)) => Some(Color(r, g, b))
      case _ => None
  }

  lemma DigitRoundTrip(d: int)
    requires 0 <= d < 16
    ensures DigitValue(HexDigit(d)) == Some(d)
  {
  }

  lemma Hex2RoundTrip(v: int)
    requires IsChannel(v)
    ensures ParseHex2(Hex2(v)[0], Hex2(v)[1]) == Some(v)
  {
    DigitRoundTrip(v / 16);
    DigitRoundTrip(v % 16);
  }

  /** Reading a formatted colour gives back the colour. */
  lemma ParseFormat(c: Color)
    requires IsPixel(c)
    ensures ParseHex(FormatHex(c)) == Some(c)
  {
    var s := FormatHex(c);
    assert s[1..3] == Hex2(c.r) && s[3..5] == Hex2(c.g) && s[5..7] == Hex2(c.b);
    Hex2RoundTrip(c.r);
    Hex2RoundTrip(c.g);
    Hex2RoundTrip(c.b);
  }

  lemma {:induction false} Hex2Parsed(hi: char, lo: char)
    requires ParseHex2(hi, lo).Some?
    ensures Hex2(ParseHex2(hi, lo).value) == [hi, lo]
  {
    var h, l := DigitValue(hi).value, DigitValue(lo).value;
    var v := 16 * h + l;
    assert v / 16 == h && v % 16 == l;
  }

  /** Every string that reads as a colour is that colour's formatting. */
  lemma FormatParse(s: string)
    requires ParseHex(s).Some?
    ensures FormatHex(ParseHex(s).value) == s
  {
    var c := ParseHex(s).value;
    Hex2Parsed(s[1], s[2]);
    Hex2Parsed(s[3], s[4]);
    Hex2Parsed(s[5], s[6]);
    assert s == [s[0]] + [s[1], s[2]] + [s[3], s[4]] + [s[5], s[6]];
  }

  /** Different colours are formatted differently. */
  lemma FormatHexInjective(c: Color, d: Color)
    requires IsPixel(c) && IsPixel(d) && FormatHex(c) == FormatHex(d)
    ensures c == d
  {
    ParseFormat(c);
    ParseFormat(d);
  }

  /** The worked example: bucket (192, 0, 0) is written `#c00000`, bucket (224, 224, 224) `#e0e0e0`. */
  lemma FormatExample()
    ensures FormatHex(Color(192, 0, 0)) == "#c00000"
    ensures FormatHex(Color(224, 224, 224)) == "#e0e0e0"
    ensures FormatHex(Color(0, 0, 0)) == "#000000"
  {
  }
}
