/** The text-level helpers of src/svg.rs: the `#RRGGBB` text of a theme
    colour, and the reading of an element's `width` and `height`
    attributes. */
module Svg {
  import opened Outcomes
  import opened RustStr
  import opened RustInt
  import opened Colors

  /** One digit of `{:X}`: `0`-`9`, then upper-case `A`-`F`. */
  function UpperHexDigit(d: nat): (c: char)
    requires d < 16
    ensures DigitValue(c, 16) == Some(d)
    ensures '0' <= c <= '9' || 'A' <= c <= 'F'
  {
    if d < 10 then ('0' as int + d) as char else ('A' as int + d - 10) as char
  }

  /** `{:02X}` of a `u8`: exactly two upper-case digits, zero-padded, that
      read back as the value. */
  function HexByte(v: uint8): (s: string)
    ensures |s| == 2 && PairValue(s) == Some(v)
    ensures forall k :: 0 <= k < 2 ==> '0' <= s[k] <= '9' || 'A' <= s[k] <= 'F'
  {
    [UpperHexDigit(v / 16), UpperHexDigit(v % 16)]
  }

  /** `format!("#{:02X}{:02X}{:02X}", c.r, c.g, c.b)`: seven ASCII
      characters, a `#`, then the red, green and blue pairs in order. */
  function HexColor(r: uint8, g: uint8, b: uint8): (s: string)
    ensures |s| == 7 && s[0] == '#' && IsAscii(s)
    ensures PairValue(s[1..3]) == Some(r) && PairValue(s[3..5]) == Some(g) && PairValue(s[5..7]) == Some(b)
    ensures forall k :: 1 <= k < 7 ==> '0' <= s[k] <= '9' || 'A' <= s[k] <= 'F'
  {
    var s := "#" + HexByte(r) + HexByte(g) + HexByte(b);
    assert s[1..3] == HexByte(r) && s[3..5] == HexByte(g) && s[5..7] == HexByte(b);
    s
  }

  /** A formatted colour holds no whitespace, so `parse_rgba8` strips only
      its `#`. */
  lemma HexColorDigits(r: uint8, g: uint8, b: uint8)
    ensures HexDigits(HexColor(r, g, b)) == HexColor(r, g, b)[1..]
  {
    var s := HexColorNoWhitespace(r, g, b);
    TrimWithoutWhitespace(s);
    assert StripPrefix(s, '#') == Some(s[1..]);
  }

  lemma HexColorNoWhitespace(r: uint8, g: uint8, b: uint8) returns (s: string)
    ensures s == HexColor(r, g, b)
    ensures forall k :: 0 <= k < |s| ==> !IsWhitespace(s[k])
  {
    s := HexColor(r, g, b);
    forall k | 0 <= k < |s|
      ensures !IsWhitespace(s[k])
    {
      if k > 0 {
        assert '0' <= s[k] <= '9' || 'A' <= s[k] <= 'F';
      }
    }
  }

  /** Formatting a colour and reading it back with `parse_rgba8` gives the
      colour, opaque. */
  lemma HexColorRoundTrip(r: uint8, g: uint8, b: uint8)
    ensures ParseRgba8(HexColor(r, g, b)) == Ok(Rgba8(r, g, b, 0xFF))
  {
    var s := HexColor(r, g, b);
    HexColorDigits(r, g, b);
    var hex := s[1..];
    assert hex[0..2] == s[1..3] && hex[2..4] == s[3..5] && hex[4..6] == s[5..7];
    ParseSixValid(s, hex, r, g, b);
  }

  /** Distinct colours are formatted differently. */
  lemma HexColorInjective(r: uint8, g: uint8, b: uint8, r': uint8, g': uint8, b': uint8)
    requires HexColor(r, g, b) == HexColor(r', g', b')
    ensures r == r' && g == g' && b == b'
  {
    HexColorRoundTrip(r, g, b);
    HexColorRoundTrip(r', g', b');
  }

  /** The command line's default colours, `#FFFFFF` and `#000000`, are the
      formatted white and black, and so parse as opaque white and black. */
  lemma DefaultColors()
    ensures HexColor(0xFF, 0xFF, 0xFF) == "#FFFFFF" && ParseRgba8("#FFFFFF") == Ok(Rgba8(0xFF, 0xFF, 0xFF, 0xFF))
    ensures HexColor(0, 0, 0) == "#000000" && ParseRgba8("#000000") == Ok(Rgba8(0, 0, 0, 0xFF))
  {
    WhiteHex();
    BlackHex();
    HexColorRoundTrip(0xFF, 0xFF, 0xFF);
    HexColorRoundTrip(0, 0, 0);
  }

  lemma WhiteHex()
    ensures HexColor(0xFF, 0xFF, 0xFF) == "#FFFFFF"
  {
    assert HexByte(0xFF) == "FF";
  }

  lemma BlackHex()
    ensures HexColor(0, 0, 0) == "#000000"
  {
    assert HexByte(0) == "00";
  }

  /** `dimension_to_int`: strip every trailing `px`, then the `i32` the rest
      denotes, or 0 when it is not an `i32` numeral (empty, not digits, or
      out of range). */
  function DimensionToInt(s: string): (n: int32)
    ensures var t := TrimEndMatches(s, "px");
      IsNumeral(t, 10, I32) && I32.InRange(NumeralValue(t, 10, I32)) ==> n == NumeralValue(t, 10, I32)
    ensures var t := TrimEndMatches(s, "px");
      !(IsNumeral(t, 10, I32) && I32.InRange(NumeralValue(t, 10, I32))) ==> n == 0
  {
    var t := TrimEndMatches(s, "px");
    ParseIntMeaning(t, 10, I32);
    match ParseInt(t, 10, I32)
    case Success(v) => v
    case Failure(_) => 0
  }

  /** Any number of `px` suffixes are ignored. */
  lemma DimensionIgnoresPx(s: string)
    ensures DimensionToInt(s + "px") == DimensionToInt(s)
  {
    TrimEndMatchesAppend(s, "px");
  }

  /** Decimal text ends in a digit, so no `px` is stripped from it. */
  lemma DecimalKeepsAll(n: nat)
    ensures TrimEndMatches(DecimalString(n), "px") == DecimalString(n)
  {
    var s := DecimalString(n);
    assert IsDigit(s[|s| - 1], 10);
    assert !EndsWith(s, "px");
  }

  /** A length written in decimal, with or without `px`, reads back as
      itself when it fits an `i32`, and as 0 when it does not. */
  lemma DimensionOfDecimal(n: nat)
    ensures DimensionToInt(DecimalString(n)) == if n <= I32.Max() then n else 0
    ensures DimensionToInt(DecimalString(n) + "px") == DimensionToInt(DecimalString(n))
  {
    DecimalKeepsAll(n);
    DimensionIgnoresPx(DecimalString(n));
    assert Magnitude(DecimalString(n), I32) == DecimalString(n);
  }

  /** A negative length, `-` and decimal digits, reads as its value down to
      `i32::MIN`. */
  lemma DimensionOfNegative(n: nat)
    requires n <= 0x8000_0000
    ensures DimensionToInt("-" + DecimalString(n)) == -(n as int)
  {
    NegativeKeepsAll(n);
    NegativeNumeral(n);
  }

  lemma NegativeKeepsAll(n: nat)
    ensures TrimEndMatches("-" + DecimalString(n), "px") == "-" + DecimalString(n)
  {
    var d := DecimalString(n);
    var s := "-" + d;
    assert s[|s| - 1] == d[|d| - 1];
    assert IsDigit(s[|s| - 1], 10);
    assert !EndsWith(s, "px");
  }

  lemma NegativeNumeral(n: nat)
    ensures IsNumeral("-" + DecimalString(n), 10, I32)
    ensures NumeralValue("-" + DecimalString(n), 10, I32) == -(n as int)
  {
    var s := "-" + DecimalString(n);
    assert s[0] == '-' && s[1..] == DecimalString(n);
    assert Magnitude(s, I32) == DecimalString(n);
  }

  lemma FiveHundred()
    ensures DecimalString(500) == "500"
  {
    assert DecimalString(5) == "5";
    assert DecimalString(50) == "50";
  }

  lemma TwoHundred()
    ensures DimensionToInt("200") == 200
  {
    assert DecimalString(2) == "2";
    assert DecimalString(20) == "20";
    assert DecimalString(200) == "200";
    DimensionOfDecimal(200);
  }

  /** The two forms the documentation of `get_dimensions` gives:
      `"500px"` is 500 and `"200"` is 200. */
  lemma DocumentedDimensions()
    ensures DimensionToInt("500px") == 500 && DimensionToInt("200") == 200
  {
    FiveHundredPx();
    TwoHundred();
  }

  lemma FiveHundredPx()
    ensures DimensionToInt("500px") == 500
  {
    FiveHundred();
    DimensionOfDecimal(500);
    assert DecimalString(500) + "px" == "500px";
  }

  /** Text that is no `i32` numeral reads as 0: the empty string, a bare
      `px`, and a unit other than `px`. */
  lemma DimensionDefaults()
    ensures DimensionToInt("") == 0 && DimensionToInt("px") == 0 && DimensionToInt("pxpx") == 0
    ensures DimensionToInt("5em") == 0
  {
    DimensionIgnoresPx("");
    DimensionIgnoresPx("px");
    assert "" + "px" == "px" && "px" + "px" == "pxpx";
    var t := "5em";
    assert !EndsWith(t, "px");
    assert !IsDigit(t[1], 10);
  }

  /** The attributes of the element (`get_attributes()` is `None` for a
      node without any), and the `width` and `height` found there. Every
      `unwrap` that fails is a panic. */
  function GetDimensions(attrs: Option<map<string, string>>): (r: Outcome<(int32, int32)>)
    ensures !r.Err?
    ensures r.Panic? <==> attrs.None? || "width" !in attrs.value || "height" !in attrs.value
    ensures r.Ok? ==> r.value == (DimensionToInt(attrs.value["width"]), DimensionToInt(attrs.value["height"]))
  {
    match attrs
    case None => Panic
    case Some(m) =>
      if "width" in m && "height" in m then Ok((DimensionToInt(m["width"]), DimensionToInt(m["height"])))
      else Panic
  }

  /** Writing a width and height as `px` lengths and reading them back gives
      them, whatever other attributes the element has. */
  lemma GetDimensionsRoundTrip(m: map<string, string>, w: nat, h: nat)
    requires w <= I32.Max() && h <= I32.Max()
    ensures GetDimensions(Some(m["width" := DecimalString(w) + "px"]["height" := DecimalString(h) + "px"])) == Ok((w, h))
  {
    DimensionOfDecimal(w);
    DimensionOfDecimal(h);
  }

  /** Attributes other than `width` and `height` do not matter. */
  lemma GetDimensionsIgnoresOthers(m: map<string, string>, k: string, v: string)
    requires k != "width" && k != "height"
    ensures GetDimensions(Some(m[k := v])) == GetDimensions(Some(m))
  {
  }
}
