/** `Dimensions::from_str` (src/main.rs): an image size written `WxH`. */
module Sizes {
  import opened Outcomes
  import opened RustStr
  import opened RustInt

  /** `Dimensions`: the width and height of the image, in pixels. */
  datatype Dimensions = Dimensions(width: uint32, height: uint32)

  /** The separator of `s.split('x')`. */
  const XSep: set<char> := {'x'}

  /** One segment read by `str::parse::<u32>`, `ok_or_else`d into
      `InvalidConfig("size")`. */
  function Field(p: string): (r: Outcome<uint32>)
    ensures !r.Panic?
    ensures r.Err? ==> r.error == InvalidConfig("size")
    ensures r.Ok? <==> ParseInt(p, 10, U32).Success?
    ensures r.Ok? ==> r.value == ParseInt(p, 10, U32).value
  {
    match ParseInt(p, 10, U32)
    case Success(v) => Ok(v)
    case Failure(_) => Err(InvalidConfig("size"))
  }

  /** `Dimensions::from_str`: the first two `'x'`-separated segments are the
      width and the height; later segments are never looked at. */
  function ParseDimensions(s: string): (r: Outcome<Dimensions>)
    ensures !r.Panic?
    ensures r.Err? ==> r.error == InvalidConfig("size")
    ensures FirstIndex(s, XSep) == |s| ==> r == Err(InvalidConfig("size"))
  {
    var parts := Split(s, XSep);
    var w :- Field(parts[0]);
    var h :- if |parts| > 1 then Field(parts[1]) else Err(InvalidConfig("size"));
    Ok(Dimensions(w, h))
  }

  /** The size a string denotes, read without `Split`: the text up to the
      first `x` and the text from there up to the next `x` (or the end) are
      both `u32` numerals. */
  lemma ParseDimensionsMeaning(s: string)
    ensures var k := FirstIndex(s, XSep);
      var rest := if k < |s| then s[k + 1..] else [];
      var k2 := FirstIndex(rest, XSep);
      ParseDimensions(s)
      == if k < |s| && ParseInt(s[..k], 10, U32).Success? && ParseInt(rest[..k2], 10, U32).Success?
         then Ok(Dimensions(ParseInt(s[..k], 10, U32).value, ParseInt(rest[..k2], 10, U32).value))
         else Err(InvalidConfig("size"))
  {
    var k := FirstIndex(s, XSep);
    SplitFirstPiece(s, XSep);
    if k < |s| {
      SplitUnfold(s, XSep);
      SplitFirstPiece(s[k + 1..], XSep);
    }
  }

  /** Two `x`-free segments that are `u32` numerals, joined by an `x`, are
      the width and the height. */
  lemma ParseTwoSegments(sw: string, sh: string, w: uint32, h: uint32)
    requires SeparatorFree(sw, XSep) && SeparatorFree(sh, XSep)
    requires ParseInt(sw, 10, U32) == Success(w) && ParseInt(sh, 10, U32) == Success(h)
    ensures ParseDimensions(sw + "x" + sh) == Ok(Dimensions(w, h))
  {
    assert sw + "x" + sh == sw + ['x'] + sh;
    SplitAtFirst(sw, 'x', sh, XSep);
    SplitSeparatorFree(sh, XSep);
  }

  /** A third segment and anything after it are ignored. */
  lemma ParseIgnoresTail(sw: string, sh: string, tail: string, w: uint32, h: uint32)
    requires SeparatorFree(sw, XSep) && SeparatorFree(sh, XSep)
    requires ParseInt(sw, 10, U32) == Success(w) && ParseInt(sh, 10, U32) == Success(h)
    ensures ParseDimensions(sw + "x" + sh + "x" + tail) == Ok(Dimensions(w, h))
  {
    assert sw + "x" + sh + "x" + tail == sw + ['x'] + (sh + ['x'] + tail);
    SplitAtFirst(sw, 'x', sh + ['x'] + tail, XSep);
    SplitAtFirst(sh, 'x', tail, XSep);
  }

  /** `W x H`, with `W` and `H` printed in decimal, reads back as that
      size, whatever follows a second `x`. */
  lemma ParseFormatted(w: uint32, h: uint32, tail: string)
    ensures ParseDimensions(DecimalString(w) + "x" + DecimalString(h)) == Ok(Dimensions(w, h))
    ensures ParseDimensions(DecimalString(w) + "x" + DecimalString(h) + "x" + tail) == Ok(Dimensions(w, h))
  {
    DecimalIsXFree(w);
    DecimalIsXFree(h);
    DecimalRoundTrip(w, U32);
    DecimalRoundTrip(h, U32);
    ParseTwoSegments(DecimalString(w), DecimalString(h), w, h);
    ParseIgnoresTail(DecimalString(w), DecimalString(h), tail, w, h);
  }

  lemma DecimalIsXFree(n: nat)
    ensures SeparatorFree(DecimalString(n), XSep)
  {
    var s := DecimalString(n);
    forall k | 0 <= k < |s| ensures s[k] !in XSep {
      assert IsDigit(s[k], 10);
    }
  }

  /** Text without an `x`, and text whose first segment is not a `u32`,
      are not sizes. */
  lemma ParseDimensionsErrors(s: string)
    ensures SeparatorFree(s, XSep) ==> ParseDimensions(s) == Err(InvalidConfig("size"))
    ensures ParseInt(s[..FirstIndex(s, XSep)], 10, U32).Failure? ==> ParseDimensions(s) == Err(InvalidConfig("size"))
  {
    ParseDimensionsMeaning(s);
  }

  /** The default of the `--size` option, `"1000x1000"`. */
  lemma DefaultSize()
    ensures ParseDimensions("1000x1000") == Ok(Dimensions(1000, 1000))
  {
    ThousandIsDecimal();
    DecimalRoundTrip(1000, U32);
    assert SeparatorFree("1000", XSep);
    ParseTwoSegments("1000", "1000", 1000, 1000);
    assert "1000" + "x" + "1000" == "1000x1000";
  }

  lemma ThousandIsDecimal()
    ensures DecimalString(1000) == "1000"
  {
    assert DecimalString(1) == "1";
    assert DecimalString(10) == "10";
    assert DecimalString(100) == "100";
  }
}
