/** `parse_rgba8` (src/main.rs): a colour given as `#RRGGBB` or `#RRGGBBAA`,
    each channel a pair of base-16 digits read by `u8::from_str_radix`. */
module Colors {
  import opened Outcomes
  import opened RustStr
  import opened RustInt

  /** `rgb::RGBA8`. */
  datatype Rgba8 = Rgba8(r: uint8, g: uint8, b: uint8, a: uint8)

  /** The text `parse_rgba8` takes its digits from: the trimmed input
      without its leading `#`, or, when the trimmed input has no `#`, the
      input exactly as given, untrimmed. */
  function HexDigits(hexCode: string): (hex: string)
    ensures var t := Trim(hexCode); t != [] && t[0] == '#' ==> "#" + hex == t
    ensures var t := Trim(hexCode); !(t != [] && t[0] == '#') ==> hex == hexCode
  {
    match StripPrefix(Trim(hexCode), '#')
    case Some(rest) => rest
    case None => hexCode
  }

  /** The message of the `Parse` error for a colour of the wrong length. */
  function BadColorMessage(hexCode: string): (m: string)
    ensures |m| > 15 + |hexCode| && m[15..15 + |hexCode|] == hexCode
    ensures m[..15] == "invalid color `"
  {
    "invalid color `" + hexCode + "`, expected `#RRGGBB` or `#RRGGBBAA`"
  }

  /** The channel at byte offset `lo`:
      `u8::from_str_radix(&hex[lo..lo + 2], 16)`, its error turned into
      `SiaError::Message` by `?`. The slice panics off a character boundary. */
  function Channel(hex: string, lo: nat): (r: Outcome<uint8>)
    ensures r == Panic <==> ByteSlice(hex, lo, lo + 2).None?
    ensures r.Err? ==> r.error == Message(InvalidDigit.Description())
    ensures r.Ok? ==> ParseInt(ByteSlice(hex, lo, lo + 2).value, 16, U8) == Success(r.value)
    ensures ByteSlice(hex, lo, lo + 2).Some? && ParseInt(ByteSlice(hex, lo, lo + 2).value, 16, U8).Success? ==> r.Ok?
  {
    match ByteSlice(hex, lo, lo + 2)
    case None => Panic
    case Some(pair) =>
      TwoBytePair(pair);
      match ParseInt(pair, 16, U8)
      case Success(v) => Ok(v)
      case Failure(e) => Err(Message(e.Description()))
  }

  /** The first failure among the channels, in the order `?` meets them,
      or the colour they make. */
  function Assemble(r: Outcome<uint8>, g: Outcome<uint8>, b: Outcome<uint8>, a: Outcome<uint8>): (c: Outcome<Rgba8>)
    ensures c.Ok? <==> r.Ok? && g.Ok? && b.Ok? && a.Ok?
    ensures c.Ok? ==> c.value == Rgba8(r.value, g.value, b.value, a.value)
    ensures !r.Ok? ==> c == r.PropagateFailure()
    ensures r.Ok? && !g.Ok? ==> c == g.PropagateFailure()
    ensures r.Ok? && g.Ok? && !b.Ok? ==> c == b.PropagateFailure()
    ensures r.Ok? && g.Ok? && b.Ok? && !a.Ok? ==> c == a.PropagateFailure()
  {
    var r :- r;
    var g :- g;
    var b :- b;
    var a :- a;
    Ok(Rgba8(r, g, b, a))
  }

  /** The body of `parse_rgba8` after the `#` handling: the length of
      `hex` in bytes (`hex.len()`) picks the format; `hexCode` is only
      quoted in the error message. */
  function Decode(hex: string, hexCode: string): (r: Outcome<Rgba8>)
    ensures (r.Err? && r.error.Parse?) <==> ByteLen(hex) != 6 && ByteLen(hex) != 8
    ensures r.Err? && r.error.Parse? ==> r.error.message == BadColorMessage(hexCode)
    ensures r.Err? && !r.error.Parse? ==> r.error == Message(InvalidDigit.Description())
    ensures r.Ok? && ByteLen(hex) == 6 ==> r.value.a == 0xFF
  {
    var n := ByteLen(hex);
    if n == 6 then Assemble(Channel(hex, 0), Channel(hex, 2), Channel(hex, 4), Ok(0xFF))
    else if n == 8 then Assemble(Channel(hex, 0), Channel(hex, 2), Channel(hex, 4), Channel(hex, 6))
    else Err(Parse(BadColorMessage(hexCode)))
  }

  /** `parse_rgba8`: a `Parse` error exactly when the digits are neither six
      nor eight bytes long, alpha 255 for six, and otherwise only the
      `ParseIntError` of a pair (or a panic, for a pair that splits a
      character). */
  function ParseRgba8(hexCode: string): (r: Outcome<Rgba8>)
    ensures (r.Err? && r.error.Parse?) <==> ByteLen(HexDigits(hexCode)) != 6 && ByteLen(HexDigits(hexCode)) != 8
    ensures r.Err? && r.error.Parse? ==> r.error.message == BadColorMessage(hexCode)
    ensures r.Err? && !r.error.Parse? ==> r.error == Message(InvalidDigit.Description())
    ensures r.Ok? && ByteLen(HexDigits(hexCode)) == 6 ==> r.value.a == 0xFF
  {
    Decode(HexDigits(hexCode), hexCode)
  }

  /** What `u8::from_str_radix(p, 16)` makes of a two-character pair: two
      hex digits, or a `+` sign and one hex digit. */
  function PairValue(p: string): Option<uint8>
    requires |p| == 2
  {
    var hi, lo := DigitValue(p[0], 16), DigitValue(p[1], 16);
    if hi.Some? && lo.Some? then Some(hi.value * 16 + lo.value)
    else if p[0] == '+' && lo.Some? then Some(lo.value)
    else None
  }

  /** A two-character pair parses to its `PairValue`, and is otherwise an
      invalid digit: two base-16 digits never overflow a `u8`. */
  lemma PairParse(p: string)
    requires |p| == 2
    ensures ParseInt(p, 16, U8) == match PairValue(p)
                                   case Some(v) => Success(v)
                                   case None => Failure(InvalidDigit)
  {
    var hi, lo := DigitValue(p[0], 16), DigitValue(p[1], 16);
    assert p[1..] == [p[1]] && p[1..][1..] == [];
    if p[0] == '+' {
      assert p != ['+'] && p != ['-'];
      if lo.Some? {
        assert Accumulate([p[1]], 16, true, 0, U8) == Accumulate([], 16, true, lo.value, U8);
      }
    } else if hi.Some? && lo.Some? {
      assert p[0] != '-' && p[0] != '+';
      assert Shift(0, 16, hi.value) == hi.value;
      assert Accumulate(p, 16, true, 0, U8) == Accumulate(p[1..], 16, true, hi.value, U8);
      assert Shift(hi.value, 16, lo.value) == hi.value * 16 + lo.value;
      assert Accumulate(p[1..], 16, true, hi.value, U8) == Accumulate([], 16, true, hi.value * 16 + lo.value, U8);
    } else if hi.Some? {
      assert p[0] != '-' && p[0] != '+';
      assert Shift(0, 16, hi.value) == hi.value;
      assert Accumulate(p, 16, true, 0, U8) == Accumulate(p[1..], 16, true, hi.value, U8);
    }
  }

  /** Any two bytes of text parse or are an invalid digit; never an empty
      string or an overflow. */
  lemma TwoBytePair(p: string)
    requires ByteLen(p) == 2
    ensures ParseInt(p, 16, U8).Success? || ParseInt(p, 16, U8) == Failure(InvalidDigit)
  {
    ByteLenAtLeastLength(p);
    if |p| == 2 {
      PairParse(p);
    } else {
      assert p[1..] == [];
      assert Utf8Width(p[0]) == 2;
      assert DigitValue(p[0], 16).None?;
    }
  }

  /** The outcome of the channel at `lo` of ASCII digits. */
  function AsciiChannelOutcome(hex: string, lo: nat): Outcome<uint8>
    requires lo + 2 <= |hex|
  {
    match PairValue(hex[lo..lo + 2])
    case Some(v) => Ok(v)
    case None => Err(Message(InvalidDigit.Description()))
  }

  /** On ASCII text the channel at `lo` is the pair `hex[lo..lo + 2]`. */
  lemma AsciiChannel(hex: string, lo: nat)
    requires IsAscii(hex) && lo + 2 <= |hex|
    ensures Channel(hex, lo) == AsciiChannelOutcome(hex, lo)
  {
    AsciiByteSlice(hex, lo, lo + 2);
    PairParse(hex[lo..lo + 2]);
  }

  /** Every pair of the six or eight digits parses. */
  predicate AllPairsValid(hex: string)
    requires |hex| == 6 || |hex| == 8
  {
    && PairValue(hex[0..2]).Some? && PairValue(hex[2..4]).Some? && PairValue(hex[4..6]).Some?
    && (|hex| == 8 ==> PairValue(hex[6..8]).Some?)
  }

  /** Six ASCII digits: r, g and b are the three pairs in order and alpha
      is 255; if a pair is not a base-16 `u8`, the result is the
      `ParseIntError` text "invalid digit found in string". */
  lemma DecodeSix(hex: string, hexCode: string)
    requires IsAscii(hex) && |hex| == 6
    ensures Decode(hex, hexCode)
         == if AllPairsValid(hex)
            then Ok(Rgba8(PairValue(hex[0..2]).value, PairValue(hex[2..4]).value, PairValue(hex[4..6]).value, 0xFF))
            else Err(Message("invalid digit found in string"))
  {
    AsciiByteLen(hex);
    AsciiChannel(hex, 0);
    AsciiChannel(hex, 2);
    AsciiChannel(hex, 4);
    AssembleAscii(hex, Ok(0xFF));
  }

  /** The colour from ASCII channel outcomes and a given alpha outcome. */
  lemma AssembleAscii(hex: string, a: Outcome<uint8>)
    requires |hex| == 6 || |hex| == 8
    requires |hex| == 6 ==> a == Ok(0xFF)
    requires |hex| == 8 ==> a == AsciiChannelOutcome(hex, 6)
    ensures Assemble(AsciiChannelOutcome(hex, 0), AsciiChannelOutcome(hex, 2), AsciiChannelOutcome(hex, 4), a)
         == if AllPairsValid(hex)
            then Ok(Rgba8(PairValue(hex[0..2]).value, PairValue(hex[2..4]).value, PairValue(hex[4..6]).value, a.value))
            else Err(Message("invalid digit found in string"))
  {
  }

  /** Eight ASCII digits: alpha is the fourth pair. */
  lemma DecodeEight(hex: string, hexCode: string)
    requires IsAscii(hex) && |hex| == 8
    ensures Decode(hex, hexCode)
         == if AllPairsValid(hex)
            then Ok(Rgba8(PairValue(hex[0..2]).value, PairValue(hex[2..4]).value, PairValue(hex[4..6]).value, PairValue(hex[6..8]).value))
            else Err(Message("invalid digit found in string"))
  {
    AsciiByteLen(hex);
    AsciiChannel(hex, 0);
    AsciiChannel(hex, 2);
    AsciiChannel(hex, 4);
    AsciiChannel(hex, 6);
    AssembleAscii(hex, AsciiChannelOutcome(hex, 6));
  }

  /** `parse_rgba8` on six ASCII digits after stripping. */
  lemma ParseSixDigits(hexCode: string, hex: string)
    requires hex == HexDigits(hexCode) && IsAscii(hex) && |hex| == 6
    ensures ParseRgba8(hexCode) == Decode(hex, hexCode)
    ensures Decode(hex, hexCode)
      == if AllPairsValid(hex)
         then Ok(Rgba8(PairValue(hex[0..2]).value, PairValue(hex[2..4]).value, PairValue(hex[4..6]).value, 0xFF))
         else Err(Message("invalid digit found in string"))
  {
    DecodeSix(hex, hexCode);
  }

  /** `parse_rgba8` on eight ASCII digits after stripping. */
  lemma ParseEightDigits(hexCode: string, hex: string)
    requires hex == HexDigits(hexCode) && IsAscii(hex) && |hex| == 8
    ensures ParseRgba8(hexCode) == Decode(hex, hexCode)
    ensures Decode(hex, hexCode)
      == if AllPairsValid(hex)
         then Ok(Rgba8(PairValue(hex[0..2]).value, PairValue(hex[2..4]).value, PairValue(hex[4..6]).value, PairValue(hex[6..8]).value))
         else Err(Message("invalid digit found in string"))
  {
    DecodeEight(hex, hexCode);
  }

  lemma TrimPaddedPlain()
    ensures Trim(" FFFFFF") == "FFFFFF"
  {
    TrimSurrounded(" ", "FFFFFF", []);
    assert " " + "FFFFFF" + [] == " FFFFFF";
  }

  lemma TrimPaddedHash()
    ensures Trim(" #FFFFFF") == "#FFFFFF"
  {
    TrimSurrounded(" ", "#FFFFFF", []);
    assert " " + "#FFFFFF" + [] == " #FFFFFF";
  }

  /** Six ASCII digits whose pairs are `r`, `g` and `b`. */
  lemma DecodeSixValid(hex: string, hexCode: string, r: uint8, g: uint8, b: uint8)
    requires IsAscii(hex) && |hex| == 6
    requires PairValue(hex[0..2]) == Some(r) && PairValue(hex[2..4]) == Some(g) && PairValue(hex[4..6]) == Some(b)
    ensures Decode(hex, hexCode) == Ok(Rgba8(r, g, b, 0xFF))
  {
    DecodeSix(hex, hexCode);
  }

  /** `parse_rgba8` on six ASCII digits whose pairs are `r`, `g` and `b`. */
  lemma ParseSixValid(hexCode: string, hex: string, r: uint8, g: uint8, b: uint8)
    requires hex == HexDigits(hexCode) && IsAscii(hex) && |hex| == 6
    requires PairValue(hex[0..2]) == Some(r) && PairValue(hex[2..4]) == Some(g) && PairValue(hex[4..6]) == Some(b)
    ensures ParseRgba8(hexCode) == Ok(Rgba8(r, g, b, 0xFF))
  {
    DecodeSixValid(hex, hexCode, r, g, b);
  }

  lemma PairFF()
    ensures PairValue("FF") == Some(0xFF)
  {
  }

  lemma PairPlusF()
    ensures PairValue("+F") == Some(15)
  {
  }

  /** Six `F` digits are white. */
  lemma WhiteDigits(hexCode: string)
    ensures Decode("FFFFFF", hexCode) == Ok(Rgba8(0xFF, 0xFF, 0xFF, 0xFF))
  {
    var hex := "FFFFFF";
    assert IsAscii(hex);
    assert hex[0..2] == "FF" && hex[2..4] == "FF" && hex[4..6] == "FF";
    PairFF();
    DecodeSixValid(hex, hexCode, 0xFF, 0xFF, 0xFF);
  }

  /** Without a `#` the untrimmed input is measured: `" FFFFFF"` has seven
      bytes and is refused. */
  lemma PaddedWithoutHash()
    ensures ParseRgba8(" FFFFFF") == Err(Parse(BadColorMessage(" FFFFFF")))
  {
    var h := PaddedPlainDigits();
    assert Decode(h, " FFFFFF") == Err(Parse(BadColorMessage(" FFFFFF")));
  }

  /** `" FFFFFF"` is kept whole, and is seven bytes long. */
  lemma PaddedPlainDigits() returns (h: string)
    ensures h == HexDigits(" FFFFFF") && ByteLen(h) == 7
  {
    TrimPaddedPlain();
    h := HexDigits(" FFFFFF");
    assert h == " FFFFFF";
    assert IsAscii(h);
    AsciiByteLen(h);
  }

  /** With a `#` the trimmed input is used: `" #FFFFFF"` is white. */
  lemma PaddedWithHash()
    ensures ParseRgba8(" #FFFFFF") == Ok(Rgba8(0xFF, 0xFF, 0xFF, 0xFF))
  {
    TrimPaddedHash();
    assert HexDigits(" #FFFFFF") == "FFFFFF";
    WhiteDigits(" #FFFFFF");
  }

  lemma PlusDigits(hexCode: string)
    ensures Decode("+F+F+F", hexCode) == Ok(Rgba8(15, 15, 15, 0xFF))
  {
    var hex := "+F+F+F";
    assert IsAscii(hex);
    assert hex[0..2] == "+F" && hex[2..4] == "+F" && hex[4..6] == "+F";
    PairPlusF();
    DecodeSixValid(hex, hexCode, 15, 15, 15);
  }

  /** `from_str_radix` accepts a `+` sign, so `"+F+F+F"` is a colour. */
  lemma PlusSignPairs()
    ensures ParseRgba8("+F+F+F") == Ok(Rgba8(15, 15, 15, 0xFF))
  {
    TrimSurrounded([], "+F+F+F", []);
    assert [] + "+F+F+F" + [] == "+F+F+F";
    assert HexDigits("+F+F+F") == "+F+F+F";
    PlusDigits("+F+F+F");
  }

  /** Six bytes with a two-byte character across the first pair: slicing
      `&hex[0..2]` panics. */
  lemma SliceInsideCharacter()
    ensures ParseRgba8("1é234") == Panic
  {
    var hex := "1é234";
    TrimSurrounded([], hex, []);
    assert [] + hex + [] == hex;
    assert HexDigits(hex) == hex;
    assert hex[..1] == "1";
    InsideCharIsNotBoundary(hex, 1, 2);
  }

  /** The digits as the comment "strip leading `#` if any" describes
      them: the trimmed input, without its `#` if it has one. */
  function TrimmedHexDigits(hexCode: string): string
  {
    match StripPrefix(Trim(hexCode), '#')
    case Some(rest) => rest
    case None => Trim(hexCode)
  }

  /** `parse_rgba8` with the fallback trimmed as well. */
  function ParseRgba8Trimmed(hexCode: string): (r: Outcome<Rgba8>)
    ensures (r.Err? && r.error.Parse?) <==> ByteLen(TrimmedHexDigits(hexCode)) != 6 && ByteLen(TrimmedHexDigits(hexCode)) != 8
  {
    Decode(TrimmedHexDigits(hexCode), hexCode)
  }

  /** The corrected parser ignores surrounding whitespace: apart from the
      input quoted in a length error, padded and unpadded input give the
      same result. */
  lemma TrimmedIgnoresPadding(w1: string, x: string, w2: string)
    requires AllWhitespace(w1) && AllWhitespace(w2) && IsTrimmed(x)
    ensures var p, q := ParseRgba8Trimmed(w1 + x + w2), ParseRgba8Trimmed(x);
      && ((p.Err? && p.error.Parse?) <==> (q.Err? && q.error.Parse?))
      && (!(p.Err? && p.error.Parse?) ==> p == q)
  {
    TrimSurrounded(w1, x, w2);
    TrimSurrounded([], x, []);
    assert [] + x + [] == x;
    assert TrimmedHexDigits(w1 + x + w2) == TrimmedHexDigits(x);
    DecodeQuotesOnly(TrimmedHexDigits(x), w1 + x + w2, x);
  }

  /** The input `Decode` is given to quote matters only to the length error. */
  lemma DecodeQuotesOnly(hex: string, a: string, b: string)
    ensures var p, q := Decode(hex, a), Decode(hex, b);
      && ((p.Err? && p.error.Parse?) <==> (q.Err? && q.error.Parse?))
      && (!(p.Err? && p.error.Parse?) ==> p == q)
  {
  }

  /** The corrected parser agrees with `parse_rgba8` on trimmed input and
      on input whose trimmed form starts with `#`. */
  lemma TrimmedAgrees(hexCode: string)
    ensures IsTrimmed(hexCode) ==> ParseRgba8Trimmed(hexCode) == ParseRgba8(hexCode)
    ensures StripPrefix(Trim(hexCode), '#').Some? ==> ParseRgba8Trimmed(hexCode) == ParseRgba8(hexCode)
  {
    if IsTrimmed(hexCode) {
      TrimSurrounded([], hexCode, []);
      assert [] + hexCode + [] == hexCode;
    }
  }

  /** The corrected parser accepts the padded colour `parse_rgba8` refuses. */
  lemma TrimmedAcceptsPadding()
    ensures ParseRgba8Trimmed(" FFFFFF") == Ok(Rgba8(0xFF, 0xFF, 0xFF, 0xFF))
  {
    TrimPaddedPlain();
    assert TrimmedHexDigits(" FFFFFF") == "FFFFFF";
    WhiteDigits(" FFFFFF");
  }
}
