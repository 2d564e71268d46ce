/** Rust's integer parsing (`from_str_radix`, and `str::parse` for integers,
    which is radix 10) and decimal formatting, for the integer types the
    program parses: `u8` colour channels, `u32` sizes and `i32` SVG lengths.
    Rust's `from_str_radix` reads bytes; every byte of a multi-byte
    character is an invalid digit, so reading characters instead gives the
    same outcome. */
module RustInt {
  import opened Outcomes

  type uint8 = x: int | 0 <= x < 0x100
  type uint32 = x: int | 0 <= x < 0x1_0000_0000
  type int32 = x: int | -0x8000_0000 <= x < 0x8000_0000

  /** The integer types whose parsing the program relies on. */
  datatype IntType = U8 | U32 | I32 {
    predicate Signed() {
      I32?
    }

    function Min(): int {
      if I32? then -0x8000_0000 else 0
    }

    function Max(): int {
      match this
      case U8 => 0xFF
      case U32 => 0xFFFF_FFFF
      case I32 => 0x7FFF_FFFF
    }

    predicate InRange(v: int) {
      Min() <= v <= Max()
    }
  }

  /** `std::num::IntErrorKind`, the variants integer parsing can produce. */
  datatype IntErrorKind = Empty | InvalidDigit | PosOverflow | NegOverflow {
    /** The `Display` text of a `ParseIntError` of this kind. */
    function Description(): string {
      match this
      case Empty => "cannot parse integer from empty string"
      case InvalidDigit => "invalid digit found in string"
      case PosOverflow => "number too large to fit in target type"
      case NegOverflow => "number too small to fit in target type"
    }
  }

  type Radix = r: nat | 2 <= r <= 36 witness 10

  /** `char::to_digit`: the decimal digits, then the letters of either case
      for the values 10 to 35, as long as the value is below the radix. */
  function DigitValue(c: char, radix: Radix): (r: Option<nat>)
    ensures r.Some? ==> r.value < radix
    ensures r.Some? ==> c as int < 0x80
    ensures '0' <= c <= '9' ==> r == if (c as int - '0' as int) < radix then Some(c as int - '0' as int) else None
    ensures r.Some? ==> '0' <= c <= '9' || 'a' <= c <= 'z' || 'A' <= c <= 'Z'
  {
    var n := c as int;
    var v :=
      if '0' as int <= n <= '9' as int then n - '0' as int
      else if radix > 10 && 'a' as int <= n <= 'z' as int then n - 'a' as int + 10
      else if radix > 10 && 'A' as int <= n <= 'Z' as int then n - 'A' as int + 10
      else radix;
    if v < radix then Some(v) else None
  }

  /** A letter of either case is worth 10 and up, when below the radix. */
  lemma DigitValueLetter(c: char, radix: Radix)
    requires 'a' <= c <= 'z' || 'A' <= c <= 'Z'
    ensures var v := if c <= 'Z' then c as int - 'A' as int + 10 else c as int - 'a' as int + 10;
      DigitValue(c, radix) == if v < radix then Some(v) else None
  {
  }

  predicate IsDigit(c: char, radix: Radix)
  {
    DigitValue(c, radix).Some?
  }

  predicate AllDigits(s: string, radix: Radix)
  {
    forall k :: 0 <= k < |s| ==> IsDigit(s[k], radix)
  }

  /** The number a string of digits denotes, most significant digit first. */
  function Value(ds: string, radix: Radix): nat
    requires AllDigits(ds, radix)
  {
    if ds == [] then 0
    else Shift(Value(ds[..|ds| - 1], radix), radix, DigitValue(ds[|ds| - 1], radix).value)
  }

  /** The value after one more digit. */
  lemma ValueSnoc(ds: string, c: char, radix: Radix)
    requires AllDigits(ds, radix) && IsDigit(c, radix)
    ensures AllDigits(ds + [c], radix)
    ensures Value(ds + [c], radix) == Shift(Value(ds, radix), radix, DigitValue(c, radix).value)
  {
    assert (ds + [c])[..|ds|] == ds;
  }

  lemma AllDigitsPrefix(s: string, n: nat, radix: Radix)
    requires AllDigits(s, radix) && n <= |s|
    ensures AllDigits(s[..n], radix)
  {
  }

  /** Appending digits never makes the value smaller. */
  lemma {:induction false} ValueMonotone(a: string, b: string, radix: Radix)
    requires AllDigits(a + b, radix)
    ensures AllDigits(a, radix)
    ensures Value(a + b, radix) >= Value(a, radix)
    decreases |b|
  {
    var s := a + b;
    assert s[..|a|] == a;
    AllDigitsPrefix(s, |a|, radix);
    if b == [] {
      assert s == a;
    } else {
      var b' := b[..|b| - 1];
      assert s[..|s| - 1] == a + b';
      AllDigitsPrefix(s, |s| - 1, radix);
      ValueMonotone(a, b', radix);
    }
  }

  /** The signed value of a magnitude. */
  function Signed(positive: bool, v: int): int
  {
    if positive then v else -v
  }

  /** What reading a numeral of value `v` gives: `v`, or the overflow of
      its sign when `v` does not fit `ty`. */
  function Fit(positive: bool, v: int, ty: IntType): (r: Result<int, IntErrorKind>)
    ensures r.Success? <==> ty.InRange(v)
    ensures r.Success? ==> r.value == v
    ensures r.Failure? ==> r.error == if positive then PosOverflow else NegOverflow
  {
    if ty.InRange(v) then Success(v)
    else Failure(if positive then PosOverflow else NegOverflow)
  }

  /** `acc * radix + x`, one more digit on a magnitude. */
  function Shift(acc: nat, radix: Radix, x: nat): (r: nat)
    ensures r >= acc
  {
    acc * radix + x
  }

  /** The digit loop of `from_str_radix`. Rust keeps the signed running
      value `acc`, computing `acc * radix + x` for a positive number and
      `acc * radix - x` for a negative one; here `mag` is its magnitude, so
      `acc` is `Signed(positive, mag)`. Each digit is checked before the
      arithmetic that may overflow, and the first problem ends the loop. */
  function Accumulate(ds: string, radix: Radix, positive: bool, mag: nat, ty: IntType): (r: Result<int, IntErrorKind>)
    requires ty.InRange(Signed(positive, mag))
    ensures r.Success? ==> ty.InRange(r.value)
  {
    if ds == [] then Success(Signed(positive, mag))
    else match DigitValue(ds[0], radix)
      case None => Failure(InvalidDigit)
      case Some(x) =>
        var next := Shift(mag, radix, x);
        if positive && next > ty.Max() then Failure(PosOverflow)
        else if !positive && Signed(positive, next) < ty.Min() then Failure(NegOverflow)
        else Accumulate(ds[1..], radix, positive, next, ty)
  }

  /** `<ty>::from_str_radix(src, radix)`: an empty string is `Empty`, a lone
      sign is an invalid digit, a leading `+` is dropped, and a leading `-`
      is dropped only for a signed type. */
  function ParseInt(src: string, radix: Radix, ty: IntType): (r: Result<int, IntErrorKind>)
    ensures r.Success? ==> ty.InRange(r.value)
  {
    if src == [] then Failure(Empty)
    else if src == ['+'] || src == ['-'] then Failure(InvalidDigit)
    else if src[0] == '+' then Accumulate(src[1..], radix, true, 0, ty)
    else if src[0] == '-' && ty.Signed() then Accumulate(src[1..], radix, false, 0, ty)
    else Accumulate(src, radix, true, 0, ty)
  }

  /** Reading a run of digits after the digits `pre` either overflows, with
      the sign's overflow, or goes on from the value of `pre + run`. */
  lemma {:induction false} AccumulateRun(pre: string, run: string, tail: string, radix: Radix, positive: bool, ty: IntType)
    requires AllDigits(pre + run, radix) && AllDigits(pre, radix)
    requires ty.InRange(Signed(positive, Value(pre, radix)))
    ensures Accumulate(run + tail, radix, positive, Value(pre, radix), ty)
         == if ty.InRange(Signed(positive, Value(pre + run, radix)))
            then Accumulate(tail, radix, positive, Value(pre + run, radix), ty)
            else Fit(positive, Signed(positive, Value(pre + run, radix)), ty)
    decreases |run|
  {
    if run == [] {
      assert pre + run == pre;
      assert run + tail == tail;
    } else {
      var c := run[0];
      assert (pre + run)[|pre|] == c;
      ValueSnoc(pre, c, radix);
      var pre' := pre + [c];
      var run' := run[1..];
      assert pre' + run' == pre + run;
      assert (run + tail)[1..] == run' + tail;
      AccumulateStep(c, run' + tail, radix, positive, Value(pre, radix), ty);
      ValueMonotone(pre', run', radix);
      if ty.InRange(Signed(positive, Value(pre', radix))) {
        AccumulateRun(pre', run', tail, radix, positive, ty);
      }
    }
  }

  /** One turn of the digit loop on a digit. */
  lemma AccumulateStep(c: char, rest: string, radix: Radix, positive: bool, mag: nat, ty: IntType)
    requires ty.InRange(Signed(positive, mag)) && IsDigit(c, radix)
    ensures var next := Shift(mag, radix, DigitValue(c, radix).value);
      Accumulate([c] + rest, radix, positive, mag, ty)
      == if ty.InRange(Signed(positive, next)) then Accumulate(rest, radix, positive, next, ty)
         else Fit(positive, Signed(positive, next), ty)
  {
    assert ([c] + rest)[1..] == rest;
  }

  /** The digits after the sign: what `from_str_radix` reads as the magnitude. */
  function Magnitude(src: string, ty: IntType): string
  {
    if src != [] && (src[0] == '+' || (src[0] == '-' && ty.Signed())) then src[1..] else src
  }

  /** A numeral `from_str_radix` accepts when its value fits: an optional
      `+` (or `-`, for a signed type) and at least one digit. */
  predicate IsNumeral(src: string, radix: Radix, ty: IntType)
  {
    Magnitude(src, ty) != [] && AllDigits(Magnitude(src, ty), radix)
  }

  /** The value a numeral denotes. */
  function NumeralValue(src: string, radix: Radix, ty: IntType): int
    requires IsNumeral(src, radix, ty)
  {
    Signed(!(src[0] == '-' && ty.Signed()), Value(Magnitude(src, ty), radix))
  }

  /** A successful digit loop read only digits. */
  lemma {:induction false} AccumulateOnlyDigits(ds: string, radix: Radix, positive: bool, mag: nat, ty: IntType)
    requires ty.InRange(Signed(positive, mag))
    requires Accumulate(ds, radix, positive, mag, ty).Success?
    ensures AllDigits(ds, radix)
    decreases |ds|
  {
    if ds != [] {
      var next := Shift(mag, radix, DigitValue(ds[0], radix).value);
      AccumulateOnlyDigits(ds[1..], radix, positive, next, ty);
      assert forall k :: 1 <= k < |ds| ==> ds[k] == ds[1..][k - 1];
    }
  }

  /** The digit loop on a whole magnitude: the value, or its overflow. */
  lemma AccumulateAll(ds: string, radix: Radix, positive: bool, ty: IntType)
    requires AllDigits(ds, radix)
    ensures Accumulate(ds, radix, positive, 0, ty) == Fit(positive, Signed(positive, Value(ds, radix)), ty)
  {
    assert [] + ds == ds && ds + [] == ds;
    assert Value([], radix) == 0;
    AccumulateRun([], ds, [], radix, positive, ty);
  }

  /** `from_str_radix` succeeds exactly on the numerals whose value fits the
      type, and then returns that value; a numeral that does not fit is an
      overflow of its sign. */
  lemma ParseIntMeaning(src: string, radix: Radix, ty: IntType)
    ensures ParseInt(src, radix, ty).Success? <==> IsNumeral(src, radix, ty) && ty.InRange(NumeralValue(src, radix, ty))
    ensures IsNumeral(src, radix, ty) ==> ParseInt(src, radix, ty) == Fit(!(src[0] == '-' && ty.Signed()), NumeralValue(src, radix, ty), ty)
  {
    var mag := Magnitude(src, ty);
    var positive := !(src != [] && src[0] == '-' && ty.Signed());
    if IsNumeral(src, radix, ty) {
      AccumulateAll(mag, radix, positive, ty);
    } else if ParseInt(src, radix, ty).Success? {
      AccumulateOnlyDigits(mag, radix, positive, 0, ty);
    }
  }

  /** A numeral whose digits fit is read up to its first non-digit, which is
      then reported: `from_str_radix` looks at each digit before it does the
      arithmetic that could overflow. */
  lemma InvalidAfterDigits(ds: string, c: char, rest: string, radix: Radix, ty: IntType)
    requires ds != [] && AllDigits(ds, radix) && ty.InRange(Value(ds, radix))
    requires !IsDigit(c, radix)
    ensures ParseInt(ds + [c] + rest, radix, ty) == Failure(InvalidDigit)
  {
    var src := ds + [c] + rest;
    assert src[0] == ds[0] && IsDigit(ds[0], radix);
    assert ds + ([c] + rest) == src;
    assert [] + ds == ds;
    assert Value([], radix) == 0;
    AccumulateRun([], ds, [c] + rest, radix, true, ty);
  }

  /** `char::from_digit` for a decimal digit. */
  function DecimalDigit(d: nat): (c: char)
    requires d < 10
    ensures DigitValue(c, 10) == Some(d)
  {
    ('0' as int + d) as char
  }

  /** The decimal text of a non-negative integer (`Display` for `u32` and
      `i32`): no sign, no leading zero. */
  function DecimalString(n: nat): (s: string)
    ensures s != [] && AllDigits(s, 10)
    ensures Value(s, 10) == n
    ensures |s| > 1 ==> s[0] != '0'
    ensures s[0] != '+' && s[0] != '-'
  {
    if n < 10 then [DecimalDigit(n)]
    else
      var s := DecimalString(n / 10) + [DecimalDigit(n % 10)];
      ValueSnoc(DecimalString(n / 10), DecimalDigit(n % 10), 10);
      s
  }

  /** Printing a value of the type and parsing it back gives the value. */
  lemma DecimalRoundTrip(n: nat, ty: IntType)
    requires n <= ty.Max()
    ensures ParseInt(DecimalString(n), 10, ty) == Success(n)
  {
    ParseIntMeaning(DecimalString(n), 10, ty);
  }
}
