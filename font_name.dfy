/** The short font name `get_font_name` (src/main.rs, the `fc-scan` variant)
    makes of the family list that `fc-scan --format %{family}` prints.
    `char::is_uppercase` is a parameter, `upper`. */
module FontNames {
  import opened Outcomes
  import opened RustStr

  /** The separator of `fam.split(',')`. */
  const Comma: set<char> := {','}

  /** Where the loop of `get_font_name` ends the piece that starts at the
      first capital `fam[k]`, at byte offset `i`: the capital's own end when
      no lowercase follows, and otherwise `i + j + d.len_utf8()` for the last
      non-capital `d` of the run, at offset `j` of the text after the
      capital. That is the end of the run measured from `i` instead of from
      the end of the capital. */
  function AsWrittenEnd(fam: string, upper: set<char>, k: nat): (e: nat)
    requires k < |fam|
    ensures FirstIndex(fam[k + 1..], upper) == 0 ==> e == ByteLen(fam[..k + 1])
    ensures var m := FirstIndex(fam[k + 1..], upper);
      m > 0 ==> e + Utf8Width(fam[k]) == ByteLen(fam[..k + 1 + m])
    ensures ByteLen(fam[..k]) < e
  {
    var tail := fam[k + 1..];
    var m := FirstIndex(tail, upper);
    var i := ByteLen(fam[..k]);
    RunBytes(fam, k, m);
    ByteLenAtLeastLength(tail[..m]);
    if m == 0 then i + Utf8Width(fam[k]) else i + ByteLen(tail[..m])
  }

  /** The bytes up to the end of the run of `m` characters after `fam[k]`:
      those before `fam[k]`, those of `fam[k]`, and those of the run. */
  lemma RunBytes(fam: string, k: nat, m: nat)
    requires k + 1 + m <= |fam|
    ensures ByteLen(fam[..k + 1 + m]) == ByteLen(fam[..k]) + Utf8Width(fam[k]) + ByteLen(fam[k + 1..][..m])
  {
    assert fam[k + 1..][..m] == fam[k + 1..k + 1 + m];
    PrefixByteLen(fam, k, k + 1 + m);
    assert fam[k..k + 1 + m] == [fam[k]] + fam[k + 1..k + 1 + m];
    ByteLenConcat([fam[k]], fam[k + 1..k + 1 + m]);
  }

  /** The result of the capital-word branch of `get_font_name`: the whole
      text when it has no capital, else `&fam[i..end]`, which panics when
      `end` falls inside a character. */
  function ProperNounAsWritten(fam: string, upper: set<char>): (r: Outcome<string>)
    ensures !r.Err?
    ensures FirstIndex(fam, upper) == |fam| ==> r == Ok(fam)
    ensures var k := FirstIndex(fam, upper);
      k < |fam| ==> (r.Panic? <==> BoundaryIndex(fam, AsWrittenEnd(fam, upper, k)).None?)
    ensures var k := FirstIndex(fam, upper);
      k < |fam| && r.Ok? ==>
        && r.value != [] && k + |r.value| <= |fam| && r.value == fam[k..k + |r.value|]
        && ByteLen(fam[..k]) + ByteLen(r.value) == AsWrittenEnd(fam, upper, k)
  {
    var k := FirstIndex(fam, upper);
    if k == |fam| then Ok(fam)
    else
      CapitalSliceShape(fam, upper, k);
      match CapitalSlice(fam, upper, k)
      case None => Panic
      case Some(piece) => Ok(piece)
  }

  /** `&fam[i..end]` for the capital `fam[k]` at byte offset `i`. */
  function CapitalSlice(fam: string, upper: set<char>, k: nat): Option<string>
    requires k < |fam|
  {
    ByteSlice(fam, ByteLen(fam[..k]), AsWrittenEnd(fam, upper, k))
  }

  /** The slice from the capital `fam[k]` panics exactly when its end is no
      character boundary; otherwise it is the non-empty text from `fam[k]`
      up to that end. */
  lemma CapitalSliceShape(fam: string, upper: set<char>, k: nat)
    requires k < |fam|
    ensures CapitalSlice(fam, upper, k).None? <==> BoundaryIndex(fam, AsWrittenEnd(fam, upper, k)).None?
    ensures var v := CapitalSlice(fam, upper, k);
      v.Some? ==>
        && v.value != [] && k + |v.value| <= |fam| && v.value == fam[k..k + |v.value|]
        && ByteLen(fam[..k]) + ByteLen(v.value) == AsWrittenEnd(fam, upper, k)
  {
    var lo, e := ByteLen(fam[..k]), AsWrittenEnd(fam, upper, k);
    BoundaryIndexAt(fam, k);
    match BoundaryIndex(fam, e)
    case None =>
    case Some(b) =>
      if b <= k {
        PrefixByteLen(fam, b, k);
      } else {
        assert ByteSlice(fam, lo, e) == Some(fam[k..b]);
      }
  }

  /** `&fam[end..]` right after the capital `fam[k]` is the text after it. */
  lemma TextAfterCapital(fam: string, k: nat)
    requires k < |fam|
    ensures ByteSlice(fam, ByteLen(fam[..k]) + Utf8Width(fam[k]), ByteLen(fam)) == Some(fam[k + 1..])
  {
    var lo := ByteLen(fam[..k + 1]);
    PrefixByteLenStep(fam, k);
    assert lo == ByteLen(fam[..k]) + Utf8Width(fam[k]);
    assert fam[..|fam|] == fam;
    var hi := ByteLen(fam[..|fam|]);
    assert hi == ByteLen(fam);
    ByteSliceAt(fam, k + 1, |fam|);
    assert ByteSlice(fam, lo, hi) == Some(fam[k + 1..|fam|]);
  }

  /** The inner loop of `get_font_name`: `end` starts at the end of the
      capital `fam[k]` (at byte offset `i`) and, for each character `d` at
      offset `j` of `fam[end..]` until the next capital, becomes
      `i + j + d.len_utf8()`. */
  method CapitalRunEnd(fam: string, upper: set<char>, k: nat, i: nat) returns (end: nat)
    requires k < |fam| && i == ByteLen(fam[..k])
    ensures end == AsWrittenEnd(fam, upper, k)
  {
    var c := fam[k];
    end := i + Utf8Width(c);
    TextAfterCapital(fam, k);
    var tail := fam[k + 1..];
    var t, j := 0, 0;
    while t < |tail|
      invariant 0 <= t <= |tail| && j == ByteLen(tail[..t])
      invariant forall u :: 0 <= u < t ==> tail[u] !in upper
      invariant end == if t == 0 then i + Utf8Width(c) else i + ByteLen(tail[..t])
    {
      var d := tail[t];
      if d in upper {
        break;
      }
      end := i + j + Utf8Width(d);
      PrefixByteLenStep(tail, t);
      j, t := j + Utf8Width(d), t + 1;
    }
    FirstIndexIs(tail, upper, t);
  }

  /** The outer `char_indices` loop of `get_font_name`, for text without a
      comma or a space: at the first capital, find the end of its run,
      slice `&fam[i..end]` and stop; with no capital, `unwrap_or(&fam)`. */
  method FirstProperNoun(fam: string, upper: set<char>) returns (r: Outcome<string>)
    ensures r == ProperNounAsWritten(fam, upper)
  {
    var result: Option<string> := None;
    var k, i := 0, 0;
    while k < |fam|
      invariant 0 <= k <= |fam| && i == ByteLen(fam[..k])
      invariant forall t :: 0 <= t < k ==> fam[t] !in upper
    {
      var c := fam[k];
      if c in upper {
        var end := CapitalRunEnd(fam, upper, k, i);
        FirstIndexIs(fam, upper, k);
        var piece := ByteSlice(fam, i, end);
        if piece.None? {
          return Panic;
        }
        result := Some(piece.value);
        break;
      }
      PrefixByteLenStep(fam, k);
      i, k := i + Utf8Width(c), k + 1;
    }
    if result.None? {
      FirstIndexIs(fam, upper, |fam|);
    }
    r := Ok(if result.Some? then result.value else fam);
  }

  /** The post-processing of `get_font_name`: trim the `fc-scan` output;
      `"NA"` when nothing is left; otherwise the trimmed text before the
      first comma, else the first ASCII-whitespace-separated word, else the
      capital-word piece. */
  method ShortFamilyName(stdout: string, upper: set<char>) returns (r: Outcome<string>)
    ensures Trim(stdout) == [] ==> r == Ok("NA")
    ensures var fam := Trim(stdout);
      fam != [] && ',' in fam ==> r == Ok(Trim(fam[..FirstIndex(fam, Comma)]))
    ensures var fam := Trim(stdout);
      fam != [] && ',' !in fam && ' ' in fam ==> r == Ok(fam[..FirstIndex(fam, AsciiWhitespace)])
    ensures var fam := Trim(stdout);
      fam != [] && ',' !in fam && ' ' !in fam ==> r == ProperNounAsWritten(fam, upper)
    ensures !r.Err?
  {
    var fam := Trim(stdout);
    if fam == [] {
      return Ok("NA");
    }
    if ',' in fam {
      BeforeComma(fam);
      r := Ok(Trim(Split(fam, Comma)[0]));
    } else if ' ' in fam {
      FirstWord(fam);
      r := Ok(AsciiWords(fam)[0]);
    } else {
      r := FirstProperNoun(fam, upper);
    }
  }

  /** `fam.split(',').next()`, trimmed: the text before the first comma. */
  lemma BeforeComma(fam: string)
    ensures Trim(Split(fam, Comma)[0]) == Trim(fam[..FirstIndex(fam, Comma)])
  {
    SplitFirstPiece(fam, Comma);
  }

  /** `fam.split_ascii_whitespace().next()` of trimmed text: the text before the
      first ASCII whitespace. */
  lemma FirstWord(fam: string)
    requires fam != [] && IsTrimmed(fam)
    ensures AsciiWords(fam) != [] && AsciiWords(fam)[0] == fam[..FirstIndex(fam, AsciiWhitespace)]
  {
    assert fam[0] !in AsciiWhitespace;
  }

  /** Text without a capital is kept whole. */
  lemma NoCapitalKeepsAll(fam: string, upper: set<char>)
    requires forall t :: 0 <= t < |fam| ==> fam[t] !in upper
    ensures ProperNounAsWritten(fam, upper) == Ok(fam)
  {
    FirstIndexIs(fam, upper, |fam|);
  }

  /** The byte offset `AsWrittenEnd` computes, when the capital is one byte
      and at least one non-capital follows it: one byte short of the end of
      the run, so the end of `fam[..k + m]` plus all but one byte of the
      run's last character. */
  lemma AsciiCapitalEnd(fam: string, upper: set<char>, k: nat)
    requires k < |fam| && fam[k] as int < 0x80
    requires FirstIndex(fam[k + 1..], upper) > 0
    ensures var m := FirstIndex(fam[k + 1..], upper);
      AsWrittenEnd(fam, upper, k) + 1 == ByteLen(fam[..k + m]) + Utf8Width(fam[k + m])
  {
    var tail := fam[k + 1..];
    var m := FirstIndex(tail, upper);
    assert tail[..m] == fam[k + 1..k + 1 + m];
    PrefixByteLen(fam, k, k + 1 + m);
    assert fam[k..k + 1 + m] == [fam[k]] + fam[k + 1..k + 1 + m];
    ByteLenConcat([fam[k]], fam[k + 1..k + 1 + m]);
    PrefixByteLenStep(fam, k + m);
  }

  /** From a one-byte capital: the capital alone when a capital (or the
      end) follows it at once; otherwise the run without its last
      character, or a panic when that character is more than one byte. */
  lemma AsciiCapital(fam: string, upper: set<char>, k: nat)
    requires k == FirstIndex(fam, upper) && k < |fam| && fam[k] as int < 0x80
    ensures FirstIndex(fam[k + 1..], upper) == 0 ==> ProperNounAsWritten(fam, upper) == Ok(fam[k..k + 1])
    ensures var m := FirstIndex(fam[k + 1..], upper);
      m > 0 && fam[k + m] as int < 0x80 ==> ProperNounAsWritten(fam, upper) == Ok(fam[k..k + m])
    ensures var m := FirstIndex(fam[k + 1..], upper);
      m > 0 && fam[k + m] as int >= 0x80 ==> ProperNounAsWritten(fam, upper) == Panic
  {
    var piece := AsciiCapitalSlice(fam, upper, k);
    AsWrittenFromSlice(fam, upper, k);
  }

  lemma AsWrittenFromSlice(fam: string, upper: set<char>, k: nat)
    requires k == FirstIndex(fam, upper) && k < |fam|
    ensures ProperNounAsWritten(fam, upper) == if CapitalSlice(fam, upper, k).None? then Panic else Ok(CapitalSlice(fam, upper, k).value)
  {
  }

  /** The slice the loop takes from a one-byte capital `fam[k]`. */
  lemma AsciiCapitalSlice(fam: string, upper: set<char>, k: nat) returns (piece: Option<string>)
    requires k < |fam| && fam[k] as int < 0x80
    ensures piece == CapitalSlice(fam, upper, k)
    ensures FirstIndex(fam[k + 1..], upper) == 0 ==> piece == Some(fam[k..k + 1])
    ensures var m := FirstIndex(fam[k + 1..], upper);
      m > 0 && fam[k + m] as int < 0x80 ==> piece == Some(fam[k..k + m])
    ensures var m := FirstIndex(fam[k + 1..], upper);
      m > 0 && fam[k + m] as int >= 0x80 ==> piece == None
  {
    var m := FirstIndex(fam[k + 1..], upper);
    if m == 0 {
      AloneCapitalSlice(fam, upper, k);
    } else {
      AsciiCapitalEnd(fam, upper, k);
      SliceOneByteShort(fam, k, m, AsWrittenEnd(fam, upper, k));
    }
    piece := CapitalSlice(fam, upper, k);
  }

  /** Slicing from `fam[k]` to one byte before the end of `fam[k + m]`:
      the characters before `fam[k + m]` when that one is a single byte, and
      a panic otherwise. */
  lemma SliceOneByteShort(fam: string, k: nat, m: nat, e: nat)
    requires k + m < |fam|
    requires e + 1 == ByteLen(fam[..k + m]) + Utf8Width(fam[k + m])
    ensures fam[k + m] as int < 0x80 ==> ByteSlice(fam, ByteLen(fam[..k]), e) == Some(fam[k..k + m])
    ensures fam[k + m] as int >= 0x80 ==> ByteSlice(fam, ByteLen(fam[..k]), e) == None
  {
    if fam[k + m] as int < 0x80 {
      ByteSliceAt(fam, k, k + m);
    } else {
      InsideCharIsNotBoundary(fam, k + m, e);
    }
  }

  /** A capital followed at once by a capital, or by the end, is sliced
      alone. */
  lemma AloneCapitalSlice(fam: string, upper: set<char>, k: nat)
    requires k < |fam| && FirstIndex(fam[k + 1..], upper) == 0
    ensures ByteSlice(fam, ByteLen(fam[..k]), AsWrittenEnd(fam, upper, k)) == Some(fam[k..k + 1])
  {
    PrefixByteLenStep(fam, k);
    ByteSliceAt(fam, k, k + 1);
  }

  /** On ASCII text the piece starts at the first capital `fam[k]` and is
      `m` characters long for the `m` non-capitals after it, or one
      character long when there are none. */
  lemma AsciiPieceLength(fam: string, upper: set<char>, k: nat)
    requires IsAscii(fam) && k == FirstIndex(fam, upper) && k < |fam|
    ensures FirstIndex(fam[k + 1..], upper) == 0 ==> ProperNounAsWritten(fam, upper) == Ok(fam[k..k + 1])
    ensures var m := FirstIndex(fam[k + 1..], upper);
      m > 0 ==> ProperNounAsWritten(fam, upper) == Ok(fam[k..k + m])
  {
    var m := FirstIndex(fam[k + 1..], upper);
    assert fam[k] as int < 0x80;
    assert m > 0 ==> fam[k + m] as int < 0x80;
    AsciiCapital(fam, upper, k);
  }

  /** The capital word: the first capital and the non-capitals after it,
      up to the next capital or the end; the whole text when it has no
      capital. This is what the comment "first proper noun: uppercase +
      following lowercase" asks for, and what the loop gives if `end` is
      advanced from the end of the capital. */
  function ProperNoun(fam: string, upper: set<char>): (r: string)
    ensures FirstIndex(fam, upper) == |fam| ==> r == fam
    ensures var k := FirstIndex(fam, upper);
      k < |fam| ==>
        && r != [] && k + |r| <= |fam| && r == fam[k..k + |r|]
        && r[0] in upper
        && (forall u :: 1 <= u < |r| ==> r[u] !in upper)
        && (k + |r| == |fam| || fam[k + |r|] in upper)
  {
    var k := FirstIndex(fam, upper);
    if k == |fam| then fam
    else
      var m := FirstIndex(fam[k + 1..], upper);
      var r := fam[k..k + 1 + m];
      assert forall u :: 1 <= u < |r| ==> r[u] == fam[k + 1..][u - 1];
      r
  }

  /** On ASCII text the loop as written drops the last letter of every
      capital word longer than one letter. */
  lemma AsWrittenDropsLastLetter(fam: string, upper: set<char>, k: nat)
    requires IsAscii(fam) && k == FirstIndex(fam, upper) && k < |fam|
    requires FirstIndex(fam[k + 1..], upper) > 0
    ensures |ProperNoun(fam, upper)| >= 2
    ensures ProperNounAsWritten(fam, upper) == Ok(ProperNoun(fam, upper)[..|ProperNoun(fam, upper)| - 1])
  {
    var m := FirstIndex(fam[k + 1..], upper);
    AsciiPieceLength(fam, upper, k);
    var word := ProperNounAt(fam, upper, k);
    assert word[..m] == fam[k..k + m];
  }

  lemma ProperNounAt(fam: string, upper: set<char>, k: nat) returns (word: string)
    requires k == FirstIndex(fam, upper) && k < |fam|
    ensures word == ProperNoun(fam, upper)
    ensures word == fam[k..k + 1 + FirstIndex(fam[k + 1..], upper)]
  {
    word := ProperNoun(fam, upper);
  }

  /** `char::is_uppercase` on ASCII: exactly `A` to `Z`. */
  predicate AsciiUppercase(upper: set<char>)
  {
    forall c: char :: c as int < 0x80 ==> (c in upper <==> 'A' <= c <= 'Z')
  }

  /** `"FiraCode"` is shortened to `"Fir"`, not `"Fira"`. */
  lemma FiraCodeLosesLastLetter(upper: set<char>)
    requires AsciiUppercase(upper)
    ensures ProperNounAsWritten("FiraCode", upper) == Ok("Fir")
    ensures ProperNoun("FiraCode", upper) == "Fira"
  {
    var fam := "FiraCode";
    FiraCodeCapitals(upper);
    assert IsAscii(fam);
    AsciiPieceLength(fam, upper, 0);
    assert fam[0..3] == "Fir";
    assert fam[0..4] == "Fira";
  }

  /** In `"FiraCode"` the first capital is at 0 and the next one 3 letters
      later. */
  lemma FiraCodeCapitals(upper: set<char>)
    requires AsciiUppercase(upper)
    ensures FirstIndex("FiraCode", upper) == 0
    ensures FirstIndex("FiraCode"[1..], upper) == 3
  {
    var fam := "FiraCode";
    var tail := fam[1..];
    assert fam[0] in upper;
    FirstIndexIs(fam, upper, 0);
    assert tail[3] == 'C' && tail[3] in upper;
    assert tail[0] !in upper && tail[1] !in upper && tail[2] !in upper;
    FirstIndexIs(tail, upper, 3);
  }

  /** `"Café"`: the run ends with a two-byte letter, and the slice ends
      inside it. */
  lemma CafePanics(upper: set<char>)
    requires AsciiUppercase(upper) && 'é' !in upper
    ensures ProperNounAsWritten("Café", upper) == Panic
    ensures ProperNoun("Café", upper) == "Café"
  {
    var fam := "Café";
    var tail := fam[1..];
    assert fam[0] in upper;
    FirstIndexIs(fam, upper, 0);
    assert tail[0] !in upper && tail[1] !in upper && tail[2] !in upper;
    FirstIndexIs(tail, upper, 3);
    AsciiCapital(fam, upper, 0);
    assert fam[0..4] == fam;
  }
}
