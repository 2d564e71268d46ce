# sia text parsers and formatters, in Dafny

sia renders a preview image of a font. Around the renderer it has a set of
small text routines, and this project models them:

- `parse_rgba8` reads the `--bg-color` / `--fg-color` options, given as
  `#RRGGBB` or `#RRGGBBAA`.
- `Dimensions::from_str` reads the `--size` option, given as `WxH`.
- The post-processing in `get_font_name` shortens the family list that
  `fc-scan --format %{family}` prints.
- The token loop of `detect_latin_support` looks for a Latin-alphabet
  language in the list printed by `fc-scan --format %{lang}`.
- Three helpers in the SVG back end: the `#RRGGBB` text of a theme colour,
  `dimension_to_int` and `get_dimensions`.

Files and modules:

- `outcomes.dfy` (`Outcomes`): `Option`, `Result`, `SiaError`, and
  `Outcome`. An `Outcome` is `Ok`, `Err` (a returned `SiaError`) or
  `Panic` (a failed `unwrap` or a slice off a character boundary).
- `rust_str.dfy` (`RustStr`): the `str` operations the code relies on,
  modelled on `seq<char>`:
  - the UTF-8 byte length of text, and `&s[a..b]` by byte offsets
    (`None` where Rust panics);
  - `trim` with Unicode `White_Space`, and `strip_prefix`;
  - `split` on a set of characters, and `split_ascii_whitespace`;
  - `trim_end_matches`.
- `rust_int.dfy` (`RustInt`): `from_str_radix` / `str::parse` for `u8`,
  `u32` and `i32`, with Rust's optional sign, its error kinds and the
  order in which it reports them.
- `color.dfy` (`Colors`): `parse_rgba8`.
- `dimensions.dfy` (`Sizes`): `Dimensions::from_str`.
- `font_name.dfy` (`FontNames`): the short-name extraction.
  - The two `char_indices` loops are methods with loops.
  - `char::is_uppercase` is a parameter `upper`, a set of characters.
- `latin.dfy` (`Latin`): `LATIN_CODES` (the constant `LatinCodes`, copied
  entry by entry in the same order; no contract states the order), and the token loop as a method with
  a loop.
- `svg.dfy` (`Svg`): the hex formatting, `dimension_to_int` and
  `get_dimensions`. The element's attributes are a `map<string, string>`,
  or `None` when the node has none.

## Model

| member | source | states |
|---|---|---|
| Colors.HexDigits | src/main.rs:206 | when the trimmed input starts with `#`, the digits are the trimmed input after that `#`; otherwise they are the input exactly as given, untrimmed |
| Colors.BadColorMessage | src/main.rs:224-227 | the message starts with ``invalid color ` `` and quotes the input exactly as given |
| Colors.ParseRgba8 | src/main.rs:204-229 | the result is a `Parse` error exactly when the digits (the trimmed input without `#`, or else the untrimmed input) are neither 6 nor 8 bytes long; that error quotes the input; any other error is the `ParseIntError` text "invalid digit found in string"; with 6 digits alpha is 255 |
| Colors.Decode | src/main.rs:208-228 | the byte length of the digits picks the format; a length other than 6 or 8 is the `Parse` error; otherwise only an invalid-digit error or a panic |
| Colors.Channel | src/main.rs:210-212 | one channel is a panic exactly when `&hex[lo..lo + 2]` is off a character boundary; otherwise it is `Ok` exactly when `u8::from_str_radix` of that slice succeeds, with its value, and else that error as a `Message` |
| Colors.Assemble | src/main.rs:210-221 | the channels make a colour only when all succeed, in r, g, b, a order; otherwise the result is the first failure that `?` reaches |
| Colors.PairParse | src/main.rs:210-221 | `u8::from_str_radix(pair, 16)` of two characters is the value of two hex digits, or of `+` and one digit, and otherwise an invalid digit; never an overflow |
| Colors.TwoBytePair | src/main.rs:210-221 | any two bytes of text either parse or are an invalid digit |
| Colors.ParseSixDigits | src/main.rs:208-214 | six ASCII digits after stripping: r, g and b are the consecutive pairs and alpha is 255, or the invalid-digit error when any pair is not base-16 |
| Colors.ParseEightDigits | src/main.rs:216-222 | eight ASCII digits after stripping: alpha is the fourth pair, or the invalid-digit error when any pair is not base-16 |
| Colors.ParseSixValid | src/main.rs:208-214 | six ASCII digits whose pairs read as r, g and b give the opaque colour (r, g, b, 255) |
| Colors.PaddedWithoutHash | src/main.rs:206 | `" FFFFFF"` has no `#`, so the untrimmed seven bytes are measured and the result is the `Parse` error |
| Colors.PaddedWithHash | src/main.rs:206 | `" #FFFFFF"` is trimmed before its `#` is stripped, so it is opaque white |
| Colors.PlusSignPairs | src/main.rs:210-212 | `from_str_radix` accepts a `+` sign, so `"+F+F+F"` is the colour (15, 15, 15, 255) |
| Colors.SliceInsideCharacter | src/main.rs:210 | `"1é234"` is six bytes, but `&hex[0..2]` ends inside `é`, so the result is a panic |
| Colors.ParseRgba8Trimmed | src/main.rs:205-206 | the corrected parser gives a `Parse` error exactly when the trimmed digits are neither 6 nor 8 bytes long |
| Colors.TrimmedIgnoresPadding | src/main.rs:205-206 | under the corrected parser, whitespace around the input changes nothing except the text quoted in a length error |
| Colors.TrimmedAgrees | src/main.rs:206 | the corrected parser equals `parse_rgba8` on trimmed input and on input whose trimmed form starts with `#` |
| Colors.TrimmedAcceptsPadding | src/main.rs:206 | the corrected parser reads `" FFFFFF"` as opaque white |
| Sizes.Field | src/main.rs:64-71 | a segment is its `u32` value when `parse::<u32>` succeeds, and `InvalidConfig("size")` otherwise |
| Sizes.ParseDimensions | src/main.rs:62-79 | never a panic; every error is `InvalidConfig("size")`; text without an `x` is always that error |
| Sizes.ParseDimensionsMeaning | src/main.rs:62-79 | without `split`: the size is the `u32` before the first `x` and the `u32` between it and the next `x` (or the end), and otherwise `InvalidConfig("size")` |
| Sizes.ParseTwoSegments | src/main.rs:63-77 | two `x`-free `u32` numerals joined by `x` are the width and the height |
| Sizes.ParseIgnoresTail | src/main.rs:63-77 | a second `x` and anything after it are ignored |
| Sizes.ParseFormatted | src/main.rs:62-79 | any `u32` width and height in decimal, joined by `x`, read back as that size, with or without a tail after a second `x` |
| Sizes.ParseDimensionsErrors | src/main.rs:64-71 | text without an `x`, and text whose first segment is not a `u32`, give `InvalidConfig("size")` |
| Sizes.DefaultSize | src/main.rs:242-244 | the default `"1000x1000"` is 1000 by 1000 |
| FontNames.ShortFamilyName | src/main.rs:380-408 | the branches in order: `"NA"` for empty trimmed output; the trimmed text before the first comma; the text before the first ASCII whitespace; otherwise the capital-word piece; never an error |
| FontNames.BeforeComma | src/main.rs:386 | the first piece of `split(',')`, trimmed, is the trimmed text before the first comma |
| FontNames.FirstWord | src/main.rs:388 | the first word of `split_ascii_whitespace` of trimmed text is the text before its first ASCII whitespace |
| FontNames.FirstProperNoun | src/main.rs:391-406 | the outer loop gives the whole text when there is no capital; otherwise the byte slice from the first capital to the end the inner loop computes, or a panic when that slice is off a character boundary |
| FontNames.AsWrittenEnd | src/main.rs:395-401 | with no non-capital after the capital, the end is the capital's own end; otherwise the end falls short of the run's true end by the capital's byte width; it always lies past the capital's start |
| FontNames.ProperNounAsWritten | src/main.rs:391-406 | never an error; the whole text when there is no capital; otherwise a panic exactly when the computed end is no character boundary, and else a non-empty piece of the text that starts at the first capital and ends at the computed byte offset |
| FontNames.CapitalSliceShape | src/main.rs:402 | `&fam[i..end]` from the first capital panics exactly when `end` is no character boundary, and is otherwise the non-empty text from the capital up to `end` |
| FontNames.CapitalRunEnd | src/main.rs:395-401 | the inner loop ends at `i + j + d.len_utf8()` for the last non-capital `d` of the run, which is the end of the run measured from `i`; with no such `d`, at the end of the capital |
| FontNames.NoCapitalKeepsAll | src/main.rs:406 | text with no capital is returned whole |
| FontNames.AsciiPieceLength | src/main.rs:393-402 | on ASCII text the piece starts at the first capital and has `max(1, n)` characters, where `n` non-capitals follow the capital |
| FontNames.AsciiCapital | src/main.rs:395-402 | from a one-byte capital: the capital alone, the run without its last character, or a panic when that character takes more than one byte |
| FontNames.AsWrittenDropsLastLetter | src/main.rs:400 | on ASCII text the piece is the capital word without its last letter, whenever that word has two letters or more |
| FontNames.ProperNoun | src/main.rs:390 | the capital word the comment describes: it starts at the first capital, has no later capital, and ends at the next capital or at the end; the whole text when there is no capital |
| FontNames.FiraCodeLosesLastLetter | src/main.rs:400 | `"FiraCode"` is shortened to `"Fir"`, while its capital word is `"Fira"` |
| FontNames.CafePanics | src/main.rs:400-402 | `"Café"` panics, because the slice ends inside `é`; its capital word is `"Café"` |
| Latin.LatinCodesCount | src/main.rs:29-41 | `LATIN_CODES` holds 125 codes |
| Latin.DetectLatinSupport | src/main.rs:452-462 | the result is true exactly when some piece of the list, split on `,`, `|` and whitespace and then trimmed, is a non-empty member of `LATIN_CODES` |
| Latin.MatchAnyCode | src/main.rs:453-462 | the same, for any code list |
| Latin.AnyCodeToken | src/main.rs:453-461 | the loop returns true exactly when some piece, once trimmed, is non-empty and in the code list |
| Latin.ContainsIsIn | src/main.rs:458 | `LATIN_CODES.contains` holds exactly for the members of the list |
| Latin.DeclaresOneOfMeaning | src/main.rs:453-459 | without `split`: some piece is an accepted code exactly when some non-empty maximal run of non-separators is a member of the list |
| Latin.DeclaresLatinMeaning | src/main.rs:453-459 | a Latin language is declared exactly when some non-empty maximal run of non-separators is in `LATIN_CODES` |
| Latin.DeclaresOneOfJoin | src/main.rs:454 | two lists joined by a separator declare a code exactly when one of them does |
| Latin.PieceIsTrimmed | src/main.rs:455 | whitespace separates, so `str::trim` leaves every piece unchanged |
| Svg.HexByte | src/svg.rs:45 | `{:02X}` is exactly two upper-case hex digits that read back as the byte |
| Svg.HexColor | src/svg.rs:45-46 | seven ASCII characters: `#`, then upper-case two-digit fields for r, g and b, in that order |
| Svg.HexColorRoundTrip | src/svg.rs:45 | `parse_rgba8` of the formatted colour gives (r, g, b, 255) |
| Svg.HexColorInjective | src/svg.rs:45-46 | different colours are formatted differently |
| Svg.DefaultColors | src/main.rs:250-256 | the defaults `#FFFFFF` and `#000000` are formatted white and black and parse as opaque white and black |
| Svg.DimensionToInt | src/svg.rs:156-158 | after every trailing `px` is stripped: the value when the text is an `i32` numeral in range, and 0 otherwise |
| Svg.DimensionIgnoresPx | src/svg.rs:157 | appending `px` does not change the result |
| Svg.DimensionOfDecimal | src/svg.rs:157 | a decimal length reads as itself when it fits an `i32`, and as 0 when it does not; with or without `px` |
| Svg.DimensionOfNegative | src/svg.rs:157 | `-` and decimal digits read as the negative value, down to `i32::MIN` |
| Svg.DocumentedDimensions | src/svg.rs:147 | `"500px"` is 500 and `"200"` is 200 |
| Svg.DimensionDefaults | src/svg.rs:155-157 | `""`, `"px"`, `"pxpx"` and `"5em"` read as 0 |
| Svg.GetDimensions | src/svg.rs:148-153 | a panic exactly when the node has no attributes or lacks `width` or `height`; otherwise both read by `dimension_to_int`; never an error |
| Svg.GetDimensionsRoundTrip | src/svg.rs:148-153 | `px` lengths written to `width` and `height` read back, whatever else the element holds |
| Svg.GetDimensionsIgnoresOthers | src/svg.rs:149-152 | attributes other than `width` and `height` do not matter |
| RustInt.DigitValue | src/main.rs:210-221 | `char::to_digit`, as `from_str_radix` uses it: a digit is below the radix and is an ASCII digit or letter; a decimal digit is worth itself when below the radix |
| RustInt.DigitValueLetter | src/main.rs:210-221 | a letter of either case is worth 10 and up, and is a digit only when that is below the radix |
| RustInt.ParseInt | src/svg.rs:157 | `from_str_radix` / `str::parse`; a value it returns is always in range of the target type |
| RustInt.ParseIntMeaning | src/svg.rs:157 | `parse` succeeds exactly on a numeral whose value is in range, and then gives that value |
| RustInt.DecimalRoundTrip | src/main.rs:64-71 | the decimal text of a value in range parses back as the value |
| RustInt.InvalidAfterDigits | src/main.rs:64-71 | digits whose value fits the type, followed by a non-digit, are an invalid digit and not an overflow; this documents the library only, since the modelled callers discard the error kind |
| RustStr.StripPrefix | src/main.rs:206 | `strip_prefix('#')` succeeds exactly when the text starts with `#`, and then `#` followed by the rest is the text |
| RustStr.WhitespaceIs | src/main.rs:454 | the 25-character set used as a separator is exactly `char::is_whitespace`, the Unicode `White_Space` property |
| RustStr.AsciiWhitespaceIs | src/main.rs:388 | the separators of `split_ascii_whitespace` are the ASCII characters of `char::is_whitespace` except the vertical tab |
| RustStr.Trim | src/main.rs:380 | `str::trim`: neither end of the result is whitespace, and it is no longer than the input |
| RustStr.TrimSurrounded | src/main.rs:380 | `str::trim` removes exactly the surrounding whitespace |
| RustStr.Split | src/main.rs:454 | `str::split` on a set of characters yields at least one piece |
| RustStr.SplitPieces | src/main.rs:454 | a string is a piece of `split` exactly when it is a maximal run of non-separators |
| RustStr.SplitFirstPiece | src/main.rs:63-64 | the first piece is the text before the first separator |
| RustStr.SplitJoin | src/main.rs:454 | splitting text joined by a separator gives the pieces of each side |
| RustStr.SplitRunIsPiece | src/main.rs:454 | every maximal run of non-separators is a piece of `split` |
| RustStr.AsciiWords | src/main.rs:388 | `split_ascii_whitespace` yields non-empty words without ASCII whitespace; when the text does not start with ASCII whitespace, the first word is the text before the first one |
| RustStr.TrimEndMatches | src/svg.rs:157 | `trim_end_matches` leaves a prefix of the input that no longer ends with the pattern, and leaves text that does not end with the pattern unchanged; with `RustStr.TrimEndMatchesAppend` this fixes the result for every input |
| RustStr.TrimEndMatchesAppend | src/svg.rs:157 | `trim_end_matches("px")` of `s + "px"` is that of `s` |
| RustStr.ByteSlice | src/main.rs:402 | `&s[lo..hi]` by byte offsets; when it does not panic, `lo <= hi` lies within the text and the slice is `hi - lo` bytes long |
| RustStr.ByteSliceAt | src/main.rs:402 | slicing between the byte offsets of two characters gives the characters between them |

## Left out

- The `fc-scan` and PowerShell subprocesses, their exit status and `String::from_utf8_lossy`: the model starts from the decoded standard output as a string. The Windows variants and the stub for other systems are not modelled.
- `run()`, `Alpha`, `FontSize`, `parse_input` and `get_canvas_height` (src/utils.rs): floating point, the filesystem and font metrics from foreign crates.
- `code_to_svg` and the builder helpers in src/svg.rs (`add_shadow`, `add_clip_path`, `add_corner_radius`, `move_element`, `add_outline`, `set_dimensions`): calls into the `syntect` and `svg` crates. The model keeps only the `format!` of the two theme colours.
- RustInt.ParseInt: its own contract states only that a result is in range; what it returns is stated by `RustInt.ParseIntMeaning`, kept apart to keep the solver's work small.
- RustStr.Trim: its own contract states only that the ends are not whitespace and that the result is not longer; which text it is is stated by `RustStr.TrimSurrounded`, because a richer contract on the trimming functions makes every proof that uses them costly.
- RustStr.Split: its own contract states only that there is a piece; what the pieces are is stated by `RustStr.SplitPieces`, `RustStr.SplitFirstPiece`, `RustStr.SplitJoin` and `RustStr.SplitRunIsPiece`, for the same reason.
- RustStr.ByteSlice: its own contract states only bounds and length; which characters the slice holds is stated by `RustStr.ByteSliceAt` and `FontNames.CapitalSliceShape`.
- The command line (`clap`): only the default values of `--size`, `--bg-color` and `--fg-color` are used.
- FontNames.ShortFamilyName: `char::is_uppercase` is the parameter `upper`. The worked examples assume only that it holds for ASCII exactly on `A`-`Z` and does not hold for `é`.
- `SiaError` has only the variants the modelled code builds (`InvalidConfig`, `Parse` and `Message`); the others are not modelled.

## Findings

| source | as written | input that shows it | evidently intended | confidence | as-written member | corrected member |
|---|---|---|---|---|---|---|
| src/main.rs:400 | `end = i + j + d.len_utf8()`, where `j` counts from the end of the capital, not from `i` | `"FiraCode"` gives `"Fir"` | the capital word, `"Fira"` | not executed | FontNames.FiraCodeLosesLastLetter | FontNames.ProperNoun |
| src/main.rs:400-402 | the same offset, one capital-width short, lands inside a multi-byte last letter, and `&fam[i..end]` panics | `"Café"` panics | `"Café"` | not executed | FontNames.CafePanics | FontNames.ProperNoun |
| src/main.rs:206 | `unwrap_or(hex_code)` falls back to the untrimmed input | `" FFFFFF"` is refused, while `" #FFFFFF"` is accepted | the trimmed input, as with `#` | not executed | Colors.PaddedWithoutHash | Colors.TrimmedAcceptsPadding |

The short-name extraction is modelled as written:
`FontNames.ShortFamilyName` returns what the loop computes.
`FontNames.ProperNoun` is the corrected piece, and its contract states the
capital word. `FontNames.AsWrittenDropsLastLetter` relates the two on ASCII
text. For colours, `Colors.ParseRgba8Trimmed` is the corrected parser, with
`Colors.TrimmedIgnoresPadding` and `Colors.TrimmedAgrees` proved about it.
