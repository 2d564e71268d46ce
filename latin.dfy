/** The language test of `detect_latin_support` (src/main.rs): does the
    language list `fc-scan --format %{lang}` prints for a font name a
    language written in the Latin alphabet? */
module Latin {
  import opened RustStr

  /** `LATIN_CODES`, in the order src/main.rs lists them. */
  const LatinCodes: seq<string> := [
    "aa", "af", "ay", "bi", "br", "bs", "ca", "ch", "co", "cs", "cy", "da", "de", "en", "eo",
    "es", "et", "eu", "fi", "fj", "fo", "fr", "fur", "fy", "gd", "gl", "gv", "ho", "hr", "hu",
    "ia", "id", "ie", "io", "is", "it", "ki", "kl", "la", "lb", "lt", "lv", "mg", "mh", "mt",
    "nb", "nds", "nl", "nn", "no", "nr", "nso", "ny", "oc", "om", "pl", "pt", "rm", "ro", "se",
    "sk", "sl", "sma", "smj", "smn", "so", "sq", "ss", "st", "sv", "sw", "tk", "tl", "tn",
    "tr", "ts", "uz", "vo", "vot", "wa", "wen", "wo", "xh", "yap", "zu", "an", "crh", "csb",
    "fil", "hsb", "ht", "jv", "kj", "ku-tr", "kwm", "lg", "li", "ms", "na", "ng", "pap-an",
    "pap-aw", "rn", "rw", "sc", "sg", "sn", "su", "ty", "za", "agr", "ayc", "bem", "dsb",
    "lij", "mfe", "mjw", "nhn", "niu", "sgs", "szl", "tpi", "unm", "wae", "yuw"
  ]

  /** The list holds 125 codes. */
  lemma LatinCodesCount()
    ensures |LatinCodes| == 125
  {
  }

  /** The separators of the language list: `,`, `|` and `char::is_whitespace`. */
  const LangSeps: set<char> := {',', '|'} + Whitespace

  /** `<[&str]>::contains`: a linear search of `codes` for `code`. It is
      kept apart from `in` because the solver unfolds a recursive search more
      cheaply than a membership test on a long sequence display;
      `ContainsIsIn` shows the two agree. */
  predicate Contains(codes: seq<string>, code: string)
  {
    codes != [] && (codes[0] == code || Contains(codes[1..], code))
  }

  /** The search finds exactly the members of `codes`. */
  lemma {:induction false} ContainsIsIn(codes: seq<string>, code: string)
    ensures Contains(codes, code) <==> code in codes
  {
    if codes != [] {
      ContainsIsIn(codes[1..], code);
      assert codes == [codes[0]] + codes[1..];
    }
  }

  /** A token the loop accepts: non-empty after `str::trim`, and one of `codes`. */
  predicate IsCodeToken(piece: string, codes: seq<string>)
  {
    Trim(piece) != [] && Contains(codes, Trim(piece))
  }

  /** One of the pieces of `langs.split(..)` is, once trimmed, a
      non-empty member of `codes`. */
  predicate DeclaresOneOf(langs: string, codes: seq<string>)
  {
    exists p :: p in Split(langs, LangSeps) && IsCodeToken(p, codes)
  }

  /** The language list names a Latin language. */
  predicate DeclaresLatin(langs: string)
  {
    DeclaresOneOf(langs, LatinCodes)
  }

  /** The token loop of `detect_latin_support`: split, trim, skip empty
      tokens, and return `true` at the first Latin code. */
  method DetectLatinSupport(langs: string) returns (found: bool)
    ensures found <==> DeclaresLatin(langs)
  {
    found := MatchAnyCode(langs, LatinCodes);
  }

  /** `detect_latin_support` for a given code list (`LATIN_CODES` in
      src/main.rs): the tokens of `langs`, searched in order. */
  method MatchAnyCode(langs: string, codes: seq<string>) returns (found: bool)
    ensures found <==> DeclaresOneOf(langs, codes)
  {
    found := AnyCodeToken(Split(langs, LangSeps), codes);
  }

  /** The `for` loop over the pieces: trim each, skip the empty ones, and
      stop with `true` at the first one `codes.contains`. */
  method AnyCodeToken(pieces: seq<string>, codes: seq<string>) returns (found: bool)
    ensures found <==> exists p :: p in pieces && IsCodeToken(p, codes)
  {
    var n := 0;
    while n < |pieces|
      invariant 0 <= n <= |pieces|
      invariant !AnyAccepted(pieces[..n], codes)
    {
      var code := Trim(pieces[n]);
      if code != [] && Contains(codes, code) {
        assert pieces[n] in pieces;
        return true;
      }
      assert pieces[..n + 1][..n] == pieces[..n];
      n := n + 1;
    }
    assert pieces[..n] == pieces;
    AnyAcceptedMeaning(pieces, codes);
    return false;
  }

  /** Some piece of `pieces` is an accepted token, looking from the last. */
  predicate AnyAccepted(pieces: seq<string>, codes: seq<string>)
  {
    pieces != [] && (AnyAccepted(pieces[..|pieces| - 1], codes) || IsCodeToken(pieces[|pieces| - 1], codes))
  }

  lemma {:induction false} AnyAcceptedMeaning(pieces: seq<string>, codes: seq<string>)
    ensures AnyAccepted(pieces, codes) <==> exists p :: p in pieces && IsCodeToken(p, codes)
  {
    if pieces != [] {
      var init, last := pieces[..|pieces| - 1], pieces[|pieces| - 1];
      AnyAcceptedMeaning(init, codes);
      assert pieces == init + [last];
      assert forall p :: p in pieces <==> p in init || p == last;
    }
  }

  /** Whitespace separates, so no piece holds whitespace and trimming it
      changes nothing. */
  lemma PieceIsTrimmed(s: string, seps: set<char>, i: int, j: int)
    requires Whitespace <= seps && IsPiece(s, seps, i, j)
    ensures Trim(s[i..j]) == s[i..j]
  {
    var p := s[i..j];
    forall k | 0 <= k < |p|
      ensures !IsWhitespace(p[k])
    {
      WhitespaceIs(p[k]);
    }
    TrimWithoutWhitespace(p);
  }

  lemma LangSepsHoldWhitespace()
    ensures Whitespace <= LangSeps
  {
  }

  /** Without `split`: the list names one of `codes` exactly when some
      non-empty maximal run of non-separators in it is one. */
  lemma DeclaresOneOfMeaning(langs: string, codes: seq<string>)
    ensures DeclaresOneOf(langs, codes) <==>
      exists i, j :: IsPiece(langs, LangSeps, i, j) && i < j && langs[i..j] in codes
  {
    LangSepsHoldWhitespace();
    if DeclaresOneOf(langs, codes) {
      var p :| p in Split(langs, LangSeps) && IsCodeToken(p, codes);
      var i, j := TokenIsRun(langs, LangSeps, codes, p);
    }
    if exists i, j :: IsPiece(langs, LangSeps, i, j) && i < j && langs[i..j] in codes {
      var i, j :| IsPiece(langs, LangSeps, i, j) && i < j && langs[i..j] in codes;
      RunIsToken(langs, LangSeps, codes, i, j);
    }
  }

  /** An accepted token is a non-empty run that is a code. */
  lemma TokenIsRun(s: string, seps: set<char>, codes: seq<string>, p: string) returns (i: int, j: int)
    requires Whitespace <= seps && p in Split(s, seps) && IsCodeToken(p, codes)
    ensures IsPiece(s, seps, i, j) && i < j && s[i..j] in codes
  {
    i, j := PieceRun(s, seps, p);
    PieceIsTrimmed(s, seps, i, j);
    TrimmedToken(p, codes);
  }

  /** An accepted token that trimming leaves alone is itself a non-empty code. */
  lemma TrimmedToken(p: string, codes: seq<string>)
    requires IsCodeToken(p, codes) && Trim(p) == p
    ensures p != [] && p in codes
  {
    ContainsIsIn(codes, p);
  }

  /** A non-empty run that is a code is a token the loop accepts. */
  lemma RunIsToken(s: string, seps: set<char>, codes: seq<string>, i: int, j: int)
    requires Whitespace <= seps && IsPiece(s, seps, i, j) && i < j && s[i..j] in codes
    ensures s[i..j] in Split(s, seps) && IsCodeToken(s[i..j], codes)
  {
    SplitRunIsPiece(s, seps, i, j);
    PieceIsTrimmed(s, seps, i, j);
    ContainsIsIn(codes, s[i..j]);
  }

  /** The list declares a Latin language exactly when some non-empty
      maximal run of non-separators in it is a Latin code. */
  lemma DeclaresLatinMeaning(langs: string)
    ensures DeclaresLatin(langs) <==>
      exists i, j :: IsPiece(langs, LangSeps, i, j) && i < j && langs[i..j] in LatinCodes
  {
    DeclaresOneOfMeaning(langs, LatinCodes);
  }

  /** Two lists joined by a separator name one of `codes` exactly when one
      of them does. */
  lemma DeclaresOneOfJoin(a: string, c: char, b: string, codes: seq<string>)
    requires c in LangSeps
    ensures DeclaresOneOf(a + [c] + b, codes) <==> DeclaresOneOf(a, codes) || DeclaresOneOf(b, codes)
  {
    SplitJoin(a, c, b, LangSeps);
    var pa, pb := Split(a, LangSeps), Split(b, LangSeps);
    assert forall p :: p in pa + pb <==> p in pa || p in pb;
  }
}
