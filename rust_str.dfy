/** The parts of Rust's `str` and `char` API that the program's parsers use.
    A Rust `&str` is UTF-8; here a string is a sequence of Unicode scalar
    values, and the byte offsets Rust works with (`len`, slicing,
    `char_indices`) are computed from each character's UTF-8 width. */
module RustStr {
  import opened Outcomes

  /** `char::len_utf8`. */
  function Utf8Width(c: char): (w: nat)
    ensures 1 <= w <= 4
    ensures w == 1 <==> c as int < 0x80
  {
    if c as int < 0x80 then 1
    else if c as int < 0x800 then 2
    else if c as int < 0x1_0000 then 3
    else 4
  }

  /** `str::len`: the length in bytes. */
  function ByteLen(s: string): nat
  {
    if s == [] then 0 else Utf8Width(s[0]) + ByteLen(s[1..])
  }

  predicate IsAscii(s: string)
  {
    forall k :: 0 <= k < |s| ==> s[k] as int < 0x80
  }

  lemma {:induction false} ByteLenConcat(a: string, b: string)
    ensures ByteLen(a + b) == ByteLen(a) + ByteLen(b)
  {
    if a == [] {
      assert a + b == b;
    } else {
      assert (a + b)[1..] == a[1..] + b;
      ByteLenConcat(a[1..], b);
    }
  }

  lemma {:induction false} ByteLenAtLeastLength(s: string)
    ensures |s| <= ByteLen(s)
  {
    if s != [] {
      ByteLenAtLeastLength(s[1..]);
    }
  }

  lemma {:induction false} AsciiByteLen(s: string)
    requires IsAscii(s)
    ensures ByteLen(s) == |s|
  {
    if s != [] {
      assert IsAscii(s[1..]);
      AsciiByteLen(s[1..]);
    }
  }

  /** The byte offset after `s[..a]` and after `s[..b]`, with the bytes in between. */
  lemma PrefixByteLen(s: string, a: nat, b: nat)
    requires a <= b <= |s|
    ensures ByteLen(s[..b]) == ByteLen(s[..a]) + ByteLen(s[a..b])
    ensures ByteLen(s[..a]) + (b - a) <= ByteLen(s[..b]) <= ByteLen(s)
  {
    assert s[..b] == s[..a] + s[a..b];
    ByteLenConcat(s[..a], s[a..b]);
    ByteLenAtLeastLength(s[a..b]);
    assert s == s[..b] + s[b..];
    ByteLenConcat(s[..b], s[b..]);
  }

  lemma PrefixByteLenStep(s: string, a: nat)
    requires a < |s|
    ensures ByteLen(s[..a + 1]) == ByteLen(s[..a]) + Utf8Width(s[a])
  {
    assert s[..a + 1] == s[..a] + [s[a]];
    ByteLenConcat(s[..a], [s[a]]);
  }

  /** The character index at which byte offset `off` starts, when `off` is a
      character boundary of `s` (`str::is_char_boundary`). */
  function BoundaryIndex(s: string, off: nat): (r: Option<nat>)
    ensures r.Some? ==> r.value <= |s| && ByteLen(s[..r.value]) == off
    decreases |s|
  {
    if off == 0 then Some(0)
    else if s == [] || off < Utf8Width(s[0]) then None
    else match BoundaryIndex(s[1..], off - Utf8Width(s[0]))
      case None => None
      case Some(a) =>
        assert s[..a + 1][1..] == s[1..][..a];
        Some(a + 1)
  }

  /** Every offset that ends a prefix is a boundary, at that prefix's length. */
  lemma {:induction false} BoundaryIndexAt(s: string, a: nat)
    requires a <= |s|
    ensures BoundaryIndex(s, ByteLen(s[..a])) == Some(a)
  {
    if a > 0 {
      assert s[..a][1..] == s[1..][..a - 1];
      BoundaryIndexAt(s[1..], a - 1);
    }
  }

  /** An offset strictly inside the encoding of `s[a]` is not a boundary. */
  lemma InsideCharIsNotBoundary(s: string, a: nat, off: nat)
    requires a < |s|
    requires ByteLen(s[..a]) < off < ByteLen(s[..a]) + Utf8Width(s[a])
    ensures BoundaryIndex(s, off) == None
  {
    PrefixByteLenStep(s, a);
    match BoundaryIndex(s, off)
    case None =>
    case Some(b) =>
      if b <= a {
        PrefixByteLen(s, b, a);
      } else {
        PrefixByteLen(s, a + 1, b);
      }
      assert false;
  }

  /** `&s[lo..hi]` with byte offsets: the characters between two character
      boundaries, or `None` where Rust panics (`lo > hi`, an offset past the
      end, or an offset inside a character). */
  function ByteSlice(s: string, lo: nat, hi: nat): (r: Option<string>)
    ensures r.Some? ==> lo <= hi <= ByteLen(s) && ByteLen(r.value) == hi - lo
  {
    match (BoundaryIndex(s, lo), BoundaryIndex(s, hi))
    case (Some(a), Some(b)) =>
      if a <= b then
        PrefixByteLen(s, a, b);
        Some(s[a..b])
      else
        None
    case _ => None
  }

  lemma ByteSliceAt(s: string, a: nat, b: nat)
    requires a <= b <= |s|
    ensures ByteSlice(s, ByteLen(s[..a]), ByteLen(s[..b])) == Some(s[a..b])
  {
    BoundaryIndexAt(s, a);
    BoundaryIndexAt(s, b);
  }

  /** On ASCII text byte offsets and character indices coincide. */
  lemma AsciiByteSlice(s: string, lo: nat, hi: nat)
    requires IsAscii(s) && lo <= hi <= |s|
    ensures ByteLen(s) == |s|
    ensures ByteSlice(s, lo, hi) == Some(s[lo..hi])
  {
    AsciiByteLen(s);
    assert IsAscii(s[..lo]) && IsAscii(s[..hi]);
    AsciiByteLen(s[..lo]);
    AsciiByteLen(s[..hi]);
    ByteSliceAt(s, lo, hi);
  }

  /** `char::is_whitespace`: the Unicode White_Space property. */
  predicate IsWhitespace(c: char)
  {
    var n := c as int;
    (0x09 <= n <= 0x0D) || n == 0x20 || n == 0x85 || n == 0xA0 || n == 0x1680
    || (0x2000 <= n <= 0x200A) || n == 0x2028 || n == 0x2029 || n == 0x202F
    || n == 0x205F || n == 0x3000
  }

  /** The characters `char::is_whitespace` accepts, as a set. Separators
      are sets of characters, and this one joins `','` and `'|'` in the
      language-list separators; `IsWhitespace` is kept for the trimming
      functions, whose proofs are cheaper with a predicate than with a
      25-element set. `WhitespaceIs` shows the two agree. */
  const Whitespace: set<char> := {
    '\U{0009}', '\U{000A}', '\U{000B}', '\U{000C}', '\U{000D}', '\U{0020}', '\U{0085}', '\U{00A0}',
    '\U{1680}', '\U{2000}', '\U{2001}', '\U{2002}', '\U{2003}', '\U{2004}', '\U{2005}', '\U{2006}',
    '\U{2007}', '\U{2008}', '\U{2009}', '\U{200A}', '\U{2028}', '\U{2029}', '\U{202F}', '\U{205F}',
    '\U{3000}'
  }

  lemma WhitespaceIs(c: char)
    ensures c in Whitespace <==> IsWhitespace(c)
  {
  }

  /** `u8::is_ascii_whitespace`, the separator of `str::split_ascii_whitespace`:
      space, tab, line feed, form feed and carriage return (not vertical tab). */
  const AsciiWhitespace: set<char> := {' ', '\t', '\n', '\U{000C}', '\r'}

  /** ASCII whitespace is the ASCII part of `char::is_whitespace` without
      the vertical tab. */
  lemma AsciiWhitespaceIs(c: char)
    ensures c in AsciiWhitespace <==> IsWhitespace(c) && c as int < 0x80 && c != '\U{000B}'
  {
  }

  predicate AllWhitespace(s: string)
  {
    forall k :: 0 <= k < |s| ==> IsWhitespace(s[k])
  }

  /** Neither end of `s` is whitespace: what `Trim` returns. */
  predicate IsTrimmed(s: string)
  {
    s == [] || (!IsWhitespace(s[0]) && !IsWhitespace(s[|s| - 1]))
  }

  /** `str::trim_start`. */
  function TrimStart(s: string): (r: string)
    ensures |r| <= |s|
    ensures r == [] || !IsWhitespace(r[0])
    ensures r != [] ==> r[|r| - 1] == s[|s| - 1]
    decreases |s|
  {
    if s != [] && IsWhitespace(s[0]) then TrimStart(s[1..]) else s
  }

  /** `str::trim_end`. */
  function TrimEnd(s: string): (r: string)
    ensures |r| <= |s|
    ensures r == [] || !IsWhitespace(r[|r| - 1])
    ensures r != [] ==> r[0] == s[0]
    decreases |s|
  {
    if s != [] && IsWhitespace(s[|s| - 1]) then TrimEnd(s[..|s| - 1]) else s
  }

  /** `str::trim`: drop the whitespace at both ends. */
  function Trim(s: string): (r: string)
    ensures IsTrimmed(r)
    ensures |r| <= |s|
  {
    TrimEnd(TrimStart(s))
  }

  /** Text without whitespace is its own trim. */
  lemma TrimWithoutWhitespace(s: string)
    requires forall k :: 0 <= k < |s| ==> !IsWhitespace(s[k])
    ensures Trim(s) == s
  {
    assert TrimStart(s) == s;
  }

  lemma {:induction false} TrimStartAfterWhitespace(w: string, y: string)
    requires AllWhitespace(w) && (y == [] || !IsWhitespace(y[0]))
    ensures TrimStart(w + y) == y
  {
    if w == [] {
      assert w + y == y;
    } else {
      assert (w + y)[1..] == w[1..] + y;
      TrimStartAfterWhitespace(w[1..], y);
    }
  }

  lemma {:induction false} TrimEndBeforeWhitespace(y: string, w: string)
    requires AllWhitespace(w) && (y == [] || !IsWhitespace(y[|y| - 1]))
    ensures TrimEnd(y + w) == y
  {
    if w == [] {
      assert y + w == y;
    } else {
      var n := |y + w|;
      assert (y + w)[n - 1] == w[|w| - 1];
      assert (y + w)[..n - 1] == y + w[..|w| - 1];
      TrimEndBeforeWhitespace(y, w[..|w| - 1]);
    }
  }

  /** `Trim` removes exactly the surrounding whitespace. */
  lemma TrimSurrounded(w1: string, x: string, w2: string)
    requires AllWhitespace(w1) && AllWhitespace(w2) && IsTrimmed(x)
    ensures Trim(w1 + x + w2) == x
  {
    assert w1 + x + w2 == w1 + (x + w2);
    if x == [] {
      assert AllWhitespace(w1 + w2);
      TrimStartAfterWhitespace(w1 + w2, []);
      assert w1 + w2 + [] == w1 + w2;
      assert w1 + x + w2 == w1 + w2 + [];
    } else {
      TrimStartAfterWhitespace(w1, x + w2);
      TrimEndBeforeWhitespace(x, w2);
    }
  }

  /** `Some(s[1..])` when `s` starts with `c`: `str::strip_prefix` with a char. */
  function StripPrefix(s: string, c: char): (r: Option<string>)
    ensures r.Some? <==> |s| > 0 && s[0] == c
    ensures r.Some? ==> [c] + r.value == s
  {
    if |s| > 0 && s[0] == c then Some(s[1..]) else None
  }

  /** The index of the first character in `cs`, or `|s|` when there is none. */
  function FirstIndex(s: string, cs: set<char>): (k: nat)
    ensures k <= |s|
    ensures forall t :: 0 <= t < k ==> s[t] !in cs
    ensures k < |s| ==> s[k] in cs
  {
    if s == [] || s[0] in cs then 0 else 1 + FirstIndex(s[1..], cs)
  }

  lemma FirstIndexIs(s: string, cs: set<char>, k: nat)
    requires k <= |s| && (k < |s| ==> s[k] in cs)
    requires forall t :: 0 <= t < k ==> s[t] !in cs
    ensures FirstIndex(s, cs) == k
  {
  }

  predicate SeparatorFree(s: string, seps: set<char>)
  {
    forall k :: 0 <= k < |s| ==> s[k] !in seps
  }

  /** `str::split` with a set of characters as the pattern: the pieces
      between separators, in order; always one more piece than there are
      separators, so never none. */
  function Split(s: string, seps: set<char>): (r: seq<string>)
    ensures |r| >= 1
    decreases |s|
  {
    var k := FirstIndex(s, seps);
    if k == |s| then [s] else [s[..k]] + Split(s[k + 1..], seps)
  }

  /** The first piece is the text before the first separator. */
  lemma SplitFirstPiece(s: string, seps: set<char>)
    ensures Split(s, seps)[0] == s[..FirstIndex(s, seps)]
  {
    if FirstIndex(s, seps) == |s| {
      assert s[..|s|] == s;
    }
  }

  lemma SplitSeparatorFree(s: string, seps: set<char>)
    requires SeparatorFree(s, seps)
    ensures Split(s, seps) == [s]
  {
    FirstIndexIs(s, seps, |s|);
  }

  /** Splitting `a + [c] + b` at a first separator `c` gives `a`, then the pieces of `b`. */
  lemma SplitAtFirst(a: string, c: char, b: string, seps: set<char>)
    requires SeparatorFree(a, seps) && c in seps
    ensures Split(a + [c] + b, seps) == [a] + Split(b, seps)
  {
    var s := a + [c] + b;
    assert s[|a|] == c;
    FirstIndexIs(s, seps, |a|);
    assert s[..|a|] == a;
    assert s[|a| + 1..] == b;
  }

  /** Splitting at a separator splits the text on each side apart. */
  lemma {:induction false} SplitJoin(a: string, c: char, b: string, seps: set<char>)
    requires c in seps
    ensures Split(a + [c] + b, seps) == Split(a, seps) + Split(b, seps)
    decreases |a|, 1
  {
    if FirstIndex(a, seps) == |a| {
      SplitAtFirst(a, c, b, seps);
      SplitSeparatorFree(a, seps);
    } else {
      SplitJoinPast(a, c, b, seps);
    }
  }

  /** `SplitJoin` when `a` holds a separator. */
  lemma {:induction false} SplitJoinPast(a: string, c: char, b: string, seps: set<char>)
    requires c in seps && FirstIndex(a, seps) < |a|
    ensures Split(a + [c] + b, seps) == Split(a, seps) + Split(b, seps)
    decreases |a|, 0
  {
    var a0, a1 := SplitPastFirst(a, c, b, seps);
    SplitJoin(a1, c, b, seps);
    ConcatAssoc([a0], Split(a1, seps), Split(b, seps));
  }

  lemma ConcatAssoc<T>(x: seq<T>, y: seq<T>, z: seq<T>)
    ensures x + (y + z) == (x + y) + z
  {
  }

  /** Past the first separator of `a`, with or without `[c] + b` after it. */
  lemma SplitPastFirst(a: string, c: char, b: string, seps: set<char>) returns (a0: string, a1: string)
    requires FirstIndex(a, seps) < |a|
    ensures |a1| < |a|
    ensures Split(a, seps) == [a0] + Split(a1, seps)
    ensures Split(a + [c] + b, seps) == [a0] + Split(a1 + [c] + b, seps)
  {
    var k := FirstIndex(a, seps);
    a0, a1 := a[..k], a[k + 1..];
    var d := a[k];
    assert SeparatorFree(a0, seps);
    assert a == a0 + [d] + a1;
    assert a + [c] + b == a0 + [d] + (a1 + [c] + b);
    SplitAtFirst(a0, d, a1, seps);
    SplitAtFirst(a0, d, a1 + [c] + b, seps);
  }

  /** `s[i..j]` is one piece of `s`: it holds no separator and is bounded by
      separators or by the ends of `s`. */
  predicate IsPiece(s: string, seps: set<char>, i: int, j: int)
  {
    && 0 <= i <= j <= |s|
    && (i == 0 || s[i - 1] in seps)
    && (j == |s| || s[j] in seps)
    && SeparatorFree(s[i..j], seps)
  }

  /** A piece of the text after a separator at `k` is a piece of the whole. */
  lemma ShiftPiece(s: string, seps: set<char>, k: nat, rest: string, i': int, j': int)
    returns (i: int, j: int)
    requires k < |s| && s[k] in seps && rest == s[k + 1..] && IsPiece(rest, seps, i', j')
    ensures i == i' + k + 1 && j == j' + k + 1
    ensures IsPiece(s, seps, i, j) && s[i..j] == rest[i'..j']
  {
    i, j := i' + k + 1, j' + k + 1;
    assert s[i..j] == rest[i'..j'];
  }

  /** `Split` past its first separator. */
  lemma SplitUnfold(s: string, seps: set<char>)
    requires FirstIndex(s, seps) < |s|
    ensures Split(s, seps) == [s[..FirstIndex(s, seps)]] + Split(s[FirstIndex(s, seps) + 1..], seps)
  {
  }

  /** A piece of `s` that starts after a separator at `k` is a piece of the rest. */
  lemma UnshiftPiece(s: string, seps: set<char>, k: nat, i: int, j: int)
    returns (rest: string, i': int, j': int)
    requires IsPiece(s, seps, i, j) && k < i && s[k] in seps
    ensures rest == s[k + 1..] && |rest| < |s| && i' == i - k - 1 && j' == j - k - 1
    ensures IsPiece(rest, seps, i', j') && rest[i'..j'] == s[i..j]
  {
    rest, i', j' := s[k + 1..], i - k - 1, j - k - 1;
    assert rest[i'..j'] == s[i..j];
  }

  /** Every piece `Split` yields is a maximal separator-free run of `s`,
      `s[i..j]`. */
  lemma {:induction false} SplitPieceIsRun(s: string, seps: set<char>, n: nat)
    returns (i: int, j: int)
    requires n < |Split(s, seps)|
    ensures IsPiece(s, seps, i, j) && s[i..j] == Split(s, seps)[n]
    decreases |s|, 1
  {
    if n == 0 {
      i, j := SplitFirstRun(s, seps);
    } else {
      i, j := SplitLaterRun(s, seps, n);
    }
  }

  /** A later piece is a piece of the text after the first separator,
      shifted past that separator. */
  lemma {:induction false} SplitLaterRun(s: string, seps: set<char>, n: nat)
    returns (i: int, j: int)
    requires 0 < n < |Split(s, seps)|
    ensures IsPiece(s, seps, i, j) && s[i..j] == Split(s, seps)[n]
    decreases |s|, 0
  {
    var k, rest := SplitLater(s, seps, n);
    var i', j' := SplitPieceIsRun(rest, seps, n - 1);
    i, j := ShiftPiece(s, seps, k, rest, i', j');
  }

  /** The first piece is the run before the first separator. */
  lemma SplitFirstRun(s: string, seps: set<char>) returns (i: int, j: int)
    ensures IsPiece(s, seps, i, j) && s[i..j] == Split(s, seps)[0]
  {
    var k := FirstIndex(s, seps);
    SplitFirstPiece(s, seps);
    i, j := 0, k;
    assert s[i..j] == s[..k];
  }

  /** A piece after the first one is a piece of the text after the first
      separator. */
  lemma SplitLater(s: string, seps: set<char>, n: nat) returns (k: nat, rest: string)
    requires 0 < n < |Split(s, seps)|
    ensures k < |s| && s[k] in seps && rest == s[k + 1..] && |rest| < |s|
    ensures n - 1 < |Split(rest, seps)| && Split(s, seps)[n] == Split(rest, seps)[n - 1]
  {
    k := FirstIndex(s, seps);
    assert k < |s|;
    rest := s[k + 1..];
    SplitUnfold(s, seps);
  }

  /** The only piece that starts before the first separator is the first one. */
  lemma FirstRun(s: string, seps: set<char>, i: int, j: int)
    requires IsPiece(s, seps, i, j) && i <= FirstIndex(s, seps)
    ensures i == 0 && j == FirstIndex(s, seps)
  {
    var k := FirstIndex(s, seps);
    assert i == 0;
    assert j == k;
  }

  /** The step of `SplitRunIsPiece` for a run after the first separator. */
  lemma SplitRunAfterFirst(s: string, seps: set<char>, k: nat, rest: string, p: string)
    requires k == FirstIndex(s, seps) && k < |s| && rest == s[k + 1..]
    requires p in Split(rest, seps)
    ensures p in Split(s, seps)
  {
    SplitUnfold(s, seps);
  }

  /** Every maximal separator-free run of `s` is one of the pieces `Split` yields. */
  lemma {:induction false} SplitRunIsPiece(s: string, seps: set<char>, i: int, j: int)
    requires IsPiece(s, seps, i, j)
    ensures s[i..j] in Split(s, seps)
    decreases |s|, 1
  {
    if i <= FirstIndex(s, seps) {
      FirstRun(s, seps, i, j);
      SplitFirstPiece(s, seps);
    } else {
      SplitLaterRunIsPiece(s, seps, i, j);
    }
  }

  /** A run after the first separator is a run of the rest of the text. */
  lemma {:induction false} SplitLaterRunIsPiece(s: string, seps: set<char>, i: int, j: int)
    requires IsPiece(s, seps, i, j) && FirstIndex(s, seps) < i
    ensures s[i..j] in Split(s, seps)
    decreases |s|, 0
  {
    var k := FirstIndex(s, seps);
    var rest, i', j' := UnshiftPiece(s, seps, k, i, j);
    SplitRunIsPiece(rest, seps, i', j');
    SplitRunAfterFirst(s, seps, k, rest, s[i..j]);
  }

  /** `Split` yields exactly the maximal separator-free runs of `s`. */
  lemma SplitPieces(s: string, seps: set<char>, p: string)
    ensures p in Split(s, seps) <==> exists i, j :: IsPiece(s, seps, i, j) && s[i..j] == p
  {
    if p in Split(s, seps) {
      var n :| 0 <= n < |Split(s, seps)| && Split(s, seps)[n] == p;
      var i, j := SplitPieceIsRun(s, seps, n);
    }
    if exists i, j :: IsPiece(s, seps, i, j) && s[i..j] == p {
      var i, j :| IsPiece(s, seps, i, j) && s[i..j] == p;
      SplitRunIsPiece(s, seps, i, j);
    }
  }

  /** Where a piece `Split` yields lies in `s`. */
  lemma PieceRun(s: string, seps: set<char>, p: string) returns (i: int, j: int)
    requires p in Split(s, seps)
    ensures IsPiece(s, seps, i, j) && s[i..j] == p
  {
    var n :| 0 <= n < |Split(s, seps)| && Split(s, seps)[n] == p;
    i, j := SplitPieceIsRun(s, seps, n);
  }

  /** No piece holds a separator. */
  lemma PiecesSeparatorFree(s: string, seps: set<char>)
    ensures forall p :: p in Split(s, seps) ==> SeparatorFree(p, seps)
  {
    forall p | p in Split(s, seps)
      ensures SeparatorFree(p, seps)
    {
      SplitPieces(s, seps, p);
    }
  }

  /** The non-empty pieces, in order (`.filter(|s| !s.is_empty())`). */
  function NonEmpty(pieces: seq<string>): (r: seq<string>)
    ensures forall i :: 0 <= i < |r| ==> r[i] != []
    ensures forall p :: p in r <==> p in pieces && p != []
    ensures pieces != [] && pieces[0] != [] ==> r != [] && r[0] == pieces[0]
  {
    if pieces == [] then []
    else if pieces[0] == [] then NonEmpty(pieces[1..])
    else [pieces[0]] + NonEmpty(pieces[1..])
  }

  /** `str::split_ascii_whitespace`: the non-empty runs between ASCII whitespace. */
  function AsciiWords(s: string): (r: seq<string>)
    ensures forall i :: 0 <= i < |r| ==> r[i] != [] && SeparatorFree(r[i], AsciiWhitespace)
    ensures s != [] && s[0] !in AsciiWhitespace ==>
              r != [] && r[0] == s[..FirstIndex(s, AsciiWhitespace)]
  {
    var pieces := Split(s, AsciiWhitespace);
    SplitFirstPiece(s, AsciiWhitespace);
    PiecesSeparatorFree(s, AsciiWhitespace);
    var words := NonEmpty(pieces);
    assert forall i :: 0 <= i < |words| ==> words[i] in pieces;
    words
  }

  predicate EndsWith(s: string, suffix: string)
  {
    |suffix| <= |s| && s[|s| - |suffix|..] == suffix
  }

  /** `str::trim_end_matches` with a string pattern: strip `pat` off the end
      for as long as `s` ends with it. */
  function TrimEndMatches(s: string, pat: string): (r: string)
    ensures |r| <= |s| && r == s[..|r|]
    ensures pat != [] ==> !EndsWith(r, pat)
    ensures pat != [] && !EndsWith(s, pat) ==> r == s
    decreases |s|
  {
    if pat != [] && EndsWith(s, pat) then TrimEndMatches(s[..|s| - |pat|], pat) else s
  }

  lemma TrimEndMatchesAppend(s: string, pat: string)
    ensures TrimEndMatches(s + pat, pat) == TrimEndMatches(s, pat)
  {
    if pat != [] {
      assert EndsWith(s + pat, pat);
      assert (s + pat)[..|s + pat| - |pat|] == s;
    } else {
      assert s + pat == s;
    }
  }
}
