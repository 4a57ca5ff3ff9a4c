/**
 * String primitives of Rust's `str` that the modelled code relies on: UTF-8 byte
 * lengths and byte-offset slicing, `char::is_whitespace`, `trim`, `trim_end_matches`,
 * `split_whitespace().count()`, `split(char)`, `find`, and decimal formatting.
 * Strings are sequences of Unicode scalar values; byte lengths are computed.
 */
module Text {
  import opened Wrappers

  // ---------------------------------------------------------------- UTF-8

  /** Number of bytes in the UTF-8 encoding of one scalar value. */
  function Utf8Width(c: char): (w: nat)
    ensures 1 <= w <= 4
  {
    var n := c as int;
    if n < 0x80 then 1 else if n < 0x800 then 2 else if n < 0x1_0000 then 3 else 4
  }

  /** Rust's `str::len`: the byte length of the UTF-8 encoding. */
  function Utf8Len(s: string): nat
  {
    if s == [] then 0 else Utf8Width(s[0]) + Utf8Len(s[1..])
  }

  predicate IsAscii(c: char)
  {
    (c as int) < 0x80
  }

  lemma {:induction false} Utf8LenAppend(a: string, b: string)
    ensures Utf8Len(a + b) == Utf8Len(a) + Utf8Len(b)
  {
    if a == [] {
      assert a + b == b;
    } else {
      assert (a + b)[1..] == a[1..] + b;
      Utf8LenAppend(a[1..], b);
    }
  }

  /** The byte length is never below the char count, and equals it exactly for ASCII text. */
  lemma {:induction false} Utf8LenAtLeastLength(s: string)
    ensures Utf8Len(s) >= |s|
    ensures Utf8Len(s) == |s| <==> forall i :: 0 <= i < |s| ==> IsAscii(s[i])
  {
    if s != [] {
      Utf8LenAtLeastLength(s[1..]);
      assert forall i :: 1 <= i < |s| ==> s[i] == s[1..][i - 1];
      if Utf8Len(s) == |s| {
        assert Utf8Width(s[0]) == 1;
        forall i | 0 <= i < |s| ensures IsAscii(s[i]) {
          if i > 0 { assert s[i] == s[1..][i - 1]; }
        }
      }
    }
  }

  /** The char position that byte offset `b` falls on. */
  function CharIndexOf(s: string, b: nat): (k: nat)
    ensures k <= |s|
  {
    if s == [] || b < Utf8Width(s[0]) then 0 else 1 + CharIndexOf(s[1..], b - Utf8Width(s[0]))
  }

  /** Byte offsets computed from a char prefix map back to that char position. */
  lemma {:induction false} CharIndexOfPrefix(s: string, k: nat)
    requires k <= |s|
    ensures CharIndexOf(s, Utf8Len(s[..k])) == k
  {
    if k == 0 {
      assert s[..0] == [];
    } else {
      assert s[..k][1..] == s[1..][..k - 1];
      CharIndexOfPrefix(s[1..], k - 1);
    }
  }

  /** Rust's `&s[from..]` for a byte offset `from` on a char boundary. */
  function SliceFrom(s: string, from: nat): string
  {
    s[CharIndexOf(s, from)..]
  }

  // ----------------------------------------------------------- whitespace

  /** Rust's `char::is_whitespace`: the Unicode White_Space property. */
  predicate IsWhitespace(c: char)
  {
    var n := c as int;
    (0x09 <= n <= 0x0D) || n == 0x20 || n == 0x85 || n == 0xA0 || n == 0x1680
    || (0x2000 <= n <= 0x200A) || n == 0x2028 || n == 0x2029 || n == 0x202F
    || n == 0x205F || n == 0x3000
  }

  /** `trim_start`: the suffix left after dropping every leading whitespace char. */
  function TrimStart(s: string): string
  {
    if s == [] || !IsWhitespace(s[0]) then s else TrimStart(s[1..])
  }

  /** What `trim_start` keeps is a suffix, and what it drops is whitespace, up to a non-whitespace char. */
  lemma {:induction false} TrimStartFacts(s: string)
    ensures var r := TrimStart(s);
      && |r| <= |s| && r == s[|s| - |r|..]
      && (forall i :: 0 <= i < |s| - |r| ==> IsWhitespace(s[i]))
      && (r == [] || !IsWhitespace(r[0]))
  {
    if s != [] && IsWhitespace(s[0]) {
      TrimStartFacts(s[1..]);
      var r := TrimStart(s);
      assert forall i :: 1 <= i < |s| ==> s[i] == s[1..][i - 1];
    }
  }

  /** `trim_end`: the prefix left after dropping every trailing whitespace char. */
  function TrimEnd(s: string): string
  {
    if s == [] || !IsWhitespace(s[|s| - 1]) then s else TrimEnd(s[..|s| - 1])
  }

  /** What `trim_end` keeps is a prefix, and what it drops is whitespace, back to a non-whitespace char. */
  lemma {:induction false} TrimEndFacts(s: string)
    ensures var r := TrimEnd(s);
      && |r| <= |s| && r == s[..|r|]
      && (forall i :: |r| <= i < |s| ==> IsWhitespace(s[i]))
      && (r == [] || !IsWhitespace(r[|r| - 1]))
  {
    if s != [] && IsWhitespace(s[|s| - 1]) {
      TrimEndFacts(s[..|s| - 1]);
      var r := TrimEnd(s);
      assert s[..|s| - 1][..|r|] == s[..|r|];
    }
  }

  /** `str::trim`. */
  function Trim(s: string): string
  {
    TrimEnd(TrimStart(s))
  }

  predicate EndsWith(s: string, pat: string)
  {
    |pat| <= |s| && s[|s| - |pat|..] == pat
  }

  /** `t` is zero or more copies of `pat` laid end to end. */
  predicate Repeats(t: string, pat: string)
    requires pat != []
    decreases |t|
  {
    t == [] || (EndsWith(t, pat) && Repeats(t[..|t| - |pat|], pat))
  }

  /** `trim_end_matches(pat)`: strips every trailing copy of `pat`. */
  function TrimEndMatches(s: string, pat: string): string
    requires pat != []
    decreases |s|
  {
    if EndsWith(s, pat) then TrimEndMatches(s[..|s| - |pat|], pat) else s
  }

  /**
   * The result of `trim_end_matches` is a prefix of `s` that no longer ends with `pat`,
   * and what was cut is copies of `pat`.
   */
  lemma {:induction false} TrimEndMatchesFacts(s: string, pat: string)
    requires pat != []
    ensures var r := TrimEndMatches(s, pat);
      && |r| <= |s| && r == s[..|r|]
      && !EndsWith(r, pat)
      && Repeats(s[|r|..], pat)
    decreases |s|
  {
    if EndsWith(s, pat) {
      var shorter := s[..|s| - |pat|];
      TrimEndMatchesFacts(shorter, pat);
      CutOneMore(s, pat, |TrimEndMatches(shorter, pat)|);
    } else {
      assert s[|s|..] == [];
    }
  }

  /** A cut of copies of `pat` from `s` minus its last copy is a cut of copies from `s`. */
  lemma CutOneMore(s: string, pat: string, n: nat)
    requires pat != [] && EndsWith(s, pat) && n <= |s| - |pat|
    requires Repeats(s[..|s| - |pat|][n..], pat)
    ensures s[..|s| - |pat|][..n] == s[..n]
    ensures Repeats(s[n..], pat)
  {
    CutSlices(s, pat, n);
    RepeatsThenOneMore(s[..|s| - |pat|][n..], pat);
  }

  /** Helper for `CutOneMore`: the slices of `s` around its last copy of `pat`. */
  lemma CutSlices(s: string, pat: string, n: nat)
    requires EndsWith(s, pat) && n <= |s| - |pat|
    ensures s[..|s| - |pat|][..n] == s[..n]
    ensures s[n..] == s[..|s| - |pat|][n..] + pat
  {
    assert s[|s| - |pat|..] == pat;
  }

  /** Copies of `pat` followed by one more copy are copies of `pat`. */
  lemma RepeatsThenOneMore(t: string, pat: string)
    requires pat != [] && Repeats(t, pat)
    ensures Repeats(t + pat, pat)
  {
    var u := t + pat;
    assert u[..|u| - |pat|] == t;
    assert u[|u| - |pat|..] == pat;
  }

  /** `split_whitespace().count()`: the number of maximal runs of non-whitespace. */
  function WordCount(s: string): nat
  {
    WordsAfter(s, true)
  }

  function WordsAfter(s: string, afterSpace: bool): nat
  {
    if s == [] then 0
    else (if afterSpace && !IsWhitespace(s[0]) then 1 else 0) + WordsAfter(s[1..], IsWhitespace(s[0]))
  }

  /** A text has no words exactly when it is all whitespace. */
  lemma {:induction false} WordCountZero(s: string, afterSpace: bool)
    requires afterSpace
    ensures WordsAfter(s, afterSpace) == 0 <==> forall i :: 0 <= i < |s| ==> IsWhitespace(s[i])
  {
    if s != [] {
      assert forall i :: 1 <= i < |s| ==> s[i] == s[1..][i - 1];
      if IsWhitespace(s[0]) {
        WordCountZero(s[1..], true);
      }
    }
  }

  /** A text has at most as many words as chars. */
  lemma {:induction false} WordsAtMostLength(s: string, afterSpace: bool)
    ensures WordsAfter(s, afterSpace) <= |s|
  {
    if s != [] {
      WordsAtMostLength(s[1..], IsWhitespace(s[0]));
    }
  }

  /** The words of a concatenation: the second part is read in the state the first ends in. */
  lemma {:induction false} WordsAfterAppend(a: string, b: string, afterSpace: bool)
    ensures WordsAfter(a + b, afterSpace) ==
      WordsAfter(a, afterSpace) + WordsAfter(b, if a == [] then afterSpace else IsWhitespace(a[|a| - 1]))
  {
    if a == [] {
      assert a + b == b;
    } else {
      assert (a + b)[0] == a[0] && (a + b)[1..] == a[1..] + b;
      WordsAfterAppend(a[1..], b, IsWhitespace(a[0]));
      if |a| > 1 {
        assert a[1..][|a| - 2] == a[|a| - 1];
      }
    }
  }

  /** A nonempty run of non-whitespace is one word, counted when it follows whitespace. */
  lemma {:induction false} WordsOfWord(w: string, afterSpace: bool)
    requires w != [] && forall i :: 0 <= i < |w| ==> !IsWhitespace(w[i])
    ensures WordsAfter(w, afterSpace) == if afterSpace then 1 else 0
  {
    if |w| > 1 {
      assert forall i :: 0 <= i < |w| - 1 ==> w[1..][i] == w[i + 1];
      WordsOfWord(w[1..], false);
    }
  }

  /** A nonempty run of printable ASCII chars other than the space. */
  ghost predicate VisibleWord(w: string)
  {
    w != [] && forall i :: 0 <= i < |w| ==> '!' <= w[i] <= '~'
  }

  /** One visible word followed by one space. */
  ghost predicate WordThenSpace(c: string)
  {
    && 2 <= |c| && c[|c| - 1] == ' '
    && forall i :: 0 <= i < |c| - 1 ==> '!' <= c[i] <= '~'
  }

  /** Appending one word and the space after it, behind whitespace, adds one word. */
  lemma WordAndSpace(p: string, c: string)
    requires p == [] || IsWhitespace(p[|p| - 1])
    requires WordThenSpace(c)
    ensures WordCount(p + c) == WordCount(p) + 1
    ensures IsWhitespace((p + c)[|p + c| - 1])
  {
    var w := c[..|c| - 1];
    assert c == w + [c[|c| - 1]];
    WordsAfterAppend(p, c, true);
    WordsAfterAppend(w, [c[|c| - 1]], true);
    WordsOfWord(w, true);
  }

  /** Four words, each followed by a space, behind whitespace, add four words. */
  lemma FourWords(p: string, a: string, b: string, c: string, d: string)
    requires p == [] || IsWhitespace(p[|p| - 1])
    requires WordThenSpace(a) && WordThenSpace(b) && WordThenSpace(c) && WordThenSpace(d)
    ensures WordCount(p + a + b + c + d) == WordCount(p) + 4
    ensures IsWhitespace((p + a + b + c + d)[|p + a + b + c + d| - 1])
  {
    WordAndSpace(p, a);
    WordAndSpace(p + a, b);
    WordAndSpace(p + a + b, c);
    WordAndSpace(p + a + b + c, d);
  }

  /** A visible word is one word. */
  lemma OneWord(w: string)
    requires VisibleWord(w)
    ensures WordCount(w) == 1
  {
    WordsOfWord(w, true);
  }

  /** A visible word and a space are one word. */
  lemma OneWordThenSpace(c: string)
    requires WordThenSpace(c)
    ensures WordCount(c) == 1 && IsWhitespace(c[|c| - 1])
  {
    assert [] + c == c;
    WordAndSpace([], c);
  }

  /** Four words, each followed by a space, are four words. */
  lemma FourWordsAlone(a: string, b: string, c: string, d: string)
    requires WordThenSpace(a) && WordThenSpace(b) && WordThenSpace(c) && WordThenSpace(d)
    ensures WordCount(a + b + c + d) == 4
    ensures IsWhitespace((a + b + c + d)[|a + b + c + d| - 1])
  {
    OneWordThenSpace(a);
    WordAndSpace(a, b);
    WordAndSpace(a + b, c);
    WordAndSpace(a + b + c, d);
  }

  /** Appending a final word, behind whitespace, adds one word. */
  lemma LastWord(p: string, w: string)
    requires p == [] || IsWhitespace(p[|p| - 1])
    requires VisibleWord(w)
    ensures WordCount(p + w) == WordCount(p) + 1
  {
    WordsAfterAppend(p, w, true);
    WordsOfWord(w, true);
  }

  // ---------------------------------------------------------------- split

  /** Index of the first `c` in `s`. */
  function IndexOf(s: string, c: char): (r: Option<nat>)
    ensures r.Some? ==> r.value < |s| && s[r.value] == c && c !in s[..r.value]
    ensures r.None? <==> c !in s
  {
    if s == [] then None
    else if s[0] == c then Some(0)
    else match IndexOf(s[1..], c)
      case None => None
      case Some(i) =>
        assert s[..i + 1] == [s[0]] + s[1..][..i];
        Some(i + 1)
  }

  /** Rust's `str::split(c)`, collected: always at least one piece, none containing `c`. */
  function Split(s: string, sep: char): (parts: seq<string>)
    ensures |parts| >= 1
    ensures forall i :: 0 <= i < |parts| ==> sep !in parts[i]
    decreases |s|
  {
    match IndexOf(s, sep)
    case None => [s]
    case Some(i) => [s[..i]] + Split(s[i + 1..], sep)
  }

  /** The pieces laid back together with the separator between them. */
  function Join(parts: seq<string>, sep: char): string
  {
    if |parts| == 0 then []
    else if |parts| == 1 then parts[0]
    else parts[0] + [sep] + Join(parts[1..], sep)
  }

  /** Splitting loses nothing: joining the pieces gives back the input. */
  lemma {:induction false} JoinSplit(s: string, sep: char)
    ensures Join(Split(s, sep), sep) == s
    decreases |s|
  {
    match IndexOf(s, sep)
    case None =>
    case Some(i) =>
      var rest := Split(s[i + 1..], sep);
      assert Split(s, sep) == [s[..i]] + rest;
      assert ([s[..i]] + rest)[1..] == rest;
      JoinSplit(s[i + 1..], sep);
      assert s == s[..i] + [sep] + s[i + 1..];
  }

  /** Pieces free of the separator are recovered exactly by splitting their join. */
  lemma {:induction false} SplitJoin(parts: seq<string>, sep: char)
    requires |parts| >= 1
    requires forall i :: 0 <= i < |parts| ==> sep !in parts[i]
    ensures Split(Join(parts, sep), sep) == parts
  {
    if |parts| == 1 {
      assert IndexOf(parts[0], sep).None?;
    } else {
      var p0 := parts[0];
      var rest := Join(parts[1..], sep);
      var s := p0 + [sep] + rest;
      assert s == Join(parts, sep);
      assert s[|p0|] == sep;
      var r := IndexOf(s, sep);
      assert r.Some? by { assert sep in s; }
      var i := r.value;
      assert s[..i] == p0;
      assert s[i + 1..] == rest;
      SplitJoin(parts[1..], sep);
    }
  }

  // ----------------------------------------------------------------- find

  /** `pat` occurs in `s` starting at char position `k`. */
  predicate OccursAt(s: string, pat: string, k: nat)
  {
    k + |pat| <= |s| && s[k..k + |pat|] == pat
  }

  /** Rust's `str::find(pat)` from char position `j` on: the first occurrence. */
  function FindFrom(s: string, pat: string, j: nat): (r: Option<nat>)
    requires j <= |s|
    ensures r.Some? ==> j <= r.value && OccursAt(s, pat, r.value)
    ensures r.Some? ==> forall k :: j <= k < r.value ==> !OccursAt(s, pat, k)
    ensures r.None? ==> forall k :: j <= k ==> !OccursAt(s, pat, k)
    decreases |s| - j
  {
    if j + |pat| > |s| then None
    else if s[j..j + |pat|] == pat then Some(j)
    else FindFrom(s, pat, j + 1)
  }

  // -------------------------------------------------------------- decimal

  predicate IsDigit(c: char)
  {
    '0' <= c <= '9'
  }

  function DigitChar(d: nat): (c: char)
    requires d < 10
    ensures IsDigit(c) && (c as int) - ('0' as int) == d
  {
    (('0' as int) + d) as char
  }

  /** Rust's `Display` for an unsigned integer: decimal digits, no leading zero. */
  function NatToDecimal(n: nat): (s: string)
    ensures |s| >= 1
    ensures forall i :: 0 <= i < |s| ==> IsDigit(s[i])
  {
    if n < 10 then [DigitChar(n)] else NatToDecimal(n / 10) + [DigitChar(n % 10)]
  }

  /** The number a string of decimal digits denotes. */
  function DecimalValue(s: string): nat
    requires forall i :: 0 <= i < |s| ==> IsDigit(s[i])
  {
    if s == [] then 0
    else
      assert IsDigit(s[|s| - 1]);
      DecimalValue(s[..|s| - 1]) * 10 + ((s[|s| - 1] as int) - ('0' as int))
  }

  /** Reading back the printed digits gives the number. */
  lemma {:induction false} DecimalRoundTrip(n: nat)
    ensures DecimalValue(NatToDecimal(n)) == n
  {
    var s := NatToDecimal(n);
    if n >= 10 {
      assert s[..|s| - 1] == NatToDecimal(n / 10);
      DecimalRoundTrip(n / 10);
    }
  }
}
