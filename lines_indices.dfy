/**
 * `LinesIndices`: an iterator over the newline-terminated lines of a string that
 * yields each line together with the byte offset it starts at. It drives a
 * `CharIndices` cursor forward to the next `'\n'`; a trailing line without a
 * newline is never yielded.
 */
module LinesIndices {
  import opened Wrappers
  import opened Text

  /** One yielded item: the line's starting byte offset and the line without its newline. */
  type Line = (nat, string)

  /** No newline among the chars at positions `a` up to `b`. */
  predicate NoNewline(s: string, a: nat, b: nat)
    requires a <= b <= |s|
  {
    forall i :: a <= i < b ==> s[i] != '\n'
  }

  /**
   * The items still to be yielded when the current line began at char position `p`
   * and the scan for its newline has reached `q`: one item per newline at or after
   * `q`, each carrying the byte offset of its line's first char.
   */
  function ScanLines(s: string, p: nat, q: nat): seq<Line>
    requires p <= q <= |s|
    decreases |s| - q
  {
    if q == |s| then []
    else if s[q] == '\n' then [(Utf8Len(s[..p]), s[p..q])] + ScanLines(s, q + 1, q + 1)
    else ScanLines(s, p, q + 1)
  }

  /** Everything `LinesIndices::new(s)` yields. */
  function Lines(s: string): seq<Line>
  {
    ScanLines(s, 0, 0)
  }

  function Texts(lines: seq<Line>): (r: seq<string>)
    ensures |r| == |lines|
    ensures forall i :: 0 <= i < |lines| ==> r[i] == lines[i].1
  {
    if lines == [] then [] else [lines[0].1] + Texts(lines[1..])
  }

  /** `IndexOf` finds exactly the first occurrence. */
  lemma IndexOfIs(t: string, c: char, k: nat)
    requires k < |t| && t[k] == c && forall i :: 0 <= i < k ==> t[i] != c
    ensures IndexOf(t, c) == Some(k)
  {
    assert c in t by { assert t[k] == c; }
    assert c !in t[..k];
  }

  lemma {:induction false} DropLastCons<T>(x: T, rest: seq<T>)
    requires |rest| >= 1
    ensures ([x] + rest)[..|rest|] == [x] + rest[..|rest| - 1]
  {
  }

  /**
   * The lines yielded are the pieces of `split('\n')` on the same text, except the
   * last piece: what follows the final newline (often empty) is never yielded.
   */
  lemma {:induction false} ScanLinesAreSplitPieces(s: string, p: nat, q: nat)
    requires p <= q <= |s| && NoNewline(s, p, q)
    ensures var pieces := Split(s[p..], '\n');
      Texts(ScanLines(s, p, q)) == pieces[..|pieces| - 1]
    decreases |s| - q
  {
    if q == |s| {
      LastLine(s, p);
    } else if s[q] == '\n' {
      ScanLinesAreSplitPieces(s, q + 1, q + 1);
      NewlineStep(s, p, q);
    } else {
      ScanLinesAreSplitPieces(s, p, q + 1);
    }
  }

  /** With no newline left the text is one piece, and the scan yields nothing. */
  lemma LastLine(s: string, p: nat)
    requires p <= |s| && NoNewline(s, p, |s|)
    ensures Split(s[p..], '\n') == [s[p..]] && ScanLines(s, p, |s|) == []
  {
    var t := s[p..];
    assert '\n' !in t by {
      forall i | 0 <= i < |t| ensures t[i] != '\n' { assert t[i] == s[p + i]; }
    }
  }

  /** The newline case of `ScanLinesAreSplitPieces`, given the claim for the rest. */
  lemma NewlineStep(s: string, p: nat, q: nat)
    requires p <= q < |s| && s[q] == '\n' && NoNewline(s, p, q)
    requires var rest := Split(s[q + 1..], '\n');
      Texts(ScanLines(s, q + 1, q + 1)) == rest[..|rest| - 1]
    ensures var pieces := Split(s[p..], '\n');
      Texts(ScanLines(s, p, q)) == pieces[..|pieces| - 1]
  {
    SplitAtNewline(s, p, q);
    TextsAtNewline(s, p, q);
    DropLastCons(s[p..q], Split(s[q + 1..], '\n'));
  }

  /** The first newline at or after `p` ends the first piece of `split('\n')`. */
  lemma SplitAtNewline(s: string, p: nat, q: nat)
    requires p <= q < |s| && s[q] == '\n' && NoNewline(s, p, q)
    ensures Split(s[p..], '\n') == [s[p..q]] + Split(s[q + 1..], '\n')
  {
    var t := s[p..];
    var k := q - p;
    forall i | 0 <= i < k ensures t[i] != '\n' { assert t[i] == s[p + i]; }
    IndexOfIs(t, '\n', k);
    assert t[k + 1..] == s[q + 1..];
    assert t[..k] == s[p..q];
  }

  /** At a newline the scan yields the current line, then starts afresh after it. */
  lemma TextsAtNewline(s: string, p: nat, q: nat)
    requires p <= q < |s| && s[q] == '\n'
    ensures Texts(ScanLines(s, p, q)) == [s[p..q]] + Texts(ScanLines(s, q + 1, q + 1))
  {
    var lines := ScanLines(s, p, q);
    assert lines[1..] == ScanLines(s, q + 1, q + 1);
    assert Texts(lines) == [lines[0].1] + Texts(lines[1..]);
  }

  lemma LinesAreSplitPieces(s: string)
    ensures var pieces := Split(s, '\n');
      Texts(Lines(s)) == pieces[..|pieces| - 1]
  {
    ScanLinesAreSplitPieces(s, 0, 0);
    assert s[0..] == s;
  }

  /** `s` holds `line` at byte offset `b`, followed by a newline. */
  ghost predicate LineAt(s: string, b: nat, line: string)
  {
    var c := CharIndexOf(s, b);
    Utf8Len(s[..c]) == b && c + |line| < |s| && s[c..c + |line|] == line && s[c + |line|] == '\n'
  }

  /** Every yielded offset points at its line, followed by a newline, in the original text. */
  lemma {:induction false} ScanLinesAreLocated(s: string, p: nat, q: nat)
    requires p <= q <= |s|
    ensures forall i :: 0 <= i < |ScanLines(s, p, q)| ==>
      LineAt(s, ScanLines(s, p, q)[i].0, ScanLines(s, p, q)[i].1)
    decreases |s| - q
  {
    if q == |s| {
    } else if s[q] == '\n' {
      var lines := ScanLines(s, p, q);
      var rest := ScanLines(s, q + 1, q + 1);
      ScanLinesAreLocated(s, q + 1, q + 1);
      CharIndexOfPrefix(s, p);
      assert LineAt(s, lines[0].0, lines[0].1);
      forall i | 0 < i < |lines| ensures LineAt(s, lines[i].0, lines[i].1) {
        assert lines[i] == rest[i - 1];
      }
    } else {
      ScanLinesAreLocated(s, p, q + 1);
    }
  }

  lemma LinesAreLocated(s: string)
    ensures forall i :: 0 <= i < |Lines(s)| ==> LineAt(s, Lines(s)[i].0, Lines(s)[i].1)
  {
    ScanLinesAreLocated(s, 0, 0);
  }

  lemma NextLineOffset(s: string, p: nat, q: nat)
    requires p <= q < |s| && s[q] == '\n'
    ensures Utf8Len(s[..q + 1]) == Utf8Len(s[..p]) + Utf8Len(s[p..q]) + 1
  {
    assert s[..q + 1] == s[..p] + s[p..q] + ['\n'];
    Utf8LenAppend(s[..p] + s[p..q], ['\n']);
    Utf8LenAppend(s[..p], s[p..q]);
    assert Utf8Len(['\n']) == 1;
  }

  /**
   * The first line starts at the byte offset of `p`, and each further line one byte
   * after the previous line's end.
   */
  lemma {:induction false} ScanLineOffsetsAdvance(s: string, p: nat, q: nat)
    requires p <= q <= |s|
    ensures |ScanLines(s, p, q)| > 0 ==> ScanLines(s, p, q)[0].0 == Utf8Len(s[..p])
    ensures forall i :: 0 < i < |ScanLines(s, p, q)| ==>
      ScanLines(s, p, q)[i].0 == ScanLines(s, p, q)[i - 1].0 + Utf8Len(ScanLines(s, p, q)[i - 1].1) + 1
    decreases |s| - q
  {
    if q == |s| {
    } else if s[q] == '\n' {
      var lines := ScanLines(s, p, q);
      var rest := ScanLines(s, q + 1, q + 1);
      ScanLineOffsetsAdvance(s, q + 1, q + 1);
      NextLineOffset(s, p, q);
      forall i | 0 < i < |lines|
        ensures lines[i].0 == lines[i - 1].0 + Utf8Len(lines[i - 1].1) + 1
      {
        assert lines[i] == rest[i - 1];
        if i > 1 {
          assert lines[i - 1] == rest[i - 2];
        }
      }
    } else {
      ScanLineOffsetsAdvance(s, p, q + 1);
    }
  }

  lemma LineOffsetsAdvance(s: string)
    ensures |Lines(s)| > 0 ==> Lines(s)[0].0 == 0
    ensures forall i :: 0 < i < |Lines(s)| ==>
      Lines(s)[i].0 == Lines(s)[i - 1].0 + Utf8Len(Lines(s)[i - 1].1) + 1
  {
    ScanLineOffsetsAdvance(s, 0, 0);
    assert s[..0] == [];
  }

  /** The example in the iterator's own tests. */
  lemma HelloWorldLines()
    ensures Lines("hello\nworld\n") == [(0, "hello"), (6, "world")]
  {
    TwoLines("hello", "world");
    assert "hello" + "\n" + "world" + "\n" == "hello\nworld\n";
    assert Utf8Len("hello") == 5;
  }

  /** Two newline-terminated lines are yielded with offsets 0 and one past the first newline. */
  lemma TwoLines(a: string, b: string)
    requires '\n' !in a && '\n' !in b
    ensures Lines(a + "\n" + b + "\n") == [(0, a), (Utf8Len(a) + 1, b)]
  {
    var s := a + "\n" + b + "\n";
    var n := |a|;
    var m := n + 1 + |b|;
    TwoLinesLayout(a, b);
    ScanOneLine(s, 0, n);
    ScanOneLine(s, n + 1, m);
    assert ScanLines(s, m + 1, m + 1) == [];
    Utf8LenAppend(a, "\n");
    assert Utf8Len("\n") == 1;
  }

  /** Where the two lines and their newlines sit in `a + "\n" + b + "\n"`. */
  lemma TwoLinesLayout(a: string, b: string)
    requires '\n' !in a && '\n' !in b
    ensures var s := a + "\n" + b + "\n";
      var n := |a|;
      var m := n + 1 + |b|;
      && |s| == m + 1 && s[n] == '\n' && s[m] == '\n'
      && NoNewline(s, 0, n) && NoNewline(s, n + 1, m)
      && s[..0] == [] && s[0..n] == a && s[n + 1..m] == b && s[..n + 1] == a + "\n"
  {
    var s := a + "\n" + b + "\n";
    var n := |a|;
    var m := n + 1 + |b|;
    assert NoNewline(s, 0, n) by {
      forall i | 0 <= i < n ensures s[i] != '\n' { assert s[i] == a[i]; }
    }
    assert NoNewline(s, n + 1, m) by {
      forall i | n + 1 <= i < m ensures s[i] != '\n' { assert s[i] == b[i - n - 1]; }
    }
  }

  /** From the start of a line to its newline, the scan yields that one line. */
  lemma ScanOneLine(s: string, p: nat, q: nat)
    requires p <= q < |s| && NoNewline(s, p, q) && s[q] == '\n'
    ensures ScanLines(s, p, p) == [(Utf8Len(s[..p]), s[p..q])] + ScanLines(s, q + 1, q + 1)
  {
    ScanSkip(s, p, p, q);
  }

  /** The scan moves over chars that are not newlines without yielding anything. */
  lemma {:induction false} ScanSkip(s: string, p: nat, q: nat, r: nat)
    requires p <= q <= r <= |s| && NoNewline(s, q, r)
    ensures ScanLines(s, p, q) == ScanLines(s, p, r)
    decreases r - q
  {
    if q < r {
      ScanSkip(s, p, q + 1, r);
    }
  }

  class LinesIndices {
    /** The whole text. */
    const text: string
    /** Byte offset where the next line starts (`last_index`). */
    var lastIndex: nat
    /** The `CharIndices` cursor: the char position it yields next, and its byte offset. */
    var cursor: nat
    var frontOffset: nat
    /** Char position matching `lastIndex`. */
    ghost var lineStart: nat

    ghost predicate Valid()
      reads this
    {
      && lineStart <= cursor <= |text|
      && lastIndex == Utf8Len(text[..lineStart])
      && frontOffset == Utf8Len(text[..cursor])
      && NoNewline(text, lineStart, cursor)
    }

    /** What the iterator still yields. */
    ghost function Remaining(): seq<Line>
      reads this
      requires Valid()
    {
      ScanLines(text, lineStart, cursor)
    }

    /** `LinesIndices::new`. */
    constructor (text: string)
      ensures Valid() && this.text == text && Remaining() == Lines(text)
    {
      this.text := text;
      lastIndex := 0;
      cursor := 0;
      frontOffset := 0;
      lineStart := 0;
      assert text[..0] == [];
    }

    /** Yields the next newline-terminated line, or `None` once there is none left. */
    method Next() returns (r: Option<Line>)
      requires Valid()
      modifies this
      ensures Valid()
      ensures old(Remaining()) == [] ==> r == None && Remaining() == []
      ensures old(Remaining()) != [] ==>
        r == Some(old(Remaining())[0]) && Remaining() == old(Remaining())[1..]
    {
      // `char_indices.find(|c| c == '\n')`
      while cursor < |text| && text[cursor] != '\n'
        invariant Valid()
        invariant lastIndex == old(lastIndex) && lineStart == old(lineStart)
        invariant Remaining() == old(Remaining())
        decreases |text| - cursor
      {
        assert text[..cursor + 1] == text[..cursor] + [text[cursor]];
        Utf8LenAppend(text[..cursor], [text[cursor]]);
        frontOffset := frontOffset + Utf8Width(text[cursor]);
        cursor := cursor + 1;
      }
      if cursor == |text| {
        r := None;
        return;
      }
      var i := frontOffset;
      assert text[..cursor + 1] == text[..cursor] + ['\n'];
      Utf8LenAppend(text[..cursor], ['\n']);
      // `&self.str[current_index..i]`
      var current := lastIndex;
      CharIndexOfPrefix(text, lineStart);
      var line := text[CharIndexOf(text, current)..cursor];
      cursor, frontOffset := cursor + 1, i + 1;
      lastIndex := i + 1;
      lineStart := cursor;
      r := Some((current, line));
    }
  }
}
