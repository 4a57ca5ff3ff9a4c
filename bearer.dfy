/**
 * The bearer token of a request: the second space-separated piece of the
 * `Authorization` header, when the first is exactly `Bearer`.
 */
module Bearer {
  import opened Wrappers
  import opened Text
  import opened Uuids

  const Scheme: string := "Bearer"

  /** `HeaderValue::is_visible_ascii`: a printable ASCII byte or a tab. */
  predicate IsVisibleAscii(b: byte)
  {
    (32 <= b < 127) || b == 9
  }

  /** `HeaderValue::to_str`: the header as text when every byte is visible ASCII. */
  function ToStr(header: seq<byte>): (r: Option<string>)
    ensures r.Some? <==> forall i :: 0 <= i < |header| ==> IsVisibleAscii(header[i])
    ensures r.Some? ==>
      |r.value| == |header| && forall i :: 0 <= i < |header| ==> r.value[i] as int == header[i] as int
  {
    if forall i :: 0 <= i < |header| ==> IsVisibleAscii(header[i])
    then Some(seq(|header|, i requires 0 <= i < |header| => header[i] as int as char))
    else None
  }

  /** The text of a header value: its characters as bytes, when they are all ASCII. */
  function AsBytes(s: string): (r: seq<byte>)
    requires forall i :: 0 <= i < |s| ==> s[i] as int < 128
    ensures |r| == |s| && forall i :: 0 <= i < |s| ==> r[i] as int == s[i] as int
  {
    seq(|s|, i requires 0 <= i < |s| => s[i] as int as byte)
  }

  /**
   * `bearer`: no header or a header that is not text gives nothing; otherwise the text
   * is split on single spaces and, when the first piece is `Bearer`, the second piece
   * (which may be empty) is the token.
   */
  function Token(authorization: Option<seq<byte>>): Option<string>
  {
    match authorization
    case None => None
    case Some(header) =>
      match ToStr(header)
      case None => None
      case Some(content) => TextToken(content)
  }

  /** The token read off the header's text: the second space-separated piece after `Bearer`. */
  function TextToken(content: string): Option<string>
  {
    var pieces := Split(content, ' ');
    if pieces[0] != Scheme then None
    else if |pieces| < 2 then None
    else Some(pieces[1])
  }

  /**
   * A header yields the token `t` exactly when its text is `Bearer`, one space, `t`
   * (which has no space and may be empty), and then nothing or a space followed by
   * anything. No header gives no token.
   */
  lemma TokenIff(header: seq<byte>, t: string)
    ensures Token(Some(header)) == Some(t) <==>
      exists rest :: ToStr(header) == Some(Scheme + " " + t + rest) && ' ' !in t && (rest == [] || rest[0] == ' ')
    ensures Token(None) == None
  {
    if Token(Some(header)) == Some(t) {
      var rest := TokenTextShape(ToStr(header).value, t);
    }
    if exists rest :: ToStr(header) == Some(Scheme + " " + t + rest) && ' ' !in t && (rest == [] || rest[0] == ' ') {
      var rest :| ToStr(header) == Some(Scheme + " " + t + rest) && ' ' !in t && (rest == [] || rest[0] == ' ');
      ShapedTextToken(t, rest);
    }
  }

  /** Text that yields a token is laid out as `Bearer`, a space, the token, then nothing or a space. */
  lemma TokenTextShape(content: string, t: string) returns (rest: string)
    requires TextToken(content) == Some(t)
    ensures content == Scheme + " " + t + rest && ' ' !in t && (rest == [] || rest[0] == ' ')
  {
    var i, u := SplitFirst(content, ' ');
    assert content[..i] == Scheme && Split(u, ' ')[0] == t;
    rest := PieceShape(u, ' ');
    assert content == Scheme + " " + t + rest by {
      assert content == content[..i] + " " + u;
      assert u == t + rest;
    }
  }

  /** Text with two or more pieces is its first piece, the separator, and the rest's pieces. */
  lemma SplitFirst(s: string, sep: char) returns (i: nat, u: string)
    requires |Split(s, sep)| >= 2
    ensures i < |s| && s[i] == sep && u == s[i + 1..]
    ensures Split(s, sep) == [s[..i]] + Split(u, sep)
    ensures s == s[..i] + [sep] + u
  {
    i := IndexOf(s, sep).value;
    u := s[i + 1..];
  }

  /** Text laid out as `Bearer`, a space, `t`, then nothing or a space yields `t`. */
  lemma ShapedTextToken(t: string, rest: string)
    requires ' ' !in t && (rest == [] || rest[0] == ' ')
    ensures TextToken(Scheme + " " + t + rest) == Some(t)
  {
    var u := t + rest;
    var content := Scheme + " " + t + rest;
    assert content == Scheme + (" " + u);
    IndexOfIs(content, ' ', |Scheme|);
    assert content[..|Scheme|] == Scheme;
    assert content[|Scheme| + 1..] == u;
    assert Split(content, ' ') == [Scheme] + Split(u, ' ');
    FirstPiece(t, rest, ' ');
  }

  /** The first piece of `t + rest`, when `t` has no separator and `rest` is empty or starts with one. */
  lemma FirstPiece(t: string, rest: string, sep: char)
    requires sep !in t && (rest == [] || rest[0] == sep)
    ensures Split(t + rest, sep)[0] == t
    ensures |Split(t + rest, sep)| >= 2 <==> rest != []
  {
    var u := t + rest;
    if rest == [] {
      assert u == t;
    } else {
      IndexOfIs(u, sep, |t|);
      assert u[..|t|] == t;
    }
  }

  /** Every text is its first piece followed by nothing or by the separator and more. */
  lemma PieceShape(u: string, sep: char) returns (rest: string)
    ensures u == Split(u, sep)[0] + rest && (rest == [] || rest[0] == sep)
  {
    match IndexOf(u, sep)
    case None =>
      rest := [];
      assert u == u + [];
    case Some(i) =>
      rest := u[i..];
      assert u == u[..i] + u[i..];
  }

  /** `IndexOf` finds the first occurrence. */
  lemma IndexOfIs(s: string, c: char, k: nat)
    requires k < |s| && s[k] == c && forall i :: 0 <= i < k ==> s[i] != c
    ensures IndexOf(s, c) == Some(k)
  {
    assert c in s by { assert s[k] == c; }
    assert c !in s[..k];
  }

  /** Reading text back from the bytes it was written as gives the text. */
  lemma ToStrAsBytes(s: string)
    requires forall i :: 0 <= i < |s| ==> 32 <= s[i] as int < 127
    ensures ToStr(AsBytes(s)) == Some(s)
  {
    var b := AsBytes(s);
    assert forall i :: 0 <= i < |b| ==> IsVisibleAscii(b[i]);
    assert ToStr(b).value == s;
  }

  /**
   * A header written as `Bearer`, the token and any further pieces, joined by single
   * spaces, gives the token back, whenever no piece has a space.
   */
  lemma TokenRoundTrip(pieces: seq<string>)
    requires |pieces| >= 2 && pieces[0] == Scheme
    requires forall i :: 0 <= i < |pieces| ==> ' ' !in pieces[i]
    requires forall i, j :: 0 <= i < |pieces| && 0 <= j < |pieces[i]| ==> 32 <= pieces[i][j] as int < 127
    ensures forall k :: 0 <= k < |Join(pieces, ' ')| ==> 32 <= Join(pieces, ' ')[k] as int < 127
    ensures Token(Some(AsBytes(Join(pieces, ' ')))) == Some(pieces[1])
  {
    JoinPrintable(pieces);
    var content := Join(pieces, ' ');
    ToStrAsBytes(content);
    SplitJoin(pieces, ' ');
  }

  lemma {:induction false} JoinPrintable(pieces: seq<string>)
    requires forall i, j :: 0 <= i < |pieces| && 0 <= j < |pieces[i]| ==> 32 <= pieces[i][j] as int < 127
    ensures forall k :: 0 <= k < |Join(pieces, ' ')| ==> 32 <= Join(pieces, ' ')[k] as int < 127
  {
    if |pieces| > 1 {
      JoinPrintable(pieces[1..]);
      var rest := Join(pieces[1..], ' ');
      assert Join(pieces, ' ') == pieces[0] + [' '] + rest;
      assert forall i, j :: 0 <= i < |pieces[1..]| && 0 <= j < |pieces[1..][i]| ==> pieces[1..][i][j] == pieces[i + 1][j];
    }
  }

  /** A header whose first piece is not exactly `Bearer` (say `bearer` or `Basic`) has no token. */
  lemma OtherSchemeHasNoToken(pieces: seq<string>)
    requires |pieces| >= 1 && pieces[0] != Scheme
    requires forall i :: 0 <= i < |pieces| ==> ' ' !in pieces[i]
    requires forall i, j :: 0 <= i < |pieces| && 0 <= j < |pieces[i]| ==> 32 <= pieces[i][j] as int < 127
    ensures forall k :: 0 <= k < |Join(pieces, ' ')| ==> 32 <= Join(pieces, ' ')[k] as int < 127
    ensures Token(Some(AsBytes(Join(pieces, ' ')))) == None
  {
    JoinPrintable(pieces);
    ToStrAsBytes(Join(pieces, ' '));
    SplitJoin(pieces, ' ');
  }

  /** The bare scheme, with no space after it, has no token. */
  lemma SchemeAloneHasNoToken()
    ensures Token(Some(AsBytes(Scheme))) == None
  {
    ToStrAsBytes(Scheme);
    assert ' ' !in Scheme;
    assert IndexOf(Scheme, ' ').None?;
  }

  /** A header that is not text has no token, whatever it says. */
  lemma NonTextHasNoToken(header: seq<byte>)
    requires exists i :: 0 <= i < |header| && !IsVisibleAscii(header[i])
    ensures Token(Some(header)) == None
  {
  }
}
