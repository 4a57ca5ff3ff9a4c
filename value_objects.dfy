/**
 * The compiled blog's two text buffers: a preview of 1 to 400 bytes, and content that
 * must not be empty. Each `try_from` validates and then keeps the string as it is.
 */
module ValueObjects {
  import opened Wrappers
  import opened Text

  datatype PreviewError = Empty | MaxLen

  /** The largest preview, in UTF-8 bytes. */
  const PreviewMaxLen: nat := 400

  /** The empty string is the only one with no UTF-8 bytes. */
  lemma NoBytesIffEmpty(s: string)
    ensures Utf8Len(s) == 0 <==> s == []
  {
    Utf8LenAtLeastLength(s);
  }

  /**
   * `PreviewBuf::validate`: `Empty` for the empty string, then `MaxLen` beyond 400
   * bytes; so it accepts exactly the byte lengths 1 to 400.
   */
  function ValidatePreview(s: string): (r: Result<(), PreviewError>)
    ensures r == Failure(Empty) <==> s == []
    ensures r == Failure(MaxLen) <==> s != [] && Utf8Len(s) > PreviewMaxLen
    ensures r.Success? <==> 1 <= Utf8Len(s) <= PreviewMaxLen
  {
    NoBytesIffEmpty(s);
    if s == [] then Failure(Empty)
    else if Utf8Len(s) > PreviewMaxLen then Failure(MaxLen)
    else Success(())
  }

  datatype PreviewBuf = PreviewBuf(text: string)

  /** `PreviewBuf::try_from`: succeeds exactly when `validate` does, keeping the string unchanged. */
  function PreviewTryFrom(s: string): (r: Result<PreviewBuf, PreviewError>)
    ensures r.Success? <==> ValidatePreview(s).Success?
    ensures r.Success? ==> r.value.text == s && 1 <= Utf8Len(r.value.text) <= PreviewMaxLen
    ensures r.Failure? ==> r.error == ValidatePreview(s).error
  {
    match ValidatePreview(s)
    case Failure(e) => Failure(e)
    case Success(_) => Success(PreviewBuf(s))
  }

  datatype ContentError = EmptyContent

  /** `ContentBuf::validate`: fails exactly on the empty string. */
  function ValidateContent(s: string): (r: Result<(), ContentError>)
    ensures r.Failure? <==> s == []
  {
    if s == [] then Failure(EmptyContent) else Success(())
  }

  datatype ContentBuf = ContentBuf(text: string)

  /** `ContentBuf::try_from`: succeeds exactly on non-empty strings, keeping them unchanged. */
  function ContentTryFrom(s: string): (r: Result<ContentBuf, ContentError>)
    ensures r.Success? <==> s != []
    ensures r.Success? ==> r.value.text == s
  {
    match ValidateContent(s)
    case Failure(e) => Failure(e)
    case Success(_) => Success(ContentBuf(s))
  }

  /**
   * The limit counts bytes, not characters: 399 ASCII characters followed by one more
   * character are accepted exactly when that character is ASCII.
   */
  lemma PreviewCountsBytes(s: string, c: char)
    requires |s| == PreviewMaxLen - 1 && forall i :: 0 <= i < |s| ==> IsAscii(s[i])
    ensures ValidatePreview(s + [c]).Success? <==> IsAscii(c)
  {
    Utf8LenAtLeastLength(s);
    Utf8LenAppend(s, [c]);
    assert Utf8Len([c]) == Utf8Width(c) by {
      assert [c][1..] == [];
    }
  }
}
