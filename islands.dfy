/**
 * The link island's URL test: a link opens in a new tab when its text looks like a
 * URL, that is, has a non-empty scheme before its first `://` and something after it.
 */
module Islands {
  import opened Wrappers
  import opened Text

  const ProtocolSeparator: string := "://"

  /**
   * `is_url`: finds the first `://` and compares its byte offset `i` with the text's
   * byte length: `i > 0 && i + 3 < len`.
   */
  function IsUrl(text: string): bool
  {
    match FindFrom(text, ProtocolSeparator, 0)
    case None => false
    case Some(j) =>
      var i := Utf8Len(text[..j]);
      i > 0 && i + |ProtocolSeparator| < Utf8Len(text)
  }

  /** `k` is where the first `://` of `text` starts. */
  predicate FirstSeparatorAt(text: string, k: nat)
  {
    OccursAt(text, ProtocolSeparator, k) && forall m :: 0 <= m < k ==> !OccursAt(text, ProtocolSeparator, m)
  }

  /**
   * In characters: a text is a URL exactly when its first `://` starts after at least
   * one character and is followed by at least one character.
   */
  lemma IsUrlIff(text: string)
    ensures IsUrl(text) <==> exists k: nat :: FirstSeparatorAt(text, k) && 0 < k && k + 3 < |text|
  {
    var found := FindFrom(text, ProtocolSeparator, 0);
    if found.Some? {
      var j := found.value;
      assert FirstSeparatorAt(text, j);
      assert forall k: nat :: FirstSeparatorAt(text, k) ==> k == j;
      ByteOffsets(text, j);
    }
  }

  /** The separator is ASCII, so byte and character offsets agree on both tests. */
  lemma ByteOffsets(text: string, j: nat)
    requires OccursAt(text, ProtocolSeparator, j)
    ensures Utf8Len(text[..j]) > 0 <==> j > 0
    ensures Utf8Len(text[..j]) + 3 < Utf8Len(text) <==> j + 3 < |text|
  {
    var rest := text[j + 3..];
    SeparatorBytes(text, j);
    Utf8LenAtLeastLength(text[..j]);
    Utf8LenAtLeastLength(rest);
    if rest != [] {
      assert Utf8Len(rest) == Utf8Width(rest[0]) + Utf8Len(rest[1..]);
    }
  }

  /** The byte length splits around an occurrence of the three-byte separator. */
  lemma SeparatorBytes(text: string, j: nat)
    requires OccursAt(text, ProtocolSeparator, j)
    ensures Utf8Len(text) == Utf8Len(text[..j]) + 3 + Utf8Len(text[j + 3..])
  {
    var rest := text[j + 3..];
    assert text == text[..j] + (ProtocolSeparator + rest);
    Utf8LenAppend(text[..j], ProtocolSeparator + rest);
    Utf8LenAppend(ProtocolSeparator, rest);
    assert Utf8Len(ProtocolSeparator) == 3 by {
      assert ProtocolSeparator[1..] == "//" && "//"[1..] == "/" && "/"[1..] == [];
    }
  }

  /** Only the first `://` counts: a later one with text on both sides does not help. */
  lemma OnlyFirstSeparatorCounts()
    ensures !IsUrl("://a://b")
    ensures OccursAt("://a://b", ProtocolSeparator, 4) && 0 < 4 && 4 + 3 < |"://a://b"|
  {
    IsUrlIff("://a://b");
    assert FirstSeparatorAt("://a://b", 0);
    assert "://a://b"[4..7] == ProtocolSeparator;
  }

  /** A lower-case scheme, `://`, and a non-empty rest make a URL. */
  lemma SchemeUrl(scheme: string, rest: string)
    requires scheme != [] && rest != []
    requires forall i :: 0 <= i < |scheme| ==> 'a' <= scheme[i] <= 'z'
    ensures IsUrl(scheme + ProtocolSeparator + rest)
  {
    SchemeFirst(scheme, rest);
    IsUrlIff(scheme + ProtocolSeparator + rest);
  }

  /** A lower-case scheme and `://` with nothing after it is not a URL. */
  lemma SchemeOnly(scheme: string)
    requires forall i :: 0 <= i < |scheme| ==> 'a' <= scheme[i] <= 'z'
    ensures !IsUrl(scheme + ProtocolSeparator)
  {
    SchemeFirst(scheme, "");
    assert scheme + ProtocolSeparator + "" == scheme + ProtocolSeparator;
    IsUrlIff(scheme + ProtocolSeparator);
  }

  /** Text that starts with `://` is not a URL. */
  lemma NoScheme(rest: string)
    ensures !IsUrl(ProtocolSeparator + rest)
  {
    assert FirstSeparatorAt(ProtocolSeparator + rest, 0) by {
      assert (ProtocolSeparator + rest)[0..3] == ProtocolSeparator;
    }
    IsUrlIff(ProtocolSeparator + rest);
  }

  /** Text without a `:` is not a URL: every URL has the colon of its separator. */
  lemma NoColon(text: string)
    ensures IsUrl(text) ==> ':' in text
  {
    IsUrlIff(text);
    if IsUrl(text) {
      var k: nat :| FirstSeparatorAt(text, k) && 0 < k && k + 3 < |text|;
      assert text[k..k + 3][0] == ':';
      assert text[k] in text;
    }
  }

  /** `check_url`. */
  lemma CheckUrl()
    ensures IsUrl("https://google.com")
  {
    SchemeUrl("https", "google.com");
    assert "https" + ProtocolSeparator + "google.com" == "https://google.com";
  }

  /** `check_has_one_trailing`. */
  lemma CheckHasOneTrailing()
    ensures IsUrl("https://a")
  {
    SchemeUrl("https", "a");
    assert "https" + ProtocolSeparator + "a" == "https://a";
  }

  /** `check_not_url`. */
  lemma CheckNotUrl()
    ensures !IsUrl("google.com")
  {
    NoColon("google.com");
  }

  /** `check_has_trailing`. */
  lemma CheckHasTrailing()
    ensures !IsUrl("https://")
  {
    SchemeOnly("https");
    assert "https" + ProtocolSeparator == "https://";
  }

  /** `check_has_protocol`. */
  lemma CheckHasProtocol()
    ensures !IsUrl("://google.com")
  {
    NoScheme("google.com");
    assert ProtocolSeparator + "google.com" == "://google.com";
  }

  /** A scheme of letters followed by `://`: the separator is first found right after it. */
  lemma SchemeFirst(scheme: string, rest: string)
    requires forall i :: 0 <= i < |scheme| ==> 'a' <= scheme[i] <= 'z'
    ensures FirstSeparatorAt(scheme + ProtocolSeparator + rest, |scheme|)
  {
    var text := scheme + ProtocolSeparator + rest;
    assert text[|scheme|..|scheme| + 3] == ProtocolSeparator;
    forall m | 0 <= m < |scheme| ensures !OccursAt(text, ProtocolSeparator, m) {
      assert text[m] == scheme[m];
    }
  }
}
