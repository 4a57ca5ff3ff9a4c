/**
 * Image file names: a bare name (no directory part) with a non-empty extension after
 * its last dot, and the blog's two whitelists of extensions built on top of it.
 */
module Filenames {
  import opened Wrappers

  datatype FilenameError = HasParent | InvalidExtension

  /** `str::rfind(c)`: the position of the last `c`. */
  function LastIndexOf(s: string, c: char): (r: Option<nat>)
    ensures r.Some? ==> r.value < |s| && s[r.value] == c && c !in s[r.value + 1..]
    ensures r.None? <==> c !in s
  {
    if s == [] then None
    else if s[|s| - 1] == c then Some(|s| - 1)
    else
      var r := LastIndexOf(s[..|s| - 1], c);
      assert s == s[..|s| - 1] + [s[|s| - 1]];
      if r.Some? then
        assert s[r.value + 1..] == s[..|s| - 1][r.value + 1..] + [s[|s| - 1]];
        r
      else r
  }

  /**
   * `Filename::new_with_extension`: the name (unchanged) and its extension, or why it
   * is not an image file name.
   */
  function NewWithExtension(name: string): (r: Result<(string, string), FilenameError>)
    ensures '/' in name ==> r == Failure(HasParent)
    ensures r.Success? ==>
      var ext := r.value.1;
      && r.value.0 == name
      && ext != [] && '.' !in ext
      && |ext| < |name| && name == name[..|name| - |ext| - 1] + "." + ext
  {
    if '/' in name then Failure(HasParent)
    else match LastIndexOf(name, '.')
      case None => Failure(InvalidExtension)
      case Some(at) =>
        if at == |name| - 1 then Failure(InvalidExtension)
        else
          assert name == name[..at] + "." + name[at + 1..];
          Success((name, name[at + 1..]))
  }

  /**
   * A name is accepted exactly when it has no `/`, has a dot, and does not end with
   * that dot; the error is `HasParent` whenever a `/` occurs.
   */
  lemma NewWithExtensionIff(name: string)
    ensures NewWithExtension(name).Success? <==>
      '/' !in name && '.' in name && name[|name| - 1] != '.'
    ensures NewWithExtension(name).Failure? && '/' !in name ==>
      NewWithExtension(name).error == InvalidExtension
  {
    if '/' !in name && '.' in name && name[|name| - 1] == '.' {
      var at := LastIndexOf(name, '.').value;
      assert name[|name| - 1] !in name[at + 1..];
    }
  }

  /** The refusals of the module's own tests (`foo`, `foo.`, `foo/bar`), and one accepted name. */
  lemma NewWithExtensionExamples()
    ensures NewWithExtension("foo") == Failure(InvalidExtension)
    ensures NewWithExtension("foo.") == Failure(InvalidExtension)
    ensures NewWithExtension("foo/bar") == Failure(HasParent)
    ensures NewWithExtension("image.png") == Success(("image.png", "png"))
  {
    assert "foo/bar"[3] == '/';
    assert "foo."[3] == '.';
    assert "image.png"[5] == '.';
    assert "image.png"[6..] == "png";
    assert '.' !in "foo" by {
      forall i | 0 <= i < 3 ensures "foo"[i] != '.' { }
    }
    assert '/' !in "image.png" by {
      forall i | 0 <= i < 9 ensures "image.png"[i] != '/' { }
    }
    assert '/' !in "foo." by {
      forall i | 0 <= i < 4 ensures "foo."[i] != '/' { }
    }
    assert '/' !in "foo" by {
      forall i | 0 <= i < 3 ensures "foo"[i] != '/' { }
    }
  }

  /** Extensions the blog module accepts (`ALLOWED_MIME_NAMES`). */
  const BlogExtensions: seq<string> := ["png", "jpg", "jpeg"]

  /** Extensions the oldest blog module accepts: the names of the PNG and JPEG mime types. */
  const ModuleExtensions: seq<string> := ["png", "jpeg"]

  /** `Filename::new` over a whitelist of extensions. */
  function NewWithin(allowed: seq<string>, name: string): (r: Result<string, FilenameError>)
    ensures r.Success? <==> NewWithExtension(name).Success? && NewWithExtension(name).value.1 in allowed
    ensures r.Success? ==> r.value == name
    ensures NewWithExtension(name).Failure? ==> r.error == NewWithExtension(name).error
  {
    match NewWithExtension(name)
    case Failure(e) => Failure(e)
    case Success(parts) =>
      if parts.1 !in allowed then Failure(InvalidExtension) else Success(parts.0)
  }

  /** The blog's `Filename::new`: png, jpg and jpeg. */
  function BlogFilename(name: string): Result<string, FilenameError>
  {
    NewWithin(BlogExtensions, name)
  }

  /** The oldest blog module's `Filename::new`: png and jpeg only. */
  function ModuleFilename(name: string): Result<string, FilenameError>
  {
    NewWithin(ModuleExtensions, name)
  }

  lemma ExtensionOf(stem: string, ext: string)
    requires '/' !in stem && '/' !in ext && '.' !in ext && ext != []
    ensures NewWithExtension(stem + "." + ext) == Success((stem + "." + ext, ext))
  {
    var name := stem + "." + ext;
    assert name[|stem|] == '.';
    assert '/' !in name by {
      forall i | 0 <= i < |name| ensures name[i] != '/' {
        if i < |stem| { assert name[i] == stem[i]; }
        else if i > |stem| { assert name[i] == ext[i - |stem| - 1]; }
      }
    }
    var at := LastIndexOf(name, '.').value;
    assert forall k :: at < k < |name| ==> name[k] != '.' by {
      forall k | at < k < |name| ensures name[k] != '.' {
        assert name[k] == name[at + 1..][k - at - 1];
      }
    }
    assert name[at + 1..] == ext;
  }

  /** The modules' tests: an unknown extension is refused by both whitelists. */
  lemma UnknownExtensionRefused()
    ensures BlogFilename("filename.not-a-valid-extension") == Failure(InvalidExtension)
    ensures ModuleFilename("filename.not-a-valid-extension") == Failure(InvalidExtension)
  {
    var ext := "not-a-valid-extension";
    UnknownExtensionParts();
    ExtensionOf("filename", ext);
    assert ext !in BlogExtensions by {
      assert ext[0] != "png"[0] && ext[0] != "jpg"[0] && ext[0] != "jpeg"[0];
    }
  }

  lemma UnknownExtensionParts()
    ensures '/' !in "filename" && '/' !in "not-a-valid-extension" && '.' !in "not-a-valid-extension"
    ensures "filename.not-a-valid-extension" == "filename" + "." + "not-a-valid-extension"
  {
    PlainName("filename");
    UnknownExtensionPlain();
    assert "filename" + "." == "filename.";
    assert "filename." + "not-a-valid-extension" == "filename.not-a-valid-extension";
  }

  lemma UnknownExtensionPlain()
    ensures '/' !in "not-a-valid-extension" && '.' !in "not-a-valid-extension"
  {
    PlainName("not-a-valid-extension");
  }

  /** A name of letters and dashes has neither a `/` nor a `.`. */
  lemma PlainName(s: string)
    requires forall i :: 0 <= i < |s| ==> 'a' <= s[i] <= 'z' || s[i] == '-'
    ensures '/' !in s && '.' !in s
  {
  }

  /** The modules' tests: `jpeg` passes both whitelists. */
  lemma JpegAccepted()
    ensures BlogFilename("filename.jpeg") == Success("filename.jpeg")
    ensures ModuleFilename("filename.jpeg") == Success("filename.jpeg")
  {
    ExtensionOf("filename", "jpeg");
  }

  /** Where the two whitelists differ: `jpg` passes the blog's rule and fails the oldest module's. */
  lemma JpgOnlyInBlog()
    ensures BlogFilename("image.jpg") == Success("image.jpg")
    ensures ModuleFilename("image.jpg") == Failure(InvalidExtension)
  {
    ExtensionOf("image", "jpg");
    assert |"jpg"| != |"jpeg"| && "jpg"[1] != "png"[1];
  }
}
