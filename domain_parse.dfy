/**
 * The application's earlier copy of the compiler: the same title rules, images gated
 * by the blog's file-name rule instead of by the injector, HTML rendered without the
 * code-block rewrite, and a preview cut at 40 events instead of a word budget.
 */
module DomainParse {
  import opened Wrappers
  import opened Text
  import opened Events
  import opened VecSets
  import opened Titles
  import opened ImageUrls
  import opened Filenames
  import opened Compile
  import opened Preview
  import opened LinesIndices

  /** An image is hosted when its URL is a valid blog image file name. */
  predicate IsBlogImage(url: string)
  {
    BlogFilename(url).Success?
  }

  /** The application's injector only rewrites; validity is the file-name rule. */
  function GatedInjector(inject: string -> string): (r: Injector)
    ensures forall url :: r.isValid(url) <==> IsBlogImage(url)
    ensures r.inject == inject
  {
    Injector(IsBlogImage, inject)
  }

  /** The outcome of this copy of `parse` on the token stream `events`. */
  function DomainCompileSpec(events: seq<Event>, inject: string -> string, renderHtml: HtmlRenderer)
    : Result<BlogParse, Error>
  {
    match TitleSpec(events)
    case Failure(e) => Failure(e)
    case Success(t) =>
      var k := t.1;
      Success(BlogParse(
        t.0,
        renderHtml(events[..k]) + renderHtml(MutateAll(GatedInjector(inject), events[k..])),
        CollectImages(GatedInjector(inject), events[k..])))
  }

  /** This copy of `parse`. */
  method Parse(markdown: string, tokenize: Tokenizer, inject: string -> string, renderHtml: HtmlRenderer)
    returns (r: Result<BlogParse, Error>)
    ensures r == DomainCompileSpec(tokenize(markdown), inject, renderHtml)
  {
    var events := tokenize(markdown);
    var title := ReadTitle(events);
    if title.Failure? {
      return Failure(title.error);
    }
    var k := title.value.1;
    ghost var spec := DomainCompileSpec(events, inject, renderHtml);
    var content := "";
    content := content + renderHtml(events[..k]);
    var mapped, images := MutateStream(events[k..], GatedInjector(inject));
    content := content + renderHtml(mapped);
    assert content == spec.value.content;
    r := Success(BlogParse(title.value.0, content, images));
  }

  /**
   * The collected images are exactly the URLs of the inline images after the title that
   * are valid blog file names (so never have a directory part), each once, in the
   * order each was first met.
   */
  lemma ImagesAreBlogFilenames(events: seq<Event>, inject: string -> string, renderHtml: HtmlRenderer)
    requires TitleSpec(events).Success?
    ensures var k := TitleSpec(events).value.1;
      var images := DomainCompileSpec(events, inject, renderHtml).value.images;
      && NoDuplicates(images)
      && (forall x :: x in images ==> BlogFilename(x).Success? && '/' !in x)
      && (forall x :: x in images ==>
            exists j :: k <= j < |events| && IsInlineImage(events[j]) && events[j].tag.url == x)
      && (forall j :: k <= j < |events| && IsInlineImage(events[j]) && IsBlogImage(events[j].tag.url) ==>
            events[j].tag.url in images)
      && InFirstSeenOrder(images, AcceptedUrls(GatedInjector(inject), events[k..]))
  {
    var k := TitleSpec(events).value.1;
    CollectImagesFacts(GatedInjector(inject), events[k..]);
    CollectedAreBlogFilenames(events[k..], inject);
    CollectedOccurAfter(events, k, inject);
    BlogImagesAfterAreCollected(events, k, inject);
  }

  /** Helper for `ImagesAreBlogFilenames`: only valid blog file names are collected. */
  lemma CollectedAreBlogFilenames(rest: seq<Event>, inject: string -> string)
    ensures forall x :: x in CollectImages(GatedInjector(inject), rest) ==> BlogFilename(x).Success? && '/' !in x
  {
    var injector := GatedInjector(inject);
    CollectImagesFacts(injector, rest);
    forall x | x in CollectImages(injector, rest) ensures BlogFilename(x).Success? && '/' !in x {
      var j :| 0 <= j < |rest| && Accepts(injector, rest[j]) && rest[j].tag.url == x;
    }
  }

  /** Helper for `ImagesAreBlogFilenames`: a collected URL is an inline image's, after position `k`. */
  lemma CollectedOccurAfter(events: seq<Event>, k: nat, inject: string -> string)
    requires k <= |events|
    ensures forall x :: x in CollectImages(GatedInjector(inject), events[k..]) ==>
      exists j :: k <= j < |events| && IsInlineImage(events[j]) && events[j].tag.url == x
  {
    var injector := GatedInjector(inject);
    var rest := events[k..];
    CollectImagesFacts(injector, rest);
    forall x | x in CollectImages(injector, rest)
      ensures exists j :: k <= j < |events| && IsInlineImage(events[j]) && events[j].tag.url == x
    {
      var j :| 0 <= j < |rest| && Accepts(injector, rest[j]) && rest[j].tag.url == x;
      assert events[k + j] == rest[j];
    }
  }

  /** Helper for `ImagesAreBlogFilenames`: every inline image after `k` with a blog file name is collected. */
  lemma BlogImagesAfterAreCollected(events: seq<Event>, k: nat, inject: string -> string)
    requires k <= |events|
    ensures forall j :: k <= j < |events| && IsInlineImage(events[j]) && IsBlogImage(events[j].tag.url) ==>
      events[j].tag.url in CollectImages(GatedInjector(inject), events[k..])
  {
    var injector := GatedInjector(inject);
    var rest := events[k..];
    CollectImagesFacts(injector, rest);
    forall j | k <= j < |events| && IsInlineImage(events[j]) && IsBlogImage(events[j].tag.url)
      ensures events[j].tag.url in CollectImages(injector, rest)
    {
      assert rest[j - k] == events[j];
    }
  }

  /** The test: `./bruda.png` has a directory part, so only `image.png` is collected. */
  lemma CollectsOnlyBareImages(tokenize: Tokenizer, inject: string -> string, renderHtml: HtmlRenderer)
    requires tokenize("# Hello guorld \n![image](image.png)\nHello\n![bruda](./bruda.png)") == ImagesExample()
    ensures var r := DomainCompileSpec(tokenize("# Hello guorld \n![image](image.png)\nHello\n![bruda](./bruda.png)"),
      inject, renderHtml);
      r.Success? && r.value.images == ["image.png"]
  {
    ImagesExampleTitle();
    GatedExampleUrls(inject);
  }

  lemma GatedExampleUrls(inject: string -> string)
    ensures CollectImages(GatedInjector(inject), ImagesExampleBody()) == ["image.png"]
  {
    BareImageNames();
    ImagesExampleAccepted(GatedInjector(inject));
    assert InsertAll([], ["image.png"]) == ["image.png"] by {
      assert ["image.png"][1..] == [];
    }
  }

  lemma BareImageNames()
    ensures IsBlogImage("image.png")
    ensures !IsBlogImage("./bruda.png")
  {
    NewWithExtensionExamples();
    assert "./bruda.png"[1] == '/';
  }

  // -------------------------------------------------------------- preview

  /** This copy's `is_readable`: text and the readable containers only. */
  predicate DomainIsReadable(e: Event)
  {
    e.Text? || (e.Start? && ReadableTag(e.tag)) || (e.End? && ReadableTag(e.tag))
  }

  /** This copy's `take_while` allow-list. */
  predicate DomainContinues(e: Event)
  {
    || e.Text?
    || (e.Start? && (e.tag.Strong? || e.tag.Emphasis? || e.tag.Link?))
    || (e.End? && ReadableTag(e.tag))
  }

  /** The preview events: the first of at most 40, then the allow-listed run. */
  function DomainPreviewEvents(stream: seq<Event>): seq<Event>
  {
    var window := Take(stream, ScanWindow);
    if window == [] then [] else [window[0]] + TakeWhile(DomainContinues, window[1..])
  }

  /**
   * The preview is a prefix of the stream of at most 40 events, starting with the
   * stream's first event; later events are allow-listed, and it stops at the first
   * event that is not, or at the 40th event.
   */
  lemma DomainPreviewEventsFacts(stream: seq<Event>)
    ensures var events := DomainPreviewEvents(stream);
      && events <= stream
      && |events| <= ScanWindow
      && (stream != [] ==> events != [])
      && (forall i :: 1 <= i < |events| ==> DomainContinues(events[i]))
      && (0 < |events| < |stream| && |events| < ScanWindow ==> !DomainContinues(stream[|events|]))
  {
    var window := Take(stream, ScanWindow);
    if window != [] {
      var rest := TakeWhile(DomainContinues, window[1..]);
      TakeWhileIsLongestPassingPrefix(DomainContinues, window[1..]);
      var events := [window[0]] + rest;
      assert events <= window by {
        assert window == [window[0]] + window[1..];
      }
      assert forall i :: 1 <= i < |events| ==> events[i] == rest[i - 1];
      if 0 < |events| < |stream| && |events| < ScanWindow {
        assert window[1..][|rest|] == stream[|events|];
      }
    }
  }

  /** The outcome of this copy of `parse_preview`: the preview HTML. */
  function DomainPreviewSpec(markdown: string, tokenize: Tokenizer, renderHtml: HtmlRenderer): Option<string>
  {
    match FirstQualifying(tokenize, DomainIsReadable, Lines(markdown))
    case None => None
    case Some(start) => Some(renderHtml(DomainPreviewEvents(tokenize(SliceFrom(markdown, start)))))
  }

  /** This copy of `parse_preview`. */
  method ParsePreview(markdown: string, tokenize: Tokenizer, renderHtml: HtmlRenderer) returns (r: Option<string>)
    ensures r == DomainPreviewSpec(markdown, tokenize, renderHtml)
  {
    var start := FindPreviewStart(markdown, tokenize, DomainIsReadable);
    if start.None? {
      return None;
    }
    var events := DomainPreviewEvents(tokenize(SliceFrom(markdown, start.value)));
    r := Some(renderHtml(events));
  }

  /**
   * There is no preview exactly when no newline-terminated line has only text and
   * readable containers among its first 40 events.
   */
  lemma DomainNoPreviewIff(markdown: string, tokenize: Tokenizer, renderHtml: HtmlRenderer)
    ensures DomainPreviewSpec(markdown, tokenize, renderHtml).None? <==>
      forall i :: 0 <= i < |Lines(markdown)| ==> !Qualifies(tokenize, DomainIsReadable, Lines(markdown)[i].1)
  {
    FirstQualifyingIsFirst(tokenize, DomainIsReadable, Lines(markdown));
  }
}
