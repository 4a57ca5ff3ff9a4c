/**
 * The library's `parse`: a post's markdown compiled to its title, its HTML content
 * (fenced code blocks rendered by the code-block renderer) and the images it hosts.
 */
module Compile {
  import opened Wrappers
  import opened Events
  import opened VecSets
  import opened BlockTransducer
  import opened Titles
  import opened ImageUrls

  /** `BlogParse`; `images` is the `VecSet`'s inner sequence. */
  datatype BlogParse = BlogParse(title: string, content: string, images: seq<string>)

  /**
   * The outcome of `parse` on the token stream `events`: the title rules decide
   * success; the title events are rendered as they are, the rest after `mutate_item`,
   * each through its own run of the block transducer.
   */
  function CompileSpec(events: seq<Event>, injector: Injector, renderHtml: HtmlRenderer, renderCode: CodeRenderer)
    : Result<BlogParse, Error>
  {
    match TitleSpec(events)
    case Failure(e) => Failure(e)
    case Success(t) => Success(Assemble(events, t.0, t.1, injector, renderHtml, renderCode))
  }

  /** The parse of a stream whose title `title` takes its first `k` events. */
  function Assemble(events: seq<Event>, title: string, k: nat, injector: Injector, renderHtml: HtmlRenderer,
                    renderCode: CodeRenderer): BlogParse
    requires k <= |events|
  {
    BlogParse(
      title,
      renderHtml(Transduce(events[..k], renderCode))
        + renderHtml(Transduce(MutateAll(injector, events[k..]), renderCode)),
      CollectImages(injector, events[k..]))
  }

  /** `parse`. */
  method Parse(markdown: string, tokenize: Tokenizer, injector: Injector, renderHtml: HtmlRenderer, renderCode: CodeRenderer)
    returns (r: Result<BlogParse, Error>)
    ensures r == CompileSpec(tokenize(markdown), injector, renderHtml, renderCode)
  {
    var events := tokenize(markdown);
    var title := ReadTitle(events);
    if title.Failure? {
      return Failure(title.error);
    }
    var content, images := RenderBody(events, title.value.1, injector, renderHtml, renderCode);
    r := Success(BlogParse(title.value.0, content, images));
  }

  /**
   * The body of `parse` after the title: the title events through one run of the
   * transducer, the rest through `mutate_item` and another run, the images gathered.
   */
  method RenderBody(events: seq<Event>, k: nat, injector: Injector, renderHtml: HtmlRenderer, renderCode: CodeRenderer)
    returns (content: string, images: seq<string>)
    requires k <= |events|
    ensures content == Assemble(events, [], k, injector, renderHtml, renderCode).content
    ensures images == Assemble(events, [], k, injector, renderHtml, renderCode).images
  {
    var head := ExtendParse("", events[..k], renderHtml, renderCode);
    assert head == renderHtml(Transduce(events[..k], renderCode));
    var mapped;
    mapped, images := MutateStream(events[k..], injector);
    content := ExtendParse(head, mapped, renderHtml, renderCode);
    ghost var parse := Assemble(events, [], k, injector, renderHtml, renderCode);
    assert parse.content == head + renderHtml(Transduce(mapped, renderCode));
  }

  /**
   * When the heading is closed, the content starts with the HTML of the title events
   * exactly as tokenized: they bypass both `mutate_item` and the code-block rewrite.
   */
  lemma ContentStartsWithTitle(events: seq<Event>, injector: Injector, renderHtml: HtmlRenderer, renderCode: CodeRenderer)
    requires TitleSpec(events).Success?
    requires IsH1End(events[TitleSpec(events).value.1 - 1])
    ensures var k := TitleSpec(events).value.1;
      CompileSpec(events, injector, renderHtml, renderCode).value.content
        == renderHtml(events[..k]) + renderHtml(Transduce(MutateAll(injector, events[k..]), renderCode))
  {
    var k := TitleSpec(events).value.1;
    TitleEndFacts(events, 1);
    var head := events[..k];
    assert NoFencedEnd(head) by {
      forall i | 0 <= i < |head| ensures !IsFencedCodeEnd(head[i]) {
        if 0 < i < k - 1 {
          assert head[i] == events[i];
        }
      }
    }
    PassThrough(head, renderCode);
  }

  /**
   * The images are the original URLs of exactly the accepted inline images after the
   * title, each once, in the order each was first accepted.
   */
  lemma ImagesAreAcceptedAfterTitle(events: seq<Event>, injector: Injector, renderHtml: HtmlRenderer, renderCode: CodeRenderer)
    requires TitleSpec(events).Success?
    ensures var k := TitleSpec(events).value.1;
      var images := CompileSpec(events, injector, renderHtml, renderCode).value.images;
      && NoDuplicates(images)
      && (forall x :: x in images <==>
           exists j :: k <= j < |events| && Accepts(injector, events[j]) && events[j].tag.url == x)
      && InFirstSeenOrder(images, AcceptedUrls(injector, events[k..]))
  {
    var k := TitleSpec(events).value.1;
    CollectImagesFacts(injector, events[k..]);
    CollectedFromSuffix(injector, events, k);
  }

  /** The injector of the library's own tests: accepts every URL and rewrites none. */
  const NoopInjector := Injector(_ => true, url => url)

  /** A document that opens with a paragraph has no title. */
  lemma TitleMustComeFirst(tokenize: Tokenizer, renderHtml: HtmlRenderer, renderCode: CodeRenderer)
    requires tokenize("This is not a title\n# Hello guorld\n") ==
      [Start(Paragraph), Text("This is not a title"), End(Paragraph),
       Start(Heading(H1)), Text("Hello guorld"), End(Heading(H1))]
    ensures CompileSpec(tokenize("This is not a title\n# Hello guorld\n"), NoopInjector, renderHtml, renderCode)
      == Failure(InvalidTitle)
  {
  }

  /** An image inside the heading makes the title invalid. */
  lemma TitleMustBeText(tokenize: Tokenizer, renderHtml: HtmlRenderer, renderCode: CodeRenderer)
    requires tokenize("# Hello  ![world](image.png) peace") ==
      [Start(Heading(H1)), Text("Hello  "), Start(Image(Inline, "image.png", "")), Text("world"),
       End(Image(Inline, "image.png", "")), Text(" peace"), End(Heading(H1))]
    ensures CompileSpec(tokenize("# Hello  ![world](image.png) peace"), NoopInjector, renderHtml, renderCode)
      == Failure(InvalidTitle)
  {
    var events := tokenize("# Hello  ![world](image.png) peace");
    assert TitleEnd(events, 2) == None;
  }

  /** The title is the heading's text without markup. */
  lemma CleanTitle(tokenize: Tokenizer, renderHtml: HtmlRenderer, renderCode: CodeRenderer)
    requires tokenize("# Hello my brodas") == [Start(Heading(H1)), Text("Hello my brodas"), End(Heading(H1))]
    ensures var r := CompileSpec(tokenize("# Hello my brodas"), NoopInjector, renderHtml, renderCode);
      r.Success? && r.value.title == "Hello my brodas"
  {
    TitleOfHeading(["Hello my brodas"], []);
    assert TextEvents(["Hello my brodas"]) == [Text("Hello my brodas")];
    assert [Start(Heading(H1))] + [Text("Hello my brodas")] + [End(Heading(H1))] + []
      == tokenize("# Hello my brodas");
  }

  /** Both images are collected, in document order, as written. */
  lemma CollectsImages(tokenize: Tokenizer, renderHtml: HtmlRenderer, renderCode: CodeRenderer)
    requires tokenize("# Hello guorld \n![image](image.png)\nHello\n![bruda](./bruda.png)") == ImagesExample()
    ensures var r := CompileSpec(tokenize("# Hello guorld \n![image](image.png)\nHello\n![bruda](./bruda.png)"),
      NoopInjector, renderHtml, renderCode);
      r.Success? && r.value.images == ["image.png", "./bruda.png"]
  {
    ImagesExampleTitle();
    ImagesExampleUrls();
  }

  /** The tokens of the image-collection example. */
  function ImagesExample(): seq<Event>
  {
    [Start(Heading(H1)), Text("Hello guorld"), End(Heading(H1))] + ImagesExampleBody()
  }

  function ImagesExampleBody(): seq<Event>
  {
    [Start(Paragraph), Start(Image(Inline, "image.png", ""))] + ImagesExampleMiddle()
      + [Start(Image(Inline, "./bruda.png", ""))] + ImagesExampleTail()
  }

  function ImagesExampleMiddle(): seq<Event>
  {
    [Text("image"), End(Image(Inline, "image.png", "")), SoftBreak, Text("Hello"), SoftBreak]
  }

  function ImagesExampleTail(): seq<Event>
  {
    [Text("bruda"), End(Image(Inline, "./bruda.png", "")), End(Paragraph)]
  }

  lemma ImagesExampleTitle()
    ensures TitleSpec(ImagesExample()) == Success(("Hello guorld", 3))
    ensures ImagesExample()[3..] == ImagesExampleBody()
  {
    TitleOfHeading(["Hello guorld"], ImagesExampleBody());
    assert TextEvents(["Hello guorld"]) == [Text("Hello guorld")];
    assert Concat(["Hello guorld"]) == "Hello guorld";
    assert ImagesExample() == [Start(Heading(H1))] + TextEvents(["Hello guorld"]) + [End(Heading(H1))] + ImagesExampleBody();
  }

  lemma ImagesExampleUrls()
    ensures CollectImages(NoopInjector, ImagesExampleBody()) == ["image.png", "./bruda.png"]
  {
    ImagesExampleAccepted(NoopInjector);
    assert "./bruda.png"[0] != "image.png"[0];
    InsertTwoDistinct("image.png", "./bruda.png");
  }

  lemma InsertTwoDistinct<T>(a: T, b: T)
    requires a != b
    ensures InsertAll([], [a, b]) == [a, b]
  {
    assert [a, b][1..] == [b];
    assert [b][1..] == [];
    assert b !in [a];
    assert [] + [a] == [a] && [a] + [b] == [a, b];
    assert InsertAll([], [a, b]) == InsertAll([a], [b]);
    assert InsertAll([a], [b]) == InsertAll([a, b], []);
  }

  /** Which of the example's two images an injector accepts. */
  lemma ImagesExampleAccepted(injector: Injector)
    ensures AcceptedUrls(injector, ImagesExampleBody()) ==
      (if injector.isValid("image.png") then ["image.png"] else [])
      + (if injector.isValid("./bruda.png") then ["./bruda.png"] else [])
  {
    var head := [Start(Paragraph), Start(Image(Inline, "image.png", ""))];
    var second := [Start(Image(Inline, "./bruda.png", ""))];
    NoImagesNoUrls(injector, ImagesExampleMiddle());
    NoImagesNoUrls(injector, ImagesExampleTail());
    assert AcceptedUrls(injector, head) == if injector.isValid("image.png") then ["image.png"] else [] by {
      var img := [Start(Image(Inline, "image.png", ""))];
      assert head[1..] == img && img[1..] == [];
      assert !Accepts(injector, head[0]);
      assert AcceptedUrls(injector, img) == if injector.isValid("image.png") then ["image.png"] else [];
    }
    assert AcceptedUrls(injector, second) == if injector.isValid("./bruda.png") then ["./bruda.png"] else [] by {
      assert second[1..] == [];
    }
    AcceptedUrlsAppend(injector, head + ImagesExampleMiddle() + second, ImagesExampleTail());
    AcceptedUrlsAppend(injector, head + ImagesExampleMiddle(), second);
    AcceptedUrlsAppend(injector, head, ImagesExampleMiddle());
  }

  lemma {:induction false} NoImagesNoUrls(injector: Injector, s: seq<Event>)
    requires forall i :: 0 <= i < |s| ==> !s[i].Start?
    ensures AcceptedUrls(injector, s) == []
  {
    if s != [] {
      NoImagesNoUrls(injector, s[1..]);
    }
  }
}
