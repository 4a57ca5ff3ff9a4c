/**
 * The application's image-URL injector: a hosted image is one whose URL is a valid
 * blog file name, and its URL is rewritten to the blog's public image route on this
 * server, `{server}/blogs/{blog id}/public/{file name}`.
 */
module ImgHostInjector {
  import opened Wrappers
  import opened Events
  import opened ImageUrls
  import opened Filenames
  import opened Titles
  import opened BlockTransducer
  import opened Compile
  import opened DomainParse
  import opened VecSets
  import opened Uuids

  /** `ImgHostInjectorFactory`: the server's public address. */
  datatype Factory = Factory(serverAddress: string)

  /** `ImgHostInjector`: the server's address and the blog the images belong to. */
  datatype HostInjector = HostInjector(serverAddress: string, blogId: Uuid)

  /** `create`: an injector for one blog on this server. */
  function Create(factory: Factory, blogId: Uuid): (r: HostInjector)
    ensures r.serverAddress == factory.serverAddress && r.blogId == blogId
  {
    HostInjector(factory.serverAddress, blogId)
  }

  /** `is_valid`: the URL is a valid blog image file name. */
  predicate IsValid(h: HostInjector, url: string)
  {
    BlogFilename(url).Success?
  }

  /**
   * `inject`: the URL moved under the blog's public route. The file name stays at the
   * end, after the blog's identifier.
   */
  function Inject(h: HostInjector, url: string): (r: string)
    ensures |r| == |h.serverAddress| + 51 + |url|
    ensures r[..|h.serverAddress|] == h.serverAddress
    ensures r[|h.serverAddress|..|h.serverAddress| + 7] == "/blogs/"
    ensures r[|h.serverAddress| + 7..|h.serverAddress| + 43] == Hyphenated(h.blogId)
    ensures r[|h.serverAddress| + 43..|h.serverAddress| + 51] == "/public/"
    ensures r[|h.serverAddress| + 51..] == url
  {
    var a := h.serverAddress;
    var r := a + "/blogs/" + Hyphenated(h.blogId) + "/public/" + url;
    assert r == a + ("/blogs/" + (Hyphenated(h.blogId) + ("/public/" + url)));
    r
  }

  /**
   * Rewriting loses nothing: on one server, the rewritten URL determines both the
   * original URL and the blog.
   */
  lemma InjectInjective(h: HostInjector, g: HostInjector, url: string, other: string)
    requires h.serverAddress == g.serverAddress
    requires Inject(h, url) == Inject(g, other)
    ensures url == other && h.blogId == g.blogId
  {
    var n := |h.serverAddress|;
    assert Hyphenated(h.blogId) == Inject(h, url)[n + 7..n + 43];
    HyphenatedInjective(h.blogId, g.blogId);
  }

  /** The injector as the compiler sees it. */
  function AsInjector(h: HostInjector): (r: Injector)
    ensures forall url :: r.isValid(url) <==> BlogFilename(url).Success?
    ensures forall url :: r.inject(url) == Inject(h, url)
  {
    Injector(url => IsValid(h, url), url => Inject(h, url))
  }

  // ---------------------------------------------------------------- tests

  const Localhost: string := "http://localhost:3000"

  /** The rewritten URL of the test: `wosi.jpg` of the nil blog on localhost. */
  const WosiHosted: string := "http://localhost:3000" + "/blogs/" + NilDisplay + "/public/" + "wosi.jpg"

  lemma WosiInjected()
    ensures Inject(Create(Factory(Localhost), NilUuid), "wosi.jpg") == WosiHosted
  {
    NilHyphenated();
  }

  /** The tokens of `# Hello my brodas\n![image](wosi.jpg)`. */
  function WosiExample(): seq<Event>
  {
    [Start(Heading(H1)), Text("Hello my brodas"), End(Heading(H1))] + WosiBody("wosi.jpg")
  }

  /** The paragraph holding the image, with the image at `url`. */
  function WosiBody(url: string): seq<Event>
  {
    [Start(Paragraph), Start(Image(Inline, url, "")), Text("image"), End(Image(Inline, "wosi.jpg", "")), End(Paragraph)]
  }

  lemma WosiTitle()
    ensures TitleSpec(WosiExample()) == Success(("Hello my brodas", 3))
    ensures WosiExample()[3..] == WosiBody("wosi.jpg")
    ensures WosiExample()[..3] == [Start(Heading(H1)), Text("Hello my brodas"), End(Heading(H1))]
  {
    TitleOfHeading(["Hello my brodas"], WosiBody("wosi.jpg"));
    assert TextEvents(["Hello my brodas"]) == [Text("Hello my brodas")];
    assert Concat(["Hello my brodas"]) == "Hello my brodas";
    assert WosiExample() == [Start(Heading(H1))] + TextEvents(["Hello my brodas"]) + [End(Heading(H1))]
      + WosiBody("wosi.jpg");
  }

  lemma WosiIsBlogImage()
    ensures BlogFilename("wosi.jpg").Success?
  {
    ExtensionOf("wosi", "jpg");
    assert "wosi" + "." + "jpg" == "wosi.jpg";
  }

  /** Only the image is rewritten; the rest of the paragraph is left as it is. */
  lemma WosiMutated(injector: Injector)
    requires injector.isValid("wosi.jpg")
    ensures MutateAll(injector, WosiBody("wosi.jpg")) == WosiBody(injector.inject("wosi.jpg"))
    ensures AcceptedUrls(injector, WosiBody("wosi.jpg")) == ["wosi.jpg"]
  {
    var body := WosiBody("wosi.jpg");
    assert Accepts(injector, body[1]);
    var tail := body[2..];
    NoImagesNoUrls(injector, tail);
    assert body[1..][1..] == tail;
  }

  /** The test document through any injector that hosts `wosi.jpg`: its title and images. */
  lemma WosiCompiled(tokenize: Tokenizer, injector: Injector, renderHtml: HtmlRenderer, renderCode: CodeRenderer)
    requires tokenize("# Hello my brodas\n![image](wosi.jpg)") == WosiExample()
    requires injector.isValid("wosi.jpg")
    ensures var r := CompileSpec(tokenize("# Hello my brodas\n![image](wosi.jpg)"), injector, renderHtml, renderCode);
      r.Success? && r.value.images == ["wosi.jpg"]
  {
    WosiTitle();
    WosiMutated(injector);
    assert InsertAll([], ["wosi.jpg"]) == ["wosi.jpg"] by {
      assert ["wosi.jpg"][1..] == [];
    }
  }

  /** The test document through any injector that hosts `wosi.jpg`: its HTML. */
  lemma WosiContent(tokenize: Tokenizer, injector: Injector, renderHtml: HtmlRenderer, renderCode: CodeRenderer)
    requires tokenize("# Hello my brodas\n![image](wosi.jpg)") == WosiExample()
    requires injector.isValid("wosi.jpg")
    ensures var r := CompileSpec(tokenize("# Hello my brodas\n![image](wosi.jpg)"), injector, renderHtml, renderCode);
      r.Success? && r.value.content ==
        renderHtml([Start(Heading(H1)), Text("Hello my brodas"), End(Heading(H1))])
          + renderHtml(WosiBody(injector.inject("wosi.jpg")))
  {
    WosiTitle();
    WosiMutated(injector);
    WosiPassesThrough(injector.inject("wosi.jpg"), renderCode);
  }

  /** The example has no fenced code, so the block transducer leaves it as it is. */
  lemma WosiPassesThrough(url: string, renderCode: CodeRenderer)
    ensures Transduce([Start(Heading(H1)), Text("Hello my brodas"), End(Heading(H1))], renderCode)
      == [Start(Heading(H1)), Text("Hello my brodas"), End(Heading(H1))]
    ensures Transduce(WosiBody(url), renderCode) == WosiBody(url)
  {
    PassThrough([Start(Heading(H1)), Text("Hello my brodas"), End(Heading(H1))], renderCode);
    PassThrough(WosiBody(url), renderCode);
  }

  /**
   * `injects_url`: the original `wosi.jpg` is collected, and the HTML of the body is
   * rendered from a stream whose image points at the blog's public route.
   */
  lemma InjectsUrl(tokenize: Tokenizer, renderHtml: HtmlRenderer, renderCode: CodeRenderer)
    requires tokenize("# Hello my brodas\n![image](wosi.jpg)") == WosiExample()
    ensures var r := CompileSpec(tokenize("# Hello my brodas\n![image](wosi.jpg)"),
      AsInjector(Create(Factory(Localhost), NilUuid)), renderHtml, renderCode);
      && r.Success?
      && r.value.images == ["wosi.jpg"]
      && r.value.content ==
        renderHtml([Start(Heading(H1)), Text("Hello my brodas"), End(Heading(H1))])
          + renderHtml(WosiBody(WosiHosted))
  {
    var injector := AsInjector(Create(Factory(Localhost), NilUuid));
    WosiIsBlogImage();
    WosiInjected();
    assert injector.inject("wosi.jpg") == WosiHosted;
    WosiCompiled(tokenize, injector, renderHtml, renderCode);
    WosiContent(tokenize, injector, renderHtml, renderCode);
  }

  /** An injector that hosts `image.png` but not `./bruda.png` collects only the former. */
  lemma ValidExampleUrls(injector: Injector)
    requires injector.isValid("image.png") && !injector.isValid("./bruda.png")
    ensures CollectImages(injector, ImagesExampleBody()) == ["image.png"]
  {
    ImagesExampleAccepted(injector);
    assert InsertAll([], ["image.png"]) == ["image.png"] by {
      assert ["image.png"][1..] == [];
    }
  }

  /** This injector hosts `image.png` and refuses `./bruda.png`. */
  lemma HostsBareImage(h: HostInjector)
    ensures AsInjector(h).isValid("image.png") && !AsInjector(h).isValid("./bruda.png")
  {
    BareImageNames();
  }

  /**
   * `only_collects_valid_images`: with this injector, `./bruda.png` (which has a
   * directory part) is not collected; `image.png` is.
   */
  lemma OnlyCollectsValidImages(tokenize: Tokenizer, renderHtml: HtmlRenderer, renderCode: CodeRenderer)
    requires tokenize("# Hello guorld \n![image](image.png)\nHello\n![bruda](./bruda.png)") == ImagesExample()
    ensures var r := CompileSpec(tokenize("# Hello guorld \n![image](image.png)\nHello\n![bruda](./bruda.png)"),
      AsInjector(Create(Factory(Localhost), NilUuid)), renderHtml, renderCode);
      r.Success? && r.value.images == ["image.png"]
  {
    var injector := AsInjector(Create(Factory(Localhost), NilUuid));
    ImagesExampleTitle();
    HostsBareImage(Create(Factory(Localhost), NilUuid));
    ValidExampleUrls(injector);
  }
}
