/**
 * The oldest blog compiler. It renders everything up to and including the first level-1
 * heading start as content, renders the events up to the heading's end as the title,
 * and renders the rest as more content. Images are gated by the module's file-name
 * rule and are collected from the whole stream.
 *
 * As written, the heading's end event is peeked to stop the title, the `Peekable`
 * holding it is then dropped, and the rest is rendered from the parser itself; so the
 * heading's end event is rendered nowhere. `ParseAsWritten` models that code;
 * `Parse` keeps the heading's end by rendering the rest from the `Peekable`.
 */
module ModulesParse {
  import opened Wrappers
  import opened Events
  import opened VecSets
  import opened ImageUrls
  import opened Filenames
  import opened Compile
  import opened TakeUntil

  datatype ModulesError = EmptyTitle

  /** The image hook: a URL is recorded when it is a valid file name of the module (png or jpeg). */
  const ModulesGate: Injector := Injector(url => ModuleFilename(url).Success?, url => url)

  /** The events before and including the first level-1 heading start (all of them if none). */
  function PreTitle(events: seq<Event>): seq<Event>
  {
    InclusivePrefix(IsH1Start, events)
  }

  /** The events after `PreTitle` and before the next level-1 heading end. */
  function TitleEvents(events: seq<Event>): seq<Event>
  {
    UntilMatch(IsH1End, events[|PreTitle(events)|..])
  }

  /** Where the title stops: the index of the heading's end event, or the stream's length. */
  function ClosingIndex(events: seq<Event>): nat
  {
    |PreTitle(events)| + |TitleEvents(events)|
  }

  /** What the final `push_html(&mut content, parser)` sees as written: the heading end is gone. */
  function RestAsWritten(events: seq<Event>): seq<Event>
  {
    var b := ClosingIndex(events);
    if b < |events| then events[b + 1..] else []
  }

  /** What the final rendering sees when it reads from the `Peekable`. */
  function Rest(events: seq<Event>): seq<Event>
  {
    events[ClosingIndex(events)..]
  }

  function Outcome(events: seq<Event>, rest: seq<Event>, renderHtml: HtmlRenderer): Result<BlogParse, ModulesError>
  {
    var title := renderHtml(TitleEvents(events));
    if title == [] then Failure(EmptyTitle)
    else Success(BlogParse(title, renderHtml(PreTitle(events)) + title + renderHtml(rest),
                           CollectImages(ModulesGate, events)))
  }

  /** The outcome of `parse` as written. */
  function AsWrittenSpec(events: seq<Event>, renderHtml: HtmlRenderer): Result<BlogParse, ModulesError>
  {
    Outcome(events, RestAsWritten(events), renderHtml)
  }

  /** The outcome of `parse` once the rest is rendered from the `Peekable`. */
  function ParseSpec(events: seq<Event>, renderHtml: HtmlRenderer): Result<BlogParse, ModulesError>
  {
    Outcome(events, Rest(events), renderHtml)
  }

  /**
   * The pre-title is a prefix of the stream that holds no level-1 heading start but its
   * last event, and it stops short of the stream only at such a start.
   */
  lemma PreTitleFacts(events: seq<Event>)
    ensures var pre := PreTitle(events);
      && pre == events[..|pre|]
      && (forall i :: 0 <= i < |pre| - 1 ==> !IsH1Start(events[i]))
      && (|pre| < |events| ==> pre != [] && IsH1Start(events[|pre| - 1]))
  {
    InclusivePrefixFacts(IsH1Start, events);
  }

  /**
   * The title is the run of events after the pre-title that holds no level-1 heading
   * end; it stops either at the end of the stream or at such an end.
   */
  lemma TitleFacts(events: seq<Event>)
    ensures var pre := PreTitle(events);
      var b := ClosingIndex(events);
      && b <= |events|
      && TitleEvents(events) == events[|pre|..b]
      && (forall i :: |pre| <= i < b ==> !IsH1End(events[i]))
      && (b < |events| ==> IsH1End(events[b]))
  {
    var pre := PreTitle(events);
    var after := events[|pre|..];
    UntilMatchFacts(IsH1End, after);
    var t := TitleEvents(events);
    assert forall i :: |pre| <= i < ClosingIndex(events) ==> events[i] == t[i - |pre|];
    if ClosingIndex(events) < |events| {
      assert events[ClosingIndex(events)] == after[|t|];
    }
  }

  /**
   * Once the rest is read from the `Peekable`, the three renderings together see every
   * event of the stream, in order; the heading's end opens the rest.
   */
  lemma RendersEveryEvent(events: seq<Event>)
    ensures PreTitle(events) + TitleEvents(events) + Rest(events) == events
    ensures ClosingIndex(events) < |events| ==> IsH1End(Rest(events)[0])
  {
    PreTitleFacts(events);
    TitleFacts(events);
    var pre := PreTitle(events);
    var b := ClosingIndex(events);
    assert events == events[..|pre|] + events[|pre|..b] + events[b..];
  }

  /**
   * As written, the three renderings see every event except the heading's end: the
   * one the title's adapter peeked before the `Peekable` was dropped.
   */
  lemma DropsHeadingEnd(events: seq<Event>)
    requires ClosingIndex(events) < |events|
    ensures var b := ClosingIndex(events);
      && IsH1End(events[b])
      && PreTitle(events) + TitleEvents(events) + RestAsWritten(events) == events[..b] + events[b + 1..]
  {
    PreTitleFacts(events);
    TitleFacts(events);
    var pre := PreTitle(events);
    var b := ClosingIndex(events);
    assert events[..b] == events[..|pre|] + events[|pre|..b];
  }

  function HeadingExample(): seq<Event>
  {
    [Start(Heading(H1)), Text("Hello world"), End(Heading(H1)), Start(Paragraph), Text("Foo bar"), End(Paragraph)]
  }

  /**
   * `# Hello world\nFoo bar`: as written the content renders `<h1>`, the title text and
   * the paragraph, and the heading's end event reaches no renderer.
   */
  lemma HeadingEndLost()
    ensures PreTitle(HeadingExample()) == [Start(Heading(H1))]
    ensures TitleEvents(HeadingExample()) == [Text("Hello world")]
    ensures RestAsWritten(HeadingExample()) == [Start(Paragraph), Text("Foo bar"), End(Paragraph)]
    ensures Rest(HeadingExample()) == [End(Heading(H1)), Start(Paragraph), Text("Foo bar"), End(Paragraph)]
  {
    var s := HeadingExample();
    InclusivePrefixAt(IsH1Start, s, 0);
    assert s[1..][0] == Text("Hello world") && s[1..][1] == End(Heading(H1));
    UntilMatchAt(IsH1End, s[1..], 1);
    assert ClosingIndex(s) == 2;
  }

  /** Without a level-1 heading the title renders nothing, so the parse fails. */
  lemma NoHeadingIsEmptyTitle(events: seq<Event>, renderHtml: HtmlRenderer)
    requires renderHtml([]) == []
    requires forall i :: 0 <= i < |events| ==> !IsH1Start(events[i])
    ensures AsWrittenSpec(events, renderHtml) == Failure(EmptyTitle)
    ensures ParseSpec(events, renderHtml) == Failure(EmptyTitle)
  {
    InclusivePrefixFacts(IsH1Start, events);
    assert |PreTitle(events)| == |events|;
  }

  /**
   * The images are exactly the module-valid URLs of the inline images anywhere in the
   * stream, title and pre-title included, without duplicates, in the order each was
   * first met.
   */
  lemma ImagesAreModuleFilenames(events: seq<Event>, renderHtml: HtmlRenderer)
    requires AsWrittenSpec(events, renderHtml).Success?
    ensures var images := AsWrittenSpec(events, renderHtml).value.images;
      && images == ParseSpec(events, renderHtml).value.images
      && NoDuplicates(images)
      && (forall x :: x in images <==>
           exists j :: 0 <= j < |events| && IsInlineImage(events[j]) && events[j].tag.url == x
                       && ModuleFilename(x).Success?)
      && InFirstSeenOrder(images, AcceptedUrls(ModulesGate, events))
  {
    CollectImagesFacts(ModulesGate, events);
  }

  // ------------------------------------------------------------ the method

  /** One item of `push_html` over an `InclusiveTakeUntil`: appends the next item, if any. */
  method PullInclusive(it: InclusiveTakeUntil, out: seq<Event>) returns (done: bool, extended: seq<Event>)
    requires it.Valid()
    modifies it, it.iter, it.iter.inner, it.iter.inner.images
    ensures it.Valid()
    ensures extended + it.Remaining() == out + old(it.Remaining())
    ensures done ==> it.Remaining() == [] && extended == out
    ensures !done ==> |it.Remaining()| < |old(it.Remaining())| && |extended| == |out| + 1
    ensures |extended| - |out| <= |old(it.iter.Remaining())|
    ensures it.iter.Remaining() == old(it.iter.Remaining())[|extended| - |out|..]
  {
    ghost var before := it.Remaining();
    var item := it.Next();
    if item.None? {
      return true, out;
    }
    ghost var after := it.Remaining();
    assert before == [item.value] + after;
    assert out + [item.value] + after == out + ([item.value] + after);
    return false, out + [item.value];
  }

  /** `push_html` over an `InclusiveTakeUntil`: drains it. */
  method DrainInclusive(it: InclusiveTakeUntil) returns (out: seq<Event>)
    requires it.Valid() && !it.hasEnded
    modifies it, it.iter, it.iter.inner, it.iter.inner.images
    ensures it.Valid()
    ensures out == InclusivePrefix(it.stop, old(it.iter.Remaining()))
    ensures it.iter.Remaining() == old(it.iter.Remaining())[|out|..]
  {
    ghost var s0 := it.iter.Remaining();
    out := [];
    var done := false;
    while !done
      invariant it.Valid()
      invariant out + it.Remaining() == InclusivePrefix(it.stop, s0)
      invariant done ==> it.Remaining() == []
      invariant |out| <= |s0| && it.iter.Remaining() == s0[|out|..]
      decreases !done, |it.Remaining()|
    {
      ghost var n := |out|;
      done, out := PullInclusive(it, out);
      assert s0[n..][|out| - n..] == s0[|out|..];
    }
  }

  /** One item of `push_html` over a `PeekTakeUntil`. */
  method PullPeek(it: PeekTakeUntil, out: seq<Event>) returns (done: bool, extended: seq<Event>)
    requires it.Valid()
    modifies it.iter, it.iter.inner, it.iter.inner.images
    ensures it.Valid()
    ensures extended + it.Remaining() == out + old(it.Remaining())
    ensures done ==> it.Remaining() == [] && extended == out && it.iter.peeked.Some?
    ensures !done ==> |it.Remaining()| < |old(it.Remaining())| && |extended| == |out| + 1
    ensures |extended| - |out| <= |old(it.iter.Remaining())|
    ensures it.iter.Remaining() == old(it.iter.Remaining())[|extended| - |out|..]
  {
    ghost var before := it.Remaining();
    var item := it.Next();
    if item.None? {
      return true, out;
    }
    ghost var after := it.Remaining();
    assert before == [item.value] + after;
    assert out + [item.value] + after == out + ([item.value] + after);
    return false, out + [item.value];
  }

  /** `push_html` over a `PeekTakeUntil`: drains it; the match is left peeked. */
  method DrainPeek(it: PeekTakeUntil) returns (out: seq<Event>)
    requires it.Valid()
    modifies it.iter, it.iter.inner, it.iter.inner.images
    ensures it.Valid()
    ensures out == UntilMatch(it.stop, old(it.iter.Remaining()))
    ensures it.iter.Remaining() == old(it.iter.Remaining())[|out|..]
    ensures it.iter.peeked.Some?
  {
    ghost var s0 := it.iter.Remaining();
    out := [];
    var done := false;
    while !done
      invariant it.Valid()
      invariant out + it.Remaining() == UntilMatch(it.stop, s0)
      invariant done ==> it.Remaining() == [] && it.iter.peeked.Some?
      invariant |out| <= |s0| && it.iter.Remaining() == s0[|out|..]
      decreases !done, |it.Remaining()|
    {
      ghost var n := |out|;
      done, out := PullPeek(it, out);
      assert s0[n..][|out| - n..] == s0[|out|..];
    }
  }

  /** One item of `push_html` over the inspected parser itself. */
  method PullParser(p: InspectedParser, out: seq<Event>) returns (done: bool, extended: seq<Event>)
    requires p.Valid()
    modifies p, p.images
    ensures p.Valid()
    ensures extended + p.Remaining() == out + old(p.Remaining())
    ensures done ==> p.pos == |p.events| && extended == out
    ensures !done ==> p.pos == old(p.pos) + 1
  {
    ghost var before := p.Remaining();
    var item := p.Next();
    if item.None? {
      return true, out;
    }
    ghost var after := p.Remaining();
    assert before == [item.value] + after;
    assert out + [item.value] + after == out + ([item.value] + after);
    return false, out + [item.value];
  }

  /** `push_html` over the inspected parser itself. */
  method DrainParser(p: InspectedParser) returns (out: seq<Event>)
    requires p.Valid()
    modifies p, p.images
    ensures p.Valid()
    ensures out == old(p.Remaining())
    ensures p.pos == |p.events|
  {
    ghost var s0 := p.Remaining();
    out := [];
    var done := false;
    while !done
      invariant p.Valid()
      invariant out + p.Remaining() == s0
      invariant done ==> p.pos == |p.events|
      decreases !done, |p.events| - p.pos
    {
      done, out := PullParser(p, out);
    }
  }

  /** One item of `push_html` over the `Peekable`. */
  method PullPeekable(p: Peekable, out: seq<Event>) returns (done: bool, extended: seq<Event>)
    requires p.Valid()
    modifies p, p.inner, p.inner.images
    ensures p.Valid()
    ensures extended + p.Remaining() == out + old(p.Remaining())
    ensures done ==> p.Remaining() == [] && extended == out
    ensures !done ==> |p.Remaining()| < |old(p.Remaining())|
  {
    ghost var before := p.Remaining();
    var item := p.Next();
    if item.None? {
      return true, out;
    }
    ghost var after := p.Remaining();
    assert before == [item.value] + after;
    assert out + [item.value] + after == out + ([item.value] + after);
    return false, out + [item.value];
  }

  /** `push_html` over the `Peekable`. */
  method DrainPeekable(p: Peekable) returns (out: seq<Event>)
    requires p.Valid()
    modifies p, p.inner, p.inner.images
    ensures p.Valid()
    ensures out == old(p.Remaining())
    ensures p.inner.pos == |p.inner.events|
  {
    ghost var s0 := p.Remaining();
    out := [];
    var done := false;
    while !done
      invariant p.Valid()
      invariant out + p.Remaining() == s0
      invariant done ==> p.Remaining() == []
      decreases !done, |p.Remaining()|
    {
      done, out := PullPeekable(p, out);
    }
  }

  /** The shared front of both versions: pre-title and title, read through the `Peekable`. */
  method ReadHeading(peekable: Peekable) returns (pre: seq<Event>, title: seq<Event>)
    requires peekable.Valid() && peekable.peeked == None && peekable.inner.pos == 0
    modifies peekable, peekable.inner, peekable.inner.images
    ensures peekable.Valid()
    ensures pre == PreTitle(peekable.inner.events) && title == TitleEvents(peekable.inner.events)
    ensures peekable.Remaining() == peekable.inner.events[ClosingIndex(peekable.inner.events)..]
    ensures peekable.peeked.Some?
  {
    ghost var events := peekable.inner.events;
    assert peekable.Remaining() == events;
    var untilTitle := new InclusiveTakeUntil(peekable, IsH1Start);
    pre := DrainInclusive(untilTitle);
    assert peekable.Remaining() == events[|pre|..];
    var untilTitleEnd := new PeekTakeUntil(peekable, IsH1End);
    title := DrainPeek(untilTitleEnd);
    assert ClosingIndex(events) == |pre| + |title|;
    assert events[|pre|..][|title|..] == events[|pre| + |title|..];
  }

  /**
   * Once the title's adapter has stopped, the parser under the `Peekable` is one event
   * past the `Peekable` when that holds a peeked event, and exhausted otherwise.
   */
  lemma ParserAfterHeading(peekable: Peekable, events: seq<Event>)
    requires peekable.Valid() && peekable.peeked.Some? && peekable.inner.events == events
    requires peekable.Remaining() == events[ClosingIndex(events)..]
    ensures peekable.inner.Remaining() == RestAsWritten(events)
  {
  }

  /** `parse` as written: after the title the rest is rendered from the parser, not the `Peekable`. */
  method ParseAsWritten(markdown: string, tokenize: Tokenizer, renderHtml: HtmlRenderer)
    returns (r: Result<BlogParse, ModulesError>)
    ensures r == AsWrittenSpec(tokenize(markdown), renderHtml)
  {
    ghost var events := tokenize(markdown);
    var parser := new InspectedParser(tokenize(markdown), ModulesGate);
    var peekable := new Peekable(parser);
    var pre, titleEvents := ReadHeading(peekable);
    var content := renderHtml(pre);
    var title := renderHtml(titleEvents);
    // the `Peekable` goes out of scope here, and with it the peeked heading end
    content := content + title;
    ParserAfterHeading(peekable, events);
    var rest := DrainParser(parser);
    content := content + renderHtml(rest);
    RecordedIsCollected(ModulesGate, events, |events|);
    assert events[..|events|] == events;
    if title == [] {
      return Failure(EmptyTitle);
    }
    r := Success(BlogParse(title, content, parser.images.items));
  }

  /** `parse` with the rest rendered from the `Peekable`, so the heading end is kept. */
  method Parse(markdown: string, tokenize: Tokenizer, renderHtml: HtmlRenderer)
    returns (r: Result<BlogParse, ModulesError>)
    ensures r == ParseSpec(tokenize(markdown), renderHtml)
  {
    ghost var events := tokenize(markdown);
    var parser := new InspectedParser(tokenize(markdown), ModulesGate);
    var peekable := new Peekable(parser);
    var pre, titleEvents := ReadHeading(peekable);
    var content := renderHtml(pre);
    var title := renderHtml(titleEvents);
    content := content + title;
    var rest := DrainPeekable(peekable);
    content := content + renderHtml(rest);
    RecordedIsCollected(ModulesGate, events, |events|);
    assert events[..|events|] == events;
    if title == [] {
      return Failure(EmptyTitle);
    }
    r := Success(BlogParse(title, content, parser.images.items));
  }

  // ------------------------------------------------------------- the tests

  /** `parses_pre_title` and `can_parse_title`: the heading start stops the pre-title and stays next. */
  lemma PreTitleStopsBeforeHeading()
    ensures var s := [Start(Paragraph), Text("PreTitle!!"), End(Paragraph), Start(Heading(H1)),
                      Text("Hello world"), End(Heading(H1))];
      UntilMatch(IsH1Start, s) == s[..3] && IsH1Start(s[3])
  {
    var s := [Start(Paragraph), Text("PreTitle!!"), End(Paragraph), Start(Heading(H1)),
              Text("Hello world"), End(Heading(H1))];
    assert !IsH1Start(s[0]) && !IsH1Start(s[1]) && !IsH1Start(s[2]);
    UntilMatchAt(IsH1Start, s, 3);
  }

  /** `parses_until_title`: an inclusive cut at the heading end keeps it in the title. */
  lemma InclusiveCutKeepsHeadingEnd()
    ensures InclusivePrefix(IsH1End, HeadingExample()) == HeadingExample()[..3]
  {
    var s := HeadingExample();
    assert !IsH1End(s[0]) && !IsH1End(s[1]);
    InclusivePrefixAt(IsH1End, s, 2);
  }

  function ModulesImagesExample(): seq<Event>
  {
    [Start(Heading(H1)), Text("Hello guorld"), End(Heading(H1)), Start(Paragraph),
     Start(Image(Inline, "image.png", ""))]
    + ModulesImagesMiddle() + [Start(Image(Inline, "./bruda.png", ""))] + ModulesImagesTail()
  }

  function ModulesImagesMiddle(): seq<Event>
  {
    [Text("image"), End(Image(Inline, "image.png", "")), End(Paragraph), Start(Paragraph),
     Text("Hello"), End(Paragraph), Start(Paragraph)]
  }

  function ModulesImagesTail(): seq<Event>
  {
    [Text("bruda"), End(Image(Inline, "./bruda.png", "")), End(Paragraph)]
  }

  /** `collects_images`: `./bruda.png` has a directory part, so only `image.png` is kept. */
  lemma CollectsImages(tokenize: Tokenizer, renderHtml: HtmlRenderer)
    requires tokenize("# Hello guorld \n![image](image.png)\n\nHello\n\n![bruda](./bruda.png)")
      == ModulesImagesExample()
    requires renderHtml([Text("Hello guorld")]) != []
    ensures var r := AsWrittenSpec(tokenize("# Hello guorld \n![image](image.png)\n\nHello\n\n![bruda](./bruda.png)"),
                                   renderHtml);
      r.Success? && r.value.images == ["image.png"]
  {
    ModulesExampleTitle();
    ModulesExampleUrls();
  }

  lemma ModulesExampleTitle()
    ensures TitleEvents(ModulesImagesExample()) == [Text("Hello guorld")]
  {
    var s := ModulesImagesExample();
    assert s[0] == Start(Heading(H1));
    InclusivePrefixAt(IsH1Start, s, 0);
    assert s[1..][0] == Text("Hello guorld") && s[1..][1] == End(Heading(H1));
    UntilMatchAt(IsH1End, s[1..], 1);
  }

  lemma ModulesExampleUrls()
    ensures CollectImages(ModulesGate, ModulesImagesExample()) == ["image.png"]
  {
    ModuleImageNames();
    ModulesExampleAccepted(ModulesGate);
    assert InsertAll([], ["image.png"]) == ["image.png"] by {
      assert ["image.png"][1..] == [];
    }
  }

  /** Which of the example's two images an injector accepts. */
  lemma ModulesExampleAccepted(injector: Injector)
    ensures AcceptedUrls(injector, ModulesImagesExample()) ==
      (if injector.isValid("image.png") then ["image.png"] else [])
      + (if injector.isValid("./bruda.png") then ["./bruda.png"] else [])
  {
    var head := [Start(Heading(H1)), Text("Hello guorld"), End(Heading(H1)), Start(Paragraph)];
    var first := [Start(Image(Inline, "image.png", ""))];
    var second := [Start(Image(Inline, "./bruda.png", ""))];
    assert ModulesImagesExample() == head + first + ModulesImagesMiddle() + second + ModulesImagesTail();
    NoInlineImagesNoUrls(injector, head);
    NoInlineImagesNoUrls(injector, ModulesImagesMiddle());
    NoInlineImagesNoUrls(injector, ModulesImagesTail());
    assert AcceptedUrls(injector, first) == if injector.isValid("image.png") then ["image.png"] else [] by {
      assert first[1..] == [];
    }
    assert AcceptedUrls(injector, second) == if injector.isValid("./bruda.png") then ["./bruda.png"] else [] by {
      assert second[1..] == [];
    }
    AcceptedUrlsAppend(injector, head + first + ModulesImagesMiddle() + second, ModulesImagesTail());
    AcceptedUrlsAppend(injector, head + first + ModulesImagesMiddle(), second);
    AcceptedUrlsAppend(injector, head + first, ModulesImagesMiddle());
    AcceptedUrlsAppend(injector, head, first);
  }

  lemma ModuleImageNames()
    ensures ModuleFilename("image.png").Success?
    ensures ModuleFilename("./bruda.png").Failure?
  {
    NewWithExtensionExamples();
    assert "./bruda.png"[1] == '/';
  }

  lemma {:induction false} NoInlineImagesNoUrls(injector: Injector, s: seq<Event>)
    requires forall i :: 0 <= i < |s| ==> !IsInlineImage(s[i])
    ensures AcceptedUrls(injector, s) == []
  {
    if s != [] {
      NoInlineImagesNoUrls(injector, s[1..]);
    }
  }
}
