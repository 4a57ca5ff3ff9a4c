/**
 * The preview tests of the markdown library, `collects_preview` and `it_takes_by_text`:
 * for any tokenizer that reads the documents' lines as the tests' events, the preview and
 * the description are the ones the tests expect.
 */
module PreviewTests {
  import opened Wrappers
  import opened Events
  import opened Preview
  import opened PreviewExamples

  /**
   * `collects_preview`: the heading line is not prose, the blank line after it is, and
   * the preview is the paragraph that follows, without the image paragraph.
   */
  lemma CollectsPreview(tokenize: Tokenizer, renderHtml: HtmlRenderer)
    requires tokenize(HelloTitle) == [Start(Heading(H1)), Text("hello world"), End(Heading(H1))]
    requires tokenize("") == []
    requires tokenize("\n" + HelloBody) == HelloParagraph + [Start(Paragraph)] + HelloImage
    requires renderHtml(HelloParagraph) == "<p>how are you, my friends?</p>\n"
    ensures PreviewEvents(tokenize("\n" + HelloBody)) == HelloParagraph
    ensures PreviewSpec(HelloMarkdown, tokenize, renderHtml).Some?
    ensures PreviewSpec(HelloMarkdown, tokenize, renderHtml).value.preview == "<p>how are you, my friends?</p>\n"
  {
    HeadingIsNotProse(tokenize, HelloTitle, H1, "hello world");
    assert '\n' !in HelloTitle;
    HelloPreview(HelloTitle, HelloBody, tokenize, renderHtml);
  }

  /**
   * Whatever the title line and the text after its blank line, when the title is not prose
   * and the text reads as the paragraph of `collects_preview` and then the image
   * paragraph, the preview is that first paragraph.
   */
  lemma HelloPreview(head: string, body: string, tokenize: Tokenizer, renderHtml: HtmlRenderer)
    requires '\n' !in head && !Qualifies(tokenize, IsReadable, head)
    requires tokenize("") == []
    requires tokenize("\n" + body) == HelloParagraph + [Start(Paragraph)] + HelloImage
    ensures PreviewEvents(tokenize("\n" + body)) == HelloParagraph
    ensures PreviewSpec(head + "\n\n" + body, tokenize, renderHtml)
      == Some(PreviewParse(renderHtml(HelloParagraph), Description(HelloParagraph)))
  {
    HelloParagraphPreview();
    PreviewAfterBlankLine(head, body, tokenize, renderHtml);
  }

  /** The title line of `it_takes_by_text` is one line. */
  lemma DelveTitleIsOneLine()
    ensures '\n' !in DelveTitle
  {
  }

  /**
   * Whatever the title line and the text after its blank line, when the title is not prose
   * and the text reads as the first paragraph of `it_takes_by_text` and then another
   * paragraph, the description is that first paragraph's.
   */
  lemma DelvePreview(head: string, body: string, tokenize: Tokenizer, renderHtml: HtmlRenderer, rest: seq<Event>)
    requires '\n' !in head && !Qualifies(tokenize, IsReadable, head)
    requires tokenize("") == []
    requires tokenize("\n" + body) == DelveIntro() + [Start(Paragraph)] + rest
    ensures PreviewSpec(head + "\n\n" + body, tokenize, renderHtml).Some?
    ensures PreviewSpec(head + "\n\n" + body, tokenize, renderHtml).value.description == DelveDescription
  {
    DelveIntroPreview(rest);
    PreviewAfterBlankLine(head, body, tokenize, renderHtml);
  }

  /**
   * `it_takes_by_text`: the title line is not prose, the blank line after it is, and the
   * description is read off the first paragraph, whatever follows it.
   */
  lemma ItTakesByText(tokenize: Tokenizer, renderHtml: HtmlRenderer, rest: seq<Event>)
    requires tokenize(DelveTitle) ==
      [Start(Heading(H1)), Text("How to setup the Delve debugger in NeoVim"), End(Heading(H1))]
    requires tokenize("") == []
    requires tokenize("\n" + DelveBody) == DelveIntro() + [Start(Paragraph)] + rest
    ensures PreviewSpec(DelveMarkdown, tokenize, renderHtml).Some?
    ensures PreviewSpec(DelveMarkdown, tokenize, renderHtml).value.description == DelveDescription
  {
    HeadingIsNotProse(tokenize, DelveTitle, H1, "How to setup the Delve debugger in NeoVim");
    DelveTitleIsOneLine();
    DelvePreview(DelveTitle, DelveBody, tokenize, renderHtml, rest);
  }
}
