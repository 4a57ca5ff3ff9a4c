/**
 * The documents of the markdown library's preview tests and the events a tokenizer reads
 * in them, with their word counts and descriptions.
 */
module PreviewExamples {
  import opened Wrappers
  import opened Text
  import opened Events
  import opened TakeCounts
  import opened Preview

  /** The events of an inline link around `text`. */
  function LinkEvents(url: string, text: string): (r: seq<Event>)
    ensures |r| == 3 && forall i :: 0 <= i < 3 ==> Continues(r[i])
  {
    [Start(Link(Inline, url, "")), Text(text), End(Link(Inline, url, ""))]
  }

  /** A link weighs the words of its text. */
  lemma LinkWeight(url: string, text: string)
    ensures Total(LinkEvents(url, text), WordWeight) == WordCount(text)
  {
    var open, close := Start(Link(Inline, url, "")), End(Link(Inline, url, ""));
    assert LinkEvents(url, text) == [open] + [Text(text), close];
    TotalCons(open, [Text(text), close], WordWeight);
    PairWeight(Text(text), close);
  }

  /** A link reads as its text. */
  lemma LinkText(url: string, text: string)
    ensures Description(LinkEvents(url, text)) == text
  {
    var open, close := Start(Link(Inline, url, "")), End(Link(Inline, url, ""));
    assert LinkEvents(url, text) == [open] + [Text(text), close];
    DescriptionCons(open, [Text(text), close]);
    PairText(Text(text), close);
  }

  lemma PairWeight(a: Event, b: Event)
    ensures Total([a, b], WordWeight) == WordWeight(a) + WordWeight(b)
  {
    assert [a, b] == [a] + [b] && [b] == [b] + [];
    TotalCons(a, [b], WordWeight);
    TotalCons(b, [], WordWeight);
  }

  lemma PairText(a: Event, b: Event)
    ensures Description([a, b]) == DescriptionOf(a) + DescriptionOf(b)
  {
    assert [a, b] == [a] + [b] && [b] == [b] + [];
    DescriptionCons(a, [b]);
    DescriptionCons(b, []);
  }

  // collects_preview

  const HelloTitle: string := "# hello world"
  const HelloBody: string := "how are you, my friends?\n\n![bruda](./bruda.png)"
  const HelloMarkdown: string := HelloTitle + "\n\n" + HelloBody
  const HelloParagraph: seq<Event> := [Start(Paragraph), Text("how are you, my friends?"), End(Paragraph)]
  /** The rest of the image paragraph, after its start. */
  const HelloImage: seq<Event> :=
    [Start(Image(Inline, "./bruda.png", "")), Text("bruda"), End(Image(Inline, "./bruda.png", "")), End(Paragraph)]

  /** A paragraph of one text: its weight is the text's words and its events continue. */
  lemma OneTextParagraph(t: string)
    ensures Total([Start(Paragraph), Text(t), End(Paragraph)], WordWeight) == WordCount(t)
    ensures forall i :: 1 <= i < 3 ==> Continues([Start(Paragraph), Text(t), End(Paragraph)][i])
  {
    assert [Start(Paragraph), Text(t), End(Paragraph)] == [Start(Paragraph)] + [Text(t), End(Paragraph)];
    TotalCons(Start(Paragraph), [Text(t), End(Paragraph)], WordWeight);
    PairWeight(Text(t), End(Paragraph));
  }

  /** A paragraph of one text under the word budget, then another paragraph: the preview is the first. */
  lemma OneTextParagraphPreview(t: string, rest: seq<Event>)
    requires WordCount(t) < WordBudget
    ensures var run := [Start(Paragraph), Text(t), End(Paragraph)];
      PreviewEvents(run + [Start(Paragraph)] + rest) == run
  {
    OneTextParagraph(t);
    PreviewStopsAt([Start(Paragraph), Text(t), End(Paragraph)], Start(Paragraph), rest);
  }

  /** The paragraph of `collects_preview`, followed by the image paragraph, is the preview. */
  lemma HelloParagraphPreview()
    ensures PreviewEvents(HelloParagraph + [Start(Paragraph)] + HelloImage) == HelloParagraph
  {
    WordsAtMostLength("how are you, my friends?", true);
    OneTextParagraphPreview("how are you, my friends?", HelloImage);
  }

  // it_takes_by_text

  const DelveTitle: string := "# How to setup the Delve debugger in NeoVim"
  const DelveBody: string :=
    "In this post I will explain you how did I configured my [Golang](https://go.dev/)\n"
    + "debugger experience in NeoVim using [mason.nvim](https://github.com/williamboman/mason.nvim), \n"
    + "[nvim-dap](https://github.com/mfussenegger/nvim-dap) and the Delve Golang debugger.\n"
    + "\n"
    + "This explanation may work for others debuggers as codelldb, but for most dap \n"
    + "configurations I just use a plugin.\n"
    + "\n"
    + "First of all, if you want to just copy and paste, go [here](#copy-and-paste)\n"
  const DelveMarkdown: string := DelveTitle + "\n\n" + DelveBody

  // The texts of the first paragraph, word by word.
  const DelveText1: string :=
    "In " + "this " + "post " + "I " + "will " + "explain " + "you " + "how " + "did " + "I " + "configured " + "my "
  const DelveText2: string := "debugger " + "experience " + "in " + "NeoVim " + "using "
  const DelveText3: string := " " + "and " + "the " + "Delve " + "Golang " + "debugger."

  /**
   * The description `it_takes_by_text` expects, "In this post I will explain you how did I
   * configured my Golang  debugger experience in NeoVim using mason.nvim,   nvim-dap and
   * the Delve Golang debugger.", spelled out piece by piece.
   */
  const DelveDescription: string :=
    DelveText1 + "Golang" + "  " + DelveText2 + "mason.nvim" + ", " + "  " + "nvim-dap" + DelveText3

  /** The events of the first paragraph of `DelveBody`. */
  function DelveIntro(): seq<Event>
  {
    ThreeLinkParagraph(DelveText1, "https://go.dev/", "Golang", DelveText2,
      "https://github.com/williamboman/mason.nvim", "mason.nvim", ", ",
      "https://github.com/mfussenegger/nvim-dap", "nvim-dap", DelveText3)
  }

  /** Weights add up over seven consecutive pieces. */
  lemma SevenWeights(a: seq<Event>, b: seq<Event>, c: seq<Event>, d: seq<Event>, e: seq<Event>, f: seq<Event>, g: seq<Event>)
    ensures Total(a + b + c + d + e + f + g, WordWeight) ==
      Total(a, WordWeight) + Total(b, WordWeight) + Total(c, WordWeight) + Total(d, WordWeight)
      + Total(e, WordWeight) + Total(f, WordWeight) + Total(g, WordWeight)
  {
    TotalAppend(a + b + c + d + e + f, g, WordWeight);
    TotalAppend(a + b + c + d + e, f, WordWeight);
    TotalAppend(a + b + c + d, e, WordWeight);
    TotalAppend(a + b + c, d, WordWeight);
    TotalAppend(a + b, c, WordWeight);
    TotalAppend(a, b, WordWeight);
  }

  /** Descriptions concatenate over seven consecutive pieces. */
  lemma SevenDescriptions(a: seq<Event>, b: seq<Event>, c: seq<Event>, d: seq<Event>, e: seq<Event>, f: seq<Event>, g: seq<Event>)
    ensures Description(a + b + c + d + e + f + g) ==
      Description(a) + Description(b) + Description(c) + Description(d)
      + Description(e) + Description(f) + Description(g)
  {
    DescriptionAppend(a + b + c + d + e + f, g);
    DescriptionAppend(a + b + c + d + e, f);
    DescriptionAppend(a + b + c + d, e);
    DescriptionAppend(a + b + c, d);
    DescriptionAppend(a + b, c);
    DescriptionAppend(a, b);
  }

  /** A paragraph of texts around three links, with a soft break after the first and second. */
  function ThreeLinkParagraph(t1: string, u1: string, l1: string, t2: string, u2: string, l2: string,
                              t3: string, u3: string, l3: string, t4: string): seq<Event>
  {
    [Start(Paragraph), Text(t1)] + LinkEvents(u1, l1) + [SoftBreak, Text(t2)]
      + LinkEvents(u2, l2) + [Text(t3), SoftBreak] + LinkEvents(u3, l3) + [Text(t4), End(Paragraph)]
  }

  /** In such a paragraph every event after the first continues the preview. */
  lemma ThreeLinkParagraphContinues(t1: string, u1: string, l1: string, t2: string, u2: string, l2: string,
                                    t3: string, u3: string, l3: string, t4: string)
    ensures var events := ThreeLinkParagraph(t1, u1, l1, t2, u2, l2, t3, u3, l3, t4);
      forall i :: 1 <= i < |events| ==> Continues(events[i])
  {
    ContinuesAfterFirst([Start(Paragraph), Text(t1)], LinkEvents(u1, l1), [SoftBreak, Text(t2)],
      LinkEvents(u2, l2), [Text(t3), SoftBreak], LinkEvents(u3, l3), [Text(t4), End(Paragraph)]);
  }

  /** The weight of such a paragraph is the words of its texts. */
  lemma ThreeLinkParagraphWeight(t1: string, u1: string, l1: string, t2: string, u2: string, l2: string,
                                 t3: string, u3: string, l3: string, t4: string)
    ensures Total(ThreeLinkParagraph(t1, u1, l1, t2, u2, l2, t3, u3, l3, t4), WordWeight) ==
      WordCount(t1) + WordCount(l1) + WordCount(t2) + WordCount(l2) + WordCount(t3) + WordCount(l3) + WordCount(t4)
  {
    SevenWeights([Start(Paragraph), Text(t1)], LinkEvents(u1, l1), [SoftBreak, Text(t2)],
      LinkEvents(u2, l2), [Text(t3), SoftBreak], LinkEvents(u3, l3), [Text(t4), End(Paragraph)]);
    PairWeight(Start(Paragraph), Text(t1));
    PairWeight(SoftBreak, Text(t2));
    PairWeight(Text(t3), SoftBreak);
    PairWeight(Text(t4), End(Paragraph));
    LinkWeight(u1, l1);
    LinkWeight(u2, l2);
    LinkWeight(u3, l3);
  }

  /** The description of such a paragraph reads its texts in order, two spaces per break. */
  lemma ThreeLinkParagraphDescription(t1: string, u1: string, l1: string, t2: string, u2: string, l2: string,
                                      t3: string, u3: string, l3: string, t4: string)
    ensures Description(ThreeLinkParagraph(t1, u1, l1, t2, u2, l2, t3, u3, l3, t4)) ==
      t1 + l1 + "  " + t2 + l2 + t3 + "  " + l3 + t4
  {
    SevenDescriptions([Start(Paragraph), Text(t1)], LinkEvents(u1, l1), [SoftBreak, Text(t2)],
      LinkEvents(u2, l2), [Text(t3), SoftBreak], LinkEvents(u3, l3), [Text(t4), End(Paragraph)]);
    PairText(Start(Paragraph), Text(t1));
    PairText(SoftBreak, Text(t2));
    PairText(Text(t3), SoftBreak);
    PairText(Text(t4), End(Paragraph));
    LinkText(u1, l1);
    LinkText(u2, l2);
    LinkText(u3, l3);
    RegroupNine(t1, l1, "  ", t2, l2, t3, "  ", l3, t4);
  }

  /** Helper for `ThreeLinkParagraphDescription`: the concatenation read in one grouping. */
  lemma RegroupNine(a: string, b: string, c: string, d: string, e: string, f: string, g: string, h: string, i: string)
    ensures ([] + a) + b + (c + d) + e + (f + g) + h + (i + []) == a + b + c + d + e + f + g + h + i
  {
    assert [] + a == a && i + [] == i;
  }

  /** Helper for `ThreeLinkParagraphContinues`: seven pieces that continue past their first event. */
  lemma ContinuesAfterFirst(a: seq<Event>, b: seq<Event>, c: seq<Event>, d: seq<Event>, e: seq<Event>, f: seq<Event>, g: seq<Event>)
    requires a != [] && forall i :: 1 <= i < |a| ==> Continues(a[i])
    requires forall i :: 0 <= i < |b| ==> Continues(b[i])
    requires forall i :: 0 <= i < |c| ==> Continues(c[i])
    requires forall i :: 0 <= i < |d| ==> Continues(d[i])
    requires forall i :: 0 <= i < |e| ==> Continues(e[i])
    requires forall i :: 0 <= i < |f| ==> Continues(f[i])
    requires forall i :: 0 <= i < |g| ==> Continues(g[i])
    ensures var s := a + b + c + d + e + f + g; forall i :: 1 <= i < |s| ==> Continues(s[i])
  {
  }

  /** The first text has twelve words. */
  lemma DelveText1Words()
    ensures WordCount(DelveText1) == 12
  {
    FourWordsAlone("In ", "this ", "post ", "I ");
    FourWords("In " + "this " + "post " + "I ", "will ", "explain ", "you ", "how ");
    FourWords("In " + "this " + "post " + "I " + "will " + "explain " + "you " + "how ",
      "did ", "I ", "configured ", "my ");
  }

  /** The second text has five words. */
  lemma DelveText2Words()
    ensures WordCount(DelveText2) == 5
  {
    FourWordsAlone("debugger ", "experience ", "in ", "NeoVim ");
    WordAndSpace("debugger " + "experience " + "in " + "NeoVim ", "using ");
  }

  /** The third text has five words. */
  lemma DelveText3Words()
    ensures WordCount(DelveText3) == 5
  {
    WordCountZero(" ", true);
    FourWords(" ", "and ", "the ", "Delve ", "Golang ");
    LastWord(" " + "and " + "the " + "Delve " + "Golang ", "debugger.");
  }

  /** The link texts and the comma are one word each. */
  lemma DelveShortWords()
    ensures WordCount("Golang") == 1 && WordCount("mason.nvim") == 1 && WordCount("nvim-dap") == 1
    ensures WordCount(", ") == 1
  {
    OneWord("Golang");
    OneWord("mason.nvim");
    OneWord("nvim-dap");
    OneWordThenSpace(", ");
  }

  /**
   * A three-link paragraph under the word budget, then another paragraph: the preview is
   * the first paragraph.
   */
  lemma ThreeLinkParagraphPreview(t1: string, u1: string, l1: string, t2: string, u2: string, l2: string,
                                  t3: string, u3: string, l3: string, t4: string, rest: seq<Event>)
    requires WordCount(t1) + WordCount(l1) + WordCount(t2) + WordCount(l2) + WordCount(t3) + WordCount(l3)
      + WordCount(t4) < WordBudget
    ensures var run := ThreeLinkParagraph(t1, u1, l1, t2, u2, l2, t3, u3, l3, t4);
      PreviewEvents(run + [Start(Paragraph)] + rest) == run
  {
    ThreeLinkParagraphContinues(t1, u1, l1, t2, u2, l2, t3, u3, l3, t4);
    ThreeLinkParagraphWeight(t1, u1, l1, t2, u2, l2, t3, u3, l3, t4);
    PreviewStopsAt(ThreeLinkParagraph(t1, u1, l1, t2, u2, l2, t3, u3, l3, t4), Start(Paragraph), rest);
  }

  /**
   * The first paragraph of `it_takes_by_text` spends 26 of the 30 words, so followed by
   * another paragraph it is the preview, and its description is the one the test expects.
   */
  lemma DelveIntroPreview(rest: seq<Event>)
    ensures PreviewEvents(DelveIntro() + [Start(Paragraph)] + rest) == DelveIntro()
    ensures Description(DelveIntro()) == DelveDescription
  {
    DelveText1Words();
    DelveText2Words();
    DelveText3Words();
    DelveShortWords();
    var u1, u2, u3 := "https://go.dev/", "https://github.com/williamboman/mason.nvim", "https://github.com/mfussenegger/nvim-dap";
    ThreeLinkParagraphPreview(DelveText1, u1, "Golang", DelveText2, u2, "mason.nvim", ", ", u3, "nvim-dap", DelveText3, rest);
    ThreeLinkParagraphDescription(DelveText1, u1, "Golang", DelveText2, u2, "mason.nvim", ", ", u3, "nvim-dap", DelveText3);
  }
}
