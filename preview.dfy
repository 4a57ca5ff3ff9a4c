/**
 * The library's `parse_preview`: the preview starts at the first newline-terminated
 * line that reads as plain prose, takes events from there under a 30-word budget, and
 * keeps the first of them plus the inline run that follows it. The plain-text
 * description is read off the same events.
 */
module Preview {
  import opened Wrappers
  import opened Text
  import opened Events
  import opened LinesIndices
  import opened TakeCounts

  /** How many events of a line `is_readable` looks at. */
  const ScanWindow: nat := 40
  /** The word budget of the preview. */
  const WordBudget: nat := 30

  predicate ReadableTag(t: Tag)
  {
    t.Strong? || t.Emphasis? || t.Paragraph? || t.Link?
  }

  /** `is_readable`: prose text, inline code, soft breaks and the readable containers. */
  predicate IsReadable(e: Event)
  {
    || e.Text? || e.Code? || e.SoftBreak?
    || (e.Start? && ReadableTag(e.tag))
    || (e.End? && ReadableTag(e.tag))
  }

  /** The `take_while` allow-list: like `is_readable`, but no paragraph may open. */
  predicate Continues(e: Event)
  {
    || e.Text? || e.Code? || e.SoftBreak?
    || (e.Start? && (e.tag.Strong? || e.tag.Emphasis? || e.tag.Link?))
    || (e.End? && ReadableTag(e.tag))
  }

  /** Iterator `take(n)`. */
  function Take<T>(s: seq<T>, n: nat): (r: seq<T>)
    ensures |r| == if |s| <= n then |s| else n
    ensures r <= s
  {
    if |s| <= n then s else s[..n]
  }

  /** Iterator `take_while(p)`. */
  function TakeWhile<T>(p: T -> bool, s: seq<T>): seq<T>
  {
    if s == [] || !p(s[0]) then [] else [s[0]] + TakeWhile(p, s[1..])
  }

  /** `take_while` keeps the longest prefix whose every item passes `p`. */
  lemma {:induction false} TakeWhileIsLongestPassingPrefix<T>(p: T -> bool, s: seq<T>)
    ensures var r := TakeWhile(p, s);
      && r <= s
      && (forall i :: 0 <= i < |r| ==> p(r[i]))
      && (|r| < |s| ==> !p(s[|r|]))
  {
    if s != [] && p(s[0]) {
      TakeWhileIsLongestPassingPrefix(p, s[1..]);
      var r := TakeWhile(p, s);
      assert r[1..] == TakeWhile(p, s[1..]);
      assert forall i :: 1 <= i < |r| ==> r[i] == r[1..][i - 1];
      if |r| < |s| {
        assert s[|r|] == s[1..][|r| - 1];
      }
    }
  }

  /** A line qualifies when its first events (at most 40) all satisfy `readable`. */
  predicate Qualifies(tokenize: Tokenizer, readable: Event -> bool, line: string)
  {
    var events := Take(tokenize(line), ScanWindow);
    forall i :: 0 <= i < |events| ==> readable(events[i])
  }

  /** The `find` over the lines: the offset of the first qualifying line. */
  function FirstQualifying(tokenize: Tokenizer, readable: Event -> bool, lines: seq<Line>): Option<nat>
  {
    if lines == [] then None
    else if Qualifies(tokenize, readable, lines[0].1) then Some(lines[0].0)
    else FirstQualifying(tokenize, readable, lines[1..])
  }

  /**
   * `find` answers the offset of the first qualifying line, and answers nothing
   * exactly when no line qualifies.
   */
  lemma {:induction false} FirstQualifyingIsFirst(tokenize: Tokenizer, readable: Event -> bool, lines: seq<Line>)
    ensures FirstQualifying(tokenize, readable, lines).None? <==>
      forall i :: 0 <= i < |lines| ==> !Qualifies(tokenize, readable, lines[i].1)
    ensures FirstQualifying(tokenize, readable, lines).Some? ==>
      exists i :: 0 <= i < |lines|
        && FirstQualifying(tokenize, readable, lines).value == lines[i].0
        && Qualifies(tokenize, readable, lines[i].1)
        && forall j :: 0 <= j < i ==> !Qualifies(tokenize, readable, lines[j].1)
  {
    if lines != [] && !Qualifies(tokenize, readable, lines[0].1) {
      var rest := lines[1..];
      FirstQualifyingIsFirst(tokenize, readable, rest);
      assert forall i :: 1 <= i < |lines| ==> lines[i] == rest[i - 1];
      if FirstQualifying(tokenize, readable, rest).Some? {
        var i :| 0 <= i < |rest|
          && FirstQualifying(tokenize, readable, rest).value == rest[i].0
          && Qualifies(tokenize, readable, rest[i].1)
          && forall j :: 0 <= j < i ==> !Qualifies(tokenize, readable, rest[j].1);
        assert lines[i + 1] == rest[i];
        assert forall j :: 0 <= j < i + 1 ==> !Qualifies(tokenize, readable, lines[j].1) by {
          forall j | 0 < j < i + 1 ensures !Qualifies(tokenize, readable, lines[j].1) {
            assert lines[j] == rest[j - 1];
          }
        }
      }
    }
  }

  /**
   * The search of `parse_preview`: walks the `LinesIndices` iterator until a line
   * qualifies and answers that line's byte offset.
   */
  method FindPreviewStart(markdown: string, tokenize: Tokenizer, readable: Event -> bool) returns (r: Option<nat>)
    ensures r == FirstQualifying(tokenize, readable, Lines(markdown))
  {
    var lines := new LinesIndices(markdown);
    while true
      invariant lines.Valid()
      invariant FirstQualifying(tokenize, readable, lines.Remaining())
        == FirstQualifying(tokenize, readable, Lines(markdown))
      decreases |lines.Remaining()|
    {
      var item := lines.Next();
      if item.None? {
        return None;
      }
      if Qualifies(tokenize, readable, item.value.1) {
        return Some(item.value.0);
      }
    }
  }

  /** The words an event spends from the budget: those of its text or code. */
  function WordWeight(e: Event): nat
  {
    if e.Text? then WordCount(e.text) else if e.Code? then WordCount(e.code) else 0
  }

  /** The events of the preview, drawn from the stream starting at the chosen line. */
  function PreviewEvents(stream: seq<Event>): seq<Event>
  {
    var counted := Capped(stream, WordBudget, WordWeight, 0);
    if counted == [] then [] else [counted[0]] + TakeWhile(Continues, counted[1..])
  }

  /**
   * The preview is a prefix of the stream spending fewer than 30 words; after its
   * first event only allow-listed events follow, and it stops at the first event that
   * is not allow-listed or would exhaust the budget.
   */
  lemma PreviewEventsFacts(stream: seq<Event>)
    ensures var events := PreviewEvents(stream);
      && events <= stream
      && (events != [] ==> Total(events, WordWeight) < WordBudget)
      && (forall i :: 1 <= i < |events| ==> Continues(events[i]))
      && (|events| < |stream| && events != [] ==>
            !Continues(stream[|events|]) || Total(events, WordWeight) + WordWeight(stream[|events|]) >= WordBudget)
      && (events == [] && stream != [] ==> WordWeight(stream[0]) >= WordBudget)
  {
    var counted := Capped(stream, WordBudget, WordWeight, 0);
    CappedIsLongestPrefixBelowCap(stream, WordBudget, WordWeight, 0);
    if counted != [] {
      var events := [counted[0]] + TakeWhile(Continues, counted[1..]);
      FirstThenWhile(Continues, counted);
      assert counted == events + counted[|events|..];
      TotalAppend(events, counted[|events|..], WordWeight);
      if |events| < |counted| {
        assert counted[|events|] == stream[|events|];
      }
    } else if stream != [] {
      assert counted[..0] == [];
    }
  }

  /**
   * The first item and then the longest run of items passing `p` is a prefix, every item
   * after its first passes `p`, and the next item does not.
   */
  lemma FirstThenWhile<T>(p: T -> bool, s: seq<T>)
    requires s != []
    ensures var r := [s[0]] + TakeWhile(p, s[1..]);
      && r <= s
      && (forall i :: 1 <= i < |r| ==> p(r[i]))
      && (|r| < |s| ==> !p(s[|r|]))
  {
    var rest := TakeWhile(p, s[1..]);
    TakeWhileIsLongestPassingPrefix(p, s[1..]);
    var r := [s[0]] + rest;
    assert s == [s[0]] + s[1..];
    assert forall i :: 1 <= i < |r| ==> r[i] == rest[i - 1];
    if |r| < |s| {
      assert s[1..][|rest|] == s[|r|];
    }
  }

  /** The text one event contributes to the description. */
  function DescriptionOf(e: Event): string
  {
    match e
    case Text(text) => text
    case Code(code) => code
    case SoftBreak => "  "
    case FootnoteReference(name) => name
    case _ => []
  }

  /** The description: the events' texts in order, a soft break reading as two spaces. */
  function Description(events: seq<Event>): string
  {
    if events == [] then [] else DescriptionOf(events[0]) + Description(events[1..])
  }

  /** The description of a concatenation is the concatenation of the descriptions. */
  lemma {:induction false} DescriptionAppend(a: seq<Event>, b: seq<Event>)
    ensures Description(a + b) == Description(a) + Description(b)
  {
    if a == [] {
      assert a + b == b;
    } else {
      assert (a + b)[1..] == a[1..] + b;
      DescriptionAppend(a[1..], b);
    }
  }

  /** Markup contributes nothing, and a line break between two texts becomes two spaces. */
  lemma DescriptionOfWrappedLine(a: string, b: string, t: Tag)
    ensures Description([Start(t), Text(a), SoftBreak, Text(b), End(t)]) == a + "  " + b
  {
    var ds := [DescriptionOf(Start(t)), DescriptionOf(Text(a)), DescriptionOf(SoftBreak),
               DescriptionOf(Text(b)), DescriptionOf(End(t))];
    DescriptionOfFive(Start(t), Text(a), SoftBreak, Text(b), End(t));
    assert ds == [[], a, "  ", b, []];
    assert [] + (a + ("  " + (b + []))) == a + "  " + b;
  }

  /** The description of five events, one event at a time. */
  lemma DescriptionOfFive(e0: Event, e1: Event, e2: Event, e3: Event, e4: Event)
    ensures Description([e0, e1, e2, e3, e4])
      == DescriptionOf(e0) + (DescriptionOf(e1) + (DescriptionOf(e2) + (DescriptionOf(e3) + DescriptionOf(e4))))
  {
    var d3 := DescriptionOf(e3) + DescriptionOf(e4);
    assert Description([e3, e4]) == d3 by {
      assert [e3, e4] == [e3] + [e4] && [e4] == [e4] + [];
      DescriptionCons(e3, [e4]);
      DescriptionCons(e4, []);
    }
    var d2 := DescriptionOf(e2) + d3;
    assert Description([e2, e3, e4]) == d2 by {
      assert [e2, e3, e4] == [e2] + [e3, e4];
      DescriptionCons(e2, [e3, e4]);
    }
    var d1 := DescriptionOf(e1) + d2;
    assert Description([e1, e2, e3, e4]) == d1 by {
      assert [e1, e2, e3, e4] == [e1] + [e2, e3, e4];
      DescriptionCons(e1, [e2, e3, e4]);
    }
    assert [e0, e1, e2, e3, e4] == [e0] + [e1, e2, e3, e4];
    DescriptionCons(e0, [e1, e2, e3, e4]);
  }

  lemma DescriptionCons(e: Event, rest: seq<Event>)
    ensures Description([e] + rest) == DescriptionOf(e) + Description(rest)
  {
    assert ([e] + rest)[1..] == rest;
  }

  datatype PreviewParse = PreviewParse(preview: string, description: string)

  /** The outcome of `parse_preview`. */
  function PreviewSpec(markdown: string, tokenize: Tokenizer, renderHtml: HtmlRenderer): Option<PreviewParse>
  {
    match FirstQualifying(tokenize, IsReadable, Lines(markdown))
    case None => None
    case Some(start) =>
      var events := PreviewEvents(tokenize(SliceFrom(markdown, start)));
      Some(PreviewParse(renderHtml(events), Description(events)))
  }

  /** `parse_preview`. */
  method ParsePreview(markdown: string, tokenize: Tokenizer, renderHtml: HtmlRenderer) returns (r: Option<PreviewParse>)
    ensures r == PreviewSpec(markdown, tokenize, renderHtml)
  {
    var start := FindPreviewStart(markdown, tokenize, IsReadable);
    if start.None? {
      return None;
    }
    var events := SelectPreview(tokenize(SliceFrom(markdown, start.value)));
    var description := Description(events);
    var preview := renderHtml(events);
    r := Some(PreviewParse(preview, description));
  }

  /**
   * The event selection of `parse_preview`: the first event the word-capped iterator
   * yields, then the `take_while` run over the same iterator.
   */
  method SelectPreview(stream: seq<Event>) returns (events: seq<Event>)
    ensures events == PreviewEvents(stream)
  {
    var counter := new TakeCount(stream, WordBudget, WordWeight);
    ghost var preview := PreviewEvents(stream);
    PreviewEventsSplit(stream);
    var first := counter.Next();
    events := if first.Some? then [first.value] else [];
    while true
      invariant counter.Valid()
      invariant events + TakeWhile(Continues, counter.Remaining()) == preview
      decreases |counter.Remaining()|
    {
      ghost var remaining := counter.Remaining();
      var next := counter.Next();
      TakeWhileStep(Continues, remaining);
      if next.None? || !Continues(next.value) {
        assert events == events + [];
        break;
      }
      events := events + [next.value];
    }
  }

  /** The preview is the capped stream's first event, then what `take_while` keeps of the rest. */
  lemma PreviewEventsSplit(stream: seq<Event>)
    ensures var counted := Capped(stream, WordBudget, WordWeight, 0);
      PreviewEvents(stream) ==
        (if counted == [] then [] else [counted[0]]) + TakeWhile(Continues, if counted == [] then [] else counted[1..])
  {
  }

  /** One step of `take_while`. */
  lemma TakeWhileStep<T>(p: T -> bool, s: seq<T>)
    ensures s == [] || !p(s[0]) ==> TakeWhile(p, s) == []
    ensures s != [] && p(s[0]) ==> TakeWhile(p, s) == [s[0]] + TakeWhile(p, s[1..])
  {
  }

  /**
   * There is no preview exactly when no newline-terminated line of the document has
   * only readable events among its first 40.
   */
  lemma NoPreviewIff(markdown: string, tokenize: Tokenizer, renderHtml: HtmlRenderer)
    ensures PreviewSpec(markdown, tokenize, renderHtml).None? <==>
      forall i :: 0 <= i < |Lines(markdown)| ==> !Qualifies(tokenize, IsReadable, Lines(markdown)[i].1)
  {
    FirstQualifyingIsFirst(tokenize, IsReadable, Lines(markdown));
  }

  /** A document without a newline has no lines, so it never gets a preview. */
  lemma NoNewlineNoPreview(markdown: string, tokenize: Tokenizer, renderHtml: HtmlRenderer)
    requires '\n' !in markdown
    ensures PreviewSpec(markdown, tokenize, renderHtml) == None
  {
    LinesAreSplitPieces(markdown);
    assert Split(markdown, '\n') == [markdown];
  }

  // ------------------------------------------------------------- examples

  /** `take_while` over a passing run followed by a failing item (or nothing) keeps the run. */
  lemma {:induction false} TakeWhileStops<T>(p: T -> bool, a: seq<T>, b: seq<T>)
    requires forall i :: 0 <= i < |a| ==> p(a[i])
    requires b == [] || !p(b[0])
    ensures TakeWhile(p, a + b) == a
  {
    if a == [] {
      assert a + b == b;
    } else {
      assert (a + b)[1..] == a[1..] + b;
      assert forall i :: 0 <= i < |a[1..]| ==> a[1..][i] == a[i + 1];
      TakeWhileStops(p, a[1..], b);
      assert a == [a[0]] + a[1..];
    }
  }

  /**
   * A run of events under the word budget whose events after the first are all
   * allow-listed, followed by one that is not, is exactly the preview's selection.
   */
  lemma PreviewStopsAt(run: seq<Event>, stop: Event, rest: seq<Event>)
    requires run != [] && Total(run, WordWeight) < WordBudget
    requires forall i :: 1 <= i < |run| ==> Continues(run[i])
    requires !Continues(stop)
    ensures PreviewEvents(run + [stop] + rest) == run
  {
    var s := run + [stop] + rest;
    assert s[..|run|] == run;
    CappedKeepsLightPrefix(s, |run|, WordBudget, WordWeight);
    CappedIsLongestPrefixBelowCap(s, WordBudget, WordWeight, 0);
    var counted := Capped(s, WordBudget, WordWeight, 0);
    SplitAfterRun(run, stop, rest, counted);
    var tail := counted[|run|..];
    PreviewOfRun(run, stop, tail);
  }

  /** A prefix of `run + [stop] + rest` at least as long as `run` is `run` and then, if anything, `stop`. */
  lemma SplitAfterRun(run: seq<Event>, stop: Event, rest: seq<Event>, counted: seq<Event>)
    requires counted <= run + [stop] + rest && |counted| >= |run|
    ensures counted == run + counted[|run|..]
    ensures counted[|run|..] == [] || counted[|run|..][0] == stop
  {
    var s := run + [stop] + rest;
    assert counted[..|run|] == s[..|run|] == run;
    if |counted| > |run| {
      assert counted[|run|..][0] == s[|run|];
    }
  }

  lemma PreviewOfRun(run: seq<Event>, stop: Event, tail: seq<Event>)
    requires run != [] && forall i :: 1 <= i < |run| ==> Continues(run[i])
    requires !Continues(stop) && (tail == [] || tail[0] == stop)
    ensures [run[0]] + TakeWhile(Continues, (run + tail)[1..]) == run
  {
    assert (run + tail)[1..] == run[1..] + tail;
    assert forall i :: 0 <= i < |run[1..]| ==> Continues(run[1..][i]) by {
      forall i | 0 <= i < |run[1..]| ensures Continues(run[1..][i]) {
        assert run[1..][i] == run[i + 1];
      }
    }
    TakeWhileStops(Continues, run[1..], tail);
    assert run == [run[0]] + run[1..];
  }

  /**
   * A document whose first line is not prose and whose second line is blank takes its
   * preview from the events after the first line: a blank line has no events, so it
   * qualifies, and the preview starts at its newline.
   */
  lemma PreviewAfterBlankLine(head: string, body: string, tokenize: Tokenizer, renderHtml: HtmlRenderer)
    requires '\n' !in head && !Qualifies(tokenize, IsReadable, head) && tokenize("") == []
    ensures var events := PreviewEvents(tokenize("\n" + body));
      PreviewSpec(head + "\n\n" + body, tokenize, renderHtml) == Some(PreviewParse(renderHtml(events), Description(events)))
  {
    var s := head + "\n\n" + body;
    var n := |head|;
    assert s[n] == '\n' && s[n + 1] == '\n';
    assert NoNewline(s, 0, n) by {
      forall i | 0 <= i < n ensures s[i] != '\n' {
        assert s[i] == head[i];
      }
    }
    ScanOneLine(s, 0, n);
    ScanOneLine(s, n + 1, n + 1);
    assert s[..0] == [] && s[0..n] == head && s[n + 1..n + 1] == [];
    var start := Utf8Len(s[..n + 1]);
    var lines := Lines(s);
    assert lines[0] == (0, head) && lines[1] == (start, "");
    assert Qualifies(tokenize, IsReadable, "");
    assert FirstQualifying(tokenize, IsReadable, lines) == Some(start) by {
      assert lines[1..][0] == lines[1];
    }
    CharIndexOfPrefix(s, n + 1);
    assert SliceFrom(s, start) == "\n" + body by {
      assert s[n + 1..] == "\n" + body;
    }
  }

  /** A line read as a heading around one text is not prose. */
  lemma HeadingIsNotProse(tokenize: Tokenizer, line: string, level: HeadingLevel, text: string)
    requires tokenize(line) == [Start(Heading(level)), Text(text), End(Heading(level))]
    ensures !Qualifies(tokenize, IsReadable, line)
  {
    assert Take(tokenize(line), ScanWindow)[0] == Start(Heading(level));
  }
}
