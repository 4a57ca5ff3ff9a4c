/**
 * The block transducer of the markdown library (`extend_parse`): every event from a
 * `Start` up to the next `End` is held back in a deque; at the `End` the held events
 * are either replayed oldest first, or, when the `End` closes a fenced code block,
 * thrown away and replaced by one `Html` event carrying the rendered code block.
 */
module BlockTransducer {
  import opened Wrappers
  import opened Text
  import opened Events

  /** The suffix stripped from the code text after trimming. */
  const Fence: string := "```"

  function Reverse<T>(s: seq<T>): (r: seq<T>)
    ensures |r| == |s|
  {
    if s == [] then [] else Reverse(s[1..]) + [s[0]]
  }

  /** Position `i` of the reversal is position `|s| - 1 - i` of the original. */
  lemma {:induction false} ReverseIndex<T>(s: seq<T>)
    ensures forall i :: 0 <= i < |s| ==> Reverse(s)[i] == s[|s| - 1 - i]
  {
    if s != [] {
      ReverseIndex(s[1..]);
    }
  }

  lemma {:induction false} ReverseAppend<T>(a: seq<T>, b: seq<T>)
    ensures Reverse(a + b) == Reverse(b) + Reverse(a)
  {
    if a == [] {
      assert a + b == b;
    } else {
      assert (a + b)[1..] == a[1..] + b;
      ReverseAppend(a[1..], b);
    }
  }

  /** What one input event turns into: at most one event, or a whole drained deque. */
  datatype MDEvents = Single(event: Option<Event>) | Many(deque: seq<Event>)
  {
    /** The events `MDEventsIter` yields: the single one, or the deque from back to front. */
    function Items(): seq<Event>
    {
      match this
      case Single(None) => []
      case Single(Some(e)) => [e]
      case Many(d) => Reverse(d)
    }
  }

  /** `MDEventsIter`: `take` on the single event, `pop_back` on the deque. */
  class MDEventsIter {
    var events: MDEvents

    constructor (events: MDEvents)
      ensures this.events == events
    {
      this.events := events;
    }

    method Next() returns (r: Option<Event>)
      modifies this
      ensures old(events.Items()) == [] ==> r == None && events.Items() == []
      ensures old(events.Items()) != [] ==>
        r == Some(old(events.Items())[0]) && events.Items() == old(events.Items())[1..]
    {
      match events
      case Single(e) =>
        r := e;
        events := Single(None);
      case Many(d) =>
        if d == [] {
          r := None;
        } else {
          r := Some(d[|d| - 1]);
          events := Many(d[..|d| - 1]);
          assert d == d[..|d| - 1] + [d[|d| - 1]];
          ReverseAppend(d[..|d| - 1], [d[|d| - 1]]);
        }
    }
  }

  /** The closure's captured state: `element_events` (front first) and `in_element`. */
  datatype State = State(elementEvents: seq<Event>, inElement: bool)

  const Init: State := State([], false)

  /** The `Text` payloads of a deque, concatenated front to back. */
  function BufferedText(deque: seq<Event>): string
  {
    if deque == [] then []
    else (if deque[0].Text? then deque[0].text else []) + BufferedText(deque[1..])
  }

  /** The code handed to the renderer: buffered text, trimmed, trailing fences stripped. */
  function CodeText(deque: seq<Event>): string
  {
    TrimEndMatches(Trim(BufferedText(deque)), Fence)
  }

  /** One call of the `flat_map` closure: the new state and what it emits. */
  function Step(st: State, e: Event, renderCode: CodeRenderer): (State, MDEvents)
  {
    match e
    case Start(_) => (State([e] + st.elementEvents, true), Single(None))
    case End(tag) =>
      var deque := [End(tag)] + st.elementEvents;
      if tag.CodeBlock? && tag.kind.Fenced? then
        (Init, Single(Some(Html(renderCode(Some(tag.kind.language), CodeText(deque))))))
      else
        (Init, Many(deque))
    case _ =>
      if st.inElement then (State([e] + st.elementEvents, true), Single(None))
      else (st, Single(Some(e)))
  }

  /** Outside an element nothing is held back. */
  predicate Consistent(st: State)
  {
    !st.inElement ==> st.elementEvents == []
  }

  /**
   * One step keeps the state consistent. Unless the event closes a fenced code block,
   * nothing is lost or reordered: the held events (oldest first) followed by the new
   * event are what the step emits followed by what it now holds. A fenced `End`
   * empties the state and emits exactly one `Html` event.
   */
  lemma StepFacts(st: State, e: Event, renderCode: CodeRenderer)
    ensures Consistent(st) ==> Consistent(Step(st, e, renderCode).0)
    ensures Consistent(st) && !IsFencedCodeEnd(e) ==>
      Reverse(st.elementEvents) + [e]
      == Step(st, e, renderCode).1.Items() + Reverse(Step(st, e, renderCode).0.elementEvents)
    ensures IsFencedCodeEnd(e) ==>
      Step(st, e, renderCode).0 == Init
      && |Step(st, e, renderCode).1.Items()| == 1 && Step(st, e, renderCode).1.Items()[0].Html?
  {
    ReverseAppend([e], st.elementEvents);
  }

  /** The state after, and everything emitted for, a stream fed from state `st`. */
  function Run(st: State, events: seq<Event>, renderCode: CodeRenderer): (State, seq<Event>)
    decreases |events|
  {
    if events == [] then (st, [])
    else
      var step := Step(st, events[0], renderCode);
      var rest := Run(step.0, events[1..], renderCode);
      (rest.0, step.1.Items() + rest.1)
  }

  /** The stream `extend_parse` hands to `push_html`. */
  function Transduce(events: seq<Event>, renderCode: CodeRenderer): seq<Event>
  {
    Run(Init, events, renderCode).1
  }

  predicate NoFencedEnd(events: seq<Event>)
  {
    forall i :: 0 <= i < |events| ==> !IsFencedCodeEnd(events[i])
  }

  /** Feeding `a + b` is feeding `a`, then feeding `b` from where `a` left off. */
  lemma RunAppend(st: State, a: seq<Event>, b: seq<Event>, renderCode: CodeRenderer)
    ensures Run(st, a + b, renderCode).0 == Run(Run(st, a, renderCode).0, b, renderCode).0
    ensures Run(st, a + b, renderCode).1
      == Run(st, a, renderCode).1 + Run(Run(st, a, renderCode).0, b, renderCode).1
  {
    var f := Stepper(renderCode);
    RunIsFold(st, a + b, renderCode);
    RunIsFold(st, a, renderCode);
    RunIsFold(Run(st, a, renderCode).0, b, renderCode);
    FoldAppend(f, st, a, b);
  }

  /** One step as a plain function of state and event: the new state and the events drained. */
  function Stepper(renderCode: CodeRenderer): (State, Event) -> (State, seq<Event>)
  {
    (st: State, e: Event) => (Step(st, e, renderCode).0, Step(st, e, renderCode).1.Items())
  }

  /** A left fold of `f` over `events`, concatenating what each call emits. */
  function Fold<S>(f: (S, Event) -> (S, seq<Event>), st: S, events: seq<Event>): (S, seq<Event>)
    decreases |events|
  {
    if events == [] then (st, [])
    else
      var rest := Fold(f, f(st, events[0]).0, events[1..]);
      (rest.0, f(st, events[0]).1 + rest.1)
  }

  lemma {:induction false} FoldAppend<S>(f: (S, Event) -> (S, seq<Event>), st: S, a: seq<Event>, b: seq<Event>)
    ensures Fold(f, st, a + b).0 == Fold(f, Fold(f, st, a).0, b).0
    ensures Fold(f, st, a + b).1 == Fold(f, st, a).1 + Fold(f, Fold(f, st, a).0, b).1
    decreases |a|
  {
    if a == [] {
      assert a + b == b;
    } else {
      assert (a + b)[0] == a[0];
      assert (a + b)[1..] == a[1..] + b;
      FoldAppend(f, f(st, a[0]).0, a[1..], b);
    }
  }

  /** `Run` is the fold of `Stepper`. */
  lemma {:induction false} RunIsFold(st: State, events: seq<Event>, renderCode: CodeRenderer)
    ensures Run(st, events, renderCode) == Fold(Stepper(renderCode), st, events)
    decreases |events|
  {
    if events != [] {
      RunIsFold(Step(st, events[0], renderCode).0, events[1..], renderCode);
    }
  }

  /** Over a whole stream the state stays consistent. */
  lemma {:induction false} RunConsistent(st: State, events: seq<Event>, renderCode: CodeRenderer)
    requires Consistent(st)
    ensures Consistent(Run(st, events, renderCode).0)
    decreases |events|
  {
    if events != [] {
      StepFacts(st, events[0], renderCode);
      RunConsistent(Step(st, events[0], renderCode).0, events[1..], renderCode);
    }
  }

  /**
   * Without fenced code blocks nothing is lost or reordered: the events held at the
   * start, followed by the stream, are what is emitted followed by what is still held.
   */
  lemma {:induction false} RunBalance(st: State, events: seq<Event>, renderCode: CodeRenderer)
    requires Consistent(st)
    requires NoFencedEnd(events)
    ensures Reverse(st.elementEvents) + events
      == Run(st, events, renderCode).1 + Reverse(Run(st, events, renderCode).0.elementEvents)
    decreases |events|
  {
    if events == [] {
      assert Reverse(st.elementEvents) + events == Reverse(st.elementEvents);
    } else {
      var x := events[0];
      var step := Step(st, x, renderCode);
      StepFacts(st, x, renderCode);
      assert !IsFencedCodeEnd(x);
      assert NoFencedEnd(events[1..]) by {
        forall i | 0 <= i < |events| - 1 ensures !IsFencedCodeEnd(events[1..][i]) {
          assert events[1..][i] == events[i + 1];
        }
      }
      RunBalance(step.0, events[1..], renderCode);
      var rest := Run(step.0, events[1..], renderCode);
      var held := Reverse(st.elementEvents);
      var emitted := step.1.Items();
      var held' := Reverse(step.0.elementEvents);
      var tail := events[1..];
      assert held + [x] == emitted + held';
      assert held' + tail == rest.1 + Reverse(rest.0.elementEvents);
      assert events == [x] + tail;
      RegroupConcat(held, [x], emitted, held', tail, rest.1, Reverse(rest.0.elementEvents));
    }
  }

  /** Helper for `RunBalance`: regrouping two equations between concatenations into one. */
  lemma RegroupConcat<T>(h: seq<T>, x: seq<T>, e: seq<T>, h': seq<T>, t: seq<T>, r: seq<T>, h'': seq<T>)
    requires h + x == e + h'
    requires h' + t == r + h''
    ensures h + (x + t) == (e + r) + h''
  {
    calc {
      h + (x + t);
      (h + x) + t;
      (e + h') + t;
      e + (h' + t);
      e + (r + h'');
      (e + r) + h'';
    }
  }

  /** A stream that ends with an `End` event leaves nothing held back. */
  lemma EndingWithEndCloses(st: State, events: seq<Event>, renderCode: CodeRenderer)
    requires events != [] && events[|events| - 1].End?
    ensures Run(st, events, renderCode).0 == Init
  {
    var n := |events| - 1;
    assert events == events[..n] + [events[n]];
    RunAppend(st, events[..n], [events[n]], renderCode);
  }

  /** A stream without fenced code blocks that ends closed comes out unchanged. */
  lemma PassThrough(events: seq<Event>, renderCode: CodeRenderer)
    requires NoFencedEnd(events)
    requires events == [] || events[|events| - 1].End?
    ensures Transduce(events, renderCode) == events
  {
    RunBalance(Init, events, renderCode);
    if events != [] {
      EndingWithEndCloses(Init, events, renderCode);
    }
    var out := Transduce(events, renderCode);
    assert Reverse(Init.elementEvents) == [];
    assert out + [] == [] + events;
    assert out + [] == out && [] + events == events;
  }

  /** Once a prefix has closed every element, the rest is transduced on its own. */
  lemma TransduceAppend(a: seq<Event>, b: seq<Event>, renderCode: CodeRenderer)
    requires Run(Init, a, renderCode).0 == Init
    ensures Transduce(a + b, renderCode) == Transduce(a, renderCode) + Transduce(b, renderCode)
  {
    RunAppend(Init, a, b, renderCode);
  }

  function TextEvents(texts: seq<string>): (r: seq<Event>)
    ensures |r| == |texts|
    ensures forall i :: 0 <= i < |texts| ==> r[i] == Text(texts[i])
  {
    if texts == [] then [] else [Text(texts[0])] + TextEvents(texts[1..])
  }

  function Concat(texts: seq<string>): string
  {
    if texts == [] then [] else texts[0] + Concat(texts[1..])
  }

  lemma {:induction false} BufferedTextAppend(a: seq<Event>, b: seq<Event>)
    ensures BufferedText(a + b) == BufferedText(a) + BufferedText(b)
  {
    if a == [] {
      assert a + b == b;
    } else {
      assert (a + b)[1..] == a[1..] + b;
      BufferedTextAppend(a[1..], b);
    }
  }

  lemma {:induction false} BufferedTextOfTexts(texts: seq<string>)
    ensures BufferedText(TextEvents(texts)) == Concat(texts)
  {
    if texts != [] {
      assert TextEvents(texts)[1..] == TextEvents(texts[1..]);
      BufferedTextOfTexts(texts[1..]);
    }
  }

  /** Inside an element, text events only pile up at the front of the buffer. */
  lemma {:induction false} RunInsideElement(held: seq<Event>, texts: seq<string>, renderCode: CodeRenderer)
    ensures Run(State(held, true), TextEvents(texts), renderCode)
      == (State(Reverse(TextEvents(texts)) + held, true), [])
    decreases |texts|
  {
    if texts == [] {
      assert Reverse(TextEvents(texts)) + held == held;
    } else {
      var t := Text(texts[0]);
      var events := TextEvents(texts);
      var rest := TextEvents(texts[1..]);
      assert events[0] == t && events[1..] == rest;
      assert Step(State(held, true), t, renderCode) == (State([t] + held, true), Single(None));
      RunInsideElement([t] + held, texts[1..], renderCode);
      var after := Run(State([t] + held, true), rest, renderCode);
      assert Single(None).Items() == [];
      assert Run(State(held, true), events, renderCode) == (after.0, [] + after.1);
      assert [] + after.1 == after.1;
      ReverseAppend([t], rest);
      assert events == [t] + rest;
      assert Reverse([t]) == [t];
      assert Reverse(rest) + ([t] + held) == Reverse(events) + held;
    }
  }

  /**
   * A fenced code block fed from a clean state comes out as exactly one `Html` event,
   * rendered with the fence's language and its text: the Text payloads in deque
   * order (newest first), trimmed, with trailing fences stripped.
   */
  lemma FencedBlockBecomesOneHtml(language: string, texts: seq<string>, renderCode: CodeRenderer)
    ensures var block := CodeBlock(Fenced(language));
      Transduce([Start(block)] + TextEvents(texts) + [End(block)], renderCode)
      == [Html(renderCode(Some(language), TrimEndMatches(Trim(Concat(Reverse(texts))), Fence)))]
  {
    var block := CodeBlock(Fenced(language));
    var body := TextEvents(texts);
    var deque := [End(block)] + (Reverse(body) + [Start(block)]);
    OpenThenRun(block, body, renderCode);
    FencedClose(block, body, texts, renderCode);
    FencedCodeText(block, texts);
  }

  lemma OpenThenRun(block: Tag, body: seq<Event>, renderCode: CodeRenderer)
    ensures Transduce([Start(block)] + body + [End(block)], renderCode)
      == Run(State([Start(block)], true), body + [End(block)], renderCode).1
  {
    var s := [Start(block)] + body + [End(block)];
    var open := State([Start(block)], true);
    assert s[0] == Start(block) && s[1..] == body + [End(block)];
    assert [Start(block)] + Init.elementEvents == [Start(block)];
    assert Step(Init, Start(block), renderCode) == (open, Single(None));
    var afterOpen := Run(open, body + [End(block)], renderCode);
    assert Run(Init, s, renderCode) == (afterOpen.0, [] + afterOpen.1);
    assert [] + afterOpen.1 == afterOpen.1;
  }

  lemma FencedClose(block: Tag, body: seq<Event>, texts: seq<string>, renderCode: CodeRenderer)
    requires block.CodeBlock? && block.kind.Fenced?
    requires body == TextEvents(texts)
    ensures Run(State([Start(block)], true), body + [End(block)], renderCode).1
      == [Html(renderCode(Some(block.kind.language),
                          CodeText([End(block)] + (Reverse(body) + [Start(block)]))))]
  {
    RunInsideElement([Start(block)], texts, renderCode);
    AppendFencedEnd(State([Start(block)], true), body, block, Reverse(body) + [Start(block)], renderCode);
  }

  /** A run that ends inside an element holding `held` and emits nothing, then a fenced `End`. */
  lemma AppendFencedEnd(st: State, body: seq<Event>, block: Tag, held: seq<Event>, renderCode: CodeRenderer)
    requires block.CodeBlock? && block.kind.Fenced?
    requires Run(st, body, renderCode) == (State(held, true), [])
    ensures Run(st, body + [End(block)], renderCode).1
      == [Html(renderCode(Some(block.kind.language), CodeText([End(block)] + held)))]
  {
    RunAppend(st, body, [End(block)], renderCode);
    RunFencedEnd(State(held, true), block, renderCode);
    var html := Html(renderCode(Some(block.kind.language), CodeText([End(block)] + held)));
    assert [] + [html] == [html];
  }

  /** Running a one-event stream is one step. */
  lemma RunSingle(st: State, e: Event, renderCode: CodeRenderer)
    ensures Run(st, [e], renderCode) == (Step(st, e, renderCode).0, Step(st, e, renderCode).1.Items())
  {
    var step := Step(st, e, renderCode);
    assert [e][0] == e && [e][1..] == [];
    assert Run(step.0, [], renderCode) == (step.0, []);
    assert step.1.Items() + [] == step.1.Items();
  }

  /** The one-event run of a fenced `End`. */
  lemma RunFencedEnd(st: State, block: Tag, renderCode: CodeRenderer)
    requires block.CodeBlock? && block.kind.Fenced?
    ensures Run(st, [End(block)], renderCode)
      == (Init, [Html(renderCode(Some(block.kind.language), CodeText([End(block)] + st.elementEvents)))])
  {
    var html := Html(renderCode(Some(block.kind.language), CodeText([End(block)] + st.elementEvents)));
    StepFencedEnd(st, block, renderCode);
    ItemsSingle(html);
    RunSingle(st, End(block), renderCode);
  }

  /** The step for a fenced `End`: a clean state and one `Html` event. */
  lemma StepFencedEnd(st: State, block: Tag, renderCode: CodeRenderer)
    requires block.CodeBlock? && block.kind.Fenced?
    ensures Step(st, End(block), renderCode)
      == (Init, Single(Some(Html(renderCode(Some(block.kind.language), CodeText([End(block)] + st.elementEvents))))))
  {
  }

  lemma ItemsSingle(e: Event)
    ensures Single(Some(e)).Items() == [e]
  {
  }

  lemma FencedCodeText(block: Tag, texts: seq<string>)
    requires block.CodeBlock?
    ensures BufferedText([End(block)] + (Reverse(TextEvents(texts)) + [Start(block)]))
      == Concat(Reverse(texts))
  {
    var body := TextEvents(texts);
    var held := Reverse(body) + [Start(block)];
    ReverseTextEvents(texts);
    BufferedTextAppend([End(block)], held);
    BufferedTextAppend(Reverse(body), [Start(block)]);
    BufferedTextOfTexts(Reverse(texts));
    assert BufferedText([End(block)]) == [];
    assert BufferedText([Start(block)]) == [];
  }

  lemma ReverseTextEvents(texts: seq<string>)
    ensures Reverse(TextEvents(texts)) == TextEvents(Reverse(texts))
  {
    ReverseIndex(TextEvents(texts));
    ReverseIndex(texts);
  }

  /** The `flat_map` closure with the deque and flag it captures by mutable reference. */
  class ElementBuffer {
    var elementEvents: seq<Event>
    var inElement: bool

    constructor ()
      ensures elementEvents == [] && !inElement
    {
      elementEvents := [];
      inElement := false;
    }

    function Current(): State
      reads this
    {
      State(elementEvents, inElement)
    }

    /** One call of the closure: updates the captured state and answers what to emit. */
    method Feed(e: Event, renderCode: CodeRenderer) returns (md: MDEvents)
      modifies this
      ensures (Current(), md) == Step(old(Current()), e, renderCode)
    {
      match e {
        case Start(_) =>
          elementEvents := [e] + elementEvents;
          inElement := true;
          md := Single(None);
        case End(tag) =>
          elementEvents := [End(tag)] + elementEvents;
          inElement := false;
          if tag.CodeBlock? && tag.kind.Fenced? {
            var code := CodeText(elementEvents);
            elementEvents := [];
            md := Single(Some(Html(renderCode(Some(tag.kind.language), code))));
          } else {
            md := Many(elementEvents);
            elementEvents := [];
          }
        case _ =>
          if inElement {
            elementEvents := [e] + elementEvents;
            md := Single(None);
          } else {
            md := Single(Some(e));
          }
      }
    }
  }

  /** Draining one `MDEvents` through its iterator appends its items, in order. */
  method DrainInto(emitted: seq<Event>, md: MDEvents) returns (out: seq<Event>)
    ensures out == emitted + md.Items()
  {
    out := emitted;
    var iter := new MDEventsIter(md);
    while true
      invariant out + iter.events.Items() == emitted + md.Items()
      modifies iter
      decreases |iter.events.Items()|
    {
      var next := iter.Next();
      if next.None? {
        assert out == emitted + md.Items();
        return;
      }
      out := out + [next.value];
    }
  }

  /** Feeding one more event extends the run by one step. */
  lemma RunSnoc(prefix: seq<Event>, e: Event, renderCode: CodeRenderer)
    ensures var before := Run(Init, prefix, renderCode);
      var step := Step(before.0, e, renderCode);
      Run(Init, prefix + [e], renderCode) == (step.0, before.1 + step.1.Items())
  {
    RunAppend(Init, prefix, [e], renderCode);
    RunSingle(Run(Init, prefix, renderCode).0, e, renderCode);
  }

  /** The loop step of `TransduceEvents`: feeding event `i` extends the run over the first `i`. */
  lemma RunNext(events: seq<Event>, i: nat, st: State, emitted: seq<Event>, renderCode: CodeRenderer)
    requires i < |events| && (st, emitted) == Run(Init, events[..i], renderCode)
    ensures (Step(st, events[i], renderCode).0, emitted + Step(st, events[i], renderCode).1.Items())
      == Run(Init, events[..i + 1], renderCode)
  {
    assert events[..i + 1] == events[..i] + [events[i]];
    RunSnoc(events[..i], events[i], renderCode);
  }

  /**
   * The `flat_map` loop: each input event is fed to the closure and the `MDEvents`
   * it yields is drained into the output.
   */
  method TransduceEvents(events: seq<Event>, renderCode: CodeRenderer) returns (emitted: seq<Event>)
    ensures emitted == Transduce(events, renderCode)
    ensures NoFencedEnd(events) && (events == [] || events[|events| - 1].End?) ==> emitted == events
  {
    var buffer := new ElementBuffer();
    emitted := [];
    var i := 0;
    while i < |events|
      invariant 0 <= i <= |events|
      invariant (buffer.Current(), emitted) == Run(Init, events[..i], renderCode)
    {
      ghost var before := (buffer.Current(), emitted);
      var md := buffer.Feed(events[i], renderCode);
      RunNext(events, i, before.0, before.1, renderCode);
      emitted := DrainInto(emitted, md);
      i := i + 1;
    }
    assert events[..|events|] == events;
    if NoFencedEnd(events) && (events == [] || events[|events| - 1].End?) {
      PassThrough(events, renderCode);
    }
  }

  /** `extend_parse`: appends the HTML of the transduced stream to `buffer`. */
  method ExtendParse(buffer: string, events: seq<Event>, renderHtml: HtmlRenderer, renderCode: CodeRenderer)
    returns (newBuffer: string)
    ensures newBuffer == buffer + renderHtml(Transduce(events, renderCode))
    ensures NoFencedEnd(events) && (events == [] || events[|events| - 1].End?) ==>
      newBuffer == buffer + renderHtml(events)
  {
    var emitted := TransduceEvents(events, renderCode);
    newBuffer := buffer + renderHtml(emitted);
  }
}
