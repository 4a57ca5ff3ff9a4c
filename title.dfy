/**
 * Title extraction, shared by the library compiler and the application's copy of it:
 * the stream must open with a level-1 heading holding only text, and the text inside
 * it, concatenated, is the post's title.
 */
module Titles {
  import opened Wrappers
  import opened Events
  import opened BlockTransducer

  datatype Error = InvalidTitle

  /**
   * Where the title loop stops when it resumes at index `i`: just past the first
   * `End(H1)`, or at the end of the stream if none comes; `None` when an event other
   * than text comes first.
   */
  function TitleEnd(s: seq<Event>, i: nat): (r: Option<nat>)
    requires i <= |s|
    ensures r.Some? ==> i <= r.value <= |s|
    decreases |s| - i
  {
    if i == |s| then Some(i)
    else if IsH1End(s[i]) then Some(i + 1)
    else if s[i].Text? then TitleEnd(s, i + 1)
    else None
  }

  /** The text an event contributes to the title fold. */
  function TextOf(e: Event): string
  {
    if e.Text? then e.text else []
  }

  /** The title fold: the `Text` payloads in order, everything else ignored. */
  function TitleOf(s: seq<Event>): string
  {
    if s == [] then [] else TextOf(s[0]) + TitleOf(s[1..])
  }

  /** The title and the index where the rest of the stream begins, or the error. */
  function TitleSpec(events: seq<Event>): (r: Result<(string, nat), Error>)
    ensures r.Success? ==> 1 <= r.value.1 <= |events|
  {
    if events == [] || !IsH1Start(events[0]) then Failure(InvalidTitle)
    else match TitleEnd(events, 1)
      case None => Failure(InvalidTitle)
      case Some(k) =>
        if TitleOf(events[..k]) == [] then Failure(InvalidTitle)
        else Success((TitleOf(events[..k]), k))
  }

  /**
   * The title loop accepts exactly a run of text closed by the first `End(H1)` or by
   * the end of the stream, and rejects exactly when something else breaks the run.
   */
  lemma {:induction false} TitleEndFacts(s: seq<Event>, i: nat)
    requires i <= |s|
    ensures TitleEnd(s, i).Some? ==>
      var k := TitleEnd(s, i).value;
      && i <= k <= |s|
      && (forall j :: i <= j < k - 1 ==> s[j].Text?)
      && (k > i ==> s[k - 1].Text? || IsH1End(s[k - 1]))
      && (k < |s| ==> k > i && IsH1End(s[k - 1]))
    ensures TitleEnd(s, i).None? <==>
      exists j :: i <= j < |s| && !s[j].Text? && !IsH1End(s[j]) && forall m :: i <= m < j ==> s[m].Text?
    decreases |s| - i
  {
    if i < |s| && !IsH1End(s[i]) && s[i].Text? {
      TitleEndFacts(s, i + 1);
      if TitleEnd(s, i).None? {
        var j :| i + 1 <= j < |s| && !s[j].Text? && !IsH1End(s[j]) && forall m :: i + 1 <= m < j ==> s[m].Text?;
        assert forall m :: i <= m < j ==> s[m].Text?;
      } else {
        forall j | i <= j < |s| && !s[j].Text? && !IsH1End(s[j])
          ensures exists m :: i + 1 <= m < j && !s[m].Text?
        {
          assert j != i;
          assert !(forall m :: i + 1 <= m < j ==> s[m].Text?);
        }
      }
    }
  }

  lemma {:induction false} TitleOfAppend(a: seq<Event>, b: seq<Event>)
    ensures TitleOf(a + b) == TitleOf(a) + TitleOf(b)
  {
    if a == [] {
      assert a + b == b;
    } else {
      assert (a + b)[1..] == a[1..] + b;
      TitleOfAppend(a[1..], b);
    }
  }

  lemma {:induction false} TitleOfTexts(texts: seq<string>)
    ensures TitleOf(TextEvents(texts)) == Concat(texts)
  {
    if texts != [] {
      assert TextEvents(texts)[1..] == TextEvents(texts[1..]);
      TitleOfTexts(texts[1..]);
    }
  }

  /**
   * A heading of text events, closed by its end, yields the concatenated text as
   * the title (or `InvalidTitle` when that is empty), and the rest of the stream
   * starts right after the heading's end.
   */
  lemma TitleOfHeading(texts: seq<string>, rest: seq<Event>)
    ensures var events := [Start(Heading(H1))] + TextEvents(texts) + [End(Heading(H1))] + rest;
      TitleSpec(events) ==
        if Concat(texts) == [] then Failure(InvalidTitle)
        else Success((Concat(texts), |texts| + 2))
  {
    var body := TextEvents(texts);
    var head := [Start(Heading(H1))] + body + [End(Heading(H1))];
    var events := head + rest;
    HeadingEvents(texts, rest);
    HeadingTitle(texts);
    assert events[..|texts| + 2] == head;
    TitleSpecOf(events, |texts| + 2);
  }

  lemma TitleSpecOf(events: seq<Event>, k: nat)
    requires events != [] && IsH1Start(events[0])
    requires TitleEnd(events, 1) == Some(k)
    ensures TitleSpec(events) ==
      if TitleOf(events[..k]) == [] then Failure(InvalidTitle) else Success((TitleOf(events[..k]), k))
  {
  }

  lemma HeadingTitle(texts: seq<string>)
    ensures TitleOf([Start(Heading(H1))] + TextEvents(texts) + [End(Heading(H1))]) == Concat(texts)
  {
    var body := TextEvents(texts);
    TitleOfAppend([Start(Heading(H1))] + body, [End(Heading(H1))]);
    TitleOfAppend([Start(Heading(H1))], body);
    assert TitleOf([Start(Heading(H1))]) == [];
    assert TitleOf([End(Heading(H1))]) == [];
    TitleOfTexts(texts);
  }

  lemma HeadingEvents(texts: seq<string>, rest: seq<Event>)
    ensures var events := [Start(Heading(H1))] + TextEvents(texts) + [End(Heading(H1))] + rest;
      events != [] && IsH1Start(events[0]) && TitleEnd(events, 1) == Some(|texts| + 2)
  {
    var body := TextEvents(texts);
    var events := [Start(Heading(H1))] + body + [End(Heading(H1))] + rest;
    Framed(Start(Heading(H1)), body, End(Heading(H1)), rest);
    TextRunEnds(events, texts);
  }

  /** Where the opening item, the body and the closing item sit in `[open] + body + [close] + rest`. */
  lemma Framed<T>(open: T, body: seq<T>, close: T, rest: seq<T>)
    ensures var s := [open] + body + [close] + rest;
      |s| == |body| + 2 + |rest| && s[0] == open && s[1..|body| + 1] == body && s[|body| + 1] == close
  {
    var s := [open] + body + [close] + rest;
    assert s == [open] + (body + ([close] + rest));
    assert s[1..] == body + ([close] + rest);
    assert s[1..][..|body|] == body;
  }

  lemma TextRunEnds(events: seq<Event>, texts: seq<string>)
    requires |events| >= |texts| + 2
    requires events[1..|texts| + 1] == TextEvents(texts)
    requires IsH1End(events[|texts| + 1])
    ensures TitleEnd(events, 1) == Some(|texts| + 2)
  {
    var i := |texts| + 1;
    while i > 1
      invariant 1 <= i <= |texts| + 1
      invariant TitleEnd(events, i) == Some(|texts| + 2)
    {
      assert events[i - 1] == TextEvents(texts)[i - 2];
      i := i - 1;
    }
  }

  /**
   * The title loop of `parse`: the first event must open a level-1 heading, then text
   * is gathered until the heading closes; the gathered text must not be empty.
   * Answers the title and the index where the rest of the stream begins.
   */
  method ReadTitle(events: seq<Event>) returns (r: Result<(string, nat), Error>)
    ensures r == TitleSpec(events)
    ensures r.Success? ==> 1 <= r.value.1 <= |events|
  {
    if |events| == 0 {
      return Failure(InvalidTitle);
    }
    var first := events[0];
    if !IsH1Start(first) {
      return Failure(InvalidTitle);
    }
    var titleElements := [first];
    var pos := 1;
    var closed := false;
    while pos < |events| && !closed
      invariant 1 <= pos <= |events|
      invariant titleElements == events[..pos]
      invariant closed ==> TitleEnd(events, 1) == Some(pos)
      invariant !closed ==> TitleEnd(events, pos) == TitleEnd(events, 1)
      decreases |events| - pos
    {
      var event := events[pos];
      if IsH1End(event) {
        titleElements := titleElements + [event];
        closed := true;
      } else if event.Text? {
        titleElements := titleElements + [event];
      } else {
        return Failure(InvalidTitle);
      }
      pos := pos + 1;
    }
    var title := TitleOf(titleElements);
    if title == [] {
      return Failure(InvalidTitle);
    }
    r := Success((title, pos));
  }
}
