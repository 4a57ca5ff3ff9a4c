/**
 * The iterator plumbing of the oldest blog compiler: the token stream with its image
 * `inspect` hook, a `Peekable` over it, and the two adapters that cut the stream at a
 * heading: `InclusiveTakeUntil` (yields the matching item, then stops) and
 * `PeekTakeUntil` (stops before the matching item and leaves it in the `Peekable`).
 */
module TakeUntil {
  import opened Wrappers
  import opened Events
  import opened VecSets
  import opened ImageUrls

  /** The items up to and including the first one satisfying `stop`. */
  function InclusivePrefix(stop: Event -> bool, s: seq<Event>): (r: seq<Event>)
    ensures |r| <= |s|
  {
    if s == [] then [] else if stop(s[0]) then [s[0]] else [s[0]] + InclusivePrefix(stop, s[1..])
  }

  /** The items before the first one satisfying `stop`. */
  function UntilMatch(stop: Event -> bool, s: seq<Event>): (r: seq<Event>)
    ensures |r| <= |s|
  {
    if s == [] || stop(s[0]) then [] else [s[0]] + UntilMatch(stop, s[1..])
  }

  /**
   * `InclusiveTakeUntil` yields a prefix of its source in which only the last item may
   * match; it stops early only right after a match.
   */
  lemma {:induction false} InclusivePrefixFacts(stop: Event -> bool, s: seq<Event>)
    ensures var r := InclusivePrefix(stop, s);
      && r <= s
      && (forall i :: 0 <= i < |r| - 1 ==> !stop(r[i]))
      && (|r| < |s| ==> r != [] && stop(r[|r| - 1]))
  {
    if s != [] && !stop(s[0]) {
      InclusivePrefixFacts(stop, s[1..]);
      var r := InclusivePrefix(stop, s);
      assert r[1..] == InclusivePrefix(stop, s[1..]);
      assert forall i :: 1 <= i < |r| ==> r[i] == r[1..][i - 1];
    }
  }

  /**
   * `PeekTakeUntil` yields a prefix of its source with no matching item, and stops
   * only at a matching item.
   */
  lemma {:induction false} UntilMatchFacts(stop: Event -> bool, s: seq<Event>)
    ensures var r := UntilMatch(stop, s);
      && r <= s
      && (forall i :: 0 <= i < |r| ==> !stop(r[i]))
      && (|r| < |s| ==> stop(s[|r|]))
  {
    if s != [] && !stop(s[0]) {
      UntilMatchFacts(stop, s[1..]);
      var r := UntilMatch(stop, s);
      assert r[1..] == UntilMatch(stop, s[1..]);
      assert forall i :: 1 <= i < |r| ==> r[i] == r[1..][i - 1];
      if |r| < |s| {
        assert s[|r|] == s[1..][|r| - 1];
      }
    }
  }

  /** The cut `UntilMatch` makes is at the first matching item, or at the end. */
  lemma {:induction false} UntilMatchAt(stop: Event -> bool, s: seq<Event>, k: nat)
    requires k <= |s| && (forall i :: 0 <= i < k ==> !stop(s[i])) && (k < |s| ==> stop(s[k]))
    ensures UntilMatch(stop, s) == s[..k]
  {
    if k > 0 {
      assert !stop(s[0]);
      forall i | 0 <= i < k - 1 ensures !stop(s[1..][i]) {
        assert s[1..][i] == s[i + 1];
      }
      if k < |s| {
        assert s[1..][k - 1] == s[k];
      }
      UntilMatchAt(stop, s[1..], k - 1);
      assert s[..k] == [s[0]] + s[1..][..k - 1];
    }
  }

  /** `InclusivePrefix` ends with the first matching item. */
  lemma {:induction false} InclusivePrefixAt(stop: Event -> bool, s: seq<Event>, k: nat)
    requires k < |s| && (forall i :: 0 <= i < k ==> !stop(s[i])) && stop(s[k])
    ensures InclusivePrefix(stop, s) == s[..k + 1]
  {
    if k > 0 {
      assert !stop(s[0]);
      forall i | 0 <= i < k - 1 ensures !stop(s[1..][i]) {
        assert s[1..][i] == s[i + 1];
      }
      assert s[1..][k - 1] == s[k];
      InclusivePrefixAt(stop, s[1..], k - 1);
      assert s[..k + 1] == [s[0]] + s[1..][..k];
    }
  }

  /** The image hook on one event: an accepted inline image's URL is added unless already there. */
  function Record(gate: Injector, items: seq<string>, e: Event): seq<string>
  {
    if Accepts(gate, e) && e.tag.url !in items then items + [e.tag.url] else items
  }

  /** The images the hook has recorded once the first `n` events were pulled. */
  function Recorded(gate: Injector, events: seq<Event>, n: nat): seq<string>
    requires n <= |events|
  {
    if n == 0 then [] else Record(gate, Recorded(gate, events, n - 1), events[n - 1])
  }

  /** Pulling events one at a time through the hook collects exactly their images. */
  lemma {:induction false} RecordedIsCollected(gate: Injector, events: seq<Event>, n: nat)
    requires n <= |events|
    ensures Recorded(gate, events, n) == CollectImages(gate, events[..n])
  {
    if n > 0 {
      RecordedIsCollected(gate, events, n - 1);
      var e := events[n - 1];
      assert events[..n] == events[..n - 1] + [e];
      AcceptedUrlsAppend(gate, events[..n - 1], [e]);
      InsertAllAppend([], AcceptedUrls(gate, events[..n - 1]), AcceptedUrls(gate, [e]));
      assert [e][1..] == [];
    }
  }

  /**
   * `Parser::new(markdown).inspect(...)`: the token stream, where every event pulled
   * passes the image hook that records accepted inline image URLs.
   */
  class InspectedParser {
    const events: seq<Event>
    var pos: nat
    const images: VecSet<string>
    const gate: Injector

    ghost predicate Valid()
      reads this, images
    {
      pos <= |events| && images.Valid() && images.items == Recorded(gate, events, pos)
    }

    ghost function Remaining(): seq<Event>
      reads this
      requires pos <= |events|
    {
      events[pos..]
    }

    constructor (events: seq<Event>, gate: Injector)
      ensures Valid() && this.events == events && this.gate == gate && pos == 0
      ensures fresh(images)
    {
      this.events := events;
      this.gate := gate;
      pos := 0;
      images := new VecSet();
    }

    /** Pulls the next event through the image hook. */
    method Next() returns (r: Option<Event>)
      requires Valid()
      modifies this, images
      ensures Valid()
      ensures old(pos) == |events| ==> r == None && pos == old(pos)
      ensures old(pos) < |events| ==> r == Some(events[old(pos)]) && pos == old(pos) + 1
    {
      if pos == |events| {
        return None;
      }
      var item := events[pos];
      if IsInlineImage(item) && gate.isValid(item.tag.url) {
        var _ := images.Insert(item.tag.url);
      }
      pos := pos + 1;
      r := Some(item);
    }
  }

  /** `Peekable`: an iterator that can look at its next item without giving it away. */
  class Peekable {
    const inner: InspectedParser
    /** The item already pulled from `inner` by a peek: `Some(None)` once `inner` ran dry. */
    var peeked: Option<Option<Event>>

    ghost predicate Valid()
      reads this, inner, inner.images
    {
      inner.Valid() && (peeked == Some(None) ==> inner.pos == |inner.events|)
    }

    ghost function Remaining(): seq<Event>
      reads this, inner
      requires inner.pos <= |inner.events|
    {
      match peeked
      case Some(Some(e)) => [e] + inner.Remaining()
      case Some(None) => []
      case None => inner.Remaining()
    }

    constructor (inner: InspectedParser)
      requires inner.Valid()
      ensures Valid() && this.inner == inner && peeked == None
      ensures Remaining() == inner.Remaining()
    {
      this.inner := inner;
      peeked := None;
    }

    /** `peek`: the next item, left in place. */
    method Peek() returns (r: Option<Event>)
      requires Valid()
      modifies this, inner, inner.images
      ensures Valid()
      ensures Remaining() == old(Remaining())
      ensures r == if old(Remaining()) == [] then None else Some(old(Remaining())[0])
      ensures peeked.Some?
    {
      if peeked.None? {
        var e := inner.Next();
        peeked := Some(e);
      }
      r := peeked.value;
    }

    method Next() returns (r: Option<Event>)
      requires Valid()
      modifies this, inner, inner.images
      ensures Valid()
      ensures old(Remaining()) == [] ==> r == None && Remaining() == []
      ensures old(Remaining()) != [] ==>
        r == Some(old(Remaining())[0]) && Remaining() == old(Remaining())[1..]
    {
      match peeked
      case Some(e) =>
        peeked := None;
        r := e;
      case None =>
        r := inner.Next();
    }
  }

  /**
   * `InclusiveTakeUntil`: yields items up to and including the first match, then
   * latches `hasEnded` and yields nothing more without touching its source.
   */
  class InclusiveTakeUntil {
    const iter: Peekable
    const stop: Event -> bool
    var hasEnded: bool

    ghost predicate Valid()
      reads this, iter, iter.inner, iter.inner.images
    {
      iter.Valid()
    }

    ghost function Remaining(): seq<Event>
      reads this, iter, iter.inner
      requires iter.inner.pos <= |iter.inner.events|
    {
      if hasEnded then [] else InclusivePrefix(stop, iter.Remaining())
    }

    constructor (iter: Peekable, stop: Event -> bool)
      requires iter.Valid()
      ensures Valid() && this.iter == iter && this.stop == stop && !hasEnded
      ensures Remaining() == InclusivePrefix(stop, iter.Remaining())
    {
      this.iter := iter;
      this.stop := stop;
      hasEnded := false;
    }

    method Next() returns (r: Option<Event>)
      requires Valid()
      modifies this, iter, iter.inner, iter.inner.images
      ensures Valid()
      ensures old(Remaining()) == [] ==> r == None && Remaining() == []
      ensures old(Remaining()) != [] ==>
        r == Some(old(Remaining())[0]) && Remaining() == old(Remaining())[1..]
      ensures old(hasEnded) ==> hasEnded && unchanged(iter, iter.inner, iter.inner.images)
      ensures r.Some? ==> !old(hasEnded) && iter.Remaining() == old(iter.Remaining())[1..]
      ensures r.None? ==> iter.Remaining() == old(iter.Remaining())
    {
      if hasEnded {
        return None;
      }
      var item := iter.Next();
      if item.None? {
        return None;
      }
      hasEnded := stop(item.value);
      r := item;
    }
  }

  /**
   * `PeekTakeUntil`: yields the next item only while the peeked item does not match;
   * the match itself stays in the `Peekable`.
   */
  class PeekTakeUntil {
    const iter: Peekable
    const stop: Event -> bool

    ghost predicate Valid()
      reads this, iter, iter.inner, iter.inner.images
    {
      iter.Valid()
    }

    ghost function Remaining(): seq<Event>
      reads this, iter, iter.inner
      requires iter.inner.pos <= |iter.inner.events|
    {
      UntilMatch(stop, iter.Remaining())
    }

    constructor (iter: Peekable, stop: Event -> bool)
      requires iter.Valid()
      ensures Valid() && this.iter == iter && this.stop == stop
    {
      this.iter := iter;
      this.stop := stop;
    }

    method Next() returns (r: Option<Event>)
      requires Valid()
      modifies iter, iter.inner, iter.inner.images
      ensures Valid()
      ensures old(Remaining()) == [] ==> r == None && Remaining() == []
      ensures old(Remaining()) != [] ==>
        r == Some(old(Remaining())[0]) && Remaining() == old(Remaining())[1..]
      ensures iter.Remaining() == if r.Some? then old(iter.Remaining())[1..] else old(iter.Remaining())
      ensures r.None? ==> iter.peeked.Some?
    {
      var item := iter.Peek();
      if item.None? || stop(item.value) {
        return None;
      }
      r := iter.Next();
    }
  }
}
