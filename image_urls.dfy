/**
 * `mutate_item`: every inline image whose URL the injector accepts has its URL
 * recorded, in its original form, and then rewritten by the injector. Other events,
 * and images the injector refuses, pass through untouched.
 */
module ImageUrls {
  import opened Events
  import opened VecSets

  /** `ImageUrlInjector`: which image URLs are hosted, and how a hosted URL is rewritten. */
  datatype Injector = Injector(isValid: string -> bool, inject: string -> string)

  /** `e` is an inline image whose URL `injector` accepts. */
  predicate Accepts(injector: Injector, e: Event)
  {
    IsInlineImage(e) && injector.isValid(e.tag.url)
  }

  /** The event after `mutate_item`. */
  function Mutate(injector: Injector, e: Event): (r: Event)
    ensures !Accepts(injector, e) ==> r == e
    ensures Accepts(injector, e) ==>
      IsInlineImage(r) && r.tag.url == injector.inject(e.tag.url) && r.tag.title == e.tag.title
  {
    if Accepts(injector, e) then Start(Image(Inline, injector.inject(e.tag.url), e.tag.title)) else e
  }

  /** The stream after `map(mutate_item)`. */
  function MutateAll(injector: Injector, s: seq<Event>): (r: seq<Event>)
    ensures |r| == |s|
    ensures forall i :: 0 <= i < |s| ==> r[i] == Mutate(injector, s[i])
  {
    if s == [] then [] else [Mutate(injector, s[0])] + MutateAll(injector, s[1..])
  }

  /** The original URLs of the accepted inline images of `s`, in stream order. */
  function AcceptedUrls(injector: Injector, s: seq<Event>): seq<string>
  {
    if s == [] then []
    else (if Accepts(injector, s[0]) then [s[0].tag.url] else []) + AcceptedUrls(injector, s[1..])
  }

  lemma {:induction false} AcceptedUrlsAppend(injector: Injector, a: seq<Event>, b: seq<Event>)
    ensures AcceptedUrls(injector, a + b) == AcceptedUrls(injector, a) + AcceptedUrls(injector, b)
  {
    if a == [] {
      assert a + b == b;
    } else {
      assert (a + b)[1..] == a[1..] + b;
      AcceptedUrlsAppend(injector, a[1..], b);
    }
  }

  lemma {:induction false} AcceptedUrlsMembers(injector: Injector, s: seq<Event>)
    ensures forall x :: x in AcceptedUrls(injector, s) <==>
      exists j :: 0 <= j < |s| && Accepts(injector, s[j]) && s[j].tag.url == x
  {
    if s != [] {
      AcceptedUrlsMembers(injector, s[1..]);
      forall x | x in AcceptedUrls(injector, s[1..])
        ensures exists j :: 0 <= j < |s| && Accepts(injector, s[j]) && s[j].tag.url == x
      {
        var j :| 0 <= j < |s[1..]| && Accepts(injector, s[1..][j]) && s[1..][j].tag.url == x;
        assert s[j + 1] == s[1..][j];
      }
      forall x, j | 0 <= j < |s| && Accepts(injector, s[j]) && s[j].tag.url == x
        ensures x in AcceptedUrls(injector, s)
      {
        if j > 0 {
          assert s[1..][j - 1] == s[j];
        }
      }
    }
  }

  /** What the `VecSet` of images holds after the stream `s` went through `mutate_item`. */
  function CollectImages(injector: Injector, s: seq<Event>): seq<string>
  {
    InsertAll([], AcceptedUrls(injector, s))
  }

  /**
   * The collected images are the original URLs of exactly the accepted inline images,
   * without duplicates, in the order of their first accepted occurrence.
   */
  lemma CollectImagesFacts(injector: Injector, s: seq<Event>)
    ensures NoDuplicates(CollectImages(injector, s))
    ensures forall x :: x in CollectImages(injector, s) <==>
      exists j :: 0 <= j < |s| && Accepts(injector, s[j]) && s[j].tag.url == x
    ensures InFirstSeenOrder(CollectImages(injector, s), AcceptedUrls(injector, s))
  {
    InsertAllFacts([], AcceptedUrls(injector, s));
    InsertAllFirstSeen(AcceptedUrls(injector, s));
    AcceptedUrlsMembers(injector, s);
  }

  /** The images collected from a stream's suffix, stated on the whole stream's positions. */
  lemma CollectedFromSuffix(injector: Injector, events: seq<Event>, k: nat)
    requires k <= |events|
    ensures forall x :: x in CollectImages(injector, events[k..]) <==>
      exists j :: k <= j < |events| && Accepts(injector, events[j]) && events[j].tag.url == x
  {
    var rest := events[k..];
    CollectImagesFacts(injector, rest);
    forall x | x in CollectImages(injector, rest)
      ensures exists j :: k <= j < |events| && Accepts(injector, events[j]) && events[j].tag.url == x
    {
      var j :| 0 <= j < |rest| && Accepts(injector, rest[j]) && rest[j].tag.url == x;
      assert events[k + j] == rest[j];
    }
    forall j | k <= j < |events| && Accepts(injector, events[j])
      ensures events[j].tag.url in CollectImages(injector, rest)
    {
      assert rest[j - k] == events[j];
    }
  }

  /**
   * `mutate_item`: records an accepted inline image's URL in `images` and rewrites the
   * event's URL; anything else is left as it is.
   */
  method MutateItem(item: Event, images: VecSet<string>, injector: Injector) returns (mutated: Event)
    requires images.Valid()
    modifies images
    ensures images.Valid()
    ensures mutated == Mutate(injector, item)
    ensures images.items == InsertAll(old(images.items), AcceptedUrls(injector, [item]))
  {
    mutated := item;
    if IsInlineImage(item) {
      var url := item.tag.url;
      if !injector.isValid(url) {
        return;
      }
      var _ := images.Insert(url);
      mutated := Start(Image(Inline, injector.inject(url), item.tag.title));
    }
  }

  /**
   * The `parser.map(...)` stage: every event of `rest` goes through `mutate_item` in
   * order; answers the mapped stream and the images collected.
   */
  method MutateStream(rest: seq<Event>, injector: Injector) returns (mapped: seq<Event>, images: seq<string>)
    ensures mapped == MutateAll(injector, rest)
    ensures images == CollectImages(injector, rest)
  {
    var seen := new VecSet<string>();
    mapped := [];
    var i := 0;
    while i < |rest|
      invariant 0 <= i <= |rest|
      invariant seen.Valid()
      invariant mapped == MutateAll(injector, rest[..i])
      invariant seen.items == CollectImages(injector, rest[..i])
    {
      var item := MutateItem(rest[i], seen, injector);
      assert rest[..i + 1] == rest[..i] + [rest[i]];
      AcceptedUrlsAppend(injector, rest[..i], [rest[i]]);
      InsertAllAppend([], AcceptedUrls(injector, rest[..i]), AcceptedUrls(injector, [rest[i]]));
      mapped := mapped + [item];
      i := i + 1;
    }
    assert rest[..|rest|] == rest;
    images := seen.IntoInner();
  }
}
