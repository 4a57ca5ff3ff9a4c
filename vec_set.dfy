/**
 * `VecSet`: a vector that refuses duplicates, so its contents are the distinct items
 * in the order they were first inserted. The library and the application carry three
 * identical copies of it; this one class models all of them.
 */
module VecSets {

  /** No item occurs twice. */
  ghost predicate NoDuplicates<T>(s: seq<T>)
  {
    forall i, j :: 0 <= i < j < |s| ==> s[i] != s[j]
  }

  /**
   * The distinct items of `s` in first-occurrence order, after those already in `seen`:
   * the contents a set holding `seen` has after inserting every item of `s` in turn.
   */
  function InsertAll<T(==)>(seen: seq<T>, s: seq<T>): seq<T>
    decreases |s|
  {
    if s == [] then seen
    else InsertAll(if s[0] in seen then seen else seen + [s[0]], s[1..])
  }

  /** Inserting a whole sequence keeps the old items first, adds only new items, and repeats none. */
  lemma {:induction false} InsertAllFacts<T>(seen: seq<T>, s: seq<T>)
    requires NoDuplicates(seen)
    ensures NoDuplicates(InsertAll(seen, s))
    ensures |seen| <= |InsertAll(seen, s)| && InsertAll(seen, s)[..|seen|] == seen
    ensures forall x :: x in InsertAll(seen, s) <==> x in seen || x in s
    decreases |s|
  {
    if s != [] {
      var next := if s[0] in seen then seen else seen + [s[0]];
      InsertOneFacts(seen, s[0]);
      InsertAllFacts(next, s[1..]);
      var r := InsertAll(seen, s);
      assert r[..|seen|] == r[..|next|][..|seen|];
      assert s == [s[0]] + s[1..];
    }
  }

  /** One step of `InsertAll`: the same facts for a single item. */
  lemma InsertOneFacts<T>(seen: seq<T>, x: T)
    requires NoDuplicates(seen)
    ensures var next := if x in seen then seen else seen + [x];
      && NoDuplicates(next)
      && |seen| <= |next| && next[..|seen|] == seen
      && forall y :: y in next <==> y in seen || y == x
  {
    if x !in seen {
      assert (seen + [x])[..|seen|] == seen;
    }
  }

  /** Position of the first occurrence of `x` in `s`. */
  function FirstIndex<T(==)>(s: seq<T>, x: T): (k: nat)
    requires x in s
    ensures k < |s| && s[k] == x && x !in s[..k]
  {
    if s[0] == x then 0
    else
      var k := FirstIndex(s[1..], x);
      assert s[..k + 1] == [s[0]] + s[1..][..k];
      k + 1
  }

  /**
   * The items `InsertAll` adds after `seen` are new, come from `s`, and keep the order
   * of their first occurrences in `s`.
   */
  lemma {:induction false} InsertAllOrder<T>(seen: seq<T>, s: seq<T>)
    requires NoDuplicates(seen)
    ensures |seen| <= |InsertAll(seen, s)|
    ensures forall i :: |seen| <= i < |InsertAll(seen, s)| ==>
      InsertAll(seen, s)[i] in s && InsertAll(seen, s)[i] !in seen
    ensures forall i, j :: |seen| <= i < j < |InsertAll(seen, s)| ==>
      FirstIndex(s, InsertAll(seen, s)[i]) < FirstIndex(s, InsertAll(seen, s)[j])
    decreases |s|
  {
    InsertAllFacts(seen, s);
    if s != [] {
      var r := InsertAll(seen, s);
      var next := if s[0] in seen then seen else seen + [s[0]];
      assert NoDuplicates(next);
      InsertAllOrder(next, s[1..]);
      InsertAllFacts(next, s[1..]);
      assert r == InsertAll(next, s[1..]);
      forall i | |seen| <= i < |r| ensures r[i] in s && r[i] !in seen {
        if i >= |next| {
          assert r[i] in s[1..];
          assert r[i] !in seen by { assert seen <= next; }
        } else {
          assert r[i] == s[0];
        }
      }
      forall i | |next| <= i < |r| ensures r[i] != s[0] && FirstIndex(s, r[i]) == FirstIndex(s[1..], r[i]) + 1 {
        if s[0] !in seen {
          assert r[|seen|] == s[0];
        }
        FirstIndexTail(s, r[i]);
      }
      if s[0] !in seen {
        assert r[|seen|] == s[0] && FirstIndex(s, s[0]) == 0;
      }
    }
  }

  /** Every item of `r` occurs in `s`, and `r` lists them in the order they first occur there. */
  ghost predicate InFirstSeenOrder<T>(r: seq<T>, s: seq<T>)
  {
    && (forall i :: 0 <= i < |r| ==> r[i] in s)
    && forall i, j :: 0 <= i < j < |r| ==> FirstIndex(s, r[i]) < FirstIndex(s, r[j])
  }

  /** Inserting into an empty set lists the distinct items in first-occurrence order. */
  lemma InsertAllFirstSeen<T>(s: seq<T>)
    ensures InFirstSeenOrder(InsertAll([], s), s)
  {
    InsertAllOrder([], s);
  }

  lemma FirstIndexTail<T>(s: seq<T>, x: T)
    requires x in s && s[0] != x
    ensures x in s[1..] && FirstIndex(s, x) == FirstIndex(s[1..], x) + 1
  {
    assert s == [s[0]] + s[1..];
  }

  /** Inserting `a` and then `b` is inserting `a + b`. */
  lemma {:induction false} InsertAllAppend<T>(seen: seq<T>, a: seq<T>, b: seq<T>)
    ensures InsertAll(seen, a + b) == InsertAll(InsertAll(seen, a), b)
    decreases |a|
  {
    if a == [] {
      assert a + b == b;
    } else {
      assert (a + b)[0] == a[0];
      assert (a + b)[1..] == a[1..] + b;
      InsertAllAppend(if a[0] in seen then seen else seen + [a[0]], a[1..], b);
    }
  }

  class VecSet<T(==)> {
    /** The inner `Vec`, in insertion order. */
    var items: seq<T>

    ghost predicate Valid()
      reads this
    {
      NoDuplicates(items)
    }

    /** `VecSet::default()`: an empty set. */
    constructor ()
      ensures Valid() && items == []
    {
      items := [];
    }

    /**
     * Appends `item` unless it is already present; answers whether it was new.
     * Afterwards `item` is contained, and nothing was reordered or removed.
     */
    method Insert(item: T) returns (added: bool)
      requires Valid()
      modifies this
      ensures Valid()
      ensures added <==> item !in old(items)
      ensures items == if added then old(items) + [item] else old(items)
      ensures item in items
    {
      var contains := Contains(item);
      if !contains {
        items := items + [item];
      }
      added := !contains;
    }

    /** `Vec::contains`: a linear scan for an equal item. */
    method Contains(item: T) returns (found: bool)
      ensures found <==> item in items
    {
      found := false;
      var i := 0;
      while i < |items|
        invariant 0 <= i <= |items|
        invariant found <==> item in items[..i]
      {
        if items[i] == item {
          found := true;
        }
        i := i + 1;
      }
      assert items[..|items|] == items;
    }

    /** `into_inner`: the stored sequence, unchanged. */
    method IntoInner() returns (inner: seq<T>)
      requires Valid()
      ensures inner == items && NoDuplicates(inner)
    {
      inner := items;
    }
  }
}
