/**
 * `TakeCount`: an iterator adapter that adds a weight for every item it pulls to a
 * running count and stops, dropping that item, as soon as the count reaches a cap.
 */
module TakeCounts {
  import opened Wrappers

  /** Sum of the weights of `s`. */
  function Total<T>(s: seq<T>, weight: T -> nat): nat
  {
    if s == [] then 0 else weight(s[0]) + Total(s[1..], weight)
  }

  lemma {:induction false} TotalAppend<T>(a: seq<T>, b: seq<T>, weight: T -> nat)
    ensures Total(a + b, weight) == Total(a, weight) + Total(b, weight)
  {
    if a == [] {
      assert a + b == b;
    } else {
      assert (a + b)[1..] == a[1..] + b;
      TotalAppend(a[1..], b, weight);
    }
  }

  lemma TotalCons<T>(x: T, rest: seq<T>, weight: T -> nat)
    ensures Total([x] + rest, weight) == weight(x) + Total(rest, weight)
  {
    assert ([x] + rest)[1..] == rest;
  }

  /** A prefix never weighs more than the whole. */
  lemma TotalPrefix<T>(s: seq<T>, k: nat, weight: T -> nat)
    requires k <= |s|
    ensures Total(s[..k], weight) <= Total(s, weight)
  {
    assert s == s[..k] + s[k..];
    TotalAppend(s[..k], s[k..], weight);
  }

  /**
   * What `TakeCount` yields from `s` once `count` has been counted: items while the
   * count after adding each one stays below `maxCount`.
   */
  function Capped<T>(s: seq<T>, maxCount: nat, weight: T -> nat, count: nat): seq<T>
  {
    if s == [] || count + weight(s[0]) >= maxCount then []
    else [s[0]] + Capped(s[1..], maxCount, weight, count + weight(s[0]))
  }

  /**
   * `Capped` is the longest prefix whose running total stays below the cap: it is a
   * prefix, its items together stay below the cap, and the next item would reach it.
   */
  lemma {:induction false} CappedIsLongestPrefixBelowCap<T>(s: seq<T>, maxCount: nat, weight: T -> nat, count: nat)
    ensures var r := Capped(s, maxCount, weight, count);
      && r <= s
      && (r != [] ==> count + Total(r, weight) < maxCount)
      && (|r| < |s| ==> count + Total(r, weight) + weight(s[|r|]) >= maxCount)
  {
    if s != [] && count + weight(s[0]) < maxCount {
      var c := count + weight(s[0]);
      var rest := Capped(s[1..], maxCount, weight, c);
      CappedIsLongestPrefixBelowCap(s[1..], maxCount, weight, c);
      var r := [s[0]] + rest;
      assert r[1..] == rest;
      if |r| < |s| {
        assert s[|r|] == s[1..][|rest|];
      }
    }
  }

  /** Every prefix lighter than the cap is kept whole. */
  lemma CappedKeepsLightPrefix<T>(s: seq<T>, k: nat, maxCount: nat, weight: T -> nat)
    requires k <= |s| && Total(s[..k], weight) < maxCount
    ensures |Capped(s, maxCount, weight, 0)| >= k
  {
    var r := Capped(s, maxCount, weight, 0);
    CappedIsLongestPrefixBelowCap(s, maxCount, weight, 0);
    if |r| < k {
      var n := |r|;
      assert r == s[..n];
      assert s[..n + 1] == r + [s[n]];
      TotalCons(s[n], [], weight);
      assert [s[n]] + [] == [s[n]];
      TotalAppend(r, [s[n]], weight);
      assert s[..k][..n + 1] == s[..n + 1];
      TotalPrefix(s[..k], n + 1, weight);
      assert false;
    }
  }

  class TakeCount<T> {
    /** The wrapped iterator: its items and how many it has handed out. */
    const items: seq<T>
    var pos: nat
    const maxCount: nat
    var count: nat
    const weight: T -> nat

    ghost predicate Valid()
      reads this
    {
      pos <= |items|
    }

    /** What the adapter still yields. */
    ghost function Remaining(): seq<T>
      reads this
      requires Valid()
    {
      Capped(items[pos..], maxCount, weight, count)
    }

    /** `TakeCount::new`: nothing counted yet. */
    constructor (items: seq<T>, maxCount: nat, weight: T -> nat)
      ensures Valid() && this.items == items && this.maxCount == maxCount && this.weight == weight
      ensures pos == 0 && count == 0
      ensures Remaining() == Capped(items, maxCount, weight, 0)
    {
      this.items := items;
      this.maxCount := maxCount;
      this.weight := weight;
      pos := 0;
      count := 0;
    }

    /**
     * Pulls one item, counts its weight, and yields it only while the count stays
     * below the cap; once the cap is reached nothing more is ever yielded.
     */
    method Next() returns (r: Option<T>)
      requires Valid()
      modifies this
      ensures Valid()
      ensures pos == if old(pos) < |items| then old(pos) + 1 else old(pos)
      ensures count == if old(pos) < |items| then old(count) + weight(items[old(pos)]) else old(count)
      ensures old(Remaining()) == [] ==> r == None && Remaining() == []
      ensures old(Remaining()) != [] ==>
        r == Some(old(Remaining())[0]) && Remaining() == old(Remaining())[1..]
    {
      if pos == |items| {
        return None;
      }
      var next := items[pos];
      assert items[pos..][1..] == items[pos + 1..];
      pos := pos + 1;
      var step := weight(next);
      count := count + step;
      if count >= maxCount {
        return None;
      }
      r := Some(next);
    }
  }
}
