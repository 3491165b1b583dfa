/** Candle series, time ranges of them, and sorting by timestamp: what the pagination loops of
    the historical download share. */
module Candles {
  import opened Options
  import opened Sorting

  datatype Candle = Candle(ts: int, open: real, high: real, low: real, close: real, volume: real)

  ghost predicate Ascending(s: seq<Candle>) {
    forall i, j :: 0 <= i < j < |s| ==> s[i].ts < s[j].ts
  }

  predicate InRange(c: Candle, lo: int, hi: int) { lo <= c.ts < hi }

  /** The candles of `s` with lo <= ts < hi, in the order of `s`. */
  function Between(s: seq<Candle>, lo: int, hi: int): seq<Candle> {
    if s == [] then []
    else
      var rest := Between(s[..|s| - 1], lo, hi);
      if InRange(s[|s| - 1], lo, hi) then rest + [s[|s| - 1]] else rest
  }

  lemma {:induction false} BetweenMembers(s: seq<Candle>, lo: int, hi: int)
    ensures forall c :: c in Between(s, lo, hi) <==> c in s && lo <= c.ts < hi
  {
    if s != [] {
      BetweenMembers(s[..|s| - 1], lo, hi);
      assert s == s[..|s| - 1] + [s[|s| - 1]];
    }
  }

  lemma BetweenAppend(s: seq<Candle>, c: Candle, lo: int, hi: int)
    ensures Between(s + [c], lo, hi) == if InRange(c, lo, hi) then Between(s, lo, hi) + [c] else Between(s, lo, hi)
  {
    assert (s + [c])[..|s|] == s;
  }

  lemma {:induction false} BetweenConcat(s: seq<Candle>, t: seq<Candle>, lo: int, hi: int)
    ensures Between(s + t, lo, hi) == Between(s, lo, hi) + Between(t, lo, hi)
  {
    if t == [] {
      assert s + t == s;
    } else {
      var n := |t| - 1;
      assert s + t == (s + t[..n]) + [t[n]] && t == t[..n] + [t[n]];
      BetweenConcat(s, t[..n], lo, hi);
      BetweenAppend(s + t[..n], t[n], lo, hi);
      BetweenAppend(t[..n], t[n], lo, hi);
    }
  }

  lemma {:induction false} BetweenAscending(s: seq<Candle>, lo: int, hi: int)
    requires Ascending(s)
    ensures Ascending(Between(s, lo, hi))
  {
    if s != [] {
      var n := |s| - 1;
      BetweenAscending(s[..n], lo, hi);
      BetweenMembers(s[..n], lo, hi);
      var rest := Between(s[..n], lo, hi);
      forall i | 0 <= i < |rest| ensures rest[i].ts < s[n].ts {
        assert rest[i] in s[..n];
      }
    }
  }

  lemma {:induction false} BetweenNone(s: seq<Candle>, lo: int, hi: int)
    requires forall i :: 0 <= i < |s| ==> !InRange(s[i], lo, hi)
    ensures Between(s, lo, hi) == []
  {
    if s != [] {
      BetweenNone(s[..|s| - 1], lo, hi);
    }
  }

  /** Ranges that meet can be joined, for a series in ascending order. */
  lemma {:induction false} BetweenJoin(s: seq<Candle>, lo: int, mid: int, hi: int)
    requires Ascending(s) && lo <= mid <= hi
    ensures Between(s, lo, hi) == Between(s, lo, mid) + Between(s, mid, hi)
  {
    if s != [] {
      var n := |s| - 1;
      BetweenJoin(s[..n], lo, mid, hi);
      if s[n].ts < mid {
        BetweenNone(s[..n], mid, hi);
      }
    }
  }

  lemma {:induction false} BetweenMultiset(s: seq<Candle>, lo: int, hi: int, c: Candle)
    ensures multiset(Between(s, lo, hi))[c] == if lo <= c.ts < hi then multiset(s)[c] else 0
  {
    if s != [] {
      var n := |s| - 1;
      BetweenMultiset(s[..n], lo, hi, c);
      assert s == s[..n] + [s[n]];
    }
  }

  lemma BetweenPermuted(s: seq<Candle>, t: seq<Candle>, lo: int, hi: int)
    requires multiset(s) == multiset(t)
    ensures multiset(Between(s, lo, hi)) == multiset(Between(t, lo, hi))
  {
    forall c ensures multiset(Between(s, lo, hi))[c] == multiset(Between(t, lo, hi))[c] {
      BetweenMultiset(s, lo, hi, c);
      BetweenMultiset(t, lo, hi, c);
    }
  }

  lemma BetweenNext(s: seq<Candle>, i: nat, lo: int, hi: int)
    requires i < |s|
    ensures Between(s[..i + 1], lo, hi) == Between(s[..i], lo, hi) + if InRange(s[i], lo, hi) then [s[i]] else []
  {
    assert s[..i + 1] == s[..i] + [s[i]];
    BetweenAppend(s[..i], s[i], lo, hi);
  }

  /** The loop over one response. */
  method AppendInRange(all: seq<Candle>, page: seq<Candle>, start: int, end: int) returns (r: seq<Candle>)
    ensures r == all + Between(page, start, end)
  {
    r := all;
    for i := 0 to |page|
      invariant r == all + Between(page[..i], start, end)
    {
      BetweenNext(page, i, start, end);
      if start <= page[i].ts < end {
        r := r + [page[i]];
      }
    }
    assert page[..|page|] == page;
  }

  // ----- Requests that are cut ------------------------------------------------------

  function Least(x: nat, y: nat): nat { if x < y then x else y }

  /** What becomes of the requests: when `cut(i)` is present the `i`-th one ends the loop after
      so many entries of its response were read, zero when there is no usable response. */
  ghost predicate Uncut(cut: nat -> Option<nat>, requests: nat) {
    forall j: nat :: j < requests ==> cut(j).None?
  }

  lemma UncutNext(cut: nat -> Option<nat>, requests: nat)
    requires Uncut(cut, requests) && cut(requests).None?
    ensures Uncut(cut, requests + 1)
  {
  }

  // ----- Sorting by timestamp -------------------------------------------------------

  function Time(c: Candle): real { c.ts as real }

  /** Sorting finds a strictly ascending series again, however its candles were collected. */
  lemma SortRecovers(collected: seq<Candle>, series: seq<Candle>)
    requires Ascending(series) && multiset(collected) == multiset(series)
    ensures Sort(collected, Time) == series
  {
    SortSorted(collected, Time);
    AscendingIsSorted(series);
    SortedUnique(Sort(collected, Time), series, Time);
  }

  lemma AscendingIsSorted(s: seq<Candle>)
    requires Ascending(s)
    ensures Sorted(s, Time) && Keyed(s, Time)
  {
  }
}
