/** Backward pagination by count: the OKX loop of the historical download.

    The exchange is a series of candles in ascending order. Asked for data before a cursor it
    answers with the newest `n` candles strictly older than it; any request may fail, or break
    off inside a page, and the loop then keeps what it has. */
module BackwardPaging {
  import opened Candles
  import opened Options
  import opened Sorting

  // ----- The exchange ---------------------------------------------------------------

  /** How many candles of an ascending series are strictly older than `cursor`. */
  function Older(s: seq<Candle>, cursor: int): (k: nat)
    ensures k <= |s|
  {
    if s == [] || s[|s| - 1].ts < cursor then |s| else Older(s[..|s| - 1], cursor)
  }

  lemma {:induction false} OlderSplits(s: seq<Candle>, cursor: int)
    requires Ascending(s)
    ensures forall i :: 0 <= i < |s| ==> (s[i].ts < cursor <==> i < Older(s, cursor))
  {
    if s != [] && s[|s| - 1].ts >= cursor {
      OlderSplits(s[..|s| - 1], cursor);
    }
  }

  /** No less than zero. */
  function Clamped(x: int): nat { if x < 0 then 0 else x }

  /** The newest `count` candles strictly older than `cursor`, in ascending order. */
  function Newest(s: seq<Candle>, cursor: int, count: nat): seq<Candle> {
    s[Clamped(Older(s, cursor) - count)..Older(s, cursor)]
  }

  function Reversed(s: seq<Candle>): seq<Candle> {
    seq(|s|, i requires 0 <= i < |s| => s[|s| - 1 - i])
  }

  /** The answer of OKX: newest first. */
  function OkxAnswer(server: seq<Candle>, cursor: int, n: nat): seq<Candle> {
    Reversed(Newest(server, cursor, n))
  }

  lemma OkxPage(server: seq<Candle>, cursor: int, n: nat)
    ensures multiset(OkxAnswer(server, cursor, n)) == multiset(Newest(server, cursor, n))
    ensures var page, newest := OkxAnswer(server, cursor, n), Newest(server, cursor, n);
      |page| == |newest| && (newest != [] ==> page[|page| - 1] == newest[0])
  {
    ReversedMultiset(Newest(server, cursor, n));
  }

  lemma {:induction false} ReversedMultiset(s: seq<Candle>)
    ensures multiset(Reversed(s)) == multiset(s)
  {
    if s != [] {
      var n := |s| - 1;
      ReversedMultiset(s[..n]);
      assert Reversed(s) == [s[n]] + Reversed(s[..n]);
      assert s == s[..n] + [s[n]];
    }
  }

  // ----- What a backward loop has collected -----------------------------------------

  /** `all` holds, in some order, the candles in range among server[k..upper]. */
  ghost predicate Holds(all: seq<Candle>, server: seq<Candle>, k: nat, upper: nat, start: int, end: int) {
    && k <= upper <= |server|
    && multiset(all) == multiset(Between(server[k..upper], start, end))
  }

  lemma PageStep(all: seq<Candle>, page: seq<Candle>, server: seq<Candle>, j: nat, k: nat, upper: nat, start: int,
                 end: int)
    requires Holds(all, server, k, upper, start, end) && j <= k
    requires multiset(page) == multiset(server[j..k])
    ensures Holds(all + Between(page, start, end), server, j, upper, start, end)
  {
    assert server[j..upper] == server[j..k] + server[k..upper];
    BetweenConcat(server[j..k], server[k..upper], start, end);
    BetweenPermuted(page, server[j..k], start, end);
  }

  /** Nothing older than server[k] is in range. */
  ghost predicate Exhausted(server: seq<Candle>, k: nat, start: int) {
    k == 0 || (k < |server| && server[k].ts <= start)
  }

  /** Once exhausted, reaching further back would not add a candle. */
  lemma FurtherBackIsSame(server: seq<Candle>, j: nat, k: nat, upper: nat, start: int, end: int)
    requires Ascending(server) && Exhausted(server, k, start) && j <= k <= upper <= |server|
    ensures Between(server[j..upper], start, end) == Between(server[k..upper], start, end)
  {
    assert server[j..upper] == server[j..k] + server[k..upper];
    BetweenConcat(server[j..k], server[k..upper], start, end);
    BetweenNone(server[j..k], start, end);
  }

  /** Candles at or after the first cursor are out of range. */
  lemma NewerIsOutside(server: seq<Candle>, cursor: int, start: int, end: int)
    requires Ascending(server) && end <= cursor
    ensures Between(server[..Older(server, cursor)], start, end) == Between(server, start, end)
  {
    var k := Older(server, cursor);
    OlderSplits(server, cursor);
    assert server == server[..k] + server[k..];
    BetweenConcat(server[..k], server[k..], start, end);
    BetweenNone(server[k..], start, end);
  }

  lemma SliceAscending(s: seq<Candle>, i: nat, j: nat)
    requires Ascending(s) && i <= j <= |s|
    ensures Ascending(s[i..j])
  {
  }

  /** The sorted collection is what the newest `taken` candles have in range. */
  lemma Collected(all: seq<Candle>, server: seq<Candle>, cursor: int, taken: nat, start: int, end: int)
    requires Ascending(server)
    requires Holds(all, server, Clamped(Older(server, cursor) - taken), Older(server, cursor), start, end)
    ensures Sort(all, Time) == Between(Newest(server, cursor, taken), start, end)
  {
    var upper := Older(server, cursor);
    SliceAscending(server, Clamped(upper - taken), upper);
    BetweenAscending(Newest(server, cursor, taken), start, end);
    SortRecovers(all, Between(Newest(server, cursor, taken), start, end));
  }

  /** Once exhausted after `taken` candles, taking more of them changes nothing. */
  lemma ExhaustedIsComplete(server: seq<Candle>, cursor: int, taken: nat, more: nat, start: int, end: int)
    requires Ascending(server) && end <= cursor && taken <= more
    requires Exhausted(server, Clamped(Older(server, cursor) - taken), start)
    ensures Between(Newest(server, cursor, more), start, end) == Between(server, start, end)
  {
    var upper := Older(server, cursor);
    var k, j := Clamped(upper - taken), Clamped(upper - more);
    NewerIsOutside(server, cursor, start, end);
    assert server[0..upper] == server[..upper];
    FurtherBackIsSame(server, 0, k, upper, start, end);
    FurtherBackIsSame(server, j, k, upper, start, end);
  }

  /** The size of the first `pages` pages. */
  function Taken(pages: nat, n: nat): nat { if pages == 0 then 0 else Taken(pages - 1, n) + n }

  lemma {:induction false} MorePages(f: nat, pages: nat, n: nat)
    requires f >= pages
    ensures Taken(f, n) >= Taken(pages, n)
  {
    if f > pages {
      MorePages(f - 1, pages, n);
    }
  }

  lemma {:induction false} OlderAt(s: seq<Candle>, j: nat)
    requires Ascending(s) && j < |s|
    ensures Older(s, s[j].ts) == j
  {
    var init := s[..|s| - 1];
    if j < |init| {
      assert init[j] == s[j];
      OlderAt(init, j);
    }
  }

  /** The cursor moves to the oldest candle of the page just read. */
  lemma NextCursor(server: seq<Candle>, n: nat, cursor: int)
    requires Ascending(server) && n >= 1 && Older(server, cursor) > 0
    ensures var k, page := Older(server, cursor), Newest(server, cursor, n);
      var j := Clamped(k - n);
      && page == server[j..k] && page != [] && page[0] == server[j]
      && Older(server, page[0].ts) == j < k
  {
    OlderAt(server, Clamped(Older(server, cursor) - n));
  }

  lemma ClampedTwice(upper: nat, taken: nat, n: nat)
    ensures Clamped(Clamped(upper - taken) - n) == Clamped(upper - (taken + n))
  {
  }

  /** Invariant of a loop that started at cursor `first` and has taken `taken` candles, or
      all there were. */
  ghost predicate Reading(all: seq<Candle>, server: seq<Candle>, first: int, cursor: int, taken: nat, start: int,
                          end: int) {
    && Older(server, cursor) == Clamped(Older(server, first) - taken)
    && Holds(all, server, Older(server, cursor), Older(server, first), start, end)
  }

  lemma ReadingFrom(all: seq<Candle>, server: seq<Candle>, first: int, cursor: int, k: nat, taken: nat, start: int,
                    end: int)
    requires Holds(all, server, k, Older(server, first), start, end)
    requires Older(server, cursor) == k == Clamped(Older(server, first) - taken)
    ensures Reading(all, server, first, cursor, taken, start, end)
  {
  }

  /** One response, in whatever order: the candles in range are added and the cursor moves to
      the oldest candle of the page. */
  lemma ReadPage(all: seq<Candle>, page: seq<Candle>, server: seq<Candle>, first: int, cursor: int, n: nat, taken: nat,
                 start: int, end: int)
    requires Ascending(server) && n >= 1 && Older(server, cursor) > 0
    requires Reading(all, server, first, cursor, taken, start, end)
    requires multiset(page) == multiset(Newest(server, cursor, n))
    ensures var newest := Newest(server, cursor, n);
      && newest != [] && Older(server, newest[0].ts) < Older(server, cursor)
      && Reading(all + Between(page, start, end), server, first, newest[0].ts, taken + n, start, end)
  {
    var k, upper := Older(server, cursor), Older(server, first);
    NextCursor(server, n, cursor);
    ClampedTwice(upper, taken, n);
    PageStep(all, page, server, Clamped(k - n), k, upper, start, end);
    var oldest := Newest(server, cursor, n)[0].ts;
    ReadingFrom(all + Between(page, start, end), server, first, oldest, Clamped(k - n), taken + n, start, end);
  }

  lemma PageExhausts(server: seq<Candle>, n: nat, cursor: int, start: int)
    requires Ascending(server) && n >= 1 && Older(server, cursor) > 0
    ensures var newest := Newest(server, cursor, n);
      newest != [] && (newest[0].ts <= start ==> Exhausted(server, Older(server, newest[0].ts), start))
  {
    NextCursor(server, n, cursor);
  }

  lemma EmptyPage(page: seq<Candle>, server: seq<Candle>, cursor: int, n: nat)
    requires n >= 1 && multiset(page) == multiset(Newest(server, cursor, n))
    ensures page == [] <==> Older(server, cursor) == 0
  {
    assert |page| == |multiset(page)| == |multiset(Newest(server, cursor, n))| == |Newest(server, cursor, n)|;
  }

  // ----- The loops ------------------------------------------------------------------

  const OKX_PAGE: nat := 300

  /** The `f`-th request is the first that is not answered in full: reading it stops after
      `cut(f)` entries, zero when there is no usable answer at all. */
  ghost predicate CutFirst(cut: nat -> Option<nat>, f: nat) {
    cut(f).Some? && Uncut(cut, f)
  }

  /** What the OKX loop promises: everything in range, or everything in range among the
      entries read before and in the request that was cut. */
  ghost predicate DeliversCut(candles: seq<Candle>, cut: nat -> Option<nat>, server: seq<Candle>, cursor: int, n: nat,
                              start: int, end: int) {
    && ((forall j: nat :: cut(j).None?) ==> candles == Between(server, start, end))
    && (forall f: nat :: CutFirst(cut, f) ==>
          candles == Between(Newest(server, cursor, Taken(f, n) + Least(cut(f).value, n)), start, end))
  }

  /** What is read of an answer that breaks off after `k` entries. */
  function CutAfter(page: seq<Candle>, k: nat): seq<Candle> { page[..Least(k, |page|)] }

  /** Those are the newest `k` candles. */
  lemma CutIsShorter(server: seq<Candle>, cursor: int, n: nat, k: nat)
    ensures CutAfter(OkxAnswer(server, cursor, n), k) == OkxAnswer(server, cursor, Least(k, n))
  {
    assert |OkxAnswer(server, cursor, n)| == Least(Older(server, cursor), n);
  }

  /** `all` holds what is in range among the newest `taken` candles. */
  ghost predicate Took(all: seq<Candle>, server: seq<Candle>, first: int, taken: nat, start: int, end: int) {
    Holds(all, server, Clamped(Older(server, first) - taken), Older(server, first), start, end)
  }

  lemma NewestPrefix(all: seq<Candle>, server: seq<Candle>, upper: nat, cursor: int, r: nat, start: int, end: int)
    requires Holds(all, server, Older(server, cursor), upper, start, end)
    ensures Holds(all + Between(OkxAnswer(server, cursor, r), start, end), server, Clamped(Older(server, cursor) - r),
      upper, start, end)
  {
    var m := Older(server, cursor);
    OkxPage(server, cursor, r);
    assert Newest(server, cursor, r) == server[Clamped(m - r)..m];
    PageStep(all, OkxAnswer(server, cursor, r), server, Clamped(m - r), m, upper, start, end);
  }

  /** A request that is cut after `k` entries adds those in range. */
  lemma ReadCut(all: seq<Candle>, server: seq<Candle>, first: int, cursor: int, n: nat, k: nat, taken: nat, start: int,
                end: int)
    requires Reading(all, server, first, cursor, taken, start, end)
    ensures var page := OkxAnswer(server, cursor, n);
      Took(all + Between(CutAfter(page, k), start, end), server, first, taken + Least(k, n), start, end)
  {
    CutIsShorter(server, cursor, n, k);
    NewestPrefix(all, server, Older(server, first), cursor, Least(k, n), start, end);
    ClampedTwice(Older(server, first), taken, Least(k, n));
  }

  /** A request that is answered in full: its last entry is the next cursor. */
  lemma ReadFull(all: seq<Candle>, server: seq<Candle>, first: int, cursor: int, n: nat, pages: nat, start: int,
                 end: int)
    requires Ascending(server) && n >= 1 && Reading(all, server, first, cursor, Taken(pages, n), start, end)
    ensures var page := OkxAnswer(server, cursor, n);
      && (page == [] <==> Older(server, cursor) == 0)
      && (page != [] ==>
            var oldest := page[|page| - 1].ts;
            && Older(server, oldest) < Older(server, cursor)
            && Reading(all + Between(page, start, end), server, first, oldest, Taken(pages + 1, n), start, end)
            && (oldest <= start ==> Exhausted(server, Older(server, oldest), start)))
  {
    var page := OkxAnswer(server, cursor, n);
    OkxPage(server, cursor, n);
    EmptyPage(page, server, cursor, n);
    if page != [] {
      ReadPage(all, page, server, first, cursor, n, Taken(pages, n), start, end);
      PageExhausts(server, n, cursor, start);
    }
  }

  /** The OKX loop has ended after `pages` full answers: a request was cut, or nothing older is
      in range. */
  ghost predicate Ended(all: seq<Candle>, cut: nat -> Option<nat>, server: seq<Candle>, first: int, n: nat, pages: nat,
                        taken: nat, start: int, end: int) {
    && Uncut(cut, pages) && Took(all, server, first, taken, start, end)
    && (|| (cut(pages).Some? && taken == Taken(pages, n) + Least(cut(pages).value, n))
        || (taken == Taken(pages, n) && Exhausted(server, Clamped(Older(server, first) - taken), start)))
  }

  lemma EndedCut(all: seq<Candle>, cut: nat -> Option<nat>, server: seq<Candle>, first: int, cursor: int, n: nat,
                 pages: nat, start: int, end: int)
    requires Uncut(cut, pages) && Reading(all, server, first, cursor, Taken(pages, n), start, end) && cut(pages).Some?
    ensures var page, k := OkxAnswer(server, cursor, n), cut(pages).value;
      Ended(all + Between(CutAfter(page, k), start, end), cut, server, first, n, pages,
        Taken(pages, n) + Least(k, n), start, end)
  {
    ReadCut(all, server, first, cursor, n, cut(pages).value, Taken(pages, n), start, end);
  }

  lemma EndedExhausted(all: seq<Candle>, cut: nat -> Option<nat>, server: seq<Candle>, first: int, cursor: int, n: nat,
                       pages: nat, start: int, end: int)
    requires Uncut(cut, pages) && Reading(all, server, first, cursor, Taken(pages, n), start, end)
    requires Exhausted(server, Older(server, cursor), start)
    ensures Ended(all, cut, server, first, n, pages, Taken(pages, n), start, end)
  {
  }

  /** Further entries would change nothing once nothing older is in range. */
  lemma EndedAt(all: seq<Candle>, cut: nat -> Option<nat>, server: seq<Candle>, first: int, n: nat, pages: nat,
                taken: nat, f: nat, start: int, end: int)
    requires Ascending(server) && end <= first && CutFirst(cut, f)
    requires Ended(all, cut, server, first, n, pages, taken, start, end)
    ensures Sort(all, Time) == Between(Newest(server, first, Taken(f, n) + Least(cut(f).value, n)), start, end)
  {
    Collected(all, server, first, taken, start, end);
    assert f >= pages && (cut(pages).Some? ==> f == pages);
    if taken == Taken(pages, n) && Exhausted(server, Clamped(Older(server, first) - taken), start) {
      MorePages(f, pages, n);
      ExhaustedIsComplete(server, first, taken, Taken(f, n) + Least(cut(f).value, n), start, end);
      ExhaustedIsComplete(server, first, taken, taken, start, end);
    }
  }

  lemma FinishCut(all: seq<Candle>, cut: nat -> Option<nat>, server: seq<Candle>, first: int, n: nat, pages: nat,
                  taken: nat, start: int, end: int)
    requires Ascending(server) && end <= first && Ended(all, cut, server, first, n, pages, taken, start, end)
    ensures DeliversCut(Sort(all, Time), cut, server, first, n, start, end)
  {
    forall f: nat | CutFirst(cut, f)
      ensures Sort(all, Time) == Between(Newest(server, first, Taken(f, n) + Least(cut(f).value, n)), start, end)
    {
      EndedAt(all, cut, server, first, n, pages, taken, f, start, end);
    }
    if cut(pages).None? {
      Collected(all, server, first, taken, start, end);
      ExhaustedIsComplete(server, first, taken, taken, start, end);
    }
  }

  lemma EndedDelivers(all: seq<Candle>, cut: nat -> Option<nat>, server: seq<Candle>, first: int, n: nat, pages: nat,
                      start: int, end: int)
    requires Ascending(server) && end <= first
    requires exists taken: nat :: Ended(all, cut, server, first, n, pages, taken, start, end)
    ensures DeliversCut(Sort(all, Time), cut, server, first, n, start, end)
  {
    var taken: nat :| Ended(all, cut, server, first, n, pages, taken, start, end);
    FinishCut(all, cut, server, first, n, pages, taken, start, end);
  }

  /** The loop ends with a request that is cut, */
  lemma OkxCut(all: seq<Candle>, cut: nat -> Option<nat>, server: seq<Candle>, first: int, cursor: int, n: nat,
               pages: nat, start: int, end: int)
    requires Ascending(server) && end <= first && Uncut(cut, pages) && cut(pages).Some?
    requires Reading(all, server, first, cursor, Taken(pages, n), start, end)
    ensures var r := all + Between(CutAfter(OkxAnswer(server, cursor, n), cut(pages).value), start, end);
      DeliversCut(Sort(r, Time), cut, server, first, n, start, end)
  {
    EndedCut(all, cut, server, first, cursor, n, pages, start, end);
    EndedDelivers(all + Between(CutAfter(OkxAnswer(server, cursor, n), cut(pages).value), start, end), cut, server,
      first, n, pages, start, end);
  }

  /** or when nothing older is in range. */
  lemma OkxExhausted(all: seq<Candle>, cut: nat -> Option<nat>, server: seq<Candle>, first: int, cursor: int, n: nat,
                     pages: nat, start: int, end: int)
    requires Ascending(server) && end <= first && Uncut(cut, pages)
    requires Reading(all, server, first, cursor, Taken(pages, n), start, end) &&
      Exhausted(server, Older(server, cursor), start)
    ensures DeliversCut(Sort(all, Time), cut, server, first, n, start, end)
  {
    EndedExhausted(all, cut, server, first, cursor, n, pages, start, end);
    FinishCut(all, cut, server, first, n, pages, Taken(pages, n), start, end);
  }

  /** A request that is answered in full. */
  lemma OkxFull(all: seq<Candle>, cut: nat -> Option<nat>, server: seq<Candle>, first: int, cursor: int, n: nat,
                pages: nat, start: int, end: int)
    requires Ascending(server) && end <= first && n >= 1 && Uncut(cut, pages) && cut(pages).None?
    requires Reading(all, server, first, cursor, Taken(pages, n), start, end)
    ensures Uncut(cut, pages + 1)
    ensures var page := OkxAnswer(server, cursor, n);
      if page == [] then DeliversCut(Sort(all, Time), cut, server, first, n, start, end)
      else
        var r, oldest := all + Between(page, start, end), page[|page| - 1].ts;
        && Older(server, oldest) < Older(server, cursor)
        && Reading(r, server, first, oldest, Taken(pages + 1, n), start, end)
        && (oldest <= start ==> DeliversCut(Sort(r, Time), cut, server, first, n, start, end))
  {
    var page := OkxAnswer(server, cursor, n);
    UncutNext(cut, pages);
    ReadFull(all, server, first, cursor, n, pages, start, end);
    if page == [] {
      OkxExhausted(all, cut, server, first, cursor, n, pages, start, end);
    } else if page[|page| - 1].ts <= start {
      OkxExhausted(all + Between(page, start, end), cut, server, first, page[|page| - 1].ts, n, pages + 1, start, end);
    }
  }

  /** One round of the OKX loop: what it adds, and the next cursor unless the loop ends. */
  method ReadOkx(all: seq<Candle>, server: seq<Candle>, cut: nat -> Option<nat>, ghost first: int, after: int,
                 requests: nat, start: int, end: int)
    returns (r: seq<Candle>, oldest: Option<int>)
    requires Ascending(server) && end <= first && Uncut(cut, requests)
    requires Reading(all, server, first, after, Taken(requests, OKX_PAGE), start, end)
    ensures oldest.None? ==> DeliversCut(Sort(r, Time), cut, server, first, OKX_PAGE, start, end)
    ensures oldest.Some? ==>
      && Uncut(cut, requests + 1) && Older(server, oldest.value) < Older(server, after)
      && Reading(r, server, first, oldest.value, Taken(requests + 1, OKX_PAGE), start, end)
  {
    var page := OkxAnswer(server, after, OKX_PAGE);
    if cut(requests).Some? {
      OkxCut(all, cut, server, first, after, OKX_PAGE, requests, start, end);
      r := AppendInRange(all, CutAfter(page, cut(requests).value), start, end);
      return r, None;
    }
    OkxFull(all, cut, server, first, after, OKX_PAGE, requests, start, end);
    if page == [] {
      return all, None;
    }
    r := AppendInRange(all, page, start, end);
    oldest := Some(page[|page| - 1].ts);
    if oldest.value <= start {
      return r, None;
    }
  }

  /** OKX answers newest first. When every request is answered in full the result is every
      candle of the exchange in [start, end), sorted and once each, gaps or not; otherwise it is
      exactly those among the entries read before the first failure, down to the entry. */
  method FetchOkx(server: seq<Candle>, cut: nat -> Option<nat>, start: int, end: int) returns (candles: seq<Candle>)
    requires Ascending(server)
    ensures DeliversCut(candles, cut, server, end + 1, 300, start, end)
  {
    var all := [];
    var after := end + 1;
    var requests := 0;
    while true
      invariant requests >= 0 && Uncut(cut, requests)
      invariant Reading(all, server, end + 1, after, Taken(requests, OKX_PAGE), start, end)
      decreases Older(server, after)
    {
      var oldest;
      all, oldest := ReadOkx(all, server, cut, end + 1, after, requests, start, end);
      if oldest.None? {
        break;
      }
      requests := requests + 1;
      after := oldest.value;
    }
    candles := Sort(all, Time);
  }
}
