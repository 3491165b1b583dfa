/** Forward pagination by time window: the Binance loop of the historical download.

    Asked for a closed window of time the exchange answers with its candles there, oldest
    first and at most `page` of them. Candle timestamps lie on a grid `origin + k * interval`.
    The loop stops at the first page that is not full, so a hole in the data can cut the
    result short; when exactly it does is shown below. */
module ForwardPaging {
  import opened Candles
  import opened Options

  // ----- The grid -------------------------------------------------------------------

  datatype Grid = Grid(origin: int, interval: nat)

  /** The time of slot `k`. */
  function At(g: Grid, k: int): int { g.origin + k * g.interval }

  /** The time spanned by `n` slots. */
  function Stride(g: Grid, n: int): int { n * g.interval }

  ghost predicate OnGrid(g: Grid, s: seq<Candle>) {
    forall i :: 0 <= i < |s| ==> exists k: int :: s[i].ts == At(g, k)
  }

  /** The first slot at or after `t`. */
  function FirstSlot(g: Grid, t: int): int
    requires g.interval >= 1
  {
    (t - g.origin + g.interval - 1) / g.interval
  }

  lemma AtStep(g: Grid, k: int, d: int)
    ensures At(g, k + d) == At(g, k) + Stride(g, d)
  {
    assert (k + d) * g.interval == k * g.interval + d * g.interval;
  }

  lemma StrideAtLeast(g: Grid, n: nat)
    ensures Stride(g, n) >= 0 && Stride(g, 1) == g.interval
    ensures n >= 1 ==> Stride(g, n) >= g.interval
  {
  }

  lemma AtMonotone(g: Grid, k: int, m: int)
    requires g.interval >= 1
    ensures k < m <==> At(g, k) < At(g, m)
    ensures k < m ==> At(g, k) + g.interval <= At(g, m)
  {
    AtStep(g, k, m - k);
    if k < m {
      assert (m - k) * g.interval >= g.interval;
    } else {
      assert (k - m) * g.interval >= 0;
    }
  }

  lemma FirstSlotBounds(g: Grid, t: int)
    requires g.interval >= 1
    ensures t <= At(g, FirstSlot(g, t)) < t + g.interval
  {
    var x := t - g.origin + g.interval - 1;
    assert x == (x / g.interval) * g.interval + x % g.interval;
  }

  /** A slot at or after `t` is no earlier than the first. */
  lemma FirstSlotIsFirst(g: Grid, t: int, k: int)
    requires g.interval >= 1
    ensures At(g, k) >= t <==> k >= FirstSlot(g, t)
  {
    FirstSlotBounds(g, t);
    AtMonotone(g, k, FirstSlot(g, t));
    AtMonotone(g, FirstSlot(g, t), k);
  }

  // ----- Full pages -----------------------------------------------------------------

  ghost predicate Present(g: Grid, server: seq<Candle>, k: int) {
    exists c :: c in server && c.ts == At(g, k)
  }

  /** Every one of the `page` slots from `k` on has a candle. */
  ghost predicate PageFull(g: Grid, server: seq<Candle>, k: int, page: nat) {
    forall j :: k <= j < k + page ==> Present(g, server, j)
  }

  lemma {:induction false} SpacedFrom(g: Grid, w: seq<Candle>, k: int, i: nat)
    requires g.interval >= 1 && Ascending(w) && OnGrid(g, w) && i < |w| && w[0].ts >= At(g, k)
    ensures w[i].ts >= At(g, k + i)
  {
    if i > 0 {
      SpacedFrom(g, w, k, i - 1);
      var m :| w[i].ts == At(g, m);
      AtMonotone(g, k + i - 1, m);
      AtMonotone(g, m, k + i);
      AtMonotone(g, k + i, m);
      assert m > k + i - 1;
    }
  }

  lemma {:induction false} SpacedUpTo(g: Grid, w: seq<Candle>, k: int, i: nat)
    requires g.interval >= 1 && Ascending(w) && OnGrid(g, w) && i < |w| && w[|w| - 1].ts <= At(g, k)
    ensures w[i].ts <= At(g, k - (|w| - 1 - i))
    decreases |w| - i
  {
    if i < |w| - 1 {
      SpacedUpTo(g, w, k, i + 1);
      var m :| w[i].ts == At(g, m);
      var n := k - (|w| - 2 - i);
      AtMonotone(g, m, n);
      AtMonotone(g, n, m);
      AtMonotone(g, n - 1, m);
      assert m < n;
    }
  }

  lemma {:induction false} BetweenNested(s: seq<Candle>, lo: int, hi: int, lo': int, hi': int)
    ensures Between(Between(s, lo, hi), lo', hi') ==
      Between(s, if lo < lo' then lo' else lo, if hi < hi' then hi else hi')
  {
    if s != [] {
      var n := |s| - 1;
      BetweenNested(s[..n], lo, hi, lo', hi');
      BetweenAppend(Between(s[..n], lo, hi), s[n], lo', hi');
    }
  }

  lemma BetweenOnGrid(g: Grid, s: seq<Candle>, lo: int, hi: int)
    requires OnGrid(g, s)
    ensures OnGrid(g, Between(s, lo, hi))
  {
    var w := Between(s, lo, hi);
    BetweenMembers(s, lo, hi);
    forall i | 0 <= i < |w| ensures exists k: int :: w[i].ts == At(g, k) {
      assert w[i] in s;
    }
  }

  /** The candles of a window that starts at `cursor`. */
  ghost predicate Window(g: Grid, server: seq<Candle>, w: seq<Candle>, cursor: int, hi: int, page: nat) {
    && g.interval >= 1 && Ascending(server) && OnGrid(g, server)
    && hi < cursor + Stride(g, page) && w == Between(server, cursor, hi + 1)
  }

  lemma WindowShape(g: Grid, server: seq<Candle>, w: seq<Candle>, cursor: int, hi: int, page: nat)
    requires Window(g, server, w, cursor, hi, page)
    ensures Ascending(w) && OnGrid(g, w)
    ensures w != [] ==> cursor <= w[0].ts && At(g, FirstSlot(g, cursor)) <= w[0].ts
    ensures w != [] ==> w[|w| - 1].ts <= At(g, FirstSlot(g, cursor) + page - 1)
  {
    BetweenAscending(server, cursor, hi + 1);
    BetweenMembers(server, cursor, hi + 1);
    BetweenOnGrid(g, server, cursor, hi + 1);
    if w != [] {
      var k := FirstSlot(g, cursor);
      assert w[0] in w && w[|w| - 1] in w;
      var m0: int :| w[0].ts == At(g, m0);
      FirstSlotIsFirst(g, cursor, m0);
      AtMonotone(g, k, m0);
      var m: int :| w[|w| - 1].ts == At(g, m);
      FirstSlotBounds(g, cursor);
      AtStep(g, k, page);
      AtMonotone(g, m, k + page);
      AtMonotone(g, k + page, m);
      AtMonotone(g, m, k + page - 1);
      AtMonotone(g, k + page - 1, m);
    }
  }

  /** A window of `page` intervals never holds more than `page` candles. */
  lemma NeverOverfull(g: Grid, server: seq<Candle>, w: seq<Candle>, cursor: int, hi: int, page: nat)
    requires Window(g, server, w, cursor, hi, page)
    ensures |w| <= page
  {
    WindowShape(g, server, w, cursor, hi, page);
    if |w| > 0 {
      var k := FirstSlot(g, cursor);
      SpacedFrom(g, w, k, |w| - 1);
      AtMonotone(g, k + page - 1, k + |w| - 1);
    }
  }

  /** `page` candles in the window means every slot is taken, up to the last. */
  lemma FullAnswer(g: Grid, server: seq<Candle>, w: seq<Candle>, cursor: int, hi: int, page: nat)
    requires Window(g, server, w, cursor, hi, page) && |w| == page >= 1
    ensures PageFull(g, server, FirstSlot(g, cursor), page)
    ensures w[page - 1].ts == At(g, FirstSlot(g, cursor) + page - 1)
  {
    var k := FirstSlot(g, cursor);
    WindowShape(g, server, w, cursor, hi, page);
    BetweenMembers(server, cursor, hi + 1);
    forall j | k <= j < k + page ensures Present(g, server, j) {
      SlotTaken(g, w, k, j);
      assert w[j - k] in w;
    }
    SlotTaken(g, w, k, k + page - 1);
  }

  /** Between the first slot and the last each slot has its candle. */
  lemma SlotTaken(g: Grid, w: seq<Candle>, k: int, j: int)
    requires g.interval >= 1 && Ascending(w) && OnGrid(g, w) && k <= j < k + |w|
    requires w[0].ts >= At(g, k) && w[|w| - 1].ts <= At(g, k + |w| - 1)
    ensures w[j - k].ts == At(g, j)
  {
    SpacedFrom(g, w, k, j - k);
    SpacedUpTo(g, w, k + |w| - 1, j - k);
  }

  /** Slots that are all taken yield at least as many candles. */
  lemma {:induction false} TakenSlotsCount(g: Grid, server: seq<Candle>, cursor: int, k: int, n: nat)
    requires g.interval >= 1 && Ascending(server) && cursor <= At(g, k) && PageFull(g, server, k, n)
    ensures |Between(server, cursor, At(g, k + n))| >= n
  {
    if n > 0 {
      var j := k + n - 1;
      TakenSlotsCount(g, server, cursor, k, n - 1);
      AtMonotone(g, j, k + n);
      AtMonotone(g, k, j);
      BetweenJoin(server, cursor, At(g, j), At(g, k + n));
      BetweenMembers(server, At(g, j), At(g, k + n));
      assert Present(g, server, j);
      var c :| c in server && c.ts == At(g, j);
      assert c in Between(server, At(g, j), At(g, k + n));
    }
  }

  // ----- Pages from the start of the download ---------------------------------------

  /** The slot at which the `m`-th page begins. */
  function Base(g: Grid, start: int, m: nat, page: nat): int
    requires g.interval >= 1
  {
    FirstSlot(g, start) + m * page
  }

  lemma BaseNext(g: Grid, start: int, m: nat, page: nat)
    requires g.interval >= 1
    ensures Base(g, start, m + 1, page) == Base(g, start, m, page) + page
  {
    assert (m + 1) * page == m * page + page;
  }

  lemma BaseMonotone(g: Grid, start: int, m: nat, n: nat, page: nat)
    requires g.interval >= 1 && m <= n
    ensures At(g, Base(g, start, m, page)) <= At(g, Base(g, start, n, page))
  {
    assert (n - m) * page >= 0;
    assert n * page == m * page + (n - m) * page;
    AtMonotone(g, Base(g, start, m, page), Base(g, start, n, page));
  }

  function Min(x: int, y: int): int { if x < y then x else y }

  ghost predicate FullUntil(g: Grid, server: seq<Candle>, start: int, page: nat, m: nat)
    requires g.interval >= 1
  {
    forall j: nat :: j < m ==> PageFull(g, server, Base(g, start, j, page), page)
  }

  /** The download ends having read `m` pages: all but perhaps the last are full, and it
      went no further because the end was reached or the last page has a free slot. */
  ghost predicate Stops(g: Grid, server: seq<Candle>, cut: nat -> Option<nat>, start: int, end: int, page: nat, m: nat)
    requires g.interval >= 1
  {
    && Uncut(cut, m)
    && (m > 0 ==> FullUntil(g, server, start, page, m - 1))
    && (|| At(g, Base(g, start, m, page)) >= end
        || (m > 0 && !PageFull(g, server, Base(g, start, m - 1, page), page)))
  }

  /** The download ends in request `m`, after `m` full pages. */
  ghost predicate CutAt(g: Grid, server: seq<Candle>, cut: nat -> Option<nat>, start: int, page: nat, m: nat)
    requires g.interval >= 1
  {
    Uncut(cut, m) && cut(m).Some? && FullUntil(g, server, start, page, m)
  }

  /** The candles in [start, end) of the first `m` pages. */
  function Pages(g: Grid, server: seq<Candle>, start: int, end: int, page: nat, m: nat): seq<Candle>
    requires g.interval >= 1
  {
    Between(server, start, Min(end, At(g, Base(g, start, m, page))))
  }

  /** Those and the first `k` of the next page. */
  function PagesAnd(g: Grid, server: seq<Candle>, start: int, end: int, page: nat, m: nat, k: nat): seq<Candle>
    requires g.interval >= 1
  {
    var some, more := Pages(g, server, start, end, page, m), Pages(g, server, start, end, page, m + 1);
    more[..Least(|some| + k, |more|)]
  }

  /** What the loop promises: a prefix of the candles in [start, end), by whole pages unless a
      request was cut. */
  ghost predicate Fetched(candles: seq<Candle>, g: Grid, server: seq<Candle>, cut: nat -> Option<nat>, start: int,
                          end: int, page: nat)
    requires g.interval >= 1
  {
    exists m: nat ::
      || (Stops(g, server, cut, start, end, page, m) && candles == Pages(g, server, start, end, page, m))
      || (CutAt(g, server, cut, start, page, m) && candles == PagesAnd(g, server, start, end, page, m, cut(m).value))
  }

  /** Nothing lies between a cursor and the first slot after it. */
  lemma NothingBeforeSlot(g: Grid, server: seq<Candle>, t: int, hi: int)
    requires g.interval >= 1 && OnGrid(g, server) && hi <= At(g, FirstSlot(g, t))
    ensures Between(server, t, hi) == []
  {
    forall i | 0 <= i < |server| ensures !InRange(server[i], t, hi) {
      var m: int :| server[i].ts == At(g, m);
      FirstSlotIsFirst(g, t, m);
      AtMonotone(g, m, FirstSlot(g, t));
      AtMonotone(g, FirstSlot(g, t), m);
    }
    BetweenNone(server, t, hi);
  }

  lemma FirstSlotShift(g: Grid, t: int, d: nat)
    requires g.interval >= 1
    ensures FirstSlot(g, t + Stride(g, d)) == FirstSlot(g, t) + d
  {
    var k := FirstSlot(g, t);
    FirstSlotBounds(g, t);
    AtStep(g, k, d);
    AtStep(g, k - 1, d);
    AtStep(g, k - 1, 1);
    StrideAtLeast(g, 1);
    FirstSlotIsFirst(g, t + Stride(g, d), k + d);
    FirstSlotIsFirst(g, t + Stride(g, d), k + d - 1);
  }

  lemma FirstSlotOfSlot(g: Grid, k: int)
    requires g.interval >= 1
    ensures FirstSlot(g, At(g, k)) == k
  {
    FirstSlotIsFirst(g, At(g, k), k);
    FirstSlotIsFirst(g, At(g, k), k - 1);
    AtMonotone(g, k - 1, k);
  }

  /** Between the end of a window and the end of its page there is no slot. */
  lemma PageEndsAtWindow(g: Grid, server: seq<Candle>, cursor: int, end: int, page: nat)
    requires g.interval >= 1 && Ascending(server) && OnGrid(g, server) && cursor < end
    ensures cursor + Stride(g, page) <= At(g, FirstSlot(g, cursor) + page)
    ensures Between(server, cursor, Min(end, cursor + Stride(g, page))) ==
      Between(server, cursor, Min(end, At(g, FirstSlot(g, cursor) + page)))
  {
    var stride := Stride(g, page);
    var cut, upTo := Min(end, cursor + stride), Min(end, At(g, FirstSlot(g, cursor) + page));
    FirstSlotShift(g, cursor, page);
    FirstSlotBounds(g, cursor + stride);
    StrideAtLeast(g, page);
    if cut < end {
      NothingBeforeSlot(g, server, cut, upTo);
    } else {
      BetweenNone(server, cut, upTo);
    }
    BetweenJoin(server, cursor, cut, upTo);
  }

  /** One answered request: what it adds brings the result to the end of its page. */
  lemma AddPage(g: Grid, server: seq<Candle>, w: seq<Candle>, cursor: int, start: int, end: int, page: nat)
    requires start <= cursor < end
    requires Window(g, server, w, cursor, Min(cursor + Stride(g, page) - 1, end), page)
    ensures Between(server, start, cursor) + Between(w, start, end) ==
      Between(server, start, Min(end, At(g, FirstSlot(g, cursor) + page)))
  {
    PageCandles(g, server, cursor, start, end, page);
    BetweenJoin(server, start, cursor, Min(end, At(g, FirstSlot(g, cursor) + page)));
  }

  lemma PageCandles(g: Grid, server: seq<Candle>, cursor: int, start: int, end: int, page: nat)
    requires g.interval >= 1 && Ascending(server) && OnGrid(g, server) && start <= cursor < end
    ensures cursor <= Min(end, At(g, FirstSlot(g, cursor) + page))
    ensures Between(Between(server, cursor, Min(cursor + Stride(g, page) - 1, end) + 1), start, end) ==
      Between(server, cursor, Min(end, At(g, FirstSlot(g, cursor) + page)))
  {
    PageEndsAtWindow(g, server, cursor, end, page);
    StrideAtLeast(g, page);
    WindowInRange(server, cursor, start, end, Stride(g, page), At(g, FirstSlot(g, cursor) + page));
  }

  lemma WindowInRange(server: seq<Candle>, cursor: int, start: int, end: int, stride: int, upTo: int)
    requires start <= cursor < end && 0 <= stride && cursor + stride <= upTo
    requires Between(server, cursor, Min(end, cursor + stride)) == Between(server, cursor, Min(end, upTo))
    ensures cursor <= Min(end, upTo)
    ensures Between(Between(server, cursor, Min(cursor + stride - 1, end) + 1), start, end) ==
      Between(server, cursor, Min(end, upTo))
  {
    BetweenNested(server, cursor, Min(cursor + stride - 1, end) + 1, start, end);
  }

  /** A short answer inside the download range betrays a free slot. */
  lemma ShortAnswer(g: Grid, server: seq<Candle>, w: seq<Candle>, cursor: int, end: int, page: nat)
    requires cursor < end && |w| < page
    requires Window(g, server, w, cursor, Min(cursor + Stride(g, page) - 1, end), page)
    requires At(g, FirstSlot(g, cursor) + page) < end
    ensures !PageFull(g, server, FirstSlot(g, cursor), page)
  {
    PageEndsAtWindow(g, server, cursor, end, page);
    FirstSlotBounds(g, cursor);
    if PageFull(g, server, FirstSlot(g, cursor), page) {
      TakenSlotsCount(g, server, cursor, FirstSlot(g, cursor), page);
    }
  }

  // ----- The loop -------------------------------------------------------------------

  /** The exchange's answer: the oldest candles of the closed window, at most `limit`. */
  function Klines(server: seq<Candle>, startTime: int, endTime: int, limit: nat): seq<Candle> {
    var w := Between(server, startTime, endTime + 1);
    if |w| <= limit then w else w[..limit]
  }

  /** Invariant of the loop after `m` full pages. */
  ghost predicate Reading(candles: seq<Candle>, g: Grid, server: seq<Candle>, cut: nat -> Option<nat>, cursor: int,
                          start: int, end: int, page: nat, m: nat) {
    && g.interval >= 1 && Ascending(server) && OnGrid(g, server)
    && start <= cursor && FirstSlot(g, cursor) == Base(g, start, m, page)
    && (m == 0 ==> cursor == start) && (m > 0 ==> cursor == At(g, Base(g, start, m, page)))
    && Uncut(cut, m) && FullUntil(g, server, start, page, m)
    && candles == Between(server, start, Min(cursor, end))
  }

  lemma ReachedPage(candles: seq<Candle>, g: Grid, server: seq<Candle>, cut: nat -> Option<nat>, cursor: int,
                    start: int, end: int, page: nat, m: nat)
    requires Reading(candles, g, server, cut, cursor, start, end, page, m)
    ensures candles == Pages(g, server, start, end, page, m)
    ensures cursor >= end ==> Fetched(candles, g, server, cut, start, end, page)
  {
    FirstSlotBounds(g, cursor);
    if m == 0 {
      BetweenNone(server, start, Min(cursor, end));
      NothingBeforeSlot(g, server, start, Min(end, At(g, FirstSlot(g, start))));
    }
  }

  /** An answered request brings the result to the end of the next page. */
  lemma Answered(candles: seq<Candle>, w: seq<Candle>, g: Grid, server: seq<Candle>, cut: nat -> Option<nat>,
                 cursor: int, start: int, end: int, page: nat, m: nat)
    requires Reading(candles, g, server, cut, cursor, start, end, page, m) && cursor < end
    requires w == Klines(server, cursor, Min(cursor + Stride(g, page) - 1, end), page)
    ensures Window(g, server, w, cursor, Min(cursor + Stride(g, page) - 1, end), page)
    ensures candles + Between(w, start, end) == Pages(g, server, start, end, page, m + 1)
    ensures |w| <= page
  {
    var hi := Min(cursor + Stride(g, page) - 1, end);
    NeverOverfull(g, server, Between(server, cursor, hi + 1), cursor, hi, page);
    AddPage(g, server, w, cursor, start, end, page);
    BaseNext(g, start, m, page);
  }

  /** Of a window only the last candles can lie at or after `end`. */
  lemma BetweenOfNext(w: seq<Candle>, init: seq<Candle>, c: Candle, j: nat, start: int, end: int)
    requires w == init + [c] && j <= |init|
    requires Between(init[..j], start, end) == Between(init, start, end)[..Least(j, |Between(init, start, end)|)]
    requires |Between(init, start, end)| <= |init| && (InRange(c, start, end) ==> Between(init, start, end) == init)
    ensures var more := Between(w, start, end); Between(w[..j], start, end) == more[..Least(j, |more|)]
  {
    assert w[..j] == init[..j];
    BetweenAppend(init, c, start, end);
  }

  lemma {:induction false} BetweenOfPrefix(w: seq<Candle>, j: nat, start: int, end: int)
    requires Ascending(w) && j <= |w| && forall i :: 0 <= i < |w| ==> start <= w[i].ts
    ensures Between(w[..j], start, end) == Between(w, start, end)[..Least(j, |Between(w, start, end)|)]
  {
    if j == |w| {
      BetweenAll(w, start, end);
      assert w[..j] == w;
    } else {
      var init, c := w[..|w| - 1], w[|w| - 1];
      BetweenOfPrefix(init, j, start, end);
      BetweenAll(init, start, end);
      BetweenOfNext(w, init, c, j, start, end);
    }
  }

  /** Up to a candle in front of `end` all are. */
  lemma {:induction false} BetweenAll(w: seq<Candle>, start: int, end: int)
    ensures |Between(w, start, end)| <= |w|
    ensures (forall i :: 0 <= i < |w| ==> InRange(w[i], start, end)) ==> Between(w, start, end) == w
  {
    if w != [] {
      BetweenAll(w[..|w| - 1], start, end);
      assert w == w[..|w| - 1] + [w[|w| - 1]];
    }
  }

  /** A response of which only the first `k` entries are read ends the download there. */
  lemma AnsweredCut(candles: seq<Candle>, w: seq<Candle>, g: Grid, server: seq<Candle>, cut: nat -> Option<nat>,
                    cursor: int, start: int, end: int, page: nat, m: nat)
    requires Reading(candles, g, server, cut, cursor, start, end, page, m) && cursor < end && cut(m).Some?
    requires w == Klines(server, cursor, Min(cursor + Stride(g, page) - 1, end), page)
    ensures Fetched(candles + Between(w[..Least(cut(m).value, |w|)], start, end), g, server, cut, start, end, page)
  {
    var k := cut(m).value;
    Answered(candles, w, g, server, cut, cursor, start, end, page, m);
    ReachedPage(candles, g, server, cut, cursor, start, end, page, m);
    WindowShape(g, server, w, cursor, Min(cursor + Stride(g, page) - 1, end), page);
    BetweenOfPrefix(w, Least(k, |w|), start, end);
    BetweenAll(w, start, end);
    PrefixOfSum(candles, Between(w, start, end), k, |w|);
    assert CutAt(g, server, cut, start, page, m);
  }

  lemma PrefixOfSum(a: seq<Candle>, b: seq<Candle>, k: nat, n: nat)
    requires |b| <= n
    ensures a + b[..Least(Least(k, n), |b|)] == (a + b)[..Least(|a| + k, |a + b|)]
  {
  }

  /** A short answer ends the download. */
  lemma AnsweredShort(candles: seq<Candle>, w: seq<Candle>, g: Grid, server: seq<Candle>, cut: nat -> Option<nat>,
                      cursor: int, start: int, end: int, page: nat, m: nat)
    requires Reading(candles, g, server, cut, cursor, start, end, page, m) && cursor < end && cut(m).None?
    requires w == Klines(server, cursor, Min(cursor + Stride(g, page) - 1, end), page) && |w| < page
    ensures Fetched(candles + Between(w, start, end), g, server, cut, start, end, page)
  {
    var k := FirstSlot(g, cursor);
    Answered(candles, w, g, server, cut, cursor, start, end, page, m);
    BaseNext(g, start, m, page);
    if At(g, k + page) < end {
      ShortAnswer(g, server, w, cursor, end, page);
    }
    assert Stops(g, server, cut, start, end, page, m + 1);
  }

  /** A full one moves the cursor to the next page. */
  lemma AnsweredFull(candles: seq<Candle>, w: seq<Candle>, g: Grid, server: seq<Candle>, cut: nat -> Option<nat>,
                     cursor: int, start: int, end: int, page: nat, m: nat)
    requires Reading(candles, g, server, cut, cursor, start, end, page, m) && cursor < end && cut(m).None? && page >= 2
    requires w == Klines(server, cursor, Min(cursor + Stride(g, page) - 1, end), page) && |w| >= page
    ensures w[|w| - 1].ts > cursor
    ensures Reading(candles + Between(w, start, end), g, server, cut, w[|w| - 1].ts + g.interval, start, end, page,
      m + 1)
  {
    var k := FirstSlot(g, cursor);
    Answered(candles, w, g, server, cut, cursor, start, end, page, m);
    BaseNext(g, start, m, page);
    FullAnswer(g, server, w, cursor, Min(cursor + Stride(g, page) - 1, end), page);
    FirstSlotBounds(g, cursor);
    AtMonotone(g, k, k + page - 1);
    AtStep(g, k + page - 1, 1);
    StrideAtLeast(g, 1);
    FirstSlotOfSlot(g, k + page);
  }

  const BINANCE_PAGE: nat := 1000

  /** Binance: the result is a prefix, by whole pages, of the candles in [start, end). */
  method FetchBinance(server: seq<Candle>, g: Grid, cut: nat -> Option<nat>, start: int, end: int)
    returns (candles: seq<Candle>)
    requires g.interval >= 1 && Ascending(server) && OnGrid(g, server)
    ensures Fetched(candles, g, server, cut, start, end, 1000)
  {
    candles := [];
    var cursor := start;
    var requests := 0;
    BetweenNone(server, start, Min(cursor, end));
    while cursor < end
      invariant requests >= 0 && Reading(candles, g, server, cut, cursor, start, end, BINANCE_PAGE, requests)
      decreases end - cursor
    {
      assert BINANCE_PAGE * g.interval == Stride(g, BINANCE_PAGE);
      var w := Klines(server, cursor, Min(cursor + BINANCE_PAGE * g.interval - 1, end), BINANCE_PAGE);
      if cut(requests).Some? {
        AnsweredCut(candles, w, g, server, cut, cursor, start, end, BINANCE_PAGE, requests);
        candles := AppendInRange(candles, w[..Least(cut(requests).value, |w|)], start, end);
        return;
      }
      if |w| < BINANCE_PAGE {
        AnsweredShort(candles, w, g, server, cut, cursor, start, end, BINANCE_PAGE, requests);
      } else {
        AnsweredFull(candles, w, g, server, cut, cursor, start, end, BINANCE_PAGE, requests);
      }
      if w == [] {
        assert candles + Between(w, start, end) == candles;
        return;
      }
      candles := AppendInRange(candles, w, start, end);
      if |w| < BINANCE_PAGE {
        return;
      }
      var last := w[|w| - 1].ts;
      if last <= cursor {
        return;
      }
      cursor := last + g.interval;
      requests := requests + 1;
    }
    ReachedPage(candles, g, server, cut, cursor, start, end, BINANCE_PAGE, requests);
  }

  // ----- When is the download complete? ---------------------------------------------

  /** Every page that ends at or before some candle in range is full. */
  ghost predicate NoHoleBeforeLast(g: Grid, server: seq<Candle>, start: int, end: int, page: nat)
    requires g.interval >= 1
  {
    forall c, j: nat :: c in Between(server, start, end) && c.ts >= At(g, Base(g, start, j + 1, page)) ==>
      PageFull(g, server, Base(g, start, j, page), page)
  }

  lemma NoneAfterReach(server: seq<Candle>, start: int, reach: int, end: int)
    requires Ascending(server) && start <= reach <= end
    requires forall c :: c in Between(server, start, end) ==> c.ts < reach
    ensures Between(server, start, reach) == Between(server, start, end)
  {
    BetweenJoin(server, start, reach, end);
    BetweenMembers(server, start, end);
    forall i | 0 <= i < |server| ensures !InRange(server[i], reach, end) {
      assert server[i] in server;
    }
    BetweenNone(server, reach, end);
  }

  lemma CompleteHasNoHole(g: Grid, server: seq<Candle>, cut: nat -> Option<nat>, start: int, end: int, page: nat,
                          m: nat)
    requires g.interval >= 1 && Stops(g, server, cut, start, end, page, m)
    requires Pages(g, server, start, end, page, m) == Between(server, start, end)
    ensures NoHoleBeforeLast(g, server, start, end, page)
  {
    BetweenMembers(server, start, Min(end, At(g, Base(g, start, m, page))));
    forall c, j: nat | c in Between(server, start, end) && c.ts >= At(g, Base(g, start, j + 1, page))
      ensures PageFull(g, server, Base(g, start, j, page), page)
    {
      assert c in Pages(g, server, start, end, page, m) && c.ts < At(g, Base(g, start, m, page));
      if m <= j + 1 { BaseMonotone(g, start, m, j + 1, page); }
    }
  }

  lemma NoHoleIsComplete(g: Grid, server: seq<Candle>, cut: nat -> Option<nat>, start: int, end: int, page: nat, m: nat)
    requires g.interval >= 1 && Ascending(server) && Stops(g, server, cut, start, end, page, m)
    requires NoHoleBeforeLast(g, server, start, end, page)
    ensures Pages(g, server, start, end, page, m) == Between(server, start, end)
  {
    var reach := At(g, Base(g, start, m, page));
    if reach < end {
      FirstSlotBounds(g, start);
      BaseMonotone(g, start, 0, m, page);
      assert m >= 1 && !PageFull(g, server, Base(g, start, m - 1, page), page);
      forall c | c in Between(server, start, end) ensures c.ts < reach {
        assert At(g, Base(g, start, (m - 1) + 1, page)) == reach;
      }
      NoneAfterReach(server, start, reach, end);
    }
  }

  /** Without failures the download is complete exactly when every page in front of a candle
      in range is full. */
  lemma CompleteExactly(candles: seq<Candle>, g: Grid, server: seq<Candle>, cut: nat -> Option<nat>, start: int,
                        end: int, page: nat)
    requires g.interval >= 1 && Ascending(server)
    requires Fetched(candles, g, server, cut, start, end, page) && forall j: nat :: cut(j).None?
    ensures candles == Between(server, start, end) <==> NoHoleBeforeLast(g, server, start, end, page)
  {
    var m: nat :| Stops(g, server, cut, start, end, page, m) && candles == Pages(g, server, start, end, page, m);
    if candles == Between(server, start, end) {
      CompleteHasNoHole(g, server, cut, start, end, page, m);
    }
    if NoHoleBeforeLast(g, server, start, end, page) {
      NoHoleIsComplete(g, server, cut, start, end, page, m);
    }
  }

  lemma GapFreePage(g: Grid, server: seq<Candle>, start: int, end: int, page: nat, j: nat)
    requires g.interval >= 1
    requires forall k: int :: start <= At(g, k) < end ==> Present(g, server, k)
    ensures At(g, Base(g, start, j + 1, page)) < end ==> PageFull(g, server, Base(g, start, j, page), page)
  {
    var b := Base(g, start, j, page);
    BaseNext(g, start, j, page);
    BaseMonotone(g, start, 0, j, page);
    FirstSlotBounds(g, start);
    if At(g, Base(g, start, j + 1, page)) < end {
      forall k | b <= k < b + page ensures Present(g, server, k) {
        AtMonotone(g, b, k);
        AtMonotone(g, k, b + page);
      }
    }
  }

  /** In particular, data without gaps is fetched whole. */
  lemma GapFreeIsComplete(candles: seq<Candle>, g: Grid, server: seq<Candle>, cut: nat -> Option<nat>, start: int,
                          end: int, page: nat)
    requires g.interval >= 1 && Ascending(server) && OnGrid(g, server)
    requires Fetched(candles, g, server, cut, start, end, page) && forall j: nat :: cut(j).None?
    requires forall k: int :: start <= At(g, k) < end ==> Present(g, server, k)
    ensures candles == Between(server, start, end)
  {
    BetweenMembers(server, start, end);
    forall c, j: nat | c in Between(server, start, end) && c.ts >= At(g, Base(g, start, j + 1, page))
      ensures PageFull(g, server, Base(g, start, j, page), page)
    {
      GapFreePage(g, server, start, end, page, j);
    }
    CompleteExactly(candles, g, server, cut, start, end, page);
  }

  /** A symbol listed more than a page after `start` is downloaded as nothing at all. */
  lemma LateListingIsLost(candles: seq<Candle>, g: Grid, server: seq<Candle>, cut: nat -> Option<nat>, start: int,
                          end: int, page: nat)
    requires g.interval >= 1 && page >= 1 && Ascending(server) && OnGrid(g, server)
    requires Fetched(candles, g, server, cut, start, end, page)
    requires forall c :: c in server ==> c.ts >= At(g, Base(g, start, 1, page))
    ensures candles == []
  {
    BaseNext(g, start, 0, page);
    var k := Base(g, start, 0, page);
    AtMonotone(g, k, k + page);
    assert !Present(g, server, k);
    assert !PageFull(g, server, k, page);
    BaseMonotone(g, start, 0, 1, page);
    BetweenNone(server, start, Min(end, At(g, Base(g, start, 0, page))));
    BetweenNone(server, start, Min(end, At(g, Base(g, start, 1, page))));
  }

  /** A hole at the start is enough: with one candle, in range and two pages on, the download
      comes back empty. */
  lemma HoleLosesCandle(candles: seq<Candle>, c: Candle, cut: nat -> Option<nat>)
    requires c.ts == 2000
    requires Fetched(candles, Grid(0, 1), [c], cut, 0, 3000, BINANCE_PAGE)
    ensures candles == [] && Between([c], 0, 3000) == [c]
  {
    var g := Grid(0, 1);
    assert c.ts == At(g, 2000);
    assert FirstSlot(g, 0) == 0 && Base(g, 0, 1, BINANCE_PAGE) == 1000;
    LateListingIsLost(candles, g, [c], cut, 0, 3000, BINANCE_PAGE);
    BetweenAppend([], c, 0, 3000);
    assert [] + [c] == [c];
  }
}
