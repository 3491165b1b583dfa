/** Backward pagination by count: the Coinone loop of the historical download.

    Coinone answers with the newest candles before a cursor in any order, with timestamps in
    seconds or milliseconds. An entry without a readable timestamp is skipped, and one without
    readable prices is skipped but still moves the cursor. */
module CoinonePaging {
  import opened BackwardPaging
  import opened Candles
  import opened Options
  import opened Sorting

  // ----- Entries --------------------------------------------------------------------

  datatype Bar = Bar(open: real, high: real, low: real, close: real, volume: real)

  /** An entry of a response; what does not parse is absent. */
  datatype Entry = Entry(stamp: Option<int>, bar: Option<Bar>)

  /** Timestamps below 10^12 are taken for seconds. */
  function ToMs(raw: int): int {
    if raw < 1_000_000_000_000 then raw * 1000 else raw
  }

  /** Either unit is read back correctly, for every time since September 2001. */
  lemma ToMsReadsBothUnits(ms: int)
    requires ms >= 1_000_000_000_000
    ensures ToMs(ms) == ms
    ensures ms % 1000 == 0 && ms < 1_000_000_000_000_000 ==> ToMs(ms / 1000) == ms
  {
  }

  /** The entry with its timestamp in milliseconds. */
  function Decode(e: Entry): Entry {
    if e.stamp.Some? then Entry(Some(ToMs(e.stamp.value)), e.bar) else e
  }

  function Decoded(page: seq<Entry>): (r: seq<Entry>)
    ensures |r| == |page|
  {
    seq(|page|, i requires 0 <= i < |page| => Decode(page[i]))
  }

  predicate Readable(e: Entry) { e.stamp.Some? && e.bar.Some? }

  function CandleOf(e: Entry): Candle
    requires Readable(e)
  {
    var b := e.bar.value;
    Candle(e.stamp.value, b.open, b.high, b.low, b.close, b.volume)
  }

  function EntryOf(c: Candle): Entry { Entry(Some(c.ts), Some(Bar(c.open, c.high, c.low, c.close, c.volume))) }

  /** The candles of the readable entries. */
  function Kept(page: seq<Entry>): seq<Candle> {
    if page == [] then []
    else
      var rest, e := Kept(page[..|page| - 1]), page[|page| - 1];
      if Readable(e) then rest + [CandleOf(e)] else rest
  }

  lemma KeptAppend(page: seq<Entry>, e: Entry)
    ensures Kept(page + [e]) == if Readable(e) then Kept(page) + [CandleOf(e)] else Kept(page)
  {
    assert (page + [e])[..|page|] == page;
  }

  lemma {:induction false} KeptConcat(x: seq<Entry>, y: seq<Entry>)
    ensures Kept(x + y) == Kept(x) + Kept(y)
  {
    if y == [] {
      assert x + y == x;
    } else {
      var n := |y| - 1;
      assert x + y == (x + y[..n]) + [y[n]] && y == y[..n] + [y[n]];
      KeptConcat(x, y[..n]);
      KeptAppend(x + y[..n], y[n]);
      KeptAppend(y[..n], y[n]);
    }
  }

  lemma {:induction false} KeptCount(page: seq<Entry>, c: Candle)
    ensures multiset(Kept(page))[c] == multiset(page)[EntryOf(c)]
  {
    if page != [] {
      var n := |page| - 1;
      assert page == page[..n] + [page[n]];
      KeptCount(page[..n], c);
      assert Readable(page[n]) ==> (CandleOf(page[n]) == c <==> page[n] == EntryOf(c));
    }
  }

  lemma KeptPermuted(x: seq<Entry>, y: seq<Entry>)
    requires multiset(x) == multiset(y)
    ensures multiset(Kept(x)) == multiset(Kept(y))
  {
    forall c ensures multiset(Kept(x))[c] == multiset(Kept(y))[c] {
      KeptCount(x, c);
      KeptCount(y, c);
    }
  }

  // ----- The oldest readable timestamp ----------------------------------------------

  /** `oldest` is the least readable timestamp, absent when there is none. */
  ghost predicate IsOldest(page: seq<Entry>, oldest: Option<int>) {
    match oldest
    case None => forall e :: e in page ==> e.stamp.None?
    case Some(ts) =>
      && (exists e :: e in page && e.stamp == Some(ts))
      && forall e :: e in page && e.stamp.Some? ==> ts <= e.stamp.value
  }

  function Earlier(oldest: Option<int>, e: Entry): Option<int> {
    if e.stamp.Some? && (oldest.None? || e.stamp.value < oldest.value) then e.stamp else oldest
  }

  lemma OldestNext(page: seq<Entry>, e: Entry, oldest: Option<int>)
    requires IsOldest(page, oldest)
    ensures IsOldest(page + [e], Earlier(oldest, e))
  {
    var more := page + [e];
    assert forall x :: x in more <==> x in page || x == e;
    if oldest.Some? {
      var x :| x in page && x.stamp == oldest;
      assert x in more && e in more;
    }
  }

  lemma OldestPermuted(x: seq<Entry>, y: seq<Entry>, oldest: Option<int>)
    requires multiset(x) == multiset(y) && IsOldest(x, oldest)
    ensures IsOldest(y, oldest)
  {
    assert forall e :: e in x <==> e in multiset(x);
    assert forall e :: e in y <==> e in multiset(y);
  }

  // ----- The exchange ---------------------------------------------------------------

  /** Which candles the exchange sends with a readable timestamp, and with readable prices. */
  datatype Faults = Faults(dated: Candle -> bool, priced: Candle -> bool)

  function Sent(c: Candle, f: Faults): Entry {
    Entry(if f.dated(c) then Some(c.ts) else None, if f.priced(c) then EntryOf(c).bar else None)
  }

  function SentAll(s: seq<Candle>, f: Faults): (r: seq<Entry>)
    ensures |r| == |s|
  {
    seq(|s|, i requires 0 <= i < |s| => Sent(s[i], f))
  }

  /** The candles that can be read, in order. */
  function Good(s: seq<Candle>, f: Faults): seq<Candle> { Kept(SentAll(s, f)) }

  lemma GoodConcat(s: seq<Candle>, t: seq<Candle>, f: Faults)
    ensures Good(s + t, f) == Good(s, f) + Good(t, f)
  {
    assert SentAll(s + t, f) == SentAll(s, f) + SentAll(t, f);
    KeptConcat(SentAll(s, f), SentAll(t, f));
  }

  lemma {:induction false} GoodMembers(s: seq<Candle>, f: Faults)
    ensures forall c :: c in Good(s, f) <==> c in s && f.dated(c) && f.priced(c)
  {
    if s != [] {
      var n := |s| - 1;
      GoodMembers(s[..n], f);
      assert s == s[..n] + [s[n]];
      GoodLast(s[..n], s[n], f);
    }
  }

  lemma GoodLast(s: seq<Candle>, c: Candle, f: Faults)
    ensures Good(s + [c], f) == if f.dated(c) && f.priced(c) then Good(s, f) + [c] else Good(s, f)
  {
    assert SentAll(s + [c], f) == SentAll(s, f) + [Sent(c, f)];
    KeptAppend(SentAll(s, f), Sent(c, f));
  }

  lemma {:induction false} GoodAscending(s: seq<Candle>, f: Faults)
    requires Ascending(s)
    ensures Ascending(Good(s, f))
  {
    if s != [] {
      var n := |s| - 1;
      GoodAscending(s[..n], f);
      GoodMembers(s[..n], f);
      assert s == s[..n] + [s[n]];
      GoodLast(s[..n], s[n], f);
      var rest := Good(s[..n], f);
      forall i | 0 <= i < |rest| ensures rest[i].ts < s[n].ts {
        assert rest[i] in s[..n];
      }
    }
  }

  ghost predicate Undated(s: seq<Candle>, f: Faults) {
    forall c :: c in s ==> !f.dated(c)
  }

  lemma {:induction false} UndatedYieldNothing(s: seq<Candle>, f: Faults)
    requires Undated(s, f)
    ensures Good(s, f) == []
  {
    if s != [] {
      var n := |s| - 1;
      assert s == s[..n] + [s[n]];
      UndatedYieldNothing(s[..n], f);
      GoodLast(s[..n], s[n], f);
    }
  }

  /** The first index from `j` on, in front of `k`, with a readable timestamp; else `k`. */
  function FirstDated(server: seq<Candle>, f: Faults, j: nat, k: nat): (r: nat)
    requires j <= k <= |server|
    ensures j <= r <= k && (r < k ==> f.dated(server[r]))
    decreases k - j
  {
    if j == k || f.dated(server[j]) then j else FirstDated(server, f, j + 1, k)
  }

  lemma {:induction false} FirstDatedIsFirst(server: seq<Candle>, f: Faults, j: nat, k: nat)
    requires j <= k <= |server|
    ensures forall m :: j <= m < FirstDated(server, f, j, k) ==> !f.dated(server[m])
    ensures Undated(server[j..FirstDated(server, f, j, k)], f)
    decreases k - j
  {
    if j < k && !f.dated(server[j]) {
      FirstDatedIsFirst(server, f, j + 1, k);
    }
  }

  /** How far back the loop has come after `i` rounds: it has read server[Reach(i)..]. */
  function Reach(server: seq<Candle>, f: Faults, n: nat, first: int, i: nat): (k: nat)
    ensures k <= Older(server, first)
  {
    if i == 0 then Older(server, first)
    else
      var k := Reach(server, f, n, first, i - 1);
      FirstDated(server, f, Clamped(k - n), k)
  }

  /** What can be read and is in range among server[k..upper]. */
  function Content(server: seq<Candle>, f: Faults, k: nat, upper: nat, start: int, end: int): seq<Candle>
    requires k <= upper <= |server|
  {
    Between(Good(server[k..upper], f), start, end)
  }

  lemma ContentJoin(server: seq<Candle>, f: Faults, j: nat, k: nat, upper: nat, start: int, end: int)
    requires j <= k <= upper <= |server|
    ensures Content(server, f, j, upper, start, end) ==
      Content(server, f, j, k, start, end) + Content(server, f, k, upper, start, end)
  {
    assert server[j..upper] == server[j..k] + server[k..upper];
    GoodConcat(server[j..k], server[k..upper], f);
    BetweenConcat(Good(server[j..k], f), Good(server[k..upper], f), start, end);
  }

  lemma UndatedContent(server: seq<Candle>, f: Faults, j: nat, k: nat, start: int, end: int)
    requires j <= k <= |server| && Undated(server[j..k], f)
    ensures Content(server, f, j, k, start, end) == []
  {
    UndatedYieldNothing(server[j..k], f);
  }

  // ----- One response ---------------------------------------------------------------

  /** `page` is what Coinone sends for the newest `n` candles before index `k`. */
  ghost predicate Answers(page: seq<Entry>, server: seq<Candle>, f: Faults, n: nat, k: nat) {
    k <= |server| && multiset(Decoded(page)) == multiset(SentAll(server[Clamped(k - n)..k], f))
  }

  lemma AnswerSize(page: seq<Entry>, server: seq<Candle>, f: Faults, n: nat, k: nat)
    requires n >= 1 && Answers(page, server, f, n, k)
    ensures page == [] <==> k == 0
  {
    SameSize(Decoded(page), SentAll(server[Clamped(k - n)..k], f));
  }

  lemma SentBefore(server: seq<Candle>, f: Faults, i: nat, k: nat, e: Entry)
    requires Ascending(server) && i <= k <= |server| && e in SentAll(server[i..k], f) && e.stamp.Some?
    ensures var j := FirstDated(server, f, i, k); j < k && server[j].ts <= e.stamp.value
  {
    var sent := SentAll(server[i..k], f);
    var m :| 0 <= m < |sent| && sent[m] == e;
    assert e == Sent(server[i + m], f);
    FirstDatedIsFirst(server, f, i, k);
  }

  /** The oldest readable timestamp among what is sent is that of the first dated candle. */
  lemma SentOldest(server: seq<Candle>, f: Faults, i: nat, k: nat, oldest: Option<int>)
    requires Ascending(server) && i <= k <= |server| && IsOldest(SentAll(server[i..k], f), oldest)
    ensures var j := FirstDated(server, f, i, k); oldest == if j < k then Some(server[j].ts) else None
  {
    var j, sent := FirstDated(server, f, i, k), SentAll(server[i..k], f);
    forall e | e in sent && e.stamp.Some? ensures j < k && server[j].ts <= e.stamp.value {
      SentBefore(server, f, i, k, e);
    }
    if j < k {
      assert sent[j - i] == Sent(server[j], f);
      assert sent[j - i] in sent && sent[j - i].stamp == Some(server[j].ts);
    }
  }

  /** The oldest readable timestamp of an answer is that of the first dated candle. */
  lemma AnswerOldest(page: seq<Entry>, server: seq<Candle>, f: Faults, n: nat, k: nat, oldest: Option<int>)
    requires Ascending(server) && Answers(page, server, f, n, k) && IsOldest(Decoded(page), oldest)
    ensures var j := FirstDated(server, f, Clamped(k - n), k);
      oldest == if j < k then Some(server[j].ts) else None
  {
    OldestPermuted(Decoded(page), SentAll(server[Clamped(k - n)..k], f), oldest);
    SentOldest(server, f, Clamped(k - n), k, oldest);
  }

  /** What an answer contributes brings the content to its oldest dated candle. */
  lemma AnswerContent(page: seq<Entry>, server: seq<Candle>, f: Faults, n: nat, k: nat, start: int, end: int)
    requires Answers(page, server, f, n, k)
    ensures multiset(Between(Kept(Decoded(page)), start, end)) ==
      multiset(Content(server, f, FirstDated(server, f, Clamped(k - n), k), k, start, end))
  {
    var i, j := Clamped(k - n), FirstDated(server, f, Clamped(k - n), k);
    KeptPermuted(Decoded(page), SentAll(server[i..k], f));
    BetweenPermuted(Kept(Decoded(page)), Good(server[i..k], f), start, end);
    FirstDatedIsFirst(server, f, i, k);
    UndatedContent(server, f, i, j, start, end);
    ContentJoin(server, f, i, j, k, start, end);
  }

  /** The first `i` entries of the response have been scanned. */
  ghost predicate Scanned(r: seq<Candle>, oldest: Option<int>, all: seq<Candle>, s: seq<Entry>, i: nat, start: int,
                          end: int) {
    i <= |s| && r == all + Between(Kept(s[..i]), start, end) && IsOldest(s[..i], oldest)
  }

  function Contribution(e: Entry, start: int, end: int): seq<Candle> {
    if Readable(e) && InRange(CandleOf(e), start, end) then [CandleOf(e)] else []
  }

  lemma BetweenKeptNext(s: seq<Entry>, e: Entry, start: int, end: int)
    ensures Between(Kept(s + [e]), start, end) == Between(Kept(s), start, end) + Contribution(e, start, end)
  {
    KeptAppend(s, e);
    if Readable(e) { BetweenAppend(Kept(s), CandleOf(e), start, end); }
  }

  lemma ScanNext(r: seq<Candle>, oldest: Option<int>, all: seq<Candle>, s: seq<Entry>, i: nat, start: int, end: int)
    requires i < |s| && Scanned(r, oldest, all, s, i, start, end)
    ensures Scanned(r + Contribution(s[i], start, end), Earlier(oldest, s[i]), all, s, i + 1, start, end)
  {
    assert s[..i + 1] == s[..i] + [s[i]];
    OldestNext(s[..i], s[i], oldest);
    BetweenKeptNext(s[..i], s[i], start, end);
  }

  /** The loop over one response: keep what can be read and is in range, and note the oldest
      readable timestamp. */
  method ScanPage(all: seq<Candle>, page: seq<Entry>, start: int, end: int)
                  returns (r: seq<Candle>, oldest: Option<int>)
    ensures r == all + Between(Kept(Decoded(page)), start, end)
    ensures IsOldest(Decoded(page), oldest)
  {
    r, oldest := all, None;
    ghost var s := Decoded(page);
    for i := 0 to |page|
      invariant Scanned(r, oldest, all, s, i, start, end)
    {
      ScanNext(r, oldest, all, s, i, start, end);
      var e := page[i];
      if e.stamp.None? {
        assert r + [] == r;
        continue;
      }
      var ts := ToMs(e.stamp.value);
      if oldest.None? || ts < oldest.value {
        oldest := Some(ts);
      }
      if start <= ts < end && e.bar.Some? {
        var b := e.bar.value;
        r := r + [Candle(ts, b.open, b.high, b.low, b.close, b.volume)];
      } else {
        assert r + [] == r;
      }
    }
    assert s[..|s|] == s;
  }

  // ----- The loop -------------------------------------------------------------------

  const COINONE_PAGE: nat := 500

  /** Any request with cursor `c` is answered from the candles before it, and flagged as the
      last page only when nothing older is left. */
  ghost predicate Serves(server: seq<Candle>, f: Faults, n: nat, reply: (nat, int) -> seq<Entry>,
                         isLast: (nat, int) -> bool) {
    && (forall i, c :: Answers(reply(i, c), server, f, n, Older(server, c)))
    && (forall i, c :: isLast(i, c) ==> Older(server, c) <= n)
  }

  lemma Served(server: seq<Candle>, f: Faults, n: nat, reply: (nat, int) -> seq<Entry>, isLast: (nat, int) -> bool,
               i: nat, c: int)
    requires Serves(server, f, n, reply, isLast)
    ensures Answers(reply(i, c), server, f, n, Older(server, c)) && (isLast(i, c) ==> Older(server, c) <= n)
  {
  }

  /** The cursor after `i` rounds. */
  function CursorAt(server: seq<Candle>, f: Faults, n: nat, first: int, i: nat): int {
    var k := Reach(server, f, n, first, i);
    if i == 0 || k >= |server| then first else server[k].ts
  }

  /** What has been read after `i` rounds, as far as it is readable and in range. */
  function ReadSoFar(server: seq<Candle>, f: Faults, n: nat, first: int, i: nat, start: int, end: int): seq<Candle> {
    Content(server, f, Reach(server, f, n, first, i), Older(server, first), start, end)
  }

  /** Invariant of the loop after `i` rounds. */
  ghost predicate Collected(all: seq<Candle>, server: seq<Candle>, f: Faults, n: nat, first: int, cursor: int, i: nat,
                            start: int, end: int) {
    && Older(server, cursor) == Reach(server, f, n, first, i) && cursor == CursorAt(server, f, n, first, i)
    && multiset(all) == multiset(ReadSoFar(server, f, n, first, i, start, end))
  }

  /** After `i` rounds another would not get further, or nothing older is in range. */
  ghost predicate Done(server: seq<Candle>, f: Faults, n: nat, first: int, i: nat, start: int) {
    var k := Reach(server, f, n, first, i);
    Reach(server, f, n, first, i + 1) == k || (k < |server| && server[k].ts <= start)
  }

  /** The first `k` entries of request `m` besides what was read before it. */
  ghost predicate CutResult(candles: seq<Candle>, page: seq<Entry>, k: nat, read: seq<Candle>, start: int, end: int) {
    && Sorted(candles, Time)
    && multiset(candles) == multiset(read) + multiset(Between(Kept(Decoded(page)[..Least(k, |page|)]), start, end))
  }

  /** What the loop promises: what can be read of the rounds it made, and, when a request was
      cut, of the entries before the cut. */
  ghost predicate Delivers(candles: seq<Candle>, cut: nat -> Option<nat>, reply: (nat, int) -> seq<Entry>,
                           server: seq<Candle>, f: Faults, n: nat, first: int, start: int, end: int) {
    exists m: nat :: Uncut(cut, m) &&
      (|| (Done(server, f, n, first, m, start) && candles == ReadSoFar(server, f, n, first, m, start, end))
       || (cut(m).Some? && CutResult(candles, reply(m, CursorAt(server, f, n, first, m)), cut(m).value,
                                     ReadSoFar(server, f, n, first, m, start, end), start, end)))
  }

  lemma ReadSoFarAscending(server: seq<Candle>, f: Faults, n: nat, first: int, i: nat, start: int, end: int)
    requires Ascending(server)
    ensures Ascending(ReadSoFar(server, f, n, first, i, start, end))
  {
    var k, upper := Reach(server, f, n, first, i), Older(server, first);
    SliceAscending(server, k, upper);
    GoodAscending(server[k..upper], f);
    BetweenAscending(Good(server[k..upper], f), start, end);
  }

  lemma FinishDone(all: seq<Candle>, cut: nat -> Option<nat>, reply: (nat, int) -> seq<Entry>, server: seq<Candle>,
                   f: Faults, n: nat, first: int, m: nat, start: int, end: int)
    requires Ascending(server) && Uncut(cut, m) && Done(server, f, n, first, m, start)
    requires multiset(all) == multiset(ReadSoFar(server, f, n, first, m, start, end))
    ensures Delivers(Sort(all, Time), cut, reply, server, f, n, first, start, end)
  {
    ReadSoFarAscending(server, f, n, first, m, start, end);
    SortRecovers(all, ReadSoFar(server, f, n, first, m, start, end));
  }

  lemma FinishCutShort(all: seq<Candle>, cut: nat -> Option<nat>, reply: (nat, int) -> seq<Entry>, server: seq<Candle>,
                       f: Faults, n: nat, first: int, cursor: int, m: nat, start: int, end: int)
    requires Uncut(cut, m) && cut(m).Some? && Collected(all, server, f, n, first, cursor, m, start, end)
    ensures var page := reply(m, cursor);
      var r := all + Between(Kept(Decoded(page)[..Least(cut(m).value, |page|)]), start, end);
      Delivers(Sort(r, Time), cut, reply, server, f, n, first, start, end)
  {
    var page := reply(m, cursor);
    var r := all + Between(Kept(Decoded(page)[..Least(cut(m).value, |page|)]), start, end);
    SortSorted(r, Time);
    assert CutResult(Sort(r, Time), page, cut(m).value, ReadSoFar(server, f, n, first, m, start, end), start, end);
  }

  /** One answered round adds what can be read of its page, */
  lemma RoundContent(all: seq<Candle>, page: seq<Entry>, server: seq<Candle>, f: Faults, n: nat, first: int,
                     cursor: int, m: nat, start: int, end: int)
    requires Collected(all, server, f, n, first, cursor, m, start, end)
    requires Answers(page, server, f, n, Older(server, cursor))
    ensures multiset(all + Between(Kept(Decoded(page)), start, end)) ==
      multiset(ReadSoFar(server, f, n, first, m + 1, start, end))
  {
    var k, j, upper := Older(server, cursor), Reach(server, f, n, first, m + 1), Older(server, first);
    var more := Between(Kept(Decoded(page)), start, end);
    AnswerContent(page, server, f, n, k, start, end);
    ContentJoin(server, f, j, k, upper, start, end);
    JoinMultisets(all, more, Content(server, f, k, upper, start, end), Content(server, f, j, k, start, end));
  }

  lemma JoinMultisets(x: seq<Candle>, y: seq<Candle>, x': seq<Candle>, y': seq<Candle>)
    requires multiset(x) == multiset(x') && multiset(y) == multiset(y')
    ensures multiset(x + y) == multiset(y' + x')
  {
  }

  /** and moves the reach to the oldest dated candle, where there is one. */
  lemma RoundCursor(page: seq<Entry>, oldest: Option<int>, server: seq<Candle>, f: Faults, n: nat, first: int,
                    cursor: int, m: nat)
    requires Ascending(server) && Older(server, cursor) == Reach(server, f, n, first, m)
    requires Answers(page, server, f, n, Older(server, cursor)) && IsOldest(Decoded(page), oldest)
    ensures oldest.None? ==> Reach(server, f, n, first, m + 1) == Reach(server, f, n, first, m)
    ensures oldest.Some? ==>
      && Older(server, oldest.value) == Reach(server, f, n, first, m + 1) < Older(server, cursor)
      && oldest.value == CursorAt(server, f, n, first, m + 1)
  {
    var k, j := Older(server, cursor), Reach(server, f, n, first, m + 1);
    AnswerOldest(page, server, f, n, k, oldest);
    if j < k { OlderAt(server, j); }
  }

  /** A last page leaves nothing dated behind. */
  lemma LastPageDone(server: seq<Candle>, f: Faults, n: nat, first: int, m: nat, start: int)
    requires Reach(server, f, n, first, m) <= n
    ensures Done(server, f, n, first, m + 1, start)
  {
    var k := Reach(server, f, n, first, m);
    var j := FirstDated(server, f, 0, k);
    FirstDatedIsFirst(server, f, 0, k);
    NoneDated(server, f, 0, j);
  }

  lemma {:induction false} NoneDated(server: seq<Candle>, f: Faults, j: nat, k: nat)
    requires j <= k <= |server| && forall m :: j <= m < k ==> !f.dated(server[m])
    ensures FirstDated(server, f, j, k) == k
    decreases k - j
  {
    if j < k {
      NoneDated(server, f, j + 1, k);
    }
  }

  /** The loop ends for good with a round that finds no cursor, is the last or reaches far
      enough back. */
  lemma RoundStops(r: seq<Candle>, cut: nat -> Option<nat>, reply: (nat, int) -> seq<Entry>, oldest: Option<int>,
                   last: bool, server: seq<Candle>, f: Faults, n: nat, first: int, m: nat, start: int, end: int)
    requires Ascending(server) && n >= 1 && Uncut(cut, m) && Uncut(cut, m + 1)
    requires multiset(r) == multiset(ReadSoFar(server, f, n, first, m + 1, start, end))
    requires if oldest.None? then Reach(server, f, n, first, m + 1) == Reach(server, f, n, first, m)
             else Older(server, oldest.value) == Reach(server, f, n, first, m + 1) < Reach(server, f, n, first, m)
                  && oldest.value == CursorAt(server, f, n, first, m + 1)
    requires last ==> Reach(server, f, n, first, m) <= n
    requires oldest.None? || last || oldest.value <= start
    ensures Delivers(Sort(r, Time), cut, reply, server, f, n, first, start, end)
  {
    if oldest.None? {
      FinishDone(r, cut, reply, server, f, n, first, m, start, end);
    } else {
      if last { LastPageDone(server, f, n, first, m, start); }
      FinishDone(r, cut, reply, server, f, n, first, m + 1, start, end);
    }
  }

  /** An answered round: the loop ends for good, or has a next cursor. */
  lemma RoundEnds(all: seq<Candle>, page: seq<Entry>, cut: nat -> Option<nat>, reply: (nat, int) -> seq<Entry>,
                  oldest: Option<int>, last: bool, server: seq<Candle>, f: Faults, n: nat, first: int, cursor: int,
                  m: nat, start: int, end: int)
    requires Ascending(server) && n >= 1 && Uncut(cut, m) && cut(m).None?
    requires Collected(all, server, f, n, first, cursor, m, start, end) && (last ==> Older(server, cursor) <= n)
    requires Answers(page, server, f, n, Older(server, cursor)) && IsOldest(Decoded(page), oldest)
    ensures Uncut(cut, m + 1)
    ensures var r := all + Between(Kept(Decoded(page)), start, end);
      if oldest.None? || last || oldest.value <= start
      then Delivers(Sort(r, Time), cut, reply, server, f, n, first, start, end)
      else
        && Older(server, oldest.value) < Older(server, cursor)
        && Collected(r, server, f, n, first, oldest.value, m + 1, start, end)
  {
    var r := all + Between(Kept(Decoded(page)), start, end);
    UncutNext(cut, m);
    RoundContent(all, page, server, f, n, first, cursor, m, start, end);
    RoundCursor(page, oldest, server, f, n, first, cursor, m);
    if oldest.None? || last || oldest.value <= start {
      RoundStops(r, cut, reply, oldest, last, server, f, n, first, m, start, end);
    }
  }

  /** An empty page means nothing is older. */
  lemma EmptyEnds(all: seq<Candle>, cut: nat -> Option<nat>, reply: (nat, int) -> seq<Entry>, server: seq<Candle>,
                  f: Faults, n: nat, first: int, cursor: int, m: nat, start: int, end: int)
    requires Ascending(server) && n >= 1 && Uncut(cut, m) && Collected(all, server, f, n, first, cursor, m, start, end)
    requires Answers(reply(m, cursor), server, f, n, Older(server, cursor)) && reply(m, cursor) == []
    ensures Delivers(Sort(all, Time), cut, reply, server, f, n, first, start, end)
  {
    AnswerSize(reply(m, cursor), server, f, n, Older(server, cursor));
    FinishDone(all, cut, reply, server, f, n, first, m, start, end);
  }

  lemma DecodedPrefix(page: seq<Entry>, k: nat)
    requires k <= |page|
    ensures Decoded(page[..k]) == Decoded(page)[..k]
  {
  }

  /** One round of the loop: what it adds, and the next cursor unless the loop ends. */
  method ReadCoinone(all: seq<Candle>, reply: (nat, int) -> seq<Entry>, isLast: (nat, int) -> bool,
                     cut: nat -> Option<nat>, cursor: int, requests: nat, start: int, end: int,
                     ghost server: seq<Candle>, ghost f: Faults)
    returns (r: seq<Candle>, next: Option<int>)
    requires Ascending(server) && Serves(server, f, COINONE_PAGE, reply, isLast) && Uncut(cut, requests)
    requires Collected(all, server, f, COINONE_PAGE, end, cursor, requests, start, end)
    ensures next.None? ==> Delivers(Sort(r, Time), cut, reply, server, f, COINONE_PAGE, end, start, end)
    ensures next.Some? ==>
      && Uncut(cut, requests + 1) && Older(server, next.value) < Older(server, cursor)
      && Collected(r, server, f, COINONE_PAGE, end, next.value, requests + 1, start, end)
  {
    var page := reply(requests, cursor);
    if cut(requests).Some? {
      var k := Least(cut(requests).value, |page|);
      FinishCutShort(all, cut, reply, server, f, COINONE_PAGE, end, cursor, requests, start, end);
      DecodedPrefix(page, k);
      r, next := ScanPage(all, page[..k], start, end);
      return r, None;
    }
    Served(server, f, COINONE_PAGE, reply, isLast, requests, cursor);
    if page == [] {
      EmptyEnds(all, cut, reply, server, f, COINONE_PAGE, end, cursor, requests, start, end);
      return all, None;
    }
    var last := isLast(requests, cursor);
    r, next := ScanPage(all, page, start, end);
    RoundEnds(all, page, cut, reply, next, last, server, f, COINONE_PAGE, end, cursor, requests, start, end);
    if last || next.None? || next.value <= start {
      return r, None;
    }
  }

  /** The loop terminates, whatever fails to parse. */
  method FetchCoinone(reply: (nat, int) -> seq<Entry>, isLast: (nat, int) -> bool, cut: nat -> Option<nat>,
                      start: int, end: int, ghost server: seq<Candle>, ghost f: Faults)
    returns (candles: seq<Candle>)
    requires Ascending(server) && Serves(server, f, 500, reply, isLast)
    ensures Delivers(candles, cut, reply, server, f, 500, end, start, end)
  {
    var all := [];
    var cursor := end;
    var requests := 0;
    assert server[Older(server, end)..Older(server, end)] == [];
    while true
      invariant requests >= 0 && Uncut(cut, requests)
      invariant Collected(all, server, f, COINONE_PAGE, end, cursor, requests, start, end)
      decreases Older(server, cursor)
    {
      var next;
      all, next := ReadCoinone(all, reply, isLast, cut, cursor, requests, start, end, server, f);
      if next.None? {
        break;
      }
      requests := requests + 1;
      cursor := next.value;
    }
    candles := Sort(all, Time);
  }

  // ----- When is the download complete? ---------------------------------------------

  /** The `n` candles from index `b` on have no readable timestamp. */
  ghost predicate Block(server: seq<Candle>, f: Faults, n: nat, first: int, b: nat) {
    b + n <= Older(server, first) && forall i :: b <= i < b + n ==> !f.dated(server[i])
  }

  /** A block stops the loop: it never gets past it. */
  lemma {:induction false} StuckAtBlock(server: seq<Candle>, f: Faults, n: nat, first: int, b: nat, i: nat)
    requires Block(server, f, n, first, b)
    ensures Reach(server, f, n, first, i) >= b + n
  {
    if i > 0 {
      var k := Reach(server, f, n, first, i - 1);
      StuckAtBlock(server, f, n, first, b, i - 1);
    }
  }

  /** All that can be read and is in range. */
  function Everything(server: seq<Candle>, f: Faults, start: int, end: int): seq<Candle> {
    Between(Good(server, f), start, end)
  }

  predicate GoodAt(server: seq<Candle>, f: Faults, i: nat, start: int, end: int) {
    i < |server| && InRange(server[i], start, end) && f.dated(server[i]) && f.priced(server[i])
  }

  /** No block is newer than a readable candle in range. */
  ghost predicate NoBlockInFront(server: seq<Candle>, f: Faults, n: nat, start: int, end: int) {
    forall b: nat, i: nat :: Block(server, f, n, end, b) && i < b ==>
      !GoodAt(server, f, i, start, end)
  }

  lemma EverythingSplits(server: seq<Candle>, f: Faults, k: nat, start: int, end: int)
    requires Ascending(server) && k <= Older(server, end)
    ensures Everything(server, f, start, end) ==
      Content(server, f, 0, k, start, end) + Content(server, f, k, Older(server, end), start, end)
  {
    var upper := Older(server, end);
    OlderSplits(server, end);
    ContentJoin(server, f, 0, k, upper, start, end);
    ContentJoin(server, f, 0, upper, |server|, start, end);
    assert server[0..|server|] == server;
    var late := server[upper..];
    assert server[upper..|server|] == late;
    GoodMembers(late, f);
    forall i | 0 <= i < |Good(late, f)| ensures !InRange(Good(late, f)[i], start, end) {
      assert Good(late, f)[i] in late;
    }
    BetweenNone(Good(late, f), start, end);
  }

  lemma EmptyContent(server: seq<Candle>, f: Faults, k: nat, start: int, end: int)
    requires k <= |server|
    ensures Content(server, f, 0, k, start, end) == [] <==>
      forall i :: 0 <= i < k ==> !GoodAt(server, f, i, start, end)
  {
    var s := server[0..k];
    GoodMembers(s, f);
    BetweenMembers(Good(s, f), start, end);
    if Content(server, f, 0, k, start, end) == [] {
      forall i | 0 <= i < k ensures !GoodAt(server, f, i, start, end) {
        assert s[i] in s && s[i] !in Content(server, f, 0, k, start, end);
      }
    } else {
      var c := Content(server, f, 0, k, start, end)[0];
      assert c in Content(server, f, 0, k, start, end);
      var i :| 0 <= i < |s| && s[i] == c;
      assert GoodAt(server, f, i, start, end);
    }
  }

  /** When the loop is done, nothing readable in range is left behind it, or it stands at a
      block. */
  lemma DoneLeavesNothing(server: seq<Candle>, f: Faults, n: nat, m: nat, start: int, end: int, i: nat)
    requires Ascending(server) && Done(server, f, n, end, m, start) && NoBlockInFront(server, f, n, start, end)
    requires i < Reach(server, f, n, end, m)
    ensures !GoodAt(server, f, i, start, end)
  {
    var k := Reach(server, f, n, end, m);
    if k < |server| && server[k].ts <= start {
      assert server[i].ts < server[k].ts;
    } else {
      FirstDatedIsFirst(server, f, Clamped(k - n), k);
      if i < k - n {
        assert Block(server, f, n, end, k - n);
      }
    }
  }

  /** When no request is cut, the download holds all that can be read and is in range if and
      only if no page full of unreadable timestamps is newer than a part of it. */
  lemma CompleteExactly(candles: seq<Candle>, cut: nat -> Option<nat>, reply: (nat, int) -> seq<Entry>,
                        server: seq<Candle>, f: Faults, n: nat, start: int, end: int)
    requires Ascending(server) && n >= 1 && Delivers(candles, cut, reply, server, f, n, end, start, end)
    requires forall j: nat :: cut(j).None?
    ensures candles == Everything(server, f, start, end) <==> NoBlockInFront(server, f, n, start, end)
  {
    var m: nat :| Uncut(cut, m) && Done(server, f, n, end, m, start) &&
      candles == ReadSoFar(server, f, n, end, m, start, end);
    var k := Reach(server, f, n, end, m);
    EverythingSplits(server, f, k, start, end);
    EmptyContent(server, f, k, start, end);
    if NoBlockInFront(server, f, n, start, end) {
      forall i | 0 <= i < k ensures !GoodAt(server, f, i, start, end) {
        DoneLeavesNothing(server, f, n, m, start, end, i);
      }
    } else {
      var b: nat, i: nat :| Block(server, f, n, end, b) && i < b
        && GoodAt(server, f, i, start, end);
      StuckAtBlock(server, f, n, end, b, m);
      assert |Content(server, f, 0, k, start, end)| > 0;
    }
  }

  /** In particular, when every timestamp can be read the download is complete, up to the
      candles whose prices cannot. */
  lemma DatedIsComplete(candles: seq<Candle>, cut: nat -> Option<nat>, reply: (nat, int) -> seq<Entry>,
                        server: seq<Candle>, f: Faults, n: nat, start: int, end: int)
    requires Ascending(server) && n >= 1 && Delivers(candles, cut, reply, server, f, n, end, start, end)
    requires (forall j: nat :: cut(j).None?) && forall c :: c in server ==> f.dated(c)
    ensures candles == Everything(server, f, start, end)
  {
    forall b: nat ensures !Block(server, f, n, end, b) {
      if b < |server| { assert server[b] in server; }
    }
    CompleteExactly(candles, cut, reply, server, f, n, start, end);
  }

  /** With pages of one candle, an unreadable timestamp hides every older candle. */
  lemma UndatedPageHidesOlder(candles: seq<Candle>, cut: nat -> Option<nat>, reply: (nat, int) -> seq<Entry>,
                              older: Candle, newer: Candle, f: Faults, start: int, end: int)
    requires start <= older.ts < newer.ts < end && f.dated(older) && f.priced(older) && !f.dated(newer)
    requires Delivers(candles, cut, reply, [older, newer], f, 1, end, start, end) && forall j: nat :: cut(j).None?
    ensures candles != Everything([older, newer], f, start, end)
  {
    var server := [older, newer];
    OlderSplits(server, end);
    assert Block(server, f, 1, end, 1) && GoodAt(server, f, 0, start, end);
    CompleteExactly(candles, cut, reply, server, f, 1, start, end);
  }
}
