/** The checksum of an order book. The five best levels of either side are printed through a
    double with nine decimals, joined and fed to the CRC.

    What is fed to it is fixed by a reader of the text. Below 2^23 printing loses nothing, so the
    text pins down the levels; what it does not say is where the bids end and the asks begin. */
module BookChecksum {
  import opened OrderBook
  import opened Doubles
  import opened FixedDecimal
  import opened ChecksumText
  import Crc32

  type Bytes = seq<bv8>

  const DEPTH := 5

  // ----- The checksum ---------------------------------------------------------------

  /** The levels that enter the checksum: the best bids, then the best asks. */
  function Heads(bids: Side, asks: Side): seq<Level> { TopBids(bids, DEPTH) + TopAsks(asks, DEPTH) }

  function ShownLevel(l: Level): Level { Level(Shown(l.price), Shown(l.qty)) }

  /** The levels as their figures are printed. */
  function ShownLevels(levels: seq<Level>): (r: seq<Level>)
    ensures |r| == |levels|
  {
    seq(|levels|, i requires 0 <= i < |levels| => ShownLevel(levels[i]))
  }

  /** The printed text, and its bytes. */
  function ShownText(levels: seq<Level>): string { Text(ShownLevels(levels)) }

  function Payload(levels: seq<Level>): Bytes { Encoded(ShownText(levels)) }

  function ChecksumOf(bids: Side, asks: Side): bv32 { Crc32.Checksum(Payload(Heads(bids, asks))) }

  ghost predicate Printed(parts: seq<string>, levels: seq<Level>) { parts == Parts(ShownLevels(levels)) }

  lemma PrintedNext(parts: seq<string>, levels: seq<Level>, l: Level)
    requires Printed(parts, levels)
    ensures Printed(parts + [RenderLevel(ShownLevel(l))], levels + [l])
  {
  }

  lemma TakeNext(front: seq<Level>, levels: seq<Level>, i: nat)
    requires i < |levels|
    ensures front + levels[..i + 1] == (front + levels[..i]) + [levels[i]]
  {
  }

  function Smaller(x: nat, y: nat): nat { if x < y then x else y }

  /** Price and quantity as they are printed. */
  predicate PrintedAs(shown: Level, l: Level) { shown.price == Shown(l.price) && shown.qty == Shown(l.qty) }

  /** The best five bids, best first, then the best five asks, as they are printed. */
  ghost predicate Lists(levels: seq<Level>, bids: Side, asks: Side) {
    var b, a := Smaller(5, |bids|), Smaller(5, |asks|);
    && |levels| == b + a
    && (forall i :: 0 <= i < b ==> PrintedAs(levels[i], bids[|bids| - 1 - i]))
    && (forall i :: 0 <= i < a ==> PrintedAs(levels[b + i], asks[i]))
  }

  lemma HeadsListed(bids: Side, asks: Side)
    ensures Lists(ShownLevels(Heads(bids, asks)), bids, asks)
  {
    var heads, b, a := Heads(bids, asks), Smaller(5, |bids|), Smaller(5, |asks|);
    forall i | 0 <= i < b ensures PrintedAs(ShownLevels(heads)[i], bids[|bids| - 1 - i]) {
      assert heads[i] == TopBids(bids, DEPTH)[i];
    }
    forall i | 0 <= i < a ensures PrintedAs(ShownLevels(heads)[b + i], asks[i]) {
      assert heads[b + i] == TopAsks(asks, DEPTH)[i];
    }
  }

  lemma ListedOnce(x: seq<Level>, y: seq<Level>, bids: Side, asks: Side)
    requires Lists(x, bids, asks) && Lists(y, bids, asks)
    ensures x == y
  {
    var b := Smaller(5, |bids|);
    forall i | 0 <= i < |x| ensures x[i] == y[i] {
      if i < b {
        assert PrintedAs(x[i], bids[|bids| - 1 - i]) && PrintedAs(y[i], bids[|bids| - 1 - i]);
      } else {
        assert PrintedAs(x[b + (i - b)], asks[i - b]) && PrintedAs(y[b + (i - b)], asks[i - b]);
      }
    }
  }

  /** `s` reads as those levels. */
  ghost predicate Prints(s: string, bids: Side, asks: Side) {
    Read(s).Some? && Lists(Read(s).value, bids, asks)
  }

  /** There is exactly one such text, and its bytes are fed to the CRC. */
  lemma PrintsExactly(s: string, bids: Side, asks: Side)
    ensures Prints(s, bids, asks) <==> s == ShownText(Heads(bids, asks))
    ensures Prints(s, bids, asks) ==> ChecksumOf(bids, asks) == Crc32.Checksum(Encoded(s))
  {
    var levels := ShownLevels(Heads(bids, asks));
    HeadsListed(bids, asks);
    TextExactly(s, levels);
    if Prints(s, bids, asks) {
      ListedOnce(Read(s).value, levels, bids, asks);
    }
  }

  lemma ChecksumIsOfPrinted(bids: Side, asks: Side)
    ensures IsChecksum(ChecksumOf(bids, asks), bids, asks)
  {
    PrintsExactly(ShownText(Heads(bids, asks)), bids, asks);
  }

  /** `crc` is the checksum of a text that reads as the best levels. */
  ghost predicate IsChecksum(crc: bv32, bids: Side, asks: Side) {
    exists s :: Prints(s, bids, asks) && crc == Crc32.Checksum(Encoded(s))
  }

  method ComputeChecksum(book: Book) returns (crc: bv32)
    ensures crc == ChecksumOf(book.bids, book.asks) && IsChecksum(crc, book.bids, book.asks)
  {
    var topBids, topAsks := TopBids(book.bids, DEPTH), TopAsks(book.asks, DEPTH);
    var parts := [];
    for i := 0 to |topBids|
      invariant Printed(parts, [] + topBids[..i])
    {
      TakeNext([], topBids, i);
      PrintedNext(parts, [] + topBids[..i], topBids[i]);
      parts := parts + [RenderLevel(ShownLevel(topBids[i]))];
    }
    assert [] + topBids[..|topBids|] == topBids + topAsks[..0];
    for i := 0 to |topAsks|
      invariant Printed(parts, topBids + topAsks[..i])
    {
      TakeNext(topBids, topAsks, i);
      PrintedNext(parts, topBids + topAsks[..i], topAsks[i]);
      parts := parts + [RenderLevel(ShownLevel(topAsks[i]))];
    }
    assert topAsks[..|topAsks|] == topAsks;
    ChecksumIsOfPrinted(book.bids, book.asks);
    crc := Crc32.Crc32Ieee(Encoded(Join(parts)));
  }

  /** Compares the checksum of the book with the expected one. */
  method ValidateChecksum(book: Book, expected: bv32) returns (ok: bool)
    ensures ok <==> IsChecksum(expected, book.bids, book.asks)
  {
    var crc := ComputeChecksum(book);
    forall s | Prints(s, book.bids, book.asks) ensures Crc32.Checksum(Encoded(s)) == crc {
      PrintsExactly(s, book.bids, book.asks);
    }
    ok := crc == expected;
  }

  // ----- What a payload tells -------------------------------------------------------

  /** No other level is printed like this one. */
  predicate PlainLevel(l: Level) { ToldApart(l.price) && ToldApart(l.qty) }

  predicate Plain(levels: seq<Level>) {
    forall i :: 0 <= i < |levels| ==> PlainLevel(levels[i])
  }

  lemma PlainOnlyItself(l: Level, l': Level)
    requires PlainLevel(l) && ShownLevel(l) == ShownLevel(l')
    ensures l == l'
  {
    ToldApartExactly(l.price);
    ToldApartExactly(l.qty);
  }

  /** Two lists of levels have one payload if and only if they are printed alike; when the
      figures of one are told apart from all others, if and only if they are the same. */
  lemma PayloadExactly(x: seq<Level>, y: seq<Level>)
    ensures Payload(x) == Payload(y) <==> ShownLevels(x) == ShownLevels(y)
    ensures Plain(x) ==> (Payload(x) == Payload(y) <==> x == y)
  {
    TextInjective(ShownLevels(x), ShownLevels(y));
    TextAscii(ShownLevels(x));
    TextAscii(ShownLevels(y));
    EncodedInjective(ShownText(x), ShownText(y));
    if Plain(x) && ShownLevels(x) == ShownLevels(y) {
      forall i | 0 <= i < |x| ensures x[i] == y[i] {
        assert ShownLevels(x)[i] == ShownLevel(x[i]) && ShownLevels(y)[i] == ShownLevel(y[i]);
        PlainOnlyItself(x[i], y[i]);
      }
    }
  }

  /** A different level that is printed alike. */
  lemma Lookalike(l: Level) returns (l': Level)
    requires !PlainLevel(l)
    ensures l' != l && ShownLevel(l') == ShownLevel(l)
    ensures ToldApart(l.price) ==> l'.price == l.price
  {
    if !ToldApart(l.price) {
      l' := l.(price := if Shown(l.price - 1) == Shown(l.price) then l.price - 1 else l.price + 1);
    } else {
      l' := l.(qty := if Shown(l.qty - 1) == Shown(l.qty) then l.qty - 1 else l.qty + 1);
    }
  }

  lemma ShownReplaced(levels: seq<Level>, i: nat, l: Level)
    requires i < |levels| && ShownLevel(l) == ShownLevel(levels[i])
    ensures ShownLevels(levels[i := l]) == ShownLevels(levels)
  {
  }

  /** The payload of a list of levels occurs with no other list if and only if each of its
      figures is told apart from all others, which takes a look at its two neighbours. */
  lemma PayloadPinsLevelsExactly(x: seq<Level>)
    ensures (forall y :: Payload(x) == Payload(y) ==> x == y) <==> Plain(x)
  {
    if Plain(x) {
      forall y | Payload(x) == Payload(y) ensures x == y {
        PayloadExactly(x, y);
      }
    } else {
      var i :| 0 <= i < |x| && !PlainLevel(x[i]);
      var l := Lookalike(x[i]);
      ShownReplaced(x, i, l);
      assert Payload(x) == Payload(x[i := l]) && x[i := l][i] != x[i];
    }
  }

  ghost predicate FiguresUpTo(levels: seq<Level>, n: int) {
    forall i :: 0 <= i < |levels| ==> Abs(levels[i].price) <= n && Abs(levels[i].qty) <= n
  }

  ghost predicate PayloadsTellApart(n: int) {
    forall x, y :: FiguresUpTo(x, n) && FiguresUpTo(y, n) && Payload(x) == Payload(y) ==> x == y
  }

  lemma ShownAlikeUpTo(x: seq<Level>, y: seq<Level>, n: int)
    requires n <= BOUND + 1 && FiguresUpTo(x, n) && FiguresUpTo(y, n) && ShownLevels(x) == ShownLevels(y)
    ensures x == y
  {
    forall i | 0 <= i < |x| ensures x[i] == y[i] {
      assert ShownLevels(x)[i] == ShownLevel(x[i]) && ShownLevels(y)[i] == ShownLevel(y[i]);
      UpToBoundToldApart(x[i].price, y[i].price);
      UpToBoundToldApart(x[i].qty, y[i].qty);
    }
  }

  /** Two prices one unit apart, just above 2^23, print alike. */
  lemma LargePricesConfused(qty: int)
    ensures Payload([Level(BOUND + 1, qty)]) == Payload([Level(BOUND + 2, qty)])
  {
    FirstFiguresMerged();
    var x, y := [Level(BOUND + 1, qty)], [Level(BOUND + 2, qty)];
    assert ShownLevels(x) == [ShownLevel(x[0])] && ShownLevels(y) == [ShownLevel(y[0])];
  }

  /** Lists of levels with figures up to `n` all have different payloads if and only if `n` is
      at most one unit above 2^23. */
  lemma PayloadsTellApartExactly(n: int)
    ensures PayloadsTellApart(n) <==> n <= BOUND + 1
  {
    if n <= BOUND + 1 {
      forall x, y | FiguresUpTo(x, n) && FiguresUpTo(y, n) && Payload(x) == Payload(y) ensures x == y {
        PayloadExactly(x, y);
        ShownAlikeUpTo(x, y, n);
      }
    } else {
      var x, y := [Level(BOUND + 1, 0)], [Level(BOUND + 2, 0)];
      LargePricesConfused(0);
      assert FiguresUpTo(x, n) && FiguresUpTo(y, n) && x[0] != y[0];
    }
  }

  // ----- Where the bids end ---------------------------------------------------------

  predicate Uncrossed(bids: Side, asks: Side) {
    bids != [] && asks != [] ==> BestBid(bids).value < BestAsk(asks).value
  }

  /** The five best levels of either side agree. */
  predicate SameTops(bids: Side, asks: Side, bids': Side, asks': Side) {
    TopBids(bids, DEPTH) == TopBids(bids', DEPTH) && TopAsks(asks, DEPTH) == TopAsks(asks', DEPTH)
  }

  lemma NotMoreBids(bids: Side, asks: Side, bids': Side, asks': Side)
    requires Uncrossed(bids, asks) && (bids == [] ==> bids' == []) && Heads(bids, asks) == Heads(bids', asks')
    ensures |TopBids(bids, DEPTH)| >= |TopBids(bids', DEPTH)|
  {
    var k, k', h := |TopBids(bids, DEPTH)|, |TopBids(bids', DEPTH)|, Heads(bids, asks);
    assert bids != [] && asks != [] ==> h[0].price < h[k].price;
    assert forall i :: 0 < i < k' ==> h[i] == TopBids(bids', DEPTH)[i] && h[i].price < h[0].price;
  }

  lemma SplitHeads(bids: Side, asks: Side)
    ensures var k := |TopBids(bids, DEPTH)|;
      Heads(bids, asks)[..k] == TopBids(bids, DEPTH) && Heads(bids, asks)[k..] == TopAsks(asks, DEPTH)
  {
  }

  /** The best levels of two uncrossed books agree if and only if they are headed by the same
      levels and either both have a bid or neither has. */
  lemma SameTopsExactly(bids: Side, asks: Side, bids': Side, asks': Side)
    requires Uncrossed(bids, asks) && Uncrossed(bids', asks')
    ensures SameTops(bids, asks, bids', asks') <==>
      Heads(bids, asks) == Heads(bids', asks') && (bids == [] <==> bids' == [])
  {
    SplitHeads(bids, asks);
    SplitHeads(bids', asks');
    if Heads(bids, asks) == Heads(bids', asks') && (bids == [] <==> bids' == []) {
      NotMoreBids(bids, asks, bids', asks');
      NotMoreBids(bids', asks', bids, asks);
    }
  }

  /** Among uncrossed books, this one's payload occurs with its own best levels only. */
  ghost predicate PinsDown(bids: Side, asks: Side) {
    forall bids': Side, asks': Side ::
      Uncrossed(bids', asks') && Payload(Heads(bids, asks)) == Payload(Heads(bids', asks')) ==>
        SameTops(bids, asks, bids', asks')
  }

  /** Two bids, or one in front of five asks, or nothing at all. */
  predicate Unmistakable(bids: Side, asks: Side) {
    |bids| >= 2 || (|bids| == 1 && |asks| >= DEPTH) || (bids == [] && asks == [])
  }

  lemma FallingHeads(bids: Side, asks: Side)
    requires |bids| >= 2
    ensures |Heads(bids, asks)| >= 2 && Heads(bids, asks)[1].price < Heads(bids, asks)[0].price
  {
    var h := Heads(bids, asks);
    assert h[0] == bids[|bids| - 1] && h[1] == bids[|bids| - 2];
  }

  lemma RisingHeads(asks: Side)
    ensures |Heads([], asks)| <= DEPTH
    ensures |Heads([], asks)| >= 2 ==> Heads([], asks)[0].price < Heads([], asks)[1].price
  {
    assert TopBids([], DEPTH) == [];
    assert Heads([], asks) == TopAsks(asks, DEPTH);
  }

  lemma UnmistakableHeads(bids: Side, asks: Side, bids': Side, asks': Side)
    requires Uncrossed(bids, asks) && Uncrossed(bids', asks') && Unmistakable(bids, asks)
    requires Heads(bids, asks) == Heads(bids', asks')
    ensures SameTops(bids, asks, bids', asks')
  {
    if |bids| >= 2 { FallingHeads(bids, asks); }
    RisingHeads(asks');
    assert |bids| == 1 && |asks| >= DEPTH ==> |Heads(bids, asks)| == DEPTH + 1;
    assert bids == [] && asks == [] ==> |Heads(bids, asks)| == 0;
    SameTopsExactly(bids, asks, bids', asks');
  }

  lemma LoneBidHeads(l: Level, asks: Side)
    requires (asks != [] ==> l.price < asks[0].price) && |asks| < DEPTH
    ensures Ascending([l]) && Ascending([l] + asks) && Uncrossed([l], asks) && Uncrossed([], [l] + asks)
    ensures Heads([l], asks) == [l] + asks == Heads([], [l] + asks)
    ensures !SameTops([l], asks, [], [l] + asks) && !SameTops([], [l] + asks, [l], asks)
  {
    assert TopBids([l], DEPTH) == [l] && TopAsks(asks, DEPTH) == asks;
    assert TopBids([], DEPTH) == [] && TopAsks([l] + asks, DEPTH) == [l] + asks;
  }

  /** The other reading of a single bid, or of the best ask of a book without bids. */
  lemma OtherReading(bids: Side, asks: Side) returns (bids': Side, asks': Side)
    requires Uncrossed(bids, asks) && !Unmistakable(bids, asks)
    ensures Uncrossed(bids', asks') && Heads(bids', asks') == Heads(bids, asks) && !SameTops(bids, asks, bids', asks')
  {
    if bids == [] {
      var a := TopAsks(asks, DEPTH);
      LoneBidHeads(a[0], a[1..]);
      assert [a[0]] + a[1..] == a && Heads([], asks) == a;
      bids', asks' := [a[0]], a[1..];
      assert |TopBids(bids', DEPTH)| == 1 && |TopBids(bids, DEPTH)| == 0;
    } else {
      LoneBidHeads(bids[0], asks);
      assert bids == [bids[0]];
      bids', asks' := [], [bids[0]] + asks;
    }
  }

  /** With figures that are told apart, the payload of an uncrossed book pins down its best
      levels, among uncrossed books, if and only if it has two bids, or one bid and five asks, or
      nothing at all. */
  lemma PinsDownExactly(bids: Side, asks: Side)
    requires Uncrossed(bids, asks) && Plain(Heads(bids, asks))
    ensures PinsDown(bids, asks) <==> Unmistakable(bids, asks)
  {
    if Unmistakable(bids, asks) {
      forall bids': Side, asks': Side | Uncrossed(bids', asks') &&
        Payload(Heads(bids, asks)) == Payload(Heads(bids', asks'))
        ensures SameTops(bids, asks, bids', asks')
      {
        PayloadExactly(Heads(bids, asks), Heads(bids', asks'));
        UnmistakableHeads(bids, asks, bids', asks');
      }
    } else {
      var bids', asks' := OtherReading(bids, asks);
      assert Payload(Heads(bids, asks)) == Payload(Heads(bids', asks'));
    }
  }

  // ----- Crossed books --------------------------------------------------------------

  /** Among all books, crossed ones included, this one's payload occurs with its own best levels
      only. */
  ghost predicate PinsDownAny(bids: Side, asks: Side) {
    forall bids': Side, asks': Side ::
      Payload(Heads(bids, asks)) == Payload(Heads(bids', asks')) ==> SameTops(bids, asks, bids', asks')
  }

  /** The deepest bid that is used and the best ask meet at one price, or five levels of one side
      keep the other from reaching further. */
  predicate Unambiguous(bids: Side, asks: Side) {
    var b, a := TopBids(bids, DEPTH), TopAsks(asks, DEPTH);
    if b == [] || a == [] then b == [] && a == []
    else
      var x, y := b[|b| - 1].price, a[0].price;
      x == y || (x < y && |a| == DEPTH) || (x > y && |b| == DEPTH)
  }

  lemma BidsFall(bids: Side, asks: Side, i: nat, j: nat)
    requires i < j < |TopBids(bids, DEPTH)|
    ensures Heads(bids, asks)[i].price > Heads(bids, asks)[j].price
  {
  }

  lemma AsksRise(bids: Side, asks: Side, i: nat, j: nat)
    requires |TopBids(bids, DEPTH)| <= i < j < |Heads(bids, asks)|
    ensures Heads(bids, asks)[i].price < Heads(bids, asks)[j].price
  {
    var k := |TopBids(bids, DEPTH)|;
    assert Heads(bids, asks)[i] == TopAsks(asks, DEPTH)[i - k] && Heads(bids, asks)[j] == TopAsks(asks, DEPTH)[j - k];
  }

  lemma WhereSidesMeet(bids: Side, asks: Side)
    ensures var k, h := |TopBids(bids, DEPTH)|, Heads(bids, asks);
      && (k > 0 ==> h[k - 1] == TopBids(bids, DEPTH)[k - 1])
      && (k < |h| ==> h[k] == TopAsks(asks, DEPTH)[0]) && (k == |h| <==> TopAsks(asks, DEPTH) == [])
  {
  }

  /** Another reading with more bids, or with fewer, shows that the book is ambiguous. */
  lemma OtherSplit(bids: Side, asks: Side, bids': Side, asks': Side)
    requires Heads(bids, asks) == Heads(bids', asks') && |TopBids(bids, DEPTH)| != |TopBids(bids', DEPTH)|
    ensures !Unambiguous(bids, asks)
  {
    var k, k' := |TopBids(bids, DEPTH)|, |TopBids(bids', DEPTH)|;
    WhereSidesMeet(bids, asks);
    if k < k' {
      if k > 0 { BidsFall(bids', asks', k - 1, k); }
    } else if k < |Heads(bids, asks)| {
      AsksRise(bids', asks', k - 1, k);
    }
  }

  /** The best ask read as a bid. */
  lemma AskAsBid(bids: Side, asks: Side) returns (bids': Side, asks': Side)
    requires var b, a := TopBids(bids, DEPTH), TopAsks(asks, DEPTH);
      a != [] && |b| < DEPTH && (b == [] || b[|b| - 1].price > a[0].price)
    ensures Heads(bids', asks') == Heads(bids, asks) && |TopBids(bids', DEPTH)| == |TopBids(bids, DEPTH)| + 1
  {
    var b, a := TopBids(bids, DEPTH), TopAsks(asks, DEPTH);
    assert b != [] ==> b[|b| - 1] == bids[0];
    bids', asks' := [a[0]] + bids, a[1..];
    assert TopBids(bids', DEPTH) == b + [a[0]] && TopAsks(asks', DEPTH) == a[1..];
    assert b + a == (b + [a[0]]) + a[1..];
  }

  /** The deepest bid read as an ask. */
  lemma BidAsAsk(bids: Side, asks: Side) returns (bids': Side, asks': Side)
    requires var b, a := TopBids(bids, DEPTH), TopAsks(asks, DEPTH);
      b != [] && |a| < DEPTH && (a == [] || b[|b| - 1].price < a[0].price)
    ensures Heads(bids', asks') == Heads(bids, asks) && |TopBids(bids', DEPTH)| == |TopBids(bids, DEPTH)| - 1
  {
    var b, a := TopBids(bids, DEPTH), TopAsks(asks, DEPTH);
    var l := b[|b| - 1];
    assert a == asks;
    bids', asks' := bids[|bids| - |b| + 1..], [l] + a;
    assert TopBids(bids', DEPTH) == b[..|b| - 1] && TopAsks(asks', DEPTH) == [l] + a;
    assert b + a == b[..|b| - 1] + ([l] + a);
  }

  lemma AmbiguousReading(bids: Side, asks: Side) returns (bids': Side, asks': Side)
    requires !Unambiguous(bids, asks)
    ensures Heads(bids', asks') == Heads(bids, asks) && !SameTops(bids, asks, bids', asks')
  {
    var b, a := TopBids(bids, DEPTH), TopAsks(asks, DEPTH);
    if a != [] && |b| < DEPTH && (b == [] || b[|b| - 1].price > a[0].price) {
      bids', asks' := AskAsBid(bids, asks);
    } else {
      bids', asks' := BidAsAsk(bids, asks);
    }
  }

  /** A quantity that is not told apart can be another one. */
  lemma OtherQuantity(bids: Side, asks: Side, i: nat) returns (bids': Side, asks': Side)
    requires i < |Heads(bids, asks)|
    requires var l := Heads(bids, asks)[i]; ToldApart(l.price) && !ToldApart(l.qty)
    ensures Payload(Heads(bids', asks')) == Payload(Heads(bids, asks)) && !SameTops(bids, asks, bids', asks')
  {
    var h, k := Heads(bids, asks), |TopBids(bids, DEPTH)|;
    var l := Lookalike(h[i]);
    SplitHeads(bids, asks);
    if i < k {
      bids', asks' := bids[|bids| - 1 - i := l], asks;
      assert TopBids(bids', DEPTH) == TopBids(bids, DEPTH)[i := l];
      assert TopBids(bids', DEPTH)[i] != TopBids(bids, DEPTH)[i];
    } else {
      bids', asks' := bids, asks[i - k := l];
      assert TopAsks(asks', DEPTH) == TopAsks(asks, DEPTH)[i - k := l];
      assert TopAsks(asks', DEPTH)[i - k] != TopAsks(asks, DEPTH)[i - k];
    }
    assert Heads(bids', asks') == h[i := l];
    ShownReplaced(h, i, l);
  }

  predicate PlainPrices(levels: seq<Level>) {
    forall i :: 0 <= i < |levels| ==> ToldApart(levels[i].price)
  }

  predicate PlainQuantities(levels: seq<Level>) {
    forall i :: 0 <= i < |levels| ==> ToldApart(levels[i].qty)
  }

  /** With prices that are told apart, the payload of any book pins down its best levels, among
      all books, if and only if its quantities are told apart as well and either the deepest bid
      and the best ask meet at one price, or five asks stand above it, or five bids below, or
      there is nothing at all. */
  lemma PinsDownAnyExactly(bids: Side, asks: Side)
    requires PlainPrices(Heads(bids, asks))
    ensures PinsDownAny(bids, asks) <==> Unambiguous(bids, asks) && PlainQuantities(Heads(bids, asks))
  {
    if !Unambiguous(bids, asks) {
      var bids', asks' := AmbiguousReading(bids, asks);
      assert Payload(Heads(bids, asks)) == Payload(Heads(bids', asks'));
    } else if !PlainQuantities(Heads(bids, asks)) {
      var i :| 0 <= i < |Heads(bids, asks)| && !ToldApart(Heads(bids, asks)[i].qty);
      var bids', asks' := OtherQuantity(bids, asks, i);
    } else {
      forall bids': Side, asks': Side | Payload(Heads(bids, asks)) == Payload(Heads(bids', asks'))
        ensures SameTops(bids, asks, bids', asks')
      {
        PayloadExactly(Heads(bids, asks), Heads(bids', asks'));
        if |TopBids(bids, DEPTH)| != |TopBids(bids', DEPTH)| { OtherSplit(bids, asks, bids', asks'); }
        SplitHeads(bids, asks);
        SplitHeads(bids', asks');
      }
    }
  }

  /** A book of one bid and fewer than five asks has the checksum of a book of asks alone. */
  lemma LoneBidConfused(l: Level, asks: Side)
    requires (asks != [] ==> l.price < asks[0].price) && |asks| < DEPTH
    ensures Ascending([l]) && Ascending([l] + asks) && Uncrossed([l], asks) && Uncrossed([], [l] + asks)
    ensures ChecksumOf([l], asks) == ChecksumOf([], [l] + asks) && !SameTops([l], asks, [], [l] + asks)
  {
    LoneBidHeads(l, asks);
  }

  // ----- Errors that are always seen ------------------------------------------------

  /** The checksum of a text. */
  function Sum(s: string): bv32 { Crc32.Checksum(Encoded(s)) }

  lemma EncodedAround(u: string, s: string, v: string)
    ensures Encoded(u + s + v) == Encoded(u) + Encoded(s) + Encoded(v)
  {
    EncodedConcat(u + s, v);
    EncodedConcat(u, s);
  }

  lemma FourBytesSeen(u: Bytes, s: Bytes, t: Bytes, v: Bytes)
    requires |s| == |t| <= 4
    ensures Crc32.Checksum(u + s + v) == Crc32.Checksum(u + t + v) <==> s == t
  {
    var x, y := u + s + v, u + t + v;
    assert x[|u|..|u| + |s|] == s && y[|u|..|u| + |s|] == t;
    if s != t {
      Crc32.FourByteBurstDetected(x, y, |u|);
    }
  }

  lemma FourCharactersSeen(u: string, s: string, t: string, v: string)
    requires |s| == |t| <= 4 && Ascii(s) && Ascii(t)
    ensures Sum(u + s + v) == Sum(u + t + v) <==> s == t
  {
    EncodedAround(u, s, v);
    EncodedAround(u, t, v);
    FourBytesSeen(Encoded(u), Encoded(s), Encoded(t), Encoded(v));
    EncodedInjective(s, t);
  }

  /** Texts of one length that differ within four consecutive bytes. */
  ghost predicate FourBytesApart(x: Bytes, y: Bytes, first: nat) {
    |x| == |y| && forall i :: 0 <= i < |x| && x[i] != y[i] ==> first <= i < first + 4
  }

  /** Two books whose payloads are no more than four bytes apart have one checksum if and only
      if their best levels are printed alike; and, where the payload of one pins its best levels
      down, if and only if their best levels are the same. */
  lemma BookBurstDetected(bids: Side, asks: Side, bids': Side, asks': Side, first: nat)
    ensures FourBytesApart(Payload(Heads(bids, asks)), Payload(Heads(bids', asks')), first) ==>
      && (ChecksumOf(bids, asks) == ChecksumOf(bids', asks') <==>
          ShownLevels(Heads(bids, asks)) == ShownLevels(Heads(bids', asks')))
      && (PinsDownAny(bids, asks) || (PinsDown(bids, asks) && Uncrossed(bids', asks')) ==>
          (ChecksumOf(bids, asks) == ChecksumOf(bids', asks') <==> SameTops(bids, asks, bids', asks')))
  {
    var x, y := Payload(Heads(bids, asks)), Payload(Heads(bids', asks'));
    PayloadExactly(Heads(bids, asks), Heads(bids', asks'));
    if FourBytesApart(x, y, first) && x != y {
      Crc32.FourByteBurstDetected(x, y, first);
    }
  }

  /** The same sign and the same first five decimals. */
  predicate CloseFigures(x: int, y: int) {
    (x < 0 <==> y < 0) && Abs(x) / 10_000 == Abs(y) / 10_000
  }

  /** Drops the `k` lowest decimal digits. */
  function Cut(n: nat, k: nat): nat
    decreases k
  {
    if k == 0 then n else Cut(n / 10, k - 1)
  }

  lemma FixedStep(n: nat, width: nat)
    requires width > 0
    ensures Fixed(n, width) == Fixed(n / 10, width - 1) + [Digit(n % 10)]
  {
  }

  lemma Associate(a: string, b: string, c: string)
    ensures (a + b) + c == a + (b + c) && a + [] == a
  {
  }

  lemma {:induction false} FixedSplit(n: nat, width: nat, k: nat)
    ensures Fixed(n, width + k) == Fixed(Cut(n, k), width) + Fixed(n, k)
    decreases k
  {
    if k == 0 {
      Associate(Fixed(n, width), [], []);
    } else {
      FixedSplit(n / 10, width, k - 1);
      FixedStep(n, width + k);
      FixedStep(n, k);
      Associate(Fixed(Cut(n / 10, k - 1), width), Fixed(n / 10, k - 1), [Digit(n % 10)]);
    }
  }

  lemma CutFour(n: nat)
    ensures Cut(n, 4) == n / 10_000
  {
    assert Cut(n, 2) == n / 10 / 10 == n / 100;
    assert Cut(n, 4) == Cut(n / 100, 2) == n / 100 / 100;
  }

  /** All but the last four digits. */
  function Lead(x: int): string {
    (if x < 0 then "-" else []) + Decimal(Abs(x) / SCALE) + "." + Fixed(Abs(x) % SCALE / 10_000, 5)
  }

  lemma MoveParentheses(sign: string, d: string, f: string, t: string)
    ensures sign + (d + "." + (f + t)) == (sign + d + "." + f) + t
  {
  }

  lemma RenderTail(x: int)
    ensures Render(x) == Lead(x) + Fixed(Abs(x) % SCALE, 4)
  {
    var m := Abs(x) % SCALE;
    FixedSplit(m, 5, 4);
    CutFour(m);
    MoveParentheses(if x < 0 then "-" else [], Decimal(Abs(x) / SCALE), Fixed(m / 10_000, 5), Fixed(m, 4));
    assert [] + Magnitude(Abs(x)) == Magnitude(Abs(x));
  }

  lemma CloseLeads(x: int, y: int)
    requires CloseFigures(x, y)
    ensures Lead(x) == Lead(y)
  {
    assert Abs(x) / SCALE == (Abs(x) / 10_000) / 100_000 == Abs(y) / SCALE;
    assert Abs(x) % SCALE / 10_000 == (Abs(x) / 10_000) % 100_000;
    assert Abs(y) % SCALE / 10_000 == (Abs(y) / 10_000) % 100_000;
  }

  /** What comes in front of and after part `i`. */
  function Before(parts: seq<string>, i: nat): string
    requires i < |parts|
  {
    if i == 0 then [] else parts[0] + "|" + Before(parts[1..], i - 1)
  }

  function After(parts: seq<string>, i: nat): string
    requires i < |parts|
  {
    if i + 1 < |parts| then "|" + Join(parts[i + 1..]) else []
  }

  lemma {:induction false} JoinAround(parts: seq<string>, i: nat)
    requires i < |parts|
    ensures Join(parts) == Before(parts, i) + parts[i] + After(parts, i)
  {
    if i > 0 {
      JoinAround(parts[1..], i - 1);
      assert parts[1..][i..] == parts[i + 1..];
    }
  }

  lemma {:induction false} BeforeUnchanged(parts: seq<string>, i: nat, p: string)
    requires i < |parts|
    ensures Before(parts[i := p], i) == Before(parts, i)
  {
    if i > 0 {
      assert parts[i := p][1..] == parts[1..][i - 1 := p];
      BeforeUnchanged(parts[1..], i - 1, p);
    }
  }

  lemma TextWithLevel(levels: seq<Level>, i: nat, l: Level)
    requires i < |levels|
    ensures Text(levels[i := l]) == Before(Parts(levels), i) + RenderLevel(l) + After(Parts(levels), i)
  {
    var parts, p := Parts(levels), RenderLevel(l);
    assert Parts(levels[i := l]) == parts[i := p];
    JoinAround(parts[i := p], i);
    BeforeUnchanged(parts, i, p);
    assert parts[i := p][i + 1..] == parts[i + 1..];
  }

  lemma TailSeen(u: string, lead: string, s: string, t: string, v: string)
    requires |s| == |t| <= 4 && Ascii(s) && Ascii(t)
    ensures Sum(u + (lead + s) + v) == Sum(u + (lead + t) + v) <==> s == t
  {
    assert u + (lead + s) + v == (u + lead) + s + v && u + (lead + t) + v == (u + lead) + t + v;
    FourCharactersSeen(u + lead, s, t, v);
  }

  lemma {:induction false} FixedDigits(n: nat, width: nat)
    ensures AllDigits(Fixed(n, width)) && Ascii(Fixed(n, width))
    decreases width
  {
    if width > 0 {
      FixedDigits(n / 10, width - 1);
      DigitFacts(n % 10);
    }
  }

  lemma TailError(u: string, x: int, y: int, v: string)
    requires CloseFigures(x, y)
    ensures Sum(u + Render(x) + v) == Sum(u + Render(y) + v) <==> x == y
  {
    var s, t := Fixed(Abs(x) % SCALE, 4), Fixed(Abs(y) % SCALE, 4);
    RenderTail(x);
    RenderTail(y);
    CloseLeads(x, y);
    RenderInjective(x, y);
    FixedDigits(Abs(x) % SCALE, 4);
    FixedDigits(Abs(y) % SCALE, 4);
    TailSeen(u, Lead(x), s, t, v);
  }

  lemma Regroup(u: string, a: string, b: string, v: string)
    ensures u + (a + "@" + b) + v == u + a + ("@" + b + v) == (u + a + "@") + b + v
  {
  }

  lemma PriceError(u: string, l: Level, wrong: int, v: string)
    requires CloseFigures(l.price, wrong)
    ensures Sum(u + RenderLevel(l) + v) == Sum(u + RenderLevel(l.(price := wrong)) + v) <==>
      l.price == wrong
  {
    var b := Render(l.qty);
    Regroup(u, Render(l.price), b, v);
    Regroup(u, Render(wrong), b, v);
    TailError(u, l.price, wrong, "@" + b + v);
  }

  lemma QtyError(u: string, l: Level, wrong: int, v: string)
    requires CloseFigures(l.qty, wrong)
    ensures Sum(u + RenderLevel(l) + v) == Sum(u + RenderLevel(l.(qty := wrong)) + v) <==>
      l.qty == wrong
  {
    var a := Render(l.price);
    Regroup(u, a, Render(l.qty), v);
    Regroup(u, a, Render(wrong), v);
    TailError(u + a + "@", l.qty, wrong, v);
  }

  function FigureOf(l: Level, inPrice: bool): int { if inPrice then l.price else l.qty }

  function WithFigure(l: Level, inPrice: bool, x: int): Level {
    if inPrice then l.(price := x) else l.(qty := x)
  }

  /** The levels with one figure of the `i`-th replaced. */
  function Altered(levels: seq<Level>, i: nat, inPrice: bool, x: int): seq<Level>
    requires i < |levels|
  {
    levels[i := WithFigure(levels[i], inPrice, x)]
  }

  lemma WrongText(levels: seq<Level>, i: nat, wrong: int, inPrice: bool)
    requires i < |levels| && CloseFigures(FigureOf(levels[i], inPrice), wrong)
    ensures Sum(Text(levels)) == Sum(Text(Altered(levels, i, inPrice, wrong))) <==>
      FigureOf(levels[i], inPrice) == wrong
  {
    var u, v := Before(Parts(levels), i), After(Parts(levels), i);
    assert levels[i := levels[i]] == levels;
    TextWithLevel(levels, i, levels[i]);
    TextWithLevel(levels, i, WithFigure(levels[i], inPrice, wrong));
    if inPrice {
      PriceError(u, levels[i], wrong, v);
    } else {
      QtyError(u, levels[i], wrong, v);
    }
  }

  /** A price or a quantity at any of the levels that is wrong, as printed, from the sixth
      decimal on leaves the checksum as it was if and only if it is printed as the right one. */
  lemma WrongFigureExactly(levels: seq<Level>, i: nat, wrong: int, inPrice: bool)
    requires i < |levels|
    ensures CloseFigures(Shown(FigureOf(levels[i], inPrice)), Shown(wrong)) ==>
      (Crc32.Checksum(Payload(levels)) == Crc32.Checksum(Payload(Altered(levels, i, inPrice, wrong))) <==>
       Shown(FigureOf(levels[i], inPrice)) == Shown(wrong))
  {
    if CloseFigures(Shown(FigureOf(levels[i], inPrice)), Shown(wrong)) {
      var shown := ShownLevels(levels);
      assert ShownLevels(Altered(levels, i, inPrice, wrong)) == Altered(shown, i, inPrice, Shown(wrong));
      WrongText(shown, i, Shown(wrong), inPrice);
    }
  }

  /** Every such error in a figure changes the checksum if and only if no other figure is
      printed like it. */
  lemma WrongFigureDetected(levels: seq<Level>, i: nat, inPrice: bool)
    requires i < |levels|
    ensures ToldApart(FigureOf(levels[i], inPrice)) <==>
      forall wrong :: wrong != FigureOf(levels[i], inPrice) ==>
        CloseFigures(Shown(FigureOf(levels[i], inPrice)), Shown(wrong)) ==>
        Crc32.Checksum(Payload(levels)) != Crc32.Checksum(Payload(Altered(levels, i, inPrice, wrong)))
  {
    var x := FigureOf(levels[i], inPrice);
    ToldApartExactly(x);
    forall wrong | CloseFigures(Shown(x), Shown(wrong))
      ensures Crc32.Checksum(Payload(levels)) == Crc32.Checksum(Payload(Altered(levels, i, inPrice, wrong))) <==>
        Shown(x) == Shown(wrong)
    {
      WrongFigureExactly(levels, i, wrong, inPrice);
    }
    if !ToldApart(x) {
      var y := if Shown(x - 1) == Shown(x) then x - 1 else x + 1;
      assert CloseFigures(Shown(x), Shown(y));
    }
  }
}
