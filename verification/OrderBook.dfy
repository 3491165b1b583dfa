/** The L2 order book of the Rust core: two price-ordered sides driven by snapshots and
    deltas.

    A side is kept as the ordered tree keeps it, as levels in ascending price. What it holds
    is characterised price by price, from the last update that mentions the price. */
module OrderBook {
  import opened Options

  datatype Level = Level(price: int, qty: int)

  /** A level as received: a field is absent when its text does not parse. */
  datatype RawLevel = RawLevel(price: Option<int>, qty: Option<int>)

  // ----- One side as an ordered map -------------------------------------------------

  predicate Ascending(s: seq<Level>) {
    forall i, j :: 0 <= i < j < |s| ==> s[i].price < s[j].price
  }

  type Side = s: seq<Level> | Ascending(s)

  function Lookup(s: Side, p: int): Option<int> {
    if s == [] then None else if s[0].price == p then Some(s[0].qty) else Lookup(s[1..], p)
  }

  lemma ConsAscending(l: Level, s: Side)
    requires s != [] ==> l.price < s[0].price
    ensures Ascending([l] + s)
  {
  }

  function Put(s: Side, p: int, q: int): (r: Side)
    ensures r != [] && r[0].price == if s == [] || p < s[0].price then p else s[0].price
  {
    if s == [] then [Level(p, q)]
    else if p < s[0].price then
      ConsAscending(Level(p, q), s);
      [Level(p, q)] + s
    else if p == s[0].price then
      ConsAscending(Level(p, q), s[1..]);
      [Level(p, q)] + s[1..]
    else
      var rest := Put(s[1..], p, q);
      ConsAscending(s[0], rest);
      [s[0]] + rest
  }

  function Drop(s: Side, p: int): (r: Side)
    ensures s == [] ==> r == []
    ensures r != [] ==> r[0].price >= s[0].price
  {
    if s == [] then []
    else if p == s[0].price then s[1..]
    else
      var rest := Drop(s[1..], p);
      ConsAscending(s[0], rest);
      [s[0]] + rest
  }

  lemma {:induction false} AbsentBelow(s: Side, p: int)
    requires forall l :: l in s ==> p < l.price
    ensures Lookup(s, p) == None
  {
    if s != [] {
      assert s[0] in s;
      AbsentBelow(s[1..], p);
    }
  }

  lemma {:induction false} PutLookup(s: Side, p: int, q: int, x: int)
    ensures Lookup(Put(s, p, q), x) == if x == p then Some(q) else Lookup(s, x)
  {
    if s == [] || p < s[0].price {
      assert Put(s, p, q)[1..] == s;
    } else if p == s[0].price {
      assert Put(s, p, q)[1..] == s[1..];
    } else {
      assert Put(s, p, q)[1..] == Put(s[1..], p, q);
      PutLookup(s[1..], p, q, x);
    }
  }

  lemma {:induction false} DropLookup(s: Side, p: int, x: int)
    ensures Lookup(Drop(s, p), x) == if x == p then None else Lookup(s, x)
  {
    if s != [] {
      if p == s[0].price {
        if x == p { AbsentBelow(s[1..], p); }
      } else {
        assert Drop(s, p)[1..] == Drop(s[1..], p);
        DropLookup(s[1..], p, x);
      }
    }
  }

  lemma {:induction false} LookupIsMembership(s: Side, l: Level)
    ensures l in s <==> Lookup(s, l.price) == Some(l.qty)
  {
    if s != [] {
      LookupIsMembership(s[1..], l);
      assert l in s <==> l == s[0] || l in s[1..];
      if s[0].price == l.price { AbsentBelow(s[1..], l.price); }
    }
  }

  /** A side is determined by what it answers at each price. */
  lemma {:induction false} SideExtensional(s: Side, t: Side)
    requires forall p :: Lookup(s, p) == Lookup(t, p)
    ensures s == t
  {
    assert s != [] ==> Lookup(t, s[0].price) == Some(s[0].qty);
    assert t != [] ==> Lookup(s, t[0].price) == Some(t[0].qty);
    if s != [] && t != [] {
      LookupIsMembership(s, t[0]);
      LookupIsMembership(t, s[0]);
      assert s[0] == t[0];
      forall p ensures Lookup(s[1..], p) == Lookup(t[1..], p) {
        assert Lookup(s, p) == Lookup(t, p);
        if p == s[0].price {
          AbsentBelow(s[1..], p);
          AbsentBelow(t[1..], p);
        }
      }
      SideExtensional(s[1..], t[1..]);
    }
  }

  // ----- Snapshots and deltas on one side -------------------------------------------

  function Delta(s: Side, l: Level): Side {
    if l.qty == 0 then Drop(s, l.price) else Put(s, l.price, l.qty)
  }

  /** A delta, level by level in the order received. */
  function DeltaAll(s: Side, updates: seq<Level>): Side {
    if updates == [] then s else Delta(DeltaAll(s, updates[..|updates| - 1]), updates[|updates| - 1])
  }

  /** A snapshot keeps only levels of positive quantity. */
  function Keep(s: Side, l: Level): Side {
    if l.qty > 0 then Put(s, l.price, l.qty) else s
  }

  function SnapshotAll(updates: seq<Level>): Side {
    if updates == [] then [] else Keep(SnapshotAll(updates[..|updates| - 1]), updates[|updates| - 1])
  }

  /** The quantity in the last update that names price `p`. */
  function LastWrite(updates: seq<Level>, p: int): Option<int> {
    if updates == [] then None
    else if updates[|updates| - 1].price == p then Some(updates[|updates| - 1].qty)
    else LastWrite(updates[..|updates| - 1], p)
  }

  function PositiveOnly(updates: seq<Level>): seq<Level> {
    if updates == [] then []
    else
      var rest, l := PositiveOnly(updates[..|updates| - 1]), updates[|updates| - 1];
      if l.qty > 0 then rest + [l] else rest
  }

  /** After a delta, a price the delta does not name keeps its quantity; any other price has
      the quantity of its last update, zero meaning no level. */
  lemma {:induction false} DeltaIsLastWriteWins(s: Side, updates: seq<Level>, p: int)
    ensures Lookup(DeltaAll(s, updates), p) ==
      match LastWrite(updates, p)
      case None => Lookup(s, p)
      case Some(q) => if q == 0 then None else Some(q)
  {
    if updates != [] {
      var init, l := updates[..|updates| - 1], updates[|updates| - 1];
      DeltaIsLastWriteWins(s, init, p);
      PutLookup(DeltaAll(s, init), l.price, l.qty, p);
      DropLookup(DeltaAll(s, init), l.price, p);
    }
  }

  lemma {:induction false} SnapshotIsPositiveDelta(updates: seq<Level>)
    ensures SnapshotAll(updates) == DeltaAll([], PositiveOnly(updates))
  {
    if updates != [] {
      var init, l := updates[..|updates| - 1], updates[|updates| - 1];
      SnapshotIsPositiveDelta(init);
      if l.qty > 0 {
        assert PositiveOnly(updates)[..|PositiveOnly(init)|] == PositiveOnly(init);
      }
    }
  }

  lemma {:induction false} DeltaSplit(s: Side, first: seq<Level>, second: seq<Level>)
    ensures DeltaAll(s, first + second) == DeltaAll(DeltaAll(s, first), second)
  {
    if second == [] {
      assert first + second == first;
    } else {
      var init, l := second[..|second| - 1], second[|second| - 1];
      DeltaSplit(s, first, init);
      assert (first + second)[..|first + second| - 1] == first + init;
    }
  }

  /** Receiving a delta a second time changes nothing. */
  lemma DeltaIdempotent(s: Side, updates: seq<Level>)
    ensures DeltaAll(DeltaAll(s, updates), updates) == DeltaAll(s, updates)
  {
    forall p ensures Lookup(DeltaAll(DeltaAll(s, updates), updates), p) == Lookup(DeltaAll(s, updates), p) {
      DeltaIsLastWriteWins(s, updates, p);
      DeltaIsLastWriteWins(DeltaAll(s, updates), updates, p);
    }
    SideExtensional(DeltaAll(DeltaAll(s, updates), updates), DeltaAll(s, updates));
  }

  // ----- Positive quantities --------------------------------------------------------

  ghost predicate AllPositive(s: Side) {
    forall l :: l in s ==> l.qty > 0
  }

  ghost predicate PositiveAnswers(s: Side) {
    forall p :: Lookup(s, p).Some? ==> Lookup(s, p).value > 0
  }

  lemma AllPositiveByLookup(s: Side)
    ensures AllPositive(s) <==> PositiveAnswers(s)
  {
    if AllPositive(s) {
      forall p | Lookup(s, p).Some? ensures Lookup(s, p).value > 0 {
        LookupIsMembership(s, Level(p, Lookup(s, p).value));
      }
    }
    if PositiveAnswers(s) {
      forall l | l in s ensures l.qty > 0 {
        LookupIsMembership(s, l);
      }
    }
  }

  lemma SnapshotPositive(updates: seq<Level>)
    ensures AllPositive(SnapshotAll(updates))
  {
    forall p ensures var a := Lookup(SnapshotAll(updates), p); a.Some? ==> a.value > 0 {
      SnapshotIsPositiveDelta(updates);
      DeltaIsLastWriteWins([], PositiveOnly(updates), p);
      LastPositiveWrite(updates, p);
    }
    AllPositiveByLookup(SnapshotAll(updates));
  }

  lemma {:induction false} LastPositiveWrite(updates: seq<Level>, p: int)
    ensures var w := LastWrite(PositiveOnly(updates), p); w.Some? ==> w.value > 0
  {
    if updates != [] {
      var init, l := updates[..|updates| - 1], updates[|updates| - 1];
      LastPositiveWrite(init, p);
      if l.qty > 0 {
        assert PositiveOnly(updates)[..|PositiveOnly(init)|] == PositiveOnly(init);
      }
    }
  }

  /** The delta's final word on some price is a negative quantity. */
  ghost predicate EndsNegative(updates: seq<Level>) {
    exists p :: LastWrite(updates, p).Some? && LastWrite(updates, p).value < 0
  }

  /** A delta inserts negative quantities: it keeps a side positive exactly when its last
      update of no price is negative. */
  lemma DeltaPositiveExactly(s: Side, updates: seq<Level>)
    requires AllPositive(s)
    ensures AllPositive(DeltaAll(s, updates)) <==> !EndsNegative(updates)
  {
    var t := DeltaAll(s, updates);
    AllPositiveByLookup(s);
    AllPositiveByLookup(t);
    if !EndsNegative(updates) {
      forall p | Lookup(t, p).Some? ensures Lookup(t, p).value > 0 {
        DeltaIsLastWriteWins(s, updates, p);
        assert LastWrite(updates, p).Some? ==> !(LastWrite(updates, p).value < 0);
      }
    } else {
      var p :| LastWrite(updates, p).Some? && LastWrite(updates, p).value < 0;
      DeltaIsLastWriteWins(s, updates, p);
    }
  }

  /** A single update is enough to store a negative quantity. */
  lemma NegativeDeltaStored()
    ensures DeltaAll([], [Level(100, -1)]) == [Level(100, -1)]
    ensures !AllPositive(DeltaAll([], [Level(100, -1)]))
  {
    var updates := [Level(100, -1)];
    assert updates[..0] == [];
    assert DeltaAll([], updates)[0] == Level(100, -1);
  }

  // ----- Whole histories ------------------------------------------------------------

  datatype Event =
    | Snapshot(bids: seq<Level>, asks: seq<Level>)
    | Increment(bids: seq<Level>, asks: seq<Level>)

  function SideOf(e: Event, isBid: bool): seq<Level> { if isBid then e.bids else e.asks }

  /** One side of the book after a history that starts from the empty book. */
  function Replay(history: seq<Event>, isBid: bool): Side {
    if history == [] then []
    else
      var before, e := Replay(history[..|history| - 1], isBid), history[|history| - 1];
      match e
      case Snapshot(_, _) => SnapshotAll(SideOf(e, isBid))
      case Increment(_, _) => DeltaAll(before, SideOf(e, isBid))
  }

  lemma ReplayNext(history: seq<Event>, e: Event, isBid: bool)
    ensures Replay(history + [e], isBid) ==
      if e.Snapshot? then SnapshotAll(SideOf(e, isBid)) else DeltaAll(Replay(history, isBid), SideOf(e, isBid))
  {
    assert (history + [e])[..|history|] == history;
  }

  /** The updates in force: those since the last snapshot, which itself counts only with its
      positive levels. */
  function InForce(history: seq<Event>, isBid: bool): seq<Level> {
    if history == [] then []
    else
      var before, e := InForce(history[..|history| - 1], isBid), history[|history| - 1];
      match e
      case Snapshot(_, _) => PositiveOnly(SideOf(e, isBid))
      case Increment(_, _) => before + SideOf(e, isBid)
  }

  lemma {:induction false} ReplayIsOneDelta(history: seq<Event>, isBid: bool)
    ensures Replay(history, isBid) == DeltaAll([], InForce(history, isBid))
  {
    if history != [] {
      var init, e := history[..|history| - 1], history[|history| - 1];
      ReplayIsOneDelta(init, isBid);
      SnapshotIsPositiveDelta(SideOf(e, isBid));
      DeltaSplit([], InForce(init, isBid), SideOf(e, isBid));
    }
  }

  /** Whatever the history, the book answers each price with the last update in force. */
  lemma HistoryIsLastWriteWins(history: seq<Event>, isBid: bool, p: int)
    ensures Lookup(Replay(history, isBid), p) ==
      match LastWrite(InForce(history, isBid), p)
      case None => None
      case Some(q) => if q == 0 then None else Some(q)
  {
    ReplayIsOneDelta(history, isBid);
    DeltaIsLastWriteWins([], InForce(history, isBid), p);
  }

  /** Splitting a delta into two consecutive deltas changes nothing, whatever came before. */
  lemma SplittingIsInvisible(history: seq<Event>, b1: seq<Level>, a1: seq<Level>, b2: seq<Level>, a2: seq<Level>,
                             isBid: bool)
    ensures Replay(history + [Increment(b1 + b2, a1 + a2)], isBid)
         == Replay(history + [Increment(b1, a1), Increment(b2, a2)], isBid)
  {
    var one, two := Increment(b1, a1), Increment(b2, a2);
    assert (history + [Increment(b1 + b2, a1 + a2)])[..|history|] == history;
    assert (history + [one, two])[..|history| + 1] == history + [one];
    assert (history + [one])[..|history|] == history;
    DeltaSplit(Replay(history, isBid), SideOf(one, isBid), SideOf(two, isBid));
  }

  /** After any history every stored quantity is positive if and only if the last update in
      force of no price is negative. */
  lemma HistoryPositiveExactly(history: seq<Event>, isBid: bool)
    ensures AllPositive(Replay(history, isBid)) <==> !EndsNegative(InForce(history, isBid))
  {
    ReplayIsOneDelta(history, isBid);
    DeltaPositiveExactly([], InForce(history, isBid));
  }

  /** With no negative quantity in any delta, every stored quantity is positive. */
  lemma {:induction false} HistoryPositive(history: seq<Event>, isBid: bool)
    requires forall i :: 0 <= i < |history| && history[i].Increment? ==>
      forall l :: l in SideOf(history[i], isBid) ==> l.qty >= 0
    ensures AllPositive(Replay(history, isBid))
  {
    if history != [] {
      var init, e := history[..|history| - 1], history[|history| - 1];
      HistoryPositive(init, isBid);
      match e {
        case Snapshot(_, _) =>
          SnapshotPositive(SideOf(e, isBid));
        case Increment(_, _) =>
          DeltaPositiveExactly(Replay(init, isBid), SideOf(e, isBid));
          forall p ensures var w := LastWrite(SideOf(e, isBid), p); w.Some? ==> w.value >= 0 {
            LastWriteIsListed(SideOf(e, isBid), p);
          }
      }
    }
  }

  lemma {:induction false} LastWriteIsListed(updates: seq<Level>, p: int)
    ensures var w := LastWrite(updates, p); w.Some? ==> Level(p, w.value) in updates
  {
    if updates != [] {
      LastWriteIsListed(updates[..|updates| - 1], p);
    }
  }

  // ----- Best prices and the depth-weighted mid -------------------------------------

  function ToF64(x: int): real { x as real / 1_000_000_000.0 }

  function BestBid(s: Side): Option<int> { if s == [] then None else Some(s[|s| - 1].price) }

  function BestAsk(s: Side): Option<int> { if s == [] then None else Some(s[0].price) }

  /** The best prices are the extreme prices that answer with a quantity. */
  lemma BestAreExtreme(s: Side, p: int)
    requires Lookup(s, p).Some?
    ensures BestAsk(s).Some? && BestBid(s).Some? && BestAsk(s).value <= p <= BestBid(s).value
    ensures Lookup(s, BestAsk(s).value).Some? && Lookup(s, BestBid(s).value).Some?
  {
    var l := Level(p, Lookup(s, p).value);
    LookupIsMembership(s, l);
    LookupIsMembership(s, s[0]);
    LookupIsMembership(s, s[|s| - 1]);
  }

  /** The best `depth` levels, best first: from the high end for bids, the low end for asks. */
  function TopBids(s: Side, depth: nat): (r: seq<Level>)
    ensures |r| == if depth < |s| then depth else |s|
  {
    seq(if depth < |s| then depth else |s|, i requires 0 <= i < |s| => s[|s| - 1 - i])
  }

  function TopAsks(s: Side, depth: nat): (r: seq<Level>)
    ensures |r| == if depth < |s| then depth else |s|
  {
    s[..if depth < |s| then depth else |s|]
  }

  function TotalQty(levels: seq<Level>): real {
    if levels == [] then 0.0 else TotalQty(levels[..|levels| - 1]) + ToF64(levels[|levels| - 1].qty)
  }

  function TotalNotional(levels: seq<Level>): real {
    if levels == [] then 0.0
    else
      var l := levels[|levels| - 1];
      TotalNotional(levels[..|levels| - 1]) + ToF64(l.price) * ToF64(l.qty)
  }

  function Vwap(levels: seq<Level>): real
    requires TotalQty(levels) != 0.0
  {
    TotalNotional(levels) / TotalQty(levels)
  }

  /** None stands for the ValueError raised on an empty or zero-quantity side. */
  function DepthWeightedMid(bids: Side, asks: Side, depth: nat): Option<real> {
    var b, a := TopBids(bids, depth), TopAsks(asks, depth);
    if b == [] || a == [] then None
    else if TotalQty(b) == 0.0 || TotalQty(a) == 0.0 then None
    else Some((Vwap(b) + Vwap(a)) / 2.0)
  }

  predicate PricedWithin(l: Level, lo: real, hi: real) {
    l.qty > 0 && lo <= ToF64(l.price) <= hi
  }

  predicate Between(lo: real, hi: real, n: real, q: real) {
    lo * q <= n <= hi * q
  }

  lemma {:induction false} NotionalBetween(levels: seq<Level>, lo: real, hi: real)
    requires levels != []
    requires forall i :: 0 <= i < |levels| ==> PricedWithin(levels[i], lo, hi)
    ensures TotalQty(levels) > 0.0
    ensures Between(lo, hi, TotalNotional(levels), TotalQty(levels))
  {
    var init, l := levels[..|levels| - 1], levels[|levels| - 1];
    if init != [] {
      NotionalBetween(init, lo, hi);
    }
    OneMoreBetween(lo, hi, TotalNotional(init), TotalQty(init), ToF64(l.price), ToF64(l.qty));
  }

  lemma OneMoreBetween(lo: real, hi: real, n: real, q: real, p: real, x: real)
    requires Between(lo, hi, n, q) && lo <= p <= hi && x > 0.0
    ensures Between(lo, hi, n + p * x, q + x)
  {
    Scaled(lo, hi, p, x);
    Distribute(lo, q, x);
    Distribute(hi, q, x);
  }

  lemma Scaled(lo: real, hi: real, p: real, q: real)
    requires lo <= p <= hi && q > 0.0
    ensures lo * q <= p * q <= hi * q
  {
  }

  lemma Distribute(k: real, x: real, y: real)
    ensures k * (x + y) == k * x + k * y
  {
  }

  lemma QuotientBetween(lo: real, hi: real, n: real, q: real)
    requires q > 0.0 && Between(lo, hi, n, q)
    ensures lo <= n / q <= hi
  {
  }

  /** The volume-weighted price of positive levels lies between their extreme prices. */
  lemma VwapBetween(levels: seq<Level>, lo: real, hi: real)
    requires levels != []
    requires forall i :: 0 <= i < |levels| ==> PricedWithin(levels[i], lo, hi)
    ensures TotalQty(levels) > 0.0 && lo <= Vwap(levels) <= hi
  {
    NotionalBetween(levels, lo, hi);
    QuotientBetween(lo, hi, TotalNotional(levels), TotalQty(levels));
  }

  lemma ToF64Monotone(x: int, y: int)
    ensures x < y <==> ToF64(x) < ToF64(y)
  {
  }

  lemma TopBidsBetween(s: Side, depth: nat)
    requires AllPositive(s) && s != [] && depth >= 1
    ensures var b := TopBids(s, depth);
      TotalQty(b) > 0.0 && ToF64(b[|b| - 1].price) <= Vwap(b) <= ToF64(BestBid(s).value)
  {
    var b := TopBids(s, depth);
    forall i | 0 <= i < |b|
      ensures PricedWithin(b[i], ToF64(b[|b| - 1].price), ToF64(BestBid(s).value))
    {
      assert b[i] in s;
      ToF64Monotone(b[i].price, b[|b| - 1].price);
      ToF64Monotone(BestBid(s).value, b[i].price);
    }
    VwapBetween(b, ToF64(b[|b| - 1].price), ToF64(BestBid(s).value));
  }

  lemma TopAsksBetween(s: Side, depth: nat)
    requires AllPositive(s) && s != [] && depth >= 1
    ensures var a := TopAsks(s, depth);
      TotalQty(a) > 0.0 && ToF64(BestAsk(s).value) <= Vwap(a) <= ToF64(a[|a| - 1].price)
  {
    var a := TopAsks(s, depth);
    forall i | 0 <= i < |a|
      ensures PricedWithin(a[i], ToF64(BestAsk(s).value), ToF64(a[|a| - 1].price))
    {
      assert a[i] in s;
      ToF64Monotone(a[|a| - 1].price, a[i].price);
      ToF64Monotone(a[i].price, BestAsk(s).value);
    }
    VwapBetween(a, ToF64(BestAsk(s).value), ToF64(a[|a| - 1].price));
  }

  /** On an uncrossed book of positive quantities the mid exists and lies strictly between
      the deepest bid and the deepest ask used; at depth one it is the arithmetic mid. */
  lemma MidInsideBook(bids: Side, asks: Side, depth: nat)
    requires AllPositive(bids) && AllPositive(asks) && bids != [] && asks != [] && depth >= 1
    requires BestBid(bids).value < BestAsk(asks).value
    ensures DepthWeightedMid(bids, asks, depth).Some?
    ensures var b, a, mid := TopBids(bids, depth), TopAsks(asks, depth), DepthWeightedMid(bids, asks, depth).value;
      ToF64(b[|b| - 1].price) < mid < ToF64(a[|a| - 1].price)
    ensures depth == 1 ==>
      DepthWeightedMid(bids, asks, depth).value == (ToF64(BestBid(bids).value) + ToF64(BestAsk(asks).value)) / 2.0
  {
    TopBidsBetween(bids, depth);
    TopAsksBetween(asks, depth);
    ToF64Monotone(BestBid(bids).value, BestAsk(asks).value);
  }

  lemma Dilution(n: real, q: real, p: real, x: real)
    requires q > 0.0 && x > 0.0
    ensures p * q <= n ==> (n + p * x) / (q + x) <= n / q
    ensures n <= p * q ==> n / q <= (n + p * x) / (q + x)
  {
    var v := n / q;
    assert v * q == n;
    Distribute(v, q, x);
    if p * q <= n {
      QuotientBetween(p, v, n, q);
      Scaled(p, v, p, x);
      QuotientBetween((n + p * x) / (q + x), v, n + p * x, q + x);
    }
    if n <= p * q {
      QuotientBetween(v, p, n, q);
      Scaled(v, p, p, x);
      QuotientBetween(v, (n + p * x) / (q + x), n + p * x, q + x);
    }
  }

  lemma AppendedAverage(levels: seq<Level>, l: Level)
    requires TotalQty(levels) > 0.0 && l.qty > 0
    ensures TotalQty(levels + [l]) > 0.0
    ensures ToF64(l.price) <= Vwap(levels) ==> Vwap(levels + [l]) <= Vwap(levels)
    ensures Vwap(levels) <= ToF64(l.price) ==> Vwap(levels) <= Vwap(levels + [l])
  {
    assert (levels + [l])[..|levels|] == levels;
    AverageTimesQty(ToF64(l.price), TotalNotional(levels), TotalQty(levels));
    Dilution(TotalNotional(levels), TotalQty(levels), ToF64(l.price), ToF64(l.qty));
  }

  /** Looking one level deeper never raises the bid average and never lowers the ask one. */
  lemma DeeperIsWorse(s: Side, depth: nat)
    requires AllPositive(s) && 1 <= depth < |s|
    ensures TotalQty(TopBids(s, depth)) > 0.0 && TotalQty(TopBids(s, depth + 1)) > 0.0
    ensures Vwap(TopBids(s, depth + 1)) <= Vwap(TopBids(s, depth))
    ensures TotalQty(TopAsks(s, depth)) > 0.0 && TotalQty(TopAsks(s, depth + 1)) > 0.0
    ensures Vwap(TopAsks(s, depth)) <= Vwap(TopAsks(s, depth + 1))
  {
    var b, a := TopBids(s, depth), TopAsks(s, depth);
    var lb, la := s[|s| - 1 - depth], s[depth];
    assert TopBids(s, depth + 1) == b + [lb] && TopAsks(s, depth + 1) == a + [la];
    assert lb in s && la in s;
    TopBidsBetween(s, depth);
    TopAsksBetween(s, depth);
    ToF64Monotone(lb.price, b[depth - 1].price);
    ToF64Monotone(a[depth - 1].price, la.price);
    AppendedAverage(b, lb);
    AppendedAverage(a, la);
  }

  lemma AverageTimesQty(p: real, n: real, q: real)
    requires q > 0.0
    ensures p <= n / q ==> p * q <= n
    ensures n / q <= p ==> n <= p * q
  {
    var v := n / q;
    assert v * q == n;
  }

  // ----- The mid as a centre of mass ------------------------------------------------

  /** The moment about price `x` of the `n` best levels, in raw units. */
  function BidMoment(s: Side, n: nat, x: real): real
    requires n <= |s|
  {
    if n == 0 then 0.0
    else
      var l := s[|s| - n];
      BidMoment(s, n - 1, x) + l.qty as real * (l.price as real - 1_000_000_000.0 * x)
  }

  function AskMoment(s: Side, n: nat, x: real): real
    requires n <= |s|
  {
    if n == 0 then 0.0
    else
      var l := s[n - 1];
      AskMoment(s, n - 1, x) + l.qty as real * (l.price as real - 1_000_000_000.0 * x)
  }

  /** The quantity of the `n` best levels, in raw units. */
  function BidVolume(s: Side, n: nat): int
    requires n <= |s|
  {
    if n == 0 then 0 else BidVolume(s, n - 1) + s[|s| - n].qty
  }

  function AskVolume(s: Side, n: nat): int
    requires n <= |s|
  {
    if n == 0 then 0 else AskVolume(s, n - 1) + s[n - 1].qty
  }

  /** Raw volume and moment agree with the sums in units. */
  ghost predicate Weighs(levels: seq<Level>, volume: int, moment: real, x: real) {
    && volume as real == 1_000_000_000.0 * TotalQty(levels)
    && moment == 1_000_000_000.0 * 1_000_000_000.0 * (TotalNotional(levels) - x * TotalQty(levels))
  }

  lemma WeighsNext(levels: seq<Level>, l: Level, volume: int, moment: real, x: real)
    requires Weighs(levels, volume, moment, x)
    ensures Weighs(levels + [l], volume + l.qty, moment + l.qty as real * (l.price as real - 1_000_000_000.0 * x), x)
  {
    assert (levels + [l])[..|levels|] == levels;
    var p, q, g := ToF64(l.price), ToF64(l.qty), 1_000_000_000.0;
    assert p * g == l.price as real && q * g == l.qty as real;
    MomentOfLevel(p, q, g, x, TotalNotional(levels), TotalQty(levels));
  }

  lemma MomentOfLevel(p: real, q: real, g: real, x: real, n: real, t: real)
    ensures g * g * (n - x * t) + q * g * (p * g - g * x) == g * g * (n + p * q - x * (t + q))
  {
    Distribute(x, t, q);
    assert q * g * (p * g - g * x) == g * g * (p * q - x * q);
    Distribute(g * g, n - x * t, p * q - x * q);
  }

  lemma TopBidNext(s: Side, n: nat)
    requires 0 < n <= |s|
    ensures TopBids(s, n) == TopBids(s, n - 1) + [s[|s| - n]]
  {
  }

  lemma {:induction false} BidsWeigh(s: Side, n: nat, x: real)
    requires n <= |s|
    ensures Weighs(TopBids(s, n), BidVolume(s, n), BidMoment(s, n, x), x)
  {
    if n > 0 {
      BidsWeigh(s, n - 1, x);
      WeighsNext(TopBids(s, n - 1), s[|s| - n], BidVolume(s, n - 1), BidMoment(s, n - 1, x), x);
      TopBidNext(s, n);
    }
  }

  lemma TopAskNext(s: Side, n: nat)
    requires 0 < n <= |s|
    ensures TopAsks(s, n) == TopAsks(s, n - 1) + [s[n - 1]]
  {
  }

  lemma {:induction false} AsksWeigh(s: Side, n: nat, x: real)
    requires n <= |s|
    ensures Weighs(TopAsks(s, n), AskVolume(s, n), AskMoment(s, n, x), x)
  {
    if n > 0 {
      AsksWeigh(s, n - 1, x);
      WeighsNext(TopAsks(s, n - 1), s[n - 1], AskVolume(s, n - 1), AskMoment(s, n - 1, x), x);
      TopAskNext(s, n);
    }
  }

  /** The moment vanishes about the average price alone. */
  lemma BalancedExactly(levels: seq<Level>, volume: int, moment: real, x: real)
    requires Weighs(levels, volume, moment, x)
    ensures volume == 0 <==> TotalQty(levels) == 0.0
    ensures volume != 0 ==> (moment == 0.0 <==> x == Vwap(levels))
  {
    var n, q := TotalNotional(levels), TotalQty(levels);
    if q != 0.0 {
      assert Vwap(levels) * q == n;
      assert (Vwap(levels) - x) * q == n - x * q;
      assert moment == 0.0 <==> n - x * q == 0.0;
    }
  }

  function Depth(s: Side, depth: nat): nat { if depth < |s| then depth else |s| }

  /** `x` balances the levels used of one side, `y` those of the other. */
  ghost predicate Balances(bids: Side, asks: Side, depth: nat, x: real, y: real) {
    BidMoment(bids, Depth(bids, depth), x) == 0.0 && AskMoment(asks, Depth(asks, depth), y) == 0.0
  }

  lemma BothBalance(bids: Side, asks: Side, depth: nat, x: real, y: real)
    requires BidVolume(bids, Depth(bids, depth)) != 0 && AskVolume(asks, Depth(asks, depth)) != 0
    ensures TotalQty(TopBids(bids, depth)) != 0.0 && TotalQty(TopAsks(asks, depth)) != 0.0
    ensures Balances(bids, asks, depth, x, y) <==>
      x == Vwap(TopBids(bids, depth)) && y == Vwap(TopAsks(asks, depth))
  {
    var b, a := Depth(bids, depth), Depth(asks, depth);
    assert TopBids(bids, depth) == TopBids(bids, b) && TopAsks(asks, depth) == TopAsks(asks, a);
    BidsWeigh(bids, b, x);
    AsksWeigh(asks, a, y);
    BalancedExactly(TopBids(bids, b), BidVolume(bids, b), BidMoment(bids, b, x), x);
    BalancedExactly(TopAsks(asks, a), AskVolume(asks, a), AskMoment(asks, a, y), y);
  }

  /** At every depth: there is no mid if and only if the quantities of one side's levels sum to
      zero, and otherwise it lies half way between the two prices that balance them. */
  lemma MidExactly(bids: Side, asks: Side, depth: nat, mid: real)
    ensures DepthWeightedMid(bids, asks, depth).None? <==>
      BidVolume(bids, Depth(bids, depth)) == 0 || AskVolume(asks, Depth(asks, depth)) == 0
    ensures DepthWeightedMid(bids, asks, depth).Some? ==>
      (DepthWeightedMid(bids, asks, depth).value == mid <==>
       exists x, y :: Balances(bids, asks, depth, x, y) && mid == (x + y) / 2.0)
  {
    var b, a := Depth(bids, depth), Depth(asks, depth);
    assert TopBids(bids, depth) == TopBids(bids, b) && TopAsks(asks, depth) == TopAsks(asks, a);
    BidsWeigh(bids, b, 0.0);
    AsksWeigh(asks, a, 0.0);
    BalancedExactly(TopBids(bids, b), BidVolume(bids, b), BidMoment(bids, b, 0.0), 0.0);
    BalancedExactly(TopAsks(asks, a), AskVolume(asks, a), AskMoment(asks, a, 0.0), 0.0);
    if DepthWeightedMid(bids, asks, depth).Some? {
      BothBalance(bids, asks, depth, Vwap(TopBids(bids, depth)), Vwap(TopAsks(asks, depth)));
      if x, y :| Balances(bids, asks, depth, x, y) && mid == (x + y) / 2.0 {
        BothBalance(bids, asks, depth, x, y);
      }
    }
  }

  // ----- The mutable book -----------------------------------------------------------

  predicate WellFormed(r: RawLevel) { r.price.Some? && r.qty.Some? }

  predicate AllWellFormed(raw: seq<RawLevel>) {
    forall i :: 0 <= i < |raw| ==> WellFormed(raw[i])
  }

  /** The levels in front of the first malformed one. */
  function Parsed(raw: seq<RawLevel>): seq<Level> {
    if raw == [] || !WellFormed(raw[0]) then []
    else [Level(raw[0].price.value, raw[0].qty.value)] + Parsed(raw[1..])
  }

  lemma {:induction false} ParsedPrefix(raw: seq<RawLevel>, n: nat)
    requires n < |raw| && AllWellFormed(raw[..n])
    ensures |Parsed(raw[..n])| == n
    ensures WellFormed(raw[n]) ==>
      Parsed(raw[..n + 1]) == Parsed(raw[..n]) + [Level(raw[n].price.value, raw[n].qty.value)]
    ensures !WellFormed(raw[n]) ==> Parsed(raw) == Parsed(raw[..n])
  {
    if n != 0 {
      assert WellFormed(raw[..n][0]);
      assert raw[1..][..n - 1] == raw[..n][1..];
      ParsedPrefix(raw[1..], n - 1);
      assert raw[..n + 1][1..] == raw[1..][..n];
    }
  }

  /** Reading one more raw level either stops at it or extends the well-formed prefix. */
  lemma ReadStep(raw: seq<RawLevel>, n: nat)
    requires n < |raw| && AllWellFormed(raw[..n])
    ensures !WellFormed(raw[n]) ==> !AllWellFormed(raw) && Parsed(raw) == Parsed(raw[..n])
    ensures WellFormed(raw[n]) ==> AllWellFormed(raw[..n + 1])
  {
    ParsedPrefix(raw, n);
    assert forall i :: 0 <= i < n ==> raw[..n + 1][i] == raw[..n][i];
  }

  lemma SnapshotAppend(updates: seq<Level>, l: Level)
    ensures SnapshotAll(updates + [l]) == Keep(SnapshotAll(updates), l)
  {
    assert (updates + [l])[..|updates|] == updates;
  }

  lemma DeltaAppend(s: Side, updates: seq<Level>, l: Level)
    ensures DeltaAll(s, updates + [l]) == Delta(DeltaAll(s, updates), l)
  {
    assert (updates + [l])[..|updates|] == updates;
  }

  /** The first `n` raw levels parse, and as a snapshot they give `s`. */
  ghost predicate SnapshotRead(s: Side, raw: seq<RawLevel>, n: nat) {
    n <= |raw| && AllWellFormed(raw[..n]) && s == SnapshotAll(Parsed(raw[..n]))
  }

  lemma SnapshotNext(s: Side, raw: seq<RawLevel>, n: nat)
    requires n < |raw| && SnapshotRead(s, raw, n)
    ensures if WellFormed(raw[n]) then SnapshotRead(Keep(s, Level(raw[n].price.value, raw[n].qty.value)), raw, n + 1)
            else !AllWellFormed(raw) && s == SnapshotAll(Parsed(raw))
  {
    ReadStep(raw, n);
    ParsedPrefix(raw, n);
    if WellFormed(raw[n]) {
      SnapshotAppend(Parsed(raw[..n]), Level(raw[n].price.value, raw[n].qty.value));
    }
  }

  lemma SnapshotDone(s: Side, raw: seq<RawLevel>)
    requires SnapshotRead(s, raw, |raw|)
    ensures AllWellFormed(raw) && s == SnapshotAll(Parsed(raw))
  {
    assert raw[..|raw|] == raw;
  }

  /** The first `n` raw levels parse, and as a delta on `before` they give `s`. */
  ghost predicate DeltaRead(s: Side, before: Side, raw: seq<RawLevel>, n: nat) {
    n <= |raw| && AllWellFormed(raw[..n]) && s == DeltaAll(before, Parsed(raw[..n]))
  }

  lemma DeltaNext(s: Side, before: Side, raw: seq<RawLevel>, n: nat)
    requires n < |raw| && DeltaRead(s, before, raw, n)
    ensures if WellFormed(raw[n])
      then DeltaRead(Delta(s, Level(raw[n].price.value, raw[n].qty.value)), before, raw, n + 1)
            else !AllWellFormed(raw) && s == DeltaAll(before, Parsed(raw))
  {
    ReadStep(raw, n);
    ParsedPrefix(raw, n);
    if WellFormed(raw[n]) {
      DeltaAppend(before, Parsed(raw[..n]), Level(raw[n].price.value, raw[n].qty.value));
    }
  }

  lemma DeltaDone(s: Side, before: Side, raw: seq<RawLevel>)
    requires DeltaRead(s, before, raw, |raw|)
    ensures AllWellFormed(raw) && s == DeltaAll(before, Parsed(raw))
  {
    assert raw[..|raw|] == raw;
  }

  class Book {
    var bids: Side
    var asks: Side
    ghost var history: seq<Event>  // what was read of every update so far

    /** Both sides are what the history alone determines. */
    ghost predicate Valid()
      reads this
    {
      bids == Replay(history, true) && asks == Replay(history, false)
    }

    constructor ()
      ensures Valid() && bids == [] && asks == [] && history == []
    {
      bids, asks, history := [], [], [];
    }

    /** Notes an event whose effect both sides already show. */
    ghost method Record(e: Event)
      requires bids == if e.Snapshot? then SnapshotAll(e.bids) else DeltaAll(Replay(history, true), e.bids)
      requires asks == if e.Snapshot? then SnapshotAll(e.asks) else DeltaAll(Replay(history, false), e.asks)
      modifies this`history
      ensures Valid() && history == old(history) + [e]
    {
      ReplayNext(history, e, true);
      ReplayNext(history, e, false);
      history := history + [e];
    }

    /** Replaces the book. On a malformed level the levels read so far remain and the call
        reports an error. */
    method ApplySnapshot(newBids: seq<RawLevel>, newAsks: seq<RawLevel>) returns (ok: bool)
      requires Valid()
      modifies this
      ensures Valid()
      ensures history == old(history) +
        [Snapshot(Parsed(newBids), if AllWellFormed(newBids) then Parsed(newAsks) else [])]
      ensures ok <==> AllWellFormed(newBids) && AllWellFormed(newAsks)
      ensures bids == SnapshotAll(Parsed(newBids))
      ensures asks == if AllWellFormed(newBids) then SnapshotAll(Parsed(newAsks)) else []
    {
      ghost var e := Snapshot(Parsed(newBids), if AllWellFormed(newBids) then Parsed(newAsks) else []);
      bids, asks := [], [];
      for i := 0 to |newBids|
        invariant history == old(history) && SnapshotRead(bids, newBids, i) && asks == []
      {
        var r := newBids[i];
        SnapshotNext(bids, newBids, i);
        if !WellFormed(r) {
          Record(e);
          return false;
        }
        if r.qty.value > 0 {
          bids := Put(bids, r.price.value, r.qty.value);
        }
      }
      SnapshotDone(bids, newBids);
      for i := 0 to |newAsks|
        invariant history == old(history) && SnapshotRead(asks, newAsks, i) && bids == SnapshotAll(Parsed(newBids))
      {
        var r := newAsks[i];
        SnapshotNext(asks, newAsks, i);
        if !WellFormed(r) {
          Record(e);
          return false;
        }
        if r.qty.value > 0 {
          asks := Put(asks, r.price.value, r.qty.value);
        }
      }
      SnapshotDone(asks, newAsks);
      Record(e);
      return true;
    }

    /** Applies incremental updates; quantity zero removes the level. On a malformed level
        the updates read so far stay applied and the call reports an error. */
    method ApplyDelta(bidUpdates: seq<RawLevel>, askUpdates: seq<RawLevel>) returns (ok: bool)
      requires Valid()
      modifies this
      ensures Valid()
      ensures history == old(history) +
        [Increment(Parsed(bidUpdates), if AllWellFormed(bidUpdates) then Parsed(askUpdates) else [])]
      ensures ok <==> AllWellFormed(bidUpdates) && AllWellFormed(askUpdates)
      ensures bids == DeltaAll(old(bids), Parsed(bidUpdates))
      ensures asks == if AllWellFormed(bidUpdates) then DeltaAll(old(asks), Parsed(askUpdates)) else old(asks)
    {
      ghost var e := Increment(Parsed(bidUpdates), if AllWellFormed(bidUpdates) then Parsed(askUpdates) else []);
      for i := 0 to |bidUpdates|
        invariant history == old(history) && DeltaRead(bids, old(bids), bidUpdates, i) && asks == old(asks)
      {
        var r := bidUpdates[i];
        DeltaNext(bids, old(bids), bidUpdates, i);
        if !WellFormed(r) {
          Record(e);
          return false;
        }
        if r.qty.value == 0 {
          bids := Drop(bids, r.price.value);
        } else {
          bids := Put(bids, r.price.value, r.qty.value);
        }
      }
      DeltaDone(bids, old(bids), bidUpdates);
      for i := 0 to |askUpdates|
        invariant history == old(history) && DeltaRead(asks, old(asks), askUpdates, i)
        invariant bids == DeltaAll(old(bids), Parsed(bidUpdates))
      {
        var r := askUpdates[i];
        DeltaNext(asks, old(asks), askUpdates, i);
        if !WellFormed(r) {
          Record(e);
          return false;
        }
        if r.qty.value == 0 {
          asks := Drop(asks, r.price.value);
        } else {
          asks := Put(asks, r.price.value, r.qty.value);
        }
      }
      DeltaDone(asks, old(asks), askUpdates);
      Record(e);
      return true;
    }
  }
}
