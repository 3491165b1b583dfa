/** The spread calculator of the Rust core: the best cross-exchange spread of a list of
    quotes, and a cooldown that keeps one signal from being emitted over and over.

    The clock is adversarial: reading it for the i-th time yields `clock(i)`, and nothing is
    assumed about successive readings. */
module SpreadSignal {
  import opened Options
  import opened Reals

  datatype Quote = Quote(exchange: string, bid: real, ask: real)

  datatype Signal = Signal(buyExchange: string, sellExchange: string, buyPrice: real, sellPrice: real, spreadPct: real)

  // ----- Selecting the best bid and the best ask ------------------------------------

  /** The first of the highest positive bids. */
  ghost predicate IsBestBid(quotes: seq<Quote>, k: nat) {
    && k < |quotes| && quotes[k].bid > 0.0
    && (forall i :: 0 <= i < |quotes| ==> quotes[i].bid <= quotes[k].bid)
    && (forall i :: 0 <= i < k ==> quotes[i].bid < quotes[k].bid)
  }

  /** The first of the lowest positive asks. */
  ghost predicate IsBestAsk(quotes: seq<Quote>, k: nat) {
    && k < |quotes| && quotes[k].ask > 0.0
    && (forall i :: 0 <= i < |quotes| && quotes[i].ask > 0.0 ==> quotes[k].ask <= quotes[i].ask)
    && (forall i :: 0 <= i < k && quotes[i].ask > 0.0 ==> quotes[k].ask < quotes[i].ask)
  }

  function BestBid(quotes: seq<Quote>): (k: Option<nat>)
    ensures k.Some? ==> k.value < |quotes| && quotes[k.value].bid > 0.0
  {
    if quotes == [] then None
    else
      var n := |quotes| - 1;
      var k := BestBid(quotes[..n]);
      if quotes[n].bid > 0.0 && (k.None? || quotes[n].bid > quotes[k.value].bid) then Some(n) else k
  }

  function BestAsk(quotes: seq<Quote>): (k: Option<nat>)
    ensures k.Some? ==> k.value < |quotes| && quotes[k.value].ask > 0.0
  {
    if quotes == [] then None
    else
      var n := |quotes| - 1;
      var k := BestAsk(quotes[..n]);
      if quotes[n].ask > 0.0 && (k.None? || quotes[n].ask < quotes[k.value].ask) then Some(n) else k
  }

  lemma {:induction false} BestBidExactly(quotes: seq<Quote>)
    ensures forall k: nat :: BestBid(quotes) == Some(k) <==> IsBestBid(quotes, k)
    ensures BestBid(quotes) == None <==> forall i :: 0 <= i < |quotes| ==> quotes[i].bid <= 0.0
  {
    if quotes != [] {
      BestBidExactly(quotes[..|quotes| - 1]);
      var k := BestBid(quotes);
      assert k.Some? ==> IsBestBid(quotes, k.value);
    }
  }

  lemma {:induction false} BestAskExactly(quotes: seq<Quote>)
    ensures forall k: nat :: BestAsk(quotes) == Some(k) <==> IsBestAsk(quotes, k)
    ensures BestAsk(quotes) == None <==> forall i :: 0 <= i < |quotes| ==> quotes[i].ask <= 0.0
  {
    if quotes != [] {
      BestAskExactly(quotes[..|quotes| - 1]);
      var k := BestAsk(quotes);
      assert k.Some? ==> IsBestAsk(quotes, k.value);
    }
  }

  function Spread(bid: real, ask: real): real
    requires ask > 0.0
  {
    (bid - ask) / ask
  }

  /** The signal of a list of quotes, before any cooldown. */
  function Select(quotes: seq<Quote>, minEdge: real): Option<Signal> {
    var b, a := BestBid(quotes), BestAsk(quotes);
    if b.None? || a.None? then None
    else
      var sell, buy := quotes[b.value], quotes[a.value];
      if sell.exchange == "" || buy.exchange == "" || sell.exchange == buy.exchange then None
      else if sell.bid <= buy.ask then None
      else if Spread(sell.bid, buy.ask) < minEdge then None
      else Some(Signal(buy.exchange, sell.exchange, buy.ask, sell.bid, Spread(sell.bid, buy.ask)))
  }

  /** The running values of the scan describe the best bid so far. */
  ghost predicate BidScanned(quotes: seq<Quote>, bid: Option<real>, exchange: string) {
    match BestBid(quotes)
    case None => bid == None && exchange == ""
    case Some(k) => bid == Some(quotes[k].bid) && exchange == quotes[k].exchange
  }

  ghost predicate AskScanned(quotes: seq<Quote>, ask: Option<real>, exchange: string) {
    match BestAsk(quotes)
    case None => ask == None && exchange == ""
    case Some(k) => ask == Some(quotes[k].ask) && exchange == quotes[k].exchange
  }

  lemma BidScanStep(quotes: seq<Quote>, n: nat, bid: Option<real>, exchange: string)
    requires n < |quotes| && BidScanned(quotes[..n], bid, exchange)
    ensures if quotes[n].bid > 0.0 && (bid.None? || quotes[n].bid > bid.value)
            then BidScanned(quotes[..n + 1], Some(quotes[n].bid), quotes[n].exchange)
            else BidScanned(quotes[..n + 1], bid, exchange)
  {
    assert quotes[..n + 1][..n] == quotes[..n];
  }

  lemma AskScanStep(quotes: seq<Quote>, n: nat, ask: Option<real>, exchange: string)
    requires n < |quotes| && AskScanned(quotes[..n], ask, exchange)
    ensures if quotes[n].ask > 0.0 && (ask.None? || quotes[n].ask < ask.value)
            then AskScanned(quotes[..n + 1], Some(quotes[n].ask), quotes[n].exchange)
            else AskScanned(quotes[..n + 1], ask, exchange)
  {
    assert quotes[..n + 1][..n] == quotes[..n];
  }

  lemma SelectAfterScan(quotes: seq<Quote>, bid: Option<real>, bidExchange: string, ask: Option<real>,
                        askExchange: string, minEdge: real)
    requires BidScanned(quotes, bid, bidExchange) && AskScanned(quotes, ask, askExchange)
    ensures bidExchange != "" && askExchange != "" ==> bid.Some? && ask.Some? && ask.value > 0.0
    ensures Select(quotes, minEdge) ==
      if bidExchange == "" || askExchange == "" || bidExchange == askExchange then None
      else if bid.value <= ask.value || Spread(bid.value, ask.value) < minEdge then None
      else Some(Signal(askExchange, bidExchange, ask.value, bid.value, Spread(bid.value, ask.value)))
  {
  }

  method BestBidAskAcross(quotes: seq<Quote>, minEdge: real) returns (r: Option<Signal>)
    ensures r == Select(quotes, minEdge)
  {
    if |quotes| < 2 {
      ShortListsYieldNothing(quotes, minEdge);
      return None;
    }
    var bid, bidExchange := None, "";
    var ask, askExchange := None, "";
    for n := 0 to |quotes|
      invariant BidScanned(quotes[..n], bid, bidExchange)
      invariant AskScanned(quotes[..n], ask, askExchange)
    {
      BidScanStep(quotes, n, bid, bidExchange);
      AskScanStep(quotes, n, ask, askExchange);
      if quotes[n].bid > 0.0 && (bid.None? || quotes[n].bid > bid.value) {
        bid, bidExchange := Some(quotes[n].bid), quotes[n].exchange;
      }
      if quotes[n].ask > 0.0 && (ask.None? || quotes[n].ask < ask.value) {
        ask, askExchange := Some(quotes[n].ask), quotes[n].exchange;
      }
    }
    assert quotes[..|quotes|] == quotes;
    SelectAfterScan(quotes, bid, bidExchange, ask, askExchange, minEdge);
    if bidExchange == "" || askExchange == "" || bidExchange == askExchange {
      return None;
    }
    if bid.value <= ask.value {
      return None;
    }
    var pct := Spread(bid.value, ask.value);
    if pct < minEdge {
      return None;
    }
    return Some(Signal(askExchange, bidExchange, ask.value, bid.value, pct));
  }

  /** The length guard that only one of the two pipelines has is redundant. */
  lemma ShortListsYieldNothing(quotes: seq<Quote>, minEdge: real)
    requires |quotes| < 2
    ensures Select(quotes, minEdge) == None
  {
  }

  // ----- Does the selection find every arbitrage? -----------------------------------

  /** Buying at quote `i` and selling at quote `j` clears the edge across exchanges. */
  ghost predicate Arbitrage(quotes: seq<Quote>, i: nat, j: nat, minEdge: real) {
    && i < |quotes| && j < |quotes|
    && quotes[i].ask > 0.0 && quotes[j].bid > quotes[i].ask
    && quotes[i].exchange != quotes[j].exchange
    && Clears(quotes[j].bid, quotes[i].ask, minEdge)
  }

  /** The profit is at least so much of the price paid. */
  predicate Clears(bid: real, ask: real, edge: real) { bid - ask >= edge * ask }

  /** The profit is exactly so much of the price paid. */
  predicate IsSpread(pct: real, bid: real, ask: real) { pct * ask == bid - ask }

  lemma EdgeExactly(bid: real, ask: real, minEdge: real)
    requires ask > 0.0
    ensures Spread(bid, ask) >= minEdge <==> Clears(bid, ask, minEdge)
    ensures IsSpread(Spread(bid, ask), bid, ask)
  {
    var w := Spread(bid, ask);
    assert w * ask == bid - ask && (w - minEdge) * ask == w * ask - minEdge * ask;
    SignOfProduct(w - minEdge, ask);
  }

  lemma SpreadMonotone(bid: real, ask: real, higher: real, lower: real)
    requires 0.0 < lower <= ask && 0.0 < bid <= higher
    ensures Spread(bid, ask) <= Spread(higher, lower)
  {
    SpreadIsRatio(bid, ask);
    SpreadIsRatio(higher, lower);
    RatioMonotone(bid, ask, higher, lower);
  }

  lemma RatioMonotone(bid: real, ask: real, higher: real, lower: real)
    requires 0.0 < lower <= ask && 0.0 < bid <= higher
    ensures bid / ask <= higher / lower
  {
    var v := bid / ask;
    assert v * ask == bid && v > 0.0;
    assert v * lower <= v * ask;
    var w := higher / lower;
    assert w * lower == higher;
    assert (w - v) * lower == w * lower - v * lower;
    SignOfProduct(w - v, lower);
  }

  lemma SpreadIsRatio(bid: real, ask: real)
    requires ask > 0.0
    ensures Spread(bid, ask) == bid / ask - 1.0
  {
    var w, v := Spread(bid, ask), bid / ask;
    assert w * ask == bid - ask && v * ask == bid;
    assert (w + 1.0 - v) * ask == 0.0;
    SignOfProduct(w + 1.0 - v, ask);
    SignOfProduct(v - w - 1.0, ask);
  }

  lemma WiderClears(bid: real, ask: real, higher: real, lower: real, edge: real)
    requires 0.0 < lower <= ask && 0.0 < bid <= higher && Clears(bid, ask, edge)
    ensures Spread(bid, ask) <= Spread(higher, lower) && edge <= Spread(higher, lower)
  {
    SpreadMonotone(bid, ask, higher, lower);
    EdgeExactly(bid, ask, edge);
  }

  /** The signal is a real arbitrage between the best ask and the best bid, and its spread is the
      profit relative to the price paid. */
  lemma SignalIsBest(quotes: seq<Quote>, minEdge: real)
    requires Select(quotes, minEdge).Some?
    ensures BestAsk(quotes).Some? && BestBid(quotes).Some?
    ensures var a, b, s := BestAsk(quotes).value, BestBid(quotes).value, Select(quotes, minEdge).value;
      && IsBestAsk(quotes, a) && IsBestBid(quotes, b) && Arbitrage(quotes, a, b, minEdge)
      && s.buyExchange == quotes[a].exchange && s.sellExchange == quotes[b].exchange
      && s.buyPrice == quotes[a].ask && s.sellPrice == quotes[b].bid
      && IsSpread(s.spreadPct, quotes[b].bid, quotes[a].ask)
  {
    BestBidExactly(quotes);
    BestAskExactly(quotes);
    EdgeExactly(quotes[BestBid(quotes).value].bid, quotes[BestAsk(quotes).value].ask, minEdge);
  }

  lemma NoneWider(quotes: seq<Quote>, minEdge: real, i: nat, j: nat)
    requires Select(quotes, minEdge).Some? && Arbitrage(quotes, i, j, minEdge)
    ensures Spread(quotes[j].bid, quotes[i].ask) <= Select(quotes, minEdge).value.spreadPct
  {
    SignalIsBest(quotes, minEdge);
    var a, b := BestAsk(quotes).value, BestBid(quotes).value;
    SpreadMonotone(quotes[j].bid, quotes[i].ask, quotes[b].bid, quotes[a].ask);
  }

  /** No pair of quotes clears the edge with a wider relative spread. */
  lemma SignalIsWidest(quotes: seq<Quote>, minEdge: real, i: nat, j: nat, pct: real)
    requires Select(quotes, minEdge).Some?
    ensures Arbitrage(quotes, i, j, minEdge) && IsSpread(pct, quotes[j].bid, quotes[i].ask) ==>
      pct <= Select(quotes, minEdge).value.spreadPct
  {
    if Arbitrage(quotes, i, j, minEdge) && IsSpread(pct, quotes[j].bid, quotes[i].ask) {
      NoneWider(quotes, minEdge, i, j);
      SpreadUnique(pct, quotes[j].bid, quotes[i].ask);
    }
  }

  lemma SpreadUnique(pct: real, bid: real, ask: real)
    requires ask > 0.0 && IsSpread(pct, bid, ask)
    ensures pct == Spread(bid, ask)
  {
    var w := Spread(bid, ask);
    assert w * ask == bid - ask && (w - pct) * ask == w * ask - pct * ask;
    SignOfProduct(w - pct, ask);
  }

  /** When some pair of quotes clears the edge, it is missed exactly when the best bid and
      the best ask come from one exchange, or from an exchange without a name. */
  lemma MissedExactly(quotes: seq<Quote>, minEdge: real, i: nat, j: nat)
    requires Arbitrage(quotes, i, j, minEdge)
    ensures BestBid(quotes).Some? && BestAsk(quotes).Some?
    ensures Select(quotes, minEdge).None? <==>
      var sell, buy := quotes[BestBid(quotes).value].exchange, quotes[BestAsk(quotes).value].exchange;
      sell == buy || sell == "" || buy == ""
  {
    BestBidExactly(quotes);
    BestAskExactly(quotes);
    assert quotes[j].bid > 0.0;
    WiderClears(quotes[j].bid, quotes[i].ask, quotes[BestBid(quotes).value].bid, quotes[BestAsk(quotes).value].ask,
      minEdge);
  }

  predicate SelfPriced(buy: Quote, sell: Quote) {
    buy.exchange == sell.exchange && buy.ask > 0.0
  }

  /** No exchange is crossed with itself and every exchange has a name. */
  ghost predicate Orderly(quotes: seq<Quote>) {
    && (forall i :: 0 <= i < |quotes| ==> quotes[i].exchange != "")
    && (forall i, j :: 0 <= i < |quotes| && 0 <= j < |quotes| && SelfPriced(quotes[i], quotes[j]) ==>
          quotes[j].bid <= quotes[i].ask)
  }

  lemma OrderlyNotMissed(quotes: seq<Quote>, minEdge: real, i: nat, j: nat)
    requires Orderly(quotes) && Arbitrage(quotes, i, j, minEdge)
    ensures Select(quotes, minEdge).Some?
  {
    MissedExactly(quotes, minEdge, i, j);
    BestBidExactly(quotes);
    BestAskExactly(quotes);
    var b, a := BestBid(quotes).value, BestAsk(quotes).value;
    assert IsBestBid(quotes, b) && IsBestAsk(quotes, a);
  }

  /** On orderly quotes a signal is found exactly when an arbitrage exists. */
  lemma FindsEveryArbitrage(quotes: seq<Quote>, minEdge: real)
    requires Orderly(quotes)
    ensures Select(quotes, minEdge).Some? <==> exists i: nat, j: nat :: Arbitrage(quotes, i, j, minEdge)
  {
    if Select(quotes, minEdge).Some? {
      SignalIsBest(quotes, minEdge);
    } else {
      forall i: nat, j: nat ensures !Arbitrage(quotes, i, j, minEdge) {
        if Arbitrage(quotes, i, j, minEdge) {
          OrderlyNotMissed(quotes, minEdge, i, j);
        }
      }
    }
  }

  /** Without orderly quotes an arbitrage can be missed: one crossed exchange holds both
      best prices and hides a profitable pair. */
  lemma CrossedExchangeHidesArbitrage()
    ensures var quotes := [Quote("a", 105.0, 100.0), Quote("b", 99.0, 101.0)];
      Arbitrage(quotes, 1, 0, 0.0) && Select(quotes, 0.0) == None
  {
    var quotes := [Quote("a", 105.0, 100.0), Quote("b", 99.0, 101.0)];
    assert Arbitrage(quotes, 1, 0, 0.0);
    MissedExactly(quotes, 0.0, 1, 0);
    assert quotes[1].bid < quotes[0].bid && quotes[0].ask < quotes[1].ask;
  }

  // ----- The dedup key --------------------------------------------------------------

  function Key(symbol: string, buyExchange: string, sellExchange: string): string {
    symbol + ":" + buyExchange + ":" + sellExchange
  }

  /** What goes into a dedup key. */
  datatype Route = Route(symbol: string, buy: string, sell: string)

  function RouteKey(r: Route): string { Key(r.symbol, r.buy, r.sell) }

  /** Name `n` ends in a colon and name `m`. */
  ghost predicate EndsInName(n: string, m: string) {
    exists u :: n == u + ":" + m
  }

  predicate Trades(r: Route, names: set<string>) { r.buy in names && r.sell in names }

  ghost predicate NoNameEndsInAnother(names: set<string>) {
    forall n, m :: n in names && m in names ==> !EndsInName(n, m)
  }

  ghost predicate KeysTellRoutesApart(names: set<string>) {
    forall r: Route, r': Route :: Trades(r, names) && Trades(r', names) && RouteKey(r) == RouteKey(r') ==> r == r'
  }

  /** Behind the last separator the longer of two texts ends in the shorter. */
  lemma LongerEndsInShorter(a: string, s: string, b: string, t: string)
    requires a + ":" + s == b + ":" + t && |a| < |b|
    ensures EndsInName(s, t)
  {
    var u := s[..|b| - |a| - 1];
    assert (a + ":" + s)[|a| + 1..] == s;
    assert (b + ":" + t)[|a| + 1..] == b[|a| + 1..] + ":" + t;
    assert s == b[|a| + 1..] + ":" + t;
  }

  lemma LastNameSplits(a: string, s: string, b: string, t: string)
    requires a + ":" + s == b + ":" + t && !EndsInName(s, t) && !EndsInName(t, s)
    ensures a == b && s == t
  {
    if |a| < |b| { LongerEndsInShorter(a, s, b, t); }
    if |b| < |a| { LongerEndsInShorter(b, t, a, s); }
    assert (a + ":" + s)[..|a|] == a && (b + ":" + t)[..|b|] == b;
    assert (a + ":" + s)[|a| + 1..] == s && (b + ":" + t)[|b| + 1..] == t;
  }

  lemma SameKeySameRoute(names: set<string>, r: Route, r': Route)
    requires NoNameEndsInAnother(names) && Trades(r, names) && Trades(r', names) && RouteKey(r) == RouteKey(r')
    ensures r == r'
  {
    LastNameSplits(r.symbol + ":" + r.buy, r.sell, r'.symbol + ":" + r'.buy, r'.sell);
    LastNameSplits(r.symbol, r.buy, r'.symbol, r'.buy);
  }

  lemma Regroup(symbol: string, u: string, m: string, sell: string)
    ensures Key(symbol, u + ":" + m, sell) == Key(symbol + ":" + u, m, sell)
  {
    assert symbol + ":" + (u + ":" + m) == symbol + ":" + u + ":" + m;
  }

  /** Over a set of exchange names and any symbols, two routes never share a key if and only if
      no name ends in a colon and a name of the set. Symbols may hold colons. */
  lemma KeysTellRoutesApartExactly(names: set<string>)
    ensures KeysTellRoutesApart(names) <==> NoNameEndsInAnother(names)
  {
    if NoNameEndsInAnother(names) {
      forall r: Route, r': Route | Trades(r, names) && Trades(r', names) && RouteKey(r) == RouteKey(r')
        ensures r == r' {
        SameKeySameRoute(names, r, r');
      }
    } else {
      var n, m :| n in names && m in names && EndsInName(n, m);
      var u :| n == u + ":" + m;
      Regroup("", u, m, n);
      var r, r' := Route("", n, n), Route("" + ":" + u, m, n);
      assert RouteKey(r) == RouteKey(r') && r.symbol != r'.symbol;
      assert Trades(r, names) && Trades(r', names);
    }
  }

  lemma ColonInside(n: string, m: string)
    requires EndsInName(n, m)
    ensures ':' in n
  {
    var u :| n == u + ":" + m;
    assert n[|u|] == ':';
  }

  /** In particular, names without a colon tell routes apart. */
  lemma PlainNamesTellRoutesApart(names: set<string>)
    requires forall n :: n in names ==> ':' !in n
    ensures KeysTellRoutesApart(names)
  {
    forall n, m | n in names && m in names ensures !EndsInName(n, m) {
      if EndsInName(n, m) { ColonInside(n, m); }
    }
    KeysTellRoutesApartExactly(names);
  }

  /** A route that a signal can have: between two different exchanges, both with a name. */
  predicate CanSignal(r: Route, names: set<string>) {
    Trades(r, names) && r.buy != r.sell && r.buy != "" && r.sell != ""
  }

  ghost predicate KeysTellSignalsApart(names: set<string>) {
    forall r: Route, r': Route :: CanSignal(r, names) && CanSignal(r', names) && RouteKey(r) == RouteKey(r') ==> r == r'
  }

  /** Name `n` ends in a colon and name `m`, and there is a third name or `n` begins so, too. */
  ghost predicate Clash(names: set<string>, n: string, m: string, u: string) {
    n in names && m in names && n == u + ":" + m && (|names| >= 3 || n == m + ":" + u)
  }

  ghost predicate SomeClash(names: set<string>) {
    exists n, m, u :: Clash(names, n, m, u)
  }

  lemma ThirdName(names: set<string>, n: string, m: string) returns (e: string)
    requires |names| >= 3
    ensures e in names && e != n && e != m
  {
    var others := names - {n} - {m};
    assert |names| <= |others| + 2;
    e :| e in others;
  }

  lemma ClashCollides(names: set<string>, n: string, m: string, u: string)
    requires "" !in names && Clash(names, n, m, u)
    ensures !KeysTellSignalsApart(names)
  {
    if |names| >= 3 {
      var e := ThirdName(names, n, m);
      Regroup("", u, m, e);
      var r, r' := Route("", n, e), Route("" + ":" + u, m, e);
      assert CanSignal(r, names) && CanSignal(r', names) && RouteKey(r) == RouteKey(r') && r.symbol != r'.symbol;
    } else {
      var r, r' := Route("", n, m), Route("", m, n);
      assert RouteKey(r) == "" + ":" + (m + ":" + u) + ":" + m;
      assert RouteKey(r') == "" + ":" + m + ":" + (u + ":" + m);
      assert RouteKey(r) == RouteKey(r') && r.buy != r'.buy;
      assert CanSignal(r, names) && CanSignal(r', names);
    }
  }

  /** Texts of one length behind the last shared separator agree. */
  lemma SameLengthSplits(a: string, s: string, b: string, t: string)
    requires a + ":" + s == b + ":" + t && |s| == |t|
    ensures a == b && s == t
  {
    assert (a + ":" + s)[..|a|] == a && (b + ":" + t)[..|b|] == b;
    assert (a + ":" + s)[|a| + 1..] == s && (b + ":" + t)[|b| + 1..] == t;
  }

  /** Two routes of the same two exchanges, one in each direction: the longer sold name begins
      and ends in the shorter one. */
  lemma OppositeRoutesClash(symbol: string, symbol': string, long: string, short: string) returns (u: string)
    requires Key(symbol, short, long) == Key(symbol', long, short) && |long| > |short|
    ensures long == u + ":" + short == short + ":" + u
  {
    var a, b := symbol + ":" + short, symbol' + ":" + long;
    LongerEndsInShorter(a, long, b, short);
    u :| long == u + ":" + short;
    assert a + ":" + long == (a + ":" + u) + ":" + short;
    SameLengthSplits(a + ":" + u, short, b, short);
    assert a + ":" + u == symbol + ":" + (short + ":" + u);
    SameLengthSplits(symbol, short + ":" + u, symbol', long);
  }

  lemma CollisionClashes(names: set<string>, r: Route, r': Route)
    requires CanSignal(r, names) && CanSignal(r', names) && RouteKey(r) == RouteKey(r') && r != r'
    ensures SomeClash(names)
  {
    if |names| >= 3 {
      if NoNameEndsInAnother(names) { SameKeySameRoute(names, r, r'); }
      var n, m :| n in names && m in names && EndsInName(n, m);
      var u :| n == u + ":" + m;
      assert Clash(names, n, m, u);
    } else {
      OnlyTwoNames(names, r.buy, r.sell, r'.buy);
      OnlyTwoNames(names, r.buy, r.sell, r'.sell);
      if r.sell == r'.sell {
        SameLengthSplits(r.symbol + ":" + r.buy, r.sell, r'.symbol + ":" + r'.buy, r'.sell);
        SameLengthSplits(r.symbol, r.buy, r'.symbol, r'.buy);
      }
      if |r.sell| > |r'.sell| {
        var u := OppositeRoutesClash(r.symbol, r'.symbol, r.sell, r'.sell);
        assert Clash(names, r.sell, r'.sell, u);
      } else if |r'.sell| > |r.sell| {
        var u := OppositeRoutesClash(r'.symbol, r.symbol, r'.sell, r.sell);
        assert Clash(names, r'.sell, r.sell, u);
      } else {
        SameLengthSplits(r.symbol + ":" + r.buy, r.sell, r'.symbol + ":" + r'.buy, r'.sell);
      }
    }
  }

  lemma OnlyTwoNames(names: set<string>, p: string, q: string, x: string)
    requires p in names && q in names && x in names && p != q && |names| < 3
    ensures x == p || x == q
  {
    if x != p && x != q {
      assert {p, q, x} <= names;
      SubsetIsSmaller({p, q, x}, names);
    }
  }

  lemma {:induction false} SubsetIsSmaller(s: set<string>, t: set<string>)
    requires s <= t
    ensures |s| <= |t|
    decreases s
  {
    if s != {} {
      var x :| x in s;
      SubsetIsSmaller(s - {x}, t - {x});
    }
  }

  lemma NamelessNeverSignals(names: set<string>, r: Route)
    ensures CanSignal(r, names) <==> CanSignal(r, names - {""})
  {
  }

  /** The routes between two different, named exchanges of a set have distinct dedup keys, over
      any symbols, if and only if no name ends in a colon and a second name of the set, while
      there is a third one or it begins with that second name and a colon around the same
      text. */
  lemma SignalKeysExactly(names: set<string>)
    ensures KeysTellSignalsApart(names) <==> !SomeClash(names - {""})
  {
    var named := names - {""};
    forall r: Route ensures CanSignal(r, names) <==> CanSignal(r, named) {
      NamelessNeverSignals(names, r);
    }
    if n, m, u :| Clash(named, n, m, u) {
      ClashCollides(named, n, m, u);
      var r: Route, r': Route :| CanSignal(r, named) && CanSignal(r', named) && RouteKey(r) == RouteKey(r') && r != r';
      assert CanSignal(r, names) && CanSignal(r', names);
    } else {
      forall r: Route, r': Route | CanSignal(r, names) && CanSignal(r', names) && RouteKey(r) == RouteKey(r')
        ensures r == r'
      {
        if r != r' { CollisionClashes(named, r, r'); }
      }
    }
  }

  ghost predicate QuotedOn(quotes: seq<Quote>, names: set<string>) {
    forall i :: 0 <= i < |quotes| ==> quotes[i].exchange in names
  }

  function RouteOf(symbol: string, s: Signal): Route { Route(symbol, s.buyExchange, s.sellExchange) }

  lemma SignalsCan(symbol: string, quotes: seq<Quote>, minEdge: real, names: set<string>)
    requires Select(quotes, minEdge).Some? && QuotedOn(quotes, names)
    ensures CanSignal(RouteOf(symbol, Select(quotes, minEdge).value), names)
  {
  }

  /** Two quotes that signal a given route. */
  function QuotesFor(r: Route, minEdge: real): seq<Quote> {
    [Quote(r.buy, 0.0, 1.0), Quote(r.sell, if minEdge > 0.0 then 2.0 + minEdge else 2.0, 0.0)]
  }

  lemma RoutesAreSignalled(r: Route, names: set<string>, minEdge: real)
    requires CanSignal(r, names)
    ensures QuotedOn(QuotesFor(r, minEdge), names) && Select(QuotesFor(r, minEdge), minEdge).Some?
    ensures RouteOf(r.symbol, Select(QuotesFor(r, minEdge), minEdge).value) == r
  {
    var quotes := QuotesFor(r, minEdge);
    BestBidExactly(quotes);
    BestAskExactly(quotes);
    assert IsBestBid(quotes, 1) && IsBestAsk(quotes, 0);
  }

  /** A symbol and quotes that yield a signal. */
  ghost predicate Signals(item: Item, names: set<string>, minEdge: real) {
    QuotedOn(item.quotes, names) && Select(item.quotes, minEdge).Some?
  }

  function ItemRoute(item: Item, minEdge: real): Route
    requires Select(item.quotes, minEdge).Some?
  {
    RouteOf(item.symbol, Select(item.quotes, minEdge).value)
  }

  ghost predicate ShareKey(x: Item, y: Item, names: set<string>, minEdge: real) {
    && Signals(x, names, minEdge) && Signals(y, names, minEdge)
    && RouteKey(ItemRoute(x, minEdge)) == RouteKey(ItemRoute(y, minEdge))
  }

  ghost predicate KeysTellItemsApart(names: set<string>, minEdge: real) {
    forall x: Item, y: Item :: ShareKey(x, y, names, minEdge) ==> ItemRoute(x, minEdge) == ItemRoute(y, minEdge)
  }

  /** The same for the signals of the calculator: over quotes from a set of exchanges, signals
      that share a dedup key have the same symbol and exchanges if and only if no two names
      clash. */
  lemma ItemKeysExactly(names: set<string>, minEdge: real)
    ensures KeysTellItemsApart(names, minEdge) <==> !SomeClash(names - {""})
  {
    SignalKeysExactly(names);
    if KeysTellSignalsApart(names) {
      forall x: Item, y: Item | ShareKey(x, y, names, minEdge) ensures ItemRoute(x, minEdge) == ItemRoute(y, minEdge) {
        SignalsCan(x.symbol, x.quotes, minEdge, names);
        SignalsCan(y.symbol, y.quotes, minEdge, names);
      }
    } else {
      var r: Route, r': Route :| CanSignal(r, names) && CanSignal(r', names) && RouteKey(r) == RouteKey(r') && r != r';
      var x, y := Item(r.symbol, QuotesFor(r, minEdge)), Item(r'.symbol, QuotesFor(r', minEdge));
      RoutesAreSignalled(r, names, minEdge);
      RoutesAreSignalled(r', names, minEdge);
      assert ShareKey(x, y, names, minEdge) && ItemRoute(x, minEdge) == r && ItemRoute(y, minEdge) == r';
    }
  }

  lemma ColonInNameCollides()
    ensures Key("BTC", "x:y", "z") == "BTC:x:y:z" == Key("BTC:x", "y", "z")
    ensures var r, r' := Route("BTC", "x:y", "z"), Route("BTC:x", "y", "z");
      CanSignal(r, {"x:y", "y", "z"}) && CanSignal(r', {"x:y", "y", "z"}) && r != r'
    ensures !KeysTellRoutesApart({"x:y", "y", "z"}) && !KeysTellSignalsApart({"x:y", "y", "z"})
  {
    var r, r' := Route("BTC", "x:y", "z"), Route("BTC:x", "y", "z");
    assert RouteKey(r) == "BTC:x:y:z" == RouteKey(r');
    assert r.symbol[..3] == "BTC" && |r.symbol| == 3 && |r'.symbol| == 5;
  }

  // ----- Runs of the calculator -----------------------------------------------------

  datatype Config = Config(minEdge: real, cooldownNs: nat, clock: nat -> nat)

  const U64_MAX: nat := 0xFFFF_FFFF_FFFF_FFFF

  /** `(seconds * 1e9) as u64`: the fraction is dropped and the cast saturates. */
  function CooldownNs(seconds: real): (ns: nat)
    ensures ns > 0 <==> seconds >= 0.000_000_001
    ensures 0.0 <= seconds * 1_000_000_000.0 < U64_MAX as real ==>
      ns as real <= seconds * 1_000_000_000.0 < ns as real + 1.0
    ensures seconds * 1_000_000_000.0 >= U64_MAX as real ==> ns == U64_MAX
  {
    var x := seconds * 1_000_000_000.0;
    if x < 1.0 then 0 else if x >= U64_MAX as real then U64_MAX else x.Floor
  }

  /** The cooldown map and the number of clock readings taken so far. */
  datatype State = State(lastSignal: map<string, nat>, readings: nat)

  datatype Item = Item(symbol: string, quotes: seq<Quote>)

  /** A signal that got through, with the reading at which it did. */
  datatype Emission = Emission(symbol: string, signal: Signal, at: nat)

  datatype Row = Row(symbol: string, signal: Signal)

  function SaturatingSub(x: nat, y: nat): nat { if x < y then 0 else x - y }

  function SignalKey(symbol: string, s: Signal): string { Key(symbol, s.buyExchange, s.sellExchange) }

  function EmissionKey(e: Emission): string { SignalKey(e.symbol, e.signal) }

  predicate CoolingDown(c: Config, st: State, key: string) {
    key in st.lastSignal && SaturatingSub(c.clock(st.readings), st.lastSignal[key]) < c.cooldownNs
  }

  function Step(c: Config, st: State, item: Item): (State, Option<Emission>) {
    match Select(item.quotes, c.minEdge)
    case None => (st, None)
    case Some(s) =>
      var key, now := SignalKey(item.symbol, s), c.clock(st.readings);
      if CoolingDown(c, st, key)
      then (State(st.lastSignal, st.readings + 1), None)
      else (State(st.lastSignal[key := now], st.readings + 1), Some(Emission(item.symbol, s, now)))
  }

  function Run(c: Config, st: State, items: seq<Item>): (State, seq<Emission>) {
    if items == [] then (st, [])
    else
      var (before, log) := Run(c, st, items[..|items| - 1]);
      var (after, e) := Step(c, before, items[|items| - 1]);
      (after, if e.Some? then log + [e.value] else log)
  }

  function Rows(log: seq<Emission>): seq<Row> {
    seq(|log|, i requires 0 <= i < |log| => Row(log[i].symbol, log[i].signal))
  }

  /** What a step does, in terms of the values the scan leaves behind. */
  lemma StepAfterScan(c: Config, st: State, item: Item, bid: Option<real>, bidExchange: string, ask: Option<real>,
                      askExchange: string)
    requires BidScanned(item.quotes, bid, bidExchange) && AskScanned(item.quotes, ask, askExchange)
    ensures bidExchange != "" && askExchange != "" ==> bid.Some? && ask.Some? && ask.value > 0.0
    ensures Step(c, st, item) ==
      if bidExchange == "" || askExchange == "" || bidExchange == askExchange then (st, None)
      else if bid.value <= ask.value || Spread(bid.value, ask.value) < c.minEdge then (st, None)
      else
        var s := Signal(askExchange, bidExchange, ask.value, bid.value, Spread(bid.value, ask.value));
        var key, now := Key(item.symbol, askExchange, bidExchange), c.clock(st.readings);
        if CoolingDown(c, st, key) then (State(st.lastSignal, st.readings + 1), None)
        else (State(st.lastSignal[key := now], st.readings + 1), Some(Emission(item.symbol, s, now)))
  {
    SelectAfterScan(item.quotes, bid, bidExchange, ask, askExchange, c.minEdge);
  }

  lemma RowsAppend(log: seq<Emission>, e: Emission)
    ensures Rows(log + [e]) == Rows(log) + [Row(e.symbol, e.signal)]
  {
  }

  class SpreadCalculator {
    const config: Config
    var lastSignal: map<string, nat>
    var readings: nat

    constructor (minEdge: real, cooldownSeconds: real, clock: nat -> nat)
      ensures config == Config(minEdge, CooldownNs(cooldownSeconds), clock) && Now() == State(map[], 0)
    {
      config := Config(minEdge, CooldownNs(cooldownSeconds), clock);
      lastSignal, readings := map[], 0;
    }

    function Now(): State
      reads this
    {
      State(lastSignal, readings)
    }

    method Process(symbol: string, quotes: seq<Quote>) returns (r: Option<Signal>)
      modifies this
      ensures var (after, e) := Step(config, old(Now()), Item(symbol, quotes));
        Now() == after && r == if e.Some? then Some(e.value.signal) else None
    {
      r := BestBidAskAcross(quotes, config.minEdge);
      if r.None? {
        return;
      }
      var key := Key(symbol, r.value.buyExchange, r.value.sellExchange);
      var now := config.clock(readings);
      readings := readings + 1;
      if key in lastSignal {
        if SaturatingSub(now, lastSignal[key]) < config.cooldownNs {
          return None;
        }
      }
      lastSignal := lastSignal[key := now];
    }

    method ProcessBulk(items: seq<Item>) returns (rows: seq<Row>)
      modifies this
      ensures var (after, log) := Run(config, old(Now()), items);
        Now() == after && rows == Rows(log)
    {
      rows := [];
      ghost var log := [];
      for k := 0 to |items|
        invariant Run(config, old(Now()), items[..k]) == (Now(), log) && rows == Rows(log)
      {
        RunStep(config, old(Now()), items, k);
        ghost var before := log;
        ghost var st := Now();
        ghost var (after, e) := Step(config, st, items[k]);
        log := if e.Some? then log + [e.value] else log;
        var quotes := items[k].quotes;
        var bid, bidExchange := None, "";
        var ask, askExchange := None, "";
        for n := 0 to |quotes|
          invariant Now() == st
          invariant BidScanned(quotes[..n], bid, bidExchange)
          invariant AskScanned(quotes[..n], ask, askExchange)
        {
          BidScanStep(quotes, n, bid, bidExchange);
          AskScanStep(quotes, n, ask, askExchange);
          if quotes[n].bid > 0.0 && (bid.None? || quotes[n].bid > bid.value) {
            bid, bidExchange := Some(quotes[n].bid), quotes[n].exchange;
          }
          if quotes[n].ask > 0.0 && (ask.None? || quotes[n].ask < ask.value) {
            ask, askExchange := Some(quotes[n].ask), quotes[n].exchange;
          }
        }
        assert quotes[..|quotes|] == quotes;
        StepAfterScan(config, st, items[k], bid, bidExchange, ask, askExchange);
        if bidExchange == "" || askExchange == "" || bidExchange == askExchange {
          assert Now() == after && e == None;
          continue;
        }
        if bid.value <= ask.value {
          assert Now() == after && e == None;
          continue;
        }
        var pct := Spread(bid.value, ask.value);
        if pct < config.minEdge {
          assert Now() == after && e == None;
          continue;
        }
        var key := Key(items[k].symbol, askExchange, bidExchange);
        var now := config.clock(readings);
        readings := readings + 1;
        if key in lastSignal {
          if SaturatingSub(now, lastSignal[key]) < config.cooldownNs {
            assert Now() == after && e == None;
            continue;
          }
        }
        lastSignal := lastSignal[key := now];
        assert Now() == after && e.Some?;
        RowsAppend(before, e.value);
        rows := rows + [Row(items[k].symbol, Signal(askExchange, bidExchange, ask.value, bid.value, pct))];
      }
      assert items[..|items|] == items;
    }

    /** Calling `Process` on each item in turn has exactly the effect of `ProcessBulk`. */
    method ProcessEach(items: seq<Item>) returns (rows: seq<Row>)
      modifies this
      ensures var (after, log) := Run(config, old(Now()), items);
        Now() == after && rows == Rows(log)
    {
      rows := [];
      ghost var log := [];
      for k := 0 to |items|
        invariant Run(config, old(Now()), items[..k]) == (Now(), log) && rows == Rows(log)
      {
        RunStep(config, old(Now()), items, k);
        ghost var (after, e) := Step(config, Now(), items[k]);
        log := if e.Some? then log + [e.value] else log;
        var r := Process(items[k].symbol, items[k].quotes);
        if r.Some? {
          rows := rows + [Row(items[k].symbol, r.value)];
        }
      }
      assert items[..|items|] == items;
    }
  }

  lemma RunStep(c: Config, st: State, items: seq<Item>, k: nat)
    requires k < |items|
    ensures var (before, log) := Run(c, st, items[..k]);
      var (after, e) := Step(c, before, items[k]);
      Run(c, st, items[..k + 1]) == (after, if e.Some? then log + [e.value] else log)
  {
    assert items[..k + 1][..k] == items[..k];
  }

  // ----- Cooldown over whole runs ---------------------------------------------------

  /** When the last emission of `key` happened. */
  function LastAt(log: seq<Emission>, key: string): Option<nat> {
    if log == [] then None
    else if EmissionKey(log[|log| - 1]) == key then Some(log[|log| - 1].at)
    else LastAt(log[..|log| - 1], key)
  }

  /** The cooldown map holds, for each key, the time of its last emission. */
  ghost predicate Remembers(st: State, log: seq<Emission>) {
    forall key :: LastAt(log, key) == if key in st.lastSignal then Some(st.lastSignal[key]) else None
  }

  /** And no emission of the key is later. */
  ghost predicate Tracks(st: State, log: seq<Emission>) {
    forall e :: e in log ==> EmissionKey(e) in st.lastSignal && e.at <= st.lastSignal[EmissionKey(e)]
  }

  lemma {:induction false} LastIsEmission(log: seq<Emission>, key: string) returns (e: Emission)
    requires LastAt(log, key).Some?
    ensures e in log && EmissionKey(e) == key && e.at == LastAt(log, key).value
  {
    if EmissionKey(log[|log| - 1]) == key {
      e := log[|log| - 1];
    } else {
      e := LastIsEmission(log[..|log| - 1], key);
    }
  }

  lemma RemembersNext(c: Config, st: State, log: seq<Emission>, item: Item)
    requires Remembers(st, log) && Step(c, st, item).1.Some?
    ensures Remembers(Step(c, st, item).0, log + [Step(c, st, item).1.value])
  {
    var (after, e) := Step(c, st, item);
    var log' := log + [e.value];
    assert log'[..|log|] == log;
    forall key ensures LastAt(log', key) == if key in after.lastSignal then Some(after.lastSignal[key]) else None {
      assert LastAt(log, key) == if key in st.lastSignal then Some(st.lastSignal[key]) else None;
    }
  }

  /** Over any run the cooldown map holds the time of the last emission of each key, and with a
      positive cooldown that is the latest. */
  lemma {:induction false} RunTracks(c: Config, items: seq<Item>)
    ensures var (st, log) := Run(c, State(map[], 0), items);
      Remembers(st, log) && (c.cooldownNs > 0 ==> Tracks(st, log))
  {
    if items != [] {
      var n := |items| - 1;
      RunTracks(c, items[..n]);
      var (before, log) := Run(c, State(map[], 0), items[..n]);
      var (after, e) := Step(c, before, items[n]);
      if e.Some? {
        RemembersNext(c, before, log, items[n]);
        assert forall x :: x in log + [e.value] <==> x in log || x == e.value;
      }
    }
  }

  ghost predicate Apart(log: seq<Emission>, cooldownNs: nat) {
    forall i, j :: 0 <= i < j < |log| && EmissionKey(log[i]) == EmissionKey(log[j]) ==>
      log[i].at + cooldownNs <= log[j].at
  }

  lemma StillApart(c: Config, st: State, log: seq<Emission>, item: Item)
    requires c.cooldownNs > 0 && Tracks(st, log) && Apart(log, c.cooldownNs)
    requires Step(c, st, item).1.Some?
    ensures Apart(log + [Step(c, st, item).1.value], c.cooldownNs)
  {
    var e := Step(c, st, item).1.value;
    forall i | 0 <= i < |log| && EmissionKey(log[i]) == EmissionKey(e)
      ensures log[i].at + c.cooldownNs <= e.at
    {
      assert log[i] in log;
    }
  }

  /** Over any run and any clock, two emissions of one key are at least the cooldown apart,
      hence strictly increasing in time. */
  lemma {:induction false} EmissionsApart(c: Config, items: seq<Item>)
    requires c.cooldownNs > 0
    ensures Apart(Run(c, State(map[], 0), items).1, c.cooldownNs)
  {
    if items != [] {
      var n := |items| - 1;
      EmissionsApart(c, items[..n]);
      RunTracks(c, items[..n]);
      var (before, log) := Run(c, State(map[], 0), items[..n]);
      if Step(c, before, items[n]).1.Some? {
        StillApart(c, before, log, items[n]);
      }
    }
  }

  /** How many items have a spread that qualifies. */
  function Qualifying(items: seq<Item>, minEdge: real): nat {
    if items == [] then 0
    else Qualifying(items[..|items| - 1], minEdge) + if Select(items[|items| - 1].quotes, minEdge).Some? then 1 else 0
  }

  /** The clock is read once for each qualifying item, and what is emitted is the signal of the
      item at that reading. */
  lemma {:induction false} EmissionExactly(c: Config, items: seq<Item>, next: Item)
    ensures var st := Run(c, State(map[], 0), items).0;
      && st.readings == Qualifying(items, c.minEdge)
      && (Step(c, st, next).1.Some? ==>
            && Select(next.quotes, c.minEdge).Some?
            && Step(c, st, next).1.value ==
                 Emission(next.symbol, Select(next.quotes, c.minEdge).value, c.clock(Qualifying(items, c.minEdge))))
  {
    if items != [] {
      EmissionExactly(c, items[..|items| - 1], next);
    }
  }

  /** Whether the next item is emitted depends on the past only through the emissions of its
      key: it is, exactly when its spread qualifies and every one of them is a full cooldown
      behind the clock. */
  lemma EmittedExactly(c: Config, items: seq<Item>, next: Item)
    requires c.cooldownNs > 0
    ensures var (st, log) := Run(c, State(map[], 0), items);
      Step(c, st, next).1.Some? <==>
      (&& Select(next.quotes, c.minEdge).Some?
       && forall e :: e in log && EmissionKey(e) == SignalKey(next.symbol, Select(next.quotes, c.minEdge).value) ==>
            e.at + c.cooldownNs <= c.clock(st.readings))
  {
    RunTracks(c, items);
    var (st, log) := Run(c, State(map[], 0), items);
    if Select(next.quotes, c.minEdge).Some? {
      var key := SignalKey(next.symbol, Select(next.quotes, c.minEdge).value);
      assert LastAt(log, key) == if key in st.lastSignal then Some(st.lastSignal[key]) else None;
      if key in st.lastSignal {
        var e := LastIsEmission(log, key);
      }
    }
  }

  /** With a zero cooldown every qualifying spread is emitted, whatever the clock says. */
  lemma ZeroCooldownEmitsAll(c: Config, st: State, item: Item)
    requires c.cooldownNs == 0
    ensures Step(c, st, item).1.Some? <==> Select(item.quotes, c.minEdge).Some?
  {
  }
}
