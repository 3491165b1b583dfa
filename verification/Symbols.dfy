/** Exchange symbols: printing drops the separator, parsing recovers it by trying the known
    quote currencies in turn. Characters are ASCII. */
module Symbols {
  import opened Options

  // ----- Case and separators --------------------------------------------------------

  function Upper(c: char): char {
    if 'a' <= c <= 'z' then (c as int - 32) as char else c
  }

  function Lower(c: char): char {
    if 'A' <= c <= 'Z' then (c as int + 32) as char else c
  }

  function UpperAll(s: string): (r: string) {
    seq(|s|, i requires 0 <= i < |s| => Upper(s[i]))
  }

  function LowerAll(s: string): (r: string) {
    seq(|s|, i requires 0 <= i < |s| => Lower(s[i]))
  }

  function DropSlashes(s: string): string {
    if s == [] then []
    else if s[|s| - 1] == '/' then DropSlashes(s[..|s| - 1])
    else DropSlashes(s[..|s| - 1]) + [s[|s| - 1]]
  }

  predicate EndsWith(s: string, q: string) {
    |q| <= |s| && s[|s| - |q|..] == q
  }

  /** The first of the quotes that `s` ends with. */
  function Scan(s: string, quotes: seq<string>): (r: Option<string>)
    ensures r.Some? ==> EndsWith(s, r.value)
  {
    if quotes == [] then None
    else if EndsWith(s, quotes[0]) then Some(quotes[0])
    else Scan(s, quotes[1..])
  }

  function Base(s: string, q: string): string
    requires |q| <= |s|
  {
    s[..|s| - |q|]
  }

  // ----- The three exchanges --------------------------------------------------------

  const BINANCE_QUOTES := ["usdt", "busd", "usdc", "btc", "eth", "bnb", "tusd", "usd"]
  const BITGET_QUOTES := ["USDT", "USDC", "BUSD", "TUSD", "BTC", "ETH", "BNB", "USD"]
  const BYBIT_QUOTES := ["USDT", "BUSD", "USDC", "BTC", "ETH", "BNB", "TUSD", "USD"]

  function BinanceNormalize(symbol: string): string { LowerAll(DropSlashes(symbol)) }

  function BinanceDenormalize(symbol: string): string {
    var s := LowerAll(symbol);
    match Scan(s, BINANCE_QUOTES)
    case Some(q) => UpperAll(Base(s, q)) + "/" + UpperAll(q)
    case None => UpperAll(symbol)
  }

  function BitgetNormalize(symbol: string): string { DropSlashes(symbol) }

  function BitgetDenormalize(symbol: string): string {
    var s := UpperAll(symbol);
    match Scan(s, BITGET_QUOTES)
    case Some(q) => Base(s, q) + "/" + q
    case None => symbol
  }

  function BybitNormalize(symbol: string): string { UpperAll(DropSlashes(symbol)) }

  function BybitDenormalize(symbol: string): string {
    var s := UpperAll(symbol);
    match Scan(s, BYBIT_QUOTES)
    case Some(q) => Base(s, q) + "/" + q
    case None => symbol
  }

  // ----- Which quote wins -----------------------------------------------------------

  predicate IsQuote(q: string) {
    q in ["USDT", "BUSD", "USDC", "BTC", "ETH", "BNB", "TUSD", "USD"]
  }

  /** The quote that decides, whatever the order in which the list names the others: USD
      gives way to BUSD and TUSD, and no two other quotes can both end a symbol. */
  predicate Wins(s: string, q: string) {
    IsQuote(q) && EndsWith(s, q) && (q == "USD" ==> !EndsWith(s, "BUSD") && !EndsWith(s, "TUSD"))
  }

  lemma Tail4(s: string, a: char, b: char, c: char, d: char)
    ensures EndsWith(s, [a, b, c, d]) <==>
      |s| >= 4 && s[|s| - 4] == a && s[|s| - 3] == b && s[|s| - 2] == c && s[|s| - 1] == d
  {
    if |s| >= 4 {
      var t := s[|s| - 4..];
      assert t == [s[|s| - 4], s[|s| - 3], s[|s| - 2], s[|s| - 1]];
    }
  }

  lemma Tail3(s: string, a: char, b: char, c: char)
    ensures EndsWith(s, [a, b, c]) <==> |s| >= 3 && s[|s| - 3] == a && s[|s| - 2] == b && s[|s| - 1] == c
  {
    if |s| >= 3 {
      var t := s[|s| - 3..];
      assert t == [s[|s| - 3], s[|s| - 2], s[|s| - 1]];
    }
  }

  lemma Tails(s: string)
    ensures EndsWith(s, "USDT") <==>
      |s| >= 4 && s[|s| - 4] == 'U' && s[|s| - 3] == 'S' && s[|s| - 2] == 'D' && s[|s| - 1] == 'T'
    ensures EndsWith(s, "BUSD") <==>
      |s| >= 4 && s[|s| - 4] == 'B' && s[|s| - 3] == 'U' && s[|s| - 2] == 'S' && s[|s| - 1] == 'D'
    ensures EndsWith(s, "USDC") <==>
      |s| >= 4 && s[|s| - 4] == 'U' && s[|s| - 3] == 'S' && s[|s| - 2] == 'D' && s[|s| - 1] == 'C'
    ensures EndsWith(s, "TUSD") <==>
      |s| >= 4 && s[|s| - 4] == 'T' && s[|s| - 3] == 'U' && s[|s| - 2] == 'S' && s[|s| - 1] == 'D'
    ensures EndsWith(s, "BTC") <==> |s| >= 3 && s[|s| - 3] == 'B' && s[|s| - 2] == 'T' && s[|s| - 1] == 'C'
    ensures EndsWith(s, "ETH") <==> |s| >= 3 && s[|s| - 3] == 'E' && s[|s| - 2] == 'T' && s[|s| - 1] == 'H'
    ensures EndsWith(s, "BNB") <==> |s| >= 3 && s[|s| - 3] == 'B' && s[|s| - 2] == 'N' && s[|s| - 1] == 'B'
    ensures EndsWith(s, "USD") <==> |s| >= 3 && s[|s| - 3] == 'U' && s[|s| - 2] == 'S' && s[|s| - 1] == 'D'
  {
    Tail4(s, 'U', 'S', 'D', 'T');
    Tail4(s, 'B', 'U', 'S', 'D');
    Tail4(s, 'U', 'S', 'D', 'C');
    Tail4(s, 'T', 'U', 'S', 'D');
    Tail3(s, 'B', 'T', 'C');
    Tail3(s, 'E', 'T', 'H');
    Tail3(s, 'B', 'N', 'B');
    Tail3(s, 'U', 'S', 'D');
  }

  /** The winner can be read off the last characters. */
  function Winner(s: string): string {
    if |s| < 3 then ""
    else
      match s[|s| - 1]
      case 'T' => "USDT"
      case 'C' => if s[|s| - 2] == 'D' then "USDC" else "BTC"
      case 'H' => "ETH"
      case 'B' => "BNB"
      case _ =>
        if |s| >= 4 && s[|s| - 4] == 'B' then "BUSD" else if |s| >= 4 && s[|s| - 4] == 'T' then "TUSD" else "USD"
  }

  lemma WinsIsWinner(s: string, q: string)
    requires Wins(s, q)
    ensures q == Winner(s)
  {
    Tails(s);
    if q == "USDT" {
    } else if q == "BUSD" {
    } else if q == "USDC" {
    } else if q == "BTC" {
    } else if q == "ETH" {
    } else if q == "BNB" {
    } else if q == "TUSD" {
    } else {
      assert q == "USD";
    }
  }

  lemma {:induction false} ScanMisses(s: string, quotes: seq<string>)
    ensures Scan(s, quotes) == None <==> forall i :: 0 <= i < |quotes| ==> !EndsWith(s, quotes[i])
  {
    if quotes != [] && !EndsWith(s, quotes[0]) {
      ScanMisses(s, quotes[1..]);
      assert forall i :: 1 <= i < |quotes| ==> quotes[i] == quotes[1..][i - 1];
    }
  }

  /** `quotes` names the known quotes, with USD last. */
  predicate UsdLast(quotes: seq<string>) {
    && (forall i :: 0 <= i < |quotes| ==> IsQuote(quotes[i]))
    && (forall i :: 0 <= i < |quotes| - 1 ==> quotes[i] != "USD")
    && "BUSD" in quotes && "TUSD" in quotes
  }

  lemma {:induction false} ScanFindsFirst(s: string, quotes: seq<string>) returns (k: nat)
    requires Scan(s, quotes).Some?
    ensures k < |quotes| && Scan(s, quotes).value == quotes[k]
    ensures forall i :: 0 <= i < k ==> !EndsWith(s, quotes[i])
  {
    if EndsWith(s, quotes[0]) {
      k := 0;
    } else {
      var m := ScanFindsFirst(s, quotes[1..]);
      k := m + 1;
      assert forall i :: 1 <= i <= m ==> quotes[i] == quotes[1..][i - 1];
    }
  }

  lemma ScanWins(s: string, quotes: seq<string>)
    requires UsdLast(quotes) && Scan(s, quotes).Some?
    ensures Wins(s, Scan(s, quotes).value)
  {
    var k := ScanFindsFirst(s, quotes);
    if quotes[k] == "USD" {
      var b :| 0 <= b < |quotes| && quotes[b] == "BUSD";
      var t :| 0 <= t < |quotes| && quotes[t] == "TUSD";
      assert k == |quotes| - 1 && b < k && t < k;
    }
  }

  /** Any list of all quotes with USD last finds the winner. */
  lemma ScanIsWinner(s: string, quotes: seq<string>, q: string)
    requires UsdLast(quotes) && (forall r :: IsQuote(r) ==> r in quotes)
    ensures Scan(s, quotes) == Some(q) <==> Wins(s, q)
  {
    ScanMisses(s, quotes);
    if Wins(s, q) {
      assert q in quotes;
      WinsIsWinner(s, q);
    }
    if Scan(s, quotes).Some? {
      ScanWins(s, quotes);
      WinsIsWinner(s, Scan(s, quotes).value);
    }
  }

  lemma ListsComplete()
    ensures UsdLast(BITGET_QUOTES) && UsdLast(BYBIT_QUOTES)
    ensures forall r :: IsQuote(r) ==> r in BITGET_QUOTES && r in BYBIT_QUOTES
  {
    assert BITGET_QUOTES[2] == "BUSD" && BITGET_QUOTES[3] == "TUSD";
    assert BYBIT_QUOTES[1] == "BUSD" && BYBIT_QUOTES[6] == "TUSD";
    forall r | IsQuote(r) ensures r in BITGET_QUOTES && r in BYBIT_QUOTES {
      assert BITGET_QUOTES[0] == "USDT" && BITGET_QUOTES[1] == "USDC" && BITGET_QUOTES[4] == "BTC";
      assert BITGET_QUOTES[5] == "ETH" && BITGET_QUOTES[6] == "BNB" && BITGET_QUOTES[7] == "USD";
    }
  }

  // ----- Case folding ---------------------------------------------------------------

  lemma UpperOfLower(s: string)
    ensures UpperAll(LowerAll(s)) == UpperAll(s) && LowerAll(UpperAll(s)) == LowerAll(s)
    ensures UpperAll(UpperAll(s)) == UpperAll(s) && LowerAll(LowerAll(s)) == LowerAll(s)
  {
  }

  lemma UpperConcat(a: string, b: string)
    ensures UpperAll(a + b) == UpperAll(a) + UpperAll(b)
  {
  }

  lemma UpperBase(s: string, q: string)
    requires |q| <= |s|
    ensures UpperAll(Base(s, q)) == Base(UpperAll(s), UpperAll(q))
  {
  }

  lemma EndsWithFolded(s: string, q: string)
    ensures EndsWith(LowerAll(s), LowerAll(q)) <==> EndsWith(UpperAll(s), UpperAll(q))
  {
    if |q| <= |s| {
      var t := s[|s| - |q|..];
      assert LowerAll(s)[|s| - |q|..] == LowerAll(t) && UpperAll(s)[|s| - |q|..] == UpperAll(t);
      if LowerAll(t) == LowerAll(q) {
        UpperOfLower(t);
        UpperOfLower(q);
      }
      if UpperAll(t) == UpperAll(q) {
        UpperOfLower(t);
        UpperOfLower(q);
      }
    }
  }

  lemma {:induction false} ScanFolded(s: string, lower: seq<string>, upper: seq<string>)
    requires |lower| == |upper|
    requires forall i :: 0 <= i < |lower| ==> lower[i] == LowerAll(upper[i]) && UpperAll(upper[i]) == upper[i]
    ensures match Scan(UpperAll(s), upper)
      case None => Scan(LowerAll(s), lower) == None
      case Some(q) => Scan(LowerAll(s), lower) == Some(LowerAll(q)) && UpperAll(q) == q
  {
    if upper != [] {
      EndsWithFolded(s, upper[0]);
      if !EndsWith(UpperAll(s), upper[0]) {
        ScanFolded(s, lower[1..], upper[1..]);
      }
    }
  }

  lemma BinanceListIsBybitLowered()
    ensures |BINANCE_QUOTES| == |BYBIT_QUOTES|
    ensures forall i :: 0 <= i < |BINANCE_QUOTES| ==>
      BINANCE_QUOTES[i] == LowerAll(BYBIT_QUOTES[i]) && UpperAll(BYBIT_QUOTES[i]) == BYBIT_QUOTES[i]
  {
    assert LowerAll("USDT") == "usdt" && LowerAll("BUSD") == "busd" && LowerAll("USDC") == "usdc";
    assert LowerAll("BTC") == "btc" && LowerAll("ETH") == "eth" && LowerAll("BNB") == "bnb";
    assert LowerAll("TUSD") == "tusd" && LowerAll("USD") == "usd";
    assert UpperAll("USDT") == "USDT" && UpperAll("BUSD") == "BUSD" && UpperAll("USDC") == "USDC";
    assert UpperAll("BTC") == "BTC" && UpperAll("ETH") == "ETH" && UpperAll("BNB") == "BNB";
    assert UpperAll("TUSD") == "TUSD" && UpperAll("USD") == "USD";
  }

  // ----- The parsers by the winning quote -------------------------------------------

  function Parsed(s: string): Option<string> {
    if Wins(s, Winner(s)) then Some(Base(s, Winner(s)) + "/" + Winner(s)) else None
  }

  lemma ScanParses(s: string)
    ensures Scan(s, BITGET_QUOTES) == Scan(s, BYBIT_QUOTES)
    ensures Scan(s, BYBIT_QUOTES) == if Wins(s, Winner(s)) then Some(Winner(s)) else None
  {
    ListsComplete();
    ScanIsWinner(s, BITGET_QUOTES, Winner(s));
    ScanIsWinner(s, BYBIT_QUOTES, Winner(s));
    if Scan(s, BITGET_QUOTES).Some? {
      ScanIsWinner(s, BITGET_QUOTES, Scan(s, BITGET_QUOTES).value);
      WinsIsWinner(s, Scan(s, BITGET_QUOTES).value);
    }
    if Scan(s, BYBIT_QUOTES).Some? {
      ScanIsWinner(s, BYBIT_QUOTES, Scan(s, BYBIT_QUOTES).value);
      WinsIsWinner(s, Scan(s, BYBIT_QUOTES).value);
    }
  }

  /** Whatever the case of the input, the three parsers find the same symbol in it; where
      they find none, Binance returns it in upper case and the others return it unchanged. */
  lemma ParsersAgree(symbol: string)
    ensures var r := Parsed(UpperAll(symbol));
      && BinanceDenormalize(symbol) == (if r.Some? then r.value else UpperAll(symbol))
      && BitgetDenormalize(symbol) == BybitDenormalize(symbol) == if r.Some? then r.value else symbol
  {
    var s := UpperAll(symbol);
    ScanParses(s);
    BinanceListIsBybitLowered();
    ScanFolded(symbol, BINANCE_QUOTES, BYBIT_QUOTES);
    if Wins(s, Winner(s)) {
      var q := Winner(s);
      UpperOfLower(symbol);
      UpperOfLower(q);
      UpperBase(LowerAll(symbol), LowerAll(q));
    }
  }

  // ----- The round trip -------------------------------------------------------------

  lemma {:induction false} DropSlashesConcat(a: string, b: string)
    ensures DropSlashes(a + b) == DropSlashes(a) + DropSlashes(b)
  {
    if b == [] {
      assert a + b == a;
    } else {
      assert (a + b)[..|a + b| - 1] == a + b[..|b| - 1];
      DropSlashesConcat(a, b[..|b| - 1]);
    }
  }

  lemma {:induction false} DropSlashesLength(s: string)
    ensures |DropSlashes(s)| <= |s|
    ensures DropSlashes(s) == s <==> '/' !in s
    ensures '/' !in DropSlashes(s)
    ensures |DropSlashes(s)| == |s| ==> DropSlashes(s) == s
  {
    if s != [] {
      DropSlashesLength(s[..|s| - 1]);
      assert s == s[..|s| - 1] + [s[|s| - 1]];
    }
  }

  lemma QuoteIsPlain(q: string)
    requires IsQuote(q)
    ensures '/' !in q && UpperAll(q) == q && |q| >= 3
  {
    BinanceListIsBybitLowered();
    assert BYBIT_QUOTES == ["USDT", "BUSD", "USDC", "BTC", "ETH", "BNB", "TUSD", "USD"];
  }

  /** `r` is `s` with its ASCII capitals lowered. */
  ghost predicate Lowered(r: string, s: string) {
    |r| == |s| && forall i :: 0 <= i < |s| ==>
      r[i] as int == if 'A' <= s[i] <= 'Z' then s[i] as int + 32 else s[i] as int
  }

  /** `r` is `s` with its ASCII small letters raised. */
  ghost predicate Raised(r: string, s: string) {
    |r| == |s| && forall i :: 0 <= i < |s| ==>
      r[i] as int == if 'a' <= s[i] <= 'z' then s[i] as int - 32 else s[i] as int
  }

  lemma FoldConcat(a: string, b: string)
    ensures LowerAll(a + b) == LowerAll(a) + LowerAll(b) && UpperAll(a + b) == UpperAll(a) + UpperAll(b)
  {
  }

  /** What is printed for a text without a slash: the text on Bitget, in small letters on
      Binance, in capitals on Bybit. */
  lemma PrintsPlain(s: string)
    requires '/' !in s
    ensures Lowered(BinanceNormalize(s), s) && BitgetNormalize(s) == s && Raised(BybitNormalize(s), s)
  {
    DropSlashesLength(s);
  }

  /** And what is printed around a slash: the two texts beside it, joined. */
  lemma PrintsJoined(a: string, b: string)
    ensures BinanceNormalize(a + "/" + b) == BinanceNormalize(a) + BinanceNormalize(b)
    ensures BitgetNormalize(a + "/" + b) == BitgetNormalize(a) + BitgetNormalize(b)
    ensures BybitNormalize(a + "/" + b) == BybitNormalize(a) + BybitNormalize(b)
  {
    DropSlashesConcat(a + "/", b);
    assert (a + "/")[..|a|] == a;
    FoldConcat(DropSlashes(a), DropSlashes(b));
  }

  /** The symbols that survive printing and parsing. */
  predicate RoundTrips(base: string, quote: string) {
    && '/' !in base && UpperAll(base) == base
    && !(quote == "USD" && base != "" && (base[|base| - 1] == 'B' || base[|base| - 1] == 'T'))
  }

  lemma ParsedAs(s: string, q: string)
    requires Wins(s, q)
    ensures Parsed(s) == Some(Base(s, q) + "/" + q)
  {
    WinsIsWinner(s, q);
  }

  lemma UsdTails(b: string)
    ensures EndsWith(b + "USD", "USD")
    ensures EndsWith(b + "USD", "BUSD") <==> b != "" && b[|b| - 1] == 'B'
    ensures EndsWith(b + "USD", "TUSD") <==> b != "" && b[|b| - 1] == 'T'
  {
    Tail3(b + "USD", 'U', 'S', 'D');
    Tail4(b + "USD", 'B', 'U', 'S', 'D');
    Tail4(b + "USD", 'T', 'U', 'S', 'D');
  }

  /** What is read out of a base followed by a quote. */
  lemma ReadBack(b: string, quote: string)
    requires IsQuote(quote)
    ensures Parsed(b + quote) ==
      if quote == "USD" && b != "" && b[|b| - 1] == 'B' then Some(b[..|b| - 1] + "/" + "BUSD")
      else if quote == "USD" && b != "" && b[|b| - 1] == 'T' then Some(b[..|b| - 1] + "/" + "TUSD")
      else Some(b + "/" + quote)
  {
    var s := b + quote;
    UsdTails(b);
    assert EndsWith(s, quote) && Base(s, quote) == b;
    if quote == "USD" && b != "" && b[|b| - 1] == 'B' {
      ParsedAs(s, "BUSD");
      assert Base(s, "BUSD") == b[..|b| - 1];
    } else if quote == "USD" && b != "" && b[|b| - 1] == 'T' {
      ParsedAs(s, "TUSD");
      assert Base(s, "TUSD") == b[..|b| - 1];
    } else {
      ParsedAs(s, quote);
    }
  }

  /** Nothing is found in a text if and only if it ends in none of the quotes. */
  lemma NothingFoundExactly(s: string)
    ensures Parsed(s) == None <==> forall q :: IsQuote(q) ==> !EndsWith(s, q)
  {
    if q :| IsQuote(q) && EndsWith(s, q) {
      assert s == Base(s, q) + q;
      ReadBack(Base(s, q), q);
    }
  }

  lemma SameText(b: string, base: string, quote: string)
    ensures b + "/" + quote == base + "/" + quote <==> b == base
  {
    if b + "/" + quote == base + "/" + quote {
      assert |b| == |base|;
      assert (b + "/" + quote)[..|b|] == b && (base + "/" + quote)[..|b|] == base;
    }
  }

  lemma MisreadDiffers(b: string, base: string, wrong: string)
    requires b != "" && |b| <= |base| && |wrong| == 4 && wrong[0] != '/'
    ensures b[..|b| - 1] + "/" + wrong != base + "/" + "USD"
  {
    var misread, right := b[..|b| - 1] + "/" + wrong, base + "/" + "USD";
    assert |misread| == |b| + 4 && |right| == |base| + 4;
    assert misread[|b|] == wrong[0] && right[|base|] == '/';
  }

  /** The result is the original exactly when nothing was lost. */
  lemma ReadBackExactly(base: string, quote: string)
    requires IsQuote(quote)
    ensures Parsed(UpperAll(DropSlashes(base)) + quote) == Some(base + "/" + quote) <==> RoundTrips(base, quote)
  {
    var b := UpperAll(DropSlashes(base));
    ReadBack(b, quote);
    DropSlashesLength(base);
    SameText(b, base, quote);
    assert b == base <==> '/' !in base && UpperAll(base) == base by { PlainExactly(base); }
    if quote == "USD" && b != "" && b[|b| - 1] == 'B' {
      MisreadDiffers(b, base, "BUSD");
    } else if quote == "USD" && b != "" && b[|b| - 1] == 'T' {
      MisreadDiffers(b, base, "TUSD");
    }
  }

  lemma PlainExactly(base: string)
    ensures UpperAll(DropSlashes(base)) == base <==> '/' !in base && UpperAll(base) == base
  {
    DropSlashesLength(base);
    if UpperAll(DropSlashes(base)) == base {
      assert |DropSlashes(base)| == |base|;
    }
  }

  /** What the three exchanges print and read back. */
  lemma PrintedAndRead(base: string, quote: string, r: string)
    requires IsQuote(quote) && Parsed(UpperAll(DropSlashes(base)) + quote) == Some(r)
    ensures var symbol := base + "/" + quote;
      && BinanceDenormalize(BinanceNormalize(symbol)) == r
      && BitgetDenormalize(BitgetNormalize(symbol)) == r
      && BybitDenormalize(BybitNormalize(symbol)) == r
  {
    var symbol, plain := base + "/" + quote, DropSlashes(base) + quote;
    assert DropSlashes(symbol) == plain by { DropSeparator(base, quote); }
    assert UpperAll(plain) == UpperAll(DropSlashes(base)) + quote by {
      QuoteIsPlain(quote);
      UpperConcat(DropSlashes(base), quote);
    }
    UpperOfLower(plain);
    ParsersAgree(LowerAll(plain));
    ParsersAgree(plain);
    ParsersAgree(UpperAll(plain));
  }

  lemma DropSeparator(base: string, quote: string)
    requires IsQuote(quote)
    ensures DropSlashes(base + "/" + quote) == DropSlashes(base) + quote
  {
    QuoteIsPlain(quote);
    DropSlashesLength(quote);
    DropSlashesConcat(base + "/", quote);
    assert (base + "/")[..|base|] == base;
  }

  /** Printing and parsing returns base/quote, on each of the three exchanges, exactly when
      the base is in upper case and without a slash, and, for USD, does not end in B or T,
      where BUSD or TUSD would be read instead. */
  lemma RoundTripExactly(base: string, quote: string)
    requires IsQuote(quote)
    ensures var symbol := base + "/" + quote;
      && (BinanceDenormalize(BinanceNormalize(symbol)) == symbol <==> RoundTrips(base, quote))
      && (BitgetDenormalize(BitgetNormalize(symbol)) == symbol <==> RoundTrips(base, quote))
      && (BybitDenormalize(BybitNormalize(symbol)) == symbol <==> RoundTrips(base, quote))
  {
    ReadBack(UpperAll(DropSlashes(base)), quote);
    ReadBackExactly(base, quote);
    PrintedAndRead(base, quote, Parsed(UpperAll(DropSlashes(base)) + quote).value);
  }

  // ----- Batched subscriptions ------------------------------------------------------

  const BATCH_SIZE := 30

  function NormalizeAll(symbols: seq<string>): seq<string> {
    seq(|symbols|, i requires 0 <= i < |symbols| => BitgetNormalize(symbols[i]))
  }

  function Flatten(batches: seq<seq<string>>): seq<string> {
    if batches == [] then [] else Flatten(batches[..|batches| - 1]) + batches[|batches| - 1]
  }

  lemma FlattenAppend(batches: seq<seq<string>>, batch: seq<string>)
    ensures Flatten(batches + [batch]) == Flatten(batches) + batch
  {
    assert (batches + [batch])[..|batches|] == batches;
  }

  lemma NormalizeSlices(symbols: seq<string>, i: nat, j: nat)
    requires i <= j <= |symbols|
    ensures NormalizeAll(symbols[..j]) == NormalizeAll(symbols[..i]) + NormalizeAll(symbols[i..j])
  {
  }

  /** Bitget: one subscribe message per batch. Together they name every symbol once and in
      order; all but the last are full and none is empty. */
  method SubscribeAllMessages(symbols: seq<string>) returns (batches: seq<seq<string>>)
    ensures Flatten(batches) == NormalizeAll(symbols)
    ensures forall k :: 0 <= k < |batches| - 1 ==> |batches[k]| == 30
    ensures forall k :: 0 <= k < |batches| ==> 0 < |batches[k]| <= 30
  {
    batches := [];
    var i := 0;
    while i < |symbols|
      invariant 0 <= i
      invariant Flatten(batches) == NormalizeAll(symbols[..if i < |symbols| then i else |symbols|])
      invariant forall k :: 0 <= k < |batches| ==> 0 < |batches[k]| <= BATCH_SIZE
      invariant forall k :: 0 <= k < |batches| && (k < |batches| - 1 || i < |symbols|) ==> |batches[k]| == BATCH_SIZE
    {
      var next := if i + BATCH_SIZE < |symbols| then i + BATCH_SIZE else |symbols|;
      var batch := NormalizeAll(symbols[i..next]);
      FlattenAppend(batches, batch);
      NormalizeSlices(symbols, i, next);
      batches := batches + [batch];
      i := i + BATCH_SIZE;
    }
    assert symbols[..|symbols|] == symbols;
  }
}
