/** Walk-forward statistics: the drawdown of a list of trades and the gate built on it, the
    split of a period into windows, and the regime in force at a time. Amounts are exact
    reals; times are integers. */
module WalkForward {
  import opened Options
  import opened Reals

  // ----- Maximum drawdown -----------------------------------------------------------

  /** Profit after the first `n` trades. */
  function Cumulative(pnls: seq<real>, n: nat): real
    requires n <= |pnls|
  {
    if n == 0 then 0.0 else Cumulative(pnls, n - 1) + pnls[n - 1]
  }

  /** The highest profit among the first `n` trades, zero included. */
  function Peak(pnls: seq<real>, n: nat): real
    requires n <= |pnls|
  {
    if n == 0 then 0.0
    else if Cumulative(pnls, n) > Peak(pnls, n - 1) then Cumulative(pnls, n) else Peak(pnls, n - 1)
  }

  /** The drop from the peak after `n` trades; a loss before any profit counts as total. */
  function Drop(pnls: seq<real>, n: nat): real
    requires n <= |pnls|
  {
    var c, p := Cumulative(pnls, n), Peak(pnls, n);
    if p > 0.0 then (p - c) / p else if c < 0.0 then 1.0 else 0.0
  }

  /** `d` is the worst drop over all prefixes. */
  ghost predicate IsWorstDrop(pnls: seq<real>, d: real) {
    && (forall n: nat :: n <= |pnls| ==> Drop(pnls, n) <= d)
    && (exists n: nat :: n <= |pnls| && Drop(pnls, n) == d)
  }

  function Mdd(pnls: seq<real>, n: nat): real
    requires n <= |pnls|
  {
    if n == 0 then 0.0
    else if Drop(pnls, n) > Mdd(pnls, n - 1) then Drop(pnls, n) else Mdd(pnls, n - 1)
  }

  method ComputeMdd(pnls: seq<real>) returns (maxDd: real)
    ensures maxDd == Mdd(pnls, |pnls|) && IsLargestFall(pnls, maxDd)
  {
    MddExactly(pnls, Mdd(pnls, |pnls|));
    if pnls == [] {
      return 0.0;
    }
    var cumulative, peak := 0.0, 0.0;
    maxDd := 0.0;
    for i := 0 to |pnls|
      invariant cumulative == Cumulative(pnls, i) && peak == Peak(pnls, i) && maxDd == Mdd(pnls, i)
    {
      cumulative := cumulative + pnls[i];
      if cumulative > peak {
        peak := cumulative;
      }
      var dd;
      if peak > 0.0 {
        dd := (peak - cumulative) / peak;
      } else if cumulative < 0.0 {
        dd := 1.0;
      } else {
        dd := 0.0;
      }
      if dd > maxDd {
        maxDd := dd;
      }
    }
  }

  lemma {:induction false} PeakBounds(pnls: seq<real>, n: nat)
    requires n <= |pnls|
    ensures Peak(pnls, n) >= 0.0 && Cumulative(pnls, n) <= Peak(pnls, n)
    ensures forall i: nat :: i <= n ==> Cumulative(pnls, i) <= Peak(pnls, n)
    ensures exists i: nat :: i <= n && Cumulative(pnls, i) == Peak(pnls, n)
  {
    if n == 0 {
      assert Cumulative(pnls, 0) == Peak(pnls, 0);
    } else {
      PeakBounds(pnls, n - 1);
      if Cumulative(pnls, n) <= Peak(pnls, n - 1) {
        var i: nat :| i <= n - 1 && Cumulative(pnls, i) == Peak(pnls, n - 1);
        assert Cumulative(pnls, i) == Peak(pnls, n);
      }
    }
  }

  lemma {:induction false} MddIsWorst(pnls: seq<real>, n: nat)
    requires n <= |pnls|
    ensures forall i: nat :: i <= n ==> Drop(pnls, i) <= Mdd(pnls, n)
    ensures exists i: nat :: i <= n && Drop(pnls, i) == Mdd(pnls, n)
  {
    if n == 0 {
      assert Drop(pnls, 0) == Mdd(pnls, 0);
    } else {
      MddIsWorst(pnls, n - 1);
      if Drop(pnls, n) <= Mdd(pnls, n - 1) {
        var i: nat :| i <= n - 1 && Drop(pnls, i) == Mdd(pnls, n - 1);
        assert Drop(pnls, i) == Mdd(pnls, n);
      }
    }
  }

  /** The one-pass result is the worst drop from the running peak, and the largest fall from a
      high so far. */
  lemma MddIsWorstDrop(pnls: seq<real>)
    ensures IsWorstDrop(pnls, Mdd(pnls, |pnls|)) && IsLargestFall(pnls, Mdd(pnls, |pnls|))
  {
    MddIsWorst(pnls, |pnls|);
    MddIsLargestFall(pnls);
  }

  // ----- The drawdown without a running peak ----------------------------------------

  /** Profit after `i` trades is above zero and the highest there is up to `j`. */
  ghost predicate HighUntil(pnls: seq<real>, i: nat, j: nat) {
    && i <= j <= |pnls| && Cumulative(pnls, i) > 0.0
    && forall k: nat :: k <= j ==> Cumulative(pnls, k) <= Cumulative(pnls, i)
  }

  /** After `j` trades there is a loss, and there was never a profit. */
  ghost predicate OnlyLost(pnls: seq<real>, j: nat) {
    && j <= |pnls| && Cumulative(pnls, j) < 0.0
    && forall k: nat :: k <= j ==> Cumulative(pnls, k) <= 0.0
  }

  /** Falls of size `d`, a fall before any profit counting as 1. */
  ghost predicate FallsBy(pnls: seq<real>, d: real) {
    || (exists i: nat, j: nat :: HighUntil(pnls, i, j) && d == Fall(pnls, i, j))
    || (d == 1.0 && exists j: nat :: OnlyLost(pnls, j))
  }

  /** `d` is the largest fall from a high so far, zero when there is none. */
  ghost predicate IsLargestFall(pnls: seq<real>, d: real) {
    && d >= 0.0 && (d == 0.0 || FallsBy(pnls, d))
    && (forall i: nat, j: nat :: HighUntil(pnls, i, j) ==> Fall(pnls, i, j) <= d)
    && ((exists j: nat :: OnlyLost(pnls, j)) ==> 1.0 <= d)
  }

  /** The drop after `n` trades is a fall, or zero. */
  lemma DropIsFall(pnls: seq<real>, n: nat)
    requires n <= |pnls|
    ensures Drop(pnls, n) == 0.0 || FallsBy(pnls, Drop(pnls, n))
    ensures forall i: nat :: HighUntil(pnls, i, n) ==> Fall(pnls, i, n) == Drop(pnls, n)
    ensures OnlyLost(pnls, n) ==> Drop(pnls, n) == 1.0
  {
    PeakBounds(pnls, n);
    var i: nat :| i <= n && Cumulative(pnls, i) == Peak(pnls, n);
    if Peak(pnls, n) > 0.0 {
      assert HighUntil(pnls, i, n);
    } else if Cumulative(pnls, n) < 0.0 {
      assert OnlyLost(pnls, n);
    }
  }

  lemma LargestFallUnique(pnls: seq<real>, d: real, e: real)
    requires IsLargestFall(pnls, d) && IsLargestFall(pnls, e)
    ensures d <= e
  {
  }

  lemma MddIsLargestFall(pnls: seq<real>)
    ensures IsLargestFall(pnls, Mdd(pnls, |pnls|))
  {
    var m := Mdd(pnls, |pnls|);
    MddIsWorst(pnls, |pnls|);
    MddGrows(pnls, 0, |pnls|);
    var worst: nat :| worst <= |pnls| && Drop(pnls, worst) == m;
    DropIsFall(pnls, worst);
    forall i: nat, j: nat | HighUntil(pnls, i, j) ensures Fall(pnls, i, j) <= m {
      DropIsFall(pnls, j);
      assert Drop(pnls, j) <= m;
    }
    forall j: nat | OnlyLost(pnls, j) ensures 1.0 <= m {
      DropIsFall(pnls, j);
      assert Drop(pnls, j) <= m;
    }
  }

  /** The one-pass result is the largest fall from a high so far. */
  lemma MddExactly(pnls: seq<real>, d: real)
    ensures d == Mdd(pnls, |pnls|) <==> IsLargestFall(pnls, d)
  {
    MddIsLargestFall(pnls);
    if IsLargestFall(pnls, d) {
      LargestFallUnique(pnls, d, Mdd(pnls, |pnls|));
      LargestFallUnique(pnls, Mdd(pnls, |pnls|), d);
    }
  }

  /** No fall from a profitable point to a later one that is not a loss exceeds it. */
  lemma PairDropBounded(pnls: seq<real>, i: nat, j: nat)
    requires i <= j <= |pnls| && Cumulative(pnls, i) > 0.0 && Cumulative(pnls, j) >= 0.0
    ensures (Cumulative(pnls, i) - Cumulative(pnls, j)) / Cumulative(pnls, i) <= Mdd(pnls, |pnls|)
  {
    PeakBounds(pnls, j);
    MddIsWorst(pnls, |pnls|);
    FallGrowsWithHigh(Cumulative(pnls, i), Peak(pnls, j), Cumulative(pnls, j));
    assert Drop(pnls, j) <= Mdd(pnls, |pnls|);
  }

  /** The relative fall from profit after `i` trades to profit after `j`. */
  function Fall(pnls: seq<real>, i: nat, j: nat): real
    requires i <= |pnls| && j <= |pnls| && Cumulative(pnls, i) > 0.0
  {
    (Cumulative(pnls, i) - Cumulative(pnls, j)) / Cumulative(pnls, i)
  }

  /** No fall to the point after `j` trades exceeds the drop that is measured there. */
  ghost predicate DropCovers(pnls: seq<real>, j: nat)
    requires j <= |pnls|
  {
    forall i: nat :: i <= j && Cumulative(pnls, i) > 0.0 ==> Fall(pnls, i, j) <= Drop(pnls, j)
  }

  /** Profit has had at most one positive level until then. */
  ghost predicate OneLevel(pnls: seq<real>, j: nat)
    requires j <= |pnls|
  {
    forall i: nat, k: nat :: i <= j && k <= j && Cumulative(pnls, i) > 0.0 && Cumulative(pnls, k) > 0.0 ==>
      Cumulative(pnls, i) == Cumulative(pnls, k)
  }

  lemma FallFromBelowPeak(pnls: seq<real>, i: nat, j: nat)
    requires i <= j <= |pnls| && Cumulative(pnls, i) > 0.0
    ensures Fall(pnls, i, j) <= Drop(pnls, j) <==>
      Cumulative(pnls, j) >= 0.0 || Cumulative(pnls, i) == Peak(pnls, j)
  {
    PeakBounds(pnls, j);
    if Cumulative(pnls, j) >= 0.0 {
      FallGrowsWithHigh(Cumulative(pnls, i), Peak(pnls, j), Cumulative(pnls, j));
    } else if Cumulative(pnls, i) < Peak(pnls, j) {
      FallShrinksWithHigh(Cumulative(pnls, i), Peak(pnls, j), Cumulative(pnls, j));
    }
  }

  /** The drop at a point covers every fall to it if and only if profit is not negative there,
      or had a single positive level until then. */
  lemma DropCoversExactly(pnls: seq<real>, j: nat)
    requires j <= |pnls|
    ensures DropCovers(pnls, j) <==> Cumulative(pnls, j) >= 0.0 || OneLevel(pnls, j)
  {
    PeakBounds(pnls, j);
    forall i: nat | i <= j && Cumulative(pnls, i) > 0.0
      ensures Fall(pnls, i, j) <= Drop(pnls, j) <==> Cumulative(pnls, j) >= 0.0 || Cumulative(pnls, i) == Peak(pnls, j)
    {
      FallFromBelowPeak(pnls, i, j);
    }
  }

  lemma {:induction false} CumulativePrefix(pnls: seq<real>, more: seq<real>, n: nat)
    requires n <= |pnls|
    ensures Cumulative(pnls + more, n) == Cumulative(pnls, n)
    ensures Peak(pnls + more, n) == Peak(pnls, n)
    ensures Mdd(pnls + more, n) == Mdd(pnls, n)
  {
    if n > 0 {
      CumulativePrefix(pnls, more, n - 1);
    }
  }

  lemma {:induction false} MddGrows(pnls: seq<real>, m: nat, n: nat)
    requires m <= n <= |pnls|
    ensures Mdd(pnls, m) <= Mdd(pnls, n)
  {
    if m < n {
      MddGrows(pnls, m, n - 1);
    }
  }

  /** More trades never lower the drawdown. */
  lemma MddMonotone(pnls: seq<real>, more: seq<real>)
    ensures Mdd(pnls, |pnls|) <= Mdd(pnls + more, |pnls + more|)
  {
    CumulativePrefix(pnls, more, |pnls|);
    MddGrows(pnls + more, |pnls|, |pnls + more|);
  }

  lemma FractionSign(p: real, c: real)
    requires p > 0.0
    ensures (p - c) / p <= 0.0 <==> p <= c
    ensures (p - c) / p >= 1.0 <==> c <= 0.0
    ensures (p - c) / p <= 0.05 <==> c >= 0.95 * p
  {
    var x := (p - c) / p;
    assert x * p == p - c;
    SignOfProduct(x, p);
    SignOfProduct(x - 1.0, p);
    SignOfProduct(x - 0.05, p);
  }

  lemma DropAtMost(pnls: seq<real>, n: nat)
    requires n <= |pnls|
    ensures Drop(pnls, n) <= 0.0 <==> Cumulative(pnls, n) >= Peak(pnls, n)
    ensures Drop(pnls, n) >= 1.0 <==> Cumulative(pnls, n) < 0.0 || (Cumulative(pnls, n) <= 0.0 && Peak(pnls, n) > 0.0)
    ensures Drop(pnls, n) <= 0.05 <==> Cumulative(pnls, n) >= 0.95 * Peak(pnls, n)
  {
    PeakBounds(pnls, n);
    if Peak(pnls, n) > 0.0 {
      FractionSign(Peak(pnls, n), Cumulative(pnls, n));
    }
  }

  lemma {:induction false} NoLossStaysAtPeak(pnls: seq<real>, n: nat)
    requires n <= |pnls| && forall i :: 0 <= i < n ==> pnls[i] >= 0.0
    ensures Cumulative(pnls, n) == Peak(pnls, n)
  {
    if n > 0 {
      NoLossStaysAtPeak(pnls, n - 1);
    }
  }

  /** The drawdown is zero exactly when no trade loses. */
  lemma ZeroExactlyWithoutLoss(pnls: seq<real>)
    ensures Mdd(pnls, |pnls|) == 0.0 <==> forall i :: 0 <= i < |pnls| ==> pnls[i] >= 0.0
  {
    MddIsWorst(pnls, |pnls|);
    MddGrows(pnls, 0, |pnls|);
    assert Drop(pnls, 0) == 0.0;
    if Mdd(pnls, |pnls|) == 0.0 {
      forall i | 0 <= i < |pnls| ensures pnls[i] >= 0.0 {
        assert Drop(pnls, i + 1) <= 0.0 && Drop(pnls, i) <= 0.0;
        DropAtMost(pnls, i);
        DropAtMost(pnls, i + 1);
      }
    } else if forall i :: 0 <= i < |pnls| ==> pnls[i] >= 0.0 {
      var n: nat :| n <= |pnls| && Drop(pnls, n) == Mdd(pnls, |pnls|);
      NoLossStaysAtPeak(pnls, n);
      DropAtMost(pnls, n);
    }
  }

  /** The drawdown is total exactly when profit at some point goes below zero, or falls back
      to zero from above. */
  lemma TotalExactlyWhenLostAll(pnls: seq<real>)
    ensures Mdd(pnls, |pnls|) >= 1.0 <==>
      exists n: nat :: n <= |pnls| &&
        (Cumulative(pnls, n) < 0.0 || (Cumulative(pnls, n) == 0.0 && Peak(pnls, n) > 0.0))
  {
    MddIsWorst(pnls, |pnls|);
    if Mdd(pnls, |pnls|) >= 1.0 {
      var n: nat :| n <= |pnls| && Drop(pnls, n) == Mdd(pnls, |pnls|);
      DropAtMost(pnls, n);
    }
    if n: nat :| n <= |pnls| && (Cumulative(pnls, n) < 0.0 || (Cumulative(pnls, n) == 0.0 && Peak(pnls, n) > 0.0)) {
      DropAtMost(pnls, n);
      assert Drop(pnls, n) <= Mdd(pnls, |pnls|);
    }
  }

  lemma {:induction false} ZeroTradesSumToZero(pnls: seq<real>, n: nat)
    requires n <= |pnls| && forall i :: 0 <= i < n ==> pnls[i] == 0.0
    ensures Cumulative(pnls, n) == 0.0
  {
    if n > 0 {
      ZeroTradesSumToZero(pnls, n - 1);
    }
  }

  // ----- The live gate --------------------------------------------------------------

  const SHARPE_GATE := 2.5
  const MDD_GATE := 0.05
  const MIN_DAILY_SIGNALS := 100.0

  predicate LiveEligible(sharpe: real, mdd: real, signalsPerDay: real) {
    !(sharpe < SHARPE_GATE) && !(mdd > MDD_GATE) && !(signalsPerDay < MIN_DAILY_SIGNALS)
  }

  /** Profit after `n` trades is at least 95% of its running peak. */
  predicate NearPeak(pnls: seq<real>, n: nat)
    requires n <= |pnls|
  {
    Cumulative(pnls, n) >= 0.95 * Peak(pnls, n)
  }

  /** Signals per day over a period, given the length of a day; zero for an empty period. */
  function PerDay(count: nat, start: int, end: int, day: int): real
    requires day > 0
  {
    if end > start then count as real / ((end - start) as real / day as real) else 0.0
  }

  lemma PerDayAtLeast(count: nat, length: int, day: int)
    requires day > 0 && length > 0
    ensures count as real / (length as real / day as real) >= 100.0 <==> count * day >= 100 * length
  {
    var days := length as real / day as real;
    assert days * day as real == length as real;
    SignOfProduct(days, day as real);
    var rate := count as real / days;
    assert rate * days == count as real;
    assert (rate - 100.0) * days == count as real - 100.0 * days;
    SignOfProduct(rate - 100.0, days);
    assert (count as real - 100.0 * days) * day as real == count as real * day as real - 100.0 * length as real;
    SignOfProduct(count as real - 100.0 * days, day as real);
    assert (count * day) as real == count as real * day as real;
  }

  /** All three gates are passed at equality. */
  lemma GatesIncludeTheirBounds()
    ensures LiveEligible(2.5, 0.05, 100.0)
  {
  }

  /** Whatever the other figures, a history passes the drawdown gate exactly when profit
      never falls below 95% of its running peak. */
  lemma GateExactly(pnls: seq<real>)
    ensures (exists sharpe, signals :: LiveEligible(sharpe, Mdd(pnls, |pnls|), signals)) <==>
      forall n: nat :: n <= |pnls| ==> NearPeak(pnls, n)
  {
    MddIsWorst(pnls, |pnls|);
    var d := Mdd(pnls, |pnls|);
    if d <= 0.05 {
      assert LiveEligible(2.5, d, 100.0);
      forall n: nat | n <= |pnls| ensures NearPeak(pnls, n) {
        DropAtMost(pnls, n);
        assert Drop(pnls, n) <= d;
      }
    } else {
      var n: nat :| n <= |pnls| && Drop(pnls, n) == d;
      DropAtMost(pnls, n);
      assert !NearPeak(pnls, n);
    }
  }

  /** A history whose first trade that is not zero is a loss never becomes live. */
  lemma FirstLossBlocks(pnls: seq<real>, k: nat, sharpe: real, signalsPerDay: real)
    requires k < |pnls| && pnls[k] < 0.0 && forall i :: 0 <= i < k ==> pnls[i] == 0.0
    ensures Mdd(pnls, |pnls|) >= 1.0 && !LiveEligible(sharpe, Mdd(pnls, |pnls|), signalsPerDay)
  {
    ZeroTradesSumToZero(pnls, k);
    assert Cumulative(pnls, k + 1) < 0.0;
    TotalExactlyWhenLostAll(pnls);
  }

  // ----- Splitting a period into windows --------------------------------------------

  datatype Trade = Trade(ts: int, pnl: real)

  datatype Window = Window(start: int, end: int, trades: seq<Trade>)

  function Within(trades: seq<Trade>, lo: int, hi: int): seq<Trade> {
    if trades == [] then []
    else
      var n := |trades| - 1;
      var rest := Within(trades[..n], lo, hi);
      if lo <= trades[n].ts < hi then rest + [trades[n]] else rest
  }

  function Pnls(trades: seq<Trade>): seq<real> {
    seq(|trades|, i requires 0 <= i < |trades| => trades[i].pnl)
  }

  function TotalPnl(trades: seq<Trade>): real {
    if trades == [] then 0.0 else TotalPnl(trades[..|trades| - 1]) + trades[|trades| - 1].pnl
  }

  function Joined(windows: seq<Window>): seq<Trade> {
    if windows == [] then [] else Joined(windows[..|windows| - 1]) + windows[|windows| - 1].trades
  }

  /** What the query returns: trades in order of time, from `start` through `end`. */
  ghost predicate Queried(trades: seq<Trade>, start: int, end: int) {
    && (forall i :: 0 <= i < |trades| ==> start <= trades[i].ts <= end)
    && (forall i, j :: 0 <= i < j < |trades| ==> trades[i].ts <= trades[j].ts)
  }

  predicate Aligned(x: int, delta: nat)
    requires delta >= 1
  {
    x % delta == 0
  }

  /** Where the windows of length `delta` end: the first boundary at or after `end`. */
  ghost predicate IsCut(cut: int, start: int, end: int, delta: nat)
    requires delta >= 1
  {
    cut >= end && cut - delta < end && cut >= start && Aligned(cut - start, delta)
  }

  ghost predicate IsWindow(w: Window, trades: seq<Trade>, start: int, delta: nat)
    requires delta >= 1
  {
    && w.end == w.start + delta && w.start >= start && Aligned(w.start - start, delta)
    && w.trades == Within(trades, w.start, w.end) != []
  }

  ghost predicate WindowsOf(windows: seq<Window>, trades: seq<Trade>, start: int, delta: nat)
    requires delta >= 1
  {
    forall k :: 0 <= k < |windows| ==> IsWindow(windows[k], trades, start, delta)
  }

  /** The windows and profits of the trades in front of boundary `cut`. */
  ghost predicate SplitUpTo(windows: seq<Window>, allPnls: seq<real>, trades: seq<Trade>, start: int, delta: nat,
                            cut: int)
    requires delta >= 1
  {
    && start <= cut && Aligned(cut - start, delta) && WindowsOf(windows, trades, start, delta)
    && Joined(windows) == Within(trades, start, cut) && allPnls == Pnls(Within(trades, start, cut))
  }

  lemma NextWindow(windows: seq<Window>, allPnls: seq<real>, trades: seq<Trade>, start: int, delta: nat, cut: int)
    requires delta >= 1 && forall i, j :: 0 <= i < j < |trades| ==> trades[i].ts <= trades[j].ts
    requires SplitUpTo(windows, allPnls, trades, start, delta, cut)
    ensures var more := Within(trades, cut, cut + delta);
      if more == [] then SplitUpTo(windows, allPnls, trades, start, delta, cut + delta)
      else SplitUpTo(windows + [Window(cut, cut + delta, more)], allPnls + Pnls(more), trades, start, delta,
        cut + delta)
  {
    var more := Within(trades, cut, cut + delta);
    WithinJoin(trades, start, cut, cut + delta);
    NextBoundary(cut - start, delta);
    PnlsConcat(Within(trades, start, cut), more);
    JoinedAppend(windows, Window(cut, cut + delta, more));
  }

  /** Splits a period into the windows that hold trades. Put together they are the trades in
      front of the last boundary, in order. */
  method SplitWindows(trades: seq<Trade>, start: int, end: int, delta: nat)
    returns (windows: seq<Window>, allPnls: seq<real>, ghost cut: int)
    requires delta >= 1 && start <= end && Queried(trades, start, end)
    ensures IsCut(cut, start, end, delta) && WindowsOf(windows, trades, start, delta)
    ensures Joined(windows) == Within(trades, start, cut)
    ensures allPnls == Pnls(Within(trades, start, cut))
  {
    windows, allPnls := [], [];
    var currentStart := start;
    WithinNone(trades, start, start);
    while currentStart < end
      invariant currentStart - delta < end && SplitUpTo(windows, allPnls, trades, start, delta, currentStart)
      decreases end - currentStart
    {
      NextWindow(windows, allPnls, trades, start, delta, currentStart);
      var currentEnd := currentStart + delta;
      var windowTrades := Within(trades, currentStart, currentEnd);
      if windowTrades != [] {
        windows := windows + [Window(currentStart, currentEnd, windowTrades)];
        allPnls := allPnls + Pnls(windowTrades);
      }
      currentStart := currentEnd;
    }
    cut := currentStart;
  }

  lemma PnlsConcat(a: seq<Trade>, b: seq<Trade>)
    ensures Pnls(a + b) == Pnls(a) + Pnls(b)
  {
  }

  lemma JoinedAppend(windows: seq<Window>, w: Window)
    ensures Joined(windows + [w]) == Joined(windows) + w.trades
  {
    assert (windows + [w])[..|windows|] == windows;
  }

  lemma NextBoundary(x: int, delta: nat)
    requires delta >= 1 && Aligned(x, delta)
    ensures Aligned(x + delta, delta)
  {
    var p, q := (x + delta) / delta, x / delta;
    assert (x + delta) % delta == (q + 1 - p) * delta;
    SmallMultiple(q + 1 - p, delta);
  }

  lemma SmallMultiple(k: int, d: int)
    requires -d < k * d < d
    ensures k == 0
  {
    if k != 0 { Magnitude(k, d); }
  }

  lemma Magnitude(k: int, d: int)
    requires k != 0 && d >= 1
    ensures k * d >= d || k * d <= -d
  {
    if k >= 1 { assert (k - 1) * d >= 0; } else { assert (-k - 1) * d >= 0; }
  }

  lemma {:induction false} WithinNone(trades: seq<Trade>, lo: int, hi: int)
    requires hi <= lo
    ensures Within(trades, lo, hi) == []
  {
    if trades != [] {
      WithinNone(trades[..|trades| - 1], lo, hi);
    }
  }

  lemma {:induction false} WithinJoin(trades: seq<Trade>, lo: int, mid: int, hi: int)
    requires lo <= mid <= hi && forall i, j :: 0 <= i < j < |trades| ==> trades[i].ts <= trades[j].ts
    ensures Within(trades, lo, hi) == Within(trades, lo, mid) + Within(trades, mid, hi)
  {
    if trades != [] {
      var n := |trades| - 1;
      WithinJoin(trades[..n], lo, mid, hi);
      if trades[n].ts < mid {
        WithinEarlier(trades[..n], mid, hi);
      }
    }
  }

  lemma {:induction false} WithinEarlier(trades: seq<Trade>, lo: int, hi: int)
    requires forall i :: 0 <= i < |trades| ==> trades[i].ts < lo
    ensures Within(trades, lo, hi) == []
  {
    if trades != [] {
      WithinEarlier(trades[..|trades| - 1], lo, hi);
    }
  }

  lemma {:induction false} WithinAll(trades: seq<Trade>, lo: int, hi: int)
    ensures |Within(trades, lo, hi)| <= |trades|
    ensures Within(trades, lo, hi) == trades <==> forall i :: 0 <= i < |trades| ==> lo <= trades[i].ts < hi
  {
    if trades != [] {
      var n := |trades| - 1;
      WithinAll(trades[..n], lo, hi);
      assert trades == trades[..n] + [trades[n]];
      assert |Within(trades[..n], lo, hi)| <= n;
    }
  }

  lemma CutAtEnd(cut: int, start: int, end: int, delta: nat)
    requires delta >= 1 && start <= end && IsCut(cut, start, end, delta)
    ensures cut == end <==> (end - start) % delta == 0
  {
    if (end - start) % delta == 0 {
      var p, q := (cut - start) / delta, (end - start) / delta;
      assert (p - q) * delta == cut - end;
      SmallMultiple(p - q, delta);
    }
  }

  /** The windows miss a trade exactly when one falls on the very end of a period that is a
      whole number of windows. */
  lemma WindowsCompleteExactly(trades: seq<Trade>, start: int, end: int, delta: nat, cut: int)
    requires delta >= 1 && start <= end && Queried(trades, start, end) && IsCut(cut, start, end, delta)
    ensures Within(trades, start, cut) == trades <==>
      !((end - start) % delta == 0 && exists i :: 0 <= i < |trades| && trades[i].ts == end)
  {
    CutAtEnd(cut, start, end, delta);
    WithinAll(trades, start, cut);
  }

  lemma {:induction false} TotalPnlConcat(a: seq<Trade>, b: seq<Trade>)
    ensures TotalPnl(a + b) == TotalPnl(a) + TotalPnl(b)
  {
    if b == [] {
      assert a + b == a;
    } else {
      var n := |b| - 1;
      assert (a + b)[..|a + b| - 1] == a + b[..n];
      TotalPnlConcat(a, b[..n]);
    }
  }

  /** The overall profit is what the windows hold plus what falls on the final boundary. */
  lemma ProfitAccounted(trades: seq<Trade>, start: int, end: int, delta: nat, cut: int)
    requires delta >= 1 && start <= end && Queried(trades, start, end) && IsCut(cut, start, end, delta)
    ensures TotalPnl(trades) == TotalPnl(Within(trades, start, cut)) + TotalPnl(Within(trades, cut, end + delta))
  {
    ProfitSplits(trades, start, cut, end + delta);
  }

  lemma ProfitSplits(trades: seq<Trade>, lo: int, mid: int, hi: int)
    requires lo <= mid <= hi && forall i, j :: 0 <= i < j < |trades| ==> trades[i].ts <= trades[j].ts
    requires forall i :: 0 <= i < |trades| ==> lo <= trades[i].ts < hi
    ensures TotalPnl(trades) == TotalPnl(Within(trades, lo, mid)) + TotalPnl(Within(trades, mid, hi))
  {
    WithinAll(trades, lo, hi);
    WithinJoin(trades, lo, mid, hi);
    TotalPnlConcat(Within(trades, lo, mid), Within(trades, mid, hi));
  }

  /** The trades in front of a boundary are the first ones. */
  lemma {:induction false} BeforeBoundary(trades: seq<Trade>, start: int, cut: int) returns (c: nat)
    requires forall i :: 0 <= i < |trades| ==> start <= trades[i].ts
    requires forall i, j :: 0 <= i < j < |trades| ==> trades[i].ts <= trades[j].ts
    ensures c <= |trades| && Within(trades, start, cut) == trades[..c]
    ensures forall i :: 0 <= i < |trades| ==> (i < c <==> trades[i].ts < cut)
  {
    if trades == [] {
      c := 0;
    } else {
      var n := |trades| - 1;
      c := BeforeBoundary(trades[..n], start, cut);
      if trades[n].ts < cut {
        c := n + 1;
        WithinAll(trades, start, cut);
        assert trades[..c] == trades;
      } else {
        assert trades[..c] == trades[..n][..c];
      }
    }
  }

  /** What the gate is fed: the profits of the trades that are in a window. */
  function Gated(trades: seq<Trade>, start: int, cut: int): seq<real> { Pnls(Within(trades, start, cut)) }

  lemma GatedIsPrefix(trades: seq<Trade>, start: int, end: int, cut: int) returns (c: nat)
    requires Queried(trades, start, end)
    ensures c <= |trades| && Gated(trades, start, cut) == Pnls(trades)[..c]
    ensures forall i :: 0 <= i < |trades| ==> (i < c <==> trades[i].ts < cut)
  {
    c := BeforeBoundary(trades, start, cut);
    assert Pnls(trades[..c]) == Pnls(trades)[..c];
  }

  /** End to end: whatever the other figures, a strategy can pass the drawdown gate if and only
      if, up to each trade in front of the last boundary, profit has not fallen below 95% of its
      running peak. */
  lemma AnalyzedGateExactly(trades: seq<Trade>, start: int, end: int, cut: int)
    requires Queried(trades, start, end)
    ensures var gated := Gated(trades, start, cut);
      (exists sharpe, signals :: LiveEligible(sharpe, Mdd(gated, |gated|), signals)) <==>
        forall n: nat :: n <= |trades| && CountsUpTo(trades, cut, n) ==> NearPeak(Pnls(trades), n)
  {
    var gated, pnls := Gated(trades, start, cut), Pnls(trades);
    var c := GatedIsPrefix(trades, start, end, cut);
    GateExactly(gated);
    assert pnls == gated + pnls[c..];
    forall n: nat | n <= |trades|
      ensures CountsUpTo(trades, cut, n) <==> n <= c
      ensures n <= c ==> (NearPeak(pnls, n) <==> NearPeak(gated, n))
    {
      if n <= c { CumulativePrefix(gated, pnls[c..], n); }
    }
  }

  /** End to end, all three gates: a strategy goes live if and only if its Sharpe ratio is at
      least 2.5, there are at least 100 trades for each day of the period, which is not empty,
      and up to each trade in front of the last boundary profit stays within 95% of its peak. */
  lemma LiveExactly(trades: seq<Trade>, start: int, end: int, cut: int, sharpe: real, day: int)
    requires Queried(trades, start, end) && day > 0
    ensures var gated := Gated(trades, start, cut);
      LiveEligible(sharpe, Mdd(gated, |gated|), PerDay(|trades|, start, end, day)) <==>
        && sharpe >= 2.5
        && end > start && |trades| * day >= 100 * (end - start)
        && forall n: nat :: n <= |trades| && CountsUpTo(trades, cut, n) ==> NearPeak(Pnls(trades), n)
  {
    var gated := Gated(trades, start, cut);
    var d := Mdd(gated, |gated|);
    AnalyzedGateExactly(trades, start, end, cut);
    assert d <= 0.05 ==> LiveEligible(2.5, d, 100.0);
    if end > start { PerDayAtLeast(|trades|, end - start, day); }
  }

  /** The first `n` trades lie in front of the boundary. */
  predicate CountsUpTo(trades: seq<Trade>, cut: int, n: nat)
    requires n <= |trades|
  {
    n == 0 || trades[n - 1].ts < cut
  }

  /** End to end: when the first trade that is not zero is a loss, the drawdown is total if and
      only if that trade lies in front of the last boundary. */
  lemma FirstLossCountsExactly(trades: seq<Trade>, start: int, end: int, cut: int, k: nat)
    requires Queried(trades, start, end) && k < |trades| && trades[k].pnl < 0.0
    requires forall i :: 0 <= i < k ==> trades[i].pnl == 0.0
    ensures var gated := Gated(trades, start, cut); Mdd(gated, |gated|) >= 1.0 <==> trades[k].ts < cut
  {
    var gated := Gated(trades, start, cut);
    var c := GatedIsPrefix(trades, start, end, cut);
    if trades[k].ts < cut {
      FirstLossBlocks(gated, k, 0.0, 0.0);
    } else {
      assert forall i :: 0 <= i < |gated| ==> gated[i] == trades[i].pnl == 0.0;
      ZeroExactlyWithoutLoss(gated);
    }
  }

  /** A loss on the very end of a period of two windows is in no window. */
  lemma TradeOnEndMissed()
    ensures var trades := [Trade(0, 5.0), Trade(10, -4.0)];
      && Queried(trades, 0, 10) && IsCut(10, 0, 10, 5)
      && Within(trades, 0, 10) == [Trade(0, 5.0)] && TotalPnl(trades) == 1.0
  {
    var trades := [Trade(0, 5.0), Trade(10, -4.0)];
    assert trades[..1] == [Trade(0, 5.0)] && trades[..1][..0] == [];
    assert Within(trades[..1], 0, 10) == [] + [Trade(0, 5.0)];
    assert TotalPnl(trades[..1]) == 5.0;
  }

  // ----- The regime in force --------------------------------------------------------

  /** The regime is absent when the record does not name one. */
  datatype RegimeEntry = RegimeEntry(timestamp: int, named: Option<string>) {
    function Regime(): string { if named.Some? then named.value else "NORMAL" }
  }

  predicate Names(e: RegimeEntry, regime: string) {
    e.named == Some(regime) || (e.named == None && regime == "NORMAL")
  }

  /** Entry `k` is the last one at or before `ts`. */
  ghost predicate LastAtOrBefore(entries: seq<RegimeEntry>, k: nat, ts: int) {
    k < |entries| && entries[k].timestamp <= ts && forall i :: k < i < |entries| ==> ts < entries[i].timestamp
  }

  method FindRegimeAt(ts: int, entries: seq<RegimeEntry>) returns (regime: string)
    requires forall i, j :: 0 <= i < j < |entries| ==> entries[i].timestamp <= entries[j].timestamp
    ensures entries == [] ==> regime == "NORMAL"
    ensures entries != [] && ts < entries[0].timestamp ==> Names(entries[0], regime)
    ensures forall k: nat :: LastAtOrBefore(entries, k, ts) ==> Names(entries[k], regime)
  {
    if entries == [] {
      return "NORMAL";
    }
    regime := entries[0].Regime();
    for i := 0 to |entries|
      invariant forall j :: 0 <= j < i ==> entries[j].timestamp <= ts
      invariant regime == if i == 0 then entries[0].Regime() else entries[i - 1].Regime()
    {
      if entries[i].timestamp <= ts {
        regime := entries[i].Regime();
      } else {
        break;
      }
    }
  }
}
