/** Rolling percentiles by linear interpolation between order statistics, over exact reals.
    None stands for the IndexError of an element that is not there. */
module Percentiles {
  import opened Options
  import opened Sorting

  function Itself(x: real): real { x }

  // ----- Interpolation --------------------------------------------------------------

  /** The source's `int`: the fraction is dropped. */
  function Truncated(x: real): int { if x >= 0.0 then x.Floor else -(-x).Floor }

  /** Negative indexes count from the end. */
  function Element(s: seq<real>, i: int): Option<real> {
    if 0 <= i < |s| then Some(s[i]) else if -|s| <= i < 0 then Some(s[|s| + i]) else None
  }

  function Mix(x: real, y: real, f: real): real { x * (1.0 - f) + y * f }

  function Upper(s: seq<real>, lower: int): int { if lower + 1 < |s| - 1 then lower + 1 else |s| - 1 }

  /** The value at the fractional position `x`. */
  function Interpolated(s: seq<real>, x: real): Option<real> {
    var lower := Truncated(x);
    var frac := x - lower as real;
    var a, b := Element(s, lower), Element(s, Upper(s, lower));
    if a.None? || b.None? then None else Some(Mix(a.value, b.value, frac))
  }

  /** The value at a position inside the list. */
  function At(s: seq<real>, x: real): real
    requires s != [] && 0.0 <= x <= (|s| - 1) as real
  {
    Mix(s[x.Floor], s[Upper(s, x.Floor)], x - x.Floor as real)
  }

  lemma InsideInterpolated(s: seq<real>, x: real)
    requires s != [] && 0.0 <= x <= (|s| - 1) as real
    ensures Interpolated(s, x) == Some(At(s, x))
  {
    assert Truncated(x) == x.Floor && Element(s, x.Floor) == Some(s[x.Floor]);
  }

  /** A share of a length. */
  function Portion(share: real, length: real): real { share * length }

  lemma PortionInRange(share: real, length: real)
    requires 0.0 <= share <= 1.0 && length >= 0.0
    ensures 0.0 <= Portion(share, length) <= length
  {
    NonNegativeProduct(share, length);
    NonNegativeProduct(1.0 - share, length);
    assert (1.0 - share) * length == length - share * length;
  }

  lemma NonNegativeProduct(x: real, y: real)
    requires x >= 0.0 && y >= 0.0
    ensures x * y >= 0.0
  {
    if x > 0.0 && y > 0.0 {
      assert x * y > 0.0;
    } else {
      assert x == 0.0 || y == 0.0;
      assert x * y == 0.0;
    }
  }

  lemma PortionMonotone(share: real, share': real, length: real)
    requires share <= share' && length >= 0.0
    ensures Portion(share, length) <= Portion(share', length)
  {
    NonNegativeProduct(share' - share, length);
    assert (share' - share) * length == share' * length - share * length;
  }

  function Position(n: nat, pct: real): (x: real)
    requires n > 0 && 0.0 <= pct <= 100.0
    ensures 0.0 <= x <= (n - 1) as real
  {
    PortionInRange(pct / 100.0, (n - 1) as real);
    Portion(pct / 100.0, (n - 1) as real)
  }

  function Percentile(data: seq<real>, pct: real): Option<real> {
    if data == [] then Some(0.0) else Interpolated(Sort(data, Itself), Portion(pct / 100.0, (|data| - 1) as real))
  }

  class PercentileTracker {
    const windowSize: nat
    var data: seq<real>

    constructor (windowSize: nat)
      ensures data == [] && this.windowSize == windowSize
    {
      this.windowSize := windowSize;
      data := [];
    }

    /** Adds a value; the oldest leaves when there are too many. */
    method Add(value: real)
      requires |data| <= windowSize
      modifies this`data
      ensures |data| <= windowSize
      ensures if |old(data)| < windowSize then data == old(data) + [value]
              else data == (old(data) + [value])[1..]
    {
      data := data + [value];
      if |data| > windowSize {
        data := data[1..];
      }
    }

    method PercentileOf(pct: real) returns (r: Option<real>)
      ensures r == Percentile(data, pct)
    {
      if data == [] {
        return Some(0.0);
      }
      var sortedData := Sort(data, Itself);
      var idx := Portion(pct / 100.0, (|sortedData| - 1) as real);
      var lower := Truncated(idx);
      var upper := Upper(sortedData, lower);
      var frac := idx - lower as real;
      var a, b := Element(sortedData, lower), Element(sortedData, upper);
      if a.None? || b.None? {
        return None;
      }
      r := Some(Mix(a.value, b.value, frac));
    }
  }

  lemma MixIsPortion(x: real, y: real, f: real)
    ensures Mix(x, y, f) == x + Portion(f, y - x)
  {
  }

  lemma MixBetween(x: real, y: real, f: real)
    requires x <= y && 0.0 <= f <= 1.0
    ensures x <= Mix(x, y, f) <= y
  {
    MixIsPortion(x, y, f);
    PortionInRange(f, y - x);
  }

  lemma MixMonotone(x: real, y: real, f: real, g: real)
    requires x <= y && f <= g
    ensures Mix(x, y, f) <= Mix(x, y, g)
  {
    MixIsPortion(x, y, f);
    MixIsPortion(x, y, g);
    PortionMonotone(f, g, y - x);
  }

  lemma AtBetween(s: seq<real>, x: real)
    requires s != [] && Sorted(s, Itself) && 0.0 <= x <= (|s| - 1) as real
    ensures var k := x.Floor; s[k] <= At(s, x) <= s[if k + 1 < |s| then k + 1 else k]
  {
    var lower := x.Floor;
    assert Itself(s[lower]) <= Itself(s[Upper(s, lower)]);
    MixBetween(s[lower], s[Upper(s, lower)], x - lower as real);
  }

  lemma AtMonotone(s: seq<real>, x: real, y: real)
    requires s != [] && Sorted(s, Itself) && 0.0 <= x <= y <= (|s| - 1) as real
    ensures At(s, x) <= At(s, y)
  {
    var i, j := x.Floor, y.Floor;
    AtBetween(s, x);
    AtBetween(s, y);
    if i == j {
      assert Itself(s[i]) <= Itself(s[Upper(s, i)]);
      MixMonotone(s[i], s[Upper(s, i)], x - i as real, y - i as real);
    } else {
      assert Itself(s[i + 1]) <= Itself(s[j]);
    }
  }

  /** From 0 to 100 percentiles exist and grow with the percentage. */
  lemma PercentileMonotone(data: seq<real>, p: real, q: real)
    requires 0.0 <= p <= q <= 100.0
    ensures Percentile(data, p).Some? && Percentile(data, q).Some?
    ensures Percentile(data, p).value <= Percentile(data, q).value
  {
    if data != [] {
      var s := Sort(data, Itself);
      SortSorted(data, Itself);
      PortionMonotone(p / 100.0, q / 100.0, (|data| - 1) as real);
      AtMonotone(s, Position(|data|, p), Position(|data|, q));
      InsideInterpolated(s, Position(|data|, p));
      InsideInterpolated(s, Position(|data|, q));
    }
  }

  /** A percentile exists if and only if its position, fraction dropped, is an index of the
      data, counted from either end. */
  lemma PercentileExistsExactly(data: seq<real>, pct: real)
    requires data != []
    ensures var x, n := Portion(pct / 100.0, (|data| - 1) as real), |data| as real;
      Percentile(data, pct).Some? <==> -n - 1.0 < x < n
  {
  }

  /** The percentile exists and lies between the smallest and the largest value. */
  ghost predicate StaysWithin(data: seq<real>, pct: real)
    requires data != []
  {
    var s := Sort(data, Itself);
    Percentile(data, pct).Some? && s[0] <= Percentile(data, pct).value <= s[|s| - 1]
  }

  lemma SortOfSorted(s: seq<real>)
    requires Sorted(s, Itself)
    ensures Sort(s, Itself) == s
  {
    SortSorted(s, Itself);
    assert Keyed(s, Itself);
    SortedUnique(Sort(s, Itself), s, Itself);
  }

  lemma InsideStays(s: seq<real>, x: real)
    requires s != [] && Sorted(s, Itself)
    requires 0.0 <= x < |s| as real || (-(|s| as real) - 1.0 < x < |s| as real && x == x.Floor as real)
    ensures Interpolated(s, x).Some? && s[0] <= Interpolated(s, x).value <= s[|s| - 1]
  {
    var n := |s| - 1;
    if 0.0 <= x {
      var k := x.Floor;
      assert Truncated(x) == k && Itself(s[0]) <= Itself(s[k]) <= Itself(s[Upper(s, k)]) <= Itself(s[n]);
      MixBetween(s[k], s[Upper(s, k)], x - k as real);
    } else {
      var k := x.Floor;
      assert Truncated(x) == k && -|s| <= k < 0;
      assert Itself(s[0]) <= Itself(s[|s| + k]) <= Itself(s[n]);
      assert Element(s, Upper(s, k)).Some?;
    }
  }

  lemma SortedStays(data: seq<real>, pct: real)
    requires data != []
    requires var x, n := Portion(pct / 100.0, (|data| - 1) as real), |data| as real;
      -n - 1.0 < x < n && (x >= 0.0 || x == x.Floor as real)
    ensures StaysWithin(data, pct)
  {
    SortSorted(data, Itself);
    InsideStays(Sort(data, Itself), Portion(pct / 100.0, (|data| - 1) as real));
  }

  /** Zeros up to index `k`, then ones. */
  function StepAt(n: nat, k: nat): (s: seq<real>)
    ensures |s| == n && (k <= n ==> Sorted(s, Itself))
  {
    seq(n, i requires 0 <= i < n => if i < k then 0.0 else 1.0)
  }

  lemma InterpolatedBetween(s: seq<real>, x: real, a: real, b: real)
    requires Element(s, Truncated(x)) == Some(a) && Element(s, Upper(s, Truncated(x))) == Some(b)
    ensures Interpolated(s, x) == Some(Mix(a, b, x - Truncated(x) as real))
  {
  }

  lemma IntegerFloor(x: real, k: int)
    requires x == k as real
    ensures x == x.Floor as real
  {
  }

  /** The fraction of a negative position is negative. */
  lemma NegativeFraction(x: real)
    requires x < 0.0 && x != x.Floor as real
    ensures -1.0 < x - Truncated(x) as real < 0.0
  {
    var k := (-x).Floor;
    assert k as real <= -x < k as real + 1.0 && Truncated(x) == -k;
    if -x == k as real {
      IntegerFloor(x, -k);
    }
  }

  /** Below zero, between two indexes, a list with its step there is left. */
  lemma StepLeft(n: nat, x: real) returns (k: nat)
    requires n >= 2 && -(n as real) - 1.0 < x < 0.0 && x != x.Floor as real
    ensures 1 <= k < n
    ensures var s := StepAt(n, k);
      Interpolated(s, x).Some? && !(0.0 <= Interpolated(s, x).value <= 1.0) && s[0] == 0.0 && s[n - 1] == 1.0
  {
    var lower := Truncated(x);
    k := if lower >= -1 then 1 else n + lower + 1;
    var s := StepAt(n, k);
    NegativeFraction(x);
    assert Upper(s, lower) == lower + 1;
    if lower == -1 {
      InterpolatedBetween(s, x, 1.0, 0.0);
    } else {
      InterpolatedBetween(s, x, 0.0, 1.0);
    }
  }

  /** Where the percentile of two values or more exists, it lies within the data, whatever the
      data, if and only if its position is not negative or an integer: between two negative
      indexes, or between -1 and 0, it extrapolates. */
  lemma PercentileWithinExactly(n: nat, pct: real)
    requires n >= 2 && -(n as real) - 1.0 < Portion(pct / 100.0, (n - 1) as real) < n as real
    ensures var x := Portion(pct / 100.0, (n - 1) as real);
      (forall data: seq<real> :: |data| == n ==> StaysWithin(data, pct)) <==> x >= 0.0 || x == x.Floor as real
  {
    var x := Portion(pct / 100.0, (n - 1) as real);
    if x >= 0.0 || x == x.Floor as real {
      forall data: seq<real> | |data| == n ensures StaysWithin(data, pct) {
        SortedStays(data, pct);
      }
    } else {
      var k := StepLeft(n, x);
      SortOfSorted(StepAt(n, k));
      assert !StaysWithin(StepAt(n, k), pct);
    }
  }

  lemma ExampleBelow(s: seq<real>)
    requires s == [0.0, 10.0]
    ensures Interpolated(s, Portion(-50.0 / 100.0, 1.0)) == Some(-5.0)
  {
    assert Portion(-50.0 / 100.0, 1.0) == -0.5 && Truncated(-0.5) == 0;
    InterpolatedBetween(s, -0.5, 0.0, 10.0);
  }

  /** Between positions -1 and 0 the result falls below the smallest value. */
  lemma NegativePercentageExtrapolates(data: seq<real>)
    requires data == [0.0, 10.0]
    ensures Percentile(data, -50.0) == Some(-5.0)
  {
    SortOfSorted(data);
    ExampleBelow(data);
  }

  /** At position -1 stands the largest value. */
  lemma NegativePercentageWraps(data: seq<real>, pct: real)
    requires |data| >= 2 && Portion(pct / 100.0, (|data| - 1) as real) == -1.0
    ensures Percentile(data, pct) == Percentile(data, 100.0)
  {
    var s := Sort(data, Itself);
    var last := (|s| - 1) as real;
    assert Truncated(-1.0) == -1 && Element(s, -1) == Some(s[|s| - 1]);
    assert Interpolated(s, -1.0) == Some(Mix(s[|s| - 1], s[0], 0.0));
    assert Position(|data|, 100.0) == last;
    InsideInterpolated(s, last);
    AtEnds(s);
  }

  /** The order in which values arrive does not matter. */
  lemma PercentileOrderFree(data: seq<real>, other: seq<real>, pct: real)
    requires multiset(data) == multiset(other)
    ensures Percentile(data, pct) == Percentile(other, pct)
  {
    SameSize(data, other);
    SortSorted(data, Itself);
    SortSorted(other, Itself);
    SortedUnique(Sort(data, Itself), Sort(other, Itself), Itself);
  }

  /** The 0th percentile is the smallest value and the 100th the largest. */
  lemma PercentileEnds(data: seq<real>, v: real)
    requires v in data
    ensures var low, high := Percentile(data, 0.0), Percentile(data, 100.0);
      low.Some? && high.Some? && low.value <= v <= high.value && low.value in data && high.value in data
  {
    var s := Sort(data, Itself);
    SortSorted(data, Itself);
    assert Position(|data|, 0.0) == 0.0 && Position(|data|, 100.0) == (|s| - 1) as real;
    AtEnds(s);
    InsideInterpolated(s, 0.0);
    InsideInterpolated(s, (|s| - 1) as real);
    assert v in multiset(s) && s[0] in multiset(data) && s[|s| - 1] in multiset(data);
  }

  lemma AtEnds(s: seq<real>)
    requires s != []
    ensures At(s, 0.0) == s[0] && At(s, (|s| - 1) as real) == s[|s| - 1]
  {
    var last := (|s| - 1) as real;
    assert last.Floor == |s| - 1;
  }

  // ----- Percentiles by rank --------------------------------------------------------

  /** How many values are less than `v`, and how many are no greater. */
  function Below(data: seq<real>, v: real): nat {
    if data == [] then 0 else Below(data[..|data| - 1], v) + if data[|data| - 1] < v then 1 else 0
  }

  function UpTo(data: seq<real>, v: real): nat {
    if data == [] then 0 else UpTo(data[..|data| - 1], v) + if data[|data| - 1] <= v then 1 else 0
  }

  /** `v` is the value of rank `k`, counted from zero: no more than `k` values are less, and
      more than `k` are no greater. */
  predicate HasRank(data: seq<real>, k: nat, v: real) {
    Below(data, v) <= k < UpTo(data, v)
  }

  lemma CountAppend(data: seq<real>, x: real, v: real)
    ensures Below(data + [x], v) == Below(data, v) + if x < v then 1 else 0
    ensures UpTo(data + [x], v) == UpTo(data, v) + if x <= v then 1 else 0
  {
    assert (data + [x])[..|data|] == data;
  }

  lemma {:induction false} CountInsert(s: seq<real>, x: real, v: real)
    ensures Below(Insert(s, x, Itself), v) == Below(s, v) + if x < v then 1 else 0
    ensures UpTo(Insert(s, x, Itself), v) == UpTo(s, v) + if x <= v then 1 else 0
  {
    if s == [] || s[|s| - 1] <= x {
      CountAppend(s, x, v);
    } else {
      var init, last := s[..|s| - 1], s[|s| - 1];
      CountInsert(init, x, v);
      CountAppend(Insert(init, x, Itself), last, v);
    }
  }

  lemma {:induction false} CountSort(data: seq<real>, v: real)
    ensures Below(Sort(data, Itself), v) == Below(data, v) && UpTo(Sort(data, Itself), v) == UpTo(data, v)
  {
    if data != [] {
      CountSort(data[..|data| - 1], v);
      CountInsert(Sort(data[..|data| - 1], Itself), data[|data| - 1], v);
    }
  }

  lemma {:induction false} FewBelow(s: seq<real>, k: nat, v: real)
    requires forall i :: k <= i < |s| ==> v <= s[i]
    ensures Below(s, v) <= k
  {
    if |s| > k {
      FewBelow(s[..|s| - 1], k, v);
    } else if s != [] {
      FewBelow(s[..|s| - 1], k - 1, v);
    }
  }

  lemma {:induction false} ManyUpTo(s: seq<real>, k: nat, v: real)
    requires k < |s| && forall i :: 0 <= i <= k ==> s[i] <= v
    ensures UpTo(s, v) > k
  {
    if |s| > k + 1 {
      ManyUpTo(s[..|s| - 1], k, v);
    } else if k > 0 {
      ManyUpTo(s[..|s| - 1], k - 1, v);
    }
  }

  lemma {:induction false} MoreUpToThanBelow(data: seq<real>, v: real, w: real)
    requires v < w
    ensures UpTo(data, v) <= Below(data, w)
  {
    if data != [] {
      MoreUpToThanBelow(data[..|data| - 1], v, w);
    }
  }

  lemma SortedOrder(s: seq<real>, i: nat, j: nat)
    requires Sorted(s, Itself) && i <= j < |s|
    ensures s[i] <= s[j]
  {
    assert i < j ==> Itself(s[i]) <= Itself(s[j]);
  }

  lemma RankInSorted(s: seq<real>, k: nat)
    requires Sorted(s, Itself) && k < |s|
    ensures HasRank(s, k, s[k])
  {
    forall i | k <= i < |s| ensures s[k] <= s[i] { SortedOrder(s, k, i); }
    forall i | 0 <= i <= k ensures s[i] <= s[k] { SortedOrder(s, i, k); }
    FewBelow(s, k, s[k]);
    ManyUpTo(s, k, s[k]);
  }

  lemma RankUnique(data: seq<real>, k: nat, v: real, w: real)
    requires HasRank(data, k, v) && HasRank(data, k, w)
    ensures v == w
  {
    if v < w { MoreUpToThanBelow(data, v, w); }
    if w < v { MoreUpToThanBelow(data, w, v); }
  }

  /** The value of rank `k` is the `k`-th of the sorted list, and no other. */
  lemma RankExactly(data: seq<real>, k: nat, v: real)
    requires k < |data|
    ensures HasRank(data, k, v) <==> v == Sort(data, Itself)[k]
  {
    var s := Sort(data, Itself);
    SortSorted(data, Itself);
    RankInSorted(s, k);
    CountSort(data, s[k]);
    if HasRank(data, k, v) { RankUnique(data, k, v, s[k]); }
  }

  /** So much of the way from the first rank to the last. */
  function Place(n: nat, pct: real): real { pct * (n - 1) as real / 100.0 }

  /** `v` lies between the values `a` and `b` of two neighbouring ranks, as far from `a`,
      relatively, as the position is from rank `k`. */
  ghost predicate Divides(data: seq<real>, pct: real, k: nat, a: real, b: real, v: real) {
    var x := Place(|data|, pct);
    && k as real <= x < k as real + 1.0
    && HasRank(data, k, a) && HasRank(data, if k + 1 < |data| then k + 1 else k, b)
    && IsShare(v - a, b - a, x - k as real)
  }

  predicate IsShare(part: real, whole: real, share: real) { part == share * whole }

  lemma PositionIs(n: nat, pct: real)
    requires n > 0 && 0.0 <= pct <= 100.0
    ensures Position(n, pct) == Place(n, pct)
  {
  }

  lemma MixIsShare(a: real, b: real, f: real, v: real)
    ensures v == Mix(a, b, f) <==> IsShare(v - a, b - a, f)
  {
    MixIsPortion(a, b, f);
  }

  /** The interpolation at position `x`, without the mix. */
  lemma AtIs(s: seq<real>, x: real, k: nat, a: real, b: real, v: real)
    requires s != [] && 0.0 <= x <= (|s| - 1) as real && k == x.Floor
    requires a == s[k] && b == s[if k + 1 < |s| then k + 1 else k]
    ensures Interpolated(s, x) == Some(v) <==> IsShare(v - a, b - a, x - k as real)
  {
    InsideInterpolated(s, x);
    MixIsShare(a, b, x - k as real, v);
  }

  lemma DividesIs(data: seq<real>, pct: real, x: real, k: nat, a: real, b: real, v: real)
    requires x == Place(|data|, pct) && k as real <= x < k as real + 1.0
    requires HasRank(data, k, a) && HasRank(data, if k + 1 < |data| then k + 1 else k, b)
    ensures Divides(data, pct, k, a, b, v) <==> IsShare(v - a, b - a, x - k as real)
  {
  }

  lemma InterpolatedIs(data: seq<real>, x: real, k: nat, a: real, b: real, v: real)
    requires data != [] && 0.0 <= x <= (|data| - 1) as real && k == x.Floor
    requires HasRank(data, k, a) && HasRank(data, if k + 1 < |data| then k + 1 else k, b)
    ensures Interpolated(Sort(data, Itself), x) == Some(v) <==> IsShare(v - a, b - a, x - k as real)
  {
    RankExactly(data, k, a);
    RankExactly(data, if k + 1 < |data| then k + 1 else k, b);
    AtIs(Sort(data, Itself), x, k, a, b, v);
  }

  lemma PercentileDivides(data: seq<real>, pct: real, v: real, k: nat, a: real, b: real)
    requires data != [] && 0.0 <= pct <= 100.0 && k == Position(|data|, pct).Floor
    requires HasRank(data, k, a) && HasRank(data, if k + 1 < |data| then k + 1 else k, b)
    ensures Percentile(data, pct) == Some(v) <==> Divides(data, pct, k, a, b, v)
  {
    PositionIs(|data|, pct);
    InterpolatedIs(data, Position(|data|, pct), k, a, b, v);
    DividesIs(data, pct, Position(|data|, pct), k, a, b, v);
  }

  /** From 0 to 100 percent: the value that divides the values of the two neighbouring ranks as
      the position divides the ranks. */
  lemma PercentileExactly(data: seq<real>, pct: real, v: real)
    requires data != [] && 0.0 <= pct <= 100.0
    ensures Percentile(data, pct) == Some(v) <==> exists k: nat, a, b :: Divides(data, pct, k, a, b, v)
  {
    var s, k := Sort(data, Itself), Position(|data|, pct).Floor;
    var next := if k + 1 < |data| then k + 1 else k;
    PositionIs(|data|, pct);
    RankExactly(data, k, s[k]);
    RankExactly(data, next, s[next]);
    PercentileDivides(data, pct, v, k, s[k], s[next]);
    if j: nat, a, b :| Divides(data, pct, j, a, b, v) {
      assert j == k;
      PercentileDivides(data, pct, v, k, a, b);
    }
  }
}
