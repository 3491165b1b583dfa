/** How a scaled figure of the Rust core is printed: the `i64` becomes a double, is divided by
    10^9 in doubles, and the quotient is printed with nine decimals.

    Figures below 2^23 come out as they are; from there on a double does not hold nine decimals
    any more. */
module Doubles {
  import opened FixedDecimal
  import opened Reals

  const TWO52: real := 4_503_599_627_370_496.0
  const TWO53: real := 9_007_199_254_740_992.0

  /** 2^-82, the last bit of the doubles in front of 2^-29. No figure but zero is smaller than
      10^-9, so no smaller one is ever needed. */
  const SMALLEST: real := 1.0 / 4_835_703_278_458_516_698_824_704.0

  // ----- Rounding to 53 bits --------------------------------------------------------

  lemma HalfAsMany(x: real, u: real)
    requires u > 0.0 && x >= TWO53 * u
    ensures 0 <= (x / (2.0 * u)).Floor < (x / u).Floor
  {
    var q := x / u;
    assert q * u == x;
    assert (q / 2.0) * (2.0 * u) == x;
    Quotient(q / 2.0, x, 2.0 * u);
    assert (q - TWO53) * u == x - TWO53 * u;
    SignOfProduct(q - TWO53, u);
  }

  lemma Quotient(q: real, x: real, u: real)
    requires u > 0.0 && q * u == x
    ensures x / u == q
  {
    var p := x / u;
    assert p * u == x;
    assert (p - q) * u == p * u - q * u;
    SignOfProduct(p - q, u);
  }

  /** The last bit of the doubles around `x`: the first of u, 2u, 4u, ... that takes 53 bits
      beyond `x`. */
  function Unit(x: real, u: real): (r: real)
    requires u > 0.0
    ensures r >= u && x < TWO53 * r
    decreases if x < TWO53 * u then 0 else (x / u).Floor
  {
    if x < TWO53 * u then u
    else
      HalfAsMany(x, u);
      Unit(x, 2.0 * u)
  }

  function Round(x: real, unit: real): real
    requires unit > 0.0
  {
    Nearest(x / unit) as real * unit
  }

  /** The double nearest to `x`, ties to even. */
  function Double(x: real): real { Round(x, Unit(x, SMALLEST)) }

  /** The printed figure, in units of the ninth decimal. */
  function Shown(x: int): int {
    var m := Nearest(Double(Double(Abs(x) as real) / 1_000_000_000.0) * 1_000_000_000.0);
    if x < 0 then -m else m
  }

  // ----- The last bit of a double ---------------------------------------------------

  function Doubled(u: real, k: nat): (r: real)
    requires u > 0.0
    ensures r >= u
    decreases k
  {
    if k == 0 then u else Doubled(2.0 * u, k - 1)
  }

  lemma {:induction false} DoubledTwice(u: real, j: nat, k: nat)
    requires u > 0.0
    ensures Doubled(Doubled(u, j), k) == Doubled(u, j + k)
    decreases j
  {
    if j > 0 {
      DoubledTwice(2.0 * u, j - 1, k);
    }
  }

  lemma DoubledTen(u: real)
    requires u > 0.0
    ensures Doubled(u, 10) == 1024.0 * u
  {
    assert Doubled(u, 5) == 32.0 * u && Doubled(32.0 * u, 5) == 1024.0 * u;
    DoubledTwice(u, 5, 5);
  }

  lemma DoubledTenMore(u: real, k: nat)
    requires u > 0.0
    ensures Doubled(u, k + 10) == 1024.0 * Doubled(u, k)
  {
    DoubledTwice(u, k, 10);
    DoubledTen(Doubled(u, k));
  }

  lemma DoubledFiftyMore(u: real, k: nat)
    requires u > 0.0
    ensures Doubled(u, k + 50) == 1_125_899_906_842_624.0 * Doubled(u, k)
  {
    DoubledTenMore(u, k);
    DoubledTenMore(u, k + 10);
    DoubledTenMore(u, k + 20);
    DoubledTenMore(u, k + 30);
    DoubledTenMore(u, k + 40);
  }

  lemma DoubledFifty(u: real)
    requires u > 0.0
    ensures Doubled(u, 50) == 1_125_899_906_842_624.0 * u
  {
    DoubledFiftyMore(u, 0);
  }

  lemma DoubledMore(u: real, k: nat, v: real)
    requires u > 0.0 && Doubled(u, k) == v
    ensures Doubled(u, k + 1) == 2.0 * v && Doubled(u, k + 2) == 4.0 * v && Doubled(u, k + 3) == 8.0 * v
  {
    DoubledTwice(u, k, 1);
    DoubledTwice(u, k, 2);
    DoubledTwice(u, k, 3);
    assert Doubled(v, 1) == 2.0 * v && Doubled(2.0 * v, 1) == 4.0 * v && Doubled(4.0 * v, 1) == 8.0 * v;
    DoubledTwice(v, 1, 1);
    DoubledTwice(v, 2, 1);
  }

  /** 2^-30, 2^-29, 1 and 2 as multiples of the smallest unit. */
  lemma Units()
    ensures Doubled(SMALLEST, 52) == 1.0 / 1_073_741_824.0 && Doubled(SMALLEST, 53) == 1.0 / 536_870_912.0
    ensures Doubled(SMALLEST, 82) == 1.0 && Doubled(SMALLEST, 83) == 2.0
  {
    DoubledFifty(SMALLEST);
    DoubledMore(SMALLEST, 50, 1.0 / 4_294_967_296.0);
    DoubledTen(1.0 / 4_294_967_296.0);
    DoubledTwice(SMALLEST, 50, 10);
    DoubledTen(1.0 / 4_194_304.0);
    DoubledTwice(SMALLEST, 60, 10);
    DoubledTen(1.0 / 4_096.0);
    DoubledTwice(SMALLEST, 70, 10);
    DoubledMore(SMALLEST, 80, 1.0 / 4.0);
  }

  /** When 53 bits from `k` doublings on suffice for `x`, they are a multiple of the unit. */
  lemma {:induction false} UnitDivides(x: real, u: real, k: nat) returns (q: nat)
    requires u > 0.0 && x < TWO53 * Doubled(u, k)
    ensures q >= 1 && Doubled(u, k) == q as real * Unit(x, u)
    decreases k
  {
    if x < TWO53 * u {
      q := Multiples(u, k);
    } else {
      q := UnitDivides(x, 2.0 * u, k - 1);
    }
  }

  lemma {:induction false} Multiples(u: real, k: nat) returns (q: nat)
    requires u > 0.0
    ensures q >= 1 && Doubled(u, k) == q as real * u
    decreases k
  {
    if k == 0 {
      q := 1;
    } else {
      var p := Multiples(2.0 * u, k - 1);
      q := 2 * p;
    }
  }

  lemma {:induction false} UnitAtLeast(x: real, u: real, k: nat)
    requires u > 0.0 && x >= TWO52 * Doubled(u, k)
    ensures Unit(x, u) >= Doubled(u, k)
    decreases k
  {
    if k > 0 {
      UnitAtLeast(x, 2.0 * u, k - 1);
    }
  }

  lemma {:induction false} UnitIsNeeded(x: real, u: real)
    requires u > 0.0
    ensures Unit(x, u) == u || x >= TWO52 * Unit(x, u)
    decreases if x < TWO53 * u then 0 else (x / u).Floor
  {
    if x >= TWO53 * u {
      HalfAsMany(x, u);
      UnitIsNeeded(x, 2.0 * u);
    }
  }

  // ----- Figures below 2^23 ---------------------------------------------------------

  /** 2^23, in units of the ninth decimal. */
  const BOUND: int := 8_388_608 * SCALE

  predicate Carried(x: int) { Abs(x) < BOUND }

  lemma RoundError(x: real, unit: real)
    requires unit > 0.0
    ensures x - unit / 2.0 <= Round(x, unit) <= x + unit / 2.0
  {
    var q, n := x / unit, Nearest(x / unit) as real;
    assert q * unit == x;
    SignOfProduct(n - q + 0.5, unit);
    SignOfProduct(q - n + 0.5, unit);
    assert (n - q + 0.5) * unit == n * unit - q * unit + 0.5 * unit;
    assert (q - n + 0.5) * unit == q * unit - n * unit + 0.5 * unit;
  }

  lemma RoundExact(n: int, unit: real)
    requires unit > 0.0
    ensures Round(n as real * unit, unit) == n as real * unit
  {
    Quotient(n as real, n as real * unit, unit);
    NearestIs(n as real, n);
  }

  lemma RoundAtLeast(x: real, unit: real, n: int)
    requires unit > 0.0 && x >= n as real * unit
    ensures Round(x, unit) >= n as real * unit
  {
    var q := x / unit;
    assert q * unit == x;
    assert (q - n as real) * unit == q * unit - n as real * unit;
    SignOfProduct(q - n as real, unit);
    NearestAtLeast(q, n);
    SignOfProduct(Nearest(q) as real - n as real, unit);
    assert (Nearest(q) as real - n as real) * unit == Nearest(q) as real * unit - n as real * unit;
  }

  lemma UnitOfInteger(x: real) returns (q: nat)
    requires x < TWO53
    ensures q >= 1 && q as real * Unit(x, SMALLEST) == 1.0
  {
    Units();
    q := UnitDivides(x, SMALLEST, 82);
  }

  lemma RoundInteger(m: nat, q: nat, unit: real)
    requires unit > 0.0 && q as real * unit == 1.0
    ensures Round(m as real, unit) == m as real
  {
    var k := m * q;
    TimesOne(m, q, unit);
    RoundExact(k, unit);
    assert k as real * unit == m as real;
  }

  /** An integer of up to 53 bits is a double. */
  lemma SmallIntegerExact(m: nat)
    requires m as real < TWO53
    ensures Double(m as real) == m as real
  {
    var q := UnitOfInteger(m as real);
    RoundInteger(m, q, Unit(m as real, SMALLEST));
    assert Double(m as real) == Round(m as real, Unit(m as real, SMALLEST));
  }

  lemma TimesOne(m: nat, q: nat, unit: real)
    requires q as real * unit == 1.0
    ensures (m * q) as real * unit == m as real
  {
    assert (m * q) as real == m as real * q as real;
    assert m as real * q as real * unit == m as real * (q as real * unit);
  }

  lemma NotLess(q: nat, unit: real)
    requires q >= 1 && unit > 0.0
    ensures unit <= q as real * unit
  {
    SignOfProduct(q as real - 1.0, unit);
    assert (q as real - 1.0) * unit == q as real * unit - unit;
  }

  /** Below 2^23 the nearest double is off by no more than 2^-31. */
  lemma QuotientError(x: real)
    requires x < 8_388_608.0
    ensures x - 1.0 / 2_147_483_648.0 <= Double(x) <= x + 1.0 / 2_147_483_648.0
  {
    Units();
    var q := UnitDivides(x, SMALLEST, 52);
    NotLess(q, Unit(x, SMALLEST));
    RoundError(x, Unit(x, SMALLEST));
  }

  /** A figure below 2^23 is printed as it is. */
  lemma CarriedShown(x: int)
    requires Carried(x)
    ensures Shown(x) == x
  {
    var m: nat := Abs(x);
    SmallIntegerExact(m);
    QuotientError(m as real / 1_000_000_000.0);
    NearestIs(Double(m as real / 1_000_000_000.0) * 1_000_000_000.0, m);
  }

  // ----- Figures from 2^23 on -------------------------------------------------------

  /** What is at least 2^52 of a unit rounds to no less. */
  lemma DoubleAtLeast(x: real, k: nat)
    requires x >= TWO52 * Doubled(SMALLEST, k)
    ensures Double(x) >= TWO52 * Doubled(SMALLEST, k)
  {
    var unit := Unit(x, SMALLEST);
    UnitAtLeast(x, SMALLEST, k);
    UnitIsNeeded(x, SMALLEST);
    RoundAtLeast(x, unit, 4_503_599_627_370_496);
  }

  lemma LargeStaysLarge(x: int)
    requires !Carried(x)
    ensures !Carried(Shown(x))
  {
    var m: nat := Abs(x);
    Units();
    if m as real < TWO53 { SmallIntegerExact(m); } else { DoubleAtLeast(m as real, 83); }
    var w := Double(m as real) / 1_000_000_000.0;
    DoubleAtLeast(w, 53);
    NearestAtLeast(Double(w) * 1_000_000_000.0, BOUND);
  }

  /** What is printed for a figure below 2^23 is printed for no other figure. */
  lemma CarriedOnlyItself(x: int, y: int)
    requires Carried(x)
    ensures Shown(x) == Shown(y) <==> x == y
  {
    CarriedShown(x);
    if Carried(y) { CarriedShown(y); } else { LargeStaysLarge(y); }
  }

  lemma JustAboveBound(m: nat, n: int)
    requires BOUND < m <= BOUND + 2 && n == 4_503_599_627_370_497
    ensures Shown(m) == BOUND + 2
  {
    var x, unit := m as real / 1_000_000_000.0, 1.0 / 536_870_912.0;
    Units();
    SmallIntegerExact(m);
    UnitAtLeast(x, SMALLEST, 53);
    var q := UnitDivides(x, SMALLEST, 53);
    NotLess(q, Unit(x, SMALLEST));
    assert Unit(x, SMALLEST) == unit;
    NearestIs(x / unit, n);
    assert Double(x) == n as real * unit;
    NearestIs(Double(x) * 1_000_000_000.0, BOUND + 2);
  }

  /** The bound is sharp: the first two figures beyond it are printed alike. */
  lemma FirstFiguresMerged()
    ensures Shown(BOUND + 1) == Shown(BOUND + 2) == BOUND + 2
  {
    JustAboveBound(BOUND + 1, 4_503_599_627_370_497);
    JustAboveBound(BOUND + 2, 4_503_599_627_370_497);
  }

  // ----- Which figures are told apart -----------------------------------------------

  lemma NearestMonotone(x: real, y: real)
    requires x <= y
    ensures Nearest(x) <= Nearest(y)
  {
  }

  lemma RoundMonotone(x: real, y: real, unit: real)
    requires unit > 0.0 && x <= y
    ensures Round(x, unit) <= Round(y, unit)
  {
    var p, q := x / unit, y / unit;
    assert p * unit == x && q * unit == y && (q - p) * unit == q * unit - p * unit;
    SignOfProduct(q - p, unit);
    NearestMonotone(p, q);
    var m, n := Nearest(p) as real, Nearest(q) as real;
    SignOfProduct(n - m, unit);
    assert (n - m) * unit == n * unit - m * unit;
  }

  lemma RoundAtMost(x: real, unit: real, n: int)
    requires unit > 0.0 && x <= n as real * unit
    ensures Round(x, unit) <= n as real * unit
  {
    RoundMonotone(x, n as real * unit, unit);
    RoundExact(n, unit);
  }

  /** A larger number has the same last bit or one twice as large, at least. */
  lemma {:induction false} UnitMonotone(x: real, y: real, u: real)
    requires u > 0.0 && x <= y
    ensures Unit(x, u) == Unit(y, u) || 2.0 * Unit(x, u) <= Unit(y, u)
    decreases if y < TWO53 * u then 0 else (y / u).Floor
  {
    if x >= TWO53 * u {
      HalfAsMany(y, u);
      UnitMonotone(x, y, 2.0 * u);
    }
  }

  lemma DoubleMonotone(x: real, y: real)
    requires x <= y
    ensures Double(x) <= Double(y)
  {
    var u, v := Unit(x, SMALLEST), Unit(y, SMALLEST);
    UnitMonotone(x, y, SMALLEST);
    if u == v {
      RoundMonotone(x, y, u);
    } else {
      UnitIsNeeded(y, SMALLEST);
      RoundAtMost(x, u, 9_007_199_254_740_992);
      RoundAtLeast(y, v, 4_503_599_627_370_496);
    }
  }

  lemma ShownMonotoneAboveZero(x: nat, y: nat)
    requires x <= y
    ensures Shown(x) <= Shown(y)
  {
    DoubleMonotone(x as real, y as real);
    var p, q := Double(x as real) / 1_000_000_000.0, Double(y as real) / 1_000_000_000.0;
    DoubleMonotone(p, q);
    NearestMonotone(Double(p) * 1_000_000_000.0, Double(q) * 1_000_000_000.0);
  }

  lemma ShownZero()
    ensures Shown(0) == 0
  {
    CarriedShown(0);
  }

  lemma ShownOdd(x: int)
    ensures Shown(-x) == -Shown(x)
  {
    ShownZero();
    assert Abs(-x) == Abs(x);
  }

  /** A larger figure is never printed as a smaller one. */
  lemma ShownMonotone(x: int, y: int)
    requires x <= y
    ensures Shown(x) <= Shown(y)
  {
    ShownZero();
    ShownOdd(-x);
    ShownOdd(-y);
    if x >= 0 {
      ShownMonotoneAboveZero(x, y);
    } else if y <= 0 {
      ShownMonotoneAboveZero(-y, -x);
    } else {
      ShownMonotoneAboveZero(0, -x);
      ShownMonotoneAboveZero(0, y);
    }
  }

  /** No other figure is printed like `x`; that is decided by its two neighbours. */
  predicate ToldApart(x: int) { Shown(x) != Shown(x - 1) && Shown(x) != Shown(x + 1) }

  lemma ToldApartExactly(x: int)
    ensures ToldApart(x) <==> forall y :: Shown(y) == Shown(x) ==> y == x
  {
    if ToldApart(x) {
      forall y | Shown(y) == Shown(x) ensures y == x {
        if y < x {
          ShownMonotone(y, x - 1);
          ShownMonotone(x - 1, x);
        }
        if y > x {
          ShownMonotone(x + 1, y);
          ShownMonotone(x, x + 1);
        }
      }
    } else {
      assert Shown(x - 1) == Shown(x) || Shown(x + 1) == Shown(x);
    }
  }

  lemma BoundShown()
    ensures Shown(BOUND) == BOUND
  {
    Units();
    SmallIntegerExact(BOUND);
    var x := 8_388_608.0;
    UnitAtLeast(x, SMALLEST, 53);
    var q := UnitDivides(x, SMALLEST, 53);
    NotLess(q, Unit(x, SMALLEST));
    RoundExact(4_503_599_627_370_496, Unit(x, SMALLEST));
    assert Double(x) == x;
    NearestIs(x * 1_000_000_000.0, BOUND);
  }

  /** Figures up to the one after 2^23 are told apart from each other. */
  lemma UpToBoundToldApart(x: int, y: int)
    requires Abs(x) <= BOUND + 1 && Abs(y) <= BOUND + 1 && Shown(x) == Shown(y)
    ensures x == y
  {
    BoundShown();
    FirstFiguresMerged();
    ShownOdd(BOUND);
    ShownOdd(BOUND + 1);
    if Carried(x) {
      CarriedOnlyItself(x, y);
    } else if Carried(y) {
      CarriedOnlyItself(y, x);
    }
  }

  ghost predicate AllToldApart(n: int) {
    forall x, y :: Abs(x) <= n && Abs(y) <= n && Shown(x) == Shown(y) ==> x == y
  }

  /** All figures up to `n` in magnitude are printed differently if and only if `n` is at most
      one unit above 2^23. */
  lemma AllToldApartExactly(n: int)
    ensures AllToldApart(n) <==> n <= BOUND + 1
  {
    if n <= BOUND + 1 {
      forall x, y | Abs(x) <= n && Abs(y) <= n && Shown(x) == Shown(y) ensures x == y {
        UpToBoundToldApart(x, y);
      }
    } else {
      FirstFiguresMerged();
      assert Abs(BOUND + 1) <= n && Abs(BOUND + 2) <= n;
    }
  }

  // ----- How close the printed figure is --------------------------------------------

  /** A number of at most 53 bits, scaled by a power of two. */
  ghost predicate IsDouble(d: real) {
    exists n: nat, k: nat :: Scaled(d, n, k)
  }

  ghost predicate Scaled(d: real, n: nat, k: nat) {
    n <= 9_007_199_254_740_992 && d == n as real * Doubled(SMALLEST, k)
  }

  function Distance(x: real, y: real): real { if x < y then y - x else x - y }

  lemma {:induction false} UnitIsDoubled(x: real, u: real) returns (j: nat)
    requires u > 0.0
    ensures Unit(x, u) == Doubled(u, j)
    decreases if x < TWO53 * u then 0 else (x / u).Floor
  {
    if x < TWO53 * u {
      j := 0;
    } else {
      HalfAsMany(x, u);
      j := UnitIsDoubled(x, 2.0 * u);
      j := j + 1;
    }
  }

  lemma NearestIsNearest(q: real, n: int)
    ensures Distance(Nearest(q) as real, q) <= Distance(n as real, q)
  {
    var m := Nearest(q);
    if n < m { IntegersApart(n, m); }
    if m < n { IntegersApart(m, n); }
  }

  lemma IntegersApart(m: int, n: int)
    requires m < n
    ensures m as real + 1.0 <= n as real
  {
  }

  /** No multiple of the unit is nearer. */
  lemma RoundIsNearest(x: real, unit: real, n: int)
    requires unit > 0.0
    ensures Distance(Round(x, unit), x) <= Distance(n as real * unit, x)
  {
    var q := x / unit;
    NearestIsNearest(q, n);
    CloserScaled(Nearest(q) as real, n as real, q, unit, Round(x, unit), n as real * unit, x);
  }

  lemma OrderScaled(a: real, b: real, unit: real, x: real, y: real)
    requires unit > 0.0 && x == a * unit && y == b * unit
    ensures (a <= b <==> x <= y) && (b <= a <==> y <= x)
  {
    SignOfProduct(b - a, unit);
    Subtract(b, a, unit);
  }

  /** Which of two points is nearer to a third depends on the order of the three and of the
      middle. */
  lemma CloserByOrder(a: real, b: real, c: real, x: real, y: real, z: real)
    requires (a <= c <==> x <= z) && (b <= c <==> y <= z) && (a <= b <==> x <= y) && (b <= a <==> y <= x)
    requires (a + b <= c + c <==> x + y <= z + z) && (c + c <= a + b <==> z + z <= x + y)
    requires Distance(a, c) <= Distance(b, c)
    ensures Distance(x, z) <= Distance(y, z)
  {
  }

  lemma MiddleScaled(a: real, b: real, c: real, unit: real, x: real, y: real, z: real)
    requires unit > 0.0 && x == a * unit && y == b * unit && z == c * unit
    ensures (a + b <= c + c <==> x + y <= z + z) && (c + c <= a + b <==> z + z <= x + y)
  {
    assert (a + b - c - c) * unit == x + y - z - z;
    SignOfProduct(a + b - c - c, unit);
  }

  lemma CloserScaled(a: real, b: real, c: real, unit: real, x: real, y: real, z: real)
    requires unit > 0.0 && Distance(a, c) <= Distance(b, c) && x == a * unit && y == b * unit && z == c * unit
    ensures Distance(x, z) <= Distance(y, z)
  {
    OrderScaled(a, c, unit, x, z);
    OrderScaled(b, c, unit, y, z);
    OrderScaled(a, b, unit, x, y);
    MiddleScaled(a, b, c, unit, x, y, z);
    CloserByOrder(a, b, c, x, y, z);
  }

  lemma Subtract(a: real, b: real, unit: real)
    ensures (a - b) * unit == a * unit - b * unit
  {
  }

  lemma CoarserIsMultiple(n: nat, j: nat, k: nat) returns (m: nat)
    requires j <= k
    ensures n as real * Doubled(SMALLEST, k) == m as real * Doubled(SMALLEST, j)
  {
    DoubledTwice(SMALLEST, j, k - j);
    var p := Multiples(Doubled(SMALLEST, j), k - j);
    m := n * p;
    assert m as real == n as real * p as real;
    assert n as real * (p as real * Doubled(SMALLEST, j)) == m as real * Doubled(SMALLEST, j);
  }

  lemma FinerIsSmall(n: nat, j: nat, k: nat)
    requires k < j && n <= 9_007_199_254_740_992
    ensures n as real * Doubled(SMALLEST, k) <= TWO52 * Doubled(SMALLEST, j)
  {
    var u := Doubled(SMALLEST, k);
    DoubledTwice(SMALLEST, k, 1);
    DoubledTwice(SMALLEST, k + 1, j - k - 1);
    assert Doubled(u, 1) == 2.0 * u && Doubled(SMALLEST, j) >= 2.0 * u;
    SignOfProduct(TWO53 - n as real, u);
    Subtract(TWO53, n as real, u);
  }

  lemma RoundIsScaled(x: real, j: nat)
    requires x >= 0.0 && x < TWO53 * Doubled(SMALLEST, j)
    ensures IsDouble(Round(x, Doubled(SMALLEST, j)))
  {
    var unit := Doubled(SMALLEST, j);
    RoundAtMost(x, unit, 9_007_199_254_740_992);
    RoundAtLeast(x, unit, 0);
    var n := Nearest(x / unit);
    SignOfProduct(n as real, unit);
    SignOfProduct(n as real - TWO53, unit);
    Subtract(n as real, TWO53, unit);
    assert Scaled(Round(x, unit), n, j);
  }

  lemma BelowIsFarther(x: real, d: real, g: real, low: real)
    requires low <= g <= x && Distance(d, x) <= Distance(g, x)
    ensures Distance(d, x) <= Distance(low, x)
  {
  }

  lemma CoarserNotNearer(x: real, unit: real, j: nat, d: real, n: nat, k: nat)
    requires unit == Doubled(SMALLEST, j) && j <= k && Scaled(d, n, k)
    ensures Distance(Round(x, unit), x) <= Distance(d, x)
  {
    var m := CoarserIsMultiple(n, j, k);
    MultipleIsFarther(x, unit, d, m);
  }

  lemma FinerNotNearer(x: real, unit: real, j: nat, d: real, n: nat, k: nat)
    requires unit == Doubled(SMALLEST, j) && k < j && Scaled(d, n, k)
    requires unit == SMALLEST || x >= TWO52 * unit
    ensures Distance(Round(x, unit), x) <= Distance(d, x)
  {
    FinerIsSmall(n, j, k);
    FinerThanSmallest(j, k);
    FinerIsFarther(x, unit, d);
  }

  lemma NoneNearer(x: real, j: nat, d: real, n: nat, k: nat)
    requires Unit(x, SMALLEST) == Doubled(SMALLEST, j) && Scaled(d, n, k)
    ensures Distance(Double(x), x) <= Distance(d, x)
  {
    var unit := Unit(x, SMALLEST);
    UnitIsNeeded(x, SMALLEST);
    if j <= k {
      CoarserNotNearer(x, unit, j, d, n, k);
    } else {
      FinerNotNearer(x, unit, j, d, n, k);
    }
  }

  lemma MultipleIsFarther(x: real, unit: real, d: real, m: int)
    requires unit > 0.0 && d == m as real * unit
    ensures Distance(Round(x, unit), x) <= Distance(d, x)
  {
    RoundIsNearest(x, unit, m);
  }

  lemma FinerIsFarther(x: real, unit: real, d: real)
    requires unit > 0.0 && d <= TWO52 * unit <= x
    ensures Distance(Round(x, unit), x) <= Distance(d, x)
  {
    RoundIsNearest(x, unit, 4_503_599_627_370_496);
    BelowIsFarther(x, Round(x, unit), TWO52 * unit, d);
  }

  /** Rounding finds a double, and no double is nearer. */
  lemma DoubleIsNearest(x: real, d: real)
    requires x >= 0.0
    ensures IsDouble(Double(x))
    ensures IsDouble(d) ==> Distance(Double(x), x) <= Distance(d, x)
  {
    var j := UnitIsDoubled(x, SMALLEST);
    RoundIsScaled(x, j);
    assert Double(x) == Round(x, Doubled(SMALLEST, j));
    if n: nat, k: nat :| Scaled(d, n, k) {
      NoneNearer(x, j, d, n, k);
    }
  }

  lemma FinerThanSmallest(j: nat, k: nat)
    requires k < j
    ensures Doubled(SMALLEST, j) != SMALLEST
  {
    DoubledTwice(SMALLEST, 1, j - 1);
    assert Doubled(SMALLEST, 1) == 2.0 * SMALLEST;
  }

  /** Rounding is off by a 2^53rd of the number at most, but for the smallest unit. */
  lemma DoubleError(x: real)
    requires x >= 0.0
    ensures Distance(Double(x), x) <= x / TWO53 + SMALLEST
  {
    var unit := Unit(x, SMALLEST);
    UnitIsNeeded(x, SMALLEST);
    RoundError(x, unit);
    assert x >= TWO52 * unit ==> unit / 2.0 <= x / TWO53;
  }

  /** The printed figure is off by a 2^51st of the figure and one unit of the ninth decimal, at
      most, however large it is. */
  lemma ShownError(x: int)
    ensures Abs(Shown(x) - x) as real <= Abs(x) as real / 2_251_799_813_685_248.0 + 1.0
  {
    var m := Abs(x) as real;
    DoubleError(m);
    PrintError(m, Double(m));
    assert Abs(Shown(x) - x) as real ==
      Distance(Nearest(Double(Double(m) / 1_000_000_000.0) * 1_000_000_000.0) as real, m);
  }

  lemma PrintError(m: real, d: real)
    requires m >= 0.0 && d >= 0.0 && Distance(d, m) <= m / TWO53 + SMALLEST
    ensures var r := Nearest(Double(d / 1_000_000_000.0) * 1_000_000_000.0) as real;
      Distance(r, m) <= m / 2_251_799_813_685_248.0 + 1.0
  {
    var w := d / 1_000_000_000.0;
    var e := Double(w);
    DoubleError(w);
    TwoErrors(m, d, w, e, Nearest(e * 1_000_000_000.0) as real);
  }

  lemma TwoErrors(m: real, d: real, w: real, e: real, r: real)
    requires m >= 0.0 && Distance(d, m) <= m / TWO53 + SMALLEST && d == w * 1_000_000_000.0
    requires Distance(e, w) <= w / TWO53 + SMALLEST && Distance(r, e * 1_000_000_000.0) <= 0.5
    ensures Distance(r, m) <= m / 2_251_799_813_685_248.0 + 1.0
  {
  }
}
