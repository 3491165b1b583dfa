/** The 9-decimal fixed-point number of the Rust core: an `i64` holding value * SCALE, with
    products and quotients formed in `i128`, truncated toward zero and cast back by wrapping. */
module FixedDecimal {
  import opened Options

  const SCALE: int := 1_000_000_000
  const TWO63: int := 0x8000_0000_0000_0000
  const TWO64: int := 0x1_0000_0000_0000_0000
  const TWO127: int := 0x8000_0000_0000_0000_0000_0000_0000_0000

  predicate IsI64(x: int) { -TWO63 <= x < TWO63 }

  predicate IsI128(x: int) { -TWO127 <= x < TWO127 }

  type i64 = x: int | IsI64(x)

  function Abs(x: int): int { if x < 0 then -x else x }

  lemma I64Magnitude(a: i64)
    ensures Abs(a) <= TWO63 && (Abs(a) == TWO63 ==> a == -TWO63)
  {
    assert IsI64(a);
  }

  // ----- Arithmetic on products -----------------------------------------------------

  lemma Signs(x: int, y: int)
    ensures (-x) * y == -(x * y) && x * (-y) == -(x * y) && (-x) * (-y) == x * y
  {
  }

  lemma Monotone(x: int, y: int, k: int)
    requires x <= y && 0 <= k
    ensures x * k <= y * k
  {
  }

  lemma AbsProduct(x: int, y: int)
    ensures Abs(x * y) == Abs(x) * Abs(y)
  {
    Signs(x, y);
    if x >= 0 && y >= 0 { Monotone(0, x, y); }
    if x < 0 && y >= 0 { Monotone(0, -x, y); }
    if x >= 0 && y < 0 { Monotone(0, x, -y); }
    if x < 0 && y < 0 { Monotone(0, -x, -y); }
  }

  lemma ProductBound(a: int, b: int, m: int, n: int)
    requires Abs(a) <= m && Abs(b) <= n
    ensures Abs(a * b) <= m * n
  {
    AbsProduct(a, b);
    Monotone(Abs(a), m, Abs(b));
    Monotone(Abs(b), n, m);
  }

  // ----- Division and the cast ------------------------------------------------------

  /** Rust's `/` rounds toward zero: the remainder is smaller than the divisor and carries
      the sign of the dividend. */
  function TruncDiv(a: int, b: int): (q: int)
    requires b != 0
    ensures a >= 0 ==> 0 <= a - q * b < Abs(b)
    ensures a <= 0 ==> 0 <= q * b - a < Abs(b)
  {
    var q := Abs(a) / Abs(b);
    QuotientBounds(a, b);
    Signs(q, b);
    if (a < 0) == (b < 0) then q else -q
  }

  lemma QuotientBounds(a: int, b: int)
    requires b != 0
    ensures 0 <= Abs(a) / Abs(b)
    ensures (Abs(a) / Abs(b)) * Abs(b) <= Abs(a) < (Abs(a) / Abs(b)) * Abs(b) + Abs(b)
  {
  }

  lemma TruncDivMagnitude(a: int, b: int)
    requires b != 0
    ensures Abs(TruncDiv(a, b)) == Abs(a) / Abs(b) <= Abs(a)
  {
    QuotientBounds(a, b);
    Monotone(1, Abs(b), Abs(a) / Abs(b));
  }

  /** `as i64`: the value modulo 2^64, read as a signed number. */
  function AsI64(x: int): (r: i64)
    ensures r == x <==> IsI64(x)
    ensures (x - r) % TWO64 == 0
  {
    (x + TWO63) % TWO64 - TWO63
  }

  function Mul(a: i64, b: i64): i64 {
    AsI64(TruncDiv(a * b, SCALE))
  }

  /** Division by zero panics. */
  function Div(a: i64, b: i64): Option<i64> {
    if b == 0 then None else Some(AsI64(TruncDiv(a * SCALE, b)))
  }

  /** No `i128` intermediate of a product or a quotient overflows. */
  lemma NoWideOverflow(a: i64, b: i64)
    ensures IsI128(a * b) && IsI128(TruncDiv(a * b, SCALE)) && IsI128(a * SCALE)
    ensures b != 0 ==> IsI128(TruncDiv(a * SCALE, b))
  {
    I64Magnitude(a);
    I64Magnitude(b);
    ProductBound(a, b, TWO63, TWO63);
    ProductBound(a, SCALE, TWO63, SCALE);
    assert TWO63 * TWO63 < TWO127 && TWO63 * SCALE < TWO127;
    TruncDivMagnitude(a * b, SCALE);
    if b != 0 {
      TruncDivMagnitude(a * SCALE, b);
    }
  }

  // ----- Truncated and wrapped ------------------------------------------------------

  /** `q` is `n` over `d`, rounded toward zero. */
  predicate IsTruncated(n: int, d: int, q: int) {
    if n >= 0 then 0 <= n - q * d < Abs(d) else 0 <= q * d - n < Abs(d)
  }

  /** `r` is that quotient, but for a multiple of 2^64. */
  ghost predicate WrapsTo(n: int, d: int, r: int) {
    exists k: int :: IsTruncated(n, d, r + Wraps(k))
  }

  function Wraps(k: int): int { k * 0x1_0000_0000_0000_0000 }

  lemma TruncatedUnique(n: int, d: int, p: int, q: int)
    requires d != 0 && IsTruncated(n, d, p) && IsTruncated(n, d, q)
    ensures p == q
  {
    assert (p - q) * d == p * d - q * d;
    if p != q { AtLeastOne(p - q, d); }
  }

  lemma AtLeastOne(x: int, d: int)
    requires x != 0
    ensures Abs(x * d) >= Abs(d)
  {
    AbsProduct(x, d);
    Monotone(1, Abs(x), Abs(d));
  }

  lemma WrapExactly(n: int, d: int, r: i64)
    requires d != 0
    ensures r == AsI64(TruncDiv(n, d)) <==> WrapsTo(n, d, r)
  {
    var q := TruncDiv(n, d);
    assert IsTruncated(n, d, q);
    var k := (q - AsI64(q)) / TWO64;
    assert q == AsI64(q) + Wraps(k);
    if r == AsI64(q) {
      assert IsTruncated(n, d, r + Wraps(k));
    }
    if m: int :| IsTruncated(n, d, r + Wraps(m)) {
      TruncatedUnique(n, d, q, r + Wraps(m));
      SameResidue(AsI64(q), r, k, m);
    }
  }

  lemma SameResidue(x: i64, y: i64, k: int, m: int)
    requires x + Wraps(k) == y + Wraps(m)
    ensures x == y
  {
    assert IsI64(x) && IsI64(y);
    assert k == m;
  }

  /** Every product is the exact one over 10^9, rounded toward zero and wrapped to 64 bits. */
  lemma MulExactly(a: i64, b: i64, r: i64)
    ensures r == Mul(a, b) <==> WrapsTo(a * b, 1_000_000_000, r)
  {
    WrapExactly(a * b, SCALE, r);
  }

  /** Every quotient is the exact one times 10^9, rounded and wrapped so; there is none by zero. */
  lemma DivExactly(a: i64, b: i64, r: i64)
    ensures Div(a, b) == None <==> b == 0
    ensures b != 0 ==> (Div(a, b) == Some(r) <==> WrapsTo(a * 1_000_000_000, b, r))
  {
    if b != 0 { WrapExactly(a * SCALE, b, r); }
  }

  /** The true product of `a` and `b` fits in an `i64`. */
  predicate ProductFits(a: int, b: int) {
    if (a < 0) == (b < 0) then Abs(a * b) < TWO63 * SCALE else Abs(a * b) < (TWO63 + 1) * SCALE
  }

  /** When it fits the product is only truncated, and only then. */
  lemma ProductFitsExactly(a: i64, b: i64)
    ensures ProductFits(a, b) <==> IsTruncated(a * b, 1_000_000_000, Mul(a, b))
  {
    var n, q := a * b, TruncDiv(a * b, SCALE);
    TruncDivMagnitude(n, SCALE);
    BelowExactly(Abs(n), SCALE, TWO63);
    BelowExactly(Abs(n), SCALE, TWO63 + 1);
    SignOfIntProduct(a, b);
    assert IsTruncated(n, SCALE, q);
    if IsTruncated(n, SCALE, Mul(a, b)) {
      TruncatedUnique(n, SCALE, q, Mul(a, b));
    }
  }

  lemma SignOfIntProduct(a: int, b: int)
    ensures a * b < 0 ==> (a < 0) != (b < 0)
    ensures a * b > 0 ==> (a < 0) == (b < 0)
  {
  }

  // ----- Dividing and multiplying back ----------------------------------------------

  /** `r` has the sign of `a`, is no larger in magnitude, and is short of it by less than
      |b| / SCALE + 1 units. */
  predicate JustShortOf(r: int, a: int, b: int) {
    if a >= 0
    then 0 <= r <= a && (a - r) * SCALE < Abs(b) + SCALE
    else a <= r <= 0 && (r - a) * SCALE < Abs(b) + SCALE
  }

  /** The true quotient of `a` by `b` fits in an `i64`; no division is needed to tell. */
  predicate QuotientFits(a: int, b: int) {
    if (a < 0) == (b < 0) then Abs(a) * SCALE < TWO63 * Abs(b) else Abs(a) * SCALE < (TWO63 + 1) * Abs(b)
  }

  lemma BelowExactly(n: int, d: int, m: int)
    requires n >= 0 && d > 0
    ensures n / d < m <==> n < m * d
  {
    assert (n / d) * d <= n < (n / d) * d + d;
    if n / d < m { Monotone(n / d + 1, m, d); } else { Monotone(m, n / d, d); }
  }

  lemma QuotientFitsExactly(a: i64, b: i64)
    requires b != 0
    ensures IsI64(TruncDiv(a * SCALE, b)) <==> QuotientFits(a, b)
  {
    AbsProduct(a, SCALE);
    BelowExactly(Abs(a) * SCALE, Abs(b), TWO63);
    BelowExactly(Abs(a) * SCALE, Abs(b), TWO63 + 1);
  }

  /** Two truncations, by `b` and then by SCALE, seen from the dividend `a`. */
  lemma TwoTruncations(a: int, product: int, p: int, d: int)
    requires d > 0
    requires a >= 0 ==> product >= 0 && 0 <= a * 1_000_000_000 - product < d
    requires a < 0 ==> product <= 0 && 0 <= product - a * 1_000_000_000 < d
    requires product >= 0 ==> 0 <= product - p * 1_000_000_000 < 1_000_000_000
    requires product <= 0 ==> 0 <= p * 1_000_000_000 - product < 1_000_000_000
    ensures a >= 0 ==> 0 <= p <= a && (a - p) * 1_000_000_000 < d + 1_000_000_000
    ensures a < 0 ==> a <= p <= 0 && (p - a) * 1_000_000_000 < d + 1_000_000_000
  {
  }

  lemma ExactQuotientReturns(a: i64, b: i64)
    requires b != 0 && QuotientFits(a, b)
    ensures JustShortOf(Mul(Div(a, b).value, b), a, b)
  {
    var q := TruncDiv(a * SCALE, b);
    QuotientFitsExactly(a, b);
    ProductSign(a, b, q);
    var p := TruncDiv(q * b, SCALE);
    TwoTruncations(a, q * b, p, Abs(b));
    assert IsI64(a);
    assert IsI64(p);
  }

  lemma ProductSign(a: int, b: int, q: int)
    requires b != 0 && q == TruncDiv(a * SCALE, b)
    ensures a >= 0 ==> q * b >= 0
    ensures a < 0 ==> q * b <= 0
  {
    TruncDivMagnitude(a * SCALE, b);
    QuotientBounds(a * SCALE, b);
    Signs(q, b);
    AbsProduct(q, b);
  }

  lemma WrapDistance(q: int)
    requires !IsI64(q)
    ensures Abs(q - AsI64(q)) >= TWO64
  {
  }

  lemma BigRatio(x: int, y: int)
    requires 0 <= x <= 0x8000_0000_0000_0000 && y >= 1_000_000_000
    requires x * 1_000_000_000 >= 0x8000_0000_0000_0000 * y
    ensures x == 0x8000_0000_0000_0000 && y == 1_000_000_000
  {
  }

  lemma SmallDivisor(a: i64, b: i64)
    requires b != 0 && !QuotientFits(a, b)
    requires !(a == -TWO63 && b == -SCALE)
    ensures Abs(b) < SCALE
  {
    I64Magnitude(a);
    if Abs(b) >= SCALE {
      assert Abs(a) * 1_000_000_000 >= 0x8000_0000_0000_0000 * Abs(b);
      BigRatio(Abs(a), Abs(b));
    }
  }

  lemma TooFar(a: int, exact: int, wrapped: int, p: int, d: int)
    requires 0 < d < 1_000_000_000
    requires -d < exact - a * 1_000_000_000 < d
    requires Abs(exact - wrapped) >= 0x1_0000_0000_0000_0000 * d
    requires -1_000_000_000 < wrapped - p * 1_000_000_000 < 1_000_000_000
    ensures Abs(a - p) * 1_000_000_000 >= d + 1_000_000_000
  {
  }

  lemma Distributes(q: int, w: int, b: int)
    ensures (q - w) * b == q * b - w * b
  {
  }

  /** A wrapped quotient is off by at least 2^64 units of `b`, far too many to come back. */
  lemma WrappedQuotientLost(a: i64, b: i64)
    requires b != 0 && !QuotientFits(a, b)
    requires !(a == -TWO63 && b == -SCALE)
    ensures !JustShortOf(Mul(Div(a, b).value, b), a, b)
  {
    var q := TruncDiv(a * SCALE, b);
    var w := AsI64(q);
    QuotientFitsExactly(a, b);
    WrapDistance(q);
    SmallDivisor(a, b);
    I64Magnitude(w);
    ProductBound(w, b, TWO63, SCALE - 1);
    var p := TruncDiv(w * b, SCALE);
    FitsAfterScaling(w * b);
    AbsProduct(q - w, b);
    Monotone(TWO64, Abs(q - w), Abs(b));
    Distributes(q, w, b);
    TooFar(a, q * b, w * b, p, Abs(b));
  }

  lemma FitsAfterScaling(product: int)
    requires Abs(product) <= TWO63 * (SCALE - 1)
    ensures IsI64(TruncDiv(product, SCALE))
  {
    BelowExactly(Abs(product), SCALE, TWO63);
    TruncDivMagnitude(product, SCALE);
  }

  /** `(a / b) * b` stays just short of `a` exactly when the true quotient fits in an `i64`,
      except for the one overflow that wraps twice and lands back on `a`. */
  lemma DivideThenMultiply(a: i64, b: i64)
    requires b != 0
    ensures JustShortOf(Mul(Div(a, b).value, b), a, b) <==> QuotientFits(a, b) || (a == -TWO63 && b == -SCALE)
  {
    if QuotientFits(a, b) {
      ExactQuotientReturns(a, b);
    } else if a == -TWO63 && b == -SCALE {
      assert TruncDiv(a * SCALE, b) == TWO63;
      assert TruncDiv(-TWO63 * -SCALE, SCALE) == TWO63;
    } else {
      WrappedQuotientLost(a, b);
    }
  }

  /** The largest number divided by 10^-9 does not fit, and does not come back. */
  lemma LargestByTiniestLost()
    ensures !QuotientFits(TWO63 - 1, 1) && !JustShortOf(Mul(Div(TWO63 - 1, 1).value, 1), TWO63 - 1, 1)
  {
    DivideThenMultiply(TWO63 - 1, 1);
  }
}
