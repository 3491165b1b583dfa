/** The Pearson correlation of regime level with average profit, over exact reals. */
module Correlation {
  import opened Reals

  datatype RegimeResult = RegimeResult(regime: string, tradeCount: int, avgPnlPerTrade: real)

  datatype Point = Point(x: real, y: real)

  function RegimeOrder(regime: string): real {
    if regime == "CALM" || regime == "LOW" then 1.0
    else if regime == "NORMAL" || regime == "MEDIUM" then 2.0
    else if regime == "VOLATILE" || regime == "HIGH" then 3.0
    else if regime == "CRISIS" then 4.0
    else 2.0
  }

  /** One point for each regime with trades. */
  function PointsOf(results: seq<RegimeResult>): seq<Point> {
    if results == [] then []
    else
      var rest, r := PointsOf(results[..|results| - 1]), results[|results| - 1];
      if r.tradeCount > 0 then rest + [Point(RegimeOrder(r.regime), r.avgPnlPerTrade)] else rest
  }

  datatype Sums = Sums(n: real, x: real, y: real, xy: real, xx: real, yy: real)

  function AddPoint(s: Sums, p: Point): Sums {
    Sums(s.n + 1.0, s.x + p.x, s.y + p.y, s.xy + p.x * p.y, s.xx + p.x * p.x, s.yy + p.y * p.y)
  }

  function SumsOf(points: seq<Point>): Sums {
    if points == [] then Sums(0.0, 0.0, 0.0, 0.0, 0.0, 0.0)
    else AddPoint(SumsOf(points[..|points| - 1]), points[|points| - 1])
  }

  /** `n` times the sum of products less the product of sums. */
  function Centered(n: real, xy: real, x: real, y: real): real { n * xy - x * y }

  function VarX(s: Sums): real { Centered(s.n, s.xx, s.x, s.x) }

  function VarY(s: Sums): real { Centered(s.n, s.yy, s.y, s.y) }

  function Cov(s: Sums): real { Centered(s.n, s.xy, s.x, s.y) }

  /** `root` is the square root of the product of the variance terms. */
  predicate IsRoot(s: Sums, root: real) { RootOf(root, VarX(s), VarY(s)) }

  predicate RootOf(root: real, a: real, b: real) { root >= 0.0 && root * root == a * b }

  function Ratio(c: real, root: real): real { if root == 0.0 then 0.0 else c / root }

  /** The returned score, given that square root. */
  function Score(points: seq<Point>, root: real): real {
    if |points| < 2 then 0.0 else Ratio(Cov(SumsOf(points)), root)
  }

  // ----- Linear forms of the points -------------------------------------------------

  function Linear(a: real, b: real, x: real, y: real): real { a * x + b * y }

  function Quadratic(a: real, b: real, xx: real, xy: real, yy: real): real {
    a * a * xx + 2.0 * a * b * xy + b * b * yy
  }

  function Square(z: real): real { z * z }

  /** The values of a linear form at the points. */
  function Values(points: seq<Point>, a: real, b: real): seq<real> {
    if points == [] then []
    else
      var p := points[|points| - 1];
      Values(points[..|points| - 1], a, b) + [Linear(a, b, p.x, p.y)]
  }

  function Total(zs: seq<real>): real {
    if zs == [] then 0.0 else Total(zs[..|zs| - 1]) + zs[|zs| - 1]
  }

  function Squares(zs: seq<real>): real {
    if zs == [] then 0.0 else Squares(zs[..|zs| - 1]) + Square(zs[|zs| - 1])
  }

  function Size(zs: seq<real>): real {
    if zs == [] then 0.0 else Size(zs[..|zs| - 1]) + 1.0
  }

  /** n t^2 - 2 t s + q, which for the sums of a list is its squared distance from t. */
  function Around(n: real, s: real, q: real, t: real): real { n * t * t - 2.0 * t * s + q }

  lemma AroundStep(n: real, s: real, q: real, t: real, z: real)
    ensures Around(n + 1.0, s + z, q + Square(z), t) == Around(n, s, q, t) + Square(t - z)
  {
  }

  /** The squared distance from `t` is not negative, and zero only if all values are `t`. */
  lemma {:induction false} AroundExactly(zs: seq<real>, t: real)
    ensures Around(Size(zs), Total(zs), Squares(zs), t) >= 0.0
    ensures Around(Size(zs), Total(zs), Squares(zs), t) == 0.0 <==> forall i :: 0 <= i < |zs| ==> zs[i] == t
  {
    if zs != [] {
      var init, z := zs[..|zs| - 1], zs[|zs| - 1];
      AroundExactly(init, t);
      AroundStep(Size(init), Total(init), Squares(init), t, z);
      SquareExactly(t - z);
      assert zs == init + [z];
    }
  }

  lemma NegatedSquare(x: real)
    ensures Square(x) == Square(-x)
  {
  }

  lemma PositiveSquare(x: real)
    requires x > 0.0
    ensures Square(x) > 0.0
  {
    SignOfProduct(x, x);
  }

  lemma SquareExactly(x: real)
    ensures Square(x) >= 0.0 && (Square(x) == 0.0 <==> x == 0.0)
  {
    NegatedSquare(x);
    if x > 0.0 {
      PositiveSquare(x);
    } else if x < 0.0 {
      PositiveSquare(-x);
    }
  }

  lemma VarianceStep(n: real, s: real, q: real, z: real)
    ensures Centered(n + 1.0, q + Square(z), s + z, s + z) == Centered(n, q, s, s) + Around(n, s, q, z)
  {
  }

  ghost predicate AllSame(zs: seq<real>) {
    forall i, j :: 0 <= i < |zs| && 0 <= j < |zs| ==> zs[i] == zs[j]
  }

  function Variance(zs: seq<real>): real { Centered(Size(zs), Squares(zs), Total(zs), Total(zs)) }

  /** The variance term of a list of numbers is not negative, and zero if and only if they are
      all the same. */
  lemma {:induction false} VarianceExactly(zs: seq<real>)
    ensures Variance(zs) >= 0.0
    ensures Variance(zs) == 0.0 <==> AllSame(zs)
  {
    if zs != [] {
      var init, z := zs[..|zs| - 1], zs[|zs| - 1];
      VarianceExactly(init);
      AroundExactly(init, z);
      VarianceStep(Size(init), Total(init), Squares(init), z);
      SameAppend(init, z);
      assert zs == init + [z];
    }
  }

  lemma SameAppend(zs: seq<real>, z: real)
    ensures AllSame(zs + [z]) <==> AllSame(zs) && forall i :: 0 <= i < |zs| ==> zs[i] == z
  {
    var more := zs + [z];
    if AllSame(more) {
      assert forall i :: 0 <= i < |zs| ==> more[i] == zs[i] && more[i] == more[|zs|];
    }
  }

  /** The size, total and squares of a list of values, as a form of the sums `s`. */
  predicate FormOf(s: Sums, a: real, b: real, size: real, total: real, squares: real) {
    size == s.n && total == Linear(a, b, s.x, s.y) && squares == Quadratic(a, b, s.xx, s.xy, s.yy)
  }

  lemma LinearStep(a: real, b: real, x: real, y: real, u: real, v: real)
    ensures Linear(a, b, x + u, y + v) == Linear(a, b, x, y) + Linear(a, b, u, v)
  {
  }

  lemma FormStep(s: Sums, p: Point, a: real, b: real, size: real, total: real, squares: real)
    requires FormOf(s, a, b, size, total, squares)
    ensures var z := Linear(a, b, p.x, p.y); FormOf(AddPoint(s, p), a, b, size + 1.0, total + z, squares + Square(z))
  {
    LinearStep(a, b, s.x, s.y, p.x, p.y);
    var z := Linear(a, b, p.x, p.y);
    assert Square(z) == a * a * (p.x * p.x) + 2.0 * a * b * (p.x * p.y) + b * b * (p.y * p.y);
  }

  lemma {:induction false} SumsOfValues(points: seq<Point>, a: real, b: real)
    ensures var zs := Values(points, a, b); FormOf(SumsOf(points), a, b, Size(zs), Total(zs), Squares(zs))
  {
    if points != [] {
      var init, p := points[..|points| - 1], points[|points| - 1];
      var zs := Values(init, a, b);
      SumsOfValues(init, a, b);
      FormStep(SumsOf(init), p, a, b, Size(zs), Total(zs), Squares(zs));
      ValuesAppend(zs, Linear(a, b, p.x, p.y));
    }
  }

  lemma ValuesAppend(zs: seq<real>, z: real)
    ensures Size(zs + [z]) == Size(zs) + 1.0
    ensures Total(zs + [z]) == Total(zs) + z
    ensures Squares(zs + [z]) == Squares(zs) + Square(z)
  {
    assert (zs + [z])[..|zs|] == zs;
  }

  lemma CenteredQuadratic(s: Sums, a: real, b: real)
    ensures Centered(s.n, Quadratic(a, b, s.xx, s.xy, s.yy), Linear(a, b, s.x, s.y), Linear(a, b, s.x, s.y)) ==
      Quadratic(a, b, VarX(s), Cov(s), VarY(s))
  {
    var l := Linear(a, b, s.x, s.y);
    assert l * l == a * a * (s.x * s.x) + 2.0 * a * b * (s.x * s.y) + b * b * (s.y * s.y);
    assert s.n * Quadratic(a, b, s.xx, s.xy, s.yy) ==
      a * a * (s.n * s.xx) + 2.0 * a * b * (s.n * s.xy) + b * b * (s.n * s.yy);
    Scale(a * a, s.n * s.xx, s.x * s.x);
    Scale(2.0 * a * b, s.n * s.xy, s.x * s.y);
    Scale(b * b, s.n * s.yy, s.y * s.y);
  }

  lemma Scale(k: real, x: real, y: real)
    ensures k * (x - y) == k * x - k * y
  {
  }

  /** The quadratic form of the variance and covariance terms is the variance of the values. */
  lemma FormIsVariance(points: seq<Point>, a: real, b: real)
    ensures var s := SumsOf(points); Quadratic(a, b, VarX(s), Cov(s), VarY(s)) == Variance(Values(points, a, b))
  {
    SumsOfValues(points, a, b);
    CenteredQuadratic(SumsOf(points), a, b);
  }

  /** The quadratic form of the variance and covariance terms is never negative. */
  lemma FormNonNegative(points: seq<Point>, a: real, b: real)
    ensures var s := SumsOf(points); Quadratic(a, b, VarX(s), Cov(s), VarY(s)) >= 0.0
  {
    FormIsVariance(points, a, b);
    VarianceExactly(Values(points, a, b));
  }

  // ----- Cauchy-Schwarz -------------------------------------------------------------

  ghost predicate NeverNegative(u: real, c: real, v: real) {
    forall a, b :: Quadratic(a, b, u, c, v) >= 0.0
  }

  lemma Discriminant(u: real, c: real, v: real)
    requires NeverNegative(u, c, v)
    ensures u >= 0.0 && v >= 0.0 && c * c <= u * v
  {
    assert Quadratic(1.0, 0.0, u, c, v) == u && Quadratic(0.0, 1.0, u, c, v) == v;
    if v > 0.0 {
      assert Quadratic(v, -c, u, c, v) == (u * v - c * c) * v;
      SignOfProduct(u * v - c * c, v);
    } else {
      assert Quadratic(c, -(u + 1.0), u, c, v) == -(c * c) * (u + 2.0);
      SignOfProduct(-(c * c), u + 2.0);
    }
  }

  /** Both variance terms are non-negative, so the square root exists, and the covariance
      term squared is at most their product. */
  predicate CauchySchwarzHolds(s: Sums) {
    VarX(s) >= 0.0 && VarY(s) >= 0.0 && Cov(s) * Cov(s) <= VarX(s) * VarY(s)
  }

  lemma FormsNeverNegative(points: seq<Point>)
    ensures var s := SumsOf(points); NeverNegative(VarX(s), Cov(s), VarY(s))
  {
    var s := SumsOf(points);
    forall a, b ensures Quadratic(a, b, VarX(s), Cov(s), VarY(s)) >= 0.0 {
      FormNonNegative(points, a, b);
    }
  }

  lemma SumsDiscriminant(s: Sums)
    requires NeverNegative(VarX(s), Cov(s), VarY(s))
    ensures CauchySchwarzHolds(s)
  {
    Discriminant(VarX(s), Cov(s), VarY(s));
  }

  lemma CauchySchwarz(points: seq<Point>)
    ensures CauchySchwarzHolds(SumsOf(points))
  {
    FormsNeverNegative(points);
    SumsDiscriminant(SumsOf(points));
  }

  lemma LargerSquare(c: real, root: real)
    requires root > 0.0 && c > root
    ensures c * c > root * root
  {
    assert c * c > c * root && c * root > root * root;
  }

  lemma RatioWithinOne(c: real, root: real)
    requires root > 0.0 && c * c <= root * root
    ensures -1.0 <= c / root <= 1.0
  {
    var r := c / root;
    if c > root { LargerSquare(c, root); }
    if -c > root { LargerSquare(-c, root); }
    assert (1.0 - r) * root == root - c && (1.0 + r) * root == root + c;
    SignOfProduct(1.0 - r, root);
    SignOfProduct(1.0 + r, root);
  }

  lemma BoundedRatio(u: real, c: real, v: real, root: real)
    requires root >= 0.0 && root * root == u * v && c * c <= u * v
    ensures -1.0 <= Ratio(c, root) <= 1.0
  {
    if root != 0.0 {
      RatioWithinOne(c, root);
    }
  }

  lemma BoundedSums(s: Sums, root: real)
    requires IsRoot(s, root) && CauchySchwarzHolds(s)
    ensures -1.0 <= Ratio(Cov(s), root) <= 1.0
  {
    BoundedRatio(VarX(s), Cov(s), VarY(s), root);
  }

  /** For every list of points the score lies between -1 and 1. */
  lemma ScoreWithinOne(points: seq<Point>, root: real)
    ensures IsRoot(SumsOf(points), root) ==> -1.0 <= Score(points, root) <= 1.0
  {
    if IsRoot(SumsOf(points), root) {
      CauchySchwarz(points);
      BoundedSums(SumsOf(points), root);
    }
  }

  // ----- Points on a line -----------------------------------------------------------

  predicate OnLine(s: Sums, m: real, d: real) {
    s.y == Linear(m, d, s.x, s.n) && s.xy == Linear(m, d, s.xx, s.x) && s.yy == Linear(m, d, s.xy, s.y)
  }

  lemma {:induction false} LineSums(points: seq<Point>, m: real, d: real)
    requires OnSlope(points, m, d)
    ensures OnLine(SumsOf(points), m, d)
  {
    if points != [] {
      LineSums(points[..|points| - 1], m, d);
      LineStep(SumsOf(points[..|points| - 1]), points[|points| - 1], m, d);
    }
  }

  lemma LineStep(s: Sums, p: Point, m: real, d: real)
    requires OnLine(s, m, d) && p.y == Linear(m, d, p.x, 1.0)
    ensures OnLine(AddPoint(s, p), m, d)
  {
    LineProducts(p, m, d);
    LinearStep(m, d, s.x, s.n, p.x, 1.0);
    LinearStep(m, d, s.xx, s.x, p.x * p.x, p.x);
    LinearStep(m, d, s.xy, s.y, p.x * p.y, p.y);
  }

  lemma LineProducts(p: Point, m: real, d: real)
    requires p.y == Linear(m, d, p.x, 1.0)
    ensures p.x * p.y == Linear(m, d, p.x * p.x, p.x)
    ensures p.y * p.y == Linear(m, d, p.x * p.y, p.y)
  {
    assert p.x * p.y == p.x * (m * p.x + d);
    assert p.y * p.y == (m * p.x + d) * p.y;
  }

  lemma LineForms(s: Sums, m: real, d: real)
    requires OnLine(s, m, d)
    ensures Cov(s) == m * VarX(s) && VarY(s) == m * Cov(s)
  {
    LineCov(s.n, s.x, s.xx, m, d);
    LineVar(s.n, s.x, s.y, s.xy, m, d);
  }

  ghost predicate OnSlope(points: seq<Point>, m: real, d: real) {
    forall i :: 0 <= i < |points| ==> points[i].y == Linear(m, d, points[i].x, 1.0)
  }

  ghost predicate Rising(points: seq<Point>) {
    exists m, d :: m > 0.0 && OnSlope(points, m, d)
  }

  ghost predicate Falling(points: seq<Point>) {
    exists m, d :: m < 0.0 && OnSlope(points, m, d)
  }

  ghost predicate SeveralAbscissas(points: seq<Point>) {
    exists i, j :: 0 <= i < |points| && 0 <= j < |points| && points[i].x != points[j].x
  }

  lemma {:induction false} ValuesAt(points: seq<Point>, a: real, b: real)
    ensures |Values(points, a, b)| == |points|
    ensures forall i :: 0 <= i < |points| ==> Values(points, a, b)[i] == Linear(a, b, points[i].x, points[i].y)
  {
    if points != [] {
      ValuesAt(points[..|points| - 1], a, b);
    }
  }

  lemma VarXExactly(points: seq<Point>)
    ensures VarX(SumsOf(points)) > 0.0 <==> SeveralAbscissas(points)
  {
    var s, zs := SumsOf(points), Values(points, 1.0, 0.0);
    FormIsVariance(points, 1.0, 0.0);
    VarianceExactly(zs);
    ValuesAt(points, 1.0, 0.0);
    assert Quadratic(1.0, 0.0, VarX(s), Cov(s), VarY(s)) == VarX(s);
    assert forall i :: 0 <= i < |points| ==> zs[i] == points[i].x;
    if SeveralAbscissas(points) {
      var i, j :| 0 <= i < |points| && 0 <= j < |points| && points[i].x != points[j].x;
      assert zs[i] != zs[j];
    } else {
      assert AllSame(zs);
    }
  }

  lemma Residual(u: real, c: real, v: real)
    requires u > 0.0 && c * c == u * v
    ensures Quadratic(-(c / u), 1.0, u, c, v) == 0.0
  {
    var m := c / u;
    assert m * u == c;
    assert m * c * u == v * u;
    assert (m * c - v) * u == 0.0;
    SignOfProduct(m * c - v, u);
    assert m * m * u == m * c;
  }

  lemma SameValuesOnSlope(points: seq<Point>, m: real) returns (d: real)
    requires AllSame(Values(points, -m, 1.0))
    ensures OnSlope(points, m, d)
  {
    var zs := Values(points, -m, 1.0);
    ValuesAt(points, -m, 1.0);
    d := if zs == [] then 0.0 else zs[0];
    forall i | 0 <= i < |points| ensures points[i].y == Linear(m, d, points[i].x, 1.0) {
      assert zs[i] == zs[0];
    }
  }

  /** Equality in Cauchy-Schwarz. */
  predicate Equality(s: Sums) { VarX(s) > 0.0 && Cov(s) * Cov(s) == VarX(s) * VarY(s) }

  function Slope(s: Sums): real
    requires VarX(s) > 0.0
  {
    Cov(s) / VarX(s)
  }

  lemma NoResidual(s: Sums)
    requires Equality(s)
    ensures Quadratic(-Slope(s), 1.0, VarX(s), Cov(s), VarY(s)) == 0.0
  {
    Residual(VarX(s), Cov(s), VarY(s));
  }

  /** Equality in Cauchy-Schwarz puts the points on a line. */
  lemma EqualityIsLine(points: seq<Point>) returns (d: real)
    requires Equality(SumsOf(points))
    ensures OnSlope(points, Slope(SumsOf(points)), d)
  {
    var m := Slope(SumsOf(points));
    NoResidual(SumsOf(points));
    FormIsVariance(points, -m, 1.0);
    VarianceExactly(Values(points, -m, 1.0));
    d := SameValuesOnSlope(points, m);
  }

  predicate LineMoments(s: Sums, m: real) {
    VarX(s) > 0.0 && Cov(s) == m * VarX(s) && VarY(s) == m * Cov(s)
  }

  lemma LineFacts(points: seq<Point>, m: real, d: real)
    requires OnSlope(points, m, d) && VarX(SumsOf(points)) > 0.0
    ensures LineMoments(SumsOf(points), m)
  {
    LineSums(points, m, d);
    LineForms(SumsOf(points), m, d);
  }

  lemma LineRatio(u: real, c: real, v: real, root: real, m: real)
    requires u > 0.0 && m != 0.0 && c == m * u && v == m * c && root >= 0.0 && root * root == u * v
    ensures Ratio(c, root) == if m > 0.0 then 1.0 else -1.0
  {
    assert root * root == c * c;
    SameMagnitude(root, c);
    SignOfProduct(m, u);
    SignOfProduct(-m, u);
    assert (-m) * u == -c;
    assert if m > 0.0 then c > 0.0 && root == c else c < 0.0 && root == -c;
    UnitRatio(c, root);
  }

  lemma UnitRatio(c: real, root: real)
    requires root > 0.0 && (root == c || root == -c)
    ensures Ratio(c, root) == if root == c then 1.0 else -1.0
  {
  }

  lemma LineMomentsRatio(s: Sums, root: real, m: real)
    requires LineMoments(s, m) && IsRoot(s, root) && m != 0.0
    ensures Ratio(Cov(s), root) == if m > 0.0 then 1.0 else -1.0
  {
    LineRatio(VarX(s), Cov(s), VarY(s), root, m);
  }

  /** Points on a rising line score 1 and points on a falling line -1, unless they share one
      abscissa. */
  lemma LineScoresOne(points: seq<Point>, root: real, m: real, d: real)
    requires SeveralAbscissas(points) && OnSlope(points, m, d) && IsRoot(SumsOf(points), root) && m != 0.0
    ensures Score(points, root) == if m > 0.0 then 1.0 else -1.0
  {
    VarXExactly(points);
    LineFacts(points, m, d);
    LineMomentsRatio(SumsOf(points), root, m);
  }

  lemma ZeroFactor(u: real, v: real)
    ensures u == 0.0 ==> u * v == 0.0
  {
  }

  lemma FullRatio(c: real, root: real, u: real, v: real)
    requires u >= 0.0 && root >= 0.0 && root * root == u * v && (Ratio(c, root) == 1.0 || Ratio(c, root) == -1.0)
    ensures u > 0.0 && c * c == u * v
    ensures Ratio(c, root) == 1.0 ==> c / u > 0.0
    ensures Ratio(c, root) == -1.0 ==> c / u < 0.0
  {
    var r := c / root;
    SignOfProduct(root, root);
    assert r * root == c;
    ZeroFactor(u, v);
    assert u * v > 0.0;
    assert u > 0.0;
    var m := c / u;
    assert m * u == c;
    SignOfProduct(m, u);
  }

  lemma FullSums(s: Sums, root: real)
    requires IsRoot(s, root) && CauchySchwarzHolds(s) && (Ratio(Cov(s), root) == 1.0 || Ratio(Cov(s), root) == -1.0)
    ensures Equality(s)
    ensures Ratio(Cov(s), root) == 1.0 ==> Slope(s) > 0.0
    ensures Ratio(Cov(s), root) == -1.0 ==> Slope(s) < 0.0
  {
    FullRatio(Cov(s), root, VarX(s), VarY(s));
  }

  /** A full score comes from a line, whose slope has its sign. */
  lemma FullScoreIsLine(points: seq<Point>, root: real) returns (m: real, d: real)
    requires IsRoot(SumsOf(points), root) && (Score(points, root) == 1.0 || Score(points, root) == -1.0)
    ensures SeveralAbscissas(points) && OnSlope(points, m, d)
    ensures if Score(points, root) == 1.0 then m > 0.0 else m < 0.0
  {
    CauchySchwarz(points);
    FullSums(SumsOf(points), root);
    m := Slope(SumsOf(points));
    d := EqualityIsLine(points);
    VarXExactly(points);
  }

  /** The score is 1 if and only if the points lie on a rising line, and -1 if and only if they
      lie on a falling one, with more than one abscissa. */
  lemma ScoreOneExactly(points: seq<Point>, root: real)
    ensures IsRoot(SumsOf(points), root) ==>
      && (Score(points, root) == 1.0 <==> SeveralAbscissas(points) && Rising(points))
      && (Score(points, root) == -1.0 <==> SeveralAbscissas(points) && Falling(points))
  {
    if IsRoot(SumsOf(points), root) {
      if Score(points, root) == 1.0 || Score(points, root) == -1.0 {
        var m, d := FullScoreIsLine(points, root);
      }
      if SeveralAbscissas(points) {
        if m, d :| m > 0.0 && OnSlope(points, m, d) { LineScoresOne(points, root, m, d); }
        if m, d :| m < 0.0 && OnSlope(points, m, d) { LineScoresOne(points, root, m, d); }
      }
    }
  }

  lemma LineCov(n: real, x: real, xx: real, m: real, d: real)
    ensures Centered(n, Linear(m, d, xx, x), x, Linear(m, d, x, n)) == m * Centered(n, xx, x, x)
  {
    assert n * (m * xx + d * x) == m * (n * xx) + d * (n * x);
    assert x * (m * x + d * n) == m * (x * x) + d * (n * x);
    Scale(m, n * xx, x * x);
  }

  lemma LineVar(n: real, x: real, y: real, xy: real, m: real, d: real)
    requires y == Linear(m, d, x, n)
    ensures Centered(n, Linear(m, d, xy, y), y, y) == m * Centered(n, xy, x, y)
  {
    assert n * (m * xy + d * y) == m * (n * xy) + d * (n * y);
    assert y * y == (m * x + d * n) * y;
    assert (m * x + d * n) * y == m * (x * y) + d * (n * y);
    Scale(m, n * xy, x * y);
  }

  lemma SameMagnitude(r: real, c: real)
    requires r >= 0.0 && r * r == c * c
    ensures r == c || r == -c
  {
    assert (r - c) * (r + c) == 0.0;
  }

  // ----- The correlation of regimes -------------------------------------------------

  function Grade(r: RegimeResult): real { RegimeOrder(r.regime) }

  function Profit(r: RegimeResult): real { r.avgPnlPerTrade }

  /** The product of the differences between two regimes. */
  function Cross(q: RegimeResult, r: RegimeResult, f: RegimeResult -> real, g: RegimeResult -> real): real {
    (f(q) - f(r)) * (g(q) - g(r))
  }

  /** Those between `r` and each regime with trades. */
  function Against(results: seq<RegimeResult>, r: RegimeResult, f: RegimeResult -> real,
                   g: RegimeResult -> real): real {
    if results == [] then 0.0
    else
      var rest, q := Against(results[..|results| - 1], r, f, g), results[|results| - 1];
      if q.tradeCount > 0 then rest + Cross(q, r, f, g) else rest
  }

  /** The same over all pairs of regimes with trades. */
  function Pairs(results: seq<RegimeResult>, f: RegimeResult -> real, g: RegimeResult -> real): real {
    if results == [] then 0.0
    else
      var init, r := results[..|results| - 1], results[|results| - 1];
      if r.tradeCount > 0 then Pairs(init, f, g) + Against(init, r, f, g) else Pairs(init, f, g)
  }

  /** What the sums of a list have in place of the products of differences from (a, b). */
  function Deviation(n: real, fg: real, f: real, g: real, a: real, b: real): real {
    fg - f * b - g * a + n * a * b
  }

  lemma DeviationStep(n: real, fg: real, f: real, g: real, a: real, b: real, p: real, q: real)
    ensures Deviation(n + 1.0, fg + p * q, f + p, g + q, a, b) == Deviation(n, fg, f, g, a, b) + (p - a) * (q - b)
  {
    assert (p - a) * (q - b) == p * q - p * b - q * a + a * b;
    assert (f + p) * b == f * b + p * b && (g + q) * a == g * a + q * a;
    assert (n + 1.0) * a * b == n * a * b + a * b;
  }

  lemma CenteredStep(n: real, fg: real, f: real, g: real, a: real, b: real)
    ensures Centered(n + 1.0, fg + a * b, f + a, g + b) == Centered(n, fg, f, g) + Deviation(n, fg, f, g, a, b)
  {
    assert (n + 1.0) * (fg + a * b) == n * fg + n * a * b + fg + a * b;
    assert (f + a) * (g + b) == f * g + f * b + a * g + a * b;
  }

  /** The number of regimes with trades, and sums over them. */
  function Count(results: seq<RegimeResult>): real {
    if results == [] then 0.0
    else Count(results[..|results| - 1]) + if results[|results| - 1].tradeCount > 0 then 1.0 else 0.0
  }

  function Sum(results: seq<RegimeResult>, f: RegimeResult -> real): real {
    if results == [] then 0.0
    else Sum(results[..|results| - 1], f) + if results[|results| - 1].tradeCount > 0 then f(results[|results| - 1])
      else 0.0
  }

  function SumProducts(results: seq<RegimeResult>, f: RegimeResult -> real, g: RegimeResult -> real): real {
    if results == [] then 0.0
    else
      var rest, q := SumProducts(results[..|results| - 1], f, g), results[|results| - 1];
      if q.tradeCount > 0 then rest + f(q) * g(q) else rest
  }

  lemma SumsNext(results: seq<RegimeResult>, q: RegimeResult, f: RegimeResult -> real, g: RegimeResult -> real)
    requires q.tradeCount > 0
    ensures Count(results + [q]) == Count(results) + 1.0 && Sum(results + [q], f) == Sum(results, f) + f(q)
    ensures SumProducts(results + [q], f, g) == SumProducts(results, f, g) + f(q) * g(q)
  {
    assert (results + [q])[..|results|] == results;
  }

  lemma SumsSkip(results: seq<RegimeResult>, q: RegimeResult, f: RegimeResult -> real, g: RegimeResult -> real)
    requires q.tradeCount <= 0
    ensures Count(results + [q]) == Count(results) && Sum(results + [q], f) == Sum(results, f)
    ensures SumProducts(results + [q], f, g) == SumProducts(results, f, g)
  {
    assert (results + [q])[..|results|] == results;
  }

  function DeviationOf(results: seq<RegimeResult>, f: RegimeResult -> real, g: RegimeResult -> real, a: real,
                       b: real): real {
    Deviation(Count(results), SumProducts(results, f, g), Sum(results, f), Sum(results, g), a, b)
  }

  lemma DeviationNext(results: seq<RegimeResult>, q: RegimeResult, r: RegimeResult, f: RegimeResult -> real,
                      g: RegimeResult -> real)
    requires q.tradeCount > 0
    ensures DeviationOf(results + [q], f, g, f(r), g(r)) == DeviationOf(results, f, g, f(r), g(r)) + Cross(q, r, f, g)
  {
    SumsNext(results, q, f, g);
    SumsNext(results, q, g, g);
    DeviationStep(Count(results), SumProducts(results, f, g), Sum(results, f), Sum(results, g), f(r), g(r), f(q), g(q));
  }

  lemma AgainstNext(results: seq<RegimeResult>, q: RegimeResult, r: RegimeResult, f: RegimeResult -> real,
                    g: RegimeResult -> real)
    ensures Against(results + [q], r, f, g) ==
      Against(results, r, f, g) + if q.tradeCount > 0 then Cross(q, r, f, g) else 0.0
  {
    assert (results + [q])[..|results|] == results;
  }

  lemma DeviationSkip(results: seq<RegimeResult>, q: RegimeResult, f: RegimeResult -> real,
                      g: RegimeResult -> real, a: real, b: real)
    requires q.tradeCount <= 0
    ensures DeviationOf(results + [q], f, g, a, b) == DeviationOf(results, f, g, a, b)
  {
    SumsSkip(results, q, f, g);
    SumsSkip(results, q, g, g);
  }

  lemma {:induction false} AgainstIsDeviation(results: seq<RegimeResult>, r: RegimeResult, f: RegimeResult -> real,
                                              g: RegimeResult -> real)
    ensures Against(results, r, f, g) == DeviationOf(results, f, g, f(r), g(r))
  {
    if results != [] {
      var init, q := results[..|results| - 1], results[|results| - 1];
      assert results == init + [q];
      AgainstIsDeviation(init, r, f, g);
      AgainstNext(init, q, r, f, g);
      if q.tradeCount > 0 {
        DeviationNext(init, q, r, f, g);
      } else {
        DeviationSkip(init, q, f, g, f(r), g(r));
      }
    }
  }

  function CenteredOf(results: seq<RegimeResult>, f: RegimeResult -> real, g: RegimeResult -> real): real {
    Centered(Count(results), SumProducts(results, f, g), Sum(results, f), Sum(results, g))
  }

  lemma CenteredNext(results: seq<RegimeResult>, q: RegimeResult, f: RegimeResult -> real, g: RegimeResult -> real)
    requires q.tradeCount > 0
    ensures CenteredOf(results + [q], f, g) == CenteredOf(results, f, g) + DeviationOf(results, f, g, f(q), g(q))
  {
    SumsNext(results, q, f, g);
    SumsNext(results, q, g, g);
    CenteredStep(Count(results), SumProducts(results, f, g), Sum(results, f), Sum(results, g), f(q), g(q));
  }

  lemma CenteredSkip(results: seq<RegimeResult>, q: RegimeResult, f: RegimeResult -> real, g: RegimeResult -> real)
    requires q.tradeCount <= 0
    ensures CenteredOf(results + [q], f, g) == CenteredOf(results, f, g)
  {
    SumsSkip(results, q, f, g);
    SumsSkip(results, q, g, g);
  }

  lemma {:induction false} CenteredIsPairs(results: seq<RegimeResult>, f: RegimeResult -> real,
                                           g: RegimeResult -> real)
    ensures Pairs(results, f, g) == CenteredOf(results, f, g)
  {
    if results != [] {
      var init, r := results[..|results| - 1], results[|results| - 1];
      assert results == init + [r];
      CenteredIsPairs(init, f, g);
      if r.tradeCount > 0 {
        AgainstIsDeviation(init, r, f, g);
        CenteredNext(init, r, f, g);
      } else {
        CenteredSkip(init, r, f, g);
      }
    }
  }

  lemma SumsAppend(points: seq<Point>, p: Point)
    ensures SumsOf(points + [p]) == AddPoint(SumsOf(points), p)
  {
    assert (points + [p])[..|points|] == points;
  }

  function RegimeSums(results: seq<RegimeResult>): Sums {
    Sums(Count(results), Sum(results, Grade), Sum(results, Profit), SumProducts(results, Grade, Profit),
         SumProducts(results, Grade, Grade), SumProducts(results, Profit, Profit))
  }

  lemma SumProductsNext(results: seq<RegimeResult>, q: RegimeResult, f: RegimeResult -> real,
                        g: RegimeResult -> real, a: real, b: real)
    requires q.tradeCount > 0 && a == f(q) && b == g(q)
    ensures SumProducts(results + [q], f, g) == SumProducts(results, f, g) + a * b
  {
    SumsNext(results, q, f, g);
  }

  lemma SumNext(results: seq<RegimeResult>, q: RegimeResult, f: RegimeResult -> real)
    requires q.tradeCount > 0
    ensures Count(results + [q]) == Count(results) + 1.0 && Sum(results + [q], f) == Sum(results, f) + f(q)
  {
    SumsNext(results, q, f, f);
  }

  lemma AddPointIs(s: Sums, p: Point, t: Sums)
    requires t.n == s.n + 1.0 && t.x == s.x + p.x && t.y == s.y + p.y
    requires t.xy == s.xy + p.x * p.y && t.xx == s.xx + p.x * p.x && t.yy == s.yy + p.y * p.y
    ensures t == AddPoint(s, p)
  {
  }

  lemma RegimeSumsNext(results: seq<RegimeResult>, q: RegimeResult, p: Point)
    requires p == Point(Grade(q), Profit(q)) && q.tradeCount > 0
    ensures RegimeSums(results + [q]) == AddPoint(RegimeSums(results), p)
  {
    SumNext(results, q, Grade);
    SumNext(results, q, Profit);
    SumProductsNext(results, q, Grade, Profit, p.x, p.y);
    SumProductsNext(results, q, Grade, Grade, p.x, p.x);
    SumProductsNext(results, q, Profit, Profit, p.y, p.y);
    AddPointIs(RegimeSums(results), p, RegimeSums(results + [q]));
  }

  lemma RegimeSumsSkip(results: seq<RegimeResult>, q: RegimeResult)
    requires q.tradeCount <= 0
    ensures RegimeSums(results + [q]) == RegimeSums(results)
  {
    SumsSkip(results, q, Grade, Profit);
    SumsSkip(results, q, Grade, Grade);
    SumsSkip(results, q, Profit, Profit);
  }

  lemma {:induction false} SumsOverRegimes(results: seq<RegimeResult>)
    ensures SumsOf(PointsOf(results)) == RegimeSums(results)
  {
    if results != [] {
      var init, r := results[..|results| - 1], results[|results| - 1];
      assert results == init + [r];
      SumsOverRegimes(init);
      if r.tradeCount > 0 {
        RegimeSumsNext(init, r, Point(Grade(r), Profit(r)));
        SumsAppend(PointsOf(init), Point(Grade(r), Profit(r)));
      } else {
        RegimeSumsSkip(init, r);
      }
    }
  }

  /** The three terms of the formula are sums over pairs. */
  lemma TermsArePairs(results: seq<RegimeResult>)
    ensures var s := SumsOf(PointsOf(results));
      && Cov(s) == Pairs(results, Grade, Profit)
      && VarX(s) == Pairs(results, Grade, Grade)
      && VarY(s) == Pairs(results, Profit, Profit)
  {
    SumsOverRegimes(results);
    CenteredIsPairs(results, Grade, Profit);
    CenteredIsPairs(results, Grade, Grade);
    CenteredIsPairs(results, Profit, Profit);
  }

  lemma LevelsExactly(name: string)
    ensures RegimeOrder(name) == 1.0 <==> name in ["CALM", "LOW"]
    ensures RegimeOrder(name) == 3.0 <==> name in ["VOLATILE", "HIGH"]
    ensures RegimeOrder(name) == 4.0 <==> name == "CRISIS"
    ensures RegimeOrder(name) in [1.0, 2.0, 3.0, 4.0]
  {
  }

  /** `root` is the square root of the product of the squared differences of level and profit,
      summed over all pairs of regimes with trades. */
  predicate IsPairRoot(results: seq<RegimeResult>, root: real) {
    RootOf(root, Pairs(results, Grade, Grade), Pairs(results, Profit, Profit))
  }

  /** The correlation as it is defined by pairs: the products of the differences, relative to
      that root; zero when the root is. */
  predicate IsCorrelation(results: seq<RegimeResult>, root: real, score: real) {
    if root > 0.0 then score * root == Pairs(results, Grade, Profit) else score == 0.0
  }

  lemma FewPoints(points: seq<Point>)
    requires |points| < 2
    ensures VarX(SumsOf(points)) == 0.0
  {
    if |points| == 1 {
      assert points[..0] == [];
      assert SumsOf(points) == AddPoint(SumsOf([]), points[0]);
    }
  }

  lemma ZeroRoot(root: real, a: real, b: real)
    requires RootOf(root, a, b) && a == 0.0
    ensures root == 0.0
  {
    if root > 0.0 { SignOfProduct(root, root); }
  }

  lemma RatioExactly(c: real, root: real, score: real)
    requires root >= 0.0
    ensures score == Ratio(c, root) <==> if root > 0.0 then score * root == c else score == 0.0
  {
    if root > 0.0 {
      QuotientExactly(c, root, score);
    }
  }

  lemma FewPointsNoRoot(points: seq<Point>, root: real)
    requires |points| < 2 && IsRoot(SumsOf(points), root)
    ensures root == 0.0
  {
    FewPoints(points);
    ZeroRoot(root, VarX(SumsOf(points)), VarY(SumsOf(points)));
  }

  /** The score is the correlation by pairs and nothing else. */
  lemma ScoreExactly(results: seq<RegimeResult>, root: real, score: real)
    ensures IsPairRoot(results, root) <==> IsRoot(SumsOf(PointsOf(results)), root)
    ensures IsPairRoot(results, root) ==>
      (score == Score(PointsOf(results), root) <==> IsCorrelation(results, root, score))
  {
    var points := PointsOf(results);
    TermsArePairs(results);
    if IsPairRoot(results, root) {
      if |points| < 2 {
        FewPointsNoRoot(points, root);
      } else {
        RatioExactly(Cov(SumsOf(points)), root, score);
      }
    }
  }

  lemma QuotientExactly(c: real, root: real, score: real)
    requires root > 0.0
    ensures score == c / root <==> score * root == c
  {
    var q := c / root;
    assert q * root == c;
    assert (score - q) * root == score * root - c;
    SignOfProduct(score - q, root);
  }

  /** The loop over the regimes and the formula behind it. */
  method ComputeCorrelation(results: seq<RegimeResult>, root: real) returns (score: real)
    ensures score == Score(PointsOf(results), root)
    ensures IsPairRoot(results, root) ==> IsCorrelation(results, root, score)
  {
    ScoreExactly(results, root, Score(PointsOf(results), root));
    var points := [];
    for i := 0 to |results|
      invariant points == PointsOf(results[..i])
    {
      assert results[..i + 1][..i] == results[..i];
      if results[i].tradeCount > 0 {
        points := points + [Point(RegimeOrder(results[i].regime), results[i].avgPnlPerTrade)];
      }
    }
    assert results[..|results|] == results;
    if |points| < 2 {
      return 0.0;
    }
    var s := SumsOf(points);
    if root == 0.0 {
      return 0.0;
    }
    score := Cov(s) / root;
  }

  predicate Traded(results: seq<RegimeResult>, i: int) {
    0 <= i < |results| && results[i].tradeCount > 0
  }

  function LevelOf(results: seq<RegimeResult>, i: int): real
    requires Traded(results, i)
  {
    RegimeOrder(results[i].regime)
  }

  /** Two regimes of different level have trades. */
  ghost predicate SeveralLevels(results: seq<RegimeResult>) {
    exists i, j :: Traded(results, i) && Traded(results, j) && LevelOf(results, i) != LevelOf(results, j)
  }

  /** Average profit is `d` plus `m` times the level, in every regime with trades. */
  ghost predicate Graded(results: seq<RegimeResult>, m: real, d: real) {
    forall i :: Traded(results, i) ==> results[i].avgPnlPerTrade == Linear(m, d, LevelOf(results, i), 1.0)
  }

  lemma {:induction false} PointOf(results: seq<RegimeResult>, i: nat) returns (k: nat)
    requires Traded(results, i)
    ensures k < |PointsOf(results)|
    ensures PointsOf(results)[k] == Point(LevelOf(results, i), results[i].avgPnlPerTrade)
  {
    var n := |results| - 1;
    if i == n {
      k := |PointsOf(results[..n])|;
    } else {
      k := PointOf(results[..n], i);
    }
  }

  lemma {:induction false} RegimeOf(results: seq<RegimeResult>, k: nat) returns (i: nat)
    requires k < |PointsOf(results)|
    ensures Traded(results, i) && PointsOf(results)[k] == Point(LevelOf(results, i), results[i].avgPnlPerTrade)
  {
    var n := |results| - 1;
    if k == |PointsOf(results[..n])| {
      i := n;
    } else {
      i := RegimeOf(results[..n], k);
    }
  }

  lemma SeveralLevelsExactly(results: seq<RegimeResult>)
    ensures SeveralAbscissas(PointsOf(results)) <==> SeveralLevels(results)
  {
    var points := PointsOf(results);
    if SeveralLevels(results) {
      var i, j :| Traded(results, i) && Traded(results, j) && LevelOf(results, i) != LevelOf(results, j);
      var k := PointOf(results, i);
      var l := PointOf(results, j);
    }
    if SeveralAbscissas(points) {
      var k, l :| 0 <= k < |points| && 0 <= l < |points| && points[k].x != points[l].x;
      var i := RegimeOf(results, k);
      var j := RegimeOf(results, l);
    }
  }

  lemma GradedExactly(results: seq<RegimeResult>, m: real, d: real)
    ensures OnSlope(PointsOf(results), m, d) <==> Graded(results, m, d)
  {
    var points := PointsOf(results);
    if OnSlope(points, m, d) {
      forall i | Traded(results, i) ensures results[i].avgPnlPerTrade == Linear(m, d, LevelOf(results, i), 1.0) {
        var k := PointOf(results, i);
        assert points[k].y == Linear(m, d, points[k].x, 1.0);
      }
    }
    if Graded(results, m, d) {
      forall k | 0 <= k < |points| ensures points[k].y == Linear(m, d, points[k].x, 1.0) {
        var i := RegimeOf(results, k);
      }
    }
  }

  ghost predicate RisingProfit(results: seq<RegimeResult>) {
    exists m, d :: m > 0.0 && Graded(results, m, d)
  }

  ghost predicate FallingProfit(results: seq<RegimeResult>) {
    exists m, d :: m < 0.0 && Graded(results, m, d)
  }

  /** Whatever the regimes, the correlation lies in [-1, 1]. It is 1 if and only if, over at
      least two levels, average profit rises linearly with the level, and -1 if and only if it
      falls so. */
  lemma CorrelationExactly(results: seq<RegimeResult>, root: real)
    ensures var points := PointsOf(results);
      IsRoot(SumsOf(points), root) ==>
        && -1.0 <= Score(points, root) <= 1.0
        && (Score(points, root) == 1.0 <==> SeveralLevels(results) && RisingProfit(results))
        && (Score(points, root) == -1.0 <==> SeveralLevels(results) && FallingProfit(results))
  {
    var points := PointsOf(results);
    ScoreWithinOne(points, root);
    ScoreOneExactly(points, root);
    SeveralLevelsExactly(results);
    forall m, d ensures OnSlope(points, m, d) <==> Graded(results, m, d) {
      GradedExactly(results, m, d);
    }
  }
}
