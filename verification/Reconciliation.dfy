/** Three-way reconciliation of profit figures by relative drift, over exact reals. */
module Reconciliation {
  import opened Reals

  function Abs(x: real): real { if x < 0.0 then -x else x }

  function Max(x: real, y: real): real { if x < y then y else x }

  /** What a difference is measured against; never less than 0.001. */
  function Scale(a: real, b: real): real { Max(Max(Abs(a), Abs(b)), 0.001) }

  /** The difference relative to the larger magnitude. */
  function Drift(a: real, b: real): real { Abs(a - b) / Scale(a, b) }

  function PctDiff(a: real, b: real): real { Drift(a, b) * 100.0 }

  /** The three drifts, in percent. */
  datatype Drifts = Drifts(engineVsExchange: real, engineVsDb: real, exchangeVsDb: real) {
    function Worst(): real { Max(Max(engineVsExchange, engineVsDb), exchangeVsDb) }
  }

  function DriftsOf(engine: real, exchange: real, db: real): Drifts {
    Drifts(PctDiff(engine, exchange), PctDiff(engine, db), PctDiff(exchange, db))
  }

  datatype Status = Ok | Warning | Critical

  datatype Report = Report(
    timestamp: real, enginePnl: real, exchangeDelta: real, dbPnl: real,
    engineVsExchange: real, engineVsDb: real, exchangeVsDb: real,
    maxDrift: real, status: Status)

  function StatusOf(maxDrift: real): Status {
    if maxDrift >= 5.0 then Critical else if maxDrift >= 1.0 then Warning else Ok
  }

  /** Rounding to so many units per one, ties to even. */
  function Rounded(x: real, units: real): real
    requires units > 0.0
  {
    Nearest(x * units) as real / units
  }

  /** The figures are stored with four decimals and the drifts with two; the status is decided
      before rounding. */
  function ReportOf(now: real, engine: real, exchange: real, db: real): Report {
    var d := DriftsOf(engine, exchange, db);
    Report(now, Rounded(engine, 10_000.0), Rounded(exchange, 10_000.0), Rounded(db, 10_000.0),
           Rounded(d.engineVsExchange, 100.0), Rounded(d.engineVsDb, 100.0), Rounded(d.exchangeVsDb, 100.0),
           Rounded(d.Worst(), 100.0), StatusOf(d.Worst()))
  }

  const MAX_RESULTS := 1000

  function Newest(results: seq<Report>): seq<Report> {
    if |results| > MAX_RESULTS then results[|results| - MAX_RESULTS..] else results
  }

  class Reporter {
    var results: seq<Report>
    ghost var all: seq<Report>  // every report ever made

    ghost predicate Valid()
      reads this
    {
      results == Newest(all)
    }

    constructor ()
      ensures Valid() && results == [] && all == []
    {
      results, all := [], [];
    }

    method Reconcile(now: real, engine: real, exchange: real, db: real) returns (report: Report)
      requires Valid()
      modifies this
      ensures Valid() && report == ReportOf(now, engine, exchange, db) && all == old(all) + [report]
      ensures report.status == Critical <==>
        PctDiff(engine, exchange) >= 5.0 || PctDiff(engine, db) >= 5.0 || PctDiff(exchange, db) >= 5.0
      ensures report.status == Ok <==>
        PctDiff(engine, exchange) < 1.0 && PctDiff(engine, db) < 1.0 && PctDiff(exchange, db) < 1.0
    {
      var engineVsExchange := PctDiff(engine, exchange);
      var engineVsDb := PctDiff(engine, db);
      var exchangeVsDb := PctDiff(exchange, db);
      var maxDrift := Max(Max(engineVsExchange, engineVsDb), exchangeVsDb);
      var status := Ok;
      if maxDrift >= 5.0 {
        status := Critical;
      } else if maxDrift >= 1.0 {
        status := Warning;
      }
      report := Report(now, Rounded(engine, 10_000.0), Rounded(exchange, 10_000.0), Rounded(db, 10_000.0),
                       Rounded(engineVsExchange, 100.0), Rounded(engineVsDb, 100.0), Rounded(exchangeVsDb, 100.0),
                       Rounded(maxDrift, 100.0), status);
      results := results + [report];
      if |results| > MAX_RESULTS {
        results := results[|results| - MAX_RESULTS..];
      }
      all := all + [report];
    }
  }

  // ----- What a report holds --------------------------------------------------------

  /** `r` is `x` to so many decimals: a multiple of the unit, at most half a unit away, and an
      even one at exactly half. */
  ghost predicate RoundsTo(x: real, r: real, units: real) {
    exists n: int :: RoundsBy(x, r, units, n)
  }

  predicate RoundsBy(x: real, r: real, units: real, n: int) { IsNearest(x * units, n) && r * units == n as real }

  predicate IsNearest(y: real, n: int) {
    && n as real - 0.5 <= y <= n as real + 0.5
    && (y == n as real - 0.5 || y == n as real + 0.5 ==> n % 2 == 0)
  }

  lemma NearestExactly(y: real, n: int)
    ensures IsNearest(y, n) <==> n == Nearest(y)
  {
  }

  lemma RoundsByExactly(x: real, r: real, units: real, n: int)
    requires units > 0.0
    ensures RoundsBy(x, r, units, n) <==> n == Nearest(x * units) && r == n as real / units
  {
    NearestExactly(x * units, n);
    ScaledIs(r, n as real, units);
  }

  lemma RoundedExactly(x: real, r: real, units: real)
    requires units > 0.0
    ensures RoundsTo(x, r, units) <==> r == Rounded(x, units)
  {
    var n := Nearest(x * units);
    RoundsByExactly(x, r, units, n);
    if r == n as real / units {
      assert RoundsBy(x, r, units, n);
    }
    if RoundsTo(x, r, units) {
      var m: int :| RoundsBy(x, r, units, m);
      RoundsByExactly(x, r, units, m);
    }
  }

  lemma ScaledIs(r: real, n: real, u: real)
    requires u > 0.0
    ensures r * u == n <==> r == n / u
  {
    var q := n / u;
    assert q * u == n && (r - q) * u == r * u - q * u;
    SignOfProduct(r - q, u);
  }

  /** `d` is the drift of two figures in percent: their distance relative to the larger
      magnitude, or to 0.001 when that is larger still. */
  ghost predicate IsDrift(a: real, b: real, d: real) {
    exists scale :: IsScale(a, b, scale) && IsPercentage(if a < b then b - a else a - b, scale, d)
  }

  predicate IsPercentage(part: real, whole: real, d: real) { d * whole == 100.0 * part }

  /** The largest of both magnitudes and 0.001. */
  predicate IsScale(a: real, b: real, scale: real) {
    && a <= scale && -a <= scale && b <= scale && -b <= scale && 0.001 <= scale
    && scale in [a, -a, b, -b, 0.001]
  }

  lemma ScaleExactly(a: real, b: real, scale: real)
    ensures IsScale(a, b, scale) <==> scale == Scale(a, b)
  {
  }

  lemma PercentageExactly(part: real, whole: real, d: real)
    requires whole > 0.0
    ensures IsPercentage(part, whole, d) <==> d == part / whole * 100.0
  {
    var q := part / whole;
    assert q * whole == part && q * 100.0 * whole == 100.0 * part;
    ScaledIs(d, 100.0 * part, whole);
    ScaledIs(q * 100.0, 100.0 * part, whole);
  }

  lemma DriftExactly(a: real, b: real, d: real)
    ensures IsDrift(a, b, d) <==> d == PctDiff(a, b)
  {
    ScaleExactly(a, b, Scale(a, b));
    PercentageExactly(Abs(a - b), Scale(a, b), d);
    if t :| IsScale(a, b, t) && IsPercentage(if a < b then b - a else a - b, t, d) {
      ScaleExactly(a, b, t);
    }
  }

  /** The drifts of the three pairs and the largest of them. */
  ghost predicate DriftsAre(engine: real, exchange: real, db: real, x: real, y: real, z: real, worst: real) {
    && IsDrift(engine, exchange, x) && IsDrift(engine, db, y) && IsDrift(exchange, db, z)
    && x <= worst && y <= worst && z <= worst && worst in [x, y, z]
  }

  /** Each field of a report: figures to four decimals, drifts to two, and the status by the
      drifts before rounding. */
  ghost predicate Reports(r: Report, now: real, engine: real, exchange: real, db: real, x: real, y: real, z: real,
                          worst: real) {
    && r.timestamp == now
    && RoundsTo(engine, r.enginePnl, 10_000.0) && RoundsTo(exchange, r.exchangeDelta, 10_000.0)
    && RoundsTo(db, r.dbPnl, 10_000.0)
    && RoundsTo(x, r.engineVsExchange, 100.0) && RoundsTo(y, r.engineVsDb, 100.0) && RoundsTo(z, r.exchangeVsDb, 100.0)
    && RoundsTo(worst, r.maxDrift, 100.0)
    && (r.status == Critical <==> worst >= 5.0) && (r.status == Ok <==> worst < 1.0)
  }

  lemma DriftsExactly(engine: real, exchange: real, db: real, x: real, y: real, z: real, worst: real)
    ensures DriftsAre(engine, exchange, db, x, y, z, worst) <==>
      var d := DriftsOf(engine, exchange, db);
      x == d.engineVsExchange && y == d.engineVsDb && z == d.exchangeVsDb && worst == d.Worst()
  {
    DriftExactly(engine, exchange, x);
    DriftExactly(engine, db, y);
    DriftExactly(exchange, db, z);
  }

  lemma FieldsExactly(r: Report, now: real, engine: real, exchange: real, db: real)
    ensures var d := DriftsOf(engine, exchange, db);
      Reports(r, now, engine, exchange, db, d.engineVsExchange, d.engineVsDb, d.exchangeVsDb, d.Worst()) <==>
        r == ReportOf(now, engine, exchange, db)
  {
    var d := DriftsOf(engine, exchange, db);
    RoundedExactly(engine, r.enginePnl, 10_000.0);
    RoundedExactly(exchange, r.exchangeDelta, 10_000.0);
    RoundedExactly(db, r.dbPnl, 10_000.0);
    RoundedExactly(d.engineVsExchange, r.engineVsExchange, 100.0);
    RoundedExactly(d.engineVsDb, r.engineVsDb, 100.0);
    RoundedExactly(d.exchangeVsDb, r.exchangeVsDb, 100.0);
    RoundedExactly(d.Worst(), r.maxDrift, 100.0);
  }

  /** A report is the one that is made if and only if each of its fields holds the right figure,
      rounded. */
  lemma ReportExactly(r: Report, now: real, engine: real, exchange: real, db: real)
    ensures r == ReportOf(now, engine, exchange, db) <==>
      exists x, y, z, worst ::
        DriftsAre(engine, exchange, db, x, y, z, worst) && Reports(r, now, engine, exchange, db, x, y, z, worst)
  {
    var d := DriftsOf(engine, exchange, db);
    DriftsExactly(engine, exchange, db, d.engineVsExchange, d.engineVsDb, d.exchangeVsDb, d.Worst());
    FieldsExactly(r, now, engine, exchange, db);
    if x, y, z, worst :|
       DriftsAre(engine, exchange, db, x, y, z, worst) && Reports(r, now, engine, exchange, db, x, y, z, worst) {
      DriftsExactly(engine, exchange, db, x, y, z, worst);
    }
  }

  /** The list holds the newest thousand reports, in order. */
  lemma NewestExactly(results: seq<Report>)
    ensures var kept := Newest(results);
      && |kept| == (if |results| < 1000 then |results| else 1000)
      && forall k :: 0 <= k < |kept| ==> kept[k] == results[|results| - |kept| + k]
  {
  }

  lemma ReadsFive(w: real)
    ensures Rounded(w, 100.0) >= 5.0 <==> w >= 4.995
  {
    var x := w * 100.0;
    if x >= 499.5 { TieAtLeast(x); }
    assert Rounded(w, 100.0) == Nearest(x) as real / 100.0;
  }

  /** The stored drift can look critical without the status: it reads 5% or more if and only if
      the worst drift is at least 4.995%. */
  lemma StoredDriftExactly(now: real, engine: real, exchange: real, db: real)
    ensures ReportOf(now, engine, exchange, db).maxDrift >= 5.0 <==> DriftsOf(engine, exchange, db).Worst() >= 4.995
  {
    ReadsFive(DriftsOf(engine, exchange, db).Worst());
  }

  lemma TieAtLeast(x: real)
    requires x >= 499.5
    ensures Nearest(x) >= 500
  {
    if x < 500.0 {
      assert x.Floor == 499;
    } else {
      NearestAtLeast(x, 500);
    }
  }

  /** A drift of exactly 5% is critical, and one of 4.997% is a warning that reads 5%. */
  lemma FivePercentIsCritical()
    ensures ReportOf(0.0, 100.0, 95.0, 95.0).status == Critical
    ensures var r := ReportOf(0.0, 1000.0, 950.03, 950.03); r.status == Warning && r.maxDrift == 5.0
  {
    assert PctDiff(100.0, 95.0) == 5.0 && PctDiff(95.0, 95.0) == 0.0;
    assert PctDiff(1000.0, 950.03) == 4.997 && PctDiff(950.03, 950.03) == 0.0;
    NearestIs(499.7, 500);
  }

  // ----- The drift is a metric ------------------------------------------------------

  lemma QuotientAtMost(x: real, k: real, y: real, m: real)
    requires k > 0.0 && m > 0.0 && x * m <= y * k
    ensures x / k <= y / m
  {
    var p, q := x / k, y / m;
    assert p * k == x && q * m == y;
    assert (q - p) * (k * m) == y * k - x * m;
    SignOfProduct(q - p, k * m);
  }

  lemma SharedDenominator(x: real, y: real, k: real)
    requires k > 0.0
    ensures x / k + y / k == (x + y) / k
  {
  }

  lemma LargerDenominator(x: real, k: real, m: real)
    requires x >= 0.0 && 0.0 < k <= m
    ensures x / m <= x / k
  {
    assert x * k <= x * m;
    QuotientAtMost(x, m, x, k);
  }

  lemma DriftSymmetries(a: real, b: real)
    ensures Drift(a, b) == Drift(b, a) && Drift(a, b) == Drift(-a, -b)
  {
    assert Abs(a - b) == Abs(b - a) == Abs(-a - -b);
  }

  /** The middle value is no larger than the scale of the outer ones. */
  lemma TriangleNear(a: real, b: real, c: real)
    requires Abs(b) <= Scale(a, c)
    ensures Drift(a, c) <= Drift(a, b) + Drift(b, c)
  {
    var m := Scale(a, c);
    LargerDenominator(Abs(a - b), Scale(a, b), m);
    LargerDenominator(Abs(b - c), Scale(b, c), m);
    SharedDenominator(Abs(a - b), Abs(b - c), m);
    assert Abs(a - c) * m <= (Abs(a - b) + Abs(b - c)) * m;
    QuotientAtMost(Abs(a - c), m, Abs(a - b) + Abs(b - c), m);
  }

  /** The middle value dominates, is positive, and the outer ones are ordered. */
  lemma TriangleFar(a: real, b: real, c: real)
    requires b > Scale(a, c) && a >= c
    ensures Drift(a, c) <= Drift(a, b) + Drift(b, c)
  {
    var m := Scale(a, c);
    assert Scale(a, b) == b && Scale(b, c) == b;
    SharedDenominator(b - a, b - c, b);
    FarAlgebra(a, b, c, m);
    QuotientAtMost(a - c, m, (b - a) + (b - c), b);
  }

  lemma FarExpansion(a: real, b: real, c: real, m: real)
    ensures ((b - a) + (b - c)) * m - (a - c) * b == (2.0 * m - (a - c)) * b - (a + c) * m
  {
  }

  lemma FarSign(s: real, t: real, b: real, m: real)
    requires b > m > 0.0 && s <= 2.0 * m - t && 0.0 <= 2.0 * m - t
    ensures (2.0 * m - t) * b >= s * m
  {
    if s >= 0.0 {
      Multiply(s, 2.0 * m - t, b);
      Multiply(m, b, s);
    } else {
      Multiply(0.0, 2.0 * m - t, b);
      Multiply(s, 0.0, m);
    }
  }

  lemma FarAlgebra(a: real, b: real, c: real, m: real)
    requires b > m > 0.0 && a >= c && -m <= a <= m && -m <= c <= m
    ensures (a - c) * b <= ((b - a) + (b - c)) * m
  {
    FarExpansion(a, b, c, m);
    FarSign(a + c, a - c, b, m);
  }

  lemma Multiply(x: real, y: real, k: real)
    requires x <= y && k >= 0.0
    ensures x * k <= y * k && k * x <= k * y
  {
  }

  lemma TriangleFarPositive(a: real, b: real, c: real)
    requires b > Scale(a, c)
    ensures Drift(a, c) <= Drift(a, b) + Drift(b, c)
  {
    if a >= c {
      TriangleFar(a, b, c);
    } else {
      TriangleFar(c, b, a);
      DriftSymmetries(a, c);
      DriftSymmetries(a, b);
      DriftSymmetries(b, c);
    }
  }

  lemma Triangle(a: real, b: real, c: real)
    ensures Drift(a, c) <= Drift(a, b) + Drift(b, c)
  {
    if Abs(b) <= Scale(a, c) {
      TriangleNear(a, b, c);
    } else if b > 0.0 {
      TriangleFarPositive(a, b, c);
    } else {
      TriangleFarPositive(-a, -b, -c);
      DriftSymmetries(a, c);
      DriftSymmetries(a, b);
      DriftSymmetries(b, c);
    }
  }

  /** The drift is symmetric, zero exactly between equal figures, and at most 200%, which it
      reaches exactly between opposite figures of at least 0.001. */
  lemma DriftRange(a: real, b: real)
    ensures PctDiff(a, b) == PctDiff(b, a) && 0.0 <= PctDiff(a, b) <= 200.0
    ensures PctDiff(a, b) == 0.0 <==> a == b
    ensures PctDiff(a, b) == 200.0 <==> a == -b && Abs(a) >= 0.001
  {
    DriftSymmetries(a, b);
    var d, k := Abs(a - b), Scale(a, b);
    QuotientRange(d, k);
    assert d == 2.0 * k <==> a == -b && Abs(a) >= 0.001;
  }

  lemma QuotientRange(d: real, k: real)
    requires k > 0.0 && 0.0 <= d <= 2.0 * k
    ensures 0.0 <= d / k <= 2.0
    ensures d / k == 0.0 <==> d == 0.0
    ensures d / k == 2.0 <==> d == 2.0 * k
  {
    var q := d / k;
    assert q * k == d && (2.0 - q) * k == 2.0 * k - d;
    SignOfProduct(q, k);
    SignOfProduct(-q, k);
    SignOfProduct(2.0 - q, k);
    SignOfProduct(q - 2.0, k);
  }

  /** Each of the three drifts is at most the sum of the other two. */
  lemma DriftsTriangle(engine: real, exchange: real, db: real)
    ensures var r := DriftsOf(engine, exchange, db);
      && r.engineVsExchange <= r.engineVsDb + r.exchangeVsDb
      && r.engineVsDb <= r.engineVsExchange + r.exchangeVsDb
      && r.exchangeVsDb <= r.engineVsExchange + r.engineVsDb
  {
    Triangle(engine, db, exchange);
    Triangle(engine, exchange, db);
    Triangle(exchange, engine, db);
    DriftSymmetries(exchange, db);
    DriftSymmetries(engine, exchange);
  }

  /** A single wrong source always shows up twice: when the worst drift reaches `x`, at least
      two pairs drift by half of it. So CRITICAL means two pairs at 2.5% or more. */
  lemma NoLoneDrift(engine: real, exchange: real, db: real, x: real)
    ensures var r := DriftsOf(engine, exchange, db);
      r.Worst() >= x ==>
        || (r.engineVsExchange >= x / 2.0 && r.engineVsDb >= x / 2.0)
        || (r.engineVsExchange >= x / 2.0 && r.exchangeVsDb >= x / 2.0)
        || (r.engineVsDb >= x / 2.0 && r.exchangeVsDb >= x / 2.0)
  {
    DriftsTriangle(engine, exchange, db);
    DriftRange(engine, exchange);
    DriftRange(engine, db);
    DriftRange(exchange, db);
  }
}
