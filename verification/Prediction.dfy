/** The storage forecast of storage_prediction.c: a least-squares line through the file
    sizes over time, over the real numbers. */
module Prediction {
  import opened Common

  datatype Sample = Sample(createTime: int, fileSize: nat)

  datatype Point = Point(x: real, y: real)

  function X(t: int, origin: int): real {
    (t - origin) as real / 86400.0
  }

  /** The samples in days since the origin. */
  function Points(ss: seq<Sample>, origin: int): (ps: seq<Point>)
    ensures |ps| == |ss|
  {
    if ss == [] then []
    else
      var last := ss[|ss| - 1];
      Points(ss[..|ss| - 1], origin) + [Point(X(last.createTime, origin), last.fileSize as real)]
  }

  // ----------------------------------------------------------------------- sums

  datatype Sums = Sums(n: real, x: real, y: real, xy: real, x2: real)

  // Products and quotients have names, so that equal arguments are seen to give equal
  // results without any arithmetic.
  function Times(a: real, b: real): real {
    a * b
  }

  function Ratio(a: real, b: real): real
    requires b != 0.0
  {
    a / b
  }

  function Add(s: Sums, p: Point): Sums {
    Sums(s.n + 1.0, s.x + p.x, s.y + p.y, s.xy + Times(p.x, p.y), s.x2 + Times(p.x, p.x))
  }

  function SumsOf(ps: seq<Point>): (s: Sums)
    ensures s.n == |ps| as real
  {
    if ps == [] then Sums(0.0, 0.0, 0.0, 0.0, 0.0) else Add(SumsOf(ps[..|ps| - 1]), ps[|ps| - 1])
  }

  function Numer(s: Sums): real {
    Times(s.n, s.xy) - Times(s.x, s.y)
  }

  function Denom(s: Sums): real {
    Times(s.n, s.x2) - Times(s.x, s.x)
  }

  function Slope(s: Sums): real {
    if s.n > 1.0 && Denom(s) > 0.0 then Ratio(Numer(s), Denom(s)) else 0.0
  }

  function Intercept(s: Sums): real {
    if s.n != 0.0 then Ratio(s.y - Times(Slope(s), s.x), s.n) else 0.0
  }

  /** predict_storage_usage_internal, from the collected samples on. */
  method Predict(samples: seq<Sample>, now: int, horizonDays: nat)
    returns (rc: int, slope: real, predicted: real)
    ensures samples == [] ==> rc == ENOENT
    ensures samples != [] ==>
      && rc == 0 && slope == Slope(SumsOf(Points(samples, samples[0].createTime)))
      && predicted == Forecast(samples, samples[0].createTime, now, horizonDays)
    ensures samples != [] ==>
      exists a :: BestLine(samples, a, slope) && Foretells(a, slope, now, horizonDays, predicted)
    ensures TwoTimes(samples) ==> forall a, b | BestLine(samples, a, b) ::
              b == slope && Foretells(a, b, now, horizonDays, predicted)
    ensures TwoTimes(samples) ==> forall a, b | OnLine(samples, a, b) ::
              b == slope && Foretells(a, b, now, horizonDays, predicted)
  {
    if samples == [] {
      return ENOENT, 0.0, 0.0;
    }
    var sumX, sumY, sumXY, sumX2 := 0.0, 0.0, 0.0, 0.0;
    var origin := samples[0].createTime;
    for i := 0 to |samples|
      invariant SumsOf(Points(samples[..i], origin)) == Sums(i as real, sumX, sumY, sumXY, sumX2)
    {
      var x, y := X(samples[i].createTime, origin), samples[i].fileSize as real;
      PointsNext(samples, i, origin);
      sumX, sumY, sumXY, sumX2 := sumX + x, sumY + y, sumXY + Times(x, y), sumX2 + Times(x, x);
    }
    assert samples[..|samples|] == samples;
    slope, predicted := Extrapolate(|samples|, sumX, sumY, sumXY, sumX2, X(now, origin) + horizonDays as real);
    ForecastIsBest(samples, origin, now, horizonDays);
    rc := 0;
  }

  /** The slope from the sums. */
  method FitSlope(samples: nat, sumX: real, sumY: real, sumXY: real, sumX2: real) returns (slope: real)
    ensures slope == Slope(Sums(samples as real, sumX, sumY, sumXY, sumX2))
  {
    var count := samples as real;
    slope := 0.0;
    var denom := count * sumX2 - sumX * sumX;
    if samples > 1 && denom > 0.0 {
      slope := Ratio(count * sumXY - sumX * sumY, denom);
    }
  }

  /** The line from the sums, and its value at the horizon. */
  method Extrapolate(samples: nat, sumX: real, sumY: real, sumXY: real, sumX2: real, horizonX: real)
    returns (slope: real, predicted: real)
    requires samples > 0
    ensures var s := Sums(samples as real, sumX, sumY, sumXY, sumX2);
            slope == Slope(s) && predicted == NonNegative(Value(s, horizonX))
  {
    slope := FitSlope(samples, sumX, sumY, sumXY, sumX2);
    var intercept := Ratio(sumY - Times(slope, sumX), samples as real);
    predicted := intercept + Times(slope, horizonX);
    if predicted < 0.0 {
      predicted := 0.0;
    }
  }

  lemma PointsNext(ss: seq<Sample>, i: nat, origin: int)
    requires i < |ss|
    ensures SumsOf(Points(ss[..i + 1], origin))
         == Add(SumsOf(Points(ss[..i], origin)), Point(X(ss[i].createTime, origin), ss[i].fileSize as real))
  {
    assert ss[..i + 1][..i] == ss[..i];
    var p := Point(X(ss[i].createTime, origin), ss[i].fileSize as real);
    var ps := Points(ss[..i], origin);
    assert Points(ss[..i + 1], origin) == ps + [p];
    assert (ps + [p])[..|ps|] == ps;
  }

  function Value(s: Sums, x: real): real {
    Intercept(s) + Times(Slope(s), x)
  }

  function NonNegative(v: real): real {
    if v < 0.0 then 0.0 else v
  }

  function Forecast(ss: seq<Sample>, origin: int, now: int, horizonDays: nat): real {
    NonNegative(Value(SumsOf(Points(ss, origin)), X(now, origin) + horizonDays as real))
  }

  // ------------------------------------------------------------ sums over points

  function Total(ps: seq<Point>, f: Point -> real): real {
    if ps == [] then 0.0 else Total(ps[..|ps| - 1], f) + f(ps[|ps| - 1])
  }

  lemma {:induction false} TotalOfThree(ps: seq<Point>, k: Point -> real,
                                        f: Point -> real, g: Point -> real, h: Point -> real)
    requires forall p :: k(p) == f(p) + g(p) + h(p)
    ensures Total(ps, k) == Total(ps, f) + Total(ps, g) + Total(ps, h)
  {
    if ps == [] {
    } else {
      TotalOfThree(ps[..|ps| - 1], k, f, g, h);
    }
  }

  /** What adds up point by point is a function of the sums. */
  lemma {:induction false} TotalFromSums(ps: seq<Point>, f: Point -> real, F: Sums -> real)
    requires F(Sums(0.0, 0.0, 0.0, 0.0, 0.0)) == 0.0
    requires forall s: Sums, p: Point :: F(Add(s, p)) == F(s) + f(p)
    ensures Total(ps, f) == F(SumsOf(ps))
  {
    if ps == [] {
    } else {
      TotalFromSums(ps[..|ps| - 1], f, F);
    }
  }

  lemma {:induction false} TotalNonNegative(ps: seq<Point>, f: Point -> real)
    requires forall p :: f(p) >= 0.0
    ensures Total(ps, f) >= 0.0
    ensures Total(ps, f) == 0.0 ==> forall i | 0 <= i < |ps| :: f(ps[i]) == 0.0
  {
    if ps == [] {
    } else {
      var init := ps[..|ps| - 1];
      TotalNonNegative(init, f);
      forall i | 0 <= i < |ps| && Total(ps, f) == 0.0 ensures f(ps[i]) == 0.0 {
        assert i < |init| ==> init[i] == ps[i];
      }
    }
  }

  lemma {:induction false} TotalOfZeros(ps: seq<Point>, f: Point -> real)
    requires forall i | 0 <= i < |ps| :: f(ps[i]) == 0.0
    ensures Total(ps, f) == 0.0
  {
    if ps == [] {
    } else {
      TotalOfZeros(ps[..|ps| - 1], f);
    }
  }

  // ----------------------------------------------------------- sums of squares

  function Square(v: real): real {
    v * v
  }

  lemma SquareSign(v: real)
    ensures Square(v) >= 0.0 && (Square(v) == 0.0 <==> v == 0.0)
  {
    if v > 0.0 {
      NonZero(v, v);
    } else if v < 0.0 {
      NonZero(-v, -v);
      assert -v * -v == v * v;
    }
  }

  /** The squared distance of a point from the line with intercept a and slope b. */
  function ErrorAt(a: real, b: real, p: Point): real {
    Square(p.y - (a + b * p.x))
  }

  function Error(a: real, b: real): Point -> real {
    (p: Point) => ErrorAt(a, b, p)
  }

  function Residuals(ps: seq<Point>, a: real, b: real): real {
    Total(ps, Error(a, b))
  }

  /** The squared height over a point of the line with intercept u and slope v. */
  function HeightAt(u: real, v: real, p: Point): real {
    Square(u + v * p.x)
  }

  function Height(u: real, v: real): Point -> real {
    (p: Point) => HeightAt(u, v, p)
  }

  function Heights(ps: seq<Point>, u: real, v: real): real {
    Total(ps, Height(u, v))
  }

  lemma HeightSign(u: real, v: real, p: Point)
    ensures HeightAt(u, v, p) >= 0.0 && (HeightAt(u, v, p) == 0.0 <==> u + v * p.x == 0.0)
  {
    SquareSign(u + v * p.x);
  }

  lemma HeightsNonNegative(ps: seq<Point>, u: real, v: real)
    ensures Heights(ps, u, v) >= 0.0
    ensures Heights(ps, u, v) == 0.0 <==> forall i | 0 <= i < |ps| :: u + v * ps[i].x == 0.0
  {
    forall p ensures Height(u, v)(p) >= 0.0 && (Height(u, v)(p) == 0.0 <==> u + v * p.x == 0.0) {
      HeightSign(u, v, p);
    }
    TotalNonNegative(ps, Height(u, v));
    if forall i | 0 <= i < |ps| :: u + v * ps[i].x == 0.0 {
      TotalOfZeros(ps, Height(u, v));
    }
  }

  function HeightsOf(s: Sums, u: real, v: real): real {
    s.n * (u * u) + 2.0 * (u * v) * s.x + (v * v) * s.x2
  }

  lemma SquareOfLine(u: real, v: real, x: real)
    ensures Square(u + v * x) == u * u + 2.0 * (u * v) * x + (v * v) * (x * x)
  {
    assert (v * x) * (v * x) == (v * v) * (x * x);
    assert u * (v * x) == (u * v) * x;
  }

  lemma HeightsStep(s: Sums, p: Point, u: real, v: real)
    ensures HeightsOf(Add(s, p), u, v) == HeightsOf(s, u, v) + HeightAt(u, v, p)
  {
    SquareOfLine(u, v, p.x);
    var uu, uv, vv := u * u, 2.0 * (u * v), v * v;
    assert (s.n + 1.0) * uu == s.n * uu + uu;
    assert uv * (s.x + p.x) == uv * s.x + uv * p.x;
    assert vv * (s.x2 + p.x * p.x) == vv * s.x2 + vv * (p.x * p.x);
  }

  lemma HeightsAreSums(ps: seq<Point>, u: real, v: real)
    ensures Heights(ps, u, v) == HeightsOf(SumsOf(ps), u, v)
  {
    var F := s => HeightsOf(s, u, v);
    forall s: Sums, p: Point ensures F(Add(s, p)) == F(s) + Height(u, v)(p) {
      HeightsStep(s, p, u, v);
    }
    TotalFromSums(ps, Height(u, v), F);
  }

  // ---------------------------------------------------------- the denominator

  lemma Distribute(n: real, a: real, b: real, c: real)
    ensures n * (a + b + c) == n * a + n * b + n * c
  {
  }

  /** n times the squared heights, completed to squares. */
  lemma Completed(s: Sums, u: real, v: real)
    ensures s.n * HeightsOf(s, u, v) == Square(s.n * u + v * s.x) + Square(v) * Denom(s)
  {
    var a, b := s.n * u, v * s.x;
    assert s.n * (s.n * (u * u)) == a * a;
    assert s.n * (2.0 * (u * v) * s.x) == 2.0 * (a * b);
    assert (v * v) * (s.n * s.x2) == s.n * ((v * v) * s.x2);
    assert (v * v) * (s.x * s.x) == b * b;
    assert Square(a + b) == a * a + 2.0 * (a * b) + b * b;
    assert (v * v) * Denom(s) == (v * v) * (s.n * s.x2) - (v * v) * (s.x * s.x);
    Distribute(s.n, s.n * (u * u), 2.0 * (u * v) * s.x, (v * v) * s.x2);
  }

  lemma NonZero(a: real, b: real)
    requires a > 0.0
    ensures a * b == 0.0 <==> b == 0.0
  {
  }

  function MeanX(s: Sums): real
    requires s.n != 0.0
  {
    s.x / s.n
  }

  /** The heights of the line through the mean with slope 1 give the denominator. */
  lemma SpreadOfSums(s: Sums, u: real)
    requires s.n > 0.0 && u == -MeanX(s)
    ensures Denom(s) == s.n * HeightsOf(s, u, 1.0)
  {
    Completed(s, u, 1.0);
    assert s.n * u == -s.x;
    assert Square(0.0) == 0.0 && Square(1.0) == 1.0;
  }

  lemma DenomSign(s: Sums, u: real, h: real)
    requires s.n > 0.0 && u == -MeanX(s) && h == HeightsOf(s, u, 1.0) && h >= 0.0
    ensures Denom(s) >= 0.0 && (Denom(s) == 0.0 <==> h == 0.0)
  {
    SpreadOfSums(s, u);
    SignOfProduct(s.n, h, Denom(s));
  }

  lemma SignOfProduct(n: real, h: real, d: real)
    requires n > 0.0 && h >= 0.0 && d == n * h
    ensures d >= 0.0 && (d == 0.0 <==> h == 0.0)
  {
    NonZero(n, h);
  }

  /** n times the sum of the squares is never below the square of the sum. */
  lemma DenomNonNegative(ps: seq<Point>)
    requires ps != []
    ensures Denom(SumsOf(ps)) >= 0.0
  {
    var u := -MeanX(SumsOf(ps));
    HeightsAreSums(ps, u, 1.0);
    HeightsNonNegative(ps, u, 1.0);
    DenomSign(SumsOf(ps), u, Heights(ps, u, 1.0));
  }

  /** All the samples taken at the same moment. */
  predicate SameX(ps: seq<Point>, c: real) {
    forall i | 0 <= i < |ps| :: ps[i].x == c
  }

  /** The denominator is zero exactly when the samples were all taken at one moment. */
  lemma DenomZero(ps: seq<Point>)
    requires ps != []
    ensures Denom(SumsOf(ps)) == 0.0 <==> SameX(ps, MeanX(SumsOf(ps)))
  {
    var c := MeanX(SumsOf(ps));
    HeightsAreSums(ps, -c, 1.0);
    HeightsNonNegative(ps, -c, 1.0);
    DenomSign(SumsOf(ps), -c, Heights(ps, -c, 1.0));
    assert forall i | 0 <= i < |ps| :: -c + 1.0 * ps[i].x == 0.0 <==> ps[i].x == c;
  }

  lemma {:induction false} SameProducts(ps: seq<Point>, c: real)
    requires SameX(ps, c)
    ensures SumsOf(ps).xy == c * SumsOf(ps).y
  {
    if ps == [] {
    } else {
      SameProducts(ps[..|ps| - 1], c);
      var s, p := SumsOf(ps[..|ps| - 1]), ps[|ps| - 1];
      assert c * (s.y + p.y) == c * s.y + c * p.y;
    }
  }

  // ---------------------------------------------------------------- optimality

  /** What a line must satisfy to be the least-squares line. */
  predicate Normal(s: Sums, a: real, b: real) {
    s.n * a + b * s.x == s.y && a * s.x + b * s.x2 == s.xy
  }

  lemma SteepNormal(s: Sums)
    requires s.n > 1.0 && Denom(s) > 0.0
    ensures Normal(s, Intercept(s), Slope(s))
  {
    var a, b := Intercept(s), Slope(s);
    FirstNormal(s, a, b);
    SlopeTimesDenom(s, b);
    SecondNormal(s, a, b);
  }

  lemma FirstNormal(s: Sums, a: real, b: real)
    requires s.n != 0.0 && a == (s.y - b * s.x) / s.n
    ensures s.n * a + b * s.x == s.y
  {
  }

  lemma SlopeTimesDenom(s: Sums, b: real)
    requires Denom(s) > 0.0 && b == Ratio(Numer(s), Denom(s))
    ensures b * Denom(s) == Numer(s)
  {
    var d, e := Denom(s), Numer(s);
    assert e / d * d == e;
  }

  lemma SecondNormal(s: Sums, a: real, b: real)
    requires s.n > 0.0
    requires s.n * a + b * s.x == s.y && b * Denom(s) == Numer(s)
    ensures a * s.x + b * s.x2 == s.xy
  {
    assert b * Denom(s) == b * (s.n * s.x2) - b * (s.x * s.x);
    assert s.x * (s.n * a + b * s.x) == s.n * (a * s.x) + b * (s.x * s.x);
    assert b * (s.n * s.x2) == s.n * (b * s.x2);
    assert s.n * (a * s.x + b * s.x2 - s.xy) == 0.0;
    NonZero(s.n, a * s.x + b * s.x2 - s.xy);
  }

  lemma FlatNormal(s: Sums, c: real)
    requires s.n > 0.0 && Slope(s) == 0.0 && c == MeanX(s) && s.xy == c * s.y
    ensures Normal(s, Intercept(s), 0.0)
  {
    var a := s.y / s.n;
    assert s.n * c == s.x && s.n * a == s.y;
    assert a * (s.n * c) == c * (s.n * a);
  }

  /** One sample alone leaves the denominator at zero. */
  lemma OneSample(ps: seq<Point>)
    requires |ps| == 1
    ensures Denom(SumsOf(ps)) == 0.0
  {
    assert SumsOf(ps[..0]) == Sums(0.0, 0.0, 0.0, 0.0, 0.0);
  }

  /** The computed line satisfies both equations, in both branches. */
  lemma FitIsNormal(ps: seq<Point>)
    requires ps != []
    ensures Normal(SumsOf(ps), Intercept(SumsOf(ps)), Slope(SumsOf(ps)))
  {
    var s := SumsOf(ps);
    DenomNonNegative(ps);
    if |ps| == 1 {
      OneSample(ps);
    }
    if Denom(s) > 0.0 {
      SteepNormal(s);
    } else {
      DenomZero(ps);
      SameProducts(ps, MeanX(s));
      FlatNormal(s, MeanX(s));
    }
  }

  /** What one point adds to the difference of two lines' squared residuals. */
  lemma ErrorStep(p: Point, a: real, b: real, u: real, v: real)
    ensures ErrorAt(a + u, b + v, p) == ErrorAt(a, b, p) + HeightAt(u, v, p) + CrossAt(a, b, u, v, p)
  {
    var r, h := p.y - (a + b * p.x), u + v * p.x;
    assert p.y - (a + u + (b + v) * p.x) == r - h;
    assert (r - h) * (r - h) == r * r + h * h - 2.0 * (r * h);
  }

  function CrossAt(a: real, b: real, u: real, v: real, p: Point): real {
    -2.0 * ((p.y - (a + b * p.x)) * (u + v * p.x))
  }

  function Cross(a: real, b: real, u: real, v: real): Point -> real {
    (p: Point) => CrossAt(a, b, u, v, p)
  }

  function CrossOf(s: Sums, a: real, b: real, u: real, v: real): real {
    -2.0 * (u * (s.y - (s.n * a + b * s.x)) + v * (s.xy - (a * s.x + b * s.x2)))
  }

  lemma CrossStep(s: Sums, p: Point, a: real, b: real, u: real, v: real)
    ensures CrossOf(Add(s, p), a, b, u, v) == CrossOf(s, a, b, u, v) + CrossAt(a, b, u, v, p)
  {
    var r := p.y - (a + b * p.x);
    assert a * p.x + b * (p.x * p.x) == (a + b * p.x) * p.x;
    assert p.x * p.y - (a * p.x + b * (p.x * p.x)) == r * p.x;
    var e, f := s.y - (s.n * a + b * s.x), s.xy - (a * s.x + b * s.x2);
    assert (s.n + 1.0) * a + b * (s.x + p.x) == s.n * a + b * s.x + (a + b * p.x);
    assert a * (s.x + p.x) + b * (s.x2 + p.x * p.x) == a * s.x + b * s.x2 + (a * p.x + b * (p.x * p.x));
    assert u * (e + r) + v * (f + r * p.x) == u * e + v * f + (u * r + v * (r * p.x));
    assert u * r + v * (r * p.x) == r * (u + v * p.x);
  }

  lemma CrossIsSums(ps: seq<Point>, a: real, b: real, u: real, v: real)
    ensures Total(ps, Cross(a, b, u, v)) == CrossOf(SumsOf(ps), a, b, u, v)
  {
    var F := s => CrossOf(s, a, b, u, v);
    forall s: Sums, p: Point ensures F(Add(s, p)) == F(s) + Cross(a, b, u, v)(p) {
      CrossStep(s, p, a, b, u, v);
    }
    TotalFromSums(ps, Cross(a, b, u, v), F);
  }

  lemma ResidualsSplit(ps: seq<Point>, a: real, b: real, u: real, v: real)
    ensures Residuals(ps, a + u, b + v)
         == Residuals(ps, a, b) + Heights(ps, u, v) + Total(ps, Cross(a, b, u, v))
  {
    var k, f, g, h := Error(a + u, b + v), Error(a, b), Height(u, v), Cross(a, b, u, v);
    forall p ensures k(p) == f(p) + g(p) + h(p) {
      ErrorStep(p, a, b, u, v);
    }
    TotalOfThree(ps, k, f, g, h);
  }

  /** Any other line is worse than a line satisfying the equations by the squared
      heights of the difference. */
  lemma NormalGap(ps: seq<Point>, a: real, b: real, u: real, v: real)
    requires Normal(SumsOf(ps), a, b)
    ensures Residuals(ps, a + u, b + v) == Residuals(ps, a, b) + Heights(ps, u, v)
  {
    ResidualsSplit(ps, a, b, u, v);
    CrossIsSums(ps, a, b, u, v);
    NoCross(SumsOf(ps), a, b, u, v);
  }

  lemma NoCross(s: Sums, a: real, b: real, u: real, v: real)
    requires Normal(s, a, b)
    ensures CrossOf(s, a, b, u, v) == 0.0
  {
  }

  lemma FitGap(ps: seq<Point>, a: real, b: real, t: real, m: real)
    requires ps != [] && t == Intercept(SumsOf(ps)) && m == Slope(SumsOf(ps))
    ensures Residuals(ps, a, b) == Residuals(ps, t, m) + Heights(ps, a - t, b - m)
  {
    FitIsNormal(ps);
    NormalGap(ps, t, m, a - t, b - m);
    assert t + (a - t) == a && m + (b - m) == b;
  }

  /** The computed line has the least squared residuals of all lines. */
  lemma FitIsOptimal(ps: seq<Point>, a: real, b: real)
    requires ps != []
    ensures Residuals(ps, Intercept(SumsOf(ps)), Slope(SumsOf(ps))) <= Residuals(ps, a, b)
  {
    var t, m := Intercept(SumsOf(ps)), Slope(SumsOf(ps));
    FitGap(ps, a, b, t, m);
    HeightsNonNegative(ps, a - t, b - m);
  }

  /** A line of zero height over every point, where not all points share one x. */
  lemma NoHeights(s: Sums, u: real, v: real)
    requires s.n > 0.0 && HeightsOf(s, u, v) == 0.0 && Denom(s) > 0.0
    ensures u == 0.0 && v == 0.0
  {
    Completed(s, u, v);
    BothZero(Square(s.n * u + v * s.x), Square(v), Denom(s), s.n * u + v * s.x, v);
    NonZero(s.n, u);
  }

  lemma BothZero(p2: real, v2: real, d: real, p: real, v: real)
    requires d > 0.0 && p2 == Square(p) && v2 == Square(v) && p2 + v2 * d == 0.0
    ensures p == 0.0 && v == 0.0
  {
    SquareSign(p);
    SquareSign(v);
    SignOfProduct(d, v2, v2 * d);
  }

  /** It is the only line that good exactly when the samples were not all taken at
      one moment. */
  lemma FitIsUnique(ps: seq<Point>)
    requires ps != []
    ensures Denom(SumsOf(ps)) > 0.0 <==>
            forall a, b | Residuals(ps, a, b) == Residuals(ps, Intercept(SumsOf(ps)), Slope(SumsOf(ps))) ::
              a == Intercept(SumsOf(ps)) && b == Slope(SumsOf(ps))
  {
    var t, m := Intercept(SumsOf(ps)), Slope(SumsOf(ps));
    DenomNonNegative(ps);
    if Denom(SumsOf(ps)) > 0.0 {
      forall a, b | Residuals(ps, a, b) == Residuals(ps, t, m) ensures a == t && b == m {
        FitGap(ps, a, b, t, m);
        HeightsAreSums(ps, a - t, b - m);
        NoHeights(SumsOf(ps), a - t, b - m);
      }
    } else {
      var a := FlatIsNotUnique(ps, m + 1.0, t, m);
    }
  }

  /** When they were, a line of any slope does as well as the computed one. */
  lemma FlatIsNotUnique(ps: seq<Point>, b: real, t: real, m: real) returns (a: real)
    requires ps != [] && Denom(SumsOf(ps)) == 0.0
    requires t == Intercept(SumsOf(ps)) && m == Slope(SumsOf(ps))
    ensures Residuals(ps, a, b) == Residuals(ps, t, m)
  {
    DenomZero(ps);
    var c := MeanX(SumsOf(ps));
    var v := b - m;
    a := t - v * c;
    FitGap(ps, a, b, t, m);
    ThroughPoint(ps, c, a - t, v);
  }

  lemma ThroughPoint(ps: seq<Point>, c: real, u: real, v: real)
    requires SameX(ps, c) && u + v * c == 0.0
    ensures Heights(ps, u, v) == 0.0
  {
    HeightsNonNegative(ps, u, v);
    assert forall i | 0 <= i < |ps| :: u + v * ps[i].x == u + v * c;
  }

  // --------------------------------------------------------------- the origin

  /** The sums when every x moves by d. */
  function Moved(s: Sums, d: real): Sums {
    Sums(s.n, s.x + Times(s.n, d), s.y, s.xy + Times(d, s.y), s.x2 + 2.0 * Times(d, s.x) + Times(s.n, Times(d, d)))
  }

  lemma MovedStep(s: Sums, p: Point, q: Point, d: real)
    requires q.x == p.x + d && q.y == p.y
    ensures Moved(Add(s, p), d) == Add(Moved(s, d), q)
  {
    var a := Add(s, p);
    MovedX(s.n, a.n, d);
    MovedProducts(s.y, a.y, p.x, q.x, p.y, d);
    MovedSquares(s.n, a.n, s.x, a.x, p.x, q.x, d);
  }

  lemma MovedX(n: real, n1: real, d: real)
    requires n1 == n + 1.0
    ensures Times(n1, d) == Times(n, d) + d
  {
  }

  lemma MovedProducts(sy: real, sy1: real, x: real, z: real, y: real, d: real)
    requires sy1 == sy + y && z == x + d
    ensures Times(x, y) + Times(d, sy1) == Times(d, sy) + Times(z, y)
  {
  }

  lemma MovedSquares(n: real, n1: real, sx: real, sx1: real, x: real, z: real, d: real)
    requires n1 == n + 1.0 && sx1 == sx + x && z == x + d
    ensures Times(x, x) + 2.0 * Times(d, sx1) + Times(n1, Times(d, d))
         == 2.0 * Times(d, sx) + Times(n, Times(d, d)) + Times(z, z)
  {
  }

  lemma {:induction false} PointsMoved(ss: seq<Sample>, o: int, p: int)
    ensures SumsOf(Points(ss, p)) == Moved(SumsOf(Points(ss, o)), X(o, p))
  {
    if ss == [] {
    } else {
      var n := |ss| - 1;
      var last := ss[n];
      assert ss[..n + 1] == ss;
      PointsNext(ss, n, o);
      PointsNext(ss, n, p);
      PointsMoved(ss[..n], o, p);
      XMoves(last.createTime, o, p);
      var y := last.fileSize as real;
      MovedStep(SumsOf(Points(ss[..n], o)), Point(X(last.createTime, o), y), Point(X(last.createTime, p), y), X(o, p));
    }
  }

  lemma XMoves(t: int, o: int, p: int)
    ensures X(t, p) == X(t, o) + X(o, p)
  {
  }

  lemma MovedDenom(n: real, x: real, x1: real, x2: real, x21: real, d: real)
    requires x1 == x + Times(n, d) && x21 == x2 + 2.0 * Times(d, x) + Times(n, Times(d, d))
    ensures Times(n, x21) - Times(x1, x1) == Times(n, x2) - Times(x, x)
  {
    var e := n * d;
    assert n * (x2 + 2.0 * (d * x) + n * (d * d)) == n * x2 + 2.0 * (e * x) + e * e;
    assert (x + e) * (x + e) == x * x + 2.0 * (e * x) + e * e;
  }

  lemma MovedNumer(n: real, x: real, x1: real, y: real, xy: real, xy1: real, d: real)
    requires x1 == x + Times(n, d) && xy1 == xy + Times(d, y)
    ensures Times(n, xy1) - Times(x1, y) == Times(n, xy) - Times(x, y)
  {
    assert n * (xy + d * y) == n * xy + n * d * y;
    assert (x + n * d) * y == x * y + n * d * y;
  }

  lemma MovedSlope(s: Sums, d: real)
    ensures Slope(Moved(s, d)) == Slope(s)
  {
    var m := Moved(s, d);
    MovedDenom(s.n, s.x, m.x, s.x2, m.x2, d);
    MovedNumer(s.n, s.x, m.x, s.y, s.xy, m.xy, d);
  }

  lemma Divided(n: real, e: real, e1: real, f: real)
    requires n > 0.0 && e1 == e - Times(n, f)
    ensures Ratio(e1, n) == Ratio(e, n) - f
  {
    var q, r := e1 / n, e / n;
    assert n * q == e1 && n * r == e;
    assert n * (q - (r - f)) == 0.0;
    NonZero(n, q - (r - f));
  }

  lemma MovedRest(n: real, x: real, x1: real, m: real, d: real)
    requires x1 == x + Times(n, d)
    ensures Times(m, x1) == Times(m, x) + Times(n, Times(m, d))
  {
    assert m * (x + n * d) == m * x + n * (m * d);
  }

  /** Slope and intercept when every x moves by d. */
  lemma MovedLine(s: Sums, d: real)
    requires s.n > 0.0
    ensures Slope(Moved(s, d)) == Slope(s)
    ensures Intercept(Moved(s, d)) == Intercept(s) - Times(Slope(s), d)
  {
    var m, b := Moved(s, d), Slope(s);
    MovedSlope(s, d);
    MovedRest(s.n, s.x, m.x, b, d);
    Divided(s.n, s.y - Times(b, s.x), s.y - Times(b, m.x), Times(b, d));
  }

  lemma ValueMoved(s: Sums, d: real, x: real, x1: real)
    requires s.n > 0.0 && x1 == x + d
    ensures Value(Moved(s, d), x1) == Value(s, x)
  {
    MovedLine(s, d);
    TimesSum(Slope(s), x, d, x1);
  }

  lemma TimesSum(b: real, x: real, d: real, x1: real)
    requires x1 == x + d
    ensures Times(b, x1) == Times(b, x) + Times(b, d)
  {
  }

  /** The forecast does not depend on which moment counts as day zero. */
  lemma ForecastOrigin(ss: seq<Sample>, o: int, p: int, now: int, horizonDays: nat)
    requires ss != []
    ensures Forecast(ss, o, now, horizonDays) == Forecast(ss, p, now, horizonDays)
    ensures Slope(SumsOf(Points(ss, o))) == Slope(SumsOf(Points(ss, p)))
  {
    var s, d, h := SumsOf(Points(ss, o)), X(o, p), horizonDays as real;
    PointsMoved(ss, o, p);
    MovedLine(s, d);
    XMoves(now, o, p);
    ValueMoved(s, d, X(now, o) + h, X(now, p) + h);
  }

  // ------------------------------------------------- the forecast in its own terms

  /** How far a sample is above a line over days. */
  function ResidualAt(s: Sample, a: real, b: real): real {
    s.fileSize as real - (a + b * (s.createTime as real / 86400.0))
  }

  /** The squared distances of the samples from a line, added up. */
  function SquaredResiduals(ss: seq<Sample>, a: real, b: real): real {
    if ss == [] then 0.0
    else SquaredResiduals(ss[..|ss| - 1], a, b) + Square(ResidualAt(ss[|ss| - 1], a, b))
  }

  /** No line does better. */
  ghost predicate BestLine(ss: seq<Sample>, a: real, b: real) {
    forall u, v :: SquaredResiduals(ss, a, b) <= SquaredResiduals(ss, u, v)
  }

  predicate OnLine(ss: seq<Sample>, a: real, b: real) {
    forall i | 0 <= i < |ss| :: ss[i].fileSize as real == a + b * (ss[i].createTime as real / 86400.0)
  }

  predicate TwoTimes(ss: seq<Sample>) {
    exists i, j | 0 <= i < j < |ss| :: ss[i].createTime != ss[j].createTime
  }

  lemma {:induction false} ResidualsOfSamples(ss: seq<Sample>, a: real, b: real)
    ensures SquaredResiduals(ss, a, b) == Residuals(Points(ss, 0), a, b)
  {
    if ss == [] {
    } else {
      var init, last := ss[..|ss| - 1], ss[|ss| - 1];
      ResidualsOfSamples(init, a, b);
      var ps, p := Points(init, 0), Point(X(last.createTime, 0), last.fileSize as real);
      assert Points(ss, 0) == ps + [p] && (ps + [p])[..|ps|] == ps;
      assert p.x == last.createTime as real / 86400.0;
    }
  }

  lemma {:induction false} PointAt(ss: seq<Sample>, o: int, i: nat)
    requires i < |ss|
    ensures Points(ss, o)[i].x == X(ss[i].createTime, o)
  {
    if i < |ss| - 1 {
      PointAt(ss[..|ss| - 1], o, i);
    }
  }

  lemma SameDay(t: int, u: int)
    requires X(t, 0) == X(u, 0)
    ensures t == u
  {
    assert (t - 0) as real == (u - 0) as real;
  }

  lemma {:induction false} TwoTimesSpread(ss: seq<Sample>)
    requires TwoTimes(ss)
    ensures Denom(SumsOf(Points(ss, 0))) > 0.0
  {
    var ps := Points(ss, 0);
    DenomNonNegative(ps);
    DenomZero(ps);
    var i, j :| 0 <= i < j < |ss| && ss[i].createTime != ss[j].createTime;
    PointAt(ss, 0, i);
    PointAt(ss, 0, j);
    if ps[i].x == ps[j].x {
      SameDay(ss[i].createTime, ss[j].createTime);
    }
  }

  /** The computed line is a best one. */
  lemma {:induction false} FitIsBest(ss: seq<Sample>, a: real, b: real)
    requires ss != [] && a == Intercept(SumsOf(Points(ss, 0))) && b == Slope(SumsOf(Points(ss, 0)))
    ensures BestLine(ss, a, b)
  {
    forall u, v ensures SquaredResiduals(ss, a, b) <= SquaredResiduals(ss, u, v) {
      ResidualsOfSamples(ss, a, b);
      ResidualsOfSamples(ss, u, v);
      FitIsOptimal(Points(ss, 0), u, v);
    }
  }

  /** With two times, it is the only best one. */
  lemma {:induction false} BestIsFit(ss: seq<Sample>, a: real, b: real)
    requires TwoTimes(ss) && BestLine(ss, a, b)
    ensures a == Intercept(SumsOf(Points(ss, 0))) && b == Slope(SumsOf(Points(ss, 0)))
  {
    var ps := Points(ss, 0);
    var t, m := Intercept(SumsOf(ps)), Slope(SumsOf(ps));
    TwoTimesSpread(ss);
    FitIsOptimal(ps, a, b);
    ResidualsOfSamples(ss, a, b);
    ResidualsOfSamples(ss, t, m);
    assert SquaredResiduals(ss, a, b) <= SquaredResiduals(ss, t, m);
    FitIsUnique(ps);
  }

  lemma {:induction false} ResidualsSign(ss: seq<Sample>, a: real, b: real)
    ensures SquaredResiduals(ss, a, b) >= 0.0
    ensures OnLine(ss, a, b) ==> SquaredResiduals(ss, a, b) == 0.0
  {
    if ss == [] {
    } else {
      ResidualsSign(ss[..|ss| - 1], a, b);
      SquareSign(ResidualAt(ss[|ss| - 1], a, b));
    }
  }

  /** A line through all the samples is a best one. */
  lemma {:induction false} OnLineIsBest(ss: seq<Sample>, a: real, b: real)
    requires OnLine(ss, a, b)
    ensures BestLine(ss, a, b)
  {
    ResidualsSign(ss, a, b);
    forall u, v ensures SquaredResiduals(ss, a, b) <= SquaredResiduals(ss, u, v) {
      ResidualsSign(ss, u, v);
    }
  }

  /** What the line with intercept a and slope b says about that many days from now,
      not below zero. */
  predicate Foretells(a: real, b: real, now: int, horizonDays: nat, predicted: real) {
    var v := a + b * (now as real / 86400.0 + horizonDays as real);
    predicted == if v < 0.0 then 0.0 else v
  }

  lemma ValueForetells(s: Sums, a: real, b: real, now: int, horizonDays: nat, x: real)
    requires a == Intercept(s) && b == Slope(s) && x == now as real / 86400.0 + horizonDays as real
    ensures Foretells(a, b, now, horizonDays, NonNegative(Value(s, x)))
  {
  }

  /** The forecast is the computed line's value in absolute days. */
  lemma {:induction false} ForecastAbsolute(ss: seq<Sample>, o: int, now: int, horizonDays: nat, a: real, b: real)
    requires ss != [] && a == Intercept(SumsOf(Points(ss, 0))) && b == Slope(SumsOf(Points(ss, 0)))
    ensures b == Slope(SumsOf(Points(ss, o))) && Foretells(a, b, now, horizonDays, Forecast(ss, o, now, horizonDays))
  {
    ForecastOrigin(ss, o, 0, now, horizonDays);
    ValueForetells(SumsOf(Points(ss, 0)), a, b, now, horizonDays, X(now, 0) + horizonDays as real);
  }

  /** The slope and the forecast are those of a line no other does better than; with
      samples at two times, of the only one; so if the samples lie on a line, of that. */
  lemma {:induction false} ForecastIsBest(ss: seq<Sample>, o: int, now: int, horizonDays: nat)
    requires ss != []
    ensures var m, v := Slope(SumsOf(Points(ss, o))), Forecast(ss, o, now, horizonDays);
            exists a :: BestLine(ss, a, m) && Foretells(a, m, now, horizonDays, v)
    ensures var m, v := Slope(SumsOf(Points(ss, o))), Forecast(ss, o, now, horizonDays);
            TwoTimes(ss) ==> forall a, b | BestLine(ss, a, b) :: b == m && Foretells(a, b, now, horizonDays, v)
    ensures forall a, b | OnLine(ss, a, b) :: BestLine(ss, a, b)
  {
    var t, m := Intercept(SumsOf(Points(ss, 0))), Slope(SumsOf(Points(ss, 0)));
    ForecastAbsolute(ss, o, now, horizonDays, t, m);
    FitIsBest(ss, t, m);
    if TwoTimes(ss) {
      forall a, b | BestLine(ss, a, b) ensures a == t && b == m {
        BestIsFit(ss, a, b);
      }
    }
    forall a, b | OnLine(ss, a, b) ensures BestLine(ss, a, b) {
      OnLineIsBest(ss, a, b);
    }
  }
}
