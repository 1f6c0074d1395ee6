/** Quality statistics of a window of points, over the reals, and the inequalities behind its 3-sigma counter. */
module DataQuality {
  import opened Common

  /** The value of a point: absent or blank, not a number, or a number. */
  datatype Point = Missing | Unparsable | Number(x: real)

  function Sum(xs: seq<real>): real {
    if xs == [] then 0.0 else Sum(xs[..|xs| - 1]) + xs[|xs| - 1]
  }

  function Square(x: real): (r: real)
    ensures r >= 0.0
  {
    x * x
  }

  /** Sum of squared deviations from `c`. */
  function Deviation(xs: seq<real>, c: real): (r: real)
    ensures r >= 0.0
  {
    if xs == [] then 0.0 else Deviation(xs[..|xs| - 1], c) + Square(xs[|xs| - 1] - c)
  }

  function Mean(xs: seq<real>): real
    requires xs != []
  {
    Sum(xs) / (|xs| as real)
  }

  function Variance(xs: seq<real>): real
    requires xs != []
  {
    Deviation(xs, Mean(xs)) / (|xs| as real)
  }

  /** Further from the mean than three standard deviations, which are not zero. */
  predicate IsAnomaly(x: real, mean: real, variance: real) {
    variance > 0.0 && Square(x - mean) > 9.0 * variance
  }

  function CountAnomalies(xs: seq<real>, mean: real, variance: real): (k: nat)
    ensures k <= |xs|
  {
    if xs == [] then 0
    else CountAnomalies(xs[..|xs| - 1], mean, variance) + if IsAnomaly(xs[|xs| - 1], mean, variance) then 1 else 0
  }

  function Anomalies(xs: seq<real>): nat
    requires xs != []
  {
    CountAnomalies(xs, Mean(xs), Variance(xs))
  }

  function Abs(x: real): real {
    if x < 0.0 then -x else x
  }

  lemma ProductIsPositive(a: real, b: real, p: real)
    requires a > 0.0 && b > 0.0 && p == a * b
    ensures p > 0.0
  {
  }

  lemma ProductMonotone(a: real, b: real, c: real)
    requires a <= b && c >= 0.0
    ensures a * c <= b * c
  {
  }

  lemma ProductStrict(a: real, b: real, c: real)
    requires a < b && c > 0.0
    ensures c * a < c * b
  {
    ProductIsPositive(b - a, c, (b - a) * c);
    assert (b - a) * c == c * b - c * a;
  }

  lemma SquareMonotone(a: real, b: real)
    requires a >= 0.0 && b >= 0.0
    ensures a * a > b * b <==> a > b
  {
    if a > b {
      LargerSquare(a, b);
    } else {
      ProductMonotone(a, b, a);
      ProductMonotone(a, b, b);
    }
  }

  lemma LargerSquare(a: real, b: real)
    requires 0.0 <= b < a
    ensures a * a > b * b
  {
    ProductIsPositive(a - b, a + b, (a - b) * (a + b));
    assert (a - b) * (a + b) == a * a - b * b;
  }

  /** The squared test is the test on the standard deviation. */
  lemma AnomalyByDeviation(x: real, mean: real, variance: real, stddev: real)
    requires stddev >= 0.0 && stddev * stddev == variance
    ensures IsAnomaly(x, mean, variance) <==> stddev > 0.0 && Abs(x - mean) > 3.0 * stddev
  {
    var d, t := Abs(x - mean), 3.0 * stddev;
    assert Square(x - mean) == d * d;
    assert 9.0 * variance == t * t;
    SquareMonotone(d, t);
    if stddev > 0.0 {
      ProductIsPositive(stddev, stddev, stddev * stddev);
    }
  }

  // ---- The computation ----

  datatype Quality =
    | Empty
    | Quality(
        count: nat,
        validCount: nat,
        nullCount: nat,
        anomalyCount: nat,
        completenessRate: real,
        anomalyRate: real,
        minValue: Option<real>,
        maxValue: Option<real>,
        avgValue: real,
        variance: real
      )

  predicate IsMin(m: real, xs: seq<real>) {
    m in xs && forall k :: 0 <= k < |xs| ==> m <= xs[k]
  }

  predicate IsMax(m: real, xs: seq<real>) {
    m in xs && forall k :: 0 <= k < |xs| ==> xs[k] <= m
  }

  method Extremes(xs: seq<real>) returns (lo: real, hi: real)
    requires xs != []
    ensures IsMin(lo, xs) && IsMax(hi, xs)
  {
    lo, hi := xs[0], xs[0];
    for i := 1 to |xs|
      invariant lo in xs && hi in xs
      invariant forall k :: 0 <= k < i ==> lo <= xs[k] <= hi
    {
      if xs[i] < lo {
        lo := xs[i];
      }
      if xs[i] > hi {
        hi := xs[i];
      }
    }
  }

  method SumOf(xs: seq<real>) returns (s: real)
    ensures s == Sum(xs)
  {
    s := 0.0;
    for i := 0 to |xs|
      invariant s == Sum(xs[..i])
    {
      assert xs[..i + 1][..i] == xs[..i];
      s := s + xs[i];
    }
    assert xs[..|xs|] == xs;
  }

  method DeviationOf(xs: seq<real>, c: real) returns (s: real)
    ensures s == Deviation(xs, c)
  {
    s := 0.0;
    for i := 0 to |xs|
      invariant s == Deviation(xs[..i], c)
    {
      assert xs[..i + 1][..i] == xs[..i];
      s := s + Square(xs[i] - c);
    }
    assert xs[..|xs|] == xs;
  }

  /** The positions of the points that are numbers. */
  function Numeric(ps: seq<Point>): set<nat> {
    set i | 0 <= i < |ps| && ps[i].Number?
  }

  /** The positions of the points that are no numbers. */
  function Nulls(ps: seq<Point>): set<nat> {
    set i | 0 <= i < |ps| && !ps[i].Number?
  }

  /** `xs` are the values of the points at the positions `at`. */
  predicate Reads(ps: seq<Point>, at: seq<nat>, xs: seq<real>) {
    |at| == |xs| && forall k :: 0 <= k < |at| ==> at[k] < |ps| && ps[at[k]] == Number(xs[k])
  }

  /** `xs` are the numbers among the points, each once and in order. */
  ghost predicate ValuesOf(ps: seq<Point>, xs: seq<real>) {
    exists at :: Lists(at, Numeric(ps)) && Reads(ps, at, xs)
  }

  /** The points determine the numbers. */
  lemma ValuesUnique(ps: seq<Point>, xs: seq<real>, ys: seq<real>)
    requires ValuesOf(ps, xs) && ValuesOf(ps, ys)
    ensures xs == ys
  {
    hide Lists, Numeric;
    var at :| Lists(at, Numeric(ps)) && Reads(ps, at, xs);
    var bt :| Lists(bt, Numeric(ps)) && Reads(ps, bt, ys);
    ListsUnique(at, bt, Numeric(ps));
    forall k | 0 <= k < |xs| ensures xs[k] == ys[k] {
      assert ps[at[k]] == Number(xs[k]) && ps[bt[k]] == Number(ys[k]);
    }
  }

  lemma NextPoint(ps: seq<Point>, i: nat)
    requires i < |ps|
    ensures Numeric(ps[..i + 1]) == Numeric(ps[..i]) + if ps[i].Number? then {i} else {}
    ensures Nulls(ps[..i + 1]) == Nulls(ps[..i]) + if ps[i].Number? then {} else {i}
    ensures forall j :: j in Numeric(ps[..i]) || j in Nulls(ps[..i]) ==> j < i
  {
  }

  lemma NextRead(ps: seq<Point>, i: nat, at: seq<nat>, xs: seq<real>)
    requires i < |ps| && Reads(ps[..i], at, xs)
    ensures Reads(ps[..i + 1], at, xs)
    ensures ps[i].Number? ==> Reads(ps[..i + 1], at + [i], xs + [ps[i].x])
  {
    forall k | 0 <= k < |at| ensures at[k] < i && ps[..i + 1][at[k]] == Number(xs[k]) {
      assert ps[..i][at[k]] == Number(xs[k]);
    }
  }

  method CollectNumbers(points: seq<Point>) returns (values: seq<real>, nullCount: nat)
    ensures ValuesOf(points, values)
    ensures nullCount == |Nulls(points)| && nullCount + |values| == |points|
  {
    hide Reads, Lists, Nulls, Numeric;
    values, nullCount := [], 0;
    ghost var at: seq<nat> := [];
    NothingRead();
    for i := 0 to |points|
      invariant Lists(at, Numeric(points[..i])) && Reads(points[..i], at, values)
      invariant nullCount == |Nulls(points[..i])| && nullCount + |values| == i
    {
      NextPoint(points, i);
      NextRead(points, i, at, values);
      if points[i].Number? {
        ListsNext(at, Numeric(points[..i]), i);
        values := values + [points[i].x];
        at := at + [i];
      } else {
        assert Numeric(points[..i]) + {} == Numeric(points[..i]);
        nullCount := nullCount + 1;
      }
      assert Nulls(points[..i]) + {} == Nulls(points[..i]);
    }
    assert points[..|points|] == points;
  }

  lemma NothingRead()
    ensures Lists([], Numeric([])) && Reads([], [], []) && Nulls([]) == {}
  {
    assert Numeric([]) == {};
  }

  method CountOf(values: seq<real>, avg: real, variance: real) returns (k: nat)
    ensures k == CountAnomalies(values, avg, variance)
  {
    k := 0;
    for i := 0 to |values|
      invariant k == CountAnomalies(values[..i], avg, variance)
    {
      assert values[..i + 1][..i] == values[..i];
      if IsAnomaly(values[i], avg, variance) {
        k := k + 1;
      }
    }
    assert values[..|values|] == values;
  }

  /** `part` as a percentage of `whole`. */
  function Percent(part: nat, whole: nat): (r: real)
    requires whole > 0
    ensures r * (whole as real) == 100.0 * (part as real)
  {
    var q := part as real / whole as real;
    assert q * (whole as real) == part as real;
    q * 100.0
  }

  /** The figures are those of the values `xs`. */
  predicate Describes(q: Quality, xs: seq<real>)
    requires q.Quality?
  {
    && q.validCount == |xs|
    && (xs != [] ==>
          && q.anomalyCount == Anomalies(xs) && q.avgValue == Mean(xs) && q.variance == Variance(xs)
          && q.minValue.Some? && IsMin(q.minValue.value, xs) && q.maxValue.Some? && IsMax(q.maxValue.value, xs)
          && q.anomalyRate * (q.validCount as real) == 100.0 * (q.anomalyCount as real))
    && (xs == [] ==>
          && q.anomalyCount == 0 && q.minValue == None == q.maxValue
          && q.avgValue == q.variance == q.anomalyRate == 0.0)
  }

  method ComputeQuality(points: seq<Point>) returns (q: Quality)
    ensures q.Empty? <==> points == []
    ensures q.Quality? ==>
              && q.count == |points| == q.validCount + q.nullCount
              && q.nullCount == |Nulls(points)|
              && q.completenessRate * (q.count as real) == 100.0 * (q.validCount as real)
    ensures q.Quality? ==> exists xs :: ValuesOf(points, xs) && Describes(q, xs)
  {
    hide Percent, ValuesOf, Nulls, Sum, Deviation, IsMin, IsMax, CountAnomalies;
    if points == [] {
      return Empty;
    }
    var values, nullCount := CollectNumbers(points);
    var completeness := Percent(|values|, |points|);
    if values == [] {
      return Quality(|points|, 0, nullCount, 0, completeness, 0.0, None, None, 0.0, 0.0);
    }
    var sum := SumOf(values);
    var avg := sum / |values| as real;
    var deviation := DeviationOf(values, avg);
    var variance := deviation / |values| as real;
    var anomalies := CountOf(values, avg, variance);
    var lo, hi := Extremes(values);
    var rate := Percent(anomalies, |values|);
    return Quality(|points|, |values|, nullCount, anomalies, completeness, rate, Some(lo), Some(hi), avg, variance);
  }

  // ---- Chebyshev: fewer than one value in nine is an anomaly ----

  lemma ProductSucc(v: real, k: nat)
    ensures v * ((k + 1) as real) == v * (k as real) + v
  {
  }

  lemma {:induction false} AnomaliesBound(xs: seq<real>, c: real, v: real)
    requires v > 0.0
    ensures 9.0 * v * (CountAnomalies(xs, c, v) as real) <= Deviation(xs, c)
    ensures CountAnomalies(xs, c, v) > 0 ==> 9.0 * v * (CountAnomalies(xs, c, v) as real) < Deviation(xs, c)
    decreases |xs|
  {
    hide Square;
    if xs != [] {
      var init := xs[..|xs| - 1];
      AnomaliesBound(init, c, v);
      ProductSucc(9.0 * v, CountAnomalies(init, c, v));
    }
  }

  lemma {:induction false} NoVarianceNoAnomaly(xs: seq<real>, c: real, v: real)
    requires v <= 0.0
    ensures CountAnomalies(xs, c, v) == 0
    decreases |xs|
  {
    if xs != [] {
      NoVarianceNoAnomaly(xs[..|xs| - 1], c, v);
    }
  }

  lemma CancelFactor(v: real, a: real, b: real)
    requires v > 0.0 && v * a < v * b
    ensures a < b
  {
    if a >= b {
      ProductMonotone(b, a, v);
    }
  }

  lemma VarianceTimesCount(xs: seq<real>)
    requires xs != []
    ensures Variance(xs) * (|xs| as real) == Deviation(xs, Mean(xs)) && Variance(xs) >= 0.0
    ensures Mean(xs) * (|xs| as real) == Sum(xs)
  {
    hide Sum, Deviation;
    Quotient(Sum(xs), |xs| as real, Mean(xs));
    Quotient(Deviation(xs, Mean(xs)), |xs| as real, Variance(xs));
  }

  lemma Quotient(a: real, n: real, q: real)
    requires n > 0.0 && q == a / n
    ensures q * n == a && (a >= 0.0 ==> q >= 0.0)
  {
  }

  /** At most every ninth value, strictly, is counted. */
  lemma FewerThanOneInNine(xs: seq<real>)
    requires xs != []
    ensures 9 * Anomalies(xs) < |xs|
  {
    hide Variance, Mean, Deviation, CountAnomalies;
    var v, k := Variance(xs), Anomalies(xs);
    VarianceTimesCount(xs);
    if v <= 0.0 {
      NoVarianceNoAnomaly(xs, Mean(xs), v);
    } else if k > 0 {
      AnomaliesBound(xs, Mean(xs), v);
      ShareBelow(v, k as real, |xs| as real, Deviation(xs, Mean(xs)));
    }
  }

  lemma ShareBelow(v: real, k: real, n: real, deviation: real)
    requires v > 0.0 && 9.0 * v * k < deviation && v * n == deviation
    ensures 9.0 * k < n
  {
    assert v * (9.0 * k) == 9.0 * v * k;
    CancelFactor(v, 9.0 * k, n);
  }

  // ---- Samuelson: no value is further out than the count allows ----

  /** The square of a sum of `n` deviations is at most `n` times the sum of their squares. */
  lemma {:induction false} CauchySchwarz(xs: seq<real>, c: real, s: real)
    requires xs != [] && s == Sum(xs) - c * (|xs| as real)
    ensures Square(s) <= (|xs| as real) * Deviation(xs, c)
    decreases |xs|
  {
    hide Square;
    var n: nat := |xs| - 1;
    var init := xs[..n];
    var d := xs[n] - c;
    if n == 0 {
      assert s == d;
      assert Deviation(xs, c) == Square(d);
    } else {
      var t := Sum(init) - c * (|init| as real);
      assert |init| == n;
      ProductSucc(c, n);
      assert s == t + d;
      CauchySchwarz(init, c, t);
      CauchyStep(t, Deviation(init, c), d, n as real);
    }
  }

  lemma CauchyStep(s: real, q: real, d: real, m: real)
    requires Square(s) <= m * q && m > 0.0
    ensures Square(s + d) <= (m + 1.0) * (q + Square(d))
  {
    assert Square(s + d) == Square(s) + 2.0 * s * d + Square(d);
    assert (m + 1.0) * (q + Square(d)) == m * q + q + m * Square(d) + Square(d);
    CrossTerm(s, q, d, m);
  }

  lemma CrossTerm(s: real, q: real, d: real, m: real)
    requires Square(s) <= m * q && m > 0.0
    ensures 2.0 * s * d <= q + m * Square(d)
  {
    assert Square(s - m * d) >= 0.0;
    assert Square(s - m * d) == Square(s) - m * (2.0 * s * d) + m * (m * Square(d));
    assert m * (q + m * Square(d)) == m * q + m * (m * Square(d));
    if q + m * Square(d) < 2.0 * s * d {
      ProductStrict(q + m * Square(d), 2.0 * s * d, m);
    }
  }

  /** Taking one value out lowers sum, deviation and count by what it contributes. */
  lemma {:induction false} TakeOut(xs: seq<real>, i: nat, c: real, v: real)
    requires i < |xs|
    ensures Sum(xs) == Sum(Without(xs, i)) + xs[i]
    ensures Deviation(xs, c) == Deviation(Without(xs, i), c) + Square(xs[i] - c)
    ensures CountAnomalies(xs, c, v) == CountAnomalies(Without(xs, i), c, v) + if IsAnomaly(xs[i], c, v) then 1 else 0
    decreases |xs|
  {
    hide Square, IsAnomaly;
    var n := |xs| - 1;
    if i == n {
      assert Without(xs, i) == xs[..n];
    } else {
      TakeOut(xs[..n], i, c, v);
      assert Without(xs, i)[..n - 1] == Without(xs[..n], i) && Without(xs, i)[n - 1] == xs[n];
    }
  }

  /** The squared deviation of a single value is at most `n - 1` times the variance. */
  lemma Samuelson(xs: seq<real>, i: nat)
    requires i < |xs|
    ensures Square(xs[i] - Mean(xs)) <= ((|xs| - 1) as real) * Variance(xs)
  {
    hide Mean, Variance, Deviation, Square, Sum, CountAnomalies, IsAnomaly;
    var c, v, n := Mean(xs), Variance(xs), |xs| as real;
    var rest := Without(xs, i);
    var d := xs[i] - c;
    VarianceTimesCount(xs);
    TakeOut(xs, i, c, v);
    ProductSucc(c, |xs| - 1);
    SquareOfNegative(d);
    if rest == [] {
      LoneValue(rest, c);
    } else {
      CauchySchwarz(rest, c, -d);
    }
    SamuelsonStep(Square(d), Deviation(rest, c), v, n);
  }

  lemma LoneValue(xs: seq<real>, c: real)
    requires xs == []
    ensures Deviation(xs, c) == 0.0 && Sum(xs) == 0.0 && Square(0.0) == 0.0
  {
  }

  lemma SquareOfNegative(d: real)
    ensures Square(-d) == Square(d)
  {
  }

  lemma SamuelsonStep(sq: real, rest: real, v: real, n: real)
    requires n >= 1.0 && sq <= (n - 1.0) * rest && v * n == rest + sq
    ensures sq <= (n - 1.0) * v
  {
    assert (n - 1.0) * rest == (n - 1.0) * (v * n) - (n - 1.0) * sq;
    assert n * sq == sq + (n - 1.0) * sq;
    assert (n - 1.0) * (v * n) == n * ((n - 1.0) * v);
    if sq > (n - 1.0) * v {
      ProductStrict((n - 1.0) * v, sq, n);
    }
  }

  lemma {:induction false} NoneCounted(xs: seq<real>, c: real, v: real)
    requires forall i :: 0 <= i < |xs| ==> !IsAnomaly(xs[i], c, v)
    ensures CountAnomalies(xs, c, v) == 0
    decreases |xs|
  {
    if xs != [] {
      NoneCounted(xs[..|xs| - 1], c, v);
    }
  }

  lemma AtMostNineTimes(n: nat, v: real, p: real)
    requires 0 < n <= 10 && v >= 0.0 && p == ((n - 1) as real) * v
    ensures p <= 9.0 * v
  {
    ProductMonotone((n - 1) as real, 9.0, v);
  }

  lemma NotAnomalous(xs: seq<real>, i: nat)
    requires i < |xs| <= 10
    ensures !IsAnomaly(xs[i], Mean(xs), Variance(xs))
  {
    hide Mean, Variance, Square;
    VarianceTimesCount(xs);
    Samuelson(xs, i);
    AtMostNineTimes(|xs|, Variance(xs), ((|xs| - 1) as real) * Variance(xs));
  }

  /** Up to ten values, nothing is ever counted. */
  lemma NoAnomalyUpToTen(xs: seq<real>)
    requires 0 < |xs| <= 10
    ensures Anomalies(xs) == 0
  {
    hide Mean, Variance, IsAnomaly, CountAnomalies;
    forall i | 0 <= i < |xs| ensures !IsAnomaly(xs[i], Mean(xs), Variance(xs)) {
      NotAnomalous(xs, i);
    }
    NoneCounted(xs, Mean(xs), Variance(xs));
  }

  // ---- The count does not depend on order or scale ----

  lemma {:induction false} Rearranged(xs: seq<real>, ys: seq<real>, c: real, v: real)
    requires multiset(xs) == multiset(ys)
    ensures |xs| == |ys| && Sum(xs) == Sum(ys) && Deviation(xs, c) == Deviation(ys, c)
    ensures CountAnomalies(xs, c, v) == CountAnomalies(ys, c, v)
    decreases |ys|
  {
    hide Square, IsAnomaly, Without;
    assert |multiset(xs)| == |xs| && |multiset(ys)| == |ys|;
    if ys != [] {
      var i := FindIn(xs, ys, 0);
      TakeOut(xs, i, c, v);
      TakeOut(ys, 0, c, v);
      SameWithout(xs, i, ys, 0);
      Rearranged(Without(xs, i), Without(ys, 0), c, v);
    }
  }

  /** The number of anomalies is that of any rearrangement of the values. */
  lemma AnomaliesRearranged(xs: seq<real>, ys: seq<real>)
    requires xs != [] && multiset(xs) == multiset(ys)
    ensures ys != [] && Anomalies(xs) == Anomalies(ys)
  {
    Rearranged(xs, ys, 0.0, 0.0);
    Rearranged(xs, ys, Mean(xs), 0.0);
    Rearranged(xs, ys, Mean(xs), Variance(xs));
  }

  function Line(a: real, b: real, x: real): real {
    a * x + b
  }

  function Affine(xs: seq<real>, a: real, b: real): (r: seq<real>)
    ensures |r| == |xs|
    ensures forall i :: 0 <= i < |xs| ==> r[i] == Line(a, b, xs[i])
  {
    seq(|xs|, i requires 0 <= i < |xs| => Line(a, b, xs[i]))
  }

  function Times(s: real, x: real): real {
    s * x
  }

  /** What the sum of `n` values becomes on the other scale. */
  function LineSum(a: real, b: real, sum: real, n: nat): real {
    a * sum + b * (n as real)
  }

  lemma LineSumNext(a: real, b: real, sum: real, n: nat, x: real)
    ensures LineSum(a, b, sum, n) + Line(a, b, x) == LineSum(a, b, sum + x, n + 1)
    ensures LineSum(a, b, 0.0, 0) == 0.0
  {
    ProductSucc(b, n);
    assert a * (sum + x) == a * sum + a * x;
  }

  lemma TimesAdd(s: real, x: real, y: real)
    ensures Times(s, x) + Times(s, y) == Times(s, x + y)
    ensures Times(s, 0.0) == 0.0
  {
  }

  lemma SquareScaled(a: real, b: real, x: real, c: real, s: real)
    requires s == a * a
    ensures Square(Line(a, b, x) - Line(a, b, c)) == Times(s, Square(x - c))
  {
    var d, e := x - c, Line(a, b, x) - Line(a, b, c);
    assert e == a * d;
    assert e * e == s * (d * d);
  }

  lemma AnomalyScaled(a: real, b: real, x: real, c: real, v: real, s: real)
    requires s == a * a && s > 0.0
    ensures IsAnomaly(Line(a, b, x), Line(a, b, c), Times(s, v)) <==> IsAnomaly(x, c, v)
  {
    hide Square, Line;
    SquareScaled(a, b, x, c, s);
    ScaledOrder(9.0 * v, Square(x - c), s);
    ScaledOrder(0.0, v, s);
    assert 9.0 * (s * v) == s * (9.0 * v);
  }

  lemma ProductOfItself(a: real) returns (s: real)
    requires a != 0.0
    ensures s == a * a && s > 0.0
  {
    s := a * a;
    if a > 0.0 {
      ProductIsPositive(a, a, s);
    } else {
      ProductIsPositive(-a, -a, s);
    }
  }

  lemma ScaledOrder(p: real, q: real, s: real)
    requires s > 0.0
    ensures p < q <==> s * p < s * q
  {
    if p < q {
      ProductStrict(p, q, s);
    } else {
      ProductMonotone(q, p, s);
    }
  }

  lemma {:induction false} AffineStats(xs: seq<real>, a: real, b: real, c: real, v: real, s: real)
    requires s == a * a && s > 0.0
    ensures Sum(Affine(xs, a, b)) == LineSum(a, b, Sum(xs), |xs|)
    ensures Deviation(Affine(xs, a, b), Line(a, b, c)) == Times(s, Deviation(xs, c))
    ensures CountAnomalies(Affine(xs, a, b), Line(a, b, c), Times(s, v)) == CountAnomalies(xs, c, v)
    decreases |xs|
  {
    hide Square, IsAnomaly, Line, LineSum, Times;
    if xs == [] {
      LineSumNext(a, b, 0.0, 0, 0.0);
      TimesAdd(s, 0.0, 0.0);
    } else {
      var n: nat := |xs| - 1;
      var init := xs[..n];
      AffineStats(init, a, b, c, v, s);
      assert Affine(xs, a, b)[..n] == Affine(init, a, b);
      AnomalyScaled(a, b, xs[n], c, v, s);
      SquareScaled(a, b, xs[n], c, s);
      LineSumNext(a, b, Sum(init), n, xs[n]);
      TimesAdd(s, Deviation(init, c), Square(xs[n] - c));
    }
  }

  /** The number of anomalies is that of the values on any other scale. */
  lemma AnomaliesRescaled(xs: seq<real>, a: real, b: real)
    requires xs != [] && a != 0.0
    ensures Anomalies(Affine(xs, a, b)) == Anomalies(xs)
  {
    hide Sum, Deviation, CountAnomalies, Affine, LineSum, Line, Times;
    var ys := Affine(xs, a, b);
    var s := ProductOfItself(a);
    AffineStats(xs, a, b, Mean(xs), Variance(xs), s);
    MeanScaled(Sum(xs), |xs|, a, b);
    VarianceScaled(Deviation(xs, Mean(xs)), |xs|, s);
  }

  lemma MeanScaled(sum: real, n: nat, a: real, b: real)
    requires n > 0
    ensures LineSum(a, b, sum, n) / (n as real) == Line(a, b, sum / (n as real))
  {
    var m := n as real;
    var q := sum / m;
    assert q * m == sum;
    assert (a * q + b) * m == a * sum + b * m;
  }

  lemma VarianceScaled(deviation: real, n: nat, s: real)
    requires n > 0
    ensures Times(s, deviation) / (n as real) == Times(s, deviation / (n as real))
  {
    var m := n as real;
    var q := deviation / m;
    assert q * m == deviation;
    assert s * q * m == s * deviation;
  }

  // ---- Both bounds are met ----

  function Zeros(z: nat): (r: seq<real>)
    ensures |r| == z
  {
    if z == 0 then [] else Zeros(z - 1) + [0.0]
  }

  /** `m` values at one, as many at minus one, and `z` zeros. */
  function Spikes(m: nat, z: nat): (r: seq<real>)
    ensures |r| == 2 * m + z
  {
    if m == 0 then Zeros(z) else Spikes(m - 1, z) + [1.0] + [-1.0]
  }

  lemma AppendStats(xs: seq<real>, x: real, c: real, v: real)
    ensures Sum(xs + [x]) == Sum(xs) + x
    ensures Deviation(xs + [x], c) == Deviation(xs, c) + Square(x - c)
    ensures CountAnomalies(xs + [x], c, v) == CountAnomalies(xs, c, v) + if IsAnomaly(x, c, v) then 1 else 0
  {
    assert (xs + [x])[..|xs|] == xs;
  }

  lemma {:induction false} ZerosStats(z: nat, c: real, v: real)
    requires !IsAnomaly(0.0, c, v)
    ensures Sum(Zeros(z)) == 0.0 && Deviation(Zeros(z), c) == Square(c) * (z as real)
    ensures CountAnomalies(Zeros(z), c, v) == 0
    decreases z
  {
    hide Square, IsAnomaly;
    if z > 0 {
      var k: nat := z - 1;
      ZerosStats(k, c, v);
      AppendStats(Zeros(k), 0.0, c, v);
      SquareOfNegative(c);
      assert 0.0 - c == -c;
      ProductSucc(Square(c), k);
    }
  }

  /** A value at distance one from zero. */
  lemma SpikeStats(xs: seq<real>, x: real, v: real)
    requires x == 1.0 || x == -1.0
    ensures Sum(xs + [x]) == Sum(xs) + x && Deviation(xs + [x], 0.0) == Deviation(xs, 0.0) + 1.0
    ensures CountAnomalies(xs + [x], 0.0, v) == CountAnomalies(xs, 0.0, v) + if 0.0 < 9.0 * v < 1.0 then 1 else 0
  {
    hide Sum, Deviation, CountAnomalies;
    AppendStats(xs, x, 0.0, v);
  }

  lemma NoSpikes(z: nat, v: real)
    ensures Sum(Zeros(z)) == 0.0 && Deviation(Zeros(z), 0.0) == 0.0 && CountAnomalies(Zeros(z), 0.0, v) == 0
  {
    hide Sum, Deviation, CountAnomalies, Zeros;
    ZerosStats(z, 0.0, v);
  }

  lemma {:induction false} SpikesStats(m: nat, z: nat, v: real)
    ensures Sum(Spikes(m, z)) == 0.0 && Deviation(Spikes(m, z), 0.0) == (2 * m) as real
    ensures CountAnomalies(Spikes(m, z), 0.0, v) == if 0.0 < 9.0 * v < 1.0 then 2 * m else 0
    decreases m
  {
    hide IsAnomaly, Zeros, Sum, Deviation, CountAnomalies;
    if m == 0 {
      NoSpikes(z, v);
    } else {
      var rest := Spikes(m - 1, z);
      SpikesStats(m - 1, z, v);
      SpikeStats(rest, 1.0, v);
      SpikeStats(rest + [1.0], -1.0, v);
    }
  }

  /** For every even count there are windows that reach it: all spikes count as soon as they are fewer than one in
      nine. */
  lemma SpikesCounted(m: nat, z: nat)
    requires m > 0
    ensures Anomalies(Spikes(m, z)) == if 9 * (2 * m) < 2 * m + z then 2 * m else 0
  {
    hide Sum, Deviation, CountAnomalies, Spikes;
    var n := 2 * m + z;
    var v := (2 * m) as real / n as real;
    SpikesStats(m, z, v);
    assert Mean(Spikes(m, z)) == 0.0;
    assert Variance(Spikes(m, z)) == v;
    ShareIff(2 * m, n, v);
  }

  lemma ShareScaled(v: real, m: real, p: real)
    requires m > 0.0 && p == v * m
    ensures 0.0 < v <==> 0.0 < p
    ensures 9.0 * v < 1.0 <==> 9.0 * p < m
  {
    NineTimes(m, v);
    ScaledOrderAs(0.0, v, m, 0.0, p);
    ScaledOrderAs(9.0 * v, 1.0, m, 9.0 * p, m);
  }

  lemma ScaledOrderAs(p: real, q: real, s: real, sp: real, sq: real)
    requires s > 0.0 && sp == s * p && sq == s * q
    ensures p < q <==> sp < sq
  {
    ScaledOrder(p, q, s);
  }

  lemma NineTimes(m: real, v: real)
    ensures m * (9.0 * v) == 9.0 * (v * m)
  {
  }

  lemma ShareIff(k: nat, n: nat, v: real)
    requires 0 < k <= n && v == k as real / n as real
    ensures 0.0 < 9.0 * v < 1.0 <==> 9 * k < n
  {
    Quotient(k as real, n as real, v);
    ShareScaled(v, n as real, k as real);
  }

  /** A single one among zeros is counted exactly from eleven values on. */
  lemma LoneSpikeCounted(z: nat)
    ensures Anomalies(Zeros(z) + [1.0]) == if z >= 10 then 1 else 0
  {
    hide Sum, Deviation, CountAnomalies, Zeros, Square, IsAnomaly;
    var xs := Zeros(z) + [1.0];
    var n := |xs| as real;
    var c := 1.0 / n;
    var v := LoneSpikeVariance(z, n, c);
    ZerosStats(z, c, v);
    AppendStats(Zeros(z), 1.0, c, v);
    assert Mean(xs) == c;
    assert Variance(xs) == v;
  }

  /** With mean `c = 1/n` the variance is `z/n^2`; a zero is never counted, the one is when `z` exceeds nine. */
  lemma LoneSpikeVariance(z: nat, n: real, c: real) returns (v: real)
    requires n == (z + 1) as real && c == 1.0 / n
    ensures (Square(c) * (z as real) + Square(1.0 - c)) / n == v
    ensures !IsAnomaly(0.0, c, v)
    ensures IsAnomaly(1.0, c, v) <==> z >= 10
  {
    var y := z as real;
    Quotient(1.0, n, c);
    var i := ProductOfItself(c);
    assert 1.0 - c == c * y;
    v := i * y;
    assert (c * y) * (c * y) == (i * y) * y;
    assert Square(1.0 - c) == v * y;
    assert (v + v * y) / n == v by {
      assert v + v * y == v * n;
    }
    SquareOfNegative(c);
    LoneSpikeTests(z, i, c, v);
  }

  lemma LoneSpikeTests(z: nat, i: real, c: real, v: real)
    requires i > 0.0 && v == i * (z as real)
    requires Square(0.0 - c) == i && Square(1.0 - c) == v * (z as real)
    ensures !IsAnomaly(0.0, c, v)
    ensures IsAnomaly(1.0, c, v) <==> z >= 10
  {
    hide Square;
    var y := z as real;
    if z > 0 {
      ProductIsPositive(i, y, v);
      ScaledOrder(9.0, y, v);
      ScaledOrder(9.0 * y, 1.0, i);
      assert i * (9.0 * y) == 9.0 * v;
    }
  }
}
