/**
 Performance regression detection. Numbers are exact reals, extended with the infinities and
 the NaN that dividing by a zero baseline produces; rounding is not modelled.
 */
module Regression {
  import opened Options

  // --- Extended reals ---

  datatype Float = Num(r: real) | PosInf | NegInf | NaN

  function Div(a: real, b: real): Float {
    if b != 0.0 then Num(a / b)
    else if a > 0.0 then PosInf
    else if a < 0.0 then NegInf
    else NaN
  }

  function Times(x: Float, k: real): Float {
    match x
    case Num(r) => Num(r * k)
    case NaN => NaN
    case _ => if k == 0.0 then NaN else if (k > 0.0) == x.PosInf? then PosInf else NegInf
  }

  predicate Greater(x: Float, y: Float) {
    match (x, y)
    case (NaN, _) => false
    case (_, NaN) => false
    case (Num(a), Num(b)) => a > b
    case (PosInf, _) => !y.PosInf?
    case (NegInf, _) => false
    case (Num(_), _) => y.NegInf?
  }

  function Abs(x: Float): Float {
    match x
    case Num(r) => Num(if r < 0.0 then -r else r)
    case NegInf => PosInf
    case _ => x
  }

  function Negated(x: Float): Float {
    match x
    case Num(r) => Num(-r)
    case PosInf => NegInf
    case NegInf => PosInf
    case NaN => NaN
  }

  // The larger operand; a NaN yields the other one.
  function MaxWith(x: Float, y: real): Float {
    if Greater(x, Num(y)) then x else Num(y)
  }

  // --- Severity and verdict ---

  datatype Severity = NoSeverity | Minor | Moderate | Major | Critical

  function FromPercentage(p: Float): Severity {
    var a := Abs(p);
    if Greater(Num(5.0), a) then NoSeverity
    else if Greater(Num(15.0), a) then Minor
    else if Greater(Num(30.0), a) then Moderate
    else if Greater(Num(50.0), a) then Major
    else Critical
  }

  /** The grades in percent, in either direction: under 5 none, from 5 minor, from 15 moderate, from 30
      major, from 50 critical; an infinite change is critical. */
  lemma SeverityCutoffs(p: real)
    ensures var s := FromPercentage(Num(p));
            && (s == NoSeverity <==> -5.0 < p < 5.0)
            && (s == Minor <==> 5.0 <= p < 15.0 || -15.0 < p <= -5.0)
            && (s == Moderate <==> 15.0 <= p < 30.0 || -30.0 < p <= -15.0)
            && (s == Major <==> 30.0 <= p < 50.0 || -50.0 < p <= -30.0)
            && (s == Critical <==> p >= 50.0 || p <= -50.0)
    ensures FromPercentage(PosInf) == FromPercentage(NegInf) == FromPercentage(NaN) == Critical
  {
  }

  datatype Baseline = Baseline(metric: string, value: real, stdDev: real)

  datatype Config = Config(
    defaultThreshold: real,
    thresholds: map<string, real>,
    adaptive: bool,
    multiplier: real)

  const DEFAULT_CONFIG := Config(10.0, map[], true, 2.0)

  datatype Analysis = Analysis(
    name: string,
    isRegression: bool,
    percentage: Float,
    threshold: Float,
    severity: Severity)

  function Threshold(c: Config, name: string, b: Baseline): Float {
    if name in c.thresholds then Num(c.thresholds[name])
    else if c.adaptive && b.stdDev > 0.0
    then MaxWith(Times(Times(Div(b.stdDev, b.value), 100.0), c.multiplier), c.defaultThreshold)
    else Num(c.defaultThreshold)
  }

  /** The threshold: the metric's own; or, for an adaptive configuration and a baseline with a deviation,
      the larger of the default and the multiple of the deviation in percent of the baseline; or the default. */
  lemma ThresholdIs(c: Config, name: string, b: Baseline)
    ensures name in c.thresholds ==> Threshold(c, name, b) == Num(c.thresholds[name])
    ensures name !in c.thresholds && !(c.adaptive && b.stdDev > 0.0) ==>
              Threshold(c, name, b) == Num(c.defaultThreshold)
    ensures name !in c.thresholds && c.adaptive && b.stdDev > 0.0 && b.value != 0.0 ==>
              var t := b.stdDev / b.value * 100.0 * c.multiplier;
              Threshold(c, name, b) == Num(if t > c.defaultThreshold then t else c.defaultThreshold)
    ensures name !in c.thresholds && c.adaptive && b.stdDev > 0.0 && b.value == 0.0 ==>
              Threshold(c, name, b) == if c.multiplier > 0.0 then PosInf else Num(c.defaultThreshold)
  {
  }

  function Percentage(current: real, b: Baseline): Float {
    Times(Div(current - b.value, b.value), 100.0)
  }

  // Higher is worse for latency and memory, lower for throughput, any change for the rest.
  predicate Regresses(metric: string, percentage: Float, threshold: Float) {
    if metric == "latency" || metric == "memory" then Greater(percentage, threshold)
    else if metric == "throughput" then Greater(Negated(threshold), percentage)
    else Greater(Abs(percentage), threshold)
  }

  function AnalyzeMeasurement(c: Config, baselines: map<string, Baseline>, name: string, current: real, metric: string)
    : Option<Analysis>
  {
    if name !in baselines || baselines[name].metric != metric then None
    else
      var b := baselines[name];
      var threshold := Threshold(c, name, b);
      var percentage := Percentage(current, b);
      var regression := Regresses(metric, percentage, threshold);
      Some(Analysis(name, regression, percentage, threshold,
                    if regression then FromPercentage(percentage) else NoSeverity))
  }

  lemma ScaledQuotient(k: real, a: real, b: real)
    requires k > 0.0
    ensures Div(k * a, k * b) == Div(a, b)
  {
    if b != 0.0 {
      var q := a / b;
      assert a == q * b;
      assert k * a == q * (k * b);
    } else {
      assert k * b == 0.0;
      if a > 0.0 {
        assert k * a > 0.0;
      } else if a < 0.0 {
        assert k * a < 0.0;
      }
    }
  }

  lemma SameSign(k: real, a: real)
    requires k > 0.0
    ensures k * a > 0.0 <==> a > 0.0
  {
    if a <= 0.0 {
      assert k * -a >= 0.0;
    }
  }

  function Rescaled(k: real, b: Baseline): Baseline {
    b.(value := k * b.value, stdDev := k * b.stdDev)
  }

  lemma UnitsThreshold(c: Config, name: string, b: Baseline, k: real)
    requires k > 0.0
    ensures Threshold(c, name, Rescaled(k, b)) == Threshold(c, name, b)
  {
    ScaledQuotient(k, b.stdDev, b.value);
    SameSign(k, b.stdDev);
  }

  lemma UnitsPercentage(current: real, b: Baseline, k: real)
    requires k > 0.0
    ensures Percentage(k * current, Rescaled(k, b)) == Percentage(current, b)
  {
    ScaledQuotient(k, current - b.value, b.value);
    assert k * current - k * b.value == k * (current - b.value);
  }

  /** Verdicts do not depend on the unit of measurement: scaling the measurement, the baseline and
      its deviation by the same positive factor leaves the whole analysis unchanged, zero
      baselines included. */
  lemma UnitsDoNotMatter(c: Config, baselines: map<string, Baseline>, scaled: map<string, Baseline>,
                         name: string, current: real, metric: string, k: real)
    requires k > 0.0
    requires scaled.Keys == baselines.Keys && forall n | n in baselines :: scaled[n] == Rescaled(k, baselines[n])
    ensures AnalyzeMeasurement(c, scaled, name, k * current, metric)
         == AnalyzeMeasurement(c, baselines, name, current, metric)
  {
    if name in baselines {
      UnitsThreshold(c, name, baselines[name], k);
      UnitsPercentage(current, baselines[name], k);
    }
  }

  // What every analysed result satisfies.
  ghost predicate Consistent(r: Analysis) {
    && (r.severity != NoSeverity ==> r.isRegression)
    && (r.isRegression ==> !r.percentage.NaN? && r.severity == FromPercentage(r.percentage))
  }

  lemma AnalysedIsConsistent(c: Config, baselines: map<string, Baseline>, name: string, current: real, metric: string)
    ensures var r := AnalyzeMeasurement(c, baselines, name, current, metric);
            r.Some? ==> Consistent(r.value)
  {
  }

  lemma ThresholdAtLeast(c: Config, name: string, b: Baseline)
    requires name !in c.thresholds
    ensures Threshold(c, name, b) == Num(c.defaultThreshold) || Greater(Threshold(c, name, b), Num(c.defaultThreshold))
  {
  }

  // --- Verdicts in the unit of measurement ---

  // More than t percent of the baseline above it, in the direction of its sign.
  predicate Above(current: real, baseline: real, t: real) {
    var margin := t / 100.0 * baseline;
    if baseline >= 0.0 then current - baseline > margin else current - baseline < margin
  }

  predicate Below(current: real, baseline: real, t: real) {
    var margin := t / 100.0 * baseline;
    if baseline >= 0.0 then current - baseline < -margin else current - baseline > -margin
  }

  // Outside on the side that is worse for the metric.
  predicate Outside(metric: string, current: real, baseline: real, t: real) {
    if metric == "latency" || metric == "memory" then Above(current, baseline, t)
    else if metric == "throughput" then Below(current, baseline, t)
    else Above(current, baseline, t) || Below(current, baseline, t)
  }

  lemma MulOrder(a: real, b: real, v: real)
    requires v > 0.0
    ensures a > b <==> a * v > b * v
  {
    if a <= b {
      assert (b - a) * v >= 0.0;
    } else {
      assert (a - b) * v > 0.0;
    }
  }

  lemma MulOrderReversed(a: real, b: real, v: real)
    requires v < 0.0
    ensures a > b <==> a * v < b * v
  {
    MulOrder(a, b, -v);
    Opposite(a, v);
    Opposite(b, v);
  }

  lemma Opposite(a: real, v: real)
    ensures a * -v == -(a * v)
    ensures -a * v == -(a * v)
  {
  }

  // The change as a fraction of a baseline that is not zero.
  lemma FractionOf(current: real, b: Baseline) returns (q: real)
    requires b.value != 0.0
    ensures current - b.value == q * b.value
    ensures Percentage(current, b) == Num(q * 100.0)
  {
    q := (current - b.value) / b.value;
  }

  lemma FractionOrder(q: real, limit: real, v: real, gap: real, margin: real)
    requires v != 0.0 && gap == q * v && margin == limit * v
    ensures q > limit <==> if v >= 0.0 then gap > margin else gap < margin
    ensures q < -limit <==> if v >= 0.0 then gap < -margin else gap > -margin
  {
    Opposite(limit, v);
    if v > 0.0 {
      MulOrder(q, limit, v);
      MulOrder(-limit, q, v);
    } else {
      MulOrderReversed(q, limit, v);
      MulOrderReversed(-limit, q, v);
    }
  }

  lemma ThresholdIsUsable(c: Config, name: string, b: Baseline)
    ensures Threshold(c, name, b).Num? || (Threshold(c, name, b).PosInf? && b.value == 0.0)
  {
  }

  lemma SidesOfChange(current: real, b: Baseline, t: real)
    requires b.value != 0.0
    ensures var p := Percentage(current, b);
            && p.Num?
            && (p.r > t <==> Above(current, b.value, t))
            && (p.r < -t <==> Below(current, b.value, t))
  {
    var q := FractionOf(current, b);
    FractionOrder(q, t / 100.0, b.value, current - b.value, t / 100.0 * b.value);
    PercentOrder(q, t);
  }

  lemma PercentOrder(q: real, t: real)
    ensures q * 100.0 > t <==> q > t / 100.0
    ensures q * 100.0 < -t <==> q < -(t / 100.0)
  {
  }

  lemma SidesOfZero(current: real, t: real)
    ensures Above(current, 0.0, t) <==> current > 0.0
    ensures Below(current, 0.0, t) <==> current < 0.0
  {
  }

  lemma CutoffsFor(metric: string, current: real, b: Baseline, t: real)
    ensures Regresses(metric, Percentage(current, b), Num(t)) <==> Outside(metric, current, b.value, t)
  {
    var p := Percentage(current, b);
    if b.value == 0.0 {
      SidesOfZero(current, t);
      assert p == if current > 0.0 then PosInf else if current < 0.0 then NegInf else NaN;
    } else {
      SidesOfChange(current, b, t);
      VerdictOnNumber(metric, p.r, t);
    }
  }

  lemma VerdictOnNumber(metric: string, p: real, t: real)
    ensures Regresses(metric, Num(p), Num(t)) <==>
              if metric == "latency" || metric == "memory" then p > t
              else if metric == "throughput" then p < -t
              else p > t || p < -t
  {
  }

  /** Every verdict in the unit of measurement, whatever the sign of the baseline: a measurement
      regresses exactly when it is more than the threshold percentage of the baseline away from it,
      above for latency and memory, below for throughput, on either side for any other metric. Only a
      zero baseline with a deviation has an infinite threshold, which nothing passes. */
  lemma RegressionCutoffs(c: Config, name: string, b: Baseline, current: real)
    ensures var threshold := Threshold(c, name, b);
            && (threshold.Num? || (threshold.PosInf? && b.value == 0.0))
            && (Regresses(b.metric, Percentage(current, b), threshold) <==>
                  threshold.Num? && Outside(b.metric, current, b.value, threshold.r))
  {
    ThresholdIsUsable(c, name, b);
    var threshold := Threshold(c, name, b);
    if threshold.Num? {
      CutoffsFor(b.metric, current, b, threshold.r);
    }
  }

  /** The whole analysis of a measurement: there is one exactly when a baseline of its name has its metric;
      it regresses when it is outside the threshold, on the side that is worse for the metric; and only a
      regression is graded, by its change in percent of the baseline. */
  lemma AnalysisIs(c: Config, baselines: map<string, Baseline>, name: string, current: real, metric: string)
    ensures var r := AnalyzeMeasurement(c, baselines, name, current, metric);
            && (r.Some? <==> name in baselines && baselines[name].metric == metric)
            && (r.Some? ==>
                  var b, a := baselines[name], r.value;
                  && a.name == name && a.threshold == Threshold(c, name, b)
                  && (a.isRegression <==> a.threshold.Num? && Outside(metric, current, b.value, a.threshold.r))
                  && (b.value != 0.0 ==> a.percentage == Num((current - b.value) / b.value * 100.0))
                  && a.severity == if a.isRegression then FromPercentage(a.percentage) else NoSeverity)
  {
    if name in baselines && baselines[name].metric == metric {
      RegressionCutoffs(c, name, baselines[name], current);
    }
  }

  function Rank(s: Severity): nat {
    match s
    case NoSeverity => 0
    case Minor => 1
    case Moderate => 2
    case Major => 3
    case Critical => 4
  }

  /** A larger change in either direction is never graded lower, and the direction does not matter. */
  lemma SeverityMonotone(p: Float, q: Float)
    requires Greater(Abs(q), Abs(p))
    ensures Rank(FromPercentage(p)) <= Rank(FromPercentage(q))
    ensures FromPercentage(Negated(p)) == FromPercentage(p)
  {
  }

  /** Exactly when a regression is always graded: a measurement can be called a regression of no
      severity if and only if the baseline is not zero and the effective threshold is under five
      percent. */
  lemma RegressionsGradedIff(c: Config, name: string, b: Baseline)
    ensures var threshold := Threshold(c, name, b);
            (forall current: real :: Regresses(b.metric, Percentage(current, b), threshold) ==>
                                       FromPercentage(Percentage(current, b)) != NoSeverity)
            <==> b.value == 0.0 || !Greater(Num(5.0), threshold)
  {
    var threshold := Threshold(c, name, b);
    if b.value != 0.0 && Greater(Num(5.0), threshold) {
      var t := threshold.r;
      var p := if t < -4.0 then 0.0 else (t + 5.0) / 2.0;
      var change := if b.metric == "throughput" then -p else p;
      var current := CurrentFor(b, change);
      assert Percentage(current, b) == Num(change);
      assert Regresses(b.metric, Percentage(current, b), threshold);
      assert FromPercentage(Percentage(current, b)) == NoSeverity;
    }
  }

  // A measurement that changes the baseline by the given percentage.
  lemma CurrentFor(b: Baseline, change: real) returns (current: real)
    requires b.value != 0.0
    ensures Percentage(current, b) == Num(change)
  {
    current := b.value + b.value * (change / 100.0);
    var q := change / 100.0;
    assert current - b.value == q * b.value;
    assert (current - b.value) / b.value == q;
  }

  // Under the default configuration the threshold is never below ten percent.
  lemma DefaultRegressionsAreGraded(baselines: map<string, Baseline>, name: string, current: real, metric: string)
    ensures var r := AnalyzeMeasurement(DEFAULT_CONFIG, baselines, name, current, metric);
            r.Some? && r.value.isRegression ==> r.value.severity != NoSeverity
  {
    if name in baselines {
      ThresholdAtLeast(DEFAULT_CONFIG, name, baselines[name]);
    }
  }

  // --- Reports ---

  datatype Report = Report(
    total: nat,
    regressions: nat,
    critical: nat,
    major: nat,
    worst: Option<Analysis>,
    best: Option<Analysis>)

  function CountWhere(results: seq<Analysis>, p: Analysis -> bool): nat {
    if results == [] then 0
    else CountWhere(results[..|results| - 1], p) + if p(results[|results| - 1]) then 1 else 0
  }

  ghost function Where(results: seq<Analysis>, p: Analysis -> bool): set<nat> {
    set i: nat | i < |results| && p(results[i])
  }

  lemma {:induction false} CountIs(results: seq<Analysis>, p: Analysis -> bool)
    ensures CountWhere(results, p) == |Where(results, p)|
  {
    if results != [] {
      var n: nat := |results| - 1;
      CountIs(results[..n], p);
      assert forall i | 0 <= i < n :: results[..n][i] == results[i];
      assert Where(results, p) == Where(results[..n], p) + if p(results[n]) then {n} else {};
    }
  }

  predicate IsImprovement(r: Analysis) {
    !r.isRegression && Greater(Num(0.0), r.percentage)
  }

  // `r` is the first of the results chosen by `p` that no chosen result beats, if there is any.
  ghost predicate IsFirstBest(results: seq<Analysis>, r: Option<Analysis>, p: Analysis -> bool,
                              beats: (Analysis, Analysis) -> bool)
  {
    if r.None? then forall i | 0 <= i < |results| :: !p(results[i])
    else exists j :: IsFirstBestAt(results, j, r.value, p, beats)
  }

  ghost predicate IsFirstBestAt(results: seq<Analysis>, j: nat, r: Analysis, p: Analysis -> bool,
                                beats: (Analysis, Analysis) -> bool)
  {
    && j < |results| && results[j] == r && p(r)
    && (forall i | 0 <= i < |results| && p(results[i]) :: !beats(results[i], r))
    && (forall i | 0 <= i < j && p(results[i]) :: beats(r, results[i]))
  }

  predicate IsRegression(r: Analysis) { r.isRegression }

  predicate IsCritical(r: Analysis) { r.severity.Critical? }

  predicate IsMajor(r: Analysis) { r.severity.Major? }

  predicate LargerChange(a: Analysis, b: Analysis) {
    Greater(Abs(a.percentage), Abs(b.percentage))
  }

  predicate LowerChange(a: Analysis, b: Analysis) {
    Greater(b.percentage, a.percentage)
  }

  // On the chosen results `beats` is a strict order in which ties are equivalent.
  ghost predicate Ranks(results: seq<Analysis>, p: Analysis -> bool, beats: (Analysis, Analysis) -> bool) {
    && (forall a, b | a in results && b in results && p(a) && p(b) && beats(a, b) :: !beats(b, a))
    && (forall a, b, c | a in results && b in results && c in results && p(a) && p(b) && p(c) ::
          beats(c, b) && !beats(a, b) ==> beats(c, a))
  }

  // One turn of the loop: a chosen result replaces the running one when it beats it.
  lemma NextBest(results: seq<Analysis>, i: nat, r: Option<Analysis>, p: Analysis -> bool,
                 beats: (Analysis, Analysis) -> bool)
    requires i < |results| && Ranks(results, p, beats) && IsFirstBest(results[..i], r, p, beats)
    ensures var next := if p(results[i]) && (r.None? || beats(results[i], r.value)) then Some(results[i]) else r;
            IsFirstBest(results[..i + 1], next, p, beats)
  {
    var more := results[..i + 1];
    assert forall k | 0 <= k < i :: more[k] == results[..i][k];
    assert more[i] == results[i] && results[i] in results;
    if r.Some? {
      var j: nat :| IsFirstBestAt(results[..i], j, r.value, p, beats);
      assert r.value == results[..i][j] == results[j];
      if p(results[i]) && beats(results[i], r.value) {
        ReplacesBest(results, i, j, r.value, p, beats);
      } else {
        assert IsFirstBestAt(more, j, r.value, p, beats);
      }
    } else if p(results[i]) {
      assert !beats(results[i], results[i]);
      assert IsFirstBestAt(more, i, results[i], p, beats);
    }
  }

  // What beats the best so far beats every chosen result so far.
  lemma ReplacesBest(results: seq<Analysis>, i: nat, j: nat, r: Analysis, p: Analysis -> bool,
                     beats: (Analysis, Analysis) -> bool)
    requires i < |results| && Ranks(results, p, beats) && IsFirstBestAt(results[..i], j, r, p, beats)
    requires p(results[i]) && beats(results[i], r)
    ensures IsFirstBestAt(results[..i + 1], i, results[i], p, beats)
  {
    var new' := results[i];
    assert r == results[j] && r in results && new' in results;
    forall k | 0 <= k < i && p(results[k]) ensures beats(new', results[k]) && !beats(results[k], new') {
      assert results[..i][k] == results[k] && results[k] in results;
    }
    assert forall k | 0 <= k <= i :: results[..i + 1][k] == results[k];
  }

  ghost predicate NoNaN(results: seq<Analysis>) {
    forall r | r in results && r.isRegression :: !r.percentage.NaN?
  }

  lemma RegressionsAre(results: seq<Analysis>)
    ensures CountWhere(results, IsRegression) == |set i: nat | i < |results| && results[i].isRegression|
  {
    CountIs(results, IsRegression);
    assert Where(results, IsRegression) == set i: nat | i < |results| && results[i].isRegression;
  }

  lemma CriticalAre(results: seq<Analysis>)
    ensures CountWhere(results, IsCritical) == |set i: nat | i < |results| && results[i].severity == Critical|
  {
    CountIs(results, IsCritical);
    assert Where(results, IsCritical) == set i: nat | i < |results| && results[i].severity == Critical;
  }

  lemma MajorAre(results: seq<Analysis>)
    ensures CountWhere(results, IsMajor) == |set i: nat | i < |results| && results[i].severity == Major|
  {
    CountIs(results, IsMajor);
    assert Where(results, IsMajor) == set i: nat | i < |results| && results[i].severity == Major;
  }

  // The worst regression in numbers, and the best improvement.
  ghost predicate LargestChange(results: seq<Analysis>, worst: Option<Analysis>) {
    worst.Some? && worst.value.percentage.Num? ==>
      var w := worst.value.percentage.r;
      forall r | r in results && r.isRegression ::
        r.percentage.Num? && (-w <= r.percentage.r <= w || w <= r.percentage.r <= -w)
  }

  ghost predicate LowestChange(results: seq<Analysis>, best: Option<Analysis>) {
    best.Some? ==>
      && !best.value.isRegression
      && (best.value.percentage.NegInf? || (best.value.percentage.Num? && best.value.percentage.r < 0.0))
      && forall r | r in results && !r.isRegression && r.percentage.Num? ::
           best.value.percentage.Num? ==> best.value.percentage.r <= r.percentage.r
  }

  lemma WorstInNumbers(results: seq<Analysis>, worst: Option<Analysis>)
    requires NoNaN(results) && IsFirstBest(results, worst, IsRegression, LargerChange)
    ensures LargestChange(results, worst)
  {
    if worst.Some? && worst.value.percentage.Num? {
      forall r | r in results && r.isRegression ensures !LargerChange(r, worst.value) {
        var i :| 0 <= i < |results| && results[i] == r;
        assert IsRegression(results[i]);
      }
    }
  }

  lemma BestInNumbers(results: seq<Analysis>, best: Option<Analysis>)
    requires IsFirstBest(results, best, IsImprovement, LowerChange)
    ensures LowestChange(results, best)
  {
    if best.Some? {
      forall r | r in results && IsImprovement(r) ensures !LowerChange(r, best.value) {
        var i :| 0 <= i < |results| && results[i] == r;
        assert IsImprovement(results[i]);
      }
    }
  }

  lemma CountsAre(results: seq<Analysis>)
    ensures CountWhere(results, IsRegression) == |set i: nat | i < |results| && results[i].isRegression|
    ensures CountWhere(results, IsCritical) == |set i: nat | i < |results| && results[i].severity == Critical|
    ensures CountWhere(results, IsMajor) == |set i: nat | i < |results| && results[i].severity == Major|
  {
    RegressionsAre(results);
    CriticalAre(results);
    MajorAre(results);
  }

  /** The counts are those of the flags; the worst regression is the first of largest absolute
      change and the best improvement the first of lowest change, provided no regression's
      change is a NaN, which analysed results never have. */
  method GenerateReport(results: seq<Analysis>) returns (report: Report)
    ensures report.total == |results|
    ensures report.regressions == CountWhere(results, IsRegression)
    ensures report.critical == CountWhere(results, IsCritical)
    ensures report.major == CountWhere(results, IsMajor)
    ensures report.regressions == |set i: nat | i < |results| && results[i].isRegression|
    ensures report.critical == |set i: nat | i < |results| && results[i].severity == Critical|
    ensures report.major == |set i: nat | i < |results| && results[i].severity == Major|
    ensures NoNaN(results) ==> IsFirstBest(results, report.worst, IsRegression, LargerChange)
    ensures IsFirstBest(results, report.best, IsImprovement, LowerChange)
    ensures NoNaN(results) ==> LargestChange(results, report.worst)
    ensures LowestChange(results, report.best)
  {
    var worst, best := None, None;
    for i := 0 to |results|
      invariant NoNaN(results) ==> IsFirstBest(results[..i], worst, IsRegression, LargerChange)
      invariant IsFirstBest(results[..i], best, IsImprovement, LowerChange)
    {
      var result := results[i];
      if NoNaN(results) {
        NextBest(results, i, worst, IsRegression, LargerChange);
      }
      NextBest(results, i, best, IsImprovement, LowerChange);
      if result.isRegression {
        if worst.None? || Greater(Abs(result.percentage), Abs(worst.value.percentage)) {
          worst := Some(result);
        }
      } else if Greater(Num(0.0), result.percentage) {
        if best.None? || Greater(best.value.percentage, result.percentage) {
          best := Some(result);
        }
      }
    }
    assert results[..|results|] == results;
    CountsAre(results);
    BestInNumbers(results, best);
    if NoNaN(results) {
      WorstInNumbers(results, worst);
    }
    report := Report(|results|, CountWhere(results, IsRegression), CountWhere(results, IsCritical),
                     CountWhere(results, IsMajor), worst, best);
  }

  datatype Measurement = Measurement(name: string, value: real, metric: string)

  // The analyses of those measurements that have a baseline for their metric, in any order.
  function AnalyzeMeasurements(c: Config, baselines: map<string, Baseline>,
                               measurements: seq<Measurement>): seq<Analysis>
  {
    if measurements == [] then []
    else
      var m := measurements[|measurements| - 1];
      var before := AnalyzeMeasurements(c, baselines, measurements[..|measurements| - 1]);
      match AnalyzeMeasurement(c, baselines, m.name, m.value, m.metric)
      case Some(r) => before + [r]
      case None => before
  }

  /** In every report on analysed measurements the critical and the major regressions are among the
      regressions, the regressions among the measurements, and no regression's change is a NaN. */
  lemma {:induction false} CountBounds(c: Config, baselines: map<string, Baseline>, measurements: seq<Measurement>)
    ensures var results := AnalyzeMeasurements(c, baselines, measurements);
            && CountWhere(results, IsCritical) + CountWhere(results, IsMajor) <= CountWhere(results, IsRegression)
            && CountWhere(results, IsRegression) <= |results| <= |measurements|
            && NoNaN(results)
  {
    if measurements != [] {
      var m := measurements[|measurements| - 1];
      CountBounds(c, baselines, measurements[..|measurements| - 1]);
      AnalysedIsConsistent(c, baselines, m.name, m.value, m.metric);
      var results := AnalyzeMeasurements(c, baselines, measurements);
      var r := AnalyzeMeasurement(c, baselines, m.name, m.value, m.metric);
      if r.Some? {
        assert results[..|results| - 1] == AnalyzeMeasurements(c, baselines, measurements[..|measurements| - 1]);
      }
    }
  }

  // --- What the report calls an improvement ---

  lemma ChangeIsNegative(current: real, b: Baseline)
    ensures Greater(Num(0.0), Percentage(current, b)) <==>
              if b.value >= 0.0 then current < b.value else current > b.value
  {
    if b.value == 0.0 {
      assert Percentage(current, b) == if current > 0.0 then PosInf else if current < 0.0 then NegInf else NaN;
    } else {
      var q := FractionOf(current, b);
      FractionOrder(q, 0.0, b.value, current - b.value, 0.0);
    }
  }

  /** Whatever the metric, a measurement that is no regression counts as an improvement exactly when
      it is below its baseline. That is a gain for latency and memory; for throughput every reported
      improvement is a loss. (Over a negative baseline above and below change places.) */
  lemma ImprovementIff(c: Config, baselines: map<string, Baseline>, name: string, current: real)
    requires name in baselines
    ensures var b := baselines[name];
            var r := AnalyzeMeasurement(c, baselines, name, current, b.metric).value;
            IsImprovement(r) <==> !r.isRegression && if b.value >= 0.0 then current < b.value else current > b.value
  {
    ChangeIsNegative(current, baselines[name]);
  }

  // Under the default configuration a throughput that fell from 100 to 95 is reported as the best
  // improvement, and one that rose to 105 is not.
  lemma LossIsBestImprovement() returns (b: Baseline, fell: Analysis, rose: Analysis)
    ensures b == Baseline("throughput", 100.0, 0.0)
    ensures AnalyzeMeasurement(DEFAULT_CONFIG, map["tx" := b], "tx", 95.0, "throughput") == Some(fell)
    ensures AnalyzeMeasurement(DEFAULT_CONFIG, map["tx" := b], "tx", 105.0, "throughput") == Some(rose)
    ensures IsFirstBest([rose, fell], Some(fell), IsImprovement, LowerChange) && !IsImprovement(rose)
  {
    b := Baseline("throughput", 100.0, 0.0);
    var baselines := map["tx" := b];
    fell := AnalyzeMeasurement(DEFAULT_CONFIG, baselines, "tx", 95.0, "throughput").value;
    rose := AnalyzeMeasurement(DEFAULT_CONFIG, baselines, "tx", 105.0, "throughput").value;
    assert fell.percentage == Num(-5.0) && rose.percentage == Num(5.0);
    assert IsFirstBestAt([rose, fell], 1, fell, IsImprovement, LowerChange);
  }

  // --- Monitoring ---

  const HISTORY: nat := 100

  predicate HasRegressions(r: Report) {
    r.regressions > 0
  }

  class Monitor {
    var history: seq<Report>
    const alertThreshold: nat := 3

    constructor ()
      ensures history == []
    {
      history := [];
    }

    method AddReport(report: Report)
      modifies this
      ensures history == Recent(old(history), report)
      ensures history == (if |old(history)| >= 100 then old(history)[1..] else old(history)) + [report]
    {
      history := history + [report];
      if |history| > HISTORY {
        history := history[1..];
      }
    }

    method ShouldAlert() returns (alert: bool)
      ensures alert == Alerts(history, alertThreshold)
      ensures alert <==> |history| >= 3 && forall i | |history| - 3 <= i < |history| :: history[i].regressions > 0
    {
      if |history| < alertThreshold {
        return false;
      }
      var recent := history[|history| - alertThreshold..];
      return forall i | 0 <= i < |recent| :: HasRegressions(recent[i]);
    }
  }

  function Recent(history: seq<Report>, report: Report): seq<Report> {
    var longer := history + [report];
    if |longer| > HISTORY then longer[1..] else longer
  }

  predicate Alerts(history: seq<Report>, threshold: nat) {
    |history| >= threshold
    && forall i | |history| - threshold <= i < |history| :: HasRegressions(history[i])
  }

  function HistoryAfter(reports: seq<Report>): seq<Report> {
    if reports == [] then [] else Recent(HistoryAfter(reports[..|reports| - 1]), reports[|reports| - 1])
  }

  // How many of n reports are forgotten.
  function Forgotten(n: nat): nat {
    if n > HISTORY then n - HISTORY else 0
  }

  lemma TailStep(reports: seq<Report>, n: nat)
    requires |reports| == n + 1
    ensures Recent(reports[..n][Forgotten(n)..], reports[n]) == reports[Forgotten(n + 1)..]
  {
    var longer, f := reports[..n][Forgotten(n)..] + [reports[n]], Forgotten(n);
    assert longer == reports[f..];
    if n >= HISTORY {
      assert longer[1..] == reports[f + 1..];
    }
  }

  lemma {:induction false} HistoryTail(reports: seq<Report>)
    ensures HistoryAfter(reports) == reports[Forgotten(|reports|)..]
  {
    if reports != [] {
      HistoryTail(reports[..|reports| - 1]);
      TailStep(reports, |reports| - 1);
    }
  }

  // Dropping reports from the front leaves the verdict on the last n as it was.
  lemma AlertsOnTail(reports: seq<Report>, d: nat, n: nat)
    requires d <= |reports| && (d == 0 || |reports| - d >= n)
    ensures Alerts(reports[d..], n) <==> Alerts(reports, n)
  {
    var h := reports[d..];
    if |h| >= n {
      forall i | |reports| - n <= i < |reports| ensures reports[i] == h[i - d] {
      }
      forall i | |h| - n <= i < |h| ensures h[i] == reports[i + d] {
      }
    }
  }

  /** After any reports the history is the last hundred of them, in order; and forgetting the
      older ones never changes an alert, which depends on the last three alone. */
  lemma {:induction false} HistoryIsTail(reports: seq<Report>)
    ensures HistoryAfter(reports) == if |reports| > 100 then reports[|reports| - 100..] else reports
    ensures Alerts(HistoryAfter(reports), 3) <==> Alerts(reports, 3)
  {
    HistoryTail(reports);
    AlertsOnTail(reports, Forgotten(|reports|), 3);
  }
}
