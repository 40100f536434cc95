/** What the axis guarantees: an optimal line, a plausible period, and conversions that invert. */
module TimelineLaws {
  import opened Options
  import opened Timelines

  // ---------------------------------------------------------------------------------------
  // The fitted line

  /** The residuals of a window, summed, and summed with their distances from the reference. */
  function ResidualSum(w: seq<Sample>, f: Fit): real {
    if w == [] then 0.0 else ResidualSum(w[..|w| - 1], f) + f.Residual(w[|w| - 1])
  }

  function Moment(s: Sample, f: Fit): real {
    (s.microframe - f.reference) as real * f.Residual(s)
  }

  function MomentSum(w: seq<Sample>, f: Fit): real {
    if w == [] then 0.0 else MomentSum(w[..|w| - 1], f) + Moment(w[|w| - 1], f)
  }

  function Square(s: Sample, f: Fit): real {
    f.Residual(s) * f.Residual(s)
  }

  function SquareSum(w: seq<Sample>, f: Fit): real {
    if w == [] then 0.0 else SquareSum(w[..|w| - 1], f) + Square(w[|w| - 1], f)
  }

  lemma MulAdd(a: real, b: real, c: real)
    ensures a * (b + c) == a * b + a * c
    ensures (b + c) * a == b * a + c * a
    ensures a * (b - c) == a * b - a * c
  {
  }

  /** The two sums of residuals of the line y = a + p x, from the sums the routine keeps. */
  function FirstEquation(t: Sums, n: real, a: real, p: real): real {
    t.y - n * a - p * t.x
  }

  function SecondEquation(t: Sums, a: real, p: real): real {
    t.xy - a * t.x - p * t.xx
  }

  lemma {:induction false} ResidualsOfSums(w: seq<Sample>, base: Sample, a: real, p: real)
    ensures var t, f := Total(w, base), Fit(base.microframe, base.hostNs as real + a, p);
            && ResidualSum(w, f) == FirstEquation(t, |w| as real, a, p)
            && MomentSum(w, f) == SecondEquation(t, a, p)
  {
    hide Fit.Residual, Moment, FirstEquation, SecondEquation, Sums.Add;
    if w == [] {
      NoSums(a, p);
    } else {
      ResidualsOfSums(w[..|w| - 1], base, a, p);
      OneResidual(Total(w[..|w| - 1], base), (|w| - 1) as real, a, p, base, w[|w| - 1]);
      assert |w| as real == (|w| - 1) as real + 1.0;
    }
  }

  lemma NoSums(a: real, p: real)
    ensures var t := Sums(0.0, 0.0, 0.0, 0.0);
            FirstEquation(t, 0.0, a, p) == 0.0 && SecondEquation(t, a, p) == 0.0
  {
  }

  lemma OneResidual(t: Sums, n: real, a: real, p: real, base: Sample, s: Sample)
    ensures var f := Fit(base.microframe, base.hostNs as real + a, p);
            && FirstEquation(t.Add(s, base), n + 1.0, a, p) == FirstEquation(t, n, a, p) + f.Residual(s)
            && SecondEquation(t.Add(s, base), a, p) == SecondEquation(t, a, p) + Moment(s, f)
  {
    var x, y := (s.microframe - base.microframe) as real, (s.hostNs - base.hostNs) as real;
    MulAdd(p, t.x, x);
    MulAdd(a, n, 1.0);
    MulAdd(a, t.x, x);
    MulAdd(p, t.xx, x * x);
    MulAdd(x, y - a, x * p);
    MulAdd(x, y, a);
    assert x * (x * p) == p * (x * x);
  }

  /** The line through the sums makes both sums of residuals vanish. */
  lemma SolvesSums(t: Sums, n: real, p: real, a: real)
    requires n > 0.0 && Determinant(t, n) > 0.0 && p == Slope(t, n) && a == Intercept(t, n, p)
    ensures FirstEquation(t, n, a, p) == 0.0 && SecondEquation(t, a, p) == 0.0
  {
    assert n * a == t.y - p * t.x;
    var d, c := n * t.xx - t.x * t.x, n * t.xy - t.x * t.y;
    assert p * d == c;
    ScaledMoment(t, n, p, a);
    var m := t.xy - a * t.x - p * t.xx;
    assert n * m == 0.0;
    ZeroFactor(n, m);
  }

  lemma ScaledMoment(t: Sums, n: real, p: real, a: real)
    requires n * a == t.y - p * t.x
    requires p * (n * t.xx - t.x * t.x) == n * t.xy - t.x * t.y
    ensures n * (t.xy - a * t.x - p * t.xx) == 0.0
  {
    MulAdd(n, t.xy - a * t.x, p * t.xx);
    MulAdd(n, t.xy, a * t.x);
    assert n * (a * t.x) == (n * a) * t.x;
    MulAdd(t.x, t.y, p * t.x);
    assert (t.y - p * t.x) * t.x == t.x * t.y - t.x * (p * t.x);
    MulAdd(p, n * t.xx, t.x * t.x);
    assert n * (p * t.xx) == p * (n * t.xx);
    assert t.x * (p * t.x) == p * (t.x * t.x);
  }

  lemma ZeroFactor(n: real, m: real)
    requires n > 0.0 && n * m == 0.0
    ensures m == 0.0
  {
  }

  /** A published line satisfies the normal equations of its window. */
  lemma NormalEquations(w: seq<Sample>)
    requires w != [] && LeastSquares(w).Some?
    ensures var f := LeastSquares(w).value;
            ResidualSum(w, f) == 0.0 && MomentSum(w, f) == 0.0
  {
    hide Total, Determinant, Slope, Intercept, FirstEquation, SecondEquation;
    var t, n := Total(w, w[0]), |w| as real;
    var p := Slope(t, n);
    var a := Intercept(t, n, p);
    ResidualsOfSums(w, w[0], a, p);
    SolvesSums(t, n, p, a);
  }

  /** What two lines that differ by da + dp x at distance x make of the sums. */
  function Cross(da: real, dp: real, residuals: real, moments: real): real {
    2.0 * (da * residuals + dp * moments)
  }

  ghost predicate DifferBy(f: Fit, g: Fit, da: real, dp: real) {
    forall s: Sample :: g.Residual(s) == f.Residual(s) - (da + (s.microframe - f.reference) as real * dp)
  }

  lemma {:induction false} OtherLine(w: seq<Sample>, f: Fit, g: Fit, da: real, dp: real)
    requires DifferBy(f, g, da, dp)
    ensures SquareSum(w, g) >= SquareSum(w, f) - Cross(da, dp, ResidualSum(w, f), MomentSum(w, f))
  {
    hide Fit.Residual, Moment, Square, Cross, DifferBy;
    if w == [] {
      NoCross(da, dp);
    } else {
      var init, s := w[..|w| - 1], w[|w| - 1];
      OtherLine(init, f, g, da, dp);
      OneLine(f, g, da, dp, s, ResidualSum(init, f), MomentSum(init, f));
    }
  }

  lemma NoCross(da: real, dp: real)
    ensures Cross(da, dp, 0.0, 0.0) == 0.0
  {
  }

  lemma OneLine(f: Fit, g: Fit, da: real, dp: real, s: Sample, residuals: real, moments: real)
    requires DifferBy(f, g, da, dp)
    ensures Square(s, g) - Cross(da, dp, residuals, moments)
            >= Square(s, f) - Cross(da, dp, residuals + f.Residual(s), moments + Moment(s, f))
  {
    hide Fit.Residual;
    var x, r := (s.microframe - f.reference) as real, f.Residual(s);
    assert g.Residual(s) == r - (da + x * dp);
    OneSquare(r, x, da, dp);
    MulAdd(da, residuals, r);
    MulAdd(dp, moments, x * r);
  }

  lemma OneSquare(r: real, x: real, da: real, dp: real)
    ensures var d := da + x * dp;
            (r - d) * (r - d) >= r * r - 2.0 * (da * r + dp * (x * r))
  {
    var d := da + x * dp;
    MulAdd(r, da, x * dp);
    assert r * (x * dp) == dp * (x * r);
    assert (r - d) * (r - d) == r * r - 2.0 * (r * d) + d * d;
    SquareSign(d);
  }

  lemma SquareSign(d: real)
    ensures d * d >= 0.0
  {
  }

  lemma LinesDiffer(f: Fit, g: Fit, s: Sample)
    ensures g.Residual(s)
            == f.Residual(s)
               - ((g.ns + (f.reference - g.reference) as real * g.period - f.ns)
                  + (s.microframe - f.reference) as real * (g.period - f.period))
  {
    var x, y := (s.microframe - f.reference) as real, (f.reference - g.reference) as real;
    assert (s.microframe - g.reference) as real == x + y;
    MulAdd(g.period, x, y);
    MulAdd(x, g.period, f.period);
  }

  /** No other line, whatever its reference, offset and period, has a smaller sum of squared errors. */
  lemma LeastSquaresIsLeast(w: seq<Sample>, g: Fit)
    requires w != [] && LeastSquares(w).Some?
    ensures SquareSum(w, LeastSquares(w).value) <= SquareSum(w, g)
  {
    hide LeastSquares;
    var f := LeastSquares(w).value;
    var da, dp := g.ns + (f.reference - g.reference) as real * g.period - f.ns, g.period - f.period;
    forall s: Sample
      ensures g.Residual(s) == f.Residual(s) - (da + (s.microframe - f.reference) as real * dp)
    {
      LinesDiffer(f, g, s);
    }
    OtherLine(w, f, g, da, dp);
    NormalEquations(w);
    NoCross(da, dp);
  }

  // ---------------------------------------------------------------------------------------
  // Whole runs

  /** The state after these samples. */
  function ObservedAll(samples: seq<Sample>, capacity: nat): State
    requires capacity > 0
  {
    if samples == [] then Start()
    else Observed(ObservedAll(samples[..|samples| - 1], capacity), samples[|samples| - 1], capacity)
  }

  /** How many samples came since the axis was last taken for restarted. */
  function SinceRestart(samples: seq<Sample>, capacity: nat): (n: nat)
    requires capacity > 0
    ensures n <= |samples|
  {
    if samples == [] then 0
    else
      var init := samples[..|samples| - 1];
      1 + if Restarts(ObservedAll(init, capacity).fit, samples[|init|]) then 0 else SinceRestart(init, capacity)
  }

  /** The refit that the last of these samples triggers is accepted. */
  predicate Accepted(samples: seq<Sample>, capacity: nat)
    requires capacity > 0
  {
    var w := ObservedAll(samples, capacity).window;
    |w| >= MIN_SAMPLES && LeastSquares(w).Some?
  }

  /** How many samples had come when a refit was accepted last, if one was since the restart. */
  function LastAccepted(samples: seq<Sample>, capacity: nat): Option<nat>
    requires capacity > 0
  {
    if samples == [] then None
    else if Accepted(samples, capacity) then Some(|samples|)
    else
      var init := samples[..|samples| - 1];
      if Restarts(ObservedAll(init, capacity).fit, samples[|init|]) then None else LastAccepted(init, capacity)
  }

  /**
   * The window is the latest samples since the restart, as many as fit. A line is published if a
   * refit was accepted since then, and it is the line of the latest of these.
   */
  ghost predicate Sound(st: State, samples: seq<Sample>, capacity: nat)
    requires capacity > 0
  {
    && st.window == LatestSinceRestart(samples, capacity)
    && SoundFit(st, samples, capacity)
  }

  function LatestSinceRestart(samples: seq<Sample>, capacity: nat): seq<Sample>
    requires capacity > 0
  {
    var n := SinceRestart(samples, capacity);
    samples[|samples| - (if n <= capacity then n else capacity)..]
  }

  ghost predicate SoundFit(st: State, samples: seq<Sample>, capacity: nat)
    requires capacity > 0
  {
    match LastAccepted(samples, capacity)
    case None => st.fit == None
    case Some(j) =>
      && j <= |samples| && st.basis == ObservedAll(samples[..j], capacity).window
      && MIN_SAMPLES <= |st.basis| && MIN_SAMPLES <= |st.window|
      && st.fit == LeastSquares(st.basis) && st.fit.Some?
  }

  lemma SuffixGrows(w: seq<Sample>, init: seq<Sample>, s: Sample, capacity: nat)
    requires |w| <= |init| && w == init[|init| - |w|..]
    ensures var v, samples := Latest(w + [s], capacity), init + [s];
            |v| <= |samples| && v == samples[|samples| - |v|..]
  {
    var samples := init + [s];
    assert w + [s] == samples[|samples| - |w| - 1..];
  }

  lemma {:induction false} AllSound(samples: seq<Sample>, capacity: nat)
    requires capacity >= MIN_SAMPLES
    ensures Sound(ObservedAll(samples, capacity), samples, capacity)
  {
    hide Sound, Observed;
    if samples == [] {
      StartSound(capacity);
    } else {
      var init, s := samples[..|samples| - 1], samples[|samples| - 1];
      AllSound(init, capacity);
      assert samples == init + [s];
      ObservedSound(init, s, capacity);
    }
  }

  lemma StartSound(capacity: nat)
    requires capacity > 0
    ensures Sound(Start(), [], capacity)
  {
  }

  /** One more sample, in terms of the state before it. */
  lemma StepFacts(init: seq<Sample>, s: Sample, capacity: nat)
    requires capacity >= MIN_SAMPLES
    ensures var st, samples := ObservedAll(init, capacity), init + [s];
            var restart := Restarts(st.fit, s);
            && ObservedAll(samples, capacity) == Observed(st, s, capacity)
            && SinceRestart(samples, capacity) == 1 + (if restart then 0 else SinceRestart(init, capacity))
            && LastAccepted(samples, capacity)
               == (if Accepted(samples, capacity) then Some(|samples|)
                   else if restart then None else LastAccepted(init, capacity))
  {
    hide Restarts, LeastSquares, Observed;
    assert (init + [s])[..|init|] == init;
  }

  /** The same, field by field. */
  lemma ObservedFields(st: State, s: Sample, capacity: nat)
    requires capacity >= MIN_SAMPLES
    ensures var next, restart := Observed(st, s, capacity), Restarts(st.fit, s);
            && next.window == Latest((if restart then [] else st.window) + [s], capacity)
            && (if |next.window| >= MIN_SAMPLES && LeastSquares(next.window).Some? then
                  next.fit == LeastSquares(next.window) && next.basis == next.window
                else if restart then next.fit == None
                else next.fit == st.fit && next.basis == st.basis)
  {
    hide LeastSquares, Restarts, Latest;
  }

  lemma WindowSound(init: seq<Sample>, s: Sample, capacity: nat)
    requires capacity >= MIN_SAMPLES
    requires ObservedAll(init, capacity).window == LatestSinceRestart(init, capacity)
    ensures ObservedAll(init + [s], capacity).window == LatestSinceRestart(init + [s], capacity)
  {
    hide LeastSquares, Restarts, SinceRestart, ObservedAll, LastAccepted, Observed, Accepted;
    StepFacts(init, s, capacity);
    ObservedFields(ObservedAll(init, capacity), s, capacity);
    SuffixGrows(ObservedAll(init, capacity).window, init, s, capacity);
    SuffixGrows([], init, s, capacity);
  }

  lemma FitSound(init: seq<Sample>, s: Sample, capacity: nat)
    requires capacity >= MIN_SAMPLES && SoundFit(ObservedAll(init, capacity), init, capacity)
    ensures SoundFit(ObservedAll(init + [s], capacity), init + [s], capacity)
  {
    hide LeastSquares, Restarts, SinceRestart, ObservedAll, LastAccepted, Observed;
    var samples := init + [s];
    StepFacts(init, s, capacity);
    ObservedFields(ObservedAll(init, capacity), s, capacity);
    assert samples[..|samples|] == samples;
    var before := LastAcceptedBound(init, capacity);
    if before.Some? {
      assert samples[..before.value] == init[..before.value];
    }
  }

  lemma ObservedSound(init: seq<Sample>, s: Sample, capacity: nat)
    requires capacity >= MIN_SAMPLES && Sound(ObservedAll(init, capacity), init, capacity)
    ensures Sound(ObservedAll(init + [s], capacity), init + [s], capacity)
  {
    hide LatestSinceRestart, SoundFit, ObservedAll;
    WindowSound(init, s, capacity);
    FitSound(init, s, capacity);
  }

  lemma {:induction false} LastAcceptedBound(samples: seq<Sample>, capacity: nat) returns (last: Option<nat>)
    requires capacity > 0
    ensures last == LastAccepted(samples, capacity)
    ensures last.Some? ==> |samples| - SinceRestart(samples, capacity) < last.value <= |samples|
  {
    hide Accepted, Restarts, ObservedAll;
    last := LastAccepted(samples, capacity);
    if samples != [] {
      var before := LastAcceptedBound(samples[..|samples| - 1], capacity);
    }
  }

  /** That many samples: the refit they triggered was accepted, and every later one refused. */
  lemma {:induction false} LastAcceptedIsLast(samples: seq<Sample>, capacity: nat)
    requires capacity > 0
    ensures match LastAccepted(samples, capacity)
            case None =>
              forall i | |samples| - SinceRestart(samples, capacity) < i <= |samples| ::
                !Accepted(samples[..i], capacity)
            case Some(j) =>
              && |samples| - SinceRestart(samples, capacity) < j <= |samples|
              && Accepted(samples[..j], capacity)
              && forall i | j < i <= |samples| :: !Accepted(samples[..i], capacity)
  {
    hide Accepted, Restarts, ObservedAll;
    var last := LastAcceptedBound(samples, capacity);
    assert samples[..|samples|] == samples;
    if samples != [] && !Accepted(samples, capacity) {
      var init := samples[..|samples| - 1];
      LastAcceptedIsLast(init, capacity);
      assert forall i | 0 <= i <= |init| :: samples[..i] == init[..i];
    }
  }

  /**
   * In every run: a line is published if and only if some refit since the last restart was
   * accepted. It is then the least-squares line of the window of the latest of these, every later
   * one having been refused, and its period is within 3 % of nominal.
   */
  lemma Published(samples: seq<Sample>, capacity: nat)
    requires capacity >= MIN_SAMPLES
    ensures var st, from := ObservedAll(samples, capacity), |samples| - SinceRestart(samples, capacity);
            && (st.fit.Some? <==> exists j :: from < j <= |samples| && Accepted(samples[..j], capacity))
            && (st.fit.Some? ==>
                  exists j :: from < j <= |samples| && Accepted(samples[..j], capacity)
                    && (forall i | j < i <= |samples| :: !Accepted(samples[..i], capacity))
                    && st.basis == ObservedAll(samples[..j], capacity).window
                    && st.fit == LeastSquares(st.basis))
            && (st.fit.Some? ==> NOMINAL * 0.97 <= st.fit.value.period <= NOMINAL * 1.03)
  {
    hide Accepted, ObservedAll, SinceRestart, LastAccepted, LeastSquares;
    AllSound(samples, capacity);
    LastAcceptedIsLast(samples, capacity);
  }

  /**
   * While a line is published, the next sample restarts the axis, leaving itself as the only sample
   * and no line, if and only if it is more than a second off the line, early or late.
   */
  lemma RestartsExactly(samples: seq<Sample>, s: Sample, capacity: nat)
    requires capacity >= 16 && ObservedAll(samples, capacity).fit.Some?
    ensures var f, next := ObservedAll(samples, capacity).fit.value, ObservedAll(samples + [s], capacity);
            var line := f.ns + (s.microframe - f.reference) as real * f.period;
            (next.window == [s] && next.fit.None?)
            <==> (s.hostNs as real < line - 1000000000.0 || s.hostNs as real > line + 1000000000.0)
  {
    hide LeastSquares, ObservedAll, Observed, Restarts, SinceRestart, LatestSinceRestart, LastAccepted;
    var st := ObservedAll(samples, capacity);
    AllSound(samples, capacity);
    StepFacts(samples, s, capacity);
    ObservedFields(st, s, capacity);
    OffTheLine(st.fit.value, s);
    assert [] + [s] == [s];
  }

  lemma OffTheLine(f: Fit, s: Sample)
    ensures var line := f.ns + (s.microframe - f.reference) as real * f.period;
            Restarts(Some(f), s)
            <==> (s.hostNs as real < line - 1000000000.0 || s.hostNs as real > line + 1000000000.0)
  {
  }

  // ---------------------------------------------------------------------------------------
  // When the published line fits the current window

  /** The normal equations. */
  ghost predicate Solves(w: seq<Sample>, f: Fit) {
    ResidualSum(w, f) == 0.0 && MomentSum(w, f) == 0.0
  }

  ghost predicate Coincide(w: seq<Sample>) {
    forall i, j | 0 <= i < |w| && 0 <= j < |w| :: w[i].microframe == w[j].microframe
  }

  lemma ProductOfSum(a: real, b: real, r: real)
    ensures (a + b) * r == a * r + b * r
  {
  }

  /** The same line seen from another reference. */
  lemma {:induction false} Moved(w: seq<Sample>, f: Fit, g: Fit)
    requires forall s: Sample :: g.Residual(s) == f.Residual(s)
    ensures ResidualSum(w, g) == ResidualSum(w, f)
    ensures MomentSum(w, g) == MomentSum(w, f) + (f.reference - g.reference) as real * ResidualSum(w, f)
  {
    hide Fit.Residual, Fit.At;
    if w != [] {
      var init, s := w[..|w| - 1], w[|w| - 1];
      var d, x, r := (f.reference - g.reference) as real, (s.microframe - f.reference) as real, f.Residual(s);
      Moved(init, f, g);
      ProductOfSum(x, d, r);
      assert (s.microframe - g.reference) as real == x + d;
      MulAdd(d, ResidualSum(init, f), r);
    }
  }

  lemma Rebased(f: Fit, base: Sample, s: Sample)
    ensures Fit(base.microframe, f.At(base.microframe), f.period).Residual(s) == f.Residual(s)
  {
    var x, y := (s.microframe - base.microframe) as real, (base.microframe - f.reference) as real;
    assert (s.microframe - f.reference) as real == x + y;
    ProductOfSum(x, y, f.period);
  }

  /** Where the microframes differ, the normal equations leave one period. */
  lemma PeriodOfSums(t: Sums, n: real, a: real, p: real)
    requires n > 0.0 && FirstEquation(t, n, a, p) == 0.0 && SecondEquation(t, a, p) == 0.0
    ensures p * Determinant(t, n) == n * t.xy - t.x * t.y
  {
    MulAdd(n, t.xy - a * t.x, p * t.xx);
    MulAdd(n, t.xy, a * t.x);
    assert n * (a * t.x) == (n * a) * t.x;
    assert n * a == t.y - p * t.x;
    MulAdd(t.x, t.y, p * t.x);
    assert (t.y - p * t.x) * t.x == t.x * t.y - t.x * (p * t.x);
    MulAdd(p, n * t.xx, t.x * t.x);
    assert n * (p * t.xx) == p * (n * t.xx);
    assert t.x * (p * t.x) == p * (t.x * t.x);
  }

  lemma QuotientIs(p: real, d: real, c: real)
    requires d > 0.0 && p * d == c
    ensures c / d == p
  {
  }

  lemma SolutionIsUnique(w: seq<Sample>, f: Fit)
    requires w != [] && Solves(w, f) && Determinant(Total(w, w[0]), |w| as real) > 0.0
    ensures f.period == Slope(Total(w, w[0]), |w| as real)
  {
    hide Fit.Residual, Fit.At, Total, ResidualSum, MomentSum, Determinant;
    var base, t, n := w[0], Total(w, w[0]), |w| as real;
    var a := f.At(base.microframe) - base.hostNs as real;
    var g := Fit(base.microframe, base.hostNs as real + a, f.period);
    assert g == Fit(base.microframe, f.At(base.microframe), f.period);
    forall s: Sample ensures g.Residual(s) == f.Residual(s) {
      Rebased(f, base, s);
    }
    Moved(w, f, g);
    ResidualsOfSums(w, base, a, f.period);
    PeriodOfSums(t, n, a, f.period);
    QuotientIs(f.period, Determinant(t, n), n * t.xy - t.x * t.y);
  }

  /** How far the microframes of a window lie from d, in squares. */
  function Spread(w: seq<Sample>, base: Sample, d: real): real {
    if w == [] then 0.0
    else Spread(w[..|w| - 1], base, d) + SquareAbout(w[|w| - 1], base, d)
  }

  function SquareAbout(s: Sample, base: Sample, d: real): real {
    var e := (s.microframe - base.microframe) as real - d;
    Times(e, e)
  }

  function Times(a: real, b: real): real {
    a * b
  }

  function SpreadOfSums(t: Sums, n: real, d: real): real {
    t.xx - 2.0 * (d * t.x) + n * (d * d)
  }

  lemma SpreadAdds(t: Sums, n: real, d: real, base: Sample, s: Sample)
    ensures SpreadOfSums(t.Add(s, base), n + 1.0, d) == SpreadOfSums(t, n, d) + SquareAbout(s, base, d)
  {
    var x := (s.microframe - base.microframe) as real;
    MulAdd(d, t.x, x);
    ProductOfSum(n, 1.0, d * d);
    assert (x - d) * (x - d) == x * x - 2.0 * (d * x) + d * d;
  }

  lemma {:induction false} SpreadIs(w: seq<Sample>, base: Sample, d: real)
    ensures Spread(w, base, d) == SpreadOfSums(Total(w, base), |w| as real, d)
    ensures Spread(w, base, d) >= 0.0
    ensures Spread(w, base, d) == 0.0
            <==> forall i | 0 <= i < |w| :: (w[i].microframe - base.microframe) as real == d
  {
    hide Sums.Add, SpreadOfSums, SquareAbout;
    if w == [] {
      NoSpread(d);
    } else {
      var init, s := w[..|w| - 1], w[|w| - 1];
      SpreadIs(init, base, d);
      SpreadAdds(Total(init, base), |init| as real, d, base, s);
      assert |w| as real == |init| as real + 1.0;
      SquareAboutIs(s, base, d);
      assert forall i | 0 <= i < |init| :: init[i] == w[i];
      assert forall i | 0 <= i < |w| :: i < |init| || w[i] == s;
    }
  }

  lemma NoSpread(d: real)
    ensures SpreadOfSums(Sums(0.0, 0.0, 0.0, 0.0), 0.0, d) == 0.0
  {
  }

  lemma ProductSign(a: real, b: real)
    requires a > 0.0 && b > 0.0
    ensures Times(a, b) > 0.0
  {
  }

  lemma SquareSigns(e: real)
    ensures e == 0.0 ==> Times(e, e) == 0.0
    ensures Times(-e, -e) == Times(e, e)
  {
  }

  lemma SquareAboutIs(s: Sample, base: Sample, d: real)
    ensures SquareAbout(s, base, d) >= 0.0
    ensures SquareAbout(s, base, d) == 0.0 <==> (s.microframe - base.microframe) as real == d
  {
    hide Times;
    var e := (s.microframe - base.microframe) as real - d;
    SquareSigns(e);
    if e > 0.0 {
      ProductSign(e, e);
    } else if e < 0.0 {
      ProductSign(-e, -e);
    }
  }

  lemma DeterminantAdds(t: Sums, n: real, base: Sample, s: Sample)
    ensures Determinant(t.Add(s, base), n + 1.0)
            == Determinant(t, n) + SpreadOfSums(t, n, (s.microframe - base.microframe) as real)
  {
    var d := (s.microframe - base.microframe) as real;
    ProductOfSum(n, 1.0, t.xx + d * d);
    MulAdd(n, t.xx, d * d);
    assert (t.x + d) * (t.x + d) == t.x * t.x + 2.0 * (d * t.x) + d * d;
  }

  /** The determinant is never negative, and zero only when all microframes coincide. */
  lemma {:induction false} DeterminantSign(w: seq<Sample>, base: Sample)
    ensures Determinant(Total(w, base), |w| as real) >= 0.0
    ensures Determinant(Total(w, base), |w| as real) == 0.0 <==> Coincide(w)
  {
    hide Sums.Add, SpreadOfSums, Determinant, Coincide;
    if w == [] {
      NoDeterminant();
    } else {
      var init, s := w[..|w| - 1], w[|w| - 1];
      DeterminantSign(init, base);
      DeterminantAdds(Total(init, base), |init| as real, base, s);
      assert |w| as real == |init| as real + 1.0;
      var d := (s.microframe - base.microframe) as real;
      SpreadIs(init, base, d);
      CoincideSnoc(init, s);
      assert w == init + [s];
      assert forall i | 0 <= i < |init| ::
          (init[i].microframe - base.microframe) as real == d <==> init[i].microframe == s.microframe;
    }
  }

  lemma NoDeterminant()
    ensures Determinant(Sums(0.0, 0.0, 0.0, 0.0), 0.0) == 0.0 && Coincide([])
  {
  }

  lemma CoincideSnoc(init: seq<Sample>, s: Sample)
    ensures Coincide(init + [s]) <==>
              Coincide(init) && forall i | 0 <= i < |init| :: init[i].microframe == s.microframe
  {
    var w := init + [s];
    if Coincide(w) {
      assert forall i | 0 <= i < |init| :: w[i] == init[i];
      forall i | 0 <= i < |init| ensures init[i].microframe == s.microframe {
        assert w[i].microframe == w[|init|].microframe;
      }
    }
  }

  /**
   * A refit is accepted if and only if there are sixteen samples, not all of one microframe, and a
   * line solves the normal equations whose period is within 3 % of 125 us.
   */
  lemma AcceptedExactly(samples: seq<Sample>, capacity: nat)
    requires capacity >= 16
    ensures var w := ObservedAll(samples, capacity).window;
            Accepted(samples, capacity) <==>
              && |w| >= 16 && !Coincide(w)
              && exists f: Fit :: Solves(w, f) && 121250.0 <= f.period <= 128750.0
  {
    hide ObservedAll, LeastSquares, Solves, Coincide;
    var w := ObservedAll(samples, capacity).window;
    if |w| >= 16 {
      LeastSquaresExactly(w);
    }
  }

  lemma LeastSquaresExactly(w: seq<Sample>)
    requires w != []
    ensures LeastSquares(w).Some? <==>
              !Coincide(w) && exists f: Fit :: Solves(w, f) && 121250.0 <= f.period <= 128750.0
  {
    hide Total, Determinant, Slope, Intercept, Coincide, ResidualSum, MomentSum;
    DeterminantSign(w, w[0]);
    if LeastSquares(w).Some? {
      NormalEquations(w);
      assert Solves(w, LeastSquares(w).value);
    }
    forall f: Fit | !Coincide(w) && Solves(w, f) && 121250.0 <= f.period <= 128750.0
      ensures LeastSquares(w).Some?
    {
      SolutionIsUnique(w, f);
    }
  }

  /** In a window of one microframe the moments follow the residuals. */
  lemma {:induction false} CoincidentMoments(w: seq<Sample>, f: Fit, m: int)
    requires forall i | 0 <= i < |w| :: w[i].microframe == m
    ensures MomentSum(w, f) == (m - f.reference) as real * ResidualSum(w, f)
  {
    hide Fit.Residual, Fit.At;
    if w != [] {
      var init, s := w[..|w| - 1], w[|w| - 1];
      CoincidentMoments(init, f, m);
      MulAdd((m - f.reference) as real, ResidualSum(init, f), f.Residual(s));
    }
  }

  /** A plausible line of a window whose refit was refused. */
  lemma RefusedWindow(w: seq<Sample>, f: Fit)
    requires w != [] && LeastSquares(w).None? && NOMINAL * 0.97 <= f.period <= NOMINAL * 1.03
    ensures Solves(w, f) <==> Coincide(w) && ResidualSum(w, f) == 0.0
  {
    hide Total, Determinant, Slope, Intercept, ResidualSum, MomentSum, Coincide;
    DeterminantSign(w, w[0]);
    if Coincide(w) {
      CoincideFirst(w);
      CoincidentMoments(w, f, w[0].microframe);
    } else if Solves(w, f) {
      SolutionIsUnique(w, f);
    }
  }

  lemma CoincideFirst(w: seq<Sample>)
    requires w != [] && Coincide(w)
    ensures forall i | 0 <= i < |w| :: w[i].microframe == w[0].microframe
  {
  }

  /**
   * A published line satisfies the normal equations of the current window if and only if the refit
   * that the last sample triggered was accepted, or all microframes of the window coincide and the
   * residuals sum to zero.
   */
  lemma FitIsCurrent(samples: seq<Sample>, capacity: nat)
    requires capacity >= MIN_SAMPLES && ObservedAll(samples, capacity).fit.Some?
    ensures var st := ObservedAll(samples, capacity);
            Solves(st.window, st.fit.value)
            <==> Accepted(samples, capacity)
                 || (Coincide(st.window) && ResidualSum(st.window, st.fit.value) == 0.0)
  {
    hide LeastSquares, ResidualSum, MomentSum, Coincide, ObservedAll, SinceRestart;
    AllSound(samples, capacity);
    Published(samples, capacity);
    var st := ObservedAll(samples, capacity);
    if Accepted(samples, capacity) {
      AcceptedNow(samples, capacity);
      NormalEquations(st.window);
    } else {
      RefusedWindow(st.window, st.fit.value);
    }
  }

  lemma AcceptedNow(samples: seq<Sample>, capacity: nat)
    requires capacity >= MIN_SAMPLES && Accepted(samples, capacity)
    ensures var st := ObservedAll(samples, capacity); st.fit == LeastSquares(st.window)
  {
    hide LeastSquares, Restarts;
  }

  /** Samples exactly on the nominal line. */
  function Line(start: nat, n: nat): (w: seq<Sample>)
    ensures |w| == n
  {
    if n == 0 then [] else Line(start, n - 1) + [OnLine(start + n - 1)]
  }

  function OnLine(m: nat): Sample {
    Sample(m, PERIOD_NS * m)
  }

  function SumTo(n: nat): nat {
    if n == 0 then 0 else SumTo(n - 1) + (n - 1)
  }

  function SquaresTo(n: nat): nat {
    if n == 0 then 0 else SquaresTo(n - 1) + (n - 1) * (n - 1)
  }

  /** The sums over n samples on the line. */
  function LineSums(n: nat): Sums {
    Sums(SumTo(n) as real, NOMINAL * SumTo(n) as real,
         SquaresTo(n) as real, NOMINAL * SquaresTo(n) as real)
  }

  lemma LineAdd(start: nat, i: nat)
    ensures LineSums(i).Add(OnLine(start + i), OnLine(start)) == LineSums(i + 1)
  {
    var x := i as real;
    assert (PERIOD_NS * (start + i) - PERIOD_NS * start) as real == NOMINAL * x;
    assert x * (NOMINAL * x) == NOMINAL * (x * x);
    assert (i * i) as real == x * x;
  }

  lemma {:induction false} LineTotal(start: nat, n: nat)
    ensures Total(Line(start, n), OnLine(start)) == LineSums(n)
  {
    hide Sums.Add, OnLine;
    if n > 0 {
      LineTotal(start, n - 1);
      assert Line(start, n)[..n - 1] == Line(start, n - 1);
      LineAdd(start, n - 1);
    }
  }

  lemma SumsTo16()
    ensures SumTo(15) == 105 && SumTo(16) == 120 && SquaresTo(15) == 1015 && SquaresTo(16) == 1240
  {
    assert SumTo(5) == 10 && SumTo(10) == 45;
    assert SquaresTo(5) == 30 && SquaresTo(10) == 285;
  }

  lemma {:induction false} LineTail(start: nat, n: nat)
    requires n > 0
    ensures Line(start, n) == [OnLine(start)] + Line(start + 1, n - 1)
  {
    if n > 1 {
      LineTail(start, n - 1);
    }
  }

  lemma {:induction false} ShortLine(n: nat)
    requires n < MIN_SAMPLES
    ensures ObservedAll(Line(0, n), MIN_SAMPLES) == State(None, Line(0, n), [])
  {
    if n > 0 {
      ShortLine(n - 1);
      assert Line(0, n)[..n - 1] == Line(0, n - 1);
    }
  }

  const STEADY := Fit(0, 0.0, NOMINAL)

  lemma SteadyLine()
    ensures LeastSquares(Line(0, 16)) == Some(STEADY)
  {
    hide Line, Total;
    LineTotal(0, 16);
    LineTail(0, 16);
    SumsTo16();
  }

  lemma SteadyFit()
    ensures ObservedAll(Line(0, 16), MIN_SAMPLES) == State(Some(STEADY), Line(0, 16), Line(0, 16))
  {
    hide Line, LeastSquares;
    SteadyLine();
    ShortLine(15);
    LineStep(0, 15);
  }

  lemma LineStep(start: nat, n: nat)
    ensures Line(start, n + 1)[..n] == Line(start, n) && Line(start, n + 1)[n] == OnLine(start + n)
    ensures Line(start, n + 1) == Line(start, n) + [OnLine(start + n)]
  {
  }

  /** Sixteen steady samples and then one that is nine tenths of a second late. */
  function StaleRun(): seq<Sample> {
    Line(0, 16) + [Late()]
  }

  function Late(): Sample {
    Sample(16, 16 * PERIOD_NS + 900000000)
  }

  lemma LateWindow()
    ensures LeastSquares(Line(1, 15) + [Late()]) == None
  {
    hide Line;
    var w := Line(1, 15) + [Late()];
    LineTail(1, 15);
    assert w[..15] == Line(1, 15) && w[0] == OnLine(1);
    LineTotal(1, 15);
    SumsTo16();
  }

  lemma {:induction false} LineResiduals(start: nat, n: nat)
    ensures ResidualSum(Line(start, n), STEADY) == 0.0
  {
    if n > 0 {
      LineResiduals(start, n - 1);
      assert Line(start, n)[..n - 1] == Line(start, n - 1);
    }
  }

  lemma LateResidual()
    ensures STEADY.Residual(Late()) == 900000000.0
  {
  }

  lemma LateStep()
    ensures ObservedAll(StaleRun(), MIN_SAMPLES) == Observed(ObservedAll(Line(0, 16), MIN_SAMPLES), Late(), MIN_SAMPLES)
  {
    hide Line, Observed;
    assert StaleRun()[..16] == Line(0, 16);
  }

  /**
   * A published line need not fit the current window: here the refit that the late sample triggers
   * is refused, the line of the sixteen steady samples stays, and the equations fail by 0.9 s.
   */
  lemma FitCanBeStale()
    ensures var st := ObservedAll(StaleRun(), MIN_SAMPLES);
            && st.fit == Some(STEADY) && st.basis == Line(0, 16)
            && st.window == Line(1, 15) + [Late()]
            && ResidualSum(st.window, STEADY) == 900000000.0 && !Solves(st.window, STEADY)
  {
    hide Line, LeastSquares, ObservedAll;
    SteadyFit();
    LateWindow();
    LateStep();
    LineTail(0, 16);
    assert (Line(0, 16) + [Late()])[1..] == Line(1, 15) + [Late()];
    LineResiduals(1, 15);
    assert (Line(1, 15) + [Late()])[..15] == Line(1, 15);
    LateResidual();
  }

  // ---------------------------------------------------------------------------------------
  // The two conversions

  lemma Within(a: real, p: real, k: real)
    requires p > 1.0 && -0.5 <= a - k * p <= 0.5
    ensures -0.5 < a / p - k < 0.5
  {
    var q := a / p;
    assert q * p == a;
    var e := q - k;
    assert e * p == a - k * p by {
      MulAdd(p, q, -k);
    }
    SmallFactor(e, p);
  }

  lemma MulGrows(a: real, b: real, p: real)
    requires p > 0.0
    ensures a >= b ==> a * p >= b * p
  {
  }

  lemma SmallFactor(e: real, p: real)
    requires p > 1.0 && -0.5 <= e * p <= 0.5
    ensures -0.5 < e < 0.5
  {
    MulGrows(e, 0.5, p);
    MulGrows(-0.5, e, p);
  }

  lemma RoundsTo(x: real, n: int)
    requires -0.5 < x - n as real < 0.5
    ensures Round(x) == n
  {
    var r := Round(x);
    assert -1.0 < (r - n) as real < 1.0;
  }

  /** Converting a microframe to host time and back gives the microframe, fitted or not. */
  lemma Inverts(fit: Option<Fit>, origin: int, microframe: nat)
    requires microframe < WORD64
    requires fit.Some? ==> fit.value.period > 1.0
    ensures AnchorFor(fit, origin, HostTimeOf(fit, origin, microframe)) == microframe
  {
    hide Round;
    match fit
    case None =>
      assert microframe * PERIOD_NS / PERIOD_NS == microframe;
    case Some(f) =>
      FittedInverts(f, microframe);
  }

  lemma FittedInverts(f: Fit, microframe: int)
    requires f.period > 1.0
    ensures Round((Round(f.At(microframe)) as real - f.ns) / f.period) == microframe - f.reference
  {
    var k := microframe - f.reference;
    var x := f.At(microframe);
    var when := Round(x);
    assert -0.5 <= when as real - x <= 0.5;
    assert x == f.ns + k as real * f.period;
    Within(when as real - f.ns, f.period, k as real);
    RoundsTo((when as real - f.ns) / f.period, k);
  }

  lemma AtOffset(f: Fit, m: int, q: real, when: int)
    requires q * f.period == when as real - f.ns
    ensures f.At(m) - when as real == ((m - f.reference) as real - q) * f.period
  {
    var x := (m - f.reference) as real;
    ProductOfSum(q, x - q, f.period);
    assert q + (x - q) == x;
  }

  lemma NearestInteger(q: real, k: int, n: int)
    requires -0.5 <= k as real - q <= 0.5
    ensures Abs(k as real - q) <= Abs(n as real - q)
  {
    if n > k {
      assert n as real >= k as real + 1.0;
    } else if n < k {
      assert n as real <= k as real - 1.0;
    }
  }

  lemma AbsProduct(e: real, p: real)
    requires p > 0.0
    ensures Abs(e * p) == Abs(e) * p
  {
    MulGrows(e, 0.0, p);
    MulGrows(0.0, e, p);
  }

  /** Of all microframes, none lies nearer to a host time than the one the fitted line gives. */
  lemma NearestMicroframe(f: Fit, when: int, other: int)
    requires f.period > 1.0
    ensures var m := f.reference + Round((when as real - f.ns) / f.period);
            && Abs(f.At(m) - when as real) <= f.period / 2.0
            && Abs(f.At(m) - when as real) <= Abs(f.At(other) - when as real)
  {
    hide Fit.At, Abs, Round;
    var q := (when as real - f.ns) / f.period;
    var k := Round(q);
    var e, d := k as real - q, (other - f.reference) as real - q;
    AtOffset(f, f.reference + k, q, when);
    AtOffset(f, other, q, when);
    assert f.reference + k - f.reference == k;
    assert f.At(f.reference + k) - when as real == e * f.period;
    assert f.At(other) - when as real == d * f.period;
    NearestInteger(q, k, other - f.reference);
    AtMostHalf(e);
    ScaledNearest(f.At(f.reference + k) - when as real, f.At(other) - when as real, e, d, f.period);
  }

  lemma ScaledNearest(x: real, y: real, e: real, d: real, p: real)
    requires p > 0.0 && x == e * p && y == d * p && Abs(e) <= 0.5 && Abs(e) <= Abs(d)
    ensures Abs(x) <= p / 2.0 && Abs(x) <= Abs(y)
  {
    hide Abs;
    AbsProduct(e, p);
    AbsProduct(d, p);
    MulGrows(0.5, Abs(e), p);
    MulGrows(Abs(d), Abs(e), p);
  }

  lemma AtMostHalf(e: real)
    requires -0.5 <= e <= 0.5
    ensures Abs(e) <= 0.5
  {
  }

  lemma RoundNear(f: Fit, m: int)
    ensures Abs(Round(f.At(m)) as real - f.At(m)) <= 0.5
  {
  }

  lemma LastBefore(d: int)
    requires d >= 0
    ensures 0 <= d - Truncated(d, PERIOD_NS) * PERIOD_NS < PERIOD_NS
  {
  }

  lemma Unwrapped(m: int)
    requires 0 <= m < WORD64
    ensures m % WORD64 == m
  {
  }

  /**
   * The host time of the microframe answered is within half a period of the one asked for, plus the
   * rounding to nanoseconds; before a fit it is the last one not after it. This is short of the
   * 64-bit wrap-around.
   */
  lemma AnchorIsNearest(fit: Option<Fit>, origin: int, when: int)
    requires fit.Some? ==> fit.value.period > 1.0
    requires fit.None? ==> 0 <= Truncated(when - origin, PERIOD_NS) < WORD64 && origin <= when
    requires fit.Some? ==>
      0 <= fit.value.reference + Round((when as real - fit.value.ns) / fit.value.period) < WORD64
    ensures var late := when - HostTimeOf(fit, origin, AnchorFor(fit, origin, when));
            && (fit.None? ==> 0 <= late < PERIOD_NS)
            && (fit.Some? ==> Abs(late as real) <= fit.value.period / 2.0 + 0.5)
  {
    hide Round, Truncated, Fit.At;
    match fit
    case None =>
      LastBefore(when - origin);
      Unwrapped(Truncated(when - origin, PERIOD_NS));
    case Some(f) =>
      var m := f.reference + Round((when as real - f.ns) / f.period);
      NearestMicroframe(f, when, m);
      RoundNear(f, m);
      Unwrapped(m);
  }

  /** Before a fit, times before the origin count backwards from 2^64, in whole microframes. */
  lemma AnchorBeforeOrigin(origin: int, when: int)
    requires when < origin
    ensures (AnchorFor(None, origin, when) + (origin - when) / 125000) % 0x1_0000_0000_0000_0000 == 0
  {
    Complement((origin - when) / 125000);
  }

  lemma Complement(q: int)
    ensures ((-q) % WORD64 + q) % WORD64 == 0
  {
    var k := (-q) / WORD64;
    assert (-q) % WORD64 + q == WORD64 * (-k);
  }

  /** The host time is the fitted line's, to the nanosecond, or counted in 125 us from the origin. */
  lemma HostTimeIs(fit: Option<Fit>, origin: int, microframe: int)
    ensures var host := HostTimeOf(fit, origin, microframe);
            && (fit.None? ==> host == origin + 125000 * microframe)
            && (fit.Some? ==>
                  var line := fit.value.ns + (microframe - fit.value.reference) as real * fit.value.period;
                  -0.5 <= host as real - line <= 0.5)
  {
    hide Round, Fit.At;
    if fit.Some? {
      AtIs(fit.value, microframe);
      assert HostTimeOf(fit, origin, microframe) == Round(fit.value.At(microframe));
    }
  }

  lemma AtIs(f: Fit, m: int)
    ensures f.At(m) == f.ns + (m - f.reference) as real * f.period
  {
  }

  /** Halves are rounded away from zero. */
  lemma HalvesAwayFromZero(n: nat)
    ensures Round(n as real + 0.5) == n + 1 && Round(-(n as real) - 0.5) == -(n + 1)
  {
  }

  /** In every reachable state: the conversions invert. */
  lemma ReachableInverts(samples: seq<Sample>, capacity: nat, origin: int, microframe: nat)
    requires capacity >= MIN_SAMPLES && microframe < WORD64
    ensures var fit := ObservedAll(samples, capacity).fit;
            && (fit.Some? ==> fit.value.period > 1.0)
            && AnchorFor(fit, origin, HostTimeOf(fit, origin, microframe)) == microframe
  {
    hide AnchorFor, HostTimeOf, LeastSquares, ObservedAll, SinceRestart;
    AllSound(samples, capacity);
    Inverts(ObservedAll(samples, capacity).fit, origin, microframe);
  }
}
