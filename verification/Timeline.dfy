/**
 * The host's time axis: a sliding-window least-squares line from microframes to host nanoseconds.
 * The doubles of the original are mathematical reals here.
 */
module Timelines {
  import opened Options

  const NOMINAL := 125000.0
  const PERIOD_NS := 125000
  const WORD64 := 0x1_0000_0000_0000_0000
  const RESTART_NS := 1000000000.0
  const MIN_SAMPLES := 16

  datatype Sample = Sample(microframe: int, hostNs: int)

  /** The line through (reference, ns) with this period. */
  datatype Fit = Fit(reference: int, ns: real, period: real) {
    function At(microframe: int): real {
      ns + (microframe - reference) as real * period
    }

    function Residual(s: Sample): real {
      s.hostNs as real - At(s.microframe)
    }
  }

  function Abs(x: real): real {
    if x < 0.0 then -x else x
  }

  /** llround: to the nearest integer, halves away from zero. */
  function Round(x: real): (n: int)
    ensures -0.5 <= n as real - x <= 0.5
  {
    if x >= 0.0 then (x + 0.5).Floor else -((0.5 - x).Floor)
  }

  /** Integer division of C++, which truncates. */
  function Truncated(a: int, b: int): int
    requires b > 0
  {
    if a >= 0 then a / b else -((-a) / b)
  }

  // ---------------------------------------------------------------------------------------
  // Least squares

  datatype Sums = Sums(x: real, y: real, xx: real, xy: real) {
    function Add(s: Sample, base: Sample): Sums {
      var dx, dy := (s.microframe - base.microframe) as real, (s.hostNs - base.hostNs) as real;
      Sums(x + dx, y + dy, xx + dx * dx, xy + dx * dy)
    }
  }

  function Total(w: seq<Sample>, base: Sample): Sums {
    if w == [] then Sums(0.0, 0.0, 0.0, 0.0) else Total(w[..|w| - 1], base).Add(w[|w| - 1], base)
  }

  function Determinant(t: Sums, n: real): real {
    n * t.xx - t.x * t.x
  }

  function Slope(t: Sums, n: real): real
    requires Determinant(t, n) > 0.0
  {
    (n * t.xy - t.x * t.y) / Determinant(t, n)
  }

  function Intercept(t: Sums, n: real, period: real): real
    requires n > 0.0
  {
    (t.y - period * t.x) / n
  }

  /** The line the sums give, if they determine one with a plausible period. */
  function FitOf(t: Sums, n: real, base: Sample): (fit: Option<Fit>)
    requires n > 0.0
    ensures fit.Some? ==> NOMINAL * 0.97 <= fit.value.period <= NOMINAL * 1.03
  {
    if Determinant(t, n) <= 0.0 then None
    else
      var period := Slope(t, n);
      if period < NOMINAL * 0.97 || period > NOMINAL * 1.03 then None
      else Some(Fit(base.microframe, base.hostNs as real + Intercept(t, n, period), period))
  }

  function LeastSquares(w: seq<Sample>): (fit: Option<Fit>)
    requires w != []
    ensures fit.Some? ==> NOMINAL * 0.97 <= fit.value.period <= NOMINAL * 1.03
  {
    FitOf(Total(w, w[0]), |w| as real, w[0])
  }

  // ---------------------------------------------------------------------------------------
  // The state

  /** `basis` is the window the published fit was computed from; no step depends on it. */
  datatype State = State(fit: Option<Fit>, window: seq<Sample>, basis: seq<Sample>)

  function Start(): State {
    State(None, [], [])
  }

  /** A sample more than a second off the line means that the axis was restarted. */
  predicate Restarts(fit: Option<Fit>, s: Sample) {
    fit.Some? && Abs(fit.value.Residual(s)) > RESTART_NS
  }

  function Latest(w: seq<Sample>, capacity: nat): (v: seq<Sample>)
    ensures |v| == if |w| <= capacity then |w| else capacity
  {
    if |w| <= capacity then w else w[|w| - capacity..]
  }

  function Observed(st: State, s: Sample, capacity: nat): (next: State)
    requires capacity > 0
  {
    var kept := if Restarts(st.fit, s) then Start() else st;
    var window := Latest(kept.window + [s], capacity);
    if |window| < MIN_SAMPLES then kept.(window := window)
    else
      match LeastSquares(window)
      case None => kept.(window := window)
      case Some(fit) => State(Some(fit), window, window)
  }

  function HostTimeOf(fit: Option<Fit>, origin: int, microframe: int): int {
    match fit
    case None => origin + microframe * PERIOD_NS
    case Some(f) => Round(f.At(microframe))
  }

  function AnchorFor(fit: Option<Fit>, origin: int, when: int): nat
    requires fit.Some? ==> fit.value.period > 0.0
  {
    match fit
    case None => Truncated(when - origin, PERIOD_NS) % WORD64
    case Some(f) => (f.reference + Round((when as real - f.ns) / f.period)) % WORD64
  }

  class Timeline {
    const origin: int
    const samples: array<Sample>
    var fitted: bool
    var fitReferenceMicroframe: int
    var fitReferenceNs: real
    var fitPeriodNs: real
    var sampleHead: nat
    var sampleCount: nat
    ghost var basis: seq<Sample>

    ghost predicate Valid()
      reads this, samples
    {
      && samples.Length >= MIN_SAMPLES && sampleHead < samples.Length && sampleCount <= samples.Length
      && (fitted ==> NOMINAL * 0.97 <= fitPeriodNs <= NOMINAL * 1.03)
    }

    ghost function Window(): (w: seq<Sample>)
      requires Valid()
      reads this, samples
      ensures |w| == sampleCount
    {
      seq(sampleCount, (i: int) requires 0 <= i < sampleCount && Valid() reads this, samples => 
        samples[SlotAt(sampleHead, i, samples.Length)])
    }

    ghost function View(): State
      requires Valid()
      reads this, samples
    {
      State(if fitted then Some(Fit(fitReferenceMicroframe, fitReferenceNs, fitPeriodNs)) else None, Window(), basis)
    }

    constructor (origin: int, capacity: nat)
      requires capacity >= MIN_SAMPLES
      ensures Valid() && fresh(samples) && samples.Length == capacity && View() == Start()
    {
      this.origin := origin;
      samples := new Sample[capacity](_ => Sample(0, 0));
      fitted, fitReferenceMicroframe, fitReferenceNs, fitPeriodNs := false, 0, 0.0, 0.0;
      sampleHead, sampleCount, basis := 0, 0, [];
    }

    method Observe(microframe: int, sampledAt: int)
      requires Valid()
      modifies this, samples
      ensures Valid() && View() == Observed(old(View()), Sample(microframe, sampledAt), samples.Length)
    {
      hide Fit.At, LeastSquares;
      if fitted {
        var predicted := Fit(fitReferenceMicroframe, fitReferenceNs, fitPeriodNs).At(microframe);
        if Abs(sampledAt as real - predicted) > RESTART_NS {
          sampleHead, sampleCount, fitted := 0, 0, false;
          basis := [];
          assert Window() == [];
        }
      }
      ghost var kept := View();
      assert kept == if Restarts(old(View()).fit, Sample(microframe, sampledAt)) then Start() else old(View());
      Append(Sample(microframe, sampledAt));
      assert View() == kept.(window := Window());
      if sampleCount >= MIN_SAMPLES {
        Refit();
      }
    }

    method Append(s: Sample)
      requires Valid()
      modifies `sampleHead, `sampleCount, samples
      ensures Valid() && Window() == Latest(old(Window()) + [s], samples.Length) && sampleCount > 0
    {
      ghost var before := Window();
      hide SlotAt;
      samples[SlotAt(sampleHead, sampleCount, samples.Length)] := s;
      if sampleCount < samples.Length {
        sampleCount := sampleCount + 1;
        forall i | 0 <= i < sampleCount ensures Window()[i] == (before + [s])[i] {
        }
        assert Window() == before + [s];
      } else {
        sampleHead := SlotAt(sampleHead, 1, samples.Length);
        forall i | 0 <= i < sampleCount ensures Window()[i] == (before + [s])[i + 1] {
        }
        assert Window() == (before + [s])[1..];
      }
    }

    method Refit()
      requires Valid() && sampleCount > 0
      modifies `fitted, `fitReferenceMicroframe, `fitReferenceNs, `fitPeriodNs, `basis
      ensures Valid() && Window() == old(Window())
      ensures View() == match LeastSquares(Window())
                        case None => old(View())
                        case Some(fit) => State(Some(fit), Window(), Window())
    {
      hide Total, SlotAt, Determinant, Slope, Intercept;
      ghost var w := Window();
      TotalNone(samples[sampleHead]);
      var base := samples[sampleHead];
      assert base == w[0];
      var sumX, sumY, sumXX, sumXY := 0.0, 0.0, 0.0, 0.0;
      for index := 0 to sampleCount
        invariant unchanged(this) && unchanged(samples)
        invariant Total(w[..index], base) == Sums(sumX, sumY, sumXX, sumXY)
      {
        var sample := samples[SlotAt(sampleHead, index, samples.Length)];
        assert w[index] == sample;
        TotalStep(w, base, index);
        var x := (sample.microframe - base.microframe) as real;
        var y := (sample.hostNs - base.hostNs) as real;
        sumX := sumX + x;
        sumY := sumY + y;
        sumXX := sumXX + x * x;
        sumXY := sumXY + x * y;
      }
      assert w[..sampleCount] == w;
      var count := sampleCount as real;
      var sums := Sums(sumX, sumY, sumXX, sumXY);
      if Determinant(sums, count) <= 0.0 {
        return;
      }
      var period := Slope(sums, count);
      if period < NOMINAL * 0.97 || period > NOMINAL * 1.03 {
        return;
      }
      var intercept := Intercept(sums, count, period);
      fitReferenceMicroframe := base.microframe;
      fitReferenceNs := base.hostNs as real + intercept;
      fitPeriodNs := period;
      fitted := true;
      basis := w;
      assert Window() == w;
    }

    method GetAnchorFor(when: int) returns (microframe: nat)
      requires Valid()
      ensures microframe == AnchorFor(View().fit, origin, when)
    {
      if !fitted {
        return Truncated(when - origin, PERIOD_NS) % WORD64;
      }
      var offset := when as real - fitReferenceNs;
      return (fitReferenceMicroframe + Round(offset / fitPeriodNs)) % WORD64;
    }

    method GetHostTimeOf(microframe: nat) returns (when: int)
      requires Valid()
      ensures when == HostTimeOf(View().fit, origin, microframe)
    {
      if !fitted {
        return origin + microframe * PERIOD_NS;
      }
      return Round(fitReferenceNs + (microframe - fitReferenceMicroframe) as real * fitPeriodNs);
    }
  }

  /** The index-th slot from the head on, around the end of the array. */
  function SlotAt(head: nat, index: nat, capacity: nat): (slot: nat)
    requires head < capacity && index <= capacity
    ensures slot == if head + index < capacity then head + index else head + index - capacity
  {
    (head + index) % capacity
  }

  lemma TotalNone(base: Sample)
    ensures Total([], base) == Sums(0.0, 0.0, 0.0, 0.0)
  {
  }

  lemma TotalStep(w: seq<Sample>, base: Sample, index: nat)
    requires index < |w|
    ensures Total(w[..index + 1], base) == Total(w[..index], base).Add(w[index], base)
  {
    assert w[..index + 1][..index] == w[..index];
  }
}
