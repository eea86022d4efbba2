/** The tone check of the softphone demo, over the reals: a Goertzel filter against the plain
    discrete Fourier sum, and the thresholds that accept a recording. */
module Goertzel {
  import opened Prelude

  datatype Complex = Complex(re: real, im: real)

  function Plus(a: Complex, b: Complex): Complex { Complex(a.re + b.re, a.im + b.im) }

  function Times(a: Complex, b: Complex): Complex {
    Complex(a.re * b.re - a.im * b.im, a.re * b.im + a.im * b.re)
  }

  function Conj(a: Complex): Complex { Complex(a.re, -a.im) }

  function Real(x: real): Complex { Complex(x, 0.0) }

  function Norm(a: Complex): (n: real)
    ensures n >= 0.0
  {
    Square(a.re) + Square(a.im)
  }

  function Square(x: real): (y: real)
    ensures y >= 0.0
  {
    x * x
  }

  /** cos and sin of the angle per sample. */
  predicate Rotation(w: Complex) { Norm(w) == 1.0 }

  function Power(w: Complex, n: nat): Complex { if n == 0 then Real(1.0) else Times(Power(w, n - 1), w) }

  /** The Fourier sum of the samples at the frequency of `w`. */
  function Dft(x: seq<real>, w: Complex): Complex {
    if x == [] then Real(0.0)
    else Plus(Dft(x[..|x| - 1], w), Times(Real(x[|x| - 1]), Power(Conj(w), |x| - 1)))
  }

  function Energy(x: seq<real>): (e: real)
    ensures e >= 0.0
  {
    if x == [] then 0.0 else Energy(x[..|x| - 1]) + Square(x[|x| - 1])
  }

  function MeanSquare(x: seq<real>): real
    requires x != []
  {
    Energy(x) / (|x| as real)
  }

  /** The normalised power at a frequency. */
  function ToneOf(x: seq<real>, w: Complex): real {
    if x == [] then 0.0 else Norm(Dft(x, w)) / (|x| as real * |x| as real)
  }

  // ----- Complex arithmetic -----

  lemma TimesAssociates(a: Complex, b: Complex, c: Complex)
    ensures Times(Times(a, b), c) == Times(a, Times(b, c))
  {
    assert (a.re * b.re - a.im * b.im) * c.re - (a.re * b.im + a.im * b.re) * c.im
        == a.re * (b.re * c.re - b.im * c.im) - a.im * (b.re * c.im + b.im * c.re);
    assert (a.re * b.re - a.im * b.im) * c.im + (a.re * b.im + a.im * b.re) * c.re
        == a.re * (b.re * c.im + b.im * c.re) + a.im * (b.re * c.re - b.im * c.im);
  }

  lemma TimesCommutes(a: Complex, b: Complex)
    ensures Times(a, b) == Times(b, a)
  {
  }

  lemma PlusZero(a: Complex)
    ensures Plus(Real(0.0), a) == a
  {
  }

  lemma NormOfReal(x: real)
    ensures Norm(Real(x)) == Square(x)
  {
  }

  lemma TimesOne(a: Complex)
    ensures Times(Real(1.0), a) == a
  {
  }

  lemma TimesZero(a: Complex)
    ensures Times(a, Real(0.0)) == Real(0.0)
  {
  }

  lemma TimesDistributes(a: Complex, b: Complex, c: Complex)
    ensures Times(a, Plus(b, c)) == Plus(Times(a, b), Times(a, c))
  {
    assert a.re * (b.re + c.re) - a.im * (b.im + c.im) == (a.re * b.re - a.im * b.im) + (a.re * c.re - a.im * c.im);
    assert a.re * (b.im + c.im) + a.im * (b.re + c.re) == (a.re * b.im + a.im * b.re) + (a.re * c.im + a.im * c.re);
  }

  lemma NormOfTimes(a: Complex, b: Complex)
    ensures Norm(Times(a, b)) == Norm(a) * Norm(b)
  {
    var p, q, r, s := a.re * b.re, a.im * b.im, a.re * b.im, a.im * b.re;
    assert p * q == r * s by { assert p * q == a.re * b.re * a.im * b.im && r * s == a.re * b.im * a.im * b.re; }
    calc {
      Norm(Times(a, b));
      (p - q) * (p - q) + (r + s) * (r + s);
      p * p + q * q + r * r + s * s;
      Square(a.re) * Square(b.re) + Square(a.im) * Square(b.im)
      + Square(a.re) * Square(b.im) + Square(a.im) * Square(b.re);
      Norm(a) * Norm(b);
    }
  }

  lemma ConjOfTimes(a: Complex, b: Complex)
    ensures Conj(Times(a, b)) == Times(Conj(a), Conj(b))
  {
  }

  lemma TimesConj(a: Complex)
    ensures Times(a, Conj(a)) == Real(Norm(a))
  {
  }

  lemma {:induction false} PowerIsRotation(w: Complex, n: nat)
    requires Rotation(w)
    ensures Norm(Power(w, n)) == 1.0 && Norm(Power(Conj(w), n)) == 1.0
  {
    hide Times;
    if n > 0 {
      PowerIsRotation(w, n - 1);
      NormOfTimes(Power(w, n - 1), w);
      NormOfTimes(Power(Conj(w), n - 1), Conj(w));
    }
  }

  lemma {:induction false} PowerOfConj(w: Complex, n: nat)
    ensures Power(Conj(w), n) == Conj(Power(w, n))
  {
    hide Times;
    if n > 0 {
      PowerOfConj(w, n - 1);
      ConjOfTimes(Power(w, n - 1), w);
    }
  }

  lemma Unwinds(w: Complex, n: nat)
    requires Rotation(w)
    ensures Times(Power(w, n), Power(Conj(w), n)) == Real(1.0)
  {
    hide Times, Norm;
    PowerOfConj(w, n);
    PowerIsRotation(w, n);
    TimesConj(Power(w, n));
  }

  // ----- The filter's state -----

  /** The samples turned one step further with each new sample. */
  function Horner(x: seq<real>, w: Complex): Complex {
    if x == [] then Real(0.0) else Plus(Times(w, Horner(x[..|x| - 1], w)), Real(x[|x| - 1]))
  }

  /** Turning the last sample to the origin gives the Fourier sum turned as far. */
  lemma {:induction false} HornerIsTurnedDft(x: seq<real>, w: Complex)
    requires Rotation(w)
    ensures Times(w, Horner(x, w)) == Times(Power(w, |x|), Dft(x, w))
  {
    hide Times, Plus, Norm;
    if x == [] {
      TimesZero(w);
      TimesZero(Power(w, 0));
    } else {
      var n := |x| - 1;
      var before, last, turn := x[..n], Real(x[n]), Power(w, n);
      var back := Power(Conj(w), n);
      HornerIsTurnedDft(before, w);
      calc {
        Times(Power(w, |x|), Dft(x, w));
        Times(Times(turn, w), Plus(Dft(before, w), Times(last, back)));
        { TimesDistributes(Times(turn, w), Dft(before, w), Times(last, back)); }
        Plus(Times(Times(turn, w), Dft(before, w)), Times(Times(turn, w), Times(last, back)));
        { Unwinds(w, n); TurnFirst(turn, w, Dft(before, w)); TurnLast(turn, w, last, back); }
        Plus(Times(w, Times(turn, Dft(before, w))), Times(w, last));
        Plus(Times(w, Times(w, Horner(before, w))), Times(w, last));
        { TimesDistributes(w, Times(w, Horner(before, w)), last); }
        Times(w, Horner(x, w));
      }
    }
  }

  lemma TurnFirst(turn: Complex, w: Complex, d: Complex)
    ensures Times(Times(turn, w), d) == Times(w, Times(turn, d))
  {
    TimesCommutes(turn, w);
    TimesAssociates(w, turn, d);
  }

  lemma TurnLast(turn: Complex, w: Complex, last: Complex, back: Complex)
    requires Times(turn, back) == Real(1.0)
    ensures Times(Times(turn, w), Times(last, back)) == Times(w, last)
  {
    hide Times;
    TimesOne(last);
    calc {
      Times(Times(turn, w), Times(last, back));
      { TurnFirst(turn, w, Times(last, back)); }
      Times(w, Times(turn, Times(last, back)));
      { TimesCommutes(last, back); TimesAssociates(turn, back, last); }
      Times(w, Times(Real(1.0), last));
      Times(w, last);
    }
  }

  lemma HornerHasDftNorm(x: seq<real>, w: Complex)
    requires Rotation(w)
    ensures Norm(Horner(x, w)) == Norm(Dft(x, w))
  {
    hide Times, Norm;
    HornerIsTurnedDft(x, w);
    NormOfTimes(w, Horner(x, w));
    NormOfTimes(Power(w, |x|), Dft(x, w));
    PowerIsRotation(w, |x|);
  }

  /** The two registers are the turned sum in the basis 1, -conj(w). */
  predicate Holds(q1: real, q2: real, w: Complex, y: Complex) { y == Complex(q1 - w.re * q2, w.im * q2) }

  lemma FilterStep(q1: real, q2: real, w: Complex, y: Complex, x: real, coeff: real)
    requires Rotation(w) && Holds(q1, q2, w, y) && coeff == 2.0 * w.re
    ensures Holds(coeff * q1 - q2 + x, q1, w, Plus(Times(w, y), Real(x)))
  {
    StepReal(w.re, w.im, q1, q2);
    StepImaginary(w.re, w.im, q1, q2);
    var turned := Times(w, y);
    assert turned == Complex(w.re * q1 - q2, w.im * q1);
  }

  lemma StepReal(c: real, s: real, q1: real, q2: real)
    requires c * c + s * s == 1.0
    ensures c * (q1 - c * q2) - s * (s * q2) == c * q1 - q2
  {
    assert c * (q1 - c * q2) - s * (s * q2) == c * q1 - (c * c + s * s) * q2;
  }

  lemma StepImaginary(c: real, s: real, q1: real, q2: real)
    ensures c * (s * q2) + s * (q1 - c * q2) == s * q1
  {
  }

  lemma RegistersToNorm(q1: real, q2: real, w: Complex, y: Complex, coeff: real)
    requires Rotation(w) && Holds(q1, q2, w, y) && coeff == 2.0 * w.re
    ensures q1 * q1 + q2 * q2 - coeff * q1 * q2 == Norm(y)
  {
    var c, s := w.re, w.im;
    calc {
      Norm(y);
      (q1 - c * q2) * (q1 - c * q2) + (s * q2) * (s * q2);
      q1 * q1 - 2.0 * c * q1 * q2 + (c * c + s * s) * (q2 * q2);
      q1 * q1 - 2.0 * c * q1 * q2 + q2 * q2;
    }
  }

  /** `goertzel_power`: two registers and one multiplication a sample compute the power of the
      Fourier sum. */
  method GoertzelPower(samples: seq<real>, w: Complex) returns (power: real)
    requires Rotation(w)
    ensures power == ToneOf(samples, w)
  {
    hide Holds, Norm, Times, Plus, Dft, Rotation;
    if samples == [] { return 0.0; }
    var coeff := 2.0 * w.re;
    var q1, q2 := 0.0, 0.0;
    StartsAtRest(w);
    for i := 0 to |samples|
      invariant Holds(q1, q2, w, Horner(samples[..i], w))
    {
      assert samples[..i + 1][..i] == samples[..i];
      FilterStep(q1, q2, w, Horner(samples[..i], w), samples[i], coeff);
      var q0 := coeff * q1 - q2 + samples[i];
      q2 := q1;
      q1 := q0;
    }
    assert samples[..|samples|] == samples;
    RegistersToNorm(q1, q2, w, Horner(samples, w), coeff);
    HornerHasDftNorm(samples, w);
    power := q1 * q1 + q2 * q2 - coeff * q1 * q2;
    power := power / (|samples| as real * |samples| as real);
  }

  lemma StartsAtRest(w: Complex)
    ensures Holds(0.0, 0.0, w, Horner([], w))
  {
  }

  // ----- The power never exceeds the mean square -----

  lemma SplitNorm(a: Complex, b: Complex, n: real)
    ensures n * Norm(Plus(a, b)) <= (n + 1.0) * Norm(a) + n * (n + 1.0) * Norm(b)
  {
    hide Square;
    SplitSquare(a.re, b.re, n);
    SplitSquare(a.im, b.im, n);
    Spread(n, Square(a.re + b.re), Square(a.im + b.im));
    Spread(n + 1.0, Square(a.re), Square(a.im));
    Spread(n * (n + 1.0), Square(b.re), Square(b.im));
  }

  lemma Spread(n: real, x: real, y: real)
    ensures n * (x + y) == n * x + n * y
  {
  }

  lemma SplitSquare(a: real, b: real, n: real)
    ensures n * Square(a + b) + Square(a - n * b) == (n + 1.0) * Square(a) + n * (n + 1.0) * Square(b)
  {
    var t := n * b;
    assert Square(a + b) == a * a + 2.0 * (a * b) + b * b;
    assert Square(a - t) == a * a - 2.0 * (a * t) + t * t;
    assert a * t == n * (a * b) && t * t == n * n * (b * b);
  }

  /** Cauchy and Schwarz for the Fourier sum. */
  lemma {:induction false} DftWithinEnergy(x: seq<real>, w: Complex)
    requires Rotation(w)
    ensures Norm(Dft(x, w)) <= |x| as real * Energy(x)
  {
    hide Times, Plus, Norm;
    if x == [] {
      assert Norm(Real(0.0)) == 0.0 by { NormOfReal(0.0); }
    } else {
      var n := |x| - 1;
      var a, b := Dft(x[..n], w), Times(Real(x[n]), Power(Conj(w), n));
      DftWithinEnergy(x[..n], w);
      PowerIsRotation(w, n);
      NormOfTimes(Real(x[n]), Power(Conj(w), n));
      NormOfReal(x[n]);
      if n == 0 {
        PlusZero(b);
      } else {
        SplitNorm(a, b, n as real);
        Combine(Norm(Plus(a, b)), Norm(a), Energy(x[..n]), Square(x[n]), n as real);
      }
    }
  }

  lemma Combine(sum: real, a: real, e: real, b: real, n: real)
    requires n >= 1.0 && a <= n * e && n * sum <= (n + 1.0) * a + n * (n + 1.0) * b
    ensures sum <= (n + 1.0) * (e + b)
  {
    assert (n + 1.0) * a <= (n + 1.0) * (n * e);
    assert n * sum <= n * ((n + 1.0) * (e + b)) by {
      assert (n + 1.0) * (n * e) + n * (n + 1.0) * b == n * ((n + 1.0) * (e + b));
    }
  }

  /** The normalised power at any frequency is at most the mean square of the samples. */
  lemma PowerWithinMeanSquare(x: seq<real>, w: Complex)
    requires Rotation(w) && x != []
    ensures 0.0 <= ToneOf(x, w) <= MeanSquare(x)
  {
    hide Norm, Dft, Energy;
    DftWithinEnergy(x, w);
    var n := |x| as real;
    DivideTwice(Norm(Dft(x, w)), Energy(x), n);
  }

  lemma DivideTwice(p: real, e: real, n: real)
    requires n >= 1.0 && 0.0 <= p <= n * e
    ensures 0.0 <= p / (n * n) <= e / n
  {
    var m := n * n;
    assert m >= 1.0;
    assert p / m <= n * e / m by {
      var d := n * e - p;
      assert n * e / m - p / m == d / m && d / m >= 0.0;
    }
    assert n * e / m == e / n by { assert e / n * m == e / n * n * n && e / n * n == e; }
    assert p / m >= 0.0;
  }

  /** A constant recording, which is all at frequency zero, attains the bound. */
  lemma BoundIsAttained(x: seq<real>, c: real)
    requires x != [] && forall i :: 0 <= i < |x| ==> x[i] == c
    ensures ToneOf(x, Real(1.0)) == Square(c) && MeanSquare(x) == Square(c)
  {
    hide Norm, Dft, Energy, Square, Multiple;
    ConstantSums(x, c);
    MultipleIs(|x|, c);
    MultipleIs(|x|, Square(c));
    NormOfReal(Multiple(|x|, c));
    Averages(|x| as real, c, Multiple(|x|, c), Energy(x));
  }

  lemma Averages(n: real, c: real, sum: real, e: real)
    requires n >= 1.0 && sum == n * c && e == n * Square(c)
    ensures n * n >= 1.0 && Square(sum) / (n * n) == Square(c) && e / n == Square(c)
  {
    assert n * n >= 1.0;
    assert Square(sum) == Square(c) * (n * n) by { assert n * c * (n * c) == c * c * (n * n); }
    DivideOut(Square(c), n * n);
    DivideOut(Square(c), n);
  }

  lemma DivideOut(a: real, m: real)
    requires m > 0.0
    ensures a * m / m == a && m * a / m == a
  {
  }

  /** `n` times `c`, by addition. */
  function Multiple(n: nat, c: real): real { if n == 0 then 0.0 else Multiple(n - 1, c) + c }

  lemma {:induction false} MultipleIs(n: nat, c: real)
    ensures Multiple(n, c) == n as real * c
  {
    if n > 0 {
      MultipleIs(n - 1, c);
      Spread(c, (n - 1) as real, 1.0);
    }
  }

  lemma {:induction false} ConstantSums(x: seq<real>, c: real)
    requires forall i :: 0 <= i < |x| ==> x[i] == c
    ensures Dft(x, Real(1.0)) == Real(Multiple(|x|, c)) && Energy(x) == Multiple(|x|, Square(c))
  {
    if x != [] {
      hide Times, Plus, Square, Power;
      var n := |x| - 1;
      ConstantSums(x[..n], c);
      PowerOfOne(n);
      TimesCommutes(Real(c), Real(1.0));
      TimesOne(Real(c));
      PlusReals(Multiple(n, c), c);
    }
  }

  lemma PlusReals(x: real, y: real)
    ensures Plus(Real(x), Real(y)) == Real(x + y)
  {
  }

  lemma {:induction false} PowerOfOne(n: nat)
    ensures Power(Conj(Real(1.0)), n) == Real(1.0)
  {
    if n > 0 { PowerOfOne(n - 1); }
  }

  // ----- The checks on a recording -----

  const SAMPLE_RATE := 8000
  const MIN_RECEIVED_SAMPLES := SAMPLE_RATE * 2
  const MIN_RMS := 0.02
  const MIN_EXPECTED_POWER := 0.001
  const MIN_DOMINANCE := 3.0
  const MAX_DOMINANT_ERROR_HZ := 40.0

  datatype Fault = TooShort | TooQuiet | TooWeak | WrongTone | WrongFrequency

  datatype Report = Report(dominantHz: real, expectedPower: real, rejectedPower: real)

  /** cos and sin for every frequency. */
  type Tuning = f: real -> Complex | forall hz :: Rotation(f(hz)) witness hz => Complex(1.0, 0.0)

  /** The scanned frequencies, in order. */
  function Grid(i: nat): int { 300 + 20 * i }

  const GRID_SIZE := 36

  /** The strongest of the first `n` scanned frequencies and its power. */
  function Scan(x: seq<real>, tuning: Tuning, n: nat): (best: (real, real)) {
    if n == 0 then (0.0, 0.0)
    else
      var hz := Grid(n - 1) as real;
      var best, power := Scan(x, tuning, n - 1), ToneOf(x, tuning(hz));
      if power > best.1 then (hz, power) else best
  }

  /** `dominant_tone`: the first of the strongest scanned frequencies, or zero for silence. */
  method DominantTone(x: seq<real>, tuning: Tuning) returns (bestHz: real, bestPower: real)
    ensures (bestHz, bestPower) == Scan(x, tuning, GRID_SIZE)
    ensures forall hz :: Scanned(hz) ==> ToneOf(x, tuning(hz as real)) <= bestPower
    ensures bestPower == 0.0 ==> bestHz == 0.0
    ensures bestPower != 0.0 ==> exists hz :: bestHz == hz as real && Strongest(x, tuning, hz, bestPower)
  {
    hide ToneOf, Grid, Strongest;
    bestHz, bestPower := 0.0, 0.0;
    ghost var at := 0;
    for i := 0 to GRID_SIZE
      invariant (bestHz, bestPower) == Scan(x, tuning, i) && bestPower >= 0.0
      invariant forall j :: 0 <= j < i ==> ToneOf(x, tuning(Grid(j) as real)) <= bestPower
      invariant bestPower == 0.0 ==> bestHz == 0.0
      invariant bestPower != 0.0 ==> at < i && FirstStrongest(x, tuning, at, bestHz, bestPower)
    {
      var hz := Grid(i) as real;
      var power := GoertzelPower(x, tuning(hz));
      if power > bestPower {
        bestPower := power;
        bestHz := hz;
        at := i;
      }
    }
    forall hz | Scanned(hz) ensures ToneOf(x, tuning(hz as real)) <= bestPower { ScannedIsGrid(hz); }
    if bestPower != 0.0 { FirstIsStrongest(x, tuning, at, bestHz, bestPower); }
  }

  /** The `i`-th point of the grid has this power, and every earlier one less. */
  predicate FirstStrongest(x: seq<real>, tuning: Tuning, i: int, hz: real, power: real) {
    && 0 <= i < GRID_SIZE && hz == Grid(i) as real && power == ToneOf(x, tuning(hz))
    && forall j :: 0 <= j < i ==> ToneOf(x, tuning(Grid(j) as real)) < power
  }

  lemma ScannedIsGrid(hz: int)
    requires Scanned(hz)
    ensures 0 <= (hz - 300) / 20 < GRID_SIZE && hz == Grid((hz - 300) / 20)
  {
  }

  lemma FirstIsStrongest(x: seq<real>, tuning: Tuning, i: int, hz: real, power: real)
    requires FirstStrongest(x, tuning, i, hz, power)
    ensures hz == Grid(i) as real && Strongest(x, tuning, Grid(i), power)
  {
    hide ToneOf;
    forall lower | Scanned(lower) && lower < Grid(i) ensures ToneOf(x, tuning(lower as real)) < power {
      ScannedIsGrid(lower);
    }
  }

  /** Every 20 Hz from 300 to 1000 Hz. */
  predicate Scanned(hz: int) { 300 <= hz <= 1000 && hz % 20 == 0 }

  /** The scanned frequency has this power, and every lower one less. */
  ghost predicate Strongest(x: seq<real>, tuning: Tuning, hz: int, power: real) {
    && Scanned(hz) && power == ToneOf(x, tuning(hz as real))
    && forall lower :: Scanned(lower) && lower < hz ==> ToneOf(x, tuning(lower as real)) < power
  }

  function Normalized(samples: seq<int>): (x: seq<real>)
    ensures |x| == |samples| && forall i :: 0 <= i < |x| ==> x[i] * 32767.0 == samples[i] as real
  {
    seq(|samples|, i requires 0 <= i < |samples| => samples[i] as real / 32767.0)
  }

  function AtLeast(x: real, floor: real): real { if x >= floor then x else floor }

  function Measured(x: seq<real>, tuning: Tuning, expectHz: real, rejectHz: real): Report {
    Report(Scan(x, tuning, GRID_SIZE).0, ToneOf(x, tuning(expectHz)), ToneOf(x, tuning(rejectHz)))
  }

  /** The conditions apart from loudness: the expected tone is strong, at least three times the
      rejected one, and the strongest scanned frequency lies within 40 Hz of it. */
  predicate ToneHeard(m: Report, expectHz: real) {
    m.expectedPower >= 0.001 && m.expectedPower >= 3.0 * m.rejectedPower && -40.0 <= m.dominantHz - expectHz <= 40.0
  }

  lemma Dominance(expected: real, rejected: real)
    requires expected >= 0.001
    ensures expected / AtLeast(rejected, 0.000000001) < MIN_DOMINANCE <==> expected < 3.0 * rejected
  {
    var d := AtLeast(rejected, 0.000000001);
    assert expected / d * d == expected;
    if expected / d < 3.0 { assert expected / d * d < 3.0 * d; } else { assert expected / d * d >= 3.0 * d; }
  }

  /** A tone strong enough to be heard is never too quiet. */
  lemma PowerImpliesLoudness(x: seq<real>, w: Complex, rms: real)
    requires Rotation(w) && x != [] && rms >= 0.0 && rms * rms == MeanSquare(x)
    ensures rms < MIN_RMS ==> ToneOf(x, w) < MIN_EXPECTED_POWER
  {
    hide ToneOf, MeanSquare, Rotation;
    PowerWithinMeanSquare(x, w);
    if rms < MIN_RMS {
      assert rms * rms <= rms * 0.02 <= 0.02 * 0.02 < MIN_EXPECTED_POWER;
    }
  }

  /** `analyze_tone`. The square root is given; a recording is accepted exactly when it is
      long enough and the tone is heard, so the loudness check refuses nothing more. */
  method AnalyzeTone(samples: seq<int>, tuning: Tuning, expectHz: real, rejectHz: real, rms: real)
    returns (r: Result<Report, Fault>)
    requires rms >= 0.0 && (samples != [] ==> rms * rms == MeanSquare(Normalized(samples)))
    ensures r == Err(TooShort) <==> |samples| < 16000
    ensures r == Err(TooQuiet) <==> |samples| >= 16000 && rms < 0.02
    ensures var m := Measured(Normalized(samples), tuning, expectHz, rejectHz);
            |samples| >= 16000 ==>
              && (r.Ok? <==> ToneHeard(m, expectHz)) && (r.Ok? ==> r.value == m)
              && (r == Err(TooQuiet) || r == Err(TooWeak) <==> m.expectedPower < 0.001)
              && (r == Err(WrongTone) <==> m.expectedPower >= 0.001 && m.expectedPower < 3.0 * m.rejectedPower)
  {
    hide ToneOf, MeanSquare, Normalized, Scan, Strongest;
    if |samples| < MIN_RECEIVED_SAMPLES { return Err(TooShort); }
    var x := Normalized(samples);
    var expected := GoertzelPower(x, tuning(expectHz));
    var rejected := GoertzelPower(x, tuning(rejectHz));
    var dominance := expected / AtLeast(rejected, 0.000000001);
    var dominantHz, dominantPower := DominantTone(x, tuning);
    if rms < MIN_RMS {
      PowerImpliesLoudness(x, tuning(expectHz), rms);
      return Err(TooQuiet);
    }
    if expected < MIN_EXPECTED_POWER { return Err(TooWeak); }
    Dominance(expected, rejected);
    if dominance < MIN_DOMINANCE { return Err(WrongTone); }
    var off := dominantHz - expectHz;
    if (if off < 0.0 then -off else off) > MAX_DOMINANT_ERROR_HZ { return Err(WrongFrequency); }
    return Ok(Report(dominantHz, expected, rejected));
  }
}
