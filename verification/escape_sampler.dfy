/** The escape renderer's sampler and accumulator (cmd/escape/escape.go):
    jittered samples per pixel, the bounded escape loop that alternates two
    power maps and records the trajectory in a reused fixed-size buffer,
    the Buddhabrot filter on the iteration count, and the single consumer
    that folds every per-pixel contribution map into `frequencies`. */
module EscapeSampler {
  import opened Grid
  import opened Sums
  import opened Dynamics
  import opened EscapeProjection
  import opened Accumulate

  const SubPixels: nat := 1000
  const MaxIterations: nat := 100
  /** Trajectories that ran at least this many steps are not splatted. */
  const BIterations: nat := 100
  const EscapeRadius: real := 10.0

  /** Sampling window: `low` and `width` of the worker loop. */
  const Low: real := -4.0
  const SampleWidth: real := -2.0 * Low
  /** Side of one sample pixel in the complex plane. */
  const SamplePx: real := SampleWidth / (Height as real)

  /** `j` on even steps and `j2` on odd steps. */
  function Alternate(j: Complex -> Complex, j2: Complex -> Complex): Step
  {
    (i: nat, z: Complex) => if i % 2 == 0 then j(z) else j2(z)
  }

  /** The recorded trajectory really alternates the two maps. */
  lemma OrbitAlternates(j: Complex -> Complex, j2: Complex -> Complex, z0: Complex, n: nat, i: nat)
    requires i < n
    ensures i % 2 == 0 ==> Orbit(Alternate(j, j2), z0, n)[i] == j(State(Alternate(j, j2), z0, i))
    ensures i % 2 == 1 ==> Orbit(Alternate(j, j2), z0, n)[i] == j2(State(Alternate(j, j2), z0, i))
  {
    var step := Alternate(j, j2);
    assert Orbit(step, z0, n)[i] == State(step, z0, i + 1);
    assert State(step, z0, i + 1) == step(i, State(step, z0, i));
  }

  /** Random jitter of one sample: two draws in [0, 1). */
  datatype Jitter = Jitter(dy: real, dx: real)

  predicate ValidJitter(d: Jitter)
  {
    0.0 <= d.dy < 1.0 && 0.0 <= d.dx < 1.0
  }

  /** Starting point of a sample of pixel (x, y): the real part comes from
      the row and the imaginary part from the column. */
  function SampleStart(x: int, y: int, d: Jitter): (z: Complex)
    ensures ValidJitter(d) ==>
      && Low + SamplePx * y as real <= z.re < Low + SamplePx * (y + 1) as real
      && Low + SamplePx * x as real <= z.im < Low + SamplePx * (x + 1) as real
  {
    var ry := Low + SampleWidth * y as real * (1.0 / Height as real);
    var rx := Low + SampleWidth * x as real * (1.0 / Height as real);
    Complex(ry + SamplePx * d.dy, rx + SamplePx * d.dx)
  }

  /** What one sample adds to its pixel's contribution map: its whole
      trajectory when it escaped within `BIterations` steps, else nothing. */
  function SampleSplat(j: Complex -> Complex, j2: Complex -> Complex, abs: Complex -> real,
                       p: map<int, real>, z0: Complex): (q: map<int, real>)
    ensures InFrame(p) ==> InFrame(q)
    ensures NonNegative(p) ==> NonNegative(q)
    ensures q.Keys >= p.Keys
  {
    var n := EscapeTime(Alternate(j, j2), abs, EscapeRadius, z0, MaxIterations);
    if n < BIterations then SplatPath(p, Orbit(Alternate(j, j2), z0, n)) else p
  }

  /** The contribution map of pixel (x, y), one sample per jitter. */
  function PixelMap(j: Complex -> Complex, j2: Complex -> Complex, abs: Complex -> real,
                    x: int, y: int, draws: seq<Jitter>): (p: map<int, real>)
    ensures InFrame(p) && NonNegative(p)
  {
    if |draws| == 0 then map[]
    else
      var p := PixelMap(j, j2, abs, x, y, draws[..|draws| - 1]);
      SampleSplat(j, j2, abs, p, SampleStart(x, y, draws[|draws| - 1]))
  }

  /** A sample that runs the full budget contributes nothing. */
  lemma NonEscapingSampleIgnored(j: Complex -> Complex, j2: Complex -> Complex, abs: Complex -> real,
                                 p: map<int, real>, z0: Complex)
    requires StaysInside(Alternate(j, j2), abs, EscapeRadius, z0, MaxIterations)
    ensures SampleSplat(j, j2, abs, p, z0) == p
  {
    EscapeTimeUnique(Alternate(j, j2), abs, EscapeRadius, z0, MaxIterations, MaxIterations);
  }

  /** The worker's inner loops for one pixel. The result is the reference
      `PixelMap`, so stale entries of the reused buffer never leak into it. */
  method PixelSamples(j: Complex -> Complex, j2: Complex -> Complex, abs: Complex -> real,
                      x: int, y: int, draws: seq<Jitter>, path: seq<Complex>)
    returns (p: map<int, real>, path': seq<Complex>)
    requires |path| == MaxIterations
    ensures p == PixelMap(j, j2, abs, x, y, draws)
    ensures InFrame(p) && NonNegative(p)
    ensures |path'| == MaxIterations
  {
    p := map[];
    path' := path;
    var s := 0;
    while s < |draws|
      invariant 0 <= s <= |draws|
      invariant |path'| == MaxIterations
      invariant p == PixelMap(j, j2, abs, x, y, draws[..s])
    {
      var sz := SampleStart(x, y, draws[s]);
      var iterations;
      path', iterations := RecordEscape(Alternate(j, j2), abs, EscapeRadius, sz, path');
      LoopMatchesSplat(j, j2, abs, p, sz, path', iterations);
      if iterations < BIterations {
        p := SplatPath(p, path'[..iterations]);
      }
      PixelMapSnoc(j, j2, abs, x, y, draws, s);
      s := s + 1;
    }
    assert draws[..s] == draws;
  }

  /** What the loop's buffer holds is what the reference splat uses. */
  lemma LoopMatchesSplat(j: Complex -> Complex, j2: Complex -> Complex, abs: Complex -> real,
                         p: map<int, real>, z0: Complex, path: seq<Complex>, iterations: nat)
    requires iterations == EscapeTime(Alternate(j, j2), abs, EscapeRadius, z0, MaxIterations)
    requires |path| == MaxIterations
    requires forall i :: 0 <= i < iterations ==> path[i] == State(Alternate(j, j2), z0, i + 1)
    ensures SampleSplat(j, j2, abs, p, z0) == if iterations < BIterations then SplatPath(p, path[..iterations]) else p
  {
    BufferHoldsOrbit(Alternate(j, j2), z0, path, iterations);
  }

  /** A buffer whose first n entries are the first n states is that orbit. */
  lemma BufferHoldsOrbit(step: Step, z0: Complex, path: seq<Complex>, n: nat)
    requires n <= |path|
    requires forall i :: 0 <= i < n ==> path[i] == State(step, z0, i + 1)
    ensures path[..n] == Orbit(step, z0, n)
  {
  }

  lemma PixelMapSnoc(j: Complex -> Complex, j2: Complex -> Complex, abs: Complex -> real,
                     x: int, y: int, draws: seq<Jitter>, s: nat)
    requires s < |draws|
    ensures PixelMap(j, j2, abs, x, y, draws[..s + 1])
         == SampleSplat(j, j2, abs, PixelMap(j, j2, abs, x, y, draws[..s]), SampleStart(x, y, draws[s]))
  {
    assert draws[..s + 1][..s] == draws[..s];
  }

  /** Contribution of a pixel map to cell i (zero when absent). */
  function HitsAt(i: int): map<int, real> -> real
  {
    (g: map<int, real>) => Get(g, i)
  }

  /** The single consumer: every cell ends as the sum of what the received
      maps hold for it, whichever order each map's keys are visited in. */
  method Frequencies(gs: seq<map<int, real>>, orders: seq<seq<int>>) returns (h: seq<real>)
    requires forall n, k :: 0 <= n < |gs| && k in gs[n] ==> 0 <= k < Cells
    requires |orders| == |gs|
    requires forall n :: 0 <= n < |gs| ==> KeyOrder(gs[n], orders[n])
    ensures |h| == Cells
    ensures forall i :: 0 <= i < Cells ==> h[i] == Sum(gs, HitsAt(i))
  {
    h := seq(Cells, _ => 0.0);
    var n := 0;
    while n < |gs|
      invariant 0 <= n <= |gs|
      invariant |h| == Cells
      invariant forall i :: 0 <= i < Cells ==> h[i] == Sum(gs[..n], HitsAt(i))
    {
      h := DrainMap(h, gs[n], orders[n]);
      assert gs[..n + 1] == gs[..n] + [gs[n]];
      forall i | 0 <= i < Cells ensures h[i] == Sum(gs[..n + 1], HitsAt(i)) {
        SumSnoc(gs[..n], gs[n], HitsAt(i));
      }
      n := n + 1;
    }
    assert gs[..n] == gs;
  }

  /** The histogram does not depend on the order in which the workers'
      maps arrive. */
  lemma FrequenciesOrderIndependent(gs: seq<map<int, real>>, gs': seq<map<int, real>>, i: int)
    requires multiset(gs) == multiset(gs')
    ensures Sum(gs, HitsAt(i)) == Sum(gs', HitsAt(i))
  {
    SumPermutation(gs, gs', HitsAt(i));
  }

  /** With non-negative contributions, no cell ever decreases. */
  lemma {:induction false} FrequenciesNonNegative(gs: seq<map<int, real>>, i: int)
    requires forall n :: 0 <= n < |gs| ==> NonNegative(gs[n])
    ensures Sum(gs, HitsAt(i)) >= 0.0
    decreases |gs|
  {
    if |gs| > 0 {
      FrequenciesNonNegative(gs[..|gs| - 1], i);
    }
  }
}
