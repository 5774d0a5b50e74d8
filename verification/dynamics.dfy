/** The dynamical-system side of the escape renderers: a complex point, the
    state reached after a number of steps of a (possibly step-dependent)
    map, and the bounded escape time. The complex power maps themselves and
    `cmplx.Abs` are transcendental and arrive as function parameters. */
module Dynamics {

  datatype Complex = Complex(re: real, im: real)

  /** One step of the map, which may depend on the step number (escape.go
      alternates two exponents on even and odd steps). */
  type Step = (nat, Complex) -> Complex

  /** The point reached from `z0` after `i` steps. */
  function State(step: Step, z0: Complex, i: nat): Complex
  {
    if i == 0 then z0 else step(i - 1, State(step, z0, i - 1))
  }

  /** The trajectory after `z0`: entry i is the point after i+1 steps. */
  function Orbit(step: Step, z0: Complex, n: nat): (o: seq<Complex>)
    ensures |o| == n
    ensures forall i :: 0 <= i < n ==> o[i] == State(step, z0, i + 1)
  {
    seq(n, i requires 0 <= i => State(step, z0, i + 1))
  }

  /** The first n states are all strictly inside the radius. */
  predicate StaysInside(step: Step, abs: Complex -> real, radius: real, z0: Complex, n: nat)
  {
    forall i :: 0 <= i < n ==> abs(State(step, z0, i)) < radius
  }

  /** The number of steps a bounded escape loop performs: it stops at the
      first state whose magnitude reaches `radius`, or after `bound` steps. */
  function EscapeTime(step: Step, abs: Complex -> real, radius: real, z0: Complex, bound: nat): (n: nat)
    ensures n <= bound
    ensures forall i :: 0 <= i < n ==> abs(State(step, z0, i)) < radius
    ensures n < bound ==> abs(State(step, z0, n)) >= radius
  {
    EscapeTimeFrom(step, abs, radius, z0, bound, 0)
  }

  function EscapeTimeFrom(step: Step, abs: Complex -> real, radius: real, z0: Complex, bound: nat, i: nat): (n: nat)
    requires i <= bound
    requires forall k :: 0 <= k < i ==> abs(State(step, z0, k)) < radius
    ensures i <= n <= bound
    ensures forall k :: 0 <= k < n ==> abs(State(step, z0, k)) < radius
    ensures n < bound ==> abs(State(step, z0, n)) >= radius
    decreases bound - i
  {
    if i == bound || abs(State(step, z0, i)) >= radius then i
    else EscapeTimeFrom(step, abs, radius, z0, bound, i + 1)
  }

  /** The escape time is the unique count with the stopping property, so any
      loop that stops the same way agrees with it. */
  lemma EscapeTimeUnique(step: Step, abs: Complex -> real, radius: real, z0: Complex, bound: nat, n: nat)
    requires n <= bound
    requires StaysInside(step, abs, radius, z0, n)
    requires n < bound ==> abs(State(step, z0, n)) >= radius
    ensures n == EscapeTime(step, abs, radius, z0, bound)
  {
  }

  /** A start already at or beyond the radius is never stepped. */
  lemma EscapedStartTakesNoSteps(step: Step, abs: Complex -> real, radius: real, z0: Complex, bound: nat)
    requires abs(z0) >= radius
    ensures EscapeTime(step, abs, radius, z0, bound) == 0
  {
  }

  /** A bounded escape loop that records every step: step i is written to
      `path[i]`, it stops at the first state whose magnitude reaches
      `radius` or when the buffer is full, and it leaves the rest of the
      buffer as it was. */
  method RecordEscape(step: Step, abs: Complex -> real, radius: real, z0: Complex, path: seq<Complex>)
    returns (path': seq<Complex>, n: nat)
    ensures |path'| == |path|
    ensures n == EscapeTime(step, abs, radius, z0, |path|)
    ensures forall i :: 0 <= i < n ==> path'[i] == State(step, z0, i + 1)
    ensures forall i :: n <= i < |path| ==> path'[i] == path[i]
  {
    var z := z0;
    path' := path;
    n := 0;
    while n < |path| && abs(z) < radius
      invariant 0 <= n <= |path|
      invariant |path'| == |path|
      invariant z == State(step, z0, n)
      invariant StaysInside(step, abs, radius, z0, n)
      invariant forall i :: 0 <= i < n ==> path'[i] == State(step, z0, i + 1)
      invariant forall i :: n <= i < |path| ==> path'[i] == path[i]
    {
      z := step(n, z);
      path' := path'[n := z];
      n := n + 1;
    }
    EscapeTimeUnique(step, abs, radius, z0, |path|, n);
  }
}
