/** Points of the plane and the transcendental functions the tree code
    uses. The functions are supplied by the caller; nothing is assumed
    about them beyond what a lemma states in its own requires. */
module Geometry {

  datatype XY = XY(x: real, y: real)

  /** `math.Sin`, `math.Cos`, `math.Sqrt` and `math.Asin`. */
  datatype Trig = Trig(sin: real -> real, cos: real -> real, sqrt: real -> real, asin: real -> real)

  /** Go's `math.Pi`. */
  const Pi: real := 3.141592653589793
}
