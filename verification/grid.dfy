/** Row-major pixel addressing shared by every renderer: a cell (x, y) of a
    `width`-wide canvas lives at index `x + y*width`, and the colour passes
    recover the cell with `i % width` and `i / width`. */
module Grid {

  /** Largest value of an unsigned 16-bit channel (Go's math.MaxUint16). */
  const MaxUint16: int := 65535

  /** A 16-bit-per-channel pixel (Go's color.RGBA64); channels are kept as
      integers and `Channel16` says when they fit. */
  datatype Rgba64 = Rgba64(r: int, g: int, b: int, a: int)

  predicate Channel16(v: int)
  {
    0 <= v <= MaxUint16
  }

  predicate ValidColour(c: Rgba64)
  {
    Channel16(c.r) && Channel16(c.g) && Channel16(c.b) && Channel16(c.a)
  }

  /** Go's `uint16(v)` for a float already inside the channel range:
      truncation, which is the floor for non-negative values. */
  function ToUint16(v: real): (q: int)
    requires 0.0 <= v < (MaxUint16 + 1) as real
    ensures Channel16(q)
    ensures q as real <= v < q as real + 1.0
  {
    v.Floor
  }

  /** Go's zero-valued map read: a missing key reads as zero. */
  function Get(m: map<int, real>, k: int): real
  {
    if k in m then m[k] else 0.0
  }

  function GetCount(m: map<int, int>, k: int): int
  {
    if k in m then m[k] else 0
  }

  /** Go's integer `/` for a positive divisor: it truncates toward zero,
      where Dafny's `/` rounds toward negative infinity. */
  function GoQuot(a: int, b: int): (q: int)
    requires b > 0
    ensures a >= 0 ==> 0 <= q && q * b <= a < q * b + b
    ensures a < 0 ==> q == -((-a) / b)
  {
    if a >= 0 then DivBounds(a, b); a / b else -((-a) / b)
  }

  lemma DivBounds(a: int, b: int)
    requires a >= 0 && b > 0
    ensures 0 <= a / b && (a / b) * b <= a < (a / b) * b + b
  {
    var q, r := a / b, a % b;
    assert a == q * b + r && 0 <= r < b;
    if q < 0 {
      MulStep(q, 0, b);
    }
  }

  /** For non-negative numerators the quotient is monotone. */
  lemma GoQuotMonotone(a1: int, a2: int, b: int)
    requires 0 <= a1 <= a2 && b > 0
    ensures GoQuot(a1, b) <= GoQuot(a2, b)
  {
    var q1, q2 := GoQuot(a1, b), GoQuot(a2, b);
    if q2 < q1 {
      MulStep(q2, q1, b);
    }
  }

  /** True when (x, y) addresses a cell of a width-by-height canvas. */
  predicate InCanvas(x: int, y: int, width: int, height: int)
  {
    0 <= x < width && 0 <= y < height
  }

  function Index(x: int, y: int, width: int): int
  {
    x + y * width
  }

  function Column(i: int, width: int): int
    requires width > 0
  {
    i % width
  }

  function Row(i: int, width: int): int
    requires width > 0
  {
    i / width
  }

  /** A cell inside the canvas has an index inside the canvas buffer. */
  lemma IndexInRange(x: int, y: int, width: int, height: int)
    requires InCanvas(x, y, width, height)
    ensures 0 <= Index(x, y, width) < width * height
  {
    assert y * width <= (height - 1) * width by {
      MulMonotone(y, height - 1, width);
    }
  }

  /** Distinct cells never share an index: no row wrap. */
  lemma IndexInjective(x1: int, y1: int, x2: int, y2: int, width: int)
    requires 0 <= x1 < width && 0 <= x2 < width
    requires Index(x1, y1, width) == Index(x2, y2, width)
    ensures x1 == x2 && y1 == y2
  {
    if y1 < y2 {
      MulStep(y1, y2, width);
      assert false;
    } else if y2 < y1 {
      MulStep(y2, y1, width);
      assert false;
    }
  }

  /** The colour passes' `i % width`, `i / width` undo `Index`. */
  lemma ColumnRowOfIndex(x: int, y: int, width: int)
    requires 0 <= x < width
    ensures Column(Index(x, y, width), width) == x
    ensures Row(Index(x, y, width), width) == y
  {
    var i := Index(x, y, width);
    var q, r := i / width, i % width;
    assert i == q * width + r;
    IndexInjective(r, q, x, y, width);
  }

  /** ... and `Index` undoes them, so the two are a bijection. */
  lemma IndexOfColumnRow(i: int, width: int)
    requires width > 0
    ensures Index(Column(i, width), Row(i, width), width) == i
  {
  }

  lemma MulLeReal(a: real, b: real, c: real)
    requires a <= b && 0.0 <= c
    ensures a * c <= b * c
  {
    assert b * c - a * c == (b - a) * c;
    if c > 0.0 && b > a {
      assert (b - a) * c > 0.0;
    }
  }

  /** A larger row starts at least one full row later. */
  lemma MulStep(a: int, b: int, c: int)
    requires a < b && c >= 0
    ensures a * c + c <= b * c
  {
    MulMonotone(a + 1, b, c);
    assert (a + 1) * c == a * c + c;
  }

  lemma DivLeReal(a: real, b: real, n: real)
    requires a <= b && n > 0.0
    ensures a / n <= b / n
  {
    assert b / n - a / n == (b - a) / n;
  }

  lemma MulMonotone(a: int, b: int, c: int)
    requires a <= b && c >= 0
    ensures a * c <= b * c
  {
    assert b * c - a * c == (b - a) * c;
  }
}
