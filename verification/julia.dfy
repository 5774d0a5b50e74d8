/** The Julia-set renderer (cmd/julia/julia.go): every pixel is sampled at
    jittered points, each sample runs the bounded escape loop, escaping
    samples contribute a smoothed iteration count, a single consumer adds
    the per-pixel brightness messages into the buffer, and the buffer is
    divided by its largest cell and tinted light blue. The map `z^6 + c`,
    `cmplx.Abs`, the escape bound and the `Log(Log(|z|))/Log(6)` smoothing
    arrive as parameters. */
module Julia {
  import opened Grid
  import opened Sums
  import opened Peaks
  import opened Dynamics

  const Width: int := 2560
  const Height: int := 1440
  const Cells: int := Width * Height

  const SubPixels: nat := 10
  const MaxIterations: nat := 1000

  const ViewHeight: real := 2.25
  const HorizontalCenter: real := 0.0
  const VerticalCenter: real := 0.0
  const Bottom: real := VerticalCenter - ViewHeight * 0.5
  const Top: real := Bottom + ViewHeight
  const Left: real := HorizontalCenter - ViewHeight * 0.5 * Width as real / Height as real
  /** Side of one pixel in the plane. */
  const Px: real := ViewHeight / Height as real

  /** Pixel (x, y) is written to cell `x + y*Width`, inside the buffer, and
      no two pixels share a cell. */
  lemma PixelCell(x1: int, y1: int, x2: int, y2: int)
    requires InCanvas(x1, y1, Width, Height) && InCanvas(x2, y2, Width, Height)
    ensures 0 <= Index(x1, y1, Width) < Cells
    ensures Index(x1, y1, Width) == Index(x2, y2, Width) <==> x1 == x2 && y1 == y2
  {
    IndexInRange(x1, y1, Width, Height);
    if Index(x1, y1, Width) == Index(x2, y2, Width) {
      IndexInjective(x1, y1, x2, y2, Width);
    }
  }

  /** The colour pass puts cell i at (`i % Width`, `i / Width`), which is
      the pixel the cell was computed for. */
  lemma CellPixel(i: int)
    requires 0 <= i < Cells
    ensures InCanvas(Column(i, Width), Row(i, Width), Width, Height)
    ensures Index(Column(i, Width), Row(i, Width), Width) == i
  {
    IndexOfColumnRow(i, Width);
    var q := Row(i, Width);
    if q >= Height {
      MulMonotone(Height, q, Width);
      assert false;
    }
  }

  /** The two jitter draws of one sample. */
  datatype Jitter = Jitter(dy: real, dx: real)

  predicate ValidJitter(d: Jitter)
  {
    0.0 <= d.dy < 1.0 && 0.0 <= d.dx < 1.0
  }

  /** Starting point of a sample of pixel (x, y): the real part is the
      vertical coordinate `ry + px*dy`, the imaginary part the horizontal
      `rx + px*dx`. Row y is sampled in the strip one pixel high that starts
      at `top - px*y` and extends upwards. */
  function SampleStart(x: int, y: int, d: Jitter): (z: Complex)
    ensures ValidJitter(d) ==>
      && Top - Px * y as real <= z.re < Top - Px * y as real + Px
      && Left + Px * x as real <= z.im < Left + Px * x as real + Px
  {
    var ry := Top - Px * y as real;
    var rx := Left + Px * x as real;
    Complex(ry + Px * d.dy, rx + Px * d.dx)
  }

  /** `j.Next` at every step. */
  function Iterate(next: Complex -> Complex): Step
  {
    (i: nat, z: Complex) => next(z)
  }

  /** The escape loop: at most `MaxIterations` steps, stopping early only
      once the magnitude reaches the bound. */
  method EscapeLoop(next: Complex -> Complex, abs: Complex -> real, bound: real, z0: Complex)
    returns (iterations: nat, z: Complex)
    ensures iterations == EscapeTime(Iterate(next), abs, bound, z0, MaxIterations)
    ensures z == State(Iterate(next), z0, iterations)
  {
    z := z0;
    iterations := 0;
    while iterations < MaxIterations && abs(z) < bound
      invariant iterations <= MaxIterations
      invariant z == State(Iterate(next), z0, iterations)
      invariant StaysInside(Iterate(next), abs, bound, z0, iterations)
    {
      z := next(z);
      iterations := iterations + 1;
    }
    EscapeTimeUnique(Iterate(next), abs, bound, z0, MaxIterations, iterations);
  }

  /** The renderer's parameters that the model leaves abstract. */
  datatype JuliaMap = JuliaMap(next: Complex -> Complex, abs: Complex -> real, bound: real, smooth: Complex -> real)

  /** What one sample adds to its pixel: nothing when the orbit stays
      inside the bound for all `MaxIterations` steps, and otherwise the
      smoothed count `n + 1 - smooth(z_n)` at its first escape n. */
  function SampleBrightness(dyn: JuliaMap, z0: Complex): (b: real)
    ensures StaysInside(Iterate(dyn.next), dyn.abs, dyn.bound, z0, MaxIterations) ==> b == 0.0
    ensures !StaysInside(Iterate(dyn.next), dyn.abs, dyn.bound, z0, MaxIterations) ==>
      var n := EscapeTime(Iterate(dyn.next), dyn.abs, dyn.bound, z0, MaxIterations);
      && n < MaxIterations
      && StaysInside(Iterate(dyn.next), dyn.abs, dyn.bound, z0, n)
      && dyn.abs(State(Iterate(dyn.next), z0, n)) >= dyn.bound
      && b == n as real + 1.0 - dyn.smooth(State(Iterate(dyn.next), z0, n))
  {
    var n := EscapeTime(Iterate(dyn.next), dyn.abs, dyn.bound, z0, MaxIterations);
    if n >= MaxIterations then 0.0
    else n as real + 1.0 - dyn.smooth(State(Iterate(dyn.next), z0, n))
  }

  /** Contribution of each jitter of pixel (x, y). */
  function SampleOf(dyn: JuliaMap, x: int, y: int): Jitter -> real
  {
    (d: Jitter) => SampleBrightness(dyn, SampleStart(x, y, d))
  }

  /** The inner sample loop of a worker: `b` is the sum of the samples'
      contributions. */
  method PixelBrightness(dyn: JuliaMap, x: int, y: int, draws: seq<Jitter>) returns (b: real)
    requires |draws| == SubPixels
    ensures b == Sum(draws, SampleOf(dyn, x, y))
  {
    b := 0.0;
    var s := 0;
    while s < SubPixels
      invariant 0 <= s <= SubPixels
      invariant b == Sum(draws[..s], SampleOf(dyn, x, y))
    {
      b := AddSample(dyn, x, y, draws, s, b);
      s := s + 1;
    }
    assert draws[..s] == draws;
  }

  /** One pass of the sample loop: jitter, escape loop, and the sample's
      contribution unless it reached `MaxIterations`. */
  method AddSample(dyn: JuliaMap, x: int, y: int, draws: seq<Jitter>, s: nat, b: real) returns (b': real)
    requires s < |draws| && b == Sum(draws[..s], SampleOf(dyn, x, y))
    ensures b' == Sum(draws[..s + 1], SampleOf(dyn, x, y))
  {
    var sz := SampleStart(x, y, draws[s]);
    var iterations, z := EscapeLoop(dyn.next, dyn.abs, dyn.bound, sz);
    SampleStep(dyn, x, y, draws, s, iterations, z);
    b' := b;
    if iterations >= MaxIterations {
      return;
    }
    var pB := iterations as real + 1.0 - dyn.smooth(z);
    b' := b + pB;
  }

  /** The running sum after one more sample, from the escape loop's result. */
  lemma SampleStep(dyn: JuliaMap, x: int, y: int, draws: seq<Jitter>, s: nat, iterations: nat, z: Complex)
    requires s < |draws|
    requires iterations == EscapeTime(Iterate(dyn.next), dyn.abs, dyn.bound, SampleStart(x, y, draws[s]), MaxIterations)
    requires z == State(Iterate(dyn.next), SampleStart(x, y, draws[s]), iterations)
    ensures Sum(draws[..s + 1], SampleOf(dyn, x, y))
         == Sum(draws[..s], SampleOf(dyn, x, y)) + if iterations < MaxIterations then iterations as real + 1.0 - dyn.smooth(z) else 0.0
  {
    var d := draws[s];
    assert draws[..s + 1] == draws[..s] + [d];
    SumSnoc(draws[..s], d, SampleOf(dyn, x, y));
  }

  /** A pixel none of whose samples escapes stays dark. */
  lemma {:induction false} TrappedPixelIsDark(dyn: JuliaMap, x: int, y: int, draws: seq<Jitter>)
    requires forall k :: 0 <= k < |draws| ==>
      StaysInside(Iterate(dyn.next), dyn.abs, dyn.bound, SampleStart(x, y, draws[k]), MaxIterations)
    ensures Sum(draws, SampleOf(dyn, x, y)) == 0.0
  {
    if |draws| > 0 {
      var d := draws[|draws| - 1];
      assert SampleOf(dyn, x, y)(d) == 0.0;
      TrappedPixelIsDark(dyn, x, y, draws[..|draws| - 1]);
    }
  }

  /** One message of the brightness channel. */
  datatype PixelMessage = PixelMessage(p: int, brightness: real)

  /** What a message adds to cell i. */
  function ToCell(i: int): PixelMessage -> real
  {
    (m: PixelMessage) => if m.p == i then m.brightness else 0.0
  }

  /** The total brightness the messages deliver to cell i. */
  function Received(msgs: seq<PixelMessage>, i: int): real
  {
    Sum(msgs, ToCell(i))
  }

  /** The consumer: `brightness[b.P] += b.Brightness` for every message, in
      arrival order. Each cell gains exactly what was sent to it. */
  method Consume(h: seq<real>, msgs: seq<PixelMessage>) returns (h': seq<real>)
    requires forall k :: 0 <= k < |msgs| ==> 0 <= msgs[k].p < |h|
    ensures |h'| == |h|
    ensures forall i :: 0 <= i < |h| ==> h'[i] == h[i] + Received(msgs, i)
  {
    h' := h;
    var n := 0;
    while n < |msgs|
      invariant 0 <= n <= |msgs|
      invariant |h'| == |h|
      invariant forall i :: 0 <= i < |h| ==> h'[i] == h[i] + Received(msgs[..n], i)
    {
      var m := msgs[n];
      assert msgs[..n + 1] == msgs[..n] + [m];
      forall i | 0 <= i < |h| ensures Received(msgs[..n + 1], i) == Received(msgs[..n], i) + ToCell(i)(m) {
        SumSnoc(msgs[..n], m, ToCell(i));
      }
      h' := h'[m.p := h'[m.p] + m.brightness];
      n := n + 1;
    }
    assert msgs[..n] == msgs;
  }

  /** The buffer does not depend on the order the messages arrive in. */
  lemma ReceivedOrderIndependent(msgs: seq<PixelMessage>, msgs': seq<PixelMessage>, i: int)
    requires multiset(msgs) == multiset(msgs')
    ensures Received(msgs, i) == Received(msgs', i)
  {
    SumPermutation(msgs, msgs', ToCell(i));
  }

  lemma {:induction false} ReceivedNothing(msgs: seq<PixelMessage>, i: int)
    requires forall k :: 0 <= k < |msgs| ==> msgs[k].p != i
    ensures Received(msgs, i) == 0.0
  {
    if |msgs| > 0 {
      var m := msgs[|msgs| - 1];
      assert ToCell(i)(m) == 0.0;
      ReceivedNothing(msgs[..|msgs| - 1], i);
    }
  }

  /** Every pixel sends one message, so a cell ends with exactly the
      brightness of its own pixel. */
  lemma SingleSender(msgs: seq<PixelMessage>, k: nat)
    requires k < |msgs|
    requires forall j :: 0 <= j < |msgs| && j != k ==> msgs[j].p != msgs[k].p
    ensures Received(msgs, msgs[k].p) == msgs[k].brightness
  {
    var i := msgs[k].p;
    var rest := msgs[..k] + msgs[k + 1..];
    SumRemove(msgs, k, ToCell(i));
    forall j | 0 <= j < |rest| ensures rest[j].p != i {
      if j < k {
        assert rest[j] == msgs[j];
      } else {
        assert rest[j] == msgs[j + 1];
      }
    }
    ReceivedNothing(rest, i);
  }

  /** The buffer divided by its largest cell; when cells exist but none is
      positive the division is by zero and the floating-point result is
      undefined. */
  datatype Normalised = Scaled(cells: seq<real>) | Undefined

  /** `maxBrightness` from zero, then `brightness[i] /= maxBrightness`. */
  method Normalise(h: seq<real>) returns (r: Normalised)
    ensures r.Undefined? <==> |h| > 0 && forall i :: 0 <= i < |h| ==> h[i] <= 0.0
    ensures r.Scaled? ==> |r.cells| == |h| && (|h| > 0 ==> Peak(h) > 0.0)
    ensures r.Scaled? ==> forall i :: 0 <= i < |h| ==> Peak(h) > 0.0 && r.cells[i] == h[i] / Peak(h)
  {
    var maxBrightness := MaxFromZero(h);
    PeakZeroIffNoPositive(h);
    if maxBrightness == 0.0 && |h| > 0 {
      return Undefined;
    }
    var cells := h;
    var i := 0;
    while i < |cells|
      invariant 0 <= i <= |cells| && |cells| == |h|
      invariant forall k :: 0 <= k < i ==> cells[k] == h[k] / maxBrightness
      invariant forall k :: i <= k < |h| ==> cells[k] == h[k]
    {
      cells := cells[i := cells[i] / maxBrightness];
      i := i + 1;
    }
    r := Scaled(cells);
  }

  /** With non-negative cells and a positive peak every normalised cell
      lies in [0, 1], the brightest is exactly 1, and order is kept. */
  lemma NormalisedRange(h: seq<real>, i: nat, j: nat)
    requires forall k :: 0 <= k < |h| ==> h[k] >= 0.0
    requires Peak(h) > 0.0 && i < |h| && j < |h|
    ensures 0.0 <= h[i] / Peak(h) <= 1.0
    ensures h[i] == Peak(h) ==> h[i] / Peak(h) == 1.0
    ensures h[i] <= h[j] ==> h[i] / Peak(h) <= h[j] / Peak(h)
  {
    ScaledCell(h[i], h[j], Peak(h));
  }

  lemma ScaledCell(a: real, b: real, m: real)
    requires 0.0 <= a <= m && m > 0.0
    ensures 0.0 <= a / m <= 1.0
    ensures a == m ==> a / m == 1.0
    ensures a <= b ==> a / m <= b / m
  {
    DivLeReal(0.0, a, m);
    DivLeReal(a, m, m);
    DivSelf(m);
    if a <= b {
      DivLeReal(a, b, m);
    }
  }

  lemma DivSelf(m: real)
    requires m != 0.0
    ensures m / m == 1.0
  {
  }

  /** Some cell reaches 1 whenever the peak is positive. */
  lemma NormalisedReachesOne(h: seq<real>)
    requires Peak(h) > 0.0
    ensures exists i :: 0 <= i < |h| && h[i] / Peak(h) == 1.0
  {
    var m := Peak(h);
    var i :| 0 <= i < |h| && h[i] == m;
    DivSelf(m);
  }

  /** `lightBlue`: the tint of a fully bright cell. Its alpha is unused. */
  const LightBlue: Rgba64 := Rgba64(0x7fff, 0xafff, 0xffff, 0x0)

  /** One channel of the tint: `uint16(float64(channel) * br)`. */
  function Shade(channel: int, br: real): (v: int)
    requires Channel16(channel) && 0.0 <= br <= 1.0
    ensures Channel16(v) && v <= channel
    ensures v as real <= channel as real * br < v as real + 1.0
    ensures br == 1.0 ==> v == channel
    ensures br == 0.0 ==> v == 0
  {
    var x := ChannelShare(channel as real, br);
    var v := ToUint16(x);
    TruncatedShare(v, x, channel);
    v
  }

  /** `float64(channel) * br`: a share of the channel value `c`, the whole
      of it at br = 1 and nothing at br = 0. */
  function ChannelShare(c: real, br: real): (x: real)
    requires 0.0 <= c && 0.0 <= br <= 1.0
    ensures 0.0 <= x <= c
    ensures br == 1.0 ==> x == c
    ensures br == 0.0 ==> x == 0.0
  {
    ShareBounds(c, br);
    c * br
  }

  /** A share `br` in [0, 1] of a non-negative `c` lies between 0 and `c`. */
  lemma ShareBounds(c: real, br: real)
    requires 0.0 <= c && 0.0 <= br <= 1.0
    ensures 0.0 <= c * br <= c
    ensures br == 1.0 ==> c * br == c
    ensures br == 0.0 ==> c * br == 0.0
  {
    MulLeReal(br, 1.0, c);
    MulLeReal(0.0, br, c);
    assert c * br == br * c;
    assert 1.0 * c == c && 0.0 * c == 0.0;
  }

  /** A value truncated from a share of a channel is no larger than the
      channel, and it is the channel when the share is the whole. */
  lemma TruncatedShare(v: int, x: real, channel: int)
    requires v as real <= x < v as real + 1.0 && x <= channel as real
    ensures v <= channel
    ensures x == channel as real ==> v == channel
  {
  }

  /** Colour of a normalised cell: light blue scaled by the brightness,
      opaque. */
  function Tint(br: real): (c: Rgba64)
    requires 0.0 <= br <= 1.0
    ensures ValidColour(c) && c.a == MaxUint16
    ensures c.r <= LightBlue.r && c.g <= LightBlue.g && c.b <= LightBlue.b
    ensures c.r as real <= LightBlue.r as real * br < c.r as real + 1.0
    ensures c.g as real <= LightBlue.g as real * br < c.g as real + 1.0
    ensures c.b as real <= LightBlue.b as real * br < c.b as real + 1.0
    ensures br == 1.0 ==> c == LightBlue.(a := MaxUint16)
    ensures br == 0.0 ==> c == Rgba64(0, 0, 0, MaxUint16)
  {
    Rgba64(Shade(LightBlue.r, br), Shade(LightBlue.g, br), Shade(LightBlue.b, br), MaxUint16)
  }

  /** A brighter cell is at least as bright in every channel. */
  lemma TintMonotone(b1: real, b2: real)
    requires 0.0 <= b1 <= b2 <= 1.0
    ensures Tint(b1).r <= Tint(b2).r && Tint(b1).g <= Tint(b2).g && Tint(b1).b <= Tint(b2).b
  {
    MulLeReal(b1, b2, LightBlue.r as real);
    MulLeReal(b1, b2, LightBlue.g as real);
    MulLeReal(b1, b2, LightBlue.b as real);
    assert LightBlue.r as real * b1 <= LightBlue.r as real * b2;
    assert LightBlue.g as real * b1 <= LightBlue.g as real * b2;
    assert LightBlue.b as real * b1 <= LightBlue.b as real * b2;
  }
}
