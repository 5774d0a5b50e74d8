/** Tone mapping of the escape renderer (cmd/escape/escape.go): gamma
    correction, the largest cell with its fallback, the linear rescale to
    2.5 times the 16-bit range, and the bleed of blue overflow into green
    and red. */
module EscapeTone {
  import opened Grid
  import opened Peaks

  /** The blue channel saturates at this fraction of the brightest cell. */
  const Headroom: real := 2.5

  /** Normalising scale: the largest cell, or 1 when nothing was hit. */
  function HitsScale(h: seq<real>): (m: real)
    ensures m > 0.0
    ensures forall i :: 0 <= i < |h| ==> h[i] <= m
    ensures (forall i :: 0 <= i < |h| ==> h[i] <= 0.0) ==> m == 1.0
    ensures (exists i :: 0 <= i < |h| && h[i] > 0.0) ==> exists i :: 0 <= i < |h| && h[i] == m
  {
    var m := Peak(h);
    if m <= 0.0 then 1.0 else m
  }

  /** The `maxHits` pass followed by its `<= 0` fallback. */
  method MaxHits(h: seq<real>) returns (m: real)
    ensures m == HitsScale(h)
  {
    m := MaxFromZero(h);
    if m <= 0.0 {
      m := 1.0;
    }
  }

  /** Unclamped blue value of a cell: `f * MaxUint16 * 2.5 / maxHits`. A
      cell between zero and the largest cell gets a level between zero and
      2.5 times the channel range, the largest cell exactly the top. */
  function BlueLevel(f: real, maxHits: real): (b: real)
    requires maxHits > 0.0
    ensures 0.0 <= f ==> 0.0 <= b
    ensures f <= maxHits ==> b <= MaxUint16 as real * Headroom
    ensures f == maxHits ==> b == MaxUint16 as real * Headroom
  {
    var w := MaxUint16 as real * Headroom * (1.0 / maxHits);
    InverseScale(maxHits, MaxUint16 as real * Headroom);
    ScaleBounds(f, maxHits, w);
    f * w
  }

  /** Multiplying by `top / m` takes `m` to `top`, and keeps signs when
      `top` is non-negative. */
  lemma InverseScale(m: real, top: real)
    requires m > 0.0
    ensures m * (top * (1.0 / m)) == top
    ensures 0.0 <= top ==> 0.0 <= top * (1.0 / m)
  {
    var inv := 1.0 / m;
    assert m * inv == 1.0;
    calc {
      m * (top * inv);
      == top * (m * inv);
      == top;
    }
    if 0.0 <= top {
      assert 0.0 < inv;
      MulLeReal(0.0, top, inv);
    }
  }

  lemma ScaleBounds(f: real, top: real, w: real)
    requires 0.0 <= w
    ensures 0.0 <= f ==> 0.0 <= f * w
    ensures f <= top ==> f * w <= top * w
    ensures f == top ==> f * w == top * w
  {
    if 0.0 <= f {
      MulLeReal(0.0, f, w);
    }
    if f <= top {
      MulLeReal(f, top, w);
    }
  }

  /** Red, green and blue before the conversion to 16 bits. */
  datatype Bleed = Bleed(r: real, g: real, b: real)

  predicate BleedFits(c: Bleed)
  {
    0.0 <= c.r <= MaxUint16 as real && 0.0 <= c.g <= MaxUint16 as real && 0.0 <= c.b <= MaxUint16 as real
  }

  /** The overflow branch as written: blue is capped and its whole excess
      goes to green and red. */
  function BleedAsWritten(b: real): (c: Bleed)
    ensures c.g == c.r
    ensures c.b <= MaxUint16 as real
    ensures c.b + c.g == b
    ensures b >= 0.0 ==> c.b >= 0.0 && c.g >= 0.0
    ensures c.g > 0.0 <==> b > MaxUint16 as real
    ensures b > MaxUint16 as real ==> c.b == MaxUint16 as real
    ensures b <= MaxUint16 as real ==> c.b == b
  {
    if b > MaxUint16 as real then
      var excess := b - MaxUint16 as real;
      Bleed(excess, excess, MaxUint16 as real)
    else Bleed(0.0, 0.0, b)
  }

  /** The brightest cell reaches 2.5 times the range, so its excess is 1.5
      times the range and green and red do not fit in 16 bits. */
  lemma BrightestCellOverflowsAsWritten(maxHits: real)
    requires maxHits > 0.0
    ensures BlueLevel(maxHits, maxHits) == MaxUint16 as real * Headroom
    ensures BleedAsWritten(BlueLevel(maxHits, maxHits)).g > MaxUint16 as real
    ensures !BleedFits(BleedAsWritten(BlueLevel(maxHits, maxHits)))
  {
    assert maxHits * (1.0 / maxHits) == 1.0;
    assert BlueLevel(maxHits, maxHits) == maxHits * (1.0 / maxHits) * (MaxUint16 as real * Headroom);
  }

  /** The bleed with green and red clamped to the channel range. It agrees
      with the source whenever the source's values fit. */
  function BleedClamped(b: real): (c: Bleed)
    requires b >= 0.0
    ensures BleedFits(c)
    ensures c.g == c.r
    ensures BleedFits(BleedAsWritten(b)) ==> c == BleedAsWritten(b)
    ensures b > MaxUint16 as real ==> c.b == MaxUint16 as real
    ensures b >= 2.0 * MaxUint16 as real ==> c == Bleed(MaxUint16 as real, MaxUint16 as real, MaxUint16 as real)
  {
    var c := BleedAsWritten(b);
    if c.g > MaxUint16 as real then Bleed(MaxUint16 as real, MaxUint16 as real, c.b) else c
  }

  /** A brighter cell is at least as bright in every channel. */
  lemma BleedClampedMonotone(b1: real, b2: real)
    requires 0.0 <= b1 <= b2
    ensures BleedClamped(b1).r <= BleedClamped(b2).r
    ensures BleedClamped(b1).g <= BleedClamped(b2).g
    ensures BleedClamped(b1).b <= BleedClamped(b2).b
  {
  }

  /** Colour of one cell: the clamped bleed converted to 16 bits, opaque. */
  function PixelColour(f: real, maxHits: real): (c: Rgba64)
    requires f >= 0.0 && maxHits > 0.0
    ensures ValidColour(c) && c.a == MaxUint16
  {
    var level := BlueLevel(f, maxHits);
    assert level >= 0.0 by {
      MulLeReal(0.0, f, MaxUint16 as real * Headroom * (1.0 / maxHits));
    }
    var bl := BleedClamped(level);
    Rgba64(ToUint16(bl.r), ToUint16(bl.g), ToUint16(bl.b), MaxUint16)
  }

  /** The brightest cell is white once the bleed is clamped. */
  lemma BrightestCellIsWhite(maxHits: real)
    requires maxHits > 0.0
    ensures PixelColour(maxHits, maxHits) == Rgba64(MaxUint16, MaxUint16, MaxUint16, MaxUint16)
  {
    BrightestCellOverflowsAsWritten(maxHits);
  }

  /** Tone mapping preserves the order of cells, channel by channel. */
  lemma PixelColourMonotone(f1: real, f2: real, maxHits: real)
    requires 0.0 <= f1 <= f2 && maxHits > 0.0
    ensures PixelColour(f1, maxHits).r <= PixelColour(f2, maxHits).r
    ensures PixelColour(f1, maxHits).g <= PixelColour(f2, maxHits).g
    ensures PixelColour(f1, maxHits).b <= PixelColour(f2, maxHits).b
  {
    var w := MaxUint16 as real * Headroom * (1.0 / maxHits);
    assert w >= 0.0;
    MulLeReal(0.0, f1, w);
    MulLeReal(f1, f2, w);
    assert BlueLevel(f1, maxHits) == f1 * w && BlueLevel(f2, maxHits) == f2 * w;
    BleedClampedMonotone(BlueLevel(f1, maxHits), BlueLevel(f2, maxHits));
  }

  /** `frequencies[i] = math.Pow(f, 0.2)` with the power function supplied. */
  function Gamma(h: seq<real>, pow: real -> real): (g: seq<real>)
    ensures |g| == |h|
    ensures (forall x :: x >= 0.0 ==> pow(x) >= 0.0) && (forall i :: 0 <= i < |h| ==> h[i] >= 0.0)
            ==> forall i :: 0 <= i < |g| ==> g[i] >= 0.0
  {
    seq(|h|, i requires 0 <= i < |h| => pow(h[i]))
  }

  /** The colour pass: gamma, the largest cell with its fallback, then one
      colour per cell. */
  method ToneImage(h: seq<real>, pow: real -> real) returns (img: seq<Rgba64>)
    requires forall x :: x >= 0.0 ==> pow(x) >= 0.0
    requires forall i :: 0 <= i < |h| ==> h[i] >= 0.0
    ensures |img| == |h|
    ensures forall i :: 0 <= i < |h| ==> img[i] == PixelColour(pow(h[i]), HitsScale(Gamma(h, pow)))
    ensures forall i :: 0 <= i < |h| ==> ValidColour(img[i])
  {
    var g := Gamma(h, pow);
    var maxHits := MaxHits(g);
    img := [];
    var i := 0;
    while i < |g|
      invariant 0 <= i <= |g|
      invariant |img| == i
      invariant forall k :: 0 <= k < i ==> img[k] == PixelColour(g[k], maxHits)
    {
      img := img + [PixelColour(g[i], maxHits)];
      i := i + 1;
    }
  }

  /** In the finished image a cell that was hit more is never darker. */
  lemma ToneImageMonotone(h: seq<real>, pow: real -> real, i: nat, k: nat)
    requires forall x, y :: 0.0 <= x <= y ==> 0.0 <= pow(x) <= pow(y)
    requires i < |h| && k < |h|
    requires 0.0 <= h[i] <= h[k]
    ensures pow(h[i]) >= 0.0
    ensures PixelColour(pow(h[i]), HitsScale(Gamma(h, pow))).r <= PixelColour(pow(h[k]), HitsScale(Gamma(h, pow))).r
    ensures PixelColour(pow(h[i]), HitsScale(Gamma(h, pow))).b <= PixelColour(pow(h[k]), HitsScale(Gamma(h, pow))).b
    ensures PixelColour(pow(h[i]), HitsScale(Gamma(h, pow))).g <= PixelColour(pow(h[k]), HitsScale(Gamma(h, pow))).g
  {
    PixelColourMonotone(pow(h[i]), pow(h[k]), HitsScale(Gamma(h, pow)));
  }
}
