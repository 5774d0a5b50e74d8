/** The escape renderer's projector (cmd/escape/escape.go): a trajectory
    point is mapped to continuous grid coordinates, bounds-checked against a
    one-cell halo, and splatted bilinearly onto at most four cells of a
    sparse per-pixel contribution map. */
module EscapeProjection {
  import opened Grid
  import opened Sums
  import opened Dynamics

  const Width: int := 2560
  const Height: int := 1440
  const Cells: int := Width * Height

  const ViewHeight: real := 1.2
  const HorizontalCenter: real := 0.0
  const VerticalCenter: real := -ViewHeight / 2.0
  const Bottom: real := VerticalCenter - ViewHeight * 0.5
  const Top: real := Bottom + ViewHeight
  const Left: real := HorizontalCenter - ViewHeight * 0.5 * (Width as real) / (Height as real)
  /** Size of one pixel in the complex plane. */
  const Px: real := ViewHeight / (Height as real)

  /** Base cell and fractional offsets of a projected point, or the
      sentinel `(-2, -2, 0, 0)` for a point outside the halo. */
  datatype Projection = Projection(lx: int, ly: int, dx: real, dy: real)

  const Sentinel: Projection := Projection(-2, -2, 0.0, 0.0)

  /** Continuous column of a point: 0 at the left edge, one unit per pixel. */
  function GridX(z: Complex): real
  {
    (z.re - Left) / Px
  }

  /** Continuous row of a point: 0 at the top edge, growing downwards. */
  function GridY(z: Complex): real
  {
    (Top - z.im) / Px
  }

  /** True when the point lies in the frame widened by the one-cell halo
      that a bilinear splat can still reach. */
  predicate InHalo(z: Complex)
  {
    -1.0 <= GridX(z) < Width as real && -1.0 <= GridY(z) < Height as real
  }

  /** A projection the splat may use: base cell in the halo and
      fractional offsets in [0, 1). */
  predicate ValidProjection(pr: Projection)
  {
    && -1 <= pr.lx <= Width - 1
    && -1 <= pr.ly <= Height - 1
    && 0.0 <= pr.dx < 1.0
    && 0.0 <= pr.dy < 1.0
  }

  /** `toP`: floor the continuous coordinates into a base cell plus
      fractional offsets, or return the sentinel outside the halo. */
  function ToP(z: Complex): (r: Projection)
    ensures r == Sentinel <==> !InHalo(z)
    ensures r.lx == -2 <==> !InHalo(z)
    ensures InHalo(z) ==> ValidProjection(r)
    ensures InHalo(z) ==> r.lx as real + r.dx == GridX(z) && r.ly as real + r.dy == GridY(z)
  {
    var x := GridX(z);
    var y := GridY(z);
    var dx := x - x.Floor as real;
    var dy := y - y.Floor as real;
    if x < -1.0 || x >= Width as real then Sentinel
    else if y < -1.0 || y >= Height as real then Sentinel
    else Projection(x.Floor, y.Floor, dx, dy)
  }

  /** Bilinear weight of the corner (lx + a, ly + b), for a, b in {0, 1}:
      z00, z01, z10 and z11 in the source. */
  function Corner(dx: real, dy: real, a: int, b: int): real
  {
    (if a == 0 then 1.0 - dx else dx) * (if b == 0 then 1.0 - dy else dy)
  }

  /** The four bilinear weights are each in [0, 1] and sum to one. */
  lemma CornerWeightsPartitionUnity(dx: real, dy: real)
    requires 0.0 <= dx < 1.0 && 0.0 <= dy < 1.0
    ensures forall a, b :: 0 <= a <= 1 && 0 <= b <= 1 ==> 0.0 <= Corner(dx, dy, a, b) <= 1.0
    ensures Corner(dx, dy, 0, 0) + Corner(dx, dy, 1, 0) + Corner(dx, dy, 0, 1) + Corner(dx, dy, 1, 1) == 1.0
  {
    forall a, b | 0 <= a <= 1 && 0 <= b <= 1
      ensures 0.0 <= Corner(dx, dy, a, b) <= 1.0
    {
      UnitProduct(if a == 0 then 1.0 - dx else dx, if b == 0 then 1.0 - dy else dy);
    }
  }

  lemma UnitProduct(u: real, v: real)
    requires 0.0 <= u <= 1.0 && 0.0 <= v <= 1.0
    ensures 0.0 <= u * v <= 1.0
  {
    MulLeReal(u, 1.0, v);
    assert u * v <= 1.0 * v;
    MulLeReal(0.0, u, v);
    assert 0.0 * v <= u * v;
  }

  /** One guarded write of the splat: the target cell and its weight. */
  datatype Target = Target(col: int, row: int, weight: real)

  /** The guarded write `if ok { p[idx] += bb * w }` as a list of zero or
      one targets. */
  function Guard(ok: bool, t: Target): seq<Target>
  {
    if ok then [t] else []
  }

  /** A write of the splat of `pr`: a canvas cell of the 2x2 neighbourhood
      of the base cell, carrying that corner's bilinear weight. */
  predicate SplatTarget(pr: Projection, t: Target)
  {
    && InCanvas(t.col, t.row, Width, Height)
    && pr.lx <= t.col <= pr.lx + 1 && pr.ly <= t.row <= pr.ly + 1
    && t.weight == Corner(pr.dx, pr.dy, t.col - pr.lx, t.row - pr.ly)
  }

  /** The cells the four guarded writes touch, in source order. */
  function Targets(pr: Projection): (ts: seq<Target>)
    requires ValidProjection(pr)
    ensures |ts| <= 4
    ensures forall t :: t in ts ==> SplatTarget(pr, t)
  {
    var lx, ly, dx, dy := pr.lx, pr.ly, pr.dx, pr.dy;
    var t0 := Guard(lx >= 0 && ly >= 0, Target(lx, ly, Corner(dx, dy, 0, 0)));
    var t1 := Guard(lx < Width - 1 && ly >= 0, Target(lx + 1, ly, Corner(dx, dy, 1, 0)));
    var t2 := Guard(lx >= 0 && ly < Height - 1, Target(lx, ly + 1, Corner(dx, dy, 0, 1)));
    var t3 := Guard(lx < Width - 1 && ly < Height - 1, Target(lx + 1, ly + 1, Corner(dx, dy, 1, 1)));
    assert forall t :: t in t0 ==> SplatTarget(pr, t);
    assert forall t :: t in t1 ==> SplatTarget(pr, t);
    assert forall t :: t in t2 ==> SplatTarget(pr, t);
    assert forall t :: t in t3 ==> SplatTarget(pr, t);
    t0 + t1 + t2 + t3
  }

  /** Every canvas cell of the 2x2 neighbourhood is written, with its
      bilinear weight. */
  lemma TargetsComplete(pr: Projection, c: int, r: int)
    requires ValidProjection(pr)
    requires InCanvas(c, r, Width, Height) && pr.lx <= c <= pr.lx + 1 && pr.ly <= r <= pr.ly + 1
    ensures Target(c, r, Corner(pr.dx, pr.dy, c - pr.lx, r - pr.ly)) in Targets(pr)
  {
  }

  /** No cell is written twice by one splat. */
  lemma TargetsDistinct(pr: Projection)
    requires ValidProjection(pr)
    ensures forall i, j :: 0 <= i < j < |Targets(pr)| ==>
      (Targets(pr)[i].col, Targets(pr)[i].row) != (Targets(pr)[j].col, Targets(pr)[j].row)
  {
  }

  function TargetWeight(t: Target): real
  {
    t.weight
  }

  /** A point whose whole 2x2 neighbourhood is on the canvas is splatted
      onto four cells carrying its full unit of brightness. */
  lemma InteriorSplatConservesMass(pr: Projection)
    requires ValidProjection(pr)
    requires 0 <= pr.lx < Width - 1 && 0 <= pr.ly < Height - 1
    ensures |Targets(pr)| == 4
    ensures Sum(Targets(pr), TargetWeight) == 1.0
  {
    var lx, ly, dx, dy := pr.lx, pr.ly, pr.dx, pr.dy;
    var t0 := Target(lx, ly, Corner(dx, dy, 0, 0));
    var t1 := Target(lx + 1, ly, Corner(dx, dy, 1, 0));
    var t2 := Target(lx, ly + 1, Corner(dx, dy, 0, 1));
    var t3 := Target(lx + 1, ly + 1, Corner(dx, dy, 1, 1));
    assert Targets(pr) == [t0, t1, t2, t3];
    SumOfFour(t0, t1, t2, t3, TargetWeight);
    CornerWeightsPartitionUnity(dx, dy);
  }

  /** `baseBrightness`: the k-th point of a trajectory is weighted
      min(0.1 k, 1), so later points count more. */
  function BaseBrightness(k: nat): (w: real)
    ensures 0.0 <= w <= 1.0
    ensures w == 1.0 <==> k >= 10
    ensures k < 10 ==> w == 0.1 * k as real
  {
    if 0.1 * k as real < 1.0 then 0.1 * k as real else 1.0
  }

  lemma BaseBrightnessMonotone(k1: nat, k2: nat)
    requires k1 <= k2
    ensures BaseBrightness(k1) <= BaseBrightness(k2)
  {
  }

  /** Every key of a contribution map addresses a canvas cell. */
  predicate InFrame(p: map<int, real>)
  {
    forall k :: k in p ==> 0 <= k < Cells
  }

  predicate NonNegative(p: map<int, real>)
  {
    forall k :: k in p ==> p[k] >= 0.0
  }

  /** Brightness a target adds to key `k` when its point weighs `bb`. */
  function ShareAt(k: int, bb: real): Target -> real
  {
    (t: Target) => if Index(t.col, t.row, Width) == k then bb * t.weight else 0.0
  }

  /** The buffer indices a list of targets writes to. */
  function TargetKeys(ts: seq<Target>): set<int>
  {
    if |ts| == 0 then {}
    else TargetKeys(ts[..|ts| - 1]) + {Index(ts[|ts| - 1].col, ts[|ts| - 1].row, Width)}
  }

  /** The guarded writes `p[idx] += bb * weight`, one per target. */
  function Deposit(p: map<int, real>, ts: seq<Target>, bb: real): (q: map<int, real>)
    ensures q.Keys == p.Keys + TargetKeys(ts)
  {
    if |ts| == 0 then p
    else
      var t := ts[|ts| - 1];
      var q := Deposit(p, ts[..|ts| - 1], bb);
      var key := Index(t.col, t.row, Width);
      q[key := Get(q, key) + bb * t.weight]
  }

  /** Each cell ends with what it held plus every target's share of it. */
  lemma {:induction false} DepositAt(p: map<int, real>, ts: seq<Target>, bb: real, k: int)
    ensures Get(Deposit(p, ts, bb), k) == Get(p, k) + Sum(ts, ShareAt(k, bb))
    decreases |ts|
  {
    if |ts| > 0 {
      DepositAt(p, ts[..|ts| - 1], bb, k);
    }
  }

  /** Splat of the k-th trajectory point: nothing outside the halo,
      otherwise the guarded bilinear writes weighted by its brightness. */
  function SplatPoint(p: map<int, real>, k: nat, z: Complex): (q: map<int, real>)
    ensures InFrame(p) ==> InFrame(q)
    ensures NonNegative(p) ==> NonNegative(q)
    ensures !InHalo(z) ==> q == p
    ensures q.Keys >= p.Keys
  {
    var pr := ToP(z);
    if pr.lx == -2 then p
    else
      var ts := Targets(pr);
      var bb := BaseBrightness(k);
      DepositKeepsFrame(p, ts, bb);
      CornerWeightsPartitionUnity(pr.dx, pr.dy);
      DepositKeepsNonNegative(p, ts, bb);
      Deposit(p, ts, bb)
  }

  lemma {:induction false} DepositKeepsFrame(p: map<int, real>, ts: seq<Target>, bb: real)
    requires forall t :: t in ts ==> InCanvas(t.col, t.row, Width, Height)
    ensures InFrame(p) ==> InFrame(Deposit(p, ts, bb))
    ensures forall k :: k in TargetKeys(ts) ==> 0 <= k < Cells
    decreases |ts|
  {
    if |ts| > 0 {
      var t := ts[|ts| - 1];
      DepositKeepsFrame(p, ts[..|ts| - 1], bb);
      IndexInRange(t.col, t.row, Width, Height);
    }
  }

  lemma DepositKeepsNonNegative(p: map<int, real>, ts: seq<Target>, bb: real)
    requires 0.0 <= bb <= 1.0
    requires forall t :: t in ts ==> 0.0 <= t.weight <= 1.0
    ensures NonNegative(p) ==> NonNegative(Deposit(p, ts, bb))
  {
    var q := Deposit(p, ts, bb);
    if NonNegative(p) {
      forall key | key in q ensures q[key] >= 0.0 {
        forall t | t in ts ensures ShareAt(key, bb)(t) >= 0.0 {
          UnitProduct(bb, t.weight);
        }
        SumNonNegative(ts, ShareAt(key, bb));
        DepositAt(p, ts, bb, key);
      }
    }
  }

  lemma {:induction false} SumNonNegative(ts: seq<Target>, f: Target -> real)
    requires forall t :: t in ts ==> 0.0 <= f(t)
    ensures Sum(ts, f) >= 0.0
    decreases |ts|
  {
    if |ts| > 0 {
      SumNonNegative(ts[..|ts| - 1], f);
    }
  }

  /** The splat loop over `path[:iterations]`, point k weighted by
      `BaseBrightness(k)`. */
  function SplatPath(p: map<int, real>, zs: seq<Complex>): (q: map<int, real>)
    ensures InFrame(p) ==> InFrame(q)
    ensures NonNegative(p) ==> NonNegative(q)
    ensures q.Keys >= p.Keys
  {
    if |zs| == 0 then p
    else SplatPoint(SplatPath(p, zs[..|zs| - 1]), |zs| - 1, zs[|zs| - 1])
  }
}
