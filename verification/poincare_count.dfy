/** Counting side of the Poincaré-section renderer (cmd/poincare/poincare.go):
    a phase-space point (y, y') is binned into a pixel, each worker counts
    the pixels its trajectory visits once per forcing cycle, and a single
    consumer adds the workers' count maps into the canvas, dropping keys
    that are not canvas cells. The ODE solver is an opaque step. */
module PoincareCount {
  import opened Grid
  import opened Sums
  import opened Accumulate

  const Width: int := 2560
  const Height: int := 1440
  const Cells: int := Width * Height

  /** The phase window: y' across, y down the rows. */
  const MinX: real := -30.0
  const MaxX: real := 30.0
  const MinY: real := 0.2
  const MaxY: real := 4.0

  const InvDX: real := Width as real / (MaxX - MinX)
  const InvDY: real := Height as real / (MaxY - MinY)
  /** Phase-space size of one pixel. */
  const DX: real := 1.0 / InvDX
  const DY: real := 1.0 / InvDY

  /** Continuous column and row of a point that passed the bounds checks;
      Go's `int(...)` truncates, which is the floor on these non-negative
      values. */
  function PixelColumn(y: real): (c: int)
    ensures MinX <= y ==> 0 <= c
    ensures y < MaxX ==> c < Width
  {
    ((y - MinX) * InvDX).Floor
  }

  function PixelRow(yp: real): (r: int)
    ensures MinY <= yp ==> 0 <= r
    ensures yp < MaxY ==> r < Height
  {
    ((yp - MinY) * InvDY).Floor
  }

  /** `toPixel` as written: the window is closed on both sides. */
  function ToPixelAsWritten(y: real, yp: real): (r: int)
    ensures r == -1 <==> y > MaxX || y < MinX || yp > MaxY || yp < MinY
    ensures r != -1 ==> r >= 0
  {
    if y > MaxX then -1
    else if y < MinX then -1
    else if yp > MaxY then -1
    else if yp < MinY then -1
    else PixelRow(yp) * Width + PixelColumn(y)
  }

  /** On the right edge the column is `Width`, so the point is counted in
      column 0 of the next row, together with a point from the left edge;
      on the top edge the index is past the canvas. */
  lemma ToPixelWrapsAsWritten()
    ensures ToPixelAsWritten(MaxX, MinY) == Index(0, 1, Width)
    ensures ToPixelAsWritten(MaxX, MinY) == ToPixelAsWritten(MinX, MinY + 1.5 * DY)
    ensures ToPixelAsWritten(MinX, MaxY) == Cells
  {
    assert (MinY + 1.5 * DY - MinY) * InvDY == 1.5;
  }

  /** The phase window, closed at the low edge and open at the high edge. */
  predicate InWindow(y: real, yp: real)
  {
    MinX <= y < MaxX && MinY <= yp < MaxY
  }

  /** `toPixel` with the high edges excluded: -1 outside the window, and
      otherwise the row-major index of a canvas cell. */
  function ToPixel(y: real, yp: real): (r: int)
    ensures r == -1 <==> !InWindow(y, yp)
    ensures InWindow(y, yp) ==> InCanvas(PixelColumn(y), PixelRow(yp), Width, Height)
    ensures InWindow(y, yp) ==> r == Index(PixelColumn(y), PixelRow(yp), Width) && 0 <= r < Cells
    ensures r != -1 ==> r == ToPixelAsWritten(y, yp)
  {
    if y >= MaxX || y < MinX || yp >= MaxY || yp < MinY then -1
    else
      IndexInRange(PixelColumn(y), PixelRow(yp), Width, Height);
      PixelRow(yp) * Width + PixelColumn(y)
  }

  /** Two points share a pixel only when they share its column and row. */
  lemma ToPixelNoWrap(y1: real, yp1: real, y2: real, yp2: real)
    requires ToPixel(y1, yp1) != -1 && ToPixel(y1, yp1) == ToPixel(y2, yp2)
    ensures PixelColumn(y1) == PixelColumn(y2) && PixelRow(yp1) == PixelRow(yp2)
  {
    IndexInjective(PixelColumn(y1), PixelRow(yp1), PixelColumn(y2), PixelRow(yp2), Width);
  }

  /** A state of the oscillator: position y and velocity y'. */
  datatype Phase = Phase(y: real, yp: real)

  /** The two random draws of one cycle. */
  datatype Kick = Kick(dy: real, dx: real)

  /** The jitter after each cycle: draws from [0, 1) move the state by
      less than one pixel down and at most one pixel up, in each direction. */
  function Jiggle(s: Phase, d: Kick): (j: Phase)
    ensures 0.0 <= d.dy < 1.0 ==> s.y - DY <= j.y < s.y + DY
    ensures 0.0 <= d.dx < 1.0 ==> s.yp - DX <= j.yp < s.yp + DX
  {
    Phase(s.y + (-0.5 + d.dy) * DY * 2.0, s.yp + (-0.5 + d.dx) * DX * 2.0)
  }

  /** The worker's state before cycle i. */
  function PhaseAt(solve: Phase -> Phase, s0: Phase, ds: seq<Kick>, i: nat): Phase
    requires i <= |ds|
  {
    if i == 0 then s0 else Jiggle(solve(PhaseAt(solve, s0, ds, i - 1)), ds[i - 1])
  }

  /** The solved state of cycle i, the one the worker bins. */
  function SolvedAt(solve: Phase -> Phase, s0: Phase, ds: seq<Kick>, i: nat): Phase
    requires i < |ds|
  {
    solve(PhaseAt(solve, s0, ds, i))
  }

  /** The key cycle i counts: `toPixel(yp, y)` as written, applied to the
      solved state with velocity across and position down. It is -1 off
      the window, and otherwise non-negative but possibly past the canvas
      on the high edges. */
  function CycleKey(solve: Phase -> Phase, s0: Phase, ds: seq<Kick>, i: nat): (k: int)
    requires i < |ds|
    ensures k == -1 <==> !(MinX <= SolvedAt(solve, s0, ds, i).yp <= MaxX && MinY <= SolvedAt(solve, s0, ds, i).y <= MaxY)
    ensures k == -1 || 0 <= k
  {
    var s := SolvedAt(solve, s0, ds, i);
    ToPixelAsWritten(s.yp, s.y)
  }

  /** Inside the half-open window a cycle's key is the corrected pixel, a
      canvas cell; only a state on a high edge yields a key the corrected
      binning would not. */
  lemma CycleKeyInWindow(solve: Phase -> Phase, s0: Phase, ds: seq<Kick>, i: nat)
    requires i < |ds|
    requires InWindow(SolvedAt(solve, s0, ds, i).yp, SolvedAt(solve, s0, ds, i).y)
    ensures CycleKey(solve, s0, ds, i) == ToPixel(SolvedAt(solve, s0, ds, i).yp, SolvedAt(solve, s0, ds, i).y)
    ensures 0 <= CycleKey(solve, s0, ds, i) < Cells
  {
  }

  /** The sequence of pixels a worker visits. */
  function Visits(solve: Phase -> Phase, s0: Phase, ds: seq<Kick>): (v: seq<int>)
    ensures |v| == |ds|
    ensures forall i :: 0 <= i < |ds| ==> v[i] == CycleKey(solve, s0, ds, i)
  {
    seq(|ds|, i requires 0 <= i < |ds| => CycleKey(solve, s0, ds, i))
  }

  /** `counts` is the histogram of the visits `v`: each key holds its
      number of occurrences, the counts total |v|, and every key is the
      off-window marker -1 or a non-negative index. */
  ghost predicate Histogram(counts: map<int, int>, v: seq<int>)
  {
    && (forall k :: GetCount(counts, k) == multiset(v)[k])
    && MapTotal(counts) == |v|
    && (forall k :: k in counts ==> counts[k] > 0 && (k == -1 || 0 <= k))
  }

  /** `result[key]++` records one more visit. */
  lemma HistogramBump(counts: map<int, int>, v: seq<int>, key: int)
    requires Histogram(counts, v)
    requires key == -1 || 0 <= key
    ensures Histogram(counts[key := GetCount(counts, key) + 1], v + [key])
  {
    MapTotalBump(counts, key);
    assert multiset(v + [key]) == multiset(v) + multiset{key};
  }

  /** Counting visit i keeps the map a histogram of the visits so far. */
  lemma HistogramStep(counts: map<int, int>, v: seq<int>, i: nat)
    requires i < |v| && (v[i] == -1 || 0 <= v[i])
    requires Histogram(counts, v[..i])
    ensures Histogram(counts[v[i] := GetCount(counts, v[i]) + 1], v[..i + 1])
  {
    assert v[..i + 1] == v[..i] + [v[i]];
    HistogramBump(counts, v[..i], v[i]);
  }

  /** `work`: one cycle per draw pair, counting the key `toPixel` gives
      each time. Every cycle bumps exactly one key (possibly -1, possibly
      past the canvas), so the counts total the number of cycles. */
  method Work(solve: Phase -> Phase, s0: Phase, ds: seq<Kick>) returns (result: map<int, int>, s: Phase)
    ensures s == PhaseAt(solve, s0, ds, |ds|)
    ensures forall k :: GetCount(result, k) == multiset(Visits(solve, s0, ds))[k]
    ensures MapTotal(result) == |ds|
    ensures forall k :: k in result ==> result[k] > 0 && (k == -1 || 0 <= k)
  {
    ghost var visits := Visits(solve, s0, ds);
    s := s0;
    result := map[];
    var i := 0;
    while i < |ds|
      invariant 0 <= i <= |ds|
      invariant s == PhaseAt(solve, s0, ds, i)
      invariant Histogram(result, visits[..i])
    {
      s := solve(s);
      var key := ToPixelAsWritten(s.yp, s.y);
      assert key == visits[i];
      HistogramStep(result, visits, i);
      result := result[key := GetCount(result, key) + 1];
      s := Jiggle(s, ds[i]);
      i := i + 1;
    }
    assert visits[..i] == visits;
  }

  /** Count a map holds for cell i. */
  function CountAt(i: int): map<int, int> -> int
  {
    (g: map<int, int>) => GetCount(g, i)
  }

  /** The inner loop of `reduce`: keys outside the canvas are skipped, every
      canvas cell gains exactly its count. */
  method DrainCounts(out: seq<int>, g: map<int, int>, order: seq<int>) returns (out': seq<int>)
    requires KeyOrder(g, order)
    ensures |out'| == |out|
    ensures forall i :: 0 <= i < |out| ==> out'[i] == out[i] + GetCount(g, i)
  {
    out' := out;
    var n := 0;
    while n < |order|
      invariant 0 <= n <= |order|
      invariant |out'| == |out|
      invariant forall i :: 0 <= i < |out| ==> out'[i] == out[i] + (if i in order[..n] then g[i] else 0)
    {
      var k := order[n];
      assert k in g && k !in order[..n];
      if 0 <= k < |out'| {
        out' := out'[k := out'[k] + g[k]];
      }
      assert order[..n + 1] == order[..n] + [k];
      n := n + 1;
    }
    assert order[..n] == order;
  }

  /** `reduce`: every canvas cell ends with the sum of the counts the
      workers sent for it. */
  method Reduce(out: seq<int>, gs: seq<map<int, int>>, orders: seq<seq<int>>) returns (out': seq<int>)
    requires |orders| == |gs|
    requires forall n :: 0 <= n < |gs| ==> KeyOrder(gs[n], orders[n])
    ensures |out'| == |out|
    ensures forall i :: 0 <= i < |out| ==> out'[i] == out[i] + SumInt(gs, CountAt(i))
  {
    out' := out;
    var n := 0;
    while n < |gs|
      invariant 0 <= n <= |gs|
      invariant |out'| == |out|
      invariant forall i :: 0 <= i < |out| ==> out'[i] == out[i] + SumInt(gs[..n], CountAt(i))
    {
      out' := DrainCounts(out', gs[n], orders[n]);
      assert gs[..n + 1] == gs[..n] + [gs[n]];
      forall i | 0 <= i < |out| ensures out'[i] == out[i] + SumInt(gs[..n + 1], CountAt(i)) {
        SumIntSnoc(gs[..n], gs[n], CountAt(i));
      }
      n := n + 1;
    }
    assert gs[..n] == gs;
  }

  /** The canvas does not depend on the order the workers finish in. */
  lemma ReduceOrderIndependent(gs: seq<map<int, int>>, gs': seq<map<int, int>>, i: int)
    requires multiset(gs) == multiset(gs')
    ensures SumInt(gs, CountAt(i)) == SumInt(gs', CountAt(i))
  {
    SumIntPermutation(gs, gs', CountAt(i));
  }

  /** A cell no worker counted keeps its value. */
  lemma {:induction false} ReduceUntouched(gs: seq<map<int, int>>, i: int)
    requires forall n :: 0 <= n < |gs| ==> i !in gs[n]
    ensures SumInt(gs, CountAt(i)) == 0
    decreases |gs|
  {
    if |gs| > 0 {
      ReduceUntouched(gs[..|gs| - 1], i);
    }
  }
}
