/** The tree renderer's chaos-game walk (cmd/tree/tree.go): a point is drawn
    on the current junction, carried into the canvas frame, binned into a
    pixel and counted; the junction then says whether the walk descends into
    a branch (shrinking and turning its frame) or starts again at the root.
    The counts are finally scaled to 16-bit gray levels. */
module TreeWalk {
  import opened Geometry
  import opened Grid
  import opened Sums
  import opened Peaks
  import opened TreeNode

  const Width: int := 2560
  const Height: int := 1440
  const Cells: int := Width * Height

  const ViewScale: real := 3.0
  const HorizontalCenter: real := 0.5
  const VerticalCenter: real := 2.5

  /** The visible window of the plane. */
  const Bottom: real := VerticalCenter - ViewScale
  const Top: real := VerticalCenter + ViewScale
  const LeftEdge: real := HorizontalCenter - ViewScale * Width as real / Height as real
  const RightEdge: real := HorizontalCenter + ViewScale * Width as real / Height as real
  const ViewWidth: real := RightEdge - LeftEdge
  const ViewHeight: real := Top - Bottom

  /** `Rescale`: scale, rotate by `angle`, then translate by `offset`. In
      the root frame it is the identity. */
  function Rescale(p: XY, scale: real, angle: real, offset: XY, trig: Trig): (q: XY)
    ensures scale == 1.0 && trig.cos(angle) == 1.0 && trig.sin(angle) == 0.0 ==>
              q == XY(p.x + offset.x, p.y + offset.y)
  {
    var c, s := trig.cos(angle), trig.sin(angle);
    UnitFrame(p, scale, c, s, offset);
    XY(p.x * scale * c - p.y * scale * s + offset.x, p.x * scale * s + p.y * scale * c + offset.y)
  }

  /** Scale 1 and no turn leave a point where it is. */
  lemma UnitFrame(p: XY, k: real, c: real, s: real, offset: XY)
    ensures k == 1.0 && c == 1.0 && s == 0.0 ==>
              XY(p.x * k * c - p.y * k * s + offset.x, p.x * k * s + p.y * k * c + offset.y)
              == XY(p.x + offset.x, p.y + offset.y)
  {
    if k == 1.0 && c == 1.0 && s == 0.0 {
      assert p.x * k * c == p.x * 1.0 * 1.0 == p.x;
      assert p.y * k * s == p.y * 1.0 * 0.0 == 0.0;
      assert p.x * k * s == p.x * 1.0 * 0.0 == 0.0;
      assert p.y * k * c == p.y * 1.0 * 1.0 == p.y;
    }
  }

  /** With a sine and cosine on the unit circle, `Rescale` multiplies every
      distance from the frame's origin by `scale`. */
  lemma RescaleScalesDistance(p: XY, scale: real, angle: real, offset: XY, trig: Trig)
    requires UnitCircle(trig, angle)
    ensures var q := Rescale(p, scale, angle, offset, trig);
            (q.x - offset.x) * (q.x - offset.x) + (q.y - offset.y) * (q.y - offset.y)
            == scale * scale * (p.x * p.x + p.y * p.y)
  {
    RotationScalesLength(p.x, p.y, scale, trig.cos(angle), trig.sin(angle));
  }

  /** Scaling by k and rotating by (c, s) with c² + s² = 1 multiplies
      squared lengths by k². */
  lemma RotationScalesLength(px: real, py: real, k: real, c: real, s: real)
    ensures c * c + s * s == 1.0 ==>
              var x, y := px * k, py * k;
              (x * c - y * s) * (x * c - y * s) + (x * s + y * c) * (x * s + y * c) == k * k * (px * px + py * py)
  {
    var x, y := px * k, py * k;
    RotationKeepsLength(x, y, c, s);
    assert x * x + y * y == k * k * (px * px + py * py);
  }

  lemma RotationKeepsLength(x: real, y: real, c: real, s: real)
    ensures (x * c - y * s) * (x * c - y * s) + (x * s + y * c) * (x * s + y * c) == (x * x + y * y) * (c * c + s * s)
  {
  }

  /** The walk's state: `curNode`, `scale`, `angle` and `offset`. */
  datatype Walk = Walk(node: Tree, scale: real, angle: real, offset: XY)

  /** The state at the start and after every `None`. */
  function Start(root: Tree): Walk
  {
    Walk(root, 1.0, 0.0, XY(0.0, 0.0))
  }

  /** The branch a descent enters. */
  function Child(t: Tree, b: Branch): Tree
    requires t.Node? && b != None
  {
    if b == Left then t.left else t.right
  }

  /** Share of the junction's width the branch keeps. */
  function BranchShare(t: Tree, b: Branch): real
    requires t.Node? && b != None
  {
    if b == Left then t.leftP else 1.0 - t.leftP
  }

  /** Turn of the branch, counter-clockwise positive. */
  function SignedTurn(t: Tree, b: Branch): real
    requires t.Node? && b != None
  {
    if b == Left then t.leftAngle else -t.rightAngle
  }

  /** The switch on `Continue`'s answer: restart, or enter the branch with
      the frame shrunk by its share, turned by its angle and moved to its
      origin. */
  function Advance(root: Tree, w: Walk, c: Branch, trig: Trig): (a: Walk)
    requires w.node.Node?
    ensures c == None ==> a == Start(root)
    ensures c != None ==> a.node == Child(w.node, c) && a.scale == w.scale * BranchShare(w.node, c)
                          && a.angle == w.angle + SignedTurn(w.node, c)
    ensures c == Left ==> a.offset == Rescale(LeftOrigin(w.node, trig), w.scale, w.angle, w.offset, trig)
    ensures c == Right ==> a.offset == Rescale(RightOrigin(w.node, trig), w.scale, w.angle, w.offset, trig)
  {
    match c
    case None => Start(root)
    case Left =>
      Walk(w.node.left, w.scale * w.node.leftP, w.angle + w.node.leftAngle,
           Rescale(LeftOrigin(w.node, trig), w.scale, w.angle, w.offset, trig))
    case Right =>
      Walk(w.node.right, w.scale * (1.0 - w.node.leftP), w.angle - w.node.rightAngle,
           Rescale(RightOrigin(w.node, trig), w.scale, w.angle, w.offset, trig))
  }

  /** What the walk keeps true: it stands on a junction of a well-formed
      tree and its scale lies in (0, 1]. */
  predicate WalkOk(w: Walk)
  {
    w.node.Node? && WellFormed(w.node) && 0.0 < w.scale <= 1.0
  }

  lemma ShrinkScale(scale: real, f: real)
    requires 0.0 < scale <= 1.0 && 0.0 < f <= 1.0
    ensures 0.0 < scale * f <= 1.0
  {
    MulLeReal(f, 1.0, scale);
    assert f * scale <= scale;
    assert scale * f <= scale;
    MulPositive(scale, f);
  }

  lemma MulPositive(a: real, b: real)
    requires a > 0.0 && b > 0.0
    ensures a * b > 0.0
  {
  }

  /** With a draw from [0, 1) the walk never reaches nil and never grows:
      a branch is entered only when its share is positive. */
  lemma AdvanceKeepsWalkOk(root: Tree, w: Walk, d: real, trig: Trig)
    requires root.Node? && WellFormed(root)
    requires WalkOk(w) && 0.0 <= d
    ensures WalkOk(Advance(root, w, Continue(w.node, d), trig))
  {
    var t := w.node;
    var c := Continue(t, d);
    if c == Left {
      assert t.leftP != 0.0;
      DescentKeepsWalkOk(root, w, c, trig);
    } else if c == Right {
      assert t.leftP != 1.0;
      DescentKeepsWalkOk(root, w, c, trig);
    }
  }

  lemma DescentKeepsWalkOk(root: Tree, w: Walk, c: Branch, trig: Trig)
    requires WalkOk(w) && c != None && Child(w.node, c).Node? && BranchShare(w.node, c) > 0.0
    ensures WalkOk(Advance(root, w, c, trig))
  {
    var share := BranchShare(w.node, c);
    var a := Advance(root, w, c, trig);
    AdvanceDescends(root, w, c, trig);
    ChildWellFormed(w.node, c);
    DescendedWalkOk(a, w.scale, share, Child(w.node, c));
  }

  /** A child of a well-formed junction is well formed, and its share is at most 1. */
  lemma ChildWellFormed(t: Tree, c: Branch)
    requires t.Node? && WellFormed(t) && c != None
    ensures WellFormed(Child(t, c)) && BranchShare(t, c) <= 1.0
  {
  }

  /** A walk standing on a well-formed junction whose scale is an old
      scale in (0, 1] times a share in (0, 1] is a good walk. */
  lemma DescendedWalkOk(a: Walk, scale: real, share: real, child: Tree)
    requires child.Node? && WellFormed(child) && a.node == child
    requires 0.0 < scale <= 1.0 && 0.0 < share <= 1.0 && a.scale == scale * share
    ensures WalkOk(a)
  {
    ShrinkScale(scale, share);
  }

  /** `path` is a sequence of descents that stays on junctions of `t`. */
  predicate OnTree(t: Tree, path: seq<Branch>)
    decreases |path|
  {
    t.Node? && (|path| > 0 ==> path[0] != None && OnTree(Child(t, path[0]), path[1..]))
  }

  /** The junction reached from `t` along `path`. */
  function NodeAlong(t: Tree, path: seq<Branch>): (n: Tree)
    requires OnTree(t, path)
    ensures n.Node?
    decreases |path|
  {
    if |path| == 0 then t else NodeAlong(Child(t, path[0]), path[1..])
  }

  /** Product of the shares along `path`. */
  function ScaleAlong(t: Tree, path: seq<Branch>): real
    requires OnTree(t, path)
    decreases |path|
  {
    if |path| == 0 then 1.0 else BranchShare(t, path[0]) * ScaleAlong(Child(t, path[0]), path[1..])
  }

  /** Sum of the signed turns along `path`. */
  function TurnAlong(t: Tree, path: seq<Branch>): real
    requires OnTree(t, path)
    decreases |path|
  {
    if |path| == 0 then 0.0 else SignedTurn(t, path[0]) + TurnAlong(Child(t, path[0]), path[1..])
  }

  /** One more descent at the end of a path. */
  lemma {:induction false} AlongSnoc(t: Tree, path: seq<Branch>, b: Branch)
    requires OnTree(t, path) && b != None && Child(NodeAlong(t, path), b).Node?
    ensures OnTree(t, path + [b])
    ensures NodeAlong(t, path + [b]) == Child(NodeAlong(t, path), b)
    ensures ScaleAlong(t, path + [b]) == ScaleAlong(t, path) * BranchShare(NodeAlong(t, path), b)
    ensures TurnAlong(t, path + [b]) == TurnAlong(t, path) + SignedTurn(NodeAlong(t, path), b)
    decreases |path|
  {
    if |path| == 0 {
      assert [] + [b] == [b];
      assert [b][1..] == [];
    } else {
      var c := Child(t, path[0]);
      assert (path + [b])[0] == path[0];
      assert (path + [b])[1..] == path[1..] + [b];
      AlongSnoc(c, path[1..], b);
      var s0, s, x := BranchShare(t, path[0]), ScaleAlong(c, path[1..]), BranchShare(NodeAlong(t, path), b);
      assert s0 * (s * x) == (s0 * s) * x;
    }
  }

  /** The walk's node, scale and angle are those of the path of descents
      taken since the last restart. */
  predicate Tracks(root: Tree, w: Walk, path: seq<Branch>)
  {
    OnTree(root, path) && w.node == NodeAlong(root, path)
    && w.scale == ScaleAlong(root, path) && w.angle == TurnAlong(root, path)
  }

  /** `None` restarts the path; a descent extends it by one branch. */
  lemma AdvanceTracks(root: Tree, w: Walk, path: seq<Branch>, d: real, trig: Trig)
    requires root.Node? && Tracks(root, w, path)
    ensures Continue(w.node, d) == None ==> Tracks(root, Advance(root, w, Continue(w.node, d), trig), [])
    ensures Continue(w.node, d) != None ==> Tracks(root, Advance(root, w, Continue(w.node, d), trig), path + [Continue(w.node, d)])
  {
    var c := Continue(w.node, d);
    if c != None {
      DescentTracks(root, w, path, c, trig);
    }
  }

  lemma DescentTracks(root: Tree, w: Walk, path: seq<Branch>, c: Branch, trig: Trig)
    requires root.Node? && Tracks(root, w, path)
    requires c != None && Child(w.node, c).Node?
    ensures Tracks(root, Advance(root, w, c, trig), path + [c])
  {
    AlongSnoc(root, path, c);
    AdvanceDescends(root, w, c, trig);
  }

  /** A descent moves the walk to the branch, multiplies the scale by the
      branch's share and adds its signed turn to the angle. */
  lemma AdvanceDescends(root: Tree, w: Walk, c: Branch, trig: Trig)
    requires w.node.Node? && c != None
    ensures Advance(root, w, c, trig).node == Child(w.node, c)
    ensures Advance(root, w, c, trig).scale == w.scale * BranchShare(w.node, c)
    ensures Advance(root, w, c, trig).angle == w.angle + SignedTurn(w.node, c)
  {
  }

  /** Column of a point: `int((x - left) / viewWidth * width)`. */
  function PixelX(x: real): (px: int)
    ensures LeftEdge <= x ==> 0 <= px
    ensures x <= RightEdge ==> px <= Width
    ensures x < RightEdge ==> px < Width
  {
    ((x - LeftEdge) / ViewWidth * Width as real).Floor
  }

  /** Row of a point, counted down from the top. */
  function PixelY(y: real): (py: int)
    ensures y <= Top ==> 0 <= py
    ensures Bottom <= y ==> py <= Height
    ensures Bottom < y ==> py < Height
  {
    ((Top - y) / ViewHeight * Height as real).Floor
  }

  /** The bounds checks that precede binning; a point outside panics. */
  predicate InView(p: XY)
  {
    LeftEdge <= p.x <= RightEdge && Bottom <= p.y <= Top
  }

  /** `cell := px + py*width` as written. */
  function CellAsWritten(p: XY): (c: int)
    requires InView(p)
    ensures 0 <= c
  {
    Index(PixelX(p.x), PixelY(p.y), Width)
  }

  /** The checks admit the right and bottom edges: a point on the right
      edge is counted in column 0 of the next row, like a point on the left
      edge one row lower, and a point on the bottom edge indexes past the
      buffer. */
  lemma CellEdgesAsWritten()
    ensures InView(XY(RightEdge, Top)) && CellAsWritten(XY(RightEdge, Top)) == Index(0, 1, Width)
    ensures InView(XY(LeftEdge, Top - 1.5 * ViewHeight / Height as real))
    ensures CellAsWritten(XY(RightEdge, Top)) == CellAsWritten(XY(LeftEdge, Top - 1.5 * ViewHeight / Height as real))
    ensures InView(XY(LeftEdge, Bottom)) && CellAsWritten(XY(LeftEdge, Bottom)) == Cells
  {
    EdgePixels();
    var y1 := Top - 1.5 * ViewHeight / Height as real;
    assert InView(XY(RightEdge, Top)) && InView(XY(LeftEdge, y1)) && InView(XY(LeftEdge, Bottom)) by {
      ViewConstants();
    }
    assert CellAsWritten(XY(RightEdge, Top)) == Index(Width, 0, Width);
    assert CellAsWritten(XY(LeftEdge, y1)) == Index(0, 1, Width);
    assert CellAsWritten(XY(LeftEdge, Bottom)) == Index(0, Height, Width);
  }

  lemma ViewConstants()
    ensures LeftEdge == -29.0 / 6.0 && RightEdge == 35.0 / 6.0 && ViewWidth == 32.0 / 3.0
    ensures Bottom == -0.5 && Top == 5.5 && ViewHeight == 6.0
  {
    assert ViewScale * Width as real / Height as real == 16.0 / 3.0;
  }

  lemma EdgePixels()
    ensures PixelX(RightEdge) == Width && PixelX(LeftEdge) == 0
    ensures PixelY(Top) == 0 && PixelY(Bottom) == Height
    ensures PixelY(Top - 1.5 * ViewHeight / Height as real) == 1
  {
    ViewConstants();
    assert (RightEdge - LeftEdge) / ViewWidth * Width as real == 2560.0;
    assert (Top - Bottom) / ViewHeight * Height as real == 1440.0;
    assert (Top - (Top - 1.5 * ViewHeight / Height as real)) / ViewHeight * Height as real == 1.5;
  }

  /** Column of an in-view abscissa with the right edge clamped into the
      last column. */
  function Column(x: real): (c: int)
    requires LeftEdge <= x <= RightEdge
    ensures 0 <= c < Width
    ensures x < RightEdge ==> c == PixelX(x)
  {
    if PixelX(x) == Width then Width - 1 else PixelX(x)
  }

  /** Row of an in-view ordinate with the bottom edge clamped into the last
      row. */
  function Row(y: real): (r: int)
    requires Bottom <= y <= Top
    ensures 0 <= r < Height
    ensures Bottom < y ==> r == PixelY(y)
  {
    if PixelY(y) == Height then Height - 1 else PixelY(y)
  }

  /** Binning with the edge pixels clamped, so the right edge falls in the
      last column and the bottom edge in the last row. */
  function Cell(p: XY): (c: int)
    requires InView(p)
    ensures 0 <= c < Cells
    ensures p.x < RightEdge && Bottom < p.y ==> c == CellAsWritten(p)
  {
    IndexInRange(Column(p.x), Row(p.y), Width, Height);
    Index(Column(p.x), Row(p.y), Width)
  }

  /** The source's cell of an in-view point is past the count buffer only
      on the bottom edge, or on the right edge in the last row; every point
      on the bottom edge is past it. */
  lemma CellPastBuffer(p: XY)
    requires InView(p)
    ensures CellAsWritten(p) >= Cells ==> p.y == Bottom || p.x == RightEdge
    ensures p.y == Bottom ==> CellAsWritten(p) >= Cells
  {
    if p.y == Bottom {
      EdgePixels();
    }
  }

  /** Two in-view points share a cell exactly when they share its column
      and row. */
  lemma CellNoWrap(p: XY, q: XY)
    requires InView(p) && InView(q)
    ensures Cell(p) == Cell(q) <==> Column(p.x) == Column(q.x) && Row(p.y) == Row(q.y)
  {
    if Cell(p) == Cell(q) {
      IndexInjective(Column(p.x), Row(p.y), Column(q.x), Row(q.y), Width);
    }
  }

  /** The draws of one iteration: the point's four, then `Continue`'s. */
  datatype StepDraws = StepDraws(point: PointDraws, cont: real)

  /** Continuation draws are random numbers from [0, 1). */
  predicate Draws(steps: seq<StepDraws>)
  {
    forall i :: 0 <= i < |steps| ==> 0.0 <= steps[i].cont
  }

  /** A point drawn on the walk's junction, carried into the canvas frame. */
  function Place(w: Walk, p: PointDraws, trig: Trig): XY
    requires w.node.Node?
  {
    Rescale(RandomPoint(w.node, p, trig), w.scale, w.angle, w.offset, trig)
  }

  /** One step of the walk on a continuation draw. */
  function Step(root: Tree, w: Walk, d: real, trig: Trig): (w': Walk)
    requires root.Node? && WellFormed(root) && WalkOk(w) && 0.0 <= d
    ensures WalkOk(w')
  {
    AdvanceKeepsWalkOk(root, w, d, trig);
    Advance(root, w, Continue(w.node, d), trig)
  }

  /** A run starts on a junction of a well-formed tree and its
      continuation draws are non-negative. */
  predicate Runnable(root: Tree, steps: seq<StepDraws>)
  {
    root.Node? && WellFormed(root) && Draws(steps)
  }

  /** The walk's state before iteration i. */
  function WalkAt(root: Tree, steps: seq<StepDraws>, i: nat, trig: Trig): (w: Walk)
    requires Runnable(root, steps) && i <= |steps|
    ensures WalkOk(w)
  {
    if i == 0 then Start(root) else Step(root, WalkAt(root, steps, i - 1, trig), steps[i - 1].cont, trig)
  }

  /** The point iteration i draws, in the canvas frame. */
  function PointAt(root: Tree, steps: seq<StepDraws>, i: nat, trig: Trig): XY
    requires Runnable(root, steps) && i < |steps|
  {
    Place(WalkAt(root, steps, i, trig), steps[i].point, trig)
  }

  /** The first n points are all in view. */
  predicate AllInView(root: Tree, steps: seq<StepDraws>, n: nat, trig: Trig)
    requires Runnable(root, steps) && n <= |steps|
  {
    n == 0 || (AllInView(root, steps, n - 1, trig) && InView(PointAt(root, steps, n - 1, trig)))
  }

  /** `AllInView` says what its name says, point by point. */
  lemma {:induction false} AllInViewMeans(root: Tree, steps: seq<StepDraws>, n: nat, trig: Trig)
    requires Runnable(root, steps) && n <= |steps|
    ensures AllInView(root, steps, n, trig) <==> forall k :: 0 <= k < n ==> InView(PointAt(root, steps, k, trig))
  {
    if AllInView(root, steps, n, trig) {
      InViewUpTo(root, steps, n, trig);
    } else {
      NotInViewSomewhere(root, steps, n, trig);
    }
  }

  lemma {:induction false} InViewUpTo(root: Tree, steps: seq<StepDraws>, n: nat, trig: Trig)
    requires Runnable(root, steps) && n <= |steps| && AllInView(root, steps, n, trig)
    ensures forall k :: 0 <= k < n ==> InView(PointAt(root, steps, k, trig))
  {
    if n > 0 {
      InViewUpTo(root, steps, n - 1, trig);
      forall k | 0 <= k < n
        ensures InView(PointAt(root, steps, k, trig))
      {
        if k < n - 1 {
          assert InView(PointAt(root, steps, k, trig));
        }
      }
    }
  }

  lemma {:induction false} NotInViewSomewhere(root: Tree, steps: seq<StepDraws>, n: nat, trig: Trig)
    requires Runnable(root, steps) && n <= |steps| && !AllInView(root, steps, n, trig)
    ensures exists k :: 0 <= k < n && !InView(PointAt(root, steps, k, trig))
  {
    if !InView(PointAt(root, steps, n - 1, trig)) {
      assert 0 <= n - 1 < n;
    } else {
      NotInViewSomewhere(root, steps, n - 1, trig);
    }
  }

  /** The cells `px + py*width` of the first n points. */
  function Visited(root: Tree, steps: seq<StepDraws>, n: nat, trig: Trig): (v: seq<int>)
    requires Runnable(root, steps) && n <= |steps|
    requires AllInView(root, steps, n, trig)
    ensures |v| == n
  {
    if n == 0 then [] else Visited(root, steps, n - 1, trig) + [CellAsWritten(PointAt(root, steps, n - 1, trig))]
  }

  /** Visit k is the source's cell of point k. */
  lemma {:induction false} VisitedCells(root: Tree, steps: seq<StepDraws>, n: nat, trig: Trig)
    requires Runnable(root, steps) && n <= |steps|
    requires AllInView(root, steps, n, trig)
    ensures forall k :: 0 <= k < n ==> InView(PointAt(root, steps, k, trig))
    ensures forall k :: 0 <= k < n ==> Visited(root, steps, n, trig)[k] == CellAsWritten(PointAt(root, steps, k, trig))
  {
    if n > 0 {
      VisitedCells(root, steps, n - 1, trig);
      var prev := Visited(root, steps, n - 1, trig);
      var last := PointAt(root, steps, n - 1, trig);
      assert InView(last);
      var v := Visited(root, steps, n, trig);
      assert v == prev + [CellAsWritten(last)];
      forall k | 0 <= k < n
        ensures InView(PointAt(root, steps, k, trig))
        ensures v[k] == CellAsWritten(PointAt(root, steps, k, trig))
      {
        SnocAt(prev, CellAsWritten(last), k);
      }
    }
  }

  /** Entry k of `prev + [x]`. */
  lemma SnocAt(prev: seq<int>, x: int, k: int)
    requires 0 <= k <= |prev|
    ensures (prev + [x])[k] == if k < |prev| then prev[k] else x
  {
  }

  /** A run whose points keep off the right and bottom edges visits
      exactly the corrected cells, which all lie in the buffer. */
  lemma VisitedAwayFromEdges(root: Tree, steps: seq<StepDraws>, n: nat, trig: Trig)
    requires Runnable(root, steps) && n <= |steps|
    requires AllInView(root, steps, n, trig)
    requires forall k :: 0 <= k < n ==> PointAt(root, steps, k, trig).x < RightEdge && Bottom < PointAt(root, steps, k, trig).y
    ensures forall k :: 0 <= k < n ==> InView(PointAt(root, steps, k, trig))
    ensures forall k :: 0 <= k < n ==> Visited(root, steps, n, trig)[k] == Cell(PointAt(root, steps, k, trig))
    ensures InBuffer(Visited(root, steps, n, trig))
  {
    VisitedCells(root, steps, n, trig);
  }

  /** Every cell of `v` indexes the count buffer. */
  predicate InBuffer(v: seq<int>)
  {
    forall k :: 0 <= k < |v| ==> 0 <= v[k] < Cells
  }

  /** The count buffer after the visits `v`, bumped one visit at a time;
      a cell outside the canvas is not counted. */
  function Tally(v: seq<int>): (t: seq<int>)
    ensures |t| == Cells
  {
    if |v| == 0 then seq(Cells, _ => 0)
    else
      var t := Tally(v[..|v| - 1]);
      var c := v[|v| - 1];
      if 0 <= c < Cells then t[c := t[c] + 1] else t
  }

  lemma TallySnoc(v: seq<int>, c: int)
    requires 0 <= c < Cells
    ensures Tally(v + [c]) == Tally(v)[c := Tally(v)[c] + 1]
  {
    assert (v + [c])[..|v|] == v;
  }

  /** `counts` holds, cell by cell, how often the cells in `v` were hit,
      and its total is the number of visits. */
  predicate CountsOf(counts: seq<int>, v: seq<int>)
  {
    |counts| == Cells && (forall c :: 0 <= c < Cells ==> counts[c] == multiset(v)[c]) && Total(counts) == |v|
  }

  lemma {:induction false} TotalZeros(n: nat)
    ensures Total(seq(n, _ => 0)) == 0
  {
    if n > 0 {
      assert seq(n, _ => 0)[..n - 1] == seq(n - 1, _ => 0);
      TotalZeros(n - 1);
    }
  }

  lemma CountsOfBump(counts: seq<int>, v: seq<int>, c: int)
    requires CountsOf(counts, v) && 0 <= c < Cells
    ensures CountsOf(counts[c := counts[c] + 1], v + [c])
  {
    TotalIncrement(counts, c);
    assert multiset(v + [c]) == multiset(v) + multiset{c};
  }

  /** The tally of in-canvas visits is their histogram. */
  lemma {:induction false} TallyCounts(v: seq<int>)
    requires InBuffer(v)
    ensures CountsOf(Tally(v), v)
  {
    if |v| == 0 {
      TotalZeros(Cells);
    } else {
      var u, c := v[..|v| - 1], v[|v| - 1];
      TallyCounts(u);
      assert v == u + [c];
      CountsOfBump(Tally(u), u, c);
    }
  }

  /** One iteration on an in-view point: the point is counted in its cell
      and the walk moves on. */
  lemma RenderStep(root: Tree, steps: seq<StepDraws>, trig: Trig, i: nat, w: Walk)
    requires Runnable(root, steps) && i < |steps|
    requires w == WalkAt(root, steps, i, trig) && AllInView(root, steps, i, trig)
    requires InView(Place(w, steps[i].point, trig))
    ensures AllInView(root, steps, i + 1, trig)
    ensures Visited(root, steps, i + 1, trig) == Visited(root, steps, i, trig) + [CellAsWritten(Place(w, steps[i].point, trig))]
    ensures Step(root, w, steps[i].cont, trig) == WalkAt(root, steps, i + 1, trig)
  {
    assert Place(w, steps[i].point, trig) == PointAt(root, steps, i, trig);
  }

  /** How a run ends: with the counts, with the bounds panic at a step, or
      with the index-out-of-range panic of `counts[cell]++` at a step. */
  datatype Outcome = Drawn(counts: seq<int>) | OutOfView(step: nat) | IndexPanic(step: nat)

  /** The rendering loop. It panics at the first point outside the view,
      or at the first in-view point whose cell is past the buffer;
      otherwise every point is counted once, in its own cell. */
  method Render(root: Tree, steps: seq<StepDraws>, trig: Trig) returns (o: Outcome)
    requires Runnable(root, steps)
    ensures o.OutOfView? ==> o.step < |steps| && AllInView(root, steps, o.step, trig)
                             && InBuffer(Visited(root, steps, o.step, trig))
                             && !InView(PointAt(root, steps, o.step, trig))
    ensures o.IndexPanic? ==> o.step < |steps| && AllInView(root, steps, o.step + 1, trig)
                              && InBuffer(Visited(root, steps, o.step, trig))
                              && CellAsWritten(PointAt(root, steps, o.step, trig)) >= Cells
    ensures o.Drawn? ==> AllInView(root, steps, |steps|, trig) && InBuffer(Visited(root, steps, |steps|, trig))
                         && CountsOf(o.counts, Visited(root, steps, |steps|, trig))
  {
    var counts := seq(Cells, _ => 0);
    var w := Start(root);
    var i := 0;
    while i < |steps|
      invariant i <= |steps|
      invariant w == WalkAt(root, steps, i, trig)
      invariant AllInView(root, steps, i, trig)
      invariant InBuffer(Visited(root, steps, i, trig))
      invariant counts == Tally(Visited(root, steps, i, trig))
    {
      var xy := Place(w, steps[i].point, trig);
      if !InView(xy) {
        return OutOfView(i);
      }
      if CellAsWritten(xy) >= Cells {
        RenderStep(root, steps, trig, i, w);
        return IndexPanic(i);
      }
      counts, w := CountAndStep(root, steps, trig, i, w, counts);
      i := i + 1;
    }
    TallyCounts(Visited(root, steps, i, trig));
    o := Drawn(counts);
  }

  /** The body of the rendering loop for an in-view point whose cell is in
      the buffer: count it, then let the junction decide where the walk
      goes. */
  method CountAndStep(root: Tree, steps: seq<StepDraws>, trig: Trig, i: nat, w: Walk, counts: seq<int>)
    returns (counts': seq<int>, w': Walk)
    requires Runnable(root, steps) && i < |steps|
    requires w == WalkAt(root, steps, i, trig) && AllInView(root, steps, i, trig)
    requires InBuffer(Visited(root, steps, i, trig))
    requires counts == Tally(Visited(root, steps, i, trig))
    requires InView(Place(w, steps[i].point, trig)) && CellAsWritten(Place(w, steps[i].point, trig)) < Cells
    ensures AllInView(root, steps, i + 1, trig)
    ensures w' == WalkAt(root, steps, i + 1, trig)
    ensures InBuffer(Visited(root, steps, i + 1, trig))
    ensures counts' == Tally(Visited(root, steps, i + 1, trig))
  {
    RenderStep(root, steps, trig, i, w);
    var cell := CellAsWritten(Place(w, steps[i].point, trig));
    TallySnoc(Visited(root, steps, i, trig), cell);
    counts' := counts[cell := counts[cell] + 1];
    w' := Step(root, w, steps[i].cont, trig);
  }

  /** `c * MaxUint16 / maxCount` in Go's integer arithmetic. */
  function GrayLevel(c: int, maxCount: int): (g: int)
    requires maxCount > 0
    ensures 0 <= c ==> 0 <= g && g * maxCount <= c * MaxUint16 < (g + 1) * maxCount
  {
    GoQuot(c * MaxUint16, maxCount)
  }

  /** Levels are 16-bit, keep the order of the counts, and the largest
      count is full white. */
  lemma GrayLevelRange(c1: int, c2: int, maxCount: int)
    requires 0 <= c1 <= c2 <= maxCount && 0 < maxCount
    ensures 0 <= GrayLevel(c1, maxCount) <= GrayLevel(c2, maxCount) <= MaxUint16
    ensures GrayLevel(maxCount, maxCount) == MaxUint16
  {
    MulMonotone(0, c1, MaxUint16);
    MulMonotone(c1, c2, MaxUint16);
    MulMonotone(c2, maxCount, MaxUint16);
    GoQuotMonotone(c1 * MaxUint16, c2 * MaxUint16, maxCount);
    GoQuotMonotone(c2 * MaxUint16, maxCount * MaxUint16, maxCount);
    assert maxCount * MaxUint16 == MaxUint16 * maxCount;
    var q := GoQuot(maxCount * MaxUint16, maxCount);
    if q < MaxUint16 {
      MulStep(q, MaxUint16, maxCount);
    } else if q > MaxUint16 {
      MulStep(MaxUint16, q, maxCount);
    }
  }

  /** The gray image, or the divide-by-zero panic of a canvas with no hit. */
  datatype Gray = Levels(levels: seq<int>) | DivideByZero

  /** The largest count, then every count rescaled to 16 bits. */
  method Normalize(counts: seq<int>) returns (g: Gray)
    ensures g.DivideByZero? <==> |counts| > 0 && PeakCount(counts) == 0
    ensures g.Levels? ==> |g.levels| == |counts|
    ensures g.Levels? ==> forall i :: 0 <= i < |counts| ==>
              PeakCount(counts) > 0 && g.levels[i] == GrayLevel(counts[i], PeakCount(counts))
  {
    var maxCount := MaxCount(counts);
    if maxCount == 0 && |counts| > 0 {
      return DivideByZero;
    }
    var levels := [];
    var i := 0;
    while i < |counts|
      invariant 0 <= i <= |counts|
      invariant |levels| == i
      invariant forall k :: 0 <= k < i ==> levels[k] == GrayLevel(counts[k], maxCount)
    {
      levels := levels + [GoQuot(counts[i] * MaxUint16, maxCount)];
      i := i + 1;
    }
    g := Levels(levels);
  }

  /** A finished run has something to normalise: its canvas total is the
      number of steps, so a non-empty run never divides by zero. */
  lemma RenderedPeakPositive(counts: seq<int>, v: seq<int>)
    requires CountsOf(counts, v) && |v| > 0
    ensures PeakCount(counts) > 0
  {
    if PeakCount(counts) == 0 {
      PeakCountZeroIffNoPositive(counts);
      TotalNonPositive(counts);
    }
  }

  lemma {:induction false} TotalNonPositive(s: seq<int>)
    requires forall i :: 0 <= i < |s| ==> s[i] <= 0
    ensures Total(s) <= 0
  {
    if |s| > 0 {
      TotalNonPositive(s[..|s| - 1]);
    }
  }
}
