/** The branching junction of an IFS tree fractal (pkg/tree/tree.go): a node
    splits its probability mass between a left and a right branch, each
    turned by its own angle, and a walk through the tree asks the node
    whether to continue left, right or start over. */
module TreeNode {
  import opened Geometry
  import opened Grid

  /** How much longer a branch is than it is wide, counting the turn. */
  const LengthFactor: real := 1.5

  /** `*Tree`: `Nil` is Go's nil. `leftP` is the share of the left
      branch; angles are radians, left counter-clockwise, right clockwise. */
  datatype Tree = Nil | Node(leftP: real, leftAngle: real, rightAngle: real, left: Tree, right: Tree)

  /** The three answers of `Continue`. */
  datatype Branch = None | Left | Right

  /** Every node of the tree splits its mass as a proportion. */
  predicate WellFormed(t: Tree)
  {
    t.Nil? || (0.0 <= t.leftP <= 1.0 && WellFormed(t.left) && WellFormed(t.right))
  }

  /** Upper end of the right branch's draw region: left takes
      [0, p^2), right takes [p^2, p^2 + (1-p)^2), and the rest stops. */
  function RightLimit(p: real): real
  {
    (1.0 - p) * (1.0 - p) + p * p
  }

  /** `Continue`: a draw picks a region; a region whose branch is nil stops. */
  function Continue(t: Tree, d: real): (c: Branch)
    requires t.Node?
    ensures c == Left <==> d < t.leftP * t.leftP && t.left.Node?
    ensures c == Right <==> t.leftP * t.leftP <= d < RightLimit(t.leftP) && t.right.Node?
    ensures c == Left ==> t.left != Nil
    ensures c == Right ==> t.right != Nil
  {
    if d < t.leftP * t.leftP then
      if t.left != Nil then Left else None
    else if d < RightLimit(t.leftP) then
      if t.right != Nil then Right else None
    else None
  }

  /** A leaf always stops the walk. */
  lemma LeafStops(t: Tree, d: real)
    requires t.Node? && t.left.Nil? && t.right.Nil?
    ensures Continue(t, d) == None
  {
  }

  /** For a proportion p the two branch regions fit inside [0, 1) and
      leave between 0 and one half of the mass to stopping. */
  lemma RegionsFitUnitInterval(p: real)
    requires 0.0 <= p <= 1.0
    ensures 0.0 <= p * p <= RightLimit(p) <= 1.0
    ensures RightLimit(p) >= 0.5
  {
    var q := 1.0 - p;
    assert RightLimit(p) == 1.0 - 2.0 * (p * q);
    MulLeReal(0.0, p, q);
    MulLeReal(0.0, p, p);
    SquareNonNegative(p - 0.5);
    assert p * q == 0.25 - (p - 0.5) * (p - 0.5);
  }

  lemma SquareNonNegative(x: real)
    ensures x * x >= 0.0
  {
    if x >= 0.0 {
      MulLeReal(0.0, x, x);
    } else {
      MulLeReal(x, 0.0, -x);
    }
  }

  /** The draws of one `RandomPoint` call, in the order they are taken. */
  datatype PointDraws = PointDraws(side: real, turn: real, across: real, along: real)

  /** Branch, turn angle and width a point is drawn on. */
  datatype Footprint = Footprint(isLeft: bool, angle: real, width: real)

  /** The first draw picks the branch: left iff it is below `leftP`. */
  function FootprintOf(t: Tree, side: real): (f: Footprint)
    requires t.Node?
    ensures 0.0 <= t.leftP <= 1.0 ==> 0.0 <= f.width <= 1.0
  {
    var isLeft := side < t.leftP;
    Footprint(isLeft, if isLeft then t.leftAngle else t.rightAngle, if isLeft then t.leftP else 1.0 - t.leftP)
  }

  /** Cosine and sine of `a` lie on the unit circle. */
  predicate UnitCircle(trig: Trig, a: real)
  {
    trig.cos(a) * trig.cos(a) + trig.sin(a) * trig.sin(a) == 1.0
  }

  /** A point on the straight part of a left-turning branch: `across` of
      the width out from its left edge and `along` of its straight length
      up, in the frame turned by the branch's angle. */
  function StraightPoint(angle: real, width: real, across: real, along: real, trig: Trig): (p: XY)
    ensures UnitCircle(trig, angle) ==>
              p.x * trig.cos(angle) + p.y * trig.sin(angle) == across * width
              && p.y * trig.cos(angle) - p.x * trig.sin(angle) == along * (LengthFactor - 0.5 * angle * width)
  {
    var rWidth := across * width;
    var rHeight := along * (LengthFactor - 0.5 * angle * width);
    var c, s := trig.cos(angle), trig.sin(angle);
    RotatedFrame(rWidth, rHeight, c, s);
    XY(rWidth * c - rHeight * s, rWidth * s + rHeight * c)
  }

  /** Turning (w, h) by the rotation (c, s) and back. */
  lemma RotatedFrame(w: real, h: real, c: real, s: real)
    ensures (w * c - h * s) * c + (w * s + h * c) * s == w * (c * c + s * s)
    ensures (w * s + h * c) * c - (w * c - h * s) * s == h * (c * c + s * s)
  {
  }

  /** A point of a left-turning branch of the given turn angle and width:
      on the quarter-circle turn with probability proportional to its area,
      at the distance `sqrt(across) * width` from the junction's corner;
      otherwise on the straight part. */
  function BranchPoint(angle: real, width: real, turn: real, across: real, along: real, trig: Trig): (p: XY)
    ensures turn < 0.5 * angle * width / LengthFactor && UnitCircle(trig, along * angle) ==>
              p.x * p.x + p.y * p.y == (trig.sqrt(across) * width) * (trig.sqrt(across) * width)
    ensures 0.5 * angle * width / LengthFactor <= turn ==> p == StraightPoint(angle, width, across, along, trig)
  {
    var turnP := 0.5 * angle * width / LengthFactor;
    if turn < turnP then
      var rWidth := trig.sqrt(across) * width;
      var rHeight := along * angle;
      var c, s := trig.cos(rHeight), trig.sin(rHeight);
      assert (rWidth * c) * (rWidth * c) + (rWidth * s) * (rWidth * s) == rWidth * rWidth * (c * c + s * s);
      XY(rWidth * c, rWidth * s)
    else StraightPoint(angle, width, across, along, trig)
  }

  /** Reflection about the split axis x = 1/2. */
  function MirrorX(p: XY): XY
  {
    XY(1.0 - p.x, p.y)
  }

  /** `RandomPoint`: a right-branch point is drawn as a left-branch point
      and then mirrored about the split. */
  function RandomPoint(t: Tree, d: PointDraws, trig: Trig): (p: XY)
    requires t.Node?
    ensures d.side < t.leftP ==> p == BranchPoint(t.leftAngle, t.leftP, d.turn, d.across, d.along, trig)
    ensures t.leftP <= d.side ==> p == MirrorX(BranchPoint(t.rightAngle, 1.0 - t.leftP, d.turn, d.across, d.along, trig))
  {
    var f := FootprintOf(t, d.side);
    var p := BranchPoint(f.angle, f.width, d.turn, d.across, d.along, trig);
    if f.isLeft then p else MirrorX(p)
  }

  /** The same junction with its branches swapped. */
  function Swap(t: Tree): (s: Tree)
    requires t.Node?
    ensures s.Node? && s.leftP == 1.0 - t.leftP
  {
    Node(1.0 - t.leftP, t.rightAngle, t.leftAngle, t.right, t.left)
  }

  /** A right-branch point is the mirror image of the left-branch point of
      the swapped junction drawn with the same remaining draws. */
  lemma RightPointIsMirroredLeftPoint(t: Tree, d: PointDraws, side': real, trig: Trig)
    requires t.Node?
    requires d.side >= t.leftP
    requires side' < 1.0 - t.leftP
    ensures RandomPoint(t, d, trig) == MirrorX(RandomPoint(Swap(t), d.(side := side'), trig))
  {
    assert FootprintOf(t, d.side) == Footprint(false, t.rightAngle, 1.0 - t.leftP);
    assert FootprintOf(Swap(t), side') == Footprint(true, t.rightAngle, 1.0 - t.leftP);
  }

  /** Mirroring twice gives the point back. */
  lemma MirrorXInvolution(p: XY)
    ensures MirrorX(MirrorX(p)) == p
  {
  }

  /** Swapping a junction's branches mirrors its points: a left-branch
      point of the swapped junction is the mirror image of the right-branch
      point of the original drawn with the same remaining draws. */
  lemma SwapMirrorsPoints(t: Tree, d: PointDraws, side': real, trig: Trig)
    requires t.Node?
    requires t.leftP <= d.side
    requires side' < 1.0 - t.leftP
    ensures RandomPoint(Swap(t), d.(side := side'), trig) == MirrorX(RandomPoint(t, d, trig))
  {
    RightPointIsMirroredLeftPoint(t, d, side', trig);
    MirrorXInvolution(RandomPoint(Swap(t), d.(side := side'), trig));
  }

  /** `LeftOrigin`: the left branch's frame starts at the far end of the
      branch's left edge. */
  function LeftOrigin(t: Tree, trig: Trig): (o: XY)
    requires t.Node?
    ensures o == StraightPoint(t.leftAngle, t.leftP, 0.0, 1.0, trig)
  {
    var length := LengthFactor - 0.5 * t.leftAngle * t.leftP;
    XY(-length * trig.sin(t.leftAngle), length * trig.cos(t.leftAngle))
  }

  /** `RightOrigin`: the right branch's frame also starts at the far end of
      the branch's left edge, which is the mirror image of the far end of
      the right edge of a left branch with the right branch's angle and
      width. */
  function RightOrigin(t: Tree, trig: Trig): (o: XY)
    requires t.Node?
    ensures o == MirrorX(StraightPoint(t.rightAngle, 1.0 - t.leftP, 1.0, 1.0, trig))
  {
    var w := 1.0 - t.leftP;
    var length := LengthFactor - 0.5 * t.rightAngle * w;
    XY(1.0 + length * trig.sin(t.rightAngle) - w * trig.cos(t.rightAngle),
       length * trig.cos(t.rightAngle) + w * trig.sin(t.rightAngle))
  }
}
