/** The three tree builders (pkg/tree/symmetric_tree.go,
    pkg/tree/balanced_tree.go, pkg/tree/random_balanced.go). Each builds a
    perfect binary tree of the requested depth. The balanced builders turn
    the smaller branch by the given angle and choose the other angle so
    that the two branches balance: width times the sine of the turn is the
    same on both sides. */
module TreeBuild {
  import opened Geometry
  import opened Grid
  import opened TreeNode

  /** Every path from the root meets exactly `n` nodes before nil. */
  predicate Perfect(t: Tree, n: nat)
  {
    if n == 0 then t == Nil else t.Node? && Perfect(t.left, n - 1) && Perfect(t.right, n - 1)
  }

  /** Both branches of every node are the same subtree (in Go both fields hold the same node). */
  predicate Twinned(t: Tree)
  {
    t.Nil? || (t.left == t.right && Twinned(t.left))
  }

  /** Every node gives its left branch the share p. */
  predicate Splits(t: Tree, p: real)
  {
    t.Nil? || (t.leftP == p && Splits(t.left, p) && Splits(t.right, p))
  }

  /** Every node turns both branches by `angle`. */
  predicate BothTurn(t: Tree, angle: real)
  {
    t.Nil? || (t.leftAngle == angle && t.rightAngle == angle && BothTurn(t.left, angle) && BothTurn(t.right, angle))
  }

  /** The angle of the smaller branch: right when the left share is at least
      one half, left otherwise. */
  function SmallerTurn(t: Tree): real
    requires t.Node?
  {
    if t.leftP < 0.5 then t.leftAngle else t.rightAngle
  }

  /** Every node turns its smaller branch by `angle`. */
  predicate SmallerTurns(t: Tree, angle: real)
  {
    t.Nil? || (SmallerTurn(t) == angle && SmallerTurns(t.left, angle) && SmallerTurns(t.right, angle))
  }

  /** Every node balances its branches: share times sine of the turn agree. */
  predicate Balanced(t: Tree, trig: Trig)
  {
    t.Nil? || (t.leftP * trig.sin(t.leftAngle) == (1.0 - t.leftP) * trig.sin(t.rightAngle)
               && Balanced(t.left, trig) && Balanced(t.right, trig))
  }

  /** The reflection of a whole tree: shares and branches change sides. It
      keeps the number of junctions and keeps every share a proportion. */
  function Mirror(t: Tree): (m: Tree)
    ensures m.Nil? <==> t.Nil?
    ensures Size(m) == Size(t)
    ensures WellFormed(t) ==> WellFormed(m)
  {
    if t.Nil? then Nil else Node(1.0 - t.leftP, t.rightAngle, t.leftAngle, Mirror(t.right), Mirror(t.left))
  }

  lemma {:induction false} MirrorInvolution(t: Tree)
    ensures Mirror(Mirror(t)) == t
  {
    if t.Node? {
      MirrorInvolution(t.left);
      MirrorInvolution(t.right);
    }
  }

  function Size(t: Tree): nat
  {
    if t.Nil? then 0 else 1 + Size(t.left) + Size(t.right)
  }

  function Pow2(n: nat): nat
  {
    if n == 0 then 1 else 2 * Pow2(n - 1)
  }

  /** A perfect tree of depth n has 2^n - 1 junctions. */
  lemma {:induction false} PerfectSize(t: Tree, n: nat)
    requires Perfect(t, n)
    ensures Size(t) + 1 == Pow2(n)
  {
    if n > 0 {
      PerfectSize(t.left, n - 1);
      PerfectSize(t.right, n - 1);
    }
  }

  /** `Symmetric`: even splits, both branches turned by `angle`. */
  function Symmetric(layers: nat, angle: real): (t: Tree)
    ensures Perfect(t, layers) && Twinned(t)
    ensures Splits(t, 0.5) && BothTurn(t, angle)
  {
    if layers == 0 then Nil
    else
      var children := Symmetric(layers - 1, angle);
      Node(0.5, angle, angle, children, children)
  }

  /** A symmetric tree is its own mirror image. */
  lemma {:induction false} SymmetricIsMirrorImage(layers: nat, angle: real)
    ensures Mirror(Symmetric(layers, angle)) == Symmetric(layers, angle)
  {
    if layers > 0 {
      SymmetricIsMirrorImage(layers - 1, angle);
    }
  }

  /** The two turn angles of a balanced junction. */
  datatype Angles = Angles(left: real, right: real)

  /** The turn of the larger branch, whose share is `large`, when the
      smaller branch (share `small`) turns by an angle whose sine is `s`. */
  function PartnerAngle(small: real, large: real, s: real, trig: Trig): real
    requires large != 0.0
  {
    trig.asin((small / large) * s)
  }

  /** The smaller branch turns by `angle`; the larger one by the arcsine
      that balances it. */
  function BranchAngles(angle: real, pLeft: real, trig: Trig): (a: Angles)
    ensures pLeft < 0.5 ==> a.left == angle
    ensures 0.5 <= pLeft ==> a.right == angle
  {
    if pLeft < 0.5 then Angles(angle, PartnerAngle(pLeft, 1.0 - pLeft, trig.sin(angle), trig))
    else Angles(PartnerAngle(1.0 - pLeft, pLeft, trig.sin(angle), trig), angle)
  }

  /** What the angle rule needs of sine and arcsine. */
  ghost predicate SineArcsine(trig: Trig)
  {
    && (forall x :: -1.0 <= trig.sin(x) <= 1.0)
    && (forall v :: -1.0 <= v <= 1.0 ==> trig.sin(trig.asin(v)) == v)
  }

  /** The sine of the larger branch's turn is the smaller share's sine
      scaled by the ratio of shares, which keeps it within [-1, 1]. */
  lemma RatioTimesSine(p: real, q: real, s: real)
    requires 0.0 <= p <= q && q > 0.0 && -1.0 <= s <= 1.0
    ensures -1.0 <= (p / q) * s <= 1.0
    ensures q * ((p / q) * s) == p * s
  {
    var r := p / q;
    DivLeReal(0.0, p, q);
    DivLeReal(p, q, q);
    assert q / q == 1.0;
    assert 0.0 <= r <= 1.0;
    MulLeReal(s, 1.0, r);
    MulLeReal(-1.0, s, r);
    assert 1.0 * r == r && -1.0 * r == -r;
    assert r * s == s * r;
    assert -1.0 <= -r <= r * s <= r <= 1.0;
    assert q * r == p;
    assert q * (r * s) == (q * r) * s;
  }

  /** The larger branch's share times the sine of its turn equals the
      smaller share times the sine of the smaller turn. */
  lemma LargerBranchBalances(small: real, large: real, s: real, trig: Trig)
    requires SineArcsine(trig)
    requires 0.0 <= small <= large && large > 0.0 && -1.0 <= s <= 1.0
    ensures large * trig.sin(PartnerAngle(small, large, s, trig)) == small * s
  {
    RatioTimesSine(small, large, s);
    var v := (small / large) * s;
    assert PartnerAngle(small, large, s, trig) == trig.asin(v);
    assert trig.sin(trig.asin(v)) == v;
  }

  /** The angle rule balances the junction whenever the share is a
      proportion. */
  lemma BranchAnglesBalance(angle: real, pLeft: real, trig: Trig)
    requires SineArcsine(trig)
    requires 0.0 <= pLeft <= 1.0
    ensures pLeft * trig.sin(BranchAngles(angle, pLeft, trig).left)
         == (1.0 - pLeft) * trig.sin(BranchAngles(angle, pLeft, trig).right)
  {
    if pLeft < 0.5 {
      LeftSmallerBalances(angle, pLeft, trig);
    } else {
      RightSmallerBalances(angle, pLeft, trig);
    }
  }

  lemma LeftSmallerBalances(angle: real, pLeft: real, trig: Trig)
    requires SineArcsine(trig)
    requires 0.0 <= pLeft < 0.5
    ensures pLeft * trig.sin(angle) == (1.0 - pLeft) * trig.sin(BranchAngles(angle, pLeft, trig).right)
  {
    var s := trig.sin(angle);
    assert -1.0 <= s <= 1.0;
    LargerBranchBalances(pLeft, 1.0 - pLeft, s, trig);
  }

  lemma RightSmallerBalances(angle: real, pLeft: real, trig: Trig)
    requires SineArcsine(trig)
    requires 0.5 <= pLeft <= 1.0
    ensures pLeft * trig.sin(BranchAngles(angle, pLeft, trig).left) == (1.0 - pLeft) * trig.sin(angle)
  {
    var s := trig.sin(angle);
    assert -1.0 <= s <= 1.0;
    LargerBranchBalances(1.0 - pLeft, pLeft, s, trig);
  }

  /** `BalancedConstant`: the same share and angle rule at every junction. */
  function BalancedConstant(layers: nat, angle: real, pLeft: real, trig: Trig): (t: Tree)
    ensures Perfect(t, layers) && Twinned(t)
    ensures Splits(t, pLeft) && SmallerTurns(t, angle)
  {
    if layers == 0 then Nil
    else
      var a := BranchAngles(angle, pLeft, trig);
      var children := BalancedConstant(layers - 1, angle, pLeft, trig);
      Node(pLeft, a.left, a.right, children, children)
  }

  /** Every junction of a constant balanced tree is balanced. */
  lemma {:induction false} BalancedConstantBalanced(layers: nat, angle: real, pLeft: real, trig: Trig)
    requires SineArcsine(trig)
    requires 0.0 <= pLeft <= 1.0
    ensures Balanced(BalancedConstant(layers, angle, pLeft, trig), trig)
  {
    if layers > 0 {
      var a := BranchAngles(angle, pLeft, trig);
      var c := BalancedConstant(layers - 1, angle, pLeft, trig);
      BranchAnglesBalance(angle, pLeft, trig);
      BalancedConstantBalanced(layers - 1, angle, pLeft, trig);
      assert BalancedConstant(layers, angle, pLeft, trig) == Node(pLeft, a.left, a.right, c, c);
    }
  }

  /** Random draws a tree of depth n takes: two per junction, the left
      subtree's before the right subtree's. */
  function Needed(n: nat): nat
  {
    if n == 0 then 0 else 2 + 2 * Needed(n - 1)
  }

  lemma {:induction false} NeededTwicePerJunction(n: nat)
    ensures Needed(n) == 2 * (Pow2(n) - 1)
  {
    if n > 0 {
      NeededTwicePerJunction(n - 1);
    }
  }

  /** `pLeft := r*0.6 + 0.2`. */
  function ShareOf(d: real): real
  {
    d * 0.6 + 0.2
  }

  /** `angle := Pi/3 * (r*0.6 + 0.2)`. */
  function TurnOf(d: real): real
  {
    Pi / 3.0 * (d * 0.6 + 0.2)
  }

  /** A junction built from its two draws and its two subtrees. */
  function DrawnNode(d0: real, d1: real, trig: Trig, left: Tree, right: Tree): Tree
  {
    var a := BranchAngles(TurnOf(d1), ShareOf(d0), trig);
    Node(ShareOf(d0), a.left, a.right, left, right)
  }

  /** How a builder turns two draws and two subtrees into a junction. */
  type Junction = (real, real, Tree, Tree) -> Tree

  /** `t` is a junction whose branches are `l` and `r`. */
  predicate JoinsAt(t: Tree, l: Tree, r: Tree)
  {
    t.Node? && t.left == l && t.right == r
  }

  /** The junction keeps the two subtrees as its branches. */
  ghost predicate Joins(j: Junction)
  {
    forall d0, d1, l, r :: JoinsAt(j(d0, d1, l, r), l, r)
  }

  /** The traversal of `RandomBalanced` from generator position `start`:
      a junction takes two draws, then its left subtree is built from the
      next `Needed(layers - 1)` draws and its right subtree from the ones
      after. */
  function BuildFrom(layers: nat, draws: seq<real>, start: nat, j: Junction): (t: Tree)
    requires start + Needed(layers) <= |draws|
    ensures layers == 0 ==> t == Nil
    decreases layers
  {
    if layers == 0 then Nil
    else
      var n := Needed(layers - 1);
      j(draws[start], draws[start + 1],
        BuildFrom(layers - 1, draws, start + 2, j),
        BuildFrom(layers - 1, draws, start + 2 + n, j))
  }

  function DrawnJunction(trig: Trig): Junction
  {
    (d0, d1, l, r) => DrawnNode(d0, d1, trig, l, r)
  }

  lemma DrawnJunctionJoins(trig: Trig)
    ensures Joins(DrawnJunction(trig))
  {
  }

  /** A builder whose junctions keep their subtrees builds a perfect tree. */
  lemma {:induction false} BuildFromPerfect(layers: nat, draws: seq<real>, start: nat, j: Junction)
    requires start + Needed(layers) <= |draws|
    requires Joins(j)
    ensures Perfect(BuildFrom(layers, draws, start, j), layers)
    decreases layers
  {
    if layers > 0 {
      var n := Needed(layers - 1);
      var l := BuildFrom(layers - 1, draws, start + 2, j);
      var r := BuildFrom(layers - 1, draws, start + 2 + n, j);
      BuildFromPerfect(layers - 1, draws, start + 2, j);
      BuildFromPerfect(layers - 1, draws, start + 2 + n, j);
      var d0, d1 := draws[start], draws[start + 1];
      assert JoinsAt(j(d0, d1, l, r), l, r);
    }
  }

  /** `RandomBalanced`: a fresh generator, read from its first draw. */
  function RandomBalanced(layers: nat, draws: seq<real>, trig: Trig): (t: Tree)
    requires Needed(layers) <= |draws|
    ensures Perfect(t, layers)
    ensures layers == 0 <==> t == Nil
  {
    DrawnJunctionJoins(trig);
    BuildFromPerfect(layers, draws, 0, DrawnJunction(trig));
    BuildFrom(layers, draws, 0, DrawnJunction(trig))
  }

  /** Building from position `start` only sees the draws from there on. */
  lemma BuildFromShift(layers: nat, draws: seq<real>, start: nat, j: Junction)
    requires start + Needed(layers) <= |draws|
    ensures BuildFrom(layers, draws, start, j) == BuildFrom(layers, draws[start..], 0, j)
  {
    BuildFromDrop(layers, draws, start, start, draws[start..], 0, j);
  }

  /** The traversal reads only draws from its own position on, so a
      sequence holding the same draws from `start` on gives the same tree
      from the matching position. */
  lemma {:induction false} BuildFromDrop(layers: nat, draws: seq<real>, start: nat, from: nat, rest: seq<real>, at: nat, j: Junction)
    requires start + |rest| == |draws| && from == start + at
    requires forall k :: 0 <= k < |rest| ==> rest[k] == draws[start + k]
    requires at + Needed(layers) <= |rest|
    ensures BuildFrom(layers, draws, from, j) == BuildFrom(layers, rest, at, j)
    decreases layers
  {
    if layers > 0 {
      BuildFromDrop(layers - 1, draws, start, from + 2, rest, at + 2, j);
      BuildFromDrop(layers - 1, draws, start, from + 2 + Needed(layers - 1), rest, at + 2 + Needed(layers - 1), j);
      BuildFromSameRoot(layers, draws, from, rest, at, j);
    }
  }

  /** Two positions with the same two draws and equal subtrees build the
      same junction. */
  lemma BuildFromSameRoot(layers: nat, a: seq<real>, sa: nat, b: seq<real>, sb: nat, j: Junction)
    requires 0 < layers && sa + Needed(layers) <= |a| && sb + Needed(layers) <= |b|
    requires a[sa] == b[sb] && a[sa + 1] == b[sb + 1]
    requires BuildFrom(layers - 1, a, sa + 2, j) == BuildFrom(layers - 1, b, sb + 2, j)
    requires BuildFrom(layers - 1, a, sa + 2 + Needed(layers - 1), j)
          == BuildFrom(layers - 1, b, sb + 2 + Needed(layers - 1), j)
    ensures BuildFrom(layers, a, sa, j) == BuildFrom(layers, b, sb, j)
  {
    BuildFromStep(layers, a, sa, j);
    BuildFromStep(layers, b, sb, j);
  }

  /** One junction of the traversal: its two draws, then both subtrees. */
  lemma BuildFromStep(layers: nat, draws: seq<real>, start: nat, j: Junction)
    requires 0 < layers && start + Needed(layers) <= |draws|
    ensures BuildFrom(layers, draws, start, j)
         == j(draws[start], draws[start + 1], BuildFrom(layers - 1, draws, start + 2, j),
              BuildFrom(layers - 1, draws, start + 2 + Needed(layers - 1), j))
  {
  }

  /** The order `RandomBalanced` reads its generator in: the root takes
      the first two draws (share, then turn), the left subtree is the
      random tree of the draws after those, and the right subtree the
      random tree of whatever the left subtree left over. */
  lemma RandomBalancedSplit(layers: nat, draws: seq<real>, trig: Trig)
    requires 0 < layers && Needed(layers) <= |draws|
    ensures RandomBalanced(layers, draws, trig).Node?
    ensures RandomBalanced(layers, draws, trig).leftP == ShareOf(draws[0])
    ensures SmallerTurn(RandomBalanced(layers, draws, trig)) == TurnOf(draws[1])
    ensures RandomBalanced(layers, draws, trig).left == RandomBalanced(layers - 1, draws[2..], trig)
    ensures RandomBalanced(layers, draws, trig).right
         == RandomBalanced(layers - 1, draws[2 + Needed(layers - 1)..], trig)
  {
    var n := Needed(layers - 1);
    var j := DrawnJunction(trig);
    BuildFromShift(layers - 1, draws, 2, j);
    BuildFromShift(layers - 1, draws, 2 + n, j);
    RandomBalancedRoot(layers, draws, trig);
  }

  /** The root of a random tree is the junction drawn from the first two
      draws over the two subtrees of the traversal. */
  lemma RandomBalancedRoot(layers: nat, draws: seq<real>, trig: Trig)
    requires 0 < layers && Needed(layers) <= |draws|
    ensures RandomBalanced(layers, draws, trig)
         == DrawnNode(draws[0], draws[1], trig, BuildFrom(layers - 1, draws, 2, DrawnJunction(trig)),
                      BuildFrom(layers - 1, draws, 2 + Needed(layers - 1), DrawnJunction(trig)))
  {
    BuildFromStep(layers, draws, 0, DrawnJunction(trig));
  }

  /** Draws are random numbers from [0, 1) from position `start` on. */
  predicate UnitFrom(draws: seq<real>, start: nat)
  {
    forall i :: start <= i < |draws| ==> 0.0 <= draws[i] < 1.0
  }

  /** Shares lie in [lo, hi). */
  predicate SharesIn(t: Tree, lo: real, hi: real)
  {
    t.Nil? || (lo <= t.leftP < hi && SharesIn(t.left, lo, hi) && SharesIn(t.right, lo, hi))
  }

  /** Smaller-branch turns lie in [lo, hi). */
  predicate SmallerTurnsIn(t: Tree, lo: real, hi: real)
  {
    t.Nil? || (lo <= SmallerTurn(t) < hi && SmallerTurnsIn(t.left, lo, hi) && SmallerTurnsIn(t.right, lo, hi))
  }

  /** What a random balanced tree promises: shares in [0.2, 0.8), smaller
      turns in [Pi/15, 4 Pi/15), every junction balanced. */
  ghost predicate Drawn(t: Tree, trig: Trig)
  {
    SharesIn(t, 0.2, 0.8) && SmallerTurnsIn(t, Pi / 15.0, 4.0 * Pi / 15.0) && Balanced(t, trig)
  }

  /** The range of a drawn share and of a drawn turn. */
  lemma DrawnJunctionRanges(d0: real, d1: real)
    requires 0.0 <= d0 < 1.0 && 0.0 <= d1 < 1.0
    ensures 0.2 <= ShareOf(d0) < 0.8
    ensures Pi / 15.0 <= TurnOf(d1) < 4.0 * Pi / 15.0
  {
    var u := d1 * 0.6 + 0.2;
    assert 0.2 <= u < 0.8;
    MulLeReal(0.2, u, Pi / 3.0);
    assert u * (Pi / 3.0) == TurnOf(d1);
    assert Pi / 3.0 * 0.8 - TurnOf(d1) == (0.8 - u) * (Pi / 3.0);
  }

  /** A junction drawn from [0, 1) over subtrees that keep the promise
      keeps it too. */
  lemma DrawnNodeRanges(d0: real, d1: real, left: Tree, right: Tree, trig: Trig)
    requires 0.0 <= d0 < 1.0 && 0.0 <= d1 < 1.0
    requires SineArcsine(trig)
    requires Drawn(left, trig) && Drawn(right, trig)
    ensures Drawn(DrawnNode(d0, d1, trig, left, right), trig)
  {
    DrawnJunctionRanges(d0, d1);
    BranchAnglesBalance(TurnOf(d1), ShareOf(d0), trig);
  }

  /** A junction that keeps the promise for draws from [0, 1). */
  ghost predicate KeepsDrawn(j: Junction, trig: Trig)
  {
    forall d0, d1, l, r :: 0.0 <= d0 < 1.0 && 0.0 <= d1 < 1.0 && Drawn(l, trig) && Drawn(r, trig)
      ==> Drawn(j(d0, d1, l, r), trig)
  }

  lemma DrawnJunctionKeepsDrawn(trig: Trig)
    requires SineArcsine(trig)
    ensures KeepsDrawn(DrawnJunction(trig), trig)
  {
    forall d0, d1, l, r | 0.0 <= d0 < 1.0 && 0.0 <= d1 < 1.0 && Drawn(l, trig) && Drawn(r, trig)
      ensures Drawn(DrawnJunction(trig)(d0, d1, l, r), trig)
    {
      DrawnNodeRanges(d0, d1, l, r, trig);
    }
  }

  lemma {:induction false} BuildFromDrawn(layers: nat, draws: seq<real>, start: nat, j: Junction, trig: Trig)
    requires start + Needed(layers) <= |draws| && UnitFrom(draws, start)
    requires KeepsDrawn(j, trig)
    ensures Drawn(BuildFrom(layers, draws, start, j), trig)
    decreases layers
  {
    if layers > 0 {
      var n := Needed(layers - 1);
      BuildFromDrawn(layers - 1, draws, start + 2, j, trig);
      BuildFromDrawn(layers - 1, draws, start + 2 + n, j, trig);
      assert 0.0 <= draws[start] < 1.0 && 0.0 <= draws[start + 1] < 1.0;
    }
  }

  /** With draws from [0, 1), shares lie in [0.2, 0.8), smaller-branch
      turns in [Pi/15, 4 Pi/15), and (given sine and arcsine) every
      junction is balanced. */
  lemma RandomBalancedRanges(layers: nat, draws: seq<real>, trig: Trig)
    requires Needed(layers) <= |draws| && UnitFrom(draws, 0)
    requires SineArcsine(trig)
    ensures SharesIn(RandomBalanced(layers, draws, trig), 0.2, 0.8)
    ensures SmallerTurnsIn(RandomBalanced(layers, draws, trig), Pi / 15.0, 4.0 * Pi / 15.0)
    ensures Balanced(RandomBalanced(layers, draws, trig), trig)
  {
    DrawnJunctionKeepsDrawn(trig);
    BuildFromDrawn(layers, draws, 0, DrawnJunction(trig), trig);
  }

  /** The tree depends only on the `Needed(layers)` draws from `start`. */
  lemma {:induction false} BuildFromPrefix(layers: nat, draws: seq<real>, draws': seq<real>, start: nat, j: Junction)
    requires start + Needed(layers) <= |draws| && start + Needed(layers) <= |draws'|
    requires forall i :: start <= i < start + Needed(layers) ==> draws[i] == draws'[i]
    ensures BuildFrom(layers, draws, start, j) == BuildFrom(layers, draws', start, j)
    decreases layers
  {
    if layers > 0 {
      var n := Needed(layers - 1);
      BuildFromPrefix(layers - 1, draws, draws', start + 2, j);
      BuildFromPrefix(layers - 1, draws, draws', start + 2 + n, j);
    }
  }

  /** Two generators that agree on their first `Needed(layers)` draws build
      the same tree. */
  lemma RandomBalancedPrefix(layers: nat, draws: seq<real>, draws': seq<real>, trig: Trig)
    requires Needed(layers) <= |draws| && Needed(layers) <= |draws'|
    requires draws[..Needed(layers)] == draws'[..Needed(layers)]
    ensures RandomBalanced(layers, draws, trig) == RandomBalanced(layers, draws', trig)
  {
    forall i | 0 <= i < Needed(layers) ensures draws[i] == draws'[i] {
      assert draws[i] == draws[..Needed(layers)][i];
    }
    BuildFromPrefix(layers, draws, draws', 0, DrawnJunction(trig));
  }
}
