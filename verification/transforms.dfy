/** Probabilistic choice among transforms (pkg/transforms/transform.go): a
    draw p from [0, 1) is compared with each entry's cumulative probability
    in turn, the first entry whose threshold exceeds p is applied, and when
    none does the walk restarts at the initial point. */
module Transforms {
  import opened Geometry

  /** A transform with its cumulative selection threshold. The transform's
      own use of randomness is folded into `next`. */
  datatype Weighted = Weighted(next: XY -> XY, probability: real)

  /** The initial point and the weighted transforms, in order. */
  datatype Probabilistic = Probabilistic(first: XY, transforms: seq<Weighted>)

  /** Outcome of the threshold scan. */
  datatype Choice = Chosen(index: nat) | Fallback

  /** The scan from position i on. */
  function SelectFrom(ts: seq<Weighted>, p: real, i: nat): (c: Choice)
    requires i <= |ts|
    ensures c.Chosen? ==> i <= c.index < |ts| && p < ts[c.index].probability
                          && forall j :: i <= j < c.index ==> ts[j].probability <= p
    ensures c.Fallback? <==> forall j :: i <= j < |ts| ==> ts[j].probability <= p
    decreases |ts| - i
  {
    if i == |ts| then Fallback
    else if p < ts[i].probability then Chosen(i)
    else SelectFrom(ts, p, i + 1)
  }

  /** The entry `Next` applies: the least index whose threshold exceeds p,
      or the fallback when there is none. */
  function Select(ts: seq<Weighted>, p: real): (c: Choice)
    ensures c.Chosen? ==> c.index < |ts| && p < ts[c.index].probability
                          && forall j :: 0 <= j < c.index ==> ts[j].probability <= p
    ensures c.Fallback? <==> forall j :: 0 <= j < |ts| ==> ts[j].probability <= p
  {
    SelectFrom(ts, p, 0)
  }

  /** `ProbabilisticTransform.Next` on the draw p: the transform of the
      first entry whose threshold exceeds p, or the initial point when no
      threshold does. */
  function Next(pt: Probabilistic, xy: XY, p: real): (r: XY)
    ensures forall i :: 0 <= i < |pt.transforms| && p < pt.transforms[i].probability
                        && (forall k :: 0 <= k < i ==> pt.transforms[k].probability <= p)
                        ==> r == pt.transforms[i].next(xy)
    ensures (forall k :: 0 <= k < |pt.transforms| ==> pt.transforms[k].probability <= p) ==> r == pt.first
  {
    LeastIsChosen(pt.transforms, p);
    match Select(pt.transforms, p)
    case Chosen(i) => pt.transforms[i].next(xy)
    case Fallback => pt.first
  }

  /** The loop as written, returning from inside the scan. */
  method NextLoop(pt: Probabilistic, xy: XY, p: real) returns (r: XY)
    ensures r == Next(pt, xy, p)
  {
    var i := 0;
    while i < |pt.transforms|
      invariant 0 <= i <= |pt.transforms|
      invariant forall j :: 0 <= j < i ==> pt.transforms[j].probability <= p
    {
      if p < pt.transforms[i].probability {
        ChosenIsLeast(pt.transforms, p, i);
        return pt.transforms[i].next(xy);
      }
      i := i + 1;
    }
    return pt.first;
  }

  /** The least index whose threshold exceeds p is the one chosen. */
  lemma ChosenIsLeast(ts: seq<Weighted>, p: real, i: nat)
    requires i < |ts| && p < ts[i].probability
    requires forall j :: 0 <= j < i ==> ts[j].probability <= p
    ensures Select(ts, p) == Chosen(i)
  {
  }

  lemma LeastIsChosen(ts: seq<Weighted>, p: real)
    ensures forall i :: 0 <= i < |ts| && p < ts[i].probability && (forall k :: 0 <= k < i ==> ts[k].probability <= p)
                        ==> Select(ts, p) == Chosen(i)
  {
    forall i | 0 <= i < |ts| && p < ts[i].probability && (forall k :: 0 <= k < i ==> ts[k].probability <= p)
      ensures Select(ts, p) == Chosen(i)
    {
      ChosenIsLeast(ts, p, i);
    }
  }

  /** Without transforms every draw restarts at the initial point. */
  lemma EmptyFallsBack(first: XY, xy: XY, p: real)
    ensures Select([], p) == Fallback
    ensures Next(Probabilistic(first, []), xy, p) == first
  {
  }

  /** Selection looks only at the draw and the thresholds: neither the
      point nor the transforms themselves matter. */
  lemma {:induction false} SelectDependsOnlyOnProbabilities(ts: seq<Weighted>, us: seq<Weighted>, p: real, i: nat)
    requires |ts| == |us| && i <= |ts|
    requires forall j :: 0 <= j < |ts| ==> ts[j].probability == us[j].probability
    ensures SelectFrom(ts, p, i) == SelectFrom(us, p, i)
    decreases |ts| - i
  {
    if i < |ts| {
      SelectDependsOnlyOnProbabilities(ts, us, p, i + 1);
    }
  }

  predicate NonDecreasing(ts: seq<Weighted>)
  {
    forall a, b :: 0 <= a < b < |ts| ==> ts[a].probability <= ts[b].probability
  }

  /** With cumulative (non-decreasing) thresholds entry i is chosen exactly
      when p falls in its interval [threshold i-1, threshold i). */
  lemma SelectInterval(ts: seq<Weighted>, p: real, i: nat)
    requires NonDecreasing(ts) && i < |ts|
    ensures Select(ts, p) == Chosen(i) <==> (i == 0 || ts[i - 1].probability <= p) && p < ts[i].probability
  {
    if (i == 0 || ts[i - 1].probability <= p) && p < ts[i].probability {
      ChosenIsLeast(ts, p, i);
    }
  }

  /** With cumulative thresholds the fallback is taken exactly when p is at
      or above the last threshold, so thresholds ending at 1 never fall
      back on a draw from [0, 1). */
  lemma FallbackAboveLast(ts: seq<Weighted>, p: real)
    requires NonDecreasing(ts) && |ts| > 0
    ensures Select(ts, p) == Fallback <==> ts[|ts| - 1].probability <= p
  {
    if ts[|ts| - 1].probability <= p {
      forall j | 0 <= j < |ts| ensures ts[j].probability <= p {
        assert j == |ts| - 1 || ts[j].probability <= ts[|ts| - 1].probability;
      }
    }
  }
}
