/** Rank-based heat palette of the Poincaré-section renderer
    (cmd/poincare/poincare.go): the distinct counts are sorted, each cell is
    coloured by the rank of its count among them, and the rank is spread
    over four colour buckets (black to blue, blue to magenta, magenta to
    white). Colours therefore depend only on the order of the counts, not
    on their magnitudes. */
module PoincareHeat {
  import opened Grid

  predicate StrictlyIncreasing(s: seq<int>)
  {
    forall a, b :: 0 <= a < b < |s| ==> s[a] < s[b]
  }

  /** Insert x into a strictly increasing list unless it is already there. */
  function Insert(s: seq<int>, x: int): (r: seq<int>)
    requires StrictlyIncreasing(s)
    ensures StrictlyIncreasing(r)
    ensures forall v :: v in r <==> v in s || v == x
  {
    if |s| == 0 then [x]
    else if x < s[0] then [x] + s
    else if x == s[0] then s
    else
      var t := Insert(s[1..], x);
      assert forall v :: v in t ==> s[0] < v;
      InsertFront(s, t);
      [s[0]] + t
  }

  lemma InsertFront(s: seq<int>, t: seq<int>)
    requires |s| > 0 && StrictlyIncreasing(t) && forall v :: v in t ==> s[0] < v
    ensures StrictlyIncreasing([s[0]] + t)
    ensures forall v :: v in [s[0]] + t <==> v == s[0] || v in t
  {
    var r := [s[0]] + t;
    forall a, b | 0 <= a < b < |r| ensures r[a] < r[b] {
      assert r[b] == t[b - 1] && r[b] in t;
      if a > 0 {
        assert r[a] == t[a - 1];
      }
    }
  }

  /** `heats`: the distinct counts in increasing order (the keys of
      `heatMap`, sorted with `sort.Ints`). */
  function Heats(counts: seq<int>): (h: seq<int>)
    ensures StrictlyIncreasing(h)
    ensures forall v :: v in h <==> v in counts
  {
    if |counts| == 0 then []
    else
      var h := Heats(counts[..|counts| - 1]);
      assert forall v :: v in counts <==> v in counts[..|counts| - 1] || v == counts[|counts| - 1] by {
        assert counts == counts[..|counts| - 1] + [counts[|counts| - 1]];
      }
      Insert(h, counts[|counts| - 1])
  }

  /** The sorted list of distinct counts is unique, so how `heats` is
      collected (Go ranges over the map in any order) does not matter. */
  lemma {:induction false} SortedDistinctUnique(a: seq<int>, b: seq<int>)
    requires StrictlyIncreasing(a) && StrictlyIncreasing(b)
    requires forall v :: v in a <==> v in b
    ensures a == b
    decreases |a|
  {
    if |a| > 0 {
      assert a[0] in a;
    }
    if |b| > 0 {
      assert b[0] in b;
    }
    if |a| > 0 {
      assert a[0] == b[0] by {
        var ka :| 0 <= ka < |a| && a[ka] == b[0];
        var kb :| 0 <= kb < |b| && b[kb] == a[0];
        assert a[0] <= a[ka] && b[0] <= b[kb];
      }
      forall v ensures v in a[1..] <==> v in b[1..] {
        if v in a[1..] {
          assert v in b && v != b[0];
        }
        if v in b[1..] {
          assert v in a && v != a[0];
        }
      }
      SortedDistinctUnique(a[1..], b[1..]);
      assert a == [a[0]] + a[1..] && b == [b[0]] + b[1..];
    }
  }

  /** `reverseHeats[c]`: the position of c in the sorted distinct counts. */
  function Rank(h: seq<int>, c: int): (i: nat)
    requires c in h
    ensures i < |h| && h[i] == c
  {
    if h[0] == c then 0 else 1 + Rank(h[1..], c)
  }

  /** The rank of c counts exactly the distinct values below c. */
  lemma RankCountsBelow(counts: seq<int>, c: int)
    requires c in counts
    ensures forall d :: d in Heats(counts)[..Rank(Heats(counts), c)] <==> d in counts && d < c
  {
    var h := Heats(counts);
    var r := Rank(h, c);
    forall d ensures d in h[..r] <==> d in counts && d < c {
      if d in counts && d < c {
        var k :| 0 <= k < |h| && h[k] == d;
        assert k < r;
        assert h[..r][k] == d;
      }
    }
  }

  /** Larger counts have strictly larger ranks. */
  lemma RankStrictlyIncreasing(counts: seq<int>, c1: int, c2: int)
    requires c1 in counts && c2 in counts && c1 < c2
    ensures Rank(Heats(counts), c1) < Rank(Heats(counts), c2)
  {
    var h := Heats(counts);
    var r1, r2 := Rank(h, c1), Rank(h, c2);
    assert h[r1] < h[r2];
  }

  /** `pHeat`: rank over the number of distinct counts. */
  function PHeat(h: seq<int>, c: int): (p: real)
    requires c in h
    ensures 0.0 <= p < 1.0
  {
    Rank(h, c) as real / |h| as real
  }

  /** `y := MaxUint16 * pHeat * 2`, the position along the palette. */
  function Level(p: real): real
  {
    MaxUint16 as real * p * 2.0
  }

  /** The four buckets of the palette: blue rises first, then red, then
      green; the last bucket is plain white. */
  function HeatColour(y: real): (c: Rgba64)
    requires y >= 0.0
    ensures ValidColour(c) && c.a == MaxUint16
    ensures y < MaxUint16 as real ==> c.r == 0 && c.g == 0
    ensures y >= MaxUint16 as real ==> c.b == MaxUint16
    ensures y >= 1.5 * MaxUint16 as real ==> c.r == MaxUint16
    ensures y < 1.5 * MaxUint16 as real ==> c.g == 0
    // first bucket: blue is the whole part of y
    ensures y < MaxUint16 as real ==> c.b as real <= y < c.b as real + 1.0
    // second bucket: red is the whole part of 2(y - M)
    ensures MaxUint16 as real <= y < 1.5 * MaxUint16 as real ==>
              c.r as real <= 2.0 * (y - MaxUint16 as real) < c.r as real + 1.0
    // third bucket: green is the whole part of 2(y - 1.5M)
    ensures 1.5 * MaxUint16 as real <= y < 2.0 * MaxUint16 as real ==>
              c.g as real <= 2.0 * (y - 1.5 * MaxUint16 as real) < c.g as real + 1.0
    ensures y >= 2.0 * MaxUint16 as real ==> c == Rgba64(MaxUint16, MaxUint16, MaxUint16, MaxUint16)
  {
    var m := MaxUint16 as real;
    if y < 1.0 * m then Rgba64(0, 0, ToUint16(y), MaxUint16)
    else if y < 1.5 * m then Rgba64(ToUint16(2.0 * (y - 1.0 * m)), 0, MaxUint16, MaxUint16)
    else if y < 2.0 * m then Rgba64(MaxUint16, ToUint16(2.0 * (y - 1.5 * m)), MaxUint16, MaxUint16)
    else Rgba64(MaxUint16, MaxUint16, MaxUint16, MaxUint16)
  }

  lemma FloorMonotone(a: real, b: real)
    requires a <= b
    ensures a.Floor <= b.Floor
  {
  }

  /** Moving up the palette never darkens a channel. */
  lemma HeatColourMonotone(y1: real, y2: real)
    requires 0.0 <= y1 <= y2
    ensures HeatColour(y1).r <= HeatColour(y2).r
    ensures HeatColour(y1).g <= HeatColour(y2).g
    ensures HeatColour(y1).b <= HeatColour(y2).b
  {
    var m := MaxUint16 as real;
    FloorMonotone(y1, y2);
    FloorMonotone(2.0 * (y1 - 1.0 * m), 2.0 * (y2 - 1.0 * m));
    FloorMonotone(2.0 * (y1 - 1.5 * m), 2.0 * (y2 - 1.5 * m));
  }

  /** Ranks stay below one, so the plain white bucket is never reached:
      green stays below full even for the largest count. */
  lemma HeatNeverWhite(h: seq<int>, c: int)
    requires c in h
    ensures Level(PHeat(h, c)) < 2.0 * MaxUint16 as real
    ensures HeatColour(Level(PHeat(h, c))).g < MaxUint16
  {
  }

  /** The colour of every cell: palette position from the rank of its count. */
  function HeatImage(counts: seq<int>): (img: seq<Rgba64>)
    ensures |img| == |counts|
    ensures forall i :: 0 <= i < |counts| ==> ValidColour(img[i])
    ensures forall i :: 0 <= i < |counts| ==>
              counts[i] in Heats(counts) && img[i] == HeatColour(Level(PHeat(Heats(counts), counts[i])))
  {
    var h := Heats(counts);
    seq(|counts|, i requires 0 <= i < |counts| => HeatColour(Level(PHeat(h, counts[i]))))
  }

  /** A larger count sits no lower on the palette. */
  lemma PHeatMonotone(counts: seq<int>, c1: int, c2: int)
    requires c1 in counts && c2 in counts && c1 <= c2
    ensures PHeat(Heats(counts), c1) <= PHeat(Heats(counts), c2)
  {
    var h := Heats(counts);
    if c1 < c2 {
      RankStrictlyIncreasing(counts, c1, c2);
    }
    DivLeReal(Rank(h, c1) as real, Rank(h, c2) as real, |h| as real);
  }

  /** A cell with a larger count is at least as bright in every channel. */
  lemma HeatImageMonotone(counts: seq<int>, i: nat, j: nat)
    requires i < |counts| && j < |counts| && counts[i] <= counts[j]
    ensures HeatImage(counts)[i].r <= HeatImage(counts)[j].r
    ensures HeatImage(counts)[i].g <= HeatImage(counts)[j].g
    ensures HeatImage(counts)[i].b <= HeatImage(counts)[j].b
  {
    var h := Heats(counts);
    var p1, p2 := PHeat(h, counts[i]), PHeat(h, counts[j]);
    PHeatMonotone(counts, counts[i], counts[j]);
    HeatColourMonotone(Level(p1), Level(p2));
    assert HeatImage(counts)[i] == HeatColour(Level(p1));
    assert HeatImage(counts)[j] == HeatColour(Level(p2));
  }
}
