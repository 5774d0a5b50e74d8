/** Single-consumer folds of sparse contribution maps into a dense
    histogram buffer. Go ranges over a map in an unspecified order; the
    drains below take the visiting order as an argument, any enumeration
    of the keys without repeats, so their contracts hold for every order. */
module Accumulate {
  import opened Grid

  /** `order` lists every key of `g` exactly once. */
  predicate KeyOrder<V>(g: map<int, V>, order: seq<int>)
  {
    && (forall k :: k in g ==> k in order)
    && (forall k :: k in order ==> k in g)
    && (forall a, b :: 0 <= a < b < |order| ==> order[a] != order[b])
  }

  /** `for pixel, count := range g { frequencies[pixel] += count }`. */
  method DrainMap(h: seq<real>, g: map<int, real>, order: seq<int>) returns (h': seq<real>)
    requires forall k :: k in g ==> 0 <= k < |h|
    requires KeyOrder(g, order)
    ensures |h'| == |h|
    ensures forall i :: 0 <= i < |h| ==> h'[i] == h[i] + Get(g, i)
  {
    h' := h;
    var n := 0;
    while n < |order|
      invariant 0 <= n <= |order|
      invariant |h'| == |h|
      invariant forall i :: 0 <= i < |h| ==> h'[i] == h[i] + (if i in order[..n] then g[i] else 0.0)
    {
      var k := order[n];
      assert k in g && k !in order[..n];
      h' := h'[k := h'[k] + g[k]];
      assert order[..n + 1] == order[..n] + [k];
      n := n + 1;
    }
    assert order[..n] == order;
  }

  /** Sum of the values of a count map, whatever order its keys are taken in. */
  ghost function MapTotal(m: map<int, int>): int
    decreases |m|
  {
    if |m| == 0 then 0
    else
      var k := SomeKey(m);
      m[k] + MapTotal(m - {k})
  }

  /** An arbitrary key of a non-empty map. */
  ghost function SomeKey(m: map<int, int>): (k: int)
    requires |m| > 0
    ensures k in m
  {
    EmptyOrInhabited(m.Keys);
    var k :| k in m;
    k
  }

  lemma EmptyOrInhabited(s: set<int>)
    ensures s == {} || exists x :: x in s
  {
    if !(exists x :: x in s) {
      assert s == {};
    }
  }

  /** Any key can be taken first. */
  lemma {:induction false} MapTotalRemove(m: map<int, int>, k: int)
    requires k in m
    ensures MapTotal(m) == m[k] + MapTotal(m - {k})
    decreases |m|
  {
    var j := SomeKey(m);
    if j != k {
      var mj, mk := m - {j}, m - {k};
      RemoveTwo(m, j, k);
      var rest := mj - {k};
      assert mk - {j} == rest;
      MapTotalRemove(mj, k);
      MapTotalRemove(mk, j);
      calc {
        MapTotal(m);
        m[j] + MapTotal(mj);
        m[j] + (m[k] + MapTotal(rest));
        m[k] + (m[j] + MapTotal(rest));
        m[k] + MapTotal(mk);
      }
    }
  }

  lemma RemoveTwo(m: map<int, int>, j: int, k: int)
    requires j in m && k in m && j != k
    ensures k in m - {j} && (m - {j})[k] == m[k]
    ensures j in m - {k} && (m - {k})[j] == m[j]
    ensures |m - {j}| < |m| && |m - {k}| < |m|
    ensures (m - {j}) - {k} == (m - {k}) - {j}
  {
    assert (m - {j}).Keys == m.Keys - {j};
    assert (m - {k}).Keys == m.Keys - {k};
  }

  /** `m[k]++` on a Go map raises the total by exactly one. */
  lemma MapTotalBump(m: map<int, int>, k: int)
    ensures MapTotal(m[k := GetCount(m, k) + 1]) == MapTotal(m) + 1
  {
    var m' := m[k := GetCount(m, k) + 1];
    BumpRest(m, k);
    MapTotalRemove(m', k);
    if k in m {
      MapTotalRemove(m, k);
    }
  }

  lemma BumpRest(m: map<int, int>, k: int)
    ensures k in m ==> m[k := GetCount(m, k) + 1] - {k} == m - {k}
    ensures k !in m ==> m[k := GetCount(m, k) + 1] - {k} == m
  {
  }
}
