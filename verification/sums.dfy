/** Sums over sequences of contributions. Every histogram accumulator in the
    renderers is a fold of additions; the lemmas here are what makes the
    final value independent of the order in which contributions arrive. */
module Sums {

  /** Sum of `f` over `s`, folded left to right as an accumulator would. */
  function Sum<T>(s: seq<T>, f: T -> real): real
  {
    if |s| == 0 then 0.0 else Sum(s[..|s| - 1], f) + f(s[|s| - 1])
  }

  lemma SumOfFour<T>(a: T, b: T, c: T, d: T, f: T -> real)
    ensures Sum([a, b, c, d], f) == f(a) + f(b) + f(c) + f(d)
  {
    var e: seq<T> := [];
    SumSnoc(e, a, f);
    assert e + [a] == [a];
    SumSnoc([a], b, f);
    assert [a] + [b] == [a, b];
    SumSnoc([a, b], c, f);
    assert [a, b] + [c] == [a, b, c];
    SumSnoc([a, b, c], d, f);
    assert [a, b, c] + [d] == [a, b, c, d];
  }

  /** Integer counterpart, for histograms of hit counts. */
  function SumInt<T>(s: seq<T>, f: T -> int): int
  {
    if |s| == 0 then 0 else SumInt(s[..|s| - 1], f) + f(s[|s| - 1])
  }

  /** One more contribution adds exactly its own value. */
  lemma SumSnoc<T>(s: seq<T>, x: T, f: T -> real)
    ensures Sum(s + [x], f) == Sum(s, f) + f(x)
  {
    assert (s + [x])[..|s|] == s;
  }

  lemma {:induction false} SumAppend<T>(a: seq<T>, b: seq<T>, f: T -> real)
    ensures Sum(a + b, f) == Sum(a, f) + Sum(b, f)
    decreases |b|
  {
    if |b| == 0 {
      assert a + b == a;
    } else {
      var b' := b[..|b| - 1];
      assert a + b == (a + b') + [b[|b| - 1]];
      SumSnoc(a + b', b[|b| - 1], f);
      SumAppend(a, b', f);
      SumSnoc(b', b[|b| - 1], f);
      assert b == b' + [b[|b| - 1]];
    }
  }

  /** Pulling one element out of the middle of a sum. */
  lemma {:induction false} SumRemove<T>(s: seq<T>, k: nat, f: T -> real)
    requires k < |s|
    ensures Sum(s, f) == f(s[k]) + Sum(s[..k] + s[k + 1..], f)
    decreases |s|
  {
    var n := |s| - 1;
    if k == n {
      assert s[..k] + s[k + 1..] == s[..n];
    } else {
      var s' := s[..n];
      assert s'[k] == s[k];
      SumRemove(s', k, f);
      RemoveBeforeLast(s, k);
      SumSnoc(s'[..k] + s'[k + 1..], s[n], f);
    }
  }

  lemma RemoveBeforeLast<T>(s: seq<T>, k: nat)
    requires k < |s| - 1
    ensures s[..k] + s[k + 1..] == (s[..|s| - 1][..k] + s[..|s| - 1][k + 1..]) + [s[|s| - 1]]
  {
  }

  /** Removing the k-th element removes one copy of it from the multiset. */
  lemma MultisetRemove<T>(s: seq<T>, k: nat)
    requires k < |s|
    ensures multiset(s[..k] + s[k + 1..]) == multiset(s) - multiset{s[k]}
  {
    assert s == s[..k] + [s[k]] + s[k + 1..];
  }

  /** Order independence: any rearrangement of the same contributions has
      the same sum. */
  lemma {:induction false} SumPermutation<T>(a: seq<T>, b: seq<T>, f: T -> real)
    requires multiset(a) == multiset(b)
    ensures Sum(a, f) == Sum(b, f)
    decreases |a|
  {
    if |a| == 0 {
      assert |multiset(b)| == 0;
    } else {
      var n := |a| - 1;
      var x, a' := a[n], a[..n];
      assert multiset(a') == multiset(a) - multiset{x} by {
        MultisetRemove(a, n);
        assert a[..n] + a[n + 1..] == a';
      }
      assert x in multiset(b);
      var k :| 0 <= k < |b| && b[k] == x;
      MultisetRemove(b, k);
      SumPermutation(a', b[..k] + b[k + 1..], f);
      SumRemove(b, k, f);
    }
  }

  /** The integer sum is the real sum of the same values. */
  lemma {:induction false} SumIntAsReal<T>(s: seq<T>, f: T -> int, g: T -> real)
    requires forall x :: g(x) == f(x) as real
    ensures SumInt(s, f) as real == Sum(s, g)
    decreases |s|
  {
    if |s| > 0 {
      SumIntAsReal(s[..|s| - 1], f, g);
    }
  }

  lemma SumIntPermutation<T>(a: seq<T>, b: seq<T>, f: T -> int)
    requires multiset(a) == multiset(b)
    ensures SumInt(a, f) == SumInt(b, f)
  {
    var g := x => f(x) as real;
    SumIntAsReal(a, f, g);
    SumIntAsReal(b, f, g);
    SumPermutation(a, b, g);
  }

  lemma SumIntSnoc<T>(s: seq<T>, x: T, f: T -> int)
    ensures SumInt(s + [x], f) == SumInt(s, f) + f(x)
  {
    assert (s + [x])[..|s|] == s;
  }

  /** Sum of a sequence of integers. */
  function Total(s: seq<int>): int
  {
    if |s| == 0 then 0 else Total(s[..|s| - 1]) + s[|s| - 1]
  }

  /** Bumping one cell of a count buffer raises its total by one. */
  lemma {:induction false} TotalIncrement(s: seq<int>, i: nat)
    requires i < |s|
    ensures Total(s[i := s[i] + 1]) == Total(s) + 1
    decreases |s|
  {
    var t := s[i := s[i] + 1];
    if i == |s| - 1 {
      assert t[..|t| - 1] == s[..|s| - 1];
    } else {
      assert t[..|t| - 1] == s[..|s| - 1][i := s[i] + 1];
      TotalIncrement(s[..|s| - 1], i);
    }
  }
}
