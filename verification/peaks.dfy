/** The "largest cell" passes every renderer runs before tone mapping. Each
    starts from zero and keeps the larger value, so the result is zero when
    every cell is non-positive, and otherwise the largest cell. */
module Peaks {

  /** Largest entry of `s`, or zero when no entry is positive. */
  function Peak(s: seq<real>): (m: real)
    ensures m >= 0.0
    ensures forall i :: 0 <= i < |s| ==> s[i] <= m
    ensures m == 0.0 || exists i :: 0 <= i < |s| && s[i] == m
  {
    if |s| == 0 then 0.0
    else
      var m := Peak(s[..|s| - 1]);
      if s[|s| - 1] > m then s[|s| - 1] else m
  }

  /** Integer counterpart of `Peak`. */
  function PeakCount(s: seq<int>): (m: int)
    ensures m >= 0
    ensures forall i :: 0 <= i < |s| ==> s[i] <= m
    ensures m == 0 || exists i :: 0 <= i < |s| && s[i] == m
  {
    if |s| == 0 then 0
    else
      var m := PeakCount(s[..|s| - 1]);
      if s[|s| - 1] > m then s[|s| - 1] else m
  }

  /** The peak is zero exactly when no cell is positive. */
  lemma PeakZeroIffNoPositive(s: seq<real>)
    ensures Peak(s) == 0.0 <==> forall i :: 0 <= i < |s| ==> s[i] <= 0.0
  {
  }

  lemma PeakCountZeroIffNoPositive(s: seq<int>)
    ensures PeakCount(s) == 0 <==> forall i :: 0 <= i < |s| ==> s[i] <= 0
  {
  }

  /** `max := 0.0; for _, b := range s { if b > max { max = b } }`. */
  method MaxFromZero(s: seq<real>) returns (m: real)
    ensures m == Peak(s)
  {
    m := 0.0;
    var i := 0;
    while i < |s|
      invariant 0 <= i <= |s|
      invariant m == Peak(s[..i])
    {
      assert s[..i + 1][..i] == s[..i];
      if s[i] > m {
        m := s[i];
      }
      i := i + 1;
    }
    assert s[..i] == s;
  }

  /** `maxCount := 0; for _, c := range counts { if c > maxCount { maxCount = c } }`. */
  method MaxCount(s: seq<int>) returns (m: int)
    ensures m == PeakCount(s)
  {
    m := 0;
    var i := 0;
    while i < |s|
      invariant 0 <= i <= |s|
      invariant m == PeakCount(s[..i])
    {
      assert s[..i + 1][..i] == s[..i];
      if s[i] > m {
        m := s[i];
      }
      i := i + 1;
    }
    assert s[..i] == s;
  }
}
