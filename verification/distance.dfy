/**
 * hnsw/distance.go: the squared Euclidean distance between two vectors of
 * the same dimension, without a square root. Coordinates are integers here;
 * float32 rounding is not part of this model.
 */
module Distance {

  /** The sum of squared coordinate differences, coordinate by coordinate. */
  function SumSquares(a: seq<int>, b: seq<int>): int
    requires |a| == |b|
  {
    if |a| == 0 then 0
    else
      var d := a[|a| - 1] - b[|a| - 1];
      SumSquares(a[..|a| - 1], b[..|a| - 1]) + d * d
  }

  /** `L2Distance`: vectors of different dimensions make it panic; it adds
      up the squared differences in order. */
  method L2Distance(a: seq<int>, b: seq<int>) returns (sum: int)
    requires |a| == |b|
    ensures sum == SumSquares(a, b)
  {
    sum := 0;
    var i := 0;
    while i < |a|
      invariant 0 <= i <= |a|
      invariant sum == SumSquares(a[..i], b[..i])
    {
      var diff := a[i] - b[i];
      assert a[..i + 1][..i] == a[..i] && b[..i + 1][..i] == b[..i];
      sum := sum + diff * diff;
      i := i + 1;
    }
    assert a[..i] == a && b[..i] == b;
  }

  /** The distance is never negative. */
  lemma {:induction false} NonNegative(a: seq<int>, b: seq<int>)
    requires |a| == |b|
    ensures SumSquares(a, b) >= 0
  {
    if |a| > 0 {
      NonNegative(a[..|a| - 1], b[..|a| - 1]);
    }
  }

  /** The distance does not depend on the order of its arguments. */
  lemma {:induction false} Symmetric(a: seq<int>, b: seq<int>)
    requires |a| == |b|
    ensures SumSquares(a, b) == SumSquares(b, a)
  {
    if |a| > 0 {
      var n := |a| - 1;
      Symmetric(a[..n], b[..n]);
      assert (a[n] - b[n]) * (a[n] - b[n]) == (b[n] - a[n]) * (b[n] - a[n]);
    }
  }

  /** The distance is zero exactly between equal vectors. */
  lemma {:induction false} ZeroIffEqual(a: seq<int>, b: seq<int>)
    requires |a| == |b|
    ensures SumSquares(a, b) == 0 <==> a == b
  {
    if |a| > 0 {
      var n := |a| - 1;
      ZeroIffEqual(a[..n], b[..n]);
      NonNegative(a[..n], b[..n]);
      if SumSquares(a, b) == 0 {
        assert (a[n] - b[n]) * (a[n] - b[n]) >= 0;
        assert a == a[..n] + [a[n]] && b == b[..n] + [b[n]];
      }
      if a == b {
        assert a[..n] == b[..n];
      }
    }
  }

  /** The distance from (1, 2, 3) to (4, 5, 6) is 9 + 9 + 9. */
  lemma Example()
    ensures SumSquares([1, 2, 3], [4, 5, 6]) == 27
  {
    assert [1, 2, 3][..2] == [1, 2] && [4, 5, 6][..2] == [4, 5];
    assert [1, 2][..1] == [1] && [4, 5][..1] == [4];
    assert [1][..0] == [] && [4][..0] == [];
  }
}
