/**
 * The coordinate bins of the spatial bucketing: `int(coord / tolerance)`,
 * where Python's `int()` on a float truncates toward zero.
 */
module Binning {

  function Abs(r: real): real {
    if r < 0.0 then -r else r
  }

  /** Python's `int(r)`: drops the fractional part, rounding toward zero (not a floor). */
  function Trunc(r: real): (t: int)
    ensures 0.0 <= r ==> t as real <= r < t as real + 1.0
    ensures r < 0.0 ==> t as real - 1.0 < r <= t as real
  {
    if r >= 0.0 then r.Floor else -((-r).Floor)
  }

  /** The bin index of a coordinate for a non-zero tolerance. */
  function Bin(coord: real, tol: real): int
    requires tol != 0.0
  {
    Trunc(coord / tol)
  }

  /** With a positive tolerance, bin 0 is the open interval (-tol, tol): twice as wide as every other bin. */
  lemma ZeroBinSpan(x: real, tol: real)
    requires tol > 0.0
    ensures Bin(x, tol) == 0 <==> -tol < x < tol
  {
    var q := x / tol;
    assert x == q * tol;
    if Bin(x, tol) == 0 {
      assert -1.0 < q < 1.0;
    }
    if -tol < x < tol {
      assert -1.0 < q < 1.0;
    }
  }

  /** Scaling a quotient difference below one by a positive tolerance stays below the tolerance. */
  lemma ScaledBelow(d: real, tol: real)
    requires tol > 0.0 && -1.0 < d < 1.0
    ensures Abs(d * tol) < tol
  {
    assert (1.0 - d) * tol > 0.0;
    assert (1.0 + d) * tol > 0.0;
  }

  /**
   * Two coordinates in the same non-zero bin lie in one half-open interval of
   * width `tol`, so they differ by less than the tolerance.
   */
  lemma SameNonZeroBinWithinTolerance(x1: real, x2: real, tol: real)
    requires tol > 0.0
    requires Bin(x1, tol) == Bin(x2, tol) != 0
    ensures Abs(x1 - x2) < tol
  {
    var q1, q2 := x1 / tol, x2 / tol;
    assert -1.0 < q1 - q2 < 1.0 by {
      var b := Bin(x1, tol) as real;
      if b > 0.0 {
        assert b <= q1 < b + 1.0 && b <= q2 < b + 1.0;
      } else {
        assert b - 1.0 < q1 <= b && b - 1.0 < q2 <= b;
      }
    }
    var d := q1 - q2;
    assert x1 == q1 * tol && x2 == q2 * tol;
    assert x1 - x2 == d * tol;
    ScaledBelow(d, tol);
  }

  /** Bin 0 can hold two coordinates that are further apart than the tolerance. */
  lemma ZeroBinCanExceedTolerance(tol: real)
    requires tol > 0.0
    ensures Bin(-tol * 0.75, tol) == 0 && Bin(tol * 0.75, tol) == 0
    ensures Abs(tol * 0.75 - -tol * 0.75) > tol
  {
    assert (-tol * 0.75) / tol == -0.75;
    assert (tol * 0.75) / tol == 0.75;
  }
}
