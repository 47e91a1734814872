/**
 * The numeric vocabulary of Task-Space Regions: transforms, chart entries that may be NaN,
 * bound intervals, and the per-degree-of-freedom bound checks.
 *
 * Transforms are kept symbolic. `Compose` and `ChartToTransform` build terms of a free
 * algebra, so every equation proved between transforms here holds for any interpretation
 * of matrix multiplication and of the chart-to-matrix map.
 */
module Geometry {

  /** math.pi, written out as the decimal of the double that Python uses. */
  const PI: real := 3.141592653589793
  /** 2*pi as Python computes it (doubling is exact in floating point). */
  const TWO_PI: real := 6.283185307179586
  /** The tolerance of every bound check. */
  const EPSILON: real := 0.001

  /** A 4x4 rigid transform, as an uninterpreted term. */
  datatype Transform =
    | Matrix(rows: seq<seq<real>>)      // a literal matrix, e.g. the identity
    | Chart(xyzypr: seq<real>)          // the transform of a chart vector [x y z yaw pitch roll]
    | Product(lhs: Transform, rhs: Transform)

  function Identity(): Transform {
    Matrix([[1.0, 0.0, 0.0, 0.0], [0.0, 1.0, 0.0, 0.0], [0.0, 0.0, 1.0, 0.0], [0.0, 0.0, 0.0, 1.0]])
  }

  /** Matrix product (numpy.dot). */
  function Compose(a: Transform, b: Transform): Transform {
    Product(a, b)
  }

  /** kin.pose_to_H(kin.pose_from_xyzypr(v)). */
  function ChartToTransform(xyzypr: seq<real>): Transform {
    Chart(xyzypr)
  }

  /** One entry of an xyzrpy vector: a number, or NaN for "unconstrained". */
  datatype Entry = NaN | Val(v: real)

  /** One row [min, max] of the bound matrix Bw. */
  datatype Interval = Interval(lo: real, hi: real)

  /** The 6x2 bound matrix Bw: rows x, y, z, roll, pitch, yaw. */
  type Box = b: seq<Interval> | |b| == 6
    witness [Interval(0.0, 0.0), Interval(0.0, 0.0), Interval(0.0, 0.0),
             Interval(0.0, 0.0), Interval(0.0, 0.0), Interval(0.0, 0.0)]

  /** numpy.zeros((6, 2)). */
  function ZeroBox(): Box {
    [Interval(0.0, 0.0), Interval(0.0, 0.0), Interval(0.0, 0.0),
     Interval(0.0, 0.0), Interval(0.0, 0.0), Interval(0.0, 0.0)]
  }

  /** Python's float `y % (2*pi)`: the remainder takes the sign of the divisor. */
  function Mod2Pi(y: real): (r: real)
    ensures 0.0 <= r < TWO_PI
  {
    y - TWO_PI * (y / TWO_PI).Floor as real
  }

  /** `(v + pi) % (2*pi) - pi`: the source's wrap of an angle into [-pi, pi). */
  function Wrap(v: real): (r: real)
    ensures -PI <= r < PI
  {
    Mod2Pi(v + PI) - PI
  }

  /** v turned by k full circles. */
  function Turn(v: real, k: int): real {
    v + TWO_PI * k as real
  }

  lemma FloorShift(z: real, k: int)
    ensures (z + k as real).Floor == z.Floor + k
  {
  }

  /** Turning by whole circles does not change the remainder. */
  lemma Mod2PiTurn(y: real, k: int)
    ensures Mod2Pi(Turn(y, k)) == Mod2Pi(y)
  {
    assert Turn(y, k) / TWO_PI == y / TWO_PI + k as real;
    FloorShift(y / TWO_PI, k);
  }

  /** The remainder of y differs from y by whole circles. */
  lemma Mod2PiIsTurn(y: real)
    ensures Mod2Pi(y) == Turn(y, -(y / TWO_PI).Floor)
  {
  }

  /** A value already in [0, 2*pi) is its own remainder. */
  lemma Mod2PiOfRemainder(y: real)
    requires 0.0 <= y < TWO_PI
    ensures Mod2Pi(y) == y
  {
    assert (y / TWO_PI).Floor == 0;
  }

  /** The source's wrap: a value in [-pi, pi), and the same value for angles a whole number of circles apart. */
  lemma WrapTurn(v: real, k: int)
    ensures -PI <= Wrap(v) < PI
    ensures Wrap(Turn(v, k)) == Wrap(v)
  {
    assert Turn(v, k) + PI == Turn(v + PI, k);
    Mod2PiTurn(v + PI, k);
  }

  /** The translational check of tsr.py: `x + EPSILON >= min and x - EPSILON <= max`. */
  predicate WithinInterval(iv: Interval, x: real) {
    x + EPSILON >= iv.lo && x - EPSILON <= iv.hi
  }

  /**
   * The rotational check as tsr.py writes it: both bounds and the value are wrapped into
   * [-pi, pi) separately and then compared with the translational tolerance.
   */
  predicate RotationWithinAsWritten(iv: Interval, x: real) {
    var w := Wrap(x);
    w + EPSILON >= Wrap(iv.lo) && w - EPSILON <= Wrap(iv.hi)
  }

  /**
   * The rotational check the wrap is meant to implement: the angle, turned by some whole
   * number of circles, lies within [min, max] up to EPSILON.
   */
  predicate RotationWithin(iv: Interval, x: real) {
    Mod2Pi(x - iv.lo + EPSILON) <= iv.hi - iv.lo + 2.0 * EPSILON
  }

  lemma Mod2PiBelow(y: real)
    requires 0.0 <= y
    ensures Mod2Pi(y) <= y
  {
  }

  /** RotationWithin holds exactly when some turn of the angle passes the translational check. */
  lemma RotationWithinIff(iv: Interval, x: real)
    ensures RotationWithin(iv, x) <==> exists k :: WithinInterval(iv, Turn(x, k))
  {
    var y := x - iv.lo + EPSILON;
    if RotationWithin(iv, x) {
      var k := -(y / TWO_PI).Floor;
      Mod2PiIsTurn(y);
      assert Turn(x, k) - iv.lo + EPSILON == Mod2Pi(y);
      assert WithinInterval(iv, Turn(x, k));
    }
    if k :| WithinInterval(iv, Turn(x, k)) {
      assert Turn(y, k) == Turn(x, k) - iv.lo + EPSILON;
      Mod2PiTurn(y, k);
      Mod2PiBelow(Turn(y, k));
    }
  }

  /** Angles a whole number of circles apart get the same verdict. */
  lemma RotationWithinTurn(iv: Interval, x: real, k: int)
    ensures RotationWithin(iv, Turn(x, k)) == RotationWithin(iv, x)
  {
    assert Turn(x, k) - iv.lo + EPSILON == Turn(x - iv.lo + EPSILON, k);
    Mod2PiTurn(x - iv.lo + EPSILON, k);
  }

  /** The as-written check is periodic as well: it only looks at the wrapped value. */
  lemma RotationWithinAsWrittenTurn(iv: Interval, x: real, k: int)
    ensures RotationWithinAsWritten(iv, Turn(x, k)) == RotationWithinAsWritten(iv, x)
  {
    WrapTurn(x, k);
  }

  /** A value within [min, max] passes the corrected rotational check. */
  lemma RotationWithinOfInterval(iv: Interval, x: real)
    requires iv.lo <= x <= iv.hi
    ensures RotationWithin(iv, x)
  {
    assert WithinInterval(iv, Turn(x, 0));
    RotationWithinIff(iv, x);
  }

  lemma WrapOfPrincipal(v: real)
    requires -PI <= v < PI
    ensures Wrap(v) == v
  {
    Mod2PiOfRemainder(v + PI);
  }

  /**
   * Away from the seam at +-pi the two rotational checks agree: when both bounds lie in
   * [-pi + EPSILON, pi - EPSILON), the source's wrap gives the intended verdict.
   */
  lemma RotationChecksAgreeAwayFromSeam(iv: Interval, x: real)
    requires -PI + EPSILON <= iv.lo <= iv.hi
    requires iv.hi + EPSILON < PI
    ensures RotationWithinAsWritten(iv, x) == RotationWithin(iv, x)
  {
    WrapOfPrincipal(iv.lo);
    WrapOfPrincipal(iv.hi);
    RotationWithinIff(iv, x);
    var q := ((x + PI) / TWO_PI).Floor;
    assert Wrap(x) == Turn(x, -q);
    if RotationWithinAsWritten(iv, x) {
      assert WithinInterval(iv, Turn(x, -q));
    }
    if k :| WithinInterval(iv, Turn(x, k)) {
      WrapOfPrincipal(Turn(x, k));
      WrapTurn(x, k);
    }
  }

  /**
   * The full circle [-pi, pi]: the source wraps both bounds to -pi, so the angle 0, which
   * lies inside the row, fails the as-written check; the corrected check accepts it.
   */
  lemma FullCircleRejectsZero()
    ensures !RotationWithinAsWritten(Interval(-PI, PI), 0.0)
    ensures RotationWithin(Interval(-PI, PI), 0.0)
  {
    assert (0.0 / TWO_PI).Floor == 0;
    assert ((PI + PI) / TWO_PI).Floor == 1;
    assert Wrap(PI) == -PI;
    assert Wrap(-PI) == -PI;
    assert Wrap(0.0) == 0.0;
    RotationWithinOfInterval(Interval(-PI, PI), 0.0);
  }
}
