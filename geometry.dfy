/** Points of the world space and the linear interpolation the movement
    component is built on.  Coordinates are exact reals: floating-point
    rounding is not modelled here (the engine's own coordinate rounding is a
    parameter of the movement module). */
module Geometry {

  /** A point with two coordinates; equality is value equality. */
  datatype Point = Point(x: real, y: real)

  function Abs(r: real): real
  {
    if r < 0.0 then -r else r
  }

  /** One coordinate of a lerp: `a + (b - a) * t`, with `t` not clamped. */
  function LerpCoord(a: real, b: real, t: real): real
  {
    a + (b - a) * t
  }

  /** The point-to-point lerp the component calls: component-wise
      `start + (destination - start) * time`.  `time` is not clamped, so a
      fraction above 1 overshoots the destination. */
  function Lerp(start: Point, destination: Point, time: real): (r: Point)
    ensures r.x - destination.x == (start.x - destination.x) * (1.0 - time)
    ensures r.y - destination.y == (start.y - destination.y) * (1.0 - time)
  {
    Point(LerpCoord(start.x, destination.x, time), LerpCoord(start.y, destination.y, time))
  }

  /** The special cases of a lerp: a zero fraction stays put, a full
      fraction lands on the destination, and the destination is a fixed point. */
  lemma LerpFixedPoints(start: Point, destination: Point, time: real)
    ensures time == 0.0 ==> Lerp(start, destination, time) == start
    ensures time == 1.0 ==> Lerp(start, destination, time) == destination
    ensures Lerp(destination, destination, time) == destination
  {
  }

  /** `b` raised to the natural power `n`. */
  function Pow(b: real, n: nat): real
  {
    if n == 0 then 1.0 else b * Pow(b, n - 1)
  }

  /** One coordinate of `Compounded`. */
  function CompoundedCoord(a: real, b: real, t: real, n: nat): real
  {
    if n == 0 then a else LerpCoord(CompoundedCoord(a, b, t, n - 1), b, t)
  }

  /** The point reached by lerping `n` times in a row from `start` toward
      `destination`, each time with the same fraction `time` and each time
      from the previous (unrounded) result.  Its contract: compounded lerping
      acts on each coordinate independently. */
  function Compounded(start: Point, destination: Point, time: real, n: nat): (r: Point)
    ensures r.x == CompoundedCoord(start.x, destination.x, time, n)
    ensures r.y == CompoundedCoord(start.y, destination.y, time, n)
  {
    if n == 0 then start else Lerp(Compounded(start, destination, time, n - 1), destination, time)
  }

  /** Closed form of one coordinate: `b + (a - b) * (1 - t)^n`. */
  lemma {:induction false} CoordClosedForm(a: real, b: real, t: real, n: nat)
    ensures CompoundedCoord(a, b, t, n) == b + (a - b) * Pow(1.0 - t, n)
  {
    if n > 0 {
      CoordClosedForm(a, b, t, n - 1);
      OffsetStep(CompoundedCoord(a, b, t, n), CompoundedCoord(a, b, t, n - 1), a, b,
                 Pow(1.0 - t, n - 1), Pow(1.0 - t, n), t);
    }
  }

  /** The inductive step of the closed form: an offset `(a - b) * q` from the
      destination `b` becomes `(a - b) * ((1 - t) * q)` after one more lerp. */
  lemma OffsetStep(next: real, prev: real, a: real, b: real, q: real, p: real, t: real)
    requires prev == b + (a - b) * q
    requires next == LerpCoord(prev, b, t)
    requires p == (1.0 - t) * q
    ensures next == b + (a - b) * p
  {
  }

  /** Closed form of compounded lerping: per coordinate,
      `destination + (start - destination) * (1 - time)^n`. */
  lemma CompoundedClosedForm(start: Point, destination: Point, time: real, n: nat)
    ensures Compounded(start, destination, time, n).x
            == destination.x + (start.x - destination.x) * Pow(1.0 - time, n)
    ensures Compounded(start, destination, time, n).y
            == destination.y + (start.y - destination.y) * Pow(1.0 - time, n)
  {
    CoordClosedForm(start.x, destination.x, time, n);
    CoordClosedForm(start.y, destination.y, time, n);
  }

  /** Lerping from the destination itself never leaves it. */
  lemma {:induction false} CompoundedAtTarget(destination: Point, time: real, n: nat)
    ensures Compounded(destination, destination, time, n) == destination
  {
    if n > 0 {
      CompoundedAtTarget(destination, time, n - 1);
    }
  }

  /** With a zero fraction no number of lerps moves the start point. */
  lemma {:induction false} CompoundedZeroRate(start: Point, destination: Point, n: nat)
    ensures Compounded(start, destination, 0.0, n) == start
  {
    if n > 0 {
      CompoundedZeroRate(start, destination, n - 1);
    }
  }

  /** A full fraction reaches the destination in one lerp and stays there. */
  lemma {:induction false} CompoundedFullRate(start: Point, destination: Point, n: nat)
    requires n >= 1
    ensures Compounded(start, destination, 1.0, n) == destination
  {
    if n > 1 {
      CompoundedFullRate(start, destination, n - 1);
    }
  }

  /** Powers of a base of magnitude at most 1 have magnitude at most 1. */
  lemma {:induction false} PowWithinUnit(b: real, n: nat)
    requires Abs(b) <= 1.0
    ensures Abs(Pow(b, n)) <= 1.0
  {
    if n > 0 {
      PowWithinUnit(b, n - 1);
      ScaleWithinUnit(b, Pow(b, n - 1));
    }
  }

  /** Positive powers of a base of magnitude below 1 have magnitude below 1. */
  lemma {:induction false} PowBelowUnit(b: real, n: nat)
    requires Abs(b) < 1.0
    requires n >= 1
    ensures Abs(Pow(b, n)) < 1.0
  {
    if n == 1 {
      assert Pow(b, 1) == b * Pow(b, 0);
    } else {
      PowBelowUnit(b, n - 1);
      ScaleWithinUnit(b, Pow(b, n - 1));
    }
  }

  /** Multiplying by a non-negative factor preserves order. */
  lemma MulMonotonic(k: real, u: real, v: real)
    requires k >= 0.0
    requires u <= v
    ensures k * u <= k * v
    ensures k > 0.0 && u < v ==> k * u < k * v
  {
    assert k * v - k * u == k * (v - u);
  }

  /** The magnitude of a product is the product of the magnitudes. */
  lemma AbsMul(d: real, c: real)
    ensures Abs(d * c) == Abs(d) * Abs(c)
  {
    if d < 0.0 && c < 0.0 {
      assert d * c == (-d) * (-c);
      MulMonotonic(-d, 0.0, -c);
    } else if d < 0.0 {
      assert d * c == -((-d) * c);
      MulMonotonic(-d, 0.0, c);
    } else if c < 0.0 {
      assert d * c == -(d * (-c));
      MulMonotonic(d, 0.0, -c);
    } else {
      MulMonotonic(d, 0.0, c);
    }
  }

  /** Scaling by a factor of magnitude at most 1 does not increase the
      magnitude. */
  lemma ScaleWithinUnit(d: real, c: real)
    requires Abs(c) <= 1.0
    ensures Abs(d * c) <= Abs(d)
  {
    AbsMul(d, c);
    MulMonotonic(Abs(d), Abs(c), 1.0);
  }

  /** Scaling a non-zero value by a factor of magnitude below 1 strictly
      decreases its magnitude. */
  lemma ScaleBelowUnit(d: real, c: real)
    requires Abs(c) < 1.0
    requires d != 0.0
    ensures Abs(d * c) < Abs(d)
  {
    AbsMul(d, c);
    MulMonotonic(Abs(d), Abs(c), 1.0);
  }

  /** A coordinate `b + offset * p` with `|p| <= 1` lies no farther from `b`
      than `offset`, and strictly closer when `|p| < 1` and the offset is not
      zero. */
  lemma OffsetBound(c: real, b: real, offset: real, p: real)
    requires c == b + offset * p
    requires Abs(p) <= 1.0
    ensures Abs(c - b) <= Abs(offset)
    ensures Abs(p) < 1.0 && offset != 0.0 ==> Abs(c - b) < Abs(offset)
  {
    ScaleWithinUnit(offset, p);
    if Abs(p) < 1.0 && offset != 0.0 {
      ScaleBelowUnit(offset, p);
    }
  }

  /** One coordinate, fractions in [0, 2]: the offset never grows. */
  lemma CoordNonDivergent(a: real, b: real, t: real, n: nat)
    requires 0.0 <= t <= 2.0
    ensures Abs(CompoundedCoord(a, b, t, n) - b) <= Abs(a - b)
  {
    CoordClosedForm(a, b, t, n);
    PowWithinUnit(1.0 - t, n);
    OffsetBound(CompoundedCoord(a, b, t, n), b, a - b, Pow(1.0 - t, n));
  }

  /** One coordinate, fractions in (0, 2), one or more lerps: a non-zero
      offset strictly shrinks. */
  lemma CoordConverges(a: real, b: real, t: real, n: nat)
    requires 0.0 < t < 2.0
    requires n >= 1
    ensures a != b ==> Abs(CompoundedCoord(a, b, t, n) - b) < Abs(a - b)
  {
    CoordClosedForm(a, b, t, n);
    PowBelowUnit(1.0 - t, n);
    OffsetBound(CompoundedCoord(a, b, t, n), b, a - b, Pow(1.0 - t, n));
  }

  /** For fractions in [0, 2] compounded lerping never moves a coordinate away
      from the destination (a fraction above 1 overshoots, but by less than the
      starting offset). */
  lemma CompoundedNonDivergent(start: Point, destination: Point, time: real, n: nat)
    requires 0.0 <= time <= 2.0
    ensures Abs(Compounded(start, destination, time, n).x - destination.x) <= Abs(start.x - destination.x)
    ensures Abs(Compounded(start, destination, time, n).y - destination.y) <= Abs(start.y - destination.y)
  {
    CoordNonDivergent(start.x, destination.x, time, n);
    CoordNonDivergent(start.y, destination.y, time, n);
  }

  /** For fractions strictly between 0 and 2, one or more lerps strictly
      reduce every coordinate's offset from the destination that is not
      already zero. */
  lemma CompoundedConverges(start: Point, destination: Point, time: real, n: nat)
    requires 0.0 < time < 2.0
    requires n >= 1
    ensures start.x != destination.x ==>
              Abs(Compounded(start, destination, time, n).x - destination.x) < Abs(start.x - destination.x)
    ensures start.y != destination.y ==>
              Abs(Compounded(start, destination, time, n).y - destination.y) < Abs(start.y - destination.y)
  {
    CoordConverges(start.x, destination.x, time, n);
    CoordConverges(start.y, destination.y, time, n);
  }
}
