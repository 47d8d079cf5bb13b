/**
 * The vector helpers of `src/utils/vector.js` that the line builder relies on.
 * A vector is a list of reals; positions and rotations use three components.
 * Square roots and arc tangents are not computed here: they are the fields of
 * a `Trig` value that the caller supplies.
 */
module Vector {
  import opened Seqs

  type Vec = seq<real>

  const Up: Vec := [0.0, 1.0, 0.0]
  const Down: Vec := [0.0, -1.0, 0.0]
  const Left: Vec := [-1.0, 0.0, 0.0]
  const Right: Vec := [1.0, 0.0, 0.0]
  const Into: Vec := [0.0, 0.0, -1.0]
  const Outward: Vec := [0.0, 0.0, 1.0]

  /**
   * `tau` of math.js, `2 * Math.PI` as a double. Only its positivity is used
   * in the proofs below.
   */
  const Tau: real := 6.283185307179586
  /** `halfpi` (alias `hpi`) of math.js. */
  const HalfPi: real := Tau / 4.0

  /** `z3()`: a fresh zero vector. */
  function Z3(): (r: Vec)
    ensures |r| == 3 && forall i :: 0 <= i < 3 ==> r[i] == 0.0
  {
    [0.0, 0.0, 0.0]
  }

  /** `scale(amt, v)`: every component multiplied by `amt`. */
  function Scale(amt: real, v: Vec): (r: Vec)
    ensures |r| == |v|
    ensures forall i :: 0 <= i < |v| ==> r[i] == amt * v[i]
  {
    seq(|v|, i requires 0 <= i < |v| => amt * v[i])
  }

  /** `add(a, b)`: component-wise sum of two vectors of one size. */
  function Add(a: Vec, b: Vec): (r: Vec)
    requires |a| == |b|
    ensures |r| == |a|
    ensures forall i :: 0 <= i < |a| ==> r[i] == a[i] + b[i]
  {
    seq(|a|, i requires 0 <= i < |a| => a[i] + b[i])
  }

  /** `sub(a, b)`: component-wise difference of two vectors of one size. */
  function Sub(a: Vec, b: Vec): (r: Vec)
    requires |a| == |b|
    ensures |r| == |a|
    ensures forall i :: 0 <= i < |a| ==> r[i] == a[i] - b[i]
  {
    seq(|a|, i requires 0 <= i < |a| => a[i] - b[i])
  }

  /** Adding and subtracting the same vector cancel out. */
  lemma AddSubInverse(a: Vec, b: Vec)
    requires |a| == |b|
    ensures Sub(Add(a, b), b) == a
    ensures Add(Sub(a, b), b) == a
  {
    assert forall i :: 0 <= i < |a| ==> Sub(Add(a, b), b)[i] == a[i];
    assert forall i :: 0 <= i < |a| ==> Add(Sub(a, b), b)[i] == a[i];
  }

  /** The directions come in opposite pairs. */
  lemma DirectionsOpposite()
    ensures Down == Scale(-1.0, Up)
    ensures Left == Scale(-1.0, Right)
    ensures Into == Scale(-1.0, Outward)
    ensures Z3() == Scale(0.0, Up)
  {
  }

  /** The point reached from `p` after walking `s` lengths of `u`: `add(p, scl(s, u))`. */
  function Along(p: Vec, s: real, u: Vec): (r: Vec)
    requires |p| == |u|
    ensures |r| == |p|
  {
    Add(p, Scale(s, u))
  }

  lemma AlongZero(p: Vec, u: Vec)
    requires |p| == |u|
    ensures Along(p, 0.0, u) == p
  {
    assert forall i :: 0 <= i < |p| ==> Along(p, 0.0, u)[i] == p[i];
  }

  /** Two walks in the same direction add up. */
  lemma AlongAlong(p: Vec, s: real, t: real, u: Vec)
    requires |p| == |u|
    ensures Along(Along(p, s, u), t, u) == Along(p, s + t, u)
  {
    forall i | 0 <= i < |p|
      ensures Along(Along(p, s, u), t, u)[i] == Along(p, s + t, u)[i]
    {
      assert (s + t) * u[i] == s * u[i] + t * u[i];
    }
  }

  /** Stepping back by `scl(f, u)` is walking `f` fewer lengths. */
  lemma AlongBack(p: Vec, s: real, f: real, u: Vec)
    requires |p| == |u|
    ensures Sub(Along(p, s, u), Scale(f, u)) == Along(p, s - f, u)
  {
    forall i | 0 <= i < |p|
      ensures Sub(Along(p, s, u), Scale(f, u))[i] == Along(p, s - f, u)[i]
    {
      assert (s - f) * u[i] == s * u[i] - f * u[i];
    }
  }

  /** `d2r`: degrees to radians; a full turn is `tau`, and the sign is kept. */
  function D2R(x: real): (r: real)
    ensures x == 360.0 ==> r == Tau
    ensures r > 0.0 <==> x > 0.0
    ensures r < 0.0 <==> x < 0.0
  {
    (Tau * x) / 360.0
  }

  /** `r2d`: radians to degrees; `tau` is a full turn, and the sign is kept. */
  function R2D(x: real): (r: real)
    ensures x == Tau ==> r == 360.0
    ensures r > 0.0 <==> x > 0.0
    ensures r < 0.0 <==> x < 0.0
  {
    (360.0 * x) / Tau
  }

  lemma AngleRoundTrip(x: real)
    ensures R2D(D2R(x)) == x
    ensures D2R(R2D(x)) == x
  {
  }

  /** `squareSum`: the sum of the squared components, never negative. */
  function SquareSum(v: Vec): (r: real)
    ensures r >= 0.0
  {
    if v == [] then 0.0
    else
      var last := v[|v| - 1];
      SquareNonNegative(last);
      SquareSum(v[..|v| - 1]) + last * last
  }

  lemma SquareNonNegative(x: real)
    ensures x * x >= 0.0
  {
    if x < 0.0 {
      assert x * x == (-x) * (-x);
    }
  }

  /** The square sum of a concatenation adds the square sums of the parts. */
  lemma {:induction false} SquareSumConcat(a: Vec, b: Vec)
    ensures SquareSum(a + b) == SquareSum(a) + SquareSum(b)
  {
    if b != [] {
      var b' := b[..|b| - 1];
      SquareSumConcat(a, b');
      assert (a + b)[..|a + b| - 1] == a + b';
    } else {
      assert a + b == a;
    }
  }

  /** A vector of zeros has square sum zero; `z3()` is one. */
  lemma {:induction false} SquareSumOfZeros(v: Vec)
    requires forall i :: 0 <= i < |v| ==> v[i] == 0.0
    ensures SquareSum(v) == 0.0
  {
    if v != [] {
      SquareSumOfZeros(v[..|v| - 1]);
    }
  }

  /**
   * The transcendental functions the vector helpers call: `Math.sqrt` (under
   * mathjs `hypot`), `Math.atan2` and `Math.cos`.
   */
  datatype Trig = Trig(sqrt: real -> real, atan2: (real, real) -> real, cos: real -> real)

  /** What the proofs need of `sqrt`: the non-negative root of a non-negative number. */
  ghost predicate Sound(trig: Trig) {
    forall x :: x >= 0.0 ==> trig.sqrt(x) >= 0.0 && trig.sqrt(x) * trig.sqrt(x) == x
  }

  /** `mag(v)`, mathjs `hypot`: the square root of the square sum. */
  function Mag(v: Vec, trig: Trig): (r: real)
    ensures Sound(trig) ==> r >= 0.0 && r * r == SquareSum(v)
  {
    trig.sqrt(SquareSum(v))
  }

  /** Scaling a vector scales its square sum by the square of the factor. */
  lemma {:induction false} SquareSumScale(c: real, v: Vec)
    ensures SquareSum(Scale(c, v)) == c * c * SquareSum(v)
  {
    if v != [] {
      var init := v[..|v| - 1];
      var last := v[|v| - 1];
      SquareSumScale(c, init);
      var sv := Scale(c, v);
      assert sv[..|v| - 1] == Scale(c, init) by {
        forall i | 0 <= i < |v| - 1
          ensures sv[..|v| - 1][i] == Scale(c, init)[i]
        {
          assert init[i] == v[i];
        }
      }
      calc {
        SquareSum(sv);
        SquareSum(Scale(c, init)) + (c * last) * (c * last);
        c * c * SquareSum(init) + (c * last) * (c * last);
        { assert (c * last) * (c * last) == c * c * (last * last); }
        c * c * SquareSum(init) + c * c * (last * last);
        { FactorOut(c * c, SquareSum(init), last * last); }
        c * c * (SquareSum(init) + last * last);
        c * c * SquareSum(v);
      }
    } else {
      assert Scale(c, v) == [];
      assert c * c * 0.0 == 0.0;
    }
  }

  /**
   * `unit(v)`: `v` scaled by one over its magnitude, which gives back `v`
   * when scaled by the magnitude and has magnitude one.
   */
  function Unit(v: Vec, trig: Trig): (r: Vec)
    requires Mag(v, trig) != 0.0
    ensures |r| == |v|
    ensures Scale(Mag(v, trig), r) == v
    ensures Sound(trig) ==> SquareSum(r) == 1.0 && Mag(r, trig) == 1.0
  {
    var h := Mag(v, trig);
    var r := Scale(1.0 / h, v);
    var back := Scale(h, r);
    forall i | 0 <= i < |v|
      ensures back[i] == v[i]
    {
      assert back[i] == h * ((1.0 / h) * v[i]);
    }
    assert back == v;
    UnitMagnitude(v, h, trig);
    r
  }

  /** With a sound square root, `v` scaled by one over its magnitude has magnitude one. */
  lemma UnitMagnitude(v: Vec, h: real, trig: Trig)
    requires h == Mag(v, trig) != 0.0
    ensures Sound(trig) ==> SquareSum(Scale(1.0 / h, v)) == 1.0 && Mag(Scale(1.0 / h, v), trig) == 1.0
  {
    if Sound(trig) {
      var s := SquareSum(v);
      assert h * h == s;
      SquareSumScale(1.0 / h, v);
      InverseSquare(h, s);
      var one := trig.sqrt(1.0);
      assert one >= 0.0 && one * one == 1.0;
      assert (one - 1.0) * (one + 1.0) == 0.0;
      ZeroFactor(one - 1.0, one + 1.0);
    }
  }

  lemma FactorOut(k: real, x: real, y: real)
    ensures k * x + k * y == k * (x + y)
  {
  }

  lemma ZeroFactor(a: real, b: real)
    requires a * b == 0.0 && b != 0.0
    ensures a == 0.0
  {
  }

  lemma InverseSquare(h: real, s: real)
    requires h != 0.0 && h * h == s
    ensures (1.0 / h) * (1.0 / h) * s == 1.0
  {
    assert (1.0 / h) * (1.0 / h) * s == ((1.0 / h) * h) * ((1.0 / h) * h);
  }

  /**
   * `angles(v)`: the Euler angles that turn the prefab's long axis onto the
   * direction of `v`. The roll about that axis is always zero.
   */
  function Angles(v: Vec, trig: Trig): (r: Vec)
    requires |v| == 3 && Mag(v, trig) != 0.0
    ensures |r| == 3 && r[2] == 0.0
    ensures r[1] == trig.atan2(Unit(v, trig)[0], Unit(v, trig)[1])
  {
    var u := Unit(v, trig);
    var roty := trig.atan2(u[0], u[1]);
    var rotx := HalfPi - trig.atan2(u[1] * trig.cos(roty), u[0]);
    [rotx, roty, 0.0]
  }
}
