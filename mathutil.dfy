/**
 * The exact, non-transcendental part of `src/utils/math.js`: range mapping
 * and clamping, the double-remainder `mod`, interval tests, parity, the
 * primality test and the prime sieve, Fibonacci numbers and arithmetic
 * progressions.  JavaScript numbers are modelled as `real` where the
 * helpers work on arbitrary numbers and as `int` where they only make sense
 * on integers.
 */
module MathUtil {
  import opened Wrappers
  import opened JsNum
  import opened Seqs

  // ---------------------------------------------------------------------
  // Range mapping and clamping
  // ---------------------------------------------------------------------

  /** `_map`: the affine map sending `oldMin..oldMax` onto `newMin..newMax`. */
  function MapRange(oldMin: real, oldMax: real, newMin: real, newMax: real, x: real): (r: real)
    requires oldMax != oldMin
    ensures x == oldMin ==> r == newMin
    ensures x == oldMax ==> r == newMax
  {
    var unitValue := (x - oldMin) / (oldMax - oldMin);
    assert x == oldMin ==> unitValue == 0.0;
    assert x == oldMax ==> unitValue == 1.0 by {
      if x == oldMax {
        DivSelf(oldMax - oldMin);
      }
    }
    newMin + unitValue * (newMax - newMin)
  }

  lemma DivSelf(d: real)
    requires d != 0.0
    ensures d / d == 1.0
  {
  }

  /** Mapping back with the ranges swapped returns the original number. */
  lemma MapRangeRoundTrip(oldMin: real, oldMax: real, newMin: real, newMax: real, x: real)
    requires oldMax != oldMin && newMax != newMin
    ensures MapRange(newMin, newMax, oldMin, oldMax, MapRange(oldMin, oldMax, newMin, newMax, x)) == x
  {
    var u := (x - oldMin) / (oldMax - oldMin);
    var y := newMin + u * (newMax - newMin);
    assert (y - newMin) / (newMax - newMin) == u;
    assert oldMin + u * (oldMax - oldMin) == x;
  }

  /** `clamp`: `min` at or below `min`, else `max` at or above `max`, else `x`. */
  function Clamp(min: real, max: real, x: real): (r: real)
    ensures x <= min ==> r == min
    ensures min < x < max ==> r == x
    ensures min < x && max <= x ==> r == max
  {
    if x <= min then min
    else if x >= max then max
    else x
  }

  /** With a well-formed range the clamped value lies inside it. */
  lemma ClampInRange(min: real, max: real, x: real)
    requires min <= max
    ensures min <= Clamp(min, max, x) <= max
    ensures min <= x <= max ==> Clamp(min, max, x) == x
  {
  }

  /** `uClamp`: `clamp(0, 1)`. */
  function UClamp(x: real): (r: real)
    ensures 0.0 <= r <= 1.0
    ensures 0.0 <= x <= 1.0 ==> r == x
    ensures x <= 0.0 ==> r == 0.0
    ensures x >= 1.0 ==> r == 1.0
  {
    ClampInRange(0.0, 1.0, x);
    Clamp(0.0, 1.0, x)
  }

  /** `mapClamp`: `_map` restricted to the source range, constant outside it. */
  function MapClamp(oldMin: real, oldMax: real, newMin: real, newMax: real, x: real): (r: real)
    ensures x <= oldMin ==> r == newMin
    ensures oldMin < x && oldMax <= x ==> r == newMax
    ensures oldMin < x < oldMax ==> r == MapRange(oldMin, oldMax, newMin, newMax, x)
    ensures RealMin(newMin, newMax) <= r <= RealMax(newMin, newMax)
  {
    if x <= oldMin then newMin
    else if x >= oldMax then newMax
    else
      BetweenEnds(oldMin, oldMax, newMin, newMax, x);
      MapRange(oldMin, oldMax, newMin, newMax, x)
  }

  /**
   * On a well-formed source range `mapClamp` is `_map` on the whole closed
   * range (the clamped ends meet `_map` at the ends), and it is constant
   * outside it.
   */
  lemma MapClampIsClampedMap(oldMin: real, oldMax: real, newMin: real, newMax: real, x: real)
    requires oldMin < oldMax
    ensures oldMin <= x <= oldMax ==> MapClamp(oldMin, oldMax, newMin, newMax, x) == MapRange(oldMin, oldMax, newMin, newMax, x)
    ensures MapClamp(oldMin, oldMax, newMin, newMax, x) == MapRange(oldMin, oldMax, newMin, newMax, Clamp(oldMin, oldMax, x))
  {
    var c := Clamp(oldMin, oldMax, x);
    assert oldMin <= c <= oldMax by { ClampInRange(oldMin, oldMax, x); }
    if x <= oldMin {
      assert c == oldMin;
    } else if x >= oldMax {
      assert c == oldMax;
    } else {
      assert c == x;
    }
  }

  function RealMin(a: real, b: real): real { if a <= b then a else b }
  function RealMax(a: real, b: real): real { if a <= b then b else a }

  /** Strictly inside the source range, `_map` stays between the targets. */
  lemma BetweenEnds(oldMin: real, oldMax: real, newMin: real, newMax: real, x: real)
    requires oldMin < x < oldMax
    ensures RealMin(newMin, newMax) <= MapRange(oldMin, oldMax, newMin, newMax, x) <= RealMax(newMin, newMax)
  {
    var u := (x - oldMin) / (oldMax - oldMin);
    UnitFraction(x - oldMin, oldMax - oldMin);
    var d := newMax - newMin;
    ScaleBounds(d, u);
    assert u * d == d * u;
  }

  lemma UnitFraction(a: real, b: real)
    requires 0.0 < a < b
    ensures 0.0 < a / b < 1.0
  {
    var f := a / b;
    assert b * f == a;
    assert b * (1.0 - f) == b - a;
    PositiveFactor(b, 1.0 - f);
    PositiveFactor(b, f);
  }

  lemma PositiveFactor(b: real, g: real)
    requires b > 0.0 && b * g > 0.0
    ensures g > 0.0
  {
  }

  // ---------------------------------------------------------------------
  // Remainders and interval tests
  // ---------------------------------------------------------------------

  /**
   * `mod`: `((a % n) + n) % n` with JavaScript's truncating remainder, so
   * that for a positive divisor the result is never negative.  A zero
   * divisor (NaN in JavaScript) is excluded.
   */
  function Mod(a: real, n: real): (r: real)
    requires n != 0.0
    ensures n > 0.0 ==> 0.0 <= r < n
    ensures n < 0.0 ==> n < r <= 0.0
  {
    RemReal(RemReal(a, n) + n, n)
  }

  /** `mod(a, n)` differs from `a` by a whole multiple of `n`. */
  lemma ModCongruent(a: real, n: real)
    requires n != 0.0
    ensures exists k: int :: Mod(a, n) == a + Times(k, n)
  {
    var t := RemReal(a, n);
    var k1 :| t == a + Times(k1, n);
    var k2 :| RemReal(t + n, n) == t + n + Times(k2, n);
    TimesAdd(k1, 1, n);
    TimesAdd(k1 + 1, k2, n);
    assert Mod(a, n) == a + Times(k1 + 1 + k2, n);
  }

  /** Whole multiples add up. */
  lemma TimesAdd(k1: int, k2: int, n: real)
    ensures Times(k1, n) + Times(k2, n) == Times(k1 + k2, n)
    ensures Times(1, n) == n
  {
  }

  /** On integers and a positive divisor, `mod` is the Euclidean remainder. */
  lemma ModOnIntegers(a: int, n: int)
    requires n > 0
    ensures Mod(a as real, n as real) == (a % n) as real
  {
    var r := Mod(a as real, n as real);
    ModCongruent(a as real, n as real);
    var k :| r == a as real + Times(k, n as real);
    var kn := k * n;
    var m := a + kn;
    assert r == m as real by {
      IntTimes(k, n);
    }
    assert a == (-k) * n + m by {
      assert (-k) * n == -kn;
    }
    ModUnique(a, n, -k, m);
  }

  lemma IntTimes(k: int, n: int)
    ensures Times(k, n as real) == (k * n) as real
  {
  }

  /** The documented example: `mod(-0.9, 1)` is `0.1`. */
  lemma ModExample()
    ensures Mod(-0.9, 1.0) == 0.1
  {
    assert Trunc(-0.9 / 1.0) == 0;
    assert RemReal(-0.9, 1.0) == -0.9;
    assert Trunc(0.1 / 1.0) == 0;
  }

  /** `isBetween`: lower bound inclusive, upper bound exclusive. */
  predicate IsBetween(lower: real, upper: real, x: real)
    ensures IsBetween(lower, upper, x) ==> lower < upper
    ensures x == lower && lower < upper ==> IsBetween(lower, upper, x)
    ensures lower <= x < upper ==> IsBetween(lower, upper, x)
  {
    x >= lower && x < upper
  }

  /** `isWithin`: `x` lies in `[target - radius, target + radius)`. */
  predicate IsWithin(radius: real, target: real, x: real)
    ensures IsWithin(radius, target, x) ==> radius > 0.0
    ensures radius > 0.0 && x == target ==> IsWithin(radius, target, x)
  {
    x >= target - radius && x < target + radius
  }

  /** The interval of `isBetween` is half-open: the upper bound itself is outside. */
  lemma BetweenHalfOpen(lower: real, upper: real, x: real)
    ensures IsBetween(lower, upper, x) <==> lower <= x < upper
    ensures !IsBetween(lower, upper, upper)
  {
  }

  /** `isWithin` is `isBetween` on the interval around the target. */
  lemma WithinIsBetween(radius: real, target: real, x: real)
    ensures IsWithin(radius, target, x) <==> IsBetween(target - radius, target + radius, x)
    ensures IsWithin(radius, target, x) ==> -radius <= x - target < radius
    ensures -radius <= x - target < radius ==> IsWithin(radius, target, x)
    ensures !IsWithin(radius, target, target + radius)
  {
  }

  /** The documented examples of `isBetween` and `isWithin`. */
  lemma BetweenWithinExamples()
    ensures IsBetween(0.0, 10.0, 3.0) && !IsBetween(0.0, 1.0, 3.0)
    ensures IsWithin(0.01, 100.0, 100.001) && !IsWithin(0.00001, 100.0, 100.001)
  {
  }

  /** `isEven`: the truncating remainder by 2 is 0. */
  predicate IsEven(x: int)
    ensures IsEven(x) <==> x % 2 == 0
  {
    Rem(x, 2) == 0
  }

  /** `isOdd`: the truncating remainder by 2 is 1. */
  predicate IsOdd(x: int)
    ensures IsOdd(x) <==> x > 0 && x % 2 == 1
  {
    Rem(x, 2) == 1
  }

  /**
   * How the two tests relate: they never both hold, on non-negative numbers
   * exactly one holds, but a negative odd number passes neither (its
   * truncating remainder is -1) while its negation is odd.
   */
  lemma Parity(x: int)
    ensures IsOdd(x) ==> !IsEven(x)
    ensures x >= 0 ==> (IsEven(x) <==> !IsOdd(x))
    ensures x < 0 && !IsEven(x) ==> !IsOdd(x) && IsOdd(-x)
  {
  }

  // ---------------------------------------------------------------------
  // Primes
  // ---------------------------------------------------------------------

  /** `Math.floor(Math.sqrt(n))` on a non-negative integer. */
  function FloorSqrt(n: nat): (r: nat)
    ensures r * r <= n < (r + 1) * (r + 1)
  {
    if n == 0 then 0
    else
      var s := FloorSqrt(n - 1);
      if (s + 1) * (s + 1) <= n then s + 1 else s
  }

  /** A prime has no divisor strictly between 1 and itself. */
  ghost predicate Prime(n: int) {
    n >= 2 && forall d :: 2 <= d < n ==> n % d != 0
  }

  lemma MulMono(a: nat, b: nat, c: nat, d: nat)
    requires a <= c && b <= d
    ensures a * b <= c * d
  {
    assert a * b <= c * b;
    assert c * b <= c * d;
  }

  lemma FloorSqrtMono(a: nat, b: nat)
    requires a <= b
    ensures FloorSqrt(a) <= FloorSqrt(b)
  {
    var sa, sb := FloorSqrt(a), FloorSqrt(b);
    if sa > sb {
      MulMono(sb + 1, sb + 1, sa, sa);
    }
  }

  /** A number with no divisor in `2..floor(sqrt n)` is prime. */
  lemma NoSmallDivisorPrime(n: int)
    requires n >= 2
    requires forall d :: 2 <= d <= FloorSqrt(n) ==> n % d != 0
    ensures Prime(n)
  {
    var s := FloorSqrt(n);
    forall d | 2 <= d < n
      ensures n % d != 0
    {
      if n % d == 0 {
        var q := n / d;
        assert n == q * d;
        assert q >= 2 by {
          if q <= 1 { MulMono(q, d, 1, d); }
        }
        if d > s {
          if q > s {
            MulMono(s + 1, s + 1, q, d);
            assert false;
          }
          ModUnique(n, q, d, 0);
          assert false;
        }
        assert false;
      }
    }
  }

  /** A divisor at most `floor(sqrt n)` (and at least 2) is a proper divisor. */
  lemma SmallDivisorProper(n: nat, i: int)
    requires 2 <= i <= FloorSqrt(n)
    ensures i < n
  {
    MulMono(2, i, i, i);
  }

  /**
   * `isPrime`: try every candidate from 2 to `floor(sqrt n)`, stopping at the
   * first divisor, then answer `n >= 2`.  For a negative `n` the square root
   * is NaN, the loop does not run and the answer is false.
   */
  method IsPrime(n: int) returns (b: bool)
    ensures b <==> Prime(n)
  {
    var boundary := if n >= 0 then FloorSqrt(n) else 0;
    var i := 2;
    while i <= boundary
      invariant 2 <= i
      invariant forall d :: 2 <= d < i ==> n % d != 0
    {
      if n % i == 0 {
        SmallDivisorProper(n, i);
        return false;
      }
      i := i + 1;
    }
    if n >= 2 {
      NoSmallDivisorPrime(n);
    }
    return n >= 2;
  }

  /** The documented example: 11 is prime. */
  method IsPrimeExample() returns (b: bool)
    ensures b
  {
    b := IsPrime(11);
    assert Prime(11) by {
      assert FloorSqrt(11) == 3 by {
        assert 3 * 3 <= 11 < 4 * 4;
        FloorSqrtExact(11, 3);
      }
      assert 11 % 2 != 0 && 11 % 3 != 0;
      NoSmallDivisorPrime(11);
    }
  }

  /** The floor square root is the only `r` with `r*r <= n < (r+1)*(r+1)`. */
  lemma FloorSqrtExact(n: nat, r: nat)
    requires r * r <= n < (r + 1) * (r + 1)
    ensures FloorSqrt(n) == r
  {
    var s := FloorSqrt(n);
    if s < r {
      MulMono(s + 1, s + 1, r, r);
    } else if s > r {
      MulMono(r + 1, r + 1, s, s);
    }
  }

  /** `y` survives sieving with every candidate below `x`. */
  ghost predicate Survives(y: int, x: int) {
    forall d :: 2 <= d < x ==> y % d != 0 || y == d
  }

  /**
   * `primes`: start from `2..num` and, for each candidate `x` from 2 to
   * `floor(sqrt num)`, keep only the numbers not divisible by `x` (and `x`
   * itself).  `Array.from` turns a negative or NaN length into 0.
   */
  method Primes(num: int) returns (arr: seq<int>)
    ensures StrictlyIncreasing(arr)
    ensures forall y :: y in arr <==> 2 <= y <= num && Prime(y)
  {
    arr := seq(Max(0, num - 1), i => i + 2);
    var sqroot := if num >= 0 then FloorSqrt(num) else 0;
    var x := 2;
    forall y
      ensures y in arr <==> 2 <= y <= num && Survives(y, x)
    {
      if 2 <= y <= num {
        assert arr[y - 2] == y;
      }
    }
    while x <= sqroot
      invariant 2 <= x
      invariant x <= sqroot + 1 || x == 2
      invariant StrictlyIncreasing(arr)
      invariant forall y :: y in arr <==> 2 <= y <= num && Survives(y, x)
    {
      var sieve := (y: int) => y % x != 0 || y == x;
      FilterKeepsIncreasing(sieve, arr);
      var next := Filter(sieve, arr);
      forall y
        ensures y in next <==> 2 <= y <= num && Survives(y, x + 1)
      {
        if y in next {
          var i :| 0 <= i < |next| && next[i] == y;
          assert y in arr && sieve(y);
        }
        if y in arr && sieve(y) {
          var i :| 0 <= i < |arr| && arr[i] == y;
          assert y in next;
        }
      }
      arr := next;
      x := x + 1;
    }
    forall y | 2 <= y <= num
      ensures Survives(y, x) <==> Prime(y)
    {
      SurvivorIsPrime(y, num, x);
    }
  }

  /** Surviving every candidate up to `floor(sqrt num)` means being prime. */
  lemma SurvivorIsPrime(y: int, num: int, x: int)
    requires 2 <= y <= num
    requires x == FloorSqrt(num) + 1 || (x == 2 && FloorSqrt(num) < 2)
    ensures Survives(y, x) <==> Prime(y)
  {
    FloorSqrtMono(y, num);
    if Survives(y, x) {
      forall d | 2 <= d <= FloorSqrt(y)
        ensures y % d != 0
      {
        SmallDivisorProper(y, d);
        assert d < x;
      }
      NoSmallDivisorPrime(y);
    }
    if Prime(y) {
      forall d | 2 <= d < x
        ensures y % d != 0 || y == d
      {
        if d > y {
          ModUnique(y, d, 0, y);
        }
      }
    }
  }

  // ---------------------------------------------------------------------
  // Sequences of numbers
  // ---------------------------------------------------------------------

  /** The Fibonacci numbers, starting 0, 1. */
  function FibNumber(i: nat): nat {
    if i < 2 then i else FibNumber(i - 1) + FibNumber(i - 2)
  }

  /**
   * `fibonacci(n)`: a reduce over `n` slots appending the index for the
   * first two and the sum of the previous two afterwards.
   */
  function Fibonacci(n: int): (r: seq<int>)
    ensures |r| == Max(0, n)
    ensures forall i :: 0 <= i < |r| ==> r[i] == FibNumber(i)
  {
    if n <= 0 then []
    else
      var acc := Fibonacci(n - 1);
      acc + [if n - 1 > 1 then acc[n - 2] + acc[n - 3] else n - 1]
  }

  /** The shape the documentation promises: 0, 1, then sums of neighbours. */
  lemma FibonacciShape(n: int)
    requires n >= 2
    ensures Fibonacci(n)[0] == 0 && Fibonacci(n)[1] == 1
    ensures forall i :: 2 <= i < n ==> Fibonacci(n)[i] == Fibonacci(n)[i - 1] + Fibonacci(n)[i - 2]
  {
  }

  /**
   * `arithmeticProgression(n, lim)`: `ceil(lim / n)` multiples of `n`.  A
   * zero step gives NaN (no elements) when `lim` is 0, an empty array when
   * `lim` is negative, and an invalid array length when `lim` is positive.
   */
  function ArithmeticProgression(n: real, lim: real): (r: Result<seq<real>>)
    ensures r.Failure? <==> n == 0.0 && lim > 0.0
    ensures n != 0.0 ==> r.Success? && |r.value| == Max(0, Ceil(lim / n))
    ensures r.Success? ==> forall i :: 0 <= i < |r.value| ==> r.value[i] == (i + 1) as real * n
  {
    if n == 0.0 then
      if lim > 0.0 then Failure("RangeError: Invalid array length") else Success([])
    else
      Success(seq(Max(0, Ceil(lim / n)), i => (i + 1) as real * n))
  }

  /**
   * For a positive step and limit, the progression is the multiples of `n`
   * below `lim` followed by the first one at or above it.
   */
  lemma ProgressionReachesLimit(n: real, lim: real)
    requires n > 0.0 && lim > 0.0
    ensures var r := ArithmeticProgression(n, lim).value;
      |r| >= 1 && r[|r| - 1] >= lim && forall i :: 0 <= i < |r| - 1 ==> r[i] < lim
  {
    var k := Ceil(lim / n);
    assert lim / n > 0.0;
    var r := ArithmeticProgression(n, lim).value;
    assert |r| == k;
    MulBelow(k as real, lim / n, n);
    forall i | 0 <= i < k - 1
      ensures r[i] < lim
    {
      MulStrict((i + 1) as real, lim / n, n);
    }
  }

  lemma MulBelow(a: real, b: real, n: real)
    requires n > 0.0 && b <= a
    ensures b * n <= a * n
  {
  }

  lemma MulStrict(a: real, b: real, n: real)
    requires n > 0.0 && a < b
    ensures a * n < b * n
  {
  }
}
