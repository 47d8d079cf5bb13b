/**
 * The parts of JavaScript number semantics the utilities rely on, on
 * mathematical integers and reals: the truncating remainder operator `%`,
 * `Math.floor`/`Math.ceil`, and the decimal text of an integer as produced by
 * a template literal.
 */
module JsNum {

  function Abs(x: int): nat {
    if x < 0 then -x else x
  }

  function Max(a: int, b: int): int {
    if a < b then b else a
  }

  function Min(a: int, b: int): int {
    if a < b then a else b
  }

  /**
   * JavaScript's `a % n` on integers: the remainder of truncating division,
   * which takes the sign of the dividend (Dafny's `%` is Euclidean).
   */
  function Rem(a: int, n: int): (r: int)
    requires n != 0
    ensures Abs(r) < Abs(n)
    ensures r == a % Abs(n) || r == a % Abs(n) - Abs(n)
    ensures a >= 0 ==> r >= 0
    ensures a <= 0 ==> r <= 0
  {
    if a >= 0 then a % Abs(n) else NegRem(a, Abs(n)); -((-a) % Abs(n))
  }

  lemma NegRem(a: int, m: int)
    requires a < 0 && m > 0
    ensures -((-a) % m) == a % m || -((-a) % m) == a % m - m
  {
    var q, s := (-a) / m, (-a) % m;
    assert -a == q * m + s;
    if s != 0 {
      ModUnique(a, m, -q - 1, m - s);
    } else {
      ModUnique(a, m, -q, 0);
    }
  }

  /** Euclidean division is determined by the quotient-remainder equation. */
  lemma ModUnique(a: int, m: int, q: int, r: int)
    requires m > 0 && 0 <= r < m && a == q * m + r
    ensures a % m == r
  {
    var q0, r0 := a / m, a % m;
    assert a == q0 * m + r0;
    Distrib(q, q0, m);
    Distrib(q0, q, m);
    if q > q0 {
      MulAtLeast(q - q0, m);
    } else if q < q0 {
      MulAtLeast(q0 - q, m);
    }
  }

  lemma MulAtLeast(k: int, m: int)
    requires k >= 1 && m > 0
    ensures k * m >= m
  {
    if k > 1 {
      MulAtLeast(k - 1, m);
      assert k * m == (k - 1) * m + m;
    }
  }

  lemma Distrib(x: int, y: int, m: int)
    ensures (x - y) * m == x * m - y * m
  {
  }

  /** `Math.trunc` on reals: rounds toward zero. */
  function Trunc(x: real): (r: int)
    ensures x >= 0.0 ==> 0.0 <= x - r as real < 1.0
    ensures x < 0.0 ==> -1.0 < x - r as real <= 0.0
  {
    if x >= 0.0 then x.Floor else -((-x).Floor)
  }

  /** `k * n` for a whole number `k`. */
  function Times(k: int, n: real): real {
    k as real * n
  }

  /** JavaScript's `a % n` on reals: `a - n * trunc(a / n)`. */
  function RemReal(a: real, n: real): (r: real)
    requires n != 0.0
    ensures n > 0.0 ==> -n < r < n
    ensures n < 0.0 ==> n < r < -n
    ensures a >= 0.0 ==> r >= 0.0
    ensures a <= 0.0 ==> r <= 0.0
    ensures exists k: int :: r == a + Times(k, n)
  {
    var q := Trunc(a / n);
    TruncBounds(a, n, q);
    var r := a - n * q as real;
    assert r == a + Times(-q, n);
    r
  }

  lemma TruncBounds(a: real, n: real, q: int)
    requires n != 0.0 && q == Trunc(a / n)
    ensures n > 0.0 ==> -n < a - n * q as real < n
    ensures n < 0.0 ==> n < a - n * q as real < -n
    ensures a >= 0.0 ==> a - n * q as real >= 0.0
    ensures a <= 0.0 ==> a - n * q as real <= 0.0
  {
    var x := a / n;
    var f := x - q as real;
    assert -1.0 < f < 1.0 && (x >= 0.0 ==> f >= 0.0) && (x <= 0.0 ==> f <= 0.0);
    assert a - n * q as real == n * f by {
      QuotientSign(a, n);
      RealDistrib(n, x, q as real);
    }
    assert x >= 0.0 <==> (a >= 0.0 && n > 0.0) || (a <= 0.0 && n < 0.0) by {
      QuotientSign(a, n);
    }
    assert x <= 0.0 <==> (a <= 0.0 && n > 0.0) || (a >= 0.0 && n < 0.0) by {
      QuotientSign(a, n);
    }
    ScaledBounds(n, f, a - n * q as real);
  }

  lemma ScaledBounds(n: real, f: real, e: real)
    requires -1.0 < f < 1.0 && e == n * f
    ensures n > 0.0 ==> -n < e < n
    ensures n < 0.0 ==> n < e < -n
    ensures (n > 0.0 && f >= 0.0) || (n < 0.0 && f <= 0.0) ==> e >= 0.0
    ensures (n > 0.0 && f <= 0.0) || (n < 0.0 && f >= 0.0) ==> e <= 0.0
  {
    ScaleBounds(n, f);
  }

  lemma QuotientSign(a: real, n: real)
    requires n != 0.0
    ensures n * (a / n) == a
    ensures a / n >= 0.0 <==> (a >= 0.0 && n > 0.0) || (a <= 0.0 && n < 0.0)
    ensures a / n <= 0.0 <==> (a <= 0.0 && n > 0.0) || (a >= 0.0 && n < 0.0)
  {
  }

  lemma RealDistrib(n: real, x: real, y: real)
    ensures n * (x - y) == n * x - n * y
  {
  }

  lemma ScaleBounds(n: real, f: real)
    requires -1.0 < f < 1.0
    ensures n > 0.0 ==> -n < n * f < n
    ensures n < 0.0 ==> n < n * f < -n
    ensures (n > 0.0 && f >= 0.0) || (n < 0.0 && f <= 0.0) ==> n * f >= 0.0
    ensures (n > 0.0 && f <= 0.0) || (n < 0.0 && f >= 0.0) ==> n * f <= 0.0
  {
    if n > 0.0 {
      assert n * (1.0 - f) > 0.0;
      assert n * (1.0 + f) > 0.0;
    } else if n < 0.0 {
      assert (-n) * (1.0 - f) > 0.0;
      assert (-n) * (1.0 + f) > 0.0;
    }
  }

  /** `Math.ceil` on reals. */
  function Ceil(x: real): (r: int)
    ensures r as real - 1.0 < x <= r as real
  {
    -((-x).Floor)
  }

  /** The character of one decimal digit. */
  function DigitChar(d: nat): (c: char)
    requires d < 10
    ensures '0' <= c <= '9'
    ensures c as int - '0' as int == d
  {
    (d + '0' as int) as char
  }

  predicate IsDigits(s: string) {
    forall i :: 0 <= i < |s| ==> '0' <= s[i] <= '9'
  }

  /** The decimal text of a natural number, without leading zeros. */
  function NatText(n: nat): (s: string)
    ensures |s| >= 1 && IsDigits(s)
    ensures (s[0] == '0') <==> n == 0
  {
    if n < 10 then [DigitChar(n)] else NatText(n / 10) + [DigitChar(n % 10)]
  }

  /** The text `${n}` of an integer: a minus sign for negatives. */
  function IntText(n: int): (s: string)
    ensures |s| >= 1
    ensures n < 0 <==> s[0] == '-'
  {
    if n < 0 then "-" + NatText(-n) else NatText(n)
  }

  /** Reads a string of decimal digits back as a number. */
  function ParseDigits(s: string): nat
    requires IsDigits(s)
  {
    if s == [] then 0 else ParseDigits(s[..|s| - 1]) * 10 + (s[|s| - 1] as int - '0' as int)
  }

  lemma {:induction false} ParseNatText(n: nat)
    ensures ParseDigits(NatText(n)) == n
  {
    if n >= 10 {
      ParseNatText(n / 10);
      var s := NatText(n);
      assert s[..|s| - 1] == NatText(n / 10);
    }
  }

  /** Different integers have different texts, so texts built from them can be told apart. */
  lemma IntTextInjective(a: int, b: int)
    requires IntText(a) == IntText(b)
    ensures a == b
  {
    var s := IntText(a);
    assert (a < 0) == (b < 0);
    if a < 0 {
      var na: nat, nb: nat := -a, -b;
      assert s[1..] == NatText(na) by { assert s == "-" + NatText(na); }
      assert s[1..] == NatText(nb) by { assert s == "-" + NatText(nb); }
      ParseNatText(na);
      ParseNatText(nb);
    } else {
      ParseNatText(a);
      ParseNatText(b);
    }
  }

}
