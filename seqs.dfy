/**
 * Sequence operations that the utilities borrow from Ramda and from
 * `Array.prototype`: `repeat`, `sum`, `slice` with JavaScript's index
 * clamping, `take`, and `filter`.
 */
module Seqs {
  import opened JsNum

  /** Ramda `repeat(x, n)` for a non-negative count. */
  function Repeat<T>(x: T, n: nat): (r: seq<T>)
    ensures |r| == n
    ensures forall i :: 0 <= i < n ==> r[i] == x
  {
    seq(n, _ => x)
  }

  /** Ramda `sum`: the sum of a list of numbers, 0 for the empty list. */
  function Sum(s: seq<real>): real {
    if s == [] then 0.0 else Sum(s[..|s| - 1]) + s[|s| - 1]
  }

  lemma {:induction false} SumConcat(a: seq<real>, b: seq<real>)
    ensures Sum(a + b) == Sum(a) + Sum(b)
  {
    if b != [] {
      assert (a + b)[..|a + b| - 1] == a + b[..|b| - 1];
      SumConcat(a, b[..|b| - 1]);
    } else {
      assert a + b == a;
    }
  }

  lemma {:induction false} SumRepeat(x: real, n: nat)
    ensures Sum(Repeat(x, n)) == x * n as real
  {
    if n > 0 {
      assert Repeat(x, n)[..n - 1] == Repeat(x, n - 1);
      SumRepeat(x, n - 1);
    }
  }

  /**
   * How `Array.prototype.slice` reads an index: a negative one counts from the
   * end, and both are clamped to the bounds.
   */
  function ClampIndex(i: int, len: nat): (r: nat)
    ensures r <= len
    ensures 0 <= i <= len ==> r == i
    ensures i > len ==> r == len
    ensures i < 0 ==> r == Max(0, len + i)
  {
    if i < 0 then (if len + i < 0 then 0 else len + i) else if i > len then len else i
  }

  /** `s.slice(start, end)`. */
  function Slice<T>(s: seq<T>, start: int, end: int): (r: seq<T>)
    ensures 0 <= start <= end <= |s| ==> r == s[start..end]
    ensures |r| <= |s|
  {
    var a, b := ClampIndex(start, |s|), ClampIndex(end, |s|);
    if a < b then s[a..b] else []
  }

  /** `s.slice(start)`, the same as slicing to `Infinity`. */
  function SliceFrom<T>(s: seq<T>, start: int): (r: seq<T>)
    ensures 0 <= start <= |s| ==> r == s[start..]
    ensures start >= |s| ==> r == []
  {
    s[ClampIndex(start, |s|)..]
  }

  /** Ramda `take(n, s)`: a negative count takes everything. */
  function Take<T>(n: int, s: seq<T>): (r: seq<T>)
    ensures 0 <= n <= |s| ==> r == s[..n]
    ensures n < 0 || n >= |s| ==> r == s
  {
    if n < 0 || n >= |s| then s else s[..n]
  }

  /** `Array.prototype.filter`: keeps, in order, the elements satisfying `f`. */
  function Filter<T>(f: T -> bool, s: seq<T>): (r: seq<T>)
    ensures |r| <= |s|
    ensures forall i :: 0 <= i < |r| ==> r[i] in s && f(r[i])
    ensures forall i :: 0 <= i < |s| && f(s[i]) ==> s[i] in r
  {
    if s == [] then []
    else
      var rest := Filter(f, s[..|s| - 1]);
      assert s == s[..|s| - 1] + [s[|s| - 1]];
      if f(s[|s| - 1]) then rest + [s[|s| - 1]] else rest
  }

  predicate StrictlyIncreasing(s: seq<int>) {
    forall i, j :: 0 <= i < j < |s| ==> s[i] < s[j]
  }

  lemma {:induction false} FilterKeepsIncreasing(f: int -> bool, s: seq<int>)
    requires StrictlyIncreasing(s)
    ensures StrictlyIncreasing(Filter(f, s))
  {
    if s != [] {
      var init := s[..|s| - 1];
      FilterKeepsIncreasing(f, init);
      var r := Filter(f, init);
      assert forall i :: 0 <= i < |r| ==> r[i] in init && r[i] < s[|s| - 1];
    }
  }
}
