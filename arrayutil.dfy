/**
 * The list helpers of `src/utils/array.js` that the track code and the
 * other utilities use: padding, index filtering, bounded and circular
 * reads, overwriting a block, element-wise updates on a copy, mirroring,
 * chunking and the index of the maximum.
 */
module ArrayUtil {
  import opened Wrappers
  import opened JsNum
  import opened Seqs

  // ---------------------------------------------------------------------
  // Padding
  // ---------------------------------------------------------------------

  /** `padRight`: extend `arr` to `newSize` with copies of `x` at the end. */
  function PadRight<T>(newSize: int, x: T, arr: seq<T>): (r: seq<T>)
    ensures |r| == Max(newSize, |arr|)
    ensures r[..|arr|] == arr
    ensures forall i :: |arr| <= i < |r| ==> r[i] == x
  {
    if newSize <= |arr| then arr
    else arr + Repeat(x, newSize - |arr|)
  }

  /** `padLeft`: extend `arr` to `newSize` with copies of `x` in front. */
  function PadLeft<T>(newSize: int, x: T, arr: seq<T>): (r: seq<T>)
    ensures |r| == Max(newSize, |arr|)
    ensures r[|r| - |arr|..] == arr
    ensures forall i :: 0 <= i < |r| - |arr| ==> r[i] == x
  {
    if newSize <= |arr| then arr
    else Repeat(x, newSize - |arr|) + arr
  }

  /** Padding on either side is undone by dropping the padding again. */
  lemma PadRoundTrip<T>(newSize: int, x: T, arr: seq<T>)
    ensures Take(|arr|, PadRight(newSize, x, arr)) == arr
    ensures SliceFrom(PadLeft(newSize, x, arr), Max(0, newSize - |arr|)) == arr
    ensures newSize <= |arr| ==> PadRight(newSize, x, arr) == arr == PadLeft(newSize, x, arr)
  {
  }

  // ---------------------------------------------------------------------
  // Index filtering
  // ---------------------------------------------------------------------

  /** Ramda `addIndex(filter)`: keep the elements whose index satisfies `p`. */
  function FilterIndexed<T>(p: int -> bool, arr: seq<T>): (r: seq<T>)
    ensures |r| <= |arr|
    ensures (forall i :: 0 <= i < |arr| ==> !p(i)) ==> r == []
    ensures (forall i :: 0 <= i < |arr| ==> p(i)) ==> r == arr
    ensures arr != [] && p(0) ==> r != [] && r[0] == arr[0]
  {
    if arr == [] then []
    else
      var k := |arr| - 1;
      FilterIndexed(p, arr[..k]) + (if p(k) then [arr[k]] else [])
  }

  /** The test of `keepNthIndexes`: `i % n === 0` with JavaScript's `%` (NaN for 0). */
  predicate KeptIndex(n: int, i: int) {
    n != 0 && Rem(i, n) == 0
  }

  /**
   * `keepNthIndexes(n)`: the elements at indices divisible by `n`.  The
   * first element is always kept, `n = 0` keeps nothing and `n = 1` or
   * `n = -1` keeps everything.
   */
  function KeepNthIndexes<T>(n: int, arr: seq<T>): (r: seq<T>)
    ensures |r| <= |arr|
    ensures n == 0 ==> r == []
    ensures Abs(n) == 1 ==> r == arr
    ensures n != 0 && arr != [] ==> r != [] && r[0] == arr[0]
  {
    var p := i => KeptIndex(n, i);
    assert Abs(n) == 1 ==> forall i :: 0 <= i < |arr| ==> p(i);
    FilterIndexed(p, arr)
  }

  /**
   * `removeNthIndexes(n)`: the elements at the other indices, so `n = 0`
   * removes nothing and `n = 1` or `n = -1` removes everything.
   */
  function RemoveNthIndexes<T>(n: int, arr: seq<T>): (r: seq<T>)
    ensures |r| <= |arr|
    ensures n == 0 ==> r == arr
    ensures Abs(n) == 1 ==> r == []
  {
    var p := i => !KeptIndex(n, i);
    assert Abs(n) == 1 ==> forall i :: 0 <= i < |arr| ==> !p(i);
    FilterIndexed(p, arr)
  }

  /** An index filter and its complement split a list into two parts. */
  lemma {:induction false} FilterIndexedSplit<T>(p: int -> bool, q: int -> bool, arr: seq<T>)
    requires forall i :: q(i) <==> !p(i)
    ensures multiset(FilterIndexed(p, arr)) + multiset(FilterIndexed(q, arr)) == multiset(arr)
  {
    if arr != [] {
      var k := |arr| - 1;
      var pre := arr[..k];
      FilterIndexedSplit(p, q, pre);
      var a, b := FilterIndexed(p, pre), FilterIndexed(q, pre);
      var last := multiset{arr[k]};
      assert multiset(arr) == multiset(pre) + last by {
        assert arr == pre + [arr[k]];
      }
      assert multiset(FilterIndexed(p, arr)) == multiset(a) + (if p(k) then last else multiset{});
      assert multiset(FilterIndexed(q, arr)) == multiset(b) + (if p(k) then multiset{} else last);
    }
  }

  /** Keeping and removing every `n`-th element partition the list. */
  lemma KeepRemovePartition<T>(n: int, arr: seq<T>)
    ensures multiset(KeepNthIndexes(n, arr)) + multiset(RemoveNthIndexes(n, arr)) == multiset(arr)
    ensures n == 0 ==> KeepNthIndexes(n, arr) == [] && RemoveNthIndexes(n, arr) == arr
  {
    var p, q := i => KeptIndex(n, i), i => !KeptIndex(n, i);
    FilterIndexedSplit(p, q, arr);
    if n == 0 {
      NoneKept(arr, p);
      AllKept(arr, q);
    }
  }

  lemma {:induction false} NoneKept<T>(arr: seq<T>, p: int -> bool)
    requires forall i :: !p(i)
    ensures FilterIndexed(p, arr) == []
  {
    if arr != [] {
      NoneKept(arr[..|arr| - 1], p);
    }
  }

  lemma {:induction false} AllKept<T>(arr: seq<T>, p: int -> bool)
    requires forall i :: p(i)
    ensures FilterIndexed(p, arr) == arr
  {
    if arr != [] {
      AllKept(arr[..|arr| - 1], p);
      assert arr == arr[..|arr| - 1] + [arr[|arr| - 1]];
    }
  }

  /** For a non-negative index, JavaScript's test agrees with the Euclidean one. */
  lemma KeptIndexEuclid(n: int, i: nat)
    requires n != 0
    ensures KeptIndex(n, i) <==> i % Abs(n) == 0
  {
  }

  /**
   * Closed form of `keepNthIndexes`: the `j`-th kept element is the one at
   * index `j * |n|`, and there are `ceil(len / |n|)` of them.
   */
  lemma KeepNthClosedForm<T>(n: int, arr: seq<T>)
    requires n != 0
    ensures |KeepNthIndexes(n, arr)| == (|arr| + Abs(n) - 1) / Abs(n)
    ensures forall j :: 0 <= j < |KeepNthIndexes(n, arr)| ==>
      j * Abs(n) < |arr| && KeepNthIndexes(n, arr)[j] == arr[j * Abs(n)]
  {
    KeepNthLength(n, arr);
    KeepNthElements(n, arr);
  }

  lemma {:induction false} KeepNthLength<T>(n: int, arr: seq<T>)
    requires n != 0
    ensures |KeepNthIndexes(n, arr)| == (|arr| + Abs(n) - 1) / Abs(n)
  {
    var m := Abs(n);
    if arr == [] {
      DivUnique(m - 1, m, 0, m - 1);
    } else {
      var k := |arr| - 1;
      KeepNthLength(n, arr[..k]);
      KeptIndexEuclid(n, k);
      CeilDivStep(k, m);
    }
  }

  lemma {:induction false} KeepNthElements<T>(n: int, arr: seq<T>)
    requires n != 0
    ensures forall j :: 0 <= j < |KeepNthIndexes(n, arr)| ==>
      j * Abs(n) < |arr| && KeepNthIndexes(n, arr)[j] == arr[j * Abs(n)]
  {
    var m := Abs(n);
    if arr != [] {
      var k := |arr| - 1;
      var pre := arr[..k];
      KeepNthElements(n, pre);
      KeepNthLength(n, pre);
      var kp := KeepNthIndexes(n, pre);
      forall j | 0 <= j < |kp|
        ensures j * m < k
      {
        DivLower(k + m - 1, m, j + 1);
      }
      KeptIndexEuclid(n, k);
      if KeptIndex(n, k) {
        CeilDivExact(k, m);
      }
    }
  }

  /** `ceil((k + 1) / m)` grows by one exactly when `m` divides `k`. */
  lemma CeilDivStep(k: nat, m: int)
    requires m > 0
    ensures (k + m) / m == (k + m - 1) / m + (if k % m == 0 then 1 else 0)
  {
    var q, rm := k / m, k % m;
    assert k == q * m + rm;
    if rm == 0 {
      DivUnique(k + m - 1, m, q, m - 1);
      DivUnique(k + m, m, q + 1, 0);
    } else {
      DivUnique(k + m - 1, m, q + 1, rm - 1);
      DivUnique(k + m, m, q + 1, rm);
    }
  }

  /** When `m` divides `k`, `ceil(k / m)` is the exact quotient. */
  lemma CeilDivExact(k: nat, m: int)
    requires m > 0 && k % m == 0
    ensures (k + m - 1) / m * m == k
  {
    var q := k / m;
    assert k == q * m;
    DivUnique(k + m - 1, m, q, m - 1);
  }

  /** Integer division is determined by quotient and remainder. */
  lemma DivUnique(a: int, m: int, q: int, r: int)
    requires m > 0 && 0 <= r < m && a == q * m + r
    ensures a / m == q
  {
    ModUnique(a, m, q, r);
    assert a == (a / m) * m + a % m;
    assert (a / m - q) * m == 0 by { Distrib(a / m, q, m); }
  }

  /** Below the quotient, multiples of `m` stay at most `a`. */
  lemma DivLower(a: int, m: int, t: int)
    requires m > 0 && 0 <= t <= a / m
    ensures t * m <= a
  {
    assert a == (a / m) * m + a % m;
    assert (a / m - t) * m >= 0 by { Distrib(a / m, t, m); }
    Distrib(a / m, t, m);
  }

  /**
   * Closed form of `removeNthIndexes`: the other `len - ceil(len / |n|)`
   * elements, in order.  For `|n| >= 2` the `j`-th of them is the one at
   * `RemovedIndex(|n|, j)`.
   */
  lemma RemoveNthClosedForm<T>(n: int, arr: seq<T>)
    requires n != 0
    ensures |RemoveNthIndexes(n, arr)| == |arr| - (|arr| + Abs(n) - 1) / Abs(n)
    ensures Abs(n) >= 2 ==> forall j :: 0 <= j < |RemoveNthIndexes(n, arr)| ==>
      RemovedIndex(Abs(n), j) < |arr| && RemoveNthIndexes(n, arr)[j] == arr[RemovedIndex(Abs(n), j)]
  {
    RemoveNthLength(n, arr);
    if Abs(n) >= 2 {
      RemoveNthElements(n, arr);
    }
  }

  /** The `j`-th index not divisible by `m`: one kept index is skipped per `m - 1` removed ones. */
  function RemovedIndex(m: int, j: nat): nat
    requires m >= 2
  {
    j + j / (m - 1) + 1
  }

  lemma RemoveNthLength<T>(n: int, arr: seq<T>)
    requires n != 0
    ensures |RemoveNthIndexes(n, arr)| == |arr| - (|arr| + Abs(n) - 1) / Abs(n)
  {
    var kept, removed := KeepNthIndexes(n, arr), RemoveNthIndexes(n, arr);
    KeepRemovePartition(n, arr);
    assert |multiset(kept)| + |multiset(removed)| == |multiset(arr)|;
    KeepNthLength(n, arr);
  }

  lemma {:induction false} RemoveNthElements<T>(n: int, arr: seq<T>)
    requires Abs(n) >= 2
    ensures forall j :: 0 <= j < |RemoveNthIndexes(n, arr)| ==>
      RemovedIndex(Abs(n), j) < |arr| && RemoveNthIndexes(n, arr)[j] == arr[RemovedIndex(Abs(n), j)]
  {
    var m := Abs(n);
    if arr != [] {
      var k := |arr| - 1;
      var pre := arr[..k];
      RemoveNthElements(n, pre);
      RemoveNthSnoc(n, arr);
      var rp, r := RemoveNthIndexes(n, pre), RemoveNthIndexes(n, arr);
      forall j | 0 <= j < |r|
        ensures RemovedIndex(m, j) < |arr| && r[j] == arr[RemovedIndex(m, j)]
      {
        if j < |rp| {
          assert r[j] == rp[j];
        } else {
          RemoveNthLength(n, pre);
          KeptIndexEuclid(n, k);
          RemovedIndexLast(m, k, j);
        }
      }
    }
  }

  /** Appending an element extends the removed part exactly when its index is not kept. */
  lemma RemoveNthSnoc<T>(n: int, arr: seq<T>)
    requires arr != []
    ensures var k := |arr| - 1;
      RemoveNthIndexes(n, arr) == RemoveNthIndexes(n, arr[..k]) + (if KeptIndex(n, k) then [] else [arr[k]])
  {
  }

  /** An index `k` not divisible by `m` is the removed one after the `k - ceil(k / m)` before it. */
  lemma RemovedIndexLast(m: int, k: nat, j: nat)
    requires m >= 2 && k % m != 0 && j == k - (k + m - 1) / m
    ensures RemovedIndex(m, j) == k
  {
    var q, s := k / m, k % m;
    assert k == q * m + s && 1 <= s < m;
    DivUnique(k + m - 1, m, q + 1, s - 1);
    assert j == q * (m - 1) + s - 1 by { Distrib(m, 1, q); }
    DivUnique(j, m - 1, q, s - 1);
  }

  /** `unInterleave`: the even-indexed elements, then the odd-indexed ones. */
  function UnInterleave<T>(arr: seq<T>): (r: seq<T>)
    ensures multiset(r) == multiset(arr)
    ensures |r| == |arr|
  {
    KeepRemovePartition(2, arr);
    var r := KeepNthIndexes(2, arr) + RemoveNthIndexes(2, arr);
    assert |multiset(r)| == |multiset(arr)|;
    r
  }

  /** `unInterleave` is a permutation: the even positions in order, then the odd ones in order. */
  lemma UnInterleavePermutes<T>(arr: seq<T>)
    ensures |UnInterleave(arr)| == |arr|
    ensures multiset(UnInterleave(arr)) == multiset(arr)
    ensures forall j :: 0 <= j < (|arr| + 1) / 2 ==> UnInterleave(arr)[j] == arr[2 * j]
    ensures forall j :: 0 <= j < |arr| / 2 ==> UnInterleave(arr)[(|arr| + 1) / 2 + j] == arr[2 * j + 1]
  {
    KeepNthClosedForm(2, arr);
    RemoveNthClosedForm(2, arr);
  }

  // ---------------------------------------------------------------------
  // Reads
  // ---------------------------------------------------------------------

  /** The private `mod` of array.js: `((n % m) + m) % m` with JavaScript's `%`. */
  function WrapIndex(index: int, len: int): (r: int)
    requires len > 0
    ensures 0 <= r < len
    ensures r == index % len
  {
    var t := Rem(index, len);
    WrapAgrees(index, len, t);
    Rem(t + len, len)
  }

  lemma WrapAgrees(index: int, len: int, t: int)
    requires len > 0
    requires t == index % len || t == index % len - len
    ensures (t + len) % len == index % len
  {
    if t == index % len {
      ModUnique(t + len, len, 1, t);
    } else {
      ModUnique(t + len, len, 0, t + len);
    }
  }

  /**
   * `circularRead`: reads `arr` at the index wrapped into range.  An empty
   * array makes the index NaN and the read `undefined` (`None`).
   */
  function CircularRead<T>(arr: seq<T>, index: int): (r: Option<T>)
    ensures arr == [] <==> r.None?
    ensures arr != [] ==> r == Some(arr[index % |arr|])
  {
    if arr == [] then None else Some(arr[WrapIndex(index, |arr|)])
  }

  /** Circular reads repeat with the length of the array and are exact in range. */
  lemma CircularReadPeriodic<T>(arr: seq<T>, index: int, k: int)
    requires arr != []
    ensures CircularRead(arr, index + k * |arr|) == CircularRead(arr, index)
    ensures 0 <= index < |arr| ==> CircularRead(arr, index) == Some(arr[index])
  {
    var len := |arr|;
    var q, r := index / len, index % len;
    assert index + k * len == (q + k) * len + r by { assert index == q * len + r; }
    ModUnique(index + k * len, len, q + k, r);
    if 0 <= index < len {
      ModUnique(index, len, 0, index);
    }
  }

  /** `paddedRead`: `arr[index]` inside `[0, length)`, else `x`. */
  function PaddedRead<T>(x: T, arr: seq<T>, index: int): (r: T)
    ensures 0 <= index < |arr| ==> r == arr[index]
    ensures !(0 <= index < |arr|) ==> r == x
  {
    if 0 <= index && index < |arr| then arr[index] else x
  }

  /** `zeroBoundRead`: `paddedRead` with 0 as the padding. */
  function ZeroBoundRead(arr: seq<real>, index: int): (r: real)
    ensures 0 <= index < |arr| ==> r == arr[index]
    ensures !(0 <= index < |arr|) ==> r == 0.0
  {
    if 0 <= index && index < |arr| then arr[index] else 0.0
  }

  /** Bounded reads agree with padded reads of 0, and with circular reads in range. */
  lemma ReadsAgree(arr: seq<real>, index: int)
    ensures ZeroBoundRead(arr, index) == PaddedRead(0.0, arr, index)
    ensures 0 <= index < |arr| ==> CircularRead(arr, index) == Some(ZeroBoundRead(arr, index))
  {
    if 0 <= index < |arr| {
      CircularReadPeriodic(arr, index, 0);
    }
  }

  // ---------------------------------------------------------------------
  // Writes
  // ---------------------------------------------------------------------

  /**
   * `overwriteArr`: the part of `target` before `index`, then as much of
   * `source` as fits, then the part of `target` after the written block.
   */
  function OverwriteArr<T>(index: int, target: seq<T>, source: seq<T>): (r: seq<T>)
    ensures 0 <= index <= |target| ==>
      |r| == |target| &&
      (forall i :: 0 <= i < |target| && !(index <= i < index + |source|) ==> r[i] == target[i]) &&
      (forall i :: index <= i < |target| && i < index + |source| ==> r[i] == source[i - index])
  {
    var r := Slice(target, 0, index) + Take(|target| - index, source) + SliceFrom(target, index + |source|);
    OverwriteShape(index, target, source, r);
    r
  }

  lemma OverwriteShape<T>(index: int, target: seq<T>, source: seq<T>, r: seq<T>)
    requires r == Slice(target, 0, index) + Take(|target| - index, source) + SliceFrom(target, index + |source|)
    ensures 0 <= index <= |target| ==>
      |r| == |target| &&
      (forall i :: 0 <= i < |target| && !(index <= i < index + |source|) ==> r[i] == target[i]) &&
      (forall i :: index <= i < |target| && i < index + |source| ==> r[i] == source[i - index])
  {
    if !(0 <= index <= |target|) {
      return;
    }
    var head := target[..index];
    var mid := Take(|target| - index, source);
    if index + |source| <= |target| {
      assert mid == source;
      var tail := target[index + |source|..];
      assert r == head + source + tail;
    } else {
      assert mid == source[..|target| - index];
      assert r == head + mid;
    }
  }

  /** `addSubstring`: on a copy, add `operator` element-wise from `position` on. */
  method AddSubstring(position: int, operator: seq<real>, target: seq<real>) returns (r: seq<real>)
    requires 0 <= position && position + |operator| <= |target|
    ensures |r| == |target|
    ensures forall i :: 0 <= i < |target| ==>
      r[i] == (if position <= i < position + |operator| then target[i] + operator[i - position] else target[i])
  {
    var copy := new real[|target|](j requires 0 <= j < |target| => target[j]);
    var i := position;
    while i < position + |operator|
      invariant position <= i <= position + |operator|
      invariant forall j :: 0 <= j < |target| ==>
        copy[j] == (if position <= j < i then target[j] + operator[j - position] else target[j])
    {
      copy[i] := copy[i] + operator[i - position];
      i := i + 1;
    }
    r := copy[..];
  }

  /** `multiplySubstring`: on a copy, multiply element-wise by `operator` from `position` on. */
  method MultiplySubstring(position: int, operator: seq<real>, target: seq<real>) returns (r: seq<real>)
    requires 0 <= position && position + |operator| <= |target|
    ensures |r| == |target|
    ensures forall i :: 0 <= i < |target| ==>
      r[i] == (if position <= i < position + |operator| then target[i] * operator[i - position] else target[i])
  {
    var copy := new real[|target|](j requires 0 <= j < |target| => target[j]);
    var i := position;
    while i < position + |operator|
      invariant position <= i <= position + |operator|
      invariant forall j :: 0 <= j < |target| ==>
        copy[j] == (if position <= j < i then target[j] * operator[j - position] else target[j])
    {
      copy[i] := copy[i] * operator[i - position];
      i := i + 1;
    }
    r := copy[..];
  }

  /** Element-wise combination of the overlapped block, for the lemma below. */
  function Combined(f: (real, real) -> real, block: seq<real>, operator: seq<real>): (r: seq<real>)
    requires |block| == |operator|
    ensures |r| == |block|
    ensures forall i :: 0 <= i < |r| ==> r[i] == f(block[i], operator[i])
  {
    seq(|block|, i requires 0 <= i < |block| => f(block[i], operator[i]))
  }

  /**
   * An element-wise update is an overwrite of the block with the combined
   * values: the sequences the two substring methods promise are exactly
   * `overwriteArr(position, target, combined)`.
   */
  lemma SubstringIsOverwrite(f: (real, real) -> real, position: int, operator: seq<real>, target: seq<real>, r: seq<real>)
    requires 0 <= position && position + |operator| <= |target|
    requires |r| == |target|
    requires forall i :: 0 <= i < |target| ==>
      r[i] == (if position <= i < position + |operator| then f(target[i], operator[i - position]) else target[i])
    ensures r == OverwriteArr(position, target, Combined(f, target[position..position + |operator|], operator))
  {
    var c := Combined(f, target[position..position + |operator|], operator);
    var o := OverwriteArr(position, target, c);
    forall i | 0 <= i < |target|
      ensures r[i] == o[i]
    {
      if position <= i < position + |operator| {
        assert c[i - position] == f(target[i], operator[i - position]);
      }
    }
  }

  // ---------------------------------------------------------------------
  // Whole-list reshaping
  // ---------------------------------------------------------------------

  /** Ramda `reverse`. */
  function Reverse<T>(s: seq<T>): (r: seq<T>)
    ensures |r| == |s|
    ensures forall i :: 0 <= i < |s| ==> r[i] == s[|s| - 1 - i]
  {
    if s == [] then [] else [s[|s| - 1]] + Reverse(s[..|s| - 1])
  }

  /** `mirror`: the list followed by its reverse without the last element. */
  function Mirror<T>(target: seq<T>): (r: seq<T>)
    ensures target == [] ==> r == []
    ensures target != [] ==> |r| == 2 * |target| - 1
    ensures r[..|target|] == target
    ensures forall i :: 0 <= i < |r| ==> r[i] == r[|r| - 1 - i]
  {
    var init := if target == [] then [] else target[..|target| - 1];
    target + Reverse(init)
  }

  /** `duplicate`: the list twice. */
  function Duplicate<T>(target: seq<T>): (r: seq<T>)
    ensures |r| == 2 * |target|
    ensures r[..|target|] == target && r[|target|..] == target
  {
    target + target
  }

  /** Ramda `unnest` on a list of lists. */
  function Flatten<T>(chunks: seq<seq<T>>): (r: seq<T>) {
    if chunks == [] then [] else Flatten(chunks[..|chunks| - 1]) + chunks[|chunks| - 1]
  }

  /**
   * `subdivide(amt, arr)`: `amt` consecutive chunks of `floor(len / amt)`
   * elements.  A negative count makes Ramda's `times` throw; a zero count
   * gives no chunks.
   */
  function Subdivide<T>(amt: int, arr: seq<T>): (r: Result<seq<seq<T>>>)
    ensures r.Failure? <==> amt < 0
    ensures r.Success? ==> |r.value| == amt
    ensures r.Success? && amt > 0 ==> forall i :: 0 <= i < amt ==>
      ChunkFits(|arr|, |arr| / amt, i) &&
      |r.value[i]| == |arr| / amt &&
      Chunk(arr, |arr| / amt, i) == r.value[i]
  {
    if amt < 0 then Failure("RangeError: n must be a non-negative number")
    else if amt == 0 then Success([])
    else
      var len := |arr| / amt;
      assert forall i :: 0 <= i < amt ==> ChunkFits(|arr|, len, i) by {
        forall i | 0 <= i < amt {
          ChunkBound(|arr|, amt, i);
        }
      }
      Success(seq(amt, i requires 0 <= i < amt => ChunkBound(|arr|, amt, i); Chunk(arr, len, i)))
  }

  /** The `i`-th run of `len` elements lies inside a list of `n`. */
  predicate ChunkFits(n: int, len: int, i: int) {
    (i + 1) * len <= n
  }

  /** The `i`-th run of `len` elements: `slice(i * len, i * len + len)`. */
  function Chunk<T>(arr: seq<T>, len: nat, i: nat): (r: seq<T>)
    requires (i + 1) * len <= |arr|
    ensures |r| == len
    ensures forall j :: 0 <= j < len ==> r[j] == arr[i * len + j]
  {
    arr[i * len..i * len + len]
  }

  lemma ChunkBound(n: nat, amt: int, i: int)
    requires 0 <= i < amt
    ensures ChunkFits(n, n / amt, i)
  {
    var len := n / amt;
    DivLower(n, amt, len);
    assert (i + 1) * len <= amt * len by { MulLe(i + 1, amt, len); }
  }

  lemma MulLe(a: int, b: int, c: nat)
    requires a <= b
    ensures a * c <= b * c
  {
  }

  /** The chunks of `subdivide` put back together give the covered prefix. */
  lemma SubdivideConcat<T>(amt: int, arr: seq<T>)
    requires amt > 0
    ensures amt * (|arr| / amt) <= |arr|
    ensures Flatten(Subdivide(amt, arr).value) == arr[..amt * (|arr| / amt)]
  {
    var len := |arr| / amt;
    var chunks := Subdivide(amt, arr).value;
    assert amt * len <= |arr| by {
      ChunkBound(|arr|, amt, amt - 1);
    }
    FlattenPrefix(chunks, arr, len, amt);
    assert chunks[..amt] == chunks;
  }

  lemma {:induction false} FlattenPrefix<T>(chunks: seq<seq<T>>, arr: seq<T>, len: nat, k: nat)
    requires k <= |chunks|
    requires k * len <= |arr|
    requires forall i :: 0 <= i < k ==> ChunkFits(|arr|, len, i) && chunks[i] == Chunk(arr, len, i)
    ensures Flatten(chunks[..k]) == arr[..k * len]
  {
    if k > 0 {
      var k' := k - 1;
      assert k' * len + len == k * len;
      FlattenPrefix(chunks, arr, len, k');
      assert chunks[..k][..k'] == chunks[..k'];
      assert arr[..k * len] == arr[..k' * len] + Chunk(arr, len, k');
    }
  }

  // ---------------------------------------------------------------------
  // Index of the maximum
  // ---------------------------------------------------------------------

  /** The sentinel of array.js: the fold starts from `-bignum`. */
  const Bignum: real := 1.0e100

  /**
   * The accumulator of `maximumValIndex`'s reduce: the largest value so far
   * and its first index, starting from `{x: -bignum, i: -1}` and replaced
   * only by a strictly larger element.
   */
  function MaxAccumulator(arr: seq<real>): (acc: (real, int))
    ensures acc.1 == -1 ==> acc.0 == -Bignum && forall k :: 0 <= k < |arr| ==> arr[k] <= -Bignum
    ensures acc.1 != -1 ==>
      0 <= acc.1 < |arr| && acc.0 == arr[acc.1] && acc.0 > -Bignum &&
      (forall k :: 0 <= k < |arr| ==> arr[k] <= acc.0) &&
      (forall k :: 0 <= k < acc.1 ==> arr[k] < acc.0)
  {
    if arr == [] then (-Bignum, -1)
    else
      var init := arr[..|arr| - 1];
      var prev := MaxAccumulator(init);
      var x := arr[|arr| - 1];
      assert forall k :: 0 <= k < |init| ==> arr[k] == init[k];
      if prev.0 < x then (x, |arr| - 1) else prev
  }

  /**
   * `maximumValIndex`: the first index of the largest element, or -1 when
   * every element is at most `-1e100` (in particular for an empty list).
   */
  function MaximumValIndex(arr: seq<real>): (r: int)
    ensures r == -1 <==> forall k :: 0 <= k < |arr| ==> arr[k] <= -Bignum
    ensures r != -1 ==>
      0 <= r < |arr| &&
      (forall k :: 0 <= k < |arr| ==> arr[k] <= arr[r]) &&
      (forall k :: 0 <= k < r ==> arr[k] < arr[r])
  {
    MaxAccumulator(arr).1
  }
}
