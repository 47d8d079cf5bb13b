/**
 * The helpers of `src/utils/functional.js` that the rest of the library
 * leans on: wrapping values into arrays, inserting into a string, rotating
 * a list or string, iterating a function and applying a list of functions.
 * Strings are sequences of characters, so the generic sequence operations
 * cover both of JavaScript's cases.
 */
module Functional {
  import opened Wrappers
  import opened JsNum
  import opened Seqs

  // ---------------------------------------------------------------------
  // Wrapping
  // ---------------------------------------------------------------------

  /** A JavaScript value that is either an array or a single non-array value. */
  datatype Item<T> = Single(value: T) | Many(items: seq<T>)

  /** `wrapSingle`: an array is returned as it is, anything else is wrapped. */
  function WrapSingle<T>(item: Item<T>): (r: seq<T>)
    ensures item.Single? ==> r == [item.value]
    ensures item.Many? ==> r == item.items
  {
    match item
    case Single(x) => [x]
    case Many(xs) => xs
  }

  /** Wrapping the result of a wrap changes nothing: `wrapSingle` is idempotent. */
  lemma WrapSingleIdempotent<T>(item: Item<T>)
    ensures WrapSingle(Many(WrapSingle(item))) == WrapSingle(item)
    ensures |WrapSingle(item)| == (if item.Single? then 1 else |item.items|)
  {
  }

  /** `wrapMany`: `wrapSingle` of every argument, concatenated (one level of flattening). */
  function WrapMany<T>(args: seq<Item<T>>): (r: seq<T>)
    ensures forall i, x :: 0 <= i < |args| && x in WrapSingle(args[i]) ==> x in r
    ensures forall x :: x in r ==> exists i :: 0 <= i < |args| && x in WrapSingle(args[i])
  {
    if args == [] then [] else WrapMany(args[..|args| - 1]) + WrapSingle(args[|args| - 1])
  }

  /** `wrapMany` of a concatenation is the concatenation of the two results. */
  lemma {:induction false} WrapManyConcat<T>(a: seq<Item<T>>, b: seq<Item<T>>)
    ensures WrapMany(a + b) == WrapMany(a) + WrapMany(b)
  {
    if b != [] {
      var b' := b[..|b| - 1];
      WrapManyConcat(a, b');
      assert (a + b)[..|a + b| - 1] == a + b';
    } else {
      assert a + b == a;
    }
  }

  /** On non-array arguments only, `wrapMany` collects them in order. */
  lemma {:induction false} WrapManySingles<T>(args: seq<Item<T>>)
    requires forall i :: 0 <= i < |args| ==> args[i].Single?
    ensures |WrapMany(args)| == |args|
    ensures forall i :: 0 <= i < |args| ==> WrapMany(args)[i] == args[i].value
  {
    if args != [] {
      WrapManySingles(args[..|args| - 1]);
    }
  }

  /** The documented example: `wrapMany([1], [2, 3], 4)` is `[1, 2, 3, 4]`. */
  lemma WrapManyExample()
    ensures WrapMany([Many([1]), Many([2, 3]), Single(4)]) == [1, 2, 3, 4]
  {
    var args := [Many([1]), Many([2, 3]), Single(4)];
    assert args[..1][..0] == [];
    assert WrapMany(args[..1]) == [1];
    assert args[..2][..1] == args[..1];
    assert WrapMany(args[..2]) == [1] + [2, 3];
    assert WrapMany(args) == [1, 2, 3] + [4];
  }

  // ---------------------------------------------------------------------
  // Insertion
  // ---------------------------------------------------------------------

  /** `insertAt`: `str.slice(0, pos) + sub + str.slice(pos)`. */
  function InsertAt<T>(sub: seq<T>, pos: int, str: seq<T>): (r: seq<T>)
    ensures |r| == |str| + |sub|
    ensures var c := ClampIndex(pos, |str|);
      r[..c] == str[..c] && r[c..c + |sub|] == sub && r[c + |sub|..] == str[c..]
  {
    Slice(str, 0, pos) + sub + SliceFrom(str, pos)
  }

  /** Cutting the inserted part out again gives back the original string. */
  lemma InsertAtRoundTrip<T>(sub: seq<T>, pos: int, str: seq<T>)
    requires 0 <= pos <= |str|
    ensures var r := InsertAt(sub, pos, str);
      r[..pos] + r[pos + |sub|..] == str && r[pos..pos + |sub|] == sub
  {
    var r := InsertAt(sub, pos, str);
    assert str == str[..pos] + str[pos..];
  }

  // ---------------------------------------------------------------------
  // Rotation
  // ---------------------------------------------------------------------

  /**
   * `i mod len` for a positive `len`, computed by adding or subtracting
   * `len` until the index is in range.  Stating rotation through it keeps
   * the remainder arithmetic out of the sequence reasoning.
   */
  function Wrap(i: int, len: int): (r: int)
    requires len > 0
    ensures 0 <= r < len
    decreases if i < 0 then len - i else i
  {
    if i < 0 then Wrap(i + len, len)
    else if i >= len then Wrap(i - len, len)
    else i
  }

  /** `Wrap` is the Euclidean remainder. */
  lemma {:induction false} WrapIsMod(i: int, len: int)
    requires len > 0
    ensures Wrap(i, len) == i % len
    decreases if i < 0 then len - i else i
  {
    if i < 0 {
      WrapIsMod(i + len, len);
      ModShift(i, len);
    } else if i >= len {
      WrapIsMod(i - len, len);
      ModShift(i, len);
    } else {
      ModUnique(i, len, 0, i);
    }
  }

  /** Adding or taking away the modulus keeps the remainder. */
  lemma ModShift(i: int, len: int)
    requires len > 0
    ensures (i + len) % len == i % len && (i - len) % len == i % len
  {
    var q, r := i / len, i % len;
    assert i == q * len + r;
    assert (q + 1) * len == q * len + len;
    assert (q - 1) * len == q * len - len;
    ModUnique(i + len, len, q + 1, r);
    ModUnique(i - len, len, q - 1, r);
  }

  /** `(x mod m + y) mod m = (x + y) mod m`. */
  lemma ModAdd(x: int, y: int, m: int)
    requires m > 0
    ensures (x % m + y) % m == (x + y) % m
  {
    var q, r := x / m, x % m;
    var s := r + y;
    var q2, r2 := s / m, s % m;
    assert s == q2 * m + r2;
    assert x + y == (q + q2) * m + r2 by {
      assert x == q * m + r;
      assert (q + q2) * m == q * m + q2 * m;
    }
    ModUnique(x + y, m, q + q2, r2);
  }

  /** Wrapping before a shift and wrapping after it agree. */
  lemma WrapShift(x: int, y: int, len: int)
    requires len > 0
    ensures Wrap(Wrap(x, len) + y, len) == Wrap(x + y, len)
  {
    WrapIsMod(x, len);
    WrapIsMod(Wrap(x, len) + y, len);
    WrapIsMod(x + y, len);
    ModAdd(x, y, len);
  }

  /**
   * `rotate(n, arr)`: with `m = mathMod(-n, length)`, the elements from `m`
   * on followed by those before `m`, so that position `j` of the result
   * holds the element from `(j - n) mod length`.  An empty sequence makes
   * `mathMod` NaN and is returned empty.
   */
  function Rotate<T>(n: int, arr: seq<T>): (r: seq<T>)
    ensures |r| == |arr|
    ensures forall j :: 0 <= j < |arr| ==> r[j] == arr[Wrap(j - n, |arr|)]
  {
    if arr == [] then []
    else
      var len := |arr|;
      var m := (-n) % len;
      var r := arr[m..] + arr[..m];
      assert forall j :: 0 <= j < len ==> r[j] == arr[Wrap(j - n, len)] by {
        forall j | 0 <= j < len
          ensures r[j] == arr[Wrap(j - n, len)]
        {
          RotateIndex(n, len, j);
        }
      }
      r
  }

  /** Where position `j` of a rotation reads from, in terms of the cut point `m`. */
  lemma RotateIndex(n: int, len: int, j: int)
    requires len > 0 && 0 <= j < len
    ensures var m := (-n) % len;
      Wrap(j - n, len) == (if j < len - m then j + m else j + m - len)
  {
    var m := (-n) % len;
    WrapIsMod(j - n, len);
    ModAdd(-n, j, len);
    if j < len - m {
      ModUnique(j + m, len, 0, j + m);
    } else {
      ModUnique(j + m, len, 1, j + m - len);
    }
  }

  /** The element at `i` lands at `(i + n) mod length`. */
  lemma RotateMoves<T>(n: int, arr: seq<T>, i: int)
    requires 0 <= i < |arr|
    ensures Rotate(n, arr)[(i + n) % |arr|] == arr[i]
  {
    var len := |arr|;
    WrapIsMod(i + n, len);
    WrapShift(i + n, -n, len);
    WrapIsMod(i, len);
    ModUnique(i, len, 0, i);
  }

  /** Rotating twice is rotating by the sum. */
  lemma RotateCompose<T>(a: int, b: int, arr: seq<T>)
    ensures Rotate(a, Rotate(b, arr)) == Rotate(a + b, arr)
  {
    if arr != [] {
      var twice, direct := Rotate(a, Rotate(b, arr)), Rotate(a + b, arr);
      forall j | 0 <= j < |arr|
        ensures twice[j] == direct[j]
      {
        RotateComposeAt(a, b, arr, j);
      }
      assert twice == direct;
    }
  }

  /** One position of `RotateCompose`. */
  lemma RotateComposeAt<T>(a: int, b: int, arr: seq<T>, j: int)
    requires 0 <= j < |arr|
    ensures Rotate(a, Rotate(b, arr))[j] == Rotate(a + b, arr)[j]
  {
    var len := |arr|;
    var once := Rotate(b, arr);
    var w := Wrap(j - a, len);
    assert Rotate(a, once)[j] == once[w];
    assert once[w] == arr[Wrap(w - b, len)];
    assert Wrap(w - b, len) == Wrap(j - (a + b), len) by {
      WrapShift(j - a, -b, len);
      assert j - a + -b == j - (a + b);
    }
  }

  /** Rotating by a multiple of the length (in particular by 0) changes nothing. */
  lemma RotateFull<T>(k: int, arr: seq<T>)
    ensures Rotate(k * |arr|, arr) == arr
  {
    if arr != [] {
      var len := |arr|;
      var r := Rotate(k * len, arr);
      forall j | 0 <= j < len
        ensures r[j] == arr[j]
      {
        WrapIsMod(j - k * len, len);
        ModUnique(j - k * len, len, -k, j);
      }
      assert r == arr;
    }
  }

  /** Rotating back undoes a rotation. */
  lemma RotateInverse<T>(n: int, arr: seq<T>)
    ensures Rotate(-n, Rotate(n, arr)) == arr
  {
    if arr != [] {
      var len := |arr|;
      var back := Rotate(-n, Rotate(n, arr));
      forall j | 0 <= j < len
        ensures back[j] == arr[j]
      {
        WrapShift(j + n, -n, len);
        WrapIsMod(j, len);
        ModUnique(j, len, 0, j);
      }
      assert back == arr;
    }
  }

  // ---------------------------------------------------------------------
  // Iteration and application
  // ---------------------------------------------------------------------

  /** `n`-fold application of `f`, the reference for `iterateF`. */
  function Iterate<T>(f: T -> T, n: nat, x: T): T {
    if n == 0 then x else f(Iterate(f, n - 1, x))
  }

  /** Ramda `compose`: the right-most function runs first; it needs at least one function. */
  function Compose<T>(fs: seq<T -> T>): (g: T -> T)
    requires |fs| >= 1
  {
    if |fs| == 1 then fs[0]
    else
      var rest := Compose(fs[1..]);
      x => fs[0](rest(x))
  }

  /**
   * `iterateF(f, n)`: `compose` of `|floor(n)|` copies of `f`.  For `n`
   * between -1 and 1 there is nothing to compose and `compose` throws.
   */
  function IterateF<T>(f: T -> T, n: real): (r: Result<T -> T>)
    ensures r.Failure? <==> Abs(n.Floor) == 0
  {
    var k := Abs(n.Floor);
    if k == 0 then Failure("compose requires at least one argument")
    else Success(Compose(Repeat(f, k)))
  }

  /** `iterateF(f, n)` applies `f` exactly `|floor(n)|` times. */
  lemma IterateFApplies<T>(f: T -> T, n: real, x: T)
    requires Abs(n.Floor) >= 1
    ensures IterateF(f, n).value(x) == Iterate(f, Abs(n.Floor), x)
  {
    ComposeRepeat(f, Abs(n.Floor), x);
  }

  lemma {:induction false} ComposeRepeat<T>(f: T -> T, k: nat, x: T)
    requires k >= 1
    ensures Compose(Repeat(f, k))(x) == Iterate(f, k, x)
  {
    if k > 1 {
      assert Repeat(f, k)[1..] == Repeat(f, k - 1);
      ComposeRepeat(f, k - 1, x);
    }
  }

  /** `seq(fs, x)`: every function of `fs` applied to `x`, in order. */
  function ApplyAll<T, U>(fs: seq<T -> U>, x: T): (r: seq<U>)
    ensures |r| == |fs|
    ensures forall i :: 0 <= i < |fs| ==> r[i] == fs[i](x)
  {
    if fs == [] then [] else ApplyAll(fs[..|fs| - 1], x) + [fs[|fs| - 1](x)]
  }

  /** Applying a concatenation of function lists concatenates the results. */
  lemma ApplyAllConcat<T, U>(fs: seq<T -> U>, gs: seq<T -> U>, x: T)
    ensures ApplyAll(fs + gs, x) == ApplyAll(fs, x) + ApplyAll(gs, x)
  {
  }
}
