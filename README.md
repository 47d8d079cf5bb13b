# liftup track-building core in Dafny

liftup is a JavaScript toolkit for generating track files for a racing game.
The track is a list of *blueprints*: placed prefab items with a uuid, an item
id, a position and a rotation. This project models the part of liftup that
builds and saves those blueprints:

- **prefabs** (`src/track/prefabs.js`):
  - `makeArrayFromUnits`, which greedily splits a length into whole prefab
    units plus a remainder;
  - `makeCylinder0Line`, which lays a line of 5 m, 1 m and fractional
    cylinder pieces between two points.
- **blueprint** (`src/track/blueprint.js`):
  - the item-id aliases, `makeBlueprint` and `makeSpawnPoint`;
  - the `translateBlueprint` and `rotateBlueprint` transforms;
  - `removeSuperimposedBlueprints`;
  - the `validateTransformBlueprint` step that turns a blueprint into its
    saved form.
- **utilities** (`src/utils/*.js`): the exact parts of the math, array,
  functional and vector helpers that the above rely on or that come with a
  documented contract.

The modules are:

- `Wrappers`: `Option` and `Result`.
- `JsNum`: JavaScript number semantics, namely truncating `%`, `Math.trunc`, `Math.ceil` and the decimal text of integers.
- `Seqs`: ramda sequence helpers (`repeat`, `sum`, `slice`, `take`, `filter`).
- `Vector`, `MathUtil`, `ArrayUtil` and `Functional`: `vector.js`, `math.js`, `array.js` and `functional.js`.
- `Blueprint` and `Prefabs`: `blueprint.js` and `prefabs.js`.

Numbers are modelled as mathematical reals and integers, with no floating
point. The transcendental functions (`Math.sqrt` under mathjs `hypot`,
`Math.atan2`, `Math.cos`) are parameters bundled in a `Trig` record. Proofs
need only that its `sqrt` is a non-negative root (`Vector.Sound`). The uuid
generator and `Number.prototype.toFixed` are parameters too.

Two source defects are recorded under "## Findings". In both, the code
calls a name that is not in scope where it is used. Each has an as-written
member that always fails and a corrected member used by the rest of the
model.

## Model

| member | source | states |
|---|---|---|
| `Prefabs.MakeGroup` | src/track/prefabs.js:17-19 | a group keeps its items and their sum, and is fractional exactly when it is non-empty and its first item lies strictly between 0 and 1 |
| `Prefabs.MakeArrayFromUnits` | src/track/prefabs.js:8-23 | the imperative loop (floor count, repeat, subtract the laid length) returns exactly the recursive layout `Layout(target, units)`, including its failure when a count is negative |
| `Prefabs.SectionsStep` | src/track/prefabs.js:11-15 | one loop step: `floor(remaining/unit)` copies of the first unit, followed by the split of what is left over |
| `Prefabs.SectionsTotal` | src/track/prefabs.js:11-16 | the laid sections plus the final remainder add up to the amount being split |
| `Prefabs.LayoutTotal` | src/track/prefabs.js:8-20 | when the layout succeeds, the items of all groups (the remainder group included) sum to the target length |
| `Prefabs.GreedyStep` | src/track/prefabs.js:12-14 | for a non-negative amount and a positive unit, the count is non-negative and the remainder lies in `[0, unit)` |
| `Prefabs.NegativeStep` | src/track/prefabs.js:12-13 | a negative amount gives a negative count, which makes ramda `repeat` throw |
| `Prefabs.SectionsShape` | src/track/prefabs.js:10-16 | for positive units and a non-negative amount the split succeeds with one section per unit, each made only of copies of its unit, and a remainder in `[0, last unit)` |
| `Prefabs.Sections` | src/track/prefabs.js:10-16 | a successful split lays exactly one section per unit |
| `Prefabs.Layout` | src/track/prefabs.js:8-20 | the layout fails exactly when the split fails; otherwise it is one group per unit section, in order, followed by one last group that holds the remainder, or is empty when the remainder is zero |
| `Prefabs.LayoutFailsOnlyBelowZero` | src/track/prefabs.js:8-20 | for positive units the layout fails exactly when the target is negative (and there is a unit); otherwise it has one group per unit plus one for the remainder |
| `Prefabs.FiveOneSections` | src/track/prefabs.js:52 | splitting a line length by `[5, 1]` gives `floor(len/5)` fives, then fewer than five ones, then the fractional remainder |
| `Prefabs.FiveOneLayout` | src/track/prefabs.js:52 | the `[5, 1]` layout of a non-negative length is three groups: fives, fewer than five ones, and the remainder in `[0, 1)` |
| `Prefabs.FiveOneBounds` | src/track/prefabs.js:11-15 | a `[5, 1]` split of a non-negative length lays no negative counts, fewer than five ones, and leaves a remainder in `[0, 1)` |
| `Prefabs.TwelveAndAHalf` | src/track/prefabs.js:8-20 | worked example: 12.5 metres is two fives, two ones and a fractional group of 0.5 |
| `Prefabs.WholeStartNext` | src/track/prefabs.js:46-50 | within a group each whole piece starts one unit further along than the previous one |
| `Prefabs.WholePiece` | src/track/prefabs.js:46-50 | the j-th item of a whole group is the piece with index `Emitted + j`, starting at that group's walked length plus `j` units |
| `Prefabs.FractionalPiece` | src/track/prefabs.js:44-45 | the fractional piece is the last piece; it starts one fraction before the walked length and carries the length label "1" |
| `Prefabs.GroupFacts` | src/track/prefabs.js:17-20 | of the three `[5, 1]` groups only the third can be fractional; the whole ones consist of their unit and account for the pieces emitted and the distance walked |
| `Prefabs.PlaceWholePieces` | src/track/prefabs.js:46-51 | the inner loop over a whole group appends exactly that group's pieces to the line and moves the cursor to the end of the group |
| `Prefabs.WholeStep` | src/track/prefabs.js:47-50 | one whole piece pushed at the cursor extends the line by its next piece, and stepping the cursor by the unit reaches the next start |
| `Prefabs.FractionalStep` | src/track/prefabs.js:44-45 | the fractional blueprint, placed at the cursor minus the fraction, is the line's next piece, and the cursor does not move |
| `Prefabs.MakeCylinder0Line` | src/track/prefabs.js:34-55 | a zero-length line has no pieces; otherwise there are `PieceCount(len)` pieces and piece k is the cylinder of its length and colour at `p1 + start_k * unit`, rotated by `angles(unit)`, with uuid k |
| `Prefabs.PiecesAbut` | src/track/prefabs.js:46-50 | consecutive whole pieces abut: each starts where the previous one ends |
| `Prefabs.PiecesCoverLine` | src/track/prefabs.js:43-52 | the whole pieces reach to within one metre of the end; a fractional piece exists exactly when they fall short; only a zero-length line has no pieces |
| `Prefabs.MakeCylinder0LineAsWritten` | src/track/prefabs.js:35 | as written, the first statement calls `v.mapTidy`, which vector.js does not export, so every call fails |
| `Prefabs.CylinderLineAsWrittenFails` | src/track/prefabs.js:35-38 | a one-metre line, where the corrected builder makes one piece, fails as written |
| `Blueprint.ResolveId` | src/track/blueprint.js:22-35 | an alias is replaced by its full item id; anything else passes through unchanged; the result is never itself an alias |
| `Blueprint.ResolveIdIdempotent` | src/track/blueprint.js:22-35 | resolving twice is resolving once, and `cube1` names the 1 m drawing-board cube |
| `Blueprint.MakeBlueprint` | src/track/blueprint.js:73-80 | the blueprint has the given uuid, the resolved item id, and the given position and rotation, each defaulting to the origin |
| `Blueprint.MakeSpawnPoint` | src/track/blueprint.js:82-94 | spawn point n (default 2) has item id `SpawnPointSingle0{n}` and a named drone spawn point `Spawn {n}`; position defaults to `[0, 0, -30]`, rotation to the origin, and the xsi type is the spawn-point one |
| `Blueprint.SpawnPointsDistinct` | src/track/blueprint.js:82-94 | spawn points with different numbers differ in both item id and spawn-point record |
| `Blueprint.ZipAdd` | src/track/blueprint.js:47-51 | ramda `zipWith(add)` is as long as the shorter vector and adds component-wise |
| `Blueprint.ZipAddIsAdd` | src/track/blueprint.js:47-51 | on vectors of one length `zipWith(add)` agrees with vector `add` |
| `Blueprint.TranslateBlueprintAsWritten` | src/track/blueprint.js:47-49 | as written, `zipWith` is not imported, so translating fails |
| `Blueprint.RotateBlueprintAsWritten` | src/track/blueprint.js:51 | as written, `zipWith` is not imported, so rotating fails |
| `Blueprint.TransformsAsWrittenFail` | src/track/blueprint.js:47-51 | both transforms fail as written, on every input, while the corrected translate keeps the item id |
| `Blueprint.TranslateBlueprint` | src/track/blueprint.js:47-49 | the position moves component-wise by the vector and every other field is unchanged |
| `Blueprint.RotateBlueprint` | src/track/blueprint.js:51 | the rotation turns component-wise by the vector and every other field is unchanged |
| `Blueprint.TranslateCompose` | src/track/blueprint.js:47-49 | two translations compose into one by the summed vector, and translating back by the negated vector undoes a translation |
| `Blueprint.DropLast` | src/track/blueprint.js:56-61 | ramda `dropLast(n)` is the prefix with n fewer elements, or empty |
| `Blueprint.EquivalentIsEquivalence` | src/track/blueprint.js:56-61 | "same item id apart from its last two characters, same position and same rotation" is reflexive, symmetric and transitive |
| `Blueprint.UniqWith` | src/track/blueprint.js:53-65 | ramda `uniqWith` keeps only input items, never an item equal to an earlier kept one, and every input is kept or represented |
| `Blueprint.RemoveSuperimposedBlueprints` | src/track/blueprint.js:53-65 | the result is drawn from the input, no two kept blueprints are superimposed, and every input is superimposed on some kept one |
| `Blueprint.UniqWithOfEquivalence` | src/track/blueprint.js:53-65 | for an equivalence, the kept items are pairwise inequivalent and cover every input |
| `Blueprint.UniqWithIsFirstOccurrences` | src/track/blueprint.js:53-65 | for an equivalence, `uniqWith` keeps exactly the first item of each class, in input order |
| `Blueprint.UniqWithOfDistinct` | src/track/blueprint.js:53-65 | on items that are pairwise not equal, `uniqWith` changes nothing |
| `Blueprint.UniqWithIdempotent` | src/track/blueprint.js:53-65 | applying `uniqWith` twice is applying it once |
| `Blueprint.RemoveSuperimposedIsFirstOccurrences` | src/track/blueprint.js:53-65 | removal keeps the first blueprint of each superimposed class, and removing again changes nothing |
| `Blueprint.ToObjVect` | src/track/blueprint.js:39 | the x/y/z keys are present exactly for the components given, and each holds its component |
| `Blueprint.Degrees` | src/track/blueprint.js:41 | the rotation conversion is the vector module's radians-to-degrees |
| `Blueprint.ValidateTransformBlueprint` | src/track/blueprint.js:67-71 | the saved form keeps item id and spawn point, defaults purpose to "Functional" and xsi type to "TrackBlueprintFlag", writes the position fixed to decimals, writes the rotation in degrees, and drops the uuid |
| `Blueprint.ValidatedFlag` | src/track/blueprint.js:67-80 | a plain blueprint saves as a functional flag with keys x, y and z holding its fixed coordinates |
| `Blueprint.ValidatedSpawnPoint` | src/track/blueprint.js:67-94 | a default spawn point saves with the spawn-point type, functional purpose and the z coordinate -30 |
| `Vector.Z3` | src/utils/vector.js:23 | a zero vector of three components |
| `Vector.Scale` | src/utils/vector.js:25 | every component multiplied by the factor |
| `Vector.Add` | src/utils/vector.js:27 | component-wise sum |
| `Vector.Sub` | src/utils/vector.js:28 | component-wise difference |
| `Vector.AddSubInverse` | src/utils/vector.js:27-28 | adding and subtracting the same vector cancel out, in either order |
| `Vector.DirectionsOpposite` | src/utils/vector.js:8-13 | down, left and into are the negations of up, right and outward |
| `Vector.AlongAlong` | src/utils/vector.js:25-27 | walking s then t lengths along a vector is walking s + t |
| `Vector.AlongBack` | src/utils/vector.js:25-28 | stepping back by a scaled vector is walking fewer lengths |
| `Vector.AngleRoundTrip` | src/utils/vector.js:21-22 | `r2d` and `d2r` are inverse to each other |
| `Vector.SquareSum` | src/utils/vector.js:24 | the sum of squared components is never negative |
| `Vector.Mag` | src/utils/vector.js:4-6 | with a sound square root, the magnitude is the non-negative root of the sum of squared components |
| `Vector.D2R` | src/utils/vector.js:21 | 360 degrees is one full turn `tau`, and the sign of the angle is kept |
| `Vector.R2D` | src/utils/vector.js:22 | one full turn `tau` is 360 degrees, and the sign of the angle is kept |
| `Vector.SquareSumConcat` | src/utils/vector.js:24 | the square sum of a concatenation is the sum of the parts' square sums |
| `Vector.SquareSumScale` | src/utils/vector.js:24-25 | scaling by c multiplies the square sum by c squared |
| `Vector.Unit` | src/utils/vector.js:116 | the unit vector scaled back by the magnitude is the original, and with a sound square root it has magnitude 1 |
| `Vector.Angles` | src/utils/vector.js:67-78 | the roll component is 0 and the second component is `atan2` of the unit vector's x and y |
| `MathUtil.MapRange` | src/utils/math.js:25-28 | `_map` sends the old minimum to the new minimum and the old maximum to the new maximum |
| `MathUtil.MapRangeRoundTrip` | src/utils/math.js:25-28 | mapping back with the ranges swapped returns the original number |
| `MathUtil.BetweenEnds` | src/utils/math.js:25-28 | strictly inside the old range, `_map` lands between the new ends |
| `MathUtil.Clamp` | src/utils/math.js:41-45 | min at or below min, max at or above max (min wins when they cross), the number itself in between |
| `MathUtil.ClampInRange` | src/utils/math.js:41-45 | with a well-formed range the result lies inside it, and numbers already inside are unchanged |
| `MathUtil.UClamp` | src/utils/math.js:56 | the result lies in `[0, 1]`, numbers already there are unchanged, anything at or below 0 gives 0 and anything at or above 1 gives 1 |
| `MathUtil.MapClamp` | src/utils/math.js:72-76 | `newMin` at or below the old minimum, `newMax` at or above the old maximum, `_map` strictly inside, and always between the new ends |
| `MathUtil.MapClampIsClampedMap` | src/utils/math.js:72-76 | `mapClamp` is `_map` applied to the input clamped into the old range, and agrees with `_map` on the whole closed range |
| `MathUtil.Mod` | src/utils/math.js:250 | for a positive divisor the result is in `[0, n)`; for a negative one it is in `(n, 0]` |
| `MathUtil.ModCongruent` | src/utils/math.js:250 | the result differs from the input by a whole multiple of the divisor |
| `MathUtil.ModOnIntegers` | src/utils/math.js:250 | on integers with a positive divisor, `mod` is the Euclidean remainder |
| `MathUtil.ModExample` | src/utils/math.js:244-250 | the documented example `mod(-0.9, 1) = 0.1` |
| `MathUtil.WithinIsBetween` | src/utils/math.js:111-126 | `isWithin(r, t)` is `isBetween(t - r, t + r)`, and accepts exactly the `x` with `-r <= x - t < r`, so `t + r` itself is outside |
| `MathUtil.BetweenHalfOpen` | src/utils/math.js:100-111 | `isBetween` accepts exactly `[lower, upper)`: the lower bound is inside and the upper bound outside |
| `MathUtil.BetweenWithinExamples` | src/utils/math.js:105-123 | the four documented examples: `isBetween(0, 10, 3)` and `isWithin(1e-2, 100, 100.001)` hold; `isBetween(0, 1, 3)` and `isWithin(1e-5, 100, 100.001)` do not |
| `MathUtil.Parity` | src/utils/math.js:137-148 | `isEven` and `isOdd` never both hold; on non-negative numbers exactly one holds; a negative odd number passes neither (its remainder is -1), though its negation is odd |
| `MathUtil.IsBetween` | src/utils/math.js:111 | only a non-empty interval contains anything, and every point of `[lower, upper)` is inside it |
| `MathUtil.IsWithin` | src/utils/math.js:126 | only a positive radius admits anything, and the target itself is within it |
| `MathUtil.IsEven` | src/utils/math.js:137 | holds exactly when the mathematical remainder by 2 is 0 |
| `MathUtil.IsOdd` | src/utils/math.js:148 | holds exactly for positive numbers with remainder 1 by 2 |
| `MathUtil.FloorSqrt` | src/utils/math.js:851 | the floor square root r satisfies `r*r <= n < (r+1)*(r+1)` |
| `MathUtil.FloorSqrtExact` | src/utils/math.js:851 | the floor square root is the only such r |
| `MathUtil.NoSmallDivisorPrime` | src/utils/math.js:850-854 | a number of at least 2 with no divisor in `2..floor(sqrt n)` is prime |
| `MathUtil.IsPrime` | src/utils/math.js:850-854 | the trial-division loop answers true exactly for primes |
| `MathUtil.IsPrimeExample` | src/utils/math.js:846-854 | the documented example: 11 is prime |
| `MathUtil.Primes` | src/utils/math.js:815-821 | the sieve returns, in increasing order, exactly the primes from 2 to `num` |
| `MathUtil.SurvivorIsPrime` | src/utils/math.js:815-821 | surviving the filters of every candidate up to `floor(sqrt num)` is the same as being prime |
| `MathUtil.Fibonacci` | src/utils/math.js:838-839 | a list of `max(0, n)` numbers whose i-th entry is the i-th Fibonacci number |
| `MathUtil.FibonacciShape` | src/utils/math.js:834-839 | the documented shape: 0, 1, then each entry the sum of the two before |
| `MathUtil.ArithmeticProgression` | src/utils/math.js:883 | fails exactly for step 0 with a positive limit; otherwise it holds `max(0, ceil(lim/n))` entries, the i-th being `(i+1)*n` |
| `MathUtil.ProgressionReachesLimit` | src/utils/math.js:883 | for a positive step and limit, every entry but the last is below the limit and the last reaches it |
| `ArrayUtil.PadRight` | src/utils/array.js:46-49 | at least the new size long, with the original first and the filler after it |
| `ArrayUtil.PadLeft` | src/utils/array.js:51-54 | at least the new size long, with the filler first and the original last |
| `ArrayUtil.PadRoundTrip` | src/utils/array.js:46-54 | cutting the padding off gives back the original, and padding to a smaller size changes nothing |
| `ArrayUtil.KeepRemovePartition` | src/utils/array.js:57-62 | `keepNthIndexes` and `removeNthIndexes` split the array into two parts whose multisets add up to the whole |
| `ArrayUtil.KeptIndexEuclid` | src/utils/array.js:58 | index i is kept exactly when it is a multiple of `abs(n)` |
| `ArrayUtil.KeepNthClosedForm` | src/utils/array.js:58 | keeping every n-th index gives `ceil(len/abs(n))` elements, the j-th being the element at `j*abs(n)` |
| `ArrayUtil.KeepNthIndexes` | src/utils/array.js:58 | never longer than the input; `n = 0` keeps nothing, `n = 1` or `-1` keeps everything, and otherwise the first element is always kept |
| `ArrayUtil.RemoveNthIndexes` | src/utils/array.js:62 | never longer than the input; `n = 0` removes nothing, and `n = 1` or `-1` removes everything |
| `ArrayUtil.RemoveNthClosedForm` | src/utils/array.js:62 | removing every n-th index leaves `len - ceil(len/abs(n))` elements; for `abs(n) >= 2` the j-th is the element at `j + j/(abs(n)-1) + 1`, so the rest are kept in order |
| `ArrayUtil.UnInterleave` | src/utils/array.js:308 | the result has the same elements, with the same multiplicities, as the input |
| `ArrayUtil.UnInterleavePermutes` | src/utils/array.js:308 | `unInterleave` permutes the array: its even-indexed elements in order, then its odd-indexed elements in order |
| `ArrayUtil.WrapIndex` | src/utils/array.js:288 | the local `mod` maps every index into `[0, len)` and equals the Euclidean remainder |
| `ArrayUtil.CircularRead` | src/utils/array.js:290 | reads the element at the index wrapped into range; on an empty array there is nothing to read |
| `ArrayUtil.CircularReadPeriodic` | src/utils/array.js:290 | shifting the index by a multiple of the length reads the same element, and in-range indexes read directly |
| `ArrayUtil.PaddedRead` | src/utils/array.js:292 | reads in range, otherwise gives the filler |
| `ArrayUtil.ZeroBoundRead` | src/utils/array.js:291 | reads in range, otherwise gives 0 |
| `ArrayUtil.ReadsAgree` | src/utils/array.js:290-292 | the zero-bound read is the padded read with filler 0, and in range all three reads agree |
| `ArrayUtil.OverwriteArr` | src/utils/array.js:312-316 | for an index in range, the target keeps its length, takes the source from the index on (cut at the end) and is unchanged elsewhere |
| `ArrayUtil.AddSubstring` | src/utils/array.js:359-364 | the loop adds the operator into the target at the position and leaves the rest unchanged |
| `ArrayUtil.MultiplySubstring` | src/utils/array.js:352-357 | the loop multiplies the operator into the target at the position and leaves the rest unchanged |
| `ArrayUtil.SubstringIsOverwrite` | src/utils/array.js:312-364 | both substring operations are `overwriteArr` of the combined block at the position |
| `ArrayUtil.Mirror` | src/utils/array.js:366 | the target followed by its reversed initial part: a palindrome of length `2*len - 1` that starts with the target |
| `ArrayUtil.Duplicate` | src/utils/array.js:367 | the target twice |
| `ArrayUtil.Subdivide` | src/utils/array.js:130-135 | fails exactly for a negative count; otherwise `amt` chunks of `floor(len/amt)` consecutive elements |
| `ArrayUtil.SubdivideConcat` | src/utils/array.js:130-135 | concatenating the chunks gives back the array up to the leftover tail |
| `ArrayUtil.MaximumValIndex` | src/utils/array.js:396-413 | -1 exactly when no element exceeds `-bignum`; otherwise the index of the first strictly greatest element |
| `Functional.WrapSingle` | src/utils/functional.js:109-114 | an array stays as it is; a single value becomes a one-element array |
| `Functional.WrapSingleIdempotent` | src/utils/functional.js:114 | wrapping an already wrapped value changes nothing |
| `Functional.WrapManyConcat` | src/utils/functional.js:99-127 | `wrapMany` of a concatenation is the concatenation of the `wrapMany`s |
| `Functional.WrapManySingles` | src/utils/functional.js:127 | on single values `wrapMany` is the list of those values |
| `Functional.WrapMany` | src/utils/functional.js:127 | every element of every wrapped argument appears in the result, and nothing else does |
| `Functional.WrapManyExample` | src/utils/functional.js:122-127 | the documented example flattens `[1], [2, 3], 4` to `[1, 2, 3, 4]` |
| `Functional.InsertAt` | src/utils/functional.js:223 | the substring is inserted at the clamped position: the string's prefix before it and its suffix after it |
| `Functional.InsertAtRoundTrip` | src/utils/functional.js:223 | cutting the inserted substring back out gives the original string |
| `Functional.Wrap` | src/utils/functional.js:274 | ramda `mathMod` lands in `[0, len)` |
| `Functional.WrapIsMod` | src/utils/functional.js:274 | ramda `mathMod` is the Euclidean remainder |
| `Functional.Rotate` | src/utils/functional.js:273-277 | element j of the rotation is the element `j - n` places back, wrapped around |
| `Functional.RotateMoves` | src/utils/functional.js:273-277 | rotating by n moves the element at i to `(i + n) mod len` |
| `Functional.RotateCompose` | src/utils/functional.js:273-277 | rotating by b then a is rotating by a + b |
| `Functional.RotateFull` | src/utils/functional.js:273-277 | rotating by a multiple of the length changes nothing |
| `Functional.RotateInverse` | src/utils/functional.js:273-277 | rotating by -n undoes rotating by n |
| `Functional.IterateF` | src/utils/functional.js:85 | fails (ramda `compose` of nothing) exactly when `abs(floor(n))` is 0 |
| `Functional.IterateFApplies` | src/utils/functional.js:72-85 | otherwise the result applies f `abs(floor(n))` times |
| `Functional.ComposeRepeat` | src/utils/functional.js:85 | composing k copies of f is f iterated k times |
| `Functional.ApplyAll` | src/utils/functional.js:165-169 | `seq(fs, x)` holds `f(x)` for each f, in order |
| `Functional.ApplyAllConcat` | src/utils/functional.js:169 | `seq` of concatenated function lists is the concatenation of the results |
| `JsNum.Rem` | src/utils/math.js:250 | JavaScript `%` on integers: smaller than the divisor in size, with the sign of the dividend, and congruent to it |
| `JsNum.RemReal` | src/utils/math.js:250 | JavaScript `%` on numbers: strictly inside `(-abs(n), abs(n))`, with the sign of the dividend, and differing from the dividend by a whole multiple of the divisor |
| `JsNum.IntTextInjective` | src/track/prefabs.js:47 | the decimal text of integers (used for the piece-length label) tells different integers apart |
| `JsNum.ParseNatText` | src/track/prefabs.js:47 | reading the decimal text of a natural number back gives the number |
| `Seqs.SumRepeat` | src/track/prefabs.js:13-14 | the sum of n copies of x is `n*x`, the length that one loop step lays |
| `Seqs.FilterKeepsIncreasing` | src/utils/math.js:819 | filtering a strictly increasing list keeps it strictly increasing |

## Left out

- `makeItemLine` (src/track/prefabs.js:25-30) is not modelled. It only returns `lineLen`, whose definition is commented out, and nothing in the modelled core uses it.
- `Vector.Mag` and `Vector.Angles` treat `Math.sqrt`, `Math.atan2` and `Math.cos` as parameters. Only the root property of `sqrt` is assumed, through `Vector.Sound`. Floating-point rounding is not modelled.
- `Vector.Angles`: the first component (the pitch computed with `atan2` and `cos`) is stated only through those parameters. No geometric property of it is proved.
- `tidyFloat` and `mapTidy`, the rounding to 15 decimals, are treated as the identity in the corrected cylinder line.
- `Number.prototype.toFixed` (the `decimals` setting in blueprint.js:36) is the parameter `fix`. Its digits are not modelled.
- The uuid generator is a parameter from piece index to string.
- `MathUtil.MapRange` requires `oldMin != oldMax`. With an empty old range `_map` divides by zero, giving plus or minus Infinity, or NaN when `x` equals `oldMin` (0/0) or the new range is empty too.
- `MathUtil.Mod` requires a non-zero divisor, because `x % 0` is NaN.
- `Vector.Unit` and `Vector.Angles` require a non-zero magnitude. For the zero vector `unit` scales by `1/0`, which gives NaN components.
- `Vector.Add` and `Vector.Sub` require equal lengths, because mathjs throws on a size mismatch.
- `ArrayUtil.AddSubstring` and `ArrayUtil.MultiplySubstring` require `0 <= position` and the operator to fit inside the target. Past the end, JavaScript writes `NaN` into new slots. At a negative position, `target[-1] += …` writes `NaN` to a non-index property, and the in-range slots are still updated. Neither is modelled.
- `MathUtil.IsEven`, `MathUtil.IsOdd`, `MathUtil.IsPrime`, `MathUtil.Primes`, `MathUtil.Fibonacci`, `Functional.Rotate`, `Functional.InsertAt`, `Blueprint.MakeSpawnPoint`, `ArrayUtil.CircularRead`, `ArrayUtil.PaddedRead`, `ArrayUtil.ZeroBoundRead`, `ArrayUtil.OverwriteArr`, `ArrayUtil.KeepNthIndexes`, `ArrayUtil.RemoveNthIndexes`, `ArrayUtil.Subdivide`, `ArrayUtil.PadRight` and `ArrayUtil.PadLeft` take a JavaScript number as an integer. Non-integer inputs are not modelled, and JavaScript does not simply floor them. Some examples:
  - ramda `mathMod` gives NaN for a fractional rotation, so `rotate(1.5, arr)` returns the input unchanged.
  - `Array.from` floors a fractional length, so `fibonacci(2.5)` has two entries.
  - A fractional spawn-point number such as 2.5 gives the id `SpawnPointSingle02.5`.
  - A fractional index reads `undefined`.
- `MathUtil.ArithmeticProgression`, `MathUtil.Fibonacci`, `MathUtil.Primes`, `ArrayUtil.PadRight`, `ArrayUtil.PadLeft` and `ArrayUtil.Subdivide` do not model JavaScript's array-length limit. A length above 2^32 - 1, as in `arithmeticProgression(1, 2**33)`, throws a RangeError in JavaScript, but the model returns the full list.
- `Prefabs.Sections`, `Prefabs.Layout`, `Prefabs.MakeArrayFromUnits` and `Prefabs.MakeCylinder0Line` do not model the same limit on the count passed to ramda `repeat` (prefabs.js:13). A count above 2^32 - 1 throws a RangeError in JavaScript, as in `makeArrayFromUnits(2**33, [1])` or a cylinder line longer than 5 * (2^32 - 1) m split into `[5, 1]` (prefabs.js:52). The model lays out all the copies and returns Success. Only the zero unit's infinite count and a negative count are modelled as failures.
- `Prefabs.MakeArrayFromUnits` does not model the ascending `sortBy(lt)` call (prefabs.js:9), because ramda `sortBy` with a comparator as key leaves the order unchanged.
- `Prefabs.MakeArrayFromUnits` (prefabs.js:20) and `Blueprint.RemoveSuperimposedBlueprints` (blueprint.js:63) do not model their `console.log` calls.
- `Blueprint.ResolveId` does not model the inherited `Object.prototype` members. Because `ids` is a plain object, `ids[itemID] ?? itemID` returns an inherited member for names such as `constructor`, `toString` or `__proto__`. The model treats those names like any other non-alias and passes them through.
- JavaScript's `-0`, `NaN` and `Infinity` are not modelled. Neither are property-order effects of plain objects.
- `Vector.SquareSum` is proved non-negative. That it is zero only for the zero vector is not proved.
- The other helpers of math.js, array.js, functional.js and vector.js are not modelled: `myprimes`, the 2D/3D maps, windows, `normalize`, `shuffle`, the older `angles` variants and the rotations. Nothing in the modelled core depends on them.
- Saving a track to disk, the XML writer and the command-line entry points are not modelled. They are I/O.

## Findings

| source | as written | input that shows it | evidently intended | confidence | as-written member | corrected member |
|---|---|---|---|---|---|---|
| src/track/prefabs.js:35-38 | `makeCylinder0Line` calls `v.mapTidy` and `v.tidyFloat`, which vector.js defines but does not export, so every call throws a TypeError | `makeCylinder0Line(c, [0,0,0], [0,1,0])` | a line of cylinder pieces from p1 to p2 (one 1 m piece here) | not executed | `Prefabs.MakeCylinder0LineAsWritten` | `Prefabs.MakeCylinder0Line` |
| src/track/blueprint.js:47-51 | `translateBlueprint` and `rotateBlueprint` call `zipWith`, which the ramda import on lines 2-18 does not bring in, so each call throws a ReferenceError | `translateBlueprint([1,0,0], makeBlueprint("cube1"))` | the position (or rotation) shifted component-wise by the vector | not executed | `Blueprint.TranslateBlueprintAsWritten` | `Blueprint.TranslateBlueprint` |
