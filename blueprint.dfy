/**
 * Blueprint records of a track (`src/track/blueprint.js`): the item alias
 * table, the two factories, moving and turning a blueprint, removing
 * superimposed duplicates and the shape a blueprint takes just before it is
 * saved.
 *
 * A fresh uuid and the five-decimal `toFixed` formatting are parameters:
 * the former comes from a random generator, the latter from the floating
 * point printer.
 */
module Blueprint {
  import opened Wrappers
  import opened JsNum
  import opened Vector

  /** The `spawnpoint` object of a spawn point. */
  datatype Spawnpoint = Spawnpoint(name: string, xsiType: string)

  /**
   * A blueprint as the factories build it.  The optional fields are the
   * keys that only some blueprints carry; `uuid` is dropped before saving.
   */
  datatype Blueprint = Blueprint(
    uuid: Option<string>,
    itemID: string,
    position: Vec,
    rotation: Vec,
    spawnpoint: Option<Spawnpoint>,
    xsiType: Option<string>,
    purpose: Option<string>)

  /** A blueprint ready for the XML writer: coordinates as `{x, y, z}` strings, both tags present. */
  datatype SavedBlueprint = SavedBlueprint(
    itemID: string,
    position: map<string, string>,
    rotation: map<string, string>,
    spawnpoint: Option<Spawnpoint>,
    xsiType: string,
    purpose: string)

  // ---------------------------------------------------------------------
  // Item aliases and factories
  // ---------------------------------------------------------------------

  /** `ids`: short names for the drawing-board and gate items. */
  const Ids: map<string, string> := map[
    "cube1" := "DrawingBoardCube1mx1m04",
    "cube10" := "DrawingBoardCube10mx10m04",
    "cube5" := "DrawingBoardCube5mx5m04",
    "cylinder0x1" := "DrawingBoardCylinder0.5mx1m04",
    "cylinder0x5" := "DrawingBoardCylinder0.5mx5m04",
    "cylinder1x1" := "DrawingBoardCylinder1mx1m04",
    "cylinder1x5" := "DrawingBoardCylinder1mx5m04",
    "plate" := "DrawingBoardPlate4mx4m04",
    "wall" := "DrawingBoardWall5mx5m04",
    "beam" := "ASLLightBeam02",
    "lightHoop1" := "ASLLightHoopGate01",
    "octgate" := "OctagonGate200x200cmGeneric01"
  ]

  /** `ids[itemID] ?? itemID`: an alias is replaced, anything else passes through. */
  function ResolveId(itemID: string): (r: string)
    ensures itemID in Ids ==> r == Ids[itemID]
    ensures itemID !in Ids ==> r == itemID
    ensures r !in Ids
  {
    if itemID in Ids then Ids[itemID] else itemID
  }

  /** Resolving twice is resolving once; `cube1` is the one-metre cube. */
  lemma ResolveIdIdempotent(itemID: string)
    ensures ResolveId(ResolveId(itemID)) == ResolveId(itemID)
    ensures ResolveId("cube1") == "DrawingBoardCube1mx1m04"
  {
  }

  /** `makeBlueprint`: resolve the item name and default both vectors to the origin. */
  function MakeBlueprint(uuid: string, itemID: string, position: Option<Vec>, rotation: Option<Vec>): (b: Blueprint)
    ensures b.uuid == Some(uuid)
    ensures b.itemID == ResolveId(itemID)
    ensures b.position == (if position.Some? then position.value else [0.0, 0.0, 0.0])
    ensures b.rotation == (if rotation.Some? then rotation.value else [0.0, 0.0, 0.0])
    ensures b.spawnpoint.None? && b.xsiType.None? && b.purpose.None?
  {
    Blueprint(Some(uuid), ResolveId(itemID), position.GetOr([0.0, 0.0, 0.0]), rotation.GetOr([0.0, 0.0, 0.0]), None, None, None)
  }

  /** The default spawn point number. */
  const DefaultSpawnNumber: int := 2

  /**
   * `makeSpawnPoint`: item `SpawnPointSingle0{number}` with a named drone
   * spawn point; the defaults are 30 units into the screen, no rotation and
   * number 2.
   */
  function MakeSpawnPoint(uuid: string, position: Option<Vec>, rotation: Option<Vec>, number: Option<int>): (b: Blueprint)
    ensures var n := number.GetOr(DefaultSpawnNumber);
      b.itemID == "SpawnPointSingle0" + IntText(n) &&
      b.spawnpoint == Some(Spawnpoint("Spawn " + IntText(n), "NamedDroneSpawnpoint"))
    ensures b.uuid == Some(uuid)
    ensures b.position == position.GetOr([0.0, 0.0, -30.0])
    ensures b.rotation == rotation.GetOr([0.0, 0.0, 0.0])
    ensures b.xsiType == Some("TrackBlueprintSpawnpoint") && b.purpose.None?
  {
    var n := number.GetOr(DefaultSpawnNumber);
    Blueprint(
      Some(uuid),
      "SpawnPointSingle0" + IntText(n),
      position.GetOr([0.0, 0.0, -30.0]),
      rotation.GetOr([0.0, 0.0, 0.0]),
      Some(Spawnpoint("Spawn " + IntText(n), "NamedDroneSpawnpoint")),
      Some("TrackBlueprintSpawnpoint"),
      None)
  }

  /** Different numbers give spawn points with different items and names. */
  lemma SpawnPointsDistinct(u1: string, u2: string, n1: int, n2: int)
    requires n1 != n2
    ensures MakeSpawnPoint(u1, None, None, Some(n1)).itemID != MakeSpawnPoint(u2, None, None, Some(n2)).itemID
    ensures MakeSpawnPoint(u1, None, None, Some(n1)).spawnpoint != MakeSpawnPoint(u2, None, None, Some(n2)).spawnpoint
  {
    var p := "SpawnPointSingle0";
    if p + IntText(n1) == p + IntText(n2) {
      assert IntText(n1) == (p + IntText(n1))[|p|..];
      IntTextInjective(n1, n2);
    }
    var s := "Spawn ";
    if s + IntText(n1) == s + IntText(n2) {
      assert IntText(n1) == (s + IntText(n1))[|s|..];
      IntTextInjective(n1, n2);
    }
  }

  // ---------------------------------------------------------------------
  // Moving and turning
  // ---------------------------------------------------------------------

  /** Ramda `zipWith(add)`: component-wise sum, as long as the shorter list. */
  function ZipAdd(a: Vec, b: Vec): (r: Vec)
    ensures |r| == Min(|a|, |b|)
    ensures forall i :: 0 <= i < |r| ==> r[i] == a[i] + b[i]
  {
    seq(Min(|a|, |b|), i requires 0 <= i < Min(|a|, |b|) => a[i] + b[i])
  }

  /** On vectors of one size the truncating sum is the vector sum. */
  lemma ZipAddIsAdd(a: Vec, b: Vec)
    requires |a| == |b|
    ensures ZipAdd(a, b) == Add(a, b)
  {
  }

  /**
   * `translateBlueprint(vect, bp)` as written: its body calls `zipWith`,
   * which the module never imports, so every call throws a ReferenceError.
   */
  function TranslateBlueprintAsWritten(vect: Vec, bp: Blueprint): (r: Result<Blueprint>)
    ensures r.Failure?
  {
    Failure("ReferenceError: zipWith is not defined")
  }

  /** `rotateBlueprint(vect, bp)` as written: the same missing `zipWith`. */
  function RotateBlueprintAsWritten(vect: Vec, bp: Blueprint): (r: Result<Blueprint>)
    ensures r.Failure?
  {
    Failure("ReferenceError: zipWith is not defined")
  }

  /**
   * `translateBlueprint` as intended: `mergeDeepWith` meets the two
   * `position` arrays (arrays are not merged key by key) and combines them
   * with `zipWith(add)`; every other field is kept.
   */
  function TranslateBlueprint(vect: Vec, bp: Blueprint): (r: Blueprint)
    ensures |r.position| == Min(|bp.position|, |vect|)
    ensures forall i :: 0 <= i < |r.position| ==> r.position[i] == bp.position[i] + vect[i]
    ensures r.(position := bp.position) == bp
  {
    bp.(position := ZipAdd(bp.position, vect))
  }

  /** `rotateBlueprint` as intended: the same, on `rotation`. */
  function RotateBlueprint(vect: Vec, bp: Blueprint): (r: Blueprint)
    ensures |r.rotation| == Min(|bp.rotation|, |vect|)
    ensures forall i :: 0 <= i < |r.rotation| ==> r.rotation[i] == bp.rotation[i] + vect[i]
    ensures r.(rotation := bp.rotation) == bp
  {
    bp.(rotation := ZipAdd(bp.rotation, vect))
  }

  /** Moving by `a` and then by `b` is moving by `a + b`, and moving back returns. */
  lemma TranslateCompose(a: Vec, b: Vec, bp: Blueprint)
    requires |a| == |b| == |bp.position|
    ensures TranslateBlueprint(b, TranslateBlueprint(a, bp)) == TranslateBlueprint(Add(a, b), bp)
    ensures TranslateBlueprint(Scale(-1.0, a), TranslateBlueprint(a, bp)) == bp
  {
    var once := TranslateBlueprint(a, bp);
    assert TranslateBlueprint(b, once).position == TranslateBlueprint(Add(a, b), bp).position;
    var back := TranslateBlueprint(Scale(-1.0, a), once);
    assert back.position == bp.position by {
      forall i | 0 <= i < |bp.position|
        ensures back.position[i] == bp.position[i]
      {
      }
    }
  }

  /** The documented failure of the code as written, for any input. */
  lemma TransformsAsWrittenFail(vect: Vec, bp: Blueprint)
    ensures TranslateBlueprintAsWritten(vect, bp).Failure?
    ensures RotateBlueprintAsWritten(vect, bp).Failure?
    ensures TranslateBlueprint(vect, bp).itemID == bp.itemID
  {
  }

  // ---------------------------------------------------------------------
  // Removing superimposed blueprints
  // ---------------------------------------------------------------------

  /** Ramda `dropLast(n, s)`. */
  function DropLast<T>(n: nat, s: seq<T>): (r: seq<T>)
    ensures |r| == Max(0, |s| - n)
    ensures r == s[..|r|]
  {
    s[..Max(0, |s| - n)]
  }

  /**
   * Two blueprints are superimposed when their items agree up to the last
   * two characters (the colour variant) and their positions and rotations
   * are equal.
   */
  predicate Equivalent(a: Blueprint, b: Blueprint) {
    DropLast(2, a.itemID) == DropLast(2, b.itemID) && a.position == b.position && a.rotation == b.rotation
  }

  /** Being superimposed is an equivalence relation. */
  lemma EquivalentIsEquivalence(a: Blueprint, b: Blueprint, c: Blueprint)
    ensures Equivalent(a, a)
    ensures Equivalent(a, b) ==> Equivalent(b, a)
    ensures Equivalent(a, b) && Equivalent(b, c) ==> Equivalent(a, c)
  {
  }

  /** `eq(x, y)` holds for some member `y` of `r`. */
  predicate Represented<T>(eq: (T, T) -> bool, x: T, r: seq<T>) {
    exists k :: 0 <= k < |r| && eq(x, r[k])
  }

  /**
   * Ramda `uniqWith(eq)`: walk the list and keep an item unless `eq(item,
   * kept)` holds for an item kept before it.
   */
  function UniqWith<T(==)>(eq: (T, T) -> bool, items: seq<T>): (r: seq<T>)
    ensures |r| <= |items|
    ensures forall k :: 0 <= k < |r| ==> r[k] in items
    ensures forall i, j :: 0 <= i < j < |r| ==> !eq(r[j], r[i])
    ensures forall i :: 0 <= i < |items| ==> items[i] in r || Represented(eq, items[i], r)
  {
    if items == [] then []
    else
      var init := items[..|items| - 1];
      var prev := UniqWith(eq, init);
      var item := items[|items| - 1];
      assert items == init + [item];
      if Represented(eq, item, prev) then
        prev
      else
        var r := prev + [item];
        KeepsRepresentation(eq, init, prev, r);
        r
  }

  /** Whatever `prev` holds or represents, a list that extends it holds or represents too. */
  lemma KeepsRepresentation<T>(eq: (T, T) -> bool, init: seq<T>, prev: seq<T>, r: seq<T>)
    requires forall i :: 0 <= i < |init| ==> init[i] in prev || Represented(eq, init[i], prev)
    requires |prev| <= |r| && r[..|prev|] == prev
    ensures forall i :: 0 <= i < |init| ==> init[i] in r || Represented(eq, init[i], r)
  {
    forall i | 0 <= i < |init|
      ensures init[i] in r || Represented(eq, init[i], r)
    {
      if init[i] in prev {
        var k :| 0 <= k < |prev| && prev[k] == init[i];
        assert r[k] == prev[k];
      } else {
        var k :| 0 <= k < |prev| && eq(init[i], prev[k]);
        assert r[k] == prev[k];
      }
    }
  }

  /** No two members of `r` are superimposed. */
  predicate NoneSuperimposed(r: seq<Blueprint>) {
    forall i, j :: 0 <= i < j < |r| ==> !Equivalent(r[i], r[j])
  }

  /**
   * `removeSuperimposedBlueprints`: `uniqWith` over `Equivalent`.  As the
   * relation is an equivalence, what is left holds no superimposed pair and
   * every input blueprint has a superimposed representative in it.
   */
  function RemoveSuperimposedBlueprints(items: seq<Blueprint>): (r: seq<Blueprint>)
    ensures |r| <= |items|
    ensures forall k :: 0 <= k < |r| ==> r[k] in items
    ensures NoneSuperimposed(r)
    ensures forall i :: 0 <= i < |items| ==> exists k :: 0 <= k < |r| && Equivalent(items[i], r[k])
  {
    SuperimposedIsEquivalence();
    UniqWithOfEquivalence(Equivalent, items);
    UniqWith(Equivalent, items)
  }

  /** Being superimposed, as a relation value, is an equivalence. */
  lemma SuperimposedIsEquivalence()
    ensures IsEquivalence(Equivalent)
  {
    forall a, b, c
      ensures Equivalent(a, a) && (Equivalent(a, b) ==> Equivalent(b, a)) && (Equivalent(a, b) && Equivalent(b, c) ==> Equivalent(a, c))
    {
      EquivalentIsEquivalence(a, b, c);
    }
  }

  /**
   * For an equivalence, `uniqWith` leaves no equal pair in either order,
   * and every item has an equal among the kept ones.
   */
  lemma UniqWithOfEquivalence<T(!new)>(eq: (T, T) -> bool, items: seq<T>)
    requires IsEquivalence(eq)
    ensures var r := UniqWith(eq, items);
      (forall i, j :: 0 <= i < j < |r| ==> !eq(r[i], r[j])) &&
      (forall i :: 0 <= i < |items| ==> exists k :: 0 <= k < |r| && eq(items[i], r[k]))
  {
    var r := UniqWith(eq, items);
    forall i | 0 <= i < |items|
      ensures exists k :: 0 <= k < |r| && eq(items[i], r[k])
    {
      if items[i] in r {
        var k :| 0 <= k < |r| && r[k] == items[i];
        assert eq(items[i], r[k]);
      } else {
        assert Represented(eq, items[i], r);
      }
    }
    forall i, j | 0 <= i < j < |r|
      ensures !eq(r[i], r[j])
    {
      assert !eq(r[j], r[i]);
    }
  }

  /** `eq` is reflexive, symmetric and transitive. */
  ghost predicate IsEquivalence<T(!new)>(eq: (T, T) -> bool) {
    && (forall a :: eq(a, a))
    && (forall a, b :: eq(a, b) ==> eq(b, a))
    && (forall a, b, c :: eq(a, b) && eq(b, c) ==> eq(a, c))
  }

  /** The reference: the item at `i` has no equal before it. */
  ghost predicate FirstOfItsKind<T>(eq: (T, T) -> bool, items: seq<T>, i: int)
    requires 0 <= i < |items|
  {
    forall j :: 0 <= j < i ==> !eq(items[i], items[j])
  }

  /** The items that are the first of their kind, in their original order. */
  ghost function FirstOccurrences<T>(eq: (T, T) -> bool, items: seq<T>): seq<T> {
    if items == [] then []
    else
      FirstOccurrences(eq, items[..|items| - 1]) +
      (if FirstOfItsKind(eq, items, |items| - 1) then [items[|items| - 1]] else [])
  }

  /**
   * For an equivalence, comparing with the kept items is comparing with all
   * earlier items: `uniqWith` keeps exactly the first member of each class.
   */
  lemma {:induction false} UniqWithIsFirstOccurrences<T(!new)>(eq: (T, T) -> bool, items: seq<T>)
    requires IsEquivalence(eq)
    ensures UniqWith(eq, items) == FirstOccurrences(eq, items)
  {
    if items != [] {
      var last := |items| - 1;
      var init := items[..last];
      var item := items[last];
      var prev := UniqWith(eq, init);
      UniqWithIsFirstOccurrences(eq, init);
      if Represented(eq, item, prev) {
        var k :| 0 <= k < |prev| && eq(item, prev[k]);
        var j :| 0 <= j < |init| && init[j] == prev[k];
        assert items[j] == init[j];
        assert !FirstOfItsKind(eq, items, last);
      } else {
        forall j | 0 <= j < last
          ensures !eq(items[last], items[j])
        {
          assert items[j] == init[j];
          if init[j] !in prev {
            var k :| 0 <= k < |prev| && eq(init[j], prev[k]);
            assert !eq(item, prev[k]);
          }
        }
        assert FirstOfItsKind(eq, items, last);
      }
    }
  }

  /** A list without equal pairs is left as it is. */
  lemma {:induction false} UniqWithOfDistinct<T>(eq: (T, T) -> bool, items: seq<T>)
    requires forall i, j :: 0 <= i < j < |items| ==> !eq(items[j], items[i])
    ensures UniqWith(eq, items) == items
  {
    if items != [] {
      var init := items[..|items| - 1];
      var item := items[|items| - 1];
      assert UniqWith(eq, init) == init by {
        UniqWithOfDistinct(eq, init);
      }
      assert !Represented(eq, item, init) by {
        forall k | 0 <= k < |init|
          ensures !eq(item, init[k])
        {
          assert init[k] == items[k];
        }
      }
      assert items == init + [item];
    }
  }

  /** `uniqWith` twice is `uniqWith` once. */
  lemma UniqWithIdempotent<T>(eq: (T, T) -> bool, items: seq<T>)
    ensures UniqWith(eq, UniqWith(eq, items)) == UniqWith(eq, items)
  {
    UniqWithOfDistinct(eq, UniqWith(eq, items));
  }

  /** Being superimposed is an equivalence, so the reference applies. */
  lemma RemoveSuperimposedIsFirstOccurrences(items: seq<Blueprint>)
    ensures RemoveSuperimposedBlueprints(items) == FirstOccurrences(Equivalent, items)
    ensures RemoveSuperimposedBlueprints(RemoveSuperimposedBlueprints(items)) == RemoveSuperimposedBlueprints(items)
  {
    SuperimposedIsEquivalence();
    UniqWithIsFirstOccurrences(Equivalent, items);
    UniqWithIdempotent(Equivalent, items);
  }

  // ---------------------------------------------------------------------
  // Shape before saving
  // ---------------------------------------------------------------------

  /** The key names of an `{x, y, z}` object. */
  const Axes: seq<string> := ["x", "y", "z"]

  /** `toObjVect`: Ramda `zipObj(['x', 'y', 'z'])`, which stops at the shorter list. */
  function ToObjVect(values: seq<string>): (r: map<string, string>)
    ensures forall i :: 0 <= i < 3 ==> (Axes[i] in r <==> i < |values|)
    ensures forall i :: 0 <= i < Min(3, |values|) ==> r[Axes[i]] == values[i]
    ensures forall key :: key in r ==> key in Axes
  {
    map i | 0 <= i < Min(3, |values|) :: Axes[i] := values[i]
  }

  /** `360 / tau`: the degrees in one radian. */
  const TauR: real := 360.0 / Tau

  /** A rotation component in degrees, `x * tauR`. */
  function Degrees(x: real): (r: real)
    ensures r == R2D(x)
  {
    x * TauR
  }

  /**
   * `validateTransformBlueprint`: drop `uuid`, add `purpose: 'Functional'`
   * and `@_xsi:type: 'TrackBlueprintFlag'` where the blueprint has none,
   * print the position with `fix` and the rotation in degrees with `fix`.
   */
  function ValidateTransformBlueprint(fix: real -> string, bp: Blueprint): (r: SavedBlueprint)
    ensures r.itemID == bp.itemID && r.spawnpoint == bp.spawnpoint
    ensures r.purpose == (if bp.purpose.Some? then bp.purpose.value else "Functional")
    ensures r.xsiType == (if bp.xsiType.Some? then bp.xsiType.value else "TrackBlueprintFlag")
    ensures forall i :: 0 <= i < 3 ==> (Axes[i] in r.position <==> i < |bp.position|)
    ensures forall i :: 0 <= i < 3 ==> (Axes[i] in r.rotation <==> i < |bp.rotation|)
    ensures forall i :: 0 <= i < Min(3, |bp.position|) ==> Axes[i] in r.position && r.position[Axes[i]] == fix(bp.position[i])
    ensures forall i :: 0 <= i < Min(3, |bp.rotation|) ==> Axes[i] in r.rotation && r.rotation[Axes[i]] == fix(Degrees(bp.rotation[i]))
    ensures forall key :: key in r.position ==> key in Axes
  {
    SavedBlueprint(
      bp.itemID,
      ToObjVect(seq(|bp.position|, i requires 0 <= i < |bp.position| => fix(bp.position[i]))),
      ToObjVect(seq(|bp.rotation|, i requires 0 <= i < |bp.rotation| => fix(Degrees(bp.rotation[i])))),
      bp.spawnpoint,
      bp.xsiType.GetOr("TrackBlueprintFlag"),
      bp.purpose.GetOr("Functional"))
  }

  /**
   * A blueprint without a type tag or a purpose, such as every one
   * `makeBlueprint` builds, is saved as a functional flag whose position
   * has exactly the keys `x`, `y` and `z`.
   */
  lemma ValidatedFlag(fix: real -> string, bp: Blueprint)
    requires bp.xsiType.None? && bp.purpose.None? && |bp.position| == 3
    ensures var s := ValidateTransformBlueprint(fix, bp);
      s.purpose == "Functional" && s.xsiType == "TrackBlueprintFlag" &&
      s.position.Keys == {"x", "y", "z"} && s.position["x"] == fix(bp.position[0])
  {
    var s := ValidateTransformBlueprint(fix, bp);
    AxisKeys(s.position);
  }

  /** A map keyed by all three axes and nothing else has exactly the keys `x`, `y` and `z`. */
  lemma AxisKeys(m: map<string, string>)
    requires Axes[0] in m && Axes[1] in m && Axes[2] in m
    requires forall key :: key in m ==> key in Axes
    ensures m.Keys == {"x", "y", "z"}
  {
  }

  /** A spawn point keeps its own type tag and stands 30 units down the z axis by default. */
  lemma ValidatedSpawnPoint(fix: real -> string, uuid: string, n: int)
    ensures var s := ValidateTransformBlueprint(fix, MakeSpawnPoint(uuid, None, None, Some(n)));
      s.xsiType == "TrackBlueprintSpawnpoint" && s.purpose == "Functional" &&
      "z" in s.position && s.position["z"] == fix(-30.0)
  {
    var b := MakeSpawnPoint(uuid, None, None, Some(n));
    assert |b.position| == 3 && b.position[2] == -30.0;
    var s := ValidateTransformBlueprint(fix, b);
    assert Axes[2] in s.position && s.position[Axes[2]] == fix(b.position[2]);
  }
}
