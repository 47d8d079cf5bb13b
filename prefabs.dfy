/**
 * Prefab builders of `src/track/prefabs.js`: splitting a length into whole
 * units greedily, and laying a straight line of half-metre cylinders from
 * one point to another with five- and one-metre pieces.
 */
module Prefabs {
  import opened Wrappers
  import opened JsNum
  import opened Seqs
  import opened Vector
  import opened Blueprint

  // ---------------------------------------------------------------------
  // makeArrayFromUnits
  // ---------------------------------------------------------------------

  /** One group of the split: its items, their sum, and whether it is a single part-unit piece. */
  datatype Group = Group(sum: real, items: seq<real>, fractional: bool)

  /** The group built around `items`: `fractional` when the first item lies strictly between 0 and 1. */
  function MakeGroup(items: seq<real>): (g: Group)
    ensures g.items == items && g.sum == Sum(items)
    ensures g.fractional <==> |items| > 0 && 0.0 < items[0] < 1.0
  {
    Group(Sum(items), items, |items| > 0 && items[0] < 1.0 && items[0] > 0.0)
  }

  /** The sections taken out of `remaining` and what is left, or the error `repeat` throws. */
  type Split = Result<(seq<seq<real>>, real)>

  /** A section put in front of a split. */
  function Prepend(section: seq<real>, r: Split): (p: Split)
    ensures p.Success? <==> r.Success?
    ensures r.Success? ==> p.value == ([section] + r.value.0, r.value.1)
  {
    match r
    case Failure(e) => Failure(e)
    case Success((sections, rest)) => Success(([section] + sections, rest))
  }

  /** Sections put in front of a split. */
  function Extend(prefix: seq<seq<real>>, r: Split): Split {
    match r
    case Failure(e) => Failure(e)
    case Success((sections, rest)) => Success((prefix + sections, rest))
  }

  /** `flr(remaining / unit)`: how many whole units fit. */
  function Count(remaining: real, unit: real): int
    requires unit != 0.0
  {
    (remaining / unit).Floor
  }

  /** `remaining - unit * count`: what is left after taking them. */
  function Rest(remaining: real, unit: real): real
    requires unit != 0.0
  {
    remaining - unit * Count(remaining, unit) as real
  }

  /**
   * The greedy split, unit by unit: take `floor(remaining / unit)` copies of
   * the unit and go on with what is left.  Ramda `repeat` throws a
   * RangeError on a negative count, and on the infinite or NaN count a zero
   * unit gives.
   */
  function Sections(remaining: real, units: seq<real>): (s: Split)
    ensures s.Success? ==> |s.value.0| == |units|
    decreases |units|
  {
    if units == [] then Success(([], remaining))
    else
      var unit := units[0];
      if unit == 0.0 then
        Failure(if remaining > 0.0 then "RangeError: Invalid array length" else "RangeError: n must be a non-negative number")
      else
        var count := Count(remaining, unit);
        if count < 0 then Failure("RangeError: n must be a non-negative number")
        else Prepend(Repeat(unit, count), Sections(Rest(remaining, unit), units[1..]))
  }

  /** The groups of the whole split: the sections, then one last group holding the remainder, or no items when it is zero. */
  function Layout(target: real, units: seq<real>): (r: Result<seq<Group>>)
    ensures r.Failure? <==> Sections(target, units).Failure?
    ensures r.Success? ==> var (sections, rest) := Sections(target, units).value;
      && |r.value| == |units| + 1
      && (forall k :: 0 <= k < |units| ==> r.value[k] == MakeGroup(sections[k]))
      && r.value[|units|] == MakeGroup(if rest != 0.0 then [rest] else [])
  {
    match Sections(target, units)
    case Failure(e) => Failure(e)
    case Success((sections, rest)) =>
      var all := sections + [if rest != 0.0 then [rest] else []];
      Success(seq(|all|, k requires 0 <= k < |all| => MakeGroup(all[k])))
  }

  /** One step of the split, when the unit is not zero and the count not negative. */
  lemma SectionsStep(remaining: real, units: seq<real>)
    requires units != [] && units[0] != 0.0 && Count(remaining, units[0]) >= 0
    ensures Sections(remaining, units) == Prepend(Repeat(units[0], Count(remaining, units[0])), Sections(Rest(remaining, units[0]), units[1..]))
  {
  }

  lemma ExtendPrepend(prefix: seq<seq<real>>, section: seq<real>, r: Split)
    ensures Extend(prefix, Prepend(section, r)) == Extend(prefix + [section], r)
  {
    if r.Success? {
      var (sections, rest) := r.value;
      assert prefix + ([section] + sections) == (prefix + [section]) + sections;
    }
  }

  /**
   * `makeArrayFromUnits(target, units)`.  `sortBy(lt, units)` sorts by the
   * partially applied functions `lt(u)`, which all compare equal, so it
   * keeps the order of `units`.  The returned groups are the greedy
   * layout.
   */
  method MakeArrayFromUnits(target: real, units: seq<real>) returns (r: Result<seq<Group>>)
    ensures r == Layout(target, units)
  {
    var remaining := target;
    var sections: seq<seq<real>> := [];
    var i := 0;
    assert units[i..] == units;
    ExtendEmpty(Sections(target, units));
    while i < |units|
      invariant 0 <= i <= |units|
      invariant Sections(target, units) == Extend(sections, Sections(remaining, units[i..]))
    {
      var unit := units[i];
      assert units[i..][1..] == units[i + 1..];
      if unit == 0.0 {
        return Failure(if remaining > 0.0 then "RangeError: Invalid array length" else "RangeError: n must be a non-negative number");
      }
      var count := Count(remaining, unit);
      if count < 0 {
        return Failure("RangeError: n must be a non-negative number");
      }
      var out := Repeat(unit, count);
      SectionsStep(remaining, units[i..]);
      ExtendPrepend(sections, out, Sections(Rest(remaining, unit), units[i + 1..]));
      sections := sections + [out];
      assert remaining - unit * count as real == Rest(remaining, unit);
      remaining := remaining - unit * count as real;
      i := i + 1;
    }
    assert units[i..] == [];
    assert sections + [] == sections;
    var all := sections + [if remaining != 0.0 then [remaining] else []];
    r := Success(seq(|all|, k requires 0 <= k < |all| => MakeGroup(all[k])));
  }

  lemma ExtendEmpty(r: Split)
    ensures Extend([], r) == r
  {
    if r.Success? {
      assert [] + r.value.0 == r.value.0;
    }
  }

  /** The sum of the sums of a list of sections. */
  function TotalOf(sections: seq<seq<real>>): real {
    if sections == [] then 0.0 else Sum(sections[0]) + TotalOf(sections[1..])
  }

  /** The sum of the `sum` fields of a list of groups. */
  function GroupTotal(groups: seq<Group>): real {
    if groups == [] then 0.0 else groups[0].sum + GroupTotal(groups[1..])
  }

  lemma {:induction false} TotalOfAppend(sections: seq<seq<real>>, last: seq<real>)
    ensures TotalOf(sections + [last]) == TotalOf(sections) + Sum(last)
  {
    if sections != [] {
      assert (sections + [last])[1..] == sections[1..] + [last];
      TotalOfAppend(sections[1..], last);
    }
  }

  lemma {:induction false} GroupTotalOfSections(all: seq<seq<real>>, groups: seq<Group>)
    requires |groups| == |all|
    requires forall k :: 0 <= k < |all| ==> groups[k] == MakeGroup(all[k])
    ensures GroupTotal(groups) == TotalOf(all)
  {
    if all != [] {
      GroupTotalOfSections(all[1..], groups[1..]);
    }
  }

  /** Taking sections out of `remaining` loses nothing: sections and rest add up to it. */
  lemma {:induction false} SectionsTotal(remaining: real, units: seq<real>)
    requires Sections(remaining, units).Success?
    ensures TotalOf(Sections(remaining, units).value.0) + Sections(remaining, units).value.1 == remaining
    decreases |units|
  {
    if units != [] {
      var unit := units[0];
      var count := Count(remaining, unit);
      var next := Rest(remaining, unit);
      var tail := Sections(next, units[1..]);
      assert Sections(remaining, units) == Prepend(Repeat(unit, count), tail) by {
        SectionsStep(remaining, units);
      }
      assert tail.Success? && TotalOf(tail.value.0) + tail.value.1 == next by {
        SectionsTotal(next, units[1..]);
      }
      var laid := Sum(Repeat(unit, count));
      assert next == remaining - laid by {
        SumRepeat(unit, count);
      }
      PrependTotal(Repeat(unit, count), tail, remaining, laid);
    }
  }

  /** Prepending a section whose sum was taken off the remainder keeps the total. */
  lemma PrependTotal(first: seq<real>, tail: Split, remaining: real, laid: real)
    requires tail.Success? && Sum(first) == laid
    requires TotalOf(tail.value.0) + tail.value.1 == remaining - laid
    ensures Prepend(first, tail).Success?
    ensures TotalOf(Prepend(first, tail).value.0) + Prepend(first, tail).value.1 == remaining
  {
    var all := [first] + tail.value.0;
    assert all[1..] == tail.value.0;
  }

  /** The groups of a successful layout add up to the target, the remainder included. */
  lemma LayoutTotal(target: real, units: seq<real>)
    requires Layout(target, units).Success?
    ensures GroupTotal(Layout(target, units).value) == target
  {
    SectionsTotal(target, units);
    var (sections, rest) := Sections(target, units).value;
    var last := if rest != 0.0 then [rest] else [];
    var all := sections + [last];
    GroupTotalOfSections(all, Layout(target, units).value);
    TotalOfAppend(sections, last);
  }

  /** One greedy step on a non-negative amount: the count is natural and what is left is below the unit. */
  lemma GreedyStep(remaining: real, unit: real)
    requires remaining >= 0.0 && unit > 0.0
    ensures Count(remaining, unit) >= 0
    ensures 0.0 <= Rest(remaining, unit) < unit
  {
    QuotientSign(remaining, unit);
    assert Trunc(remaining / unit) == Count(remaining, unit);
    TruncBounds(remaining, unit, Count(remaining, unit));
  }

  /** A negative amount makes the count negative. */
  lemma NegativeStep(remaining: real, unit: real)
    requires remaining < 0.0 && unit > 0.0
    ensures Count(remaining, unit) < 0
  {
    QuotientSign(remaining, unit);
  }

  predicate AllPositive(units: seq<real>) {
    forall i :: 0 <= i < |units| ==> units[i] > 0.0
  }

  /**
   * With positive units and a non-negative amount the split succeeds: one
   * section per unit made of copies of that unit, and a remainder that is
   * not negative and below the last unit.
   */
  lemma {:induction false} SectionsShape(remaining: real, units: seq<real>)
    requires AllPositive(units) && remaining >= 0.0
    ensures Sections(remaining, units).Success?
    ensures var (sections, rest) := Sections(remaining, units).value;
      && |sections| == |units|
      && (forall i, j :: 0 <= i < |units| && 0 <= j < |sections[i]| ==> sections[i][j] == units[i])
      && 0.0 <= rest
      && (units != [] ==> rest < units[|units| - 1])
    decreases |units|
  {
    if units != [] {
      var unit := units[0];
      GreedyStep(remaining, unit);
      var count := Count(remaining, unit);
      var next := Rest(remaining, unit);
      SectionsStep(remaining, units);
      assert AllPositive(units[1..]) by {
        forall i | 0 <= i < |units[1..]|
          ensures units[1..][i] > 0.0
        {
          assert units[1..][i] == units[i + 1];
        }
      }
      SectionsShape(next, units[1..]);
      var (tail, rest) := Sections(next, units[1..]).value;
      var sections := [Repeat(unit, count)] + tail;
      forall i, j | 0 <= i < |units| && 0 <= j < |sections[i]|
        ensures sections[i][j] == units[i]
      {
        if i > 0 {
          assert sections[i] == tail[i - 1];
          assert units[1..][i - 1] == units[i];
        }
      }
      if |units| > 1 {
        assert units[1..][|units[1..]| - 1] == units[|units| - 1];
      }
    }
  }

  /**
   * With positive units the layout fails exactly when the target is
   * negative (and there is a unit to divide it by); otherwise there is one
   * group per unit and one for the remainder.
   */
  lemma LayoutFailsOnlyBelowZero(target: real, units: seq<real>)
    requires AllPositive(units)
    ensures Layout(target, units).Failure? <==> target < 0.0 && |units| > 0
    ensures target >= 0.0 ==> |Layout(target, units).value| == |units| + 1
  {
    if target >= 0.0 {
      SectionsShape(target, units);
    } else if units != [] {
      NegativeStep(target, units[0]);
    }
  }

  /** The number of five-metre pieces in `len` metres. */
  function Fives(len: real): int {
    Count(len, 5.0)
  }

  /** The number of one-metre pieces after the five-metre ones. */
  function Ones(len: real): int {
    Count(Rest(len, 5.0), 1.0)
  }

  /** What is left below one metre. */
  function Fraction(len: real): real {
    Rest(Rest(len, 5.0), 1.0)
  }

  /** The split of a length by `[5, 1]`: the fives, the ones, and the fraction left. */
  lemma FiveOneSections(len: real)
    requires len >= 0.0
    ensures Fives(len) >= 0 && Ones(len) >= 0
    ensures Sections(len, [5.0, 1.0]) == Success(([Repeat(5.0, Fives(len)), Repeat(1.0, Ones(len))], Fraction(len)))
  {
    GreedyStep(len, 5.0);
    var afterFives := Rest(len, 5.0);
    GreedyStep(afterFives, 1.0);
    SectionsStep(len, [5.0, 1.0]);
    assert [5.0, 1.0][1..] == [1.0];
    SectionsStep(afterFives, [1.0]);
    assert [1.0][1..] == [];
    var inner := Sections(afterFives, [1.0]);
    assert Sections(Fraction(len), []) == Success(([], Fraction(len)));
    assert inner.Success? && inner.value == ([Repeat(1.0, Ones(len))] + [], Fraction(len));
    assert [Repeat(1.0, Ones(len))] + [] == [Repeat(1.0, Ones(len))];
    assert [Repeat(5.0, Fives(len))] + [Repeat(1.0, Ones(len))] == [Repeat(5.0, Fives(len)), Repeat(1.0, Ones(len))];
  }

  /** The counts of a `[5, 1]` split are not negative, fewer than five ones, and a fraction below one. */
  lemma FiveOneBounds(len: real)
    requires len >= 0.0
    ensures Fives(len) >= 0 && Ones(len) >= 0 && 0.0 <= Fraction(len) < 1.0
    ensures Ones(len) < 5
  {
    GreedyStep(len, 5.0);
    var afterFives := Rest(len, 5.0);
    GreedyStep(afterFives, 1.0);
    assert afterFives / 1.0 == afterFives;
  }

  /** `makeArrayFromUnits(len, [5, 1])` on a length: fives, ones, then the fraction if any. */
  lemma FiveOneLayout(len: real)
    requires len >= 0.0
    ensures Fives(len) >= 0 && Ones(len) >= 0 && 0.0 <= Fraction(len) < 1.0
    ensures Ones(len) < 5
    ensures Layout(len, [5.0, 1.0]) == Success([
      MakeGroup(Repeat(5.0, Fives(len))),
      MakeGroup(Repeat(1.0, Ones(len))),
      MakeGroup(if Fraction(len) != 0.0 then [Fraction(len)] else [])])
  {
    FiveOneBounds(len);
    FiveOneSections(len);
    var last := if Fraction(len) != 0.0 then [Fraction(len)] else [];
    var all := [Repeat(5.0, Fives(len)), Repeat(1.0, Ones(len)), last];
    assert [Repeat(5.0, Fives(len)), Repeat(1.0, Ones(len))] + [last] == all;
    var groups := seq(|all|, k requires 0 <= k < |all| => MakeGroup(all[k]));
    assert Layout(len, [5.0, 1.0]) == Success(groups);
    assert groups == [MakeGroup(all[0]), MakeGroup(all[1]), MakeGroup(all[2])];
  }

  /** A length of twelve and a half metres: two fives, two ones and half a metre. */
  lemma TwelveAndAHalf()
    ensures Layout(12.5, [5.0, 1.0]) == Success([
      Group(10.0, [5.0, 5.0], false), Group(2.0, [1.0, 1.0], false), Group(0.5, [0.5], true)])
  {
    FiveOneLayout(12.5);
    assert Fives(12.5) == 2;
    assert Ones(12.5) == 2;
    assert Repeat(5.0, 2) == [5.0, 5.0];
    assert Repeat(1.0, 2) == [1.0, 1.0];
    assert Sum([5.0, 5.0]) == 10.0 by {
      assert [5.0, 5.0][..1] == [5.0];
    }
    assert Sum([1.0, 1.0]) == 2.0 by {
      assert [1.0, 1.0][..1] == [1.0];
    }
  }

  // ---------------------------------------------------------------------
  // makeCylinder0Line
  // ---------------------------------------------------------------------

  /** The item name of a half-metre cylinder `length` metres long in colour `color`. */
  function CylinderId(length: string, color: string): string {
    "DrawingBoardCylinder0.5mx" + length + "m0" + color
  }

  /** How many pieces a line of `len` metres takes: the whole pieces and one for the fraction. */
  function PieceCount(len: real): int {
    Fives(len) + Ones(len) + (if Fraction(len) != 0.0 then 1 else 0)
  }

  /** The length of piece `k`: five metres first, then one metre. */
  function PieceLength(len: real, k: int): real {
    if k < Fives(len) then 5.0 else 1.0
  }

  /**
   * How far along the line piece `k` is placed: the whole pieces one after
   * the other from the start; the fractional piece is placed back from the
   * end of the whole pieces by the fraction.
   */
  function PieceStart(len: real, k: int): real {
    if k < Fives(len) then 5.0 * k as real
    else if k < Fives(len) + Ones(len) then 5.0 * Fives(len) as real + (k - Fives(len)) as real
    else 5.0 * Fives(len) as real + Ones(len) as real - Fraction(len)
  }

  /** The blueprint of piece `k` on the line from `p1` along `u`. */
  function Piece(color: string, len: real, k: nat, p1: Vec, u: Vec, ang: Vec, uuid: nat -> string): Blueprint
    requires |p1| == |u|
  {
    MakeBlueprint(uuid(k), CylinderId(IntText(PieceLength(len, k).Floor), color), Some(Along(p1, PieceStart(len, k), u)), Some(ang))
  }

  /** The first `n` pieces of the line. */
  function Line(color: string, len: real, p1: Vec, u: Vec, ang: Vec, uuid: nat -> string, n: nat): (r: seq<Blueprint>)
    requires |p1| == |u|
    ensures |r| == n
  {
    seq(n, k requires 0 <= k < n => Piece(color, len, k, p1, u, ang, uuid))
  }

  /** The number of pieces emitted after the first `gi` groups. */
  function Emitted(len: real, gi: int): int {
    if gi <= 0 then 0
    else if gi == 1 then Fives(len)
    else if gi == 2 then Fives(len) + Ones(len)
    else PieceCount(len)
  }

  /** How far the walk has gone after the first `gi` groups. */
  function Walked(len: real, gi: int): real {
    if gi <= 0 then 0.0
    else if gi == 1 then 5.0 * Fives(len) as real
    else 5.0 * Fives(len) as real + Ones(len) as real
  }

  /** The unit of the whole pieces of group `gi`. */
  function GroupUnit(gi: int): real {
    if gi == 0 then 5.0 else 1.0
  }

  /** Where the `j`-th whole piece of group `gi` starts. */
  function WholeStart(len: real, gi: int, j: int): real {
    Walked(len, gi) + j as real * GroupUnit(gi)
  }

  lemma WholeStartNext(len: real, gi: int, j: int)
    ensures WholeStart(len, gi, 0) == Walked(len, gi)
    ensures WholeStart(len, gi, j + 1) == WholeStart(len, gi, j) + GroupUnit(gi)
  {
  }

  /** The `j`-th whole piece of group `gi` is the piece the line has at that place. */
  lemma WholePiece(len: real, gi: int, j: int)
    requires len >= 0.0 && 0 <= gi < 2 && 0 <= j < (if gi == 0 then Fives(len) else Ones(len))
    ensures var k := Emitted(len, gi) + j;
      && PieceStart(len, k) == WholeStart(len, gi, j)
      && PieceLength(len, k) == GroupUnit(gi)
  {
  }

  /** The fractional piece is the last one, set back from the whole pieces by the fraction. */
  lemma FractionalPiece(len: real)
    requires len >= 0.0 && Fraction(len) != 0.0
    ensures PieceCount(len) == Emitted(len, 2) + 1
    ensures PieceStart(len, Emitted(len, 2)) == Walked(len, 2) - Fraction(len)
    ensures IntText(PieceLength(len, Emitted(len, 2)).Floor) == "1"
  {
    FiveOneLayout(len);
    assert IntText(1) == "1";
  }

  /** Placing one more piece extends the line by that piece. */
  lemma LineStep(color: string, len: real, p1: Vec, u: Vec, ang: Vec, uuid: nat -> string, n: nat, b: Blueprint)
    requires |p1| == |u|
    requires b == Piece(color, len, n, p1, u, ang, uuid)
    ensures Line(color, len, p1, u, ang, uuid, n) + [b] == Line(color, len, p1, u, ang, uuid, n + 1)
  {
    var line := Line(color, len, p1, u, ang, uuid, n + 1);
    assert forall k :: 0 <= k < n + 1 ==> (Line(color, len, p1, u, ang, uuid, n) + [b])[k] == line[k];
  }

  /** The groups `makeArrayFromUnits(len, [5, 1])` returns. */
  function FiveOneGroups(len: real): seq<Group> {
    [MakeGroup(Repeat(5.0, Max(0, Fives(len)))),
     MakeGroup(Repeat(1.0, Max(0, Ones(len)))),
     MakeGroup(if Fraction(len) != 0.0 then [Fraction(len)] else [])]
  }

  /** What the line builder reads from each group. */
  lemma GroupFacts(len: real, gi: int)
    requires len >= 0.0 && 0 <= gi < 3
    ensures var g := FiveOneGroups(len)[gi];
      && (g.fractional <==> gi == 2 && Fraction(len) != 0.0)
      && (g.fractional ==> g.items == [Fraction(len)])
      && (!g.fractional ==> |g.items| == Emitted(len, gi + 1) - Emitted(len, gi))
      && (!g.fractional ==> forall j :: 0 <= j < |g.items| ==> g.items[j] == GroupUnit(gi))
      && (!g.fractional ==> Walked(len, gi + 1) == WholeStart(len, gi, |g.items|))
      && (!g.fractional ==> WholeGroup(len, gi, g.items))
  {
    FiveOneBounds(len);
  }

  /**
   * What the line builder needs of a group of whole pieces: every piece is
   * one unit long, there are as many as the line has between the groups
   * before and after it, and walking them reaches where the next group starts.
   */
  ghost predicate WholeGroup(len: real, gi: int, items: seq<real>) {
    && 0 <= gi < 3
    && (|items| > 0 ==> gi < 2)
    && Emitted(len, gi) + |items| == Emitted(len, gi + 1)
    && (forall j :: 0 <= j < |items| ==> items[j] == GroupUnit(gi))
    && Walked(len, gi + 1) == WholeStart(len, gi, |items|)
  }

  /** Lays the whole pieces of group `gi`, walking on from `pos`. */
  method PlaceWholePieces(color: string, len: real, p1: Vec, u: Vec, ang: Vec, uuid: nat -> string, gi: int, items: seq<real>, r0: seq<Blueprint>, pos: Vec)
    returns (r: seq<Blueprint>, curPos: Vec)
    requires len >= 0.0 && |p1| == |u| == 3 && WholeGroup(len, gi, items)
    requires r0 == Line(color, len, p1, u, ang, uuid, Emitted(len, gi))
    requires pos == Along(p1, Walked(len, gi), u)
    ensures r == Line(color, len, p1, u, ang, uuid, Emitted(len, gi + 1))
    ensures |curPos| == 3 && curPos == Along(p1, Walked(len, gi + 1), u)
  {
    WholeStartNext(len, gi, 0);
    r := r0;
    curPos := pos;
    var j := 0;
    while j < |items|
      invariant 0 <= j <= |items|
      invariant r == Line(color, len, p1, u, ang, uuid, Emitted(len, gi) + j)
      invariant |curPos| == 3 && curPos == Along(p1, WholeStart(len, gi, j), u)
    {
      var item := items[j];
      WholeStep(color, len, p1, u, ang, uuid, gi, items, j, r, curPos);
      r := r + [MakeBlueprint(uuid(|r|), CylinderId(IntText(item.Floor), color), Some(curPos), Some(ang))];
      curPos := Add(curPos, Scale(item, u));
      j := j + 1;
    }
  }

  /** One whole piece laid: the line grows by the next piece and the walk moves on by its length. */
  lemma WholeStep(color: string, len: real, p1: Vec, u: Vec, ang: Vec, uuid: nat -> string, gi: int, items: seq<real>, j: int, r: seq<Blueprint>, curPos: Vec)
    requires len >= 0.0 && |p1| == |u| == 3 && WholeGroup(len, gi, items) && 0 <= j < |items|
    requires r == Line(color, len, p1, u, ang, uuid, Emitted(len, gi) + j)
    requires curPos == Along(p1, WholeStart(len, gi, j), u)
    ensures r + [MakeBlueprint(uuid(|r|), CylinderId(IntText(items[j].Floor), color), Some(curPos), Some(ang))]
      == Line(color, len, p1, u, ang, uuid, Emitted(len, gi) + j + 1)
    ensures Add(curPos, Scale(items[j], u)) == Along(p1, WholeStart(len, gi, j + 1), u)
  {
    var item := items[j];
    assert item == GroupUnit(gi);
    assert gi < 2;
    WholePiece(len, gi, j);
    var n := Emitted(len, gi) + j;
    assert |r| == n;
    var b := MakeBlueprint(uuid(n), CylinderId(IntText(item.Floor), color), Some(curPos), Some(ang));
    assert b == Piece(color, len, n, p1, u, ang, uuid);
    LineStep(color, len, p1, u, ang, uuid, n, b);
    AlongAlong(p1, WholeStart(len, gi, j), item, u);
    WholeStartNext(len, gi, j);
  }

  /** The fractional piece laid: the line is complete and the walk does not move. */
  lemma FractionalStep(color: string, len: real, p1: Vec, u: Vec, ang: Vec, uuid: nat -> string, r: seq<Blueprint>, curPos: Vec)
    requires len >= 0.0 && |p1| == |u| == 3 && FiveOneGroups(len)[2].fractional
    requires r == Line(color, len, p1, u, ang, uuid, Emitted(len, 2))
    requires curPos == Along(p1, Walked(len, 2), u)
    ensures r + [MakeBlueprint(uuid(|r|), CylinderId("1", color), Some(Sub(curPos, Scale(FiveOneGroups(len)[2].items[0], u))), Some(ang))]
      == Line(color, len, p1, u, ang, uuid, Emitted(len, 3))
    ensures Walked(len, 3) == Walked(len, 2)
  {
    GroupFacts(len, 2);
    FractionalPiece(len);
    AlongBack(p1, Walked(len, 2), Fraction(len), u);
    var b := MakeBlueprint(uuid(|r|), CylinderId("1", color), Some(Sub(curPos, Scale(Fraction(len), u))), Some(ang));
    LineStep(color, len, p1, u, ang, uuid, |r|, b);
  }

  /**
   * `makeCylinder0Line(color, p1, p2)` as intended: walk from `p1` towards
   * `p2` laying five-metre, then one-metre cylinders end to end, all turned
   * by `angles` of the direction, and cover a fraction left over with one
   * more one-metre cylinder set back by the fraction.  The uuid of the k-th
   * blueprint made is `uuid(k)`.
   *
   * When the two points coincide the length is zero, every group is empty
   * and no blueprint is made; the NaN direction the source computes then
   * is never used, so it is not computed here.
   */
  method MakeCylinder0Line(color: string, p1: Vec, p2: Vec, trig: Trig, uuid: nat -> string) returns (r: seq<Blueprint>)
    requires Sound(trig) && |p1| == 3 && |p2| == 3
    ensures Mag(Sub(p2, p1), trig) == 0.0 ==> r == []
    ensures var vect := Sub(p2, p1); var len := Mag(vect, trig);
      len != 0.0 ==>
        var u := Unit(vect, trig);
        |r| == PieceCount(len) &&
        forall k :: 0 <= k < |r| ==> r[k] == Piece(color, len, k, p1, u, Angles(u, trig), uuid)
  {
    var vect := Sub(p2, p1);
    var len := Mag(vect, trig);
    if len == 0.0 {
      return [];
    }
    var u := Unit(vect, trig);
    var ang := Angles(u, trig);
    var layout := MakeArrayFromUnits(len, [5.0, 1.0]);
    FiveOneLayout(len);
    var groups := layout.value;
    assert groups == FiveOneGroups(len);
    var curPos := p1;
    AlongZero(p1, u);
    r := [];
    var gi := 0;
    while gi < |groups|
      invariant 0 <= gi <= |groups| == 3 && groups == FiveOneGroups(len)
      invariant r == Line(color, len, p1, u, ang, uuid, Emitted(len, gi))
      invariant |curPos| == 3 && curPos == Along(p1, Walked(len, gi), u)
    {
      var group := groups[gi];
      GroupFacts(len, gi);
      if group.fractional {
        FractionalStep(color, len, p1, u, ang, uuid, r, curPos);
        r := r + [MakeBlueprint(uuid(|r|), CylinderId("1", color), Some(Sub(curPos, Scale(group.items[0], u))), Some(ang))];
      } else {
        r, curPos := PlaceWholePieces(color, len, p1, u, ang, uuid, gi, group.items, r, curPos);
      }
      gi := gi + 1;
    }
  }

  /** The whole pieces lie end to end, the first at the start of the line. */
  lemma PiecesAbut(len: real, k: int)
    requires len >= 0.0 && 0 <= k && k + 1 < Fives(len) + Ones(len)
    ensures PieceStart(len, 0) == 0.0 || Fives(len) == 0
    ensures PieceStart(len, k + 1) == PieceStart(len, k) + PieceLength(len, k)
  {
  }

  /**
   * The whole pieces reach to within a metre of the end of the line, the
   * fractional piece exists exactly when they fall short of it, and a line
   * of positive length gets at least one piece.
   */
  lemma PiecesCoverLine(len: real)
    requires len >= 0.0
    ensures var whole := 5.0 * Fives(len) as real + Ones(len) as real;
      whole <= len < whole + 1.0 && (Fraction(len) != 0.0 <==> whole < len)
    ensures PieceCount(len) == 0 <==> len == 0.0
    ensures Fraction(len) != 0.0 ==> PieceStart(len, PieceCount(len) - 1) + Fraction(len) == 5.0 * Fives(len) as real + Ones(len) as real
  {
    FiveOneLayout(len);
  }

  /**
   * `makeCylinder0Line` as written: its first statement calls
   * `v.mapTidy`, which vector.js does not export, so every call throws a
   * TypeError before any blueprint is made.
   */
  function MakeCylinder0LineAsWritten(color: string, p1: Vec, p2: Vec): (r: Result<seq<Blueprint>>)
    ensures r.Failure?
  {
    Failure("TypeError: v.mapTidy is not a function")
  }

  /** The line as written fails even where the intended one makes pieces. */
  lemma CylinderLineAsWrittenFails(color: string, trig: Trig, uuid: nat -> string)
    requires Sound(trig)
    ensures MakeCylinder0LineAsWritten(color, [0.0, 0.0, 0.0], [0.0, 1.0, 0.0]).Failure?
    ensures Mag([0.0, 1.0, 0.0], trig) == 1.0 && PieceCount(1.0) == 1
  {
    var v := [0.0, 1.0, 0.0];
    assert SquareSum(v) == 1.0 by {
      assert v[..2] == [0.0, 1.0];
      assert v[..2][..1] == [0.0];
      assert [0.0][..0] == [];
    }
    var one := trig.sqrt(1.0);
    assert one >= 0.0 && one * one == 1.0;
    assert (one - 1.0) * (one + 1.0) == 0.0;
    ZeroFactor(one - 1.0, one + 1.0);
    assert Fives(1.0) == 0;
    assert Ones(1.0) == 1;
  }
}
