/** The parts of app.js around the route-order optimiser: choosing the start
    car (pickNearestCar), the car order solvePlan works on, the coordinate
    lookup (coordToLatLng), clampNumber, the leg choice of routeLeg and the
    plan summary built by buildPlanDetails. Network results (the OSRM table,
    OSRM routes, the transit planner) arrive as inputs. */
module PlanDetails {
  import opened Common
  import opened RouteOrder

  // ---------------------------------------------------------------- pickNearestCar

  /** Entry `i` of the duration row; an index past its end reads as
      `undefined`, which `d == null` treats like a null entry. */
  function Entry(row: seq<Option<real>>, i: nat): Option<real>
  {
    if i < |row| then row[i] else None
  }

  /** Car `r` has the smallest known duration among cars 0..n-1, and every car
      before it has a strictly larger one or none: the first strict minimum. */
  predicate FirstCheapest(row: seq<Option<real>>, n: nat, r: nat)
  {
    && r < n && Entry(row, r).Some?
    && (forall i :: 0 <= i < n && Entry(row, i).Some? ==> Entry(row, r).value <= Entry(row, i).value)
    && (forall i :: 0 <= i < r && Entry(row, i).Some? ==> Entry(row, r).value < Entry(row, i).value)
  }

  /** Car `r` is the first car at the smallest straight-line distance among cars 0..n-1. */
  predicate FirstNearest(meters: seq<Meters>, n: nat, r: nat)
    requires n <= |meters|
  {
    && r < n
    && (forall i :: 0 <= i < n ==> meters[r] <= meters[i])
    && (forall i :: 0 <= i < r ==> meters[r] < meters[i])
  }

  /** Some car has a known walking duration in the table. */
  predicate KnownAny(table: Option<seq<Option<real>>>, n: nat)
  {
    table.Some? && exists i :: 0 <= i < n && Entry(table.value, i).Some?
  }

  /** pickNearestCar over the candidate cars 0..|meters|-1: `table` is row 0
      of the OSRM foot table (None when osrmTable threw) and `meters` the
      straight-line distance to each car. planNow never calls it without a
      candidate, hence the non-empty requirement. */
  method PickNearestCar(table: Option<seq<Option<real>>>, meters: seq<Meters>) returns (r: nat)
    requires |meters| > 0
    ensures r < |meters|
    ensures KnownAny(table, |meters|) ==> FirstCheapest(table.value, |meters|, r)
    ensures !KnownAny(table, |meters|) ==> FirstNearest(meters, |meters|, r)
  {
    var n := |meters|;
    if table.Some? {
      var row := table.value;
      var best: Option<nat> := None;
      var i := 0;
      while i < n
        invariant 0 <= i <= n
        invariant best.None? ==> forall k :: 0 <= k < i ==> Entry(row, k).None?
        invariant best.Some? ==> FirstCheapest(row, i, best.value)
      {
        var d := Entry(row, i);
        if d.Some? && (best.None? || d.value < Entry(row, best.value).value) {
          best := Some(i);
        }
        i := i + 1;
      }
      if best.Some? {
        return best.value;
      }
    }
    // the haversine fallback: bestM starts at Infinity (None)
    var b := 0;
    var bestM: Option<real> := None;
    var i := 0;
    while i < n
      invariant 0 <= i <= n
      invariant bestM.None? <==> i == 0
      invariant i > 0 ==> FirstNearest(meters, i, b) && bestM == Some(meters[b])
    {
      if bestM.None? || meters[i] < bestM.value {
        bestM := Some(meters[i]);
        b := i;
      }
      i := i + 1;
    }
    return b;
  }

  /** The tie-breaking rule leaves no choice: at most one car is the first cheapest. */
  lemma FirstCheapestUnique(row: seq<Option<real>>, n: nat, r1: nat, r2: nat)
    requires FirstCheapest(row, n, r1) && FirstCheapest(row, n, r2)
    ensures r1 == r2
  {
  }

  lemma FirstNearestUnique(meters: seq<Meters>, n: nat, r1: nat, r2: nat)
    requires n <= |meters|
    requires FirstNearest(meters, n, r1) && FirstNearest(meters, n, r2)
    ensures r1 == r2
  {
    assert meters[r1] <= meters[r2] && meters[r2] <= meters[r1];
  }

  // ---------------------------------------------------------------- carList

  /** `xs` without the elements equal to `x` (`filter(c => c.id !== x)`). */
  function Without(xs: seq<string>, x: string): (r: seq<string>)
    ensures forall y :: y in r <==> y in xs && y != x
  {
    if |xs| == 0 then [] else (if xs[0] == x then [] else [xs[0]]) + Without(xs[1..], x)
  }

  /** solvePlan's carList, on car ids: the start car, then the other candidates. */
  function CarList(ids: seq<string>, start: string): (r: seq<string>)
    ensures |r| > 0 && r[0] == start
    ensures forall i :: 0 < i < |r| ==> r[i] != start
    ensures forall y :: y in r <==> y == start || y in ids
  {
    var w := Without(ids, start);
    var r := [start] + w;
    assert forall i :: 0 < i < |r| ==> r[i] == w[i - 1] && w[i - 1] in w;
    r
  }

  lemma {:induction false} WithoutIsSubsequence(xs: seq<string>, x: string)
    ensures IsSubsequence(Without(xs, x), xs)
  {
    if |xs| > 0 {
      WithoutIsSubsequence(xs[1..], x);
      var w := Without(xs, x);
      if xs[0] != x {
        assert w[1..] == Without(xs[1..], x);
      } else {
        assert w == Without(xs[1..], x);
        if |w| > 0 {
          assert w[0] in w;
        }
      }
    }
  }

  lemma {:induction false} WithoutCounts(xs: seq<string>, x: string)
    ensures multiset(Without(xs, x)) == multiset(xs)[x := 0]
  {
    if |xs| > 0 {
      WithoutCounts(xs[1..], x);
      assert xs == [xs[0]] + xs[1..];
    }
  }

  /** The other candidates keep their order, and when the start car is one
      candidate among distinct ids, carList is a rearrangement of the
      candidates. */
  lemma CarListOrder(ids: seq<string>, start: string)
    ensures IsSubsequence(CarList(ids, start)[1..], ids)
    ensures multiset(ids)[start] == 1 ==> multiset(CarList(ids, start)) == multiset(ids)
  {
    WithoutIsSubsequence(ids, start);
    assert CarList(ids, start)[1..] == Without(ids, start);
    WithoutCounts(ids, start);
  }

  // ---------------------------------------------------------------- coordToLatLng

  /** Coordinate index 0 is the user's position, index 1 + j zone node j. */
  function CoordToLatLng(coordIdx: nat, start: Coord, zonePos: seq<Coord>): Coord
    requires coordIdx <= |zonePos|
  {
    if coordIdx == 0 then start else zonePos[coordIdx - 1]
  }

  /** The walking legs cover start -> car 1, zone 1 -> car 2, zone 2 -> car 3, ...:
      on a planned path, each walk starts at the user or at the zone where
      the previous step's drive ended. */
  lemma WalkOrigins(inst: Instance, p: seq<Step>, start: Coord, zonePos: seq<Coord>)
    requires ValidInstance(inst) && ValidPrefix(inst, {}, 0, p)
    requires |zonePos| == |inst.zoneCar|
    ensures forall i :: 0 <= i < |p| ==> p[i].from <= |zonePos| && p[i].zone < |zonePos|
    ensures |p| > 0 ==> CoordToLatLng(p[0].from, start, zonePos) == start
    ensures forall i :: 0 < i < |p| ==> CoordToLatLng(p[i].from, start, zonePos) == zonePos[p[i - 1].zone]
  {
    ValidPrefixChains(inst, {}, 0, p);
    forall i | 0 <= i < |p| ensures p[i].from <= |zonePos| {
      if i > 0 {
        assert p[i].from == 1 + p[i - 1].zone;
      }
    }
  }

  // ---------------------------------------------------------------- clampNumber

  /** `Math.max(a, Math.min(b, v))`. */
  function ClampNumber(v: real, a: real, b: real): (r: real)
    ensures a <= b ==> a <= r <= b
    ensures a <= v <= b ==> r == v
    ensures v < a ==> r == a
    ensures a <= b < v ==> r == b
    ensures b < a ==> r == a
  {
    var m := if b < v then b else v;
    if a < m then m else a
  }

  lemma ClampIdempotent(v: real, a: real, b: real)
    requires a <= b
    ensures ClampNumber(ClampNumber(v, a, b), a, b) == ClampNumber(v, a, b)
  {
  }

  // ---------------------------------------------------------------- routeLeg

  datatype LegKind = WalkKind | DriveKind

  /** A leg's `mode`: 'foot', 'car' or 'bkv'. */
  datatype LegMode = Foot | Car | Bkv

  datatype Leg = Leg(mode: LegMode, duration: real, distance: Option<real>)

  /** What the transit planner returned (totalDuration, totalDistance). */
  datatype TransitPlan = TransitPlan(totalDuration: real, totalDistance: Option<real>)

  /** What osrmRoute returned. */
  datatype OsrmRoute = OsrmRoute(duration: real, distance: real)

  /** The outside results routeLeg works from: the transit plan (None when
      it was null or threw), the straight-line metres between the endpoints
      and the OSRM route (None when osrmRoute threw). */
  datatype LegInput = LegInput(alt: Option<TransitPlan>, meters: Meters, osrm: Option<OsrmRoute>)

  /** The substitution test: a transit duration that is non-zero and below
      90% of walking the straight line at 5 km/h. */
  predicate TransitBeatsWalk(alt: Option<TransitPlan>, m: Meters)
  {
    alt.Some? && alt.value.totalDuration != 0.0 && alt.value.totalDuration < WalkFallback(m) * 0.90
  }

  /** routeLeg. `transitOn` is `state.bkvOn` with the transit graph ready.
      None is the exception osrmRoute throws, which routeLeg does not catch. */
  function RouteLeg(kind: LegKind, transitOn: bool, inp: LegInput): (r: Option<Leg>)
    ensures (r.Some? && r.value.mode == Bkv) <==> kind == WalkKind && transitOn && TransitBeatsWalk(inp.alt, inp.meters)
    ensures r.Some? && r.value.mode == Bkv ==>
              r.value.duration == inp.alt.value.totalDuration && r.value.duration < WalkFallback(inp.meters) * 0.90
    ensures r.Some? && r.value.mode != Bkv ==>
              inp.osrm.Some? && r.value.duration == inp.osrm.value.duration
              && r.value.mode == (if kind == WalkKind then Foot else Car)
    ensures r.None? <==> inp.osrm.None? && !(kind == WalkKind && transitOn && TransitBeatsWalk(inp.alt, inp.meters))
  {
    if kind == WalkKind && transitOn && TransitBeatsWalk(inp.alt, inp.meters) then
      Some(Leg(Bkv, inp.alt.value.totalDuration, inp.alt.value.totalDistance))
    else match inp.osrm
      case None => None
      case Some(o) => Some(Leg(if kind == WalkKind then Foot else Car, o.duration, Some(o.distance)))
  }

  /** With the transit mode off, or for a driving leg, the leg is the OSRM route. */
  lemma NoTransitMeansOsrm(kind: LegKind, transitOn: bool, inp: LegInput)
    requires kind == DriveKind || !transitOn
    ensures RouteLeg(kind, transitOn, inp).Some? <==> inp.osrm.Some?
    ensures inp.osrm.Some? ==> RouteLeg(kind, transitOn, inp).value.duration == inp.osrm.value.duration
  {
  }

  // ---------------------------------------------------------------- buildPlanDetails

  /** A zone node as solvePlan lays them out: its car, its position in that
      car's zone list, and where it is. */
  datatype ZoneNode = ZoneNode(carIdx: nat, zoneIdx: nat, pos: Coord)

  /** `zoneNo` is what `Number(...)` gives; None is NaN. */
  datatype PlanStep = PlanStep(idx: nat, carId: string, zoneNo: Option<nat>, fromStart: bool, walk: Leg, drive: Leg, end: Coord)

  datatype Plan = Plan(carsUsed: seq<string>, steps: seq<PlanStep>, total: real, walk: real, drive: real)

  function SumWalk(ps: seq<PlanStep>): real
  {
    if |ps| == 0 then 0.0 else SumWalk(ps[..|ps| - 1]) + ps[|ps| - 1].walk.duration
  }

  function SumDrive(ps: seq<PlanStep>): real
  {
    if |ps| == 0 then 0.0 else SumDrive(ps[..|ps| - 1]) + ps[|ps| - 1].drive.duration
  }

  function CarIds(ps: seq<PlanStep>): (r: seq<string>)
    ensures |r| == |ps| && forall i :: 0 <= i < |ps| ==> r[i] == ps[i].carId
  {
    if |ps| == 0 then [] else CarIds(ps[..|ps| - 1]) + [ps[|ps| - 1].carId]
  }

  /** `Array.from(new Set(xs))`: the distinct elements in first-occurrence order. */
  function Dedup(xs: seq<string>): (r: seq<string>)
    ensures forall i, j :: 0 <= i < j < |r| ==> r[i] != r[j]
    ensures forall y :: y in r <==> y in xs
  {
    if |xs| == 0 then []
    else
      var d := Dedup(xs[..|xs| - 1]);
      var x := xs[|xs| - 1];
      assert forall y :: y in xs <==> y in xs[..|xs| - 1] || y == x by {
        assert xs == xs[..|xs| - 1] + [x];
      }
      if x in d then d else d + [x]
  }

  /** Index of the first occurrence of `y`. */
  function FirstIndex(xs: seq<string>, y: string): (r: nat)
    requires y in xs
    ensures r < |xs| && xs[r] == y && forall k :: 0 <= k < r ==> xs[k] != y
  {
    if xs[0] == y then 0 else 1 + FirstIndex(xs[1..], y)
  }

  lemma {:induction false} FirstIndexPrefix(xs: seq<string>, k: nat, y: string)
    requires k <= |xs| && y in xs[..k]
    ensures FirstIndex(xs, y) == FirstIndex(xs[..k], y)
  {
    var i := FirstIndex(xs[..k], y);
    assert xs[i] == y;
    forall k' | 0 <= k' < i ensures xs[k'] != y {
      assert xs[..k][k'] == xs[k'];
    }
  }

  /** The order of `carsUsed` is the order in which the cars first appear. */
  lemma {:induction false} DedupFirstOccurrenceOrder(xs: seq<string>)
    ensures forall i, j :: 0 <= i < j < |Dedup(xs)| ==> FirstIndex(xs, Dedup(xs)[i]) < FirstIndex(xs, Dedup(xs)[j])
  {
    if |xs| > 0 {
      var init := xs[..|xs| - 1];
      var x := xs[|xs| - 1];
      var d := Dedup(init);
      DedupFirstOccurrenceOrder(init);
      forall y | y in d ensures FirstIndex(xs, y) == FirstIndex(init, y) < |xs| - 1 {
        FirstIndexPrefix(xs, |xs| - 1, y);
      }
      if x !in d {
        assert x !in init;
        assert FirstIndex(xs, x) == |xs| - 1;
        var r := Dedup(xs);
        assert r == d + [x];
        forall i, j | 0 <= i < j < |r| ensures FirstIndex(xs, r[i]) < FirstIndex(xs, r[j]) {
          assert r[i] == d[i] && r[i] in d;
          if j < |d| {
            assert r[j] == d[j] && r[j] in d;
          }
        }
      }
    }
  }

  /** A list without repetitions is its own deduplication. */
  lemma {:induction false} DedupDistinct(xs: seq<string>)
    requires forall i, j :: 0 <= i < j < |xs| ==> xs[i] != xs[j]
    ensures Dedup(xs) == xs
  {
    if |xs| > 0 {
      var init := xs[..|xs| - 1];
      DedupDistinct(init);
      assert xs[|xs| - 1] !in init;
      assert xs == init + [xs[|xs| - 1]];
    }
  }

  // ---------------------------------------------------------------- zone ids

  /** The decimal digit character for d. */
  function DigitChar(d: nat): char
    requires d < 10
  {
    (('0' as int) + d) as char
  }

  predicate IsDigit(c: char)
  {
    '0' <= c <= '9'
  }

  /** The decimal text of n, as a template literal writes a positive integer. */
  function Decimal(n: nat): (r: string)
    ensures |r| > 0 && forall k :: 0 <= k < |r| ==> IsDigit(r[k])
  {
    if n < 10 then [DigitChar(n)] else Decimal(n / 10) + [DigitChar(n % 10)]
  }

  /** `Number(t)` on non-empty text: the value of a run of decimal digits,
      and None (NaN) for anything else. */
  function DigitsValue(t: string): (r: Option<nat>)
    ensures r.Some? <==> |t| > 0 && forall k :: 0 <= k < |t| ==> IsDigit(t[k])
  {
    if |t| == 0 || !IsDigit(t[|t| - 1]) then None
    else if |t| == 1 then Some((t[0] as int) - ('0' as int))
    else match DigitsValue(t[..|t| - 1])
      case None => None
      case Some(v) =>
        assert forall k :: 0 <= k < |t| - 1 ==> t[k] == t[..|t| - 1][k];
        Some(10 * v + ((t[|t| - 1] as int) - ('0' as int)))
  }

  /** The text after the first '#', or None when there is no '#'. */
  function AfterHash(s: string): Option<string>
  {
    if |s| == 0 then None else if s[0] == '#' then Some(s[1..]) else AfterHash(s[1..])
  }

  /** The text before the first '#' (all of s when there is none). */
  function UpToHash(s: string): (r: string)
    ensures |r| <= |s| && r == s[..|r|] && '#' !in r
    ensures |r| < |s| ==> s[|r|] == '#'
  {
    if |s| == 0 || s[0] == '#' then "" else [s[0]] + UpToHash(s[1..])
  }

  /** The zone id solvePlan gives zone `zoneIdx` of the car with id `carId`. */
  function ZoneId(carId: string, zoneIdx: nat): string
  {
    carId + "#" + Decimal(zoneIdx + 1)
  }

  /** `Number(id.split('#')[1] || 1)`: the second '#'-separated field, where a
      missing or empty field reads as 1. */
  function ZoneNo(id: string): Option<nat>
  {
    match AfterHash(id)
    case None => Some(1)
    case Some(rest) => if UpToHash(rest) == "" then Some(1) else DigitsValue(UpToHash(rest))
  }

  /** The step record buildPlanDetails makes for step `i`. */
  function PlanStepOf(carIds: seq<string>, zones: seq<ZoneNode>, i: nat, s: Step, walk: Leg, drive: Leg): PlanStep
    requires s.car < |carIds| && s.zone < |zones| && zones[s.zone].carIdx < |carIds|
  {
    var z := zones[s.zone];
    PlanStep(i + 1, carIds[s.car], ZoneNo(ZoneId(carIds[z.carIdx], z.zoneIdx)), s.from == 0, walk, drive, z.pos)
  }

  lemma {:induction false} DecimalValue(n: nat)
    ensures DigitsValue(Decimal(n)) == Some(n)
  {
    if n >= 10 {
      DecimalValue(n / 10);
      var t := Decimal(n);
      assert t[..|t| - 1] == Decimal(n / 10);
    }
  }

  lemma {:induction false} AfterHashSkips(a: string, b: string)
    requires '#' !in a
    ensures AfterHash(a + b) == AfterHash(b)
  {
    if |a| > 0 {
      assert a[0] in a && (a + b)[0] == a[0];
      assert (a + b)[1..] == a[1..] + b;
      AfterHashSkips(a[1..], b);
      assert AfterHash(a + b) == AfterHash(a[1..] + b);
    } else {
      assert a + b == b;
    }
  }

  lemma {:induction false} UpToHashWhole(s: string)
    requires '#' !in s
    ensures UpToHash(s) == s
  {
    if |s| > 0 {
      UpToHashWhole(s[1..]);
    }
  }

  /** For a car id without '#', the zone number is the zone's 1-based position
      in the car's zone list. */
  lemma ZoneNoPlainId(carId: string, zoneIdx: nat)
    requires '#' !in carId
    ensures ZoneNo(ZoneId(carId, zoneIdx)) == Some(zoneIdx + 1)
  {
    var d := Decimal(zoneIdx + 1);
    assert ZoneId(carId, zoneIdx) == carId + (['#'] + d);
    AfterHashSkips(carId, ['#'] + d);
    assert (['#'] + d)[1..] == d;
    assert forall k :: 0 <= k < |d| ==> d[k] != '#';
    UpToHashWhole(d);
    DecimalValue(zoneIdx + 1);
  }

  /** A '#' inside the car id moves the field split reads: the first zone of car
      "a#5" is numbered 5, of "a#b" NaN, and of "a#" 1. */
  lemma ZoneNoHashedId()
    ensures ZoneNo(ZoneId("a#5", 0)) == Some(5)
    ensures ZoneNo(ZoneId("a#b", 0)).None?
    ensures ZoneNo(ZoneId("a#", 0)) == Some(1)
  {
    assert Decimal(1) == "1";
    assert ZoneId("a#5", 0) == "a#5#1";
    assert AfterHash("a#5#1") == Some("5#1");
    assert UpToHash("5#1") == "5";
    assert ZoneId("a#b", 0) == "a#b#1";
    assert AfterHash("a#b#1") == Some("b#1");
    assert UpToHash("b#1") == "b";
    assert ZoneId("a#", 0) == "a##1";
    assert AfterHash("a##1") == Some("#1");
    assert UpToHash("#1") == "";
  }

  /** buildPlanDetails. `walkIn[i]` and `driveIn[i]` are the outside results
      the two routeLeg calls of step i work from. None is the exception a
      failed OSRM route raises. */
  method BuildPlanDetails(carIds: seq<string>, zones: seq<ZoneNode>, steps: seq<Step>,
                          transitOn: bool, walkIn: seq<LegInput>, driveIn: seq<LegInput>)
    returns (r: Option<Plan>)
    requires |walkIn| == |steps| && |driveIn| == |steps|
    requires forall i :: 0 <= i < |steps| ==>
               steps[i].car < |carIds| && steps[i].zone < |zones| && zones[steps[i].zone].carIdx < |carIds|
    ensures r.Some? <==> forall i :: 0 <= i < |steps| ==>
              RouteLeg(WalkKind, transitOn, walkIn[i]).Some? && RouteLeg(DriveKind, transitOn, driveIn[i]).Some?
    ensures r.Some? ==> |r.value.steps| == |steps|
    ensures r.Some? ==> forall i :: 0 <= i < |steps| ==>
              var p := r.value.steps[i];
              && p.idx == i + 1
              && p.carId == carIds[steps[i].car]
              && p.zoneNo == ZoneNo(ZoneId(carIds[zones[steps[i].zone].carIdx], zones[steps[i].zone].zoneIdx))
              && (p.fromStart <==> steps[i].from == 0)
              && p.end == zones[steps[i].zone].pos
              && Some(p.walk) == RouteLeg(WalkKind, transitOn, walkIn[i])
              && Some(p.drive) == RouteLeg(DriveKind, transitOn, driveIn[i])
    ensures r.Some? ==> r.value.walk == SumWalk(r.value.steps) && r.value.drive == SumDrive(r.value.steps)
    ensures r.Some? ==> r.value.total == r.value.walk + r.value.drive
    ensures r.Some? ==> r.value.carsUsed == Dedup(CarIds(r.value.steps))
  {
    var planSteps: seq<PlanStep> := [];
    var totalWalk := 0.0;
    var totalDrive := 0.0;
    var i := 0;
    while i < |steps|
      invariant 0 <= i <= |steps| && |planSteps| == i
      invariant forall k :: 0 <= k < i ==>
                  RouteLeg(WalkKind, transitOn, walkIn[k]).Some? && RouteLeg(DriveKind, transitOn, driveIn[k]).Some?
      invariant forall k :: 0 <= k < i ==>
                  planSteps[k] == PlanStepOf(carIds, zones, k, steps[k],
                    RouteLeg(WalkKind, transitOn, walkIn[k]).value, RouteLeg(DriveKind, transitOn, driveIn[k]).value)
      invariant totalWalk == SumWalk(planSteps) && totalDrive == SumDrive(planSteps)
    {
      var s := steps[i];
      var walkLeg := RouteLeg(WalkKind, transitOn, walkIn[i]);
      if walkLeg.None? {
        return None;
      }
      var driveLeg := RouteLeg(DriveKind, transitOn, driveIn[i]);
      if driveLeg.None? {
        return None;
      }
      totalWalk := totalWalk + walkLeg.value.duration;
      totalDrive := totalDrive + driveLeg.value.duration;
      var p := PlanStepOf(carIds, zones, i, s, walkLeg.value, driveLeg.value);
      assert (planSteps + [p])[..i] == planSteps;
      planSteps := planSteps + [p];
      i := i + 1;
    }
    var total := totalWalk + totalDrive;
    r := Some(Plan(Dedup(CarIds(planSteps)), planSteps, total, totalWalk, totalDrive));
  }

  /** On a planned path with distinct car ids, `carsUsed` lists each step's car
      once, in step order. */
  lemma CarsUsedOfPath(inst: Instance, p: seq<Step>, carIds: seq<string>, ps: seq<PlanStep>)
    requires ValidInstance(inst) && ValidPrefix(inst, {}, 0, p)
    requires |carIds| == inst.n && forall a, b :: 0 <= a < b < |carIds| ==> carIds[a] != carIds[b]
    requires |ps| == |p| && forall i :: 0 <= i < |p| ==> p[i].car < |carIds| && ps[i].carId == carIds[p[i].car]
    ensures Dedup(CarIds(ps)) == CarIds(ps)
  {
    ValidPrefixVisitsOnce(inst, {}, 0, p);
    ValidPrefixCars(inst, {}, 0, p);
    DedupDistinct(CarIds(ps));
  }
}
