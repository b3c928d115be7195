/** The route-order optimiser of app.js (solvePlan and what it calls).

    Cars are numbered 0..n-1 in carList order; car 0 is the start car chosen by
    pickNearestCar. Zone nodes (zonesNodes) are numbered 0..Z-1; coordinate
    index 0 is the user's position and coordinate index 1 + j is zone node j.
    The visited-car bitmask of `solve` is modelled as the set of its set bits:
    `mask & (1 << ci)` is `ci in mask`, `mask | (1 << ci)` is `mask + {ci}` and
    the full-mask test `mask === allMask` is `|mask| == n` (Cars(n) is the
    full set). Durations are reals; Infinity and a null OSRM entry
    are None. */
module RouteOrder {
  import opened Common

  /** {0, ..., n-1}: the full mask. */
  function Cars(n: nat): (r: set<nat>)
    ensures |r| == n
    ensures forall i: nat :: i in r <==> i < n
  {
    if n == 0 then {} else Cars(n - 1) + {n - 1}
  }

  /** The fallback walking duration for a straight-line distance (5 km/h). */
  function WalkFallback(m: Meters): real
  {
    (m / 1000.0) / (5.0 / 60.0 / 60.0)
  }

  /** The fallback driving duration for a straight-line distance (20 km/h). */
  function DriveFallback(m: Meters): real
  {
    (m / 1000.0) / (20.0 / 60.0 / 60.0)
  }

  /** What solvePlan has once its OSRM tables are fetched. */
  datatype Instance = Instance(
    n: nat,                                  // |carList|
    zoneCar: seq<nat>,                       // zonesNodes[j].carIdx
    foot: Option<seq<seq<Option<real>>>>,    // the foot table (None: osrmTable threw); row = coordinate index, column = car
    walkMeters: seq<seq<Meters>>,            // haversine metres from coordinate index to car
    drive: seq<Option<real>>                 // driveCost duration of each zone node (None: null)
  )

  ghost predicate ValidInstance(inst: Instance)
  {
    && (forall j :: 0 <= j < |inst.zoneCar| ==> inst.zoneCar[j] < inst.n)
    && |inst.walkMeters| == |inst.zoneCar| + 1
    && (forall r :: 0 <= r < |inst.walkMeters| ==> |inst.walkMeters[r]| == inst.n)
    && (inst.foot.Some? ==>
          |inst.foot.value| == |inst.zoneCar| + 1
          && forall r :: 0 <= r < |inst.foot.value| ==> |inst.foot.value[r]| == inst.n)
    && |inst.drive| == |inst.zoneCar|
  }

  /** The walking duration from a coordinate to a car as solve resolves it:
      the foot table's entry when there is one, the 5 km/h estimate otherwise. */
  function Walk(inst: Instance, from: nat, ci: nat): real
    requires ValidInstance(inst) && from <= |inst.zoneCar| && ci < inst.n
  {
    if inst.foot.Some? && inst.foot.value[from][ci].Some? then inst.foot.value[from][ci].value
    else WalkFallback(inst.walkMeters[from][ci])
  }

  /** One service step: walk from coordinate `from` to car `car`, drive it to zone node `zone`. */
  datatype Step = Step(car: nat, zone: nat, from: nat)

  /** solve's result: a cost (None = Infinity) and the steps that achieve it. */
  datatype Res = Res(cost: Option<real>, path: seq<Step>)

  /** `a < b` on durations where None is Infinity. */
  predicate Less(a: Option<real>, b: Option<real>)
  {
    a.Some? && (b.None? || a.value < b.value)
  }

  function Add(a: Option<real>, b: Option<real>): Option<real>
  {
    if a.Some? && b.Some? then Some(a.value + b.value) else None
  }

  predicate StepInRange(inst: Instance, s: Step)
  {
    s.car < inst.n && s.zone < |inst.zoneCar| && s.from <= |inst.zoneCar|
  }

  /** walk + drive of one step; None when the zone's driving duration is
      unknown (and for a step that names no car, zone or coordinate). */
  function StepCost(inst: Instance, s: Step): Option<real>
    requires ValidInstance(inst)
  {
    if !StepInRange(inst, s) then None
    else match inst.drive[s.zone]
      case None => None
      case Some(d) => Some(Walk(inst, s.from, s.car) + d)
  }

  function PathCost(inst: Instance, p: seq<Step>): Option<real>
    requires ValidInstance(inst)
  {
    if |p| == 0 then Some(0.0) else Add(StepCost(inst, p[0]), PathCost(inst, p[1..]))
  }

  /** `p` services cars outside `mask`, each once and with one of its own
      zones, starting at coordinate `last` and walking on from each zone. */
  ghost predicate ValidPrefix(inst: Instance, mask: set<nat>, last: nat, p: seq<Step>)
    requires ValidInstance(inst)
    decreases |p|
  {
    |p| > 0 ==>
      var s := p[0];
      && s.car < inst.n && s.car !in mask
      && s.zone < |inst.zoneCar| && inst.zoneCar[s.zone] == s.car
      && s.from == last && last <= |inst.zoneCar|
      && ValidPrefix(inst, mask + {s.car}, 1 + s.zone, p[1..])
  }

  /** A valid prefix that services every car outside `mask`: since a prefix
      never repeats a car, that is one step per car outside the mask
      (ValidPathVisitsEachOnce). */
  ghost predicate ValidPath(inst: Instance, mask: set<nat>, last: nat, p: seq<Step>)
    requires ValidInstance(inst)
  {
    ValidPrefix(inst, mask, last, p) && |p| + |mask| == inst.n
  }

  /** A result is sound: either Infinity with an empty path, or a valid path whose cost it is. */
  ghost predicate Sound(inst: Instance, mask: set<nat>, last: nat, r: Res)
    requires ValidInstance(inst)
  {
    && (r.cost.None? ==> r.path == [])
    && (r.cost.Some? ==> ValidPath(inst, mask, last, r.path)
                         && PathCost(inst, r.path) == r.cost)
  }

  lemma MaskSize(n: nat, mask: set<nat>)
    requires mask <= Cars(n)
    ensures |mask| <= n
    ensures |mask| == n ==> mask == Cars(n)
  {
    var rest := Cars(n) - mask;
    assert Cars(n) == mask + rest;
    if |mask| == n {
      assert rest == {};
    }
  }

  lemma GrowMask(n: nat, mask: set<nat>, ci: nat)
    requires mask <= Cars(n) && ci < n && ci !in mask
    ensures mask + {ci} <= Cars(n)
    ensures |mask + {ci}| == |mask| + 1 && |mask| < n
  {
    var rest := Cars(n) - {ci};
    assert |rest| == n - 1;
    assert rest == mask + (rest - mask);
    assert |rest| == |mask| + |rest - mask|;
  }

  /** solve(mask, lastCoordIdx) without its memo table: 0 and no steps once
      every car is done, otherwise the first strictly cheapest continuation
      over unvisited cars in index order and their zones in zonesNodes order. */
  function Best(inst: Instance, mask: set<nat>, last: nat): Res
    requires ValidInstance(inst) && mask <= Cars(inst.n) && last <= |inst.zoneCar|
    decreases inst.n - |mask|, 3, 0
  {
    if |mask| == inst.n then Res(Some(0.0), [])
    else ScanCars(inst, mask, last, 0, Res(None, []))
  }

  /** The outer loop of solve over cars ci, ci+1, ..., n-1. */
  function ScanCars(inst: Instance, mask: set<nat>, last: nat, ci: nat, best: Res): Res
    requires ValidInstance(inst) && mask <= Cars(inst.n) && last <= |inst.zoneCar|
    requires ci <= inst.n
    decreases inst.n - |mask|, 2, inst.n - ci
  {
    if ci == inst.n then best
    else if ci in mask then ScanCars(inst, mask, last, ci + 1, best)
    else ScanCars(inst, mask, last, ci + 1, ScanZones(inst, mask, last, ci, 0, best))
  }

  /** Prepending a valid first step to a sound continuation gives a sound result. */
  lemma ConsSound(inst: Instance, mask: set<nat>, last: nat, s: Step, next: Res)
    requires ValidInstance(inst) && last <= |inst.zoneCar|
    requires s.car < inst.n && s.car !in mask && s.zone < |inst.zoneCar| && inst.zoneCar[s.zone] == s.car && s.from == last
    requires Sound(inst, mask + {s.car}, 1 + s.zone, next) && next.cost.Some?
    requires Add(StepCost(inst, s), next.cost).Some?
    ensures Sound(inst, mask, last, Res(Add(StepCost(inst, s), next.cost), [s] + next.path))
  {
    var p := [s] + next.path;
    assert p[1..] == next.path;
    assert ValidPrefix(inst, mask, last, p);
  }

  /** The inner loop of solve over the zones of car ci, from zone node j on:
      a zone with a known driving duration replaces the best so far when walk +
      drive + the best continuation from that zone is strictly smaller. */
  function ScanZones(inst: Instance, mask: set<nat>, last: nat, ci: nat, j: nat, best: Res): Res
    requires ValidInstance(inst) && mask <= Cars(inst.n) && last <= |inst.zoneCar|
    requires ci < inst.n && ci !in mask && j <= |inst.zoneCar|
    decreases inst.n - |mask|, 1, |inst.zoneCar| - j
  {
    GrowMask(inst.n, mask, ci);
    if j == |inst.zoneCar| then best
    else if inst.zoneCar[j] != ci || inst.drive[j].None? then ScanZones(inst, mask, last, ci, j + 1, best)
    else
      var s := Step(ci, j, last);
      var next := Best(inst, mask + {ci}, 1 + j);
      var total := Add(StepCost(inst, s), next.cost);
      if Less(total, best.cost) then ScanZones(inst, mask, last, ci, j + 1, Res(total, [s] + next.path))
      else ScanZones(inst, mask, last, ci, j + 1, best)
  }

  /** The best result after examining zone node j in the inner loop. */
  ghost function AfterZone(inst: Instance, mask: set<nat>, last: nat, ci: nat, j: nat, best: Res): Res
    requires ValidInstance(inst) && mask <= Cars(inst.n) && last <= |inst.zoneCar|
    requires ci < inst.n && ci !in mask && j < |inst.zoneCar|
  {
    GrowMask(inst.n, mask, ci);
    if inst.zoneCar[j] != ci || inst.drive[j].None? then best
    else
      var next := Best(inst, mask + {ci}, 1 + j);
      var total := Add(StepCost(inst, Step(ci, j, last)), next.cost);
      if Less(total, best.cost) then Res(total, [Step(ci, j, last)] + next.path) else best
  }

  lemma ScanZonesStep(inst: Instance, mask: set<nat>, last: nat, ci: nat, j: nat, best: Res)
    requires ValidInstance(inst) && mask <= Cars(inst.n) && last <= |inst.zoneCar|
    requires ci < inst.n && ci !in mask && j < |inst.zoneCar|
    ensures ScanZones(inst, mask, last, ci, j, best) == ScanZones(inst, mask, last, ci, j + 1, AfterZone(inst, mask, last, ci, j, best))
  {
  }

  /** The total of servicing car ci with zone node j next: walk + drive + the
      best continuation, None when the drive is unknown or nothing finishes. */
  ghost function Candidate(inst: Instance, mask: set<nat>, last: nat, ci: nat, j: nat): Option<real>
    requires ValidInstance(inst) && mask <= Cars(inst.n) && last <= |inst.zoneCar|
    requires ci < inst.n && ci !in mask && j < |inst.zoneCar|
  {
    GrowMask(inst.n, mask, ci);
    Add(StepCost(inst, Step(ci, j, last)), Best(inst, mask + {ci}, 1 + j).cost)
  }

  /** solve is sound: a finite cost comes with a valid path of exactly that
      cost, and Infinity with no steps. */
  lemma {:induction false} BestSound(inst: Instance, mask: set<nat>, last: nat)
    requires ValidInstance(inst) && mask <= Cars(inst.n) && last <= |inst.zoneCar|
    ensures Sound(inst, mask, last, Best(inst, mask, last))
    decreases inst.n - |mask|, 3, 0
  {
    if |mask| != inst.n {
      ScanCarsSound(inst, mask, last, 0, Res(None, []));
    } else {
      MaskSize(inst.n, mask);
    }
  }

  lemma {:induction false} ScanCarsSound(inst: Instance, mask: set<nat>, last: nat, ci: nat, best: Res)
    requires ValidInstance(inst) && mask <= Cars(inst.n) && last <= |inst.zoneCar|
    requires ci <= inst.n && Sound(inst, mask, last, best)
    ensures Sound(inst, mask, last, ScanCars(inst, mask, last, ci, best))
    decreases inst.n - |mask|, 2, inst.n - ci
  {
    if ci < inst.n {
      var mid := if ci in mask then best else ScanZones(inst, mask, last, ci, 0, best);
      if ci !in mask {
        ScanZonesSound(inst, mask, last, ci, 0, best);
      }
      ScanCarsSound(inst, mask, last, ci + 1, mid);
    }
  }

  lemma {:induction false} ScanZonesSound(inst: Instance, mask: set<nat>, last: nat, ci: nat, j: nat, best: Res)
    requires ValidInstance(inst) && mask <= Cars(inst.n) && last <= |inst.zoneCar|
    requires ci < inst.n && ci !in mask && j <= |inst.zoneCar| && Sound(inst, mask, last, best)
    ensures Sound(inst, mask, last, ScanZones(inst, mask, last, ci, j, best))
    decreases inst.n - |mask|, 1, |inst.zoneCar| - j
  {
    if j < |inst.zoneCar| {
      if inst.zoneCar[j] != ci || inst.drive[j].None? {
        ScanZonesSound(inst, mask, last, ci, j + 1, best);
      } else {
        GrowMask(inst.n, mask, ci);
        var s := Step(ci, j, last);
        var next := Best(inst, mask + {ci}, 1 + j);
        var total := Add(StepCost(inst, s), next.cost);
        if Less(total, best.cost) {
          BestSound(inst, mask + {ci}, 1 + j);
          ConsSound(inst, mask, last, s, next);
          ScanZonesSound(inst, mask, last, ci, j + 1, Res(total, [s] + next.path));
        } else {
          ScanZonesSound(inst, mask, last, ci, j + 1, best);
        }
      }
    }
  }

  /** Once every car is done, solve costs 0 and has no steps. */
  lemma FullMaskIsFree(inst: Instance, last: nat)
    requires ValidInstance(inst) && last <= |inst.zoneCar|
    ensures Best(inst, Cars(inst.n), last) == Res(Some(0.0), [])
  {
  }

  /** The cars a path services. */
  function CarsOf(p: seq<Step>): set<nat>
  {
    if |p| == 0 then {} else {p[0].car} + CarsOf(p[1..])
  }

  lemma {:induction false} CarsOfMembers(p: seq<Step>)
    ensures forall c :: c in CarsOf(p) <==> exists i :: 0 <= i < |p| && p[i].car == c
  {
    if |p| > 0 {
      CarsOfMembers(p[1..]);
      assert forall i :: 0 < i < |p| ==> p[i] == p[1..][i - 1];
    }
  }

  /** A valid prefix services only cars outside the mask, as many as it has steps. */
  lemma {:induction false} ValidPrefixCars(inst: Instance, mask: set<nat>, last: nat, p: seq<Step>)
    requires ValidInstance(inst) && mask <= Cars(inst.n) && ValidPrefix(inst, mask, last, p)
    ensures CarsOf(p) <= Cars(inst.n) - mask && |CarsOf(p)| == |p|
    ensures |p| + |mask| <= inst.n
    decreases |p|
  {
    MaskSize(inst.n, mask);
    if |p| > 0 {
      var s := p[0];
      GrowMask(inst.n, mask, s.car);
      ValidPrefixCars(inst, mask + {s.car}, 1 + s.zone, p[1..]);
      assert CarsOf(p) == {s.car} + CarsOf(p[1..]) && s.car !in CarsOf(p[1..]);
    }
  }

  /** A valid prefix services no car twice. */
  lemma {:induction false} ValidPrefixVisitsOnce(inst: Instance, mask: set<nat>, last: nat, p: seq<Step>)
    requires ValidInstance(inst) && mask <= Cars(inst.n) && ValidPrefix(inst, mask, last, p)
    ensures forall i, k :: 0 <= i < k < |p| ==> p[i].car != p[k].car
    decreases |p|
  {
    if |p| > 0 {
      var s := p[0];
      var q := p[1..];
      GrowMask(inst.n, mask, s.car);
      ValidPrefixVisitsOnce(inst, mask + {s.car}, 1 + s.zone, q);
      ValidPrefixCars(inst, mask + {s.car}, 1 + s.zone, q);
      CarsOfMembers(q);
      forall i, k | 0 <= i < k < |p| ensures p[i].car != p[k].car {
        assert p[k] == q[k - 1];
        if i > 0 {
          assert p[i] == q[i - 1];
        } else {
          assert p[k].car in CarsOf(q);
        }
      }
    }
  }

  /** A valid path services each car outside the mask, and no car in it, exactly once. */
  lemma ValidPathVisitsEachOnce(inst: Instance, mask: set<nat>, last: nat, p: seq<Step>)
    requires ValidInstance(inst) && mask <= Cars(inst.n) && ValidPath(inst, mask, last, p)
    ensures CarsOf(p) == Cars(inst.n) - mask
    ensures forall i, k :: 0 <= i < k < |p| ==> p[i].car != p[k].car
  {
    ValidPrefixCars(inst, mask, last, p);
    ValidPrefixVisitsOnce(inst, mask, last, p);
    var rest := Cars(inst.n) - mask;
    assert Cars(inst.n) == mask + rest;
    assert rest == CarsOf(p) + (rest - CarsOf(p));
  }

  /** Each step of a valid prefix drives its car to one of that car's zones and
      walks from where the previous step ended (the start coordinate first). */
  lemma {:induction false} ValidPrefixChains(inst: Instance, mask: set<nat>, last: nat, p: seq<Step>)
    requires ValidInstance(inst) && ValidPrefix(inst, mask, last, p)
    ensures forall i :: 0 <= i < |p| ==> p[i].zone < |inst.zoneCar| && inst.zoneCar[p[i].zone] == p[i].car
    ensures |p| > 0 ==> p[0].from == last
    ensures forall i :: 0 < i < |p| ==> p[i].from == 1 + p[i - 1].zone
    decreases |p|
  {
    if |p| > 0 {
      var q := p[1..];
      ValidPrefixChains(inst, mask + {p[0].car}, 1 + p[0].zone, q);
      forall i | 0 < i < |p| ensures p[i] == q[i - 1] { }
    }
  }

  /** `a` is a finite duration no larger than `b`. */
  predicate AtMost(a: Option<real>, b: real)
  {
    a.Some? && a.value <= b
  }

  /** The inner loop ends no worse than where it started. */
  lemma {:induction false} ScanZonesKeeps(inst: Instance, mask: set<nat>, last: nat, ci: nat, j: nat, best: Res)
    requires ValidInstance(inst) && mask <= Cars(inst.n) && last <= |inst.zoneCar|
    requires ci < inst.n && ci !in mask && j <= |inst.zoneCar| && best.cost.Some?
    ensures AtMost(ScanZones(inst, mask, last, ci, j, best).cost, best.cost.value)
    decreases |inst.zoneCar| - j
  {
    if j < |inst.zoneCar| {
      ScanZonesStep(inst, mask, last, ci, j, best);
      ScanZonesKeeps(inst, mask, last, ci, j + 1, AfterZone(inst, mask, last, ci, j, best));
    }
  }

  /** The inner loop ends no worse than any zone z of car ci it examines. */
  lemma {:induction false} ScanZonesBound(inst: Instance, mask: set<nat>, last: nat, ci: nat, j: nat, best: Res, z: nat)
    requires ValidInstance(inst) && mask <= Cars(inst.n) && last <= |inst.zoneCar|
    requires ci < inst.n && ci !in mask && j <= z < |inst.zoneCar| && inst.zoneCar[z] == ci
    requires Candidate(inst, mask, last, ci, z).Some?
    ensures AtMost(ScanZones(inst, mask, last, ci, j, best).cost, Candidate(inst, mask, last, ci, z).value)
    decreases |inst.zoneCar| - j
  {
    var next := AfterZone(inst, mask, last, ci, j, best);
    ScanZonesStep(inst, mask, last, ci, j, best);
    if j == z {
      assert AtMost(next.cost, Candidate(inst, mask, last, ci, z).value);
      ScanZonesKeeps(inst, mask, last, ci, j + 1, next);
    } else {
      ScanZonesBound(inst, mask, last, ci, j + 1, next, z);
    }
  }

  /** The outer loop ends no worse than where it started. */
  lemma {:induction false} ScanCarsKeeps(inst: Instance, mask: set<nat>, last: nat, ci: nat, best: Res)
    requires ValidInstance(inst) && mask <= Cars(inst.n) && last <= |inst.zoneCar|
    requires ci <= inst.n && best.cost.Some?
    ensures AtMost(ScanCars(inst, mask, last, ci, best).cost, best.cost.value)
    decreases inst.n - ci
  {
    if ci < inst.n {
      var mid := if ci in mask then best else ScanZones(inst, mask, last, ci, 0, best);
      if ci !in mask {
        ScanZonesKeeps(inst, mask, last, ci, 0, best);
      }
      ScanCarsKeeps(inst, mask, last, ci + 1, mid);
    }
  }

  /** The outer loop ends no worse than servicing any unvisited car c from ci on
      with any zone z of c. */
  lemma {:induction false} ScanCarsBound(inst: Instance, mask: set<nat>, last: nat, ci: nat, best: Res, c: nat, z: nat)
    requires ValidInstance(inst) && mask <= Cars(inst.n) && last <= |inst.zoneCar|
    requires ci <= c < inst.n && c !in mask && z < |inst.zoneCar| && inst.zoneCar[z] == c
    requires Candidate(inst, mask, last, c, z).Some?
    ensures AtMost(ScanCars(inst, mask, last, ci, best).cost, Candidate(inst, mask, last, c, z).value)
    decreases inst.n - ci
  {
    var mid := if ci in mask then best else ScanZones(inst, mask, last, ci, 0, best);
    if ci == c {
      ScanZonesBound(inst, mask, last, ci, 0, best, z);
      ScanCarsKeeps(inst, mask, last, ci + 1, mid);
    } else {
      ScanCarsBound(inst, mask, last, ci + 1, mid, c, z);
    }
  }

  /** If a first step followed by solve's best continuation costs at most
      `cost`, so does solve itself. */
  lemma OptimalStep(inst: Instance, mask: set<nat>, last: nat, s: Step, rest: real)
    requires ValidInstance(inst) && mask <= Cars(inst.n) && last <= |inst.zoneCar|
    requires s.car < inst.n && s.car !in mask && s.zone < |inst.zoneCar| && inst.zoneCar[s.zone] == s.car && s.from == last
    requires StepCost(inst, s).Some? && mask + {s.car} <= Cars(inst.n)
    requires AtMost(Best(inst, mask + {s.car}, 1 + s.zone).cost, rest)
    ensures AtMost(Best(inst, mask, last).cost, StepCost(inst, s).value + rest)
  {
    assert AtMost(Candidate(inst, mask, last, s.car, s.zone), StepCost(inst, s).value + rest);
    GrowMask(inst.n, mask, s.car);
    ScanCarsBound(inst, mask, last, 0, Res(None, []), s.car, s.zone);
  }

  /** solve is optimal: no valid path that finishes costs less than what it returns. */
  lemma {:induction false} BestIsOptimal(inst: Instance, mask: set<nat>, last: nat, p: seq<Step>)
    requires ValidInstance(inst) && mask <= Cars(inst.n) && last <= |inst.zoneCar|
    requires ValidPath(inst, mask, last, p)
    requires PathCost(inst, p).Some?
    ensures AtMost(Best(inst, mask, last).cost, PathCost(inst, p).value)
    decreases |p|
  {
    if |p| > 0 {
      var s := p[0];
      var q := p[1..];
      GrowMask(inst.n, mask, s.car);
      assert ValidPath(inst, mask + {s.car}, 1 + s.zone, q);
      BestIsOptimal(inst, mask + {s.car}, 1 + s.zone, q);
      assert PathCost(inst, p) == Add(StepCost(inst, s), PathCost(inst, q));
      OptimalStep(inst, mask, last, s, PathCost(inst, q).value);
    }
  }

  /** The first-step loop of solvePlan: car 0 is serviced first, from the
      user's position, and each of its zones is tried with solve({0}, zone). */
  function FirstStep(inst: Instance): Res
    requires ValidInstance(inst) && inst.n >= 1
  {
    ScanZones(inst, {}, 0, 0, 0, Res(None, []))
  }

  /** The inner loop either keeps what it had or ends on a step with car ci. */
  lemma {:induction false} ScanZonesHead(inst: Instance, mask: set<nat>, last: nat, ci: nat, j: nat, best: Res)
    requires ValidInstance(inst) && mask <= Cars(inst.n) && last <= |inst.zoneCar|
    requires ci < inst.n && ci !in mask && j <= |inst.zoneCar|
    ensures var r := ScanZones(inst, mask, last, ci, j, best);
      r == best || (|r.path| > 0 && r.path[0].car == ci)
    decreases |inst.zoneCar| - j
  {
    if j < |inst.zoneCar| {
      ScanZonesStep(inst, mask, last, ci, j, best);
      ScanZonesHead(inst, mask, last, ci, j + 1, AfterZone(inst, mask, last, ci, j, best));
    }
  }

  /** The exact plan is sound: a finite total comes with a valid order that
      starts with car 0 at the user's position and costs exactly that total. */
  lemma FirstStepSound(inst: Instance)
    requires ValidInstance(inst) && inst.n >= 1
    ensures Sound(inst, {}, 0, FirstStep(inst))
    ensures FirstStep(inst).cost.Some? ==> |FirstStep(inst).path| > 0 && FirstStep(inst).path[0].car == 0
  {
    ScanZonesSound(inst, {}, 0, 0, 0, Res(None, []));
    ScanZonesHead(inst, {}, 0, 0, 0, Res(None, []));
  }

  /** The exact plan is optimal among all orders that start with car 0. */
  lemma {:induction false} FirstStepOptimal(inst: Instance, p: seq<Step>)
    requires ValidInstance(inst) && inst.n >= 1
    requires ValidPath(inst, {}, 0, p) && |p| > 0 && p[0].car == 0
    requires PathCost(inst, p).Some?
    ensures AtMost(FirstStep(inst).cost, PathCost(inst, p).value)
  {
    var s := p[0];
    var q := p[1..];
    GrowMask(inst.n, {}, 0);
    assert ValidPath(inst, {0}, 1 + s.zone, q);
    BestIsOptimal(inst, {0}, 1 + s.zone, q);
    assert PathCost(inst, p) == Add(StepCost(inst, s), PathCost(inst, q));
    assert AtMost(Candidate(inst, {}, 0, 0, s.zone), PathCost(inst, p).value);
    ScanZonesBound(inst, {}, 0, 0, 0, Res(None, []), s.zone);
  }

  /** Which cost greedyPlan gives a (car, zone) pair. */
  datatype CostRule =
    | AsWritten   // `walk.duration + drive.duration` in JavaScript: a null driving duration counts as 0
    | Corrected   // an unknown driving duration counts as Infinity, as the `|| { duration: Infinity }` default intends

  /** greedyPlan's cost of servicing car ci with zone node j from coordinate `last`. */
  function PairCost(inst: Instance, rule: CostRule, last: nat, ci: nat, j: nat): Option<real>
    requires ValidInstance(inst) && last <= |inst.zoneCar| && ci < inst.n && j < |inst.zoneCar|
  {
    match rule
    case Corrected => StepCost(inst, Step(ci, j, last))
    case AsWritten => Some(Walk(inst, last, ci) + (if inst.drive[j].Some? then inst.drive[j].value else 0.0))
  }

  /** A candidate of greedyPlan's scan: car, zone node and cost. */
  datatype Pick = Pick(car: nat, zone: nat, cost: Option<real>)

  /** greedyPlan's scan over the zones of car ci from zone node j on: a pair
      replaces the best so far when there is none yet or it is strictly cheaper. */
  function PickZones(inst: Instance, rule: CostRule, last: nat, ci: nat, j: nat, best: Option<Pick>): (r: Option<Pick>)
    requires ValidInstance(inst) && last <= |inst.zoneCar| && ci < inst.n && j <= |inst.zoneCar|
    decreases |inst.zoneCar| - j
  {
    if j == |inst.zoneCar| then best
    else if inst.zoneCar[j] != ci then PickZones(inst, rule, last, ci, j + 1, best)
    else
      var c := PairCost(inst, rule, last, ci, j);
      if best.None? || Less(c, best.value.cost) then PickZones(inst, rule, last, ci, j + 1, Some(Pick(ci, j, c)))
      else PickZones(inst, rule, last, ci, j + 1, best)
  }

  /** greedyPlan's scan over the cars not yet done, from car ci on. */
  function PickCars(inst: Instance, rule: CostRule, done: set<nat>, last: nat, ci: nat, best: Option<Pick>): (r: Option<Pick>)
    requires ValidInstance(inst) && last <= |inst.zoneCar| && ci <= inst.n
    decreases inst.n - ci
  {
    if ci == inst.n then best
    else if ci in done then PickCars(inst, rule, done, last, ci + 1, best)
    else PickCars(inst, rule, done, last, ci + 1, PickZones(inst, rule, last, ci, 0, best))
  }

  /** One round of greedyPlan's while loop. */
  function NextPick(inst: Instance, rule: CostRule, done: set<nat>, last: nat): (r: Option<Pick>)
    requires ValidInstance(inst) && last <= |inst.zoneCar|
    ensures r.Some? ==> r.value.car < inst.n && r.value.car !in done
                        && r.value.zone < |inst.zoneCar| && inst.zoneCar[r.value.zone] == r.value.car
  {
    PickCarsShape(inst, rule, done, last, 0, None);
    PickCars(inst, rule, done, last, 0, None)
  }

  /** No pick, or a zone of a car outside `done`. */
  predicate PickOk(inst: Instance, done: set<nat>, p: Option<Pick>)
  {
    p.Some? ==> p.value.car < inst.n && p.value.car !in done
                && p.value.zone < |inst.zoneCar| && inst.zoneCar[p.value.zone] == p.value.car
  }

  lemma {:induction false} PickZonesShape(inst: Instance, rule: CostRule, done: set<nat>, last: nat, ci: nat, j: nat, best: Option<Pick>)
    requires ValidInstance(inst) && last <= |inst.zoneCar| && ci < inst.n && ci !in done && j <= |inst.zoneCar|
    requires PickOk(inst, done, best)
    ensures PickOk(inst, done, PickZones(inst, rule, last, ci, j, best))
    decreases |inst.zoneCar| - j
  {
    if j < |inst.zoneCar| {
      var c := PairCost(inst, rule, last, ci, j);
      var next := if inst.zoneCar[j] != ci then best
        else if best.None? || Less(c, best.value.cost) then Some(Pick(ci, j, c)) else best;
      assert PickZones(inst, rule, last, ci, j, best) == PickZones(inst, rule, last, ci, j + 1, next);
      PickZonesShape(inst, rule, done, last, ci, j + 1, next);
    }
  }

  lemma {:induction false} PickCarsShape(inst: Instance, rule: CostRule, done: set<nat>, last: nat, ci: nat, best: Option<Pick>)
    requires ValidInstance(inst) && last <= |inst.zoneCar| && ci <= inst.n
    requires PickOk(inst, done, best)
    ensures PickOk(inst, done, PickCars(inst, rule, done, last, ci, best))
    decreases inst.n - ci
  {
    if ci < inst.n {
      var mid := if ci in done then best else PickZones(inst, rule, last, ci, 0, best);
      if ci !in done {
        PickZonesShape(inst, rule, done, last, ci, 0, best);
      }
      PickCarsShape(inst, rule, done, last, ci + 1, mid);
    }
  }

  /** The steps greedyPlan's while loop appends once `done` holds the cars
      serviced so far and the user stands at coordinate `last`. */
  function GreedyFrom(inst: Instance, rule: CostRule, done: set<nat>, last: nat): seq<Step>
    requires ValidInstance(inst) && last <= |inst.zoneCar|
    decreases inst.n - |done|, 1
  {
    if |done| >= inst.n then [] else GreedyRound(inst, rule, done, last, NextPick(inst, rule, done, last))
  }

  /** One round of the loop with its pick: stop when there is none, otherwise
      record the step and continue from the chosen zone. */
  function GreedyRound(inst: Instance, rule: CostRule, done: set<nat>, last: nat, p: Option<Pick>): seq<Step>
    requires ValidInstance(inst) && last <= |inst.zoneCar| && |done| < inst.n && PickOk(inst, done, p)
    decreases inst.n - |done|, 0
  {
    if p.None? then []
    else [Step(p.value.car, p.value.zone, last)] + GreedyFrom(inst, rule, done + {p.value.car}, 1 + p.value.zone)
  }

  /** The first zone node of car ci at or after j (`zonesForCar(ci)[0]`). */
  function FirstZoneOf(inst: Instance, ci: nat, j: nat): (r: Option<nat>)
    requires j <= |inst.zoneCar|
    ensures r.Some? ==> j <= r.value < |inst.zoneCar| && inst.zoneCar[r.value] == ci
                        && forall z :: j <= z < r.value ==> inst.zoneCar[z] != ci
    ensures r.None? ==> forall z :: j <= z < |inst.zoneCar| ==> inst.zoneCar[z] != ci
    decreases |inst.zoneCar| - j
  {
    if j == |inst.zoneCar| then None
    else if inst.zoneCar[j] == ci then Some(j)
    else FirstZoneOf(inst, ci, j + 1)
  }

  /** greedyPlan: car 0 first, with the cheapest of its zones (its first zone
      when no cost is finite), then the rounds of the while loop. */
  function Greedy(inst: Instance, rule: CostRule): seq<Step>
    requires ValidInstance(inst) && inst.n >= 1 && FirstZoneOf(inst, 0, 0).Some?
  {
    var z0 := FirstZoneOf(inst, 0, 0).value;
    SeededFirstPick(inst, rule);
    var first := PickZones(inst, rule, 0, 0, 0, Some(Pick(0, z0, None))).value;
    [Step(0, first.zone, 0)] + GreedyFrom(inst, rule, {0}, 1 + first.zone)
  }

  /** `a <= b` on durations where None is Infinity. */
  predicate NoWorse(a: Option<real>, b: Option<real>)
  {
    !Less(b, a)
  }

  ghost predicate IsPair(inst: Instance, done: set<nat>, c: nat, z: nat)
  {
    c < inst.n && c !in done && z < |inst.zoneCar| && inst.zoneCar[z] == c
  }

  /** Pair (c, z) comes before position (ci, j) in greedyPlan's scan order. */
  predicate Before(c: nat, z: nat, ci: nat, j: nat)
  {
    c < ci || (c == ci && z < j)
  }

  /** What the scan has established once it reaches position (ci, j): the best
      so far is the first of the cheapest pairs seen. */
  ghost predicate PickInv(inst: Instance, rule: CostRule, done: set<nat>, last: nat, ci: nat, j: nat, best: Option<Pick>)
    requires ValidInstance(inst) && last <= |inst.zoneCar|
  {
    match best
    case None => forall c, z :: IsPair(inst, done, c, z) ==> !Before(c, z, ci, j)
    case Some(p) =>
      && IsPair(inst, done, p.car, p.zone) && Before(p.car, p.zone, ci, j)
      && p.cost == PairCost(inst, rule, last, p.car, p.zone)
      && (forall c, z :: IsPair(inst, done, c, z) && Before(c, z, ci, j) ==>
            NoWorse(p.cost, PairCost(inst, rule, last, c, z)))
      && (forall c, z :: IsPair(inst, done, c, z) && Before(c, z, p.car, p.zone) ==>
            Less(p.cost, PairCost(inst, rule, last, c, z)))
  }

  lemma {:induction false} PickZonesInv(inst: Instance, rule: CostRule, done: set<nat>, last: nat, ci: nat, j: nat, best: Option<Pick>)
    requires ValidInstance(inst) && last <= |inst.zoneCar| && ci < inst.n && ci !in done && j <= |inst.zoneCar|
    requires PickInv(inst, rule, done, last, ci, j, best)
    ensures PickInv(inst, rule, done, last, ci + 1, 0, PickZones(inst, rule, last, ci, j, best))
    decreases |inst.zoneCar| - j
  {
    if j == |inst.zoneCar| {
      assert forall c, z :: IsPair(inst, done, c, z) ==> (Before(c, z, ci, j) <==> Before(c, z, ci + 1, 0));
    } else {
      var next := if inst.zoneCar[j] != ci then best
        else
          var c := PairCost(inst, rule, last, ci, j);
          if best.None? || Less(c, best.value.cost) then Some(Pick(ci, j, c)) else best;
      assert PickZones(inst, rule, last, ci, j, best) == PickZones(inst, rule, last, ci, j + 1, next);
      assert forall c, z :: IsPair(inst, done, c, z) ==>
        (Before(c, z, ci, j + 1) <==> Before(c, z, ci, j) || (c == ci && z == j));
      PickZonesInv(inst, rule, done, last, ci, j + 1, next);
    }
  }

  lemma {:induction false} PickCarsInv(inst: Instance, rule: CostRule, done: set<nat>, last: nat, ci: nat, best: Option<Pick>)
    requires ValidInstance(inst) && last <= |inst.zoneCar| && ci <= inst.n
    requires PickInv(inst, rule, done, last, ci, 0, best)
    ensures PickInv(inst, rule, done, last, inst.n, 0, PickCars(inst, rule, done, last, ci, best))
    decreases inst.n - ci
  {
    if ci < inst.n {
      var mid := if ci in done then best else PickZones(inst, rule, last, ci, 0, best);
      if ci in done {
        assert forall c, z :: IsPair(inst, done, c, z) ==> (Before(c, z, ci, 0) <==> Before(c, z, ci + 1, 0));
      } else {
        PickZonesInv(inst, rule, done, last, ci, 0, best);
      }
      PickCarsInv(inst, rule, done, last, ci + 1, mid);
    }
  }

  /** Each greedy round picks the first of the cheapest remaining (car, zone)
      pairs in scan order (cars by index, zones in zonesNodes order), and
      finds nothing exactly when no car outside `done` has a zone. */
  lemma NextPickIsFirstCheapest(inst: Instance, rule: CostRule, done: set<nat>, last: nat)
    requires ValidInstance(inst) && last <= |inst.zoneCar|
    ensures var r := NextPick(inst, rule, done, last);
      && (r.None? <==> forall c, z :: !IsPair(inst, done, c, z))
      && (r.Some? ==>
            && IsPair(inst, done, r.value.car, r.value.zone)
            && r.value.cost == PairCost(inst, rule, last, r.value.car, r.value.zone)
            && (forall c, z :: IsPair(inst, done, c, z) ==> NoWorse(r.value.cost, PairCost(inst, rule, last, c, z)))
            && (forall c, z :: IsPair(inst, done, c, z) && Before(c, z, r.value.car, r.value.zone) ==>
                  Less(r.value.cost, PairCost(inst, rule, last, c, z))))
  {
    PickCarsInv(inst, rule, done, last, 0, None);
  }

  /** A round finds a pick whenever some car outside `done` has a zone. */
  lemma NextPickFinds(inst: Instance, rule: CostRule, done: set<nat>, last: nat, c: nat, z: nat)
    requires ValidInstance(inst) && last <= |inst.zoneCar|
    requires c < inst.n && c !in done && z < |inst.zoneCar| && inst.zoneCar[z] == c
    ensures NextPick(inst, rule, done, last).Some?
  {
    NextPickIsFirstCheapest(inst, rule, done, last);
    assert IsPair(inst, done, c, z);
  }

  /** Seeding the first-step scan with (first zone, Infinity), as greedyPlan
      does, picks what an unseeded scan of car 0 picks. */
  lemma {:induction false} SeedIrrelevant(inst: Instance, rule: CostRule, j: nat, z0: nat)
    requires ValidInstance(inst) && inst.n >= 1 && j <= |inst.zoneCar|
    requires FirstZoneOf(inst, 0, j) == Some(z0)
    ensures PickZones(inst, rule, 0, 0, j, Some(Pick(0, z0, None))) == PickZones(inst, rule, 0, 0, j, None)
    decreases |inst.zoneCar| - j
  {
    if j < z0 {
      SeedIrrelevant(inst, rule, j + 1, z0);
    } else {
      var c := PairCost(inst, rule, 0, 0, z0);
      assert PickZones(inst, rule, 0, 0, j, Some(Pick(0, z0, None))) == PickZones(inst, rule, 0, 0, j + 1, Some(Pick(0, z0, c)));
    }
  }

  /** The first-step scan of greedyPlan takes the first of car 0's cheapest zones. */
  lemma SeededFirstPick(inst: Instance, rule: CostRule)
    requires ValidInstance(inst) && inst.n >= 1 && FirstZoneOf(inst, 0, 0).Some?
    ensures var r := PickZones(inst, rule, 0, 0, 0, Some(Pick(0, FirstZoneOf(inst, 0, 0).value, None)));
      && r.Some? && r.value.car == 0 && r.value.zone < |inst.zoneCar| && inst.zoneCar[r.value.zone] == 0
      && (forall z :: 0 <= z < |inst.zoneCar| && inst.zoneCar[z] == 0 ==>
            NoWorse(PairCost(inst, rule, 0, 0, r.value.zone), PairCost(inst, rule, 0, 0, z)))
      && (forall z :: 0 <= z < r.value.zone && inst.zoneCar[z] == 0 ==>
            Less(PairCost(inst, rule, 0, 0, r.value.zone), PairCost(inst, rule, 0, 0, z)))
  {
    var z0 := FirstZoneOf(inst, 0, 0).value;
    var others := Cars(inst.n) - {0};
    SeedIrrelevant(inst, rule, 0, z0);
    PickZonesInv(inst, rule, others, 0, 0, 0, None);
    assert IsPair(inst, others, 0, z0);
    assert forall z :: 0 <= z < |inst.zoneCar| && inst.zoneCar[z] == 0 ==> IsPair(inst, others, 0, z);
  }

  /** greedyPlan's first step takes car 0 from the user's position to the
      first of its cheapest zones. */
  lemma GreedyFirstIsFirstCheapest(inst: Instance, rule: CostRule)
    requires ValidInstance(inst) && inst.n >= 1 && FirstZoneOf(inst, 0, 0).Some?
    ensures var s := Greedy(inst, rule)[0];
      && s.car == 0 && s.from == 0 && s.zone < |inst.zoneCar| && inst.zoneCar[s.zone] == 0
      && (forall z :: 0 <= z < |inst.zoneCar| && inst.zoneCar[z] == 0 ==>
            NoWorse(PairCost(inst, rule, 0, 0, s.zone), PairCost(inst, rule, 0, 0, z)))
      && (forall z :: 0 <= z < s.zone && inst.zoneCar[z] == 0 ==>
            Less(PairCost(inst, rule, 0, 0, s.zone), PairCost(inst, rule, 0, 0, z)))
  {
    SeededFirstPick(inst, rule);
  }

  /** Car c has at least one hot zone (zonesForCar(c) is not empty). */
  ghost predicate HasZone(inst: Instance, c: nat)
  {
    exists z :: 0 <= z < |inst.zoneCar| && inst.zoneCar[z] == c
  }

  /** A step that services a car outside `mask` with one of its zones, from
      coordinate `last`, extends a valid prefix that continues from its zone. */
  lemma ConsPrefix(inst: Instance, mask: set<nat>, last: nat, c: nat, z: nat, rest: seq<Step>)
    requires ValidInstance(inst) && last <= |inst.zoneCar|
    requires c < inst.n && c !in mask && z < |inst.zoneCar| && inst.zoneCar[z] == c
    requires ValidPrefix(inst, mask + {c}, 1 + z, rest)
    ensures ValidPrefix(inst, mask, last, [Step(c, z, last)] + rest)
  {
    assert ([Step(c, z, last)] + rest)[1..] == rest;
  }

  lemma CarsOfCons(s: Step, rest: seq<Step>)
    ensures CarsOf([s] + rest) == {s.car} + CarsOf(rest)
  {
    assert ([s] + rest)[1..] == rest;
  }

  /** The rounds of greedyPlan's loop form a valid order. */
  lemma {:induction false} GreedyFromValid(inst: Instance, rule: CostRule, done: set<nat>, last: nat)
    requires ValidInstance(inst) && last <= |inst.zoneCar|
    ensures ValidPrefix(inst, done, last, GreedyFrom(inst, rule, done, last))
    decreases inst.n - |done|, 1
  {
    if |done| < inst.n {
      GreedyRoundValid(inst, rule, done, last, NextPick(inst, rule, done, last));
    }
  }

  lemma {:induction false} GreedyRoundValid(inst: Instance, rule: CostRule, done: set<nat>, last: nat, p: Option<Pick>)
    requires ValidInstance(inst) && last <= |inst.zoneCar| && |done| < inst.n && PickOk(inst, done, p)
    ensures ValidPrefix(inst, done, last, GreedyRound(inst, rule, done, last, p))
    decreases inst.n - |done|, 0
  {
    if p.Some? {
      var c := p.value.car;
      var rest := GreedyFrom(inst, rule, done + {c}, 1 + p.value.zone);
      GreedyFromValid(inst, rule, done + {c}, 1 + p.value.zone);
      ConsPrefix(inst, done, last, c, p.value.zone, rest);
    }
  }

  /** The rounds of greedyPlan's loop service every car outside `done` that
      has a zone: the loop ends only when every car is done or no remaining
      car has a zone. */
  lemma {:induction false} GreedyFromServicesCar(inst: Instance, rule: CostRule, done: set<nat>, last: nat, c: nat)
    requires ValidInstance(inst) && done <= Cars(inst.n) && last <= |inst.zoneCar|
    requires c < inst.n && c !in done && HasZone(inst, c)
    ensures c in CarsOf(GreedyFrom(inst, rule, done, last))
    decreases inst.n - |done|, 1
  {
    MaskSize(inst.n, done);
    var z :| 0 <= z < |inst.zoneCar| && inst.zoneCar[z] == c;
    NextPickFinds(inst, rule, done, last, c, z);
    GreedyRoundServicesCar(inst, rule, done, last, NextPick(inst, rule, done, last), c);
  }

  lemma {:induction false} GreedyRoundServicesCar(inst: Instance, rule: CostRule, done: set<nat>, last: nat, p: Option<Pick>, c: nat)
    requires ValidInstance(inst) && done <= Cars(inst.n) && last <= |inst.zoneCar| && |done| < inst.n
    requires PickOk(inst, done, p) && p.Some?
    requires c < inst.n && c !in done && HasZone(inst, c)
    ensures c in CarsOf(GreedyRound(inst, rule, done, last, p))
    decreases inst.n - |done|, 0
  {
    var q := p.value;
    var rest := GreedyFrom(inst, rule, done + {q.car}, 1 + q.zone);
    assert GreedyRound(inst, rule, done, last, p) == [Step(q.car, q.zone, last)] + rest;
    CarsOfCons(Step(q.car, q.zone, last), rest);
    if q.car != c {
      GrowMask(inst.n, done, q.car);
      GreedyFromServicesCar(inst, rule, done + {q.car}, 1 + q.zone, c);
    }
  }

  lemma GreedyServices(inst: Instance, rule: CostRule)
    requires ValidInstance(inst) && inst.n >= 1 && FirstZoneOf(inst, 0, 0).Some?
    ensures var g := Greedy(inst, rule);
      && ValidPrefix(inst, {}, 0, g) && |g| > 0 && g[0].car == 0 && g[0].from == 0
      && forall c: nat :: c in CarsOf(g) <==> c < inst.n && HasZone(inst, c)
  {
    var g := Greedy(inst, rule);
    var z0 := FirstZoneOf(inst, 0, 0).value;
    SeededFirstPick(inst, rule);
    var first := PickZones(inst, rule, 0, 0, 0, Some(Pick(0, z0, None))).value;
    GrowMask(inst.n, {}, 0);
    assert {} + {0} == {0};
    var rest := GreedyFrom(inst, rule, {0}, 1 + first.zone);
    assert g == [Step(0, first.zone, 0)] + rest;
    GreedyFromValid(inst, rule, {0}, 1 + first.zone);
    ConsPrefix(inst, {}, 0, 0, first.zone, rest);
    CarsOfCons(Step(0, first.zone, 0), rest);
    forall c: nat | c < inst.n && HasZone(inst, c) ensures c in CarsOf(g) {
      if c != 0 {
        GreedyFromServicesCar(inst, rule, {0}, 1 + first.zone, c);
      }
    }
    forall c: nat | c in CarsOf(g) ensures c < inst.n && HasZone(inst, c) {
      ValidPrefixZoned(inst, {}, 0, g, c);
    }
  }

  /** A car a valid prefix services is outside the mask and has a zone. */
  lemma {:induction false} ValidPrefixZoned(inst: Instance, mask: set<nat>, last: nat, p: seq<Step>, c: nat)
    requires ValidInstance(inst) && ValidPrefix(inst, mask, last, p) && c in CarsOf(p)
    ensures c < inst.n && c !in mask && HasZone(inst, c)
    decreases |p|
  {
    if p[0].car != c {
      ValidPrefixZoned(inst, mask + {p[0].car}, 1 + p[0].zone, p[1..], c);
    }
  }

  /** When every car has a zone, greedyPlan's order is a complete order the
      exact search also considers. */
  lemma GreedyComplete(inst: Instance, rule: CostRule)
    requires ValidInstance(inst) && inst.n >= 1
    requires forall c: nat :: c < inst.n ==> HasZone(inst, c)
    ensures FirstZoneOf(inst, 0, 0).Some?
    ensures ValidPath(inst, {}, 0, Greedy(inst, rule)) && Greedy(inst, rule)[0].car == 0
  {
    assert HasZone(inst, 0);
    var g := Greedy(inst, rule);
    GreedyServices(inst, rule);
    ValidPrefixCars(inst, {}, 0, g);
    assert CarsOf(g) == Cars(inst.n);
  }

  /** For up to EXACT_LIMIT cars the exact plan is never worse than the greedy
      fallback's order with a known total. */
  lemma ExactNoWorseThanGreedy(inst: Instance)
    requires ValidInstance(inst) && inst.n >= 1
    requires forall c: nat :: c < inst.n ==> HasZone(inst, c)
    requires FirstZoneOf(inst, 0, 0).Some? && PathCost(inst, Greedy(inst, Corrected)).Some?
    ensures AtMost(FirstStep(inst).cost, PathCost(inst, Greedy(inst, Corrected)).value)
  {
    GreedyComplete(inst, Corrected);
    FirstStepOptimal(inst, Greedy(inst, Corrected));
  }

  /** As written, greedyPlan adds a null driving duration as 0, so a zone OSRM
      cannot reach by car looks cheaper than every reachable one. Here car 0 has
      two zones, the first without a driving duration: the code as written
      sends car 0 to the unreachable zone, the corrected cost to the other. */
  lemma {:induction false} NullDriveCountsAsZero(inst: Instance, z0: nat, z1: nat)
    requires ValidInstance(inst) && inst.n >= 1
    requires z0 < z1 < |inst.zoneCar| && inst.zoneCar[z0] == 0 && inst.zoneCar[z1] == 0
    requires inst.drive[z0].None? && inst.drive[z1].Some? && inst.drive[z1].value >= 0.0
    requires forall z :: 0 <= z < |inst.zoneCar| && inst.zoneCar[z] == 0 ==> z == z0 || z == z1
    ensures FirstZoneOf(inst, 0, 0).Some?
    ensures Greedy(inst, AsWritten)[0] == Step(0, z0, 0)
    ensures StepCost(inst, Greedy(inst, AsWritten)[0]).None?
    ensures Greedy(inst, Corrected)[0] == Step(0, z1, 0)
    ensures StepCost(inst, Greedy(inst, Corrected)[0]).Some?
  {
    assert FirstZoneOf(inst, 0, 0).Some? by {
      if FirstZoneOf(inst, 0, 0).None? {
        assert false;
      }
    }
    GreedyFirstIsFirstCheapest(inst, AsWritten);
    GreedyFirstIsFirstCheapest(inst, Corrected);
  }

  /** The memoised solver: `solve` with its memo table as a field. */
  class Solver {
    const inst: Instance
    var memo: map<(set<nat>, nat), Res>

    /** Every memo entry holds the value solve computes for its key. */
    ghost predicate Valid()
      reads this
    {
      && ValidInstance(inst)
      && forall k :: k in memo ==> k.0 <= Cars(inst.n) && k.1 <= |inst.zoneCar| && memo[k] == Best(inst, k.0, k.1)
    }

    constructor (inst: Instance)
      requires ValidInstance(inst)
      ensures Valid() && this.inst == inst && memo == map[]
    {
      this.inst := inst;
      memo := map[];
    }

    /** solve(mask, lastCoordIdx): answers from the memo when it can, and stores what it computes. */
    method Solve(mask: set<nat>, last: nat) returns (r: Res)
      requires Valid() && mask <= Cars(inst.n) && last <= |inst.zoneCar|
      modifies this
      ensures Valid()
      ensures r == Best(inst, mask, last)
      ensures (mask, last) in memo && memo[(mask, last)] == r
      ensures old(memo).Keys <= memo.Keys
      ensures (mask, last) in old(memo) ==> memo == old(memo)
      decreases inst.n - |mask|, 2
    {
      var key := (mask, last);
      if key in memo {
        return memo[key];
      }
      if |mask| == inst.n {
        r := Res(Some(0.0), []);
        memo := memo[key := r];
        return;
      }
      var best := Res(None, []);
      var ci := 0;
      while ci < inst.n
        invariant 0 <= ci <= inst.n
        invariant Valid() && old(memo).Keys <= memo.Keys
        invariant ScanCars(inst, mask, last, ci, best) == Best(inst, mask, last)
      {
        if ci !in mask {
          best := ServiceCar(mask, last, ci, best);
        }
        ci := ci + 1;
      }
      r := best;
      memo := memo[key := r];
    }
  
    /** One pass of solve's inner loop: every zone of car ci, in zonesNodes order. */
    method ServiceCar(mask: set<nat>, last: nat, ci: nat, best: Res) returns (r: Res)
      requires Valid() && mask <= Cars(inst.n) && last <= |inst.zoneCar|
      requires ci < inst.n && ci !in mask
      modifies this
      ensures Valid() && old(memo).Keys <= memo.Keys
      ensures r == ScanZones(inst, mask, last, ci, 0, best)
      decreases inst.n - |mask|, 1
    {
      r := best;
      var j := 0;
      while j < |inst.zoneCar|
        invariant 0 <= j <= |inst.zoneCar|
        invariant Valid() && old(memo).Keys <= memo.Keys
        invariant ScanZones(inst, mask, last, ci, j, r) == ScanZones(inst, mask, last, ci, 0, best)
      {
        ScanZonesStep(inst, mask, last, ci, j, r);
        r := ServiceZone(mask, last, ci, j, r);
        j := j + 1;
      }
    }

    /** The body of solve's inner loop for zone node j. */
    method ServiceZone(mask: set<nat>, last: nat, ci: nat, j: nat, best: Res) returns (r: Res)
      requires Valid() && mask <= Cars(inst.n) && last <= |inst.zoneCar|
      requires ci < inst.n && ci !in mask && j < |inst.zoneCar|
      modifies this
      ensures Valid() && old(memo).Keys <= memo.Keys
      ensures r == AfterZone(inst, mask, last, ci, j, best)
      decreases inst.n - |mask|, 0
    {
      r := best;
      if inst.zoneCar[j] == ci {
        var walk := Walk(inst, last, ci);
        if inst.drive[j].Some? {
          GrowMask(inst.n, mask, ci);
          var next := Solve(mask + {ci}, 1 + j);
          var total := if next.cost.Some? then Some(walk + inst.drive[j].value + next.cost.value) else None;
          if Less(total, best.cost) {
            r := Res(total, [Step(ci, j, last)] + next.path);
          }
        }
      }
    }

    /** The first-step loop of solvePlan, sharing solve's memo table. */
    method PlanExact() returns (r: Res)
      requires Valid() && inst.n >= 1
      modifies this
      ensures Valid() && r == FirstStep(inst)
    {
      r := ServiceCar({}, 0, 0, Res(None, []));
    }
  }

  /** greedyPlan's scan over the zones of car ci (the `for (const z of zs)` loop). */
  method PickZonesLoop(inst: Instance, rule: CostRule, last: nat, ci: nat, best: Option<Pick>) returns (r: Option<Pick>)
    requires ValidInstance(inst) && last <= |inst.zoneCar| && ci < inst.n
    ensures r == PickZones(inst, rule, last, ci, 0, best)
  {
    r := best;
    var j := 0;
    while j < |inst.zoneCar|
      invariant 0 <= j <= |inst.zoneCar|
      invariant PickZones(inst, rule, last, ci, j, r) == PickZones(inst, rule, last, ci, 0, best)
    {
      if inst.zoneCar[j] == ci {
        var c := PairCost(inst, rule, last, ci, j);
        if r.None? || Less(c, r.value.cost) {
          r := Some(Pick(ci, j, c));
        }
      }
      j := j + 1;
    }
  }

  /** One round of greedyPlan's while loop: every car not yet done, every zone of it. */
  method NextPickLoop(inst: Instance, rule: CostRule, done: set<nat>, last: nat) returns (r: Option<Pick>)
    requires ValidInstance(inst) && last <= |inst.zoneCar|
    ensures r == NextPick(inst, rule, done, last)
  {
    r := None;
    var ci := 0;
    while ci < inst.n
      invariant 0 <= ci <= inst.n
      invariant PickCars(inst, rule, done, last, ci, r) == NextPick(inst, rule, done, last)
    {
      if ci !in done {
        r := PickZonesLoop(inst, rule, last, ci, r);
      }
      ci := ci + 1;
    }
  }

  /** greedyPlan: the first step forced to car 0, then rounds until every car
      is done or no remaining car has a zone. None where the source fails
      because car 0 has no zone (`bestZ` is undefined). */
  method GreedyPlan(inst: Instance, rule: CostRule) returns (r: Option<seq<Step>>)
    requires ValidInstance(inst) && inst.n >= 1
    ensures r.None? <==> FirstZoneOf(inst, 0, 0).None?
    ensures r.Some? ==> r.value == Greedy(inst, rule)
  {
    var z0 := FirstZoneOf(inst, 0, 0);
    if z0.None? {
      return None;
    }
    SeededFirstPick(inst, rule);
    var first := PickZonesLoop(inst, rule, 0, 0, Some(Pick(0, z0.value, None)));
    var steps := [Step(0, first.value.zone, 0)];
    var done: set<nat> := {0};
    var last: nat := 1 + first.value.zone;
    while |done| < inst.n
      invariant last <= |inst.zoneCar|
      invariant steps + GreedyFrom(inst, rule, done, last) == Greedy(inst, rule)
      decreases inst.n - |done|
    {
      var p := NextPickLoop(inst, rule, done, last);
      if p.None? {
        break;
      }
      var rest := GreedyFrom(inst, rule, done + {p.value.car}, 1 + p.value.zone);
      assert GreedyFrom(inst, rule, done, last) == [Step(p.value.car, p.value.zone, last)] + rest;
      assert steps + ([Step(p.value.car, p.value.zone, last)] + rest)
          == (steps + [Step(p.value.car, p.value.zone, last)]) + rest;
      steps := steps + [Step(p.value.car, p.value.zone, last)];
      done := done + {p.value.car};
      last := 1 + p.value.zone;
    }
    assert GreedyFrom(inst, rule, done, last) == [];
    return Some(steps);
  }

  /** solvePlan's choice between the exact search (up to EXACT_LIMIT cars) and
      greedyPlan. */
  const ExactLimit: nat := 8

  /** The order solvePlan hands to buildPlanDetails: the exact optimum for at
      most ExactLimit cars, greedyPlan's order under `rule` for more (AsWritten
      is the order app.js produces, Corrected the intended one). None where the
      source fails: no finite exact total (buildPlanDetails is given null
      steps), or car 0 without a zone in the greedy branch. */
  method SolveOrder(inst: Instance, rule: CostRule) returns (r: Option<seq<Step>>)
    requires ValidInstance(inst) && inst.n >= 1
    ensures inst.n > ExactLimit ==>
      r == if FirstZoneOf(inst, 0, 0).Some? then Some(Greedy(inst, rule)) else None
    ensures inst.n <= ExactLimit ==>
      (r.Some? <==> FirstStep(inst).cost.Some?) && (r.Some? ==> r.value == FirstStep(inst).path)
    ensures inst.n <= ExactLimit && r.Some? ==>
      ValidPath(inst, {}, 0, r.value) && PathCost(inst, r.value) == FirstStep(inst).cost
    ensures r.Some? ==> ValidPrefix(inst, {}, 0, r.value) && |r.value| > 0 && r.value[0].car == 0
  {
    if inst.n > ExactLimit {
      r := GreedyPlan(inst, rule);
      if r.Some? {
        GreedyServices(inst, rule);
      }
      return;
    }
    var solver := new Solver(inst);
    var res := solver.PlanExact();
    FirstStepSound(inst);
    if res.cost.None? {
      return None;
    }
    return Some(res.path);
  }
}
