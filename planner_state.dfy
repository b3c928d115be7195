/** The planner's selection state in app.js: which cars are on the map, which
    are hidden, which are selected, the hot zones drawn for each car and the
    car currently in "add hot zone" mode. The handlers that edit this state in
    place (hideCar, onMapClick, the pruning of vanished cars in refreshCars)
    and the candidate filter that reads it (getCandidateCars) live here.
    Rendering, persistence and timers around these handlers are not modelled. */
module PlannerState {
  import opened Common

  type CarId = string

  /** A car as normalizeCar returns it (the fields planning uses). */
  datatype Car = Car(id: CarId, plate: string, lat: real, lng: real)

  /** A hot zone the user tapped on the map. */
  datatype Zone = Zone(lat: real, lng: real, createdAt: int)

  /** getCandidateCars keeps a car when it has at least one zone and is not hidden. */
  predicate IsCandidate(c: Car, zonesByCar: map<CarId, seq<Zone>>, hidden: set<CarId>)
  {
    c.id in zonesByCar && |zonesByCar[c.id]| > 0 && c.id !in hidden
  }

  /** The cars getCandidateCars returns, as a function of the state. */
  function Candidates(cars: seq<Car>, zonesByCar: map<CarId, seq<Zone>>, hidden: set<CarId>): seq<Car>
  {
    if |cars| == 0 then []
    else
      var rest := Candidates(cars[..|cars| - 1], zonesByCar, hidden);
      if IsCandidate(cars[|cars| - 1], zonesByCar, hidden) then rest + [cars[|cars| - 1]] else rest
  }

  /** getCandidateCars returns exactly the cars that have a zone and are not
      hidden, in the order of the car list. */
  lemma {:induction false} CandidatesExactly(cars: seq<Car>, zonesByCar: map<CarId, seq<Zone>>, hidden: set<CarId>)
    ensures forall c :: c in Candidates(cars, zonesByCar, hidden) <==> c in cars && IsCandidate(c, zonesByCar, hidden)
    ensures IsSubsequence(Candidates(cars, zonesByCar, hidden), cars)
  {
    if |cars| > 0 {
      var init := cars[..|cars| - 1];
      var last := cars[|cars| - 1];
      CandidatesExactly(init, zonesByCar, hidden);
      assert cars == init + [last];
      var rest := Candidates(init, zonesByCar, hidden);
      SubsequenceExtend(rest, init, last);
    }
  }

  /** The bounding box refreshCars keeps (roughly Budapest). */
  predicate InServiceArea(c: Car)
  {
    !(c.lat < 47.2 || c.lat > 47.8 || c.lng < 18.7 || c.lng > 19.6)
  }

  /** `new Map(cars.map(c => [c.id, c]))`: a later car with the same id wins. */
  function ById(cars: seq<Car>): (m: map<CarId, Car>)
    ensures forall id :: id in m <==> exists c :: c in cars && c.id == id
    ensures forall id :: id in m ==> m[id] in cars && m[id].id == id
  {
    if |cars| == 0 then map[]
    else
      var rest := ById(cars[..|cars| - 1]);
      assert forall c :: c in cars <==> c in cars[..|cars| - 1] || c == cars[|cars| - 1] by {
        assert cars == cars[..|cars| - 1] + [cars[|cars| - 1]];
      }
      rest[cars[|cars| - 1].id := cars[|cars| - 1]]
  }

  function Ids(cars: seq<Car>): set<CarId>
  {
    set c | c in cars :: c.id
  }

  class Planner {
    var cars: seq<Car>
    var carsById: map<CarId, Car>
    var selectedCars: set<CarId>
    var hiddenCars: set<CarId>
    var zonesByCar: map<CarId, seq<Zone>>
    var activeCarId: Option<CarId>

    /** The initial state of app.js before anything is loaded. */
    constructor ()
      ensures cars == [] && carsById == map[] && selectedCars == {} && hiddenCars == {}
      ensures zonesByCar == map[] && activeCarId == None
    {
      cars := [];
      carsById := map[];
      selectedCars := {};
      hiddenCars := {};
      zonesByCar := map[];
      activeCarId := None;
    }

    /** getCandidateCars */
    method GetCandidateCars() returns (out: seq<Car>)
      ensures out == Candidates(cars, zonesByCar, hiddenCars)
      ensures forall c :: c in out <==> c in cars && IsCandidate(c, zonesByCar, hiddenCars)
      ensures IsSubsequence(out, cars)
    {
      out := [];
      var i := 0;
      while i < |cars|
        invariant 0 <= i <= |cars|
        invariant out == Candidates(cars[..i], zonesByCar, hiddenCars)
      {
        var c := cars[i];
        assert cars[..i + 1][..i] == cars[..i];
        if c.id in zonesByCar && |zonesByCar[c.id]| > 0 && c.id !in hiddenCars {
          out := out + [c];
        }
        i := i + 1;
      }
      assert cars[..i] == cars;
      CandidatesExactly(cars, zonesByCar, hiddenCars);
    }

    /** hideCar: hidden, unselected, its zones dropped, add-zone mode left if it was on. */
    method HideCar(carId: CarId)
      modifies this
      ensures hiddenCars == old(hiddenCars) + {carId}
      ensures selectedCars == old(selectedCars) - {carId}
      ensures zonesByCar == old(zonesByCar) - {carId}
      ensures activeCarId == if old(activeCarId) == Some(carId) then None else old(activeCarId)
      ensures cars == old(cars) && carsById == old(carsById)
    {
      hiddenCars := hiddenCars + {carId};
      selectedCars := selectedCars - {carId};
      zonesByCar := zonesByCar - {carId};
      if activeCarId == Some(carId) {
        activeCarId := None;
      }
    }

    /** onMapClick: with a car in add-zone mode, append a zone at the tapped point
        and select the car; a car that no longer exists leaves add-zone mode. An
        empty id counts as no car (the source tests it for truthiness). */
    method OnMapClick(lat: real, lng: real, now: int)
      modifies this
      ensures old(activeCarId).None? || old(activeCarId).value == "" ==>
                activeCarId == old(activeCarId) && zonesByCar == old(zonesByCar) && selectedCars == old(selectedCars)
      ensures old(activeCarId).Some? && old(activeCarId).value != "" && old(activeCarId).value !in carsById ==>
                activeCarId == None && zonesByCar == old(zonesByCar) && selectedCars == old(selectedCars)
      ensures old(activeCarId).Some? && old(activeCarId).value != "" && old(activeCarId).value in carsById ==>
                var id := old(activeCarId).value;
                activeCarId == old(activeCarId)
                && zonesByCar == old(zonesByCar)[id := (if id in old(zonesByCar) then old(zonesByCar)[id] else []) + [Zone(lat, lng, now)]]
                && selectedCars == old(selectedCars) + {id}
      ensures cars == old(cars) && carsById == old(carsById) && hiddenCars == old(hiddenCars)
    {
      if activeCarId.None? || activeCarId.value == "" {
        return;
      }
      var carId := activeCarId.value;
      if carId !in carsById {
        activeCarId := None;
        return;
      }
      if carId !in zonesByCar {
        zonesByCar := zonesByCar[carId := []];
      }
      zonesByCar := zonesByCar[carId := zonesByCar[carId] + [Zone(lat, lng, now)]];
      selectedCars := selectedCars + {carId};
    }

    /** The state update of refreshCars once the feed is parsed: keep the
        normalised cars inside the service area, forget zones, selection and
        hiding of every previously known car that is no longer in the feed,
        then replace the car list and the index by id. `feed` holds
        normalizeCar's result per raw record (None where it returned null). */
    method RefreshCars(feed: seq<Option<Car>>)
      modifies this
      ensures cars == Kept(feed)
      ensures carsById == ById(Kept(feed))
      ensures zonesByCar == old(zonesByCar) - (old(carsById).Keys - Ids(Kept(feed)))
      ensures selectedCars == old(selectedCars) - (old(carsById).Keys - Ids(Kept(feed)))
      ensures hiddenCars == old(hiddenCars) - (old(carsById).Keys - Ids(Kept(feed)))
      ensures activeCarId == old(activeCarId)
    {
      var kept := KeepCars(feed);
      var newIds := Ids(kept);
      var olds := carsById.Keys;
      ghost var gone := carsById.Keys - newIds;
      while olds != {}
        invariant olds <= carsById.Keys
        invariant zonesByCar == old(zonesByCar) - (gone - olds)
        invariant selectedCars == old(selectedCars) - (gone - olds)
        invariant hiddenCars == old(hiddenCars) - (gone - olds)
        invariant carsById == old(carsById) && activeCarId == old(activeCarId)
        decreases olds
      {
        var oldId :| oldId in olds;
        if oldId !in newIds {
          zonesByCar := zonesByCar - {oldId};
          selectedCars := selectedCars - {oldId};
          hiddenCars := hiddenCars - {oldId};
        }
        olds := olds - {oldId};
      }
      cars := kept;
      carsById := ById(kept);
    }
  }

  /** The filter loop of refreshCars. */
  method KeepCars(feed: seq<Option<Car>>) returns (kept: seq<Car>)
    ensures kept == Kept(feed)
  {
    kept := [];
    var i := 0;
    while i < |feed|
      invariant 0 <= i <= |feed|
      invariant kept == Kept(feed[..i])
    {
      assert feed[..i + 1][..i] == feed[..i];
      if feed[i].Some? && InServiceArea(feed[i].value) {
        kept := kept + [feed[i].value];
      }
      i := i + 1;
    }
    assert feed[..i] == feed;
  }

  /** The cars refreshCars keeps from the normalised feed. */
  function Kept(feed: seq<Option<Car>>): (r: seq<Car>)
    ensures forall c :: c in r <==> Some(c) in feed && InServiceArea(c)
  {
    if |feed| == 0 then []
    else
      var rest := Kept(feed[..|feed| - 1]);
      var last := feed[|feed| - 1];
      assert forall o :: o in feed <==> o in feed[..|feed| - 1] || o == last by {
        assert feed == feed[..|feed| - 1] + [last];
      }
      if last.Some? && InServiceArea(last.value) then rest + [last.value] else rest
  }

  /** After hideCar the car is no longer a candidate and every other candidate stays one. */
  lemma HideCarCandidates(cars: seq<Car>, zonesByCar: map<CarId, seq<Zone>>, hidden: set<CarId>, carId: CarId)
    ensures forall c :: c in Candidates(cars, zonesByCar - {carId}, hidden + {carId}) <==>
                        c in Candidates(cars, zonesByCar, hidden) && c.id != carId
  {
    CandidatesExactly(cars, zonesByCar, hidden);
    CandidatesExactly(cars, zonesByCar - {carId}, hidden + {carId});
  }

  /** After a zone is added for a car that is listed and not hidden, that car is a candidate. */
  lemma AddedZoneMakesCandidate(cars: seq<Car>, zonesByCar: map<CarId, seq<Zone>>, hidden: set<CarId>, c: Car, z: Zone)
    requires c in cars && c.id !in hidden
    ensures c in Candidates(cars, zonesByCar[c.id := (if c.id in zonesByCar then zonesByCar[c.id] else []) + [z]], hidden)
  {
    CandidatesExactly(cars, zonesByCar[c.id := (if c.id in zonesByCar then zonesByCar[c.id] else []) + [z]], hidden);
  }
}
