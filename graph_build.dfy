/** build_gtfs_graph_zip.py: the stop graph without line names. Consecutive
    rows of a trip become directed edges weighted by an estimate of the ride
    time, and each (from, to) pair keeps its smallest weight.

    haversine_m becomes the parameter `geo`, the distance in metres between
    two stops; argument parsing, the ZIP and CSV reading, and writing
    graph.json are not part of this model. */
module GraphBuild {
  import opened Common
  import opened TransitSearch
  import opened GraphRows
  import TransitGraph

  /** TRANSIT_SPEED_MPS and STOP_PENALTY_SEC. */
  const TransitSpeed: real := 6.0
  const StopPenalty: real := 20.0

  /** `int(dist / TRANSIT_SPEED_MPS + STOP_PENALTY_SEC)`: int() truncates and
      the value is positive, so it is the floor, and never below the penalty. */
  function Weight(d: Meters): (w: int)
    ensures w >= 20
    ensures w as real <= d / TransitSpeed + StopPenalty < w as real + 1.0
  {
    (d / TransitSpeed + StopPenalty).Floor
  }

  /** An edge of the output: `{"from", "to", "w", "route": "BKV", "type": 3}`. */
  datatype BuiltEdge = BuiltEdge(from: nat, to: nat, w: int)

  /** The edge row j offers: j is a valid row, its trip has an earlier valid
      row i (the last one), and j's sequence number is larger than i's; the
      edge runs from i's stop to j's. A trip's first valid row and a row
      whose sequence does not grow offer nothing. */
  function Candidate(rows: seq<TimeRow>, stops: seq<Stop>, index: map<string, nat>, geo: (Stop, Stop) -> Meters, j: nat): (c: Option<BuiltEdge>)
    requires j < |rows| && IndexOk(stops, index)
    ensures c.Some? ==> c.value.from < |stops| && c.value.to < |stops| && c.value.w >= 20
  {
    var r := rows[j];
    if !ValidTime(r, index) then None
    else
      match LastOfTrip(rows, index, j, r.tripId)
      case None => None
      case Some(i) =>
        if r.sequence.value <= rows[i].sequence.value then None
        else
          var ia, ib := index[rows[i].stopId], index[r.stopId];
          Some(BuiltEdge(ia, ib, Weight(geo(stops[ia], stops[ib]))))
  }

  /** Candidate for every row. */
  function Candidates(rows: seq<TimeRow>, stops: seq<Stop>, index: map<string, nat>, geo: (Stop, Stop) -> Meters): (cs: seq<Option<BuiltEdge>>)
    requires IndexOk(stops, index)
    ensures |cs| == |rows| && forall i :: 0 <= i < |rows| ==> cs[i] == Candidate(rows, stops, index, geo, i)
  {
    seq(|rows|, i requires 0 <= i < |rows| => Candidate(rows, stops, index, geo, i))
  }

  /** What the loop body computes from `last_by_trip` is the row's candidate. */
  lemma MachineStep(rows: seq<TimeRow>, stops: seq<Stop>, index: map<string, nat>, geo: (Stop, Stop) -> Meters, j: nat,
                    last: map<string, (int, string)>)
    requires j < |rows| && IndexOk(stops, index) && TripState(rows, index, j, last)
    requires ValidTime(rows[j], index)
    ensures rows[j].tripId !in last ==> Candidate(rows, stops, index, geo, j).None?
    ensures rows[j].tripId in last ==>
              var (lastSeq, lastSid) := last[rows[j].tripId];
              && lastSid in index
              && Candidate(rows, stops, index, geo, j) ==
                   if rows[j].sequence.value <= lastSeq then None
                   else Some(BuiltEdge(index[lastSid], index[rows[j].stopId], Weight(geo(stops[index[lastSid]], stops[index[rows[j].stopId]]))))
  {
  }

  /** After the first j rows: `edges` has one key per pair some row offered,
      in `order` (the dict's insertion order), each mapped to a weight that
      one of those rows offered and no larger than any of them. */
  ghost predicate EdgeMap(cs: seq<Option<BuiltEdge>>, j: nat, best: map<(nat, nat), int>, order: seq<(nat, nat)>)
    requires j <= |cs|
  {
    && (forall a, b :: 0 <= a < b < |order| ==> order[a] != order[b])
    && (forall key :: key in best <==> key in order)
    && (forall key :: key in best ==> exists i :: 0 <= i < j && cs[i] == Some(BuiltEdge(key.0, key.1, best[key])))
    && (forall i :: 0 <= i < j && cs[i].Some? ==> (cs[i].value.from, cs[i].value.to) in best && best[(cs[i].value.from, cs[i].value.to)] <= cs[i].value.w)
  }

  lemma EdgeMapSkip(cs: seq<Option<BuiltEdge>>, j: nat, best: map<(nat, nat), int>, order: seq<(nat, nat)>)
    requires j < |cs| && EdgeMap(cs, j, best, order) && cs[j].None?
    ensures EdgeMap(cs, j + 1, best, order)
  {
    forall key | key in best ensures exists i :: 0 <= i < j + 1 && cs[i] == Some(BuiltEdge(key.0, key.1, best[key])) {
      var i :| 0 <= i < j && cs[i] == Some(BuiltEdge(key.0, key.1, best[key]));
    }
  }

  /** `if key not in edges or w < edges[key]: edges[key] = w`. */
  lemma EdgeMapOffer(cs: seq<Option<BuiltEdge>>, j: nat, best: map<(nat, nat), int>, order: seq<(nat, nat)>)
    requires j < |cs| && EdgeMap(cs, j, best, order) && cs[j].Some?
    ensures var e := cs[j].value;
            var key := (e.from, e.to);
            var best' := if key !in best || e.w < best[key] then best[key := e.w] else best;
            var order' := if key in best then order else order + [key];
            EdgeMap(cs, j + 1, best', order')
  {
    var e := cs[j].value;
    var key := (e.from, e.to);
    var best' := if key !in best || e.w < best[key] then best[key := e.w] else best;
    var order' := if key in best then order else order + [key];
    forall k | k in best' ensures exists i :: 0 <= i < j + 1 && cs[i] == Some(BuiltEdge(k.0, k.1, best'[k])) {
      if k == key && (key !in best || e.w < best[key]) {
        assert cs[j] == Some(BuiltEdge(k.0, k.1, best'[k]));
      } else {
        var i :| 0 <= i < j && cs[i] == Some(BuiltEdge(k.0, k.1, best[k]));
      }
    }
    forall k ensures k in best' <==> k in order' {
    }
  }

  /** The output edges against the rows' candidates: each (from, to) pair
      once, every edge offered by some row, and every offered pair present
      with a weight no larger than the offer: the minimum per pair. */
  ghost predicate MinimalEdges(edges: seq<BuiltEdge>, cs: seq<Option<BuiltEdge>>)
  {
    && (forall a, b :: 0 <= a < b < |edges| ==> (edges[a].from, edges[a].to) != (edges[b].from, edges[b].to))
    && (forall k :: 0 <= k < |edges| ==> Some(edges[k]) in cs)
    && (forall i :: 0 <= i < |cs| && cs[i].Some? ==>
          exists k :: 0 <= k < |edges| && edges[k].from == cs[i].value.from && edges[k].to == cs[i].value.to && edges[k].w <= cs[i].value.w)
  }

  /** The stop_times loop and the output list. */
  method BuildEdges(rows: seq<TimeRow>, stops: seq<Stop>, index: map<string, nat>, geo: (Stop, Stop) -> Meters)
    returns (edges: seq<BuiltEdge>)
    requires IndexOk(stops, index)
    ensures MinimalEdges(edges, Candidates(rows, stops, index, geo))
  {
    ghost var cs := Candidates(rows, stops, index, geo);
    var best: map<(nat, nat), int> := map[];
    var order: seq<(nat, nat)> := [];
    var last: map<string, (int, string)> := map[];
    TripStart(rows, index);
    var j := 0;
    while j < |rows|
      invariant 0 <= j <= |rows| && TripState(rows, index, j, last) && EdgeMap(cs, j, best, order)
    {
      last, best, order := EdgeRow(rows, stops, index, geo, j, last, best, order, cs);
      j := j + 1;
    }
    edges := seq(|order|, k requires 0 <= k < |order| && order[k] in best => BuiltEdge(order[k].0, order[k].1, best[order[k]]));
    EdgesFromMap(cs, best, order, edges);
  }

  /** One row of the stop_times loop. */
  method EdgeRow(rows: seq<TimeRow>, stops: seq<Stop>, index: map<string, nat>, geo: (Stop, Stop) -> Meters, j: nat,
                 last: map<string, (int, string)>, best: map<(nat, nat), int>, order: seq<(nat, nat)>, ghost cs: seq<Option<BuiltEdge>>)
    returns (last': map<string, (int, string)>, best': map<(nat, nat), int>, order': seq<(nat, nat)>)
    requires j < |rows| && IndexOk(stops, index) && cs == Candidates(rows, stops, index, geo)
    requires TripState(rows, index, j, last) && EdgeMap(cs, j, best, order)
    ensures TripState(rows, index, j + 1, last') && EdgeMap(cs, j + 1, best', order')
  {
    last', best', order' := last, best, order;
    var r := rows[j];
    TripStep(rows, index, j, last);
    if r.tripId == "" || r.stopId == "" || r.sequence.None? || r.stopId !in index {
      EdgeMapSkip(cs, j, best, order);
      return;
    }
    MachineStep(rows, stops, index, geo, j, last);
    var seqn := r.sequence.value;
    if r.tripId !in last {
      EdgeMapSkip(cs, j, best, order);
    } else {
      var (lastSeq, lastSid) := last[r.tripId];
      if seqn <= lastSeq {
        EdgeMapSkip(cs, j, best, order);
      } else {
        var ia := index[lastSid];
        var ib := index[r.stopId];
        var w := Weight(geo(stops[ia], stops[ib]));
        var key := (ia, ib);
        EdgeMapOffer(cs, j, best, order);
        if key !in best || w < best[key] {
          if key !in best {
            order' := order + [key];
          }
          best' := best[key := w];
        }
      }
    }
    last' := last[r.tripId := (seqn, r.stopId)];
  }

  /** The output list read off the final map. */
  lemma EdgesFromMap(cs: seq<Option<BuiltEdge>>, best: map<(nat, nat), int>, order: seq<(nat, nat)>, edges: seq<BuiltEdge>)
    requires EdgeMap(cs, |cs|, best, order)
    requires |edges| == |order| && forall k :: 0 <= k < |order| ==> edges[k] == BuiltEdge(order[k].0, order[k].1, best[order[k]])
    ensures MinimalEdges(edges, cs)
  {
    forall a, b | 0 <= a < b < |edges| ensures (edges[a].from, edges[a].to) != (edges[b].from, edges[b].to) {
      assert (edges[a].from, edges[a].to) == order[a] && (edges[b].from, edges[b].to) == order[b];
    }
    forall k | 0 <= k < |edges| ensures Some(edges[k]) in cs {
      assert order[k] in best;
      var i :| 0 <= i < |cs| && cs[i] == Some(BuiltEdge(order[k].0, order[k].1, best[order[k]]));
      assert cs[i] == Some(edges[k]);
    }
    forall i | 0 <= i < |cs| && cs[i].Some?
      ensures exists k :: 0 <= k < |edges| && edges[k].from == cs[i].value.from && edges[k].to == cs[i].value.to && edges[k].w <= cs[i].value.w
    {
      var c := cs[i].value;
      var k :| 0 <= k < |order| && order[k] == (c.from, c.to);
      assert edges[k].from == c.from && edges[k].to == c.to;
    }
  }

  /** `find_name`: the first name, in the ZIP directory's iteration order,
      whose lower-cased form ends with the suffix. */
  method FindName(names: seq<string>, suffix: string) returns (r: Option<string>)
    ensures r.None? <==> forall k :: 0 <= k < |names| ==> !EndsWith(Lower(names[k]), suffix)
    ensures r.Some? ==> exists k :: 0 <= k < |names| && names[k] == r.value && EndsWith(Lower(names[k]), suffix)
                                    && forall k' :: 0 <= k' < k ==> !EndsWith(Lower(names[k']), suffix)
  {
    var k := 0;
    while k < |names|
      invariant 0 <= k <= |names| && forall k' :: 0 <= k' < k ==> !EndsWith(Lower(names[k']), suffix)
    {
      if EndsWith(Lower(names[k]), suffix) {
        return Some(names[k]);
      }
      k := k + 1;
    }
    return None;
  }

  /** How gtfs.js reads one output edge: all three numbers present, the line from `route`. */
  function Raw(e: BuiltEdge): TransitGraph.RawEdge
  {
    TransitGraph.RawEdge(Some(e.from), Some(e.to), Some(e.w as real), Route("BKV"))
  }

  /** The JSON form of an edge list. */
  function RawEdges(es: seq<BuiltEdge>): (r: seq<TransitGraph.RawEdge>)
    ensures |r| == |es| && forall k :: 0 <= k < |es| ==> r[k] == Raw(es[k])
  {
    seq(|es|, k requires 0 <= k < |es| => Raw(es[k]))
  }

  /** The stops loop, then the edge loop: the graph.json object. Its edges are
      the minimal edges of the candidates the stop_times rows give over the
      stop index. */
  method BuildGraph(stopRows: seq<StopRow>, timeRows: seq<TimeRow>, geo: (Stop, Stop) -> Meters)
    returns (g: TransitGraph.GraphFile)
    ensures g.stops == KeptStops(stopRows)
    ensures exists index, es :: Indexed(g.stops, index) && IndexOk(g.stops, index)
              && MinimalEdges(es, Candidates(timeRows, g.stops, index, geo)) && g.edges == RawEdges(es)
    ensures forall k :: 0 <= k < |g.edges| ==>
              g.edges[k].from.Some? && g.edges[k].to.Some? && g.edges[k].w.Some? && g.edges[k].info == Route("BKV")
    ensures TransitGraph.FirstBad(g.edges, |g.stops|).None? && TransitGraph.NonNegativeWeights(g.edges)
  {
    var stops, index := IndexStops(stopRows);
    var edges := BuildEdges(timeRows, stops, index, geo);
    g := TransitGraph.GraphFile(stops, RawEdges(edges));
    assert Indexed(g.stops, index) && MinimalEdges(edges, Candidates(timeRows, g.stops, index, geo));
    forall k | 0 <= k < |edges| ensures edges[k].from < |stops| && edges[k].w >= 20 {
      var cs := Candidates(timeRows, stops, index, geo);
      assert Some(edges[k]) in cs;
      var i :| 0 <= i < |cs| && cs[i] == Some(edges[k]);
      assert Candidate(timeRows, stops, index, geo, i) == Some(edges[k]);
    }
  }
}
