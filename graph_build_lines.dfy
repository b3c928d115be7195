/** build_gtfs_graph_zip_lines.py: the stop graph with line names. Two rows
    of a trip are linked only when the second's sequence number is exactly
    one more than the first's; each (from, to) pair keeps its smallest
    weight together with the names of the lines that ride it at that weight.

    haversine_m becomes the parameter `geo`; argument parsing, the ZIP and
    CSV reading and the latin-1 fallback, and writing graph.json are not part
    of this model. A line set is kept as a strictly sorted sequence, which
    determines the set. */
module GraphBuildLines {
  import opened Common
  import opened TransitSearch
  import opened GraphRows
  import TransitGraph

  /** TRANSIT_SPEED_MPS, STOP_PENALTY_SEC, the tie tolerance, the line
      limit per edge and the fallback line name. */
  const TransitSpeed: real := 6.0
  const StopPenalty: real := 20.0
  const Tie: real := 0.000001
  const MaxLines: nat := 8
  const DefaultLine: string := "BKV"

  /** A routes.txt row: `route_id`, `route_short_name`, `route_long_name`. */
  datatype RouteRow = RouteRow(routeId: string, shortName: string, longName: string)

  /** A trips.txt row: `trip_id`, `route_id`. */
  datatype TripRow = TripRow(tripId: string, routeId: string)

  // ---------------------------------------------------------------- route labels

  /** `short or long or rid`, the names stripped. */
  function RouteLabel(r: RouteRow): (lab: string)
    ensures r.routeId != "" ==> lab != ""
    ensures Strip(r.shortName) != "" ==> lab == Strip(r.shortName)
    ensures Strip(r.shortName) == "" && Strip(r.longName) != "" ==> lab == Strip(r.longName)
    ensures Strip(r.shortName) == "" && Strip(r.longName) == "" ==> lab == r.routeId
  {
    var short := Strip(r.shortName);
    var long := Strip(r.longName);
    if short != "" then short else if long != "" then long else r.routeId
  }

  /** `route_label` after the routes loop. */
  function RouteLabelMap(rows: seq<RouteRow>): map<string, string>
  {
    if |rows| == 0 then map[]
    else
      var r := rows[|rows| - 1];
      var m := RouteLabelMap(rows[..|rows| - 1]);
      if r.routeId == "" then m else m[r.routeId := RouteLabel(r)]
  }

  /** The last row naming route rid. */
  function LastRoute(rows: seq<RouteRow>, rid: string): (r: Option<nat>)
    ensures r.Some? ==> r.value < |rows| && rows[r.value].routeId == rid
                        && forall k :: r.value < k < |rows| ==> rows[k].routeId != rid
    ensures r.None? ==> forall k :: 0 <= k < |rows| ==> rows[k].routeId != rid
  {
    if |rows| == 0 then None
    else if rows[|rows| - 1].routeId == rid then Some(|rows| - 1)
    else
      var r := LastRoute(rows[..|rows| - 1], rid);
      assert forall k :: 0 <= k < |rows| - 1 ==> rows[..|rows| - 1][k] == rows[k];
      r
  }

  /** A non-empty route id has a label exactly when some row names it, and
      the label is that of the last such row. */
  lemma {:induction false} RouteLabelMapLast(rows: seq<RouteRow>, rid: string)
    ensures rid in RouteLabelMap(rows) <==> rid != "" && LastRoute(rows, rid).Some?
    ensures rid in RouteLabelMap(rows) ==> RouteLabelMap(rows)[rid] == RouteLabel(rows[LastRoute(rows, rid).value])
  {
    if |rows| > 0 {
      RouteLabelMapLast(rows[..|rows| - 1], rid);
    }
  }

  /** The routes loop. */
  method RouteLabels(rows: seq<RouteRow>) returns (labels: map<string, string>)
    ensures labels == RouteLabelMap(rows)
  {
    labels := map[];
    var k := 0;
    while k < |rows|
      invariant 0 <= k <= |rows| && labels == RouteLabelMap(rows[..k])
    {
      var r := rows[k];
      assert rows[..k + 1][..k] == rows[..k];
      if r.routeId != "" {
        labels := labels[r.routeId := RouteLabel(r)];
      }
      k := k + 1;
    }
    assert rows[..k] == rows;
  }

  /** `trip_to_route` after the trips loop. */
  function TripRouteMap(rows: seq<TripRow>): map<string, string>
  {
    if |rows| == 0 then map[]
    else
      var r := rows[|rows| - 1];
      var m := TripRouteMap(rows[..|rows| - 1]);
      if KeptTrip(r) then m[r.tripId := r.routeId] else m
  }

  /** A trips.txt row the trips loop keeps. */
  predicate KeptTrip(r: TripRow)
  {
    r.tripId != "" && r.routeId != ""
  }

  /** The last kept row of trip tid. */
  function LastTrip(rows: seq<TripRow>, tid: string): (r: Option<nat>)
    ensures r.Some? ==> r.value < |rows| && KeptTrip(rows[r.value]) && rows[r.value].tripId == tid
                        && forall k :: r.value < k < |rows| ==> !(KeptTrip(rows[k]) && rows[k].tripId == tid)
    ensures r.None? ==> forall k :: 0 <= k < |rows| ==> !(KeptTrip(rows[k]) && rows[k].tripId == tid)
  {
    if |rows| == 0 then None
    else if KeptTrip(rows[|rows| - 1]) && rows[|rows| - 1].tripId == tid then Some(|rows| - 1)
    else
      var r := LastTrip(rows[..|rows| - 1], tid);
      assert forall k :: 0 <= k < |rows| - 1 ==> rows[..|rows| - 1][k] == rows[k];
      r
  }

  /** A trip has a route exactly when some kept row names it, and it is the
      route of the last such row. */
  lemma {:induction false} TripRouteMapLast(rows: seq<TripRow>, tid: string)
    ensures tid in TripRouteMap(rows) <==> LastTrip(rows, tid).Some?
    ensures tid in TripRouteMap(rows) ==> TripRouteMap(rows)[tid] == rows[LastTrip(rows, tid).value].routeId != ""
  {
    if |rows| > 0 {
      TripRouteMapLast(rows[..|rows| - 1], tid);
    }
  }

  /** The trips loop. */
  method TripRoutes(rows: seq<TripRow>) returns (tripToRoute: map<string, string>)
    ensures tripToRoute == TripRouteMap(rows)
  {
    tripToRoute := map[];
    var k := 0;
    while k < |rows|
      invariant 0 <= k <= |rows| && tripToRoute == TripRouteMap(rows[..k])
    {
      var r := rows[k];
      assert rows[..k + 1][..k] == rows[..k];
      if r.tripId != "" && r.routeId != "" {
        tripToRoute := tripToRoute[r.tripId := r.routeId];
      }
      k := k + 1;
    }
    assert rows[..k] == rows;
  }

  /** `lab` in `line_for_trip`: the label of the trip's route, when both are known. */
  function Label(tripToRoute: map<string, string>, labels: map<string, string>, tid: string): Option<string>
  {
    if tid in tripToRoute && tripToRoute[tid] != "" && tripToRoute[tid] in labels then Some(labels[tripToRoute[tid]]) else None
  }

  /** `line_for_trip`: the trip's route label, stripped, or "BKV" when the
      trip or its route is unknown or the label is blank; never empty and
      never padded with whitespace. */
  function LineForTrip(tripToRoute: map<string, string>, labels: map<string, string>, tid: string): (r: string)
    ensures r != "" && !IsSpace(r[0]) && !IsSpace(r[|r| - 1])
    ensures Label(tripToRoute, labels, tid).None? ==> r == DefaultLine
    ensures Label(tripToRoute, labels, tid).Some? && Strip(Label(tripToRoute, labels, tid).value) != "" ==>
              r == Strip(Label(tripToRoute, labels, tid).value)
    ensures Label(tripToRoute, labels, tid).Some? && Strip(Label(tripToRoute, labels, tid).value) == "" ==> r == DefaultLine
  {
    // `(lab or "BKV").strip() or "BKV"`, where "BKV".strip() is "BKV"
    match Label(tripToRoute, labels, tid)
    case None => DefaultLine
    case Some(lab) =>
      var s := Strip(lab);
      if s != "" then s else DefaultLine
  }

  // ---------------------------------------------------------------- the edge loop

  /** The tables the edge loop reads. */
  datatype Tables = Tables(stops: seq<Stop>, index: map<string, nat>, geo: (Stop, Stop) -> Meters,
                           tripToRoute: map<string, string>, labels: map<string, string>)

  /** An edge row j offers: from stop, to stop, weight, line. */
  datatype Offer = Offer(from: nat, to: nat, w: real, line: string)

  function Pair(o: Offer): (nat, nat)
  {
    (o.from, o.to)
  }

  /** The weight `dist / TRANSIT_SPEED_MPS + STOP_PENALTY_SEC`, not rounded here. */
  function Weight(d: Meters): (w: real)
    ensures w >= StopPenalty
  {
    d / TransitSpeed + StopPenalty
  }

  /** The offer of row j: j is a valid row, its trip's last earlier valid row
      i has sequence number exactly one less, and the edge runs from i's stop
      to j's with j's trip's line. Other rows offer nothing. */
  function OfferAt(rows: seq<TimeRow>, t: Tables, j: nat): (c: Option<Offer>)
    requires j < |rows| && IndexOk(t.stops, t.index)
    ensures c.Some? ==> c.value.from < |t.stops| && c.value.to < |t.stops| && c.value.w >= StopPenalty && c.value.line != ""
  {
    var r := rows[j];
    if !ValidTime(r, t.index) then None
    else
      match LastOfTrip(rows, t.index, j, r.tripId)
      case None => None
      case Some(i) =>
        if r.sequence.value != rows[i].sequence.value + 1 then None
        else
          var ia, ib := t.index[rows[i].stopId], t.index[r.stopId];
          Some(Offer(ia, ib, Weight(t.geo(t.stops[ia], t.stops[ib])), LineForTrip(t.tripToRoute, t.labels, r.tripId)))
  }

  function Offers(rows: seq<TimeRow>, t: Tables): (cs: seq<Option<Offer>>)
    requires IndexOk(t.stops, t.index)
    ensures |cs| == |rows| && forall i :: 0 <= i < |rows| ==> cs[i] == OfferAt(rows, t, i)
  {
    seq(|rows|, i requires 0 <= i < |rows| => OfferAt(rows, t, i))
  }

  /** What the loop body computes from `last_by_trip` is the row's offer. */
  lemma MachineStep(rows: seq<TimeRow>, t: Tables, j: nat, last: map<string, (int, string)>)
    requires j < |rows| && IndexOk(t.stops, t.index) && TripState(rows, t.index, j, last)
    requires ValidTime(rows[j], t.index)
    ensures rows[j].tripId !in last ==> OfferAt(rows, t, j).None?
    ensures rows[j].tripId in last ==>
              var (lastSeq, lastSid) := last[rows[j].tripId];
              OfferAt(rows, t, j) ==
                if !(rows[j].sequence.value == lastSeq + 1 && lastSid in t.index) then None
                else
                  var ia, ib := t.index[lastSid], t.index[rows[j].stopId];
                  Some(Offer(ia, ib, Weight(t.geo(t.stops[ia], t.stops[ib])), LineForTrip(t.tripToRoute, t.labels, rows[j].tripId)))
  {
  }

  /** The best weight of a pair and its line set. */
  datatype Best = Best(w: real, lines: seq<string>)

  /** Line x was offered for key by a row in [m, j) within the tolerance of weight w. */
  ghost predicate Joined(cs: seq<Option<Offer>>, j: nat, key: (nat, nat), m: nat, w: real, x: string)
  {
    exists i :: m <= i < j && i < |cs| && cs[i].Some? && Pair(cs[i].value) == key && cs[i].value.w - w < Tie && cs[i].value.line == x
  }

  /** After the first j rows: one key per pair offered, in `order`; its
      weight is the smallest offered, first reached at row `first[key]`; and
      its lines are those offered from that row on within the tolerance of
      that weight. */
  ghost predicate LineMap(cs: seq<Option<Offer>>, j: nat, best: map<(nat, nat), Best>, order: seq<(nat, nat)>, first: map<(nat, nat), nat>)
    requires j <= |cs|
  {
    && (forall a, b :: 0 <= a < b < |order| ==> order[a] != order[b])
    && (forall key :: key in best <==> key in order)
    && (forall key :: key in best ==> key in first && first[key] < j && cs[first[key]].Some?
                                         && Pair(cs[first[key]].value) == key && cs[first[key]].value.w == best[key].w)
    && (forall i :: 0 <= i < j && cs[i].Some? ==>
          && Pair(cs[i].value) in best && Pair(cs[i].value) in first
          && best[Pair(cs[i].value)].w <= cs[i].value.w
          && (i < first[Pair(cs[i].value)] ==> best[Pair(cs[i].value)].w < cs[i].value.w))
    && (forall key :: key in best ==> StrictlySorted(best[key].lines)
                                         && forall x :: x in best[key].lines <==> Joined(cs, j, key, first[key], best[key].w, x))
  }

  lemma LineMapSkip(cs: seq<Option<Offer>>, j: nat, best: map<(nat, nat), Best>, order: seq<(nat, nat)>, first: map<(nat, nat), nat>)
    requires j < |cs| && LineMap(cs, j, best, order, first) && cs[j].None?
    ensures LineMap(cs, j + 1, best, order, first)
  {
    forall key, x | key in best ensures Joined(cs, j + 1, key, first[key], best[key].w, x) <==> Joined(cs, j, key, first[key], best[key].w, x) {
      JoinedStep(cs, j, key, first[key], best[key].w, x);
    }
  }

  /** Row j adds to Joined only its own offer. */
  lemma JoinedStep(cs: seq<Option<Offer>>, j: nat, key: (nat, nat), m: nat, w: real, x: string)
    requires j < |cs|
    ensures Joined(cs, j + 1, key, m, w, x) <==>
              Joined(cs, j, key, m, w, x) || (m <= j && cs[j].Some? && Pair(cs[j].value) == key && cs[j].value.w - w < Tie && cs[j].value.line == x)
  {
    if Joined(cs, j + 1, key, m, w, x) {
      var i :| m <= i < j + 1 && i < |cs| && cs[i].Some? && Pair(cs[i].value) == key && cs[i].value.w - w < Tie && cs[i].value.line == x;
    }
  }

  /** `edges[key] = {"w": w, "lines": {line}}`: a new pair, or a strictly smaller weight. */
  lemma LineMapReset(cs: seq<Option<Offer>>, j: nat, best: map<(nat, nat), Best>, order: seq<(nat, nat)>, first: map<(nat, nat), nat>)
    requires j < |cs| && LineMap(cs, j, best, order, first) && cs[j].Some?
    requires Pair(cs[j].value) !in best || cs[j].value.w < best[Pair(cs[j].value)].w
    ensures var o := cs[j].value;
            var key := Pair(o);
            LineMap(cs, j + 1, best[key := Best(o.w, [o.line])], if key in best then order else order + [key], first[key := j])
  {
    var o := cs[j].value;
    var key := Pair(o);
    var best', order', first' := best[key := Best(o.w, [o.line])], if key in best then order else order + [key], first[key := j];
    forall k | k in best' ensures StrictlySorted(best'[k].lines) && forall x :: x in best'[k].lines <==> Joined(cs, j + 1, k, first'[k], best'[k].w, x) {
      forall x ensures x in best'[k].lines <==> Joined(cs, j + 1, k, first'[k], best'[k].w, x) {
        JoinedStep(cs, j, k, first'[k], best'[k].w, x);
      }
    }
    forall k ensures k in best' <==> k in order' {
    }
  }

  /** `edges[key]["lines"].add(line)`: a weight within the tolerance of the best one. */
  lemma LineMapJoin(cs: seq<Option<Offer>>, j: nat, best: map<(nat, nat), Best>, order: seq<(nat, nat)>, first: map<(nat, nat), nat>)
    requires j < |cs| && LineMap(cs, j, best, order, first) && cs[j].Some?
    requires Pair(cs[j].value) in best && best[Pair(cs[j].value)].w <= cs[j].value.w < best[Pair(cs[j].value)].w + Tie
    ensures var o := cs[j].value;
            var key := Pair(o);
            LineMap(cs, j + 1, best[key := Best(best[key].w, InsertUnique(best[key].lines, o.line))], order, first)
  {
    var o := cs[j].value;
    var key := Pair(o);
    var best' := best[key := Best(best[key].w, InsertUnique(best[key].lines, o.line))];
    forall k | k in best' ensures StrictlySorted(best'[k].lines) && forall x :: x in best'[k].lines <==> Joined(cs, j + 1, k, first[k], best'[k].w, x) {
      forall x ensures x in best'[k].lines <==> Joined(cs, j + 1, k, first[k], best'[k].w, x) {
        JoinedStep(cs, j, k, first[k], best[k].w, x);
      }
    }
  }

  /** A weight at least the tolerance above the best one changes nothing. */
  lemma LineMapIgnore(cs: seq<Option<Offer>>, j: nat, best: map<(nat, nat), Best>, order: seq<(nat, nat)>, first: map<(nat, nat), nat>)
    requires j < |cs| && LineMap(cs, j, best, order, first) && cs[j].Some?
    requires Pair(cs[j].value) in best && cs[j].value.w >= best[Pair(cs[j].value)].w + Tie
    ensures LineMap(cs, j + 1, best, order, first)
  {
    forall key, x | key in best ensures Joined(cs, j + 1, key, first[key], best[key].w, x) <==> Joined(cs, j, key, first[key], best[key].w, x) {
      JoinedStep(cs, j, key, first[key], best[key].w, x);
    }
  }

  /** One row of the stop_times loop. */
  method LineRow(rows: seq<TimeRow>, t: Tables, j: nat, last: map<string, (int, string)>,
                 best: map<(nat, nat), Best>, order: seq<(nat, nat)>, ghost first: map<(nat, nat), nat>, ghost cs: seq<Option<Offer>>)
    returns (last': map<string, (int, string)>, best': map<(nat, nat), Best>, order': seq<(nat, nat)>, ghost first': map<(nat, nat), nat>)
    requires j < |rows| && IndexOk(t.stops, t.index) && cs == Offers(rows, t)
    requires TripState(rows, t.index, j, last) && LineMap(cs, j, best, order, first)
    ensures TripState(rows, t.index, j + 1, last') && LineMap(cs, j + 1, best', order', first')
  {
    last', best', order', first' := last, best, order, first;
    var r := rows[j];
    TripStep(rows, t.index, j, last);
    if r.tripId == "" || r.stopId == "" || r.sequence.None? || r.stopId !in t.index {
      LineMapSkip(cs, j, best, order, first);
      return;
    }
    MachineStep(rows, t, j, last);
    var seqn := r.sequence.value;
    if r.tripId !in last {
      LineMapSkip(cs, j, best, order, first);
    } else {
      var (lastSeq, lastSid) := last[r.tripId];
      if seqn == lastSeq + 1 && lastSid in t.index {
        var ia := t.index[lastSid];
        var ib := t.index[r.stopId];
        var w := Weight(t.geo(t.stops[ia], t.stops[ib]));
        var line := LineForTrip(t.tripToRoute, t.labels, r.tripId);
        var key := (ia, ib);
        if key !in best || w < best[key].w {
          LineMapReset(cs, j, best, order, first);
          if key !in best {
            order' := order + [key];
          }
          best' := best[key := Best(w, [line])];
          first' := first[key := j];
        } else {
          var diff := w - best[key].w;
          if (if diff < 0.0 then -diff else diff) < Tie {
            LineMapJoin(cs, j, best, order, first);
            best' := best[key := Best(best[key].w, InsertUnique(best[key].lines, line))];
          } else {
            LineMapIgnore(cs, j, best, order, first);
          }
        }
      } else {
        LineMapSkip(cs, j, best, order, first);
      }
    }
    last' := last[r.tripId := (seqn, r.stopId)];
  }

  // ---------------------------------------------------------------- output

  /** `sorted({x for x in lines if x})[:8]`. */
  function Trim(lines: seq<string>): seq<string>
  {
    Take(SortedSet(NonEmpty(lines)), MaxLines)
  }

  /** The trimmed lines are sorted, distinct, non-empty, at most eight, all
      from the set, and they are its smallest names: a non-empty name left
      out comes after all eight kept. */
  lemma TrimSmallest(lines: seq<string>)
    ensures var r := Trim(lines);
            && StrictlySorted(r) && |r| <= MaxLines
            && (forall x :: x in r ==> x in lines && x != "")
            && forall x :: x in lines && x != "" && x !in r ==> |r| == MaxLines && forall j :: 0 <= j < |r| ==> StrLess(r[j], x)
  {
    var s := SortedSet(NonEmpty(lines));
    var r := Take(s, MaxLines);
    assert forall j :: 0 <= j < |r| ==> r[j] == s[j];
    forall x | x in r ensures x in lines && x != "" {
      var j :| 0 <= j < |r| && r[j] == x;
      assert s[j] in s && s[j] in NonEmpty(lines);
    }
    forall x | x in lines && x != "" && x !in r ensures |r| == MaxLines && forall j :: 0 <= j < |r| ==> StrLess(r[j], x) {
      assert x in s;
      var p :| 0 <= p < |s| && s[p] == x;
      assert p >= |r|;
    }
  }

  /** An edge of the output: `{"from", "to", "w", "route": "BKV", "type": 3, "lines"}`. */
  datatype LinedEdge = LinedEdge(from: nat, to: nat, w: real, lines: seq<string>)

  /** Where an output edge comes from: the row that first offered its
      weight, and the line names joined from that row on. */
  datatype Origin = Origin(row: nat, pool: seq<string>)

  /** The output edges against the rows' offers: each pair once; its weight
      offered first at row `origins[k].row` and no larger than any offer for the
      pair, strictly smaller than those before that row; and its lines the
      trimmed names offered from that row on within the tolerance. */
  ghost predicate LinedEdges(edges: seq<LinedEdge>, origins: seq<Origin>, cs: seq<Option<Offer>>)
  {
    && |origins| == |edges|
    && (forall a, b :: 0 <= a < b < |edges| ==> (edges[a].from, edges[a].to) != (edges[b].from, edges[b].to))
    && (forall k :: 0 <= k < |edges| ==> origins[k].row < |cs| && cs[origins[k].row].Some?
                                         && Pair(cs[origins[k].row].value) == (edges[k].from, edges[k].to) && cs[origins[k].row].value.w == edges[k].w)
    && (forall i :: 0 <= i < |cs| && cs[i].Some? ==>
          exists k :: 0 <= k < |edges| && (edges[k].from, edges[k].to) == Pair(cs[i].value) && edges[k].w <= cs[i].value.w
                      && (i < origins[k].row ==> edges[k].w < cs[i].value.w))
    && (forall k :: 0 <= k < |edges| ==>
          edges[k].lines == Trim(origins[k].pool)
          && forall x :: x in origins[k].pool <==> Joined(cs, |cs|, (edges[k].from, edges[k].to), origins[k].row, edges[k].w, x))
  }

  /** Output entry k of the pair map. */
  ghost predicate OutputAt(best: map<(nat, nat), Best>, order: seq<(nat, nat)>, first: map<(nat, nat), nat>,
                           e: LinedEdge, f: Origin, k: nat)
    requires k < |order|
  {
    order[k] in best && order[k] in first
    && e == LinedEdge(order[k].0, order[k].1, best[order[k]].w, Trim(best[order[k]].lines))
    && f == Origin(first[order[k]], best[order[k]].lines)
  }

  /** One output entry per key of the pair map, in order, meets LinedEdges. */
  lemma LinedEdgesOfMap(cs: seq<Option<Offer>>, best: map<(nat, nat), Best>, order: seq<(nat, nat)>, first: map<(nat, nat), nat>,
                        edges: seq<LinedEdge>, origins: seq<Origin>)
    requires LineMap(cs, |cs|, best, order, first)
    requires |edges| == |order| == |origins| && forall k :: 0 <= k < |order| ==> OutputAt(best, order, first, edges[k], origins[k], k)
    ensures LinedEdges(edges, origins, cs)
  {
    forall a, b | 0 <= a < b < |edges| ensures (edges[a].from, edges[a].to) != (edges[b].from, edges[b].to) {
      assert OutputAt(best, order, first, edges[a], origins[a], a) && OutputAt(best, order, first, edges[b], origins[b], b);
    }
    forall k | 0 <= k < |edges|
      ensures origins[k].row < |cs| && cs[origins[k].row].Some? && Pair(cs[origins[k].row].value) == (edges[k].from, edges[k].to) && cs[origins[k].row].value.w == edges[k].w
    {
      assert OutputAt(best, order, first, edges[k], origins[k], k);
    }
    forall i | 0 <= i < |cs| && cs[i].Some?
      ensures exists k :: 0 <= k < |edges| && (edges[k].from, edges[k].to) == Pair(cs[i].value) && edges[k].w <= cs[i].value.w
                          && (i < origins[k].row ==> edges[k].w < cs[i].value.w)
    {
      var p :| 0 <= p < |order| && order[p] == Pair(cs[i].value);
      assert OutputAt(best, order, first, edges[p], origins[p], p);
    }
    forall k | 0 <= k < |edges|
      ensures edges[k].lines == Trim(origins[k].pool)
              && forall x :: x in origins[k].pool <==> Joined(cs, |cs|, (edges[k].from, edges[k].to), origins[k].row, edges[k].w, x)
    {
      assert OutputAt(best, order, first, edges[k], origins[k], k);
      var key := order[k];
      assert (edges[k].from, edges[k].to) == key && origins[k].row == first[key] && edges[k].w == best[key].w;
      assert forall x :: x in best[key].lines <==> Joined(cs, |cs|, key, first[key], best[key].w, x);
    }
  }

  /** The output loop over `edges.items()`. */
  method OutputEdges(ghost cs: seq<Option<Offer>>, best: map<(nat, nat), Best>, order: seq<(nat, nat)>, ghost first: map<(nat, nat), nat>)
    returns (edges: seq<LinedEdge>, ghost origins: seq<Origin>)
    requires LineMap(cs, |cs|, best, order, first)
    ensures forall a, b :: 0 <= a < b < |edges| ==> (edges[a].from, edges[a].to) != (edges[b].from, edges[b].to)
    ensures forall k :: 0 <= k < |edges| ==>
              StrictlySorted(edges[k].lines) && |edges[k].lines| <= MaxLines && "" !in edges[k].lines
    ensures LinedEdges(edges, origins, cs)
  {
    edges, origins := [], [];
    var k := 0;
    while k < |order|
      invariant 0 <= k <= |order| && |edges| == k && |origins| == k
      invariant forall k' :: 0 <= k' < k ==> OutputAt(best, order, first, edges[k'], origins[k'], k')
    {
      var key := order[k];
      assert key in best;
      var info := best[key];
      edges := edges + [LinedEdge(key.0, key.1, info.w, Take(SortedSet(NonEmpty(info.lines)), MaxLines))];
      origins := origins + [Origin(first[key], info.lines)];
      assert OutputAt(best, order, first, edges[k], origins[k], k);
      k := k + 1;
    }
    LinedEdgesOfMap(cs, best, order, first, edges, origins);
    forall k | 0 <= k < |edges| ensures StrictlySorted(edges[k].lines) && |edges[k].lines| <= MaxLines && "" !in edges[k].lines {
      TrimSmallest(origins[k].pool);
    }
  }

  /** The stop_times loop and the output list. */
  method BuildLinedEdges(rows: seq<TimeRow>, t: Tables) returns (edges: seq<LinedEdge>, ghost origins: seq<Origin>)
    requires IndexOk(t.stops, t.index)
    ensures forall a, b :: 0 <= a < b < |edges| ==> (edges[a].from, edges[a].to) != (edges[b].from, edges[b].to)
    ensures forall k :: 0 <= k < |edges| ==>
              edges[k].from < |t.stops| && edges[k].to < |t.stops| && edges[k].w >= StopPenalty
              && StrictlySorted(edges[k].lines) && |edges[k].lines| <= MaxLines && "" !in edges[k].lines
    ensures LinedEdges(edges, origins, Offers(rows, t))
  {
    ghost var cs := Offers(rows, t);
    var best: map<(nat, nat), Best> := map[];
    var order: seq<(nat, nat)> := [];
    ghost var first: map<(nat, nat), nat> := map[];
    var last: map<string, (int, string)> := map[];
    TripStart(rows, t.index);
    var j := 0;
    while j < |rows|
      invariant 0 <= j <= |rows| && TripState(rows, t.index, j, last) && LineMap(cs, j, best, order, first)
    {
      last, best, order, first := LineRow(rows, t, j, last, best, order, first, cs);
      j := j + 1;
    }
    edges, origins := OutputEdges(cs, best, order, first);
    forall k | 0 <= k < |edges|
      ensures edges[k].from < |t.stops| && edges[k].to < |t.stops| && edges[k].w >= StopPenalty
    {
      LinedEdgeLoads(rows, t, edges, origins, k);
    }
  }

  // ---------------------------------------------------------------- find_name

  /** `low.endswith("/" + c.lower()) or low.endswith("\\" + c.lower()) or
      low.endswith(c.lower())`. */
  predicate SuffixMatch(low: string, c: string)
  {
    EndsWith(low, "/" + Lower(c)) || EndsWith(low, "\\" + Lower(c)) || EndsWith(low, Lower(c))
  }

  /** The "/" and "\\" alternatives add nothing to the plain suffix test. */
  lemma SuffixMatchPlain(low: string, c: string)
    ensures SuffixMatch(low, c) <==> EndsWith(low, Lower(c))
  {
    var lc := Lower(c);
    if EndsWith(low, "/" + lc) {
      assert low[|low| - |lc|..] == ("/" + lc)[1..];
    }
    if EndsWith(low, "\\" + lc) {
      assert low[|low| - |lc|..] == ("\\" + lc)[1..];
    }
  }

  /** Some candidate is a suffix of name n, lower-cased. */
  predicate MatchesAny(n: string, candidates: seq<string>)
  {
    exists q :: 0 <= q < |candidates| && SuffixMatch(Lower(n), candidates[q])
  }

  /** The inner loop of the second pass. */
  method AnySuffix(n: string, candidates: seq<string>) returns (b: bool)
    ensures b <==> MatchesAny(n, candidates)
  {
    var low := Lower(n);
    var q := 0;
    while q < |candidates|
      invariant 0 <= q <= |candidates| && forall q' :: 0 <= q' < q ==> !SuffixMatch(low, candidates[q'])
    {
      var c := Lower(candidates[q]);
      if EndsWith(low, "/" + c) || EndsWith(low, "\\" + c) || EndsWith(low, c) {
        return true;
      }
      q := q + 1;
    }
    return false;
  }

  /** Some candidate is itself a name. */
  predicate ExactAny(names: seq<string>, candidates: seq<string>)
  {
    exists p :: 0 <= p < |candidates| && candidates[p] in names
  }

  /** `find_name(zf, candidates)`: the first candidate that is a name of the
      ZIP, else the first name (in the order given) ending with a candidate,
      else None. */
  method FindName(names: seq<string>, candidates: seq<string>) returns (r: Option<string>)
    ensures ExactAny(names, candidates) ==>
              exists p :: 0 <= p < |candidates| && r == Some(candidates[p]) && candidates[p] in names
                          && forall p' :: 0 <= p' < p ==> candidates[p'] !in names
    ensures !ExactAny(names, candidates) ==>
              && (r.None? <==> forall k :: 0 <= k < |names| ==> !MatchesAny(names[k], candidates))
              && (r.Some? ==> exists k :: 0 <= k < |names| && r.value == names[k] && MatchesAny(names[k], candidates)
                                          && forall k' :: 0 <= k' < k ==> !MatchesAny(names[k'], candidates))
  {
    var p := 0;
    while p < |candidates|
      invariant 0 <= p <= |candidates| && forall p' :: 0 <= p' < p ==> candidates[p'] !in names
    {
      if candidates[p] in names {
        return Some(candidates[p]);
      }
      p := p + 1;
    }
    var k := 0;
    while k < |names|
      invariant 0 <= k <= |names| && forall k' :: 0 <= k' < k ==> !MatchesAny(names[k'], candidates)
    {
      var m := AnySuffix(names[k], candidates);
      if m {
        return Some(names[k]);
      }
      k := k + 1;
    }
    return None;
  }

  // ---------------------------------------------------------------- main

  /** Every output edge runs between stops, weighs at least the stop
      penalty, and carries at most eight distinct non-empty line names in
      order. */
  lemma LinedEdgeLoads(rows: seq<TimeRow>, t: Tables, edges: seq<LinedEdge>, origins: seq<Origin>, k: nat)
    requires IndexOk(t.stops, t.index) && LinedEdges(edges, origins, Offers(rows, t)) && k < |edges|
    ensures edges[k].from < |t.stops| && edges[k].to < |t.stops| && edges[k].w >= StopPenalty
    ensures StrictlySorted(edges[k].lines) && |edges[k].lines| <= MaxLines && "" !in edges[k].lines
  {
    var cs := Offers(rows, t);
    assert cs[origins[k].row] == OfferAt(rows, t, origins[k].row);
    TrimSmallest(origins[k].pool);
  }

  /** How gtfs.js reads one output edge: all three numbers present, the lines array. */
  function Raw(e: LinedEdge): TransitGraph.RawEdge
  {
    TransitGraph.RawEdge(Some(e.from), Some(e.to), Some(e.w), Lines(e.lines))
  }

  /** The JSON form of an edge list. */
  function RawEdges(es: seq<LinedEdge>): (r: seq<TransitGraph.RawEdge>)
    ensures |r| == |es| && forall k :: 0 <= k < |es| ==> r[k] == Raw(es[k])
  {
    seq(|es|, k requires 0 <= k < |es| => Raw(es[k]))
  }

  /** The trip and route tables BuildGraph works with: both read when both
      files are present, otherwise both empty. */
  function TablesOf(stops: seq<Stop>, index: map<string, nat>, geo: (Stop, Stop) -> Meters,
                    routes: Option<seq<RouteRow>>, trips: Option<seq<TripRow>>): Tables
  {
    if trips.Some? && routes.Some? then Tables(stops, index, geo, TripRouteMap(trips.value), RouteLabelMap(routes.value))
    else Tables(stops, index, geo, map[], map[])
  }

  /** The stops, routes, trips and edge loops: the graph.json object. The
      route and trip tables are read only when both files are present. Its
      edges are the lined edges of the offers the stop_times rows make over
      the stop index and those tables. */
  method BuildGraph(stopRows: seq<StopRow>, timeRows: seq<TimeRow>, routes: Option<seq<RouteRow>>, trips: Option<seq<TripRow>>,
                    geo: (Stop, Stop) -> Meters)
    returns (g: TransitGraph.GraphFile)
    ensures g.stops == KeptStops(stopRows)
    ensures exists index, es, origins :: Indexed(g.stops, index) && IndexOk(g.stops, index)
              && LinedEdges(es, origins, Offers(timeRows, TablesOf(g.stops, index, geo, routes, trips)))
              && g.edges == RawEdges(es)
    ensures forall k :: 0 <= k < |g.edges| ==>
              g.edges[k].from.Some? && g.edges[k].to.Some? && g.edges[k].w.Some? && g.edges[k].info.Lines?
              && StrictlySorted(g.edges[k].info.names) && |g.edges[k].info.names| <= MaxLines && "" !in g.edges[k].info.names
    ensures TransitGraph.FirstBad(g.edges, |g.stops|).None? && TransitGraph.NonNegativeWeights(g.edges)
  {
    var stops, index := IndexStops(stopRows);
    var labels: map<string, string> := map[];
    var tripToRoute: map<string, string> := map[];
    if trips.Some? && routes.Some? {
      labels := RouteLabels(routes.value);
      tripToRoute := TripRoutes(trips.value);
    }
    var t := Tables(stops, index, geo, tripToRoute, labels);
    assert t == TablesOf(stops, index, geo, routes, trips);
    var edges, origins := BuildLinedEdges(timeRows, t);
    g := TransitGraph.GraphFile(stops, RawEdges(edges));
    assert Indexed(g.stops, index) && LinedEdges(edges, origins, Offers(timeRows, TablesOf(g.stops, index, geo, routes, trips)));
  }
}
