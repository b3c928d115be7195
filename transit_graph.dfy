/** The GTFS object of gtfs.js: graph.json loaded into stops, edges and
    adjacency lists (init), the stops near a point (nearestStops), and the
    planner that walks to nearby stops, rides the stop graph and walks to the
    destination (plan).

    The fetch and JSON parsing of init become a parameter: the parsed
    `stops` and `edges` arrays, or None when the request fails, the response
    is not ok, or either array is missing. haversineM becomes a parameter
    too: the distance in metres from the point to every stop. */
module TransitGraph {
  import opened Common
  import opened TransitSearch

  /** An edge record of graph.json; a field that is not a number is None. */
  datatype RawEdge = RawEdge(from: Option<int>, to: Option<int>, w: Option<real>, info: LineInfo)

  /** graph.json's `stops` and `edges` arrays. */
  datatype GraphFile = GraphFile(stops: seq<Stop>, edges: seq<RawEdge>)

  /** init's test: `from`, `to` and `w` are all numbers. */
  predicate Numeric(e: RawEdge)
  {
    e.from.Some? && e.to.Some? && e.w.Some?
  }

  function ToEdge(e: RawEdge): Edge
    requires Numeric(e)
  {
    Edge(e.from.value, e.to.value, e.w.value, e.info)
  }

  /** A numeric edge whose `from` is no stop index: `_adj[e.from]` is
      undefined and pushing onto it throws. */
  predicate Bad(e: RawEdge, n: nat)
  {
    Numeric(e) && !(0 <= e.from.value < n)
  }

  /** The position of the first bad edge, if any. */
  function FirstBad(es: seq<RawEdge>, n: nat): (r: Option<nat>)
    ensures r.Some? ==> r.value < |es| && Bad(es[r.value], n) && forall k :: 0 <= k < r.value ==> !Bad(es[k], n)
    ensures r.None? ==> forall k :: 0 <= k < |es| ==> !Bad(es[k], n)
  {
    if |es| == 0 then None
    else if Bad(es[0], n) then Some(0)
    else
      match FirstBad(es[1..], n)
      case None =>
        assert forall k :: 1 <= k < |es| ==> es[k] == es[1..][k - 1];
        None
      case Some(j) =>
        assert forall k :: 1 <= k < j + 1 ==> es[k] == es[1..][k - 1];
        Some(j + 1)
  }

  /** The adjacency list of stop i: the numeric edges with `from == i`, in file order. */
  function EdgesFrom(es: seq<RawEdge>, i: int): seq<Edge>
  {
    if |es| == 0 then []
    else
      var rest := EdgesFrom(es[..|es| - 1], i);
      var e := es[|es| - 1];
      if Numeric(e) && e.from.value == i then rest + [ToEdge(e)] else rest
  }

  /** `_adj` built from the edges es. */
  function Adjacency(n: nat, es: seq<RawEdge>): (r: seq<seq<Edge>>)
    ensures |r| == n
  {
    seq(n, i => EdgesFrom(es, i))
  }

  /** Stop i's list holds exactly the numeric edges leaving i, converted. */
  lemma {:induction false} EdgesFromExactly(es: seq<RawEdge>, i: int, e: Edge)
    ensures e in EdgesFrom(es, i) <==> exists k :: 0 <= k < |es| && Numeric(es[k]) && es[k].from.value == i && ToEdge(es[k]) == e
  {
    if |es| > 0 {
      var init := es[..|es| - 1];
      EdgesFromExactly(init, i, e);
      if exists k :: 0 <= k < |es| && Numeric(es[k]) && es[k].from.value == i && ToEdge(es[k]) == e {
        var k :| 0 <= k < |es| && Numeric(es[k]) && es[k].from.value == i && ToEdge(es[k]) == e;
        if k < |es| - 1 {
          assert init[k] == es[k];
        }
      }
      if e in EdgesFrom(init, i) {
        var k :| 0 <= k < |init| && Numeric(init[k]) && init[k].from.value == i && ToEdge(init[k]) == e;
        assert es[k] == init[k];
      }
    }
  }

  /** The adjacency lists keep the file order: each is a subsequence of the
      numeric edges, converted, in file order. */
  lemma {:induction false} EdgesFromInOrder(es: seq<RawEdge>, i: int)
    ensures IsSubsequence(EdgesFrom(es, i), AllEdges(es))
  {
    if |es| > 0 {
      var init := es[..|es| - 1];
      EdgesFromInOrder(init, i);
      var e := es[|es| - 1];
      if Numeric(e) {
        SubsequenceExtend(EdgesFrom(init, i), AllEdges(init), ToEdge(e));
      } else {
        assert EdgesFrom(es, i) == EdgesFrom(init, i);
        assert AllEdges(es) == AllEdges(init) + [];
        assert AllEdges(init) + [] == AllEdges(init);
      }
    }
  }

  /** Every numeric edge, converted, in file order. */
  function AllEdges(es: seq<RawEdge>): seq<Edge>
  {
    if |es| == 0 then []
    else
      var e := es[|es| - 1];
      AllEdges(es[..|es| - 1]) + (if Numeric(e) then [ToEdge(e)] else [])
  }

  /** One more edge read adds it to the end of its stop's list and nowhere else. */
  lemma AdjacencySnoc(n: nat, es: seq<RawEdge>, e: RawEdge)
    requires !Bad(e, n)
    ensures Adjacency(n, es + [e]) ==
              if Numeric(e) then Adjacency(n, es)[e.from.value := Adjacency(n, es)[e.from.value] + [ToEdge(e)]]
              else Adjacency(n, es)
  {
    assert (es + [e])[..|es|] == es;
  }

  /** No numeric edge of the file has a negative weight (the builders emit at least 20). */
  ghost predicate NonNegativeWeights(es: seq<RawEdge>)
  {
    forall k :: 0 <= k < |es| && Numeric(es[k]) ==> es[k].w.value >= 0.0
  }

  /** Adjacency lists built from a prefix of such a file satisfy the search's requirement. */
  lemma AdjacencyWeights(n: nat, es: seq<RawEdge>, m: nat)
    requires m <= |es| && NonNegativeWeights(es)
    ensures WeightsOk(Adjacency(n, es[..m]))
  {
    var adj := Adjacency(n, es[..m]);
    forall u: int, e: Edge | 0 <= u < |adj| && e in adj[u] ensures e.from == u && e.w >= 0.0 {
      EdgesFromExactly(es[..m], u, e);
    }
  }

  /** `nearestStops`' first loop: every stop within `maxM`, as `{i, d}`, in index order. */
  function Within(meters: seq<Meters>, maxM: real): seq<Near>
  {
    if |meters| == 0 then []
    else
      var n := |meters| - 1;
      Within(meters[..n], maxM) + (if meters[n] <= maxM then [Near(n, meters[n])] else [])
  }

  lemma {:induction false} WithinExactly(meters: seq<Meters>, maxM: real)
    ensures forall x :: x in Within(meters, maxM) <==> x.i < |meters| && x.d == meters[x.i] && x.d <= maxM
    ensures forall a, b :: 0 <= a < b < |Within(meters, maxM)| ==> Within(meters, maxM)[a].i < Within(meters, maxM)[b].i
  {
    if |meters| > 0 {
      var n := |meters| - 1;
      WithinExactly(meters[..n], maxM);
      forall x ensures x in Within(meters, maxM) <==> x.i < |meters| && x.d == meters[x.i] && x.d <= maxM {
        if x.i < n {
          assert meters[..n][x.i] == meters[x.i];
        }
      }
    }
  }

  /** (d, i) in lexicographic order: nearer first, the lower index on a tie. */
  predicate NearLess(a: Near, b: Near)
  {
    a.d < b.d || (a.d == b.d && a.i < b.i)
  }

  predicate NearSorted(s: seq<Near>)
  {
    forall a, b :: 0 <= a < b < |s| ==> NearLess(s[a], s[b])
  }

  /** Inserts x after every entry no farther than it: one step of a stable sort by `d`. */
  function InsertByDist(s: seq<Near>, x: Near): (r: seq<Near>)
    ensures multiset(r) == multiset(s) + multiset{x}
  {
    if |s| == 0 then [x]
    else if s[|s| - 1].d <= x.d then
      assert s == s[..|s| - 1] + [s[|s| - 1]];
      s + [x]
    else
      assert s == s[..|s| - 1] + [s[|s| - 1]];
      InsertByDist(s[..|s| - 1], x) + [s[|s| - 1]]
  }

  /** Appending an entry that comes after every entry keeps the order. */
  lemma SnocSorted(s: seq<Near>, x: Near)
    requires NearSorted(s) && forall j :: 0 <= j < |s| ==> NearLess(s[j], x)
    ensures NearSorted(s + [x])
  {
    forall a, b | 0 <= a < b < |s + [x]| ensures NearLess((s + [x])[a], (s + [x])[b]) {
      if b < |s| {
        assert (s + [x])[a] == s[a] && (s + [x])[b] == s[b];
      }
    }
  }

  /** Inserting an entry whose index exceeds every index present keeps the
      list in (d, i) order. */
  lemma {:induction false} InsertByDistSorted(s: seq<Near>, x: Near)
    requires NearSorted(s) && forall y :: y in s ==> y.i < x.i
    ensures NearSorted(InsertByDist(s, x))
  {
    if |s| > 0 {
      var init := s[..|s| - 1];
      var last := s[|s| - 1];
      assert s == init + [last];
      if last.d <= x.d {
        forall j | 0 <= j < |s| ensures NearLess(s[j], x) {
          assert s[j] in s;
          if j < |s| - 1 {
            assert NearLess(s[j], last);
          }
        }
        SnocSorted(s, x);
      } else {
        assert NearSorted(init) by {
          forall a, b | 0 <= a < b < |init| ensures NearLess(init[a], init[b]) {
            assert init[a] == s[a] && init[b] == s[b];
          }
        }
        InsertByDistSorted(init, x);
        var m := InsertByDist(init, x);
        forall j | 0 <= j < |m| ensures NearLess(m[j], last) {
          var y := m[j];
          assert y in multiset(m);
          assert y in multiset(init) || y == x;
          if y in multiset(init) {
            var k :| 0 <= k < |init| && init[k] == y;
            assert s[k] == y;
          }
        }
        SnocSorted(m, last);
      }
    }
  }

  /** `res.sort((a, b) => a.d - b.d)`: a stable sort by distance. */
  function SortByDist(s: seq<Near>): (r: seq<Near>)
    ensures multiset(r) == multiset(s)
  {
    if |s| == 0 then []
    else
      assert s == s[..|s| - 1] + [s[|s| - 1]];
      InsertByDist(SortByDist(s[..|s| - 1]), s[|s| - 1])
  }

  /** Sorting entries listed in index order yields them nearest first, the
      lower index first on equal distance: the sort is stable. */
  lemma {:induction false} SortByDistSorted(s: seq<Near>)
    requires forall a, b :: 0 <= a < b < |s| ==> s[a].i < s[b].i
    ensures NearSorted(SortByDist(s))
  {
    if |s| > 0 {
      var init := s[..|s| - 1];
      var x := s[|s| - 1];
      assert s == init + [x];
      var sorted := SortByDist(init);
      forall y | y in sorted ensures y.i < x.i {
        assert y in multiset(init);
        var j :| 0 <= j < |init| && init[j] == y;
        assert s[j] == y;
      }
      forall a, b | 0 <= a < b < |init| ensures init[a].i < init[b].i {
        assert init[a] == s[a] && init[b] == s[b];
      }
      SortByDistSorted(init);
      InsertByDistSorted(sorted, x);
    }
  }

  /** What nearestStops returns on a loaded graph. */
  function Nearest(meters: seq<Meters>, k: nat, maxM: real): seq<Near>
  {
    Take(SortByDist(Within(meters, maxM)), k)
  }

  /** nearestStops returns at most k stops, each within maxM at its own
      distance, nearest first (the lower index on a tie, so no stop twice);
      a stop within maxM is left out only when k nearer ones were returned. */
  lemma NearestStopsAreNearest(meters: seq<Meters>, k: nat, maxM: real)
    ensures var r := Nearest(meters, k, maxM);
            && |r| <= k
            && (forall j :: 0 <= j < |r| ==> r[j].i < |meters| && r[j].d == meters[r[j].i] && r[j].d <= maxM)
            && NearSorted(r)
            && forall i :: 0 <= i < |meters| && meters[i] <= maxM && Near(i, meters[i]) !in r ==>
                 |r| == k && forall j :: 0 <= j < |r| ==> NearLess(r[j], Near(i, meters[i]))
  {
    var w := Within(meters, maxM);
    WithinExactly(meters, maxM);
    var s := SortByDist(w);
    SortByDistSorted(w);
    var r := Take(s, k);
    forall j | 0 <= j < |r| ensures r[j].i < |meters| && r[j].d == meters[r[j].i] && r[j].d <= maxM {
      assert r[j] == s[j];
      assert s[j] in multiset(w);
    }
    forall i | 0 <= i < |meters| && meters[i] <= maxM && Near(i, meters[i]) !in r
      ensures |r| == k && forall j :: 0 <= j < |r| ==> NearLess(r[j], Near(i, meters[i]))
    {
      var x := Near(i, meters[i]);
      assert x in multiset(s);
      var p :| 0 <= p < |s| && s[p] == x;
      assert forall j :: 0 <= j < |r| ==> r[j] == s[j];
      assert p >= |r|;
      forall j | 0 <= j < |r| ensures NearLess(r[j], x) {
        assert r[j] == s[j];
      }
    }
  }

  /** init's adjacency loop: every numeric edge pushed onto the list of its
      `from` stop, until the first bad edge, where the push throws. */
  method BuildAdjacency(n: nat, es: seq<RawEdge>) returns (adj: seq<seq<Edge>>, bad: Option<nat>)
    ensures bad == FirstBad(es, n)
    ensures bad.None? ==> adj == Adjacency(n, es)
    ensures bad.Some? ==> adj == Adjacency(n, es[..bad.value])
  {
    adj := seq(n, _ => []);
    var k := 0;
    while k < |es|
      invariant 0 <= k <= |es| && adj == Adjacency(n, es[..k])
      invariant forall j :: 0 <= j < k ==> !Bad(es[j], n)
    {
      var e := es[k];
      assert es[..k + 1] == es[..k] + [e];
      if e.from.Some? && e.to.Some? && e.w.Some? {
        if !(0 <= e.from.value < |adj|) {
          FirstBadAt(es, n, k);
          return adj, Some(k);
        }
      }
      AdjacencySnoc(n, es[..k], e);
      if e.from.Some? && e.to.Some? && e.w.Some? {
        adj := adj[e.from.value := adj[e.from.value] + [ToEdge(e)]];
      }
      k := k + 1;
    }
    assert es[..k] == es;
    bad := None;
  }

  lemma FirstBadAt(es: seq<RawEdge>, n: nat, k: nat)
    requires k < |es| && Bad(es[k], n) && forall j :: 0 <= j < k ==> !Bad(es[j], n)
    ensures FirstBad(es, n) == Some(k)
  {
  }

  // ---------------------------------------------------------------- the object

  datatype Meta = Meta(startStop: string, endStop: string, stops: nat, lines: seq<string>, legs: seq<Leg>)

  /** plan's answer; `totalDistance` is always null. */
  datatype TransitResult = TransitResult(totalDuration: real, totalDistance: Option<real>, geometry: seq<Coord>, meta: Meta)

  /** How many stops plan looks at around each end, and plan's default walking radius. */
  const PlanStops: nat := 6
  const DefaultMaxWalk: real := 900.0

  /** The stops of a Nearest list, as a set. */
  function StopSet(e: seq<Near>): set<int>
  {
    set k | 0 <= k < |e| :: e[k].i as int
  }

  class Gtfs {
    var ready: bool
    var stops: seq<Stop>
    var edges: seq<RawEdge>
    var adj: seq<seq<Edge>>
    /** How many edges init had read when it stopped. */
    ghost var loaded: nat

    /** `_adj` is the adjacency of the edges init read. */
    ghost predicate Valid()
      reads this
    {
      loaded <= |edges| && adj == Adjacency(|stops|, edges[..loaded])
    }

    /** The object before init: not ready, nothing loaded. */
    constructor()
      ensures Valid() && !ready && stops == [] && edges == [] && adj == []
    {
      ready := false;
      stops := [];
      edges := [];
      adj := [];
      loaded := 0;
    }

    /** init with the parsed file (None when it could not be fetched or
        lacks either array). The arrays are stored before the adjacency is
        built; a bad `from` throws, init answers false and `_ready` keeps its
        old value. */
    method Init(file: Option<GraphFile>) returns (ok: bool)
      requires Valid()
      modifies this
      ensures Valid()
      ensures file.None? ==> !ok && stops == old(stops) && edges == old(edges) && adj == old(adj) && ready == old(ready)
      ensures file.Some? ==> stops == file.value.stops && edges == file.value.edges
      ensures ok <==> file.Some? && FirstBad(file.value.edges, |file.value.stops|).None?
      ensures ok ==> ready && adj == Adjacency(|stops|, edges)
      ensures !ok ==> ready == old(ready)
      ensures file.Some? && !ok ==> adj == Adjacency(|stops|, edges[..FirstBad(edges, |stops|).value])
    {
      if file.None? {
        return false;
      }
      stops := file.value.stops;
      edges := file.value.edges;
      var a, bad := BuildAdjacency(|stops|, edges);
      adj := a;
      if bad.Some? {
        loaded := bad.value;
        return false;
      }
      loaded := |edges|;
      assert edges[..|edges|] == edges;
      ready := true;
      ok := true;
    }

    /** nearestStops(pt, k, maxM); `meters[i]` is haversineM from pt to stop i. */
    method NearestStops(meters: seq<Meters>, k: nat, maxM: real) returns (r: seq<Near>)
      requires |meters| == |stops|
      ensures !ready ==> r == []
      ensures ready ==> r == Nearest(meters, k, maxM)
    {
      if !ready {
        return [];
      }
      var res: seq<Near> := [];
      var i := 0;
      while i < |stops|
        invariant 0 <= i <= |stops| && res == Within(meters[..i], maxM)
      {
        assert meters[..i + 1][..i] == meters[..i];
        if meters[i] <= maxM {
          res := res + [Near(i, meters[i])];
        }
        i := i + 1;
      }
      assert meters[..i] == meters;
      res := SortByDist(res);
      r := Take(res, k);
    }

    /** plan(from, to, {maxWalkToStopM}): `fromMeters` and `toMeters` are the
        distances from the origin and the destination to every stop. */
    method Plan(from: Coord, to: Coord, fromMeters: seq<Meters>, toMeters: seq<Meters>, maxWalkToStopM: Option<real>)
      returns (r: Option<TransitResult>, ghost chain: seq<nat>, ghost edgeChain: seq<Edge>)
      requires Valid() && |fromMeters| == |stops| && |toMeters| == |stops|
      requires NonNegativeWeights(edges)
      ensures !ready ==> r.None?
      ensures ready ==>
                var maxWalk := if maxWalkToStopM.Some? then maxWalkToStopM.value else DefaultMaxWalk;
                var starts := Nearest(fromMeters, PlanStops, maxWalk);
                var ends := Nearest(toMeters, PlanStops, maxWalk);
                && (|starts| == 0 || |ends| == 0 ==> r.None?)
                && (r.None? && |starts| > 0 && |ends| > 0 ==> NoRoute(adj, starts, ends))
                && (r.Some? ==> Answer(adj, stops, from, to, starts, ends, chain, edgeChain, r.value))
    {
      if !ready {
        return None, [], [];
      }
      var maxWalk := if maxWalkToStopM.Some? then maxWalkToStopM.value else DefaultMaxWalk;
      var starts := NearestStops(fromMeters, PlanStops, maxWalk);
      var ends := NearestStops(toMeters, PlanStops, maxWalk);
      if |starts| == 0 || |ends| == 0 {
        return None, [], [];
      }
      NearestStopsAreNearest(fromMeters, PlanStops, maxWalk);
      NearestStopsAreNearest(toMeters, PlanStops, maxWalk);
      AdjacencyWeights(|stops|, edges, loaded);
      var bestEnd, dist, prev, prevEdge, rank, top := Search(adj, starts, StopSet(ends));
      if bestEnd.None? {
        return None, [], [];
      }
      var res, ch, ec := Compose(from, to, stops, adj, starts, ends, dist, prev, prevEdge, bestEnd.value, rank, top);
      r, chain, edgeChain := Some(res), ch, ec;
    }
  }

  /** The found branch of plan: the chain read back from the end stop, its
      duration, geometry, lines and legs. */
  method Compose(from: Coord, to: Coord, stops: seq<Stop>, adj: seq<seq<Edge>>, starts: seq<Near>, ends: seq<Near>,
                 dist: array<Option<real>>, prev: array<int>, prevEdge: array<Option<Edge>>, b: nat,
                 ghost rank: map<nat, nat>, ghost top: nat)
    returns (r: TransitResult, ghost chain: seq<nat>, ghost edgeChain: seq<Edge>)
    requires Links(adj, starts, dist[..], prev[..], prevEdge[..]) && RankOk(prev[..], rank, top)
    requires |adj| == |stops| && b < |adj| && |ends| > 0 && b in StopSet(ends) && dist[b].Some?
    ensures r.totalDuration == dist[b].value + WalkCost(EndChoice(ends, b).d)
    ensures r.totalDistance.None? && r.meta.endStop == stops[b].name && r.meta.stops >= 1
    ensures |r.geometry| == r.meta.stops + 2 && r.geometry[0] == from && r.geometry[|r.geometry| - 1] == to
    ensures StrictlySorted(r.meta.lines)
    ensures Answer(adj, stops, from, to, starts, ends, chain, edgeChain, r)
  {
    var endChoice := EndChoice(ends, b);
    var total := dist[b].value + WalkCost(endChoice.d);
    var ch, ec := BuildChain(adj, starts, dist, prev, prevEdge, b, rank, top);
    ChainCost(adj, starts, dist[..], prev[..], prevEdge[..], ch, ec);
    var lines := CollectLines(ec);
    var uniqLines := SortedSet(lines);
    assert uniqLines == UniqLines(ec);
    var legs := GroupLegs(ChainLabels(ec), ChainNames(stops, ch));
    var geometry := Geometry(from, to, stops, ch);
    r := TransitResult(total, None, geometry, Meta(stops[ch[0]].name, stops[b].name, |ch|, uniqLines, legs));
    chain, edgeChain := ch, ec;
    assert ClosestEntry(ends, b).Some? by {
      var k :| 0 <= k < |ends| && ends[k].i as int == b;
    }
  }

  /** The line each edge of the chain is labelled with. */
  function ChainLabels(edgeChain: seq<Edge>): (r: seq<Option<string>>)
    ensures |r| == |edgeChain| && forall i :: 0 <= i < |edgeChain| ==> r[i] == FirstLine(edgeChain[i].info)
  {
    seq(|edgeChain|, i requires 0 <= i < |edgeChain| => FirstLine(edgeChain[i].info))
  }

  /** The name of each stop of the chain. */
  function ChainNames(stops: seq<Stop>, chain: seq<nat>): (r: seq<string>)
    requires forall i :: 0 <= i < |chain| ==> chain[i] < |stops|
    ensures |r| == |chain| && forall i :: 0 <= i < |chain| ==> r[i] == stops[chain[i]].name
  {
    seq(|chain|, i requires 0 <= i < |chain| => stops[chain[i]].name)
  }

  /** No walk through the graph leads from a start stop to an end stop. */
  ghost predicate NoRoute(adj: seq<seq<Edge>>, starts: seq<Near>, ends: seq<Near>)
  {
    forall k, p, t :: 0 <= k < |starts| && 0 <= t < |adj| && t in StopSet(ends) && IsWalk(adj, starts[k].i, p, t) ==> false
  }

  /** The trip of a found plan: a route of the graph from a start stop to an
      end stop, taking the walk to the first stop plus the edge weights plus
      the walk from the end stop's nearest entry. */
  ghost predicate Trip(adj: seq<seq<Edge>>, starts: seq<Near>, ends: seq<Near>, chain: seq<nat>, edgeChain: seq<Edge>, total: real)
  {
    && IsRoute(adj, chain, edgeChain) && |ends| > 0
    && chain[|chain| - 1] in StopSet(ends) && ClosestEntry(ends, chain[|chain| - 1]).Some?
    && exists k :: 0 <= k < |starts| && starts[k].i == chain[0] &&
         total == WalkCost(starts[k].d) + SumW(edgeChain) + WalkCost(EndChoice(ends, chain[|chain| - 1]).d)
  }

  /** The geometry and meta of a found plan: the straight-line polyline
      through the chain, the first and last stop names, the stop count, the
      sorted line names and the legs. */
  ghost predicate Described(stops: seq<Stop>, from: Coord, to: Coord, chain: seq<nat>, edgeChain: seq<Edge>, r: TransitResult)
  {
    && |chain| == |edgeChain| + 1 && (forall i :: 0 <= i < |chain| ==> chain[i] < |stops|)
    && r.totalDistance.None?
    && |r.geometry| == |chain| + 2 && r.geometry[0] == from && r.geometry[|r.geometry| - 1] == to
    && (forall k :: 0 <= k < |chain| ==> r.geometry[k + 1] == stops[chain[k]].pos)
    && r.meta.startStop == stops[chain[0]].name && r.meta.endStop == stops[chain[|chain| - 1]].name
    && r.meta.stops == |chain|
    && r.meta.lines == UniqLines(edgeChain)
    && LegsOf(r.meta.legs, ChainLabels(edgeChain), ChainNames(stops, chain))
  }

  ghost predicate Answer(adj: seq<seq<Edge>>, stops: seq<Stop>, from: Coord, to: Coord, starts: seq<Near>, ends: seq<Near>,
                         chain: seq<nat>, edgeChain: seq<Edge>, r: TransitResult)
  {
    && |adj| == |stops|
    && Trip(adj, starts, ends, chain, edgeChain, r.totalDuration)
    && Described(stops, from, to, chain, edgeChain, r)
  }
}
