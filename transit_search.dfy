/** The search inside GTFS.plan (gtfs.js): a Dijkstra from several start
    stops over the stop graph with a lazily cleaned heap, stopping at the
    first end stop it pops; then the stop chain read back through the `prev`
    links, the line names of the edges used, the grouping of the chain into
    legs by line and the straight-line geometry.

    Stops are indices 0..N-1 into the stop list. `dist` (a Float64Array
    starting at Infinity) holds None for Infinity; `prev` (an Int32Array
    starting at -1) and `prevEdge` are arrays as in the source. */
module TransitSearch {
  import opened Common
  import opened TransitHeap

  datatype Stop = Stop(id: string, name: string, pos: Coord)

  /** Where an edge's line names come from: an array `lines`, else a string
      `line`, else a string `route`, else nothing. */
  datatype LineInfo = Lines(names: seq<string>) | Line(name: string) | Route(name: string) | NoLines

  /** An edge whose `from`, `to` and `w` are numbers. */
  datatype Edge = Edge(from: int, to: int, w: real, info: LineInfo)

  /** A nearby stop `{i, d}`: its index and its distance in metres. */
  datatype Near = Near(i: nat, d: Meters)

  /** A walk of `m` metres at 1.25 m/s, in seconds. */
  function WalkCost(m: Meters): real
  {
    m / 1.25
  }

  /** The adjacency lists hold edges leaving their own stop, and no weight is
      negative (the graph builders emit weights of at least 20). */
  ghost predicate WeightsOk(adj: seq<seq<Edge>>)
  {
    forall u, e :: 0 <= u < |adj| && e in adj[u] ==> e.from == u && e.w >= 0.0
  }

  // ---------------------------------------------------------------- search state

  /** What `dist`, `prev` and `prevEdge` say about stop v: `prev` is -1 or a
      stop; with no predecessor a finite `dist` is the walking cost of a start
      entry for v; with one, `dist[v]` is the predecessor's `dist` plus the
      weight of `prevEdge[v]`, an edge of the predecessor into v. */
  ghost predicate LinkAt(adj: seq<seq<Edge>>, starts: seq<Near>, dist: seq<Option<real>>, prev: seq<int>, prevEdge: seq<Option<Edge>>, v: nat)
    requires |dist| == |adj| && |prev| == |adj| && |prevEdge| == |adj| && v < |adj|
  {
    && -1 <= prev[v] < |adj|
    && (prev[v] == -1 && dist[v].Some? ==>
          exists k :: 0 <= k < |starts| && starts[k].i == v && dist[v].value == WalkCost(starts[k].d))
    && (prev[v] >= 0 ==>
          && prevEdge[v].Some? && prevEdge[v].value in adj[prev[v]] && prevEdge[v].value.to == v
          && dist[prev[v]].Some? && dist[v] == Some(dist[prev[v]].value + prevEdge[v].value.w))
  }

  ghost predicate Links(adj: seq<seq<Edge>>, starts: seq<Near>, dist: seq<Option<real>>, prev: seq<int>, prevEdge: seq<Option<Edge>>)
  {
    && |dist| == |adj| && |prev| == |adj| && |prevEdge| == |adj|
    && forall v: nat :: v < |adj| ==> LinkAt(adj, starts, dist, prev, prevEdge, v)
  }

  /** The rank of a stop in the order stops were settled; stops not yet
      settled rank after all of them. */
  function Measure(rank: map<nat, nat>, top: nat, v: nat): nat
  {
    if v in rank then rank[v] else top
  }

  /** Every predecessor is a settled stop settled before its successor: the
      `prev` links cannot form a cycle. */
  ghost predicate RankOk(prev: seq<int>, rank: map<nat, nat>, top: nat)
  {
    && (forall w :: w in rank ==> rank[w] < top)
    && forall v: nat :: v < |prev| && prev[v] >= 0 ==>
         prev[v] as nat in rank && rank[prev[v] as nat] < Measure(rank, top, v)
  }

  /** Every edge of u into a stop is relaxed: its target's `dist` is at most `dist[u] + w`. */
  ghost predicate Relaxed(adj: seq<seq<Edge>>, dist: seq<Option<real>>, u: nat)
  {
    && u < |adj| && u < |dist| && dist[u].Some?
    && forall e :: e in adj[u] && 0 <= e.to < |dist| ==> dist[e.to].Some? && dist[e.to].value <= dist[u].value + e.w
  }

  lemma BoundedSetSize(s: set<nat>, n: nat)
    requires forall x :: x in s ==> x < n
    ensures |s| <= n
    decreases n
  {
    if n > 0 {
      BoundedSetSize(s - {n - 1}, n - 1);
    }
  }

  /** Relaxing edge e out of the stop u being settled keeps the links and
      ranks: the target is neither u nor a settled stop. */
  lemma RelaxStep(adj: seq<seq<Edge>>, starts: seq<Near>, dist: seq<Option<real>>, prev: seq<int>, prevEdge: seq<Option<Edge>>,
                  rank: map<nat, nat>, top: nat, u: nat, d: real, e: Edge)
    requires WeightsOk(adj) && Links(adj, starts, dist, prev, prevEdge) && RankOk(prev, rank, top)
    requires u < |adj| && u in rank && dist[u] == Some(d)
    requires forall v :: v in rank ==> v < |adj| && dist[v].Some? && dist[v].value <= d
    requires e in adj[u] && 0 <= e.to < |adj|
    requires dist[e.to].None? || d + e.w < dist[e.to].value
    ensures e.to != u && e.to !in rank
    ensures Links(adj, starts, dist[e.to := Some(d + e.w)], prev[e.to := u], prevEdge[e.to := Some(e)])
    ensures RankOk(prev[e.to := u], rank, top)
  {
    var t := e.to;
    assert e.w >= 0.0;
    var dist' := dist[t := Some(d + e.w)];
    var prev' := prev[t := u];
    var prevEdge' := prevEdge[t := Some(e)];
    forall v: nat | v < |adj| ensures LinkAt(adj, starts, dist', prev', prevEdge', v) {
      assert LinkAt(adj, starts, dist, prev, prevEdge, v);
      if v != t && prev[v] >= 0 {
        assert prev[v] in rank;
        assert prev[v] != t;
      }
      if v != t && prev[v] == -1 && dist[v].Some? {
        var k :| 0 <= k < |starts| && starts[k].i == v && dist[v].value == WalkCost(starts[k].d);
        assert dist'[v].value == WalkCost(starts[k].d);
      }
    }
  }

  /** Settling u gives it the next rank. */
  lemma SettleStep(prev: seq<int>, rank: map<nat, nat>, top: nat, u: nat)
    requires RankOk(prev, rank, top) && u !in rank
    ensures RankOk(prev, rank[u := top], top + 1)
  {
  }

  /** Lowering the `dist` of other stops keeps u's edges relaxed. */
  lemma RelaxedMono(adj: seq<seq<Edge>>, d0: seq<Option<real>>, d1: seq<Option<real>>, u: nat)
    requires |d0| == |d1| && u < |d0| && d1[u] == d0[u]
    requires forall v :: 0 <= v < |d0| && d0[v].Some? ==> d1[v].Some? && d1[v].value <= d0[v].value
    requires Relaxed(adj, d0, u)
    ensures Relaxed(adj, d1, u)
  {
  }

  /** Records the better duration nd of stop t, reached from u by edge e,
      and pushes it on the heap. */
  method Improve(dist: array<Option<real>>, prev: array<int>, prevEdge: array<Option<Edge>>, heap: MinHeap,
                 t: nat, u: nat, nd: real, e: Edge)
    requires t < dist.Length && t < prev.Length && t < prevEdge.Length && heap.Valid()
    modifies dist, prev, prevEdge, heap
    ensures dist[..] == old(dist[..])[t := Some(nd)]
    ensures prev[..] == old(prev[..])[t := u]
    ensures prevEdge[..] == old(prevEdge[..])[t := Some(e)]
    ensures heap.Valid() && forall x :: x in heap.h <==> x in old(heap.h) || x == Item(nd, t)
  {
    dist[t] := Some(nd);
    prev[t] := u;
    prevEdge[t] := Some(e);
    heap.Push(nd, t);
    assert forall x :: x in heap.h <==> x in multiset(heap.h);
    assert forall x :: x in old(heap.h) <==> x in multiset(old(heap.h));
  }

  /** From d0 to d1 no `dist` grew, and the settled stops kept theirs. */
  ghost predicate Lowered(d0: seq<Option<real>>, d1: seq<Option<real>>, rank: map<nat, nat>)
  {
    && |d1| == |d0|
    && (forall v :: v in rank && v < |d0| ==> d1[v] == d0[v])
    && (forall v :: 0 <= v < |d0| && d0[v].Some? ==> d1[v].Some? && d1[v].value <= d0[v].value)
  }

  /** Every `dist` changed from d0 to d1 was pushed on the heap h with its new value. */
  ghost predicate Pushed(d0: seq<Option<real>>, d1: seq<Option<real>>, h: seq<Item>)
    requires |d1| == |d0|
  {
    forall v :: 0 <= v < |d1| && d1[v].Some? && d1[v] != d0[v] ==> Item(d1[v].value, v) in h
  }

  /** The inner loop of the search: relax every edge of the stop u just popped
      with duration d. */
  method Relax(adj: seq<seq<Edge>>, starts: seq<Near>, u: nat, d: real,
               dist: array<Option<real>>, prev: array<int>, prevEdge: array<Option<Edge>>, heap: MinHeap,
               ghost rank: map<nat, nat>, ghost top: nat)
    requires WeightsOk(adj) && u < |adj|
    requires heap.Valid()
    requires u in rank && dist.Length == |adj| && dist[u] == Some(d)
    requires forall v :: v in rank ==> v < |adj| && dist[v].Some? && dist[v].value <= d
    requires forall x :: x in heap.h ==> 0 <= x.stop < |adj| && d <= x.key
    requires Links(adj, starts, dist[..], prev[..], prevEdge[..]) && RankOk(prev[..], rank, top)
    modifies dist, prev, prevEdge, heap
    ensures heap.Valid()
    ensures forall x :: x in heap.h ==> 0 <= x.stop < |adj| && d <= x.key
    ensures forall x :: x in old(heap.h) ==> x in heap.h
    ensures Lowered(old(dist[..]), dist[..], rank) && Pushed(old(dist[..]), dist[..], heap.h)
    ensures Relaxed(adj, dist[..], u)
    ensures Links(adj, starts, dist[..], prev[..], prevEdge[..]) && RankOk(prev[..], rank, top)
    ensures Relaxed(adj, old(dist[..]), u) ==> heap.h == old(heap.h)
  {
    ghost var dist0 := dist[..];
    ghost var heap0 := heap.h;
    ghost var gd, gp, ge := dist[..], prev[..], prevEdge[..];
    var ei := 0;
    while ei < |adj[u]|
      invariant 0 <= ei <= |adj[u]|
      invariant heap.Valid() && dist[..] == gd && prev[..] == gp && prevEdge[..] == ge
      invariant RelaxInv(adj, starts, u, d, ei, rank, top, dist0, heap0, gd, gp, ge, heap.h)
    {
      var e := adj[u][ei];
      var nd := d + e.w;
      if 0 <= e.to < dist.Length && (dist[e.to].None? || nd < dist[e.to].value) {
        ghost var h1 := heap.h;
        Improve(dist, prev, prevEdge, heap, e.to, u, nd, e);
        ImproveKeeps(adj, starts, u, d, ei, rank, top, dist0, heap0, gd, gp, ge, h1, heap.h, e, nd);
        gd, gp, ge := gd[e.to := Some(nd)], gp[e.to := u], ge[e.to := Some(e)];
      } else {
        SkipKeeps(adj, starts, u, d, ei, rank, top, dist0, heap0, gd, gp, ge, heap.h);
      }
      ei := ei + 1;
    }
    RelaxDone(adj, starts, u, d, rank, top, dist0, heap0, dist[..], prev[..], prevEdge[..], heap.h);
  }

  /** The first ei edges of u are relaxed against duration d. */
  ghost predicate RelaxedUpTo(adj: seq<seq<Edge>>, dist: seq<Option<real>>, u: nat, d: real, ei: nat)
    requires u < |adj| && ei <= |adj[u]|
  {
    forall k :: 0 <= k < ei && 0 <= adj[u][k].to < |dist| ==>
      dist[adj[u][k].to].Some? && dist[adj[u][k].to].value <= d + adj[u][k].w
  }

  /** The invariant of the edge loop: dist0 and heap0 are the state when
      the loop started; the first ei edges are relaxed. */
  ghost predicate RelaxInv(adj: seq<seq<Edge>>, starts: seq<Near>, u: nat, d: real, ei: nat,
                           rank: map<nat, nat>, top: nat, dist0: seq<Option<real>>, heap0: seq<Item>,
                           dist: seq<Option<real>>, prev: seq<int>, prevEdge: seq<Option<Edge>>, h: seq<Item>)
  {
    && u < |adj| && ei <= |adj[u]| && |dist| == |adj| && u in rank && dist[u] == Some(d)
    && (forall v :: v in rank ==> v < |adj| && dist[v].Some? && dist[v].value <= d)
    && (forall x :: x in h ==> 0 <= x.stop < |adj| && d <= x.key)
    && (forall x :: x in heap0 ==> x in h)
    && Lowered(dist0, dist, rank) && Pushed(dist0, dist, h)
    && RelaxedUpTo(adj, dist, u, d, ei)
    && Links(adj, starts, dist, prev, prevEdge) && RankOk(prev, rank, top)
    && (Relaxed(adj, dist0, u) ==> h == heap0 && dist == dist0)
  }

  /** Improving the target of u's edge number ei keeps the edge loop's invariant. */
  lemma ImproveKeeps(adj: seq<seq<Edge>>, starts: seq<Near>, u: nat, d: real, ei: nat,
                     rank: map<nat, nat>, top: nat, dist0: seq<Option<real>>, heap0: seq<Item>,
                     dist: seq<Option<real>>, prev: seq<int>, prevEdge: seq<Option<Edge>>, h: seq<Item>, h': seq<Item>,
                     e: Edge, nd: real)
    requires WeightsOk(adj) && RelaxInv(adj, starts, u, d, ei, rank, top, dist0, heap0, dist, prev, prevEdge, h)
    requires ei < |adj[u]| && e == adj[u][ei] && nd == d + e.w
    requires 0 <= e.to < |dist| && (dist[e.to].None? || nd < dist[e.to].value)
    requires forall x :: x in h' <==> x in h || x == Item(nd, e.to)
    ensures RelaxInv(adj, starts, u, d, ei + 1, rank, top, dist0, heap0,
                     dist[e.to := Some(nd)], prev[e.to := u], prevEdge[e.to := Some(e)], h')
  {
    assert e in adj[u];
    RelaxStep(adj, starts, dist, prev, prevEdge, rank, top, u, d, e);
    if Relaxed(adj, dist0, u) {
      assert false;
    }
  }

  /** An edge that improves nothing keeps the edge loop's invariant. */
  lemma SkipKeeps(adj: seq<seq<Edge>>, starts: seq<Near>, u: nat, d: real, ei: nat,
                  rank: map<nat, nat>, top: nat, dist0: seq<Option<real>>, heap0: seq<Item>,
                  dist: seq<Option<real>>, prev: seq<int>, prevEdge: seq<Option<Edge>>, h: seq<Item>)
    requires RelaxInv(adj, starts, u, d, ei, rank, top, dist0, heap0, dist, prev, prevEdge, h)
    requires ei < |adj[u]|
    requires var e := adj[u][ei]; !(0 <= e.to < |dist| && (dist[e.to].None? || d + e.w < dist[e.to].value))
    ensures RelaxInv(adj, starts, u, d, ei + 1, rank, top, dist0, heap0, dist, prev, prevEdge, h)
  {
  }

  lemma RelaxDone(adj: seq<seq<Edge>>, starts: seq<Near>, u: nat, d: real,
                  rank: map<nat, nat>, top: nat, dist0: seq<Option<real>>, heap0: seq<Item>,
                  dist: seq<Option<real>>, prev: seq<int>, prevEdge: seq<Option<Edge>>, h: seq<Item>)
    requires u < |adj| && RelaxInv(adj, starts, u, d, |adj[u]|, rank, top, dist0, heap0, dist, prev, prevEdge, h)
    ensures Relaxed(adj, dist, u)
  {
    forall e | e in adj[u] && 0 <= e.to < |dist| ensures dist[e.to].Some? && dist[e.to].value <= dist[u].value + e.w {
      var k :| 0 <= k < |adj[u]| && adj[u][k] == e;
    }
  }

  /** A walk through the graph: consecutive edges taken from the adjacency
      list of the stop reached so far, from `src` to `dst`. */
  ghost predicate IsWalk(adj: seq<seq<Edge>>, src: int, p: seq<Edge>, dst: int)
    decreases |p|
  {
    if |p| == 0 then src == dst
    else 0 <= src < |adj| && p[0] in adj[src] && IsWalk(adj, p[0].to, p[1..], dst)
  }

  /** A set of stops closed under relaxed edges contains everything reachable from it. */
  lemma {:induction false} ClosedUnderWalks(adj: seq<seq<Edge>>, dist: seq<Option<real>>, src: int, p: seq<Edge>, dst: int)
    requires |dist| == |adj|
    requires forall v :: 0 <= v < |dist| && dist[v].Some? ==> Relaxed(adj, dist, v)
    requires 0 <= src < |dist| && dist[src].Some? && IsWalk(adj, src, p, dst)
    requires 0 <= dst < |adj|
    ensures dist[dst].Some?
    decreases |p|
  {
    if |p| > 0 {
      assert Relaxed(adj, dist, src);
      var rest := p[1..];
      assert IsWalk(adj, p[0].to, rest, dst);
      if |rest| > 0 {
        assert 0 <= p[0].to < |adj|;
      }
      ClosedUnderWalks(adj, dist, p[0].to, rest, dst);
    }
  }

  /** The invariant of the search loop over the state `dist`, `prev`,
      `prevEdge`, the heap entries h and the ranks of the settled stops:
      a settled stop is no end stop, its edges are relaxed and its `dist` is
      no larger than any entry left; every finite `dist` belongs to a settled
      stop or waits on the heap; every start stop has a finite `dist`. */
  ghost predicate SearchInv(adj: seq<seq<Edge>>, starts: seq<Near>, ends: set<int>,
                            dist: seq<Option<real>>, prev: seq<int>, prevEdge: seq<Option<Edge>>, h: seq<Item>,
                            rank: map<nat, nat>, top: nat)
  {
    && Links(adj, starts, dist, prev, prevEdge) && RankOk(prev, rank, top)
    && top == |rank.Keys| && top <= |adj|
    && (forall x :: x in h ==> 0 <= x.stop < |adj|)
    && (forall v :: v in rank ==> v < |adj| && v !in ends && Relaxed(adj, dist, v))
    && (forall v, x :: v in rank && x in h ==> v < |dist| && dist[v].Some? && dist[v].value <= x.key)
    && (forall v :: 0 <= v < |dist| && dist[v].Some? ==> v in rank || Item(dist[v].value, v) in h)
    && (forall j :: 0 <= j < |starts| ==> starts[j].i < |dist| && dist[starts[j].i].Some?)
  }

  /** Dropping an entry whose duration is no longer its stop's `dist` keeps the invariant. */
  lemma StaleKeeps(adj: seq<seq<Edge>>, starts: seq<Near>, ends: set<int>,
                   dist: seq<Option<real>>, prev: seq<int>, prevEdge: seq<Option<Edge>>, h0: seq<Item>, h1: seq<Item>,
                   rank: map<nat, nat>, top: nat, d: real, u: int)
    requires SearchInv(adj, starts, ends, dist, prev, prevEdge, h0, rank, top)
    requires forall x :: x in h1 ==> x in h0
    requires forall x :: x in h0 && x != Item(d, u) ==> x in h1
    requires 0 <= u < |dist| && dist[u] != Some(d)
    ensures SearchInv(adj, starts, ends, dist, prev, prevEdge, h1, rank, top)
  {
  }

  /** The ranks once u is settled: a stop settled for the first time gets the next rank. */
  function Settle(rank: map<nat, nat>, top: nat, u: nat): map<nat, nat>
  {
    if u in rank then rank else rank[u := top]
  }

  function SettleTop(rank: map<nat, nat>, top: nat, u: nat): nat
  {
    if u in rank then top else top + 1
  }

  /** Settling the popped stop u (duration d) and relaxing its edges keeps
      the invariant. The state before the pop is dist0, prev0, prevEdge0 and
      h0; after the pop the heap is h1; after relaxing, dist1, prev1,
      prevEdge1 and h2. */
  lemma VisitKeeps(adj: seq<seq<Edge>>, starts: seq<Near>, ends: set<int>,
                   dist0: seq<Option<real>>, prev0: seq<int>, prevEdge0: seq<Option<Edge>>, h0: seq<Item>, h1: seq<Item>,
                   rank0: map<nat, nat>, top0: nat, d: real, u: nat,
                   dist1: seq<Option<real>>, prev1: seq<int>, prevEdge1: seq<Option<Edge>>, h2: seq<Item>)
    requires WeightsOk(adj) && SearchInv(adj, starts, ends, dist0, prev0, prevEdge0, h0, rank0, top0)
    requires Item(d, u) in h0 && u < |adj| && dist0[u] == Some(d) && u !in ends
    requires forall x :: x in h1 ==> x in h0
    requires forall x :: x in h0 && x != Item(d, u) ==> x in h1
    requires forall x :: x in h2 ==> 0 <= x.stop < |adj| && d <= x.key
    requires forall x :: x in h1 ==> x in h2
    requires Lowered(dist0, dist1, Settle(rank0, top0, u)) && Pushed(dist0, dist1, h2)
    requires Relaxed(adj, dist1, u)
    requires Links(adj, starts, dist1, prev1, prevEdge1)
    requires RankOk(prev1, Settle(rank0, top0, u), SettleTop(rank0, top0, u))
    ensures SearchInv(adj, starts, ends, dist1, prev1, prevEdge1, h2, Settle(rank0, top0, u), SettleTop(rank0, top0, u))
  {
    var rank1 := Settle(rank0, top0, u);
    BoundedSetSize(rank1.Keys, |adj|);
    forall v | v in rank1 ensures v < |adj| && v !in ends && Relaxed(adj, dist1, v) {
      if v != u {
        RelaxedMono(adj, dist0, dist1, v);
      }
    }
  }

  /** One visit of the search loop: the popped stop u with duration d, no
      end stop and not stale, is settled and its edges relaxed. h0 is the heap
      before the pop. */
  method Visit(adj: seq<seq<Edge>>, starts: seq<Near>, ends: set<int>, u: nat, d: real,
               dist: array<Option<real>>, prev: array<int>, prevEdge: array<Option<Edge>>, heap: MinHeap,
               ghost h0: seq<Item>, ghost rank: map<nat, nat>, ghost top: nat)
    requires WeightsOk(adj) && heap.Valid()
    requires SearchInv(adj, starts, ends, dist[..], prev[..], prevEdge[..], h0, rank, top)
    requires Item(d, u) in h0 && u < |adj| && dist[u] == Some(d) && u !in ends
    requires forall x :: x in h0 ==> d <= x.key
    requires forall x :: x in heap.h ==> x in h0
    requires forall x :: x in h0 && x != Item(d, u) ==> x in heap.h
    modifies dist, prev, prevEdge, heap
    ensures heap.Valid()
    ensures SearchInv(adj, starts, ends, dist[..], prev[..], prevEdge[..], heap.h, Settle(rank, top, u), SettleTop(rank, top, u))
    ensures u in rank ==> |heap.h| == old(|heap.h|)
  {
    ghost var dist0, prev0, prevEdge0, h1 := dist[..], prev[..], prevEdge[..], heap.h;
    if u !in rank {
      SettleStep(prev[..], rank, top, u);
    }
    ghost var rank1, top1 := Settle(rank, top, u), SettleTop(rank, top, u);
    assert forall v :: v in rank1 ==> v < |adj| && dist[v].Some? && dist[v].value <= d;
    Relax(adj, starts, u, d, dist, prev, prevEdge, heap, rank1, top1);
    VisitKeeps(adj, starts, ends, dist0, prev0, prevEdge0, h0, h1, rank, top, d, u,
               dist[..], prev[..], prevEdge[..], heap.h);
  }

  /** The start loop of the search: every start entry's stop gets the
      walking cost of its distance and is pushed with it. */
  method Seed(adj: seq<seq<Edge>>, starts: seq<Near>, dist: array<Option<real>>, prev: array<int>, prevEdge: array<Option<Edge>>, heap: MinHeap)
    requires forall k :: 0 <= k < |starts| ==> starts[k].i < |adj|
    requires dist.Length == |adj| && prev.Length == |adj| && prevEdge.Length == |adj|
    requires forall v :: 0 <= v < |adj| ==> dist[v].None? && prev[v] == -1
    requires heap.Valid() && heap.h == []
    modifies dist, heap
    ensures heap.Valid()
    ensures forall x :: x in heap.h ==> 0 <= x.stop < |adj|
    ensures forall j :: 0 <= j < |starts| ==> dist[starts[j].i].Some?
    ensures forall v :: 0 <= v < |adj| && dist[v].Some? ==> Item(dist[v].value, v) in heap.h
    ensures Links(adj, starts, dist[..], prev[..], prevEdge[..])
  {
    var k := 0;
    while k < |starts|
      invariant 0 <= k <= |starts|
      invariant heap.Valid()
      invariant forall x :: x in heap.h ==> 0 <= x.stop < |adj|
      invariant forall j :: 0 <= j < k ==> dist[starts[j].i].Some?
      invariant forall v :: 0 <= v < |adj| && dist[v].Some? ==> Item(dist[v].value, v) in heap.h
      invariant forall v :: 0 <= v < |adj| && dist[v].Some? ==>
                  exists j :: 0 <= j < |starts| && starts[j].i == v && dist[v].value == WalkCost(starts[j].d)
    {
      var ss := starts[k];
      ghost var h0 := heap.h;
      dist[ss.i] := Some(WalkCost(ss.d));
      heap.Push(WalkCost(ss.d), ss.i);
      assert forall x :: x in heap.h <==> x in h0 || x == Item(WalkCost(ss.d), ss.i) by {
        assert forall x :: x in heap.h <==> x in multiset(heap.h);
        assert forall x :: x in h0 <==> x in multiset(h0);
      }
      k := k + 1;
    }
    forall v: nat | v < |adj| ensures LinkAt(adj, starts, dist[..], prev[..], prevEdge[..], v) {
    }
  }

  /** `heap.pop()` on a non-empty heap: an entry with the least key leaves;
      every other entry stays. */
  method PopMin(heap: MinHeap) returns (d: real, u: int)
    requires heap.Valid() && |heap.h| > 0
    modifies heap
    ensures heap.Valid() && |heap.h| < old(|heap.h|)
    ensures Item(d, u) in old(heap.h)
    ensures forall x :: x in old(heap.h) ==> d <= x.key
    ensures forall x :: x in heap.h ==> x in old(heap.h)
    ensures forall x :: x in old(heap.h) && x != Item(d, u) ==> x in heap.h
  {
    ghost var h0 := heap.h;
    var item := heap.Pop();
    d, u := item.value.key, item.value.stop;
    assert forall x :: x in heap.h <==> x in multiset(h0) - multiset{item.value} by {
      assert forall x :: x in heap.h <==> x in multiset(heap.h);
    }
    assert forall x :: x in h0 <==> x in multiset(h0);
  }

  /** The Dijkstra loop of GTFS.plan. Each start entry `{i, d}` starts at the
      walking cost of d; entries whose duration is no longer the stop's
      `dist` are skipped; the first end stop popped ends the search. */
  method Search(adj: seq<seq<Edge>>, starts: seq<Near>, ends: set<int>)
    returns (bestEnd: Option<nat>, dist: array<Option<real>>, prev: array<int>, prevEdge: array<Option<Edge>>,
             ghost rank: map<nat, nat>, ghost top: nat)
    requires WeightsOk(adj)
    requires forall k :: 0 <= k < |starts| ==> starts[k].i < |adj|
    ensures fresh(dist) && fresh(prev) && fresh(prevEdge)
    ensures Links(adj, starts, dist[..], prev[..], prevEdge[..]) && RankOk(prev[..], rank, top)
    ensures forall k :: 0 <= k < |starts| ==> dist[starts[k].i].Some?
    ensures bestEnd.Some? ==> bestEnd.value < |adj| && bestEnd.value in ends && dist[bestEnd.value].Some?
    ensures bestEnd.None? ==> forall k, p, t :: 0 <= k < |starts| && 0 <= t < |adj| && t in ends && IsWalk(adj, starts[k].i, p, t) ==> false
  {
    var n := |adj|;
    dist := new Option<real>[n](_ => None);
    prev := new int[n](_ => -1);
    prevEdge := new Option<Edge>[n](_ => None);
    var heap := new MinHeap();
    Seed(adj, starts, dist, prev, prevEdge, heap);
    rank := map[];
    top := 0;
    bestEnd := None;
    while |heap.h| > 0
      invariant heap.Valid() && fresh(heap)
      invariant SearchInv(adj, starts, ends, dist[..], prev[..], prevEdge[..], heap.h, rank, top)
      decreases n - top, |heap.h|
    {
      ghost var h0 := heap.h;
      ghost var dist0, prev0, prevEdge0 := dist[..], prev[..], prevEdge[..];
      var d, stop := PopMin(heap);
      var u := stop as nat;
      if dist[u] != Some(d) {
        StaleKeeps(adj, starts, ends, dist0, prev0, prevEdge0, h0, heap.h, rank, top, d, u);
        continue;
      }
      if u in ends {
        bestEnd := Some(u);
        break;
      }
      Visit(adj, starts, ends, u, d, dist, prev, prevEdge, heap, h0, rank, top);
      rank, top := Settle(rank, top, u), SettleTop(rank, top, u);
    }
    if bestEnd.None? {
      Exhausted(adj, starts, ends, dist[..], prev[..], prevEdge[..], heap.h, rank, top);
    }
  }

  /** When the heap runs empty, every stop with a finite `dist` is settled,
      so no end stop can be reached from a start stop. */
  lemma Exhausted(adj: seq<seq<Edge>>, starts: seq<Near>, ends: set<int>,
                  dist: seq<Option<real>>, prev: seq<int>, prevEdge: seq<Option<Edge>>, h: seq<Item>,
                  rank: map<nat, nat>, top: nat)
    requires SearchInv(adj, starts, ends, dist, prev, prevEdge, h, rank, top) && |h| == 0
    ensures forall k, p, t :: 0 <= k < |starts| && 0 <= t < |adj| && t in ends && IsWalk(adj, starts[k].i, p, t) ==> false
  {
    forall k, p, t | 0 <= k < |starts| && 0 <= t < |adj| && t in ends && IsWalk(adj, starts[k].i, p, t) ensures false {
      ClosedUnderWalks(adj, dist, starts[k].i, p, t);
    }
  }

  // ---------------------------------------------------------------- the stop chain

  /** `s.reverse()`. */
  function Reverse<T>(s: seq<T>): (r: seq<T>)
    ensures |r| == |s| && forall i :: 0 <= i < |s| ==> r[i] == s[|s| - 1 - i]
  {
    if |s| == 0 then [] else [s[|s| - 1]] + Reverse(s[..|s| - 1])
  }

  /** Follows the `prev` links back from bestEnd, then reverses both lists. */
  method BuildChain(adj: seq<seq<Edge>>, starts: seq<Near>, dist: array<Option<real>>, prev: array<int>, prevEdge: array<Option<Edge>>,
                    bestEnd: nat, ghost rank: map<nat, nat>, ghost top: nat)
    returns (chain: seq<nat>, edgeChain: seq<Edge>)
    requires bestEnd < |adj|
    requires Links(adj, starts, dist[..], prev[..], prevEdge[..]) && RankOk(prev[..], rank, top)
    ensures |chain| == |edgeChain| + 1 && chain[|chain| - 1] == bestEnd
    ensures forall i :: 0 <= i < |chain| ==> chain[i] < |adj|
    ensures prev[chain[0]] == -1
    ensures forall i :: 0 <= i < |edgeChain| ==> prev[chain[i + 1]] == chain[i] && prevEdge[chain[i + 1]] == Some(edgeChain[i])
  {
    var chainRev: seq<nat> := [bestEnd];
    var edgeRev: seq<Edge> := [];
    var cur: nat := bestEnd;
    assert LinkAt(adj, starts, dist[..], prev[..], prevEdge[..], cur);
    while prev[cur] != -1
      invariant cur < |adj| && |chainRev| == |edgeRev| + 1 && chainRev[0] == bestEnd && chainRev[|chainRev| - 1] == cur
      invariant forall i :: 0 <= i < |chainRev| ==> chainRev[i] < |adj|
      invariant forall i :: 0 <= i < |edgeRev| ==> prev[chainRev[i]] == chainRev[i + 1] && prevEdge[chainRev[i]] == Some(edgeRev[i])
      decreases Measure(rank, top, cur)
    {
      assert LinkAt(adj, starts, dist[..], prev[..], prevEdge[..], cur);
      edgeRev := edgeRev + [prevEdge[cur].value];
      cur := prev[cur] as nat;
      chainRev := chainRev + [cur];
      assert LinkAt(adj, starts, dist[..], prev[..], prevEdge[..], cur);
    }
    chain := Reverse(chainRev);
    edgeChain := Reverse(edgeRev);
  }

  function SumW(es: seq<Edge>): real
  {
    if |es| == 0 then 0.0 else SumW(es[..|es| - 1]) + es[|es| - 1].w
  }

  /** A route from a start stop: consecutive edges of the graph along the chain. */
  ghost predicate IsRoute(adj: seq<seq<Edge>>, chain: seq<nat>, edgeChain: seq<Edge>)
  {
    && |chain| == |edgeChain| + 1
    && (forall i :: 0 <= i < |chain| ==> chain[i] < |adj|)
    && (forall i :: 0 <= i < |edgeChain| ==> edgeChain[i] in adj[chain[i]] && edgeChain[i].to == chain[i + 1])
  }

  /** The chain read back from the links is a route of the graph from a start
      entry, and the `dist` of its last stop is that entry's walking cost plus
      the weights of the edges along it. */
  lemma {:induction false} ChainCost(adj: seq<seq<Edge>>, starts: seq<Near>, dist: seq<Option<real>>, prev: seq<int>, prevEdge: seq<Option<Edge>>,
                  chain: seq<nat>, edgeChain: seq<Edge>)
    requires Links(adj, starts, dist, prev, prevEdge)
    requires |chain| == |edgeChain| + 1 && forall i :: 0 <= i < |chain| ==> chain[i] < |adj|
    requires prev[chain[0]] == -1
    requires forall i :: 0 <= i < |edgeChain| ==> prev[chain[i + 1]] == chain[i] && prevEdge[chain[i + 1]] == Some(edgeChain[i])
    requires dist[chain[|chain| - 1]].Some?
    ensures IsRoute(adj, chain, edgeChain)
    ensures dist[chain[0]].Some? && dist[chain[|chain| - 1]].value == dist[chain[0]].value + SumW(edgeChain)
    ensures exists k :: 0 <= k < |starts| && starts[k].i == chain[0] && dist[chain[0]].value == WalkCost(starts[k].d)
    decreases |edgeChain|
  {
    var last := chain[|chain| - 1];
    assert LinkAt(adj, starts, dist, prev, prevEdge, last);
    if |edgeChain| == 0 {
    } else {
      var c' := chain[..|chain| - 1];
      var e' := edgeChain[..|edgeChain| - 1];
      ChainCost(adj, starts, dist, prev, prevEdge, c', e');
    }
    assert LinkAt(adj, starts, dist, prev, prevEdge, chain[0]);
  }

  // ---------------------------------------------------------------- line names

  /** The names an edge lists (`e.lines`, `[e.line]` or `[e.route]`). */
  function LineNames(info: LineInfo): seq<string>
  {
    match info
    case Lines(ns) => ns
    case Line(n) => [n]
    case Route(n) => [n]
    case NoLines => []
  }

  /** The truthy names, in order (`filter(Boolean)`, `if (x)`). */
  function NonEmpty(xs: seq<string>): (r: seq<string>)
    ensures forall y :: y in r <==> y in xs && y != ""
  {
    if |xs| == 0 then []
    else
      var init := NonEmpty(xs[..|xs| - 1]);
      var x := xs[|xs| - 1];
      assert xs == xs[..|xs| - 1] + [x];
      if x != "" then init + [x] else init
  }

  /** `edgeLines`: the truthy names of every edge of the chain, edge by edge. */
  function EdgeLines(es: seq<Edge>): seq<string>
  {
    if |es| == 0 then [] else EdgeLines(es[..|es| - 1]) + NonEmpty(LineNames(es[|es| - 1].info))
  }

  lemma EdgeLinesMembers(es: seq<Edge>, y: string)
    ensures y in EdgeLines(es) <==> y != "" && exists i :: 0 <= i < |es| && y in LineNames(es[i].info)
  {
    if |es| > 0 {
      EdgeLinesMembers(es[..|es| - 1], y);
      if y in LineNames(es[|es| - 1].info) && y != "" {
        assert y in EdgeLines(es);
      }
      if y in EdgeLines(es) && y !in EdgeLines(es[..|es| - 1]) {
        assert y in NonEmpty(LineNames(es[|es| - 1].info));
      }
      if exists i :: 0 <= i < |es| && y in LineNames(es[i].info) {
        var i :| 0 <= i < |es| && y in LineNames(es[i].info);
        if i < |es| - 1 {
          assert es[..|es| - 1][i] == es[i];
        }
      }
    }
  }

  /** The loop that fills `edgeLines`. */
  method CollectLines(es: seq<Edge>) returns (lines: seq<string>)
    ensures lines == EdgeLines(es)
  {
    lines := [];
    var i := 0;
    while i < |es|
      invariant 0 <= i <= |es| && lines == EdgeLines(es[..i])
    {
      var ls := LineNames(es[i].info);
      var j := 0;
      ghost var before := lines;
      while j < |ls|
        invariant 0 <= j <= |ls| && lines == before + NonEmpty(ls[..j])
      {
        if ls[j] != "" {
          lines := lines + [ls[j]];
        }
        assert ls[..j + 1][..j] == ls[..j];
        j := j + 1;
      }
      assert ls[..|ls|] == ls;
      assert es[..i + 1][..i] == es[..i];
      i := i + 1;
    }
    assert es[..|es|] == es;
  }

  /** `uniqLines`: the sorted distinct line names of the chain's edges. */
  function UniqLines(es: seq<Edge>): (r: seq<string>)
    ensures StrictlySorted(r)
    ensures forall y :: y in r <==> y != "" && exists i :: 0 <= i < |es| && y in LineNames(es[i].info)
  {
    var r := SortedSet(EdgeLines(es));
    assert forall y :: y in r <==> y in EdgeLines(es);
    assert forall y :: y in EdgeLines(es) <==> y != "" && exists i :: 0 <= i < |es| && y in LineNames(es[i].info) by {
      forall y ensures y in EdgeLines(es) <==> y != "" && exists i :: 0 <= i < |es| && y in LineNames(es[i].info) {
        EdgeLinesMembers(es, y);
      }
    }
    r
  }

  /** The line a leg is labelled with: the smallest non-empty name of the
      edge, or None (null) when it has none. */
  function FirstLine(info: LineInfo): (r: Option<string>)
    ensures r.None? <==> forall y :: y in LineNames(info) ==> y == ""
    ensures r.Some? ==> r.value != "" && r.value in LineNames(info)
                        && forall y :: y in LineNames(info) && y != "" && y != r.value ==> StrLess(r.value, y)
  {
    var s := SortedSet(NonEmpty(LineNames(info)));
    if |s| == 0 then
      assert forall y :: y in LineNames(info) && y != "" ==> y in s;
      None
    else
      assert s[0] in s;
      forall y | y in LineNames(info) && y != "" && y != s[0] ensures StrLess(s[0], y) {
        assert y in s;
        HeadIsLeast(s, y);
      }
      Some(s[0])
  }

  // ---------------------------------------------------------------- legs

  datatype Leg = Leg(line: Option<string>, fromStop: string, toStop: string, stops: nat)

  /** The legs cover the first i edges of a chain whose j-th edge has line
      `lines[j]` and whose j-th stop is named `names[j]`: the last leg covers
      the edges j..i-1 (at least one), all on its line, and runs from the
      name of stop j to the name of stop i; the leg before it has another
      line; the legs before it cover the first j edges in the same way. */
  ghost predicate LegsUpTo(legs: seq<Leg>, lines: seq<Option<string>>, names: seq<string>, i: nat)
    requires i <= |lines| && |names| == |lines| + 1
    decreases |legs|
  {
    if |legs| == 0 then i == 0
    else
      var l := legs[|legs| - 1];
      && 1 <= l.stops <= i
      && (forall t :: i - l.stops <= t < i ==> lines[t] == l.line)
      && l.fromStop == names[i - l.stops] && l.toStop == names[i]
      && (|legs| > 1 ==> legs[|legs| - 2].line != l.line)
      && LegsUpTo(legs[..|legs| - 1], lines, names, i - l.stops)
  }

  /** The legs rule for the whole chain. */
  ghost predicate LegsOf(legs: seq<Leg>, lines: seq<Option<string>>, names: seq<string>)
    requires |names| == |lines| + 1
  {
    LegsUpTo(legs, lines, names, |lines|)
  }

  /** An edge whose line differs from the last leg's opens a new leg of one stop. */
  lemma NewLeg(all: seq<Leg>, lines: seq<Option<string>>, names: seq<string>, i: nat)
    requires i < |lines| && |names| == |lines| + 1 && LegsUpTo(all, lines, names, i)
    requires |all| > 0 ==> all[|all| - 1].line != lines[i]
    ensures LegsUpTo(WithCurrent(all, Some(Leg(lines[i], names[i], names[i + 1], 1))), lines, names, i + 1)
  {
    assert (all + [Leg(lines[i], names[i], names[i + 1], 1)])[..|all|] == all;
  }

  /** An edge on the current leg's line extends that leg by one stop. */
  lemma GrowLeg(legs: seq<Leg>, c: Leg, lines: seq<Option<string>>, names: seq<string>, i: nat)
    requires i < |lines| && |names| == |lines| + 1 && LegsUpTo(WithCurrent(legs, Some(c)), lines, names, i)
    requires c.line == lines[i]
    ensures LegsUpTo(WithCurrent(legs, Some(Leg(c.line, c.fromStop, names[i + 1], c.stops + 1))), lines, names, i + 1)
  {
    assert (legs + [c])[..|legs|] == legs;
    assert (legs + [Leg(c.line, c.fromStop, names[i + 1], c.stops + 1)])[..|legs|] == legs;
  }

  /** The closed legs followed by the current one, if any. */
  function WithCurrent(legs: seq<Leg>, cur: Option<Leg>): seq<Leg>
  {
    if cur.Some? then legs + [cur.value] else legs
  }

  /** The invariant of the leg loop after i edges: the current leg is the
      last one and carries the line of edge i-1. */
  ghost predicate GroupInv(legs: seq<Leg>, cur: Option<Leg>, lines: seq<Option<string>>, names: seq<string>, i: nat)
  {
    && i <= |lines| && |names| == |lines| + 1
    && (cur.None? <==> i == 0)
    && (cur.None? ==> legs == [])
    && (cur.Some? ==> cur.value.line == lines[i - 1])
    && LegsUpTo(WithCurrent(legs, cur), lines, names, i)
  }

  lemma GroupNew(legs: seq<Leg>, cur: Option<Leg>, lines: seq<Option<string>>, names: seq<string>, i: nat)
    requires GroupInv(legs, cur, lines, names, i) && i < |lines|
    requires cur.None? || cur.value.line != lines[i]
    ensures GroupInv(WithCurrent(legs, cur), Some(Leg(lines[i], names[i], names[i + 1], 1)), lines, names, i + 1)
  {
    NewLeg(WithCurrent(legs, cur), lines, names, i);
  }

  lemma GroupGrow(legs: seq<Leg>, c: Leg, lines: seq<Option<string>>, names: seq<string>, i: nat)
    requires GroupInv(legs, Some(c), lines, names, i) && i < |lines|
    requires c.line == lines[i]
    ensures GroupInv(legs, Some(Leg(c.line, c.fromStop, names[i + 1], c.stops + 1)), lines, names, i + 1)
  {
    GrowLeg(legs, c, lines, names, i);
  }

  /** The leg loop: a new leg starts whenever the edge's line differs from the
      current leg's (null and null count as equal), otherwise the current leg
      grows by one stop. */
  method GroupLegs(lines: seq<Option<string>>, names: seq<string>) returns (legs: seq<Leg>)
    requires |names| == |lines| + 1
    ensures LegsOf(legs, lines, names)
  {
    legs := [];
    var cur: Option<Leg> := None;
    var i := 0;
    while i < |lines|
      invariant 0 <= i <= |lines| && GroupInv(legs, cur, lines, names, i)
    {
      var first := lines[i];
      if cur.None? || cur.value.line != first {
        GroupNew(legs, cur, lines, names, i);
        legs := WithCurrent(legs, cur);
        cur := Some(Leg(first, names[i], names[i + 1], 1));
      } else {
        var c := cur.value;
        GroupGrow(legs, c, lines, names, i);
        cur := Some(Leg(c.line, c.fromStop, names[i + 1], c.stops + 1));
      }
      i := i + 1;
    }
    legs := WithCurrent(legs, cur);
  }

  function TotalStops(legs: seq<Leg>): nat
  {
    if |legs| == 0 then 0 else TotalStops(legs[..|legs| - 1]) + legs[|legs| - 1].stops
  }

  /** The line of every edge, leg by leg: a leg of `stops` edges stands for
      that many copies of its line. */
  function Expand(legs: seq<Leg>): (r: seq<Option<string>>)
    ensures |r| == TotalStops(legs)
  {
    if |legs| == 0 then [] else Expand(legs[..|legs| - 1]) + seq(legs[|legs| - 1].stops, _ => legs[|legs| - 1].line)
  }

  /** Spelled out leg by leg, the legs give back the line of every edge, and
      their stop counts add up to the number of edges covered. */
  lemma {:induction false} LegsSpellLines(legs: seq<Leg>, lines: seq<Option<string>>, names: seq<string>, i: nat)
    requires i <= |lines| && |names| == |lines| + 1 && LegsUpTo(legs, lines, names, i)
    ensures TotalStops(legs) == i && Expand(legs) == lines[..i]
    decreases |legs|
  {
    if |legs| > 0 {
      var l := legs[|legs| - 1];
      LegsSpellLines(legs[..|legs| - 1], lines, names, i - l.stops);
      assert lines[..i] == lines[..i - l.stops] + lines[i - l.stops..i];
      assert lines[i - l.stops..i] == seq(l.stops, _ => l.line);
    }
  }

  /** For the whole chain: the legs' lines, expanded, are the edges' lines. */
  lemma LegsCoverChain(legs: seq<Leg>, lines: seq<Option<string>>, names: seq<string>)
    requires |names| == |lines| + 1 && LegsOf(legs, lines, names)
    ensures TotalStops(legs) == |lines| && Expand(legs) == lines
  {
    LegsSpellLines(legs, lines, names, |lines|);
    assert lines[..|lines|] == lines;
  }

  /** Neighbouring legs never share a line: the grouping is maximal. */
  lemma {:induction false} LegsMaximal(legs: seq<Leg>, lines: seq<Option<string>>, names: seq<string>, i: nat)
    requires i <= |lines| && |names| == |lines| + 1 && LegsUpTo(legs, lines, names, i)
    ensures forall k :: 0 < k < |legs| ==> legs[k - 1].line != legs[k].line
    ensures forall k :: 0 <= k < |legs| ==> legs[k].stops >= 1
    decreases |legs|
  {
    if |legs| > 0 {
      var init := legs[..|legs| - 1];
      LegsMaximal(init, lines, names, i - legs[|legs| - 1].stops);
      forall k | 0 < k < |legs| - 1 ensures legs[k - 1].line != legs[k].line {
        assert legs[k - 1] == init[k - 1] && legs[k] == init[k];
      }
      forall k | 0 <= k < |legs| - 1 ensures legs[k].stops >= 1 {
        assert legs[k] == init[k];
      }
    }
  }

  // ---------------------------------------------------------------- the end stop and geometry

  /** The `endStops.reduce(...)`: the first entry for stop b with the smallest distance. */
  function ClosestEntry(es: seq<Near>, b: nat): (r: Option<Near>)
    ensures r.None? <==> forall k :: 0 <= k < |es| ==> es[k].i != b
    ensures r.Some? ==> r.value in es && r.value.i == b
                        && forall k :: 0 <= k < |es| && es[k].i == b ==> r.value.d <= es[k].d
  {
    if |es| == 0 then None
    else
      var a := ClosestEntry(es[..|es| - 1], b);
      var x := es[|es| - 1];
      assert forall k :: 0 <= k < |es| - 1 ==> es[k] == es[..|es| - 1][k];
      if x.i == b && (a.None? || x.d < a.value.d) then Some(x) else a
  }

  /** `... || endStops[0]`. */
  function EndChoice(es: seq<Near>, b: nat): Near
    requires |es| > 0
  {
    match ClosestEntry(es, b)
    case Some(x) => x
    case None => es[0]
  }

  /** The polyline: the origin, every stop of the chain, the destination. */
  method Geometry(from: Coord, to: Coord, stops: seq<Stop>, chain: seq<nat>) returns (g: seq<Coord>)
    requires |chain| > 0 && forall i :: 0 <= i < |chain| ==> chain[i] < |stops|
    ensures |g| == |chain| + 2 && g[0] == from && g[|g| - 1] == to
    ensures forall k :: 0 <= k < |chain| ==> g[k + 1] == stops[chain[k]].pos
  {
    g := [from];
    g := g + [stops[chain[0]].pos];
    var k := 1;
    while k < |chain|
      invariant 1 <= k <= |chain| && |g| == k + 1 && g[0] == from
      invariant forall j :: 0 <= j < k ==> g[j + 1] == stops[chain[j]].pos
    {
      g := g + [stops[chain[k]].pos];
      k := k + 1;
    }
    g := g + [to];
  }
}
