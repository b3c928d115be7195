/** What build_gtfs_graph_zip.py and build_gtfs_graph_zip_lines.py share:
    the rows of stops.txt and stop_times.txt, the stop indexing loop, and the
    per-trip `last_by_trip` state both edge loops keep.

    Reading the ZIP and the CSV files becomes the row sequences given here;
    a missing or empty CSV field is "", a field `float()` or `int()` cannot
    parse is None. */
module GraphRows {
  import opened Common
  import opened TransitSearch

  /** A stops.txt row: `stop_id`, `stop_lat`, `stop_lon` (None when float() fails), `stop_name`. */
  datatype StopRow = StopRow(stopId: string, lat: Option<real>, lon: Option<real>, name: string)

  /** A stop_times.txt row: `trip_id`, `stop_id`, and `stop_sequence` (None when empty or int() fails). */
  datatype TimeRow = TimeRow(tripId: string, stopId: string, sequence: Option<int>)

  // ---------------------------------------------------------------- str.strip()

  /** The characters str.strip() removes: those for which Python's
      `str.isspace()` holds. */
  predicate IsSpace(c: char)
  {
    || ('\U{0009}' <= c <= '\U{000D}') || ('\U{001C}' <= c <= '\U{0020}')
    || c == '\U{0085}' || c == '\U{00A0}' || c == '\U{1680}'
    || ('\U{2000}' <= c <= '\U{200A}') || c == '\U{2028}' || c == '\U{2029}'
    || c == '\U{202F}' || c == '\U{205F}' || c == '\U{3000}'
  }

  /** The number of leading whitespace characters. */
  function Leading(s: string): (n: nat)
    ensures n <= |s| && (forall k :: 0 <= k < n ==> IsSpace(s[k])) && (n < |s| ==> !IsSpace(s[n]))
  {
    if |s| == 0 || !IsSpace(s[0]) then 0
    else
      var n := Leading(s[1..]);
      assert forall k :: 1 <= k < n + 1 ==> s[k] == s[1..][k - 1];
      n + 1
  }

  /** The number of trailing whitespace characters. */
  function Trailing(s: string): (n: nat)
    ensures n <= |s| && (forall k :: |s| - n <= k < |s| ==> IsSpace(s[k])) && (n < |s| ==> !IsSpace(s[|s| - 1 - n]))
  {
    if |s| == 0 || !IsSpace(s[|s| - 1]) then 0
    else
      var n := Trailing(s[..|s| - 1]);
      assert forall k :: 0 <= k < |s| - 1 ==> s[k] == s[..|s| - 1][k];
      n + 1
  }

  /** `s.strip()`: s without its leading and trailing whitespace. The result
      is the slice of s starting at its first non-whitespace character,
      everything after it is whitespace, and it neither starts nor ends with
      whitespace; it is empty exactly when s is all whitespace. */
  function Strip(s: string): (r: string)
    ensures |r| > 0 ==> !IsSpace(r[0]) && !IsSpace(r[|r| - 1])
    ensures Leading(s) + |r| <= |s| && r == s[Leading(s)..Leading(s) + |r|]
    ensures forall k :: Leading(s) + |r| <= k < |s| ==> IsSpace(s[k])
    ensures r == "" <==> forall k :: 0 <= k < |s| ==> IsSpace(s[k])
  {
    var a := Leading(s);
    var t := s[a..];
    var b := Trailing(t);
    var r := t[..|t| - b];
    assert forall k :: a + |r| <= k < |s| ==> s[k] == t[k - a];
    assert r != "" ==> r[0] == t[0] && r[|r| - 1] == t[|t| - 1 - b];
    r
  }

  // ---------------------------------------------------------------- str.lower(), str.endswith()

  function LowerChar(c: char): char
  {
    if 'A' <= c <= 'Z' then (c as int + 32) as char else c
  }

  /** `s.lower()` on ASCII letters. */
  function Lower(s: string): (r: string)
    ensures |r| == |s| && forall k :: 0 <= k < |s| ==> r[k] == LowerChar(s[k])
  {
    seq(|s|, k requires 0 <= k < |s| => LowerChar(s[k]))
  }

  /** `s.endswith(suffix)`. */
  predicate EndsWith(s: string, suffix: string)
  {
    |suffix| <= |s| && s[|s| - |suffix|..] == suffix
  }

  // ---------------------------------------------------------------- stops

  /** A stops.txt row with an id and both coordinates parsed. */
  predicate GoodStop(r: StopRow)
  {
    r.stopId != "" && r.lat.Some? && r.lon.Some?
  }

  /** The stop a good row becomes: `{"id", "name": stop_name.strip(), "lat", "lon"}`. */
  function StopOf(r: StopRow): Stop
    requires GoodStop(r)
  {
    Stop(r.stopId, Strip(r.name), Coord(r.lat.value, r.lon.value))
  }

  /** The `stops` list: the good rows, in file order. */
  function KeptStops(rows: seq<StopRow>): seq<Stop>
  {
    if |rows| == 0 then []
    else
      var r := rows[|rows| - 1];
      KeptStops(rows[..|rows| - 1]) + (if GoodStop(r) then [StopOf(r)] else [])
  }

  /** The stops list holds exactly the good rows, each under its own id, and no more entries than rows. */
  lemma {:induction false} KeptStopsExactly(rows: seq<StopRow>)
    ensures |KeptStops(rows)| <= |rows|
    ensures forall x :: x in KeptStops(rows) <==> exists k :: 0 <= k < |rows| && GoodStop(rows[k]) && StopOf(rows[k]) == x
    ensures forall j :: 0 <= j < |KeptStops(rows)| ==> KeptStops(rows)[j].id != ""
  {
    if |rows| > 0 {
      var init := rows[..|rows| - 1];
      KeptStopsExactly(init);
      forall x ensures x in KeptStops(rows) <==> exists k :: 0 <= k < |rows| && GoodStop(rows[k]) && StopOf(rows[k]) == x {
        if exists k :: 0 <= k < |rows| && GoodStop(rows[k]) && StopOf(rows[k]) == x {
          var k :| 0 <= k < |rows| && GoodStop(rows[k]) && StopOf(rows[k]) == x;
          if k < |rows| - 1 {
            assert init[k] == rows[k];
          }
        }
        if x in KeptStops(init) {
          var k :| 0 <= k < |init| && GoodStop(init[k]) && StopOf(init[k]) == x;
          assert rows[k] == init[k];
        }
      }
    }
  }

  /** `stop_index` points into `stops`. */
  predicate IndexOk(stops: seq<Stop>, index: map<string, nat>)
  {
    forall sid :: sid in index ==> index[sid] < |stops|
  }

  /** `stop_index` holds exactly the ids of `stops`, each pointing to the
      last entry with that id. */
  ghost predicate Indexed(stops: seq<Stop>, index: map<string, nat>)
  {
    && (forall sid :: sid in index <==> exists j :: 0 <= j < |stops| && stops[j].id == sid)
    && (forall sid :: sid in index ==> index[sid] < |stops| && stops[index[sid]].id == sid
                                       && forall j :: index[sid] < j < |stops| ==> stops[j].id != sid)
  }

  lemma IndexedAppend(stops: seq<Stop>, index: map<string, nat>, s: Stop)
    requires Indexed(stops, index)
    ensures Indexed(stops + [s], index[s.id := |stops|])
  {
    var stops', index' := stops + [s], index[s.id := |stops|];
    forall sid ensures sid in index' <==> exists j :: 0 <= j < |stops'| && stops'[j].id == sid {
      if sid == s.id {
        assert stops'[|stops|].id == sid;
      } else if sid in index' {
        var j := index[sid];
        assert stops'[j].id == sid;
      }
    }
  }

  /** The stops loop: every good row appended to `stops`, and
      `stop_index[sid]` set to its position, so a repeated id points to its
      last entry. */
  method IndexStops(rows: seq<StopRow>) returns (stops: seq<Stop>, index: map<string, nat>)
    ensures stops == KeptStops(rows)
    ensures forall sid :: sid in index <==> exists j :: 0 <= j < |stops| && stops[j].id == sid
    ensures forall sid :: sid in index ==> index[sid] < |stops| && stops[index[sid]].id == sid
                                           && forall j :: index[sid] < j < |stops| ==> stops[j].id != sid
  {
    stops := [];
    index := map[];
    var k := 0;
    while k < |rows|
      invariant 0 <= k <= |rows| && stops == KeptStops(rows[..k]) && Indexed(stops, index)
    {
      var r := rows[k];
      assert rows[..k + 1] == rows[..k] + [r];
      if r.stopId != "" && r.lat.Some? && r.lon.Some? {
        IndexedAppend(stops, index, StopOf(r));
        index := index[r.stopId := |stops|];
        stops := stops + [StopOf(r)];
      }
      k := k + 1;
    }
    assert rows[..k] == rows;
  }

  // ---------------------------------------------------------------- last_by_trip

  /** A stop_times row the edge loop uses: trip, stop and sequence present, the stop indexed. */
  predicate ValidTime(r: TimeRow, index: map<string, nat>)
  {
    r.tripId != "" && r.stopId != "" && r.sequence.Some? && r.stopId in index
  }

  /** The last valid row of trip t before row j. */
  function LastOfTrip(rows: seq<TimeRow>, index: map<string, nat>, j: nat, t: string): (r: Option<nat>)
    requires j <= |rows|
    ensures r.Some? ==> r.value < j && ValidTime(rows[r.value], index) && rows[r.value].tripId == t
                        && forall k :: r.value < k < j ==> !(ValidTime(rows[k], index) && rows[k].tripId == t)
    ensures r.None? ==> forall k :: 0 <= k < j ==> !(ValidTime(rows[k], index) && rows[k].tripId == t)
  {
    if j == 0 then None
    else if ValidTime(rows[j - 1], index) && rows[j - 1].tripId == t then Some(j - 1)
    else LastOfTrip(rows, index, j - 1, t)
  }

  /** After the first j rows, `last_by_trip[t]` is `(seq, stop)` of trip t's
      last valid row, and t has an entry only when it has such a row. */
  ghost predicate TripState(rows: seq<TimeRow>, index: map<string, nat>, j: nat, last: map<string, (int, string)>)
    requires j <= |rows|
  {
    && (forall t :: t in last <==> LastOfTrip(rows, index, j, t).Some?)
    && (forall t :: t in last ==> var i := LastOfTrip(rows, index, j, t).value; last[t] == (rows[i].sequence.value, rows[i].stopId))
  }

  /** Both edge loops end every valid row with `last_by_trip[tid] = (seqn, sid)` and leave other rows alone. */
  lemma TripStep(rows: seq<TimeRow>, index: map<string, nat>, j: nat, last: map<string, (int, string)>)
    requires j < |rows| && TripState(rows, index, j, last)
    ensures ValidTime(rows[j], index) ==> TripState(rows, index, j + 1, last[rows[j].tripId := (rows[j].sequence.value, rows[j].stopId)])
    ensures !ValidTime(rows[j], index) ==> TripState(rows, index, j + 1, last)
  {
  }

  lemma TripStart(rows: seq<TimeRow>, index: map<string, nat>)
    ensures TripState(rows, index, 0, map[])
  {
  }
}
