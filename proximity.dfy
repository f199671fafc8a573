/** Brute-force all-pairs neighbour discovery over the projected frame, and
    the per-site report it produces. */
module Proximity {
  import opened Geometry
  import opened Frames

  /** One reported neighbour: its row, its name and its distance in km. */
  datatype Neighbour = Neighbour(index: nat, name: string, km: real)

  /** The report for one site that has at least one neighbour. */
  datatype Entry = Entry(index: nat, name: string, neighbours: seq<Neighbour>)

  /** The row filter for site i: row j is within the radius (distance taken
      from j's geometry to i's) and is not row i itself. */
  predicate Qualifies(pts: seq<Point>, i: nat, j: nat, thresholdKm: real, dist: Metric)
    requires i < |pts| && j < |pts|
  {
    Km(dist(pts[j], pts[i])) <= thresholdKm && j != i
  }

  /** The qualifying rows among the first m, in row order. */
  function NearbyUpTo(pts: seq<Point>, i: nat, thresholdKm: real, dist: Metric, m: nat): (r: seq<nat>)
    requires i < |pts| && m <= |pts|
    ensures forall k :: 0 <= k < |r| ==> r[k] < m
  {
    if m == 0 then []
    else
      NearbyUpTo(pts, i, thresholdKm, dist, m - 1)
        + (if Qualifies(pts, i, m - 1, thresholdKm, dist) then [m - 1] else [])
  }

  /** The neighbours of site i, in row order. */
  function Nearby(pts: seq<Point>, i: nat, thresholdKm: real, dist: Metric): (r: seq<nat>)
    requires i < |pts|
    ensures forall k :: 0 <= k < |r| ==> r[k] < |pts|
  {
    NearbyUpTo(pts, i, thresholdKm, dist, |pts|)
  }

  /** The listing of a neighbour set: each row with the distance from site i
      to it (taken in that direction). */
  function Neighbours(records: seq<Site>, pts: seq<Point>, i: nat, nearby: seq<nat>, dist: Metric): (listed: seq<Neighbour>)
    requires |records| == |pts| && i < |pts|
    requires forall k :: 0 <= k < |nearby| ==> nearby[k] < |pts|
  {
    if nearby == [] then []
    else
      var j := nearby[|nearby| - 1];
      Neighbours(records, pts, i, nearby[..|nearby| - 1], dist)
        + [Neighbour(j, records[j].name, Km(dist(pts[i], pts[j])))]
  }

  function EntryFor(records: seq<Site>, pts: seq<Point>, i: nat, thresholdKm: real, dist: Metric): (e: Entry)
    requires |records| == |pts| && i < |pts|
  {
    Entry(i, records[i].name, Neighbours(records, pts, i, Nearby(pts, i, thresholdKm, dist), dist))
  }

  /** The report over the first m sites: an entry for each site that has a
      neighbour, in row order. */
  function ReportUpTo(records: seq<Site>, pts: seq<Point>, thresholdKm: real, dist: Metric, m: nat): (report: seq<Entry>)
    requires |records| == |pts| && m <= |pts|
  {
    if m == 0 then []
    else
      ReportUpTo(records, pts, thresholdKm, dist, m - 1)
        + (if Nearby(pts, m - 1, thresholdKm, dist) != [] then [EntryFor(records, pts, m - 1, thresholdKm, dist)] else [])
  }

  function Report(records: seq<Site>, pts: seq<Point>, thresholdKm: real, dist: Metric): (report: seq<Entry>)
    requires |records| == |pts|
  {
    ReportUpTo(records, pts, thresholdKm, dist, |pts|)
  }

  /** The all-pairs pass over the projected frame: for each row, the rows
      that pass the filter, then, when there are any, their listing. */
  method AnalyzeProximity(frame: GeoFrame, thresholdKm: real, dist: Metric) returns (report: seq<Entry>)
    requires frame.Valid()
    ensures report == Report(frame.records, frame.geometry, thresholdKm, dist)
  {
    var rows, pts := frame.records, frame.geometry;
    report := [];
    var i := 0;
    while i < |pts|
      invariant 0 <= i <= |pts|
      invariant report == ReportUpTo(rows, pts, thresholdKm, dist, i)
    {
      var nearby := NearbyRows(pts, i, thresholdKm, dist);
      if nearby != [] {
        var listed := ListNeighbours(rows, pts, i, nearby, dist);
        report := report + [Entry(i, rows[i].name, listed)];
      }
      i := i + 1;
    }
  }

  /** The vectorised filter for row i: one distance per row, kept when
      within the radius and not row i. */
  method NearbyRows(pts: seq<Point>, i: nat, thresholdKm: real, dist: Metric) returns (nearby: seq<nat>)
    requires i < |pts|
    ensures nearby == Nearby(pts, i, thresholdKm, dist)
  {
    nearby := [];
    var j := 0;
    while j < |pts|
      invariant 0 <= j <= |pts|
      invariant nearby == NearbyUpTo(pts, i, thresholdKm, dist, j)
    {
      if Km(dist(pts[j], pts[i])) <= thresholdKm && j != i {
        nearby := nearby + [j];
      }
      j := j + 1;
    }
  }

  /** The inner printing loop: each neighbour with its distance from row i. */
  method ListNeighbours(rows: seq<Site>, pts: seq<Point>, i: nat, nearby: seq<nat>, dist: Metric)
    returns (listed: seq<Neighbour>)
    requires |rows| == |pts| && i < |pts|
    requires forall k :: 0 <= k < |nearby| ==> nearby[k] < |pts|
    ensures listed == Neighbours(rows, pts, i, nearby, dist)
  {
    listed := [];
    var k := 0;
    while k < |nearby|
      invariant 0 <= k <= |nearby|
      invariant listed == Neighbours(rows, pts, i, nearby[..k], dist)
    {
      var near := nearby[k];
      assert nearby[..k + 1][..k] == nearby[..k];
      listed := listed + [Neighbour(near, rows[near].name, Km(dist(pts[i], pts[near])))];
      k := k + 1;
    }
    assert nearby[..|nearby|] == nearby;
  }

  // ---------------------------------------------------------------------
  // Neighbour sets

  lemma {:induction false} NearbyUpToMembership(pts: seq<Point>, i: nat, thresholdKm: real, dist: Metric, m: nat, j: int)
    requires i < |pts| && m <= |pts|
    ensures j in NearbyUpTo(pts, i, thresholdKm, dist, m)
            <==> 0 <= j < m && j != i && Km(dist(pts[j], pts[i])) <= thresholdKm
  {
    if m > 0 {
      NearbyUpToMembership(pts, i, thresholdKm, dist, m - 1, j);
    }
  }

  /** Row j is a neighbour of site i iff it is another row within the
      radius; the boundary is inclusive. */
  lemma NearbyMembership(pts: seq<Point>, i: nat, thresholdKm: real, dist: Metric, j: int)
    requires i < |pts|
    ensures j in Nearby(pts, i, thresholdKm, dist)
            <==> 0 <= j < |pts| && j != i && Km(dist(pts[j], pts[i])) <= thresholdKm
  {
    NearbyUpToMembership(pts, i, thresholdKm, dist, |pts|, j);
  }

  /** A site is never its own neighbour, whatever the radius. */
  lemma NeverOwnNeighbour(pts: seq<Point>, i: nat, thresholdKm: real, dist: Metric)
    requires i < |pts|
    ensures i !in Nearby(pts, i, thresholdKm, dist)
  {
    NearbyMembership(pts, i, thresholdKm, dist, i);
  }

  lemma {:induction false} NearbyUpToIncreasing(pts: seq<Point>, i: nat, thresholdKm: real, dist: Metric, m: nat)
    requires i < |pts| && m <= |pts|
    ensures forall a, b :: 0 <= a < b < |NearbyUpTo(pts, i, thresholdKm, dist, m)| ==>
              NearbyUpTo(pts, i, thresholdKm, dist, m)[a] < NearbyUpTo(pts, i, thresholdKm, dist, m)[b]
  {
    if m > 0 {
      NearbyUpToIncreasing(pts, i, thresholdKm, dist, m - 1);
    }
  }

  /** Neighbours are listed in input order, each row once. */
  lemma NearbyInInputOrder(pts: seq<Point>, i: nat, thresholdKm: real, dist: Metric)
    requires i < |pts|
    ensures forall a, b :: 0 <= a < b < |Nearby(pts, i, thresholdKm, dist)| ==>
              Nearby(pts, i, thresholdKm, dist)[a] < Nearby(pts, i, thresholdKm, dist)[b]
  {
    NearbyUpToIncreasing(pts, i, thresholdKm, dist, |pts|);
  }

  /** The neighbour relation is symmetric, because every pair is measured
      with the same symmetric distance over the same projected points. */
  lemma NearbySymmetric(pts: seq<Point>, i: nat, j: nat, thresholdKm: real, dist: Metric)
    requires IsMetric(dist)
    requires i < |pts| && j < |pts|
    ensures j in Nearby(pts, i, thresholdKm, dist) <==> i in Nearby(pts, j, thresholdKm, dist)
  {
    NearbyMembership(pts, i, thresholdKm, dist, j);
    NearbyMembership(pts, j, thresholdKm, dist, i);
    assert dist(pts[j], pts[i]) == dist(pts[i], pts[j]);
  }

  /** With a negative radius no site has a neighbour. */
  lemma NegativeRadiusIsolates(pts: seq<Point>, i: nat, thresholdKm: real, dist: Metric)
    requires IsMetric(dist)
    requires i < |pts| && thresholdKm < 0.0
    ensures Nearby(pts, i, thresholdKm, dist) == []
  {
    var r := Nearby(pts, i, thresholdKm, dist);
    if r != [] {
      NearbyMembership(pts, i, thresholdKm, dist, r[0]);
      assert false;
    }
  }

  /** With radius zero the neighbours are exactly the other rows at the
      very same projected point. */
  lemma ZeroRadiusOnlyCoincident(pts: seq<Point>, i: nat, dist: Metric, j: int)
    requires IsMetric(dist)
    requires i < |pts|
    ensures j in Nearby(pts, i, 0.0, dist) <==> 0 <= j < |pts| && j != i && pts[j] == pts[i]
  {
    NearbyMembership(pts, i, 0.0, dist, j);
    if 0 <= j < |pts| {
      assert dist(pts[j], pts[i]) >= 0.0;
      assert dist(pts[j], pts[i]) == 0.0 <==> pts[j] == pts[i];
    }
  }

  /** Widening the radius never loses a neighbour. */
  lemma WiderRadiusKeepsNeighbours(pts: seq<Point>, i: nat, r1: real, r2: real, dist: Metric, j: int)
    requires i < |pts| && r1 <= r2
    ensures j in Nearby(pts, i, r1, dist) ==> j in Nearby(pts, i, r2, dist)
  {
    NearbyMembership(pts, i, r1, dist, j);
    NearbyMembership(pts, i, r2, dist, j);
  }

  // ---------------------------------------------------------------------
  // The report

  lemma {:induction false} NeighboursAt(records: seq<Site>, pts: seq<Point>, i: nat, nearby: seq<nat>, dist: Metric)
    requires |records| == |pts| && i < |pts|
    requires forall k :: 0 <= k < |nearby| ==> nearby[k] < |pts|
    ensures |Neighbours(records, pts, i, nearby, dist)| == |nearby|
    ensures forall k :: 0 <= k < |nearby| ==>
              Neighbours(records, pts, i, nearby, dist)[k]
                == Neighbour(nearby[k], records[nearby[k]].name, Km(dist(pts[i], pts[nearby[k]])))
  {
    if nearby != [] {
      NeighboursAt(records, pts, i, nearby[..|nearby| - 1], dist);
    }
  }

  /** e is the listing of a site among the first m that has a neighbour. */
  predicate ListsSiteBelow(records: seq<Site>, pts: seq<Point>, thresholdKm: real, dist: Metric, m: nat, e: Entry)
    requires |records| == |pts|
  {
    e.index < m && e.index < |pts| && Nearby(pts, e.index, thresholdKm, dist) != []
    && e == EntryFor(records, pts, e.index, thresholdKm, dist)
  }

  lemma {:induction false} ReportUpToEntries(records: seq<Site>, pts: seq<Point>, thresholdKm: real, dist: Metric, m: nat)
    requires |records| == |pts| && m <= |pts|
    ensures forall k :: 0 <= k < |ReportUpTo(records, pts, thresholdKm, dist, m)| ==>
              ListsSiteBelow(records, pts, thresholdKm, dist, m, ReportUpTo(records, pts, thresholdKm, dist, m)[k])
  {
    if m > 0 {
      ReportUpToEntries(records, pts, thresholdKm, dist, m - 1);
      var prev := ReportUpTo(records, pts, thresholdKm, dist, m - 1);
      var r := ReportUpTo(records, pts, thresholdKm, dist, m);
      forall k | 0 <= k < |r|
        ensures ListsSiteBelow(records, pts, thresholdKm, dist, m, r[k])
      {
        if k < |prev| {
          assert r[k] == prev[k];
          assert ListsSiteBelow(records, pts, thresholdKm, dist, m - 1, prev[k]);
        } else {
          assert r[k] == EntryFor(records, pts, m - 1, thresholdKm, dist);
        }
      }
    }
  }

  lemma {:induction false} ReportUpToComplete(records: seq<Site>, pts: seq<Point>, thresholdKm: real, dist: Metric, m: nat)
    requires |records| == |pts| && m <= |pts|
    ensures forall k :: 0 <= k < m && Nearby(pts, k, thresholdKm, dist) != [] ==>
              EntryFor(records, pts, k, thresholdKm, dist) in ReportUpTo(records, pts, thresholdKm, dist, m)
  {
    if m > 0 {
      ReportUpToComplete(records, pts, thresholdKm, dist, m - 1);
      var prev := ReportUpTo(records, pts, thresholdKm, dist, m - 1);
      assert forall e :: e in prev ==> e in ReportUpTo(records, pts, thresholdKm, dist, m);
    }
  }

  lemma {:induction false} ReportUpToIncreasing(records: seq<Site>, pts: seq<Point>, thresholdKm: real, dist: Metric, m: nat)
    requires |records| == |pts| && m <= |pts|
    ensures forall a, b :: 0 <= a < b < |ReportUpTo(records, pts, thresholdKm, dist, m)| ==>
              ReportUpTo(records, pts, thresholdKm, dist, m)[a].index < ReportUpTo(records, pts, thresholdKm, dist, m)[b].index
  {
    if m > 0 {
      ReportUpToIncreasing(records, pts, thresholdKm, dist, m - 1);
      ReportUpToEntries(records, pts, thresholdKm, dist, m - 1);
    }
  }

  /** The report holds exactly one entry per site that has a neighbour, in
      row order; a site without neighbours gets no entry; each entry lists
      that site's neighbour set. */
  lemma ReportListsSitesWithNeighbours(records: seq<Site>, pts: seq<Point>, thresholdKm: real, dist: Metric)
    requires |records| == |pts|
    ensures forall e :: e in Report(records, pts, thresholdKm, dist) ==>
              e.index < |pts| && e.name == records[e.index].name && e.neighbours != []
              && e == EntryFor(records, pts, e.index, thresholdKm, dist)
    ensures forall i :: 0 <= i < |pts| ==>
              (EntryFor(records, pts, i, thresholdKm, dist) in Report(records, pts, thresholdKm, dist)
               <==> Nearby(pts, i, thresholdKm, dist) != [])
    ensures forall a, b :: 0 <= a < b < |Report(records, pts, thresholdKm, dist)| ==>
              Report(records, pts, thresholdKm, dist)[a].index < Report(records, pts, thresholdKm, dist)[b].index
  {
    var r := Report(records, pts, thresholdKm, dist);
    ReportUpToEntries(records, pts, thresholdKm, dist, |pts|);
    forall e | e in r
      ensures ListsSiteBelow(records, pts, thresholdKm, dist, |pts|, e)
    {
      var k :| 0 <= k < |r| && r[k] == e;
    }
    ReportUpToComplete(records, pts, thresholdKm, dist, |pts|);
    ReportUpToIncreasing(records, pts, thresholdKm, dist, |pts|);
    forall e | e in r
      ensures e.neighbours != []
    {
      NeighboursAt(records, pts, e.index, Nearby(pts, e.index, thresholdKm, dist), dist);
    }
  }

  /** Every distance printed for a neighbour is within the radius, is the
      distance between the two sites' projected points, and never names the
      site itself. The filter measures from the neighbour to the site and
      the printout from the site to the neighbour; symmetry makes them
      agree. */
  lemma ReportedDistancesWithinRadius(records: seq<Site>, pts: seq<Point>, thresholdKm: real, dist: Metric)
    requires IsMetric(dist)
    requires |records| == |pts|
    ensures forall e, nb :: e in Report(records, pts, thresholdKm, dist) && nb in e.neighbours ==>
              e.index < |pts| && nb.index < |pts| && nb.index != e.index
              && nb.name == records[nb.index].name
              && nb.km == Km(dist(pts[e.index], pts[nb.index]))
              && nb.km <= thresholdKm
  {
    var r := Report(records, pts, thresholdKm, dist);
    ReportListsSitesWithNeighbours(records, pts, thresholdKm, dist);
    forall e, nb | e in r && nb in e.neighbours
      ensures e.index < |pts| && nb.index < |pts| && nb.index != e.index
              && nb.name == records[nb.index].name
              && nb.km == Km(dist(pts[e.index], pts[nb.index]))
              && nb.km <= thresholdKm
    {
      var i := e.index;
      var nearby := Nearby(pts, i, thresholdKm, dist);
      NeighboursAt(records, pts, i, nearby, dist);
      var k :| 0 <= k < |e.neighbours| && e.neighbours[k] == nb;
      NearbyMembership(pts, i, thresholdKm, dist, nearby[k]);
      assert dist(pts[nearby[k]], pts[i]) == dist(pts[i], pts[nearby[k]]);
    }
  }

  /** No sites, no report. */
  lemma EmptyFrameEmptyReport(records: seq<Site>, pts: seq<Point>, thresholdKm: real, dist: Metric)
    requires |records| == |pts| && pts == []
    ensures Report(records, pts, thresholdKm, dist) == []
  {
  }
}
