/** The geographic frame: one row per site, its geometry column, the CRS the
    geometry is in, and the distance-to-hub column once it has been added. */
module Frames {
  import opened Geometry

  datatype Option<T> = None | Some(value: T)

  class GeoFrame {
    var crs: string
    var records: seq<Site>
    var geometry: seq<Point>
    /** The "Distancia a Guemes (km)" column, absent until it is assigned. */
    var distanceKm: Option<seq<real>>

    ghost predicate Valid()
      reads this
    {
      |geometry| == |records| &&
      (crs == GeographicCrs || crs == ProjectionCrs) &&
      (distanceKm.Some? ==> |distanceKm.value| == |records|)
    }

    /** Builds the frame from loaded rows: every point is (longitude,
        latitude) in WGS 84. */
    constructor FromRecords(rows: seq<Site>)
      ensures Valid()
      ensures crs == GeographicCrs && records == rows && distanceKm == None
      ensures geometry == SiteGeometries(rows)
    {
      crs := GeographicCrs;
      records := rows;
      geometry := SiteGeometries(rows);
      distanceKm := None;
    }

    /** A new frame with the same rows and columns whose geometry is in
        EPSG:32719; a frame already in that system keeps its points. */
    method ToProjected(project: Projection) returns (f: GeoFrame)
      requires Valid()
      ensures fresh(f) && f.Valid()
      ensures f.crs == ProjectionCrs && f.records == records && f.distanceKm == distanceKm
      ensures f.geometry == if crs == ProjectionCrs then geometry else ProjectAll(geometry, project)
    {
      f := new GeoFrame.FromRecords(records);
      f.crs := ProjectionCrs;
      f.geometry := if crs == ProjectionCrs then geometry else ProjectAll(geometry, project);
      f.distanceKm := distanceKm;
    }

    /** Writes the distance column in place; nothing else changes. */
    method SetDistanceColumn(column: seq<real>)
      requires Valid() && |column| == |records|
      modifies this
      ensures Valid() && distanceKm == Some(column)
      ensures crs == old(crs) && records == old(records) && geometry == old(geometry)
    {
      distanceKm := Some(column);
    }
  }

  /** Projects the frame and the hub with the same transform and gives every
      row its planar distance to the hub in kilometres, in row order. The
      column is written into the projected frame, which is returned with it. */
  method CalculateDistances(gdf: GeoFrame, targetCoords: (real, real), project: Projection, dist: Metric)
    returns (column: seq<real>, projected: GeoFrame)
    requires gdf.Valid()
    ensures fresh(projected) && projected.Valid()
    ensures projected.crs == ProjectionCrs && projected.records == gdf.records
    ensures projected.geometry == if gdf.crs == ProjectionCrs then gdf.geometry else ProjectAll(gdf.geometry, project)
    ensures projected.distanceKm == Some(column)
    ensures |column| == |gdf.records|
    ensures forall i :: 0 <= i < |column| ==>
              column[i] == Km(dist(projected.geometry[i], project(HubGeometry(targetCoords))))
  {
    projected := gdf.ToProjected(project);
    var target := project(HubGeometry(targetCoords));
    var g := projected.geometry;
    column := seq(|g|, i requires 0 <= i < |g| => Km(dist(g[i], target)));
    projected.SetDistanceColumn(column);
  }

  /** For a frame built from the rows, each computed distance is that row's
      distance to the hub, and none is negative. */
  lemma {:induction false} ColumnIsReferenceKm(rows: seq<Site>, hub: (real, real), project: Projection, dist: Metric, column: seq<real>)
    requires IsMetric(dist)
    requires |column| == |rows|
    requires forall i :: 0 <= i < |column| ==>
               column[i] == Km(dist(ProjectAll(SiteGeometries(rows), project)[i], project(HubGeometry(hub))))
    ensures forall i :: 0 <= i < |rows| ==> column[i] == ReferenceKm(rows[i], hub, project, dist) && column[i] >= 0.0
  {
    forall i | 0 <= i < |rows|
      ensures column[i] == ReferenceKm(rows[i], hub, project, dist) && column[i] >= 0.0
    {
      ReferenceKmZeroIffAtHub(rows[i], hub, project, dist);
    }
  }
}
