/** The analysis run without its I/O: build the frame, add the reference
    distances, find the neighbours within the proximity radius, and style
    every site for the map. */
module Pipeline {
  import opened Geometry
  import opened Frames
  import opened Proximity
  import opened Classification

  /** Reference distances, the neighbour report and the marker styles all
      come from one projection of the loaded rows, with the configured hub
      and radii. */
  method RunPipeline(rows: seq<Site>, project: Projection, dist: Metric)
    returns (distances: seq<real>, report: seq<Entry>, styles: seq<MarkerStyle>)
    requires IsMetric(dist)
    ensures |distances| == |rows| && |styles| == |rows|
    ensures forall i :: 0 <= i < |rows| ==>
              distances[i] == ReferenceKm(rows[i], GuemesCoords, project, dist) && distances[i] >= 0.0
    ensures report == Report(rows, ProjectAll(SiteGeometries(rows), project), ProximityThresholdKm, dist)
    ensures forall i :: 0 <= i < |rows| ==> styles[i] == Style(Classify(distances[i]))
  {
    var gdf := new GeoFrame.FromRecords(rows);
    var series, gdfMetros := CalculateDistances(gdf, GuemesCoords, project, dist);
    ColumnIsReferenceKm(rows, GuemesCoords, project, dist, series);
    gdf.SetDistanceColumn(series);
    report := AnalyzeProximity(gdfMetros, ProximityThresholdKm, dist);
    styles := MarkerStyles(gdf);
    distances := series;
  }
}
