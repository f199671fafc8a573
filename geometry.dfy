/** Configuration constants, geographic sites, and the abstract projection and
    planar metric that every distance in the analysis is taken with. */
module Geometry {

  /** The coordinate reference systems the analysis moves between. */
  const GeographicCrs: string := "EPSG:4326"   // WGS 84, degrees
  const ProjectionCrs: string := "EPSG:32719"  // WGS 84 / UTM zone 19S, metres

  /** The Güemes industrial park, written as (latitude, longitude). */
  const GuemesCoords: (real, real) := (-24.6932, -65.0435)

  /** A site farther than this from the hub needs critical logistics. */
  const CriticalDistanceKm: real := 300.0

  /** Radius within which two sites are candidate collaborators. */
  const ProximityThresholdKm: real := 50.0

  /** A point in some coordinate system: x is the longitude or easting,
      y the latitude or northing. */
  datatype Point = Point(x: real, y: real)

  /** One lithium project as loaded from the data file. */
  datatype Site = Site(name: string, company: string, salar: string, latitude: real, longitude: real)

  /** The transform from geographic (EPSG:4326) to projected (EPSG:32719)
      coordinates; the real transverse Mercator maths is a library call. */
  type Projection = Point -> Point

  /** Planar distance in metres between two projected points. */
  type Metric = (Point, Point) -> real

  /** What the model assumes of the library's Euclidean distance. */
  ghost predicate IsMetric(dist: Metric)
  {
    (forall a: Point, b: Point :: dist(a, b) >= 0.0) &&
    (forall a: Point, b: Point :: dist(a, b) == dist(b, a)) &&
    (forall a: Point, b: Point :: dist(a, b) == 0.0 <==> a == b)
  }

  /** Sites become points as (Longitud, Latitud), i.e. x = longitude. */
  function SiteGeometry(s: Site): (p: Point)
  {
    Point(s.longitude, s.latitude)
  }

  /** The hub tuple is (lat, lon) and is swapped to (lon, lat). */
  function HubGeometry(coords: (real, real)): (p: Point)
  {
    Point(coords.1, coords.0)
  }

  function SiteGeometries(rows: seq<Site>): (pts: seq<Point>)
  {
    seq(|rows|, i requires 0 <= i < |rows| => SiteGeometry(rows[i]))
  }

  function ProjectAll(pts: seq<Point>, project: Projection): (r: seq<Point>)
  {
    seq(|pts|, i requires 0 <= i < |pts| => project(pts[i]))
  }

  /** Metres to kilometres. */
  function Km(metres: real): (km: real)
  {
    metres / 1000.0
  }

  /** Distance in kilometres from a site to the hub, both projected with the
      same transform. */
  function ReferenceKm(s: Site, hub: (real, real), project: Projection, dist: Metric): (km: real)
  {
    Km(dist(project(SiteGeometry(s)), project(HubGeometry(hub))))
  }

  /** The hub's (lat, lon) swap agrees with how sites are built: a site
      gets the hub's point exactly when it has the hub's coordinates. */
  lemma HubSwapMatchesSites(s: Site, hub: (real, real))
    ensures SiteGeometry(s) == HubGeometry(hub) <==> s.latitude == hub.0 && s.longitude == hub.1
  {
  }

  /** Reference distances are never negative, and are zero exactly for a
      site whose projected point is the projected hub. */
  lemma ReferenceKmZeroIffAtHub(s: Site, hub: (real, real), project: Projection, dist: Metric)
    requires IsMetric(dist)
    ensures ReferenceKm(s, hub, project, dist) >= 0.0
    ensures ReferenceKm(s, hub, project, dist) == 0.0 <==> project(SiteGeometry(s)) == project(HubGeometry(hub))
  {
  }

  /** A site placed at the hub's own coordinates is at distance zero. */
  lemma SiteAtHubIsAtZero(s: Site, hub: (real, real), project: Projection, dist: Metric)
    requires IsMetric(dist)
    requires s.latitude == hub.0 && s.longitude == hub.1
    ensures ReferenceKm(s, hub, project, dist) == 0.0
  {
    HubSwapMatchesSites(s, hub);
  }
}
