# Salta lithium logistics: proximity and classification model

A Dafny model of the analysis core of the Salta lithium logistics script
(`scripts/main.py`). The script loads lithium projects (name, company,
salar, latitude, longitude) and does four things with them:

- It projects every project, and the Güemes industrial park that serves as
  the logistics hub, from WGS 84 (EPSG:4326) to UTM zone 19S (EPSG:32719).
- It gives each project its planar distance to the hub in kilometres.
- It finds, for each project, the other projects within a 50 km
  collaboration radius.
- It labels each project as critical logistics (strictly more than 300 km
  from the hub) or standard.

Modules, one per concern of the script:

- `Geometry` (`geometry.dfy`): the configuration constants
  (`GeographicCrs`, `ProjectionCrs`, `GuemesCoords`, `CriticalDistanceKm`,
  and `ProximityThresholdKm`). It also
  holds sites and points, the (longitude, latitude) point convention and the
  hub's (lat, lon) to (lon, lat) swap, and the metre-to-kilometre
  conversion. The projection and the distance are parameters here:
  `Projection` is any function, and `Metric` is any distance that satisfies
  `IsMetric` (non-negative, symmetric, zero exactly on equal points).
- `Frames` (`frames.dfy`): the geographic frame as a class. Its fields are
  the rows, the geometry column, the CRS and the distance column, which is
  written in place. Building the frame, re-projecting it, and
  `CalculateDistances` live here.
- `Proximity` (`proximity.dfy`): the all-pairs neighbour pass as a method
  with nested loops. Beside it are the functions that specify it (`Nearby`,
  `Report`) and the lemmas about them.
- `Classification` (`classification.dfy`): the `> 300` rule, the marker
  colour and status text, and the per-row pass of the map builder that
  picks them.
- `Pipeline` (`pipeline.dfy`): the steps of `main` with the I/O removed.

Behaviour of the code that the model keeps as it is:

- With radius 0, two distinct rows at the same projected point are
  neighbours, because the filter is `distance/1000 <= radius`
  (`ZeroRadiusOnlyCoincident`). Only a negative radius isolates every site
  (`NegativeRadiusIsolates`).
- Coordinates are not validated, so the model accepts any coordinates.
- The critical threshold is the constant 300, the value the status labels
  name, so `Classify` compares against that constant.

## Model

| member | source | states |
|---|---|---|
| `Geometry.HubSwapMatchesSites` | scripts/main.py:25-34 | the hub tuple, read as (lat, lon) and swapped, yields the same point as a site with those coordinates built as (Longitud, Latitud), and only such a site |
| `Geometry.ReferenceKmZeroIffAtHub` | scripts/main.py:31-39 | a site's km distance to the hub is never negative, and is zero exactly when the site and the hub project to the same point |
| `Geometry.SiteAtHubIsAtZero` | scripts/main.py:25-39 | a site placed at the hub's own coordinates is 0 km from it, because both are projected with the same transform after the swap |
| `Frames.GeoFrame.FromRecords` | scripts/main.py:22-26 | the new frame is in EPSG:4326, keeps the rows in order, has no distance column, and has one (longitude, latitude) point per row |
| `Frames.GeoFrame.ToProjected` | scripts/main.py:31 | a fresh frame in EPSG:32719 with the same rows and columns, each point transformed (or left as it is when the frame is already in EPSG:32719) |
| `Frames.GeoFrame.SetDistanceColumn` | scripts/main.py:125 | the distance column is set in place to the given values; CRS, rows and geometry are unchanged |
| `Frames.CalculateDistances` | scripts/main.py:28-42 | one km value per row, in row order: the distance from the row's projected point to the hub projected with the same transform, divided by 1000; the column is also written into the returned projected frame |
| `Frames.ColumnIsReferenceKm` | scripts/main.py:31-42 | for a frame built from the rows, each column value is that site's reference distance and is non-negative |
| `Proximity.AnalyzeProximity` | scripts/main.py:44-55 | the nested-loop pass returns exactly the report that `Report` specifies for the frame's rows, geometry and radius |
| `Proximity.NearbyRows` | scripts/main.py:48-49 | the filter loop for row i returns exactly `Nearby`: the other rows within the radius, in row order |
| `Proximity.ListNeighbours` | scripts/main.py:53-55 | the listing loop returns exactly `Neighbours`: each neighbour with its name and its distance from row i in km, in the order given |
| `Proximity.NearbyUpToMembership` | scripts/main.py:48-49 | among the first m rows, j passes the filter iff it is another row whose distance to site i is at most the radius |
| `Proximity.NearbyMembership` | scripts/main.py:48-49 | j is a neighbour of i iff j is a row, j differs from i, and the distance is at most the radius (an inclusive boundary) |
| `Proximity.NeverOwnNeighbour` | scripts/main.py:49 | no site is ever its own neighbour, whatever the radius |
| `Proximity.NearbyUpToIncreasing` | scripts/main.py:49 | the filtered rows keep strictly increasing row order |
| `Proximity.NearbyInInputOrder` | scripts/main.py:49-53 | neighbours are listed in input order, each row once |
| `Proximity.NearbySymmetric` | scripts/main.py:47-49 | for a symmetric distance, j is a neighbour of i iff i is a neighbour of j |
| `Proximity.NegativeRadiusIsolates` | scripts/main.py:48-49 | with a negative radius every neighbour set is empty |
| `Proximity.ZeroRadiusOnlyCoincident` | scripts/main.py:48-49 | with radius 0, the neighbours are exactly the other rows at the same projected point |
| `Proximity.WiderRadiusKeepsNeighbours` | scripts/main.py:48-49 | every neighbour under a radius stays a neighbour under any larger radius |
| `Proximity.NeighboursAt` | scripts/main.py:53-55 | the listing has one entry per neighbour, in the neighbour set's order, with the neighbour's name and its distance from the site in km |
| `Proximity.ReportUpToEntries` | scripts/main.py:47-53 | every entry reported for the first m sites belongs to a site among them that has a neighbour, and is that site's listing |
| `Proximity.ReportUpToComplete` | scripts/main.py:47-53 | every site among the first m that has a neighbour has its listing in the report |
| `Proximity.ReportUpToIncreasing` | scripts/main.py:47 | report entries follow the row order of their sites |
| `Proximity.ReportListsSitesWithNeighbours` | scripts/main.py:47-55 | the report has an entry for a site iff the site has a neighbour; a site with no neighbours produces no entry; each entry names its site, lists that site's neighbour set, is non-empty, and entries come in row order |
| `Proximity.ReportedDistancesWithinRadius` | scripts/main.py:48-55 | every printed neighbour distance is at most the radius, equals the distance between the two projected points, and never refers to the site itself; the filter measures j to i and the printout i to j, and symmetry makes them agree |
| `Proximity.EmptyFrameEmptyReport` | scripts/main.py:47 | an empty frame yields an empty report |
| `Classification.CriticalIffBeyondThreshold` | scripts/main.py:73-78 | critical iff the distance is strictly more than 300 km, standard iff at most 300 km; the two labels are exclusive and exhaustive |
| `Classification.ThresholdIsStandard` | scripts/main.py:73-78 | a site exactly at `CRITICAL_DISTANCE_KM` is standard |
| `Classification.ClassifyMonotone` | scripts/main.py:73-78 | a farther site is never less critical than a nearer one |
| `Classification.StyleDistinguishesClasses` | scripts/main.py:73-78 | critical and standard get different colours (orange, green) and different status texts |
| `Classification.MarkerStyles` | scripts/main.py:69-78 | one style per row, in row order; a row is orange exactly when its distance column value exceeds 300, and each style is the one its class selects |
| `Pipeline.RunPipeline` | scripts/main.py:110-135 | with Güemes and the 50 km radius, each row gets its non-negative reference distance; the neighbour report is computed over the same projected points; each style follows from the row's distance |

## Left out

- Loading the data (`load_data`, scripts/main.py:16-20): file-system and CSV I/O. Its only behaviour is raising on a missing file.
- The EPSG:4326 to EPSG:32719 transverse Mercator transform: it is a floating-point library call, so it is the parameter `project`. The model only relies on the hub and every site going through the same transform.
- The library's Euclidean distance (a square root over doubles): it is the parameter `dist`, constrained by `IsMetric` to be non-negative, symmetric and zero exactly on equal points.
- Floating point: distances, radii and thresholds are exact reals. Rounding in `distance / 1000` and at the `<=` and `>` boundaries is not modelled.
- pandas index labels: the self-exclusion `index != i` is modelled on row positions. These coincide with labels for the default index that a CSV load produces.
- All printing, the Folium map, its markers, popups, circles and the saved HTML (scripts/main.py:46, 52, 55, 57-108, 110-136). The printed report is returned as data (`Entry`, `Neighbour`), and of the map only the per-row colour and status are kept.
- The dashboard (scripts/app.py): a presentation layer over the same functions. Its only rule is the same `> 300` colour rule. Its critical count and its table read a distance column under a name that is never created.
