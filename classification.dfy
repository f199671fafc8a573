/** The critical/standard logistics rule and the map marker style it picks. */
module Classification {
  import opened Geometry
  import opened Frames

  datatype Logistics = Critical | Standard

  /** Critical strictly beyond the threshold; a site exactly at it is
      standard. */
  function Classify(distanceKm: real): (c: Logistics)
  {
    if distanceKm > CriticalDistanceKm then Critical else Standard
  }

  /** Marker colour and the logistics status shown in the popup. */
  datatype MarkerStyle = MarkerStyle(colour: string, status: string)

  function Style(c: Logistics): (style: MarkerStyle)
  {
    match c
    case Critical => MarkerStyle("orange", "Crítica (>300 km)")
    case Standard => MarkerStyle("green", "Estándar (<=300 km)")
  }

  /** The two labels are exclusive and exhaustive, and Critical means
      strictly farther than 300 km. */
  lemma CriticalIffBeyondThreshold(distanceKm: real)
    ensures Classify(distanceKm) == Critical <==> distanceKm > 300.0
    ensures Classify(distanceKm) == Standard <==> distanceKm <= 300.0
  {
  }

  /** A site at exactly the threshold is standard. */
  lemma ThresholdIsStandard()
    ensures Classify(CriticalDistanceKm) == Standard
  {
  }

  /** Moving a site farther from the hub never turns it from critical to
      standard. */
  lemma ClassifyMonotone(nearer: real, farther: real)
    requires nearer <= farther
    ensures Classify(nearer) == Critical ==> Classify(farther) == Critical
    ensures Classify(farther) == Standard ==> Classify(nearer) == Standard
  {
  }

  /** Different classes get different colours and different status texts,
      so the marker alone tells the class. */
  lemma StyleDistinguishesClasses(c1: Logistics, c2: Logistics)
    ensures Style(c1).colour == Style(c2).colour <==> c1 == c2
    ensures Style(c1).status == Style(c2).status <==> c1 == c2
  {
  }

  /** The per-row pass of the map builder: each row's style follows from its
      distance column, in row order. */
  method MarkerStyles(gdf: GeoFrame) returns (styles: seq<MarkerStyle>)
    requires gdf.Valid() && gdf.distanceKm.Some?
    ensures |styles| == |gdf.records|
    ensures forall i :: 0 <= i < |styles| ==>
              (styles[i].colour == "orange" <==> gdf.distanceKm.value[i] > CriticalDistanceKm)
    ensures forall i :: 0 <= i < |styles| ==> styles[i] == Style(Classify(gdf.distanceKm.value[i]))
  {
    var column := gdf.distanceKm.value;
    styles := [];
    var i := 0;
    while i < |column|
      invariant 0 <= i <= |column|
      invariant |styles| == i
      invariant forall k :: 0 <= k < i ==> styles[k] == Style(Classify(column[k]))
    {
      var distancia := column[i];
      var style: MarkerStyle;
      if distancia > CriticalDistanceKm {
        style := MarkerStyle("orange", "Crítica (>300 km)");
      } else {
        style := MarkerStyle("green", "Estándar (<=300 km)");
      }
      styles := styles + [style];
      i := i + 1;
    }
  }
}
