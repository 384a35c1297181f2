/**
 * What the map controller derives from the viewport before it asks the backend
 * for anything: the geohash precision for the current zoom level, and the
 * viewport corners clamped to valid latitudes and longitudes.
 */
module Viewport {
  import opened Common

  /** The coarsest and finest precision the controller ever asks for. */
  const MinDepth: int := 1
  const MaxDepth: int := 9
  /** The aggregator documents precisions 1 to 12 as the ones it accepts. */
  const MaxPrecision: int := 12

  /** The step function of the controller, branch by branch. */
  function DepthForZoom(zoom: real): (d: int)
    ensures MinDepth <= d <= MaxDepth
    ensures zoom <= 5.0 ==> d == MinDepth
    ensures zoom > 19.0 ==> d == MaxDepth
  {
    if zoom <= 5.0 then 1
    else if zoom <= 8.0 then 2
    else if zoom <= 10.0 then 3
    else if zoom <= 12.0 then 4
    else if zoom <= 14.0 then 5
    else if zoom <= 16.0 then 6
    else if zoom <= 18.0 then 7
    else if zoom <= 19.0 then 8
    else 9
  }

  /**
   * An independent reading of the same step function: the precision is one
   * more than the number of zoom thresholds the zoom level lies strictly above.
   */
  const ZoomThresholds: seq<real> := [5.0, 8.0, 10.0, 12.0, 14.0, 16.0, 18.0, 19.0]

  function CountBelow(ts: seq<real>, zoom: real): (n: nat)
    ensures n <= |ts|
  {
    if ts == [] then 0 else (if ts[0] < zoom then 1 else 0) + CountBelow(ts[1..], zoom)
  }

  lemma {:induction false} CountBelowMonotone(ts: seq<real>, z1: real, z2: real)
    requires z1 <= z2
    ensures CountBelow(ts, z1) <= CountBelow(ts, z2)
  {
    if ts != [] {
      CountBelowMonotone(ts[1..], z1, z2);
    }
  }

  lemma DepthCountsThresholds(zoom: real)
    ensures DepthForZoom(zoom) == 1 + CountBelow(ZoomThresholds, zoom)
  {
    var ts := ZoomThresholds;
    var t1 := [8.0, 10.0, 12.0, 14.0, 16.0, 18.0, 19.0];
    var t2 := [10.0, 12.0, 14.0, 16.0, 18.0, 19.0];
    var t3 := [12.0, 14.0, 16.0, 18.0, 19.0];
    var t4 := [14.0, 16.0, 18.0, 19.0];
    var t5 := [16.0, 18.0, 19.0];
    var t6 := [18.0, 19.0];
    var t7 := [19.0];
    assert ts[1..] == t1 && t1[1..] == t2 && t2[1..] == t3 && t3[1..] == t4;
    assert t4[1..] == t5 && t5[1..] == t6 && t6[1..] == t7 && t7[1..] == [];
    assert CountBelow(t7, zoom) == (if 19.0 < zoom then 1 else 0);
    assert CountBelow(t6, zoom) == (if 18.0 < zoom then 1 else 0) + CountBelow(t7, zoom);
    assert CountBelow(t5, zoom) == (if 16.0 < zoom then 1 else 0) + CountBelow(t6, zoom);
    assert CountBelow(t4, zoom) == (if 14.0 < zoom then 1 else 0) + CountBelow(t5, zoom);
    assert CountBelow(t3, zoom) == (if 12.0 < zoom then 1 else 0) + CountBelow(t4, zoom);
    assert CountBelow(t2, zoom) == (if 10.0 < zoom then 1 else 0) + CountBelow(t3, zoom);
    assert CountBelow(t1, zoom) == (if 8.0 < zoom then 1 else 0) + CountBelow(t2, zoom);
    assert CountBelow(ts, zoom) == (if 5.0 < zoom then 1 else 0) + CountBelow(t1, zoom);
  }

  /** Zooming in never makes the aggregation coarser. */
  lemma DepthMonotone(z1: real, z2: real)
    requires z1 <= z2
    ensures DepthForZoom(z1) <= DepthForZoom(z2)
  {
    DepthCountsThresholds(z1);
    DepthCountsThresholds(z2);
    CountBelowMonotone(ZoomThresholds, z1, z2);
  }

  /** The geometry library's clamp: below the range gives its minimum, above it its maximum. */
  function Clamp(x: real, lo: real, hi: real): (r: real)
    ensures lo <= hi ==> lo <= r <= hi
    ensures lo <= x <= hi ==> r == x
    ensures x < lo ==> r == lo
    ensures lo <= x && hi < x ==> r == hi
  {
    if x < lo then lo else if x > hi then hi else x
  }

  lemma ClampIdempotent(x: real, lo: real, hi: real)
    requires lo <= hi
    ensures Clamp(Clamp(x, lo, hi), lo, hi) == Clamp(x, lo, hi)
  {
  }

  predicate ValidLocation(l: Location)
  {
    -90.0 <= l.lat <= 90.0 && -180.0 <= l.lon <= 180.0
  }

  function ClampLocation(l: Location): (r: Location)
    ensures ValidLocation(r)
    ensures ValidLocation(l) ==> r == l
    ensures l.lat < -90.0 ==> r.lat == -90.0
    ensures l.lat > 90.0 ==> r.lat == 90.0
    ensures l.lon < -180.0 ==> r.lon == -180.0
    ensures l.lon > 180.0 ==> r.lon == 180.0
  {
    Location(Clamp(l.lat, -90.0, 90.0), Clamp(l.lon, -180.0, 180.0))
  }

  /** The viewport corners as both background services hand them to the backend. */
  datatype BoundingBox = BoundingBox(topLeft: Location, bottomRight: Location)

  function ClampViewport(topLeft: Location, bottomRight: Location): (b: BoundingBox)
    ensures ValidLocation(b.topLeft) && ValidLocation(b.bottomRight)
    ensures ValidLocation(topLeft) ==> b.topLeft == topLeft
    ensures ValidLocation(bottomRight) ==> b.bottomRight == bottomRight
  {
    BoundingBox(ClampLocation(topLeft), ClampLocation(bottomRight))
  }

  /** Clamping an already clamped viewport changes nothing. */
  lemma ClampViewportIdempotent(topLeft: Location, bottomRight: Location)
    ensures var b := ClampViewport(topLeft, bottomRight);
            ClampViewport(b.topLeft, b.bottomRight) == b
  {
  }
}
