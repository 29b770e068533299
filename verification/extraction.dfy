/** Coordinate extraction: turns track points into GPS fixes, keeping a
    point only when both its `lat` and `lon` attributes exist and parse. */
module Extraction {
  import opened Wrappers
  import opened Geo
  import opened Gpx

  /** The fix of one point, or None when an attribute is missing or does
      not parse. */
  function CoordinateOf(p: TrackPoint, parseNumber: NumberParser): Option<GpsPoint>
  {
    if p.lat.Some? && p.lon.Some? then
      match (parseNumber(p.lat.value), parseNumber(p.lon.value))
      case (Some(lat), Some(lon)) => Some(GpsPoint(lat, lon))
      case _ => None
    else None
  }

  /** The indices of the points that yield a fix: strictly increasing, and
      exactly those indices whose point has a parseable latitude and longitude. */
  function CoordinatePositions(points: seq<TrackPoint>, parseNumber: NumberParser): (idx: seq<int>)
    ensures forall k :: 0 <= k < |idx| ==> 0 <= idx[k] < |points| && CoordinateOf(points[idx[k]], parseNumber).Some?
    ensures forall k, l :: 0 <= k < l < |idx| ==> idx[k] < idx[l]
    ensures forall i :: 0 <= i < |points| && CoordinateOf(points[i], parseNumber).Some? ==> i in idx
  {
    if |points| == 0 then []
    else
      var n := |points| - 1;
      var init := CoordinatePositions(points[..n], parseNumber);
      if CoordinateOf(points[n], parseNumber).Some? then init + [n] else init
  }

  /** The fixes of all points that have one, in input order. */
  function ExtractCoordinates(points: seq<TrackPoint>, parseNumber: NumberParser): (coords: seq<GpsPoint>)
    ensures |coords| <= |points|
    ensures |coords| == 0 <==> forall p :: p in points ==> CoordinateOf(p, parseNumber).None?
  {
    if |points| == 0 then []
    else
      var n := |points| - 1;
      assert points == points[..n] + [points[n]];
      var init := ExtractCoordinates(points[..n], parseNumber);
      match CoordinateOf(points[n], parseNumber)
      case Some(c) => init + [c]
      case None => init
  }

  /** The k-th fix comes from the k-th point that has one: the output holds
      exactly the fixes of the parseable points, in input order. */
  lemma {:induction false} ExtractionFollowsPositions(points: seq<TrackPoint>, parseNumber: NumberParser)
    ensures |ExtractCoordinates(points, parseNumber)| == |CoordinatePositions(points, parseNumber)|
    ensures forall k :: 0 <= k < |ExtractCoordinates(points, parseNumber)| ==>
              Some(ExtractCoordinates(points, parseNumber)[k]) ==
              CoordinateOf(points[CoordinatePositions(points, parseNumber)[k]], parseNumber)
  {
    if |points| > 0 {
      var n := |points| - 1;
      var prefix := points[..n];
      ExtractionFollowsPositions(prefix, parseNumber);
      var init := ExtractCoordinates(prefix, parseNumber);
      var initIdx := CoordinatePositions(prefix, parseNumber);
      forall k | 0 <= k < |init|
        ensures Some(init[k]) == CoordinateOf(points[initIdx[k]], parseNumber)
      {
        assert prefix[initIdx[k]] == points[initIdx[k]];
      }
      match CoordinateOf(points[n], parseNumber)
      case Some(c) =>
        assert ExtractCoordinates(points, parseNumber) == init + [c];
        assert CoordinatePositions(points, parseNumber) == initIdx + [n];
      case None =>
        assert ExtractCoordinates(points, parseNumber) == init;
        assert CoordinatePositions(points, parseNumber) == initIdx;
    }
  }
}
