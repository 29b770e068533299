/** Geographic values of the map renderer: a GPS fix and an axis-aligned
    latitude/longitude box. Coordinates are degrees, modelled as `real`. */
module Geo {

  datatype GpsPoint = GpsPoint(latitude: real, longitude: real)

  datatype GpsBounds = GpsBounds(minLat: real, maxLat: real, minLon: real, maxLon: real)

  /** The lower corner does not exceed the upper one on either axis. */
  predicate WellFormed(b: GpsBounds)
  {
    b.minLat <= b.maxLat && b.minLon <= b.maxLon
  }

  /** Both axes have a non-zero range, so normalising into the box is defined. */
  predicate HasExtent(b: GpsBounds)
  {
    b.minLat != b.maxLat && b.minLon != b.maxLon
  }

  predicate Contains(b: GpsBounds, p: GpsPoint)
  {
    b.minLat <= p.latitude <= b.maxLat && b.minLon <= p.longitude <= b.maxLon
  }

  predicate ContainsAll(b: GpsBounds, pts: seq<GpsPoint>)
  {
    forall i :: 0 <= i < |pts| ==> Contains(b, pts[i])
  }
}
