/** A track point as the GPX reader sees it: the raw text of its `lat` and
    `lon` attributes and of its `time` child element, each possibly absent.
    Parsing text into numbers and instants is done by the platform; here it
    is an arbitrary function handed in by the caller. */
module Gpx {
  import opened Wrappers

  datatype TrackPoint = TrackPoint(lat: Option<string>, lon: Option<string>, time: Option<string>)

  /** Parses a timestamp text into an instant, counted in a fixed time unit. */
  type TimeParser = string -> Option<int>

  /** Parses a decimal number in the invariant culture. */
  type NumberParser = string -> Option<real>
}
