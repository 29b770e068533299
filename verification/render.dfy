/** The map image as a list of strokes handed to the 2D library: the full
    track first, then the filtered segment on top. A track is drawn only
    when it has more than one fix; its path starts with a move to the first
    projected fix and adds one line to each later projected fix. */
module Render {
  import opened Wrappers
  import opened Geo
  import opened Bounds
  import opened Projection

  const DefaultWidth: int := 1920
  const DefaultHeight: int := 1080

  datatype PathCmd = MoveTo(to: Pixel) | LineTo(to: Pixel)

  /** Original track: white, 3 px. Filtered segment: yellow, 5 px. */
  datatype Style = OriginalTrack | FilteredSegment

  function StrokeWidth(s: Style): int
  {
    match s
    case OriginalTrack => 3
    case FilteredSegment => 5
  }

  datatype Stroke = Stroke(style: Style, width: int, path: seq<PathCmd>)

  datatype MapImage = MapImage(width: int, height: int, frame: GpsBounds, strokes: seq<Stroke>)

  /** A path that opens with one move and continues with lines only. */
  predicate IsOpenPath(path: seq<PathCmd>)
  {
    |path| > 0 && path[0].MoveTo? && forall i :: 1 <= i < |path| ==> path[i].LineTo?
  }

  /** The vertex list of a path, one per command. */
  function Vertices(path: seq<PathCmd>): seq<Pixel>
  {
    seq(|path|, i requires 0 <= i < |path| => path[i].to)
  }

  /** The path of a track, or None when it has at most one fix. */
  function Polyline(pts: seq<GpsPoint>, b: GpsBounds, width: int, height: int): (r: Option<seq<PathCmd>>)
    requires HasExtent(b)
    ensures r.Some? <==> |pts| > 1
    ensures r.Some? ==> IsOpenPath(r.value) && |r.value| == |pts|
    ensures r.Some? ==> forall i :: 0 <= i < |pts| ==> r.value[i].to == ToPixel(pts[i], b, width, height)
  {
    if |pts| <= 1 then None
    else
      Some([MoveTo(ToPixel(pts[0], b, width, height))] +
           seq(|pts| - 1, i requires 0 <= i < |pts| - 1 => LineTo(ToPixel(pts[i + 1], b, width, height))))
  }

  /** The drawing loop: move to the first fix, then one line per later fix. */
  method TracePolyline(pts: seq<GpsPoint>, b: GpsBounds, width: int, height: int) returns (r: Option<seq<PathCmd>>)
    requires HasExtent(b)
    ensures r == Polyline(pts, b, width, height)
  {
    if |pts| <= 1 {
      return None;
    }
    var path := [MoveTo(ToPixel(pts[0], b, width, height))];
    for i := 1 to |pts|
      invariant |path| == i
      invariant IsOpenPath(path)
      invariant forall k :: 0 <= k < i ==> path[k].to == ToPixel(pts[k], b, width, height)
    {
      path := path + [LineTo(ToPixel(pts[i], b, width, height))];
    }
    var expected := Polyline(pts, b, width, height).value;
    assert |path| == |expected|;
    forall k | 0 <= k < |path|
      ensures path[k] == expected[k]
    {
      if k == 0 {
        assert path[k].MoveTo? && expected[k].MoveTo?;
      } else {
        assert path[k].LineTo? && expected[k].LineTo?;
      }
    }
    assert path == expected;
    r := Some(path);
  }

  /** On a canvas of non-zero size the drawn vertices determine the track:
      mapping each back through `FromPixel` gives the fixes in input order. */
  lemma PolylineRecoversTrack(pts: seq<GpsPoint>, b: GpsBounds, width: int, height: int)
    requires HasExtent(b) && width != 0 && height != 0 && |pts| > 1
    ensures var vs := Vertices(Polyline(pts, b, width, height).value);
            seq(|vs|, i requires 0 <= i < |vs| => FromPixel(vs[i], b, width, height)) == pts
  {
    var vs := Vertices(Polyline(pts, b, width, height).value);
    var back := seq(|vs|, i requires 0 <= i < |vs| => FromPixel(vs[i], b, width, height));
    forall i | 0 <= i < |pts|
      ensures back[i] == pts[i]
    {
      GeoRoundTrip(pts[i], b, width, height);
    }
  }

  function StrokeOf(path: Option<seq<PathCmd>>, style: Style): seq<Stroke>
  {
    match path
    case Some(p) => [Stroke(style, StrokeWidth(style), p)]
    case None => []
  }

  /** The whole image: fails exactly when there is no fix at all; otherwise
      an image of the requested size over the corrected frame of both
      tracks, with a stroke for each track with more than one fix, the full
      track first, 3 px wide, and the segment last, 5 px wide. */
  function RenderMap(full: seq<GpsPoint>, segment: seq<GpsPoint>, width: int, height: int): (r: Result<MapImage, BoundsError>)
    ensures r.Failure? <==> |full| + |segment| == 0
    ensures r.Success? ==> r.value.width == width && r.value.height == height
    ensures r.Success? ==> r.value.frame == ComputeBoundsHardened(full, segment).value
    ensures r.Success? ==> HasExtent(r.value.frame) && WellFormed(r.value.frame)
    ensures r.Success? ==> ContainsAll(r.value.frame, full) && ContainsAll(r.value.frame, segment)
    ensures r.Success? ==>
              |r.value.strokes| == (if |full| > 1 then 1 else 0) + (if |segment| > 1 then 1 else 0)
    ensures r.Success? && |full| > 1 ==>
              r.value.strokes[0] == Stroke(OriginalTrack, 3, Polyline(full, r.value.frame, width, height).value)
    ensures r.Success? && |segment| > 1 ==>
              r.value.strokes[|r.value.strokes| - 1] ==
              Stroke(FilteredSegment, 5, Polyline(segment, r.value.frame, width, height).value)
  {
    match ComputeBoundsHardened(full, segment)
    case Failure(e) => Failure(e)
    case Success(b) =>
      var fullPath := Polyline(full, b, width, height);
      var segmentPath := Polyline(segment, b, width, height);
      var strokes := StrokeOf(fullPath, OriginalTrack) + StrokeOf(segmentPath, FilteredSegment);
      Success(MapImage(width, height, b, strokes))
  }

  /** The program's degenerate case made concrete: two or more fixes on one
      latitude give the program's frame zero height, yet the track has more
      than one fix and so is drawn, projecting every fix into that frame.
      The corrected frame used by `RenderMap` has positive height there. */
  lemma ZeroHeightTrackIsDrawn(p: GpsPoint, q: GpsPoint, width: int, height: int)
    requires p.latitude == q.latitude
    ensures ComputeBounds([p, q], []).Success?
    ensures ComputeBounds([p, q], []).value.maxLat - ComputeBounds([p, q], []).value.minLat == 0.0
    ensures !HasExtent(ComputeBounds([p, q], []).value)
    ensures |RenderMap([p, q], [], width, height).value.strokes| == 1
    ensures RenderMap([p, q], [], width, height).value.frame.minLat < RenderMap([p, q], [], width, height).value.frame.maxLat
  {
  }
}
