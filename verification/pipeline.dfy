/** The main routine's data flow, from the parsed track to the map image:
    filter the track by the video's time window, stop when nothing is kept,
    extract fixes from the whole track and from the kept segment, and draw
    both over one frame. */
module Pipeline {
  import opened Wrappers
  import opened Geo
  import opened Gpx
  import opened TimeFilter
  import opened Extraction
  import opened Render

  datatype RunError =
    /** No point fell in the window; the run stops before writing anything. */
    | NoPointsInWindow(discarded: nat)
    /** No point of the track has a usable fix. The filtered track file has
        already been written when the frame computation fails. */
    | NoCoordinates(segment: seq<TrackPoint>)

  datatype Report = Report(segment: seq<TrackPoint>, discarded: nat, image: MapImage)

  /** A sub-list of a track without fixes has no fixes either. */
  lemma NoFixesInSublist(points: seq<TrackPoint>, sub: seq<TrackPoint>, parseNumber: NumberParser)
    requires forall p :: p in sub ==> p in points
    requires |ExtractCoordinates(points, parseNumber)| == 0
    ensures |ExtractCoordinates(sub, parseNumber)| == 0
  {
  }

  /** The segment is empty exactly when no point of the track is kept. */
  lemma EmptySegment(points: seq<TrackPoint>, parseTime: TimeParser, w: Window)
    ensures |Segment(points, parseTime, w)| == 0 <==> forall p :: p in points ==> !Keeps(p, parseTime, w)
  {
    var kept := Segment(points, parseTime, w);
    if |kept| > 0 {
      assert kept[0] in kept;
    }
  }

  /** One run over a parsed track. Stops when no point falls in the window;
      fails in the frame computation when the track has no fix at all;
      otherwise reports the segment, the discarded count and the image,
      which frames every fix and draws each track that has more than one. */
  function Run(points: seq<TrackPoint>, parseTime: TimeParser, parseNumber: NumberParser,
               creation: int, duration: int): (r: Result<Report, RunError>)
    ensures var w := WindowFor(creation, duration);
            (r.Failure? && r.error.NoPointsInWindow?) <==> forall p :: p in points ==> !Keeps(p, parseTime, w)
    ensures r.Failure? && r.error.NoPointsInWindow? ==> r.error.discarded == |points|
    ensures var w := WindowFor(creation, duration);
            (r.Failure? && r.error.NoCoordinates?) <==>
            (exists p :: p in points && Keeps(p, parseTime, w)) &&
            forall p :: p in points ==> CoordinateOf(p, parseNumber).None?
    ensures r.Success? ==> |r.value.segment| > 0 && |r.value.segment| + r.value.discarded == |points|
    ensures var w := WindowFor(creation, duration);
            r.Success? ==> r.value.segment == Segment(points, parseTime, w) &&
                           r.value.discarded == |Rejected(points, parseTime, w)|
    ensures r.Success? ==>
              r.value.image == RenderMap(ExtractCoordinates(points, parseNumber),
                                         ExtractCoordinates(r.value.segment, parseNumber),
                                         DefaultWidth, DefaultHeight).value
  {
    var w := WindowFor(creation, duration);
    var kept := Segment(points, parseTime, w);
    var discarded := |Rejected(points, parseTime, w)|;
    CountConservation(points, parseTime, w);
    EmptySegment(points, parseTime, w);
    if |kept| == 0 then Failure(NoPointsInWindow(discarded))
    else
      var full := ExtractCoordinates(points, parseNumber);
      var seg := ExtractCoordinates(kept, parseNumber);
      assert |full| == 0 ==> |seg| == 0 by {
        if |full| == 0 {
          NoFixesInSublist(points, kept, parseNumber);
        }
      }
      match RenderMap(full, seg, DefaultWidth, DefaultHeight)
      case Failure(_) => Failure(NoCoordinates(kept))
      case Success(img) => Success(Report(kept, discarded, img))
  }
}
