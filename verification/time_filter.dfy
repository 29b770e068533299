/** The time-window filter of the program's main routine: a track point is
    kept when its `time` element is present, parses, and falls inside the
    closed window that starts at the video's creation instant and lasts as
    long as the video; every other point is counted as discarded. */
module TimeFilter {
  import opened Wrappers
  import opened Gpx

  /** A closed interval of instants; both ends belong to it. */
  datatype Window = Window(start: int, end: int)

  /** The window of a video created at `creation` lasting `duration` units:
      an instant is inside exactly when it lies between the creation instant
      and the end of the recording, both ends included. */
  function WindowFor(creation: int, duration: int): (w: Window)
    ensures forall t :: InWindow(t, w) <==> creation <= t <= creation + duration
  {
    Window(creation, creation + duration)
  }

  /** The instant of a point, if its time element exists and parses. */
  function TimeOf(p: TrackPoint, parseTime: TimeParser): Option<int>
  {
    match p.time
    case None => None
    case Some(text) => parseTime(text)
  }

  predicate InWindow(t: int, w: Window)
  {
    w.start <= t <= w.end
  }

  predicate Keeps(p: TrackPoint, parseTime: TimeParser, w: Window)
  {
    var t := TimeOf(p, parseTime);
    t.Some? && InWindow(t.value, w)
  }

  /** The indices of the kept points: strictly increasing, and exactly the
      indices whose point the filter keeps. */
  function KeptPositions(points: seq<TrackPoint>, parseTime: TimeParser, w: Window): (idx: seq<int>)
    ensures forall k :: 0 <= k < |idx| ==> 0 <= idx[k] < |points| && Keeps(points[idx[k]], parseTime, w)
    ensures forall k, l :: 0 <= k < l < |idx| ==> idx[k] < idx[l]
    ensures forall i :: 0 <= i < |points| && Keeps(points[i], parseTime, w) ==> i in idx
  {
    if |points| == 0 then []
    else
      var n := |points| - 1;
      var init := KeptPositions(points[..n], parseTime, w);
      if Keeps(points[n], parseTime, w) then init + [n] else init
  }

  /** The kept points, in their original order. */
  function Segment(points: seq<TrackPoint>, parseTime: TimeParser, w: Window): (kept: seq<TrackPoint>)
    ensures |kept| <= |points|
    ensures forall p :: p in kept <==> p in points && Keeps(p, parseTime, w)
  {
    if |points| == 0 then []
    else
      var n := |points| - 1;
      assert points == points[..n] + [points[n]];
      var init := Segment(points[..n], parseTime, w);
      if Keeps(points[n], parseTime, w) then init + [points[n]] else init
  }

  /** The discarded points, in their original order. */
  function Rejected(points: seq<TrackPoint>, parseTime: TimeParser, w: Window): (dropped: seq<TrackPoint>)
    ensures |dropped| <= |points|
    ensures forall p :: p in dropped <==> p in points && !Keeps(p, parseTime, w)
  {
    if |points| == 0 then []
    else
      var n := |points| - 1;
      assert points == points[..n] + [points[n]];
      var init := Rejected(points[..n], parseTime, w);
      if Keeps(points[n], parseTime, w) then init else init + [points[n]]
  }

  /** The kept points are the originals at the kept positions, so the segment
      is a subsequence of the track in the same relative order. */
  lemma {:induction false} SegmentIsSubsequence(points: seq<TrackPoint>, parseTime: TimeParser, w: Window)
    ensures |Segment(points, parseTime, w)| == |KeptPositions(points, parseTime, w)|
    ensures forall k :: 0 <= k < |Segment(points, parseTime, w)| ==>
              Segment(points, parseTime, w)[k] == points[KeptPositions(points, parseTime, w)[k]]
  {
    if |points| > 0 {
      var n := |points| - 1;
      var prefix := points[..n];
      SegmentIsSubsequence(prefix, parseTime, w);
      var init := Segment(prefix, parseTime, w);
      var initIdx := KeptPositions(prefix, parseTime, w);
      forall k | 0 <= k < |init|
        ensures init[k] == points[initIdx[k]]
      {
        assert prefix[initIdx[k]] == points[initIdx[k]];
      }
      if Keeps(points[n], parseTime, w) {
        assert Segment(points, parseTime, w) == init + [points[n]];
        assert KeptPositions(points, parseTime, w) == initIdx + [n];
      } else {
        assert Segment(points, parseTime, w) == init;
        assert KeptPositions(points, parseTime, w) == initIdx;
      }
    }
  }

  /** Every point is either kept or discarded: the two counts add up to the
      number of points read. */
  lemma {:induction false} CountConservation(points: seq<TrackPoint>, parseTime: TimeParser, w: Window)
    ensures |Segment(points, parseTime, w)| + |Rejected(points, parseTime, w)| == |points|
  {
    if |points| > 0 {
      CountConservation(points[..|points| - 1], parseTime, w);
    }
  }

  /** Kept and discarded points together are the original points, with
      multiplicity: nothing is duplicated and nothing is lost. */
  lemma {:induction false} Partition(points: seq<TrackPoint>, parseTime: TimeParser, w: Window)
    ensures multiset(Segment(points, parseTime, w)) + multiset(Rejected(points, parseTime, w)) == multiset(points)
  {
    if |points| > 0 {
      var n := |points| - 1;
      Partition(points[..n], parseTime, w);
      assert points == points[..n] + [points[n]];
    }
  }

  /** The loop of the main routine: walks the points in order, copying those
      inside the window and counting the others. */
  method FilterByTime(points: seq<TrackPoint>, parseTime: TimeParser, w: Window)
    returns (kept: seq<TrackPoint>, discarded: nat)
    ensures kept == Segment(points, parseTime, w)
    ensures discarded == |Rejected(points, parseTime, w)|
    ensures |kept| + discarded == |points|
    ensures forall p :: p in kept ==> TimeOf(p, parseTime).Some? && InWindow(TimeOf(p, parseTime).value, w)
  {
    kept := [];
    discarded := 0;
    var i := 0;
    while i < |points|
      invariant 0 <= i <= |points|
      invariant kept == Segment(points[..i], parseTime, w)
      invariant discarded == |Rejected(points[..i], parseTime, w)|
    {
      assert points[..i + 1][..i] == points[..i];
      var p := points[i];
      match TimeOf(p, parseTime) {
        case Some(t) =>
          if InWindow(t, w) {
            kept := kept + [p];
          } else {
            discarded := discarded + 1;
          }
        case None =>
          discarded := discarded + 1;
      }
      i := i + 1;
    }
    assert points[..i] == points;
    CountConservation(points, parseTime, w);
  }
}
