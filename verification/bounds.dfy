/** The map frame: the box enclosing the full track and the extracted
    segment, padded on each side by a tenth of its range on that axis. */
module Bounds {
  import opened Wrappers
  import opened Geo

  /** Raised when neither point list holds a single fix. */
  datatype BoundsError = NoPoints

  /** Each side is pushed out by this fraction of the axis' range. */
  const MarginFraction: real := 0.1

  /** Smallest padding, in degrees, of the hardened frame (about 11 m of latitude). */
  const MinMargin: real := 0.0001

  function MinOf(s: seq<real>): (m: real)
    requires |s| > 0
    ensures m in s
    ensures forall i :: 0 <= i < |s| ==> m <= s[i]
  {
    if |s| == 1 then s[0]
    else
      var rest := MinOf(s[1..]);
      if s[0] <= rest then s[0] else rest
  }

  function MaxOf(s: seq<real>): (m: real)
    requires |s| > 0
    ensures m in s
    ensures forall i :: 0 <= i < |s| ==> s[i] <= m
  {
    if |s| == 1 then s[0]
    else
      var rest := MaxOf(s[1..]);
      if rest <= s[0] then s[0] else rest
  }

  function Latitudes(pts: seq<GpsPoint>): seq<real>
  {
    seq(|pts|, i requires 0 <= i < |pts| => pts[i].latitude)
  }

  function Longitudes(pts: seq<GpsPoint>): seq<real>
  {
    seq(|pts|, i requires 0 <= i < |pts| => pts[i].longitude)
  }

  /** The tight box of a non-empty point list: it holds every point and
      each of its four sides passes through one of them. */
  function Hull(pts: seq<GpsPoint>): (h: GpsBounds)
    requires |pts| > 0
    ensures WellFormed(h) && ContainsAll(h, pts)
    ensures exists i :: 0 <= i < |pts| && pts[i].latitude == h.minLat
    ensures exists i :: 0 <= i < |pts| && pts[i].latitude == h.maxLat
    ensures exists i :: 0 <= i < |pts| && pts[i].longitude == h.minLon
    ensures exists i :: 0 <= i < |pts| && pts[i].longitude == h.maxLon
  {
    var lats := Latitudes(pts);
    var lons := Longitudes(pts);
    assert |lats| == |pts| && forall i :: 0 <= i < |pts| ==> lats[i] == pts[i].latitude;
    assert |lons| == |pts| && forall i :: 0 <= i < |pts| ==> lons[i] == pts[i].longitude;
    GpsBounds(MinOf(lats), MaxOf(lats), MinOf(lons), MaxOf(lons))
  }

  /** No box that holds all the points is smaller than the hull. */
  lemma HullIsLeast(pts: seq<GpsPoint>, b: GpsBounds)
    requires |pts| > 0 && ContainsAll(b, pts)
    ensures var h := Hull(pts);
            b.minLat <= h.minLat && h.maxLat <= b.maxLat && b.minLon <= h.minLon && h.maxLon <= b.maxLon
  {
    var h := Hull(pts);
    var i0 :| 0 <= i0 < |pts| && pts[i0].latitude == h.minLat;
    var i1 :| 0 <= i1 < |pts| && pts[i1].latitude == h.maxLat;
    var i2 :| 0 <= i2 < |pts| && pts[i2].longitude == h.minLon;
    var i3 :| 0 <= i3 < |pts| && pts[i3].longitude == h.maxLon;
    assert Contains(b, pts[i0]) && Contains(b, pts[i1]) && Contains(b, pts[i2]) && Contains(b, pts[i3]);
  }

  lemma ContainsBothHalves(b: GpsBounds, xs: seq<GpsPoint>, ys: seq<GpsPoint>)
    requires ContainsAll(b, xs + ys)
    ensures ContainsAll(b, xs) && ContainsAll(b, ys)
  {
    forall i | 0 <= i < |xs|
      ensures Contains(b, xs[i])
    {
      assert xs[i] == (xs + ys)[i];
    }
    forall i | 0 <= i < |ys|
      ensures Contains(b, ys[i])
    {
      assert ys[i] == (xs + ys)[|xs| + i];
    }
  }

  /** The box `h` with each latitude side pushed out by `latMargin` and each
      longitude side by `lonMargin`. */
  function Pad(h: GpsBounds, latMargin: real, lonMargin: real): GpsBounds
  {
    GpsBounds(h.minLat - latMargin, h.maxLat + latMargin, h.minLon - lonMargin, h.maxLon + lonMargin)
  }

  lemma PadKeepsPoints(h: GpsBounds, latMargin: real, lonMargin: real, xs: seq<GpsPoint>, ys: seq<GpsPoint>)
    requires ContainsAll(h, xs + ys) && 0.0 <= latMargin && 0.0 <= lonMargin
    ensures ContainsAll(Pad(h, latMargin, lonMargin), xs) && ContainsAll(Pad(h, latMargin, lonMargin), ys)
  {
    var b := Pad(h, latMargin, lonMargin);
    assert ContainsAll(b, xs + ys) by {
      forall i | 0 <= i < |xs + ys|
        ensures Contains(b, (xs + ys)[i])
      {
        assert Contains(h, (xs + ys)[i]);
      }
    }
    ContainsBothHalves(b, xs, ys);
  }

  /** The frame as the program computes it: fails on an empty union of
      the two lists; otherwise the hull of the union with each side pushed
      out by a tenth of that axis' range. */
  function ComputeBounds(full: seq<GpsPoint>, filtered: seq<GpsPoint>): (r: Result<GpsBounds, BoundsError>)
    ensures r.Failure? <==> |full| + |filtered| == 0
    ensures r.Success? ==> WellFormed(r.value) && ContainsAll(r.value, full) && ContainsAll(r.value, filtered)
    ensures r.Success? ==>
              var h := Hull(full + filtered);
              && h.minLat - r.value.minLat == r.value.maxLat - h.maxLat == MarginFraction * (h.maxLat - h.minLat)
              && h.minLon - r.value.minLon == r.value.maxLon - h.maxLon == MarginFraction * (h.maxLon - h.minLon)
  {
    var all := full + filtered;
    if |all| == 0 then Failure(NoPoints)
    else
      var h := Hull(all);
      var latMargin := (h.maxLat - h.minLat) * MarginFraction;
      var lonMargin := (h.maxLon - h.minLon) * MarginFraction;
      PadKeepsPoints(h, latMargin, lonMargin, full, filtered);
      Success(Pad(h, latMargin, lonMargin))
  }

  /** When every point shares one latitude, the margin is zero too and the
      frame has no height: projecting into it divides by zero. */
  lemma ZeroRangeGivesZeroExtent(full: seq<GpsPoint>, filtered: seq<GpsPoint>)
    requires |full| + |filtered| > 0
    requires forall p :: p in full + filtered ==> p.latitude == (full + filtered)[0].latitude
    ensures ComputeBounds(full, filtered).Success?
    ensures !HasExtent(ComputeBounds(full, filtered).value)
  {
    var all := full + filtered;
    var h := Hull(all);
    var i0 :| 0 <= i0 < |all| && all[i0].latitude == h.minLat;
    var i1 :| 0 <= i1 < |all| && all[i1].latitude == h.maxLat;
    assert all[i0] in all && all[i1] in all;
  }

  /** One fix yields a zero-size frame. The program never projects into it,
      since a track of one fix is not drawn; the degenerate frame matters
      only for a track of several fixes on one latitude or one longitude. */
  lemma SinglePointBoxIsDegenerate(p: GpsPoint)
    ensures ComputeBounds([p], []) == Success(GpsBounds(p.latitude, p.latitude, p.longitude, p.longitude))
    ensures !HasExtent(ComputeBounds([p], []).value)
  {
    assert [p] + [] == [p];
    assert Latitudes([p]) == [p.latitude];
    assert Longitudes([p]) == [p.longitude];
  }

  /** The padding of one axis in the hardened frame: a tenth of the range,
      as in the program, except on an axis of zero range, which gets
      `MinMargin` instead of nothing. */
  function Padding(range: real): (m: real)
    ensures 0.0 <= range ==> 0.0 < m
    ensures range != 0.0 ==> m == MarginFraction * range
    ensures range == 0.0 ==> m == MinMargin
  {
    if range == 0.0 then MinMargin else range * MarginFraction
  }

  /** The frame with the degenerate case removed: as `ComputeBounds`, but an
      axis whose points all share one value is padded by `MinMargin`, so both
      axes always have a strictly positive extent. */
  function ComputeBoundsHardened(full: seq<GpsPoint>, filtered: seq<GpsPoint>): (r: Result<GpsBounds, BoundsError>)
    ensures r.Failure? <==> |full| + |filtered| == 0
    ensures r.Success? ==> r.value.minLat < r.value.maxLat && r.value.minLon < r.value.maxLon
    ensures r.Success? ==> ContainsAll(r.value, full) && ContainsAll(r.value, filtered)
    ensures r.Success? ==>
              var h := Hull(full + filtered);
              && h.minLat - r.value.minLat == r.value.maxLat - h.maxLat
              && h.minLon - r.value.minLon == r.value.maxLon - h.maxLon
              && (h.minLat != h.maxLat ==> h.minLat - r.value.minLat == MarginFraction * (h.maxLat - h.minLat))
              && (h.minLon != h.maxLon ==> h.minLon - r.value.minLon == MarginFraction * (h.maxLon - h.minLon))
              && (h.minLat == h.maxLat ==> h.minLat - r.value.minLat == MinMargin)
              && (h.minLon == h.maxLon ==> h.minLon - r.value.minLon == MinMargin)
  {
    var all := full + filtered;
    if |all| == 0 then Failure(NoPoints)
    else
      var h := Hull(all);
      var latMargin := Padding(h.maxLat - h.minLat);
      var lonMargin := Padding(h.maxLon - h.minLon);
      PadKeepsPoints(h, latMargin, lonMargin, full, filtered);
      Success(Pad(h, latMargin, lonMargin))
  }

  /** The hardening changes nothing whenever the program's own frame has
      extent on both axes: the two frames differ only where the program's
      frame would make the projection divide by zero. */
  lemma HardenedAgreesWithExtent(full: seq<GpsPoint>, filtered: seq<GpsPoint>)
    requires |full| + |filtered| > 0
    requires HasExtent(ComputeBounds(full, filtered).value)
    ensures ComputeBoundsHardened(full, filtered) == ComputeBounds(full, filtered)
  {
    var h := Hull(full + filtered);
    assert h.maxLat - h.minLat != 0.0 && h.maxLon - h.minLon != 0.0;
    assert Padding(h.maxLat - h.minLat) == (h.maxLat - h.minLat) * MarginFraction;
    assert Padding(h.maxLon - h.minLon) == (h.maxLon - h.minLon) * MarginFraction;
  }
}
