/** Geo-to-pixel projection: a point is normalised linearly into the frame
    on both axes, the vertical axis is flipped (pixel rows grow downward,
    latitude grows upward) and the result is scaled to the canvas size. */
module Projection {
  import opened Geo

  datatype Pixel = Pixel(x: real, y: real)

  /** The inverse mapping, from a canvas position back to a GPS fix. */
  function FromPixel(q: Pixel, b: GpsBounds, width: int, height: int): GpsPoint
    requires width != 0 && height != 0
  {
    GpsPoint(b.minLat + (1.0 - q.y / height as real) * (b.maxLat - b.minLat),
             b.minLon + q.x / width as real * (b.maxLon - b.minLon))
  }

  // Small facts of real arithmetic, kept apart so that each proof that
  // needs one sees only linear goals.

  lemma DivSelf(d: real)
    requires d != 0.0
    ensures d / d == 1.0 && 0.0 / d == 0.0
  {
  }

  lemma DivThenMul(a: real, d: real)
    requires d != 0.0
    ensures (a / d) * d == a
  {
  }

  lemma MulThenDiv(n: real, s: real)
    requires s != 0.0
    ensures (n * s) / s == n
  {
  }

  lemma RatioInUnit(a: real, d: real)
    requires 0.0 <= a <= d && 0.0 < d
    ensures 0.0 <= a / d <= 1.0
  {
    DivSelf(d);
    RatioMonotone(0.0, a, d);
    RatioMonotone(a, d, d);
  }

  lemma RatioMonotone(a1: real, a2: real, d: real)
    requires a1 <= a2 && 0.0 < d
    ensures a1 / d <= a2 / d
  {
  }

  lemma ScaleMonotone(n1: real, n2: real, size: real)
    requires n1 <= n2 && 0.0 <= size
    ensures n1 * size <= n2 * size
  {
  }

  lemma ScaleInRange(n: real, size: real)
    requires 0.0 <= n <= 1.0 && 0.0 <= size
    ensures 0.0 <= n * size <= size
  {
    ScaleMonotone(0.0, n, size);
    ScaleMonotone(n, 1.0, size);
  }

  /** The projection of one fix. The frame's top-left corner (highest
      latitude, lowest longitude) lands on pixel (0, 0) and its bottom-right
      corner on (width, height). */
  function ToPixel(p: GpsPoint, b: GpsBounds, width: int, height: int): (r: Pixel)
    requires HasExtent(b)
    ensures p == GpsPoint(b.maxLat, b.minLon) ==> r == Pixel(0.0, 0.0)
    ensures p == GpsPoint(b.minLat, b.maxLon) ==> r == Pixel(width as real, height as real)
  {
    var normX := (p.longitude - b.minLon) / (b.maxLon - b.minLon);
    var normY := 1.0 - (p.latitude - b.minLat) / (b.maxLat - b.minLat);
    DivSelf(b.maxLat - b.minLat);
    DivSelf(b.maxLon - b.minLon);
    Pixel(normX * width as real, normY * height as real)
  }

  /** On a canvas of non-zero size, `FromPixel` recovers the projected fix. */
  lemma GeoRoundTrip(p: GpsPoint, b: GpsBounds, width: int, height: int)
    requires HasExtent(b) && width != 0 && height != 0
    ensures FromPixel(ToPixel(p, b, width, height), b, width, height) == p
  {
    var dLat := b.maxLat - b.minLat;
    var dLon := b.maxLon - b.minLon;
    var normX := (p.longitude - b.minLon) / dLon;
    var latRatio := (p.latitude - b.minLat) / dLat;
    var r := ToPixel(p, b, width, height);
    assert r == Pixel(normX * width as real, (1.0 - latRatio) * height as real);
    MulThenDiv(normX, width as real);
    MulThenDiv(1.0 - latRatio, height as real);
    DivThenMul(p.longitude - b.minLon, dLon);
    DivThenMul(p.latitude - b.minLat, dLat);
    var q := FromPixel(r, b, width, height);
    assert q.longitude == b.minLon + normX * dLon;
    assert q.latitude == b.minLat + latRatio * dLat;
  }

  lemma UnitScale(a: real, d: real, size: real)
    requires 0.0 <= a <= d && 0.0 < d && 0.0 <= size
    ensures 0.0 <= (a / d) * size <= size
    ensures 0.0 <= (1.0 - a / d) * size <= size
  {
    RatioInUnit(a, d);
    ScaleInRange(a / d, size);
    ScaleInRange(1.0 - a / d, size);
  }

  /** A fix inside a well-formed frame lands on the canvas. */
  lemma InsideFrameLandsOnCanvas(p: GpsPoint, b: GpsBounds, width: int, height: int)
    requires HasExtent(b) && WellFormed(b) && Contains(b, p) && 0 <= width && 0 <= height
    ensures var r := ToPixel(p, b, width, height);
            0.0 <= r.x <= width as real && 0.0 <= r.y <= height as real
  {
    UnitScale(p.longitude - b.minLon, b.maxLon - b.minLon, width as real);
    UnitScale(p.latitude - b.minLat, b.maxLat - b.minLat, height as real);
  }

  /** The other direction of the round trip: projecting the fix that
      `FromPixel` recovers gives back the same pixel. */
  lemma PixelRoundTrip(q: Pixel, b: GpsBounds, width: int, height: int)
    requires HasExtent(b) && width != 0 && height != 0
    ensures ToPixel(FromPixel(q, b, width, height), b, width, height) == q
  {
    var dLat := b.maxLat - b.minLat;
    var dLon := b.maxLon - b.minLon;
    var p := FromPixel(q, b, width, height);
    var sx := q.x / width as real;
    var sy := 1.0 - q.y / height as real;
    assert p.longitude - b.minLon == sx * dLon;
    assert p.latitude - b.minLat == sy * dLat;
    MulThenDiv(sx, dLon);
    MulThenDiv(sy, dLat);
    DivThenMul(q.x, width as real);
    DivThenMul(q.y, height as real);
    assert ToPixel(p, b, width, height) == Pixel(sx * width as real, (1.0 - sy) * height as real);
  }

  /** A higher latitude never gives a larger row, and a larger longitude
      never gives a smaller column, on a non-negative canvas. */
  lemma ProjectionMonotone(p1: GpsPoint, p2: GpsPoint, b: GpsBounds, width: int, height: int)
    requires HasExtent(b) && WellFormed(b) && 0 <= width && 0 <= height
    ensures p1.latitude <= p2.latitude ==> ToPixel(p2, b, width, height).y <= ToPixel(p1, b, width, height).y
    ensures p1.longitude <= p2.longitude ==> ToPixel(p1, b, width, height).x <= ToPixel(p2, b, width, height).x
  {
    var dLat := b.maxLat - b.minLat;
    var dLon := b.maxLon - b.minLon;
    var y1 := 1.0 - (p1.latitude - b.minLat) / dLat;
    var y2 := 1.0 - (p2.latitude - b.minLat) / dLat;
    var x1 := (p1.longitude - b.minLon) / dLon;
    var x2 := (p2.longitude - b.minLon) / dLon;
    assert ToPixel(p1, b, width, height) == Pixel(x1 * width as real, y1 * height as real);
    assert ToPixel(p2, b, width, height) == Pixel(x2 * width as real, y2 * height as real);
    if p1.latitude <= p2.latitude {
      RatioMonotone(p1.latitude - b.minLat, p2.latitude - b.minLat, dLat);
      ScaleMonotone(y2, y1, height as real);
    }
    if p1.longitude <= p2.longitude {
      RatioMonotone(p1.longitude - b.minLon, p2.longitude - b.minLon, dLon);
      ScaleMonotone(x1, x2, width as real);
    }
  }
}
