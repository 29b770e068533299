# GPX-by-video filter and track map: a Dafny model

This project models the logic at the centre of a small command-line tool. The tool takes an MP4 video and a GPX track log. It keeps the track points recorded while the video was being shot, and it draws a PNG map that shows the whole track with the kept segment overlaid on it. The model covers five pieces:

- **Time-window filter** (`TimeFilter`). The window is `[creation, creation + duration]`. A point is kept when its `time` element is present, parses, and falls inside that window; both ends count as inside. Every other point is counted as discarded.
- **Coordinate extraction** (`Extraction`). A point yields a GPS fix only when both its `lat` and `lon` attributes are present and both parse. The order of the points is preserved.
- **Map frame** (`Bounds`). The frame is the tight box around the union of the full track and the segment, padded on each side by 10% of that axis' range. An empty union is an error.
- **Projection** (`Projection`). A fix is normalised linearly into the frame, with the vertical axis flipped, and scaled to the canvas size.
- **Polylines** (`Render`). A track is drawn only when it has more than one fix. The path is a move to the first projected fix, then one line to each later projected fix. The full track is drawn first and the segment on top of it.

`Pipeline` ties these pieces together the way the main routine does. The one difference is the degenerate frame described under "Findings". If nothing is kept, the run stops. When no point has a usable fix, the frame computation raises an error. By that point the filtered GPX file has already been written.

Parsing is modelled as a function parameter that returns `Option`. Timestamps are parsed with `DateTime.TryParse` and numbers with `double.TryParse` in the invariant culture. Instants and the video duration are integers counted in one common time unit. Coordinates and pixels are `real` numbers. The program's `float`/`double` rounding is not modelled.

The program draws both tracks on a transparent canvas; it has no basemap.

## Model

| member | source | states |
|---|---|---|
| TimeFilter.WindowFor | Program.cs:77-78 | an instant lies in the window exactly when it is at or after the video's creation instant and at or before creation plus duration; both ends are included |
| TimeFilter.Segment | Program.cs:101-108 | a point is kept exactly when it is one of the track's points and its time is present, parses and lies in the closed window; never more points than were read |
| TimeFilter.Rejected | Program.cs:103-118 | a point is discarded exactly when it is one of the track's points and its time is missing, does not parse, or lies outside the window |
| TimeFilter.KeptPositions | Program.cs:101-108 | the kept indices are strictly increasing, in range, and are exactly the indices whose point passes the filter |
| TimeFilter.SegmentIsSubsequence | Program.cs:101-108 | the k-th kept point is the original point at the k-th kept index, so the segment is a subsequence of the track in the same order |
| TimeFilter.CountConservation | Program.cs:98-119 | kept count plus discarded count equals the number of points read |
| TimeFilter.Partition | Program.cs:98-119 | the kept and discarded points, as multisets, add up to the original points: nothing is lost or duplicated |
| TimeFilter.FilterByTime | Program.cs:97-119 | the loop yields exactly the kept segment and the discarded count; the two add up to the number of points; every kept point has a parsed time inside the window |
| Pipeline.EmptySegment | Program.cs:124-128 | the segment is empty exactly when no point of the track passes the filter |
| Pipeline.NoFixesInSublist | Program.cs:164-165 | when the whole track yields no fix, neither does any list of points taken from it, such as the segment |
| Pipeline.Run | Program.cs:77-167 | the run stops with every point discarded exactly when no point is in the window; it fails in the frame computation exactly when some point is kept but no point of the track has a usable fix; otherwise the report's segment is exactly the filtered segment (non-empty), its discarded count is exactly the number of rejected points and the two add up, and the image is exactly the 1920×1080 rendering of the track's fixes and the segment's fixes, so its frame holds every fix and it has one stroke for each of the two with more than one fix |
| Extraction.ExtractCoordinates | Program.cs:215-235 | never more fixes than points, and no fix at all exactly when no point has both attributes present and parseable |
| Extraction.CoordinatePositions | Program.cs:219-231 | the indices that yield a fix are strictly increasing, in range, and are exactly those whose `lat` and `lon` are present and parse |
| Extraction.ExtractionFollowsPositions | Program.cs:219-234 | the k-th fix is the coordinate of the k-th point that has one, so the output holds exactly those points' fixes in input order |
| Bounds.Hull | Program.cs:244-247 | the per-axis minimum and maximum form a well-formed box that holds every point, and each of its four sides passes through a point |
| Bounds.HullIsLeast | Program.cs:244-247 | every box that holds all the points contains the hull |
| Bounds.ComputeBounds | Program.cs:237-259 | fails exactly when both lists are empty; otherwise returns a well-formed box that holds every point of both lists, each side pushed out from the hull by exactly 0.1 of that axis' range |
| Bounds.ZeroRangeGivesZeroExtent | Program.cs:249-258 | when all points share one latitude, the frame has zero extent, so the projection is undefined on it |
| Bounds.SinglePointBoxIsDegenerate | Program.cs:237-259 | a single fix gives the zero-size box at that fix (a track of one fix is not drawn, so nothing is projected into it) |
| Bounds.ComputeBoundsHardened | Program.cs:249-258 | the corrected frame: it fails exactly when both lists are empty; otherwise it has strictly positive extent on both axes and holds every point; each axis is padded symmetrically by a tenth of its range, as in the program, or by the minimum margin when that range is zero |
| Bounds.HardenedAgreesWithExtent | Program.cs:249-258 | whenever the program's frame has extent on both axes, the corrected frame equals it: the two differ only where the program would divide by zero |
| Projection.ToPixel | Program.cs:261-275 | maps the frame's top-left corner (max latitude, min longitude) to (0, 0) and its bottom-right corner (min latitude, max longitude) to (width, height) |
| Projection.GeoRoundTrip | Program.cs:263-272 | on a canvas of non-zero size, the inverse mapping recovers every projected fix, so no two fixes share a pixel |
| Projection.PixelRoundTrip | Program.cs:263-272 | projecting the fix recovered from a pixel gives back that pixel, so the projection is a bijection onto the plane |
| Projection.InsideFrameLandsOnCanvas | Program.cs:263-272 | every fix inside a well-formed frame lands within [0, width] × [0, height] |
| Projection.ProjectionMonotone | Program.cs:264-272 | a higher latitude never gives a larger row, and a larger longitude never gives a smaller column |
| Render.Polyline | Program.cs:312-326 | a path exists exactly when the track has more than one fix; it opens with one move and continues with lines only, one command per fix, and its i-th vertex is the projection of the i-th fix |
| Render.TracePolyline | Program.cs:329-343 | the drawing loop (move to the first fix, then a line to each later fix) builds exactly that path |
| Render.PolylineRecoversTrack | Program.cs:314-322 | mapping the drawn vertices back through the inverse projection gives the track's fixes in input order |
| Render.RenderMap | Program.cs:277-343 | fails exactly when neither list has a fix; otherwise the image has the requested size, its frame is exactly the corrected frame of the two lists (positive extent, holding every fix), there is one stroke per track with more than one fix, the full track comes first with width 3 and the segment comes last with width 5 |
| Render.ZeroHeightTrackIsDrawn | Program.cs:249-265 | two fixes on one latitude give the program's frame zero height, yet that track has more than one fix and is drawn, so the program projects into a frame with no height; the corrected frame has positive height there |

## Findings

| source | as written | input that shows it | evidently intended | confidence | as-written member | corrected member |
|---|---|---|---|---|---|---|
| Program.cs:249-258 | the margin is 10% of the axis' range, so an axis whose points share one value gets zero extent, and the projection at Program.cs:264-265 then divides zero by zero (NaN in `double`) | two fixes on latitude 10, e.g. (10, 20) and (10, 21) | every frame has positive extent on both axes, so every fix projects to a finite pixel | high (not executed) | Render.ZeroHeightTrackIsDrawn | Bounds.ComputeBoundsHardened |

The corrected frame pads an axis of zero range by `MinMargin`, which is 0.0001 degrees, on each side; every other axis keeps the program's 10% padding. `Render.RenderMap`, and through it `Pipeline.Run`, uses the corrected frame. Whenever the program's frame has extent on both axes, the corrected frame equals it (`Bounds.HardenedAgreesWithExtent`).

## Left out

- Argument checks, file-existence and extension checks, and output-path building (Program.cs:22-60, 162): operating-system and string-library behaviour.
- Reading the video's duration with TagLib and its creation time from the file system (Program.cs:68-70): foreign libraries. The creation instant and duration are inputs of `Pipeline.Run`.
- Loading the GPX document, finding `trkpt` elements, building and saving the filtered GPX document (Program.cs:88-93, 133-157): XML I/O. Track points are given as already-read attribute and element texts.
- `TimeFilter.WindowFor`: does not model `AddSeconds` rounding a fractional duration to whole milliseconds, nor its out-of-range exception. The duration is an integer in the same unit as the instants.
- Time-zone and `DateTimeKind` handling of `DateTime.TryParse`, and the number syntax accepted by `double.TryParse`: these are the parser parameters, left arbitrary.
- All console output, the help text and the percentage summary (Program.cs:62-198, 365-390): output only.
- The catch-all handler and exit code (Program.cs:200-208): the one exception that the modelled logic raises becomes `Pipeline.RunError.NoCoordinates`.
- Surface creation, paints, the legend text, the snapshot and the PNG encoding (Program.cs:288-310, 345-362): a rendering library. The model stops at the strokes and vertex lists handed to it. Stroke colours are kept as the two `Render.Style` values; each stroke carries its width, 3 or 5.
- The `(float)` cast in the projection, and `double` rounding generally: coordinates are exact reals.
- NaN and infinite coordinates that `double.TryParse` can produce, and their effect on `Min`/`Max`: `real` has no such values.
- Render.RenderMap: uses the corrected frame (see Findings) rather than the program's frame. The two differ only when an axis has zero range; where a track with more than one fix is then drawn, the program's projection divides zero by zero and yields NaN pixels, which the model does not reproduce.
- Pipeline.Run: inherits the same difference from `Render.RenderMap`, and only on tracks whose fixes all share one latitude or one longitude.
