/**
 * The guard in front of the natural cubic spline used by the PDF renderer
 * (`interpolate_spline`) and by the writer page (`interpolatePoints`):
 * a stroke of fewer than two points is returned as its own coordinate
 * arrays. The spline fitted to longer strokes is numerics outside this model.
 */
module Splines {
  import opened Geometry
  import LegacyJoins

  /** Separate x and y arrays, the shape both interpolators return. */
  datatype Coords = Coords(x: seq<real>, y: seq<real>)

  /** What interpolation yields: the raw coordinates, or a spline sampled at `numPoints` parameters. */
  datatype Interpolated = Raw(coords: Coords) | Smoothed(knots: Stroke, numPoints: int)

  function Ys(s: Stroke): (ys: seq<real>)
    ensures |ys| == |s|
    ensures forall i :: 0 <= i < |s| ==> ys[i] == s[i].y
  {
    seq(|s|, i requires 0 <= i < |s| => s[i].y)
  }

  /** `interpolate_spline(points, num_points)` and `interpolatePoints(points, numPoints)`. */
  function InterpolateSpline(points: Stroke, numPoints: int): (r: Interpolated)
    ensures r.Raw? <==> |points| < 2
    ensures r.Smoothed? ==> r.knots == points && r.numPoints == numPoints
  {
    if |points| < 2 then Raw(Coords(LegacyJoins.Xs(points), Ys(points)))
    else Smoothed(points, numPoints)
  }

  /** The points rebuilt from separate coordinate arrays of equal length. */
  function Zip(c: Coords): (s: Stroke)
    requires |c.x| == |c.y|
    ensures |s| == |c.x|
    ensures forall i :: 0 <= i < |s| ==> s[i] == Point(c.x[i], c.y[i])
  {
    seq(|c.x|, i requires 0 <= i < |c.x| => Point(c.x[i], c.y[i]))
  }

  /** A short stroke is passed through untouched: zipping the returned arrays gives the stroke back, whatever `numPoints` is. */
  lemma ShortStrokeKept(points: Stroke, numPoints: int)
    requires |points| < 2
    ensures var r := InterpolateSpline(points, numPoints);
            r.Raw? && |r.coords.x| == |r.coords.y| && Zip(r.coords) == points
  {
    var r := InterpolateSpline(points, numPoints);
    assert forall i :: 0 <= i < |points| ==> Zip(r.coords)[i] == points[i];
  }

  /**
   * The legacy page differs: its `interpolatePoints` answers a one-point
   * stroke with empty arrays, so a lone dot is drawn here and not there.
   */
  lemma OnePointDiffersFromLegacy(p: Point, numPoints: int)
    ensures InterpolateSpline([p], numPoints) == Raw(Coords([p.x], [p.y]))
    ensures LegacyJoins.Interpolate([p]).NoCurve?
  {
    assert LegacyJoins.Xs([p]) == [p.x];
  }
}
