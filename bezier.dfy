/**
 * Smooth rendering of a stroke (static/js/rendering.js): the points are
 * parameterised by cumulative arc length, every pair of neighbours becomes a
 * cubic Bézier segment whose control points follow the Catmull-Rom rule, and
 * the chain of segments is sampled at evenly spaced arc lengths.
 *
 * `Math.hypot` is a parameter: any function that is non-negative and zero
 * exactly for the zero vector, as the Euclidean norm is over the reals.
 */
module Bezier {
  import opened Geometry

  type Hypot = (real, real) -> real

  /** What the model needs of `Math.hypot`. */
  ghost predicate IsDistance(hypot: Hypot) {
    forall dx: real, dy: real :: hypot(dx, dy) >= 0.0 && (hypot(dx, dy) == 0.0 <==> dx == 0.0 && dy == 0.0)
  }

  /** The distance from point `k - 1` to point `k`. */
  function StepLength(points: Stroke, k: nat, hypot: Hypot): real
    requires 0 < k < |points|
  {
    hypot(points[k].x - points[k - 1].x, points[k].y - points[k - 1].y)
  }

  // ---------------------------------------------------------------------------
  // computeArcLengthParam
  // ---------------------------------------------------------------------------

  /** The cumulative arc length at every point; `[0]` for no points at all. */
  function ArcLengths(points: Stroke, hypot: Hypot): (t: seq<real>)
    ensures |t| == if points == [] then 1 else |points|
    ensures t[0] == 0.0
    ensures forall k {:trigger StepLength(points, k, hypot)} :: 0 < k < |points| ==> t[k] == t[k - 1] + StepLength(points, k, hypot)
  {
    if |points| <= 1 then [0.0]
    else
      var init := points[..|points| - 1];
      var prev := ArcLengths(init, hypot);
      assert forall k :: 0 < k < |init| ==> StepLength(init, k, hypot) == StepLength(points, k, hypot);
      prev + [Last(prev) + StepLength(points, |points| - 1, hypot)]
  }

  /** The arc lengths never decrease. */
  lemma {:induction false} ArcLengthsMonotone(points: Stroke, hypot: Hypot, i: nat, j: nat)
    requires IsDistance(hypot)
    requires i <= j < |ArcLengths(points, hypot)|
    ensures ArcLengths(points, hypot)[i] <= ArcLengths(points, hypot)[j]
    decreases j - i
  {
    if i < j {
      ArcLengthsMonotone(points, hypot, i + 1, j);
      assert StepLength(points, i + 1, hypot) >= 0.0;
    }
  }

  /** Where the arc length stands still, the points coincide. */
  lemma {:induction false} ArcLengthsFlat(points: Stroke, hypot: Hypot, i: nat, j: nat)
    requires IsDistance(hypot)
    requires i <= j < |points|
    requires ArcLengths(points, hypot)[i] == ArcLengths(points, hypot)[j]
    ensures points[i] == points[j]
    decreases j - i
  {
    if i < j {
      var t := ArcLengths(points, hypot);
      ArcLengthsMonotone(points, hypot, i + 1, j);
      var d := StepLength(points, i + 1, hypot);
      assert d >= 0.0 && t[i + 1] == t[i] + d;
      assert d == 0.0;
      ArcLengthsFlat(points, hypot, i + 1, j);
    }
  }

  /** A path of total length zero is one point repeated. */
  lemma ZeroLengthIsOnePoint(points: Stroke, hypot: Hypot)
    requires IsDistance(hypot)
    requires points != [] && Last(ArcLengths(points, hypot)) == 0.0
    ensures forall k :: 0 <= k < |points| ==> points[k] == points[0]
  {
    forall k | 0 <= k < |points|
      ensures points[k] == points[0]
    {
      ZeroLengthPoint(points, hypot, k);
    }
  }

  lemma ZeroLengthPoint(points: Stroke, hypot: Hypot, k: nat)
    requires IsDistance(hypot)
    requires k < |points| && Last(ArcLengths(points, hypot)) == 0.0
    ensures points[k] == points[0]
  {
    var t := ArcLengths(points, hypot);
    var n := |points|;
    assert t[n - 1] == 0.0;
    ArcLengthsMonotone(points, hypot, 0, k);
    assert 0.0 <= t[k];
    ArcLengthsMonotone(points, hypot, k, n - 1);
    assert t[k] <= 0.0;
    ArcLengthsFlat(points, hypot, 0, k);
  }

  /** `computeArcLengthParam(points)`: the push loop. */
  method ComputeArcLengthParam(points: Stroke, hypot: Hypot) returns (t: seq<real>)
    ensures t == ArcLengths(points, hypot)
  {
    t := [0.0];
    if points == [] {
      return;
    }
    var i := 1;
    while i < |points|
      invariant 1 <= i <= |points|
      invariant t == ArcLengths(points[..i], hypot)
    {
      assert points[..i + 1][..i] == points[..i];
      var dx := points[i].x - points[i - 1].x;
      var dy := points[i].y - points[i - 1].y;
      t := t + [t[i - 1] + hypot(dx, dy)];
      i := i + 1;
    }
    assert points[..i] == points;
  }

  // ---------------------------------------------------------------------------
  // catmullRomToBezier
  // ---------------------------------------------------------------------------

  /** One cubic piece with its parameter interval `[t1, t2]`. */
  datatype Segment = Segment(t1: real, t2: real, p0: Point, cp1: Point, cp2: Point, p3: Point)

  function Sixth(p: Point): Point {
    Point(p.x / 6.0, p.y / 6.0)
  }

  /** Segment `i`: from `points[i]` to `points[i + 1]`, neighbours clamped to the ends. */
  function CatmullSegment(points: Stroke, t: seq<real>, i: nat): Segment
    requires i + 1 < |points| <= |t|
  {
    var q0 := points[if i >= 1 then i - 1 else 0];
    var q1 := points[i];
    var q2 := points[i + 1];
    var q3 := points[if i + 2 <= |points| - 1 then i + 2 else |points| - 1];
    Segment(t[i], t[i + 1], q1, Add(q1, Sixth(Sub(q2, q0))), Sub(q2, Sixth(Sub(q3, q1))), q2)
  }

  function CatmullSegments(points: Stroke, t: seq<real>): (segs: seq<Segment>)
    requires |points| <= |t|
    ensures |segs| == if points == [] then 0 else |points| - 1
  {
    if points == [] then []
    else seq(|points| - 1, i requires 0 <= i < |points| - 1 => CatmullSegment(points, t, i))
  }

  /** `catmullRomToBezier(points, t)`: one segment pushed per pair of neighbours. */
  method CatmullRomToBezier(points: Stroke, t: seq<real>) returns (segs: seq<Segment>)
    requires |points| <= |t|
    ensures segs == CatmullSegments(points, t)
  {
    segs := [];
    if points == [] {
      return;
    }
    for i := 0 to |points| - 1
      invariant |segs| == i
      invariant forall k :: 0 <= k < i ==> segs[k] == CatmullSegment(points, t, k)
    {
      var p0 := points[if i - 1 >= 0 then i - 1 else 0];
      var p1 := points[i];
      var p2 := points[i + 1];
      var p3 := points[if i + 2 <= |points| - 1 then i + 2 else |points| - 1];
      var cp1 := Point(p1.x + (p2.x - p0.x) / 6.0, p1.y + (p2.y - p0.y) / 6.0);
      var cp2 := Point(p2.x - (p3.x - p1.x) / 6.0, p2.y - (p3.y - p1.y) / 6.0);
      segs := segs + [Segment(t[i], t[i + 1], p1, cp1, cp2, p2)];
    }
  }

  /**
   * The segments form one path: segment `i` runs from `points[i]` to
   * `points[i + 1]` over `[t[i], t[i + 1]]`, so each one starts where the
   * previous one ended, at the parameter where it ended.
   */
  lemma SegmentsChain(points: Stroke, t: seq<real>, i: nat)
    requires |points| <= |t|
    requires i < |CatmullSegments(points, t)|
    ensures var s := CatmullSegments(points, t)[i];
      s.p0 == points[i] && s.p3 == points[i + 1] && s.t1 == t[i] && s.t2 == t[i + 1]
    ensures i + 1 < |CatmullSegments(points, t)| ==>
      CatmullSegments(points, t)[i].p3 == CatmullSegments(points, t)[i + 1].p0 &&
      CatmullSegments(points, t)[i].t2 == CatmullSegments(points, t)[i + 1].t1
  {
  }

  /**
   * The Catmull-Rom rule makes the joint smooth: the direction a segment
   * arrives with (p3 - cp2) is the one the next segment leaves with (cp1 - p0),
   * a sixth of the chord between the joint's two neighbours.
   */
  lemma TangentsMatchAtJoints(points: Stroke, t: seq<real>, i: nat)
    requires |points| <= |t|
    requires i + 1 < |CatmullSegments(points, t)|
    ensures var a, b := CatmullSegments(points, t)[i], CatmullSegments(points, t)[i + 1];
      Sub(a.p3, a.cp2) == Sub(b.cp1, b.p0) == Sixth(Sub(points[i + 2], points[i]))
  {
    var a, b := CatmullSegments(points, t)[i], CatmullSegments(points, t)[i + 1];
    assert a == CatmullSegment(points, t, i);
    assert b == CatmullSegment(points, t, i + 1);
  }

  /** At the two ends the missing neighbour is the end point itself. */
  lemma EndTangents(points: Stroke, t: seq<real>)
    requires 2 <= |points| <= |t|
    ensures var segs := CatmullSegments(points, t);
      && Sub(segs[0].cp1, segs[0].p0) == Sixth(Sub(points[1], points[0]))
      && Sub(Last(segs).p3, Last(segs).cp2) == Sixth(Sub(Last(points), points[|points| - 2]))
  {
    var segs := CatmullSegments(points, t);
    assert segs[0] == CatmullSegment(points, t, 0);
    assert Last(segs) == CatmullSegment(points, t, |points| - 2);
  }

  // ---------------------------------------------------------------------------
  // evaluateCubicBezierSegment and sampleBezierSegments
  // ---------------------------------------------------------------------------

  /** The cubic Bernstein weights `(1-t)^3, 3(1-t)^2 t, 3(1-t) t^2, t^3`. */
  datatype Weights = Weights(w0: real, w1: real, w2: real, w3: real)

  function Bernstein(t: real): (w: Weights)
    ensures t == 0.0 ==> w == Weights(1.0, 0.0, 0.0, 0.0)
    ensures t == 1.0 ==> w == Weights(0.0, 0.0, 0.0, 1.0)
  {
    var u := 1.0 - t;
    Weights(u * u * u, 3.0 * u * u * t, 3.0 * u * t * t, t * t * t)
  }

  function Blend(w: Weights, a: real, b: real, c: real, e: real): real {
    w.w0 * a + w.w1 * b + w.w2 * c + w.w3 * e
  }

  /** `evaluateCubicBezierSegment(p0, cp1, cp2, p3, t)`. */
  function EvaluateCubic(p0: Point, cp1: Point, cp2: Point, p3: Point, t: real): (r: Point)
    ensures t == 0.0 ==> r == p0
    ensures t == 1.0 ==> r == p3
  {
    var w := Bernstein(t);
    Point(Blend(w, p0.x, cp1.x, cp2.x, p3.x), Blend(w, p0.y, cp1.y, cp2.y, p3.y))
  }

  /** The four Bernstein weights always add up to one. */
  lemma BernsteinSum(t: real)
    ensures var w := Bernstein(t); w.w0 + w.w1 + w.w2 + w.w3 == 1.0
  {
    var u := 1.0 - t;
    calc {
      u * u * u + 3.0 * u * u * t + 3.0 * u * t * t + t * t * t;
      (u + t) * (u + t) * (u + t);
      { assert u + t == 1.0; }
      1.0;
    }
  }

  /** Weights adding up to one blend shifted values into the shifted blend. */
  lemma BlendShift(w: Weights, a: real, b: real, c: real, e: real, d: real)
    requires w.w0 + w.w1 + w.w2 + w.w3 == 1.0
    ensures Blend(w, a + d, b + d, c + d, e + d) == Blend(w, a, b, c, e) + d
  {
    assert w.w0 * (a + d) == w.w0 * a + w.w0 * d;
    assert w.w1 * (b + d) == w.w1 * b + w.w1 * d;
    assert w.w2 * (c + d) == w.w2 * c + w.w2 * d;
    assert w.w3 * (e + d) == w.w3 * e + w.w3 * d;
    assert w.w0 * d + w.w1 * d + w.w2 * d + w.w3 * d == (w.w0 + w.w1 + w.w2 + w.w3) * d;
  }

  /** Moving the four control points moves every point of the curve by the same vector. */
  lemma EvaluateCubicTranslates(p0: Point, cp1: Point, cp2: Point, p3: Point, t: real, d: Point)
    ensures EvaluateCubic(Add(p0, d), Add(cp1, d), Add(cp2, d), Add(p3, d), t) == Add(EvaluateCubic(p0, cp1, cp2, p3, t), d)
  {
    var w := Bernstein(t);
    BernsteinSum(t);
    BlendShift(w, p0.x, cp1.x, cp2.x, p3.x, d.x);
    BlendShift(w, p0.y, cp1.y, cp2.y, p3.y, d.y);
  }

  predicate Contains(s: Segment, ti: real) {
    ti >= s.t1 && ti <= s.t2
  }

  /** `segments.find(...)` from index `j` on: the first segment whose interval holds `ti`. */
  function FindFrom(segs: seq<Segment>, ti: real, j: nat): (k: int)
    requires j <= |segs|
    ensures k == -1 || j <= k < |segs|
    ensures k == -1 ==> forall m :: j <= m < |segs| ==> !Contains(segs[m], ti)
    ensures k != -1 ==> Contains(segs[k], ti) && forall m :: j <= m < k ==> !Contains(segs[m], ti)
    decreases |segs| - j
  {
    if j == |segs| then -1
    else if Contains(segs[j], ti) then j
    else FindFrom(segs, ti, j + 1)
  }

  /** The local parameter inside a segment: 0 for a segment of zero length. */
  function LocalT(s: Segment, ti: real): real {
    if s.t2 - s.t1 == 0.0 then 0.0 else (ti - s.t1) / (s.t2 - s.t1)
  }

  function EvaluateAt(s: Segment, ti: real): Point {
    EvaluateCubic(s.p0, s.cp1, s.cp2, s.p3, LocalT(s, ti))
  }

  /** The body of the `tDense.map` callback. */
  function SampleAt(segs: seq<Segment>, ti: real): Point
    requires segs != []
  {
    var k := FindFrom(segs, ti, 0);
    if k != -1 then EvaluateAt(segs[k], ti)
    else if ti <= segs[0].t1 then segs[0].p0
    else if ti >= Last(segs).t2 then Last(segs).p3
    else EvaluateAt(Last(segs), ti)
  }

  /** `sampleBezierSegments(segments, tDense)`: one point per parameter value, in order. */
  function SampleBezierSegments(segs: seq<Segment>, tDense: seq<real>): (r: seq<Point>)
    requires segs != []
    ensures |r| == |tDense|
    ensures forall i :: 0 <= i < |tDense| ==> r[i] == SampleAt(segs, tDense[i])
  {
    seq(|tDense|, i requires 0 <= i < |tDense| => SampleAt(segs, tDense[i]))
  }

  /** Segments laid end to end over a non-decreasing parameter. */
  ghost predicate Chained(segs: seq<Segment>) {
    && (forall k :: 0 <= k < |segs| ==> segs[k].t1 <= segs[k].t2)
    && (forall k :: 0 <= k < |segs| - 1 ==> segs[k].t2 == segs[k + 1].t1)
  }

  lemma {:induction false} ChainedBounds(segs: seq<Segment>, k: nat)
    requires Chained(segs) && k < |segs|
    ensures segs[0].t1 <= segs[k].t1 && segs[k].t2 <= Last(segs).t2
  {
    if k > 0 {
      ChainedBounds(segs, k - 1);
    }
    ChainedUpper(segs, k);
  }

  lemma {:induction false} ChainedUpper(segs: seq<Segment>, k: nat)
    requires Chained(segs) && k < |segs|
    ensures segs[k].t2 <= Last(segs).t2
    decreases |segs| - k
  {
    if k < |segs| - 1 {
      ChainedUpper(segs, k + 1);
    }
  }

  /**
   * Over chained segments, a value before the first interval gives the first
   * start point, one after the last interval gives the last end point, and one
   * in between falls in a segment at a local parameter in [0, 1].
   */
  lemma SampleOfChained(segs: seq<Segment>, ti: real)
    requires segs != [] && Chained(segs)
    ensures ti < segs[0].t1 ==> SampleAt(segs, ti) == segs[0].p0
    ensures ti > Last(segs).t2 ==> SampleAt(segs, ti) == Last(segs).p3
    ensures segs[0].t1 <= ti <= Last(segs).t2 ==>
      var k := FindFrom(segs, ti, 0);
      && 0 <= k < |segs|
      && SampleAt(segs, ti) == EvaluateAt(segs[k], ti)
      && 0.0 <= LocalT(segs[k], ti) <= 1.0
  {
    var k := FindFrom(segs, ti, 0);
    ChainedBounds(segs, 0);
    if ti < segs[0].t1 || ti > Last(segs).t2 {
      if k != -1 {
        ChainedBounds(segs, k);
      }
    } else {
      if k == -1 {
        ContainedSomewhere(segs, ti, 0);
      }
      LocalTInUnit(segs[k], ti);
    }
  }

  lemma DivisionInUnit(a: real, b: real)
    requires 0.0 <= a <= b && b > 0.0
    ensures 0.0 <= a / b <= 1.0
  {
    var q := a / b;
    assert q * b == a;
  }

  /** Inside its interval a segment's local parameter lies in [0, 1]. */
  lemma LocalTInUnit(s: Segment, ti: real)
    requires Contains(s, ti)
    ensures 0.0 <= LocalT(s, ti) <= 1.0
  {
    if s.t2 - s.t1 != 0.0 {
      DivisionInUnit(ti - s.t1, s.t2 - s.t1);
    }
  }

  /** At the start of its interval a segment gives its start point; at the end of a non-empty interval, its end point. */
  lemma EvaluateAtEnds(s: Segment, ti: real)
    ensures ti == s.t1 ==> EvaluateAt(s, ti) == s.p0
    ensures ti == s.t2 && s.t2 - s.t1 != 0.0 ==> EvaluateAt(s, ti) == s.p3
  {
    if ti == s.t2 && s.t2 - s.t1 != 0.0 {
      var d := s.t2 - s.t1;
      assert ti - s.t1 == d;
      assert d / d == 1.0;
      assert LocalT(s, ti) == 1.0;
    }
  }

  /** A value within the chain's range lies in some segment at or after `j`, given it is past segment `j`'s start. */
  lemma {:induction false} ContainedSomewhere(segs: seq<Segment>, ti: real, j: nat)
    requires Chained(segs) && j < |segs|
    requires segs[j].t1 <= ti <= Last(segs).t2
    ensures FindFrom(segs, ti, j) != -1
    decreases |segs| - j
  {
    if !Contains(segs[j], ti) {
      ContainedSomewhere(segs, ti, j + 1);
    }
  }

  /** Segments built on arc lengths are chained. */
  lemma ArcSegmentsChained(points: Stroke, hypot: Hypot)
    requires IsDistance(hypot)
    ensures Chained(CatmullSegments(points, ArcLengths(points, hypot)))
  {
    var t := ArcLengths(points, hypot);
    var segs := CatmullSegments(points, t);
    forall k | 0 <= k < |segs|
      ensures segs[k].t1 <= segs[k].t2
    {
      ArcLengthsMonotone(points, hypot, k, k + 1);
    }
  }

  /**
   * The sampled curve passes through every input point: sampling at a point's
   * own arc length gives back that point, whichever segment `find` picks.
   */
  lemma SampleHitsKnots(points: Stroke, hypot: Hypot, i: nat)
    requires IsDistance(hypot)
    requires 2 <= |points| && i < |points|
    ensures SampleAt(CatmullSegments(points, ArcLengths(points, hypot)), ArcLengths(points, hypot)[i]) == points[i]
  {
    var t := ArcLengths(points, hypot);
    var segs := CatmullSegments(points, t);
    var ti := t[i];
    // a segment holding t[i] exists: the one ending there, or the one starting there
    var c := if i == 0 then 0 else i - 1;
    ArcLengthsMonotone(points, hypot, c, c + 1);
    if i > 0 {
      assert Contains(segs[i - 1], ti);
    } else {
      assert Contains(segs[0], ti);
    }
    var k := FindFrom(segs, ti, 0);
    assert k != -1 && k <= c;
    var s := segs[k];
    assert s == CatmullSegment(points, t, k);
    EvaluateAtEnds(s, ti);
    if k < i {
      ArcLengthsMonotone(points, hypot, k + 1, i);
      ArcLengthsFlat(points, hypot, k + 1, i);
      if s.t2 - s.t1 == 0.0 {
        ArcLengthsFlat(points, hypot, k, k + 1);
      }
    }
  }

  // ---------------------------------------------------------------------------
  // bezierInterpolate2D_Dense
  // ---------------------------------------------------------------------------

  /** `totalLength * i / (numSamples - 1)` for every i below `numSamples`. */
  function DenseTimes(total: real, numSamples: nat): (ts: seq<real>)
    requires numSamples != 1
    ensures |ts| == numSamples
    ensures numSamples > 0 ==> ts[0] == 0.0 && ts[numSamples - 1] == total
  {
    var ts := seq(numSamples, i requires 0 <= i < numSamples => total * (i as real) / ((numSamples - 1) as real));
    if numSamples > 1 then
      var d := (numSamples - 1) as real;
      assert ts[numSamples - 1] == total * d / d;
      MulDivCancel(total, d);
      ts
    else ts
  }

  lemma MulDivCancel(a: real, d: real)
    requires d != 0.0
    ensures a * d / d == a
  {
  }

  /** `bezierInterpolate2D_Dense(points, numSamples)`. */
  method BezierInterpolate2DDense(points: Stroke, numSamples: nat, hypot: Hypot) returns (dense: seq<Point>)
    requires IsDistance(hypot)
    requires numSamples != 1
    ensures |points| < 2 ==> dense == []
    ensures |points| >= 2 ==> |dense| == numSamples
    ensures |points| >= 2 && Last(ArcLengths(points, hypot)) == 0.0 ==>
      (forall i :: 0 <= i < numSamples ==> dense[i] == points[0]) &&
      (forall k :: 0 <= k < |points| ==> points[k] == points[0])
    ensures |points| >= 2 && Last(ArcLengths(points, hypot)) != 0.0 ==>
      dense == SampleBezierSegments(CatmullSegments(points, ArcLengths(points, hypot)),
                                    DenseTimes(Last(ArcLengths(points, hypot)), numSamples))
    ensures |points| >= 2 && numSamples > 0 ==> dense[0] == points[0] && Last(dense) == Last(points)
  {
    if |points| < 2 {
      return [];
    }
    var t := ComputeArcLengthParam(points, hypot);
    var totalLength := t[|t| - 1];
    if totalLength == 0.0 {
      ZeroLengthIsOnePoint(points, hypot);
      return seq(numSamples, _ => points[0]);
    }
    var tDense := DenseTimes(totalLength, numSamples);
    var segments := CatmullRomToBezier(points, t);
    dense := SampleBezierSegments(segments, tDense);
    if numSamples > 0 {
      SampleHitsKnots(points, hypot, 0);
      SampleHitsKnots(points, hypot, |points| - 1);
    }
  }
}
