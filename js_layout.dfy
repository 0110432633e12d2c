/**
 * The offset arithmetic of `generateSplines` (static/js/writer-scripts.js):
 * the browser lays every line out without wrapping, places each word after
 * the rightmost point so far, and stacks lines so that the lowest point of one
 * line is one line spacing above the highest point of the next.
 */
module JsLayout {
  import opened Wrappers
  import opened Geometry
  import Layout

  const ScalingFactor: real := 6.0
  const SpaceBetweenWords: real := 0.2 * ScalingFactor
  const LineSpacing: real := 0.2 * ScalingFactor

  /** A merged word: its strokes, the first of which fixes the word's left edge. */
  type Word = seq<Stroke>

  /** The x coordinates of all points, stroke after stroke. */
  function AllXs(strokes: seq<Stroke>): seq<real> {
    if strokes == [] then []
    else AllXs(strokes[..|strokes| - 1]) + seq(|Last(strokes)|, i requires 0 <= i < |Last(strokes)| => Last(strokes)[i].x)
  }

  /** The y coordinates of all points, stroke after stroke. */
  function AllYs(strokes: seq<Stroke>): seq<real> {
    if strokes == [] then []
    else AllYs(strokes[..|strokes| - 1]) + seq(|Last(strokes)|, i requires 0 <= i < |Last(strokes)| => Last(strokes)[i].y)
  }

  /** The smallest scaled x of the word's first stroke (`xmin`). */
  function FirstStrokeMin(word: Word): real
    requires WellFormed(word)
  {
    Layout.MinOf(seq(|word[0]|, i requires 0 <= i < |word[0]| => word[0][i].x * ScalingFactor))
  }

  /** A stroke scaled by the scaling factor, moved left by `xmin` and by `shift`. */
  function Shifted(s: Stroke, xmin: real, shift: Point): (r: Stroke)
    ensures |r| == |s|
  {
    seq(|s|, i requires 0 <= i < |s| => Point(s[i].x * ScalingFactor - xmin + shift.x, s[i].y * ScalingFactor + shift.y))
  }

  /** A single-point first stroke is a word's entry dot and is not drawn. */
  predicate Plotted(word: Word, j: nat)
    requires j < |word|
  {
    !(j == 0 && |word[j]| == 1)
  }

  /** The running state of a line: strokes to plot, `lineXPos`, `currentShift`. */
  datatype LineState = LineState(strokes: seq<Stroke>, lineX: real, shift: Point)

  /** The state after the first `j` strokes of `word`. */
  function StrokesUpTo(word: Word, st: LineState, j: nat): LineState
    requires WellFormed(word) && j <= |word|
  {
    if j == 0 then st
    else
      var prev := StrokesUpTo(word, st, j - 1);
      if !Plotted(word, j - 1) then prev
      else
        var sh := Shifted(word[j - 1], FirstStrokeMin(word), st.shift);
        LineState(prev.strokes + [sh], Layout.Max(prev.lineX, Layout.MaxOf(AllXs([sh]))), prev.shift)
  }

  /** One word of the line: its strokes, then the shift moves past the rightmost point. */
  function PlaceWord(st: LineState, word: Word): LineState
    requires WellFormed(word)
  {
    var s := StrokesUpTo(word, st, |word|);
    LineState(s.strokes, s.lineX, Point(s.lineX + SpaceBetweenWords, 0.0))
  }

  predicate AllWellFormed(line: seq<Word>) {
    forall w :: 0 <= w < |line| ==> WellFormed(line[w])
  }

  /** The state after the first `n` words of a line. */
  function PlaceWords(line: seq<Word>, n: nat): LineState
    requires n <= |line| && forall w :: 0 <= w < n ==> WellFormed(line[w])
  {
    if n == 0 then LineState([], 0.0, Point(0.0, 0.0))
    else PlaceWord(PlaceWords(line, n - 1), line[n - 1])
  }

  /** The strokes a line plots, before the vertical offset. */
  function LineStrokes(line: seq<Word>): seq<Stroke>
    requires AllWellFormed(line)
  {
    PlaceWords(line, |line|).strokes
  }

  lemma AllXsAppend(strokes: seq<Stroke>, s: Stroke)
    ensures AllXs(strokes + [s]) == AllXs(strokes) + AllXs([s])
    ensures AllYs(strokes + [s]) == AllYs(strokes) + AllYs([s])
  {
    assert (strokes + [s])[..|strokes|] == strokes;
    assert [s][..0] == [];
  }

  /** What a line keeps true: `lineXPos` is 0 or the rightmost plotted x, and every plotted stroke has points. */
  ghost predicate RightEdge(st: LineState) {
    st.lineX >= 0.0 && (st.lineX == 0.0 || st.lineX in AllXs(st.strokes)) &&
    (forall x :: x in AllXs(st.strokes) ==> x <= st.lineX) &&
    (forall k :: 0 <= k < |st.strokes| ==> st.strokes[k] != [])
  }

  lemma {:induction false} StrokesUpToKeepsEdge(word: Word, st: LineState, j: nat)
    requires WellFormed(word) && j <= |word| && RightEdge(st)
    ensures RightEdge(StrokesUpTo(word, st, j))
    ensures StrokesUpTo(word, st, j).shift == st.shift
  {
    if j > 0 {
      StrokesUpToKeepsEdge(word, st, j - 1);
      var prev := StrokesUpTo(word, st, j - 1);
      if Plotted(word, j - 1) {
        var sh := Shifted(word[j - 1], FirstStrokeMin(word), st.shift);
        AddStrokeKeepsEdge(prev, sh);
      }
    }
  }

  /** Plotting one more stroke with points keeps the right edge. */
  lemma AddStrokeKeepsEdge(prev: LineState, sh: Stroke)
    requires RightEdge(prev) && sh != []
    ensures RightEdge(LineState(prev.strokes + [sh], Layout.Max(prev.lineX, Layout.MaxOf(AllXs([sh]))), prev.shift))
  {
    AllXsAppend(prev.strokes, sh);
    assert AllXs([sh]) != [] by {
      assert [sh][..0] == [];
    }
  }

  /** The first stroke of a word, as shifted, starts exactly at `currentShift`. */
  lemma FirstStrokeStartsAtShift(word: Word, shift: Point)
    requires WellFormed(word)
    ensures var sh := Shifted(word[0], FirstStrokeMin(word), shift);
      (forall i :: 0 <= i < |sh| ==> sh[i].x >= shift.x) && (exists i :: 0 <= i < |sh| && sh[i].x == shift.x)
  {
    var xs := seq(|word[0]|, i requires 0 <= i < |word[0]| => word[0][i].x * ScalingFactor);
    var m := FirstStrokeMin(word);
    var i :| 0 <= i < |xs| && xs[i] == m;
    assert Shifted(word[0], m, shift)[i].x == shift.x;
    forall j | 0 <= j < |xs|
      ensures Shifted(word[0], m, shift)[j].x >= shift.x
    {
      assert xs[j] in xs;
    }
  }

  /**
   * Word placement in a line: the first word's first stroke starts at x = 0,
   * and every later word's first stroke starts one word space right of
   * `lineXPos`, which is the rightmost x plotted so far (or 0).
   */
  lemma {:induction false} WordStartsAfterRightEdge(line: seq<Word>, w: nat)
    requires AllWellFormed(line) && w <= |line|
    ensures var st := PlaceWords(line, w);
      RightEdge(st) && st.shift.y == 0.0 &&
      st.shift.x == if w == 0 then 0.0 else st.lineX + SpaceBetweenWords
  {
    if w > 0 {
      WordStartsAfterRightEdge(line, w - 1);
      StrokesUpToKeepsEdge(line[w - 1], PlaceWords(line, w - 1), |line[w - 1]|);
    } else {
      assert AllXs([]) == [];
    }
  }

  /** Every stroke a line plots has points. */
  lemma LineStrokesNonEmpty(line: seq<Word>)
    requires AllWellFormed(line)
    ensures forall k :: 0 <= k < |LineStrokes(line)| ==> LineStrokes(line)[k] != []
    ensures LineStrokes(line) != [] ==> AllYs(LineStrokes(line)) != []
  {
    WordStartsAfterRightEdge(line, |line|);
    var s := LineStrokes(line);
    if s != [] {
      AllXsAppend(s[..|s| - 1], s[|s| - 1]);
      assert s[..|s| - 1] + [s[|s| - 1]] == s;
      assert [s[|s| - 1]][..0] == [];
    }
  }

  /**
   * The inner loops of `generateSplines` for one line: each word's strokes
   * are scaled, moved to `currentShift`, and `lineXPos` tracks the rightmost x.
   * A word without strokes, or with a stroke without points, throws: `word[0]`
   * is undefined, or the last point of an empty stroke is read (`None`).
   */
  method PlotLine(line: seq<Word>) returns (r: Option<seq<Stroke>>)
    ensures r.None? <==> !AllWellFormed(line)
    ensures r.Some? ==> r.value == LineStrokes(line)
  {
    var shift := Point(0.0, 0.0);
    var lineX := 0.0;
    var strokes := [];
    for w := 0 to |line|
      invariant forall v :: 0 <= v < w ==> WellFormed(line[v])
      invariant PlaceWords(line, w) == LineState(strokes, lineX, shift)
    {
      var word := line[w];
      if !WellFormed(word) {
        return None;
      }
      var xmin := FirstStrokeMin(word);
      ghost var st0 := LineState(strokes, lineX, shift);
      for j := 0 to |word|
        invariant StrokesUpTo(word, st0, j) == LineState(strokes, lineX, shift)
      {
        if Plotted(word, j) {
          var sh := Shifted(word[j], xmin, shift);
          var xmax := Layout.MaxOf(AllXs([sh]));
          lineX := Layout.Max(lineX, xmax);
          strokes := strokes + [sh];
        }
      }
      shift := Point(lineX + SpaceBetweenWords, 0.0);
    }
    r := Some(strokes);
  }

  /** A stroke list moved down or up by `dy`. */
  function OffsetY(strokes: seq<Stroke>, dy: real): (r: seq<Stroke>)
    ensures |r| == |strokes|
  {
    seq(|strokes|, k requires 0 <= k < |strokes| =>
      seq(|strokes[k]|, i requires 0 <= i < |strokes[k]| => Point(strokes[k][i].x, strokes[k][i].y + dy)))
  }

  lemma {:induction false} AllYsOffset(strokes: seq<Stroke>, dy: real)
    ensures |AllYs(OffsetY(strokes, dy))| == |AllYs(strokes)|
    ensures forall i :: 0 <= i < |AllYs(strokes)| ==> AllYs(OffsetY(strokes, dy))[i] == AllYs(strokes)[i] + dy
  {
    if strokes != [] {
      var prefix := strokes[..|strokes| - 1];
      AllYsOffset(prefix, dy);
      assert OffsetY(strokes, dy)[..|strokes| - 1] == OffsetY(prefix, dy);
    }
  }

  /** Moving every value by `d` moves the maximum and the minimum by `d`. */
  lemma ExtremaMove(xs: seq<real>, ys: seq<real>, d: real)
    requires xs != [] && |ys| == |xs| && forall i :: 0 <= i < |xs| ==> ys[i] == xs[i] + d
    ensures Layout.MaxOf(ys) == Layout.MaxOf(xs) + d
    ensures Layout.MinOf(ys) == Layout.MinOf(xs) + d
  {
    var mx := Layout.MaxOf(xs);
    var i :| 0 <= i < |xs| && xs[i] == mx;
    assert ys[i] in ys;
    forall y | y in ys
      ensures y <= mx + d
    {
      var j :| 0 <= j < |ys| && ys[j] == y;
      assert xs[j] in xs;
    }
    var mn := Layout.MinOf(xs);
    var k :| 0 <= k < |xs| && xs[k] == mn;
    assert ys[k] in ys;
    forall y | y in ys
      ensures y >= mn + d
    {
      var j :| 0 <= j < |ys| && ys[j] == y;
      assert xs[j] in xs;
    }
  }

  function Highest(strokes: seq<Stroke>): real
    requires AllYs(strokes) != []
  {
    Layout.MaxOf(AllYs(strokes))
  }

  function Lowest(strokes: seq<Stroke>): real
    requires AllYs(strokes) != []
  {
    Layout.MinOf(AllYs(strokes))
  }

  /** The first line holding a word the browser throws on, or the number of lines. */
  function FirstThrowing(lines: seq<seq<Word>>): (k: nat)
    ensures k <= |lines|
    ensures forall j :: 0 <= j < k ==> AllWellFormed(lines[j])
    ensures k < |lines| ==> !AllWellFormed(lines[k])
  {
    if lines == [] then 0
    else if !AllWellFormed(lines[0]) then 0
    else
      var k := FirstThrowing(lines[1..]);
      assert forall j :: 1 <= j < |lines| ==> lines[j] == lines[1..][j - 1];
      1 + k
  }

  /** Every line is well formed and plots at least one point. */
  predicate EveryLinePlots(lines: seq<seq<Word>>) {
    forall k :: 0 <= k < |lines| ==> AllWellFormed(lines[k]) && LineStrokes(lines[k]) != []
  }

  /** Each line before the first one that throws must plot a point; otherwise the browser's extrema are infinite. */
  predicate PlotsAPoint(lines: seq<seq<Word>>) {
    EveryLinePlots(lines[..FirstThrowing(lines)])
  }

  /** The strokes each line plots, before the vertical offset. */
  function AllLineStrokes(lines: seq<seq<Word>>): (ls: seq<seq<Stroke>>)
    requires forall k :: 0 <= k < |lines| ==> AllWellFormed(lines[k])
    ensures |ls| == |lines|
  {
    if lines == [] then [] else AllLineStrokes(lines[..|lines| - 1]) + [LineStrokes(lines[|lines| - 1])]
  }

  lemma {:induction false} AllLineStrokesAt(lines: seq<seq<Word>>, k: nat)
    requires forall j :: 0 <= j < |lines| ==> AllWellFormed(lines[j])
    requires k < |lines|
    ensures AllLineStrokes(lines)[k] == LineStrokes(lines[k])
  {
    if k < |lines| - 1 {
      AllLineStrokesAt(lines[..|lines| - 1], k);
    }
  }

  predicate HasPoints(ls: seq<seq<Stroke>>) {
    forall k :: 0 <= k < |ls| ==> AllYs(ls[k]) != []
  }

  lemma PlottedLinesHavePoints(lines: seq<seq<Word>>)
    requires EveryLinePlots(lines)
    ensures HasPoints(AllLineStrokes(lines))
  {
    forall k | 0 <= k < |lines|
      ensures AllYs(AllLineStrokes(lines)[k]) != []
    {
      LineStrokesNonEmpty(lines[k]);
      AllLineStrokesAt(lines, k);
    }
  }

  /** The baseline of line `k`: the recurrence of `currentVerticalOffset`. */
  function Baseline(ls: seq<seq<Stroke>>, k: nat): real
    requires HasPoints(ls) && k < |ls|
  {
    if k == 0 then -Highest(ls[0])
    else Baseline(ls, k - 1) + Lowest(ls[k - 1]) - LineSpacing - Highest(ls[k])
  }

  /** A stroke list moved by `dy` has its extrema moved by `dy`. */
  lemma PlottedExtrema(strokes: seq<Stroke>, dy: real)
    requires AllYs(strokes) != []
    ensures AllYs(OffsetY(strokes, dy)) != []
    ensures Highest(OffsetY(strokes, dy)) == Highest(strokes) + dy
    ensures Lowest(OffsetY(strokes, dy)) == Lowest(strokes) + dy
  {
    AllYsOffset(strokes, dy);
    ExtremaMove(AllYs(strokes), AllYs(OffsetY(strokes, dy)), dy);
  }

  /**
   * Lines stack with a fixed gap: the first line's highest plotted point is
   * at y = 0, and the lowest plotted point of line `k` is exactly one line
   * spacing above the highest plotted point of line `k + 1`.
   */
  lemma LinesStackWithSpacing(ls: seq<seq<Stroke>>, k: nat)
    requires HasPoints(ls) && k < |ls|
    ensures AllYs(OffsetY(ls[k], Baseline(ls, k))) != []
    ensures k == 0 ==> Highest(OffsetY(ls[0], Baseline(ls, 0))) == 0.0
    ensures k + 1 < |ls| ==>
      AllYs(OffsetY(ls[k + 1], Baseline(ls, k + 1))) != [] &&
      Lowest(OffsetY(ls[k], Baseline(ls, k))) - Highest(OffsetY(ls[k + 1], Baseline(ls, k + 1))) == LineSpacing
  {
    PlottedExtrema(ls[k], Baseline(ls, k));
    if k + 1 < |ls| {
      PlottedExtrema(ls[k + 1], Baseline(ls, k + 1));
    }
  }

  /** `currentVerticalOffset` when line `k` is reached: zero, then one line spacing below the previous line's lowest point. */
  function OffsetBefore(ls: seq<seq<Stroke>>, k: nat): real
    requires HasPoints(ls) && k <= |ls|
  {
    if k == 0 then 0.0 else Baseline(ls, k - 1) + Lowest(ls[k - 1]) - LineSpacing
  }

  /** One turn of the loop over lines moves `currentVerticalOffset` to the next baseline. */
  lemma BaselineStep(ls: seq<seq<Stroke>>, k: nat, offset: real)
    requires HasPoints(ls) && k < |ls|
    requires offset == OffsetBefore(ls, k)
    ensures Baseline(ls, k) == offset - Highest(ls[k])
  {
  }

  /** The baselines of the first `n` lines. */
  function Baselines(ls: seq<seq<Stroke>>, n: nat): (bs: seq<real>)
    requires HasPoints(ls) && n <= |ls|
    ensures |bs| == n
  {
    if n == 0 then [] else Baselines(ls, n - 1) + [Baseline(ls, n - 1)]
  }

  /** The first `n` lines, each moved by its baseline. */
  function OffsetLines(ls: seq<seq<Stroke>>, n: nat): (r: seq<seq<Stroke>>)
    requires HasPoints(ls) && n <= |ls|
    ensures |r| == n
  {
    if n == 0 then [] else OffsetLines(ls, n - 1) + [OffsetY(ls[n - 1], Baseline(ls, n - 1))]
  }

  lemma BaselinesAt(ls: seq<seq<Stroke>>, n: nat, k: nat)
    requires HasPoints(ls) && k < n <= |ls|
    ensures Baselines(ls, n)[k] == Baseline(ls, k)
    ensures OffsetLines(ls, n)[k] == OffsetY(ls[k], Baseline(ls, k))
  {
    PositionAt(ls, n, k);
    OffsetLineAt(ls, n, k);
  }

  lemma {:induction false} PositionAt(ls: seq<seq<Stroke>>, n: nat, k: nat)
    requires HasPoints(ls) && k < n <= |ls|
    ensures Baselines(ls, n)[k] == Baseline(ls, k)
  {
    if k < n - 1 {
      PositionAt(ls, n - 1, k);
    }
  }

  lemma {:induction false} OffsetLineAt(ls: seq<seq<Stroke>>, n: nat, k: nat)
    requires HasPoints(ls) && k < n <= |ls|
    ensures OffsetLines(ls, n)[k] == OffsetY(ls[k], Baseline(ls, k))
  {
    if k < n - 1 {
      OffsetLineAt(ls, n - 1, k);
    }
  }

  lemma PlottedUnfold(ls: seq<seq<Stroke>>, k: nat)
    requires HasPoints(ls) && k < |ls|
    ensures Baselines(ls, k + 1) == Baselines(ls, k) + [Baseline(ls, k)]
    ensures OffsetLines(ls, k + 1) == OffsetLines(ls, k) + [OffsetY(ls[k], Baseline(ls, k))]
  {
  }

  /** The body of the loop over lines: plot one line below `offset`, or throw (`ok` false). */
  method PlotOneLine(line: seq<Word>, offset: real) returns (ok: bool, position: real, plotted: seq<Stroke>, next: real)
    requires AllWellFormed(line) ==> AllYs(LineStrokes(line)) != []
    ensures ok <==> AllWellFormed(line)
    ensures ok ==> position == offset - Highest(LineStrokes(line))
    ensures ok ==> plotted == OffsetY(LineStrokes(line), position)
    ensures ok ==> next == position + Lowest(LineStrokes(line)) - LineSpacing
  {
    var strokes := PlotLine(line);
    if strokes.None? {
      return false, 0.0, [], 0.0;
    }
    var highest := Layout.MaxOf(AllYs(strokes.value));
    var lowest := Layout.MinOf(AllYs(strokes.value));
    ok := true;
    position := offset - highest;
    plotted := OffsetY(strokes.value, position);
    next := position + lowest - LineSpacing;
  }

  /** The loop over lines has plotted the first `k` lines and holds the offset of the next. */
  ghost predicate PlottedSoFar(ls: seq<seq<Stroke>>, k: nat, positions: seq<real>, plotted: seq<seq<Stroke>>, offset: real) {
    HasPoints(ls) && k <= |ls|
    && positions == Baselines(ls, k) && plotted == OffsetLines(ls, k) && offset == OffsetBefore(ls, k)
  }

  /** One turn of the loop over lines plots line `k` on its baseline and moves the offset on to the next. */
  lemma PlotLineAt(ls: seq<seq<Stroke>>, k: nat, positions: seq<real>, plotted: seq<seq<Stroke>>, offset: real,
                   position: real, line: seq<Stroke>, next: real)
    requires PlottedSoFar(ls, k, positions, plotted, offset) && k < |ls|
    requires position == offset - Highest(ls[k]) && line == OffsetY(ls[k], position)
    requires next == position + Lowest(ls[k]) - LineSpacing
    ensures PlottedSoFar(ls, k + 1, positions + [position], plotted + [line], next)
  {
    BaselineStep(ls, k, offset);
    PlottedUnfold(ls, k);
    assert OffsetBefore(ls, k + 1) == Baseline(ls, k) + Lowest(ls[k]) - LineSpacing;
  }

  /** A line up to the first throw that does not throw itself comes before it, and plots a point. */
  lemma LineBeforeThrow(lines: seq<seq<Word>>, k: nat)
    requires PlotsAPoint(lines) && k < |lines| && k <= FirstThrowing(lines)
    ensures AllWellFormed(lines[k]) <==> k < FirstThrowing(lines)
    ensures AllWellFormed(lines[k]) ==>
      lines[..FirstThrowing(lines)][k] == lines[k] && AllYs(LineStrokes(lines[k])) != []
  {
    if AllWellFormed(lines[k]) {
      assert lines[..FirstThrowing(lines)][k] == lines[k];
      LineStrokesNonEmpty(lines[k]);
    }
  }

  /**
   * The loop over lines of `generateSplines`, accumulating
   * `currentVerticalOffset`; `ok` is false when a line throws.
   */
  method PlotLines(lines: seq<seq<Word>>) returns (ok: bool, positions: seq<real>, plotted: seq<seq<Stroke>>)
    requires PlotsAPoint(lines)
    ensures ok <==> FirstThrowing(lines) == |lines|
    ensures ok ==> EveryLinePlots(lines) && HasPoints(AllLineStrokes(lines))
    ensures ok ==> positions == Baselines(AllLineStrokes(lines), |lines|)
    ensures ok ==> plotted == OffsetLines(AllLineStrokes(lines), |lines|)
  {
    ghost var first := FirstThrowing(lines);
    ghost var good := lines[..first];
    ghost var ls := AllLineStrokes(good);
    PlottedLinesHavePoints(good);
    var offset := 0.0;
    positions := [];
    plotted := [];
    for k := 0 to |lines|
      invariant k <= first == |good|
      invariant PlottedSoFar(ls, k, positions, plotted, offset)
    {
      LineBeforeThrow(lines, k);
      var lineOk, position, plottedLine, next := PlotOneLine(lines[k], offset);
      if !lineOk {
        assert first == k < |lines|;
        return false, positions, plotted;
      }
      AllLineStrokesAt(good, k);
      assert ls[k] == LineStrokes(lines[k]);
      PlotLineAt(ls, k, positions, plotted, offset, position, plottedLine, next);
      positions := positions + [position];
      plotted := plotted + [plottedLine];
      offset := next;
    }
    assert good == lines;
    assert PlottedSoFar(ls, |lines|, positions, plotted, offset);
    ok := true;
  }

  datatype Plot = Plot(linePositions: seq<real>, plotted: seq<seq<Stroke>>)

  /**
   * `generateSplines`: every line is plotted moved down by its baseline, and
   * `linePositions` records the baselines. The first line's highest point is
   * at y = 0, and the lowest plotted point of each line is exactly one line
   * spacing above the highest plotted point of the next. It throws (`None`)
   * exactly when some word has no strokes or a stroke without points, as the
   * empty word a dead-end tokenization leaves behind does.
   */
  method GenerateSplines(lines: seq<seq<Word>>) returns (r: Option<Plot>)
    requires PlotsAPoint(lines)
    ensures r.None? <==> exists k, w :: 0 <= k < |lines| && 0 <= w < |lines[k]| && !WellFormed(lines[k][w])
    ensures r.Some? ==> HasPoints(AllLineStrokes(lines))
    ensures r.Some? ==> |r.value.linePositions| == |lines| && |r.value.plotted| == |lines|
    ensures r.Some? ==> forall k :: 0 <= k < |lines| ==> r.value.linePositions[k] == Baseline(AllLineStrokes(lines), k)
    ensures r.Some? ==> forall k :: 0 <= k < |lines| ==> r.value.plotted[k] == OffsetY(AllLineStrokes(lines)[k], r.value.linePositions[k])
    ensures r.Some? ==> forall k :: 0 <= k < |lines| ==> AllYs(r.value.plotted[k]) != []
    ensures r.Some? && |lines| > 0 ==> Highest(r.value.plotted[0]) == 0.0
    ensures r.Some? ==> forall k :: 0 <= k < |lines| - 1 ==> Lowest(r.value.plotted[k]) - Highest(r.value.plotted[k + 1]) == LineSpacing
  {
    var ok, positions, plotted := PlotLines(lines);
    if !ok {
      var k := FirstThrowing(lines);
      assert !AllWellFormed(lines[k]);
      return None;
    }
    ghost var ls := AllLineStrokes(lines);
    forall k | 0 <= k < |lines|
      ensures positions[k] == Baseline(ls, k) && plotted[k] == OffsetY(ls[k], positions[k])
      ensures AllYs(plotted[k]) != []
    {
      BaselinesAt(ls, |lines|, k);
      LinesStackWithSpacing(ls, k);
    }
    forall k | 0 <= k < |lines| - 1
      ensures Lowest(plotted[k]) - Highest(plotted[k + 1]) == LineSpacing
    {
      LinesStackWithSpacing(ls, k);
    }
    if |lines| > 0 {
      LinesStackWithSpacing(ls, 0);
    }
    r := Some(Plot(positions, plotted));
  }
}
