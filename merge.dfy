/**
 * Joining the glyphs of a word into one pen path: `merge_word_splines`
 * (scripts/generate_pdf.py) and `mergeWordSplines` (static/js/writer-scripts.js).
 *
 * Each glyph after the first is moved so that its first point sits where the
 * previous glyph ended; the first glyph of a word keeps its coordinates.
 */
module Merge {
  import opened Wrappers
  import opened Geometry

  /** The strokes of `g` that have points, in order. */
  function NonEmptyStrokes(g: Glyph): (r: seq<Stroke>)
    ensures |r| <= |g|
    ensures forall k :: 0 <= k < |r| ==> r[k] != []
    ensures forall k :: 0 <= k < |r| ==> r[k] in g
    ensures forall s :: s in g && s != [] ==> s in r
  {
    if g == [] then []
    else
      var prefix := NonEmptyStrokes(g[..|g| - 1]);
      assert forall s :: s in g[..|g| - 1] ==> s in g;
      assert forall s :: s in g ==> s in g[..|g| - 1] || s == g[|g| - 1];
      if g[|g| - 1] != [] then prefix + [g[|g| - 1]] else prefix
  }

  /**
   * `NonEmptyStrokes` keeps the order of the strokes it keeps: it drops a
   * lone empty stroke, keeps any other, and distributes over concatenation.
   */
  lemma {:induction false} NonEmptyStrokesConcat(g: Glyph, h: Glyph)
    ensures NonEmptyStrokes(g + h) == NonEmptyStrokes(g) + NonEmptyStrokes(h)
    ensures forall s: Stroke :: NonEmptyStrokes([s]) == if s == [] then [] else [s]
    decreases |h|
  {
    if h == [] {
      assert g + h == g;
    } else {
      assert (g + h)[..|g + h| - 1] == g + h[..|h| - 1];
      NonEmptyStrokesConcat(g, h[..|h| - 1]);
    }
    forall s: Stroke
      ensures NonEmptyStrokes([s]) == if s == [] then [] else [s]
    {
      assert [s][..0] == [];
    }
  }

  /** When no stroke is empty nothing is dropped. */
  lemma {:induction false} NonEmptyStrokesOfWellFormed(g: Glyph)
    requires forall k :: 0 <= k < |g| ==> g[k] != []
    ensures NonEmptyStrokes(g) == g
  {
    if g != [] {
      NonEmptyStrokesOfWellFormed(g[..|g| - 1]);
    }
  }

  /** The point a glyph is normalised to: the first point of its first stroke, or the origin. */
  function FirstPoint(g: Glyph): Point {
    if g != [] && g[0] != [] then g[0][0] else Origin
  }

  /** One cloned spline of glyph `gi`: minus `first` unless `gi` is 0, then plus `shift`. */
  function ShiftStroke(s: Stroke, gi: nat, first: Point, shift: Point): (r: Stroke)
    ensures |r| == |s|
    ensures forall i :: 0 <= i < |s| ==> r[i] == if gi != 0 then Add(Sub(s[i], first), shift) else Add(s[i], shift)
  {
    seq(|s|, i requires 0 <= i < |s| => if gi != 0 then Add(Sub(s[i], first), shift) else Add(s[i], shift))
  }

  function ShiftStrokes(ss: seq<Stroke>, gi: nat, first: Point, shift: Point): (r: seq<Stroke>)
    ensures |r| == |ss|
    ensures forall k :: 0 <= k < |ss| ==> r[k] == ShiftStroke(ss[k], gi, first, shift)
  {
    seq(|ss|, k requires 0 <= k < |ss| => ShiftStroke(ss[k], gi, first, shift))
  }

  /** The one vector by which glyph `gi` is moved. */
  function Offset(gi: nat, first: Point, shift: Point): Point {
    if gi != 0 then Sub(shift, first) else shift
  }

  /** Shifting moves every stroke of the glyph by the same vector, so lengths and point differences are kept. */
  lemma ShiftIsTranslation(ss: seq<Stroke>, gi: nat, first: Point, shift: Point)
    ensures ShiftStrokes(ss, gi, first, shift) == TranslateAll(ss, Offset(gi, first, shift))
  {
    forall k | 0 <= k < |ss|
      ensures ShiftStroke(ss[k], gi, first, shift) == Translate(ss[k], Offset(gi, first, shift))
    {
    }
  }

  datatype MergeState = MergeState(strokes: seq<Stroke>, shift: Point)

  /** The body of the glyph loop for glyph `g` at index `gi`. */
  function StepGlyph(st: MergeState, g: Glyph, gi: nat): MergeState {
    if g == [] then st
    else
      var out := st.strokes + ShiftStrokes(NonEmptyStrokes(g), gi, FirstPoint(g), st.shift);
      MergeState(out, if out != [] && Last(out) != [] then Last(Last(out)) else st.shift)
  }

  /** The state after the first `n` glyphs of `word`. */
  function MergeUpTo(word: seq<Glyph>, n: nat): MergeState
    requires n <= |word|
  {
    if n == 0 then MergeState([], Origin) else StepGlyph(MergeUpTo(word, n - 1), word[n - 1], n - 1)
  }

  function MergeWord(word: seq<Glyph>): seq<Stroke> {
    MergeUpTo(word, |word|).strokes
  }

  /** The merged strokes of glyph `gi` of `word`, with the strokes before them. */
  function Before(word: seq<Glyph>, gi: nat): seq<Stroke>
    requires gi <= |word|
  {
    MergeUpTo(word, gi).strokes
  }

  /** No merged stroke is empty, and the shift is the last merged point (the origin before any). */
  lemma {:induction false} MergeStateInvariant(word: seq<Glyph>, n: nat)
    requires n <= |word|
    ensures forall k :: 0 <= k < |Before(word, n)| ==> Before(word, n)[k] != []
    ensures MergeUpTo(word, n).shift == if Before(word, n) == [] then Origin else Last(Last(Before(word, n)))
  {
    if n > 0 {
      MergeStateInvariant(word, n - 1);
    }
  }

  /** Glyph `gi` contributes its non-empty strokes, all moved by one vector, after what came before. */
  lemma GlyphMovesRigidly(word: seq<Glyph>, gi: nat)
    requires gi < |word|
    ensures var g := word[gi];
      Before(word, gi + 1) == Before(word, gi) +
        TranslateAll(NonEmptyStrokes(g), Offset(gi, FirstPoint(g), MergeUpTo(word, gi).shift))
  {
    var g := word[gi];
    ShiftIsTranslation(NonEmptyStrokes(g), gi, FirstPoint(g), MergeUpTo(word, gi).shift);
    if g == [] {
      assert Before(word, gi + 1) == Before(word, gi) + [];
    }
  }

  /** The first glyph of a word keeps its coordinates. */
  lemma FirstGlyphUnmoved(word: seq<Glyph>)
    requires word != []
    ensures Before(word, 1) == NonEmptyStrokes(word[0])
  {
    var ss := NonEmptyStrokes(word[0]);
    forall k | 0 <= k < |ss|
      ensures ShiftStroke(ss[k], 0, FirstPoint(word[0]), Origin) == ss[k]
    {
    }
    assert ShiftStrokes(ss, 0, FirstPoint(word[0]), Origin) == ss;
    assert MergeUpTo(word, 0) == MergeState([], Origin);
    if word[0] == [] {
      assert ss == [];
    } else {
      assert [] + ss == ss;
    }
  }

  /**
   * A later glyph whose first stroke has points is moved so that its first
   * point lands on the last point merged before it (the origin when nothing was).
   */
  lemma LaterGlyphJoins(word: seq<Glyph>, gi: nat)
    requires 0 < gi < |word|
    requires word[gi] != [] && word[gi][0] != []
    ensures forall k :: 0 <= k < |Before(word, gi)| ==> Before(word, gi)[k] != []
    ensures |Before(word, gi + 1)| > |Before(word, gi)|
    ensures Before(word, gi + 1)[|Before(word, gi)|][0] ==
      if Before(word, gi) == [] then Origin else Last(Last(Before(word, gi)))
  {
    var g := word[gi];
    MergeStateInvariant(word, gi);
    assert NonEmptyStrokes(g)[0] == g[0] by {
      NonEmptyStrokesStart(g);
    }
  }

  /** A glyph whose first stroke has points keeps that stroke first. */
  lemma {:induction false} NonEmptyStrokesStart(g: Glyph)
    requires g != [] && g[0] != []
    ensures NonEmptyStrokes(g) != [] && NonEmptyStrokes(g)[0] == g[0]
  {
    if |g| > 1 {
      assert g[..|g| - 1][0] == g[0];
      NonEmptyStrokesStart(g[..|g| - 1]);
    }
  }

  /** The stroke loop of `merge_word_splines` for glyph `g` at index `gi`: empty strokes are skipped. */
  method ShiftGlyph(g: Glyph, gi: nat, first: Point, shift: Point) returns (ss: seq<Stroke>)
    ensures ss == ShiftStrokes(NonEmptyStrokes(g), gi, first, shift)
  {
    ss := [];
    for j := 0 to |g|
      invariant ss == ShiftStrokes(NonEmptyStrokes(g[..j]), gi, first, shift)
    {
      assert g[..j + 1][..j] == g[..j];
      if g[j] != [] {
        var shifted := ShiftStroke(g[j], gi, first, shift);
        ss := ss + [shifted];
      }
    }
    assert g[..|g|] == g;
  }

  /** The glyph loop of `merge_word_splines` for one word. */
  method MergeOneWord(word: seq<Glyph>) returns (current: seq<Stroke>)
    ensures current == MergeWord(word)
  {
    current := [];
    var shift := Origin;
    for gi := 0 to |word|
      invariant MergeState(current, shift) == MergeUpTo(word, gi)
    {
      var g := word[gi];
      ghost var st := MergeState(current, shift);
      assert MergeUpTo(word, gi + 1) == StepGlyph(st, g, gi);
      if g != [] {
        var first := if g[0] != [] then g[0][0] else Origin;
        var shifted := ShiftGlyph(g, gi, first, shift);
        current := current + shifted;
        if current != [] && Last(current) != [] {
          shift := Last(Last(current));
        }
      }
    }
  }

  /** The merged words of `text`, word by word. */
  function MergeAll(text: seq<seq<Glyph>>): seq<seq<Stroke>> {
    if text == [] then [] else MergeAll(text[..|text| - 1]) + [MergeWord(Last(text))]
  }

  lemma {:induction false} MergeAllAt(text: seq<seq<Glyph>>)
    ensures |MergeAll(text)| == |text|
    ensures forall k :: 0 <= k < |text| ==> MergeAll(text)[k] == MergeWord(text[k])
  {
    if text != [] {
      var init := text[..|text| - 1];
      MergeAllAt(init);
      forall k | 0 <= k < |text|
        ensures MergeAll(text)[k] == MergeWord(text[k])
      {
        if k < |init| {
          assert text[k] == init[k];
        }
      }
    }
  }

  lemma MergeAllSnoc(text: seq<seq<Glyph>>, w: nat)
    requires w < |text|
    ensures MergeAll(text[..w + 1]) == MergeAll(text[..w]) + [MergeWord(text[w])]
  {
    assert text[..w + 1][..w] == text[..w];
  }

  /** `merge_word_splines(text_splines)`: one merged stroke list per word. */
  method MergeWordSplines(text: seq<seq<Glyph>>) returns (words: seq<seq<Stroke>>)
    ensures |words| == |text|
    ensures forall k :: 0 <= k < |text| ==> words[k] == MergeWord(text[k])
  {
    words := [];
    for w := 0 to |text|
      invariant words == MergeAll(text[..w])
    {
      var merged := MergeOneWord(text[w]);
      MergeAllSnoc(text, w);
      words := words + [merged];
    }
    assert text[..|text|] == text;
    MergeAllAt(text);
  }

  /** Every glyph has at least one stroke and no stroke is empty. */
  predicate WellFormedWord(word: seq<Glyph>) {
    forall k :: 0 <= k < |word| ==> WellFormed(word[k])
  }

  /** The browser's `currentShift`, with `undefined` as `None`. */
  datatype JsMergeState = JsMergeState(strokes: seq<Stroke>, shift: Option<Point>)

  /**
   * Stroke `s` of glyph `gi` reads a point through `undefined`: through
   * `shiftDelta = g[0][0]` when a later glyph's first stroke is empty, or
   * through an undefined `currentShift`. An empty stroke reads no point.
   */
  predicate JsStrokeThrows(g: Glyph, gi: nat, s: Stroke, shift: Option<Point>) {
    s != [] && ((gi != 0 && g != [] && g[0] == []) || shift.None?)
  }

  predicate JsGlyphThrows(g: Glyph, gi: nat, shift: Option<Point>) {
    exists j :: 0 <= j < |g| && JsStrokeThrows(g, gi, g[j], shift)
  }

  /**
   * The body of the browser's glyph loop, `None` where it throws. Every
   * stroke, empty or not, is pushed. Afterwards `currentShift` is the last
   * point of the last pushed stroke: `undefined` when that stroke is empty,
   * and a throw when nothing has been pushed yet.
   */
  function JsStepGlyph(st: JsMergeState, g: Glyph, gi: nat): Option<JsMergeState> {
    if JsGlyphThrows(g, gi, st.shift) then None
    else
      var out := st.strokes + ShiftStrokes(g, gi, FirstPoint(g), st.shift.GetOr(Origin));
      if out == [] then None
      else Some(JsMergeState(out, if Last(out) == [] then None else Some(Last(Last(out)))))
  }

  /** The browser's state after the first `n` glyphs of `word`, or `None` once it has thrown. */
  function JsMergeUpTo(word: seq<Glyph>, n: nat): Option<JsMergeState>
    requires n <= |word|
  {
    if n == 0 then Some(JsMergeState([], Some(Origin)))
    else
      match JsMergeUpTo(word, n - 1)
      case None => None
      case Some(st) => JsStepGlyph(st, word[n - 1], n - 1)
  }

  function JsMergeWord(word: seq<Glyph>): Option<seq<Stroke>> {
    match JsMergeUpTo(word, |word|)
    case None => None
    case Some(st) => Some(st.strokes)
  }

  /** Once a glyph throws, the word throws. */
  lemma {:induction false} JsThrowSticks(word: seq<Glyph>, n: nat)
    requires n <= |word| && JsMergeUpTo(word, n).None?
    ensures JsMergeWord(word).None?
    decreases |word| - n
  {
    if n < |word| {
      JsThrowSticks(word, n + 1);
    }
  }

  /** The browser's stroke loop: no stroke is skipped, and `ok` is false where a point is read through `undefined`. */
  method JsShiftGlyph(g: Glyph, gi: nat, shift: Option<Point>) returns (ok: bool, ss: seq<Stroke>)
    ensures ok <==> !JsGlyphThrows(g, gi, shift)
    ensures ok ==> ss == ShiftStrokes(g, gi, FirstPoint(g), shift.GetOr(Origin))
  {
    ss := [];
    for j := 0 to |g|
      invariant forall i :: 0 <= i < j ==> !JsStrokeThrows(g, gi, g[i], shift)
      invariant ss == ShiftStrokes(g[..j], gi, FirstPoint(g), shift.GetOr(Origin))
    {
      var s := g[j];
      if s != [] && ((gi != 0 && g[0] == []) || shift.None?) {
        assert JsStrokeThrows(g, gi, g[j], shift);
        return false, [];
      }
      var shifted := ShiftStroke(s, gi, FirstPoint(g), shift.GetOr(Origin));
      ss := ss + [shifted];
      assert g[..j + 1] == g[..j] + [g[j]];
    }
    assert g[..|g|] == g;
    ok := true;
  }

  /** For a well-formed glyph the loop body always moves the shift to the glyph's last merged point. */
  lemma StepWellFormedGlyph(st: MergeState, g: Glyph, gi: nat)
    requires WellFormed(g)
    ensures var out := st.strokes + ShiftStrokes(NonEmptyStrokes(g), gi, FirstPoint(g), st.shift);
      out != [] && Last(out) != [] && StepGlyph(st, g, gi) == MergeState(out, Last(Last(out)))
  {
    NonEmptyStrokesOfWellFormed(g);
    var shifted := ShiftStrokes(g, gi, FirstPoint(g), st.shift);
    assert shifted[|g| - 1] == ShiftStroke(g[|g| - 1], gi, FirstPoint(g), st.shift);
    assert Last(st.strokes + shifted) == shifted[|g| - 1];
  }

  /** On well-formed glyphs the browser never throws and keeps the renderer's state, its shift never `undefined`. */
  lemma {:induction false} JsMergeUpToWellFormed(word: seq<Glyph>, n: nat)
    requires WellFormedWord(word) && n <= |word|
    ensures JsMergeUpTo(word, n) == Some(JsMergeState(MergeUpTo(word, n).strokes, Some(MergeUpTo(word, n).shift)))
  {
    if n > 0 {
      JsMergeUpToWellFormed(word, n - 1);
      var st := MergeUpTo(word, n - 1);
      var g := word[n - 1];
      assert WellFormed(g);
      assert !JsGlyphThrows(g, n - 1, Some(st.shift));
      NonEmptyStrokesOfWellFormed(g);
      StepWellFormedGlyph(st, g, n - 1);
    }
  }

  /** On a word whose glyphs all have points in every stroke, the browser merges as the renderer does. */
  lemma JsMergeWordAgrees(word: seq<Glyph>)
    requires WellFormedWord(word)
    ensures JsMergeWord(word) == Some(MergeWord(word))
  {
    JsMergeUpToWellFormed(word, |word|);
  }

  /** The first glyph of a word is added at the origin, unmoved. */
  lemma FirstGlyphAtOrigin(g: Glyph)
    ensures ShiftStrokes(g, 0, FirstPoint(g), Origin) == g
  {
    forall k | 0 <= k < |g|
      ensures ShiftStroke(g[k], 0, FirstPoint(g), Origin) == g[k]
    {
      forall i | 0 <= i < |g[k]|
        ensures Add(g[k][i], Origin) == g[k][i]
      {
      }
    }
  }

  /** A trailing empty stroke: the browser pushes it and returns it, the renderer drops it. */
  lemma TrailingEmptyStrokeExample(p: Point)
    ensures JsMergeWord([[[p], []]]) == Some([[p], []])
    ensures MergeWord([[[p], []]]) == [[p]]
  {
    var g: Glyph := [[p], []];
    var word := [g];
    FirstGlyphAtOrigin(g);
    assert !JsGlyphThrows(g, 0, Some(Origin));
    assert JsMergeUpTo(word, 1) == JsStepGlyph(JsMergeState([], Some(Origin)), g, 0);
    assert [] + g == g;
    assert g[..1] == [[p]] && g[..1][..0] == [];
    assert NonEmptyStrokes(g) == [[p]];
    FirstGlyphAtOrigin([[p]]);
    assert MergeUpTo(word, 1) == StepGlyph(MergeState([], Origin), g, 0);
  }

  /** A later glyph with no strokes: the browser re-reads the last point and goes on without a throw. */
  lemma EmptyLaterGlyphExample(p: Point)
    ensures JsMergeWord([[[p]], []]) == Some([[p]])
  {
    var g: Glyph := [[p]];
    var word := [g, []];
    FirstGlyphAtOrigin(g);
    assert !JsGlyphThrows(g, 0, Some(Origin));
    assert JsMergeUpTo(word, 1) == JsStepGlyph(JsMergeState([], Some(Origin)), g, 0);
    assert [] + g == g;
    assert JsMergeUpTo(word, 1) == Some(JsMergeState(g, Some(p)));
    assert !JsGlyphThrows([], 1, Some(p));
    assert JsMergeUpTo(word, 2) == JsStepGlyph(JsMergeState(g, Some(p)), [], 1);
    assert g + ShiftStrokes([], 1, FirstPoint([]), p) == g;
  }

  /** A first glyph with no strokes: nothing has been pushed when the browser reads the last stroke, so it throws. */
  lemma EmptyFirstGlyphThrows()
    ensures JsMergeWord([[]]).None?
    ensures MergeWord([[]]) == []
  {
    var word: seq<Glyph> := [[]];
    assert !JsGlyphThrows([], 0, Some(Origin));
    assert JsMergeUpTo(word, 1) == JsStepGlyph(JsMergeState([], Some(Origin)), [], 0);
    assert [] + ShiftStrokes([], 0, FirstPoint([]), Origin) == [];
    assert MergeUpTo(word, 1) == StepGlyph(MergeState([], Origin), [], 0);
  }

  /** One turn of the browser's glyph loop, given what its stroke loop returned. */
  lemma JsStepResult(word: seq<Glyph>, gi: nat, current: seq<Stroke>, shift: Option<Point>, ok: bool, shifted: seq<Stroke>)
    requires gi < |word| && JsMergeUpTo(word, gi) == Some(JsMergeState(current, shift))
    requires ok <==> !JsGlyphThrows(word[gi], gi, shift)
    requires ok ==> shifted == ShiftStrokes(word[gi], gi, FirstPoint(word[gi]), shift.GetOr(Origin))
    ensures !ok || current + shifted == [] ==> JsMergeUpTo(word, gi + 1).None?
    ensures ok && current + shifted != [] ==>
      var out := current + shifted;
      JsMergeUpTo(word, gi + 1) == Some(JsMergeState(out, if Last(out) == [] then None else Some(Last(Last(out)))))
  {
    assert JsMergeUpTo(word, gi + 1) == JsStepGlyph(JsMergeState(current, shift), word[gi], gi);
  }

  /** The browser's glyph loop: the shift becomes the last point merged so far, or `undefined`; `None` where it throws. */
  method JsMergeOneWord(word: seq<Glyph>) returns (r: Option<seq<Stroke>>)
    ensures r == JsMergeWord(word)
    ensures WellFormedWord(word) ==> r == Some(MergeWord(word))
  {
    if WellFormedWord(word) {
      JsMergeWordAgrees(word);
    }
    var current: seq<Stroke> := [];
    var shift: Option<Point> := Some(Origin);
    for gi := 0 to |word|
      invariant JsMergeUpTo(word, gi) == Some(JsMergeState(current, shift))
    {
      var ok, shifted := JsShiftGlyph(word[gi], gi, shift);
      JsStepResult(word, gi, current, shift, ok, shifted);
      if !ok {
        JsThrowSticks(word, gi + 1);
        return None;
      }
      current := current + shifted;
      if current == [] {
        JsThrowSticks(word, gi + 1);
        return None;
      }
      shift := if Last(current) == [] then None else Some(Last(Last(current)));
    }
    r := Some(current);
  }

  /**
   * `mergeWordSplines(textSplines)`: `None` exactly when some word throws.
   * On words whose glyphs all have points in every stroke it produces what
   * the Python renderer produces.
   */
  method JsMergeWordSplines(text: seq<seq<Glyph>>) returns (words: Option<seq<seq<Stroke>>>)
    ensures words.None? <==> exists k :: 0 <= k < |text| && JsMergeWord(text[k]).None?
    ensures words.Some? ==> |words.value| == |text| && forall k :: 0 <= k < |text| ==> Some(words.value[k]) == JsMergeWord(text[k])
    ensures (forall k :: 0 <= k < |text| ==> WellFormedWord(text[k])) ==>
      words.Some? && forall k :: 0 <= k < |text| ==> words.value[k] == MergeWord(text[k])
  {
    var ws: seq<seq<Stroke>> := [];
    for w := 0 to |text|
      invariant |ws| == w
      invariant forall k :: 0 <= k < w ==> Some(ws[k]) == JsMergeWord(text[k])
    {
      var merged := JsMergeOneWord(text[w]);
      if merged.None? {
        return None;
      }
      ws := ws + [merged.value];
    }
    if forall k :: 0 <= k < |text| ==> WellFormedWord(text[k]) {
      forall k | 0 <= k < |text|
        ensures ws[k] == MergeWord(text[k])
      {
        JsMergeWordAgrees(text[k]);
      }
    }
    words := Some(ws);
  }
}
