/**
 * Page layout of the PDF renderer (`calculate_word_dimensions` and the
 * line-wrapping loop with `render_line` in `render_to_pdf`,
 * scripts/generate_pdf.py): word bounding boxes, greedy wrapping of words into
 * lines, and the vertical placement of lines on pages. All lengths are inches.
 */
module Layout {
  import opened Geometry

  const Margin: real := 0.75
  const ScalingFactor: real := 6.0

  datatype PageSize = PageSize(width: real, height: real)

  /** `page_sizes.get(page_size, page_sizes['letter'])`. */
  function PageSizeNamed(name: string): (r: PageSize)
    ensures r == PageSize(8.27, 11.69) <==> name == "a4"
    ensures r == PageSize(8.27, 11.69) || r == PageSize(8.5, 11.0)
    ensures r.width > 2.0 * Margin && r.height > 2.0 * Margin
  {
    if name == "a4" then PageSize(8.27, 11.69) else PageSize(8.5, 11.0)
  }

  function GlyphScale(scale: real): real {
    0.5 * scale
  }

  function SpaceBetweenWords(scale: real): real {
    0.2 * ScalingFactor * GlyphScale(scale)
  }

  /** Line spacing, larger in beginner mode to leave room for the labels. */
  function LineSpacing(scale: real, beginner: bool): real {
    (if beginner then 0.7 else 0.4) * ScalingFactor * GlyphScale(scale)
  }

  function Abs(r: real): real {
    if r < 0.0 then -r else r
  }

  function Max(a: real, b: real): real {
    if a >= b then a else b
  }

  function Min(a: real, b: real): real {
    if a <= b then a else b
  }

  /** The x coordinates of all points of a word, scaled by `k`, stroke after stroke. */
  function ScaledXs(word: seq<Stroke>, k: real): seq<real> {
    if word == [] then []
    else ScaledXs(word[..|word| - 1], k) + seq(|Last(word)|, i requires 0 <= i < |Last(word)| => Last(word)[i].x * k)
  }

  /** The y coordinates of all points of a word, scaled by `k`. */
  function ScaledYs(word: seq<Stroke>, k: real): (ys: seq<real>)
    ensures |ys| == |ScaledXs(word, k)|
  {
    if word == [] then []
    else ScaledYs(word[..|word| - 1], k) + seq(|Last(word)|, i requires 0 <= i < |Last(word)| => Last(word)[i].y * k)
  }

  function MinOf(xs: seq<real>): (m: real)
    requires xs != []
    ensures m in xs && forall x :: x in xs ==> m <= x
  {
    if |xs| == 1 then xs[0]
    else
      var m := MinOf(xs[1..]);
      assert forall x :: x in xs ==> x == xs[0] || x in xs[1..];
      Min(xs[0], m)
  }

  function MaxOf(xs: seq<real>): (m: real)
    requires xs != []
    ensures m in xs && forall x :: x in xs ==> x <= m
  {
    if |xs| == 1 then xs[0]
    else
      var m := MaxOf(xs[1..]);
      assert forall x :: x in xs ==> x == xs[0] || x in xs[1..];
      Max(xs[0], m)
  }

  datatype Dims = Dims(width: real, ascent: real, descent: real, xMin: real)

  /**
   * `calculate_word_dimensions(word, scaling_factor, glyph_scale)`: the
   * bounding box of the scaled points; all zeros when the word has no point.
   */
  function WordDimensions(word: seq<Stroke>, scalingFactor: real, glyphScale: real): (d: Dims)
    ensures d.width >= 0.0
    ensures var xs := ScaledXs(word, scalingFactor * glyphScale);
      var ys := ScaledYs(word, scalingFactor * glyphScale);
      if xs == [] then d == Dims(0.0, 0.0, 0.0, 0.0)
      else
        d.xMin in xs && d.xMin + d.width in xs && (forall x :: x in xs ==> d.xMin <= x <= d.xMin + d.width) &&
        d.ascent in ys && d.descent in ys && (forall y :: y in ys ==> d.descent <= y <= d.ascent)
  {
    var xs := ScaledXs(word, scalingFactor * glyphScale);
    var ys := ScaledYs(word, scalingFactor * glyphScale);
    if xs == [] then Dims(0.0, 0.0, 0.0, 0.0)
    else Dims(MaxOf(xs) - MinOf(xs), MaxOf(ys), MinOf(ys), MinOf(xs))
  }

  /** The width a word takes on its line: in beginner mode at least the width of its label. */
  function EffectiveWidths(dims: seq<Dims>, textWidths: seq<real>, beginner: bool): (eff: seq<real>)
    ensures |eff| == |dims|
    ensures forall i :: 0 <= i < |dims| ==>
      eff[i] == if beginner && i < |textWidths| then Max(dims[i].width, textWidths[i]) else dims[i].width
  {
    seq(|dims|, i requires 0 <= i < |dims| => if beginner && i < |textWidths| then Max(dims[i].width, textWidths[i]) else dims[i].width)
  }

  predicate IndicesBelow(line: seq<nat>, n: nat) {
    forall k :: 0 <= k < |line| ==> line[k] < n
  }

  /** The horizontal room taken by the words of `line`, each followed by a word space. */
  function LineWidth(eff: seq<real>, space: real, line: seq<nat>): real
    requires IndicesBelow(line, |eff|)
  {
    if line == [] then 0.0
    else LineWidth(eff, space, line[..|line| - 1]) + eff[line[|line| - 1]] + space
  }

  /** The state of the wrap loop: finished lines, the current line and `current_x`. */
  datatype WrapState = WrapState(done: seq<seq<nat>>, line: seq<nat>, x: real)

  /** The loop body for word `i`: break the line when it would overflow and the line is not empty. */
  function WrapStep(st: WrapState, eff: seq<real>, space: real, limit: real, i: nat): WrapState
    requires i < |eff|
  {
    if st.x + eff[i] > limit && st.line != [] then WrapState(st.done + [st.line], [i], Margin + eff[i] + space)
    else WrapState(st.done, st.line + [i], st.x + eff[i] + space)
  }

  function WrapUpTo(eff: seq<real>, space: real, limit: real, n: nat): WrapState
    requires n <= |eff|
  {
    if n == 0 then WrapState([], [], Margin) else WrapStep(WrapUpTo(eff, space, limit, n - 1), eff, space, limit, n - 1)
  }

  /** All lines, the last one included when it has words. */
  function LinesOf(st: WrapState): seq<seq<nat>> {
    st.done + if st.line == [] then [] else [st.line]
  }

  function Flatten(ls: seq<seq<nat>>): seq<nat> {
    if ls == [] then [] else Flatten(ls[..|ls| - 1]) + ls[|ls| - 1]
  }

  /** The word indices `0, 1, ..., n - 1`. */
  function Range(n: nat): (r: seq<nat>)
    ensures |r| == n
  {
    if n == 0 then [] else Range(n - 1) + [n - 1]
  }

  lemma {:induction false} RangeAt(n: nat, i: nat)
    requires i < n
    ensures Range(n)[i] == i
  {
    if i < n - 1 {
      RangeAt(n - 1, i);
    }
  }

  lemma {:induction false} RangePrefix(n: nat, m: nat)
    requires m <= n
    ensures Range(n)[..m] == Range(m)
  {
    if m < n {
      RangePrefix(n - 1, m);
      assert Range(n)[..m] == Range(n - 1)[..m];
    } else {
      assert Range(n)[..m] == Range(n);
    }
  }

  /** Every word after the first fits on its line: `current_x + width <= page_width - margin`. */
  ghost predicate Fits(eff: seq<real>, space: real, limit: real, line: seq<nat>)
    requires IndicesBelow(line, |eff|)
  {
    forall k :: 1 <= k < |line| ==> Margin + LineWidth(eff, space, line[..k]) + eff[line[k]] <= limit
  }

  /** Word `w` would not have fitted at the end of `line`. */
  ghost predicate Overflows(eff: seq<real>, space: real, limit: real, line: seq<nat>, w: nat)
    requires IndicesBelow(line, |eff|) && w < |eff|
  {
    Margin + LineWidth(eff, space, line) + eff[w] > limit
  }

  /** Each line is non-empty and holds only words before `n`. */
  ghost predicate NonEmptyBelow(ls: seq<seq<nat>>, n: nat) {
    forall k :: 0 <= k < |ls| ==> ls[k] != [] && IndicesBelow(ls[k], n)
  }

  ghost predicate AllFit(eff: seq<real>, space: real, limit: real, ls: seq<seq<nat>>)
    requires NonEmptyBelow(ls, |eff|)
  {
    forall k :: 0 <= k < |ls| ==> Fits(eff, space, limit, ls[k])
  }

  ghost predicate AllOverflow(eff: seq<real>, space: real, limit: real, ls: seq<seq<nat>>)
    requires NonEmptyBelow(ls, |eff|)
  {
    forall k :: 0 <= k < |ls| - 1 ==> Overflows(eff, space, limit, ls[k], ls[k + 1][0])
  }

  /**
   * What the greedy wrap guarantees about the lines `ls` of the words before
   * `n`: they hold the words in order, none is empty, every word after the
   * first of a line fits on it, and the first word of each later line would
   * have overflowed the line before.
   */
  ghost predicate WrapSound(eff: seq<real>, space: real, limit: real, n: nat, ls: seq<seq<nat>>)
    requires n <= |eff|
  {
    Flatten(ls) == Range(n) && NonEmptyBelow(ls, n) && NonEmptyBelow(ls, |eff|) &&
    AllFit(eff, space, limit, ls) && AllOverflow(eff, space, limit, ls)
  }

  lemma FlattenAppend(ls: seq<seq<nat>>, l: seq<nat>)
    ensures Flatten(ls + [l]) == Flatten(ls) + l
  {
    assert (ls + [l])[..|ls|] == ls;
  }

  lemma FlattenOfNonEmpty(ls: seq<seq<nat>>)
    ensures ls != [] && ls[|ls| - 1] != [] ==> Flatten(ls) != []
  {
  }

  lemma {:induction false} IndicesInFlatten(ls: seq<seq<nat>>, n: nat, k: nat)
    requires Flatten(ls) == Range(n) && k < |ls|
    ensures IndicesBelow(ls[k], n)
  {
    var prefix := ls[..|ls| - 1];
    assert ls == prefix + [ls[|ls| - 1]];
    FlattenAppend(prefix, ls[|ls| - 1]);
    if k == |ls| - 1 {
      forall j | 0 <= j < |ls[k]|
        ensures ls[k][j] < n
      {
        assert ls[k][j] == Flatten(ls)[|Flatten(prefix)| + j];
        RangeAt(n, |Flatten(prefix)| + j);
      }
    } else {
      assert Flatten(prefix) == Range(n)[..|Flatten(prefix)|];
      RangePrefix(n, |Flatten(prefix)|);
      IndicesInFlatten(prefix, |Flatten(prefix)|, k);
      assert prefix[k] == ls[k];
    }
  }

  lemma LineWidthAppend(eff: seq<real>, space: real, line: seq<nat>, i: nat)
    requires IndicesBelow(line, |eff|) && i < |eff|
    ensures IndicesBelow(line + [i], |eff|)
    ensures LineWidth(eff, space, line + [i]) == LineWidth(eff, space, line) + eff[i] + space
  {
    assert (line + [i])[..|line|] == line;
  }

  /** What the wrap loop keeps true of its state after the words before `n`. */
  ghost predicate StateSound(eff: seq<real>, space: real, limit: real, n: nat, st: WrapState)
    requires n <= |eff|
  {
    IndicesBelow(st.line, |eff|) &&
    st.x == Margin + LineWidth(eff, space, st.line) &&
    (st.line == [] <==> n == 0) &&
    WrapSound(eff, space, limit, n, LinesOf(st))
  }

  lemma BreakStep(eff: seq<real>, space: real, limit: real, i: nat, st: WrapState)
    requires i < |eff| && StateSound(eff, space, limit, i, st)
    requires st.x + eff[i] > limit && st.line != []
    ensures StateSound(eff, space, limit, i + 1, WrapStep(st, eff, space, limit, i))
  {
    var ls := LinesOf(st);
    var ls' := LinesOf(WrapStep(st, eff, space, limit, i));
    assert Range(i + 1) == Range(i) + [i];
    assert ls == st.done + [st.line];
    assert ls' == ls + [[i]];
    FlattenAppend(ls, [i]);
    assert LineWidth(eff, space, [i]) == eff[i] + space by {
      assert [i][..0] == [];
    }
    assert NonEmptyBelow(ls', i + 1) && NonEmptyBelow(ls', |eff|) by {
      forall k | 0 <= k < |ls'|
        ensures ls'[k] != [] && IndicesBelow(ls'[k], i + 1)
      {
        if k < |ls| {
          assert ls'[k] == ls[k];
        }
      }
    }
    assert AllFit(eff, space, limit, ls') by {
      forall k | 0 <= k < |ls'|
        ensures Fits(eff, space, limit, ls'[k])
      {
        if k < |ls| {
          assert ls'[k] == ls[k];
        }
      }
    }
    assert AllOverflow(eff, space, limit, ls') by {
      forall k | 0 <= k < |ls'| - 1
        ensures Overflows(eff, space, limit, ls'[k], ls'[k + 1][0])
      {
        if k < |ls| - 1 {
          assert ls'[k] == ls[k] && ls'[k + 1] == ls[k + 1];
        } else {
          assert ls'[k] == st.line && ls'[k + 1] == [i];
        }
      }
    }
  }

  lemma ExtendFits(eff: seq<real>, space: real, limit: real, line: seq<nat>, i: nat)
    requires i < |eff| && IndicesBelow(line, |eff|) && Fits(eff, space, limit, line)
    requires line != [] ==> Margin + LineWidth(eff, space, line) + eff[i] <= limit
    ensures IndicesBelow(line + [i], |eff|) && Fits(eff, space, limit, line + [i])
  {
    var line' := line + [i];
    forall j | 1 <= j < |line'|
      ensures Margin + LineWidth(eff, space, line'[..j]) + eff[line'[j]] <= limit
    {
      if j < |line| {
        assert line'[..j] == line[..j] && line'[j] == line[j];
      } else {
        assert line'[..j] == line;
      }
    }
  }

  /** Replacing the last line by a longer one that starts with the same word keeps the lines sound. */
  lemma ReplaceLastLine(eff: seq<real>, space: real, limit: real, n: nat, done: seq<seq<nat>>, line: seq<nat>, line': seq<nat>)
    requires n < |eff| && line' != [] && IndicesBelow(line', n + 1) && Fits(eff, space, limit, line')
    requires line != [] ==> line'[0] == line[0]
    requires line == [] ==> done == []
    requires line != [] ==> WrapSound(eff, space, limit, n, done + [line])
    ensures NonEmptyBelow(done + [line'], n + 1)
    ensures NonEmptyBelow(done + [line'], |eff|)
    ensures AllFit(eff, space, limit, done + [line'])
    ensures AllOverflow(eff, space, limit, done + [line'])
  {
    var ls := done + [line];
    var ls' := done + [line'];
    forall k | 0 <= k < |ls'|
      ensures ls'[k] != [] && IndicesBelow(ls'[k], n + 1) && IndicesBelow(ls'[k], |eff|)
    {
      if k < |done| {
        assert ls'[k] == ls[k];
      }
    }
    forall k | 0 <= k < |ls'|
      ensures Fits(eff, space, limit, ls'[k])
    {
      if k < |done| {
        assert ls'[k] == ls[k];
      }
    }
    forall k | 0 <= k < |ls'| - 1
      ensures Overflows(eff, space, limit, ls'[k], ls'[k + 1][0])
    {
      assert ls'[k] == ls[k];
      if k + 1 < |done| {
        assert ls'[k + 1] == ls[k + 1];
      } else {
        assert ls'[k + 1] == line' && ls[k + 1] == line;
      }
    }
  }

  /** Appending word `i` to the current line keeps the words in order. */
  lemma ExtendCovers(eff: seq<real>, space: real, limit: real, i: nat, st: WrapState)
    requires i < |eff| && StateSound(eff, space, limit, i, st)
    ensures st.line == [] ==> st.done == []
    ensures Flatten(st.done + [st.line + [i]]) == Range(i + 1)
    ensures IndicesBelow(st.line + [i], i + 1)
    ensures st.line != [] ==> Fits(eff, space, limit, st.line)
  {
    var ls := LinesOf(st);
    assert Range(i + 1) == Range(i) + [i];
    FlattenAppend(st.done, st.line + [i]);
    if st.line != [] {
      assert ls == st.done + [st.line];
      FlattenAppend(st.done, st.line);
      assert ls[|ls| - 1] == st.line;
    } else {
      assert ls == st.done;
      FlattenOfNonEmpty(ls);
    }
    IndicesInFlatten(st.done + [st.line + [i]], i + 1, |st.done|);
    assert (st.done + [st.line + [i]])[|st.done|] == st.line + [i];
  }

  lemma ExtendStep(eff: seq<real>, space: real, limit: real, i: nat, st: WrapState)
    requires i < |eff| && StateSound(eff, space, limit, i, st)
    requires !(st.x + eff[i] > limit && st.line != [])
    ensures StateSound(eff, space, limit, i + 1, WrapStep(st, eff, space, limit, i))
  {
    var line' := st.line + [i];
    assert LinesOf(WrapStep(st, eff, space, limit, i)) == st.done + [line'];
    LineWidthAppend(eff, space, st.line, i);
    ExtendCovers(eff, space, limit, i, st);
    ExtendFits(eff, space, limit, st.line, i);
    ReplaceLastLine(eff, space, limit, i, st.done, st.line, line');
  }

  lemma WrapStart(eff: seq<real>, space: real, limit: real)
    ensures StateSound(eff, space, limit, 0, WrapState([], [], Margin))
  {
    assert LinesOf(WrapState([], [], Margin)) == [];
  }

  /** One turn of the wrap loop keeps its state sound. */
  lemma StepSound(eff: seq<real>, space: real, limit: real, i: nat, st: WrapState)
    requires i < |eff| && StateSound(eff, space, limit, i, st)
    ensures StateSound(eff, space, limit, i + 1, WrapStep(st, eff, space, limit, i))
  {
    if st.x + eff[i] > limit && st.line != [] {
      BreakStep(eff, space, limit, i, st);
    } else {
      ExtendStep(eff, space, limit, i, st);
    }
  }

  lemma WrapUpToUnfold(eff: seq<real>, space: real, limit: real, n: nat)
    requires 0 < n <= |eff|
    ensures WrapUpTo(eff, space, limit, n) == WrapStep(WrapUpTo(eff, space, limit, n - 1), eff, space, limit, n - 1)
  {
  }

  /** `StepSound` for a state named by its successor. */
  lemma StepSoundTo(eff: seq<real>, space: real, limit: real, i: nat, st: WrapState, st': WrapState)
    requires i < |eff| && StateSound(eff, space, limit, i, st)
    requires st' == WrapStep(st, eff, space, limit, i)
    ensures StateSound(eff, space, limit, i + 1, st')
  {
    StepSound(eff, space, limit, i, st);
  }

  /** `current_x` is the margin plus the room taken by the current line, and the lines so far are sound. */
  lemma {:induction false} WrapInvariant(eff: seq<real>, space: real, limit: real, n: nat)
    requires n <= |eff|
    ensures StateSound(eff, space, limit, n, WrapUpTo(eff, space, limit, n))
  {
    if n == 0 {
      WrapStart(eff, space, limit);
    } else {
      WrapInvariant(eff, space, limit, n - 1);
      WrapUpToUnfold(eff, space, limit, n);
      StepSoundTo(eff, space, limit, n - 1, WrapUpTo(eff, space, limit, n - 1), WrapUpTo(eff, space, limit, n));
    }
  }

  /** The tallest point of the words of a line (0.3 for a line without words). */
  function LineAscent(dims: seq<Dims>, line: seq<nat>): real
    requires IndicesBelow(line, |dims|)
  {
    if line == [] then 0.3
    else if |line| == 1 then dims[line[0]].ascent
    else Max(dims[line[0]].ascent, LineAscent(dims, line[1..]))
  }

  /** The lowest point of the words of a line (-0.1 for a line without words). */
  function LineDescent(dims: seq<Dims>, line: seq<nat>): real
    requires IndicesBelow(line, |dims|)
  {
    if line == [] then -0.1
    else if |line| == 1 then dims[line[0]].descent
    else Min(dims[line[0]].descent, LineDescent(dims, line[1..]))
  }

  datatype Placement = Placement(baseline: real, newPage: bool, nextY: real)

  /** Room needed below the baseline: the descent, the line spacing, and 0.2 for the beginner labels. */
  function Needed(descent: real, spacing: real, beginner: bool): real {
    Abs(descent) + spacing + (if beginner then 0.2 else 0.0)
  }

  /**
   * The arithmetic of `render_line`: the baseline sits one ascent below
   * `current_y`; when the line's bottom would fall below the margin a new
   * page starts and the baseline is one ascent below the top margin. The next
   * line starts one descent and one line spacing below the baseline.
   */
  function PlaceLine(currentY: real, ascent: real, descent: real, spacing: real, beginner: bool, pageHeight: real): (p: Placement)
    ensures p.newPage <==> currentY - ascent - Needed(descent, spacing, beginner) < Margin
    ensures !p.newPage ==> p.baseline - Needed(descent, spacing, beginner) >= Margin && p.baseline + ascent == currentY
    ensures p.newPage ==> p.baseline + ascent == pageHeight - Margin
    ensures p.nextY == p.baseline - (Abs(descent) + spacing)
  {
    var y := currentY - ascent;
    if y - Needed(descent, spacing, beginner) < Margin then
      var b := pageHeight - Margin - ascent;
      Placement(b, true, b - (Abs(descent) + spacing))
    else Placement(y, false, y - (Abs(descent) + spacing))
  }

  /** `current_y` after rendering `lines` from `y0`. */
  function YAfter(lines: seq<seq<nat>>, dims: seq<Dims>, y0: real, spacing: real, beginner: bool, pageHeight: real): real
    requires forall k :: 0 <= k < |lines| ==> IndicesBelow(lines[k], |dims|)
  {
    if lines == [] then y0
    else
      var prefix := lines[..|lines| - 1];
      var l := lines[|lines| - 1];
      PlaceLine(YAfter(prefix, dims, y0, spacing, beginner, pageHeight), LineAscent(dims, l), LineDescent(dims, l),
        spacing, beginner, pageHeight).nextY
  }

  /** The placement of each line, in order. */
  function Placements(lines: seq<seq<nat>>, dims: seq<Dims>, y0: real, spacing: real, beginner: bool, pageHeight: real): (ps: seq<Placement>)
    requires forall k :: 0 <= k < |lines| ==> IndicesBelow(lines[k], |dims|)
    ensures |ps| == |lines|
  {
    if lines == [] then []
    else
      var prefix := lines[..|lines| - 1];
      var l := lines[|lines| - 1];
      Placements(prefix, dims, y0, spacing, beginner, pageHeight) +
        [PlaceLine(YAfter(prefix, dims, y0, spacing, beginner, pageHeight), LineAscent(dims, l), LineDescent(dims, l),
          spacing, beginner, pageHeight)]
  }

  lemma {:induction false} PlacementAt(lines: seq<seq<nat>>, dims: seq<Dims>, y0: real, spacing: real, beginner: bool, pageHeight: real, k: nat)
    requires forall j :: 0 <= j < |lines| ==> IndicesBelow(lines[j], |dims|)
    requires k < |lines|
    ensures Placements(lines, dims, y0, spacing, beginner, pageHeight)[k] ==
      PlaceLine(YAfter(lines[..k], dims, y0, spacing, beginner, pageHeight), LineAscent(dims, lines[k]),
        LineDescent(dims, lines[k]), spacing, beginner, pageHeight)
    ensures YAfter(lines[..k + 1], dims, y0, spacing, beginner, pageHeight) ==
      Placements(lines, dims, y0, spacing, beginner, pageHeight)[k].nextY
  {
    var prefix := lines[..|lines| - 1];
    assert lines[..k + 1][..k] == lines[..k];
    if k < |lines| - 1 {
      PlacementAt(prefix, dims, y0, spacing, beginner, pageHeight, k);
      assert prefix[..k] == lines[..k] && prefix[..k + 1] == lines[..k + 1] && prefix[k] == lines[k];
    } else {
      assert lines[..k + 1] == lines && lines[..k] == prefix;
    }
  }

  /**
   * Lines stack down the page: the first line's top is at the top margin, a
   * line that starts a new page has its top at the top margin, every other
   * line's top is one descent and one line spacing below the previous
   * baseline, and a line that does not start a page ends above the bottom margin.
   */
  lemma LinesStackDown(lines: seq<seq<nat>>, dims: seq<Dims>, spacing: real, beginner: bool, pageHeight: real, k: nat)
    requires forall j :: 0 <= j < |lines| ==> IndicesBelow(lines[j], |dims|)
    requires k < |lines|
    ensures var ps := Placements(lines, dims, pageHeight - Margin, spacing, beginner, pageHeight);
      var top := ps[k].baseline + LineAscent(dims, lines[k]);
      (k == 0 || ps[k].newPage ==> top == pageHeight - Margin) &&
      (k > 0 && !ps[k].newPage ==> top == ps[k - 1].baseline - (Abs(LineDescent(dims, lines[k - 1])) + spacing)) &&
      (!ps[k].newPage ==> ps[k].baseline - Needed(LineDescent(dims, lines[k]), spacing, beginner) >= Margin)
  {
    var y0 := pageHeight - Margin;
    var ps := Placements(lines, dims, y0, spacing, beginner, pageHeight);
    var yk := YAfter(lines[..k], dims, y0, spacing, beginner, pageHeight);
    PlacementAt(lines, dims, y0, spacing, beginner, pageHeight, k);
    assert ps[k] == PlaceLine(yk, LineAscent(dims, lines[k]), LineDescent(dims, lines[k]), spacing, beginner, pageHeight);
    if k > 0 {
      PlacementAt(lines, dims, y0, spacing, beginner, pageHeight, k - 1);
      assert lines[..k - 1 + 1] == lines[..k];
      assert yk == ps[k - 1].nextY;
    } else {
      assert lines[..0] == [];
      assert yk == y0;
    }
  }

  lemma PlacementsAppend(lines: seq<seq<nat>>, l: seq<nat>, dims: seq<Dims>, y0: real, spacing: real, beginner: bool, pageHeight: real)
    requires forall k :: 0 <= k < |lines| ==> IndicesBelow(lines[k], |dims|)
    requires IndicesBelow(l, |dims|)
    ensures forall k :: 0 <= k < |lines + [l]| ==> IndicesBelow((lines + [l])[k], |dims|)
    ensures var p := PlaceLine(YAfter(lines, dims, y0, spacing, beginner, pageHeight), LineAscent(dims, l), LineDescent(dims, l),
        spacing, beginner, pageHeight);
      Placements(lines + [l], dims, y0, spacing, beginner, pageHeight) == Placements(lines, dims, y0, spacing, beginner, pageHeight) + [p] &&
      YAfter(lines + [l], dims, y0, spacing, beginner, pageHeight) == p.nextY
  {
    assert (lines + [l])[..|lines|] == lines;
  }

  lemma CurrentLineBelow(eff: seq<real>, space: real, limit: real, n: nat)
    requires n <= |eff|
    ensures IndicesBelow(WrapUpTo(eff, space, limit, n).line, |eff|)
  {
    WrapInvariant(eff, space, limit, n);
  }

  datatype Layout = Layout(lines: seq<seq<nat>>, placements: seq<Placement>)

  /**
   * The loop over the words in `render_to_pdf`: words are added to the
   * current line, and a line is rendered when the next word would overflow it.
   */
  method WrapLoop(dims: seq<Dims>, eff: seq<real>, space: real, limit: real, spacing: real, beginner: bool, pageHeight: real)
    returns (done: seq<seq<nat>>, lineWords: seq<nat>, currentX: real, placements: seq<Placement>, currentY: real)
    requires |eff| == |dims|
    ensures WrapUpTo(eff, space, limit, |dims|) == WrapState(done, lineWords, currentX)
    ensures forall k :: 0 <= k < |done| ==> IndicesBelow(done[k], |dims|)
    ensures placements == Placements(done, dims, pageHeight - Margin, spacing, beginner, pageHeight)
    ensures currentY == YAfter(done, dims, pageHeight - Margin, spacing, beginner, pageHeight)
  {
    var y0 := pageHeight - Margin;
    currentX := Margin;
    currentY := y0;
    done := [];
    lineWords := [];
    placements := [];
    for i := 0 to |dims|
      invariant WrapUpTo(eff, space, limit, i) == WrapState(done, lineWords, currentX)
      invariant forall k :: 0 <= k < |done| ==> IndicesBelow(done[k], |dims|)
      invariant placements == Placements(done, dims, y0, spacing, beginner, pageHeight)
      invariant currentY == YAfter(done, dims, y0, spacing, beginner, pageHeight)
    {
      CurrentLineBelow(eff, space, limit, i);
      assert WrapUpTo(eff, space, limit, i + 1) == WrapStep(WrapState(done, lineWords, currentX), eff, space, limit, i);
      if currentX + eff[i] > limit && lineWords != [] {
        var p := PlaceLine(currentY, LineAscent(dims, lineWords), LineDescent(dims, lineWords), spacing, beginner, pageHeight);
        PlacementsAppend(done, lineWords, dims, y0, spacing, beginner, pageHeight);
        placements := placements + [p];
        currentY := p.nextY;
        done := done + [lineWords];
        lineWords := [];
        currentX := Margin;
      }
      lineWords := lineWords + [i];
      currentX := currentX + eff[i] + space;
    }
  }

  /**
   * The layout computed by `render_to_pdf`: the greedy wrap of the words into
   * lines and the placement of every line, the last one rendered after the loop.
   */
  method LayOut(dims: seq<Dims>, textWidths: seq<real>, beginner: bool, scale: real, page: PageSize)
    returns (r: Layout)
    ensures var eff := EffectiveWidths(dims, textWidths, beginner);
      var space := SpaceBetweenWords(scale);
      r.lines == LinesOf(WrapUpTo(eff, space, page.width - Margin, |dims|)) &&
      WrapSound(eff, space, page.width - Margin, |dims|, r.lines) &&
      r.placements == Placements(r.lines, dims, page.height - Margin, LineSpacing(scale, beginner), beginner, page.height)
  {
    var eff := EffectiveWidths(dims, textWidths, beginner);
    var space := SpaceBetweenWords(scale);
    var spacing := LineSpacing(scale, beginner);
    var done, lineWords, currentX, placements, currentY :=
      WrapLoop(dims, eff, space, page.width - Margin, spacing, beginner, page.height);
    WrapInvariant(eff, space, page.width - Margin, |dims|);
    if lineWords != [] {
      assert IndicesBelow(lineWords, |dims|);
      var p := PlaceLine(currentY, LineAscent(dims, lineWords), LineDescent(dims, lineWords), spacing, beginner, page.height);
      PlacementsAppend(done, lineWords, dims, page.height - Margin, spacing, beginner, page.height);
      placements := placements + [p];
    }
    r := Layout(LinesOf(WrapState(done, lineWords, currentX)), placements);
  }
}
