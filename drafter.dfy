/**
 * The glyph drafter: the editor's selection of splines on the drawing grid,
 * the handlers that change it (left click, right click, the clear button,
 * picking a glyph from a list, save, freeze), and the ordering of the glyph
 * lists by the text typed into the name field.
 *
 * The selection is three parallel lists: the selected splines, the names of
 * the glyphs they came from, and how many consecutive splines each of those
 * glyphs contributed. Grid points are integer grid cells; stored glyph data
 * lives in the unit square and is scaled by `GridSize` when plotted.
 */
module Drafter {
  import opened Wrappers
  import opened Geometry
  import Text
  import Sorting
  import Escape

  /** Grid cells per unit of stored glyph coordinates. */
  const GridSize: real := 152.0

  // ---------------------------------------------------------------------
  // Selection state as a value, and the specification of every handler
  // ---------------------------------------------------------------------

  datatype Selection = Selection(points: seq<Stroke>, glyphs: seq<string>, counts: seq<int>)

  const NoSelection := Selection([], [], [])

  function Sum(s: seq<int>): int {
    if s == [] then 0 else Sum(s[..|s| - 1]) + s[|s| - 1]
  }

  /**
   * The three lists agree: every selected glyph contributed a positive
   * number of splines, and those numbers add up to the selected splines.
   */
  ghost predicate Consistent(s: Selection) {
    && |s.glyphs| == |s.counts|
    && Sum(s.counts) == |s.points|
    && forall i :: 0 <= i < |s.counts| ==> s.counts[i] > 0
  }

  /** JavaScript's `Math.round`: halves go up. */
  function Round(r: real): (n: int)
    ensures r - 0.5 < n as real <= r + 0.5
  {
    (r + 0.5).Floor
  }

  predicate Hits(p: Point, gx: int, gy: int) {
    Round(p.x) == gx && Round(p.y) == gy
  }

  /** `findLastIndex`: the last point of `s` rounding to the cell, or -1. */
  function FindLastHit(s: Stroke, gx: int, gy: int): (k: int)
    ensures -1 <= k < |s|
    ensures k == -1 ==> forall i :: 0 <= i < |s| ==> !Hits(s[i], gx, gy)
    ensures k != -1 ==> Hits(s[k], gx, gy) && forall i :: k < i < |s| ==> !Hits(s[i], gx, gy)
  {
    if s == [] then -1
    else if Hits(s[|s| - 1], gx, gy) then |s| - 1
    else FindLastHit(s[..|s| - 1], gx, gy)
  }

  function DropLast<T>(s: seq<T>): seq<T> {
    if s == [] then [] else s[..|s| - 1]
  }

  /**
   * `counts[counts.length - 1] -= 1`, then popping the last count and glyph
   * when it reaches zero. With no counts the decrement writes a property
   * that is not an element, and nothing changes.
   */
  function DecrementLastCount(s: Selection): (r: Selection)
    ensures r.points == s.points
    ensures s.counts == [] ==> r == s
    ensures s.counts != [] && Last(s.counts) == 1 ==>
      r.counts == s.counts[..|s.counts| - 1] && r.glyphs == DropLast(s.glyphs)
    ensures s.counts != [] && Last(s.counts) != 1 ==>
      r.glyphs == s.glyphs && |r.counts| == |s.counts| &&
      r.counts[..|r.counts| - 1] == s.counts[..|s.counts| - 1] && Last(r.counts) == Last(s.counts) - 1
  {
    if s.counts == [] then s
    else
      var c := s.counts[|s.counts| - 1] - 1;
      if c == 0 then Selection(s.points, DropLast(s.glyphs), s.counts[..|s.counts| - 1])
      else Selection(s.points, s.glyphs, s.counts[..|s.counts| - 1] + [c])
  }

  /** A left click on a cell: a new spline (Ctrl, or nothing selected) or one more point on the last one. */
  function ClickSpec(s: Selection, gx: int, gy: int, ctrl: bool): Selection {
    var p := Point(gx as real, gy as real);
    if ctrl || s.points == [] then Selection(s.points + [[p]], s.glyphs + [""], s.counts + [1])
    else Selection(s.points[..|s.points| - 1] + [s.points[|s.points| - 1] + [p]], s.glyphs, s.counts)
  }

  /**
   * A right click on a cell: removes the last point of the last spline that
   * rounds to the cell; a spline left empty is dropped with its count.
   * With nothing selected the handler throws before changing anything.
   */
  function RightClickSpec(s: Selection, gx: int, gy: int): Selection {
    if s.points == [] then s
    else
      var cur := s.points[|s.points| - 1];
      var k := FindLastHit(cur, gx, gy);
      if k == -1 then s
      else
        var rest := cur[..k] + cur[k + 1..];
        if rest == [] then DecrementLastCount(Selection(s.points[..|s.points| - 1], s.glyphs, s.counts))
        else Selection(s.points[..|s.points| - 1] + [rest], s.glyphs, s.counts)
  }

  /** The clear button: drops the last spline. */
  function ClearSpec(s: Selection): Selection {
    DecrementLastCount(Selection(DropLast(s.points), s.glyphs, s.counts))
  }

  /** Stored glyph coordinates scaled onto the grid. */
  function ToGrid(g: seq<Stroke>): seq<Stroke>
  {
    seq(|g|, i requires 0 <= i < |g| => seq(|g[i]|, j requires 0 <= j < |g[i]| => Point(g[i][j].x * GridSize, g[i][j].y * GridSize)))
  }

  /** Grid coordinates scaled back to the stored unit square, as save does. */
  function FromGrid(g: seq<Stroke>): seq<Stroke>
  {
    seq(|g|, i requires 0 <= i < |g| => seq(|g[i]|, j requires 0 <= j < |g[i]| => Point(g[i][j].x / GridSize, g[i][j].y / GridSize)))
  }

  /**
   * Replacing (not appending to) the selection first pops the last glyph and
   * `splice(-n, n)`s its `n` splines off the end. With no counts the splice
   * gets `undefined` and removes nothing.
   */
  function Deselected(s: Selection): Selection {
    if s.counts == [] then Selection(s.points, DropLast(s.glyphs), s.counts)
    else
      var n := s.counts[|s.counts| - 1];
      var keep := if n <= 0 then |s.points| else if n >= |s.points| then 0 else |s.points| - n;
      Selection(s.points[..keep], DropLast(s.glyphs), s.counts[..|s.counts| - 1])
  }

  /** The point new splines are attached to: the end of the last selected spline, if any. */
  function Anchor(points: seq<Stroke>): Option<Point> {
    if points != [] && points[|points| - 1] != [] then
      var last := points[|points| - 1];
      Some(last[|last| - 1])
    else None
  }

  /** Attaching reads `scaled[0][0]`: it throws when there is no first spline, or when an empty first spline is followed by a non-empty one. */
  predicate AttachThrows(anchor: Option<Point>, scaled: seq<Stroke>) {
    anchor.Some? && (scaled == [] || (scaled[0] == [] && exists k :: 0 < k < |scaled| && scaled[k] != []))
  }

  /** The scaled splines moved so that their first point lands on the anchor. */
  function Attach(anchor: Option<Point>, scaled: seq<Stroke>): seq<Stroke> {
    if anchor.Some? && scaled != [] && scaled[0] != [] then TranslateAll(scaled, Sub(anchor.value, scaled[0][0]))
    else scaled
  }

  /** Picking glyph `glyph` whose stored splines are `stored` and whose registered spline count is `count`. */
  function SelectSpec(s: Selection, glyph: string, stored: seq<Stroke>, count: int, append: bool): Selection {
    var base := if append then s else Deselected(s);
    Selection(base.points + Attach(Anchor(base.points), ToGrid(stored)), base.glyphs + [glyph], base.counts + [count])
  }

  /** The splines picking a glyph selects: the ones handed in, else the stored ones, else none. */
  function GlyphSplines(glyph: string, glyphPoints: Option<seq<Stroke>>, stored: map<string, seq<Stroke>>): seq<Stroke> {
    if glyphPoints.Some? then glyphPoints.value else if glyph in stored then stored[glyph] else []
  }

  /** Whether picking throws, leaving the selection as it was after deselection. */
  predicate SelectThrows(s: Selection, stored: seq<Stroke>, append: bool) {
    var base := if append then s else Deselected(s);
    AttachThrows(Anchor(base.points), ToGrid(stored))
  }

  /** Freezing as written: the splines and glyph names are cleared, the counts are kept. */
  function FreezeAsWritten(s: Selection): (r: Selection)
    ensures r.points == [] && r.glyphs == []
    ensures Sum(r.counts) == Sum(s.counts)
    ensures Consistent(s) && s.points != [] ==> !Consistent(r)
  {
    Selection([], [], s.counts)
  }

  /** Freezing as intended: the whole selection is cleared, as deselection does. */
  function FreezeSpec(s: Selection): Selection {
    NoSelection
  }

  // ---------------------------------------------------------------------
  // What the handlers keep
  // ---------------------------------------------------------------------

  lemma {:induction false} SumSnoc(s: seq<int>, x: int)
    ensures Sum(s + [x]) == Sum(s) + x
  {
    assert (s + [x])[..|s + [x]| - 1] == s;
  }

  lemma {:induction false} SumPositiveAtLeastLast(s: seq<int>)
    requires s != []
    requires forall i :: 0 <= i < |s| ==> s[i] > 0
    ensures Sum(s) >= s[|s| - 1]
    ensures Sum(s) > 0
  {
    var init := s[..|s| - 1];
    if init != [] {
      SumPositiveAtLeastLast(init);
    }
  }

  /** Popping a count that reached zero, with its glyph. */
  lemma PopKeepsConsistent(points: seq<Stroke>, glyphs: seq<string>, init: seq<int>)
    requires |glyphs| == |init| + 1
    requires Sum(init) == |points|
    requires forall i :: 0 <= i < |init| ==> init[i] > 0
    ensures Consistent(Selection(points, DropLast(glyphs), init))
  {
  }

  /** Lowering the last count by one while it stays positive. */
  lemma LowerKeepsConsistent(points: seq<Stroke>, glyphs: seq<string>, init: seq<int>, c: int)
    requires |glyphs| == |init| + 1 && c > 0
    requires Sum(init) + c == |points|
    requires forall i :: 0 <= i < |init| ==> init[i] > 0
    ensures Consistent(Selection(points, glyphs, init + [c]))
  {
    SumSnoc(init, c);
  }

  lemma {:induction false} DecrementKeepsConsistent(s: Selection)
    requires |s.glyphs| == |s.counts| && s.counts != []
    requires Sum(s.counts) == |s.points| + 1
    requires forall i :: 0 <= i < |s.counts| ==> s.counts[i] > 0
    ensures Consistent(DecrementLastCount(s))
  {
    var n := |s.counts|;
    var init := s.counts[..n - 1];
    var c := s.counts[n - 1] - 1;
    assert Sum(s.counts) == Sum(init) + s.counts[n - 1];
    PrefixPositive(s.counts, n - 1);
    if c == 0 {
      assert DecrementLastCount(s) == Selection(s.points, DropLast(s.glyphs), init);
      PopKeepsConsistent(s.points, s.glyphs, init);
    } else {
      assert DecrementLastCount(s) == Selection(s.points, s.glyphs, init + [c]);
      LowerKeepsConsistent(s.points, s.glyphs, init, c);
    }
  }

  lemma PrefixPositive(s: seq<int>, m: nat)
    requires m <= |s|
    requires forall i :: 0 <= i < |s| ==> s[i] > 0
    ensures forall i :: 0 <= i < m ==> s[..m][i] > 0
  {
  }

  /** A left click keeps the selection consistent. */
  lemma {:induction false} ClickKeepsConsistent(s: Selection, gx: int, gy: int, ctrl: bool)
    requires Consistent(s)
    ensures Consistent(ClickSpec(s, gx, gy, ctrl))
  {
    SumSnoc(s.counts, 1);
  }

  /** A right click keeps the selection consistent. */
  lemma {:induction false} RightClickKeepsConsistent(s: Selection, gx: int, gy: int)
    requires Consistent(s)
    ensures Consistent(RightClickSpec(s, gx, gy))
  {
    if s.points != [] {
      var cur := s.points[|s.points| - 1];
      var k := FindLastHit(cur, gx, gy);
      if k != -1 && cur[..k] + cur[k + 1..] == [] {
        SumPositiveAtLeastLast(s.counts);
        DecrementKeepsConsistent(Selection(s.points[..|s.points| - 1], s.glyphs, s.counts));
      }
    }
  }

  /** A right click removes exactly one point when some point of the last spline rounds to the cell, and none otherwise. */
  lemma {:induction false} RightClickRemovesOnePoint(s: Selection, gx: int, gy: int)
    requires s.points != []
    ensures var r := RightClickSpec(s, gx, gy);
            var cur := s.points[|s.points| - 1];
            var k := FindLastHit(cur, gx, gy);
            && (k == -1 <==> r == s)
            && (k != -1 && |cur| > 1 ==> r.points == s.points[..|s.points| - 1] + [cur[..k] + cur[k + 1..]] && r.glyphs == s.glyphs && r.counts == s.counts)
            && (k != -1 && |cur| == 1 ==> r.points == s.points[..|s.points| - 1])
  {
    var cur := s.points[|s.points| - 1];
    var k := FindLastHit(cur, gx, gy);
    if k != -1 {
      var rest := cur[..k] + cur[k + 1..];
      assert |rest| == |cur| - 1;
      var r := RightClickSpec(s, gx, gy);
      assert |r.points| < |s.points| || r.points[|r.points| - 1] == rest;
    }
  }

  /** The clear button keeps the selection consistent when something is selected. */
  lemma {:induction false} ClearKeepsConsistent(s: Selection)
    requires Consistent(s) && s.points != []
    ensures Consistent(ClearSpec(s))
    ensures ClearSpec(s).points == s.points[..|s.points| - 1]
  {
    SumPositiveAtLeastLast(s.counts);
    DecrementKeepsConsistent(Selection(DropLast(s.points), s.glyphs, s.counts));
  }

  /** With nothing selected the clear button keeps the (empty, consistent) selection. */
  lemma {:induction false} ClearOnEmpty(s: Selection)
    requires Consistent(s) && s.points == []
    ensures s.counts == [] && ClearSpec(s) == s
  {
    if s.counts != [] {
      SumPositiveAtLeastLast(s.counts);
    }
  }

  lemma {:induction false} DeselectedKeepsConsistent(s: Selection)
    requires Consistent(s)
    ensures Consistent(Deselected(s))
  {
    if s.counts != [] {
      var init := s.counts[..|s.counts| - 1];
      var n := s.counts[|s.counts| - 1];
      SumSnoc(init, n);
      assert s.counts == init + [n];
      SumPositiveAtLeastLast(s.counts);
    }
  }

  /** Picking a glyph keeps the selection consistent when its registered count is its (positive) number of splines. */
  lemma {:induction false} SelectKeepsConsistent(s: Selection, glyph: string, stored: seq<Stroke>, append: bool)
    requires Consistent(s)
    requires |stored| > 0
    ensures Consistent(SelectSpec(s, glyph, stored, |stored|, append))
  {
    var base := if append then s else Deselected(s);
    if !append {
      DeselectedKeepsConsistent(s);
    }
    SumSnoc(base.counts, |stored|);
  }

  /** Replacing the last glyph drops exactly the splines it contributed. */
  lemma {:induction false} ReplaceDropsLastGlyph(s: Selection)
    requires Consistent(s) && s.counts != []
    ensures var n := s.counts[|s.counts| - 1];
            && 0 < n <= |s.points|
            && Deselected(s) == Selection(s.points[..|s.points| - n], s.glyphs[..|s.glyphs| - 1], s.counts[..|s.counts| - 1])
  {
    SumPositiveAtLeastLast(s.counts);
  }

  /** The attached splines start where the selection ends, with their shape unchanged. */
  lemma {:induction false} AttachLandsOnAnchor(anchor: Point, scaled: seq<Stroke>)
    requires scaled != [] && scaled[0] != []
    ensures var r := Attach(Some(anchor), scaled);
            && |r| == |scaled|
            && r[0][0] == anchor
            && forall i, j, k :: 0 <= i < |scaled| && 0 <= j < |scaled[i]| && 0 <= k < |scaled[i]| ==>
                 Sub(r[i][j], r[i][k]) == Sub(scaled[i][j], scaled[i][k])
  {
    var d := Sub(anchor, scaled[0][0]);
    forall i, j, k | 0 <= i < |scaled| && 0 <= j < |scaled[i]| && 0 <= k < |scaled[i]|
      ensures Sub(Attach(Some(anchor), scaled)[i][j], Attach(Some(anchor), scaled)[i][k]) == Sub(scaled[i][j], scaled[i][k])
    {
      TranslateKeepsDifferences(scaled[i], d, j, k);
    }
  }

  /** Saving undoes the scaling applied when a glyph is plotted. */
  lemma {:induction false} GridRoundTrip(g: seq<Stroke>)
    ensures FromGrid(ToGrid(g)) == g
  {
    var r := FromGrid(ToGrid(g));
    forall i | 0 <= i < |g|
      ensures r[i] == g[i]
    {
      forall j | 0 <= j < |g[i]|
        ensures r[i][j] == g[i][j]
      {
        assert ToGrid(g)[i][j].x / GridSize == g[i][j].x;
        assert ToGrid(g)[i][j].y / GridSize == g[i][j].y;
      }
    }
  }

  /** Picking a glyph into an empty selection and saving it stores exactly the glyph's points. */
  lemma {:induction false} LoadThenSave(glyph: string, stored: seq<Stroke>, count: int, append: bool)
    ensures FromGrid(SelectSpec(NoSelection, glyph, stored, count, append).points) == stored
  {
    assert Deselected(NoSelection) == NoSelection;
    GridRoundTrip(stored);
  }

  /** Freezing as written leaves counts for splines that are no longer selected. */
  lemma FreezeBreaksConsistency()
    ensures var s := Selection([[Point(0.0, 0.0)]], [""], [1]);
            Consistent(s) && !Consistent(FreezeAsWritten(s))
  {
    var s := Selection([[Point(0.0, 0.0)]], [""], [1]);
    assert s.counts[..0] == [];
  }

  /** After freezing as written, the next click on an empty grid leaves the counts out of step with the splines. */
  lemma FrozenThenClickInconsistent()
    ensures var s := ClickSpec(FreezeAsWritten(Selection([[Point(0.0, 0.0)]], [""], [1])), 0, 0, false);
            s.points == [[Point(0.0, 0.0)]] && s.counts == [1, 1] && !Consistent(s)
  {
    var s := ClickSpec(FreezeAsWritten(Selection([[Point(0.0, 0.0)]], [""], [1])), 0, 0, false);
    assert s.counts[..1] == [1];
    assert s.counts[..1][..0] == [];
  }

  /**
   * Freezing as intended leaves an empty, consistent selection whatever came
   * before, so the click that broke the counts above now starts one spline
   * with the single count `[1]`.
   */
  lemma FreezeKeepsConsistent(s: Selection)
    ensures Consistent(FreezeSpec(s)) && FreezeSpec(s).points == []
    ensures forall gx: int, gy: int, ctrl: bool ::
      var c := ClickSpec(FreezeSpec(s), gx, gy, ctrl);
      Consistent(c) && c.points == [[Point(gx as real, gy as real)]] && c.counts == [1]
  {
    forall gx: int, gy: int, ctrl: bool
      ensures Consistent(ClickSpec(FreezeSpec(s), gx, gy, ctrl))
    {
      ClickKeepsConsistent(FreezeSpec(s), gx, gy, ctrl);
    }
  }

  /**
   * Attaching `scaled` after `points`: when the last selected spline has a
   * point, every new point is moved by `x - first + last` so the first new
   * point lands on it. `ok` is false where reading the first new point throws.
   */
  method AttachTo(points: seq<Stroke>, scaled: seq<Stroke>) returns (ok: bool, attached: seq<Stroke>)
    ensures var anchor := Anchor(points);
            && ok == !AttachThrows(anchor, scaled)
            && (ok ==> attached == Attach(anchor, scaled))
  {
    attached := scaled;
    ok := true;
    if |points| > 0 && |points[|points| - 1]| > 0 {
      var lastSpline := points[|points| - 1];
      var lastPoint: Point := lastSpline[|lastSpline| - 1];
      if |scaled| == 0 {
        return false, attached;
      }
      if |scaled[0]| == 0 {
        // every spline stays put, unless one of them has a point to move
        var k := 1;
        while k < |scaled|
          invariant 1 <= k <= |scaled|
          invariant forall i :: 0 < i < k ==> scaled[i] == []
        {
          if |scaled[k]| > 0 {
            return false, attached;
          }
          k := k + 1;
        }
      } else {
        var firstPoint: Point := scaled[0][0];
        attached := seq(|scaled|, i requires 0 <= i < |scaled| =>
          seq(|scaled[i]|, j requires 0 <= j < |scaled[i]| =>
            Point(scaled[i][j].x - firstPoint.x + lastPoint.x, scaled[i][j].y - firstPoint.y + lastPoint.y)));
        forall i | 0 <= i < |scaled|
          ensures attached[i] == Translate(scaled[i], Sub(lastPoint, firstPoint))
        {
        }
        assert attached == TranslateAll(scaled, Sub(lastPoint, firstPoint));
      }
    }
  }

  // ---------------------------------------------------------------------
  // The editor
  // ---------------------------------------------------------------------

  class Editor {
    var selectedPoints: seq<Stroke>
    var selectedGlyphs: seq<string>
    var numPerSelected: seq<int>
    var frozenPoints: seq<Stroke>
    /** Spline count of every listed glyph, phrase and mode, used when deselecting. */
    var numSplinesPerGlyph: map<string, int>
    var glyphSplineData: map<string, seq<Stroke>>

    function Current(): Selection
      reads this
    {
      Selection(selectedPoints, selectedGlyphs, numPerSelected)
    }

    ghost predicate Valid()
      reads this
    {
      Consistent(Current())
    }

    /** An empty editor over the stored glyphs, with every glyph's spline count registered. */
    constructor(glyphs: map<string, seq<Stroke>>)
      ensures Valid()
      ensures Current() == NoSelection && frozenPoints == []
      ensures glyphSplineData == glyphs
      ensures numSplinesPerGlyph == map g | g in glyphs :: |glyphs[g]|
    {
      selectedPoints := [];
      selectedGlyphs := [];
      numPerSelected := [];
      frozenPoints := [];
      glyphSplineData := glyphs;
      numSplinesPerGlyph := map g | g in glyphs :: |glyphs[g]|;
    }

    method Click(gx: int, gy: int, ctrl: bool)
      modifies this
      ensures Current() == ClickSpec(old(Current()), gx, gy, ctrl)
      ensures old(Valid()) ==> Valid()
      ensures frozenPoints == old(frozenPoints) && numSplinesPerGlyph == old(numSplinesPerGlyph) && glyphSplineData == old(glyphSplineData)
    {
      ghost var s := Current();
      if ctrl || |selectedPoints| == 0 {
        selectedPoints := selectedPoints + [[Point(gx as real, gy as real)]];
        selectedGlyphs := selectedGlyphs + [""];
        numPerSelected := numPerSelected + [1];
      } else {
        var n := |selectedPoints|;
        selectedPoints := selectedPoints[n - 1 := selectedPoints[n - 1] + [Point(gx as real, gy as real)]];
        assert selectedPoints == s.points[..n - 1] + [s.points[n - 1] + [Point(gx as real, gy as real)]];
      }
      if Consistent(s) {
        ClickKeepsConsistent(s, gx, gy, ctrl);
      }
    }

    /** The last-count bookkeeping shared by the right click and the clear button. */
    method DecrementLast()
      modifies this
      ensures Current() == DecrementLastCount(old(Current()))
      ensures frozenPoints == old(frozenPoints) && numSplinesPerGlyph == old(numSplinesPerGlyph) && glyphSplineData == old(glyphSplineData)
    {
      var m := |numPerSelected|;
      if m > 0 {
        var c := numPerSelected[m - 1] - 1;
        numPerSelected := numPerSelected[m - 1 := c];
        if c == 0 {
          numPerSelected := numPerSelected[..m - 1];
          if |selectedGlyphs| > 0 {
            selectedGlyphs := selectedGlyphs[..|selectedGlyphs| - 1];
          }
        } else {
          assert numPerSelected == old(numPerSelected)[..m - 1] + [c];
        }
      }
    }

    method RightClick(gx: int, gy: int)
      modifies this
      ensures Current() == RightClickSpec(old(Current()), gx, gy)
      ensures old(Valid()) ==> Valid()
      ensures frozenPoints == old(frozenPoints) && numSplinesPerGlyph == old(numSplinesPerGlyph) && glyphSplineData == old(glyphSplineData)
    {
      ghost var s := Current();
      if |selectedPoints| > 0 {
        var n := |selectedPoints|;
        var cur := selectedPoints[n - 1];
        var k := FindLastHit(cur, gx, gy);
        if k != -1 {
          cur := cur[..k] + cur[k + 1..];
          if |cur| == 0 {
            selectedPoints := selectedPoints[..n - 1];
            DecrementLast();
          } else {
            selectedPoints := selectedPoints[n - 1 := cur];
            assert selectedPoints == s.points[..n - 1] + [cur];
          }
        }
      }
      if Consistent(s) {
        RightClickKeepsConsistent(s, gx, gy);
      }
    }

    method Clear()
      modifies this
      ensures Current() == ClearSpec(old(Current()))
      ensures old(Valid()) ==> Valid()
      ensures frozenPoints == old(frozenPoints) && numSplinesPerGlyph == old(numSplinesPerGlyph) && glyphSplineData == old(glyphSplineData)
    {
      ghost var s := Current();
      if |selectedPoints| > 0 {
        selectedPoints := selectedPoints[..|selectedPoints| - 1];
      }
      DecrementLast();
      if Consistent(s) {
        if s.points != [] {
          ClearKeepsConsistent(s);
        } else {
          ClearOnEmpty(s);
        }
      }
    }

    /** `handleGlyphSelect(null)`: everything deselected. */
    method DeselectAll()
      modifies this
      ensures Current() == NoSelection && Valid()
      ensures frozenPoints == old(frozenPoints) && numSplinesPerGlyph == old(numSplinesPerGlyph) && glyphSplineData == old(glyphSplineData)
    {
      selectedPoints := [];
      numPerSelected := [];
      selectedGlyphs := [];
    }

    /** Replacing the selection: the last glyph's splines, name and count are dropped. */
    method DeselectLast()
      modifies this`selectedPoints, this`selectedGlyphs, this`numPerSelected
      ensures Current() == Deselected(old(Current()))
      ensures frozenPoints == old(frozenPoints) && numSplinesPerGlyph == old(numSplinesPerGlyph) && glyphSplineData == old(glyphSplineData)
    {
      var m := |numPerSelected|;
      if m > 0 {
        var n := numPerSelected[m - 1];
        numPerSelected := numPerSelected[..m - 1];
        var keep := if n <= 0 then |selectedPoints| else if n >= |selectedPoints| then 0 else |selectedPoints| - n;
        selectedPoints := selectedPoints[..keep];
      }
      if |selectedGlyphs| > 0 {
        selectedGlyphs := selectedGlyphs[..|selectedGlyphs| - 1];
      }
    }

    /**
     * `handleGlyphSelect(glyph, glyphPoints, append)`: the given points, else
     * the stored ones, else none, scaled onto the grid and attached to the
     * end of the selection. `ok` is false where the handler throws.
     */
    method SelectGlyph(glyph: string, glyphPoints: Option<seq<Stroke>>, append: bool) returns (ok: bool)
      requires glyph in numSplinesPerGlyph
      modifies this`selectedPoints, this`selectedGlyphs, this`numPerSelected
      ensures frozenPoints == old(frozenPoints) && numSplinesPerGlyph == old(numSplinesPerGlyph) && glyphSplineData == old(glyphSplineData)
      ensures ok == !SelectThrows(old(Current()), GlyphSplines(glyph, glyphPoints, glyphSplineData), append)
      ensures ok ==> Current() == SelectSpec(old(Current()), glyph, GlyphSplines(glyph, glyphPoints, glyphSplineData),
                                             numSplinesPerGlyph[glyph], append)
      ensures !ok ==> Current() == (if append then old(Current()) else Deselected(old(Current())))
      ensures ok && old(Valid()) && numSplinesPerGlyph[glyph] == |GlyphSplines(glyph, glyphPoints, glyphSplineData)| > 0 ==> Valid()
    {
      ghost var s := Current();
      var stored := GlyphSplines(glyph, glyphPoints, glyphSplineData);
      var base := if append then Current() else Deselected(Current());
      var attached;
      ok, attached := AttachTo(base.points, ToGrid(stored));
      var next := base;
      if ok {
        var count := numSplinesPerGlyph[glyph];
        next := Selection(base.points + attached, base.glyphs + [glyph], base.counts + [count]);
        if Consistent(s) && count == |stored| > 0 {
          SelectKeepsConsistent(s, glyph, stored, append);
        }
      }
      selectedPoints, selectedGlyphs, numPerSelected := next.points, next.glyphs, next.counts;
    }

    /**
     * The save button: with something selected, the selection is stored
     * under `name` in unit-square coordinates, its spline count registered,
     * and everything deselected.
     */
    method Save(name: string)
      modifies this
      ensures old(selectedPoints) == [] ==> Current() == old(Current()) && glyphSplineData == old(glyphSplineData) && numSplinesPerGlyph == old(numSplinesPerGlyph)
      ensures old(selectedPoints) != [] ==>
                && glyphSplineData == old(glyphSplineData)[name := FromGrid(old(selectedPoints))]
                && numSplinesPerGlyph == old(numSplinesPerGlyph)[name := |old(selectedPoints)|]
                && Current() == NoSelection
      ensures old(Valid()) ==> Valid()
      ensures frozenPoints == old(frozenPoints)
    {
      if |selectedPoints| > 0 {
        var newPoints := FromGrid(selectedPoints);
        glyphSplineData := glyphSplineData[name := newPoints];
        numSplinesPerGlyph := numSplinesPerGlyph[name := |newPoints|];
        DeselectAll();
      }
    }

    /**
     * The freeze button. With nothing frozen it copies the selection aside
     * and clears it; otherwise it drops the frozen copy. The counts are
     * cleared with the splines (see `FreezeAsWritten` for the handler as
     * written).
     */
    method ToggleFreeze()
      modifies this
      ensures old(frozenPoints) == [] ==> frozenPoints == old(selectedPoints) && Current() == FreezeSpec(old(Current()))
      ensures old(frozenPoints) != [] ==> frozenPoints == [] && Current() == old(Current())
      ensures old(Valid()) ==> Valid()
      ensures numSplinesPerGlyph == old(numSplinesPerGlyph) && glyphSplineData == old(glyphSplineData)
    {
      if |frozenPoints| == 0 {
        frozenPoints := selectedPoints;
        selectedPoints := [];
        selectedGlyphs := [];
        numPerSelected := [];
      } else {
        frozenPoints := [];
      }
    }
  }

  // ---------------------------------------------------------------------
  // Ordering a list of names by the search term
  // ---------------------------------------------------------------------

  /** `includes`: `p` occurs somewhere in `s`. */
  predicate Contains(s: string, p: string) {
    exists i | 0 <= i <= |s| - |p| :: Escape.StartsWith(s[i..], p)
  }

  /** 2 for names starting with the term, 1 for names containing it elsewhere, 0 for the rest. */
  function Rank(name: string, term: string): (r: int)
    ensures 0 <= r <= 2
  {
    var low := Text.Lower(name);
    if Escape.StartsWith(low, term) then 2 else if Contains(low, term) then 1 else 0
  }

  lemma StartsWithContains(s: string, p: string)
    requires Escape.StartsWith(s, p)
    ensures Contains(s, p)
  {
    assert s[0..] == s;
  }

  /** The three groups are the three filters of the handler: starts with; contains and does not start with; does not contain. */
  lemma RankMatchesFilters(name: string, term: string)
    ensures var low := Text.Lower(name);
            && (Rank(name, term) == 2 <==> Escape.StartsWith(low, term))
            && (Rank(name, term) == 1 <==> Contains(low, term) && !Escape.StartsWith(low, term))
            && (Rank(name, term) == 0 <==> !Contains(low, term))
  {
    if Escape.StartsWith(Text.Lower(name), term) {
      StartsWithContains(Text.Lower(name), term);
    }
  }

  /** The names of one rank, in their original order. */
  function Group(names: seq<string>, term: string, rank: int): seq<string> {
    if names == [] then []
    else Group(names[..|names| - 1], term, rank) + (if Rank(names[|names| - 1], term) == rank then [names[|names| - 1]] else [])
  }

  /** Comparing lower-cased names. */
  function ByLower(): (string, string) -> bool {
    (a: string, b: string) => Sorting.LexLess(Text.Lower(a), Text.Lower(b))
  }

  function Reverse<T>(s: seq<T>): (r: seq<T>)
    ensures |r| == |s|
    ensures forall i :: 0 <= i < |s| ==> r[i] == s[|s| - 1 - i]
  {
    seq(|s|, i requires 0 <= i < |s| => s[|s| - 1 - i])
  }

  /** One group sorted by lower-cased name. */
  function SortedGroup(names: seq<string>, term: string, rank: int): seq<string> {
    Sorting.SortBy(Group(names, term, rank), ByLower())
  }

  /**
   * `sortOneList`: the order in which the items are appended back to the
   * list, names lower-cased and compared by code point, the search term
   * already lower-cased.
   */
  function SortOneList(names: seq<string>, term: string): seq<string> {
    Reverse(SortedGroup(names, term, 2) + SortedGroup(names, term, 1) + SortedGroup(names, term, 0))
  }

  lemma {:induction false} GroupRanks(names: seq<string>, term: string, rank: int)
    ensures forall x :: x in Group(names, term, rank) ==> Rank(x, term) == rank
  {
    if names != [] {
      GroupRanks(names[..|names| - 1], term, rank);
    }
  }

  lemma GroupLast(names: seq<string>, term: string, rank: int)
    requires names != []
    ensures var x := names[|names| - 1];
            multiset(Group(names, term, rank)) == multiset(Group(names[..|names| - 1], term, rank)) + (if Rank(x, term) == rank then multiset{x} else multiset{})
  {
  }

  lemma MultisetLast<T>(s: seq<T>)
    requires s != []
    ensures multiset(s) == multiset(s[..|s| - 1]) + multiset{s[|s| - 1]}
  {
    assert s == s[..|s| - 1] + [s[|s| - 1]];
  }

  lemma {:induction false} GroupsPartition(names: seq<string>, term: string)
    ensures multiset(Group(names, term, 2)) + multiset(Group(names, term, 1)) + multiset(Group(names, term, 0)) == multiset(names)
  {
    if names != [] {
      GroupsPartition(names[..|names| - 1], term);
      GroupLast(names, term, 2);
      GroupLast(names, term, 1);
      GroupLast(names, term, 0);
      MultisetLast(names);
    }
  }

  lemma {:induction false} ReverseMultiset<T>(s: seq<T>)
    ensures multiset(Reverse(s)) == multiset(s)
  {
    if s != [] {
      var t := s[1..];
      ReverseMultiset(t);
      assert Reverse(s) == Reverse(t) + [s[0]];
      assert s == [s[0]] + t;
    }
  }

  /** Reordering loses and invents no item. */
  lemma SortOneListPermutes(names: seq<string>, term: string)
    ensures multiset(SortOneList(names, term)) == multiset(names)
  {
    ReverseMultiset(SortedGroup(names, term, 2) + SortedGroup(names, term, 1) + SortedGroup(names, term, 0));
    GroupsPartition(names, term);
  }

  lemma ByLowerStrict()
    ensures Sorting.StrictOrder(ByLower())
  {
    forall a: string
      ensures !ByLower()(a, a)
    {
      Sorting.LexLessIrreflexive(Text.Lower(a));
    }
    forall a: string, b: string, c: string | ByLower()(a, b) && ByLower()(b, c)
      ensures ByLower()(a, c)
    {
      Sorting.LexLessTransitive(Text.Lower(a), Text.Lower(b), Text.Lower(c));
    }
  }

  /** `x` may come before `y` in the combined, not yet reversed, order. */
  predicate InOrder(x: string, y: string, term: string) {
    || Rank(x, term) > Rank(y, term)
    || (Rank(x, term) == Rank(y, term) && !Sorting.LexLess(Text.Lower(y), Text.Lower(x)))
  }

  ghost predicate Ascending(s: seq<string>, term: string) {
    forall p, q :: 0 <= p < q < |s| ==> InOrder(s[p], s[q], term)
  }

  ghost predicate RanksWithin(s: seq<string>, term: string, lo: int, hi: int) {
    forall i :: 0 <= i < |s| ==> lo <= Rank(s[i], term) <= hi
  }

  /** One sorted group: every name has the group's rank and the names ascend. */
  lemma {:induction false} SortedGroupOrdered(names: seq<string>, term: string, rank: int)
    ensures RanksWithin(SortedGroup(names, term, rank), term, rank, rank)
    ensures Ascending(SortedGroup(names, term, rank), term)
  {
    var group := Group(names, term, rank);
    var g := SortedGroup(names, term, rank);
    GroupRanks(names, term, rank);
    ByLowerStrict();
    Sorting.SortBySorted(group, ByLower());
    forall i | 0 <= i < |g|
      ensures Rank(g[i], term) == rank
    {
      assert g[i] in multiset(g);
      assert g[i] in multiset(group);
    }
    forall p, q | 0 <= p < q < |g|
      ensures InOrder(g[p], g[q], term)
    {
      assert !ByLower()(g[q], g[p]);
    }
  }

  /** Two ascending runs, every rank of the first above every rank of the second, make one. */
  lemma {:induction false} ConcatAscending(a: seq<string>, b: seq<string>, term: string, ra: int, rb: int, lo: int)
    requires lo <= rb < ra
    requires RanksWithin(a, term, ra, 2) && RanksWithin(b, term, lo, rb)
    requires Ascending(a, term) && Ascending(b, term)
    ensures Ascending(a + b, term) && RanksWithin(a + b, term, lo, 2)
  {
    var s := a + b;
    forall p, q | 0 <= p < q < |s|
      ensures InOrder(s[p], s[q], term)
    {
      if q < |a| {
        assert s[p] == a[p] && s[q] == a[q];
      } else if p >= |a| {
        assert s[p] == b[p - |a|] && s[q] == b[q - |a|];
      } else {
        assert s[p] == a[p] && s[q] == b[q - |a|];
      }
    }
    forall i | 0 <= i < |s|
      ensures lo <= Rank(s[i], term) <= 2
    {
      if i < |a| {
        assert s[i] == a[i];
      } else {
        assert s[i] == b[i - |a|];
      }
    }
  }

  /**
   * Along the appended order the groups come non-matching first, then
   * containing, then starting-with (so the best matches end up last), and
   * within a group the names run in descending lower-cased order.
   */
  lemma SortOneListOrder(names: seq<string>, term: string)
    ensures var r := SortOneList(names, term);
            forall i, j :: 0 <= i < j < |r| ==>
              || Rank(r[i], term) < Rank(r[j], term)
              || (Rank(r[i], term) == Rank(r[j], term) && !Sorting.LexLess(Text.Lower(r[i]), Text.Lower(r[j])))
  {
    var a := SortedGroup(names, term, 2);
    var b := SortedGroup(names, term, 1);
    var c := SortedGroup(names, term, 0);
    SortedGroupOrdered(names, term, 2);
    SortedGroupOrdered(names, term, 1);
    SortedGroupOrdered(names, term, 0);
    ConcatAscending(a, b, term, 2, 1, 1);
    ConcatAscending(a + b, c, term, 1, 0, 0);
    ReverseOfAscending(a + b + c, term);
  }

  lemma {:induction false} ReverseOfAscending(s: seq<string>, term: string)
    requires Ascending(s, term)
    ensures var r := Reverse(s);
            forall i, j :: 0 <= i < j < |r| ==> InOrder(r[j], r[i], term)
  {
    var r := Reverse(s);
    forall i, j | 0 <= i < j < |r|
      ensures InOrder(r[j], r[i], term)
    {
      assert r[i] == s[|s| - 1 - i] && r[j] == s[|s| - 1 - j];
    }
  }
}
