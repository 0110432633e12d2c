/**
 * The legacy separate-spline renderer of static/js/text_to_splines.js.
 *
 * Each word is cut greedily into "joins": a join keeps growing by the next
 * character as long as the longer string is itself a key of `characters`.
 * Every join is drawn by `joinToSpline`, which moves its points next to the
 * pen cursor; after a word the cursor jumps a fixed word space to the right of
 * the last join's rightmost point and back to y = 0.
 */
module LegacyJoins {
  import opened Wrappers
  import opened Geometry
  import Text
  import Layout

  /** `characters`: the points of every character or ligature key. */
  type Characters = Dict<Stroke>

  /** `joins`: `joins[key][prev]` is the variant of `key` drawn right after the join `prev`. */
  type JoinTable = Dict<Dict<Stroke>>

  const WordSpace := 0.1

  /** `characters[s]` is truthy: every stored point list, even an empty one, is an object. */
  predicate Has(chars: Characters, s: string) {
    Lookup(chars, s).Some?
  }

  // ---------------------------------------------------------------------------
  // String.prototype.split with a one-character separator
  // ---------------------------------------------------------------------------

  /** `s.split(sep)`: the pieces between separators, empty pieces included. */
  function Split(s: string, sep: char): (parts: seq<string>)
    ensures |parts| >= 1
    ensures forall k :: 0 <= k < |parts| ==> sep !in parts[k]
  {
    if s == [] then [[]]
    else
      var rest := Split(s[1..], sep);
      if s[0] == sep then [[]] + rest else [[s[0]] + rest[0]] + rest[1..]
  }

  /** `parts.join(sep)`. */
  function JoinWith(parts: seq<string>, sep: char): string {
    if parts == [] then []
    else if |parts| == 1 then parts[0]
    else parts[0] + [sep] + JoinWith(parts[1..], sep)
  }

  /** Splitting loses nothing: joining the pieces with the separator gives the string back. */
  lemma {:induction false} SplitJoinRoundTrip(s: string, sep: char)
    ensures JoinWith(Split(s, sep), sep) == s
  {
    if s != [] {
      var rest := Split(s[1..], sep);
      SplitJoinRoundTrip(s[1..], sep);
      if s[0] == sep {
        assert Split(s, sep)[1..] == rest;
      } else {
        var parts := Split(s, sep);
        assert parts[1..] == rest[1..];
        if |rest| == 1 {
          assert s == [s[0]] + rest[0];
        } else {
          assert JoinWith(rest, sep) == rest[0] + [sep] + JoinWith(rest[1..], sep);
          assert s == [s[0]] + rest[0] + [sep] + JoinWith(rest[1..], sep);
        }
      }
    }
  }

  // ---------------------------------------------------------------------------
  // Greedy join segmentation (the character loop of textToSeparateSplines)
  // ---------------------------------------------------------------------------

  /** The joins handed to `joinToSpline` so far, and the join still growing. */
  datatype SegState = SegState(emitted: seq<string>, join: string)

  /** One character: extend the join if the longer key exists, else emit it and restart. */
  function SegStep(chars: Characters, st: SegState, c: char): SegState {
    if Has(chars, st.join + [c]) then SegState(st.emitted, st.join + [c])
    else if st.join != [] then SegState(st.emitted + [st.join], [c])
    else SegState(st.emitted, [c])
  }

  /** The state after the first `n` characters of `word`. */
  function SegUpTo(chars: Characters, word: string, n: nat): SegState
    requires n <= |word|
  {
    if n == 0 then SegState([], []) else SegStep(chars, SegUpTo(chars, word, n - 1), word[n - 1])
  }

  /** Every join drawn for `word`, in order: the emitted ones and then the last one. */
  function Joins(chars: Characters, word: string): seq<string> {
    var st := SegUpTo(chars, word, |word|);
    if st.join != [] then st.emitted + [st.join] else st.emitted
  }

  /** A join built by growth: non-empty, and each of its prefixes of two or more characters is a key. */
  ghost predicate Grown(chars: Characters, j: string) {
    j != [] && forall m :: 2 <= m <= |j| ==> Has(chars, j[..m])
  }

  ghost predicate AllGrown(chars: Characters, js: seq<string>) {
    forall k :: 0 <= k < |js| ==> Grown(chars, js[k])
  }

  /** `j` could not take the first character of `next`. */
  ghost predicate Blocked(chars: Characters, j: string, next: string) {
    next != [] && !Has(chars, j + [next[0]])
  }

  /** No join but the last could have grown by the character that follows it. */
  ghost predicate Maximal(chars: Characters, js: seq<string>) {
    forall k :: 0 <= k < |js| - 1 ==> Blocked(chars, js[k], js[k + 1])
  }

  lemma {:induction false} ConcatSnoc(ws: seq<string>, w: string)
    ensures Text.Concat(ws + [w]) == Text.Concat(ws) + w
  {
    if ws != [] {
      assert (ws + [w])[1..] == ws[1..] + [w];
      ConcatSnoc(ws[1..], w);
    }
  }

  ghost predicate SegSound(chars: Characters, word: string, n: nat, st: SegState)
    requires n <= |word|
  {
    && Text.Concat(st.emitted) + st.join == word[..n]
    && (st.join == [] <==> n == 0)
    && AllGrown(chars, st.emitted)
    && (n > 0 ==> Grown(chars, st.join))
    && Maximal(chars, st.emitted)
    && (st.emitted != [] ==> Blocked(chars, Last(st.emitted), st.join))
  }

  lemma {:induction false} SegStepSound(chars: Characters, word: string, n: nat)
    requires n < |word|
    ensures SegSound(chars, word, n + 1, SegUpTo(chars, word, n + 1))
    decreases n, 1
  {
    SegInvariant(chars, word, n);
    var st := SegUpTo(chars, word, n);
    var c := word[n];
    assert word[..n + 1] == word[..n] + [c];
    if Has(chars, st.join + [c]) {
      var j := st.join + [c];
      forall m | 2 <= m <= |j|
        ensures Has(chars, j[..m])
      {
        if m <= |st.join| {
          assert j[..m] == st.join[..m];
        } else {
          assert j[..m] == j;
        }
      }
    } else if st.join != [] {
      var es := st.emitted + [st.join];
      ConcatSnoc(st.emitted, st.join);
      assert Last(es) == st.join;
      forall k | 0 <= k < |es| - 1
        ensures Blocked(chars, es[k], es[k + 1])
      {
        if k < |st.emitted| - 1 {
          assert es[k] == st.emitted[k] && es[k + 1] == st.emitted[k + 1];
        } else {
          assert es[k] == Last(st.emitted) && es[k + 1] == st.join;
        }
      }
    }
  }

  lemma {:induction false} SegInvariant(chars: Characters, word: string, n: nat)
    requires n <= |word|
    ensures SegSound(chars, word, n, SegUpTo(chars, word, n))
    decreases n, 0
  {
    if n > 0 {
      SegStepSound(chars, word, n - 1);
    }
  }

  /** The joins, concatenated in order, spell the word. */
  lemma JoinsSpellWord(chars: Characters, word: string)
    ensures Text.Concat(Joins(chars, word)) == word
  {
    var st := SegUpTo(chars, word, |word|);
    SegInvariant(chars, word, |word|);
    assert word[..|word|] == word;
    if st.join != [] {
      ConcatSnoc(st.emitted, st.join);
    }
  }

  /**
   * The joins are greedy: each is non-empty with every prefix of two or more
   * characters a key (so a join is a key or a single character), and no join
   * but the last has a key extending it by the next character of the word.
   */
  lemma JoinsGreedy(chars: Characters, word: string)
    ensures AllGrown(chars, Joins(chars, word)) && Maximal(chars, Joins(chars, word))
    ensures forall k :: 0 <= k < |Joins(chars, word)| ==>
      Has(chars, Joins(chars, word)[k]) || |Joins(chars, word)[k]| == 1
  {
    var st := SegUpTo(chars, word, |word|);
    var js := Joins(chars, word);
    SegInvariant(chars, word, |word|);
    if st.join != [] {
      forall k | 0 <= k < |js| - 1
        ensures Blocked(chars, js[k], js[k + 1])
      {
        if k < |st.emitted| - 1 {
          assert js[k] == st.emitted[k] && js[k + 1] == st.emitted[k + 1];
        } else {
          assert js[k] == Last(st.emitted) && js[k + 1] == st.join;
        }
      }
    }
    forall k | 0 <= k < |js|
      ensures Has(chars, js[k]) || |js[k]| == 1
    {
      assert Grown(chars, js[k]);
      if |js[k]| >= 2 {
        assert js[k][..|js[k]|] == js[k];
      }
    }
  }

  /** After the first character, the join grows by the next character exactly when that longer string is a key. */
  lemma JoinGrowsIffKey(chars: Characters, word: string, n: nat)
    requires 0 < n < |word|
    ensures SegUpTo(chars, word, n + 1).join == SegUpTo(chars, word, n).join + [word[n]]
      <==> Has(chars, SegUpTo(chars, word, n).join + [word[n]])
  {
    SegInvariant(chars, word, n);
    var j := SegUpTo(chars, word, n).join;
    if !Has(chars, j + [word[n]]) {
      assert |j + [word[n]]| >= 2;
    }
  }

  // ---------------------------------------------------------------------------
  // joinToSpline
  // ---------------------------------------------------------------------------

  /** What `interpolatePoints` returns: empty arrays below two points, else the spline through them. */
  datatype Curve = NoCurve | Fitted(knots: Stroke)

  /** The guard of `interpolatePoints`; the cubic spline itself is not modelled. */
  function Interpolate(points: Stroke): (c: Curve)
    ensures c.NoCurve? <==> |points| < 2
    ensures c.Fitted? ==> c.knots == points
  {
    if |points| < 2 then NoCurve else Fitted(points)
  }

  /** The x coordinates of a point list. */
  function Xs(s: Stroke): (xs: seq<real>)
    ensures |xs| == |s|
    ensures forall i :: 0 <= i < |s| ==> xs[i] == s[i].x
  {
    seq(|s|, i requires 0 <= i < |s| => s[i].x)
  }

  /**
   * The points `joinToSpline` starts from: `characters[key]` (missing: it
   * throws), replaced after a previous join by `joins[key][prev]` when present.
   */
  function ChosenPoints(chars: Characters, joins: JoinTable, key: string, prev: Option<string>): Option<Stroke> {
    match Lookup(chars, key)
    case None => None
    case Some(own) =>
      if prev.None? then Some(own)
      else
        match Lookup(joins, key)
        case None => Some(own)
        case Some(byPrev) => Some(Lookup(byPrev, prev.value).GetOr(own))
  }

  /** `joinToSpline` throws: the key is missing, or the chosen point list has no first or last point. */
  predicate JoinFails(chars: Characters, joins: JoinTable, key: string, prev: Option<string>) {
    ChosenPoints(chars, joins, key, prev).None? || ChosenPoints(chars, joins, key, prev).value == []
  }

  /** The one vector a join is moved by: |min x| then the cursor for a first join, else first point to the cursor's x. */
  function JoinOffset(base: Stroke, cursor: Point, first: bool): Point
    requires base != []
  {
    if first then Point(Layout.Abs(Layout.MinOf(Xs(base))) + cursor.x, cursor.y)
    else Point(cursor.x - base[0].x, cursor.y)
  }

  /** The result of `joinToSpline`: the spline, its knot points, their largest x and the new cursor. */
  datatype JoinOut = JoinOut(spline: Curve, dots: Stroke, rightmostX: real, cursor: Point)

  /** `joinToSpline(key, cursor, prev)`, with `None` where the browser throws. */
  function PlaceJoin(chars: Characters, joins: JoinTable, key: string, cursor: Point, prev: Option<string>): (r: Option<JoinOut>)
    ensures r.None? <==> JoinFails(chars, joins, key, prev)
    ensures r.Some? ==>
      var o := r.value;
      && |o.dots| == |ChosenPoints(chars, joins, key, prev).value| > 0
      && o.cursor == Last(o.dots)
      && o.rightmostX in Xs(o.dots)
      && (forall i :: 0 <= i < |o.dots| ==> o.dots[i].x <= o.rightmostX)
      && o.spline == Interpolate(o.dots)
  {
    match ChosenPoints(chars, joins, key, prev)
    case None => None
    case Some(base) =>
      if base == [] then None
      else
        var dots := Translate(base, JoinOffset(base, cursor, prev.None?));
        var xs := Xs(dots);
        assert forall i :: 0 <= i < |xs| ==> xs[i] in xs;
        Some(JoinOut(Interpolate(dots), dots, Layout.MaxOf(Xs(dots)), Last(dots)))
  }

  /** Moving every point by `d` moves the smallest x by `d.x`. */
  lemma MinShift(s: Stroke, d: Point)
    requires s != []
    ensures Layout.MinOf(Xs(Translate(s, d))) == Layout.MinOf(Xs(s)) + d.x
  {
    var xs, ys := Xs(s), Xs(Translate(s, d));
    var m, m' := Layout.MinOf(xs), Layout.MinOf(ys);
    var i :| 0 <= i < |xs| && xs[i] == m;
    assert ys[i] == m + d.x && ys[i] in ys;
    var j :| 0 <= j < |ys| && ys[j] == m';
    assert ys[j] == xs[j] + d.x && xs[j] in xs;
  }

  /**
   * The first join of a word: every x gets |min x| and the cursor's x, every y
   * only the cursor's y, so its leftmost point lands on the cursor exactly when
   * its min x was at most 0.
   */
  lemma FirstJoinPlacement(chars: Characters, joins: JoinTable, key: string, cursor: Point)
    requires PlaceJoin(chars, joins, key, cursor, None).Some?
    ensures Has(chars, key)
    ensures var base := Lookup(chars, key).value;
      var dots := PlaceJoin(chars, joins, key, cursor, None).value.dots;
      var m := Layout.MinOf(Xs(base));
      && |dots| == |base|
      && (forall i :: 0 <= i < |base| ==> dots[i] == Point(base[i].x + Layout.Abs(m) + cursor.x, base[i].y + cursor.y))
      && Layout.MinOf(Xs(dots)) == cursor.x + m + Layout.Abs(m)
      && (m <= 0.0 <==> Layout.MinOf(Xs(dots)) == cursor.x)
  {
    var base := Lookup(chars, key).value;
    MinShift(base, JoinOffset(base, cursor, true));
  }

  /**
   * A later join takes `joins[key][prev]` when there is one, else
   * `characters[key]`, and is moved rigidly so that its first point has the
   * cursor's x; its y is moved by the cursor's y only.
   */
  lemma LaterJoinPlacement(chars: Characters, joins: JoinTable, key: string, cursor: Point, prev: string)
    requires PlaceJoin(chars, joins, key, cursor, Some(prev)).Some?
    ensures Has(chars, key)
    ensures var base := ChosenPoints(chars, joins, key, Some(prev)).value;
      var dots := PlaceJoin(chars, joins, key, cursor, Some(prev)).value.dots;
      && (Lookup(joins, key).Some? && Lookup(Lookup(joins, key).value, prev).Some? ==>
            base == Lookup(Lookup(joins, key).value, prev).value)
      && (Lookup(joins, key).None? || Lookup(Lookup(joins, key).value, prev).None? ==>
            base == Lookup(chars, key).value)
      && dots[0].x == cursor.x && dots[0].y == base[0].y + cursor.y
      && (forall i, j :: 0 <= i < |dots| && 0 <= j < |dots| ==> Sub(dots[i], dots[j]) == Sub(base[i], base[j]))
  {
  }

  /** `joinToSpline`: rebinds its point list step by step as the browser code does. */
  method JoinToSpline(chars: Characters, joins: JoinTable, key: string, cursor: Point, prev: Option<string>)
    returns (r: Option<JoinOut>)
    ensures r == PlaceJoin(chars, joins, key, cursor, prev)
  {
    var own := Lookup(chars, key);
    if own.None? {
      return None;
    }
    var joinPoints := own.value;
    var moved: Point;
    if prev.None? {
      if joinPoints == [] {
        // Math.min() is Infinity and the final `joinPoints[-1].slice()` throws.
        return None;
      }
      var minX := Layout.MinOf(Xs(joinPoints));
      moved := Point(Layout.Abs(minX), 0.0);
    } else {
      var byPrev := Lookup(joins, key);
      if byPrev.Some? {
        var alt := Lookup(byPrev.value, prev.value);
        if alt.Some? {
          joinPoints := alt.value;
        }
      }
      if joinPoints == [] {
        // `joinPoints[0][0]` throws.
        return None;
      }
      var shiftX := joinPoints[0].x;
      moved := Point(-shiftX, 0.0);
    }
    var base := joinPoints;
    assert Add(moved, cursor) == JoinOffset(base, cursor, prev.None?);
    joinPoints := Translate(joinPoints, moved);
    joinPoints := Translate(joinPoints, cursor);
    TranslateTwice(base, moved, cursor);
    var spline := Interpolate(joinPoints);
    var rightmostX := Layout.MaxOf(Xs(joinPoints));
    r := Some(JoinOut(spline, joinPoints, rightmostX, Last(joinPoints)));
  }

  // ---------------------------------------------------------------------------
  // Words and lines
  // ---------------------------------------------------------------------------

  /** Everything textToSeparateSplines accumulates: splines, knot points, `rightmostX` and `cursorPos`. */
  datatype Drawn = Drawn(splines: seq<Curve>, dots: seq<Stroke>, rightmost: real, cursor: Point)

  const Start := Drawn([], [], 0.0, Origin)

  /** The `prev` passed with join `k` of a word: none for the first. */
  function Prev(js: seq<string>, k: nat): Option<string>
    requires k < |js|
  {
    if k == 0 then None else Some(js[k - 1])
  }

  function Record(d: Drawn, o: JoinOut): Drawn {
    Drawn(d.splines + [o.spline], d.dots + [o.dots], o.rightmostX, o.cursor)
  }

  /** Drawing the joins `js` of one word in order, from state `st`. */
  function DrawJoins(chars: Characters, joins: JoinTable, st: Drawn, js: seq<string>): Option<Drawn> {
    if js == [] then Some(st)
    else
      match DrawJoins(chars, joins, st, js[..|js| - 1])
      case None => None
      case Some(d) =>
        match PlaceJoin(chars, joins, Last(js), d.cursor, Prev(js, |js| - 1))
        case None => None
        case Some(o) => Some(Record(d, o))
  }

  /** One word of a line: empty pieces are skipped; otherwise its joins, then the cursor moves on. */
  function DrawWord(chars: Characters, joins: JoinTable, st: Drawn, word: string): Option<Drawn> {
    if word == [] then Some(st) else NextWordCursor(DrawJoins(chars, joins, st, Joins(chars, word)))
  }

  /** `cursorPos = [rightmostX + wordSpace, 0]` once a word is drawn. */
  function NextWordCursor(o: Option<Drawn>): Option<Drawn> {
    match o
    case None => None
    case Some(d) => Some(d.(cursor := Point(d.rightmost + WordSpace, 0.0)))
  }

  function DrawWords(chars: Characters, joins: JoinTable, st: Drawn, ws: seq<string>): Option<Drawn> {
    if ws == [] then Some(st)
    else
      match DrawWords(chars, joins, st, ws[..|ws| - 1])
      case None => None
      case Some(d) => DrawWord(chars, joins, d, Last(ws))
  }

  function DrawLines(chars: Characters, joins: JoinTable, st: Drawn, lines: seq<string>): Option<Drawn> {
    if lines == [] then Some(st)
    else
      match DrawLines(chars, joins, st, lines[..|lines| - 1])
      case None => None
      case Some(d) => DrawWords(chars, joins, d, Split(Last(lines), ' '))
  }

  /** The result of `textToSeparateSplines(text)`: the splines and knot points, or `None` where it throws. */
  function SeparateSplines(chars: Characters, joins: JoinTable, text: string): Option<(seq<Curve>, seq<Stroke>)> {
    match DrawLines(chars, joins, Start, Split(text, '\n'))
    case None => None
    case Some(d) => Some((d.splines, d.dots))
  }

  /** Drawing fails exactly when some join, with its own `prev`, makes `joinToSpline` throw. */
  lemma {:induction false} DrawJoinsFailsIff(chars: Characters, joins: JoinTable, st: Drawn, js: seq<string>)
    ensures DrawJoins(chars, joins, st, js).None? <==>
      exists k :: 0 <= k < |js| && JoinFails(chars, joins, js[k], Prev(js, k))
  {
    if js != [] {
      var init := js[..|js| - 1];
      DrawJoinsFailsIff(chars, joins, st, init);
      forall k | 0 <= k < |init|
        ensures init[k] == js[k] && Prev(init, k) == Prev(js, k)
      {
      }
      if DrawJoins(chars, joins, st, init).None? {
        var k :| 0 <= k < |init| && JoinFails(chars, joins, init[k], Prev(init, k));
        assert JoinFails(chars, joins, js[k], Prev(js, k));
      }
    }
  }

  /**
   * Drawing the joins appends one spline and one knot list per join and keeps
   * what was drawn before; afterwards `rightmostX` and the cursor come from the
   * last join.
   */
  lemma {:induction false} DrawJoinsRecords(chars: Characters, joins: JoinTable, st: Drawn, js: seq<string>)
    requires DrawJoins(chars, joins, st, js).Some?
    ensures var d := DrawJoins(chars, joins, st, js).value;
      && |d.splines| == |st.splines| + |js| && d.splines[..|st.splines|] == st.splines
      && |d.dots| == |st.dots| + |js| && d.dots[..|st.dots|] == st.dots
      && (js == [] ==> d == st)
      && (js != [] ==>
            && Last(d.dots) != [] && d.cursor == Last(Last(d.dots))
            && d.rightmost in Xs(Last(d.dots))
            && forall i :: 0 <= i < |Last(d.dots)| ==> Last(d.dots)[i].x <= d.rightmost)
  {
    if js != [] {
      DrawJoinsRecords(chars, joins, st, js[..|js| - 1]);
    }
  }

  /**
   * After a non-empty word the cursor is `(rightmostX + wordSpace, 0)`, where
   * `rightmostX` is the largest x of the word's last join; an empty piece of
   * the line changes nothing.
   */
  lemma WordMovesCursor(chars: Characters, joins: JoinTable, st: Drawn, word: string)
    requires DrawWord(chars, joins, st, word).Some?
    ensures var d := DrawWord(chars, joins, st, word).value;
      && (word == [] ==> d == st)
      && (word != [] ==>
            && |d.dots| == |st.dots| + |Joins(chars, word)| > |st.dots|
            && d.dots[..|st.dots|] == st.dots
            && d.cursor == Point(d.rightmost + WordSpace, 0.0)
            && d.rightmost in Xs(Last(d.dots))
            && forall i :: 0 <= i < |Last(d.dots)| ==> Last(d.dots)[i].x <= d.rightmost)
  {
    if word != [] {
      var js := Joins(chars, word);
      DrawJoinsRecords(chars, joins, st, js);
      JoinsSpellWord(chars, word);
    }
  }

  lemma {:induction false} ConcatHasChars(ws: seq<string>, k: nat, i: nat)
    requires k < |ws| && i < |ws[k]|
    ensures ws[k][i] in Text.Concat(ws)
  {
    if k > 0 {
      ConcatHasChars(ws[1..], k - 1, i);
    }
  }

  /** Some join of the word is a single character with no entry: `characters[char].slice()` throws. */
  lemma MissingSingleFails(chars: Characters, joins: JoinTable, st: Drawn, word: string, k: nat)
    requires k < |Joins(chars, word)|
    requires |Joins(chars, word)[k]| == 1 && !Has(chars, Joins(chars, word)[k])
    ensures DrawWord(chars, joins, st, word).None?
  {
    var js := Joins(chars, word);
    DrawJoinsFailsIff(chars, joins, st, js);
    assert JoinFails(chars, joins, js[k], Prev(js, k));
    JoinsSpellWord(chars, word);
    assert word != [] by {
      ConcatHasChars(js, k, 0);
    }
  }

  /** Every stored point list, plain or join variant, has points. */
  ghost predicate TablesNonEmpty(chars: Characters, joins: JoinTable) {
    && (forall e :: e in chars ==> e.1 != [])
    && (forall e, f :: e in joins && f in e.1 ==> f.1 != [])
  }

  /** A word whose every character has an entry is drawn without error when no stored point list is empty. */
  lemma WordDrawsWhenCharsKnown(chars: Characters, joins: JoinTable, st: Drawn, word: string)
    requires TablesNonEmpty(chars, joins)
    requires forall i :: 0 <= i < |word| ==> Has(chars, [word[i]])
    ensures DrawWord(chars, joins, st, word).Some?
  {
    if word != [] {
      var js := Joins(chars, word);
      JoinsGreedy(chars, word);
      JoinsSpellWord(chars, word);
      forall k | 0 <= k < |js|
        ensures !JoinFails(chars, joins, js[k], Prev(js, k))
      {
        if |js[k]| == 1 {
          ConcatHasChars(js, k, 0);
          var i :| 0 <= i < |word| && word[i] == js[k][0];
          assert js[k] == [word[i]];
        }
        var own := Lookup(chars, js[k]);
        assert (js[k], own.value) in chars;
        if k > 0 {
          var byPrev := Lookup(joins, js[k]);
          if byPrev.Some? {
            assert (js[k], byPrev.value) in joins;
            var alt := Lookup(byPrev.value, js[k - 1]);
            if alt.Some? {
              assert (js[k - 1], alt.value) in byPrev.value;
            }
          }
        }
      }
      DrawJoinsFailsIff(chars, joins, st, js);
    }
  }

  function ThenWords(chars: Characters, joins: JoinTable, o: Option<Drawn>, ws: seq<string>): Option<Drawn> {
    match o
    case None => None
    case Some(d) => DrawWords(chars, joins, d, ws)
  }

  lemma {:induction false} DrawWordsAppend(chars: Characters, joins: JoinTable, st: Drawn, a: seq<string>, b: seq<string>)
    ensures DrawWords(chars, joins, st, a + b) == ThenWords(chars, joins, DrawWords(chars, joins, st, a), b)
  {
    if b != [] {
      var front := b[..|b| - 1];
      assert (a + b)[..|a + b| - 1] == a + front && Last(a + b) == Last(b);
      DrawWordsAppend(chars, joins, st, a, front);
    } else {
      assert a + b == a;
    }
  }

  /** The words of all lines, line after line. */
  function LineWords(lines: seq<string>): seq<string> {
    if lines == [] then [] else LineWords(lines[..|lines| - 1]) + Split(Last(lines), ' ')
  }

  /**
   * `yOffset` is decremented per line but never applied: the lines are drawn
   * exactly as if all their words stood on one line.
   */
  lemma {:induction false} LinesDrawnAsOneLine(chars: Characters, joins: JoinTable, st: Drawn, lines: seq<string>)
    ensures DrawLines(chars, joins, st, lines) == DrawWords(chars, joins, st, LineWords(lines))
  {
    if lines != [] {
      var init := lines[..|lines| - 1];
      LinesDrawnAsOneLine(chars, joins, st, init);
      DrawWordsAppend(chars, joins, st, LineWords(init), Split(Last(lines), ' '));
    }
  }

  // ---------------------------------------------------------------------------
  // The loops
  // ---------------------------------------------------------------------------

  predicate IsPrefix<T(==)>(a: seq<T>, b: seq<T>) {
    |a| <= |b| && b[..|a|] == a
  }

  lemma {:induction false} EmittedGrows(chars: Characters, word: string, n: nat, m: nat)
    requires n <= m <= |word|
    ensures IsPrefix(SegUpTo(chars, word, n).emitted, SegUpTo(chars, word, m).emitted)
  {
    if n < m {
      EmittedGrows(chars, word, n, m - 1);
      var a, b := SegUpTo(chars, word, n).emitted, SegUpTo(chars, word, m - 1).emitted;
      var c := SegUpTo(chars, word, m).emitted;
      if c != b {
        assert c[..|b|] == b;
        assert c[..|a|] == b[..|a|];
      }
    }
  }

  /** The joins emitted after `n` characters are the first joins of the word. */
  lemma EmittedArePrefix(chars: Characters, word: string, n: nat)
    requires n <= |word|
    ensures IsPrefix(SegUpTo(chars, word, n).emitted, Joins(chars, word))
  {
    EmittedGrows(chars, word, n, |word|);
    var e := SegUpTo(chars, word, |word|).emitted;
    var a := SegUpTo(chars, word, n).emitted;
    if Joins(chars, word) != e {
      assert Joins(chars, word)[..|a|] == e[..|a|];
    }
  }

  lemma {:induction false} DrawJoinsFailurePersists(chars: Characters, joins: JoinTable, st: Drawn, a: seq<string>, b: seq<string>)
    requires IsPrefix(a, b)
    requires DrawJoins(chars, joins, st, a).None?
    ensures DrawJoins(chars, joins, st, b).None?
  {
    if |b| > |a| {
      assert b[..|b| - 1][..|a|] == a;
      DrawJoinsFailurePersists(chars, joins, st, a, b[..|b| - 1]);
    } else {
      assert b == a;
    }
  }

  lemma DrawJoinsSnoc(chars: Characters, joins: JoinTable, st: Drawn, js: seq<string>, j: string)
    ensures DrawJoins(chars, joins, st, js + [j]) ==
      match DrawJoins(chars, joins, st, js)
      case None => None
      case Some(d) =>
        match PlaceJoin(chars, joins, j, d.cursor, if js == [] then None else Some(Last(js)))
        case None => None
        case Some(o) => Some(Record(d, o))
  {
    assert (js + [j])[..|js|] == js;
  }

  /** One completed join handed to `joinToSpline`, its spline and knots pushed, `rightmostX` and the cursor taken over. */
  method EmitJoin(chars: Characters, joins: JoinTable, st: Drawn, d: Drawn, join: string, prev: Option<string>,
                  ghost emitted: seq<string>)
    returns (r: Option<Drawn>)
    requires DrawJoins(chars, joins, st, emitted) == Some(d)
    requires prev == if emitted == [] then None else Some(Last(emitted))
    ensures r == DrawJoins(chars, joins, st, emitted + [join])
  {
    DrawJoinsSnoc(chars, joins, st, emitted, join);
    var o := JoinToSpline(chars, joins, join, d.cursor, prev);
    if o.None? {
      return None;
    }
    r := Some(Record(d, o.value));
  }

  /** What the character loop keeps: the segmentation so far, and the joins emitted so far drawn from `st`. */
  ghost predicate WordLoop(chars: Characters, joins: JoinTable, st: Drawn, word: string, n: nat,
                           join: string, prev: Option<string>, d: Drawn, emitted: seq<string>)
    requires n <= |word|
  {
    && SegState(emitted, join) == SegUpTo(chars, word, n)
    && DrawJoins(chars, joins, st, emitted) == Some(d)
    && prev == if emitted == [] then None else Some(Last(emitted))
  }

  lemma SegUpToUnfold(chars: Characters, word: string, n: nat)
    requires n < |word|
    ensures SegUpTo(chars, word, n + 1) == SegStep(chars, SegUpTo(chars, word, n), word[n])
  {
  }

  /** A failure on the joins emitted after `n` characters is a failure on all the joins of the word. */
  lemma EmittedFailurePersists(chars: Characters, joins: JoinTable, st: Drawn, word: string, n: nat)
    requires n <= |word|
    requires DrawJoins(chars, joins, st, SegUpTo(chars, word, n).emitted).None?
    ensures DrawJoins(chars, joins, st, Joins(chars, word)).None?
  {
    EmittedArePrefix(chars, word, n);
    DrawJoinsFailurePersists(chars, joins, st, SegUpTo(chars, word, n).emitted, Joins(chars, word));
  }

  /** The open join grows by the next character. */
  lemma WordLoopGrow(chars: Characters, joins: JoinTable, st: Drawn, word: string, n: nat,
                     join: string, prev: Option<string>, d: Drawn, emitted: seq<string>)
    requires n < |word|
    requires WordLoop(chars, joins, st, word, n, join, prev, d, emitted)
    requires Has(chars, join + [word[n]])
    ensures WordLoop(chars, joins, st, word, n + 1, join + [word[n]], prev, d, emitted)
  {
    SegUpToUnfold(chars, word, n);
  }

  /** The open join is emitted and the next character opens a new one. */
  lemma WordLoopEmit(chars: Characters, joins: JoinTable, st: Drawn, word: string, n: nat,
                     join: string, prev: Option<string>, d: Drawn, emitted: seq<string>, d': Drawn)
    requires n < |word|
    requires WordLoop(chars, joins, st, word, n, join, prev, d, emitted)
    requires !Has(chars, join + [word[n]]) && join != []
    requires DrawJoins(chars, joins, st, emitted + [join]) == Some(d')
    ensures WordLoop(chars, joins, st, word, n + 1, [word[n]], Some(join), d', emitted + [join])
  {
    SegUpToUnfold(chars, word, n);
  }

  /** The first character of the word opens the first join. */
  lemma WordLoopOpen(chars: Characters, joins: JoinTable, st: Drawn, word: string, n: nat,
                     join: string, prev: Option<string>, d: Drawn, emitted: seq<string>)
    requires n < |word|
    requires WordLoop(chars, joins, st, word, n, join, prev, d, emitted)
    requires !Has(chars, join + [word[n]]) && join == []
    ensures WordLoop(chars, joins, st, word, n + 1, [word[n]], prev, d, emitted)
  {
    SegUpToUnfold(chars, word, n);
  }

  /** A failing emission fails the whole word. */
  lemma WordLoopFail(chars: Characters, joins: JoinTable, st: Drawn, word: string, n: nat,
                     join: string, prev: Option<string>, d: Drawn, emitted: seq<string>)
    requires n < |word|
    requires WordLoop(chars, joins, st, word, n, join, prev, d, emitted)
    requires !Has(chars, join + [word[n]]) && join != []
    requires DrawJoins(chars, joins, st, emitted + [join]).None?
    ensures DrawJoins(chars, joins, st, Joins(chars, word)).None?
  {
    SegUpToUnfold(chars, word, n);
    assert SegUpTo(chars, word, n + 1).emitted == emitted + [join];
    EmittedFailurePersists(chars, joins, st, word, n + 1);
  }

  /** One pass of `for (const char of word)`; `ok` is false where `joinToSpline` throws. */
  method PlotChar(chars: Characters, joins: JoinTable, st: Drawn, word: string, n: nat,
                  join: string, prev: Option<string>, d: Drawn, ghost emitted: seq<string>)
    returns (ok: bool, join': string, prev': Option<string>, d': Drawn, ghost emitted': seq<string>)
    requires n < |word|
    requires WordLoop(chars, joins, st, word, n, join, prev, d, emitted)
    ensures ok ==> WordLoop(chars, joins, st, word, n + 1, join', prev', d', emitted')
    ensures !ok ==> DrawJoins(chars, joins, st, Joins(chars, word)).None?
  {
    join', prev', d', emitted' := join, prev, d, emitted;
    ok := true;
    var testJoin := join + [word[n]];
    if Has(chars, testJoin) {
      WordLoopGrow(chars, joins, st, word, n, join, prev, d, emitted);
      join' := testJoin;
    } else if join != [] {
      var next := EmitJoin(chars, joins, st, d, join, prev, emitted);
      if next.None? {
        WordLoopFail(chars, joins, st, word, n, join, prev, d, emitted);
        return false, join', prev', d', emitted';
      }
      WordLoopEmit(chars, joins, st, word, n, join, prev, d, emitted, next.value);
      d' := next.value;
      prev' := Some(join);
      emitted' := emitted + [join];
      join' := [word[n]];
    } else {
      WordLoopOpen(chars, joins, st, word, n, join, prev, d, emitted);
      join' := [word[n]];
    }
  }

  /** The character loop of one non-empty word, with `joinToSpline` called as each join completes. */
  method PlotWord(chars: Characters, joins: JoinTable, st: Drawn, word: string) returns (r: Option<Drawn>)
    ensures r == DrawWord(chars, joins, st, word)
  {
    if word == [] {
      return Some(st);
    }
    var join: string := [];
    var prev: Option<string> := None;
    var d := st;
    ghost var emitted: seq<string> := [];
    for n := 0 to |word|
      invariant WordLoop(chars, joins, st, word, n, join, prev, d, emitted)
    {
      var ok;
      ok, join, prev, d, emitted := PlotChar(chars, joins, st, word, n, join, prev, d, emitted);
      if !ok {
        return None;
      }
    }
    // the word is non-empty, so a join is still open
    WordLoopEnds(chars, joins, st, word, join, prev, d, emitted);
    var drawn := EmitJoin(chars, joins, st, d, join, prev, emitted);
    r := NextWordCursor(drawn);
  }

  lemma WordLoopEnds(chars: Characters, joins: JoinTable, st: Drawn, word: string,
                     join: string, prev: Option<string>, d: Drawn, emitted: seq<string>)
    requires word != []
    requires WordLoop(chars, joins, st, word, |word|, join, prev, d, emitted)
    ensures Joins(chars, word) == emitted + [join]
  {
    SegInvariant(chars, word, |word|);
  }

  lemma {:induction false} DrawWordsFailurePersists(chars: Characters, joins: JoinTable, st: Drawn, ws: seq<string>, n: nat)
    requires n <= |ws|
    requires DrawWords(chars, joins, st, ws[..n]).None?
    ensures DrawWords(chars, joins, st, ws).None?
  {
    var a, b := ws[..n], ws[n..];
    assert a + b == ws;
    DrawWordsAppend(chars, joins, st, a, b);
  }

  /** `words.forEach` over the pieces of one line. */
  method PlotLine(chars: Characters, joins: JoinTable, st: Drawn, line: string) returns (r: Option<Drawn>)
    ensures r == DrawWords(chars, joins, st, Split(line, ' '))
  {
    var words := Split(line, ' ');
    var d := st;
    for i := 0 to |words|
      invariant DrawWords(chars, joins, st, words[..i]) == Some(d)
    {
      assert words[..i + 1][..i] == words[..i];
      var next := PlotWord(chars, joins, d, words[i]);
      if next.None? {
        DrawWordsFailurePersists(chars, joins, st, words, i + 1);
        return None;
      }
      d := next.value;
    }
    assert words[..|words|] == words;
    r := Some(d);
  }

  lemma {:induction false} DrawLinesFailurePersists(chars: Characters, joins: JoinTable, st: Drawn, lines: seq<string>, n: nat)
    requires n <= |lines|
    requires DrawLines(chars, joins, st, lines[..n]).None?
    ensures DrawLines(chars, joins, st, lines).None?
    decreases |lines| - n
  {
    if n < |lines| {
      assert lines[..n + 1][..n] == lines[..n];
      DrawLinesFailurePersists(chars, joins, st, lines, n + 1);
    } else {
      assert lines[..n] == lines;
    }
  }

  /** `textToSeparateSplines(text)`. */
  method TextToSeparateSplines(chars: Characters, joins: JoinTable, text: string)
    returns (r: Option<(seq<Curve>, seq<Stroke>)>)
    ensures r == SeparateSplines(chars, joins, text)
  {
    var lines := Split(text, '\n');
    var d := Start;
    for i := 0 to |lines|
      invariant DrawLines(chars, joins, Start, lines[..i]) == Some(d)
    {
      assert lines[..i + 1][..i] == lines[..i];
      var next := PlotLine(chars, joins, d, lines[i]);
      if next.None? {
        DrawLinesFailurePersists(chars, joins, Start, lines, i + 1);
        return None;
      }
      d := next.value;
    }
    assert lines[..|lines|] == lines;
    r := Some((d.splines, d.dots));
  }
}
