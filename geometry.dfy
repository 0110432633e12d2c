/**
 * Stroke geometry shared by every part of the shorthand engine.
 *
 * A control point is a pair of reals, a stroke is an ordered list of points
 * (one continuous pen-down path) and a token geometry ("glyph") is an ordered
 * list of strokes. Dictionaries of the system keep their insertion order, which
 * the tokenizer's tie-breaking depends on, so they are ordered association lists.
 */
module Geometry {
  import opened Wrappers

  datatype Point = Point(x: real, y: real)

  type Stroke = seq<Point>

  /** The strokes drawn for one matched glyph, mode or phrase. */
  type Glyph = seq<Stroke>

  const Origin := Point(0.0, 0.0)

  function Add(p: Point, d: Point): Point {
    Point(p.x + d.x, p.y + d.y)
  }

  function Sub(p: Point, q: Point): Point {
    Point(p.x - q.x, p.y - q.y)
  }

  /** Every point of `s` moved by `d`. */
  function Translate(s: Stroke, d: Point): (r: Stroke)
    ensures |r| == |s|
    ensures forall i :: 0 <= i < |s| ==> r[i] == Add(s[i], d)
  {
    seq(|s|, i requires 0 <= i < |s| => Add(s[i], d))
  }

  /** Every stroke of `g` moved by `d`. */
  function TranslateAll(g: seq<Stroke>, d: Point): (r: seq<Stroke>)
    ensures |r| == |g|
    ensures forall i :: 0 <= i < |g| ==> r[i] == Translate(g[i], d)
  {
    seq(|g|, i requires 0 <= i < |g| => Translate(g[i], d))
  }

  /** Translation keeps the vector between any two points of a stroke. */
  lemma TranslateKeepsDifferences(s: Stroke, d: Point, i: nat, j: nat)
    requires i < |s| && j < |s|
    ensures Sub(Translate(s, d)[i], Translate(s, d)[j]) == Sub(s[i], s[j])
  {
  }

  /** Two moves in a row are one move by their sum. */
  lemma TranslateTwice(s: Stroke, d1: Point, d2: Point)
    ensures Translate(Translate(s, d1), d2) == Translate(s, Add(d1, d2))
  {
    assert forall i :: 0 <= i < |s| ==> Add(Add(s[i], d1), d2) == Add(s[i], Add(d1, d2));
  }

  function Last<T>(s: seq<T>): T
    requires |s| > 0
  {
    s[|s| - 1]
  }

  /** The invariant the system data is meant to satisfy: at least one stroke, no stroke empty. */
  predicate WellFormed(g: Glyph) {
    |g| > 0 && forall i :: 0 <= i < |g| ==> |g[i]| > 0
  }

  /** An insertion-ordered dictionary with string keys. */
  type Dict<V> = seq<(string, V)>

  function Keys<V>(d: Dict<V>): (r: seq<string>)
    ensures |r| == |d|
    ensures forall i :: 0 <= i < |d| ==> r[i] == d[i].0
  {
    seq(|d|, i requires 0 <= i < |d| => d[i].0)
  }

  /** The value stored under `k`: the first entry with that key (keys are distinct in a real dictionary). */
  function Lookup<V>(d: Dict<V>, k: string): (r: Option<V>)
    ensures r.None? <==> k !in Keys(d)
    ensures r.Some? ==> (k, r.value) in d
  {
    if d == [] then None
    else if d[0].0 == k then Some(d[0].1)
    else
      assert Keys(d) == [d[0].0] + Keys(d[1..]);
      Lookup(d[1..], k)
  }
}
