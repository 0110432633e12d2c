/**
 * `escapeHtml` (static/js/writer-scripts.js): five global replacements,
 * ampersand first, that make a rule or mode name safe to put in markup.
 */
module Escape {

  /** Every occurrence of `c` in `s` replaced by `rep` (`replace(/c/g, rep)`). */
  function ReplaceAll(s: string, c: char, rep: string): (r: string)
    ensures c !in s ==> r == s
  {
    if s == [] then []
    else (if s[0] == c then rep else [s[0]]) + ReplaceAll(s[1..], c, rep)
  }

  /** The five passes, in the order the browser runs them. */
  function EscapeHtml(s: string): string {
    ReplaceAll(ReplaceAll(ReplaceAll(ReplaceAll(ReplaceAll(s, '&', "&amp;"), '<', "&lt;"), '>', "&gt;"), '"', "&quot;"), '\'', "&#039;")
  }

  /** The entity for one character, or the character itself. */
  function EscapeChar(c: char): string {
    match c
    case '&' => "&amp;"
    case '<' => "&lt;"
    case '>' => "&gt;"
    case '"' => "&quot;"
    case '\'' => "&#039;"
    case _ => [c]
  }

  /** A reference definition: every character escaped on its own. */
  function EscapeEach(s: string): string {
    if s == [] then [] else EscapeChar(s[0]) + EscapeEach(s[1..])
  }

  lemma {:induction false} ReplaceAllConcat(a: string, b: string, c: char, rep: string)
    ensures ReplaceAll(a + b, c, rep) == ReplaceAll(a, c, rep) + ReplaceAll(b, c, rep)
  {
    if a == [] {
      assert a + b == b;
    } else {
      assert (a + b)[0] == a[0] && (a + b)[1..] == a[1..] + b;
      ReplaceAllConcat(a[1..], b, c, rep);
    }
  }

  lemma EscapeHtmlConcat(a: string, b: string)
    ensures EscapeHtml(a + b) == EscapeHtml(a) + EscapeHtml(b)
  {
    var s1a, s1b := ReplaceAll(a, '&', "&amp;"), ReplaceAll(b, '&', "&amp;");
    ReplaceAllConcat(a, b, '&', "&amp;");
    var s2a, s2b := ReplaceAll(s1a, '<', "&lt;"), ReplaceAll(s1b, '<', "&lt;");
    ReplaceAllConcat(s1a, s1b, '<', "&lt;");
    var s3a, s3b := ReplaceAll(s2a, '>', "&gt;"), ReplaceAll(s2b, '>', "&gt;");
    ReplaceAllConcat(s2a, s2b, '>', "&gt;");
    var s4a, s4b := ReplaceAll(s3a, '"', "&quot;"), ReplaceAll(s3b, '"', "&quot;");
    ReplaceAllConcat(s3a, s3b, '"', "&quot;");
    ReplaceAllConcat(s4a, s4b, '\'', "&#039;");
  }

  lemma ReplaceAllSingle(c: char, d: char, rep: string)
    ensures ReplaceAll([c], d, rep) == if c == d then rep else [c]
  {
    assert [c][1..] == [];
  }

  /** The five passes on one character give that character's entity. */
  lemma EscapeHtmlChar(c: char)
    ensures EscapeHtml([c]) == EscapeChar(c)
  {
    ReplaceAllSingle(c, '&', "&amp;");
    var s1 := ReplaceAll([c], '&', "&amp;");
    assert '<' !in "&amp;" && '>' !in "&amp;" && '"' !in "&amp;" && '\'' !in "&amp;";
    if c != '&' {
      ReplaceAllSingle(c, '<', "&lt;");
    }
    var s2 := ReplaceAll(s1, '<', "&lt;");
    assert '>' !in "&lt;" && '"' !in "&lt;" && '\'' !in "&lt;";
    if c != '&' && c != '<' {
      ReplaceAllSingle(c, '>', "&gt;");
    }
    var s3 := ReplaceAll(s2, '>', "&gt;");
    assert '"' !in "&gt;" && '\'' !in "&gt;";
    if c != '&' && c != '<' && c != '>' {
      ReplaceAllSingle(c, '"', "&quot;");
    }
    var s4 := ReplaceAll(s3, '"', "&quot;");
    assert '\'' !in "&quot;";
    if c != '&' && c != '<' && c != '>' && c != '"' {
      ReplaceAllSingle(c, '\'', "&#039;");
    }
  }

  /**
   * Replacing the ampersand first means no pass touches an entity an earlier
   * pass inserted: the five passes escape each character independently.
   */
  lemma {:induction false} EscapeHtmlIsPerChar(s: string)
    ensures EscapeHtml(s) == EscapeEach(s)
  {
    if s != [] {
      assert s == [s[0]] + s[1..];
      EscapeHtmlConcat([s[0]], s[1..]);
      EscapeHtmlChar(s[0]);
      EscapeHtmlIsPerChar(s[1..]);
    }
  }

  const Specials: set<char> := {'<', '>', '"', '\''}

  lemma {:induction false} EscapeEachHasNoSpecials(s: string)
    ensures forall i :: 0 <= i < |EscapeEach(s)| ==> EscapeEach(s)[i] !in Specials
  {
    if s != [] {
      EscapeEachHasNoSpecials(s[1..]);
      var e := EscapeChar(s[0]);
      forall i | 0 <= i < |EscapeEach(s)|
        ensures EscapeEach(s)[i] !in Specials
      {
        if i >= |e| {
          assert EscapeEach(s)[i] == EscapeEach(s[1..])[i - |e|];
        }
      }
    }
  }

  /** The output holds no `<`, `>`, `"` or `'`. */
  lemma EscapeHtmlHasNoSpecials(s: string)
    ensures forall i :: 0 <= i < |EscapeHtml(s)| ==> EscapeHtml(s)[i] !in Specials
  {
    EscapeHtmlIsPerChar(s);
    EscapeEachHasNoSpecials(s);
  }

  predicate StartsWith(s: string, p: string) {
    |p| <= |s| && s[..|p|] == p
  }

  /** One of the five entities starts at position `i`. */
  predicate EntityAt(r: string, i: nat)
    requires i <= |r|
  {
    var t := r[i..];
    StartsWith(t, "&amp;") || StartsWith(t, "&lt;") || StartsWith(t, "&gt;") || StartsWith(t, "&quot;") || StartsWith(t, "&#039;")
  }

  lemma EntityAtShift(a: string, b: string, j: nat)
    requires j <= |b|
    ensures EntityAt(a + b, |a| + j) == EntityAt(b, j)
  {
    assert (a + b)[|a| + j..] == b[j..];
  }

  lemma {:induction false} EscapeEachAmpersands(s: string)
    ensures forall i :: 0 <= i < |EscapeEach(s)| && EscapeEach(s)[i] == '&' ==> EntityAt(EscapeEach(s), i)
  {
    if s != [] {
      EscapeEachAmpersands(s[1..]);
      var e := EscapeChar(s[0]);
      var rest := EscapeEach(s[1..]);
      assert EscapeEach(s) == e + rest;
      forall i | 0 <= i < |EscapeEach(s)| && EscapeEach(s)[i] == '&'
        ensures EntityAt(EscapeEach(s), i)
      {
        if i >= |e| {
          assert EscapeEach(s)[i] == rest[i - |e|];
          EntityAtShift(e, rest, i - |e|);
        } else {
          assert (e + rest)[..|e|] == e;
        }
      }
    }
  }

  /** Every `&` in the output begins one of the five entities. */
  lemma EscapeHtmlAmpersandsBeginEntities(s: string)
    ensures forall i :: 0 <= i < |EscapeHtml(s)| && EscapeHtml(s)[i] == '&' ==> EntityAt(EscapeHtml(s), i)
  {
    EscapeHtmlIsPerChar(s);
    EscapeEachAmpersands(s);
  }

  /** The inverse of the escaping: the five entities decoded left to right. */
  function Unescape(r: string): string
    decreases |r|
  {
    if r == [] then []
    else if StartsWith(r, "&amp;") then "&" + Unescape(r[5..])
    else if StartsWith(r, "&lt;") then "<" + Unescape(r[4..])
    else if StartsWith(r, "&gt;") then ">" + Unescape(r[4..])
    else if StartsWith(r, "&quot;") then "\"" + Unescape(r[6..])
    else if StartsWith(r, "&#039;") then "'" + Unescape(r[6..])
    else [r[0]] + Unescape(r[1..])
  }

  lemma StartsWithFirst(r: string, p: string)
    requires |p| > 1 && StartsWith(r, p)
    ensures r[0] == p[0] && r[1] == p[1]
  {
    assert r[..|p|][0] == r[0] && r[..|p|][1] == r[1];
  }

  /** A decoded entity: `p` is the first of the five that the text starts with. */
  lemma UnescapeEntity(p: string, t: string)
    requires p in ["&amp;", "&lt;", "&gt;", "&quot;", "&#039;"]
    ensures Unescape(p + t) == [EntityChar(p)] + Unescape(t)
  {
    var r := p + t;
    assert r[..|p|] == p && r[|p|..] == t;
    assert r[1] == p[1];
    if StartsWith(r, "&amp;") { StartsWithFirst(r, "&amp;"); }
    if StartsWith(r, "&lt;") { StartsWithFirst(r, "&lt;"); }
    if StartsWith(r, "&gt;") { StartsWithFirst(r, "&gt;"); }
    if StartsWith(r, "&quot;") { StartsWithFirst(r, "&quot;"); }
  }

  function EntityChar(p: string): char {
    if p == "&amp;" then '&' else if p == "&lt;" then '<' else if p == "&gt;" then '>' else if p == "&quot;" then '"' else '\''
  }

  lemma UnescapePlain(c: char, t: string)
    requires c != '&'
    ensures Unescape([c] + t) == [c] + Unescape(t)
  {
    var r := [c] + t;
    assert r[0] == c && r[1..] == t;
    if StartsWith(r, "&amp;") { StartsWithFirst(r, "&amp;"); }
    if StartsWith(r, "&lt;") { StartsWithFirst(r, "&lt;"); }
    if StartsWith(r, "&gt;") { StartsWithFirst(r, "&gt;"); }
    if StartsWith(r, "&quot;") { StartsWithFirst(r, "&quot;"); }
    if StartsWith(r, "&#039;") { StartsWithFirst(r, "&#039;"); }
  }

  lemma UnescapeStep(c: char, t: string)
    ensures Unescape(EscapeChar(c) + t) == [c] + Unescape(t)
  {
    if c == '&' || c == '<' || c == '>' || c == '"' || c == '\'' {
      UnescapeEntity(EscapeChar(c), t);
    } else {
      UnescapePlain(c, t);
    }
  }

  /** Decoding the escaped name gives the name back, so no two names escape alike. */
  lemma {:induction false} EscapeHtmlRoundTrip(s: string)
    ensures Unescape(EscapeHtml(s)) == s
  {
    EscapeHtmlIsPerChar(s);
    EscapeEachRoundTrip(s);
  }

  lemma {:induction false} EscapeEachRoundTrip(s: string)
    ensures Unescape(EscapeEach(s)) == s
  {
    if s != [] {
      UnescapeStep(s[0], EscapeEach(s[1..]));
      EscapeEachRoundTrip(s[1..]);
    }
  }
}
