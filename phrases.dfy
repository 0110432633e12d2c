/**
 * Phrase extraction: `find_multi_word_tokens` (scripts/generate_pdf.py) and
 * `findMultiWordTokens` (static/js/writer-scripts.js).
 *
 * Both build the pattern `\b(k1|k2|...)\b` from the phrase keys, longest
 * first, and replace every match, scanning left to right, by the placeholder
 * '§' while recording the matched key. The regular expression is modelled
 * directly: at each position the alternatives are tried in list order and the
 * first one that matches with a word boundary on both sides wins; with no
 * match the scan moves on by one character.
 */
module Phrases {
  import opened Wrappers
  import opened Geometry
  import opened Text
  import opened Sorting

  const Placeholder: char := '\U{00A7}'

  /** ASCII `\w`. */
  predicate IsWordChar(c: char) {
    'a' <= c <= 'z' || 'A' <= c <= 'Z' || IsDigit(c) || c == '_'
  }

  /** `\b` at position `i` of `t`: exactly one of the two neighbours is a word character. */
  predicate Boundary(t: string, i: nat)
    requires i <= |t|
  {
    (i > 0 && IsWordChar(t[i - 1])) != (i < |t| && IsWordChar(t[i]))
  }

  /** Key `k` occurs at `i` with a word boundary before and after it. */
  predicate MatchesAt(t: string, i: nat, k: string) {
    k != [] && i + |k| <= |t| && t[i..i + |k|] == k && Boundary(t, i) && Boundary(t, i + |k|)
  }

  /** The alternative the regular expression commits to at position `i`: the first one in list order that matches. */
  function FirstAlt(t: string, i: nat, alts: seq<string>): (r: Option<string>)
    ensures r.Some? ==> r.value in alts && r.value != [] && i + |r.value| <= |t|
  {
    if alts == [] then None
    else if MatchesAt(t, i, alts[0]) then Some(alts[0])
    else FirstAlt(t, i, alts[1..])
  }

  /** The alternative taken matches at `i`, and there is none exactly when no listed key matches there. */
  lemma {:induction false} FirstAltMatches(t: string, i: nat, alts: seq<string>)
    ensures FirstAlt(t, i, alts).Some? ==> MatchesAt(t, i, FirstAlt(t, i, alts).value)
    ensures FirstAlt(t, i, alts).None? <==> forall k :: k in alts ==> !MatchesAt(t, i, k)
  {
    if alts != [] && !MatchesAt(t, i, alts[0]) {
      FirstAltMatches(t, i, alts[1..]);
      assert forall k :: k in alts ==> k == alts[0] || k in alts[1..];
    }
  }

  /** Every alternative that matches but is not taken comes after the one taken. */
  lemma {:induction false} FirstAltIsFirst(t: string, i: nat, alts: seq<string>, a: nat)
    requires a < |alts| && MatchesAt(t, i, alts[a])
    ensures FirstAlt(t, i, alts).Some?
    ensures exists b :: 0 <= b <= a && alts[b] == FirstAlt(t, i, alts).value
  {
    if !MatchesAt(t, i, alts[0]) {
      assert alts[a] == alts[1..][a - 1];
      FirstAltIsFirst(t, i, alts[1..], a - 1);
      var b :| 0 <= b <= a - 1 && alts[1..][b] == FirstAlt(t, i, alts[1..]).value;
      assert alts[b + 1] == alts[1..][b];
    }
  }

  /** The rewritten text and the keys matched, in order. */
  datatype Scanned = Scanned(out: string, matches: seq<string>)

  /** The global substitution from position `i` on: the rewritten rest of `t` and the keys matched, in order. */
  function Scan(t: string, i: nat, alts: seq<string>): (r: Scanned)
    requires i <= |t|
    decreases |t| - i
  {
    if i == |t| then Scanned([], [])
    else
      match FirstAlt(t, i, alts)
      case Some(k) =>
        var rest := Scan(t, i + |k|, alts);
        Scanned([Placeholder] + rest.out, [k] + rest.matches)
      case None =>
        var rest := Scan(t, i + 1, alts);
        Scanned([t[i]] + rest.out, rest.matches)
  }

  /** Every key the scan records is one of the alternatives. */
  lemma {:induction false} ScanMatchesInAlts(t: string, i: nat, alts: seq<string>)
    requires i <= |t|
    ensures forall m :: m in Scan(t, i, alts).matches ==> m in alts
    decreases |t| - i
  {
    if i < |t| {
      var o := FirstAlt(t, i, alts);
      if o.Some? {
        ScanMatchesInAlts(t, i + |o.value|, alts);
        ScanUnfoldKey(t, i, alts, o.value);
      } else {
        ScanMatchesInAlts(t, i + 1, alts);
        ScanUnfoldChar(t, i, alts);
      }
    }
  }

  /** Python's sort key: longer keys first (`sorted(keys, key=len, reverse=True)`). */
  const LongerFirst := (a: string, b: string) => |a| > |b|

  /** Characters the JavaScript escape prefixes with a backslash. */
  const RegexSpecials: string := ".*+?^${}()|[]\\"

  /** `token.replace(/[.*+?^${}()|[\]\\]/g, '\\$&')`. */
  function Escape(s: string): (r: string)
    ensures |r| >= |s|
  {
    if s == [] then []
    else (if s[0] in RegexSpecials then ['\\', s[0]] else [s[0]]) + Escape(s[1..])
  }

  /** JavaScript's comparator `(a, b) => b.length - a.length` applied to the escaped keys. */
  const EscapedLongerFirst := (a: string, b: string) => |Escape(a)| > |Escape(b)|

  /** `find_multi_word_tokens(text, phrases)`. */
  function FindMultiWordTokens(text: string, phrases: Dict<Glyph>): (r: (string, seq<string>))
    ensures phrases == [] ==> r == (text, [])
    ensures forall m :: m in r.1 ==> m in Keys(phrases)
  {
    if phrases == [] then (text, [])
    else
      var alts := SortBy(Keys(phrases), LongerFirst);
      assert forall m :: m in alts ==> m in multiset(Keys(phrases));
      var r := Scan(text, 0, alts);
      ScanMatchesInAlts(text, 0, alts);
      (r.out, r.matches)
  }

  /** `findMultiWordTokens(text, phrases)`: the keys in insertion order, sorted by escaped length. */
  function JsFindMultiWordTokens(text: string, phrases: Dict<Glyph>): (r: (string, seq<string>))
    ensures phrases == [] ==> r == (text, [])
    ensures forall m :: m in r.1 ==> m in Keys(phrases)
  {
    if phrases == [] then (text, [])
    else
      var alts := SortBy(Keys(phrases), EscapedLongerFirst);
      assert forall m :: m in alts ==> m in multiset(Keys(phrases));
      var r := Scan(text, 0, alts);
      ScanMatchesInAlts(text, 0, alts);
      (r.out, r.matches)
  }

  /** Puts the recorded keys back, in order, in place of the placeholders. */
  function Fill(s: string, ms: seq<string>): string {
    if s == [] then []
    else if s[0] == Placeholder && ms != [] then ms[0] + Fill(s[1..], ms[1..])
    else [s[0]] + Fill(s[1..], ms)
  }

  function CountPlaceholders(s: string): nat {
    if s == [] then 0 else (if s[0] == Placeholder then 1 else 0) + CountPlaceholders(s[1..])
  }

  /** No character of `t` from `i` on is the placeholder. */
  predicate NoPlaceholderFrom(t: string, i: nat) {
    forall j :: i <= j < |t| ==> t[j] != Placeholder
  }

  lemma {:induction false} ScanRoundTrip(t: string, i: nat, alts: seq<string>)
    requires i <= |t|
    requires NoPlaceholderFrom(t, i)
    ensures Fill(Scan(t, i, alts).out, Scan(t, i, alts).matches) == t[i..]
    ensures CountPlaceholders(Scan(t, i, alts).out) == |Scan(t, i, alts).matches|
  {
    ScanFills(t, i, alts);
    ScanCounts(t, i, alts);
  }

  lemma {:induction false} ScanFills(t: string, i: nat, alts: seq<string>)
    requires i <= |t|
    requires NoPlaceholderFrom(t, i)
    ensures Fill(Scan(t, i, alts).out, Scan(t, i, alts).matches) == t[i..]
    decreases |t| - i
  {
    if i < |t| {
      var n := NextScanPos(t, i, alts);
      ScanFills(t, n, alts);
      ScanStepFills(t, i, alts);
    }
  }

  lemma {:induction false} ScanCounts(t: string, i: nat, alts: seq<string>)
    requires i <= |t|
    requires NoPlaceholderFrom(t, i)
    ensures CountPlaceholders(Scan(t, i, alts).out) == |Scan(t, i, alts).matches|
    decreases |t| - i
  {
    if i < |t| {
      var n := NextScanPos(t, i, alts);
      ScanCounts(t, n, alts);
      ScanStepCounts(t, i, alts);
    }
  }

  /** Where the scan resumes after position `i`. */
  function NextScanPos(t: string, i: nat, alts: seq<string>): (n: nat)
    requires i < |t|
    ensures i < n <= |t|
  {
    match FirstAlt(t, i, alts)
    case Some(k) => i + |k|
    case None => i + 1
  }

  /** One step of the fill round trip: from the rest of the scan to the scan at `i`. */
  lemma ScanStepFills(t: string, i: nat, alts: seq<string>)
    requires i < |t| && t[i] != Placeholder
    requires Fill(Scan(t, NextScanPos(t, i, alts), alts).out, Scan(t, NextScanPos(t, i, alts), alts).matches) == t[NextScanPos(t, i, alts)..]
    ensures Fill(Scan(t, i, alts).out, Scan(t, i, alts).matches) == t[i..]
  {
    var o := FirstAlt(t, i, alts);
    if o.Some? {
      var k := o.value;
      FirstAltSplits(t, i, alts, k);
      PutKeyBack(k, Scan(t, i + |k|, alts));
      ScanUnfoldKey(t, i, alts, k);
    } else {
      ScanSkipsChar(t, i);
      PutCharBack(t[i], Scan(t, i + 1, alts));
      ScanUnfoldChar(t, i, alts);
    }
  }

  /** One step of the placeholder count: from the rest of the scan to the scan at `i`. */
  lemma ScanStepCounts(t: string, i: nat, alts: seq<string>)
    requires i < |t| && t[i] != Placeholder
    requires CountPlaceholders(Scan(t, NextScanPos(t, i, alts), alts).out) == |Scan(t, NextScanPos(t, i, alts), alts).matches|
    ensures CountPlaceholders(Scan(t, i, alts).out) == |Scan(t, i, alts).matches|
  {
    var o := FirstAlt(t, i, alts);
    if o.Some? {
      PutKeyBack(o.value, Scan(t, i + |o.value|, alts));
      ScanUnfoldKey(t, i, alts, o.value);
    } else {
      PutCharBack(t[i], Scan(t, i + 1, alts));
      ScanUnfoldChar(t, i, alts);
    }
  }

  /** The key taken at `i` spells the text there. */
  lemma FirstAltSplits(t: string, i: nat, alts: seq<string>, k: string)
    requires FirstAlt(t, i, alts) == Some(k)
    ensures i + |k| <= |t| && t[i..] == k + t[i + |k|..]
  {
    FirstAltMatches(t, i, alts);
    ScanSkipsKey(t, i, k);
  }

  lemma ScanUnfoldKey(t: string, i: nat, alts: seq<string>, k: string)
    requires i < |t| && FirstAlt(t, i, alts) == Some(k)
    ensures i + |k| <= |t|
    ensures Scan(t, i, alts) == Scanned([Placeholder] + Scan(t, i + |k|, alts).out, [k] + Scan(t, i + |k|, alts).matches)
  {
  }

  lemma ScanUnfoldChar(t: string, i: nat, alts: seq<string>)
    requires i < |t| && FirstAlt(t, i, alts).None?
    ensures Scan(t, i, alts) == Scanned([t[i]] + Scan(t, i + 1, alts).out, Scan(t, i + 1, alts).matches)
  {
  }

  lemma ScanSkipsKey(t: string, i: nat, k: string)
    requires i + |k| <= |t| && t[i..i + |k|] == k
    ensures t[i..] == k + t[i + |k|..]
  {
    assert t[i..] == t[i..i + |k|] + t[i + |k|..];
  }

  lemma ScanSkipsChar(t: string, i: nat)
    requires i < |t|
    ensures t[i..] == [t[i]] + t[i + 1..]
  {
  }

  lemma PutKeyBack(k: string, rest: Scanned)
    ensures Fill([Placeholder] + rest.out, [k] + rest.matches) == k + Fill(rest.out, rest.matches)
    ensures CountPlaceholders([Placeholder] + rest.out) == 1 + CountPlaceholders(rest.out)
  {
    assert ([Placeholder] + rest.out)[1..] == rest.out;
    assert ([k] + rest.matches)[1..] == rest.matches;
  }

  lemma PutCharBack(c: char, rest: Scanned)
    requires c != Placeholder
    ensures Fill([c] + rest.out, rest.matches) == [c] + Fill(rest.out, rest.matches)
    ensures CountPlaceholders([c] + rest.out) == CountPlaceholders(rest.out)
  {
    assert ([c] + rest.out)[1..] == rest.out;
  }

  /**
   * Replacing phrases loses nothing: when the text has no '§' of its own,
   * putting the matches back into the placeholders gives the text again, and
   * there is exactly one placeholder per recorded match.
   */
  lemma FindMultiWordTokensRoundTrip(text: string, phrases: Dict<Glyph>)
    requires Placeholder !in text
    ensures Fill(FindMultiWordTokens(text, phrases).0, FindMultiWordTokens(text, phrases).1) == text
    ensures CountPlaceholders(FindMultiWordTokens(text, phrases).0) == |FindMultiWordTokens(text, phrases).1|
  {
    if phrases == [] {
      FillNothing(text);
    } else {
      assert NoPlaceholderFrom(text, 0);
      ScanRoundTrip(text, 0, SortBy(Keys(phrases), LongerFirst));
      assert text[0..] == text;
    }
  }

  lemma {:induction false} FillNothing(s: string)
    requires Placeholder !in s
    ensures Fill(s, []) == s && CountPlaceholders(s) == 0
  {
    if s != [] {
      FillNothing(s[1..]);
    }
  }

  predicate IsProperPrefix(u: string, v: string) {
    |u| < |v| && u == v[..|u|]
  }

  /** No key is a proper prefix of a key listed after it. */
  predicate PrefixSafe(alts: seq<string>) {
    forall a, b :: 0 <= a < b < |alts| ==> !IsProperPrefix(alts[a], alts[b])
  }

  /** Of two keys matching at the same place, the shorter is a prefix of the longer. */
  lemma MatchesNest(t: string, i: nat, w: string, k: string)
    requires MatchesAt(t, i, w) && MatchesAt(t, i, k)
    ensures |w| < |k| ==> IsProperPrefix(w, k)
  {
    if |w| < |k| {
      assert k[..|w|] == t[i..i + |w|];
    }
  }

  /** With a prefix-safe list, the alternative taken is the longest key that matches there. */
  lemma FirstAltIsLongest(t: string, i: nat, alts: seq<string>, k: string)
    requires PrefixSafe(alts)
    requires FirstAlt(t, i, alts).Some?
    requires k in alts && MatchesAt(t, i, k)
    ensures |k| <= |FirstAlt(t, i, alts).value|
  {
    var w := FirstAlt(t, i, alts).value;
    FirstAltMatches(t, i, alts);
    var a :| 0 <= a < |alts| && alts[a] == k;
    FirstAltIsFirst(t, i, alts, a);
    var b :| 0 <= b <= a && alts[b] == w;
    MatchesNest(t, i, w, k);
  }

  /** Two matching keys of the same length at the same place are the same key. */
  lemma SameLengthMatchesAreEqual(t: string, i: nat, k1: string, k2: string)
    requires MatchesAt(t, i, k1) && MatchesAt(t, i, k2) && |k1| == |k2|
    ensures k1 == k2
  {
  }

  /** The choice made at a position depends only on the set of keys, as long as the order is prefix-safe. */
  lemma FirstAltOrderIndependent(t: string, i: nat, alts1: seq<string>, alts2: seq<string>)
    requires PrefixSafe(alts1) && PrefixSafe(alts2)
    requires forall k :: k in alts1 <==> k in alts2
    ensures FirstAlt(t, i, alts1) == FirstAlt(t, i, alts2)
  {
    var r1, r2 := FirstAlt(t, i, alts1), FirstAlt(t, i, alts2);
    FirstAltMatches(t, i, alts1);
    FirstAltMatches(t, i, alts2);
    if r1.Some? && r2.Some? {
      FirstAltIsLongest(t, i, alts1, r2.value);
      FirstAltIsLongest(t, i, alts2, r1.value);
      SameLengthMatchesAreEqual(t, i, r1.value, r2.value);
    }
  }

  lemma ScanOrderIndependent(t: string, i: nat, alts1: seq<string>, alts2: seq<string>)
    requires i <= |t|
    requires PrefixSafe(alts1) && PrefixSafe(alts2)
    requires forall k :: k in alts1 <==> k in alts2
    ensures Scan(t, i, alts1) == Scan(t, i, alts2)
  {
    forall j | i <= j < |t|
      ensures FirstAlt(t, j, alts1) == FirstAlt(t, j, alts2)
    {
      FirstAltOrderIndependent(t, j, alts1, alts2);
    }
    ScanCongruent(t, i, alts1, alts2);
  }

  /** Two scans that pick the same key at every position produce the same result. */
  lemma {:induction false} ScanCongruent(t: string, i: nat, alts1: seq<string>, alts2: seq<string>)
    requires i <= |t|
    requires forall j :: i <= j < |t| ==> FirstAlt(t, j, alts1) == FirstAlt(t, j, alts2)
    ensures Scan(t, i, alts1) == Scan(t, i, alts2)
    decreases |t| - i
  {
    if i < |t| {
      var r := FirstAlt(t, i, alts1);
      assert r == FirstAlt(t, i, alts2);
      var n := if r.Some? then i + |r.value| else i + 1;
      ScanCongruent(t, n, alts1, alts2);
      ScanStepCongruent(t, i, alts1, alts2, n);
    }
  }

  lemma ScanStepCongruent(t: string, i: nat, alts1: seq<string>, alts2: seq<string>, n: nat)
    requires i < |t| && FirstAlt(t, i, alts1) == FirstAlt(t, i, alts2)
    requires n == if FirstAlt(t, i, alts1).Some? then i + |FirstAlt(t, i, alts1).value| else i + 1
    requires n <= |t| && Scan(t, n, alts1) == Scan(t, n, alts2)
    ensures Scan(t, i, alts1) == Scan(t, i, alts2)
  {
    var r := FirstAlt(t, i, alts1);
    if r.Some? {
      ScanUnfoldKey(t, i, alts1, r.value);
      ScanUnfoldKey(t, i, alts2, r.value);
    } else {
      ScanUnfoldChar(t, i, alts1);
      ScanUnfoldChar(t, i, alts2);
    }
  }


  lemma {:induction false} EscapeConcat(a: string, b: string)
    ensures Escape(a + b) == Escape(a) + Escape(b)
  {
    if a == [] {
      assert a + b == b;
    } else {
      assert (a + b)[0] == a[0] && (a + b)[1..] == a[1..] + b;
      EscapeConcat(a[1..], b);
    }
  }

  /** Escaping is one-to-one, so re-keying a dictionary by escaped keys merges no entries. */
  lemma {:induction false} EscapeInjective(a: string, b: string)
    requires Escape(a) == Escape(b)
    ensures a == b
  {
    if a != [] && b != [] {
      var ea := if a[0] in RegexSpecials then ['\\', a[0]] else [a[0]];
      var eb := if b[0] in RegexSpecials then ['\\', b[0]] else [b[0]];
      assert Escape(a) == ea + Escape(a[1..]);
      assert Escape(b) == eb + Escape(b[1..]);
      assert '\\' in RegexSpecials;
      assert (a[0] in RegexSpecials) == (Escape(a)[0] == '\\');
      assert (b[0] in RegexSpecials) == (Escape(b)[0] == '\\');
      assert |ea| == |eb|;
      assert ea == Escape(a)[..|ea|] && eb == Escape(b)[..|eb|];
      assert Escape(a[1..]) == Escape(a)[|ea|..] && Escape(b[1..]) == Escape(b)[|eb|..];
      assert a[0] == b[0];
      assert Escape(a[1..]) == Escape(b[1..]);
      EscapeInjective(a[1..], b[1..]);
      assert a == [a[0]] + a[1..] && b == [b[0]] + b[1..];
    }
  }

  lemma LongerFirstSortIsPrefixSafe(keys: seq<string>)
    ensures PrefixSafe(SortBy(keys, LongerFirst))
  {
    SortBySorted(keys, LongerFirst);
  }

  lemma EscapedLongerFirstSortIsPrefixSafe(keys: seq<string>)
    ensures PrefixSafe(SortBy(keys, EscapedLongerFirst))
  {
    var s := SortBy(keys, EscapedLongerFirst);
    SortBySorted(keys, EscapedLongerFirst);
    forall a, b | 0 <= a < b < |s|
      ensures !IsProperPrefix(s[a], s[b])
    {
      if |s[a]| < |s[b]| {
        var prefix, rest := s[b][..|s[a]|], s[b][|s[a]|..];
        assert s[b] == prefix + rest;
        EscapeConcat(prefix, rest);
        assert |Escape(s[b])| > |Escape(prefix)|;
      }
    }
  }

  /**
   * The JavaScript alternation is ordered by escaped length rather than by
   * length, but both orders are prefix-safe over the same keys, so the browser
   * and the Python renderer extract the same phrases.
   */
  lemma JsAgreesWithPython(text: string, phrases: Dict<Glyph>)
    ensures JsFindMultiWordTokens(text, phrases) == FindMultiWordTokens(text, phrases)
  {
    if phrases != [] {
      var keys := Keys(phrases);
      var py := SortBy(keys, LongerFirst);
      var js := SortBy(keys, EscapedLongerFirst);
      LongerFirstSortIsPrefixSafe(keys);
      EscapedLongerFirstSortIsPrefixSafe(keys);
      forall k
        ensures k in py <==> k in js
      {
        assert k in py <==> k in multiset(keys);
        assert k in js <==> k in multiset(keys);
      }
      ScanOrderIndependent(text, 0, py, js);
    }
  }
}
