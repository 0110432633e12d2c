/**
 * Word-level tokenisation with phrase placeholders: `tokenize_with_phrases`
 * (scripts/generate_pdf.py), and `tokenizeWithMultiWords` with the line loop
 * of `processTextAndPlot` (static/js/writer-scripts.js).
 */
module Words {
  import opened Wrappers
  import opened Geometry
  import opened Text
  import opened Systems
  import opened Phrases
  import opened Tokenizer

  const PlaceholderWord: string := [Placeholder]

  /** Number of placeholder words among the first `k` words. */
  function Rank(ws: seq<string>, k: nat): (n: nat)
    requires k <= |ws|
    ensures n <= k
  {
    if k == 0 then 0 else Rank(ws, k - 1) + (if ws[k - 1] == PlaceholderWord then 1 else 0)
  }

  function Min(a: nat, b: nat): nat {
    if a <= b then a else b
  }

  /** What `tokenize_with_phrases` produces for the k-th word of `ws`: its tokens and the word it reports. */
  predicate PyEntry(sys: System, activeModes: Option<seq<string>>, compile: ModeCompiler, matches: seq<string>,
                    ws: seq<string>, k: nat, tokens: seq<Glyph>, word: string)
    requires k < |ws|
  {
    if ws[k] != PlaceholderWord then
      tokens == TokensOf(Best(Reference, Candidates(sys, activeModes, compile), ws[k], 0)) && word == ws[k]
    else if Rank(ws, k) < |matches| then
      tokens == [Lookup(sys.phrases, matches[Rank(ws, k)]).GetOr([])] && word == matches[Rank(ws, k)]
    else
      tokens == [] && word == []
  }

  /**
   * `tokenize_with_phrases(text, system, active_modes, multi_word_matches)`:
   * one entry per word of `text.split()`; a placeholder word takes the next
   * match and its phrase, or nothing once the matches are used up.
   */
  method TokenizeWithPhrases(text: string, sys: System, activeModes: Option<seq<string>>, compile: ModeCompiler,
                             matches: seq<string>)
    returns (tokens: seq<seq<Glyph>>, words: seq<string>)
    ensures |tokens| == |Words(text)| && |words| == |Words(text)|
    ensures forall k :: 0 <= k < |Words(text)| ==>
      PyEntry(sys, activeModes, compile, matches, Words(text), k, tokens[k], words[k])
  {
    var ws := Words(text);
    tokens, words := [], [];
    var matchIdx := 0;
    var i := 0;
    while i < |ws|
      invariant i <= |ws| && |tokens| == i && |words| == i
      invariant matchIdx == Min(Rank(ws, i), |matches|)
      invariant forall k :: 0 <= k < i ==> PyEntry(sys, activeModes, compile, matches, ws, k, tokens[k], words[k])
    {
      var word := ws[i];
      var t: seq<Glyph>, w: string;
      if word == PlaceholderWord {
        if matchIdx < |matches| {
          var phrase := matches[matchIdx];
          t, w := [Lookup(sys.phrases, phrase).GetOr([])], phrase;
          matchIdx := matchIdx + 1;
        } else {
          t, w := [], [];
        }
      } else {
        t := TokenizeString(word, sys, activeModes, compile);
        w := word;
      }
      assert PyEntry(sys, activeModes, compile, matches, ws, i, t, w);
      PyEntriesSnoc(sys, activeModes, compile, matches, ws, tokens, words, t, w);
      tokens, words := tokens + [t], words + [w];
      i := i + 1;
    }
  }

  lemma PyEntriesSnoc(sys: System, activeModes: Option<seq<string>>, compile: ModeCompiler, matches: seq<string>,
                      ws: seq<string>, tokens: seq<seq<Glyph>>, words: seq<string>, t: seq<Glyph>, w: string)
    requires |tokens| == |words| < |ws|
    requires forall k :: 0 <= k < |tokens| ==> PyEntry(sys, activeModes, compile, matches, ws, k, tokens[k], words[k])
    requires PyEntry(sys, activeModes, compile, matches, ws, |tokens|, t, w)
    ensures forall k :: 0 <= k < |tokens| + 1 ==> PyEntry(sys, activeModes, compile, matches, ws, k, (tokens + [t])[k], (words + [w])[k])
  {
  }

  /** Placeholders are served with the matches in order: the k-th placeholder word gets the k-th match. */
  lemma PlaceholdersTakeMatchesInOrder(ws: seq<string>, k1: nat, k2: nat)
    requires k1 < k2 < |ws|
    requires ws[k1] == PlaceholderWord
    ensures Rank(ws, k1) < Rank(ws, k2)
  {
    RankMonotone(ws, k1 + 1, k2);
  }

  lemma {:induction false} RankMonotone(ws: seq<string>, a: nat, b: nat)
    requires a <= b <= |ws|
    ensures Rank(ws, a) <= Rank(ws, b)
    decreases b - a
  {
    if a < b {
      RankMonotone(ws, a, b - 1);
    }
  }

  /** `split(/\s+/)`: the fields between white-space runs, with an empty field before a leading run or after a trailing one. */
  function JsSplit(s: string): seq<string>
    decreases |s|
  {
    var n := WordLength(s);
    if n == |s| then [s]
    else
      var m := n + LeadingSpaces(s[n..]);
      [s[..n]] + JsSplit(s[m..])
  }

  /** `split(/\s+/)` always yields at least one field. */
  lemma {:induction false} JsSplitNonEmpty(s: string)
    ensures |JsSplit(s)| >= 1
  {
    var n := WordLength(s);
    if n < |s| {
      var m := n + LeadingSpaces(s[n..]);
      JsSplitUnfold(s, n, m);
    }
  }

  /** Leading white space does not change `str.split()`. */
  lemma {:induction false} WordsSkipSpaces(s: string, m: nat)
    requires m <= |s| && forall i :: 0 <= i < m ==> IsSpace(s[i])
    ensures Words(s) == Words(s[m..])
    decreases m
  {
    if m > 0 {
      assert s[1..][m - 1..] == s[m..];
      WordsSkipSpaces(s[1..], m - 1);
    }
  }

  /** On a trimmed, non-empty line both splits agree, so every field is a word. */
  lemma {:induction false} JsSplitOfTrimmed(s: string)
    requires s != [] && !IsSpace(s[0]) && !IsSpace(s[|s| - 1])
    ensures JsSplit(s) == Words(s)
    decreases |s|
  {
    var n := WordLength(s);
    assert n > 0;
    if n == |s| {
      assert s[..n] == s;
      assert Words(s[n..]) == [];
    } else {
      var m := n + LeadingSpaces(s[n..]);
      TrimmedSplitStep(s, n, m);
      JsSplitUnfold(s, n, m);
      var r := s[m..];
      assert r[0] == s[m] && r[|r| - 1] == s[|s| - 1];
      JsSplitOfTrimmed(r);
    }
  }

  /** `str.split()` cuts the first word of a trimmed line off and skips the white space after it. */
  lemma TrimmedSplitStep(s: string, n: nat, m: nat)
    requires s != [] && !IsSpace(s[0]) && !IsSpace(s[|s| - 1])
    requires n == WordLength(s) < |s| && m == n + LeadingSpaces(s[n..])
    ensures m < |s| && !IsSpace(s[m]) && Words(s) == [s[..n]] + Words(s[m..])
  {
    var t := s[n..];
    var spaces := LeadingSpaces(t);
    assert t[|t| - 1] == s[|s| - 1];
    LeadingSpacesAreSpaces(t);
    assert spaces < |t|;
    assert t[spaces..] == s[m..];
    WordsSkipSpaces(t, spaces);
  }

  lemma JsSplitUnfold(s: string, n: nat, m: nat)
    requires n == WordLength(s) < |s| && m == n + LeadingSpaces(s[n..]) && m <= |s|
    ensures JsSplit(s) == [s[..n]] + JsSplit(s[m..])
  {
  }

  /** The browser's list of pending phrase matches, shared by all lines of one text and consumed from the front. */
  class MatchQueue {
    var pending: seq<string>

    constructor(matches: seq<string>)
      ensures pending == matches
    {
      pending := matches;
    }

    /** `multiWordMatches.shift()`; `None` stands for `undefined` on an empty array. */
    method Shift() returns (m: Option<string>)
      modifies this
      ensures old(pending) == [] ==> m.None? && pending == []
      ensures old(pending) != [] ==> m == Some(old(pending)[0]) && pending == old(pending)[1..]
    {
      if pending == [] {
        m := None;
      } else {
        m := Some(pending[0]);
        pending := pending[1..];
      }
    }
  }

  /** `multiWordTokens[key]`, where an `undefined` key is looked up as the property name "undefined". */
  function PhraseFor(phrases: Dict<Glyph>, key: Option<string>): Option<Glyph> {
    Lookup(phrases, key.GetOr("undefined"))
  }

  /** The key the k-th word would receive from a queue holding `pending` at the start of the line. */
  function KeyAt(ws: seq<string>, k: nat, pending: seq<string>): Option<string>
    requires k <= |ws|
  {
    if Rank(ws, k) < |pending| then Some(pending[Rank(ws, k)]) else None
  }

  function Drop(p: seq<string>, n: nat): (r: seq<string>)
    ensures n < |p| ==> r == p[n..]
    ensures n >= |p| ==> r == []
  {
    if n >= |p| then [] else p[n..]
  }

  /** The k-th word makes the browser throw: its phrase is `undefined`, or a mode pattern does not compile. */
  predicate EntryThrows(sys: System, activeModes: seq<string>, compile: ModeCompiler, ws: seq<string>, k: nat, pending: seq<string>)
    requires k < |ws|
  {
    if ws[k] == PlaceholderWord then PhraseFor(sys.phrases, KeyAt(ws, k, pending)).None?
    else JsCandidates(sys, activeModes, compile).None?
  }

  /** What `tokenizeWithMultiWords` produces for the k-th word, the queue holding `pending` at the start of the line. */
  predicate JsEntry(sys: System, activeModes: seq<string>, compile: ModeCompiler, ws: seq<string>, k: nat, pending: seq<string>,
                    tokens: seq<Glyph>)
    requires k < |ws|
  {
    if ws[k] == PlaceholderWord then
      PhraseFor(sys.phrases, KeyAt(ws, k, pending)).Some? &&
      tokens == [PhraseFor(sys.phrases, KeyAt(ws, k, pending)).value]
    else
      JsCandidates(sys, activeModes, compile).Some? &&
      tokens == TokensOf(Best(Browser, JsCandidates(sys, activeModes, compile).value, ws[k], 0))
  }

  /** What `tokenizeWithMultiWords` produces for a whole line of words `ws`: one entry per word. */
  predicate LineEntries(sys: System, activeModes: seq<string>, compile: ModeCompiler, ws: seq<string>, pending: seq<string>,
                        out: seq<seq<Glyph>>)
  {
    |out| == |ws| && forall k :: 0 <= k < |ws| ==> JsEntry(sys, activeModes, compile, ws, k, pending, out[k])
  }

  /** Some word of the line makes `tokenizeWithMultiWords` throw. */
  predicate LineThrows(sys: System, activeModes: seq<string>, compile: ModeCompiler, ws: seq<string>, pending: seq<string>) {
    exists k :: 0 <= k < |ws| && EntryThrows(sys, activeModes, compile, ws, k, pending)
  }

  lemma JsEntriesSnoc(sys: System, activeModes: seq<string>, compile: ModeCompiler, ws: seq<string>, pending: seq<string>,
                      all: seq<seq<Glyph>>, t: seq<Glyph>)
    requires |all| < |ws|
    requires forall k :: 0 <= k < |all| ==> JsEntry(sys, activeModes, compile, ws, k, pending, all[k])
    requires JsEntry(sys, activeModes, compile, ws, |all|, pending, t)
    ensures forall k :: 0 <= k < |all| + 1 ==> JsEntry(sys, activeModes, compile, ws, k, pending, (all + [t])[k])
  {
  }

  /**
   * `tokenizeWithMultiWords(line, ...)`: one entry per field of the line. A
   * placeholder takes the next queued match; `None` when `tokenizeString`
   * throws, or when a placeholder's phrase is `undefined` (which
   * `mergeWordSplines` cannot iterate).
   */
  method JsTokenizeWithMultiWords(line: string, sys: System, activeModes: seq<string>, compile: ModeCompiler, q: MatchQueue)
    returns (r: Option<seq<seq<Glyph>>>)
    modifies q
    ensures r.Some? ==> q.pending == Drop(old(q.pending), Rank(JsSplit(line), |JsSplit(line)|))
    ensures r.Some? ==> LineEntries(sys, activeModes, compile, JsSplit(line), old(q.pending), r.value)
    ensures r.None? ==> LineThrows(sys, activeModes, compile, JsSplit(line), old(q.pending))
  {
    var ws := JsSplit(line);
    ghost var p0 := q.pending;
    var all: seq<seq<Glyph>> := [];
    var i := 0;
    while i < |ws|
      invariant i <= |ws| && |all| == i
      invariant q.pending == Drop(p0, Rank(ws, i))
      invariant forall k :: 0 <= k < i ==> JsEntry(sys, activeModes, compile, ws, k, p0, all[k])
    {
      var word := ws[i];
      var t: seq<Glyph>;
      if word == PlaceholderWord {
        var key := q.Shift();
        assert key == KeyAt(ws, i, p0);
        var phrase := PhraseFor(sys.phrases, key);
        if phrase.None? {
          assert EntryThrows(sys, activeModes, compile, ws, i, p0);
          return None;
        }
        t := [phrase.value];
      } else {
        var tokens := JsTokenizeString(word, sys, activeModes, compile);
        if tokens.None? {
          assert EntryThrows(sys, activeModes, compile, ws, i, p0);
          return None;
        }
        t := tokens.value;
      }
      assert JsEntry(sys, activeModes, compile, ws, i, p0, t);
      JsEntriesSnoc(sys, activeModes, compile, ws, p0, all, t);
      all := all + [t];
      i := i + 1;
    }
    r := Some(all);
  }

  /** Placeholder words in all the lines. */
  function TotalRank(lines: seq<string>): nat {
    if lines == [] then 0 else TotalRank(lines[..|lines| - 1]) + Rank(JsSplit(lines[|lines| - 1]), |JsSplit(lines[|lines| - 1])|)
  }

  lemma TotalRankStep(lines: seq<string>, i: nat)
    requires i < |lines|
    ensures TotalRank(lines[..i + 1]) == TotalRank(lines[..i]) + Rank(JsSplit(lines[i]), |JsSplit(lines[i])|)
  {
    assert lines[..i + 1][..i] == lines[..i];
  }

  /** One line's placeholders take their matches off the front of what the earlier lines left. */
  lemma PendingStep(p0: seq<string>, lines: seq<string>, i: nat, before: seq<string>, after: seq<string>)
    requires i < |lines|
    requires before == Drop(p0, TotalRank(lines[..i]))
    requires after == Drop(before, Rank(JsSplit(lines[i]), |JsSplit(lines[i])|))
    ensures after == Drop(p0, TotalRank(lines[..i + 1]))
  {
    DropDrop(p0, TotalRank(lines[..i]), Rank(JsSplit(lines[i]), |JsSplit(lines[i])|));
    TotalRankStep(lines, i);
  }

  lemma DropDrop(p: seq<string>, a: nat, b: nat)
    ensures Drop(Drop(p, a), b) == Drop(p, a + b)
  {
    if a + b < |p| {
      assert p[a..][b..] == p[a + b..];
    }
  }

  /** The queue as line `k` finds it: the matches the placeholders of the earlier lines have not taken. */
  function PendingAt(p0: seq<string>, lines: seq<string>, k: nat): seq<string>
    requires k <= |lines|
  {
    Drop(p0, TotalRank(lines[..k]))
  }

  /** The first `n` lines got their entries from the queue as each found it. */
  predicate LinesEntries(sys: System, activeModes: seq<string>, compile: ModeCompiler, lines: seq<string>, p0: seq<string>,
                         out: seq<seq<seq<Glyph>>>, n: nat)
    requires n <= |lines| && n <= |out|
  {
    forall k :: 0 <= k < n ==> LineEntries(sys, activeModes, compile, JsSplit(lines[k]), PendingAt(p0, lines, k), out[k])
  }

  /** A line whose entries were produced does not throw. */
  lemma EntriesDoNotThrow(sys: System, activeModes: seq<string>, compile: ModeCompiler, ws: seq<string>, pending: seq<string>,
                          out: seq<seq<Glyph>>)
    requires LineEntries(sys, activeModes, compile, ws, pending, out)
    ensures !LineThrows(sys, activeModes, compile, ws, pending)
  {
    forall k | 0 <= k < |ws|
      ensures !EntryThrows(sys, activeModes, compile, ws, k, pending)
    {
      assert JsEntry(sys, activeModes, compile, ws, k, pending, out[k]);
    }
  }

  /**
   * The tokenizing part of `processTextAndPlot`: every line is tokenized
   * against one queue of matches, so the placeholders of all lines take the
   * matches first-in first-out, across line ends. It throws at the first
   * line with a word that throws.
   */
  method JsTokenizeLines(lines: seq<string>, sys: System, activeModes: seq<string>, compile: ModeCompiler, q: MatchQueue)
    returns (r: Option<seq<seq<seq<Glyph>>>>)
    modifies q
    ensures r.Some? ==> |r.value| == |lines| && q.pending == Drop(old(q.pending), TotalRank(lines))
    ensures r.Some? ==> LinesEntries(sys, activeModes, compile, lines, old(q.pending), r.value, |lines|)
    ensures r.None? ==> exists k :: (0 <= k < |lines| &&
      LineThrows(sys, activeModes, compile, JsSplit(lines[k]), PendingAt(old(q.pending), lines, k)) &&
      forall j :: 0 <= j < k ==> !LineThrows(sys, activeModes, compile, JsSplit(lines[j]), PendingAt(old(q.pending), lines, j)))
  {
    ghost var p0 := q.pending;
    var all: seq<seq<seq<Glyph>>> := [];
    var i := 0;
    while i < |lines|
      invariant i <= |lines| && |all| == i
      invariant q.pending == PendingAt(p0, lines, i)
      invariant LinesEntries(sys, activeModes, compile, lines, p0, all, i)
    {
      ghost var before := q.pending;
      var line := JsTokenizeWithMultiWords(lines[i], sys, activeModes, compile, q);
      if line.None? {
        forall j | 0 <= j < i
          ensures !LineThrows(sys, activeModes, compile, JsSplit(lines[j]), PendingAt(p0, lines, j))
        {
          EntriesDoNotThrow(sys, activeModes, compile, JsSplit(lines[j]), PendingAt(p0, lines, j), all[j]);
        }
        return None;
      }
      PendingStep(p0, lines, i, before, q.pending);
      all := all + [line.value];
      i := i + 1;
    }
    assert lines[..i] == lines;
    r := Some(all);
  }

  /** `String.prototype.split('\n')`. */
  function SplitNewlines(s: string): (fs: seq<string>)
    ensures |fs| >= 1
    ensures forall k :: 0 <= k < |fs| ==> '\n' !in fs[k]
  {
    var n := NewlineIndex(s);
    if n == |s| then [s] else [s[..n]] + SplitNewlines(s[n + 1..])
  }

  /** Index of the first newline, or the length when there is none. */
  function NewlineIndex(s: string): (n: nat)
    ensures n <= |s|
    ensures n < |s| ==> s[n] == '\n'
    ensures '\n' !in s[..n]
  {
    if s == [] then 0
    else if s[0] == '\n' then 0
    else
      var n := NewlineIndex(s[1..]);
      assert s[..n + 1] == [s[0]] + s[1..][..n];
      n + 1
  }

  /** Trims every line and keeps the non-empty ones. */
  function TrimmedLines(fs: seq<string>): (ls: seq<string>)
    ensures forall k :: 0 <= k < |ls| ==> ls[k] != [] && !IsSpace(ls[k][0]) && !IsSpace(ls[k][|ls[k]| - 1])
  {
    if fs == [] then []
    else
      var t := Strip(fs[0]);
      if t == [] then TrimmedLines(fs[1..]) else [t] + TrimmedLines(fs[1..])
  }

  /** `processedText.split('\n').map(trim).filter(nonEmpty)`: each line is split like `str.split()`. */
  lemma LinesSplitIntoWords(text: string, k: nat)
    requires k < |TrimmedLines(SplitNewlines(text))|
    ensures JsSplit(TrimmedLines(SplitNewlines(text))[k]) == Words(TrimmedLines(SplitNewlines(text))[k])
  {
    JsSplitOfTrimmed(TrimmedLines(SplitNewlines(text))[k]);
  }
}
