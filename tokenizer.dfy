/**
 * Word tokenisation: `tokenize_string` with its inner
 * `find_best_tokenization` and `compare_tokenizations`
 * (scripts/generate_pdf.py), and `tokenizeString` (static/js/writer-scripts.js).
 *
 * A word is tiled left to right by candidates (active modes first, then
 * glyph names matched literally). Among all tilings the search keeps the best
 * under a three-level order; results per start position are memoised.
 *
 * The two implementations differ at a dead end, a position from which no
 * tiling reaches the end of the word: the Python reference records `None`
 * there and discards every tiling through it, while the browser records an
 * empty tokenization, so the unmatched rest of the word is dropped.
 */
module Tokenizer {
  import opened Wrappers
  import opened Geometry
  import opened Systems
  import Phrases

  datatype Pattern = Literal(key: string) | Regex(matcher: Matcher)

  datatype Candidate = Candidate(pattern: Pattern, value: Glyph, isMode: bool)

  datatype Variant = Reference | Browser

  /**
   * Length of the match of `p` anchored at `start`, 0 when there is none.
   * An empty match, or one reaching past the word, counts as no match.
   */
  function MatchLength(p: Pattern, word: string, start: nat): (n: nat)
    ensures n > 0 ==> start + n <= |word|
    ensures p.Literal? ==> (n > 0 <==> p.key != [] && start + |p.key| <= |word| && word[start..start + |p.key|] == p.key)
    ensures p.Literal? && n > 0 ==> n == |p.key|
  {
    match p
    case Literal(key) =>
      if key != [] && start + |key| <= |word| && word[start..start + |key|] == key then |key| else 0
    case Regex(m) =>
      match m(word, start)
      case Some(k) => if 0 < k && start + k <= |word| then k else 0
      case None => 0
  }

  predicate NoMatchAt(cands: seq<Candidate>, word: string, start: nat) {
    forall j :: 0 <= j < |cands| ==> MatchLength(cands[j].pattern, word, start) == 0
  }

  datatype Tokenization = Tokenization(tokens: seq<Glyph>, count: nat, longest: nat, modeCount: nat)

  const Empty := Tokenization([], 0, 0, 0)

  /** The tokenization that starts with a match of length `n` of `c`, followed by `rest`. */
  function Prepend(c: Candidate, n: nat, rest: Tokenization): (t: Tokenization)
    ensures t.tokens == [c.value] + rest.tokens
    ensures t.count == rest.count + 1
    ensures t.longest >= n && t.longest >= rest.longest && (t.longest == n || t.longest == rest.longest)
    ensures t.modeCount == rest.modeCount + (if c.isMode then 1 else 0)
  {
    Tokenization([c.value] + rest.tokens, 1 + rest.count,
      if n > rest.longest then n else rest.longest,
      (if c.isMode then 1 else 0) + rest.modeCount)
  }

  /** `compare_tokenizations(a, b)`: more mode matches, then fewer tokens, then a longer longest match. */
  predicate Better(a: Tokenization, b: Tokenization) {
    if a.modeCount != b.modeCount then a.modeCount > b.modeCount
    else if a.count != b.count then a.count < b.count
    else if a.longest != b.longest then a.longest > b.longest
    else false
  }

  /** `Better` is a strict weak order: equal triples compare false both ways, and it chains. */
  lemma BetterIsStrictWeakOrder(a: Tokenization, b: Tokenization, c: Tokenization)
    ensures !Better(a, a)
    ensures Better(a, b) ==> !Better(b, a)
    ensures Better(a, b) && Better(b, c) ==> Better(a, c)
    ensures !Better(a, b) && !Better(b, c) ==> !Better(a, c)
    ensures Better(a, b) && !Better(c, b) ==> Better(a, c)
    ensures !Better(a, b) && !Better(b, a) <==> (a.modeCount, a.count, a.longest) == (b.modeCount, b.count, b.longest)
  {
  }

  /** Prefixing both with the same match keeps "not better". */
  lemma PrependMonotone(c: Candidate, n: nat, x: Tokenization, y: Tokenization)
    requires !Better(x, y)
    ensures !Better(Prepend(c, n, x), Prepend(c, n, y))
  {
  }

  /** `find_best_tokenization(start)`: `None` means no tiling reaches the end (never, in the browser). */
  function Best(v: Variant, cands: seq<Candidate>, word: string, start: nat): Option<Tokenization>
    requires start <= |word|
    decreases |word| - start, 1, 0
  {
    if start == |word| then Some(Empty)
    else
      var b := Fold(v, cands, word, start, 0, None);
      if v.Browser? && b.None? then Some(Empty) else b
  }

  /** What candidate `j` contributes at `start`: its match followed by the best tokenization of the rest. */
  function Cur(v: Variant, cands: seq<Candidate>, word: string, start: nat, j: nat): Option<Tokenization>
    requires start < |word| && j < |cands|
    decreases |word| - start, 0, 0
  {
    var n := MatchLength(cands[j].pattern, word, start);
    if n == 0 then None
    else
      match Best(v, cands, word, start + n)
      case None => None
      case Some(rest) => Some(Prepend(cands[j], n, rest))
  }

  /** The loop over the candidates from index `i`, `best` holding the best so far; a later candidate replaces it only when strictly better. */
  function Fold(v: Variant, cands: seq<Candidate>, word: string, start: nat, i: nat, best: Option<Tokenization>): Option<Tokenization>
    requires start < |word| && i <= |cands|
    decreases |word| - start, 0, |cands| - i + 1
  {
    if i == |cands| then best
    else
      var c := Cur(v, cands, word, start, i);
      var next := if c.Some? && (best.None? || Better(c.value, best.value)) then c else best;
      Fold(v, cands, word, start, i + 1, next)
  }

  /** Every candidate's contribution at `start`, in candidate order. */
  function Curs(v: Variant, cands: seq<Candidate>, word: string, start: nat): (cs: seq<Option<Tokenization>>)
    requires start < |word|
    ensures |cs| == |cands|
    ensures forall j :: 0 <= j < |cands| ==> cs[j] == Cur(v, cands, word, start, j)
  {
    seq(|cands|, j requires 0 <= j < |cands| => Cur(v, cands, word, start, j))
  }

  /** The candidate loop over precomputed contributions. */
  function Pick(cs: seq<Option<Tokenization>>, i: nat, best: Option<Tokenization>): Option<Tokenization>
    requires i <= |cs|
    decreases |cs| - i
  {
    if i == |cs| then best
    else
      var next := if cs[i].Some? && (best.None? || Better(cs[i].value, best.value)) then cs[i] else best;
      Pick(cs, i + 1, next)
  }

  lemma {:induction false} FoldIsPick(v: Variant, cands: seq<Candidate>, word: string, start: nat, i: nat, best: Option<Tokenization>)
    requires start < |word| && i <= |cands|
    ensures Fold(v, cands, word, start, i, best) == Pick(Curs(v, cands, word, start), i, best)
    decreases |cands| - i
  {
    if i < |cands| {
      var c := Cur(v, cands, word, start, i);
      var next := if c.Some? && (best.None? || Better(c.value, best.value)) then c else best;
      FoldIsPick(v, cands, word, start, i + 1, next);
    }
  }

  /** What the loop has established after the contributions `0..i`: `best` is the first of the best among them. */
  ghost predicate Chosen(cs: seq<Option<Tokenization>>, i: nat, best: Option<Tokenization>)
    requires i <= |cs|
  {
    (best.None? <==> forall j :: 0 <= j < i ==> cs[j].None?)
    && (best.Some? ==> forall j :: 0 <= j < i && cs[j].Some? ==> !Better(cs[j].value, best.value))
    && (best.Some? ==> exists k :: (0 <= k < i && cs[k] == best &&
          forall j :: 0 <= j < k && cs[j].Some? ==> Better(best.value, cs[j].value)))
  }

  lemma ChosenStep(cs: seq<Option<Tokenization>>, i: nat, best: Option<Tokenization>)
    requires i < |cs| && Chosen(cs, i, best)
    ensures Chosen(cs, i + 1, if cs[i].Some? && (best.None? || Better(cs[i].value, best.value)) then cs[i] else best)
  {
    var c := cs[i];
    if c.Some? && best.Some? && Better(c.value, best.value) {
      forall j | 0 <= j < i && cs[j].Some?
        ensures Better(c.value, cs[j].value) && !Better(cs[j].value, c.value)
      {
        BetterIsStrictWeakOrder(c.value, best.value, cs[j].value);
        BetterIsStrictWeakOrder(cs[j].value, c.value, best.value);
      }
      BetterIsStrictWeakOrder(c.value, c.value, c.value);
    } else if c.Some? && best.None? {
      BetterIsStrictWeakOrder(c.value, c.value, c.value);
    }
  }

  lemma {:induction false} PickChosen(cs: seq<Option<Tokenization>>, i: nat, best: Option<Tokenization>)
    requires i <= |cs| && Chosen(cs, i, best)
    ensures Chosen(cs, |cs|, Pick(cs, i, best))
    decreases |cs| - i
  {
    if i < |cs| {
      ChosenStep(cs, i, best);
      PickChosen(cs, i + 1, if cs[i].Some? && (best.None? || Better(cs[i].value, best.value)) then cs[i] else best);
    }
  }

  /** The result at `start`, as characterised by the candidate loop. */
  lemma BestChosen(v: Variant, cands: seq<Candidate>, word: string, start: nat)
    requires start < |word|
    ensures Chosen(Curs(v, cands, word, start), |cands|, Fold(v, cands, word, start, 0, None))
  {
    FoldIsPick(v, cands, word, start, 0, None);
    PickChosen(Curs(v, cands, word, start), 0, None);
  }

  /**
   * The score of tiling the word from `start` with the candidates `idx`, one
   * match after another, or `None` when that is not a tiling. A tiling ends at
   * the end of the word; a browser tiling may also end where nothing matches.
   */
  function ScoreOf(v: Variant, cands: seq<Candidate>, word: string, start: nat, idx: seq<nat>): Option<Tokenization>
    requires start <= |word|
    requires forall k :: 0 <= k < |idx| ==> idx[k] < |cands|
    decreases |idx|
  {
    if idx == [] then
      if start == |word| || (v.Browser? && NoMatchAt(cands, word, start)) then Some(Empty) else None
    else
      var n := MatchLength(cands[idx[0]].pattern, word, start);
      if n == 0 then None
      else
        match ScoreOf(v, cands, word, start + n, idx[1..])
        case None => None
        case Some(rest) => Some(Prepend(cands[idx[0]], n, rest))
  }

  predicate ValidIndices(cands: seq<Candidate>, idx: seq<nat>) {
    forall k :: 0 <= k < |idx| ==> idx[k] < |cands|
  }

  /** The token list of a tiling is the candidates' values in tiling order. */
  lemma {:induction false} ScoreOfTokens(v: Variant, cands: seq<Candidate>, word: string, start: nat, idx: seq<nat>)
    requires start <= |word| && ValidIndices(cands, idx)
    requires ScoreOf(v, cands, word, start, idx).Some?
    ensures var t := ScoreOf(v, cands, word, start, idx).value;
      |t.tokens| == |idx| == t.count &&
      (forall k :: 0 <= k < |idx| ==> t.tokens[k] == cands[idx[k]].value) &&
      t.modeCount <= t.count && t.longest <= |word| - start
    decreases |idx|
  {
    if idx != [] {
      var n := MatchLength(cands[idx[0]].pattern, word, start);
      ScoreOfTokens(v, cands, word, start + n, idx[1..]);
    }
  }

  /** When the candidate loop finds nothing yet a result is returned, this is the browser and nothing matches here. */
  lemma EmptyFoldNoMatch(v: Variant, cands: seq<Candidate>, word: string, start: nat)
    requires start < |word| && Best(v, cands, word, start).Some?
    requires Fold(v, cands, word, start, 0, None).None?
    ensures v.Browser? && NoMatchAt(cands, word, start)
  {
    BestChosen(v, cands, word, start);
    var cs := Curs(v, cands, word, start);
    forall j | 0 <= j < |cands|
      ensures MatchLength(cands[j].pattern, word, start) == 0
    {
      assert cs[j].None?;
      var n := MatchLength(cands[j].pattern, word, start);
      if n > 0 {
        assert Best(v, cands, word, start + n).Some?;
      }
    }
  }

  /** `idx` tiles the word from `start` and scores exactly the result there. */
  ghost predicate IsTiling(v: Variant, cands: seq<Candidate>, word: string, start: nat, idx: seq<nat>)
    requires start <= |word|
  {
    ValidIndices(cands, idx) && ScoreOf(v, cands, word, start, idx) == Best(v, cands, word, start)
  }

  /** Candidate `k` followed by a tiling of the rest is a tiling scoring what candidate `k` contributes. */
  lemma PrependTiling(v: Variant, cands: seq<Candidate>, word: string, start: nat, k: nat, n: nat, rest: seq<nat>)
    requires start < |word| && k < |cands| && n == MatchLength(cands[k].pattern, word, start) && n > 0
    requires IsTiling(v, cands, word, start + n, rest)
    ensures ValidIndices(cands, [k] + rest)
    ensures ScoreOf(v, cands, word, start, [k] + rest) == Cur(v, cands, word, start, k)
  {
    assert ([k] + rest)[1..] == rest;
  }

  /** What is returned is a tiling. */
  lemma {:induction false} BestIsTiling(v: Variant, cands: seq<Candidate>, word: string, start: nat)
    requires start <= |word|
    requires Best(v, cands, word, start).Some?
    ensures exists idx :: IsTiling(v, cands, word, start, idx)
    decreases |word| - start
  {
    if start == |word| {
      assert ScoreOf(v, cands, word, start, []) == Some(Empty);
      assert IsTiling(v, cands, word, start, []);
    } else if Fold(v, cands, word, start, 0, None).None? {
      EmptyFoldNoMatch(v, cands, word, start);
      assert ScoreOf(v, cands, word, start, []) == Some(Empty);
      assert IsTiling(v, cands, word, start, []);
    } else {
      var k := ChosenCandidate(v, cands, word, start);
      var n := MatchLength(cands[k].pattern, word, start);
      BestIsTiling(v, cands, word, start + n);
      var rest :| IsTiling(v, cands, word, start + n, rest);
      PrependTiling(v, cands, word, start, k, n, rest);
      var idx: seq<nat> := [k] + rest;
      assert IsTiling(v, cands, word, start, idx);
    }
  }

  /** When the candidate loop finds something, the result is what one matching candidate contributes. */
  lemma ChosenCandidate(v: Variant, cands: seq<Candidate>, word: string, start: nat) returns (k: nat)
    requires start < |word|
    requires Fold(v, cands, word, start, 0, None).Some?
    ensures k < |cands| && MatchLength(cands[k].pattern, word, start) > 0
    ensures Best(v, cands, word, start + MatchLength(cands[k].pattern, word, start)).Some?
    ensures Cur(v, cands, word, start, k) == Best(v, cands, word, start)
  {
    BestChosen(v, cands, word, start);
    var cs := Curs(v, cands, word, start);
    k :| 0 <= k < |cands| && cs[k] == Fold(v, cands, word, start, 0, None);
    assert Cur(v, cands, word, start, k).Some?;
  }

  /** No tiling scores better than the result, and the result exists whenever a tiling does. */
  lemma {:induction false} BestIsOptimal(v: Variant, cands: seq<Candidate>, word: string, start: nat, idx: seq<nat>)
    requires start <= |word| && ValidIndices(cands, idx)
    requires ScoreOf(v, cands, word, start, idx).Some?
    ensures Best(v, cands, word, start).Some?
    ensures !Better(ScoreOf(v, cands, word, start, idx).value, Best(v, cands, word, start).value)
    decreases |idx|
  {
    var x := ScoreOf(v, cands, word, start, idx).value;
    if idx == [] {
      if start < |word| {
        BestChosen(v, cands, word, start);
        var cs := Curs(v, cands, word, start);
        forall j | 0 <= j < |cands|
          ensures cs[j].None?
        {
        }
      }
    } else {
      var j := idx[0];
      var n := MatchLength(cands[j].pattern, word, start);
      var x' := ScoreOf(v, cands, word, start + n, idx[1..]).value;
      BestIsOptimal(v, cands, word, start + n, idx[1..]);
      var y' := Best(v, cands, word, start + n).value;
      PrependMonotone(cands[j], n, x', y');
      var cj := Prepend(cands[j], n, y');
      assert Cur(v, cands, word, start, j) == Some(cj);
      BestChosen(v, cands, word, start);
      assert Curs(v, cands, word, start)[j] == Some(cj);
      var r := Best(v, cands, word, start).value;
      BetterIsStrictWeakOrder(x, cj, r);
    }
  }

  /** A reference result reaches the end of the word: no tiling, no result. */
  lemma ReferenceNeedsCompleteTiling(cands: seq<Candidate>, word: string, idx: seq<nat>)
    requires ValidIndices(cands, idx) && ScoreOf(Reference, cands, word, 0, idx).Some?
    ensures Best(Reference, cands, word, 0).Some?
  {
    BestIsOptimal(Reference, cands, word, 0, idx);
  }

  /**
   * Ties go to the earlier candidate: the result comes from a candidate `k`
   * every earlier candidate of which scores strictly worse, and no candidate
   * scores better.
   */
  lemma BestPrefersEarlierCandidate(v: Variant, cands: seq<Candidate>, word: string, start: nat)
    requires start < |word|
    requires v.Reference? || !NoMatchAt(cands, word, start)
    requires Best(v, cands, word, start).Some?
    ensures exists k :: (0 <= k < |cands| && Cur(v, cands, word, start, k) == Best(v, cands, word, start)
      && (forall j :: 0 <= j < k && Cur(v, cands, word, start, j).Some? ==>
            Better(Best(v, cands, word, start).value, Cur(v, cands, word, start, j).value))
      && (forall j :: 0 <= j < |cands| && Cur(v, cands, word, start, j).Some? ==>
            !Better(Cur(v, cands, word, start, j).value, Best(v, cands, word, start).value)))
  {
    BestChosen(v, cands, word, start);
    if v.Browser? {
      var j :| 0 <= j < |cands| && MatchLength(cands[j].pattern, word, start) != 0;
      BrowserNeverFails(cands, word, start + MatchLength(cands[j].pattern, word, start));
      assert Cur(v, cands, word, start, j).Some?;
    }
  }

  lemma BrowserNeverFails(cands: seq<Candidate>, word: string, start: nat)
    requires start <= |word|
    ensures Best(Browser, cands, word, start).Some?
  {
  }

  /** `memo` holds only results of `Best`. */
  ghost predicate MemoSound(v: Variant, cands: seq<Candidate>, word: string, memo: map<nat, Option<Tokenization>>) {
    forall k :: k in memo ==> k <= |word| && memo[k] == Best(v, cands, word, k)
  }

  /** `find_best_tokenization` / `findBestTokenization`, memoised. */
  method FindBest(v: Variant, cands: seq<Candidate>, word: string, start: nat, memo: map<nat, Option<Tokenization>>)
    returns (r: Option<Tokenization>, memo': map<nat, Option<Tokenization>>)
    requires start <= |word|
    requires MemoSound(v, cands, word, memo)
    ensures r == Best(v, cands, word, start)
    ensures MemoSound(v, cands, word, memo')
    decreases |word| - start
  {
    if start == |word| {
      return Some(Empty), memo;
    }
    if start in memo {
      return memo[start], memo;
    }
    memo' := memo;
    var best: Option<Tokenization> := None;
    var i := 0;
    while i < |cands|
      invariant i <= |cands|
      invariant MemoSound(v, cands, word, memo')
      invariant Fold(v, cands, word, start, 0, None) == Fold(v, cands, word, start, i, best)
    {
      var n := MatchLength(cands[i].pattern, word, start);
      if n > 0 {
        var remaining;
        remaining, memo' := FindBest(v, cands, word, start + n, memo');
        if remaining.Some? {
          var current := Prepend(cands[i], n, remaining.value);
          if best.None? || Better(current, best.value) {
            best := Some(current);
          }
        }
      }
      i := i + 1;
    }
    r := if v.Browser? && best.None? then Some(Empty) else best;
    memo' := memo'[start := r];
  }

  /** The tokens of the result, or none when there is no result. */
  function TokensOf(r: Option<Tokenization>): seq<Glyph> {
    if r.Some? then r.value.tokens else []
  }

  /** The search itself, from an empty memo, given the candidate list. */
  method TokenizeWith(v: Variant, cands: seq<Candidate>, word: string) returns (tokens: seq<Glyph>)
    ensures tokens == TokensOf(Best(v, cands, word, 0))
    ensures word == [] ==> tokens == []
  {
    if word == [] {
      return [];
    }
    var result, _ := FindBest(v, cands, word, 0, map[]);
    tokens := TokensOf(result);
  }

  /** Mode `i` is active and its pattern compiles, so the renderer keeps it. */
  predicate ModeKept(modes: Dict<Mode>, active: seq<string>, compile: ModeCompiler, i: nat)
    requires i < |modes|
  {
    modes[i].0 in active && compile(modes[i].1.pattern).Some?
  }

  /** The candidate a kept mode becomes: its compiled pattern, its points, marked as a mode. */
  function ModeCandidate(mode: Mode, compile: ModeCompiler): Candidate
    requires compile(mode.pattern).Some?
  {
    Candidate(Regex(compile(mode.pattern).value), mode.points, true)
  }

  /** The indices of the kept modes, in increasing order. */
  function KeptModes(modes: Dict<Mode>, active: seq<string>, compile: ModeCompiler): (idx: seq<nat>)
    ensures forall k :: 0 <= k < |idx| ==> idx[k] < |modes| && ModeKept(modes, active, compile, idx[k])
    ensures forall k1, k2 :: 0 <= k1 < k2 < |idx| ==> idx[k1] < idx[k2]
    ensures forall i :: 0 <= i < |modes| && ModeKept(modes, active, compile, i) ==> i in idx
  {
    if modes == [] then []
    else
      var n := |modes| - 1;
      var front := KeptModes(modes[..n], active, compile);
      assert forall i :: 0 <= i < n ==> modes[..n][i] == modes[i];
      if ModeKept(modes, active, compile, n) then front + [n] else front
  }

  /**
   * The loop over `modes`: the kept modes' candidates, one per kept mode, in
   * the order of the system's modes.
   */
  function ModeCandidates(modes: Dict<Mode>, active: seq<string>, compile: ModeCompiler): (r: seq<Candidate>)
    ensures |r| == |KeptModes(modes, active, compile)|
    ensures forall k :: 0 <= k < |r| ==>
      var i := KeptModes(modes, active, compile)[k]; r[k] == ModeCandidate(modes[i].1, compile)
  {
    if modes == [] then []
    else
      var n := |modes| - 1;
      var front := ModeCandidates(modes[..n], active, compile);
      assert forall i :: 0 <= i < n ==> modes[..n][i] == modes[i];
      if ModeKept(modes, active, compile, n) then front + [ModeCandidate(modes[n].1, compile)] else front
  }

  /** A candidate is a mode candidate exactly when it comes from a kept mode. */
  lemma ModeCandidatesMembers(modes: Dict<Mode>, active: seq<string>, compile: ModeCompiler)
    ensures forall c :: c in ModeCandidates(modes, active, compile) <==>
      exists i :: 0 <= i < |modes| && ModeKept(modes, active, compile, i) && c == ModeCandidate(modes[i].1, compile)
  {
    var r := ModeCandidates(modes, active, compile);
    var idx := KeptModes(modes, active, compile);
    forall c | c in r
      ensures exists i :: 0 <= i < |modes| && ModeKept(modes, active, compile, i) && c == ModeCandidate(modes[i].1, compile)
    {
      var k :| 0 <= k < |r| && r[k] == c;
      assert c == ModeCandidate(modes[idx[k]].1, compile);
    }
    forall i | 0 <= i < |modes| && ModeKept(modes, active, compile, i)
      ensures ModeCandidate(modes[i].1, compile) in r
    {
      var k :| 0 <= k < |idx| && idx[k] == i;
      assert r[k] == ModeCandidate(modes[i].1, compile);
    }
  }

  /** Every glyph, matched literally by its name. */
  function GlyphCandidates(glyphs: Dict<Glyph>): (r: seq<Candidate>)
    ensures |r| == |glyphs|
    ensures forall k :: 0 <= k < |r| ==>
      !r[k].isMode && r[k].pattern == Literal(glyphs[k].0) && r[k].value == glyphs[k].1
  {
    seq(|glyphs|, k requires 0 <= k < |glyphs| => Candidate(Literal(glyphs[k].0), glyphs[k].1, false))
  }

  /** The Python `regex_list`: active, compiling modes in system order, then all glyphs. */
  function Candidates(sys: System, activeModes: Option<seq<string>>, compile: ModeCompiler): (r: seq<Candidate>)
    ensures exists m :: (0 <= m <= |r| && (forall k :: 0 <= k < |r| ==> (r[k].isMode <==> k < m))
      && r[m..] == GlyphCandidates(sys.glyphs))
    ensures var ms := ModeCandidates(sys.modes, activeModes.GetOr(Keys(sys.modes)), compile);
      |ms| <= |r| && r[..|ms|] == ms
  {
    var active := activeModes.GetOr(Keys(sys.modes));
    var ms := ModeCandidates(sys.modes, active, compile);
    var r := ms + GlyphCandidates(sys.glyphs);
    assert r[|ms|..] == GlyphCandidates(sys.glyphs);
    r
  }

  /** `tokenize_string(word, system, active_modes)`. */
  method TokenizeString(word: string, sys: System, activeModes: Option<seq<string>>, compile: ModeCompiler)
    returns (tokens: seq<Glyph>)
    ensures tokens == TokensOf(Best(Reference, Candidates(sys, activeModes, compile), word, 0))
  {
    if word == [] {
      return [];
    }
    var cands := Candidates(sys, activeModes, compile);
    tokens := TokenizeWith(Reference, cands, word);
  }

  /** Inserts or overwrites `k` in a JavaScript object: a new key goes last, an existing one keeps its place. */
  function Put<V>(d: Dict<V>, k: string, v: V): (r: Dict<V>)
    ensures Keys(r) == if k in Keys(d) then Keys(d) else Keys(d) + [k]
    ensures Lookup(r, k) == Some(v)
  {
    if d == [] then [(k, v)]
    else if d[0].0 == k then [(k, v)] + d[1..]
    else
      assert Keys(d) == [d[0].0] + Keys(d[1..]);
      [d[0]] + Put(d[1..], k, v)
  }

  /** Writing one key leaves what every other key holds unchanged. */
  lemma {:induction false} PutKeepsOthers<V>(d: Dict<V>, k: string, v: V, j: string)
    requires j != k
    ensures Lookup(Put(d, k, v), j) == Lookup(d, j)
  {
    if d == [] {
    } else if d[0].0 == k {
      assert ([(k, v)] + d[1..])[1..] == d[1..];
    } else {
      var r := Put(d, k, v);
      assert r[0] == d[0] && r[1..] == Put(d[1..], k, v);
      if d[0].0 != j {
        PutKeepsOthers(d[1..], k, v, j);
      }
    }
  }

  /** Mode `i` is active and has pattern `p`. */
  predicate ActiveWith(modes: Dict<Mode>, active: seq<string>, i: nat, p: string)
    requires i < |modes|
  {
    modes[i].0 in active && modes[i].1.pattern == p
  }

  /** The index of the first active mode with pattern `p`, or `|modes|` when there is none. */
  function FirstActive(modes: Dict<Mode>, active: seq<string>, p: string): (j: nat)
    ensures j <= |modes|
    ensures j < |modes| ==> ActiveWith(modes, active, j, p)
    ensures forall i :: 0 <= i < j && i < |modes| ==> !ActiveWith(modes, active, i, p)
  {
    if modes == [] then 0
    else
      var n := |modes| - 1;
      var f := FirstActive(modes[..n], active, p);
      forall i | 0 <= i < n
        ensures ActiveWith(modes[..n], active, i, p) == ActiveWith(modes, active, i, p)
      {
        assert modes[..n][i] == modes[i];
      }
      if f < n then f else if ActiveWith(modes, active, n, p) then n else n + 1
  }

  /** Mode `j` is active and no later active mode has its pattern. */
  predicate LastWithPattern(modes: Dict<Mode>, active: seq<string>, j: nat)
    requires j < |modes|
  {
    ActiveWith(modes, active, j, modes[j].1.pattern)
    && forall i :: j < i < |modes| ==> !ActiveWith(modes, active, i, modes[j].1.pattern)
  }

  /**
   * `modeRegexDict`: the keys are the distinct patterns of the active modes,
   * in the order of their first active mode, and each holds the points of
   * the last active mode with that pattern.
   */
  function ModePatternDict(modes: Dict<Mode>, active: seq<string>): (r: Dict<Glyph>)
    ensures forall p :: p in Keys(r) <==> FirstActive(modes, active, p) < |modes|
    ensures forall k1, k2 :: 0 <= k1 < k2 < |r| ==>
      FirstActive(modes, active, r[k1].0) < FirstActive(modes, active, r[k2].0)
    ensures forall j :: 0 <= j < |modes| && LastWithPattern(modes, active, j) ==>
      Lookup(r, modes[j].1.pattern) == Some(modes[j].1.points)
  {
    if modes == [] then []
    else
      var n := |modes| - 1;
      var d := ModePatternDict(modes[..n], active);
      var r := if modes[n].0 in active then Put(d, modes[n].1.pattern, modes[n].1.points) else d;
      PutIsStep(modes, active, d, r);
      PatternDictKeys(modes, active, d, r);
      PatternDictOrder(modes, active, d, r);
      PatternDictValues(modes, active, d, r);
      r
  }

  /** What writing the last mode into `modeRegexDict` does to the dictionary `d` of the modes before it. */
  ghost predicate LastModeWritten(modes: Dict<Mode>, active: seq<string>, d: Dict<Glyph>, r: Dict<Glyph>)
    requires |modes| > 0
  {
    var m := modes[|modes| - 1];
    if m.0 in active then
      Keys(r) == (if m.1.pattern in Keys(d) then Keys(d) else Keys(d) + [m.1.pattern])
      && Lookup(r, m.1.pattern) == Some(m.1.points)
      && forall q :: q != m.1.pattern ==> Lookup(r, q) == Lookup(d, q)
    else r == d
  }

  lemma PutIsStep(modes: Dict<Mode>, active: seq<string>, d: Dict<Glyph>, r: Dict<Glyph>)
    requires |modes| > 0
    requires var m := modes[|modes| - 1]; r == if m.0 in active then Put(d, m.1.pattern, m.1.points) else d
    ensures LastModeWritten(modes, active, d, r)
  {
    var m := modes[|modes| - 1];
    if m.0 in active {
      forall q | q != m.1.pattern
        ensures Lookup(r, q) == Lookup(d, q)
      {
        PutKeepsOthers(d, m.1.pattern, m.1.points, q);
      }
    }
  }

  /** The prefix `modes[..n]` and `modes` agree on every mode of the prefix. */
  lemma FrontAgrees(modes: Dict<Mode>, active: seq<string>, n: nat)
    requires n < |modes|
    ensures forall i, p :: 0 <= i < n ==> (ActiveWith(modes[..n], active, i, p) <==> ActiveWith(modes, active, i, p))
    ensures forall p :: FirstActive(modes[..n], active, p) < n ==> FirstActive(modes, active, p) == FirstActive(modes[..n], active, p)
    ensures forall p :: FirstActive(modes[..n], active, p) == n ==> FirstActive(modes, active, p) >= n
  {
    forall i, p | 0 <= i < n
      ensures ActiveWith(modes[..n], active, i, p) <==> ActiveWith(modes, active, i, p)
    {
      assert modes[..n][i] == modes[i];
    }
  }

  /** One step of `modeRegexDict`: which patterns are keys. */
  lemma PatternDictKeys(modes: Dict<Mode>, active: seq<string>, d: Dict<Glyph>, r: Dict<Glyph>)
    requires |modes| > 0 && LastModeWritten(modes, active, d, r)
    requires forall p :: p in Keys(d) <==> FirstActive(modes[..|modes| - 1], active, p) < |modes| - 1
    ensures forall p :: p in Keys(r) <==> FirstActive(modes, active, p) < |modes|
  {
    FrontAgrees(modes, active, |modes| - 1);
    var m := modes[|modes| - 1];
    assert forall p :: p in Keys(r) <==> p in Keys(d) || (m.0 in active && p == m.1.pattern);
  }

  /** One step of `modeRegexDict`: the keys stay in first-occurrence order. */
  lemma PatternDictOrder(modes: Dict<Mode>, active: seq<string>, d: Dict<Glyph>, r: Dict<Glyph>)
    requires |modes| > 0 && LastModeWritten(modes, active, d, r)
    requires forall p :: p in Keys(d) <==> FirstActive(modes[..|modes| - 1], active, p) < |modes| - 1
    requires forall k1, k2 :: 0 <= k1 < k2 < |d| ==>
      FirstActive(modes[..|modes| - 1], active, d[k1].0) < FirstActive(modes[..|modes| - 1], active, d[k2].0)
    ensures forall k1, k2 :: 0 <= k1 < k2 < |r| ==> FirstActive(modes, active, r[k1].0) < FirstActive(modes, active, r[k2].0)
  {
    OldKeysKeepFirst(modes, active, d, r);
    if |r| > |d| {
      assert Keys(r) == Keys(d) + [modes[|modes| - 1].1.pattern];
      NewKeyComesLast(modes, active, d);
      assert Keys(r)[|d|] == r[|d|].0;
    }
  }

  /** The keys already in the dictionary keep their first active mode, which lies in the prefix. */
  lemma OldKeysKeepFirst(modes: Dict<Mode>, active: seq<string>, d: Dict<Glyph>, r: Dict<Glyph>)
    requires |modes| > 0
    requires forall p :: p in Keys(d) <==> FirstActive(modes[..|modes| - 1], active, p) < |modes| - 1
    requires Keys(r) == Keys(d) || Keys(r) == Keys(d) + [modes[|modes| - 1].1.pattern]
    ensures forall k :: 0 <= k < |d| ==> r[k].0 == d[k].0 && FirstActive(modes, active, r[k].0) == FirstActive(modes[..|modes| - 1], active, d[k].0) < |modes| - 1
  {
    FrontAgrees(modes, active, |modes| - 1);
    forall k | 0 <= k < |d|
      ensures r[k].0 == d[k].0
    {
      assert Keys(r)[k] == Keys(d)[k];
    }
    forall k | 0 <= k < |d|
      ensures FirstActive(modes[..|modes| - 1], active, d[k].0) < |modes| - 1
    {
      assert Keys(d)[k] == d[k].0;
      assert d[k].0 in Keys(d);
    }
  }

  /** A key added by the last mode is new, so that mode is its first active one. */
  lemma NewKeyComesLast(modes: Dict<Mode>, active: seq<string>, d: Dict<Glyph>)
    requires |modes| > 0
    requires forall p :: p in Keys(d) <==> FirstActive(modes[..|modes| - 1], active, p) < |modes| - 1
    requires var n := |modes| - 1; modes[n].0 in active && modes[n].1.pattern !in Keys(d)
    ensures var p := modes[|modes| - 1].1.pattern; FirstActive(modes, active, p) == |modes| - 1
  {
    FrontAgrees(modes, active, |modes| - 1);
    assert ActiveWith(modes, active, |modes| - 1, modes[|modes| - 1].1.pattern);
  }

  /** The last active mode with its pattern, before the final mode, is also the last one in the prefix. */
  lemma LastInFront(modes: Dict<Mode>, active: seq<string>, j: nat)
    requires j < |modes| - 1 && LastWithPattern(modes, active, j)
    ensures LastWithPattern(modes[..|modes| - 1], active, j)
    ensures !ActiveWith(modes, active, |modes| - 1, modes[j].1.pattern)
  {
    var front := modes[..|modes| - 1];
    assert front[j] == modes[j];
    forall i | j < i < |front|
      ensures !ActiveWith(front, active, i, front[j].1.pattern)
    {
      assert front[i] == modes[i];
      assert !ActiveWith(modes, active, i, modes[j].1.pattern);
    }
  }

  /** One step of `modeRegexDict`: each key holds the points of its last active mode. */
  lemma PatternDictValues(modes: Dict<Mode>, active: seq<string>, d: Dict<Glyph>, r: Dict<Glyph>)
    requires |modes| > 0 && LastModeWritten(modes, active, d, r)
    requires forall j :: 0 <= j < |modes| - 1 && LastWithPattern(modes[..|modes| - 1], active, j) ==>
      Lookup(d, modes[j].1.pattern) == Some(modes[j].1.points)
    ensures forall j :: 0 <= j < |modes| && LastWithPattern(modes, active, j) ==>
      Lookup(r, modes[j].1.pattern) == Some(modes[j].1.points)
  {
    forall j | 0 <= j < |modes| && LastWithPattern(modes, active, j)
      ensures Lookup(r, modes[j].1.pattern) == Some(modes[j].1.points)
    {
      if j < |modes| - 1 {
        LastInFront(modes, active, j);
        assert Lookup(d, modes[j].1.pattern) == Some(modes[j].1.points);
        UnwrittenKeyKept(modes, active, d, r, modes[j].1.pattern);
      }
    }
  }

  /** A pattern the last mode does not write keeps its value. */
  lemma UnwrittenKeyKept(modes: Dict<Mode>, active: seq<string>, d: Dict<Glyph>, r: Dict<Glyph>, q: string)
    requires |modes| > 0 && LastModeWritten(modes, active, d, r)
    requires !ActiveWith(modes, active, |modes| - 1, q)
    ensures Lookup(r, q) == Lookup(d, q)
  {
  }

  /** Compiles every pattern of `d`; `new RegExp` throws on the first that does not compile. */
  function CompileAll(d: Dict<Glyph>, compile: ModeCompiler): (r: Option<seq<Candidate>>)
    ensures r.None? <==> exists k :: 0 <= k < |d| && compile(d[k].0).None?
    ensures r.Some? ==> |r.value| == |d| && forall k :: 0 <= k < |d| ==> r.value[k].isMode && r.value[k].value == d[k].1
    ensures r.Some? ==> forall k :: 0 <= k < |d| ==> r.value[k].pattern == Regex(compile(d[k].0).value)
  {
    if d == [] then Some([])
    else
      match compile(d[0].0)
      case None => None
      case Some(m) =>
        var rest := CompileAll(d[1..], compile);
        assert forall k :: 1 <= k < |d| ==> d[k] == d[1..][k - 1];
        if rest.None? then None
        else Some([Candidate(Regex(m), d[0].1, true)] + rest.value)
  }

  /**
   * The browser's `regexList`, or `None` when a mode pattern throws. The
   * glyph names are re-keyed by their escaped form, which is one-to-one
   * (`Phrases.EscapeInjective`), so each glyph stays one literal candidate.
   */
  function JsCandidates(sys: System, activeModes: seq<string>, compile: ModeCompiler): (r: Option<seq<Candidate>>)
    ensures r.None? <==> exists i :: 0 <= i < |sys.modes| && sys.modes[i].0 in activeModes && compile(sys.modes[i].1.pattern).None?
    ensures r.Some? ==> var d := ModePatternDict(sys.modes, activeModes);
      |d| <= |r.value| && r.value[|d|..] == GlyphCandidates(sys.glyphs)
      && forall k :: 0 <= k < |d| ==> r.value[k] == Candidate(Regex(compile(d[k].0).value), d[k].1, true)
  {
    var d := ModePatternDict(sys.modes, activeModes);
    JsCandidatesThrow(sys.modes, activeModes, compile);
    match CompileAll(d, compile)
    case None => None
    case Some(ms) =>
      assert (ms + GlyphCandidates(sys.glyphs))[|d|..] == GlyphCandidates(sys.glyphs);
      Some(ms + GlyphCandidates(sys.glyphs))
  }

  /** Some pattern of `modeRegexDict` fails to compile exactly when some active mode's pattern does. */
  lemma JsCandidatesThrow(modes: Dict<Mode>, active: seq<string>, compile: ModeCompiler)
    ensures var d := ModePatternDict(modes, active);
      (exists k :: 0 <= k < |d| && compile(d[k].0).None?) <==>
      (exists i :: 0 <= i < |modes| && modes[i].0 in active && compile(modes[i].1.pattern).None?)
  {
    var d := ModePatternDict(modes, active);
    if k :| 0 <= k < |d| && compile(d[k].0).None? {
      KeyHasActiveMode(modes, active, d, k);
    }
    if i :| 0 <= i < |modes| && modes[i].0 in active && compile(modes[i].1.pattern).None? {
      ActiveModeHasKey(modes, active, d, i);
    }
  }

  lemma KeyHasActiveMode(modes: Dict<Mode>, active: seq<string>, d: Dict<Glyph>, k: nat)
    requires d == ModePatternDict(modes, active) && k < |d|
    ensures exists i :: 0 <= i < |modes| && modes[i].0 in active && modes[i].1.pattern == d[k].0
  {
    assert Keys(d)[k] == d[k].0;
    var i := FirstActive(modes, active, d[k].0);
    assert ActiveWith(modes, active, i, d[k].0);
  }

  lemma ActiveModeHasKey(modes: Dict<Mode>, active: seq<string>, d: Dict<Glyph>, i: nat)
    requires d == ModePatternDict(modes, active) && i < |modes| && modes[i].0 in active
    ensures exists k :: 0 <= k < |d| && d[k].0 == modes[i].1.pattern
  {
    var p := modes[i].1.pattern;
    assert ActiveWith(modes, active, i, p);
    assert FirstActive(modes, active, p) <= i;
    assert p in Keys(d);
    var k :| 0 <= k < |d| && Keys(d)[k] == p;
  }

  /**
   * Two active modes with one pattern: the renderer keeps both as candidates,
   * the first first, so the first one's points win ties; the browser's
   * object keeps one key, at the first mode's place, holding the second
   * mode's points.
   */
  lemma DuplicatePatternExample(g1: Glyph, g2: Glyph, compile: ModeCompiler)
    requires compile("x").Some?
    ensures var modes := [("m1", Mode("x", g1)), ("m2", Mode("x", g2))];
      var ms := ModeCandidates(modes, ["m1", "m2"], compile);
      |ms| == 2 && ms[0].value == g1 && ms[1].value == g2
      && ModePatternDict(modes, ["m1", "m2"]) == [("x", g2)]
  {
    var modes := [("m1", Mode("x", g1)), ("m2", Mode("x", g2))];
    var active := ["m1", "m2"];
    assert modes[..1] == [("m1", Mode("x", g1))];
    assert modes[..1][..0] == [];
    assert ModeKept(modes, active, compile, 0) && ModeKept(modes, active, compile, 1);
    assert ModePatternDict(modes[..1], active) == [("x", g1)];
  }

  /** `tokenizeString(word, system, activeModes)`; `None` when it throws. */
  method JsTokenizeString(word: string, sys: System, activeModes: seq<string>, compile: ModeCompiler)
    returns (tokens: Option<seq<Glyph>>)
    ensures tokens.None? <==> JsCandidates(sys, activeModes, compile).None?
    ensures tokens.Some? ==> tokens.value == TokensOf(Best(Browser, JsCandidates(sys, activeModes, compile).value, word, 0))
  {
    var cands := JsCandidates(sys, activeModes, compile);
    if cands.None? {
      return None;
    }
    var t := TokenizeWith(Browser, cands.value, word);
    tokens := Some(t);
  }

  /** One glyph `a`: the browser drops the unmatched `x` of "ax" and draws one token; the reference draws nothing. */
  lemma DeadEndExample(g: Glyph)
    ensures TokensOf(Best(Browser, GlyphCandidates([("a", g)]), "ax", 0)) == [g]
    ensures TokensOf(Best(Reference, GlyphCandidates([("a", g)]), "ax", 0)) == []
  {
    var cands := GlyphCandidates([("a", g)]);
    var w := "ax";
    assert w[0..1] == "a" && w[1..2][0] == 'x';
    assert MatchLength(cands[0].pattern, w, 0) == 1;
    assert MatchLength(cands[0].pattern, w, 1) == 0;
    assert Cur(Browser, cands, w, 1, 0) == None;
    assert Best(Browser, cands, w, 1) == Some(Empty);
    assert Cur(Browser, cands, w, 0, 0) == Some(Prepend(cands[0], 1, Empty));
    assert Cur(Reference, cands, w, 1, 0) == None;
    assert Best(Reference, cands, w, 1) == None;
    assert Cur(Reference, cands, w, 0, 0) == None;
  }

  /**
   * Glyphs `ab`, `a`, `bc` on "abc": the reference finds the only complete
   * tiling `a`+`bc`; the browser prefers `ab` with the dead end after it, as
   * one token beats two.
   */
  lemma DivergenceExample(ab: Glyph, a: Glyph, bc: Glyph)
    ensures TokensOf(Best(Reference, GlyphCandidates([("ab", ab), ("a", a), ("bc", bc)]), "abc", 0)) == [a, bc]
    ensures TokensOf(Best(Browser, GlyphCandidates([("ab", ab), ("a", a), ("bc", bc)]), "abc", 0)) == [ab]
  {
    var cands := GlyphCandidates([("ab", ab), ("a", a), ("bc", bc)]);
    var w := "abc";
    assert w[0..2] == "ab" && w[0..1] == "a" && w[0..2] != "bc";
    assert w[1..3] == "bc" && w[1..3] != "ab" && w[1..2] != "a";
    assert w[2..3] == "c" && w[2..3] != "a";
    assert MatchLength(cands[0].pattern, w, 0) == 2;
    assert MatchLength(cands[1].pattern, w, 0) == 1;
    assert MatchLength(cands[2].pattern, w, 0) == 0;
    assert MatchLength(cands[0].pattern, w, 1) == 0;
    assert MatchLength(cands[1].pattern, w, 1) == 0;
    assert MatchLength(cands[2].pattern, w, 1) == 2;
    assert MatchLength(cands[0].pattern, w, 2) == 0;
    assert MatchLength(cands[1].pattern, w, 2) == 0;
    assert MatchLength(cands[2].pattern, w, 2) == 0;
    var bcTok := Prepend(cands[2], 2, Empty);
    var abTok := Prepend(cands[0], 2, Empty);
    var abcTok := Prepend(cands[1], 1, bcTok);
    forall v: Variant, j | 0 <= j < 3
      ensures Cur(v, cands, w, 2, j) == None
    {
    }
    forall v: Variant
      ensures Fold(v, cands, w, 2, 0, None) == None
    {
      assert Fold(v, cands, w, 2, 3, None) == None;
      assert Fold(v, cands, w, 2, 2, None) == None;
      assert Fold(v, cands, w, 2, 1, None) == None;
    }
    assert Best(Reference, cands, w, 2) == None;
    assert Best(Browser, cands, w, 2) == Some(Empty);
    forall v: Variant
      ensures Fold(v, cands, w, 1, 0, None) == Some(bcTok)
    {
      assert Cur(v, cands, w, 1, 0) == None;
      assert Cur(v, cands, w, 1, 1) == None;
      assert Cur(v, cands, w, 1, 2) == Some(bcTok);
      assert Fold(v, cands, w, 1, 2, None) == Some(bcTok);
    }
    assert Best(Reference, cands, w, 1) == Some(bcTok);
    assert Best(Browser, cands, w, 1) == Some(bcTok);
    assert Cur(Reference, cands, w, 0, 0) == None;
    assert Cur(Reference, cands, w, 0, 1) == Some(abcTok);
    assert Cur(Reference, cands, w, 0, 2) == None;
    assert Fold(Reference, cands, w, 0, 2, Some(abcTok)) == Some(abcTok);
    assert Fold(Reference, cands, w, 0, 0, None) == Some(abcTok);
    assert Cur(Browser, cands, w, 0, 0) == Some(abTok);
    assert Cur(Browser, cands, w, 0, 1) == Some(abcTok);
    assert Cur(Browser, cands, w, 0, 2) == None;
    assert !Better(abcTok, abTok);
    assert Fold(Browser, cands, w, 0, 2, Some(abTok)) == Some(abTok);
    assert Fold(Browser, cands, w, 0, 0, None) == Some(abTok);
  }
}
