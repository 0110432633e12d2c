# abbrv shorthand engine, modelled in Dafny

abbrv turns ordinary text into shorthand. A *system* holds glyphs (a name
and its strokes), modes (a regular expression and its strokes), phrases (a
multi-word key and its strokes) and rewrite rules (regex, replacement,
name). Two implementations turn a text into strokes:

- the Python PDF renderer (`scripts/generate_pdf.py`);
- its browser twin (`static/js/writer-scripts.js`).

Both pipelines run the same steps:

1. Normalise the text.
2. Replace phrases by a `§` placeholder.
3. Rewrite the text with the active rules.
4. Split it into words and tile each word with glyph and mode matches, by a
   memoised search for the best tiling.
5. Put the phrase strokes back in place of the placeholders.
6. Join each glyph's first point to the previous glyph's last point.
7. Lay the words out in lines: the renderer wraps them greedily and pages
   them; the browser gives each line of text one line of strokes.

The model also covers the smaller cores:

- the legacy greedy join segmenter with its cursor (`static/js/text_to_splines.js`);
- the Catmull-Rom to Bézier conversion and its sampling (`static/js/rendering.js`);
- the glyph editor's selection state machine, the grid scaling and the list sorting (`static/js/drafter-scripts.js`);
- the rule list editor (`static/js/rules-scripts.js`);
- the font preview pen and its grid (`static/py/preview_glyphs.py`).

One Dafny module per file:

- `wrappers`: Option.
- `geometry`: points, strokes, translation, and dictionaries as ordered association lists.
- `text`: character classes, lower-casing, strip, split, and the punctuation spacing.
- `sorting`: a stable insertion sort and code-point order.
- `phrases`: phrase extraction.
- `systems`: the system record.
- `rules`: `process_text` / `processText`.
- `tokenizer`: the best-tiling search in both variants.
- `words`: phrase placeholders and the browser's match queue.
- `merge`: glyph joining.
- `layout`: the renderer's widths, wrap and baselines.
- `js_layout`: the browser's line offsets.
- `escape`: `escapeHtml`.
- `legacy_joins`: the `text_to_splines.js` segmenter.
- `bezier`: the rendering curves.
- `splines`: the short-stroke guard of the spline interpolators.
- `drafter`: the glyph editor.
- `rule_list`: the rule editor.
- `pen`: the preview pen.

Code that changes state is modelled as state-changing code:

- Loops become methods with invariants, proved against specification functions.
- The editor and pen objects become classes.
- The browser's shared match queue is a class whose `Shift` the tokenizer calls.

The host regular-expression engine, `Math.hypot` and the font tools are passed in as parameters.

## Model

| member | source | states |
|---|---|---|
| Text.Lower | scripts/generate_pdf.py:94 | each character is lower-cased on its own; the length is kept |
| Text.Remove | scripts/generate_pdf.py:97 | the apostrophe no longer occurs; every other character keeps its count |
| Text.RemoveConcat | scripts/generate_pdf.py:97 | the kept characters stay in order: a lone apostrophe is deleted, any other character is kept, and deletion distributes over concatenation |
| Text.Strip | scripts/generate_pdf.py:50 | the result is the text between the first and last non-blank characters, and starts and ends with a non-blank |
| Text.WordsAreWords | scripts/generate_pdf.py:234 | `str.split()` yields non-empty words without white space |
| Text.WordsCoverText | scripts/generate_pdf.py:234 | the words, concatenated, are the text with its white space deleted |
| Text.AddSpacesKeepsNonSpace | scripts/generate_pdf.py:46-50 | the punctuation spacing only inserts and removes white space |
| Text.AddSpacesIsolates | static/js/writer-scripts.js:542-551 | after spacing, every digit and punctuation character has a blank or a text end on both sides |
| Text.SpaceOutIsolates | static/js/writer-scripts.js:544-547 | in the substituted text every digit or punctuation character has a blank on both sides |
| Text.StripKeepsIsolated | static/js/writer-scripts.js:550 | trimming keeps digits and punctuation isolated |
| Sorting.SortBy | static/js/drafter-scripts.js:781-783 | sorting returns a permutation of the list |
| Sorting.SortBySorted | static/js/drafter-scripts.js:781-783 | for an irreflexive, transitive comparison the result is sorted |
| Geometry.TranslateKeepsDifferences | scripts/generate_pdf.py:288-296 | translation keeps the vector between any two points of a stroke |
| Geometry.Lookup | scripts/generate_pdf.py:244 | a dictionary lookup finds a value exactly when the key is present, and the value is stored under it |
| Systems.RuleNames | scripts/generate_pdf.py:109-111 | the default active rules are all rule names, in rule order |
| Phrases.FirstAlt | scripts/generate_pdf.py:61-67 | the alternative taken is one of the listed keys, is non-empty and fits in the rest of the text |
| Phrases.FirstAltMatches | scripts/generate_pdf.py:67 | the alternation commits to a listed key that matches at the position with `\b` on both sides; it finds none exactly when no key matches there |
| Phrases.FirstAltIsFirst | scripts/generate_pdf.py:61-67 | the alternative taken comes no later in the list than any matching alternative |
| Phrases.FindMultiWordTokens | scripts/generate_pdf.py:53-74 | with no phrases the text and an empty match list come back; every match is a phrase key |
| Phrases.FindMultiWordTokensRoundTrip | scripts/generate_pdf.py:53-74 | putting the matches back into the placeholders gives the text again, and there is one placeholder per recorded match |
| Phrases.ScanMatchesInAlts | scripts/generate_pdf.py:69-73 | every key the substitution records is one of the phrase keys |
| Phrases.ScanRoundTrip | scripts/generate_pdf.py:67-73 | the global substitution from any position can be undone, and it counts its placeholders |
| Phrases.MatchesNest | scripts/generate_pdf.py:61 | of two keys matching at one place, the shorter is a prefix of the longer |
| Phrases.FirstAltIsLongest | scripts/generate_pdf.py:61-67 | with the keys sorted longest first, the alternative taken is the longest key that matches |
| Phrases.FirstAltOrderIndependent | scripts/generate_pdf.py:61-67 | any prefix-safe order of the same keys makes the same choice |
| Phrases.ScanOrderIndependent | scripts/generate_pdf.py:61-73 | any prefix-safe order of the same keys gives the same substitution |
| Phrases.EscapeInjective | static/js/writer-scripts.js:674 | escaping regex metacharacters is one-to-one |
| Phrases.LongerFirstSortIsPrefixSafe | scripts/generate_pdf.py:61 | sorting by length, longest first, never puts a key before a longer key it is a prefix of |
| Phrases.EscapedLongerFirstSortIsPrefixSafe | static/js/writer-scripts.js:674-676 | sorting by escaped length, longest first, is prefix-safe too |
| Phrases.JsFindMultiWordTokens | static/js/writer-scripts.js:653-684 | with no phrases the text comes back unchanged with no matches; every match is a phrase key |
| Phrases.JsAgreesWithPython | static/js/writer-scripts.js:653-684 | with `\b` over ASCII word characters on both sides, the browser extracts the same phrases as the renderer for every phrase table; this describes the two hosts on ASCII text only |
| Rules.Warnings | scripts/generate_pdf.py:113-121 | at most one warning per rule, each naming a rule of the system |
| Rules.BlankSeparators | scripts/generate_pdf.py:100-101 | `/`, `\` and `-` become blanks; every other character and the length are kept |
| Rules.RunRules | scripts/generate_pdf.py:113-121 | the loop applies the active rules in list order, skips a rule that does not compile, and warns once for each such rule |
| Rules.ProcessText | scripts/generate_pdf.py:77-123 | the result is the normalised text with its phrases replaced and then rewritten by the active rules (all rules when none are given), plus the matches and the warnings |
| Rules.JsRunRules | static/js/writer-scripts.js:532-537 | the browser loop applies the checked rules in order, and throws at the first rule that does not compile |
| Rules.JsProcessText | static/js/writer-scripts.js:510-540 | the browser normalises without collapsing white space; it extracts phrases only when the phrase option is on; it throws where a rule does not compile |
| Rules.JsThrowSticks | static/js/writer-scripts.js:532-537 | once a rule throws, the whole loop throws |
| Rules.JsApplyRulesMatchesReference | static/js/writer-scripts.js:532-537 | for a rule set that the two regex engines compile and apply alike (`EnginesAgree`), the browser throws exactly when the renderer would warn; otherwise both rewrite the same way |
| Rules.ApplyRulesAppend | scripts/generate_pdf.py:113-121 | applying a list of rules means applying its first part, then its second |
| Rules.SkippedRuleHasNoEffect | scripts/generate_pdf.py:114-121 | an inactive or non-compiling rule can be removed without changing the result |
| Rules.RuleOrderMatters | scripts/generate_pdf.py:113-121 | an illustration, not a general property: a concrete pair of rules gives different results in the two orders, so the rule order the system stores matters |
| Rules.PipelinesAgree | static/js/writer-scripts.js:510-540 | on text with single blanks between words, with phrases on, and with rules the two engines treat alike, the two pipelines give the same text and matches, or the browser throws exactly where the renderer warns; ASCII text only, as for `JsAgreesWithPython` |
| Tokenizer.MatchLength | scripts/generate_pdf.py:206-208 | a match ends inside the word; a glyph name matches literally, exactly where the word continues with it, with its own length |
| Tokenizer.Prepend | scripts/generate_pdf.py:214-219 | one more token; the longest match grows to the new one if larger; the mode count grows for a mode |
| Tokenizer.BetterIsStrictWeakOrder | scripts/generate_pdf.py:126-141 | the comparison is irreflexive, asymmetric and transitive; equal triples compare false both ways |
| Tokenizer.PrependMonotone | scripts/generate_pdf.py:214-221 | prefixing two results with the same match keeps "not better" |
| Tokenizer.BestIsTiling | scripts/generate_pdf.py:191-225 | a result is the score of some sequence of candidate matches that tiles the word from the start position |
| Tokenizer.BestIsOptimal | scripts/generate_pdf.py:191-225 | whenever a tiling exists a result exists, and no tiling scores better than it |
| Tokenizer.ScoreOfTokens | scripts/generate_pdf.py:214-219 | a tiling has one token per match; its mode count and longest match are bounded by its length and the word |
| Tokenizer.ReferenceNeedsCompleteTiling | scripts/generate_pdf.py:192-193 | the renderer finds a result for every word that has a complete tiling |
| Tokenizer.BestPrefersEarlierCandidate | scripts/generate_pdf.py:200-222 | on ties the earlier candidate is kept: every earlier candidate scores strictly worse |
| Tokenizer.BrowserNeverFails | static/js/writer-scripts.js:600-626 | the browser always has a result, since a dead end counts as an empty tokenization |
| Tokenizer.FindBest | scripts/generate_pdf.py:191-225 | the memoised search returns the best result from the start position, and keeps the memo holding only best results |
| Tokenizer.TokenizeWith | scripts/generate_pdf.py:153-154 | the tokens are those of the best result; an empty word gives no tokens |
| Tokenizer.KeptModes | scripts/generate_pdf.py:166-177 | the indices of exactly the modes that are active and whose pattern compiles, in increasing order |
| Tokenizer.ModeCandidates | scripts/generate_pdf.py:166-177 | one candidate per kept mode, in the order of the system's modes, each the mode's compiled pattern with its points, marked as a mode |
| Tokenizer.ModeCandidatesMembers | scripts/generate_pdf.py:166-177 | a candidate is a mode candidate exactly when some active mode whose pattern compiles gives it |
| Tokenizer.GlyphCandidates | scripts/generate_pdf.py:180-187 | one literal candidate per glyph, in glyph order |
| Tokenizer.Candidates | scripts/generate_pdf.py:162-187 | the candidates are exactly the kept modes' candidates (`ModeCandidates` over the given or all modes), then all glyphs |
| Tokenizer.TokenizeString | scripts/generate_pdf.py:144-228 | `tokenize_string` returns the tokens of the renderer's best tiling of the word over these candidates |
| Tokenizer.Put | static/js/writer-scripts.js:562-565 | writing an object key keeps the key order of an existing key and appends a new one; the key then holds the value |
| Tokenizer.PutKeepsOthers | static/js/writer-scripts.js:562-565 | writing one key leaves every other key's value unchanged |
| Tokenizer.ModePatternDict | static/js/writer-scripts.js:561-565 | `modeRegexDict`'s keys are the distinct patterns of the active modes, in the order of each pattern's first active mode, and each holds the points of the last active mode with that pattern |
| Tokenizer.CompileAll | static/js/writer-scripts.js:568 | compiling throws exactly when some pattern does not compile; otherwise one mode candidate per entry, its matcher the compiled pattern and its value the entry's points |
| Tokenizer.JsCandidates | static/js/writer-scripts.js:561-570 | the browser's candidate list throws exactly when some active mode's pattern does not compile; otherwise one mode candidate per `modeRegexDict` entry, in its order, then all glyphs |
| Tokenizer.JsCandidatesThrow | static/js/writer-scripts.js:561-570 | some `modeRegexDict` pattern fails to compile exactly when some active mode's pattern does |
| Tokenizer.DuplicatePatternExample | static/js/writer-scripts.js:561-565 | two active modes with one pattern: the renderer keeps two candidates, the first mode's first, so its points win ties; the browser keeps one entry, at the first mode's place, holding the second mode's points |
| Tokenizer.JsTokenizeString | static/js/writer-scripts.js:553-632 | the browser throws exactly when a mode pattern does not compile; otherwise it returns the tokens of its own best tiling |
| Tokenizer.DeadEndExample | static/js/writer-scripts.js:600-626 | with glyph `a` only, the browser draws one token for "ax" and the renderer draws none |
| Tokenizer.DivergenceExample | static/js/writer-scripts.js:574-626 | with glyphs `ab`, `a`, `bc`, the renderer tiles "abc" as `a`+`bc` and the browser as `ab` |
| Words.TokenizeWithPhrases | scripts/generate_pdf.py:231-256 | one entry per word; the k-th placeholder gets the k-th match and its phrase (none when unknown); placeholders after the matches run out get nothing and `''`; other words are tokenized |
| Words.PlaceholdersTakeMatchesInOrder | scripts/generate_pdf.py:240-247 | a later placeholder gets a later match |
| Words.RankMonotone | scripts/generate_pdf.py:237-247 | the match index never goes back |
| Words.JsSplitNonEmpty | static/js/writer-scripts.js:639 | `split(/\s+/)` yields at least one field |
| Words.JsSplitOfTrimmed | static/js/writer-scripts.js:639 | on a trimmed, non-empty line both splits agree |
| Words.WordsSkipSpaces | scripts/generate_pdf.py:234 | leading white space does not change the words |
| Words.MatchQueue.Shift | static/js/writer-scripts.js:644 | `shift()` takes the first queued match, or gives `undefined` on an empty queue |
| Words.JsTokenizeWithMultiWords | static/js/writer-scripts.js:634-651 | one entry per field; each placeholder takes the next queued match; the queue loses exactly the matches taken; it throws only where a phrase is `undefined` or a mode does not compile |
| Words.JsTokenizeLines | static/js/writer-scripts.js:145-156 | all lines share one queue: line k gets the entries `tokenizeWithMultiWords` gives it with the queue the earlier lines' placeholders left, so matches go first in, first out, across lines; it throws exactly at the first line with a word that throws |
| Words.SplitNewlines | static/js/writer-scripts.js:148 | `split('\n')` yields at least one line and no line holds a newline |
| Words.TrimmedLines | static/js/writer-scripts.js:148 | the kept lines are trimmed and non-empty |
| Words.LinesSplitIntoWords | static/js/writer-scripts.js:148 | every kept line is split into the same words as `str.split()` |
| Merge.NonEmptyStrokes | scripts/generate_pdf.py:279-281 | the kept strokes have points and come from the glyph, and every stroke of the glyph with points is kept |
| Merge.NonEmptyStrokesConcat | scripts/generate_pdf.py:279-281 | the kept strokes stay in order: a lone empty stroke is dropped, any other is kept, and the filter distributes over concatenation |
| Merge.NonEmptyStrokesOfWellFormed | static/js/writer-scripts.js:161-199 | when no stroke is empty nothing is dropped |
| Merge.ShiftIsTranslation | scripts/generate_pdf.py:284-296 | every stroke of a glyph is moved by one vector |
| Merge.MergeStateInvariant | scripts/generate_pdf.py:268-302 | no merged stroke is empty, and the shift is the last merged point (the origin before any) |
| Merge.GlyphMovesRigidly | scripts/generate_pdf.py:272-302 | each glyph adds its non-empty strokes, all moved by one vector, after what came before |
| Merge.FirstGlyphUnmoved | scripts/generate_pdf.py:288-296 | the first glyph keeps its coordinates |
| Merge.LaterGlyphJoins | scripts/generate_pdf.py:277-302 | a later glyph's first point lands on the last point merged before it |
| Merge.ShiftGlyph | scripts/generate_pdf.py:279-298 | the stroke loop skips empty strokes and shifts the rest |
| Merge.MergeOneWord | scripts/generate_pdf.py:269-304 | the glyph loop computes the merged word |
| Merge.MergeWordSplines | scripts/generate_pdf.py:259-306 | one merged stroke list per word |
| Merge.JsShiftGlyph | static/js/writer-scripts.js:172-189 | the browser pushes every stroke, empty ones included, moved by `-glyph[0][0]` after the first glyph and by `currentShift`; it throws exactly when a stroke with points is read through an undefined `shiftDelta` or `currentShift` |
| Merge.JsThrowSticks | static/js/writer-scripts.js:168-195 | once a glyph throws, the word throws |
| Merge.JsMergeOneWord | static/js/writer-scripts.js:168-195 | the glyph loop computes `JsMergeWord`: `currentShift` becomes the last pushed point, `undefined` after an empty last stroke, and reading the last stroke of nothing throws; on well-formed glyphs the result is the renderer's |
| Merge.JsMergeUpToWellFormed | static/js/writer-scripts.js:168-195 | on glyphs that all have points in every stroke, the browser never throws, its shift is never `undefined`, and its state is the renderer's |
| Merge.JsMergeWordAgrees | static/js/writer-scripts.js:168-195 | on such a word the browser's merge equals `merge_word_splines`' |
| Merge.TrailingEmptyStrokeExample | static/js/writer-scripts.js:172-193 | a trailing empty stroke is kept by the browser without a throw and dropped by the renderer |
| Merge.EmptyLaterGlyphExample | static/js/writer-scripts.js:172-193 | a later glyph with no strokes only re-reads the last point; the browser does not throw |
| Merge.EmptyFirstGlyphThrows | static/js/writer-scripts.js:192-193 | a word whose first glyph has no strokes throws in the browser, while the renderer skips it |
| Merge.JsMergeWordSplines | static/js/writer-scripts.js:161-199 | `mergeWordSplines` throws exactly when some word throws, and otherwise merges each word as `JsMergeWord` does; on well-formed input it equals `merge_word_splines` |
| Layout.MinOf | scripts/generate_pdf.py:348-351 | the minimum is an element and no element is smaller |
| Layout.MaxOf | scripts/generate_pdf.py:348-351 | the maximum is an element and no element is larger |
| Layout.WordDimensions | scripts/generate_pdf.py:337-365 | the width is non-negative; the box is all zeros without points; otherwise its edges are attained and hold every scaled point |
| Layout.EffectiveWidths | scripts/generate_pdf.py:549-553 | in beginner mode a word is at least as wide as its label |
| Layout.WrapInvariant | scripts/generate_pdf.py:546-566 | after any number of words, `current_x` is the margin plus the room of the current line, and the lines so far are sound |
| Layout.StepSound | scripts/generate_pdf.py:555-566 | one turn of the wrap loop keeps its state sound |
| Layout.ReplaceLastLine | scripts/generate_pdf.py:563-566 | growing the last line by a word that fits keeps the lines sound |
| Layout.PageSizeNamed | scripts/generate_pdf.py:385-389 | `a4` and only `a4` gives the A4 size; any other name falls back to letter; both leave room for the two margins |
| Layout.PlaceLine | scripts/generate_pdf.py:446-469 | the baseline is one ascent below `current_y`; a new page starts exactly when the line would end below the margin, and then the line's top is at the top margin; the next line starts one descent and one spacing lower |
| Layout.Placements | scripts/generate_pdf.py:441-543 | one placement per line |
| Layout.PlacementAt | scripts/generate_pdf.py:541 | each line is placed from the `current_y` the previous lines left |
| Layout.LinesStackDown | scripts/generate_pdf.py:446-469 | the first line's top is at the top margin; each line starts a page or sits one descent and one spacing below the previous baseline; a line not starting a page ends above the bottom margin |
| Layout.WrapLoop | scripts/generate_pdf.py:546-566 | the loop computes the greedy wrap state and places every completed line |
| Layout.LayOut | scripts/generate_pdf.py:546-571 | the lines are the greedy wrap of the words, final line included: every word appears in order, no line is empty, every later word fits on its line, and each line's first word would have overflowed the line before; every line is placed from the top margin |
| JsLayout.Shifted | static/js/writer-scripts.js:243-249 | a stroke keeps its number of points |
| JsLayout.StrokesUpToKeepsEdge | static/js/writer-scripts.js:237-257 | plotting a word's strokes keeps `lineXPos` at 0 or at the rightmost x plotted |
| JsLayout.FirstStrokeStartsAtShift | static/js/writer-scripts.js:234-249 | subtracting `xmin` puts the leftmost x of a word's first stroke exactly at `currentShift`'s x, with no point to its left |
| JsLayout.WordStartsAfterRightEdge | static/js/writer-scripts.js:229-260 | the first word starts at x = 0; each later word starts one word space right of the rightmost x plotted so far |
| JsLayout.LineStrokesNonEmpty | static/js/writer-scripts.js:237-257 | every plotted stroke has points |
| JsLayout.PlotLine | static/js/writer-scripts.js:229-260 | the inner loops compute the line's strokes, and throw exactly when a word has no strokes or a stroke has no points |
| JsLayout.AllYsOffset | static/js/writer-scripts.js:272 | moving a line by `dy` moves every y by `dy` |
| JsLayout.ExtremaMove | static/js/writer-scripts.js:263-268 | moving all values moves their maximum and minimum by the same amount |
| JsLayout.PlottedExtrema | static/js/writer-scripts.js:263-272 | a line moved by `dy` has its highest and lowest points moved by `dy` |
| JsLayout.LinesStackWithSpacing | static/js/writer-scripts.js:221-278 | the first line's highest plotted point is at y = 0; each line's lowest plotted point is exactly one line spacing above the next line's highest |
| JsLayout.BaselinesAt | static/js/writer-scripts.js:265-276 | the k-th recorded position is line k's baseline, and line k is plotted moved by it |
| JsLayout.BaselineStep | static/js/writer-scripts.js:265-277 | one turn of the line loop moves `currentVerticalOffset` to the next baseline |
| JsLayout.PlotOneLine | static/js/writer-scripts.js:229-277 | one line: its baseline, its plotted strokes and the next offset, or the throw of an ill-formed word |
| JsLayout.PlotLines | static/js/writer-scripts.js:221-278 | the loop records every baseline and plots every line, or throws exactly when some line holds an ill-formed word |
| JsLayout.GenerateSplines | static/js/writer-scripts.js:204-282 | `generateSplines` throws exactly when some word has no strokes (the empty word a dead-end tokenization leaves) or a stroke without points; otherwise it records one baseline per line and plots each line moved by it, and the lines stack one line spacing apart from y = 0 down |
| Escape.EscapeHtmlIsPerChar | static/js/writer-scripts.js:61-68 | replacing `&` first makes the five passes escape each character on its own |
| Escape.EscapeHtmlHasNoSpecials | static/js/writer-scripts.js:61-68 | the output holds no `<`, `>`, `"` or `'` |
| Escape.EscapeHtmlAmpersandsBeginEntities | static/js/writer-scripts.js:61-68 | every `&` in the output begins one of the five entities |
| Escape.EscapeHtmlRoundTrip | static/js/writer-scripts.js:61-68 | decoding the output gives the input back, so no two inputs escape alike |
| Escape.EscapeHtmlConcat | static/js/writer-scripts.js:61-68 | escaping distributes over concatenation |
| Escape.EscapeHtmlChar | static/js/writer-scripts.js:62-67 | the five passes on one character give that character's entity |
| LegacyJoins.Split | static/js/text_to_splines.js:120 | `split` yields at least one piece and no piece holds the separator |
| LegacyJoins.SplitJoinRoundTrip | static/js/text_to_splines.js:120 | joining the pieces with the separator gives the string back |
| LegacyJoins.JoinsSpellWord | static/js/text_to_splines.js:136-167 | a word's joins, concatenated in order, spell the word |
| LegacyJoins.JoinsGreedy | static/js/text_to_splines.js:137-150 | every join is a key or a single character, and no join but the last extends to a key by the next character |
| LegacyJoins.JoinGrowsIffKey | static/js/text_to_splines.js:137-139 | after the first character, a join grows by the next character exactly when the longer string is a key |
| LegacyJoins.Interpolate | static/js/text_to_splines.js:69-72 | fewer than two points give no curve; otherwise the points are the knots |
| LegacyJoins.PlaceJoin | static/js/text_to_splines.js:88-117 | `joinToSpline` throws exactly when the key is missing or its points are empty; it returns one knot per point, the last knot as cursor, and the largest x |
| LegacyJoins.FirstJoinPlacement | static/js/text_to_splines.js:91-94 | a word's first join gets abs(min x) and the cursor added to every x and the cursor's y to every y, so its leftmost point lands on the cursor exactly when its min x is at most 0 |
| LegacyJoins.LaterJoinPlacement | static/js/text_to_splines.js:95-106 | a later join uses `joins[char][prev]` when present; it is moved rigidly so its first x is the cursor's x and its y moves by the cursor's y |
| LegacyJoins.JoinToSpline | static/js/text_to_splines.js:88-117 | the step-by-step rebinding computes that placement |
| LegacyJoins.DrawJoinsFailsIff | static/js/text_to_splines.js:136-167 | drawing a word throws exactly when one of its joins makes `joinToSpline` throw |
| LegacyJoins.DrawJoinsRecords | static/js/text_to_splines.js:142-147 | each join adds one spline and one knot list; `rightmostX` and the cursor come from the last join |
| LegacyJoins.WordMovesCursor | static/js/text_to_splines.js:131-171 | after a non-empty word the cursor is `(rightmostX + wordSpace, 0)`; an empty piece changes nothing |
| LegacyJoins.MissingSingleFails | static/js/text_to_splines.js:89 | a single-character join with no entry throws |
| LegacyJoins.WordDrawsWhenCharsKnown | static/js/text_to_splines.js:136-167 | a word all of whose characters have entries draws without error, when no stored list is empty |
| LegacyJoins.LinesDrawnAsOneLine | static/js/text_to_splines.js:129-174 | `yOffset` is never applied: the lines are drawn as one line |
| LegacyJoins.EmittedArePrefix | static/js/text_to_splines.js:136-158 | the joins emitted so far are the first joins of the word |
| LegacyJoins.EmitJoin | static/js/text_to_splines.js:142-147 | one completed join is drawn after the earlier ones |
| LegacyJoins.PlotChar | static/js/text_to_splines.js:137-158 | one pass of the character loop keeps the loop invariant, or the word throws |
| LegacyJoins.PlotWord | static/js/text_to_splines.js:132-171 | the character loop draws the word's joins and moves the cursor |
| LegacyJoins.PlotLine | static/js/text_to_splines.js:130-172 | the word loop draws the words of a line |
| LegacyJoins.TextToSeparateSplines | static/js/text_to_splines.js:119-177 | `textToSeparateSplines` returns every join's spline and knots, or throws |
| Bezier.ArcLengths | static/js/rendering.js:10-18 | one value per point (one for no points), starting at 0, each adding the step's distance |
| Bezier.ArcLengthsMonotone | static/js/rendering.js:10-18 | the arc lengths never decrease |
| Bezier.ArcLengthsFlat | static/js/rendering.js:10-18 | where the arc length stands still, the points coincide |
| Bezier.ZeroLengthIsOnePoint | static/js/rendering.js:10-18 | a path of total length zero repeats one point |
| Bezier.ComputeArcLengthParam | static/js/rendering.js:10-18 | the push loop computes the arc lengths |
| Bezier.CatmullSegments | static/js/rendering.js:31-61 | max(n - 1, 0) segments |
| Bezier.CatmullRomToBezier | static/js/rendering.js:31-61 | the loop pushes exactly those segments |
| Bezier.SegmentsChain | static/js/rendering.js:33-58 | segment i runs from point i to point i + 1 over `[t[i], t[i + 1]]`; each starts where the previous ended |
| Bezier.TangentsMatchAtJoints | static/js/rendering.js:35-48 | the direction a segment arrives with is the one the next leaves with, a sixth of the chord between the joint's neighbours |
| Bezier.EndTangents | static/js/rendering.js:35-48 | at the two ends the clamped neighbour is the end point itself |
| Bezier.EvaluateCubic | static/js/rendering.js:73-89 | t = 0 gives p0 and t = 1 gives p3 |
| Bezier.BernsteinSum | static/js/rendering.js:76-86 | the four weights add up to one |
| Bezier.EvaluateCubicTranslates | static/js/rendering.js:73-89 | moving the control points moves every curve point by the same vector |
| Bezier.FindFrom | static/js/rendering.js:104 | `find` returns the first segment whose interval holds the value, or none |
| Bezier.SampleBezierSegments | static/js/rendering.js:101-116 | one sample per parameter value, in order |
| Bezier.SampleOfChained | static/js/rendering.js:104-114 | below the first interval the first start point; above the last the last end point; otherwise a segment at a local parameter in [0, 1] |
| Bezier.LocalTInUnit | static/js/rendering.js:112 | inside its interval a segment's local parameter is in [0, 1] |
| Bezier.EvaluateAtEnds | static/js/rendering.js:111-114 | a segment gives its start point at the start of its interval and its end point at the end of a non-empty one |
| Bezier.ArcSegmentsChained | static/js/rendering.js:131-146 | segments built on arc lengths lie end to end over a non-decreasing parameter |
| Bezier.SampleHitsKnots | static/js/rendering.js:131-146 | sampling at a point's own arc length gives that point back |
| Bezier.DenseTimes | static/js/rendering.js:141 | `numSamples` values from 0 to the total length |
| Bezier.BezierInterpolate2DDense | static/js/rendering.js:131-146 | fewer than two points give `[]`; zero length gives copies of the first point; otherwise the samples start at the first point and end at the last |
| Splines.InterpolateSpline | scripts/generate_pdf.py:320-323 | a stroke is kept raw exactly when it has fewer than two points |
| Splines.ShortStrokeKept | static/js/writer-scripts.js:350-352 | a short stroke's returned coordinate arrays zip back to the stroke |
| Splines.OnePointDiffersFromLegacy | static/js/text_to_splines.js:69-72 | the legacy page returns nothing for one point, where the writer keeps it |
| Drafter.Round | static/js/drafter-scripts.js:348 | `Math.round` is within a half of its argument, halves rounding up |
| Drafter.FindLastHit | static/js/drafter-scripts.js:347-349 | `findLastIndex` finds the last point rounding to the cell, or -1 when none does |
| Drafter.DecrementLastCount | static/js/drafter-scripts.js:357-362 | the splines are untouched; with no counts nothing changes; a last count of 1 is popped with the last glyph; any other last count is lowered by one, the rest kept |
| Drafter.FreezeAsWritten | static/js/drafter-scripts.js:714-716 | freezing as written empties the splines and glyph names but keeps the counts, so a consistent non-empty selection becomes inconsistent |
| Drafter.ClickKeepsConsistent | static/js/drafter-scripts.js:317-323 | a left click keeps the counts summing to the splines and one count per glyph |
| Drafter.RightClickKeepsConsistent | static/js/drafter-scripts.js:345-364 | a right click keeps the selection consistent |
| Drafter.RightClickRemovesOnePoint | static/js/drafter-scripts.js:345-364 | a right click removes exactly the last matching point of the last spline, drops the spline when it empties, and changes nothing without a match |
| Drafter.ClearKeepsConsistent | static/js/drafter-scripts.js:663-673 | clearing drops the last spline and keeps the selection consistent |
| Drafter.ClearOnEmpty | static/js/drafter-scripts.js:663-673 | clearing an empty selection leaves it as it is |
| Drafter.DeselectedKeepsConsistent | static/js/drafter-scripts.js:388-392 | removing the last glyph keeps the selection consistent |
| Drafter.ReplaceDropsLastGlyph | static/js/drafter-scripts.js:388-392 | replacing drops exactly the last glyph's splines, name and count |
| Drafter.SelectKeepsConsistent | static/js/drafter-scripts.js:370-408 | picking a glyph whose registered count is its number of splines keeps the selection consistent |
| Drafter.AttachLandsOnAnchor | static/js/drafter-scripts.js:394-403 | the new splines start at the selection's last point, with their shape unchanged |
| Drafter.GridRoundTrip | static/js/drafter-scripts.js:384-386 | dividing undoes the multiplication |
| Drafter.LoadThenSave | static/js/drafter-scripts.js:570-574 | picking a glyph into an empty selection and saving stores exactly its points |
| Drafter.FreezeBreaksConsistency | static/js/drafter-scripts.js:714-716 | freezing as written leaves counts for splines that are gone |
| Drafter.FrozenThenClickInconsistent | static/js/drafter-scripts.js:714-716 | after that freeze, one click leaves two counts for one spline |
| Drafter.FreezeKeepsConsistent | static/js/drafter-scripts.js:713-723 | freezing that also clears the counts leaves an empty, consistent selection, and the click after it starts one spline with the counts `[1]` |
| Drafter.AttachTo | static/js/drafter-scripts.js:394-403 | attaching throws exactly where the first new point cannot be read; otherwise it moves the new splines onto the selection's end |
| Drafter.Editor.constructor | static/js/drafter-scripts.js:496-498 | an empty editor with every glyph's spline count registered |
| Drafter.Editor.Click | static/js/drafter-scripts.js:317-323 | the click handler's new selection; consistency is kept |
| Drafter.Editor.RightClick | static/js/drafter-scripts.js:345-364 | the context-menu handler's new selection; consistency is kept |
| Drafter.Editor.DecrementLast | static/js/drafter-scripts.js:357-362 | the new selection is `DecrementLastCount` of the old; the stored glyphs and the frozen copy are untouched |
| Drafter.Editor.Clear | static/js/drafter-scripts.js:663-673 | the clear handler's new selection; consistency is kept |
| Drafter.Editor.DeselectAll | static/js/drafter-scripts.js:371-376 | everything is deselected |
| Drafter.Editor.DeselectLast | static/js/drafter-scripts.js:388-392 | the new selection is `Deselected` of the old: the last count is popped, that many splines are spliced off the end, and the last glyph name is popped |
| Drafter.Editor.SelectGlyph | static/js/drafter-scripts.js:370-412 | the given, stored or empty points are scaled, attached and pushed with the glyph and its count; it throws where attaching does; consistency is kept when the count is right |
| Drafter.Editor.Save | static/js/drafter-scripts.js:565-582 | with something selected, the points are stored unscaled under the name, the count registered, and the selection cleared |
| Drafter.Editor.ToggleFreeze | static/js/drafter-scripts.js:713-723 | freezing copies the selection aside and clears it, counts included; unfreezing drops the copy; consistency is kept |
| Drafter.Rank | static/js/drafter-scripts.js:772-778 | a name ranks 0, 1 or 2 |
| Drafter.RankMatchesFilters | static/js/drafter-scripts.js:772-778 | rank 2 is "starts with", rank 1 is "contains and does not start with", rank 0 is "does not contain" |
| Drafter.GroupsPartition | static/js/drafter-scripts.js:776-778 | the three filters partition the items |
| Drafter.SortOneListPermutes | static/js/drafter-scripts.js:764-793 | the items appended back are a permutation of the list |
| Drafter.SortOneListOrder | static/js/drafter-scripts.js:764-793 | in append order non-matching items come first, then containing, then starting-with, each group in descending name order |
| Drafter.SortedGroupOrdered | static/js/drafter-scripts.js:781-783 | each sorted group has one rank and ascends |
| Drafter.ReverseOfAscending | static/js/drafter-scripts.js:786-792 | reversing turns ascending order into descending |
| RuleList.MovedUp | static/js/rules-scripts.js:95-103 | rules i - 1 and i are swapped and nothing else changes; the top rule stays put |
| RuleList.MovedDown | static/js/rules-scripts.js:106-114 | rules i and i + 1 are swapped and nothing else changes; the bottom rule stays put |
| RuleList.Deleted | static/js/rules-scripts.js:88-92 | rule i is removed and the rest keep their order |
| RuleList.UpThenDownRestores | static/js/rules-scripts.js:95-114 | moving a rule up and then back down restores the list |
| RuleList.DownThenUpRestores | static/js/rules-scripts.js:95-114 | moving a rule down and then back up restores the list |
| RuleList.MovesPermute | static/js/rules-scripts.js:95-114 | moves neither lose nor duplicate a rule |
| RuleList.DeletedRemovesOne | static/js/rules-scripts.js:88-92 | deleting removes exactly that rule from the multiset |
| RuleList.Editor.Add | static/js/rules-scripts.js:77-79 | the new rule is appended at the end |
| RuleList.Editor.Delete | static/js/rules-scripts.js:88-92 | `deleteRule` removes rule i in place |
| RuleList.Editor.MoveUp | static/js/rules-scripts.js:95-103 | `moveRuleUp` swaps in place |
| RuleList.Editor.MoveDown | static/js/rules-scripts.js:106-114 | `moveRuleDown` swaps in place |
| Pen.ClosePathKeepsEntries | static/py/preview_glyphs.py:28-31 | closing keeps every entry in order, leaves no current path and adds no empty path |
| Pen.MoveToRecords | static/py/preview_glyphs.py:15-18 | moving records one MOVETO after everything else and starts a new path with it |
| Pen.LineAndCurveRecord | static/py/preview_glyphs.py:20-26 | a line adds one LINETO and a curve adds three CURVE4 entries, to the current path only |
| Pen.GetPathsIdempotent | static/py/preview_glyphs.py:33-36 | a second flush changes nothing, and the paths hold every entry |
| Pen.MatplotlibPen.constructor | static/py/preview_glyphs.py:10-13 | a new pen holds nothing |
| Pen.MatplotlibPen.ClosePath | static/py/preview_glyphs.py:28-31 | `_closePath` updates the fields; the history is kept |
| Pen.MatplotlibPen.MoveTo | static/py/preview_glyphs.py:15-18 | `_moveTo` records one MOVETO |
| Pen.MatplotlibPen.LineTo | static/py/preview_glyphs.py:20-21 | `_lineTo` records one LINETO |
| Pen.MatplotlibPen.CurveToOne | static/py/preview_glyphs.py:23-26 | `_curveToOne` records three CURVE4 entries in order |
| Pen.MatplotlibPen.GetPaths | static/py/preview_glyphs.py:33-36 | the returned paths, concatenated, are every entry recorded since construction; the current path is empty |
| Pen.RowsIsCeiling | static/py/preview_glyphs.py:56 | the rows are the fewest that hold all glyphs |
| Pen.CellsInGrid | static/py/preview_glyphs.py:62-73 | every index below rows times cols lands in the grid, and different indices land in different cells |
| Pen.LayOutPreviews | static/py/preview_glyphs.py:62-73 | glyph i is assigned cell `divmod(i, cols)`, and the hidden cells are exactly those from n up to rows times cols |

## Left out

- Natural cubic spline fitting is not modelled, only the fewer-than-two-points guard in front of it. This covers scipy's `CubicSpline` in the renderer, the hand-written tridiagonal solvers of the writer and drafter pages, and the spline library of the legacy page. It is floating-point numerics, or a foreign library.
- Floating point: every coordinate is a real number. Rounding, overflow and NaN are not modelled.
- The host regular-expression engine is a parameter. Rules are `(regex, replacement) -> Option<rewrite>`, with `None` when the pattern does not compile. The renderer and the browser each get their own engine parameter.
- JsApplyRulesMatchesReference and PipelinesAgree hold only under `EnginesAgree`. Python's `re` and JavaScript's `RegExp` differ: in dialect (`(?P<n>…)` compiles only in Python), in replacement syntax (`$&` and `$1` are references only in JavaScript; a bad template such as `\9` makes Python warn and JavaScript not), and in empty matches next to a match (`x*` to `-` on "abxd" gives `-a-b--d-` in Python and `-a-b-d-` in JavaScript).
- Mode patterns are a parameter too: an anchored matcher returning a match length. A pattern that matches the empty string makes both sources recurse without end; the model counts an empty match as no match.
- Phrase matching with `\b` is concrete, over ASCII word characters.
- JsAgreesWithPython: Python's `\b` on `str` is Unicode-aware while the browser's (no `u` flag) is ASCII. The model uses ASCII for both, so the agreement describes the hosts only on ASCII text: on "aé b" with phrase "é b" the browser matches and Python does not.
- FindMultiWordTokens: an empty phrase key never matches in the model. In the source the alternation `\b(…|)\b` matches it empty at every word boundary and inserts a `§` there.
- JsFindMultiWordTokens: the same empty-key gap as the renderer.
- MatchLength: a glyph named "" counts as no match. In both sources it matches empty at every position and the search recurses without end (a stack overflow); the drafter can save such a name when the name field holds only spaces.
- Character classes are ASCII: `\d`, `\w`, `\s`, `lower()` and `strip()` do not cover Unicode. UTF-16 surrogate pairs are not modelled.
- Dictionaries are ordered association lists. Python dict and JavaScript object insertion order is modelled; inherited object properties and integer-like keys that JavaScript reorders are not.
- `localeCompare` in `sortOneList` is approximated by code-point order on the lower-cased names.
- `Math.hypot` is a parameter that only has to be a distance (non-negative, and zero exactly at the origin).
- Drawing and output are not modelled: matplotlib/PdfPages, the SVG DOM and viewBox extrema, canvas, zoom and scroll. Converting a click to grid coordinates is not modelled either (the handlers receive grid coordinates).
- The beginner-mode text widths come from matplotlib's font metrics; they are a parameter of `Layout.LayOut`.
- The 4-decimal endpoint dedupe of `render_line` is not modelled: it depends on floating-point rounding.
- `linspace`, `finalizePlot` and `plotBaselines` are output plumbing and are not modelled.
- File, CLI, storage and network I/O are not modelled. This covers `load_system` and `main`, `saveSystems`, localStorage, fetch, the JSON loading of the legacy page, and the name field's `trim`: the name arrives as a parameter.
- Debounce timers are not modelled, nor are the Flask routes, the font compilers, or the glyph list rebuilding.
- Rules.ProcessText: the rules rewrite the text after the phrases have been replaced by placeholders, so a rule never sees a phrase. The written description says rules apply to phrases too; the model follows the code.
- Phrases.FindMultiWordTokensRoundTrip requires a text without a `§` of its own: a `§` in the input is indistinguishable from a placeholder.
- Tokenizer: the browser re-keys glyphs by their escaped names. Escaping is one-to-one, so each glyph stays one literal candidate, and the model keeps the plain names.
- JsLayout.GenerateSplines requires every line before the first throwing one to plot a point. A line of single-point entry dots plots nothing, and the browser's extrema of an empty list are infinite.
- Words.JsTokenizeWithMultiWords: a `§` whose match is `undefined` is modelled as a throw, because `mergeWordSplines` then iterates `undefined`.
- Bezier.BezierInterpolate2DDense requires `numSamples != 1`. With one sample the browser divides by zero, and the result is NaN.
- Bezier.BezierInterpolate2DDense: the zero-length result is modelled as copies of the first point; the aliasing of `Array.fill` with one shared array is not modelled.
- Bezier.SampleBezierSegments requires at least one segment. The browser reads `segments[0]` otherwise.
- Drafter.Editor.SelectGlyph requires a glyph with a registered spline count. For an unregistered glyph the browser pushes `undefined` as the count, and the model has no such value.
- Drafter.Editor.SelectGlyph: selecting with a `null` glyph is `DeselectAll`.
- Drafter.Editor.RightClick: with nothing selected the handler throws before changing anything; the model leaves the state unchanged.
- Drafter.Editor.ToggleFreeze models the corrected handler; `FreezeAsWritten` models the code as written (see Findings). The frozen copy's per-spline `slice` (copy, not alias) is not modelled: sequences are values.
- The delete buttons of the drafter, and the mode and phrase editors, are not modelled.
- RuleList.Editor.Delete, MoveUp and MoveDown require an index inside the list. The page only passes indices of rendered rules.
- Pen.LayOutPreviews requires `cols > 0`: Python raises ZeroDivisionError otherwise. The matplotlib axes are not modelled, so the model assigns cells where the source crashes: with one row and `cols >= 2` (`axs = [axs]`, then `axs[col]`), with one column and several rows (`axs[row][0]` on a one-dimensional array), and with no glyphs (zero rows).

## Findings

| source | as written | input that shows it | evidently intended | confidence | as-written member | corrected member |
|---|---|---|---|---|---|---|
| static/js/drafter-scripts.js:714-716 | freezing clears `selectedPoints` and `selectedGlyphs` but leaves `numPerSelected`, so the counts no longer add up to the selected splines; the stale counts sit beneath the live ones and are popped only by a replacing selection once no splines remain, where `splice` removes nothing, so no visible symptom follows | one spline selected with count `[1]`, then Freeze, then a click: one spline, counts `[1, 1]` | freezing clears `numPerSelected` with the other two lists, as deselecting does; `Drafter.Editor.ToggleFreeze` models that handler and keeps `Valid()` across it | not executed | Drafter.FrozenThenClickInconsistent | Drafter.FreezeKeepsConsistent |
