/**
 * A writing system as loaded from its JSON files: glyphs, phrases, modes and
 * rules, each a dictionary (kept in insertion order) or a list.
 *
 * Regular expressions are not modelled as an engine. A mode pattern compiles
 * to a `Matcher`, which says how long its match anchored at a position is; a
 * rule compiles to a string rewrite. Compilation can fail (`None`).
 */
module Systems {
  import opened Wrappers
  import opened Geometry

  /** A compiled mode pattern: the length of its match anchored at `start` in `word`, or `None`. */
  type Matcher = (string, nat) -> Option<nat>

  /** `re.compile(pattern)` / `new RegExp(pattern, 'gu')` for mode patterns. */
  type ModeCompiler = string -> Option<Matcher>

  /** Compiles a rule's regex with its replacement into the global substitution it performs. */
  type RuleCompiler = (string, string) -> Option<string -> string>

  datatype Mode = Mode(pattern: string, points: Glyph)

  datatype Rule = Rule(regex: string, replacement: string, name: string)

  datatype System = System(glyphs: Dict<Glyph>, phrases: Dict<Glyph>, modes: Dict<Mode>, rules: seq<Rule>)

  function RuleNames(rules: seq<Rule>): (names: seq<string>)
    ensures |names| == |rules|
    ensures forall i :: 0 <= i < |rules| ==> names[i] == rules[i].name
  {
    seq(|rules|, i requires 0 <= i < |rules| => rules[i].name)
  }
}
