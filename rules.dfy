/**
 * The text pipeline before tokenisation: `process_text`
 * (scripts/generate_pdf.py) and `processText` (static/js/writer-scripts.js).
 *
 * The text is normalised, phrases are replaced by placeholders, and the
 * active rules rewrite the result one after another in the order of the
 * system's rule list.
 */
module Rules {
  import opened Wrappers
  import opened Geometry
  import opened Text
  import opened Phrases
  import opened Systems

  /** The effect of one rule: its rewrite when it is active and compiles, no change otherwise. */
  function Step(r: Rule, active: seq<string>, compile: RuleCompiler, text: string): string {
    if r.name in active && compile(r.regex, r.replacement).Some? then compile(r.regex, r.replacement).value(text)
    else text
  }

  /** The rules applied in list order. */
  function ApplyRules(rules: seq<Rule>, active: seq<string>, compile: RuleCompiler, text: string): string {
    if rules == [] then text
    else Step(rules[|rules| - 1], active, compile, ApplyRules(rules[..|rules| - 1], active, compile, text))
  }

  /** Names of the active rules that do not compile, in list order: one warning each. */
  function Warnings(rules: seq<Rule>, active: seq<string>, compile: RuleCompiler): (w: seq<string>)
    ensures |w| <= |rules|
    ensures forall n :: n in w ==> exists k :: 0 <= k < |rules| && rules[k].name == n
  {
    if rules == [] then []
    else
      var r := rules[|rules| - 1];
      var w := Warnings(rules[..|rules| - 1], active, compile);
      assert forall k :: 0 <= k < |rules| - 1 ==> rules[..|rules| - 1][k] == rules[k];
      if r.name in active && compile(r.regex, r.replacement).None? then w + [r.name] else w
  }

  /** `text.replace` of '/', '\' and '-' by a blank, in that order. */
  function BlankSeparators(s: string): (r: string)
    ensures |r| == |s|
    ensures forall i :: 0 <= i < |s| ==> r[i] == if s[i] in "/\\-" then ' ' else s[i]
  {
    ReplaceChar(ReplaceChar(ReplaceChar(s, '/', ' '), '\\', ' '), '-', ' ')
  }

  /** Python normalisation: collapse white space, lower-case, drop apostrophes, blank separators, space out punctuation. */
  function Normalize(text: string): string {
    AddSpacesAroundPunctuation(BlankSeparators(Remove(Lower(JoinWords(Words(text))), '\'')))
  }

  /** Browser normalisation: the same steps without collapsing white space. */
  function JsNormalize(text: string): string {
    AddSpacesAroundPunctuation(BlankSeparators(Remove(Lower(text), '\'')))
  }

  /** The rule loop of `process_text`: each active rule rewrites the text, a rule that does not compile is skipped with a warning. */
  method RunRules(rules: seq<Rule>, active: seq<string>, compile: RuleCompiler, text: string)
    returns (out: string, warnings: seq<string>)
    ensures out == ApplyRules(rules, active, compile, text)
    ensures warnings == Warnings(rules, active, compile)
  {
    out := text;
    warnings := [];
    var i := 0;
    while i < |rules|
      invariant i <= |rules|
      invariant out == ApplyRules(rules[..i], active, compile, text)
      invariant warnings == Warnings(rules[..i], active, compile)
    {
      var rule := rules[i];
      assert rules[..i + 1][..i] == rules[..i];
      if rule.name in active {
        var rewrite := compile(rule.regex, rule.replacement);
        if rewrite.Some? {
          out := rewrite.value(out);
        } else {
          warnings := warnings + [rule.name];
        }
      }
      i := i + 1;
    }
    assert rules[..i] == rules;
  }

  /** `process_text(text, system, active_rules)`; also returns the warnings it prints. */
  method ProcessText(text: string, sys: System, activeRules: Option<seq<string>>, compile: RuleCompiler)
    returns (out: string, matches: seq<string>, warnings: seq<string>)
    ensures var active := activeRules.GetOr(RuleNames(sys.rules));
      var (t, ms) := FindMultiWordTokens(Normalize(text), sys.phrases);
      out == ApplyRules(sys.rules, active, compile, t) && matches == ms &&
      warnings == Warnings(sys.rules, active, compile)
  {
    var t := JoinWords(Words(text));
    t := Lower(t);
    t := Remove(t, '\'');
    t := BlankSeparators(t);
    t := AddSpacesAroundPunctuation(t);
    var found := FindMultiWordTokens(t, sys.phrases);
    matches := found.1;
    var active := if activeRules.None? then RuleNames(sys.rules) else activeRules.value;
    out, warnings := RunRules(sys.rules, active, compile, found.0);
  }

  /** The browser's rule loop: `None` as soon as an active rule throws. */
  function JsApplyRules(rules: seq<Rule>, active: seq<string>, jsCompile: RuleCompiler, text: string): Option<string> {
    if rules == [] then Some(text)
    else
      var r := rules[|rules| - 1];
      match JsApplyRules(rules[..|rules| - 1], active, jsCompile, text)
      case None => None
      case Some(t) =>
        if r.name !in active then Some(t)
        else if jsCompile(r.regex, r.replacement).None? then None
        else Some(jsCompile(r.regex, r.replacement).value(t))
  }

  /** The rule loop of `processText`: the first active rule that does not jsCompile throws (`None`). */
  method JsRunRules(rules: seq<Rule>, active: seq<string>, jsCompile: RuleCompiler, text: string)
    returns (out: Option<string>)
    ensures out == JsApplyRules(rules, active, jsCompile, text)
  {
    var t := text;
    var i := 0;
    while i < |rules|
      invariant i <= |rules|
      invariant JsApplyRules(rules[..i], active, jsCompile, text) == Some(t)
    {
      var rule := rules[i];
      assert rules[..i + 1][..i] == rules[..i];
      if rule.name in active {
        var rewrite := jsCompile(rule.regex, rule.replacement);
        if rewrite.None? {
          JsThrowSticks(rules, i + 1, active, jsCompile, text);
          return None;
        }
        t := rewrite.value(t);
      }
      i := i + 1;
    }
    assert rules[..i] == rules;
    out := Some(t);
  }

  /** `processText(text, appliedRules, system)`, with `abbrvWords` the phrase checkbox; `None` when it throws. */
  method JsProcessText(text: string, sys: System, appliedRules: seq<string>, abbrvWords: bool, jsCompile: RuleCompiler)
    returns (r: Option<(string, seq<string>)>)
    ensures var (t, ms) := if abbrvWords then JsFindMultiWordTokens(JsNormalize(text), sys.phrases) else (JsNormalize(text), []);
      r == match JsApplyRules(sys.rules, appliedRules, jsCompile, t)
           case None => None
           case Some(out) => Some((out, ms))
  {
    var t := Lower(text);
    t := Remove(t, '\'');
    t := BlankSeparators(t);
    t := AddSpacesAroundPunctuation(t);
    var matches: seq<string> := [];
    if abbrvWords {
      var found := JsFindMultiWordTokens(t, sys.phrases);
      t, matches := found.0, found.1;
    }
    var out := JsRunRules(sys.rules, appliedRules, jsCompile, t);
    r := if out.None? then None else Some((out.value, matches));
  }

  /** Once a prefix throws, every longer prefix throws. */
  lemma {:induction false} JsThrowSticks(rules: seq<Rule>, i: nat, active: seq<string>, jsCompile: RuleCompiler, text: string)
    requires i <= |rules|
    requires JsApplyRules(rules[..i], active, jsCompile, text).None?
    ensures JsApplyRules(rules, active, jsCompile, text).None?
    decreases |rules| - i
  {
    if i < |rules| {
      assert rules[..i + 1][..i] == rules[..i];
      JsThrowSticks(rules, i + 1, active, jsCompile, text);
    } else {
      assert rules[..i] == rules;
    }
  }

  /**
   * The two hosts compile every active rule alike: a rule's regex compiles in
   * JavaScript exactly when it compiles in Python, and then both rewrite every
   * text the same way. The engines differ in general (dialects, replacement
   * syntax such as `$&`, empty matches next to a match), so this is a
   * hypothesis about the rule set, not a fact about the hosts.
   */
  ghost predicate EnginesAgree(rules: seq<Rule>, active: seq<string>, pyCompile: RuleCompiler, jsCompile: RuleCompiler) {
    forall k :: 0 <= k < |rules| && rules[k].name in active ==>
      (pyCompile(rules[k].regex, rules[k].replacement).None? <==> jsCompile(rules[k].regex, rules[k].replacement).None?) &&
      (pyCompile(rules[k].regex, rules[k].replacement).Some? && jsCompile(rules[k].regex, rules[k].replacement).Some? ==>
        forall s :: pyCompile(rules[k].regex, rules[k].replacement).value(s) == jsCompile(rules[k].regex, rules[k].replacement).value(s))
  }

  /**
   * For a rule set both engines compile alike, the browser throws exactly
   * when the reference would warn, and otherwise rewrites the same way.
   */
  lemma {:induction false} JsApplyRulesMatchesReference(rules: seq<Rule>, active: seq<string>, pyCompile: RuleCompiler, jsCompile: RuleCompiler, text: string)
    requires EnginesAgree(rules, active, pyCompile, jsCompile)
    ensures JsApplyRules(rules, active, jsCompile, text) ==
      if Warnings(rules, active, pyCompile) == [] then Some(ApplyRules(rules, active, pyCompile, text)) else None
  {
    if rules != [] {
      var init := rules[..|rules| - 1];
      assert forall k :: 0 <= k < |init| ==> init[k] == rules[k];
      JsApplyRulesMatchesReference(init, active, pyCompile, jsCompile, text);
    }
  }

  /** Applying a list of rules is applying its first part, then its second. */
  lemma {:induction false} ApplyRulesAppend(r1: seq<Rule>, r2: seq<Rule>, active: seq<string>, compile: RuleCompiler, text: string)
    ensures ApplyRules(r1 + r2, active, compile, text) == ApplyRules(r2, active, compile, ApplyRules(r1, active, compile, text))
    decreases |r2|
  {
    if r2 == [] {
      assert r1 + r2 == r1;
    } else {
      assert (r1 + r2)[..|r1 + r2| - 1] == r1 + r2[..|r2| - 1];
      ApplyRulesAppend(r1, r2[..|r2| - 1], active, compile, text);
    }
  }

  /** A rule that is not active, or whose regex does not compile, can be removed without changing the result. */
  lemma SkippedRuleHasNoEffect(rules: seq<Rule>, k: nat, active: seq<string>, compile: RuleCompiler, text: string)
    requires k < |rules|
    requires rules[k].name !in active || compile(rules[k].regex, rules[k].replacement).None?
    ensures ApplyRules(rules, active, compile, text) == ApplyRules(rules[..k] + rules[k + 1..], active, compile, text)
  {
    assert rules == rules[..k] + [rules[k]] + rules[k + 1..];
    ApplyRulesAppend(rules[..k] + [rules[k]], rules[k + 1..], active, compile, text);
    ApplyRulesAppend(rules[..k], [rules[k]], active, compile, text);
    ApplyRulesAppend(rules[..k], rules[k + 1..], active, compile, text);
    assert ApplyRules([rules[k]], active, compile, ApplyRules(rules[..k], active, compile, text))
      == ApplyRules(rules[..k], active, compile, text) by {
      assert [rules[k]][..0] == [];
    }
  }

  /** A toy regex engine for the example below: the rule rewrites the whole text when it equals the regex. */
  function WholeTextRewrite(re: string, rep: string): Option<string -> string> {
    Some((s: string) => if s == re then rep else s)
  }

  /**
   * Rule order decides the result: with one rule rewriting "a" to "b" and
   * another "b" to "c", the order a-then-b turns "a" into "c", the other order
   * into "b".
   */
  lemma RuleOrderMatters()
    ensures ApplyRules([Rule("a", "b", "ab"), Rule("b", "c", "bc")], ["ab", "bc"], WholeTextRewrite, "a") == "c"
    ensures ApplyRules([Rule("b", "c", "bc"), Rule("a", "b", "ab")], ["ab", "bc"], WholeTextRewrite, "a") == "b"
  {
    var ab := Rule("a", "b", "ab");
    var bc := Rule("b", "c", "bc");
    var active := ["ab", "bc"];
    assert [ab, bc][..1] == [ab] && [bc, ab][..1] == [bc];
    assert [ab][..0] == [] && [bc][..0] == [];
    assert "a" != "b" by { assert "a"[0] != "b"[0]; }
    assert Step(ab, active, WholeTextRewrite, "a") == "b";
    assert Step(bc, active, WholeTextRewrite, "b") == "c";
    assert Step(bc, active, WholeTextRewrite, "a") == "a";
    assert ApplyRules([ab], active, WholeTextRewrite, "a") == "b";
    assert ApplyRules([bc], active, WholeTextRewrite, "a") == "a";
  }

  /**
   * The two pipelines agree on text whose white space is already single
   * blanks between words (the shared word-character class is ASCII's), when phrases are enabled in the browser and
   * both engines compile the active rules alike: the browser throws exactly
   * when the reference warns, and otherwise both give the same text and
   * matches.
   */
  lemma PipelinesAgree(text: string, sys: System, active: seq<string>, pyCompile: RuleCompiler, jsCompile: RuleCompiler)
    requires JoinWords(Words(text)) == text
    requires EnginesAgree(sys.rules, active, pyCompile, jsCompile)
    ensures var (t, ms) := FindMultiWordTokens(Normalize(text), sys.phrases);
      var (jt, jms) := JsFindMultiWordTokens(JsNormalize(text), sys.phrases);
      (match JsApplyRules(sys.rules, active, jsCompile, jt)
       case None => None
       case Some(out) => Some((out, jms)))
      == if Warnings(sys.rules, active, pyCompile) == [] then Some((ApplyRules(sys.rules, active, pyCompile, t), ms)) else None
  {
    JsAgreesWithPython(JsNormalize(text), sys.phrases);
    var jt := JsFindMultiWordTokens(JsNormalize(text), sys.phrases).0;
    JsApplyRulesMatchesReference(sys.rules, active, pyCompile, jsCompile, jt);
  }
}
