/**
 * The rule editor's list of rewrite rules. The list order is the order in
 * which the rules rewrite the text, so the editor's moves only ever swap
 * neighbours, deleting keeps the others in order, and adding appends.
 */
module RuleList {
  import opened Systems

  /** The list after moving rule `i` one place up; the top rule stays put. */
  function MovedUp(s: seq<Rule>, i: nat): (r: seq<Rule>)
    requires i < |s|
    ensures |r| == |s|
    ensures i == 0 ==> r == s
    ensures i > 0 ==> r[i - 1] == s[i] && r[i] == s[i - 1]
    ensures forall k :: 0 <= k < |s| && k != i && k != i - 1 ==> r[k] == s[k]
  {
    if i > 0 then s[i := s[i - 1]][i - 1 := s[i]] else s
  }

  /** The list after moving rule `i` one place down; the bottom rule stays put. */
  function MovedDown(s: seq<Rule>, i: nat): (r: seq<Rule>)
    requires i < |s|
    ensures |r| == |s|
    ensures i == |s| - 1 ==> r == s
    ensures i < |s| - 1 ==> r[i + 1] == s[i] && r[i] == s[i + 1]
    ensures forall k :: 0 <= k < |s| && k != i && k != i + 1 ==> r[k] == s[k]
  {
    if i < |s| - 1 then s[i := s[i + 1]][i + 1 := s[i]] else s
  }

  /** The list without rule `i`. */
  function Deleted(s: seq<Rule>, i: nat): (r: seq<Rule>)
    requires i < |s|
    ensures |r| == |s| - 1
    ensures forall k :: 0 <= k < i ==> r[k] == s[k]
    ensures forall k :: i <= k < |r| ==> r[k] == s[k + 1]
  {
    s[..i] + s[i + 1..]
  }

  /** Moving a rule up and then moving it back down restores the list. */
  lemma UpThenDownRestores(s: seq<Rule>, i: nat)
    requires 0 < i < |s|
    ensures MovedDown(MovedUp(s, i), i - 1) == s
  {
    var r := MovedDown(MovedUp(s, i), i - 1);
    assert forall k :: 0 <= k < |s| ==> r[k] == s[k];
  }

  /** Moving a rule down and then moving it back up restores the list. */
  lemma DownThenUpRestores(s: seq<Rule>, i: nat)
    requires i < |s| - 1
    ensures MovedUp(MovedDown(s, i), i + 1) == s
  {
    var r := MovedUp(MovedDown(s, i), i + 1);
    assert forall k :: 0 <= k < |s| ==> r[k] == s[k];
  }

  /** Moves neither lose nor duplicate a rule. */
  lemma MovesPermute(s: seq<Rule>, i: nat)
    requires i < |s|
    ensures multiset(MovedUp(s, i)) == multiset(s)
    ensures multiset(MovedDown(s, i)) == multiset(s)
  {
    if i > 0 {
      SwapPermutes(s, i - 1);
    }
    if i < |s| - 1 {
      SwapPermutes(s, i);
    }
  }

  lemma SwapPermutes(s: seq<Rule>, i: nat)
    requires i + 1 < |s|
    ensures multiset(s[i := s[i + 1]][i + 1 := s[i]]) == multiset(s)
    ensures multiset(s[i + 1 := s[i]][i := s[i + 1]]) == multiset(s)
  {
    var t := s[i := s[i + 1]][i + 1 := s[i]];
    assert s == s[..i] + [s[i], s[i + 1]] + s[i + 2..];
    assert t == s[..i] + [s[i + 1], s[i]] + s[i + 2..];
    assert s[i + 1 := s[i]][i := s[i + 1]] == t;
  }

  /** Deleting removes exactly that rule from the multiset. */
  lemma DeletedRemovesOne(s: seq<Rule>, i: nat)
    requires i < |s|
    ensures multiset(Deleted(s, i)) + multiset{s[i]} == multiset(s)
  {
    assert s == s[..i] + [s[i]] + s[i + 1..];
  }

  /** The rule list of the system being edited. */
  class Editor {
    var rules: seq<Rule>

    constructor(initial: seq<Rule>)
      ensures rules == initial
    {
      rules := initial;
    }

    /** The add-rule form: the new rule goes at the end. */
    method Add(regex: string, replacement: string, name: string)
      modifies this
      ensures rules == old(rules) + [Rule(regex, replacement, name)]
    {
      rules := rules + [Rule(regex, replacement, name)];
    }

    method Delete(index: nat)
      requires index < |rules|
      modifies this
      ensures rules == Deleted(old(rules), index)
    {
      rules := rules[..index] + rules[index + 1..];
    }

    method MoveUp(index: nat)
      requires index < |rules|
      modifies this
      ensures rules == MovedUp(old(rules), index)
    {
      if index > 0 {
        var temp := rules[index];
        rules := rules[index := rules[index - 1]];
        rules := rules[index - 1 := temp];
      }
    }

    method MoveDown(index: nat)
      requires index < |rules|
      modifies this
      ensures rules == MovedDown(old(rules), index)
    {
      if index < |rules| - 1 {
        var temp := rules[index];
        rules := rules[index := rules[index + 1]];
        rules := rules[index + 1 := temp];
      }
    }
  }
}
