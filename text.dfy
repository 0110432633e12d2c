/**
 * Character-level text normalisation shared by the Python renderer
 * (scripts/generate_pdf.py) and the browser writer (static/js/writer-scripts.js).
 *
 * Character classes are the ASCII ones: digits, the 32 ASCII punctuation
 * characters and the six ASCII white-space characters.
 */
module Text {

  predicate IsDigit(c: char) {
    '0' <= c <= '9'
  }

  /** The ASCII punctuation characters, as listed inside the character class of the spacing pattern. */
  const AsciiPunctuation: string := "!\"#$%&'()*+,-./:;<=>?@[\\]^_`{|}~"

  predicate IsPunctuation(c: char) {
    c in AsciiPunctuation
  }

  /** Characters that the spacing pass turns into stand-alone tokens: digits and ASCII punctuation. */
  predicate IsIsolated(c: char) {
    IsDigit(c) || IsPunctuation(c)
  }

  predicate IsSpace(c: char) {
    c == ' ' || c == '\t' || c == '\n' || c == '\r' || c == '\U{000B}' || c == '\U{000C}'
  }

  predicate IsUpper(c: char) {
    'A' <= c <= 'Z'
  }

  function LowerChar(c: char): (d: char)
    ensures !IsUpper(d)
    ensures IsUpper(c) ==> d as int == c as int + 32
    ensures !IsUpper(c) ==> d == c
  {
    if IsUpper(c) then (c as int + 32) as char else c
  }

  /** `str.lower()` / `String.prototype.toLowerCase()` on ASCII letters. */
  function Lower(s: string): (r: string)
    ensures |r| == |s|
    ensures forall i :: 0 <= i < |s| ==> r[i] == LowerChar(s[i])
  {
    seq(|s|, i requires 0 <= i < |s| => LowerChar(s[i]))
  }

  /** `s.replace(c, '')`: every occurrence of `c` deleted, everything else kept in order. */
  function Remove(s: string, c: char): (r: string)
    ensures c !in r
    ensures forall d :: d != c ==> multiset(r)[d] == multiset(s)[d]
  {
    if s == [] then []
    else if s[0] == c then
      assert s == [s[0]] + s[1..];
      Remove(s[1..], c)
    else
      assert s == [s[0]] + s[1..];
      [s[0]] + Remove(s[1..], c)
  }

  /**
   * `Remove` keeps the order of what it keeps: it deletes a lone `c`, keeps
   * any other lone character, and distributes over concatenation.
   */
  lemma {:induction false} RemoveConcat(s: string, t: string, c: char)
    ensures Remove(s + t, c) == Remove(s, c) + Remove(t, c)
    ensures forall d :: Remove([d], c) == if d == c then [] else [d]
  {
    if s == [] {
      assert s + t == t;
    } else {
      var u := s + t;
      assert u[0] == s[0] && u[1..] == s[1..] + t;
      RemoveConcat(s[1..], t, c);
      if s[0] == c {
        calc {
          Remove(u, c);
          Remove(s[1..] + t, c);
          Remove(s[1..], c) + Remove(t, c);
          Remove(s, c) + Remove(t, c);
        }
      } else {
        calc {
          Remove(u, c);
          [s[0]] + Remove(s[1..] + t, c);
          [s[0]] + (Remove(s[1..], c) + Remove(t, c));
          ([s[0]] + Remove(s[1..], c)) + Remove(t, c);
          Remove(s, c) + Remove(t, c);
        }
      }
    }
    forall d
      ensures Remove([d], c) == if d == c then [] else [d]
    {
      RemoveSingle(d, c);
    }
  }

  lemma RemoveSingle(d: char, c: char)
    ensures Remove([d], c) == if d == c then [] else [d]
  {
    assert [d][1..] == [];
  }

  /** `s.replace(c, d)` for single characters. */
  function ReplaceChar(s: string, c: char, d: char): (r: string)
    ensures |r| == |s|
    ensures forall i :: 0 <= i < |s| ==> r[i] == if s[i] == c then d else s[i]
  {
    seq(|s|, i requires 0 <= i < |s| => if s[i] == c then d else s[i])
  }

  /** What the spacing pattern substitutes for one character: ` c ` for a digit or punctuation, `c` otherwise. */
  function SpacedChar(c: char): string {
    if IsIsolated(c) then [' ', c, ' '] else [c]
  }

  /** The global substitution `([\d<punctuation>])` -> ` \1 `, before trimming. */
  function SpaceOut(s: string): string {
    if s == [] then [] else SpacedChar(s[0]) + SpaceOut(s[1..])
  }

  /** Number of leading white-space characters. */
  function LeadingSpaces(s: string): (n: nat)
    ensures n <= |s|
    ensures n < |s| ==> !IsSpace(s[n])
  {
    if s == [] || !IsSpace(s[0]) then 0 else 1 + LeadingSpaces(s[1..])
  }

  lemma {:induction false} LeadingSpacesAreSpaces(s: string)
    ensures forall i :: 0 <= i < LeadingSpaces(s) ==> IsSpace(s[i])
  {
    if s != [] && IsSpace(s[0]) {
      LeadingSpacesAreSpaces(s[1..]);
      assert forall i :: 1 <= i < LeadingSpaces(s) ==> s[i] == s[1..][i - 1];
    }
  }

  /** Number of trailing white-space characters. */
  function TrailingSpaces(s: string): (n: nat)
    ensures n <= |s|
    ensures n < |s| ==> !IsSpace(s[|s| - n - 1])
  {
    if s == [] || !IsSpace(s[|s| - 1]) then 0 else 1 + TrailingSpaces(s[..|s| - 1])
  }

  lemma {:induction false} TrailingSpacesAreSpaces(s: string)
    ensures forall i :: |s| - TrailingSpaces(s) <= i < |s| ==> IsSpace(s[i])
  {
    if s != [] && IsSpace(s[|s| - 1]) {
      TrailingSpacesAreSpaces(s[..|s| - 1]);
      assert forall i :: |s| - TrailingSpaces(s) <= i < |s| - 1 ==> s[i] == s[..|s| - 1][i];
    }
  }

  /** Index of the first character kept by `Strip`. */
  function StripStart(s: string): (a: nat)
    ensures a <= |s|
    ensures forall i :: 0 <= i < a ==> IsSpace(s[i])
  {
    LeadingSpacesAreSpaces(s);
    LeadingSpaces(s)
  }

  /** Index one past the last character kept by `Strip`. */
  function StripEnd(s: string): (b: nat)
    ensures StripStart(s) <= b <= |s|
    ensures forall i :: b <= i < |s| ==> IsSpace(s[i])
    ensures StripStart(s) < b ==> !IsSpace(s[StripStart(s)]) && !IsSpace(s[b - 1])
  {
    var a := StripStart(s);
    var n := TrailingSpaces(s[a..]);
    TrailingSpacesAreSpaces(s[a..]);
    assert forall i :: |s| - n <= i < |s| ==> s[i] == s[a..][i - a];
    |s| - n
  }

  /** `str.strip()` / `String.prototype.trim()`: `s` without its leading and trailing white space. */
  function Strip(s: string): (r: string)
    ensures r == [] || (!IsSpace(r[0]) && !IsSpace(r[|r| - 1]))
    ensures r == s[StripStart(s)..StripEnd(s)]
  {
    s[StripStart(s)..StripEnd(s)]
  }

  /**
   * `add_spaces_around_punctuation` (scripts/generate_pdf.py) and
   * `addSpacesAroundPunctuation` (static/js/writer-scripts.js).
   */
  function AddSpacesAroundPunctuation(s: string): string {
    Strip(SpaceOut(s))
  }

  /** The text with all white space deleted. */
  function DeleteSpaces(s: string): string {
    if s == [] then []
    else if IsSpace(s[0]) then DeleteSpaces(s[1..])
    else [s[0]] + DeleteSpaces(s[1..])
  }

  lemma {:induction false} DeleteSpacesConcat(a: string, b: string)
    ensures DeleteSpaces(a + b) == DeleteSpaces(a) + DeleteSpaces(b)
  {
    if a != [] {
      assert (a + b)[0] == a[0];
      assert (a + b)[1..] == a[1..] + b;
      DeleteSpacesConcat(a[1..], b);
      if IsSpace(a[0]) {
        assert DeleteSpaces(a + b) == DeleteSpaces(a[1..] + b);
      } else {
        assert DeleteSpaces(a + b) == [a[0]] + DeleteSpaces(a[1..] + b);
      }
    } else {
      assert a + b == b;
    }
  }

  lemma {:induction false} DeleteSpacesOfSpaces(s: string)
    requires forall i :: 0 <= i < |s| ==> IsSpace(s[i])
    ensures DeleteSpaces(s) == []
  {
    if s != [] {
      DeleteSpacesOfSpaces(s[1..]);
    }
  }

  lemma {:induction false} DeleteSpacesSpaceOut(s: string)
    ensures DeleteSpaces(SpaceOut(s)) == DeleteSpaces(s)
  {
    if s != [] {
      var p, rest := SpacedChar(s[0]), SpaceOut(s[1..]);
      assert SpaceOut(s) == p + rest;
      DeleteSpacesConcat(p, rest);
      DeleteSpacesSpaceOut(s[1..]);
      DeleteSpacesSpacedChar(s[0]);
      DeleteSpacesCons(s);
    }
  }

  /** The blanks put around a character are deleted again. */
  lemma DeleteSpacesSpacedChar(c: char)
    ensures DeleteSpaces(SpacedChar(c)) == DeleteSpaces([c])
  {
    if IsIsolated(c) {
      assert !IsSpace(c);
      DeleteSpacesPadded(c);
    }
  }

  lemma DeleteSpacesPadded(c: char)
    requires !IsSpace(c)
    ensures DeleteSpaces([' ', c, ' ']) == [c] == DeleteSpaces([c])
  {
    var p := [' ', c, ' '];
    assert p[1..] == [c, ' '];
    assert p[1..][1..] == [' '];
    assert DeleteSpaces([' ']) == [];
    assert DeleteSpaces([c]) == [c] + DeleteSpaces([]);
  }

  lemma DeleteSpacesCons(s: string)
    requires s != []
    ensures DeleteSpaces(s) == DeleteSpaces([s[0]]) + DeleteSpaces(s[1..])
  {
    assert [s[0]] + s[1..] == s;
    DeleteSpacesConcat([s[0]], s[1..]);
  }

  /** Stripping deletes only white space. */
  lemma StripKeepsNonSpace(s: string)
    ensures DeleteSpaces(Strip(s)) == DeleteSpaces(s)
  {
    DeleteSpacesOutside(s, StripStart(s), StripEnd(s));
  }

  /** Cutting white space off both ends leaves the non-space characters as they were. */
  lemma DeleteSpacesOutside(s: string, a: nat, b: nat)
    requires a <= b <= |s|
    requires forall i :: 0 <= i < a ==> IsSpace(s[i])
    requires forall i :: b <= i < |s| ==> IsSpace(s[i])
    ensures DeleteSpaces(s[a..b]) == DeleteSpaces(s)
  {
    var t := s[..b];
    DeleteSpacesDropBack(s, b);
    assert forall i :: 0 <= i < a ==> t[i] == s[i];
    DeleteSpacesDropFront(t, a);
    assert t[a..] == s[a..b];
  }

  lemma {:induction false} DeleteSpacesDropFront(s: string, a: nat)
    requires a <= |s|
    requires forall i :: 0 <= i < a ==> IsSpace(s[i])
    ensures DeleteSpaces(s[a..]) == DeleteSpaces(s)
  {
    if a > 0 {
      var t := s[1..];
      assert IsSpace(s[0]);
      assert DeleteSpaces(s) == DeleteSpaces(t);
      forall i | 0 <= i < a - 1
        ensures IsSpace(t[i])
      {
        assert t[i] == s[i + 1];
      }
      DeleteSpacesDropFront(t, a - 1);
      assert t[a - 1..] == s[a..];
    }
  }

  lemma DeleteSpacesDropBack(s: string, b: nat)
    requires b <= |s|
    requires forall i :: b <= i < |s| ==> IsSpace(s[i])
    ensures DeleteSpaces(s[..b]) == DeleteSpaces(s)
  {
    var l, r := s[..b], s[b..];
    assert s == l + r;
    DeleteSpacesConcat(l, r);
    forall i | 0 <= i < |r|
      ensures IsSpace(r[i])
    {
      assert r[i] == s[b + i];
    }
    DeleteSpacesOfSpaces(r);
  }

  /** The spacing pass only inserts and removes white space: deleting white space from input and output gives the same string. */
  lemma AddSpacesKeepsNonSpace(s: string)
    ensures DeleteSpaces(AddSpacesAroundPunctuation(s)) == DeleteSpaces(s)
  {
    StripKeepsNonSpace(SpaceOut(s));
    DeleteSpacesSpaceOut(s);
  }

  /** In the substituted text every digit and punctuation character has a blank on both sides. */
  lemma {:induction false} SpaceOutIsolates(s: string, i: nat)
    requires i < |SpaceOut(s)| && IsIsolated(SpaceOut(s)[i])
    ensures 0 < i < |SpaceOut(s)| - 1
    ensures SpaceOut(s)[i - 1] == ' ' && SpaceOut(s)[i + 1] == ' '
  {
    var p := SpacedChar(s[0]);
    var rest := SpaceOut(s[1..]);
    assert SpaceOut(s) == p + rest;
    if i >= |p| {
      SpaceOutIsolates(s[1..], i - |p|);
    }
  }

  /** Every digit and punctuation character of `t` is a word of its own: blanks, or an end of `t`, on both sides. */
  predicate Isolated(t: string) {
    forall i :: 0 <= i < |t| && IsIsolated(t[i]) ==>
      (i == 0 || t[i - 1] == ' ') && (i == |t| - 1 || t[i + 1] == ' ')
  }

  lemma SpaceOutIsolated(s: string)
    ensures Isolated(SpaceOut(s))
  {
    var t := SpaceOut(s);
    forall i | 0 <= i < |t| && IsIsolated(t[i])
      ensures (i == 0 || t[i - 1] == ' ') && (i == |t| - 1 || t[i + 1] == ' ')
    {
      SpaceOutIsolates(s, i);
    }
  }

  lemma StripKeepsIsolated(t: string)
    requires Isolated(t)
    ensures Isolated(Strip(t))
  {
    var r := Strip(t);
    var a, b := StripStart(t), StripEnd(t);
    forall i | 0 <= i < |r| && IsIsolated(r[i])
      ensures (i == 0 || r[i - 1] == ' ') && (i == |r| - 1 || r[i + 1] == ' ')
    {
      assert r[i] == t[a + i];
      if i > 0 {
        assert r[i - 1] == t[a + i - 1];
      }
      if i < |r| - 1 {
        assert r[i + 1] == t[a + i + 1];
      }
    }
  }

  /** After `AddSpacesAroundPunctuation` each digit or punctuation character is a word of its own. */
  lemma AddSpacesIsolates(s: string)
    ensures Isolated(AddSpacesAroundPunctuation(s))
  {
    SpaceOutIsolated(s);
    StripKeepsIsolated(SpaceOut(s));
  }

  /** Length of the leading run of non-white-space characters. */
  function WordLength(s: string): (n: nat)
    ensures n <= |s|
    ensures n < |s| ==> IsSpace(s[n])
  {
    if s == [] || IsSpace(s[0]) then 0 else 1 + WordLength(s[1..])
  }

  lemma {:induction false} WordLengthNoSpace(s: string)
    ensures NoSpace(s[..WordLength(s)])
  {
    if s != [] && !IsSpace(s[0]) {
      WordLengthNoSpace(s[1..]);
      var n := WordLength(s);
      assert forall i :: 1 <= i < n ==> s[..n][i] == s[1..][..n - 1][i - 1];
    }
  }

  predicate NoSpace(w: string) {
    forall i :: 0 <= i < |w| ==> !IsSpace(w[i])
  }

  /** `str.split()` with no separator: the maximal runs of non-white-space characters. */
  function Words(s: string): seq<string>
    decreases |s|
  {
    if s == [] then []
    else if IsSpace(s[0]) then Words(s[1..])
    else
      var n := WordLength(s);
      [s[..n]] + Words(s[n..])
  }

  /** `str.split()` yields non-empty words without white space. */
  lemma {:induction false} WordsAreWords(s: string)
    ensures forall k :: 0 <= k < |Words(s)| ==> Words(s)[k] != [] && NoSpace(Words(s)[k])
    decreases |s|
  {
    if s != [] {
      if IsSpace(s[0]) {
        WordsAreWords(s[1..]);
      } else {
        var n := WordLength(s);
        WordLengthNoSpace(s);
        WordsAreWords(s[n..]);
        assert Words(s) == [s[..n]] + Words(s[n..]);
        assert forall k :: 1 <= k < |Words(s)| ==> Words(s)[k] == Words(s[n..])[k - 1];
      }
    }
  }

  function Concat(ws: seq<string>): string {
    if ws == [] then [] else ws[0] + Concat(ws[1..])
  }

  lemma {:induction false} NoSpaceDeleteSpaces(w: string)
    requires NoSpace(w)
    ensures DeleteSpaces(w) == w
  {
    if w != [] {
      NoSpaceDeleteSpaces(w[1..]);
    }
  }

  /** Splitting loses exactly the white space: the words, concatenated, are the text without its white space. */
  lemma {:induction false} WordsCoverText(s: string)
    ensures Concat(Words(s)) == DeleteSpaces(s)
    decreases |s|
  {
    if s != [] {
      if IsSpace(s[0]) {
        WordsCoverText(s[1..]);
      } else {
        var n := WordLength(s);
        assert s == s[..n] + s[n..];
        WordLengthNoSpace(s);
        DeleteSpacesConcat(s[..n], s[n..]);
        NoSpaceDeleteSpaces(s[..n]);
        WordsCoverText(s[n..]);
      }
    }
  }

  /** `' '.join(words)`. */
  function JoinWords(ws: seq<string>): string {
    if ws == [] then []
    else if |ws| == 1 then ws[0]
    else ws[0] + " " + JoinWords(ws[1..])
  }
}
