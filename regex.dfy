/** Hand-written matchers for the fixed regular expressions of the core.
    Character classes are ASCII: `\w` is `[A-Za-z0-9_]`, `\d` is `[0-9]`, and
    the `re.I` flag folds only `A`-`Z` onto `a`-`z`. */
module Regex {
  import opened Wrappers
  import opened Strings
  import opened Collections

  predicate IsHexDigit(c: char) {
    IsDigit(c) || ('a' <= c <= 'f') || ('A' <= c <= 'F')
  }

  predicate IsWordChar(c: char) {
    IsDigit(c) || ('a' <= c <= 'z') || ('A' <= c <= 'Z') || c == '_'
  }

  /** `\b` at position `i`: exactly one of the neighbouring characters is a
      word character (outside the string counts as a non-word character). */
  predicate WordBoundary(s: string, i: int)
    requires 0 <= i <= |s|
  {
    (0 < i && IsWordChar(s[i - 1])) != (i < |s| && IsWordChar(s[i]))
  }

  predicate IsUpper(c: char) {
    'A' <= c <= 'Z'
  }

  /** `str.lower()` for one character (ASCII letters only). */
  function LowerChar(c: char): (d: char)
    ensures !IsUpper(d)
  {
    if IsUpper(c) then (c as int + 32) as char else c
  }

  /** `str.lower()`. */
  function Lower(s: string): (r: string)
    ensures |r| == |s| && forall i :: 0 <= i < |s| ==> r[i] == LowerChar(s[i])
  {
    MapSeq(LowerChar, s)
  }

  /** The case-insensitive literal `lit` occurs at position `i` of `s`. */
  predicate MatchAt(s: string, i: nat, lit: string) {
    i + |lit| <= |s| && forall k :: 0 <= k < |lit| ==> LowerChar(s[i + k]) == LowerChar(lit[k])
  }

  /** `re.search(lit, s, re.I)` for a pattern without metacharacters. */
  predicate Contains(s: string, lit: string) {
    exists i :: 0 <= i <= |s| - |lit| && MatchAt(s, i, lit)
  }

  /** `\b<lit>\b` occurs at position `i`, case-insensitively. */
  predicate WordAt(s: string, i: nat, lit: string) {
    MatchAt(s, i, lit) && WordBoundary(s, i) && WordBoundary(s, i + |lit|)
  }

  /** `re.search(r"\b<lit>\b", s, re.I)`. */
  predicate ContainsWord(s: string, lit: string) {
    exists i :: 0 <= i <= |s| - |lit| && WordAt(s, i, lit)
  }

  /** The shapes of the fixed case-insensitive rule patterns:
      a literal, a choice of two literals (`test(failure| failed)`), and a
      literal followed by any run of non-newline characters and a second
      literal (`bluetooth.*error`). */
  datatype Pattern =
    | Literal(text: string)
    | Either(left: string, right: string)
    | Gap(head: string, tail: string)

  /** `pattern.search(s)`. */
  predicate Search(p: Pattern, s: string) {
    match p
    case Literal(t) => Contains(s, t)
    case Either(l, r) => Contains(s, l) || Contains(s, r)
    case Gap(h, t) =>
      exists i, j :: 0 <= i && i + |h| <= j <= |s| - |t|
        && MatchAt(s, i, h) && MatchAt(s, j, t) && NoNewline(s, i + |h|, j)
  }

  /** `.` does not match `"\n"`. */
  predicate NoNewline(s: string, lo: nat, hi: nat)
    requires lo <= hi <= |s|
  {
    forall k :: lo <= k < hi ==> s[k] != '\n'
  }

  /** One `(label, pattern)` entry of an ordered rule list. */
  datatype Rule = Rule(category: string, pattern: Pattern)

  /** Index of the first rule at or after `j` whose pattern is found in `s`,
      or `|rules|` if none is. */
  function FirstMatchFrom(rules: seq<Rule>, s: string, j: nat): (k: nat)
    requires j <= |rules|
    ensures j <= k <= |rules|
    decreases |rules| - j
  {
    if j == |rules| || Search(rules[j].pattern, s) then j else FirstMatchFrom(rules, s, j + 1)
  }

  /** The rule found matches and none between `j` and it does. */
  lemma {:induction false} FirstMatchFromSpec(rules: seq<Rule>, s: string, j: nat)
    requires j <= |rules|
    ensures var k := FirstMatchFrom(rules, s, j);
      && (k < |rules| ==> Search(rules[k].pattern, s))
      && (forall i :: j <= i < k ==> !Search(rules[i].pattern, s))
    decreases |rules| - j
  {
    if j < |rules| && !Search(rules[j].pattern, s) {
      FirstMatchFromSpec(rules, s, j + 1);
    }
  }

  /** `for label, pat in rules: if pat.search(s): return label` / `return None`. */
  function FirstMatch(rules: seq<Rule>, s: string): Option<string> {
    var k := FirstMatchFrom(rules, s, 0);
    if k < |rules| then Some(rules[k].category) else None
  }

  /** The result is nothing exactly when no pattern is found, and otherwise
      the label of a rule whose pattern is found and before which none is. */
  lemma FirstMatchSpec(rules: seq<Rule>, s: string)
    ensures FirstMatch(rules, s).None? <==> forall k :: 0 <= k < |rules| ==> !Search(rules[k].pattern, s)
    ensures FirstMatch(rules, s).Some? ==>
              exists k :: 0 <= k < |rules| && FirstMatch(rules, s).value == rules[k].category
                          && Search(rules[k].pattern, s)
                          && forall i :: 0 <= i < k ==> !Search(rules[i].pattern, s)
  {
    FirstMatchFromSpec(rules, s, 0);
  }

  /** First match wins: when rule `k` matches and no earlier rule does, the
      result is rule `k`'s label, whatever later rules say. */
  lemma FirstMatchIsEarliest(rules: seq<Rule>, s: string, k: nat)
    requires k < |rules| && Search(rules[k].pattern, s)
    requires forall i :: 0 <= i < k ==> !Search(rules[i].pattern, s)
    ensures FirstMatch(rules, s) == Some(rules[k].category)
  {
    FirstMatchFromSpec(rules, s, 0);
  }

  /** The search loop over an ordered rule list: the label of the first rule
      whose pattern is found in `line`, or nothing. */
  method FirstRule(rules: seq<Rule>, line: string) returns (category: Option<string>)
    ensures category == FirstMatch(rules, line)
  {
    var j := 0;
    while j < |rules|
      invariant 0 <= j <= |rules|
      invariant forall q :: 0 <= q < j ==> !Search(rules[q].pattern, line)
    {
      if Search(rules[j].pattern, line) {
        FirstMatchIsEarliest(rules, line, j);
        return Some(rules[j].category);
      }
      j := j + 1;
    }
    FirstMatchFromSpec(rules, line, 0);
    return None;
  }
}
