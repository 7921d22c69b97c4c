/** The Python `str` built-ins the core relies on: `isspace`, `strip`,
    `rstrip`, `splitlines`, `split(",")`, `str(n)` of a natural number and the
    code-point order used by `<`, `max` and `sorted`. */
module Strings {
  import opened Wrappers
  import opened Collections

  // ---------------------------------------------------------------------
  // Whitespace, `strip`, `rstrip`
  // ---------------------------------------------------------------------

  /** `c.isspace()`: Python's complete set of whitespace characters. */
  predicate IsSpace(c: char) {
    c == ' ' || ('\t' <= c <= '\r') || ('\U{1c}' <= c <= '\U{1f}')
    || c == '\U{85}' || c == '\U{a0}' || c == '\U{1680}'
    || ('\U{2000}' <= c <= '\U{200a}') || c == '\U{2028}' || c == '\U{2029}'
    || c == '\U{202f}' || c == '\U{205f}' || c == '\U{3000}'
  }

  /** `not s.strip()`: the string has no character other than whitespace. */
  predicate IsBlank(s: string) {
    forall i :: 0 <= i < |s| ==> IsSpace(s[i])
  }

  /** `s.lstrip()`: the longest suffix of `s` not starting with whitespace. */
  function LStrip(s: string): (r: string)
    ensures |r| <= |s| && r == s[|s| - |r|..]
    ensures forall i :: 0 <= i < |s| - |r| ==> IsSpace(s[i])
    ensures r == [] || !IsSpace(r[0])
  {
    if s != [] && IsSpace(s[0]) then LStrip(s[1..]) else s
  }

  /** `s.rstrip()`: the longest prefix of `s` not ending with whitespace. */
  function RStrip(s: string): (r: string)
    ensures |r| <= |s| && r == s[..|r|]
    ensures forall i :: |r| <= i < |s| ==> IsSpace(s[i])
    ensures r == [] || !IsSpace(r[|r| - 1])
  {
    if s != [] && IsSpace(s[|s| - 1]) then
      var r := RStrip(s[..|s| - 1]);
      BlankTailExtend(s, s[..|s| - 1], r);
      r
    else s
  }

  /** A prefix of `s` minus its last, blank, character followed there by
      whitespace only is a prefix of `s` followed by whitespace only. */
  lemma BlankTailExtend(s: string, front: string, r: string)
    requires s != [] && IsSpace(s[|s| - 1]) && front == s[..|s| - 1]
    requires |r| <= |front| && r == front[..|r|]
    requires forall i :: |r| <= i < |front| ==> IsSpace(front[i])
    ensures r == s[..|r|]
    ensures forall i :: |r| <= i < |s| ==> IsSpace(s[i])
  {
    forall i | |r| <= i < |s| ensures IsSpace(s[i]) {
      if i < |s| - 1 { assert s[i] == front[i]; }
    }
  }

  /** `s.strip()`. */
  function Strip(s: string): (r: string)
    ensures r == [] || (!IsSpace(r[0]) && !IsSpace(r[|r| - 1]))
    ensures r == [] <==> IsBlank(s)
  {
    var l := LStrip(s);
    var r := RStrip(l);
    assert r == [] ==> IsBlank(s) by {
      if r == [] {
        forall i | 0 <= i < |s| ensures IsSpace(s[i]) {
          if i >= |s| - |l| { assert s[i] == l[i - (|s| - |l|)]; }
        }
      }
    }
    r
  }

  /** What `strip` keeps is one contiguous piece of its input, so nothing
      inside the string is touched. */
  lemma StripIsSlice(s: string) returns (lo: nat, hi: nat)
    ensures lo <= hi <= |s| && Strip(s) == s[lo..hi]
    ensures forall i :: 0 <= i < lo ==> IsSpace(s[i])
    ensures forall i :: hi <= i < |s| ==> IsSpace(s[i])
  {
    var l := LStrip(s);
    var r := RStrip(l);
    lo := |s| - |l|;
    hi := lo + |r|;
    assert Strip(s) == r;
    assert l == s[lo..];
    assert r == s[lo..hi] by {
      assert r == l[..|r|];
    }
    BlankTailShift(s, lo, l, |r|);
  }

  /** Whitespace at the end of a suffix of `s` is whitespace at the end of
      `s`. */
  lemma BlankTailShift(s: string, lo: nat, l: string, m: nat)
    requires lo <= |s| && l == s[lo..] && m <= |l|
    requires forall i :: m <= i < |l| ==> IsSpace(l[i])
    ensures forall i :: lo + m <= i < |s| ==> IsSpace(s[i])
  {
    forall i | lo + m <= i < |s| ensures IsSpace(s[i]) {
      assert s[i] == l[i - lo];
    }
  }

  /** Whether a line survives the `if ln.strip()` filter does not depend on
      trailing whitespace, and `rstrip` never empties a non-blank line. */
  lemma RStripKeepsBlankness(s: string)
    ensures IsBlank(RStrip(s)) <==> IsBlank(s)
  {
    var r := RStrip(s);
    if IsBlank(r) {
      forall i | 0 <= i < |s| ensures IsSpace(s[i]) {
        if i < |r| { assert s[i] == r[i]; }
      }
    }
  }

  lemma {:induction false} LStripBlankTail(x: string, w: string)
    requires IsBlank(w) && !IsBlank(x)
    ensures LStrip(x + w) == LStrip(x) + w
    decreases |x|
  {
    assert (x + w)[0] == x[0];
    if IsSpace(x[0]) {
      assert (x + w)[1..] == x[1..] + w;
      assert !IsBlank(x[1..]) by {
        if IsBlank(x[1..]) {
          forall i | 0 <= i < |x| ensures IsSpace(x[i]) { if i > 0 { assert x[i] == x[1..][i - 1]; } }
        }
      }
      LStripBlankTail(x[1..], w);
    }
  }

  lemma {:induction false} RStripBlankTail(x: string, w: string)
    requires IsBlank(w)
    ensures RStrip(x + w) == RStrip(x)
    decreases |w|
  {
    if w == [] {
      assert x + w == x;
    } else {
      assert (x + w)[..|x + w| - 1] == x + w[..|w| - 1];
      RStripBlankTail(x, w[..|w| - 1]);
    }
  }

  /** Trailing whitespace never reaches the result of `strip`. */
  lemma StripIgnoresBlankTail(x: string, w: string)
    requires IsBlank(w)
    ensures Strip(x + w) == Strip(x)
  {
    if IsBlank(x) {
      assert IsBlank(x + w) by {
        forall i | 0 <= i < |x + w| ensures IsSpace((x + w)[i]) {
          if i >= |x| { assert (x + w)[i] == w[i - |x|]; }
        }
      }
    } else {
      LStripBlankTail(x, w);
      RStripBlankTail(LStrip(x), w);
    }
  }

  /** `strip` leaves an already trimmed string as it is. */
  lemma StripTrimmed(s: string)
    requires s == [] || (!IsSpace(s[0]) && !IsSpace(s[|s| - 1]))
    ensures Strip(s) == s
  {
  }

  // ---------------------------------------------------------------------
  // `splitlines`
  // ---------------------------------------------------------------------

  /** The line boundaries recognised by `str.splitlines()`. */
  predicate IsLineBreak(c: char) {
    c == '\n' || c == '\r' || c == '\U{b}' || c == '\U{c}'
    || ('\U{1c}' <= c <= '\U{1e}') || c == '\U{85}' || c == '\U{2028}' || c == '\U{2029}'
  }

  predicate NoLineBreak(s: string) {
    forall i :: 0 <= i < |s| ==> !IsLineBreak(s[i])
  }

  /** The index of the first line boundary at or after `i`, or `|s|`. */
  function BreakIndex(s: string, i: nat): (k: nat)
    requires i <= |s|
    ensures i <= k <= |s|
    ensures forall j :: i <= j < k ==> !IsLineBreak(s[j])
    ensures k < |s| ==> IsLineBreak(s[k])
    decreases |s| - i
  {
    if i == |s| || IsLineBreak(s[i]) then i else BreakIndex(s, i + 1)
  }

  /** `s.splitlines()`: pieces between boundaries, `\r\n` counting as one
      boundary; a final boundary does not open an empty last line. */
  function SplitLines(s: string): (lines: seq<string>)
    ensures forall k :: 0 <= k < |lines| ==> NoLineBreak(lines[k])
    decreases |s|
  {
    if s == [] then []
    else
      var k := BreakIndex(s, 0);
      if k == |s| then [s]
      else
        var next := if s[k] == '\r' && k + 1 < |s| && s[k + 1] == '\n' then k + 2 else k + 1;
        [s[..k]] + SplitLines(s[next..])
  }

  /** `[ln for ln in lines if ln.strip()]`: the non-blank lines, in order. */
  function NonBlank(lines: seq<string>): (kept: seq<string>)
    ensures forall k :: 0 <= k < |kept| ==> !IsBlank(kept[k])
    ensures forall x :: x in lines && !IsBlank(x) <==> x in kept
    ensures IsSubsequence(kept, lines)
  {
    if lines == [] then []
    else
      var front := lines[..|lines| - 1];
      var last := lines[|lines| - 1];
      assert lines == front + [last];
      var kept := NonBlank(front) + (if IsBlank(last) then [] else [last]);
      assert forall x :: x in lines <==> x in front || x == last;
      if IsBlank(last) then
        assert kept == NonBlank(front);
        SubsequenceAppend(NonBlank(front), front, [last]);
        kept
      else
        SubsequenceSnoc(NonBlank(front), front, last);
        kept
  }

  /** `[ln.rstrip() for ln in text.splitlines() if ln.strip()]`: the lines
      the analyser and the classifier number and report. */
  function RawLines(text: string): (raw: seq<string>)
    ensures forall k :: 0 <= k < |raw| ==> !IsBlank(raw[k]) && !IsSpace(raw[k][|raw[k]| - 1])
  {
    var kept := NonBlank(SplitLines(text));
    forall k | 0 <= k < |kept| ensures !IsBlank(RStrip(kept[k])) {
      RStripKeepsBlankness(kept[k]);
    }
    MapSeq(RStrip, kept)
  }

  /** Each non-blank line is kept as often as it occurs, and blank lines
      not at all. */
  lemma {:induction false} NonBlankCounts(lines: seq<string>, x: string)
    ensures multiset(NonBlank(lines))[x] == if IsBlank(x) then 0 else multiset(lines)[x]
  {
    if lines != [] {
      var front := lines[..|lines| - 1];
      var last := lines[|lines| - 1];
      assert lines == front + [last];
      NonBlankCounts(front, x);
      assert multiset(lines) == multiset(front) + multiset{last};
      assert NonBlank(lines) == NonBlank(front) + (if IsBlank(last) then [] else [last]);
    }
  }

  /** The reported lines are the right-stripped non-blank lines of the
      text, in text order, one per non-blank line. */
  lemma RawLinesSpec(text: string, x: string)
    ensures var lines := SplitLines(text);
      && (x in RawLines(text) <==> exists j :: 0 <= j < |lines| && !IsBlank(lines[j]) && x == RStrip(lines[j]))
      && IsSubsequence(RawLines(text), MapSeq(RStrip, lines))
      && |RawLines(text)| == |NonBlank(lines)|
  {
    var lines := SplitLines(text);
    var kept := NonBlank(lines);
    assert RawLines(text) == MapSeq(RStrip, kept);
    MapSubsequence(RStrip, kept, lines);
    MapOfKept(RStrip, (s: string) => !IsBlank(s), kept, lines, x);
  }

  /** Each line followed by `"\n"`, as a file written line by line. */
  function JoinLines(lines: seq<string>): string {
    if lines == [] then [] else lines[0] + "\n" + JoinLines(lines[1..])
  }

  /** `splitlines` recovers the lines of a newline-terminated text. */
  lemma {:induction false} SplitJoinLines(lines: seq<string>)
    requires forall k :: 0 <= k < |lines| ==> NoLineBreak(lines[k])
    ensures SplitLines(JoinLines(lines)) == lines
  {
    if lines != [] {
      FirstLineSplits(lines[0], JoinLines(lines[1..]));
      SplitJoinLines(lines[1..]);
    }
  }

  /** A first line without a boundary, ended by `"\n"`, is split off whole. */
  lemma FirstLineSplits(head: string, rest: string)
    requires NoLineBreak(head)
    ensures SplitLines(head + "\n" + rest) == [head] + SplitLines(rest)
  {
    var s := head + "\n" + rest;
    forall j | 0 <= j < |head| ensures !IsLineBreak(s[j]) { assert s[j] == head[j]; }
    BreakIndexIsFirst(s, 0, |head|);
    SplitLinesAtNewline(s, |head|);
    assert s[..|head|] == head;
    assert s[|head| + 1..] == rest;
  }

  /** A `"\n"` ending the first line splits it off. */
  lemma SplitLinesAtNewline(s: string, k: nat)
    requires k < |s| && s[k] == '\n' && BreakIndex(s, 0) == k
    ensures SplitLines(s) == [s[..k]] + SplitLines(s[k + 1..])
  {
  }

  lemma {:induction false} BreakIndexIsFirst(s: string, i: nat, k: nat)
    requires i <= k < |s| && IsLineBreak(s[k])
    requires forall j :: i <= j < k ==> !IsLineBreak(s[j])
    ensures BreakIndex(s, i) == k
    decreases k - i
  {
    if i < k { BreakIndexIsFirst(s, i + 1, k); }
  }

  // ---------------------------------------------------------------------
  // `split(",")`
  // ---------------------------------------------------------------------

  /** The index of the first `sep` in `s`, or `|s|`. */
  function IndexOf(s: string, sep: char): (k: nat)
    ensures k <= |s| && sep !in s[..k]
    ensures k < |s| ==> s[k] == sep
  {
    if s == [] then 0
    else if s[0] == sep then 0
    else
      var k := IndexOf(s[1..], sep);
      assert s[..k + 1] == [s[0]] + s[1..][..k];
      k + 1
  }

  /** `s.split(sep)` for a single-character separator. */
  function Split(s: string, sep: char): (fields: seq<string>)
    ensures |fields| >= 1
    ensures forall k :: 0 <= k < |fields| ==> sep !in fields[k]
    decreases |s|
  {
    var k := IndexOf(s, sep);
    if k == |s| then [s] else [s[..k]] + Split(s[k + 1..], sep)
  }

  /** `sep.join(fields)`. */
  function Join(fields: seq<string>, sep: char): string
    requires |fields| >= 1
  {
    if |fields| == 1 then fields[0] else fields[0] + [sep] + Join(fields[1..], sep)
  }

  /** Splitting loses nothing: joining the fields back gives the input. */
  lemma {:induction false} JoinSplit(s: string, sep: char)
    ensures Join(Split(s, sep), sep) == s
    decreases |s|
  {
    var k := IndexOf(s, sep);
    if k < |s| {
      var rest := Split(s[k + 1..], sep);
      JoinSplit(s[k + 1..], sep);
      assert Split(s, sep) == [s[..k]] + rest;
      assert Join([s[..k]] + rest, sep) == s[..k] + [sep] + Join(rest, sep) by {
        assert ([s[..k]] + rest)[1..] == rest;
      }
      assert s == s[..k] + [sep] + s[k + 1..];
    } else {
      assert Split(s, sep) == [s];
    }
  }

  /** There is a second field exactly when the separator occurs, and the
      first field is the text before its first occurrence. */
  lemma SplitFirstFields(s: string, sep: char)
    ensures |Split(s, sep)| >= 2 <==> sep in s
    ensures Split(s, sep)[0] == s[..IndexOf(s, sep)]
  {
    var k := IndexOf(s, sep);
    if k == |s| { assert s[..k] == s; }
  }

  // ---------------------------------------------------------------------
  // Decimal digits
  // ---------------------------------------------------------------------

  predicate IsDigit(c: char) {
    '0' <= c <= '9'
  }

  function DigitChar(d: nat): (c: char)
    requires d < 10
    ensures IsDigit(c)
  {
    ('0' as int + d) as char
  }

  /** `str(n)` for a natural number. */
  function Decimal(n: nat): (r: string)
    ensures |r| >= 1 && forall i :: 0 <= i < |r| ==> IsDigit(r[i])
    ensures r[0] == '0' ==> n == 0
  {
    if n < 10 then [DigitChar(n)] else Decimal(n / 10) + [DigitChar(n % 10)]
  }

  // ---------------------------------------------------------------------
  // Code-point order of strings (Python `<` on `str`)
  // ---------------------------------------------------------------------

  predicate LexLess(a: string, b: string)
    decreases |a|
  {
    if a == [] then b != []
    else b != [] && (a[0] < b[0] || (a[0] == b[0] && LexLess(a[1..], b[1..])))
  }

  predicate LexLe(a: string, b: string) {
    a == b || LexLess(a, b)
  }

  lemma {:induction false} LexLessIrreflexive(a: string)
    ensures !LexLess(a, a)
  {
    if a != [] { LexLessIrreflexive(a[1..]); }
  }

  lemma {:induction false} LexLessTransitive(a: string, b: string, c: string)
    requires LexLess(a, b) && LexLess(b, c)
    ensures LexLess(a, c)
    decreases |a|
  {
    if a != [] && a[0] == b[0] && b[0] == c[0] {
      LexLessTransitive(a[1..], b[1..], c[1..]);
    }
  }

  lemma {:induction false} LexTotal(a: string, b: string)
    ensures LexLess(a, b) || a == b || LexLess(b, a)
    decreases |a|
  {
    if a != [] && b != [] && a[0] == b[0] {
      LexTotal(a[1..], b[1..]);
      if a[1..] == b[1..] { assert a == [a[0]] + a[1..]; assert b == [b[0]] + b[1..]; }
    }
  }

  lemma LexLessAsymmetric(a: string, b: string)
    requires LexLess(a, b)
    ensures !LexLess(b, a) && a != b
  {
    LexLessIrreflexive(a);
    if LexLess(b, a) { LexLessTransitive(a, b, a); }
  }

  /** Comparing two strings that start with pieces of equal length: the
      first pieces decide unless they are equal. */
  lemma {:induction false} LexLessAppend(p1: string, q1: string, p2: string, q2: string)
    requires |p1| == |p2|
    ensures LexLess(p1 + q1, p2 + q2) <==> LexLess(p1, p2) || (p1 == p2 && LexLess(q1, q2))
    decreases |p1|
  {
    if p1 == [] {
      assert p1 + q1 == q1 && p2 + q2 == q2;
    } else {
      assert (p1 + q1)[0] == p1[0] && (p2 + q2)[0] == p2[0];
      assert (p1 + q1)[1..] == p1[1..] + q1;
      assert (p2 + q2)[1..] == p2[1..] + q2;
      LexLessAppend(p1[1..], q1, p2[1..], q2);
      if p1[0] == p2[0] && p1[1..] == p2[1..] {
        assert p1 == [p1[0]] + p1[1..] && p2 == [p2[0]] + p2[1..];
      }
    }
  }

  /** `max(names, default=None)` and `sorted(names)[-1]`: the greatest name
      in code-point order, `None` for no names. */
  function Greatest(names: seq<string>): (r: Option<string>)
    ensures r.None? <==> names == []
    ensures r.Some? ==> r.value in names && forall n :: n in names ==> LexLe(n, r.value)
  {
    if names == [] then None
    else
      var last := names[|names| - 1];
      var front := names[..|names| - 1];
      assert forall n :: n in names ==> n in front || n == last;
      match Greatest(front)
      case None => Some(last)
      case Some(g) =>
        LexTotal(g, last);
        if LexLess(g, last) then
          assert forall n :: n in front ==> LexLe(n, last) by {
            forall n | n in front ensures LexLe(n, last) {
              if n != g { LexLessTransitive(n, g, last); }
            }
          }
          Some(last)
        else
          Some(g)
  }

  predicate SortedLex(s: seq<string>) {
    forall i, j :: 0 <= i < j < |s| ==> LexLe(s[i], s[j])
  }

  lemma LexLeTransitive(a: string, b: string, c: string)
    requires LexLe(a, b) && LexLe(b, c)
    ensures LexLe(a, c)
  {
    if a != b && b != c { LexLessTransitive(a, b, c); }
  }

  /** Inserts `x` into an already sorted list, after the elements not
      greater than it. */
  function Insert(x: string, s: seq<string>): (r: seq<string>)
    requires SortedLex(s)
    ensures SortedLex(r) && multiset(r) == multiset(s) + multiset{x}
  {
    if s == [] then [x]
    else if LexLe(x, s[0]) then
      assert forall j :: 0 <= j < |s| ==> LexLe(x, s[j]) by {
        forall j | 0 <= j < |s| ensures LexLe(x, s[j]) {
          if j > 0 { LexLeTransitive(x, s[0], s[j]); }
        }
      }
      [x] + s
    else
      var rest := Insert(x, s[1..]);
      assert s == [s[0]] + s[1..];
      LexTotal(x, s[0]);
      assert forall j :: 0 <= j < |rest| ==> LexLe(s[0], rest[j]) by {
        forall j | 0 <= j < |rest| ensures LexLe(s[0], rest[j]) {
          assert rest[j] in multiset(rest);
          assert rest[j] == x || rest[j] in s[1..];
        }
      }
      [s[0]] + rest
  }

  /** `sorted(names)`: the names in code-point order. */
  function Sort(names: seq<string>): (r: seq<string>)
    ensures SortedLex(r) && multiset(r) == multiset(names)
  {
    if names == [] then []
    else
      assert names == [names[0]] + names[1..];
      Insert(names[0], Sort(names[1..]))
  }

  /** Sorting a duplicate-free list gives a strictly increasing list of the
      same names. */
  lemma SortDistinct(names: seq<string>)
    requires Distinct(names)
    ensures forall x :: x in Sort(names) <==> x in names
    ensures forall i, j :: 0 <= i < j < |Sort(names)| ==> LexLess(Sort(names)[i], Sort(names)[j])
  {
    var r := Sort(names);
    forall x ensures x in r <==> x in names {
      assert x in r <==> x in multiset(r);
      assert x in names <==> x in multiset(names);
    }
    forall i, j | 0 <= i < j < |r| ensures LexLess(r[i], r[j]) {
      if r[i] == r[j] {
        RepeatMultiplicity(r, i, j);
        DistinctMultiplicity(names, r[i]);
      }
    }
  }

  /** `sorted(names)[-1]` is `max(names)`. */
  lemma SortedLastIsGreatest(names: seq<string>)
    requires names != []
    ensures |Sort(names)| == |names|
    ensures Sort(names)[|names| - 1] == Greatest(names).value
  {
    var r := Sort(names);
    assert |r| == |multiset(r)| == |multiset(names)| == |names|;
    var last := r[|r| - 1];
    assert last in multiset(names);
    forall n | n in names ensures LexLe(n, last) {
      assert n in multiset(r);
      var k :| 0 <= k < |r| && r[k] == n;
    }
    GreatestIsUnique(names, last, Greatest(names).value);
  }

  // ---------------------------------------------------------------------
  // Glob patterns with one star
  // ---------------------------------------------------------------------

  /** `fnmatch(name, prefix + "*" + suffix)`. */
  predicate StarMatch(name: string, prefix: string, suffix: string) {
    |name| >= |prefix| + |suffix| && name[..|prefix|] == prefix && name[|name| - |suffix|..] == suffix
  }

  /** The names of a directory listing that match `prefix*suffix`, in
      listing order. */
  function Glob(files: seq<string>, prefix: string, suffix: string): (r: seq<string>)
    ensures forall n :: n in r <==> n in files && StarMatch(n, prefix, suffix)
  {
    if files == [] then []
    else
      var front := files[..|files| - 1];
      var last := files[|files| - 1];
      assert forall n :: n in files <==> n in front || n == last;
      Glob(front, prefix, suffix) + (if StarMatch(last, prefix, suffix) then [last] else [])
  }

  /** Only one name can be greatest: the selection does not depend on how
      ties or the listing order are resolved. */
  lemma GreatestIsUnique(names: seq<string>, a: string, b: string)
    requires a in names && forall n :: n in names ==> LexLe(n, a)
    requires b in names && forall n :: n in names ==> LexLe(n, b)
    ensures a == b
  {
    if a != b {
      assert LexLess(a, b) && LexLess(b, a);
      LexLessAsymmetric(a, b);
    }
  }
}
