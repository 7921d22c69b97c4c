/** The line normaliser `clean_line` (app/service/preprocess.py): three
    regular-expression deletions applied in sequence, then `lower()` and
    `strip()`. Each `re.sub(pattern, "", s)` is modelled as Python performs
    it: a left-to-right scan of the ORIGINAL string that, at each position,
    either deletes the match starting there and resumes after it, or keeps
    the character and moves on. Word boundaries are judged on the original
    string, so a deletion never creates a boundary for the same pass. */
module Preprocess {
  import opened Strings
  import opened Regex
  import opened Collections

  /** The three volatile-token patterns, in the order they are applied:
      `_TS_RE`, `_HEX_RE`, `_NUM_RE`. */
  datatype Volatile = Timestamp | Hex | Number

  predicate DigitsAt(s: string, i: nat, n: nat) {
    i + n <= |s| && forall k :: i <= k < i + n ==> IsDigit(s[k])
  }

  /** `\b\d{2}:\d{2}:\d{2}\b` matches at `i`. */
  predicate ClockAt(s: string, i: nat) {
    i + 8 <= |s| && WordBoundary(s, i)
    && DigitsAt(s, i, 2) && s[i + 2] == ':' && DigitsAt(s, i + 3, 2) && s[i + 5] == ':'
    && DigitsAt(s, i + 6, 2) && WordBoundary(s, i + 8)
  }

  /** `\b\d{4}-\d{2}-\d{2}\b` matches at `i`. */
  predicate DateAt(s: string, i: nat) {
    i + 10 <= |s| && WordBoundary(s, i)
    && DigitsAt(s, i, 4) && s[i + 4] == '-' && DigitsAt(s, i + 5, 2) && s[i + 7] == '-'
    && DigitsAt(s, i + 8, 2) && WordBoundary(s, i + 10)
  }

  /** Length of the longest run of `cls` characters starting at `i`. */
  function Run(s: string, i: nat, cls: char -> bool): (n: nat)
    requires i <= |s|
    ensures i + n <= |s|
    ensures forall k :: i <= k < i + n ==> cls(s[k])
    ensures i + n < |s| ==> !cls(s[i + n])
    decreases |s| - i
  {
    if i < |s| && cls(s[i]) then 1 + Run(s, i + 1, cls) else 0
  }

  /** Length of the match of `p` that the scan finds at position `i`, or 0.
      `0x[0-9a-fA-F]+` is greedy with nothing after it, so it takes the whole
      hex run. For `\b\d+\b` the greedy digit run is the only candidate: a
      shorter run would end between two digits, where there is no boundary. */
  function MatchLen(p: Volatile, s: string, i: nat): (n: nat)
    requires i <= |s|
    ensures i + n <= |s|
  {
    match p
    case Timestamp =>
      if ClockAt(s, i) then 8 else if DateAt(s, i) then 10 else 0
    case Hex =>
      if i + 2 <= |s| && s[i] == '0' && s[i + 1] == 'x' && Run(s, i + 2, IsHexDigit) > 0
      then 2 + Run(s, i + 2, IsHexDigit) else 0
    case Number =>
      var n := Run(s, i, IsDigit);
      if n > 0 && WordBoundary(s, i) && WordBoundary(s, i + n) then n else 0
  }

  /** Every match a scan can take stays inside the string. */
  predicate Fits(s: string, m: seq<nat>) {
    |m| == |s| && forall j :: 0 <= j < |m| ==> j + m[j] <= |s|
  }

  /** `re.sub(pattern, "", s)` from position `i` of the scan on, for a pattern
      whose match at each position `j` has length `m[j]` (0 for none): a
      match is deleted and the scan resumes after it, otherwise the character
      is kept. */
  function Sub(s: string, m: seq<nat>, i: nat): string
    requires Fits(s, m) && i <= |s|
    decreases |s| - i
  {
    if i == |s| then []
    else if m[i] > 0 then Sub(s, m, i + m[i]) else [s[i]] + Sub(s, m, i + 1)
  }

  /** The length of the match of `p` at every position of `s`. */
  function Matches(p: Volatile, s: string): (m: seq<nat>)
    ensures Fits(s, m)
  {
    seq(|s|, j requires 0 <= j < |s| => MatchLen(p, s, j))
  }

  /** Position `j` of `Matches(p, s)` holds the match of `p` at `j`. */
  lemma MatchesAt(p: Volatile, s: string, j: nat)
    requires j < |s|
    ensures Matches(p, s)[j] == MatchLen(p, s, j)
  {
  }

  /** `p.sub("", s)` from position `i` of the scan on. */
  function Remove(p: Volatile, s: string, i: nat): string
    requires i <= |s|
  {
    Sub(s, Matches(p, s), i)
  }

  /** One step of the scan. */
  lemma RemoveStep(p: Volatile, s: string, i: nat)
    requires i < |s|
    ensures MatchLen(p, s, i) > 0 ==> Remove(p, s, i) == Remove(p, s, i + MatchLen(p, s, i))
    ensures MatchLen(p, s, i) == 0 ==> Remove(p, s, i) == [s[i]] + Remove(p, s, i + 1)
  {
    MatchesAt(p, s, i);
  }

  /** The three deletions, before case folding and trimming. */
  function Scrub(line: string): string {
    Remove(Number, Remove(Hex, Remove(Timestamp, line, 0), 0), 0)
  }

  /** `clean_line(line)`. */
  function CleanLine(line: string): string {
    Strip(Lower(Scrub(line)))
  }

  // ---------------------------------------------------------------------
  // Shape of the result
  // ---------------------------------------------------------------------

  /** The normal form never starts or ends with whitespace. */
  lemma CleanLineIsTrimmed(line: string)
    ensures var r := CleanLine(line); r == [] || (!IsSpace(r[0]) && !IsSpace(r[|r| - 1]))
  {
  }

  /** The normal form holds no upper-case letter. */
  lemma CleanLineIsLowerCase(line: string)
    ensures forall i :: 0 <= i < |CleanLine(line)| ==> !IsUpper(CleanLine(line)[i])
  {
    FoldedIsLowerCase(Scrub(line));
  }

  /** Case folding then trimming leaves no upper-case letter. */
  lemma FoldedIsLowerCase(d: string)
    ensures forall i :: 0 <= i < |Strip(Lower(d))| ==> !IsUpper(Strip(Lower(d))[i])
  {
    var lo, hi := StripIsSlice(Lower(d));
  }

  /** A scan only deletes: its output is a subsequence of its input. */
  lemma {:induction false} SubDeletesOnly(s: string, m: seq<nat>, i: nat)
    requires Fits(s, m) && i <= |s|
    ensures IsSubsequence(Sub(s, m, i), s[i..])
    decreases |s| - i
  {
    if i < |s| {
      if m[i] > 0 {
        var n := m[i];
        SubDeletesOnly(s, m, i + n);
        SubsequencePrepend(Sub(s, m, i + n), s[i..i + n], s[i + n..]);
        assert s[i..i + n] + s[i + n..] == s[i..];
      } else {
        SubDeletesOnly(s, m, i + 1);
        SubsequenceCons(s[i], Sub(s, m, i + 1), s[i + 1..]);
        assert [s[i]] + s[i + 1..] == s[i..];
      }
    }
  }

  /** A deletion pass only deletes: its output is a subsequence of its input. */
  lemma RemoveDeletesOnly(p: Volatile, s: string, i: nat)
    requires i <= |s|
    ensures IsSubsequence(Remove(p, s, i), s[i..])
  {
    SubDeletesOnly(s, Matches(p, s), i);
  }

  /** Only deletions happen before case folding and trimming: the normal form
      is a subsequence of the lower-cased input, so it is never longer. */
  lemma CleanLineIsSubsequence(line: string)
    ensures IsSubsequence(CleanLine(line), Lower(line))
    ensures |CleanLine(line)| <= |line|
  {
    var t := Remove(Timestamp, line, 0);
    var h := Remove(Hex, t, 0);
    var d := Remove(Number, h, 0);
    RemoveDeletesOnly(Timestamp, line, 0);
    RemoveDeletesOnly(Hex, t, 0);
    RemoveDeletesOnly(Number, h, 0);
    assert line[0..] == line && t[0..] == t && h[0..] == h;
    SubsequenceTransitive(d, h, t);
    SubsequenceTransitive(d, t, line);
    SubsequenceMap(LowerChar, d, line);
    var lo, hi := StripIsSlice(Lower(d));
    SliceIsSubsequence(Lower(d), lo, hi);
    SubsequenceTransitive(CleanLine(line), Lower(d), Lower(line));
    SubsequenceLength(CleanLine(line), Lower(line));
  }

  // ---------------------------------------------------------------------
  // Digit runs: a reference definition of what `\b\d+\b` deletes
  // ---------------------------------------------------------------------

  /** Start of the maximal digit run that contains position `j`. */
  function RunStart(s: string, j: nat): (a: nat)
    requires j < |s|
    ensures a <= j
    ensures IsDigit(s[j]) ==> a == 0 || !IsDigit(s[a - 1])
    ensures IsDigit(s[j]) ==> forall k :: a <= k <= j ==> IsDigit(s[k])
  {
    if j > 0 && IsDigit(s[j]) && IsDigit(s[j - 1]) then RunStart(s, j - 1) else j
  }

  /** Position `j` lies in a digit run with a non-word character (or the end
      of the line) on both sides. */
  predicate Standalone(s: string, j: nat)
    requires j < |s|
  {
    var a := RunStart(s, j);
    var b := j + Run(s, j, IsDigit);
    IsDigit(s[j]) && (a == 0 || !IsWordChar(s[a - 1])) && (b == |s| || !IsWordChar(s[b]))
  }

  /** The characters of `s[i..]` that are not in a standalone digit run. */
  function KeepNonStandalone(s: string, i: nat): string
    requires i <= |s|
    decreases |s| - i
  {
    if i == |s| then [] else (if Standalone(s, i) then [] else [s[i]]) + KeepNonStandalone(s, i + 1)
  }

  /** Two adjacent digits belong to the same run. */
  lemma SameRun(s: string, j: nat)
    requires j + 1 < |s| && IsDigit(s[j]) && IsDigit(s[j + 1])
    ensures RunStart(s, j + 1) == RunStart(s, j)
    ensures j + Run(s, j, IsDigit) == j + 1 + Run(s, j + 1, IsDigit)
  {
  }

  /** A run matched by `\b\d+\b` is deleted by the reference definition too. */
  lemma {:induction false} SkipStandaloneRun(s: string, i: nat, j: nat)
    requires i <= j <= |s|
    requires j <= i + Run(s, i, IsDigit)
    requires forall k :: j <= k < i + Run(s, i, IsDigit) ==> Standalone(s, k)
    ensures KeepNonStandalone(s, j) == KeepNonStandalone(s, i + Run(s, i, IsDigit))
    decreases i + Run(s, i, IsDigit) - j
  {
    if j < i + Run(s, i, IsDigit) {
      SkipStandaloneRun(s, i, j + 1);
    }
  }

  /** All positions of a matched run are standalone. */
  lemma {:induction false} MatchedRunIsStandalone(s: string, i: nat, j: nat)
    requires i < |s| && MatchLen(Number, s, i) > 0
    requires i <= j < i + MatchLen(Number, s, i)
    ensures RunStart(s, j) == i && j + Run(s, j, IsDigit) == i + Run(s, i, IsDigit)
    ensures Standalone(s, j)
    decreases j - i
  {
    if j > i {
      MatchedRunIsStandalone(s, i, j - 1);
      SameRun(s, j - 1);
    }
  }

  /** The scan never stops in the middle of a standalone run. */
  predicate ScanPoint(s: string, i: nat)
    requires i <= |s|
  {
    i == 0 || i == |s| || !IsDigit(s[i - 1]) || !Standalone(s, i)
  }

  /** Where the scan finds no match, the character is not standalone. */
  lemma NoMatchNotStandalone(s: string, i: nat)
    requires i < |s| && ScanPoint(s, i) && MatchLen(Number, s, i) == 0
    ensures !Standalone(s, i)
  {
    if Standalone(s, i) {
      assert RunStart(s, i) == i;
      var n := Run(s, i, IsDigit);
      assert IsWordChar(s[i + n - 1]);
      assert WordBoundary(s, i) && WordBoundary(s, i + n);
      assert false;
    }
  }

  /** Where the scan keeps one character it moves on to a scan point. */
  lemma NextScanPoint(s: string, i: nat)
    requires i < |s| && ScanPoint(s, i) && MatchLen(Number, s, i) == 0
    ensures ScanPoint(s, i + 1)
  {
    NoMatchNotStandalone(s, i);
    if i + 1 < |s| && IsDigit(s[i]) && IsDigit(s[i + 1]) {
      SameRun(s, i);
    }
  }

  lemma {:induction false} RemoveNumberFrom(s: string, i: nat)
    requires i <= |s| && ScanPoint(s, i)
    ensures Remove(Number, s, i) == KeepNonStandalone(s, i)
    decreases |s| - i, 1
  {
    if i < |s| {
      if MatchLen(Number, s, i) > 0 {
        RemoveNumberSkip(s, i);
      } else {
        RemoveNumberKeep(s, i);
      }
    }
  }

  /** The reference definition drops a matched run as a whole, and the scan
      resumes at a scan point. */
  lemma KeepSkipsMatchedRun(s: string, i: nat)
    requires i < |s| && MatchLen(Number, s, i) > 0
    ensures KeepNonStandalone(s, i) == KeepNonStandalone(s, i + MatchLen(Number, s, i))
    ensures ScanPoint(s, i + MatchLen(Number, s, i))
  {
    var n := MatchLen(Number, s, i);
    forall k | i <= k < i + n ensures Standalone(s, k) {
      MatchedRunIsStandalone(s, i, k);
    }
    SkipStandaloneRun(s, i, i);
  }

  /** A matched run is deleted by both definitions. */
  lemma {:induction false} RemoveNumberSkip(s: string, i: nat)
    requires i < |s| && ScanPoint(s, i) && MatchLen(Number, s, i) > 0
    ensures Remove(Number, s, i) == KeepNonStandalone(s, i)
    decreases |s| - i, 0
  {
    var n := MatchLen(Number, s, i);
    RemoveStep(Number, s, i);
    KeepSkipsMatchedRun(s, i);
    RemoveNumberFrom(s, i + n);
  }

  /** A character the scan keeps is kept by the reference definition. */
  lemma {:induction false} RemoveNumberKeep(s: string, i: nat)
    requires i < |s| && ScanPoint(s, i) && MatchLen(Number, s, i) == 0
    ensures Remove(Number, s, i) == KeepNonStandalone(s, i)
    decreases |s| - i, 0
  {
    RemoveStep(Number, s, i);
    NoMatchNotStandalone(s, i);
    assert KeepNonStandalone(s, i) == [s[i]] + KeepNonStandalone(s, i + 1);
    NextScanPoint(s, i);
    RemoveNumberFrom(s, i + 1);
  }

  /** `_NUM_RE` deletes exactly the digits whose whole digit run is bounded by
      non-word characters or the ends of the line; a digit run that touches a
      letter or an underscore (`v2`, `abc123`, `12ab`) is kept whole. */
  lemma NumberPassSpec(s: string)
    ensures Remove(Number, s, 0) == KeepNonStandalone(s, 0)
  {
    RemoveNumberFrom(s, 0);
  }

  // ---------------------------------------------------------------------
  // Locality: a separator splits a line into independent pieces
  // ---------------------------------------------------------------------

  /** A character that none of the three patterns can match or look through:
      not a word character, not `:` and not `-`. Whitespace is inert. */
  predicate Inert(c: char) {
    !IsWordChar(c) && c != ':' && c != '-'
  }

  lemma {:induction false} RunBeforeInert(a: string, c: char, b: string, i: nat, cls: char -> bool)
    requires i <= |a| && !cls(c)
    ensures Run(a + [c] + b, i, cls) == Run(a, i, cls)
    decreases |a| - i
  {
    var s := a + [c] + b;
    assert s[|a|] == c;
    if i < |a| {
      assert s[i] == a[i];
      RunBeforeInert(a, c, b, i + 1, cls);
    }
  }

  lemma {:induction false} RunAfterPrefix(x: string, b: string, k: nat, cls: char -> bool)
    requires k <= |b|
    ensures Run(x + b, |x| + k, cls) == Run(b, k, cls)
    decreases |b| - k
  {
    if k < |b| {
      assert (x + b)[|x| + k] == b[k];
      RunAfterPrefix(x, b, k + 1, cls);
    }
  }

  /** Word boundaries up to an inert separator are those of the part
      before it. */
  lemma BoundaryBeforeInert(a: string, c: char, b: string, k: nat)
    requires Inert(c) && k <= |a|
    ensures WordBoundary(a + [c] + b, k) == WordBoundary(a, k)
  {
    var s := a + [c] + b;
    if k < |a| { assert s[k] == a[k]; } else { assert s[k] == c; }
    if k > 0 { assert s[k - 1] == a[k - 1]; }
  }

  /** Word boundaries after an inert character are those of the rest alone. */
  lemma BoundaryAfterInert(x: string, b: string, k: nat)
    requires x != [] && Inert(x[|x| - 1]) && k <= |b|
    ensures WordBoundary(x + b, |x| + k) == WordBoundary(b, k)
  {
    var s := x + b;
    if k < |b| { assert s[|x| + k] == b[k]; }
    if k > 0 { assert s[|x| + k - 1] == b[k - 1]; } else { assert s[|x| - 1] == x[|x| - 1]; }
  }

  lemma TimestampBeforeInert(a: string, c: char, b: string, i: nat)
    requires i < |a| && Inert(c)
    ensures ClockAt(a + [c] + b, i) == ClockAt(a, i)
    ensures DateAt(a + [c] + b, i) == DateAt(a, i)
  {
    var s := a + [c] + b;
    assert s[|a|] == c;
    assert forall k :: 0 <= k < |a| ==> s[k] == a[k];
    BoundaryBeforeInert(a, c, b, i);
    if i + 8 <= |a| { BoundaryBeforeInert(a, c, b, i + 8); }
    else { assert !ClockAt(s, i) by { assert i <= |a| < i + 8; } }
    if i + 10 <= |a| { BoundaryBeforeInert(a, c, b, i + 10); }
    else { assert !DateAt(s, i) by { assert i <= |a| < i + 10; } }
  }

  /** A match that starts before an inert character ends before it. */
  lemma MatchBeforeInert(p: Volatile, a: string, c: char, b: string, i: nat)
    requires i < |a| && Inert(c)
    ensures MatchLen(p, a + [c] + b, i) == MatchLen(p, a, i)
  {
    var s := a + [c] + b;
    match p
    case Timestamp =>
      TimestampBeforeInert(a, c, b, i);
    case Hex =>
      assert s[i] == a[i];
      if i + 2 <= |a| {
        assert s[i + 1] == a[i + 1];
        RunBeforeInert(a, c, b, i + 2, IsHexDigit);
      } else {
        assert s[|a|] == c;
      }
    case Number =>
      RunBeforeInert(a, c, b, i, IsDigit);
      var n := Run(a, i, IsDigit);
      BoundaryBeforeInert(a, c, b, i);
      BoundaryBeforeInert(a, c, b, i + n);
  }

  lemma TimestampAfterInert(x: string, b: string, k: nat)
    requires x != [] && Inert(x[|x| - 1]) && k <= |b|
    ensures ClockAt(x + b, |x| + k) == ClockAt(b, k)
    ensures DateAt(x + b, |x| + k) == DateAt(b, k)
  {
    var s := x + b;
    assert forall j :: 0 <= j < |b| ==> s[|x| + j] == b[j];
    BoundaryAfterInert(x, b, k);
    if k + 8 <= |b| { BoundaryAfterInert(x, b, k + 8); }
    if k + 10 <= |b| { BoundaryAfterInert(x, b, k + 10); }
  }

  /** After an inert character the scan behaves as at the start of a line. */
  lemma MatchAfterInert(p: Volatile, x: string, b: string, k: nat)
    requires x != [] && Inert(x[|x| - 1]) && k <= |b|
    ensures MatchLen(p, x + b, |x| + k) == MatchLen(p, b, k)
  {
    var s := x + b;
    match p
    case Timestamp =>
      TimestampAfterInert(x, b, k);
    case Hex =>
      if k + 2 <= |b| {
        assert s[|x| + k] == b[k] && s[|x| + k + 1] == b[k + 1];
        RunAfterPrefix(x, b, k + 2, IsHexDigit);
      }
    case Number =>
      RunAfterPrefix(x, b, k, IsDigit);
      var n := Run(b, k, IsDigit);
      BoundaryAfterInert(x, b, k);
      BoundaryAfterInert(x, b, k + n);
  }

  /** The scan of `s` from `d + k` is the scan of `b` from `k` when `s` ends
      with `b` at offset `d` and the matches there agree. */
  lemma {:induction false} SubShifted(s: string, m: seq<nat>, b: string, mb: seq<nat>, d: nat, k: nat)
    requires Fits(s, m) && Fits(b, mb) && d <= |s| && k <= |b|
    requires s[d..] == b && m[d..] == mb
    ensures Sub(s, m, d + k) == Sub(b, mb, k)
    decreases |b| - k
  {
    if k < |b| {
      assert s[d + k] == s[d..][k] && m[d + k] == m[d..][k];
      if mb[k] > 0 {
        SubShifted(s, m, b, mb, d, k + mb[k]);
      } else {
        SubShifted(s, m, b, mb, d, k + 1);
      }
    }
  }

  /** A scan splits at `|a|` when `s` starts with `a` and the matches before
      `|a|` are those of `a` alone (so none of them reaches past it). */
  lemma {:induction false} SubPrefix(s: string, m: seq<nat>, a: string, ma: seq<nat>, i: nat)
    requires Fits(s, m) && Fits(a, ma) && |a| <= |s| && i <= |a|
    requires s[..|a|] == a && m[..|a|] == ma
    ensures Sub(s, m, i) == Sub(a, ma, i) + Sub(s, m, |a|)
    decreases |a| - i
  {
    if i < |a| {
      assert s[i] == s[..|a|][i] && m[i] == m[..|a|][i];
      if ma[i] > 0 {
        SubPrefix(s, m, a, ma, i + ma[i]);
      } else {
        SubPrefix(s, m, a, ma, i + 1);
        var x, y := Sub(a, ma, i + 1), Sub(s, m, |a|);
        assert [a[i]] + (x + y) == ([a[i]] + x) + y;
      }
    }
  }

  /** After an inert character the matches are those of the rest alone. */
  lemma MatchesAfterInert(p: Volatile, x: string, b: string)
    requires x != [] && Inert(x[|x| - 1])
    ensures Matches(p, x + b)[|x|..] == Matches(p, b)
  {
    var m, mb := Matches(p, x + b), Matches(p, b);
    forall j | 0 <= j < |b| ensures m[|x|..][j] == mb[j] {
      MatchAfterInert(p, x, b, j);
      MatchesAt(p, x + b, |x| + j);
      MatchesAt(p, b, j);
    }
  }

  /** After an inert character the scan goes on as on a line of its own. */
  lemma RemoveAfterInert(p: Volatile, x: string, b: string)
    requires x != [] && Inert(x[|x| - 1])
    ensures Remove(p, x + b, |x|) == Remove(p, b, 0)
  {
    MatchesAfterInert(p, x, b);
    assert (x + b)[|x|..] == b;
    SubShifted(x + b, Matches(p, x + b), b, Matches(p, b), |x|, 0);
  }

  /** No pattern can match at an inert character. */
  lemma InertNoMatch(p: Volatile, s: string, i: nat)
    requires i < |s| && Inert(s[i])
    ensures MatchLen(p, s, i) == 0
  {
    assert !IsDigit(s[i]) && s[i] != '0';
    if p == Number { assert Run(s, i, IsDigit) == 0; }
  }

  /** The scan reaches the separator: it is kept and the rest is scanned as a
      line of its own. */
  lemma RemoveAtInert(p: Volatile, a: string, c: char, b: string, s: string)
    requires s == a + [c] + b && Inert(c)
    ensures Remove(p, s, |a|) == [c] + Remove(p, b, 0)
  {
    assert s[|a|] == c;
    InertNoMatch(p, s, |a|);
    RemoveStep(p, s, |a|);
    assert s == (a + [c]) + b;
    RemoveAfterInert(p, a + [c], b);
  }

  /** Before an inert separator the matches are those of the part before
      it alone. */
  lemma MatchesBeforeInert(p: Volatile, a: string, c: char, b: string)
    requires Inert(c)
    ensures Matches(p, a + [c] + b)[..|a|] == Matches(p, a)
  {
    var m, ma := Matches(p, a + [c] + b), Matches(p, a);
    forall j | 0 <= j < |a| ensures m[..|a|][j] == ma[j] {
      MatchBeforeInert(p, a, c, b, j);
      MatchesAt(p, a + [c] + b, j);
      MatchesAt(p, a, j);
    }
  }

  /** Locality of every deletion pass: a separator (whitespace, punctuation
      other than `:` and `-`) is kept, and the two sides are cleaned as if
      they were separate lines. */
  lemma RemoveSplitsAtInert(p: Volatile, a: string, c: char, b: string)
    requires Inert(c)
    ensures Remove(p, a + [c] + b, 0) == Remove(p, a, 0) + [c] + Remove(p, b, 0)
  {
    var s := a + [c] + b;
    MatchesBeforeInert(p, a, c, b);
    assert s[..|a|] == a;
    SubPrefix(s, Matches(p, s), a, Matches(p, a), 0);
    RemoveAtInert(p, a, c, b, s);
  }

  /** A whole `HH:MM:SS` token between two separators is deleted and the
      separators stay, so inner whitespace is not collapsed. */
  lemma ClockTokenDeleted(a: string, c: char, t: string, d: char, b: string)
    requires Inert(c) && Inert(d)
    requires |t| == 8 && DigitsAt(t, 0, 2) && t[2] == ':' && DigitsAt(t, 3, 2) && t[5] == ':' && DigitsAt(t, 6, 2)
    ensures Remove(Timestamp, a + [c] + t + [d] + b, 0)
         == Remove(Timestamp, a, 0) + [c, d] + Remove(Timestamp, b, 0)
  {
    assert a + [c] + t + [d] + b == a + [c] + (t + [d] + b);
    RemoveSplitsAtInert(Timestamp, a, c, t + [d] + b);
    RemoveSplitsAtInert(Timestamp, t, d, b);
    assert ClockAt(t, 0);
    RemoveStep(Timestamp, t, 0);
  }

  /** A whole `YYYY-MM-DD` token between two separators is deleted. */
  lemma DateTokenDeleted(a: string, c: char, t: string, d: char, b: string)
    requires Inert(c) && Inert(d)
    requires |t| == 10 && DigitsAt(t, 0, 4) && t[4] == '-' && DigitsAt(t, 5, 2) && t[7] == '-' && DigitsAt(t, 8, 2)
    ensures Remove(Timestamp, a + [c] + t + [d] + b, 0)
         == Remove(Timestamp, a, 0) + [c, d] + Remove(Timestamp, b, 0)
  {
    assert a + [c] + t + [d] + b == a + [c] + (t + [d] + b);
    RemoveSplitsAtInert(Timestamp, a, c, t + [d] + b);
    RemoveSplitsAtInert(Timestamp, t, d, b);
    assert !ClockAt(t, 0) && DateAt(t, 0);
    RemoveStep(Timestamp, t, 0);
  }

  // ---------------------------------------------------------------------
  // Trailing whitespace
  // ---------------------------------------------------------------------

  lemma RemoveBlank(p: Volatile, w: string, i: nat)
    requires i <= |w| && IsBlank(w)
    ensures Remove(p, w, i) == w[i..]
  {
    forall k | i <= k < |w| ensures MatchLen(p, w, k) == 0 {
      InertNoMatch(p, w, k);
    }
    RemoveNoMatch(p, w, i);
  }

  /** Trailing whitespace passes through a deletion pass untouched. */
  lemma RemoveTrailingBlank(p: Volatile, r: string, w: string)
    requires IsBlank(w)
    ensures Remove(p, r + w, 0) == Remove(p, r, 0) + w
  {
    if w == [] {
      assert r + w == r;
    } else {
      assert Inert(w[0]);
      assert r + w == r + [w[0]] + w[1..];
      RemoveSplitsAtInert(p, r, w[0], w[1..]);
      RemoveBlank(p, w[1..], 0);
      assert w[1..][0..] == w[1..];
      var x := Remove(p, r, 0);
      assert x + [w[0]] + w[1..] == x + w;
    }
  }

  /** `clean_line` ignores trailing whitespace, so cleaning a right-stripped
      line (as the analyser and the classifier do) and cleaning the raw line
      (as the trainer does) give the same normal form. */
  lemma CleanLineIgnoresRStrip(line: string)
    ensures CleanLine(RStrip(line)) == CleanLine(line)
  {
    var r := RStrip(line);
    var w := line[|r|..];
    assert IsBlank(w) by {
      forall k | 0 <= k < |w| ensures IsSpace(w[k]) { assert w[k] == line[|r| + k]; }
    }
    assert line == r + w;
    ScrubTrailingBlank(r, w);
    var d := Scrub(r);
    assert Scrub(line) == d + w;
    LowerTrailingBlank(d, w);
    assert Lower(Scrub(line)) == Lower(d) + w;
    StripIgnoresBlankTail(Lower(d), w);
  }

  lemma ScrubTrailingBlank(r: string, w: string)
    requires IsBlank(w)
    ensures Scrub(r + w) == Scrub(r) + w
  {
    var t := Remove(Timestamp, r, 0);
    var h := Remove(Hex, t, 0);
    RemoveTrailingBlank(Timestamp, r, w);
    RemoveTrailingBlank(Hex, t, w);
    RemoveTrailingBlank(Number, h, w);
  }

  lemma LowerTrailingBlank(d: string, w: string)
    requires IsBlank(w)
    ensures Lower(d + w) == Lower(d) + w
  {
    assert forall k :: 0 <= k < |w| ==> LowerChar(w[k]) == w[k];
  }

  // ---------------------------------------------------------------------
  // Worked examples
  // ---------------------------------------------------------------------

  /** A scan that matches nowhere keeps everything. */
  lemma {:induction false} SubNoMatch(s: string, m: seq<nat>, i: nat)
    requires Fits(s, m) && i <= |s| && forall k :: i <= k < |s| ==> m[k] == 0
    ensures Sub(s, m, i) == s[i..]
    decreases |s| - i
  {
    if i < |s| {
      SubNoMatch(s, m, i + 1);
      assert [s[i]] + s[i + 1..] == s[i..];
    }
  }

  /** A pass that matches nowhere leaves the line as it is. */
  lemma RemoveNoMatch(p: Volatile, s: string, i: nat)
    requires i <= |s| && forall k :: i <= k < |s| ==> MatchLen(p, s, k) == 0
    ensures Remove(p, s, i) == s[i..]
  {
    forall k | i <= k < |s| ensures Matches(p, s)[k] == 0 {
      MatchesAt(p, s, k);
    }
    SubNoMatch(s, Matches(p, s), i);
  }

  /** Pattern `p` matches nowhere in `s`. */
  predicate Untouched(p: Volatile, s: string) {
    forall k :: 0 <= k < |s| ==> MatchLen(p, s, k) == 0
  }

  /** A line none of the three patterns matches is only case-folded and
      trimmed. */
  lemma ScrubUntouched(s: string)
    requires Untouched(Timestamp, s) && Untouched(Hex, s) && Untouched(Number, s)
    ensures Scrub(s) == s
  {
    RemoveNoMatch(Timestamp, s, 0);
    RemoveNoMatch(Hex, s, 0);
    RemoveNoMatch(Number, s, 0);
  }

  /** None of the patterns matches in a line without digits. */
  lemma NoDigitsUntouched(s: string)
    requires forall k :: 0 <= k < |s| ==> !IsDigit(s[k])
    ensures Untouched(Timestamp, s) && Untouched(Hex, s) && Untouched(Number, s)
  {
    forall k | 0 <= k < |s| ensures MatchLen(Number, s, k) == 0 {
      assert Run(s, k, IsDigit) == 0;
    }
  }

  /** Case folding and trimming keep a string that has no upper-case letter
      and no whitespace at either end. */
  lemma FoldKeeps(d: string)
    requires forall k :: 0 <= k < |d| ==> !IsUpper(d[k])
    requires d == [] || (!IsSpace(d[0]) && !IsSpace(d[|d| - 1]))
    ensures Strip(Lower(d)) == d
  {
    assert Lower(d) == d;
    StripTrimmed(d);
  }

  /** The hex and number passes keep a string without digits. */
  lemma NoDigitsKept(t: string)
    requires forall k :: 0 <= k < |t| ==> !IsDigit(t[k])
    ensures Remove(Number, Remove(Hex, t, 0), 0) == t
  {
    NoDigitsUntouched(t);
    RemoveNoMatch(Hex, t, 0);
    assert t[0..] == t;
    RemoveNoMatch(Number, t, 0);
  }

  /** A clock time between two words without digits: the time goes and both
      spaces around it stay. */
  lemma ClockBetweenWords(a: string, t: string, b: string)
    requires forall k :: 0 <= k < |a| ==> !IsDigit(a[k])
    requires forall k :: 0 <= k < |b| ==> !IsDigit(b[k])
    requires |t| == 8 && DigitsAt(t, 0, 2) && t[2] == ':' && DigitsAt(t, 3, 2) && t[5] == ':' && DigitsAt(t, 6, 2)
    ensures Remove(Timestamp, a + [' '] + t + [' '] + b, 0) == a + [' ', ' '] + b
  {
    assert Inert(' ');
    ClockTokenDeleted(a, ' ', t, ' ', b);
    NoDigitsUntouched(a);
    NoDigitsUntouched(b);
    RemoveNoMatch(Timestamp, a, 0);
    RemoveNoMatch(Timestamp, b, 0);
    assert a[0..] == a && b[0..] == b;
  }

  lemma ClockLineScrubbed(line: string)
    requires line == "ERROR 12:00:01 KERNEL"
    ensures Scrub(line) == "ERROR  KERNEL"
  {
    assert line == "ERROR" + [' '] + "12:00:01" + [' '] + "KERNEL";
    ClockBetweenWords("ERROR", "12:00:01", "KERNEL");
    assert "ERROR" + [' ', ' '] + "KERNEL" == "ERROR  KERNEL";
    NoDigitsKept("ERROR  KERNEL");
  }

  lemma ClockLineFolded(t: string)
    requires t == "ERROR  KERNEL"
    ensures Strip(Lower(t)) == "error  kernel"
  {
    assert Lower(t) == "error  kernel";
    StripTrimmed("error  kernel");
  }

  /** A clock time between spaces goes, both spaces stay. */
  lemma ExampleClock()
    ensures CleanLine("ERROR 12:00:01 KERNEL") == "error  kernel"
  {
    ClockLineScrubbed("ERROR 12:00:01 KERNEL");
    ClockLineFolded("ERROR  KERNEL");
  }

  lemma HexInWordHexPass(line: string)
    requires line == "a0x1fz"
    ensures Remove(Hex, line, 0) == "az"
  {
    assert Run(line, 5, IsHexDigit) == 0;
    assert Run(line, 4, IsHexDigit) == 1;
    assert Run(line, 3, IsHexDigit) == 2;
    assert MatchLen(Hex, line, 0) == 0 && MatchLen(Hex, line, 1) == 4 && MatchLen(Hex, line, 5) == 0;
    RemoveStep(Hex, line, 5);
    RemoveStep(Hex, line, 1);
    RemoveStep(Hex, line, 0);
  }

  lemma HexInWordScrubbed(line: string)
    requires line == "a0x1fz"
    ensures Scrub(line) == "az"
  {
    assert Untouched(Timestamp, line);
    RemoveNoMatch(Timestamp, line, 0);
    assert line[0..] == line;
    HexInWordHexPass(line);
    NoDigitsUntouched("az");
    RemoveNoMatch(Number, "az", 0);
  }

  /** A lower-case `0x` literal is deleted even inside a word. */
  lemma ExampleHexInsideWord()
    ensures CleanLine("a0x1fz") == "az"
  {
    HexInWordScrubbed("a0x1fz");
    FoldKeeps("az");
  }

  lemma UpperHexUntouched(s: string)
    requires s == "0X1F"
    ensures CleanLine(s) == "0x1f"
  {
    assert Run(s, 0, IsDigit) == 1 && Run(s, 2, IsDigit) == 1;
    assert Untouched(Timestamp, s) && Untouched(Hex, s) && Untouched(Number, s);
    ScrubUntouched(s);
    assert Lower(s) == "0x1f";
    StripTrimmed("0x1f");
  }

  lemma LowerHexScrubbed(s: string)
    requires s == "0x1f"
    ensures Scrub(s) == ""
  {
    assert Untouched(Timestamp, s);
    RemoveNoMatch(Timestamp, s, 0);
    assert s[0..] == s;
    assert Run(s, 2, IsHexDigit) == 2;
    assert MatchLen(Hex, s, 0) == 4;
    RemoveStep(Hex, s, 0);
  }

  /** The `0x` prefix is case-sensitive: `0X1F` survives and is lower-cased
      into `0x1f`, which a second pass then deletes. So `clean_line` is not
      idempotent. */
  lemma ExampleNotIdempotent()
    ensures CleanLine("0X1F") == "0x1f"
    ensures CleanLine(CleanLine("0X1F")) == ""
  {
    UpperHexUntouched("0X1F");
    LowerHexScrubbed("0x1f");
  }

  lemma WordDigitsUntouched(s: string)
    requires s == "v2" || s == "abc123"
    ensures Untouched(Timestamp, s) && Untouched(Hex, s) && Untouched(Number, s)
  {
    forall k | 0 <= k < |s| ensures MatchLen(Number, s, k) == 0 {
      if IsDigit(s[k]) { assert !WordBoundary(s, k); }
    }
  }

  lemma DigitsInWordUntouched(s: string)
    requires s == "v2" || s == "abc123"
    ensures CleanLine(s) == s
  {
    WordDigitsUntouched(s);
    ScrubUntouched(s);
    FoldKeeps(s);
  }

  /** Digits that touch a letter are not a standalone number. */
  lemma ExampleDigitsInWords()
    ensures CleanLine("v2") == "v2"
    ensures CleanLine("abc123") == "abc123"
  {
    DigitsInWordUntouched("v2");
    DigitsInWordUntouched("abc123");
  }
}
