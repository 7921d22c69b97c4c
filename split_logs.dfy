/** scripts/split_logs.py: splits the lines of one log into train, val and
    test parts. The line positions `range(n)` are shuffled once; each part
    takes the next `k` shuffled positions, where `k` is its fraction of `n`.

    The shuffled positions `idx` and the three counts are given: the
    shuffle's randomness and the `int(frac * n)` rounding stay outside. */
module SplitLogs {
  import opened Collections

  function Min(a: int, b: int): int {
    if a <= b then a else b
  }

  function Max(a: int, b: int): int {
    if a <= b then b else a
  }

  /** `range(n)` after `random.shuffle`: `n` distinct positions below `n`. */
  predicate IsPermutation(idx: seq<nat>, n: nat) {
    && |idx| == n
    && (forall p :: 0 <= p < |idx| ==> idx[p] < n)
    && Distinct(idx)
  }

  /** Every shuffled position names a line. */
  predicate InRange(idx: seq<nat>, n: nat) {
    forall p :: 0 <= p < |idx| ==> idx[p] < n
  }

  /** `idx[offset:offset + k]`: Python's slice, which stops at the end of
      the list and is empty when `offset` is past it. */
  function Window(idx: seq<nat>, offset: nat, k: nat): (w: seq<nat>)
    ensures |w| == Min(k, Max(0, |idx| - offset))
    ensures forall j :: 0 <= j < |w| ==> w[j] == idx[offset + j]
  {
    if offset >= |idx| then [] else idx[offset..Min(offset + k, |idx|)]
  }

  /** `[lines[i] for i in w]`. */
  function Pick(lines: seq<string>, w: seq<nat>): (part: seq<string>)
    requires InRange(w, |lines|)
    ensures |part| == |w|
    ensures forall j :: 0 <= j < |part| ==> part[j] == lines[w[j]]
  {
    seq(|w|, j requires 0 <= j < |w| => lines[w[j]])
  }

  /** `slice_pct(frac, offset)` with `k = int(frac * n)` given. */
  function SlicePct(lines: seq<string>, idx: seq<nat>, k: nat, offset: nat): seq<string>
    requires InRange(idx, |lines|)
  {
    Pick(lines, Window(idx, offset, k))
  }

  /** Three parts, as lines or as the positions they come from. */
  datatype Parts<T> = Parts(train: seq<T>, val: seq<T>, test: seq<T>)

  function Total<T>(p: Parts<T>): nat {
    |p.train| + |p.val| + |p.test|
  }

  /** The three windows of `idx`: train at offset 0, val right after train,
      test right after val. */
  function Windows(idx: seq<nat>, kTrain: nat, kVal: nat, kTest: nat): Parts<nat> {
    var train := Window(idx, 0, kTrain);
    var val := Window(idx, |train|, kVal);
    Parts(train, val, Window(idx, |train| + |val|, kTest))
  }

  /** `main()`: the three parts as `slice_pct` computes them, each offset
      being the number of lines taken before it. */
  function SplitLog(lines: seq<string>, idx: seq<nat>, kTrain: nat, kVal: nat, kTest: nat): Parts<string>
    requires InRange(idx, |lines|)
  {
    var train := SlicePct(lines, idx, kTrain, 0);
    var val := SlicePct(lines, idx, kVal, |train|);
    var test := SlicePct(lines, idx, kTest, |train| + |val|);
    Parts(train, val, test)
  }

  // ---------------------------------------------------------------------
  // Properties
  // ---------------------------------------------------------------------

  /** Each part has `min(k, max(0, n - offset))` lines, and its `j`-th line
      is the input line at the `j`-th position of its window. */
  lemma PartsAreWindows(lines: seq<string>, idx: seq<nat>, kTrain: nat, kVal: nat, kTest: nat)
    requires InRange(idx, |lines|)
    ensures var s := SplitLog(lines, idx, kTrain, kVal, kTest);
            var w := Windows(idx, kTrain, kVal, kTest);
            && |s.train| == Min(kTrain, |idx|)
            && |s.val| == Min(kVal, |idx| - |s.train|)
            && |s.test| == Min(kTest, |idx| - |s.train| - |s.val|)
            && s.train == Pick(lines, w.train)
            && s.val == Pick(lines, w.val)
            && s.test == Pick(lines, w.test)
  {
  }

  /** The windows are contiguous: together they are the first `Total`
      shuffled positions, so no more than `n` lines are taken. */
  lemma WindowsContiguous(idx: seq<nat>, kTrain: nat, kVal: nat, kTest: nat)
    ensures var w := Windows(idx, kTrain, kVal, kTest);
            Total(w) <= |idx| && w.train + w.val + w.test == idx[..Total(w)]
  {
    var w := Windows(idx, kTrain, kVal, kTest);
    var all := w.train + w.val + w.test;
    forall j | 0 <= j < |all| ensures all[j] == idx[j] {
      if j < |w.train| {
      } else if j < |w.train| + |w.val| {
        assert all[j] == w.val[j - |w.train|];
      } else {
        assert all[j] == w.test[j - |w.train| - |w.val|];
      }
    }
  }

  /** When `idx` is a permutation, no input position is taken twice, within
      one part or across two. */
  lemma PositionsDisjoint(idx: seq<nat>, n: nat, kTrain: nat, kVal: nat, kTest: nat)
    requires IsPermutation(idx, n)
    ensures var w := Windows(idx, kTrain, kVal, kTest);
            Distinct(w.train + w.val + w.test)
  {
    var w := Windows(idx, kTrain, kVal, kTest);
    WindowsContiguous(idx, kTrain, kVal, kTest);
    var all := w.train + w.val + w.test;
    forall i, j | 0 <= i < j < |all| ensures all[i] != all[j] {
      assert all[i] == idx[i] && all[j] == idx[j];
    }
  }

  /** The lines of the three parts are the input lines at the first `Total`
      shuffled positions, in shuffled order; in particular every output line
      is an input line. */
  lemma SplitIsShuffledPrefix(lines: seq<string>, idx: seq<nat>, kTrain: nat, kVal: nat, kTest: nat)
    requires InRange(idx, |lines|)
    ensures var s := SplitLog(lines, idx, kTrain, kVal, kTest);
            && Total(s) <= |idx|
            && (forall j :: 0 <= j < Total(s) ==> (s.train + s.val + s.test)[j] == lines[idx[j]])
            && (forall x :: x in s.train + s.val + s.test ==> x in lines)
  {
    var s := SplitLog(lines, idx, kTrain, kVal, kTest);
    var w := Windows(idx, kTrain, kVal, kTest);
    PartsAreWindows(lines, idx, kTrain, kVal, kTest);
    WindowsContiguous(idx, kTrain, kVal, kTest);
    var all := s.train + s.val + s.test;
    var pos := w.train + w.val + w.test;
    forall j | 0 <= j < |all| ensures all[j] == lines[idx[j]] {
      if j < |s.train| {
        assert all[j] == lines[w.train[j]];
      } else if j < |s.train| + |s.val| {
        assert all[j] == lines[w.val[j - |s.train|]];
      } else {
        assert all[j] == lines[w.test[j - |s.train| - |s.val|]];
      }
      assert pos[j] == idx[j];
    }
    forall x | x in all ensures x in lines {
      var j :| 0 <= j < |all| && all[j] == x;
      assert lines[idx[j]] == x;
    }
  }

  /** The three parts hold at most `n` lines together. */
  lemma TotalAtMostN(lines: seq<string>, idx: seq<nat>, kTrain: nat, kVal: nat, kTest: nat)
    requires IsPermutation(idx, |lines|)
    ensures Total(SplitLog(lines, idx, kTrain, kVal, kTest)) <= |lines|
  {
    SplitIsShuffledPrefix(lines, idx, kTrain, kVal, kTest);
  }

  /** Fractions that add up to more than one leave the last part short: with
      ten lines and counts 7, 2 and 3 the test part gets one line. */
  lemma LastPartTruncated(lines: seq<string>, idx: seq<nat>)
    requires |lines| == 10 && IsPermutation(idx, 10)
    ensures var s := SplitLog(lines, idx, 7, 2, 3);
            |s.train| == 7 && |s.val| == 2 && |s.test| == 1
  {
    PartsAreWindows(lines, idx, 7, 2, 3);
  }
}
