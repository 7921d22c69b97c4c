/** scripts/baseline_regex.py: a rule baseline scored against the label
    table. Every line of every `test.log` whose normalised form has a label
    yields one entry in each of four parallel lists: the true label, the
    first matching baseline rule's label (or "None"), a 1, and a score of 1.0
    or 0.0.

    The label table is given as its `(line_norm, label)` rows and the logs as
    the texts of the `test.log` files in the order the walk visits them. The
    scikit-learn metrics are opaque: the average-precision score is a given
    value, absent when the library raises. */
module BaselineRegex {
  import opened Wrappers
  import opened Strings
  import opened Regex
  import opened Collections
  import opened Preprocess

  /** The message the run exits with when no log line is labelled. */
  const NoOverlap := "\U{26A0}\U{FE0F}  No overlapping labeled lines found"

  /** `PATTERNS_BASE`, in order, compiled case-insensitive. */
  const PatternsBase: seq<Rule> := [
    Rule("SSHInvalidUser", Literal("invalid user")),
    Rule("SSHFailedPass", Literal("failed password")),
    Rule("SSHTooManyAuth", Literal("too many authentication failures")),
    Rule("BluetoothError", Gap("bluetooth", "error")),
    Rule("NoNetworkRoute", Literal("no network route"))
  ]

  /** `match(raw) or "None"`: the label of the first matching rule, or
      "None" when there is none (or it is the empty string). */
  function Prediction(rules: seq<Rule>, raw: string): string {
    var m := FirstMatch(rules, raw);
    if m.Some? && m.value != "" then m.value else "None"
  }

  function Sum(xs: seq<int>): int {
    if xs == [] then 0 else Sum(xs[..|xs| - 1]) + xs[|xs| - 1]
  }

  /** `safe_auprc`: nothing ("n/a") when there is no positive or when the
      library raises, else the library's value. */
  function SafeAuprc(yTrueBin: seq<int>, averagePrecision: Option<real>): (r: Option<real>)
    ensures r.None? <==> Sum(yTrueBin) == 0 || averagePrecision.None?
    ensures r.Some? ==> r == averagePrecision
  {
    if Sum(yTrueBin) == 0 then None else averagePrecision
  }

  /** `truth = dict(zip(df["line_norm"], df["label"]))`. */
  function Truth(table: seq<(string, string)>): map<string, string> {
    ToMap(table)
  }

  /** `normalise(raw) in truth`. */
  function Labelled(normalise: string -> string, truth: map<string, string>): string -> bool {
    raw => normalise(raw) in truth
  }

  /** All raw lines of the logs, in order. */
  function LogLines(logs: seq<string>): seq<string> {
    FlatMap(SplitLines, logs)
  }

  /** The lines that contribute: exactly those whose normalised form is a
      key of `truth`, in order. */
  function Contributing(truth: map<string, string>, logs: seq<string>): (kept: seq<string>)
    ensures forall raw :: raw in kept <==> raw in LogLines(logs) && CleanLine(raw) in truth
    ensures forall k :: 0 <= k < |kept| ==> CleanLine(kept[k]) in truth
    ensures IsSubsequence(kept, LogLines(logs))
  {
    var kept := Filter(Labelled(CleanLine, truth), LogLines(logs));
    assert forall k :: 0 <= k < |kept| ==> Labelled(CleanLine, truth)(kept[k]);
    kept
  }

  /** The four parallel lists. */
  datatype Lists = Lists(yTrue: seq<string>, yPred: seq<string>, yTrueBin: seq<int>, yScore: seq<real>)

  /** The lists pair each contributing line with its true label, its
      prediction from the raw line, a 1, and 1.0 exactly when a rule
      matched. */
  predicate Paired(rules: seq<Rule>, normalise: string -> string, truth: map<string, string>,
                   kept: seq<string>, l: Lists) {
    && (forall k :: 0 <= k < |kept| ==> normalise(kept[k]) in truth)
    && |l.yTrue| == |kept| && |l.yPred| == |kept| && |l.yTrueBin| == |kept| && |l.yScore| == |kept|
    && (forall k :: 0 <= k < |kept| ==>
          && l.yTrue[k] == truth[normalise(kept[k])]
          && l.yPred[k] == Prediction(rules, kept[k])
          && l.yTrueBin[k] == 1
          && l.yScore[k] == (if l.yPred[k] != "None" then 1.0 else 0.0))
  }

  /** `main()` up to the metrics: the four lists, or the exit message when no
      labelled line occurs in the logs. */
  method Run(table: seq<(string, string)>, logs: seq<string>) returns (run: Result<Lists, string>)
    ensures run.Failure? <==> Contributing(Truth(table), logs) == []
    ensures run.Failure? ==> run.error == NoOverlap
    ensures run.Success? ==> Paired(PatternsBase, CleanLine, Truth(table), Contributing(Truth(table), logs), run.value)
  {
    var truth := Truth(table);
    var l := Lists([], [], [], []);
    var f := 0;
    while f < |logs|
      invariant 0 <= f <= |logs|
      invariant Paired(PatternsBase, CleanLine, truth, Filter(Labelled(CleanLine, truth), LogLines(logs[..f])), l)
    {
      l := PairLog(PatternsBase, CleanLine, truth, Filter(Labelled(CleanLine, truth), LogLines(logs[..f])), logs[f], l);
      FlatMapSnoc(SplitLines, logs, f);
      FilterConcat(Labelled(CleanLine, truth), LogLines(logs[..f]), SplitLines(logs[f]));
      f := f + 1;
    }
    assert logs[..|logs|] == logs;
    if l.yTrue == [] {
      return Failure(NoOverlap);
    }
    run := Success(l);
  }

  /** The loop over the lines of one log. */
  method PairLog(rules: seq<Rule>, normalise: string -> string, truth: map<string, string>,
                 kept0: seq<string>, text: string, l0: Lists)
    returns (l: Lists)
    requires Paired(rules, normalise, truth, kept0, l0)
    ensures Paired(rules, normalise, truth, kept0 + Filter(Labelled(normalise, truth), SplitLines(text)), l)
  {
    l := l0;
    var lines := SplitLines(text);
    ghost var p := Labelled(normalise, truth);
    var j := 0;
    while j < |lines|
      invariant 0 <= j <= |lines|
      invariant Paired(rules, normalise, truth, kept0 + Filter(p, lines[..j]), l)
    {
      var raw := lines[j];
      PairStep(rules, normalise, truth, kept0, lines, j, l);
      j := j + 1;
      var norm := normalise(raw);
      if norm !in truth {
        continue;
      }
      var m := FirstRule(rules, raw);
      var pred := if m.Some? && m.value != "" then m.value else "None";
      l := Lists(l.yTrue + [truth[norm]], l.yPred + [pred], l.yTrueBin + [1],
                 l.yScore + [if pred != "None" then 1.0 else 0.0]);
    }
    assert lines[..|lines|] == lines;
  }

  /** One line of the loop: a line whose normalised form has no label leaves
      the lists as they are; any other line adds one entry to each. */
  lemma PairStep(rules: seq<Rule>, normalise: string -> string, truth: map<string, string>,
                 kept0: seq<string>, lines: seq<string>, j: nat, l: Lists)
    requires j < |lines|
    requires Paired(rules, normalise, truth, kept0 + Filter(Labelled(normalise, truth), lines[..j]), l)
    ensures normalise(lines[j]) !in truth ==>
              Paired(rules, normalise, truth, kept0 + Filter(Labelled(normalise, truth), lines[..j + 1]), l)
    ensures normalise(lines[j]) in truth ==>
              var pred := Prediction(rules, lines[j]);
              Paired(rules, normalise, truth, kept0 + Filter(Labelled(normalise, truth), lines[..j + 1]),
                     Lists(l.yTrue + [truth[normalise(lines[j])]], l.yPred + [pred], l.yTrueBin + [1],
                           l.yScore + [if pred != "None" then 1.0 else 0.0]))
  {
    var p := Labelled(normalise, truth);
    var kept := kept0 + Filter(p, lines[..j]);
    FilterPrefix(p, lines, j);
    if normalise(lines[j]) in truth {
      assert Filter(p, lines[..j + 1]) == Filter(p, lines[..j]) + [lines[j]];
      AppendAssoc(kept0, Filter(p, lines[..j]), [lines[j]]);
      assert kept0 + Filter(p, lines[..j + 1]) == kept + [lines[j]];
      PairedSnoc(rules, normalise, truth, kept, l, lines[j]);
    } else {
      assert kept0 + Filter(p, lines[..j + 1]) == kept;
    }
  }

  /** One more contributing line is one more entry in each list. */
  lemma PairedSnoc(rules: seq<Rule>, normalise: string -> string, truth: map<string, string>,
                   kept: seq<string>, l: Lists, raw: string)
    requires Paired(rules, normalise, truth, kept, l) && normalise(raw) in truth
    ensures var pred := Prediction(rules, raw);
            Paired(rules, normalise, truth, kept + [raw],
                   Lists(l.yTrue + [truth[normalise(raw)]], l.yPred + [pred], l.yTrueBin + [1],
                         l.yScore + [if pred != "None" then 1.0 else 0.0]))
  {
  }

  // ---------------------------------------------------------------------
  // Properties
  // ---------------------------------------------------------------------

  /** The baseline labels are non-empty and none is "None", so the
      prediction is "None" exactly when no baseline rule matches. */
  lemma PredictionIsNoneIffNoMatch(raw: string)
    ensures Prediction(PatternsBase, raw) == "None" <==> FirstMatch(PatternsBase, raw).None?
    ensures Prediction(PatternsBase, raw) != "None" ==> Some(Prediction(PatternsBase, raw)) == FirstMatch(PatternsBase, raw)
  {
    var m := FirstMatch(PatternsBase, raw);
    if m.Some? {
      var k :| 0 <= k < |PatternsBase| && m.value == PatternsBase[k].category;
      assert m.value != "None" && m.value != "";
    }
  }

  /** Rule order decides: the line names both an invalid user and a failed
      password, and the first rule wins. */
  lemma InvalidUserWins(raw: string)
    requires raw == "failed password for invalid user"
    ensures Prediction(PatternsBase, raw) == "SSHInvalidUser"
    ensures Search(PatternsBase[1].pattern, raw)
  {
    assert MatchAt(raw, 20, "invalid user");
    assert MatchAt(raw, 0, "failed password");
    FirstMatchIsEarliest(PatternsBase, raw, 0);
  }

  lemma {:induction false} SumOfOnes(xs: seq<int>)
    requires forall k :: 0 <= k < |xs| ==> xs[k] == 1
    ensures Sum(xs) == |xs|
  {
    if xs != [] {
      SumOfOnes(xs[..|xs| - 1]);
    }
  }

  /** In a run that reaches the metrics every entry is positive, so the
      "no positives" guard of `safe_auprc` never fires there: the result is
      "n/a" only when the library raises. */
  lemma AuprcGuardNeverFires(table: seq<(string, string)>, logs: seq<string>, l: Lists, averagePrecision: Option<real>)
    requires Contributing(Truth(table), logs) != []
    requires Paired(PatternsBase, CleanLine, Truth(table), Contributing(Truth(table), logs), l)
    ensures SafeAuprc(l.yTrueBin, averagePrecision) == averagePrecision
  {
    SumOfOnes(l.yTrueBin);
  }
}
