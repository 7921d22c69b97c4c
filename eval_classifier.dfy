/** scripts/eval_classifier.py: pairs the true label of every labelled line
    of the `val` and `test` logs with what the classifier says about it.

    The label table is given as its `(line_norm, label)` rows, a label
    pandas reads as missing being `None`; the logs are given as the file
    names and texts of the recursive `*.log` listing, already sorted by
    path. The classifier is an instance built once before the loop. The
    scikit-learn metrics and the report are left out. */
module EvalClassifier {
  import opened Wrappers
  import opened Strings
  import opened Collections
  import opened Preprocess
  import opened Schemas
  import opened Classifier
  import Trainer
  import BaselineRegex

  /** One `*.log` file: its name (the last path component) and its text. */
  datatype LogFile = LogFile(name: string, text: string)

  /** The two parallel lists `y_true` and `y_pred`. */
  datatype Lists = Lists(yTrue: seq<string>, yPred: seq<string>)

  const NoLabelledLines := "\U{274C}  No labeled lines found in val/test \U{2013} check paths."

  /** `lp.stem in {"val", "test"}`. */
  predicate IsSplit(name: string) {
    Trainer.Stem(name) == "val" || Trainer.Stem(name) == "test"
  }

  /** `read_csv(...).dropna(subset=["label"])`: the rows with a label. */
  function DropNa(rows: seq<(string, Option<string>)>): (kept: seq<(string, string)>)
    ensures forall k, v :: (k, v) in kept <==> (k, Some(v)) in rows
  {
    if rows == [] then []
    else
      var front := rows[..|rows| - 1];
      var last := rows[|rows| - 1];
      assert rows == front + [last];
      DropNa(front) + (if last.1.Some? then [(last.0, last.1.value)] else [])
  }

  /** `truth = dict(zip(df["line_norm"], df["label"]))`. */
  function Truth(rows: seq<(string, Option<string>)>): map<string, string> {
    ToMap(DropNa(rows))
  }

  /** `{clean_line(c.message): c.label for c in records}`, for the
      normaliser `normalise`. */
  function Preds(normalise: string -> string, records: seq<Classification>): map<string, string> {
    ToMap(MapSeq((c: Classification) => (normalise(c.message), c.category), records))
  }

  /** `preds.get(norm, "None")`. */
  function Lookup(preds: map<string, string>, norm: string): string {
    if norm in preds then preds[norm] else "None"
  }

  /** Both lists of `b` appended to those of `a`. */
  function Append(a: Lists, b: Lists): Lists {
    Lists(a.yTrue + b.yTrue, a.yPred + b.yPred)
  }

  /** What the loop over the lines of one log appends. */
  function PairLines(normalise: string -> string, truth: map<string, string>, preds: map<string, string>,
                     lines: seq<string>): Lists {
    if lines == [] then Lists([], [])
    else
      var prev := PairLines(normalise, truth, preds, lines[..|lines| - 1]);
      var norm := normalise(lines[|lines| - 1]);
      if norm in truth then Lists(prev.yTrue + [truth[norm]], prev.yPred + [Lookup(preds, norm)])
      else prev
  }

  /** What one log contributes: its lines paired against the classifier's
      records for the whole text. */
  function FileLists(truth: map<string, string>, ml: Option<ClassifierBundle>, text: string): Lists
    requires MaybeWellFormed(ml)
  {
    PairLines(CleanLine, truth, Preds(CleanLine, ClassifySpec(ml, text)), SplitLines(text))
  }

  /** The lists after the loop over the files: logs that are not a `val`
      or `test` split contribute nothing. */
  function Evaluation(truth: map<string, string>, ml: Option<ClassifierBundle>, files: seq<LogFile>): Lists
    requires MaybeWellFormed(ml)
  {
    if files == [] then Lists([], [])
    else
      var last := files[|files| - 1];
      Append(Evaluation(truth, ml, files[..|files| - 1]),
             if IsSplit(last.name) then FileLists(truth, ml, last.text) else Lists([], []))
  }

  /** `main()` up to the metrics: the two lists, or the exit message when no
      labelled line was found. */
  method Run(rows: seq<(string, Option<string>)>, files: seq<LogFile>, clf: Classifier)
    returns (run: Result<Lists, string>)
    requires clf.Valid()
    ensures run.Failure? <==> Evaluation(Truth(rows), clf.ml, files).yTrue == []
    ensures run.Failure? ==> run.error == NoLabelledLines
    ensures run.Success? ==> run.value == Evaluation(Truth(rows), clf.ml, files)
  {
    var truth := Truth(rows);
    var l := Lists([], []);
    var i := 0;
    while i < |files|
      invariant 0 <= i <= |files|
      invariant l == Evaluation(truth, clf.ml, files[..i])
    {
      var f := files[i];
      assert files[..i + 1][..i] == files[..i];
      i := i + 1;
      if !IsSplit(f.name) {
        continue;
      }
      var records := clf.Classify(f.text);
      var preds := Preds(CleanLine, records);
      l := PairFile(CleanLine, truth, preds, f.text, l);
    }
    assert files[..|files|] == files;
    if l.yTrue == [] {
      return Failure(NoLabelledLines);
    }
    run := Success(l);
  }

  /** The loop over the lines of one log, appending to `l0`. */
  method PairFile(normalise: string -> string, truth: map<string, string>, preds: map<string, string>,
                  text: string, l0: Lists)
    returns (l: Lists)
    ensures l == Append(l0, PairLines(normalise, truth, preds, SplitLines(text)))
  {
    var lines := SplitLines(text);
    l := l0;
    var j := 0;
    while j < |lines|
      invariant 0 <= j <= |lines|
      invariant l == Append(l0, PairLines(normalise, truth, preds, lines[..j]))
    {
      var ln := lines[j];
      var norm := normalise(ln);
      ghost var prev := PairLines(normalise, truth, preds, lines[..j]);
      assert lines[..j + 1][..j] == lines[..j];
      j := j + 1;
      if norm in truth {
        AppendAssoc(l0.yTrue, prev.yTrue, [truth[norm]]);
        AppendAssoc(l0.yPred, prev.yPred, [Lookup(preds, norm)]);
        l := Lists(l.yTrue + [truth[norm]], l.yPred + [Lookup(preds, norm)]);
      }
    }
    assert lines[..|lines|] == lines;
  }

  // ---------------------------------------------------------------------
  // Properties
  // ---------------------------------------------------------------------

  /** A line contributes exactly when its normalised form is in `truth`:
      one entry per such line, in order, carrying the line's true label and
      the prediction for its normalised form, "None" when there is none. */
  lemma {:induction false} PairLinesSpec(normalise: string -> string, truth: map<string, string>,
                                         preds: map<string, string>, lines: seq<string>)
    ensures var kept := Filter(BaselineRegex.Labelled(normalise, truth), lines);
            var l := PairLines(normalise, truth, preds, lines);
            && |l.yTrue| == |kept| && |l.yPred| == |kept|
            && forall k :: 0 <= k < |kept| ==>
                 && normalise(kept[k]) in truth
                 && l.yTrue[k] == truth[normalise(kept[k])]
                 && l.yPred[k] == Lookup(preds, normalise(kept[k]))
  {
    var p := BaselineRegex.Labelled(normalise, truth);
    if lines != [] {
      var front := lines[..|lines| - 1];
      var last := lines[|lines| - 1];
      assert lines == front + [last];
      PairLinesSpec(normalise, truth, preds, front);
      FilterSnoc(p, front, last);
      var kept := Filter(p, lines);
      assert forall k :: 0 <= k < |kept| ==> p(kept[k]);
    }
  }

  /** The two lists always have equal length, file after file. */
  lemma {:induction false} EvaluationLengths(truth: map<string, string>, ml: Option<ClassifierBundle>, files: seq<LogFile>)
    requires MaybeWellFormed(ml)
    ensures |Evaluation(truth, ml, files).yTrue| == |Evaluation(truth, ml, files).yPred|
  {
    if files != [] {
      EvaluationLengths(truth, ml, files[..|files| - 1]);
      var last := files[|files| - 1];
      PairLinesSpec(CleanLine, truth, Preds(CleanLine, ClassifySpec(ml, last.text)), SplitLines(last.text));
    }
  }

  /** A file that is not a `val` or `test` split adds nothing. */
  lemma SkipsOtherSplits(truth: map<string, string>, ml: Option<ClassifierBundle>, files: seq<LogFile>, f: LogFile)
    requires MaybeWellFormed(ml) && !IsSplit(f.name)
    ensures Evaluation(truth, ml, files + [f]) == Evaluation(truth, ml, files)
  {
    assert (files + [f])[..|files|] == files;
  }

  /** Of the `.log` names, only `val.log` and `test.log` are evaluated. */
  lemma SplitNames(name: string)
    requires |name| > 4 && name[|name| - 4..] == ".log"
    ensures IsSplit(name) <==> name == "val.log" || name == "test.log"
  {
    var i := Trainer.RFind(name, '.');
    assert name[|name| - 4] == '.';
    assert forall j :: |name| - 4 < j < |name| ==> name[j] != '.';
    assert i == |name| - 4;
    assert Trainer.Stem(name) == name[..i];
    assert name == name[..i] + ".log";
  }

  /** `truth` holds exactly the keys of the rows that have a label. */
  lemma TruthKeys(rows: seq<(string, Option<string>)>, key: string)
    ensures key in Truth(rows) <==> exists v :: (key, Some(v)) in rows
  {
    var kept := DropNa(rows);
    if key in Truth(rows) {
      var j :| 0 <= j < |kept| && kept[j].0 == key;
      assert (key, kept[j].1) in kept;
    }
    if exists v :: (key, Some(v)) in rows {
      var v :| (key, Some(v)) in rows;
      assert (key, v) in kept;
      var j :| 0 <= j < |kept| && kept[j] == (key, v);
    }
  }

  /** `preds` has a key for exactly the normalised messages of the records. */
  lemma PredsKeys(normalise: string -> string, records: seq<Classification>, norm: string)
    ensures norm in Preds(normalise, records) <==>
              exists k :: 0 <= k < |records| && normalise(records[k].message) == norm
  {
    var pairs := MapSeq((c: Classification) => (normalise(c.message), c.category), records);
    if norm in Preds(normalise, records) {
      var k :| 0 <= k < |pairs| && pairs[k].0 == norm;
      assert normalise(records[k].message) == norm;
    }
    if exists k :: 0 <= k < |records| && normalise(records[k].message) == norm {
      var k :| 0 <= k < |records| && normalise(records[k].message) == norm;
      assert pairs[k].0 == norm;
    }
  }

  /** Later records win: records `b` that follow records `a` overwrite any
      of `a` with the same normalised message, the last one of `b` counting. */
  lemma LaterRecordWins(normalise: string -> string, a: seq<Classification>, b: seq<Classification>, k: nat)
    requires k < |b|
    requires forall j :: k < j < |b| ==> normalise(b[j].message) != normalise(b[k].message)
    ensures normalise(b[k].message) in Preds(normalise, a + b)
    ensures Preds(normalise, a + b)[normalise(b[k].message)] == b[k].category
  {
    var all := a + b;
    var pairs := MapSeq((c: Classification) => (normalise(c.message), c.category), all);
    assert all[|a| + k] == b[k];
    forall j | |a| + k < j < |pairs| ensures pairs[j].0 != pairs[|a| + k].0 {
      assert all[j] == b[j - |a|];
    }
    ToMapLastWins(pairs, |a| + k);
  }

  /** In `preds` a rule record overrides an ML record of another line with
      the same normalised message, because `classify` lists every ML record
      before every rule record. */
  lemma RuleRecordOverridesMl(ml: Option<ClassifierBundle>, text: string, k: nat)
    requires MaybeWellFormed(ml)
    requires var raw := RawLines(text);
             var rules := Collect(RuleRecords(ml, Patterns, raw, MapSeq(CleanLine, raw)), |raw|);
             && k < |rules|
             && forall j :: k < j < |rules| ==> CleanLine(rules[j].message) != CleanLine(rules[k].message)
    ensures var raw := RawLines(text);
            var rules := Collect(RuleRecords(ml, Patterns, raw, MapSeq(CleanLine, raw)), |raw|);
            && CleanLine(rules[k].message) in Preds(CleanLine, ClassifySpec(ml, text))
            && Preds(CleanLine, ClassifySpec(ml, text))[CleanLine(rules[k].message)] == rules[k].category
  {
    var raw := RawLines(text);
    var clean := MapSeq(CleanLine, raw);
    ClassifyLinesParts(ml, Patterns, raw, clean);
    LaterRecordWins(CleanLine, Collect(MlRecords(ml, raw, clean), |raw|), Collect(RuleRecords(ml, Patterns, raw, clean), |raw|), k);
  }
}
