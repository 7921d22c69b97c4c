/** `Classifier` (app/service/classifier.py): an ML prediction is accepted
    when its highest class probability reaches 0.5; every other line falls
    back to the first matching rule of a fixed ordered list. The result lists
    the accepted ML records in line order, then the rule records in line
    order.

    A classifier bundle's fitted vectoriser and random forest are opaque:
    they are the per-line probability function `predictProba` together with
    the class labels it scores. */
module Classifier {
  import opened Wrappers
  import opened Strings
  import opened Regex
  import opened Collections
  import opened Preprocess
  import opened Schemas

  /** `CONF_THRESHOLD`. */
  const ConfThreshold: real := 0.5

  /** `_PATTERNS`, in order; all are case-insensitive. */
  const Patterns: seq<Rule> := [
    Rule("TimeoutError", Literal("timeout")),
    Rule("SegmentationFault", Literal("segmentation fault")),
    Rule("NullPointer", Literal("null pointer")),
    Rule("TestFailure", Either("testfailure", "test failed")),
    Rule("MemoryLeak", Literal("memory leak"))
  ]

  /** What a stored classifier bundle provides. */
  datatype ClassifierBundle = ClassifierBundle(classes: seq<string>, predictProba: string -> seq<real>)

  /** What the library guarantees of a fitted classifier: every probability
      vector has one entry per class, each in `[0, 1]`. */
  ghost predicate WellFormed(b: ClassifierBundle) {
    && |b.classes| > 0
    && (forall line :: |b.predictProba(line)| == |b.classes|)
    && (forall line, j :: 0 <= j < |b.predictProba(line)| ==> 0.0 <= b.predictProba(line)[j] <= 1.0)
  }

  ghost predicate MaybeWellFormed(ml: Option<ClassifierBundle>) {
    ml.Some? ==> WellFormed(ml.value)
  }

  /** `p_vec.argmax()`: the index of the first maximum. */
  function ArgMax(p: seq<real>): (k: nat)
    requires |p| > 0
    ensures k < |p|
    ensures forall j :: 0 <= j < |p| ==> p[j] <= p[k]
    ensures forall j :: 0 <= j < k ==> p[j] < p[k]
  {
    if |p| == 1 then 0
    else
      var k := ArgMax(p[..|p| - 1]);
      assert forall j :: 0 <= j < |p| - 1 ==> p[..|p| - 1][j] == p[j];
      if p[|p| - 1] > p[k] then |p| - 1 else k
  }

  /** `p_vec.max()`. */
  function Max(p: seq<real>): (m: real)
    requires |p| > 0
    ensures m in p && forall j :: 0 <= j < |p| ==> p[j] <= m
  {
    p[ArgMax(p)]
  }

  /** The body of the ML loop for one line, given its normalised form
      `clean`: a record when the highest probability is at least the
      threshold, labelled with the class at the first maximum and carrying
      that probability and the raw line. */
  function MlRecord(b: ClassifierBundle, clean: string, raw: string, lineNumber: int): (r: Option<Classification>)
    requires WellFormed(b)
    ensures var p := b.predictProba(clean);
      && (r.Some? <==> Max(p) >= ConfThreshold)
      && (r.Some? ==> r.value == Classification(lineNumber, b.classes[ArgMax(p)], Max(p), raw))
  {
    var p := b.predictProba(clean);
    var conf := Max(p);
    if conf >= ConfThreshold then Some(Classification(lineNumber, b.classes[ArgMax(p)], conf, raw)) else None
  }

  /** The body of the rule loop for one line: a record for the first
      matching rule, with confidence 1.0. */
  function RuleRecord(rules: seq<Rule>, raw: string, lineNumber: int): (r: Option<Classification>)
    ensures r.Some? <==> FirstMatch(rules, raw).Some?
    ensures r.Some? ==> r.value == Classification(lineNumber, FirstMatch(rules, raw).value, 1.0, raw)
  {
    match FirstMatch(rules, raw)
    case None => None
    case Some(category) => Some(Classification(lineNumber, category, 1.0, raw))
  }

  /** The ML record a line receives, if any: none without a bundle. */
  function MlAt(ml: Option<ClassifierBundle>, clean: string, raw: string, lineNumber: int): (r: Option<Classification>)
    requires MaybeWellFormed(ml)
    ensures ml.None? ==> r.None?
    ensures ml.Some? ==> r == MlRecord(ml.value, clean, raw, lineNumber)
    ensures r.Some? ==> r.value.lineNumber == lineNumber
  {
    if ml.None? then None else MlRecord(ml.value, clean, raw, lineNumber)
  }

  /** The rule record a line receives, if any: only lines without an ML
      record are checked against the rules. */
  function RuleAt(ml: Option<ClassifierBundle>, rules: seq<Rule>, clean: string, raw: string, lineNumber: int): (r: Option<Classification>)
    requires MaybeWellFormed(ml)
    ensures r.Some? ==> MlAt(ml, clean, raw, lineNumber).None? && r.value.lineNumber == lineNumber
  {
    if MlAt(ml, clean, raw, lineNumber).Some? then None else RuleRecord(rules, raw, lineNumber)
  }

  /** For every kept line, the ML record it receives, if any. */
  function MlRecords(ml: Option<ClassifierBundle>, raw: seq<string>, clean: seq<string>): (recs: seq<Option<Classification>>)
    requires MaybeWellFormed(ml) && |clean| == |raw|
    ensures |recs| == |raw|
    ensures forall i :: 0 <= i < |raw| ==> recs[i] == MlAt(ml, clean[i], raw[i], i + 1)
  {
    seq(|raw|, i requires 0 <= i < |raw| => MlAt(ml, clean[i], raw[i], i + 1))
  }

  /** For every kept line, the rule record it receives, if any. */
  function RuleRecords(ml: Option<ClassifierBundle>, rules: seq<Rule>, raw: seq<string>, clean: seq<string>): (recs: seq<Option<Classification>>)
    requires MaybeWellFormed(ml) && |clean| == |raw|
    ensures |recs| == |raw|
    ensures forall i :: 0 <= i < |raw| ==> recs[i] == RuleAt(ml, rules, clean[i], raw[i], i + 1)
  {
    seq(|raw|, i requires 0 <= i < |raw| => RuleAt(ml, rules, clean[i], raw[i], i + 1))
  }

  /** Per-line records are numbered by their line. */
  predicate Numbered(recs: seq<Option<Classification>>) {
    forall i :: 0 <= i < |recs| && recs[i].Some? ==> recs[i].value.lineNumber == i + 1
  }

  /** The records present among the first `n` lines, in line order. */
  function Collect(recs: seq<Option<Classification>>, n: nat): seq<Classification>
    requires n <= |recs| && Numbered(recs)
  {
    if n == 0 then []
    else
      var front := Collect(recs, n - 1);
      if recs[n - 1].Some? then front + [recs[n - 1].value] else front
  }

  /** Each collected record sits at the line it names, among the first `n`,
      and the line numbers strictly increase. */
  lemma {:induction false} CollectSpec(recs: seq<Option<Classification>>, n: nat)
    requires n <= |recs| && Numbered(recs)
    ensures forall k :: 0 <= k < |Collect(recs, n)| ==>
              1 <= Collect(recs, n)[k].lineNumber <= n && recs[Collect(recs, n)[k].lineNumber - 1] == Some(Collect(recs, n)[k])
    ensures forall k, l :: 0 <= k < l < |Collect(recs, n)| ==> Collect(recs, n)[k].lineNumber < Collect(recs, n)[l].lineNumber
  {
    if n > 0 {
      CollectSpec(recs, n - 1);
      var front := Collect(recs, n - 1);
      if recs[n - 1].Some? {
        var r := front + [recs[n - 1].value];
        assert Collect(recs, n) == r;
        forall k | 0 <= k < |r|
          ensures 1 <= r[k].lineNumber <= n && recs[r[k].lineNumber - 1] == Some(r[k])
        {
          if k < |front| {
            assert r[k] == front[k];
          }
        }
        forall k, l | 0 <= k < l < |r| ensures r[k].lineNumber < r[l].lineNumber {
          assert r[k] == front[k];
          if l < |front| {
            assert r[l] == front[l];
          }
        }
      }
    }
  }

  /** One more line collects its record, if it has one. */
  lemma CollectNext(recs: seq<Option<Classification>>, n: nat)
    requires n < |recs| && Numbered(recs)
    ensures Collect(recs, n + 1) == Collect(recs, n) + (if recs[n].Some? then [recs[n].value] else [])
  {
  }

  /** Every record present among the first `n` lines is collected. */
  lemma {:induction false} CollectComplete(recs: seq<Option<Classification>>, n: nat, i: nat)
    requires n <= |recs| && Numbered(recs) && i < n && recs[i].Some?
    ensures recs[i].value in Collect(recs, n)
  {
    if i < n - 1 {
      CollectComplete(recs, n - 1, i);
    }
  }

  /** No record present: nothing collected. */
  lemma {:induction false} CollectNone(recs: seq<Option<Classification>>, n: nat)
    requires n <= |recs| && Numbered(recs)
    requires forall i :: 0 <= i < n ==> recs[i].None?
    ensures Collect(recs, n) == []
  {
    if n > 0 {
      CollectNone(recs, n - 1);
    }
  }

  lemma NumberedRecords(ml: Option<ClassifierBundle>, rules: seq<Rule>, raw: seq<string>, clean: seq<string>)
    requires MaybeWellFormed(ml) && |clean| == |raw|
    ensures Numbered(MlRecords(ml, raw, clean)) && Numbered(RuleRecords(ml, rules, raw, clean))
  {
  }

  /** What the two loops of `classify` produce for the kept lines `raw` and
      their normalised forms `clean`: `list(ml_preds.values())` followed by
      what the rule loop appends. */
  function ClassifyLines(ml: Option<ClassifierBundle>, rules: seq<Rule>, raw: seq<string>, clean: seq<string>): seq<Classification>
    requires MaybeWellFormed(ml) && |clean| == |raw|
  {
    NumberedRecords(ml, rules, raw, clean);
    Collect(MlRecords(ml, raw, clean), |raw|) + Collect(RuleRecords(ml, rules, raw, clean), |raw|)
  }

  lemma ClassifyLinesParts(ml: Option<ClassifierBundle>, rules: seq<Rule>, raw: seq<string>, clean: seq<string>)
    requires MaybeWellFormed(ml) && |clean| == |raw|
    ensures Numbered(MlRecords(ml, raw, clean)) && Numbered(RuleRecords(ml, rules, raw, clean))
    ensures ClassifyLines(ml, rules, raw, clean)
         == Collect(MlRecords(ml, raw, clean), |raw|) + Collect(RuleRecords(ml, rules, raw, clean), |raw|)
  {
    NumberedRecords(ml, rules, raw, clean);
  }

  /** `ml_preds` maps the 0-based index of exactly the lines with an
      accepted ML prediction to that line's record. */
  ghost predicate IndexesMlRecords(ml: Option<ClassifierBundle>, raw: seq<string>, clean: seq<string>,
                                   mlPreds: map<int, Classification>)
    requires MaybeWellFormed(ml) && |clean| == |raw|
  {
    && (forall k :: k in mlPreds <==> 0 <= k < |raw| && MlRecords(ml, raw, clean)[k].Some?)
    && (forall k :: k in mlPreds ==> MlRecords(ml, raw, clean)[k] == Some(mlPreds[k]))
  }

  /** After the first `i` lines: `mlPreds` indexes the records present
      among them and `mlValues` lists those records in line order. */
  ghost predicate MlPrefix(recs: seq<Option<Classification>>, i: nat, mlPreds: map<int, Classification>,
                     mlValues: seq<Classification>)
    requires i <= |recs| && Numbered(recs)
  {
    && mlValues == Collect(recs, i)
    && (forall k :: k in mlPreds <==> 0 <= k < i && recs[k].Some?)
    && (forall k :: k in mlPreds ==> recs[k] == Some(mlPreds[k]))
  }

  /** Line `i` adds its record, if it has one, to both. */
  lemma MlPrefixNext(recs: seq<Option<Classification>>, i: nat, mlPreds: map<int, Classification>,
                     mlValues: seq<Classification>)
    requires i < |recs| && Numbered(recs) && MlPrefix(recs, i, mlPreds, mlValues)
    ensures recs[i].Some? ==> MlPrefix(recs, i + 1, mlPreds[i := recs[i].value], mlValues + [recs[i].value])
    ensures recs[i].None? ==> MlPrefix(recs, i + 1, mlPreds, mlValues)
  {
    CollectNext(recs, i);
  }

  /** One step of the ML loop: line `i` has a record exactly when the
      highest probability for its normalised form reaches the threshold, and
      collecting it appends that record. */
  lemma MlStep(ml: Option<ClassifierBundle>, raw: seq<string>, clean: seq<string>, i: nat)
    requires ml.Some? && WellFormed(ml.value) && |clean| == |raw| && i < |raw|
    ensures var p := ml.value.predictProba(clean[i]);
      MlRecords(ml, raw, clean)[i]
        == if Max(p) >= ConfThreshold then Some(Classification(i + 1, ml.value.classes[ArgMax(p)], Max(p), raw[i])) else None
  {
  }

  /** Which lines the rule loop considers and what each one receives: a line
      in `ml_preds` is skipped, any other gets its rule record. */
  ghost predicate RulePlan(recs: seq<Option<Classification>>, rules: seq<Rule>, raw: seq<string>,
                           mlPreds: map<int, Classification>) {
    && |recs| == |raw|
    && forall i :: 0 <= i < |raw| ==> recs[i] == (if i in mlPreds then None else RuleRecord(rules, raw[i], i + 1))
  }

  /** The rule records follow that plan once `ml_preds` indexes the ML
      records. */
  lemma RulePlanOfRecords(ml: Option<ClassifierBundle>, rules: seq<Rule>, raw: seq<string>, clean: seq<string>,
                          mlPreds: map<int, Classification>)
    requires MaybeWellFormed(ml) && |clean| == |raw|
    requires IndexesMlRecords(ml, raw, clean, mlPreds)
    ensures RulePlan(RuleRecords(ml, rules, raw, clean), rules, raw, mlPreds)
  {
    var recs := RuleRecords(ml, rules, raw, clean);
    forall i | 0 <= i < |raw|
      ensures recs[i] == (if i in mlPreds then None else RuleRecord(rules, raw[i], i + 1))
    {
      assert recs[i] == RuleAt(ml, rules, clean[i], raw[i], i + 1);
      assert (i in mlPreds) == MlAt(ml, clean[i], raw[i], i + 1).Some?;
    }
  }

  /** The rule loop of `classify`: for every line not in `ml_preds`, the
      record of the first matching rule is appended to `acc`. */
  method AppendRuleRecords(rules: seq<Rule>, raw: seq<string>, mlPreds: map<int, Classification>,
                           acc: seq<Classification>, ghost recs: seq<Option<Classification>>)
    returns (results: seq<Classification>)
    requires RulePlan(recs, rules, raw, mlPreds) && Numbered(recs)
    ensures results == acc + Collect(recs, |raw|)
  {
    results := acc;
    var i := 0;
    while i < |raw|
      invariant 0 <= i <= |raw|
      invariant results == acc + Collect(recs, i)
    {
      if i !in mlPreds {
        var category := FirstRule(rules, raw[i]);
        if category.Some? {
          var c := Classification(i + 1, category.value, 1.0, raw[i]);
          assert recs[i] == Some(c);
          AppendAssoc(acc, Collect(recs, i), [c]);
          results := results + [c];
        }
      }
      i := i + 1;
    }
  }

  /** What `classify(text)` returns. */
  function ClassifySpec(ml: Option<ClassifierBundle>, text: string): seq<Classification>
    requires MaybeWellFormed(ml)
  {
    var raw := RawLines(text);
    ClassifyLines(ml, Patterns, raw, MapSeq(CleanLine, raw))
  }

  /** `_load_latest`: the last of the sorted `classifier_*.joblib` names,
      loaded, or nothing when there is none. */
  function LoadLatest(files: seq<string>, load: string -> ClassifierBundle): Option<ClassifierBundle> {
    var names := Sort(Glob(files, "classifier_", ".joblib"));
    if names == [] then None else Some(load(names[|names| - 1]))
  }

  class Classifier {
    /** `self._ml`, fixed at construction. */
    const ml: Option<ClassifierBundle>

    ghost predicate Valid() {
      MaybeWellFormed(ml)
    }

    /** `Classifier(models_dir)`: loads the newest bundle once. */
    constructor(files: seq<string>, load: string -> ClassifierBundle)
      requires MaybeWellFormed(LoadLatest(files, load))
      ensures ml == LoadLatest(files, load)
      ensures Valid()
    {
      ml := LoadLatest(files, load);
    }

    /** `classify(text)`: normalise the kept lines, run the ML loop, then
        the rule loop over the lines the ML loop left out. */
    method Classify(text: string) returns (results: seq<Classification>)
      requires Valid()
      ensures results == ClassifySpec(ml, text)
    {
      var raw := RawLines(text);
      var clean := MapSeq(CleanLine, raw);
      var mlPreds, mlValues := PredictLines(raw, clean);
      results := ApplyRules(Patterns, raw, clean, mlPreds, mlValues);
    }

    /** The ML loop: `ml_preds` maps the 0-based index of every line with an
        accepted prediction to its record; `mlValues` lists those records in
        insertion (line) order. */
    method PredictLines(raw: seq<string>, clean: seq<string>)
      returns (mlPreds: map<int, Classification>, mlValues: seq<Classification>)
      requires Valid() && |clean| == |raw|
      ensures Numbered(MlRecords(ml, raw, clean))
      ensures IndexesMlRecords(ml, raw, clean, mlPreds)
      ensures mlValues == Collect(MlRecords(ml, raw, clean), |raw|)
    {
      ghost var mlRecs := MlRecords(ml, raw, clean);
      assert Numbered(mlRecs);
      mlPreds := map[];
      mlValues := [];
      if ml.None? {
        CollectNone(mlRecs, |raw|);
        return;
      }
      var b := ml.value;
      var i := 0;
      while i < |raw|
        invariant 0 <= i <= |raw|
        invariant MlPrefix(mlRecs, i, mlPreds, mlValues)
      {
        var p := b.predictProba(clean[i]);
        var conf := Max(p);
        MlStep(ml, raw, clean, i);
        MlPrefixNext(mlRecs, i, mlPreds, mlValues);
        if conf >= ConfThreshold {
          var c := Classification(i + 1, b.classes[ArgMax(p)], conf, raw[i]);
          mlPreds := mlPreds[i := c];
          mlValues := mlValues + [c];
        }
        i := i + 1;
      }
    }

    /** The rule loop: starting from the ML records, append for every line
        not in `ml_preds` the record of the first matching rule. */
    method ApplyRules(rules: seq<Rule>, raw: seq<string>, clean: seq<string>,
                      mlPreds: map<int, Classification>, mlValues: seq<Classification>)
      returns (results: seq<Classification>)
      requires Valid() && |clean| == |raw|
      requires Numbered(MlRecords(ml, raw, clean))
      requires IndexesMlRecords(ml, raw, clean, mlPreds)
      requires mlValues == Collect(MlRecords(ml, raw, clean), |raw|)
      ensures results == ClassifyLines(ml, rules, raw, clean)
    {
      ClassifyLinesParts(ml, rules, raw, clean);
      RulePlanOfRecords(ml, rules, raw, clean, mlPreds);
      results := AppendRuleRecords(rules, raw, mlPreds, mlValues, RuleRecords(ml, rules, raw, clean));
    }
  }

  // ---------------------------------------------------------------------
  // Properties
  // ---------------------------------------------------------------------

  /** A collected record sits at the line it names. */
  lemma CollectMember(recs: seq<Option<Classification>>, n: nat, c: Classification)
    requires n <= |recs| && Numbered(recs) && c in Collect(recs, n)
    ensures 1 <= c.lineNumber <= n && recs[c.lineNumber - 1] == Some(c)
  {
    var r := Collect(recs, n);
    CollectSpec(recs, n);
    var k :| 0 <= k < |r| && r[k] == c;
  }

  /** Two record lists that never fill the same line collect to records
      with pairwise distinct line numbers. */
  lemma CollectDisjoint(a: seq<Option<Classification>>, b: seq<Option<Classification>>, n: nat)
    requires n == |a| == |b| && Numbered(a) && Numbered(b)
    requires forall i :: 0 <= i < n && b[i].Some? ==> a[i].None?
    ensures var r := Collect(a, n) + Collect(b, n);
      forall k, l :: 0 <= k < l < |r| ==> r[k].lineNumber != r[l].lineNumber
  {
    var m := Collect(a, n);
    var u := Collect(b, n);
    var r := m + u;
    CollectSpec(a, n);
    CollectSpec(b, n);
    forall k, l | 0 <= k < l < |r| ensures r[k].lineNumber != r[l].lineNumber {
      if k < |m| && l >= |m| {
        assert r[k] == m[k] && r[l] == u[l - |m|];
        assert a[r[k].lineNumber - 1] == Some(r[k]);
        assert b[r[l].lineNumber - 1] == Some(r[l]);
      } else if k >= |m| {
        assert r[k] == u[k - |m|] && r[l] == u[l - |m|];
      }
    }
  }

  /** Line `i` (0-based) receives its ML record or else its rule record,
      never both, and no other record of the output names that line. */
  lemma RecordsOfLine(ml: Option<ClassifierBundle>, rules: seq<Rule>, raw: seq<string>, clean: seq<string>, i: nat)
    requires MaybeWellFormed(ml) && |clean| == |raw| && i < |raw|
    ensures var out := ClassifyLines(ml, rules, raw, clean);
      var mine := MlRecords(ml, raw, clean)[i];
      var rule := RuleRecords(ml, rules, raw, clean)[i];
      && (mine.Some? ==> mine.value in out && rule.None?)
      && (rule.Some? ==> rule.value in out)
      && (forall c :: c in out && c.lineNumber == i + 1 ==> Some(c) == mine || Some(c) == rule)
  {
    ClassifyLinesParts(ml, rules, raw, clean);
    var mlRecs := MlRecords(ml, raw, clean);
    var ruleRecs := RuleRecords(ml, rules, raw, clean);
    var m := Collect(mlRecs, |raw|);
    var u := Collect(ruleRecs, |raw|);
    if mlRecs[i].Some? { CollectComplete(mlRecs, |raw|, i); }
    if ruleRecs[i].Some? { CollectComplete(ruleRecs, |raw|, i); }
    forall c: Classification | c in m + u && c.lineNumber == i + 1
      ensures Some(c) == mlRecs[i] || Some(c) == ruleRecs[i]
    {
      if c in m {
        CollectMember(mlRecs, |raw|, c);
      } else {
        CollectMember(ruleRecs, |raw|, c);
      }
    }
  }

  /** Each line is classified at most once. */
  lemma AtMostOneRecordPerLine(ml: Option<ClassifierBundle>, rules: seq<Rule>, raw: seq<string>, clean: seq<string>)
    requires MaybeWellFormed(ml) && |clean| == |raw|
    ensures var r := ClassifyLines(ml, rules, raw, clean);
      forall k, l :: 0 <= k < l < |r| ==> r[k].lineNumber != r[l].lineNumber
  {
    ClassifyLinesParts(ml, rules, raw, clean);
    CollectDisjoint(MlRecords(ml, raw, clean), RuleRecords(ml, rules, raw, clean), |raw|);
  }

  /** A line has an ML record exactly when a bundle is loaded and the
      highest probability for its normalised form reaches 0.5; otherwise it
      has a rule record exactly when a rule matches its raw text. */
  lemma GateThenRules(ml: Option<ClassifierBundle>, rules: seq<Rule>, raw: seq<string>, clean: seq<string>, i: nat)
    requires MaybeWellFormed(ml) && |clean| == |raw| && i < |raw|
    ensures MlRecords(ml, raw, clean)[i].Some?
        <==> ml.Some? && Max(ml.value.predictProba(clean[i])) >= ConfThreshold
    ensures RuleRecords(ml, rules, raw, clean)[i].Some?
        <==> MlRecords(ml, raw, clean)[i].None? && FirstMatch(rules, raw[i]).Some?
  {
  }

  /** Without a bundle no line has an ML record and every line is
      checked against the rules. */
  lemma NoBundleRecords(rules: seq<Rule>, raw: seq<string>, clean: seq<string>)
    requires |clean| == |raw|
    ensures forall i :: 0 <= i < |raw| ==> MlRecords(None, raw, clean)[i] == None
    ensures forall i :: 0 <= i < |raw| ==> RuleRecords(None, rules, raw, clean)[i] == RuleRecord(rules, raw[i], i + 1)
  {
  }

  /** `r` holds the rule record of every rule-matching line of `raw`, in
      line order, and nothing else. */
  predicate RuleRecordsOnly(rules: seq<Rule>, raw: seq<string>, r: seq<Classification>) {
    && (forall k :: 0 <= k < |r| ==>
          1 <= r[k].lineNumber <= |raw| && Some(r[k]) == RuleRecord(rules, raw[r[k].lineNumber - 1], r[k].lineNumber))
    && (forall i :: 0 <= i < |raw| && FirstMatch(rules, raw[i]).Some? ==> RuleRecord(rules, raw[i], i + 1).value in r)
    && (forall k, l :: 0 <= k < l < |r| ==> r[k].lineNumber < r[l].lineNumber)
  }

  /** Collecting a list that holds the rule record of every line gives the
      rule record of every rule-matching line, in line order, and nothing
      else. */
  lemma CollectRuleRecords(rules: seq<Rule>, raw: seq<string>, recs: seq<Option<Classification>>, r: seq<Classification>)
    requires |recs| == |raw| && forall i :: 0 <= i < |raw| ==> recs[i] == RuleRecord(rules, raw[i], i + 1)
    requires Numbered(recs) && r == Collect(recs, |raw|)
    ensures RuleRecordsOnly(rules, raw, r)
  {
    assert forall k :: 0 <= k < |r| ==>
             1 <= r[k].lineNumber <= |raw| && Some(r[k]) == RuleRecord(rules, raw[r[k].lineNumber - 1], r[k].lineNumber)
    by {
      CollectSpec(recs, |raw|);
      forall k | 0 <= k < |r|
        ensures 1 <= r[k].lineNumber <= |raw| && Some(r[k]) == RuleRecord(rules, raw[r[k].lineNumber - 1], r[k].lineNumber)
      {
        assert recs[r[k].lineNumber - 1] == Some(r[k]);
      }
    }
    assert forall i :: 0 <= i < |raw| && FirstMatch(rules, raw[i]).Some? ==> RuleRecord(rules, raw[i], i + 1).value in r
    by {
      forall i | 0 <= i < |raw| && FirstMatch(rules, raw[i]).Some?
        ensures RuleRecord(rules, raw[i], i + 1).value in r
      {
        CollectComplete(recs, |raw|, i);
      }
    }
    assert forall k, l :: 0 <= k < l < |r| ==> r[k].lineNumber < r[l].lineNumber by {
      CollectSpec(recs, |raw|);
    }
  }

  /** Without a bundle only the rule records are collected. */
  lemma NoBundleCollectsRules(rules: seq<Rule>, raw: seq<string>, clean: seq<string>)
    requires |clean| == |raw|
    ensures Numbered(RuleRecords(None, rules, raw, clean))
    ensures ClassifyLines(None, rules, raw, clean) == Collect(RuleRecords(None, rules, raw, clean), |raw|)
  {
    ClassifyLinesParts(None, rules, raw, clean);
    NoBundleRecords(rules, raw, clean);
    var m := Collect(MlRecords(None, raw, clean), |raw|);
    CollectNone(MlRecords(None, raw, clean), |raw|);
    assert m == [];
  }

  /** Without a bundle the output is the rule record of every
      rule-matching line, in line order, and nothing else. */
  lemma NoBundleMeansRulesOnly(rules: seq<Rule>, raw: seq<string>, clean: seq<string>)
    requires |clean| == |raw|
    ensures RuleRecordsOnly(rules, raw, ClassifyLines(None, rules, raw, clean))
  {
    NoBundleCollectsRules(rules, raw, clean);
    NoBundleRecords(rules, raw, clean);
    CollectRuleRecords(rules, raw, RuleRecords(None, rules, raw, clean), ClassifyLines(None, rules, raw, clean));
  }

  /** Collected records keep a confidence bound every present record has. */
  lemma CollectConfidence(recs: seq<Option<Classification>>, n: nat, lo: real)
    requires n <= |recs| && Numbered(recs)
    requires forall i :: 0 <= i < |recs| && recs[i].Some? ==> lo <= recs[i].value.confidence <= 1.0
    ensures forall c :: c in Collect(recs, n) ==> lo <= c.confidence <= 1.0
  {
    forall c | c in Collect(recs, n) ensures lo <= c.confidence <= 1.0 {
      CollectMember(recs, n, c);
    }
  }

  /** Accepted ML confidences lie in `[0.5, 1]`; rule confidences are 1.0. */
  lemma RecordConfidences(ml: Option<ClassifierBundle>, rules: seq<Rule>, raw: seq<string>, clean: seq<string>)
    requires MaybeWellFormed(ml) && |clean| == |raw|
    ensures forall i :: 0 <= i < |raw| && MlRecords(ml, raw, clean)[i].Some? ==>
      ConfThreshold <= MlRecords(ml, raw, clean)[i].value.confidence <= 1.0
    ensures forall i :: 0 <= i < |raw| && RuleRecords(ml, rules, raw, clean)[i].Some? ==>
      RuleRecords(ml, rules, raw, clean)[i].value.confidence == 1.0
  {
    forall i | 0 <= i < |raw| && MlRecords(ml, raw, clean)[i].Some?
      ensures ConfThreshold <= MlRecords(ml, raw, clean)[i].value.confidence <= 1.0
    {
      var p := ml.value.predictProba(clean[i]);
      assert MlRecords(ml, raw, clean)[i].value.confidence == Max(p);
    }
  }

  /** Every record is a valid `Classification`: accepted ML confidences lie
      in `[0.5, 1]` and rule confidences are 1.0. */
  lemma RecordsAreValid(ml: Option<ClassifierBundle>, rules: seq<Rule>, raw: seq<string>, clean: seq<string>)
    requires MaybeWellFormed(ml) && |clean| == |raw|
    ensures AllValidClassifications(ClassifyLines(ml, rules, raw, clean))
    ensures forall c :: c in ClassifyLines(ml, rules, raw, clean) ==> ConfThreshold <= c.confidence <= 1.0
  {
    ClassifyLinesParts(ml, rules, raw, clean);
    RecordConfidences(ml, rules, raw, clean);
    CollectConfidence(MlRecords(ml, raw, clean), |raw|, ConfThreshold);
    CollectConfidence(RuleRecords(ml, rules, raw, clean), |raw|, ConfThreshold);
    var r := ClassifyLines(ml, rules, raw, clean);
    forall k | 0 <= k < |r| ensures ValidClassification(r[k]) {
      assert r[k] in r;
    }
  }

  /** The loaded bundle is that of the greatest `classifier_*.joblib` name. */
  lemma LoadsGreatestName(files: seq<string>, load: string -> ClassifierBundle)
    ensures var names := Glob(files, "classifier_", ".joblib");
      LoadLatest(files, load) == if names == [] then None else Some(load(Greatest(names).value))
  {
    var names := Glob(files, "classifier_", ".joblib");
    if names != [] {
      SortedLastIsGreatest(names);
    } else {
      assert Sort(names) == [];
    }
  }

  /** The ML records come first: when line 1 falls back to a rule and
      line 2 has an accepted ML prediction, line 2's record is listed
      before line 1's. */
  lemma MlRecordsComeFirst(ml: Option<ClassifierBundle>, rules: seq<Rule>, raw: seq<string>, clean: seq<string>)
    requires MaybeWellFormed(ml) && |raw| == 2 && |clean| == 2
    requires MlAt(ml, clean[0], raw[0], 1).None? && RuleRecord(rules, raw[0], 1).Some?
    requires MlAt(ml, clean[1], raw[1], 2).Some?
    ensures var r := ClassifyLines(ml, rules, raw, clean);
      && r == [MlAt(ml, clean[1], raw[1], 2).value, RuleRecord(rules, raw[0], 1).value]
      && r[0].lineNumber == 2 && r[1].lineNumber == 1
  {
    ClassifyLinesParts(ml, rules, raw, clean);
    var m := MlRecords(ml, raw, clean);
    var u := RuleRecords(ml, rules, raw, clean);
    CollectNext(m, 0);
    CollectNext(m, 1);
    CollectNext(u, 0);
    CollectNext(u, 1);
    assert u[1] == None;
  }

  /** Rule order decides: a line naming both a segmentation fault and a
      timeout is a `TimeoutError`. */
  lemma FirstRuleWins(s: string)
    requires s == "Segmentation fault after TIMEOUT"
    ensures FirstMatch(Patterns, s) == Some("TimeoutError")
    ensures Search(Patterns[1].pattern, s)
  {
    assert MatchAt(s, 25, "timeout");
    assert MatchAt(s, 0, "segmentation fault");
    FirstMatchIsEarliest(Patterns, s, 0);
  }

  /** On a tie the first class wins, and a tie at 0.5 is accepted. */
  lemma TieGoesToFirstClass(p: seq<real>)
    requires p == [0.5, 0.5]
    ensures ArgMax(p) == 0 && Max(p) >= ConfThreshold
  {
    assert p[..1] == [0.5];
  }
}
