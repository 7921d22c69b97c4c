/** `Analyser.analyse` (app/service/analyser.py): choose the newest anomaly
    bundle, drop blank lines, flag the lines whose score is at or below the
    bundle's threshold and, only when none is, fall back to flagging the
    lines that name an error keyword.

    The analyser object only remembers its models directory; here the
    directory is the list of file names in it, and reading a bundle is the
    function `load`. A bundle's fitted vectoriser and isolation forest are
    opaque: they are the per-line scoring function `decision`. */
module Analyser {
  import opened Wrappers
  import opened Strings
  import opened Regex
  import opened Collections
  import opened Preprocess
  import opened Schemas

  /** What a stored anomaly bundle provides. */
  datatype AnomalyBundle = AnomalyBundle(threshold: real, decision: string -> real)

  datatype AnalyseError = NoModelTrained | InvalidRecord

  /** The `{"anomalies": ..., "model_used": ...}` result. */
  datatype Analysis = Analysis(anomalies: seq<Anomaly>, modelUsed: string)

  /** `models_dir.glob("model_*.joblib")`, in listing order. */
  function ModelFiles(files: seq<string>): seq<string> {
    Glob(files, "model_", ".joblib")
  }

  /** `_ERR_PAT.search(raw)` for `\b(ERROR|FAIL|FATAL)\b` with `re.I`. */
  predicate IsErrorLine(raw: string) {
    ContainsWord(raw, "ERROR") || ContainsWord(raw, "FAIL") || ContainsWord(raw, "FATAL")
  }

  /** The score of every kept line: the forest's decision function on the
      line's normal form. */
  function Scores(b: AnomalyBundle, raw: seq<string>): (scores: seq<real>)
    ensures |scores| == |raw|
    ensures forall i :: 0 <= i < |raw| ==> scores[i] == b.decision(CleanLine(raw[i]))
  {
    MapSeq(b.decision, MapSeq(CleanLine, raw))
  }

  /** `a` is the primary record for one of the first `n` lines: that line
      scores at or below the threshold and is reported with its own 1-based
      number, score and text. */
  predicate IsPrimaryRecord(a: Anomaly, raw: seq<string>, scores: seq<real>, threshold: real, n: nat)
    requires |scores| == |raw| && n <= |raw|
  {
    1 <= a.lineNumber <= n && scores[a.lineNumber - 1] <= threshold
    && a == Anomaly(a.lineNumber, scores[a.lineNumber - 1], raw[a.lineNumber - 1])
  }

  /** The primary comprehension over the first `n` lines: primary records
      only, in strictly increasing line order. */
  function Primary(raw: seq<string>, scores: seq<real>, threshold: real, n: nat): (r: seq<Anomaly>)
    requires |scores| == |raw| && n <= |raw|
    ensures forall k :: 0 <= k < |r| ==> IsPrimaryRecord(r[k], raw, scores, threshold, n)
    ensures forall k, l :: 0 <= k < l < |r| ==> r[k].lineNumber < r[l].lineNumber
  {
    if n == 0 then []
    else
      var front := Primary(raw, scores, threshold, n - 1);
      if scores[n - 1] <= threshold then front + [Anomaly(n, scores[n - 1], raw[n - 1])] else front
  }

  /** No line scoring at or below the threshold is missed. */
  lemma {:induction false} PrimaryComplete(raw: seq<string>, scores: seq<real>, threshold: real, n: nat, i: nat)
    requires |scores| == |raw| && i < n <= |raw| && scores[i] <= threshold
    ensures Anomaly(i + 1, scores[i], raw[i]) in Primary(raw, scores, threshold, n)
  {
    if i < n - 1 {
      PrimaryComplete(raw, scores, threshold, n - 1, i);
    }
  }

  /** With every line above the threshold, nothing is flagged. */
  lemma {:induction false} PrimaryEmpty(raw: seq<string>, scores: seq<real>, threshold: real, n: nat)
    requires |scores| == |raw| && n <= |raw|
    requires forall i :: 0 <= i < n ==> scores[i] > threshold
    ensures Primary(raw, scores, threshold, n) == []
  {
    if n > 0 {
      PrimaryEmpty(raw, scores, threshold, n - 1);
    }
  }

  /** `a` is the fallback record for one of the first `n` lines: that line
      scores above the threshold, names an error keyword (`named[i]` says
      whether line `i` does) and is reported with the synthetic score
      `threshold - 0.001`. */
  predicate IsFallbackRecord(a: Anomaly, raw: seq<string>, scores: seq<real>, named: seq<bool>, threshold: real, n: nat)
    requires |scores| == |raw| == |named| && n <= |raw|
  {
    1 <= a.lineNumber <= n
    && scores[a.lineNumber - 1] > threshold && named[a.lineNumber - 1]
    && a == Anomaly(a.lineNumber, threshold - 0.001, raw[a.lineNumber - 1])
  }

  /** The keyword fallback over the first `n` lines: fallback records only,
      in strictly increasing line order. */
  function Fallback(raw: seq<string>, scores: seq<real>, named: seq<bool>, threshold: real, n: nat): (r: seq<Anomaly>)
    requires |scores| == |raw| == |named| && n <= |raw|
    ensures forall k :: 0 <= k < |r| ==> IsFallbackRecord(r[k], raw, scores, named, threshold, n)
    ensures forall k, l :: 0 <= k < l < |r| ==> r[k].lineNumber < r[l].lineNumber
  {
    if n == 0 then []
    else
      var front := Fallback(raw, scores, named, threshold, n - 1);
      if scores[n - 1] > threshold && named[n - 1]
      then front + [Anomaly(n, threshold - 0.001, raw[n - 1])]
      else front
  }

  /** No line qualifying for the fallback is missed. */
  lemma {:induction false} FallbackComplete(raw: seq<string>, scores: seq<real>, named: seq<bool>, threshold: real, n: nat, i: nat)
    requires |scores| == |raw| == |named| && i < n <= |raw| && scores[i] > threshold && named[i]
    ensures Anomaly(i + 1, threshold - 0.001, raw[i]) in Fallback(raw, scores, named, threshold, n)
  {
    if i < n - 1 {
      FallbackComplete(raw, scores, named, threshold, n - 1, i);
    }
  }

  /** Which kept lines name an error keyword. */
  function ErrorFlags(raw: seq<string>): (named: seq<bool>)
    ensures |named| == |raw| && forall i :: 0 <= i < |raw| ==> (named[i] <==> IsErrorLine(raw[i]))
  {
    MapSeq(IsErrorLine, raw)
  }

  /** The fallback over fewer lines is a prefix of the fallback over more. */
  lemma {:induction false} FallbackPrefix(raw: seq<string>, scores: seq<real>, named: seq<bool>, threshold: real, m: nat, n: nat)
    requires |scores| == |raw| == |named| && m <= n <= |raw|
    ensures Fallback(raw, scores, named, threshold, m) <= Fallback(raw, scores, named, threshold, n)
    decreases n - m
  {
    if m < n {
      FallbackPrefix(raw, scores, named, threshold, m, n - 1);
      var a := Fallback(raw, scores, named, threshold, m);
      var b := Fallback(raw, scores, named, threshold, n - 1);
      var c := Fallback(raw, scores, named, threshold, n);
      assert b <= c;
      PrefixTransitive(a, b, c);
    }
  }

  /** The anomaly list of a non-empty text: the primary list, or the
      fallback when the primary list is empty. */
  function Selected(raw: seq<string>, scores: seq<real>, threshold: real): seq<Anomaly>
    requires |scores| == |raw|
  {
    var primary := Primary(raw, scores, threshold, |raw|);
    if primary != [] then primary else Fallback(raw, scores, ErrorFlags(raw), threshold, |raw|)
  }

  /** What `analyse` returns, or the error it raises. */
  function AnalyseSpec(files: seq<string>, load: string -> AnomalyBundle, text: string): Result<Analysis, AnalyseError> {
    match Greatest(ModelFiles(files))
    case None => Failure(NoModelTrained)
    case Some(name) =>
      var b := load(name);
      var raw := RawLines(text);
      if raw == [] then Success(Analysis([], name))
      else
        var anomalies := Selected(raw, Scores(b, raw), b.threshold);
        if AllValidAnomalies(anomalies) then Success(Analysis(anomalies, name)) else Failure(InvalidRecord)
  }


  /** The outcome of building the fallback list for a text whose primary
      list is empty. */
  function FallbackOutcome(raw: seq<string>, scores: seq<real>, threshold: real): Result<seq<Anomaly>, AnalyseError>
    requires |scores| == |raw|
  {
    var f := Fallback(raw, scores, ErrorFlags(raw), threshold, |raw|);
    if AllValidAnomalies(f) then Success(f) else Failure(InvalidRecord)
  }

  /** The fallback loop: appends one record per qualifying line, validating
      each record as it is built. */
  method KeywordFallback(raw: seq<string>, scores: seq<real>, threshold: real)
    returns (r: Result<seq<Anomaly>, AnalyseError>)
    requires |scores| == |raw|
    ensures r == FallbackOutcome(raw, scores, threshold)
  {
    var named := ErrorFlags(raw);
    var anomalies := [];
    var i := 0;
    while i < |raw|
      invariant 0 <= i <= |raw|
      invariant anomalies == Fallback(raw, scores, named, threshold, i)
      invariant AllValidAnomalies(anomalies)
    {
      if scores[i] > threshold && IsErrorLine(raw[i]) {
        var a := Anomaly(i + 1, threshold - 0.001, raw[i]);
        if !ValidAnomaly(a) {
          FallbackPrefix(raw, scores, named, threshold, i + 1, |raw|);
          assert Fallback(raw, scores, named, threshold, |raw|)[|anomalies|] == a;
          return Failure(InvalidRecord);
        }
        anomalies := anomalies + [a];
      }
      i := i + 1;
    }
    return Success(anomalies);
  }

  /** `Analyser.analyse(text)`. Records are validated as they are built; an
      out-of-range score raises. */
  method Analyse(files: seq<string>, load: string -> AnomalyBundle, text: string)
    returns (r: Result<Analysis, AnalyseError>)
    ensures r == AnalyseSpec(files, load, text)
  {
    var latest := Greatest(ModelFiles(files));
    if latest.None? {
      return Failure(NoModelTrained);
    }
    var name := latest.value;
    var bundle := load(name);
    var raw := RawLines(text);
    if |raw| == 0 {
      return Success(Analysis([], name));
    }
    var scores := Scores(bundle, raw);
    var anomalies := Primary(raw, scores, bundle.threshold, |raw|);
    if !AllValidAnomalies(anomalies) {
      return Failure(InvalidRecord);
    }
    if anomalies == [] {
      var fallback := KeywordFallback(raw, scores, bundle.threshold);
      if fallback.Failure? {
        return Failure(InvalidRecord);
      }
      anomalies := fallback.value;
    }
    return Success(Analysis(anomalies, name));
  }

  // ---------------------------------------------------------------------
  // Properties
  // ---------------------------------------------------------------------

  /** Without a `model_*.joblib` file the call fails with "No model trained",
      whatever the text; with one it never fails that way. */
  lemma NoModelMeansNoAnalysis(files: seq<string>, load: string -> AnomalyBundle, text: string)
    ensures AnalyseSpec(files, load, text) == Failure(NoModelTrained)
        <==> forall n :: n in files ==> !StarMatch(n, "model_", ".joblib")
  {
    if exists n :: n in files && StarMatch(n, "model_", ".joblib") {
      var n :| n in files && StarMatch(n, "model_", ".joblib");
      assert n in ModelFiles(files);
    }
  }

  /** The bundle used is the greatest model file name, and the result
      reports that name. */
  lemma ModelUsedIsGreatest(files: seq<string>, load: string -> AnomalyBundle, text: string)
    requires AnalyseSpec(files, load, text).Success?
    ensures var used := AnalyseSpec(files, load, text).value.modelUsed;
      used in files && StarMatch(used, "model_", ".joblib")
      && forall n :: n in files && StarMatch(n, "model_", ".joblib") ==> LexLe(n, used)
  {
  }

  /** The anomalies name lines of `raw` by their 1-based number, with the
      line itself as message, in strictly increasing order. */
  predicate PointsAtLines(out: seq<Anomaly>, raw: seq<string>) {
    && (forall k :: 0 <= k < |out| ==> 1 <= out[k].lineNumber <= |raw| && out[k].message == raw[out[k].lineNumber - 1])
    && (forall k, l :: 0 <= k < l < |out| ==> out[k].lineNumber < out[l].lineNumber)
  }

  /** Both branches of the selection point at the lines they report. */
  lemma SelectedPointsAtLines(raw: seq<string>, scores: seq<real>, threshold: real)
    requires |scores| == |raw|
    ensures PointsAtLines(Selected(raw, scores, threshold), raw)
  {
    var p := Primary(raw, scores, threshold, |raw|);
    if p == [] {
      var f := Fallback(raw, scores, ErrorFlags(raw), threshold, |raw|);
      assert forall k :: 0 <= k < |f| ==> IsFallbackRecord(f[k], raw, scores, ErrorFlags(raw), threshold, |raw|);
    } else {
      assert forall k :: 0 <= k < |p| ==> IsPrimaryRecord(p[k], raw, scores, threshold, |raw|);
    }
  }

  /** Every reported anomaly points at a kept line: its number is a 1-based
      index into the non-blank, right-stripped lines, and its message is that
      line. Line numbers strictly increase and every record is valid. */
  lemma AnomaliesPointAtKeptLines(files: seq<string>, load: string -> AnomalyBundle, text: string)
    requires AnalyseSpec(files, load, text).Success?
    ensures var out := AnalyseSpec(files, load, text).value.anomalies;
      AllValidAnomalies(out) && PointsAtLines(out, RawLines(text))
  {
    var b := load(Greatest(ModelFiles(files)).value);
    var raw := RawLines(text);
    if raw != [] {
      var scores := Scores(b, raw);
      assert AnalyseSpec(files, load, text).value.anomalies == Selected(raw, scores, b.threshold);
      SelectedPointsAtLines(raw, scores, b.threshold);
    }
  }

  /** A text without a non-blank line yields no anomaly. */
  lemma BlankTextHasNoAnomalies(files: seq<string>, load: string -> AnomalyBundle, text: string)
    requires RawLines(text) == []
    requires exists n :: n in files && StarMatch(n, "model_", ".joblib")
    ensures AnalyseSpec(files, load, text).Success?
    ensures AnalyseSpec(files, load, text).value.anomalies == []
  {
    var n :| n in files && StarMatch(n, "model_", ".joblib");
    assert n in ModelFiles(files);
  }

  /** When some line scores at or below the threshold, the result is exactly
      the primary list: the fallback never adds to it. */
  lemma PrimaryWins(raw: seq<string>, scores: seq<real>, threshold: real, i: nat)
    requires |scores| == |raw| && i < |raw| && scores[i] <= threshold
    ensures Selected(raw, scores, threshold) == Primary(raw, scores, threshold, |raw|)
    ensures Anomaly(i + 1, scores[i], raw[i]) in Selected(raw, scores, threshold)
  {
    PrimaryComplete(raw, scores, threshold, |raw|, i);
  }

  /** When no line scores at or below the threshold, the result is exactly
      the fallback list: each record names an error keyword and carries the
      score `threshold - 0.001`, and every such line is reported. */
  lemma FallbackOnlyWhenNothingFlagged(raw: seq<string>, scores: seq<real>, threshold: real)
    requires |scores| == |raw|
    requires forall i :: 0 <= i < |raw| ==> scores[i] > threshold
    ensures Selected(raw, scores, threshold) == Fallback(raw, scores, ErrorFlags(raw), threshold, |raw|)
    ensures forall k :: 0 <= k < |Selected(raw, scores, threshold)| ==>
      var a := Selected(raw, scores, threshold)[k];
      IsErrorLine(a.message) && a.score == threshold - 0.001 && a.message == raw[a.lineNumber - 1]
    ensures forall i :: 0 <= i < |raw| && IsErrorLine(raw[i]) ==>
      Anomaly(i + 1, threshold - 0.001, raw[i]) in Selected(raw, scores, threshold)
  {
    PrimaryEmpty(raw, scores, threshold, |raw|);
    var named := ErrorFlags(raw);
    forall i | 0 <= i < |raw| && IsErrorLine(raw[i])
      ensures Anomaly(i + 1, threshold - 0.001, raw[i]) in Selected(raw, scores, threshold)
    {
      FallbackComplete(raw, scores, named, threshold, |raw|, i);
    }
  }

  /** The keyword test needs a whole word: `FAILED` alone does not name an
      error, while `fatal` and `Error:` do. */
  lemma KeywordIsWholeWord(s: string, t: string, u: string)
    requires s == "FAILED" && t == "kernel fatal" && u == "Error: disk"
    ensures !IsErrorLine(s)
    ensures IsErrorLine(t) && IsErrorLine(u)
  {
    assert !ContainsWord(s, "ERROR") by {
      forall i | 0 <= i <= |s| - 5 ensures !MatchAt(s, i, "ERROR") {
        assert LowerChar(s[i]) != LowerChar("ERROR"[0]);
      }
    }
    assert !ContainsWord(s, "FAIL") by {
      forall i | 0 <= i <= |s| - 4 ensures !WordAt(s, i, "FAIL") {
        if i == 0 { assert !WordBoundary(s, 4); }
        else { assert LowerChar(s[i]) != LowerChar("FAIL"[0]); }
      }
    }
    assert !ContainsWord(s, "FATAL") by {
      forall i | 0 <= i <= |s| - 5 ensures !MatchAt(s, i, "FATAL") {
        if i == 0 { assert LowerChar(s[2]) != LowerChar("FATAL"[2]); }
        else { assert LowerChar(s[i]) != LowerChar("FATAL"[0]); }
      }
    }
    assert WordAt(t, 7, "FATAL");
    assert WordAt(u, 0, "ERROR");
  }
}
