/** scripts/eval_pr.py: scores every line of every analysed log for the
    precision-recall curve. For each `*.json` analyser response the log of
    the same stem is read; each of its lines gets `y_true` 1 when it equals
    the message of some reported anomaly, and `y_score` the negated score of
    the first such anomaly (0.0 when there is none).

    The responses are given in the order of the directory listing, each as
    its anomaly list together with the text of its log. The curve, the
    average precision and the plot are left out. */
module EvalPr {
  import opened Strings
  import opened Collections
  import opened Schemas

  /** One `*.json` response and the text of its `.log`. */
  datatype Scored = Scored(anomalies: seq<Anomaly>, log: string)

  /** The two parallel lists `y_true` and `y_score`. */
  datatype Lists = Lists(yTrue: seq<int>, yScore: seq<real>)

  function Append(a: Lists, b: Lists): Lists {
    Lists(a.yTrue + b.yTrue, a.yScore + b.yScore)
  }

  /** `err_lines = {a["message"] for a in data["anomalies"]}`. */
  function ErrLines(anomalies: seq<Anomaly>): set<string> {
    set a | a in anomalies :: a.message
  }

  /** `next((a["score"] for a in anomalies if a["message"] == ln), 0.0)`. */
  function FirstScore(anomalies: seq<Anomaly>, ln: string): real {
    if anomalies == [] then 0.0
    else if anomalies[0].message == ln then anomalies[0].score
    else FirstScore(anomalies[1..], ln)
  }

  /** `1 if ln in err_lines else 0`. */
  function TrueOf(errLines: set<string>): string -> int {
    ln => if ln in errLines then 1 else 0
  }

  /** `-score`. */
  function ScoreOf(anomalies: seq<Anomaly>): string -> real {
    ln => -FirstScore(anomalies, ln)
  }

  /** What one response contributes: one entry per line of its log. */
  function Entries(anomalies: seq<Anomaly>, lines: seq<string>): Lists {
    Lists(MapSeq(TrueOf(ErrLines(anomalies)), lines), MapSeq(ScoreOf(anomalies), lines))
  }

  /** The lines of the log paired with a response. */
  function LogOf(s: Scored): seq<string> {
    SplitLines(s.log)
  }

  /** The lists after the loop over all responses. */
  function Evaluation(responses: seq<Scored>): Lists {
    if responses == [] then Lists([], [])
    else
      var last := responses[|responses| - 1];
      Append(Evaluation(responses[..|responses| - 1]), Entries(last.anomalies, LogOf(last)))
  }

  /** The module-level loops of the script. */
  method Run(responses: seq<Scored>) returns (l: Lists)
    ensures l == Evaluation(responses)
  {
    l := Lists([], []);
    var i := 0;
    while i < |responses|
      invariant 0 <= i <= |responses|
      invariant l == Evaluation(responses[..i])
    {
      assert responses[..i + 1][..i] == responses[..i];
      l := ScoreLog(responses[i].anomalies, responses[i].log, l);
      i := i + 1;
    }
    assert responses[..|responses|] == responses;
  }

  /** The loop over the lines of one log, appending to `l0`. */
  method ScoreLog(anomalies: seq<Anomaly>, log: string, l0: Lists) returns (l: Lists)
    ensures l == Append(l0, Entries(anomalies, SplitLines(log)))
  {
    var lines := SplitLines(log);
    var errLines := ErrLines(anomalies);
    l := l0;
    var j := 0;
    while j < |lines|
      invariant 0 <= j <= |lines|
      invariant l == Append(l0, Entries(anomalies, lines[..j]))
    {
      var ln := lines[j];
      var score := FirstScore(anomalies, ln);
      ghost var prev := Entries(anomalies, lines[..j]);
      MapSeqSnoc(TrueOf(errLines), lines, j);
      MapSeqSnoc(ScoreOf(anomalies), lines, j);
      AppendAssoc(l0.yTrue, prev.yTrue, [if ln in errLines then 1 else 0]);
      AppendAssoc(l0.yScore, prev.yScore, [-score]);
      l := Lists(l.yTrue + [if ln in errLines then 1 else 0], l.yScore + [-score]);
      j := j + 1;
    }
    assert lines[..|lines|] == lines;
  }

  // ---------------------------------------------------------------------
  // Properties
  // ---------------------------------------------------------------------

  /** `next` yields the score of the first anomaly whose message is the
      line. */
  lemma {:induction false} FirstScoreIsFirst(anomalies: seq<Anomaly>, ln: string, k: nat)
    requires k < |anomalies| && anomalies[k].message == ln
    requires forall j :: 0 <= j < k ==> anomalies[j].message != ln
    ensures FirstScore(anomalies, ln) == anomalies[k].score
  {
    if k > 0 {
      FirstScoreIsFirst(anomalies[1..], ln, k - 1);
    }
  }

  /** With no anomaly of that message, the default 0.0 is used. */
  lemma {:induction false} FirstScoreDefault(anomalies: seq<Anomaly>, ln: string)
    requires forall j :: 0 <= j < |anomalies| ==> anomalies[j].message != ln
    ensures FirstScore(anomalies, ln) == 0.0
  {
    if anomalies != [] {
      FirstScoreDefault(anomalies[1..], ln);
    }
  }

  /** Every line of the log gets an entry, in order: `y_true` is 1 exactly
      when the line is the message of some anomaly, and then `y_score` is
      the negated score of the first such anomaly; otherwise `y_score` is
      0.0. */
  lemma EntryMeaning(anomalies: seq<Anomaly>, lines: seq<string>, k: nat)
    requires k < |lines|
    ensures var e := Entries(anomalies, lines);
            && |e.yTrue| == |lines| && |e.yScore| == |lines|
            && (e.yTrue[k] == 1 <==> exists j :: 0 <= j < |anomalies| && anomalies[j].message == lines[k])
            && (e.yTrue[k] == 0 <==> !exists j :: 0 <= j < |anomalies| && anomalies[j].message == lines[k])
            && (e.yTrue[k] == 0 ==> e.yScore[k] == 0.0)
  {
    var e := Entries(anomalies, lines);
    var ln := lines[k];
    if exists j :: 0 <= j < |anomalies| && anomalies[j].message == ln {
      var j :| 0 <= j < |anomalies| && anomalies[j].message == ln;
      assert anomalies[j] in anomalies;
    } else {
      FirstScoreDefault(anomalies, ln);
    }
  }

  /** Exactly one entry per line of every log, blank lines included. */
  lemma {:induction false} OneEntryPerLine(responses: seq<Scored>)
    ensures |Evaluation(responses).yTrue| == |FlatMap(LogOf, responses)|
    ensures |Evaluation(responses).yScore| == |FlatMap(LogOf, responses)|
  {
    if responses != [] {
      var front := responses[..|responses| - 1];
      OneEntryPerLine(front);
      FlatMapSnoc(LogOf, responses, |responses| - 1);
      assert responses[..|responses|] == responses;
    }
  }

  /** Log lines are compared as read, while the analyser reports
      right-stripped lines: a flagged line with trailing blanks counts as a
      negative with score 0.0, and a blank line still gets an entry. */
  lemma TrailingBlankNeverMatches(anomalies: seq<Anomaly>, lines: seq<string>)
    requires anomalies == [Anomaly(1, -0.2, "disk error")]
    requires lines == ["disk error ", ""]
    ensures Entries(anomalies, lines) == Lists([0, 0], [0.0, 0.0])
  {
    assert ErrLines(anomalies) == {"disk error"};
    FirstScoreDefault(anomalies, "disk error ");
    FirstScoreDefault(anomalies, "");
  }
}
