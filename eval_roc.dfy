/** scripts/eval_roc.py: scores every reported anomaly against a label
    table for the ROC curve. The table is parsed naively, line by line: the
    header line is skipped, the text before the first comma is the key and
    the stripped second comma field the value. Every anomaly of every
    analyser response then gets `y_true` 1 when its message is a key, and
    `y_score` its negated score. The curve is drawn only when both classes
    occur.

    The table is given as its text and the responses in the order of the
    directory listing. The curve, its area and the plot are left out. */
module EvalRoc {
  import opened Wrappers
  import opened Strings
  import opened Collections
  import opened Schemas

  /** The two parallel lists `y_true` and `y_score`. */
  datatype Lists = Lists(yTrue: seq<int>, yScore: seq<real>)

  /** Why no curve comes out: a table row without a comma (`IndexError`
      while building `gt`), or `y_true` holding fewer than two classes. */
  datatype Stop = IndexError | SingleClass

  function Append(a: Lists, b: Lists): Lists {
    Lists(a.yTrue + b.yTrue, a.yScore + b.yScore)
  }

  // ---------------------------------------------------------------------
  // `gt`
  // ---------------------------------------------------------------------

  /** `(row.split(",")[0], row.split(",")[1].strip())`, or nothing when the
      row has no second field. */
  function GtEntry(row: string): Option<(string, string)> {
    var fields := Split(row, ',');
    if |fields| < 2 then None else Some((fields[0], Strip(fields[1])))
  }

  /** The comprehension's entries, in row order; it stops at the first row
      without a comma. */
  function GtPairs(rows: seq<string>): Option<seq<(string, string)>> {
    if rows == [] then Some([])
    else
      match GtEntry(rows[0])
      case None => None
      case Some(e) =>
        match GtPairs(rows[1..])
        case None => None
        case Some(rest) => Some([e] + rest)
  }

  /** `text.splitlines()[1:]`: every line but the first. */
  function DataRows(text: string): seq<string> {
    var lines := SplitLines(text);
    if lines == [] then [] else lines[1..]
  }

  /** The `gt` dict comprehension: later rows overwrite earlier ones. */
  function Gt(text: string): Result<map<string, string>, Stop> {
    match GtPairs(DataRows(text))
    case None => Failure(IndexError)
    case Some(pairs) => Success(ToMap(pairs))
  }

  // ---------------------------------------------------------------------
  // Pairing
  // ---------------------------------------------------------------------

  /** `1 if a["message"] in gt else 0`. */
  function TrueOf(gt: map<string, string>): Anomaly -> int {
    (a: Anomaly) => if a.message in gt then 1 else 0
  }

  /** `-a["score"]`. */
  function NegatedScore(a: Anomaly): real {
    -a.score
  }

  /** One entry per anomaly. */
  function Scores(gt: map<string, string>, anomalies: seq<Anomaly>): Lists {
    Lists(MapSeq(TrueOf(gt), anomalies), MapSeq(NegatedScore, anomalies))
  }

  function AnomaliesOf(r: AnalyseResponse): seq<Anomaly> {
    r.anomalies
  }

  /** The lists after the loop over the responses. */
  function Evaluation(gt: map<string, string>, responses: seq<AnalyseResponse>): Lists {
    if responses == [] then Lists([], [])
    else
      Append(Evaluation(gt, responses[..|responses| - 1]), Scores(gt, responses[|responses| - 1].anomalies))
  }

  /** `set(y_true)`. */
  function Classes(yTrue: seq<int>): set<int> {
    set y | y in yTrue
  }

  /** `main()` up to the curve: the two lists when the table parses and both
      classes occur. */
  method Run(csv: string, responses: seq<AnalyseResponse>) returns (run: Result<Lists, Stop>)
    ensures Gt(csv).Failure? ==> run == Failure(IndexError)
    ensures Gt(csv).Success? ==>
              var l := Evaluation(Gt(csv).value, responses);
              && (run.Failure? <==> |Classes(l.yTrue)| < 2)
              && (run.Failure? ==> run.error == SingleClass)
              && (run.Success? ==> run.value == l)
  {
    var parsed := Gt(csv);
    if parsed.Failure? {
      return Failure(IndexError);
    }
    var gt := parsed.value;
    var l := Lists([], []);
    var i := 0;
    while i < |responses|
      invariant 0 <= i <= |responses|
      invariant l == Evaluation(gt, responses[..i])
    {
      assert responses[..i + 1][..i] == responses[..i];
      l := ScoreAnomalies(gt, responses[i].anomalies, l);
      i := i + 1;
    }
    assert responses[..|responses|] == responses;
    if |Classes(l.yTrue)| < 2 {
      return Failure(SingleClass);
    }
    run := Success(l);
  }

  /** The loop over the anomalies of one response, appending to `l0`. */
  method ScoreAnomalies(gt: map<string, string>, anomalies: seq<Anomaly>, l0: Lists) returns (l: Lists)
    ensures l == Append(l0, Scores(gt, anomalies))
  {
    l := l0;
    var j := 0;
    while j < |anomalies|
      invariant 0 <= j <= |anomalies|
      invariant l == Append(l0, Scores(gt, anomalies[..j]))
    {
      var a := anomalies[j];
      ghost var prev := Scores(gt, anomalies[..j]);
      MapSeqSnoc(TrueOf(gt), anomalies, j);
      MapSeqSnoc(NegatedScore, anomalies, j);
      AppendAssoc(l0.yTrue, prev.yTrue, [if a.message in gt then 1 else 0]);
      AppendAssoc(l0.yScore, prev.yScore, [-a.score]);
      l := Lists(l.yTrue + [if a.message in gt then 1 else 0], l.yScore + [-a.score]);
      j := j + 1;
    }
    assert anomalies[..|anomalies|] == anomalies;
  }

  // ---------------------------------------------------------------------
  // Properties
  // ---------------------------------------------------------------------

  /** A row gives an entry exactly when it has a comma: the text before
      the first comma and the stripped second field. */
  lemma GtEntrySpec(row: string)
    ensures GtEntry(row).None? <==> ',' !in row
    ensures GtEntry(row).Some? ==> GtEntry(row).value == (row[..IndexOf(row, ',')], Strip(Split(row, ',')[1]))
  {
    SplitFirstFields(row, ',');
  }

  /** The comprehension fails exactly when some row gives no entry. */
  lemma {:induction false} GtPairsFails(rows: seq<string>)
    ensures GtPairs(rows).None? <==> exists k :: 0 <= k < |rows| && GtEntry(rows[k]).None?
  {
    if rows != [] {
      GtPairsFails(rows[1..]);
      if exists k :: 0 <= k < |rows[1..]| && GtEntry(rows[1..][k]).None? {
        var k :| 0 <= k < |rows[1..]| && GtEntry(rows[1..][k]).None?;
        assert rows[k + 1] == rows[1..][k];
      }
      if exists k :: 0 < k < |rows| && GtEntry(rows[k]).None? {
        var k :| 0 < k < |rows| && GtEntry(rows[k]).None?;
        assert rows[1..][k - 1] == rows[k];
      }
    }
  }

  /** When it succeeds, row `k` gives entry `k`. */
  lemma {:induction false} GtPairsEntries(rows: seq<string>)
    requires GtPairs(rows).Some?
    ensures |GtPairs(rows).value| == |rows|
    ensures forall k :: 0 <= k < |rows| ==> GtEntry(rows[k]) == Some(GtPairs(rows).value[k])
  {
    if rows != [] {
      GtPairsEntries(rows[1..]);
      var rest := GtPairs(rows[1..]).value;
      forall k | 0 < k < |rows| ensures GtEntry(rows[k]) == Some(GtPairs(rows).value[k]) {
        assert rows[k] == rows[1..][k - 1];
        assert GtPairs(rows).value[k] == rest[k - 1];
      }
    }
  }

  /** The parse fails exactly when some row has no comma; otherwise row `k`
      gives the entry whose key is its text before the first comma and
      whose value is its second field, stripped. */
  lemma GtPairsSpec(rows: seq<string>)
    ensures GtPairs(rows).None? <==> exists k :: 0 <= k < |rows| && ',' !in rows[k]
    ensures GtPairs(rows).Some? ==>
              && |GtPairs(rows).value| == |rows|
              && forall k :: 0 <= k < |rows| ==>
                   GtPairs(rows).value[k] == (rows[k][..IndexOf(rows[k], ',')], Strip(Split(rows[k], ',')[1]))
  {
    GtPairsFails(rows);
    forall k | 0 <= k < |rows| ensures GtEntry(rows[k]).None? <==> ',' !in rows[k] {
      GtEntrySpec(rows[k]);
    }
    if GtPairs(rows).Some? {
      GtPairsEntries(rows);
      forall k | 0 <= k < |rows|
        ensures GtPairs(rows).value[k] == (rows[k][..IndexOf(rows[k], ',')], Strip(Split(rows[k], ',')[1]))
      {
        GtEntrySpec(rows[k]);
      }
    }
  }

  /** The keys of `gt` are the texts before the first comma of the rows
      after the header; the header line itself is never read. */
  lemma GtKeys(text: string, key: string)
    requires Gt(text).Success?
    ensures key in Gt(text).value <==>
              exists k :: 0 <= k < |DataRows(text)| && DataRows(text)[k][..IndexOf(DataRows(text)[k], ',')] == key
  {
    var rows := DataRows(text);
    GtPairsSpec(rows);
    var pairs := GtPairs(rows).value;
    if key in Gt(text).value {
      var k :| 0 <= k < |pairs| && pairs[k].0 == key;
    }
    if exists k :: 0 <= k < |rows| && rows[k][..IndexOf(rows[k], ',')] == key {
      var k :| 0 <= k < |rows| && rows[k][..IndexOf(rows[k], ',')] == key;
      assert pairs[k].0 == key;
    }
  }

  /** The first comma ends the key, whatever follows. */
  lemma {:induction false} IndexOfFirst(s: string, sep: char, k: nat)
    requires k < |s| && s[k] == sep && sep !in s[..k]
    ensures IndexOf(s, sep) == k
  {
    if k > 0 {
      assert s[0] == s[..k][0];
      assert s[1..][..k - 1] == s[..k][1..];
      IndexOfFirst(s[1..], sep, k - 1);
    }
  }

  /** A value is whatever lies between the first and the second comma: the
      fields after the second one are dropped. */
  lemma SecondFieldIsValue(key: string, value: string, rest: string)
    requires ',' !in key && ',' !in value
    ensures GtEntry(key + "," + value + "," + rest) == Some((key, Strip(value)))
  {
    var row := key + "," + value + "," + rest;
    var tail := value + "," + rest;
    assert row[..|key|] == key && row[|key|] == ',';
    IndexOfFirst(row, ',', |key|);
    assert row[|key| + 1..] == tail;
    assert tail[..|value|] == value && tail[|value|] == ',';
    IndexOfFirst(tail, ',', |value|);
    assert Split(row, ',') == [key] + Split(tail, ',');
    assert Split(tail, ',') == [value] + Split(tail[|value| + 1..], ',');
  }

  /** There is exactly one entry per anomaly across all responses, in
      order: `y_true` is 1 exactly when the anomaly's message is a key of
      `gt`, and `y_score` is its negated score. */
  lemma {:induction false} OneEntryPerAnomaly(gt: map<string, string>, responses: seq<AnalyseResponse>)
    ensures Evaluation(gt, responses) == Scores(gt, FlatMap(AnomaliesOf, responses))
  {
    if responses != [] {
      var front := responses[..|responses| - 1];
      OneEntryPerAnomaly(gt, front);
      FlatMapSnoc(AnomaliesOf, responses, |responses| - 1);
      assert responses[..|responses|] == responses;
      var a := FlatMap(AnomaliesOf, front);
      var b := responses[|responses| - 1].anomalies;
      assert MapSeq(TrueOf(gt), a + b) == MapSeq(TrueOf(gt), a) + MapSeq(TrueOf(gt), b);
      assert MapSeq(NegatedScore, a + b) == MapSeq(NegatedScore, a) + MapSeq(NegatedScore, b);
    }
  }

  /** With every entry 0 or 1, there are two classes exactly when a 1 and a
      0 both occur. */
  lemma TwoClasses(yTrue: seq<int>)
    requires forall k :: 0 <= k < |yTrue| ==> yTrue[k] == 0 || yTrue[k] == 1
    ensures |Classes(yTrue)| >= 2 <==> 0 in yTrue && 1 in yTrue
  {
    var c := Classes(yTrue);
    if 0 in yTrue && 1 in yTrue {
      assert c == {0, 1};
    } else if 0 in yTrue {
      assert c == {0};
    } else if 1 in yTrue {
      assert c == {1};
    } else {
      assert c == {};
    }
  }

  /** The curve is drawn exactly when some anomaly's message is a key of
      `gt` and some other's is not. */
  lemma CurveNeedsBothClasses(gt: map<string, string>, anomalies: seq<Anomaly>)
    ensures |Classes(Scores(gt, anomalies).yTrue)| >= 2 <==>
              (exists k :: 0 <= k < |anomalies| && anomalies[k].message in gt)
              && (exists k :: 0 <= k < |anomalies| && anomalies[k].message !in gt)
  {
    var yTrue := Scores(gt, anomalies).yTrue;
    TwoClasses(yTrue);
    if exists k :: 0 <= k < |anomalies| && anomalies[k].message in gt {
      var k :| 0 <= k < |anomalies| && anomalies[k].message in gt;
      assert yTrue[k] == 1;
    }
    if exists k :: 0 <= k < |anomalies| && anomalies[k].message !in gt {
      var k :| 0 <= k < |anomalies| && anomalies[k].message !in gt;
      assert yTrue[k] == 0;
    }
  }
}
