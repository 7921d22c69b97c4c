/** scripts/auto_label.py: builds the ground-truth label table. Every line of
    every log is normalised; a normalised line not seen before that a rule of
    `PATTERNS_LABEL` recognises becomes a new `(line_norm, label)` row.

    The log directories are walked by the caller: `logs` is the text of every
    `.log` file in the order the walk visits them, all directories in turn.
    The existing table, when there is one, is given as its rows. */
module AutoLabel {
  import opened Wrappers
  import opened Strings
  import opened Regex
  import opened Collections
  import opened Preprocess

  /** `PATTERNS_LABEL`, in order; all are case-insensitive. */
  const PatternsLabel: seq<Rule> := [
    Rule("BluetoothError", Gap("[bluetooth", "error")),
    Rule("NoNetworkRoute", Literal("no network route")),
    Rule("LayoutConstraint", Literal("unable to simultaneously satisfy constraints")),
    Rule("SSHAuthFail", Literal("authentication failure")),
    Rule("SSHPossibleBreak", Literal("possible break-in attempt"))
  ]

  /** The CSV header row. */
  const Header: (string, string) := ("line_norm", "label")

  /** `detect_label(norm_line)`. */
  method DetectLabel(norm: string) returns (category: Option<string>)
    ensures category == FirstMatch(PatternsLabel, norm)
  {
    category := FirstRule(PatternsLabel, norm);
  }

  /** Python truthiness of an optional label: present and non-empty. */
  predicate Truthy(category: Option<string>) {
    category.Some? && category.value != ""
  }

  /** The normalised lines of one log, one per line, blank lines included. */
  function LogNorms(text: string): seq<string> {
    MapSeq(CleanLine, SplitLines(text))
  }

  /** The normalised lines of all logs, in visiting order. */
  function Norms(logs: seq<string>): seq<string> {
    FlatMap(LogNorms, logs)
  }

  /** The growing `known` set and the rows appended by the scan. */
  datatype ScanState = ScanState(known: set<string>, added: seq<(string, string)>)

  /** The body of the innermost loop for one normalised line. */
  function Step(rules: seq<Rule>, st: ScanState, norm: string): ScanState {
    if norm in st.known then st
    else
      var category := FirstMatch(rules, norm);
      if Truthy(category) then ScanState(st.known + {norm}, st.added + [(norm, category.value)])
      else st
  }

  /** The scan over `norms`, starting from the state `st`. */
  function Scan(rules: seq<Rule>, st: ScanState, norms: seq<string>): ScanState {
    if norms == [] then st
    else Step(rules, Scan(rules, st, norms[..|norms| - 1]), norms[|norms| - 1])
  }

  /** The rows the table starts from: the existing rows with `--inplace`
      when the file exists, none otherwise. */
  function StartRows(inplace: bool, existing: Option<seq<(string, string)>>): seq<(string, string)> {
    if inplace && existing.Some? then existing.value else []
  }

  /** The state before the first log: the start rows and their keys. */
  function Initial(inplace: bool, existing: Option<seq<(string, string)>>): ScanState {
    var rows := StartRows(inplace, existing);
    ScanState(Keys(rows), rows)
  }

  /** `main()`: the rows written to the output file, header first. */
  method Run(inplace: bool, existing: Option<seq<(string, string)>>, logs: seq<string>)
    returns (written: seq<(string, string)>)
    ensures written == [Header] + Scan(PatternsLabel, Initial(inplace, existing), Norms(logs)).added
  {
    var known, rows := LoadExisting(inplace, existing);
    var f := 0;
    while f < |logs|
      invariant 0 <= f <= |logs|
      invariant ScanState(known, rows) == Scan(PatternsLabel, Initial(inplace, existing), Norms(logs[..f]))
    {
      known, rows := ScanLog(known, rows, logs[f]);
      FlatMapSnoc(LogNorms, logs, f);
      ScanConcat(PatternsLabel, Initial(inplace, existing), Norms(logs[..f]), LogNorms(logs[f]));
      f := f + 1;
    }
    assert logs[..|logs|] == logs;
    written := [Header] + rows;
  }

  /** The `--inplace` loop over the existing table. */
  method LoadExisting(inplace: bool, existing: Option<seq<(string, string)>>)
    returns (known: set<string>, rows: seq<(string, string)>)
    ensures ScanState(known, rows) == Initial(inplace, existing)
  {
    known := {};
    rows := [];
    if inplace && existing.Some? {
      var table := existing.value;
      var i := 0;
      while i < |table|
        invariant 0 <= i <= |table|
        invariant rows == table[..i] && known == Keys(rows)
      {
        KeysSnoc(rows, table[i]);
        assert table[..i + 1] == table[..i] + [table[i]];
        rows := rows + [table[i]];
        known := known + {table[i].0};
        i := i + 1;
      }
      assert table[..|table|] == table;
    }
  }

  /** The loop over the lines of one log. */
  method ScanLog(known0: set<string>, rows0: seq<(string, string)>, text: string)
    returns (known: set<string>, rows: seq<(string, string)>)
    ensures ScanState(known, rows) == Scan(PatternsLabel, ScanState(known0, rows0), LogNorms(text))
  {
    known, rows := known0, rows0;
    var lines := SplitLines(text);
    var j := 0;
    while j < |lines|
      invariant 0 <= j <= |lines|
      invariant ScanState(known, rows) == Scan(PatternsLabel, ScanState(known0, rows0), MapSeq(CleanLine, lines[..j]))
    {
      var norm := CleanLine(lines[j]);
      MapSeqSnoc(CleanLine, lines, j);
      ScanSnoc(PatternsLabel, ScanState(known0, rows0), MapSeq(CleanLine, lines[..j]), norm);
      j := j + 1;
      if norm in known {
        continue;
      }
      var category := DetectLabel(norm);
      if category.Some? && category.value != "" {
        rows := rows + [(norm, category.value)];
        known := known + {norm};
      }
    }
    assert lines[..|lines|] == lines;
  }

  /** One more line is one more step. */
  lemma ScanSnoc(rules: seq<Rule>, st: ScanState, norms: seq<string>, norm: string)
    ensures Scan(rules, st, norms + [norm]) == Step(rules, Scan(rules, st, norms), norm)
  {
    assert (norms + [norm])[..|norms|] == norms;
  }

  /** Scanning two stretches of lines in turn is scanning them together. */
  lemma {:induction false} ScanConcat(rules: seq<Rule>, st: ScanState, a: seq<string>, b: seq<string>)
    ensures Scan(rules, st, a + b) == Scan(rules, Scan(rules, st, a), b)
    decreases |b|
  {
    if b == [] {
      assert a + b == a;
    } else {
      var front := b[..|b| - 1];
      ScanConcat(rules, st, a, front);
      assert (a + b)[..|a + b| - 1] == a + front;
      assert (a + b)[|a + b| - 1] == b[|b| - 1];
    }
  }

  // ---------------------------------------------------------------------
  // Properties
  // ---------------------------------------------------------------------

  /** A row the scan appends: a line not known before the scan, seen in the
      scanned lines, with the truthy label `detect_label` gives it. */
  predicate NewRow(rules: seq<Rule>, known0: set<string>, norms: seq<string>, row: (string, string)) {
    row.0 !in known0 && row.0 in norms && FirstMatch(rules, row.0) == Some(row.1) && row.1 != ""
  }

  /** The rows present before the scan stay first and in order; every row
      after them is a new, labelled line. */
  lemma {:induction false} ScanAppends(rules: seq<Rule>, st: ScanState, norms: seq<string>)
    ensures |st.added| <= |Scan(rules, st, norms).added|
    ensures Scan(rules, st, norms).added[..|st.added|] == st.added
    ensures forall k :: |st.added| <= k < |Scan(rules, st, norms).added| ==>
              NewRow(rules, st.known, norms, Scan(rules, st, norms).added[k])
  {
    if norms != [] {
      var front := norms[..|norms| - 1];
      var norm := norms[|norms| - 1];
      ScanAppends(rules, st, front);
      ScanKnownGrows(rules, st, front);
      var mid := Scan(rules, st, front);
      var r := Scan(rules, st, norms);
      assert r == Step(rules, mid, norm);
      forall k | |st.added| <= k < |r.added|
        ensures NewRow(rules, st.known, norms, r.added[k])
      {
        if k < |mid.added| {
          assert r.added[k] == mid.added[k];
          assert r.added[k].0 in front;
        } else {
          assert r.added[k] == (norm, FirstMatch(rules, norm).value);
          assert norm !in mid.known;
        }
      }
    }
  }

  /** The known set only grows. */
  lemma {:induction false} ScanKnownGrows(rules: seq<Rule>, st: ScanState, norms: seq<string>)
    ensures st.known <= Scan(rules, st, norms).known
  {
    if norms != [] {
      ScanKnownGrows(rules, st, norms[..|norms| - 1]);
    }
  }

  /** `known` stays exactly the set of `line_norm`s of the rows. */
  lemma {:induction false} ScanKnownIsRowKeys(rules: seq<Rule>, st: ScanState, norms: seq<string>)
    requires st.known == Keys(st.added)
    ensures Scan(rules, st, norms).known == Keys(Scan(rules, st, norms).added)
  {
    if norms != [] {
      var front := norms[..|norms| - 1];
      var norm := norms[|norms| - 1];
      ScanKnownIsRowKeys(rules, st, front);
      var mid := Scan(rules, st, front);
      if norm !in mid.known && Truthy(FirstMatch(rules, norm)) {
        KeysSnoc(mid.added, (norm, FirstMatch(rules, norm).value));
      }
    }
  }

  /** A line ends up known iff it was known before or it occurs in the
      scanned lines with a truthy label; in particular a line without a
      label is never added to `known`. */
  lemma {:induction false} ScanKnownIff(rules: seq<Rule>, st: ScanState, norms: seq<string>, n: string)
    ensures n in Scan(rules, st, norms).known <==> n in st.known || (n in norms && Truthy(FirstMatch(rules, n)))
  {
    if norms != [] {
      var front := norms[..|norms| - 1];
      var norm := norms[|norms| - 1];
      ScanKnownIff(rules, st, front, n);
      assert norms == front + [norm];
      assert n in norms <==> n in front || n == norm;
    }
  }

  /** No appended row repeats the `line_norm` of any earlier row, whether
      existing or appended. */
  lemma {:induction false} ScanNoDuplicates(rules: seq<Rule>, st: ScanState, norms: seq<string>)
    requires st.known == Keys(st.added)
    ensures forall i, j :: 0 <= i < j < |Scan(rules, st, norms).added| && |st.added| <= j ==>
              Scan(rules, st, norms).added[i].0 != Scan(rules, st, norms).added[j].0
  {
    if norms != [] {
      var front := norms[..|norms| - 1];
      var norm := norms[|norms| - 1];
      ScanNoDuplicates(rules, st, front);
      ScanKnownIsRowKeys(rules, st, front);
      var mid := Scan(rules, st, front);
      var r := Scan(rules, st, norms);
      if norm !in mid.known && Truthy(FirstMatch(rules, norm)) {
        forall i | 0 <= i < |mid.added|
          ensures r.added[i].0 != norm
        {
          assert r.added[i] == mid.added[i];
          assert mid.added[i].0 in Keys(mid.added);
        }
      }
    }
  }

  /** What `main()` writes: the header, then the start rows unchanged, then
      new rows, each a labelled normalised log line that no earlier row
      carries. */
  lemma MainOutput(inplace: bool, existing: Option<seq<(string, string)>>, logs: seq<string>,
                   written: seq<(string, string)>)
    requires written == [Header] + Scan(PatternsLabel, Initial(inplace, existing), Norms(logs)).added
    ensures written[0] == ("line_norm", "label")
    ensures |written| >= 1 + |StartRows(inplace, existing)|
    ensures written[1..1 + |StartRows(inplace, existing)|] == StartRows(inplace, existing)
    ensures forall k :: 1 + |StartRows(inplace, existing)| <= k < |written| ==>
              NewRow(PatternsLabel, Keys(StartRows(inplace, existing)), Norms(logs), written[k])
    ensures forall i, j :: 1 <= i < j < |written| && 1 + |StartRows(inplace, existing)| <= j ==>
              written[i].0 != written[j].0
  {
    var st := Initial(inplace, existing);
    ScanAppends(PatternsLabel, st, Norms(logs));
    ScanNoDuplicates(PatternsLabel, st, Norms(logs));
    var added := Scan(PatternsLabel, st, Norms(logs)).added;
    assert written[1..] == added;
    forall i, j | 1 <= i < j < |written| && 1 + |StartRows(inplace, existing)| <= j
      ensures written[i].0 != written[j].0
    {
      assert written[i] == added[i - 1] && written[j] == added[j - 1];
    }
  }

  /** A bracketed Bluetooth tag followed, anywhere later on the line, by
      "error" is a `BluetoothError`, the first rule. */
  lemma BluetoothExample(s: string)
    requires s == "[bluetooth] hci event error"
    ensures FirstMatch(PatternsLabel, s) == Some("BluetoothError")
  {
    assert MatchAt(s, 0, "[bluetooth") && MatchAt(s, 22, "error") && NoNewline(s, 10, 22);
    FirstMatchIsEarliest(PatternsLabel, s, 0);
  }
}
