/** scripts/build_labels.py: appends every normalised log line that the label
    table does not yet hold, sorted, with consecutive ids and an empty label.

    The logs are the texts of the `*.log` files of the raw-data directory,
    in the order the directory listing gives them. The existing table is
    given as its `(line_norm, label)` rows (none when the file does not
    exist), and `fileEmpty` says whether the table file is absent or empty
    when it is opened for appending. */
module BuildLabels {
  import opened Wrappers
  import opened Strings
  import opened Collections
  import opened Preprocess

  // ---------------------------------------------------------------------
  // `collect_lines`
  // ---------------------------------------------------------------------

  /** Reading in text mode with universal newlines: `"\r\n"` and `"\r"`
      both become `"\n"`. */
  function UniversalNewlines(text: string): (r: string)
    ensures '\r' !in r
    decreases |text|
  {
    if text == [] then []
    else if text[0] == '\r' then
      if |text| >= 2 && text[1] == '\n' then "\n" + UniversalNewlines(text[2..])
      else "\n" + UniversalNewlines(text[1..])
    else [text[0]] + UniversalNewlines(text[1..])
  }

  /** `for ln in fp`: the lines of a (translated) text, each ending with its
      `"\n"` except possibly the last. */
  function FileLines(s: string): (lines: seq<string>)
    ensures forall k :: 0 <= k < |lines| ==> lines[k] != []
    ensures forall k :: 0 <= k < |lines| ==> '\n' !in lines[k][..|lines[k]| - 1]
    ensures forall k :: 0 <= k < |lines| - 1 ==> lines[k][|lines[k]| - 1] == '\n'
    decreases |s|
  {
    if s == [] then []
    else
      var k := IndexOf(s, '\n');
      if k == |s| then [s]
      else
        assert s[..k + 1][..k] == s[..k];
        [s[..k + 1]] + FileLines(s[k + 1..])
  }

  /** The concatenation of a list of strings. */
  function Concat(pieces: seq<string>): string {
    if pieces == [] then [] else pieces[0] + Concat(pieces[1..])
  }

  /** The lines of a file put back together give the file. */
  lemma {:induction false} FileLinesJoin(s: string)
    ensures Concat(FileLines(s)) == s
    decreases |s|
  {
    if s != [] {
      var k := IndexOf(s, '\n');
      if k < |s| {
        var lines := FileLines(s);
        FileLinesJoin(s[k + 1..]);
        assert lines == [s[..k + 1]] + FileLines(s[k + 1..]);
        assert lines[1..] == FileLines(s[k + 1..]);
        assert Concat(lines) == s[..k + 1] + s[k + 1..];
      }
    }
  }

  /** `ln.strip()` is truthy. */
  predicate HasText(ln: string) {
    Strip(ln) != []
  }

  /** `collect_lines` for one file: right-strip every line, skip the blank
      ones, normalise the rest. */
  function FileCollect(text: string): seq<string> {
    MapSeq(CleanLine, Kept(FileLines(UniversalNewlines(text))))
  }

  /** `collect_lines()`: all files in turn. */
  function CollectLines(logs: seq<string>): seq<string> {
    FlatMap(FileCollect, logs)
  }

  /** The lines `collect_lines` keeps from one file, right-stripped. */
  function Kept(lines: seq<string>): seq<string> {
    Filter(HasText, MapSeq(RStrip, lines))
  }

  /** A kept line is a non-blank line right-stripped, and every non-blank
      line is kept in right-stripped form. */
  lemma KeptLines(lines: seq<string>, y: string)
    ensures y in Kept(lines) <==> exists j :: 0 <= j < |lines| && !IsBlank(lines[j]) && y == RStrip(lines[j])
  {
    var stripped := MapSeq(RStrip, lines);
    if y in Kept(lines) {
      assert y in stripped && HasText(y);
      var j :| 0 <= j < |stripped| && stripped[j] == y;
      RStripKeepsBlankness(lines[j]);
    }
    if exists j :: 0 <= j < |lines| && !IsBlank(lines[j]) && y == RStrip(lines[j]) {
      var j :| 0 <= j < |lines| && !IsBlank(lines[j]) && y == RStrip(lines[j]);
      RStripKeepsBlankness(lines[j]);
      assert stripped[j] == y && HasText(y);
    }
  }

  /** A collected line is the normalised form of a non-blank right-stripped
      line, and every such line is collected (for any normaliser `f`). */
  lemma CollectedFrom(f: string -> string, lines: seq<string>, x: string)
    ensures x in MapSeq(f, Kept(lines)) <==>
              exists j :: 0 <= j < |lines| && !IsBlank(lines[j]) && x == f(RStrip(lines[j]))
  {
    var kept := Kept(lines);
    var out := MapSeq(f, kept);
    if x in out {
      var i :| 0 <= i < |kept| && out[i] == x;
      KeptLines(lines, kept[i]);
    }
    if exists j :: 0 <= j < |lines| && !IsBlank(lines[j]) && x == f(RStrip(lines[j])) {
      var j :| 0 <= j < |lines| && !IsBlank(lines[j]) && x == f(RStrip(lines[j]));
      var y := RStrip(lines[j]);
      KeptLines(lines, y);
      MapSeqMember(f, kept, y);
    }
  }

  // ---------------------------------------------------------------------
  // `main`
  // ---------------------------------------------------------------------

  /** `x not in existing`. */
  function Unknown(keys: set<string>): string -> bool {
    x => x !in keys
  }

  /** `sorted(set(collect_lines()) - set(existing))`. */
  function NewLines(keys: set<string>, collected: seq<string>): seq<string> {
    Sort(Dedup(Filter(Unknown(keys), collected)))
  }

  /** One appended CSV row: id, `line_norm`, and the `label` cell. */
  datatype LabelRow = LabelRow(id: int, lineNorm: string, category: string)

  /** What is appended to the table file. */
  datatype Appended = Appended(header: bool, rows: seq<LabelRow>)

  /** `existing` in `main()`: `{row["line_norm"]: row["label"] for row in
      rdr}` over the table's rows, or `{}` when the file does not exist. */
  function Existing(rows: Option<seq<(string, string)>>): (existing: map<string, string>)
    ensures rows.None? ==> existing == map[]
    ensures rows.Some? ==> existing.Keys == Keys(rows.value)
  {
    if rows.None? then map[] else ToMap(rows.value)
  }

  /** `main()` after `existing` is built: nothing when every collected line
      is already a key; otherwise the header (only into an empty file) and
      one row per new line, ids continuing from `len(existing) + 1`, labels
      empty. */
  method Run(existing: map<string, string>, fileEmpty: bool, logs: seq<string>)
    returns (appended: Option<Appended>)
    ensures appended.None? <==> NewLines(existing.Keys, CollectLines(logs)) == []
    ensures appended.Some? ==>
              appended.value == Appended(fileEmpty, Numbered(NewLines(existing.Keys, CollectLines(logs)), |existing| + 1))
  {
    var collected := CollectLines(logs);
    appended := AppendNew(existing.Keys, |existing|, fileEmpty, collected);
  }

  /** The part of `main()` after the lines are collected, for a table with
      the keys `keys` and `count` distinct keys. */
  method AppendNew(keys: set<string>, count: nat, fileEmpty: bool, collected: seq<string>)
    returns (appended: Option<Appended>)
    ensures appended.None? <==> NewLines(keys, collected) == []
    ensures appended.Some? ==> appended.value == Appended(fileEmpty, Numbered(NewLines(keys, collected), count + 1))
  {
    var newLines := NewLines(keys, collected);
    if newLines == [] {
      appended := None;
    } else {
      var rows := NumberRows(newLines, count + 1);
      appended := Some(Appended(fileEmpty, rows));
    }
  }

  /** The rows for `enumerate(lines, start=startId)` with empty labels. */
  function Numbered(lines: seq<string>, startId: int): seq<LabelRow> {
    if lines == [] then []
    else Numbered(lines[..|lines| - 1], startId) + [LabelRow(startId + |lines| - 1, lines[|lines| - 1], "")]
  }

  /** Row `k` carries id `startId + k`, the `k`-th line and an empty label. */
  lemma {:induction false} NumberedRows(lines: seq<string>, startId: int)
    ensures |Numbered(lines, startId)| == |lines|
    ensures forall k :: 0 <= k < |lines| ==> Numbered(lines, startId)[k] == LabelRow(startId + k, lines[k], "")
  {
    if lines != [] {
      var front := lines[..|lines| - 1];
      NumberedRows(front, startId);
      forall k | 0 <= k < |front| ensures front[k] == lines[k] { }
    }
  }

  /** The write loop. */
  method NumberRows(lines: seq<string>, startId: int) returns (rows: seq<LabelRow>)
    ensures rows == Numbered(lines, startId)
  {
    rows := [];
    var k := 0;
    while k < |lines|
      invariant 0 <= k <= |lines|
      invariant rows == Numbered(lines[..k], startId)
    {
      assert lines[..k + 1][..k] == lines[..k];
      rows := rows + [LabelRow(startId + k, lines[k], "")];
      k := k + 1;
    }
    assert lines[..k] == lines;
  }

  // ---------------------------------------------------------------------
  // Properties
  // ---------------------------------------------------------------------

  /** The new lines are strictly increasing (so sorted and free of
      duplicates) and are exactly the collected lines the table does not
      hold. */
  lemma NewLinesSpec(keys: set<string>, collected: seq<string>)
    ensures forall i, j :: 0 <= i < j < |NewLines(keys, collected)| ==>
              LexLess(NewLines(keys, collected)[i], NewLines(keys, collected)[j])
    ensures forall x :: x in NewLines(keys, collected) <==> x in collected && x !in keys
  {
    var unseen := Filter(Unknown(keys), collected);
    SortDistinct(Dedup(unseen));
  }

  /** The new lines carry no duplicates. */
  lemma NewLinesDistinct(keys: set<string>, collected: seq<string>)
    ensures Distinct(NewLines(keys, collected))
  {
    NewLinesSpec(keys, collected);
    var r := NewLines(keys, collected);
    forall i, j | 0 <= i < j < |r| ensures r[i] != r[j] {
      LexLessIrreflexive(r[i]);
    }
  }

  /** `start_id = len(existing) + 1` never exceeds the number of rows plus
      one, and equals it exactly when no `line_norm` repeats: a repeated
      `line_norm` makes the new ids start lower. */
  lemma StartIdFollowsRows(rows: seq<(string, string)>)
    ensures |Existing(Some(rows))| + 1 <= |rows| + 1
    ensures |Existing(Some(rows))| + 1 == |rows| + 1 <==> forall i, j :: 0 <= i < j < |rows| ==> rows[i].0 != rows[j].0
  {
    KeysCount(rows);
  }
}
