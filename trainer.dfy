/** `Trainer` (app/service/trainer.py): the inputs handed to the model
    fitting, the checks that refuse to train, the names under which bundles
    are stored and the bundle listing.

    The fitted models themselves are opaque; a training run is modelled by
    what the fit receives and by the path that is returned. The models
    directory is represented by its name (for the returned relative path)
    and by its file listing. */
module Trainer {
  import opened Wrappers
  import opened Strings
  import opened Collections
  import opened Preprocess
  import opened Schemas
  import Regex

  /** The refusals of the two training runs: the two `ValueError`s raised
      here, and the vectoriser's "empty vocabulary" error. */
  datatype TrainError = EmptyCorpus | EmptyVocabulary | NoLabeledRows

  /** `TfidfVectorizer`'s default token pattern `\b\w\w+\b` finds a token in
      `s` exactly when two word characters are adjacent; lowercasing does
      not change which characters are word characters, and the bigrams
      only join tokens. */
  predicate HasToken(s: string) {
    exists i :: 0 <= i < |s| - 1 && Regex.IsWordChar(s[i]) && Regex.IsWordChar(s[i + 1])
  }

  /** `fit_transform` learns no term from `docs` (and so raises): no document
      holds a token. The defaults `min_df=1`, `max_df=1.0` prune nothing. */
  predicate NoVocabulary(docs: seq<string>) {
    forall k :: 0 <= k < |docs| ==> !HasToken(docs[k])
  }

  // ---------------------------------------------------------------------
  // Anomaly training corpus
  // ---------------------------------------------------------------------

  /** The non-blank lines of one text. */
  function TextLines(text: string): seq<string> {
    NonBlank(SplitLines(text))
  }

  /** The non-blank lines of all texts, in text order and then line order. */
  function SourceLines(texts: seq<string>): seq<string> {
    FlatMap(TextLines, texts)
  }

  /** `x` is a line of one of the texts. */
  predicate InSomeText(texts: seq<string>, x: string) {
    exists k :: 0 <= k < |texts| && x in SplitLines(texts[k])
  }

  /** One more text adds its own lines. */
  lemma InSomeTextSnoc(texts: seq<string>, x: string)
    requires texts != []
    ensures InSomeText(texts, x) <==> InSomeText(texts[..|texts| - 1], x) || x in SplitLines(texts[|texts| - 1])
  {
    var front := texts[..|texts| - 1];
    if InSomeText(texts, x) {
      var k :| 0 <= k < |texts| && x in SplitLines(texts[k]);
      if k < |front| { assert front[k] == texts[k]; }
    }
    if InSomeText(front, x) {
      var k :| 0 <= k < |front| && x in SplitLines(front[k]);
      assert texts[k] == front[k];
    }
  }

  /** The corpus lines are exactly the non-blank lines of the texts. */
  lemma {:induction false} SourceLinesMembers(texts: seq<string>)
    ensures forall x :: x in SourceLines(texts) <==> !IsBlank(x) && InSomeText(texts, x)
  {
    if texts != [] {
      var front := texts[..|texts| - 1];
      var last := texts[|texts| - 1];
      SourceLinesMembers(front);
      assert SourceLines(texts) == SourceLines(front) + TextLines(last);
      forall x
        ensures x in SourceLines(texts) <==> !IsBlank(x) && InSomeText(texts, x)
      {
        InSomeTextSnoc(texts, x);
      }
    }
  }

  /** Appending texts appends their lines: the corpus follows text order. */
  lemma SourceLinesConcat(a: seq<string>, b: seq<string>)
    ensures SourceLines(a + b) == SourceLines(a) + SourceLines(b)
  {
    FlatMapConcat(TextLines, a, b);
  }

  /** `[clean_line(ln) for txt in texts for ln in txt.splitlines() if ln.strip()]`. */
  function Corpus(texts: seq<string>): (lines: seq<string>)
    ensures |lines| == |SourceLines(texts)|
    ensures forall i :: 0 <= i < |lines| ==> lines[i] == CleanLine(SourceLines(texts)[i])
  {
    if texts == [] then []
    else
      var front := texts[..|texts| - 1];
      Corpus(front) + MapSeq(CleanLine, NonBlank(SplitLines(texts[|texts| - 1])))
  }

  /** What an anomaly training run fits on and the path it returns. */
  datatype AnomalyRun = AnomalyRun(corpus: seq<string>, path: string)

  /** `train_from_texts`: refuses an empty corpus, fails in the vectoriser
      when no corpus line holds a token, otherwise fits on the corpus and
      returns `<models dir name>/model_<stamp>.joblib`. */
  function TrainFromTexts(dirName: string, texts: seq<string>, now: DateTime): (r: Result<AnomalyRun, TrainError>)
    requires ValidDateTime(now)
    ensures r == Failure(EmptyCorpus) <==> forall k, x :: 0 <= k < |texts| && x in SplitLines(texts[k]) ==> IsBlank(x)
    ensures r == Failure(EmptyVocabulary) <==> Corpus(texts) != [] && NoVocabulary(Corpus(texts))
    ensures r.Failure? ==> r.error == EmptyCorpus || r.error == EmptyVocabulary
    ensures r.Success? ==> (r.value.corpus == Corpus(texts)
                            && r.value.path == dirName + "/" + BundleName("model", now))
  {
    var lines := Corpus(texts);
    SourceLinesMembers(texts);
    if lines == [] then
      assert forall k, x :: 0 <= k < |texts| && x in SplitLines(texts[k]) ==> IsBlank(x) by {
        forall k, x | 0 <= k < |texts| && x in SplitLines(texts[k]) ensures IsBlank(x) {
          assert InSomeText(texts, x);
          assert x !in SourceLines(texts);
        }
      }
      Failure(EmptyCorpus)
    else if NoVocabulary(lines) then
      assert SourceLines(texts)[0] in SourceLines(texts);
      Failure(EmptyVocabulary)
    else
      assert SourceLines(texts)[0] in SourceLines(texts);
      Success(AnomalyRun(lines, dirName + "/" + BundleName("model", now)))
  }

  /** A non-blank line passes the empty-corpus check even when it
      normalises to nothing (a bare number does); whether training goes
      ahead then depends only on the tokens of its normalised form. */
  lemma BlankAfterCleaningStillCounts(dirName: string, now: DateTime, line: string)
    requires ValidDateTime(now) && !IsBlank(line) && NoLineBreak(line)
    ensures Corpus([line]) == [CleanLine(line)]
    ensures TrainFromTexts(dirName, [line], now) != Failure(EmptyCorpus)
    ensures TrainFromTexts(dirName, [line], now).Success? <==> HasToken(CleanLine(line))
  {
    OneLineCorpus(line);
    var texts := [line];
    var r := TrainFromTexts(dirName, texts, now);
    assert r != Failure(EmptyCorpus) by {
      assert texts[0] == line && line in SplitLines(texts[0]);
      assert !IsBlank(line);
    }
    assert NoVocabulary([CleanLine(line)]) <==> !HasToken(CleanLine(line)) by {
      assert [CleanLine(line)][0] == CleanLine(line);
    }
  }

  /** A text made of one non-blank line contributes that line, cleaned. */
  lemma OneLineCorpus(line: string)
    requires !IsBlank(line) && NoLineBreak(line)
    ensures SplitLines(line) == [line]
    ensures Corpus([line]) == [CleanLine(line)]
  {
    LineAloneSplits(line);
    assert [line][..0] == [];
    assert NonBlank([line]) == [line] by {
      assert [line][..0] == [];
    }
  }

  /** A line without a break is its own and only line. */
  lemma LineAloneSplits(line: string)
    requires !IsBlank(line) && NoLineBreak(line)
    ensures SplitLines(line) == [line]
  {
    var k := BreakIndex(line, 0);
    assert k == |line|;
  }

  // ---------------------------------------------------------------------
  // Classifier training rows
  // ---------------------------------------------------------------------

  /** One CSV row: the raw line, the `line_norm` cell and the label cell (`category`),
      `None` when the cell is empty (read as NaN). */
  datatype LabelRow = LabelRow(line: string, lineNorm: string, category: Option<string>)

  /** The CSV read into a table: whether it has a `line_norm` column, and
      its rows. */
  datatype LabelTable = LabelTable(hasLineNorm: bool, rows: seq<LabelRow>)

  /** Survives `dropna(subset=["label"])` and `label.str.strip() != ""`. */
  predicate Labelled(r: LabelRow) {
    r.category.Some? && Strip(r.category.value) != ""
  }

  /** The two successive filters of the label column, keeping row order. */
  function KeepLabelled(rows: seq<LabelRow>): (kept: seq<LabelRow>)
    ensures forall k :: 0 <= k < |kept| ==> Labelled(kept[k])
    ensures forall r :: r in kept <==> r in rows && Labelled(r)
    ensures IsSubsequence(kept, rows)
  {
    if rows == [] then []
    else
      var front := rows[..|rows| - 1];
      var last := rows[|rows| - 1];
      assert rows == front + [last];
      assert forall r :: r in rows <==> r in front || r == last;
      var kept := KeepLabelled(front);
      if Labelled(last) then
        SubsequenceSnoc(kept, front, last);
        kept + [last]
      else
        SubsequenceAppend(kept, front, [last]);
        kept
  }

  /** The number of rows the filters drop. */
  function CountUnlabelled(rows: seq<LabelRow>): nat {
    if rows == [] then 0
    else CountUnlabelled(rows[..|rows| - 1]) + (if Labelled(rows[|rows| - 1]) then 0 else 1)
  }

  /** The reported `skipped = before - after` is the number of rows whose
      label is missing or blank. */
  lemma {:induction false} SkippedIsUnlabelled(rows: seq<LabelRow>)
    ensures |rows| - |KeepLabelled(rows)| == CountUnlabelled(rows)
  {
    if rows != [] {
      SkippedIsUnlabelled(rows[..|rows| - 1]);
    }
  }

  /** The `line_norm` value the vectoriser receives for a kept row: the
      column as read when it exists, `clean_line(line)` otherwise. */
  function NormOf(t: LabelTable, r: LabelRow): string {
    if t.hasLineNorm then r.lineNorm else CleanLine(r.line)
  }

  /** `zip(df["line_norm"], df["label"])` after the filters. */
  function Examples(t: LabelTable): (ex: seq<(string, string)>)
    ensures var kept := KeepLabelled(t.rows);
      |ex| == |kept| && forall k :: 0 <= k < |kept| ==> ex[k] == (NormOf(t, kept[k]), kept[k].category.value)
  {
    var kept := KeepLabelled(t.rows);
    seq(|kept|, k requires 0 <= k < |kept| => (NormOf(t, kept[k]), kept[k].category.value))
  }

  /** What a classifier training run fits on, what it reports and the path
      it returns. */
  datatype ClassifierRun = ClassifierRun(examples: seq<(string, string)>, skipped: nat, path: string)

  /** `train_classifier`: drops unlabelled rows, refuses when none is left,
      fills in `line_norm` if the column is missing, fails in the vectoriser
      when no `line_norm` value holds a token, and otherwise fits on
      `(line_norm, label)` pairs. */
  function TrainClassifier(dirName: string, t: LabelTable, now: DateTime): (r: Result<ClassifierRun, TrainError>)
    requires ValidDateTime(now)
    ensures r == Failure(NoLabeledRows) <==> forall k :: 0 <= k < |t.rows| ==> !Labelled(t.rows[k])
    ensures var kept := KeepLabelled(t.rows);
      r == Failure(EmptyVocabulary) <==> kept != [] && forall k :: 0 <= k < |kept| ==> !HasToken(NormOf(t, kept[k]))
    ensures r.Failure? ==> r.error == NoLabeledRows || r.error == EmptyVocabulary
    ensures r.Success? ==>
      var kept := KeepLabelled(t.rows);
      && |r.value.examples| == |kept|
      && (forall k :: 0 <= k < |kept| ==> r.value.examples[k] == (NormOf(t, kept[k]), kept[k].category.value))
      && r.value.skipped == CountUnlabelled(t.rows)
      && r.value.path == dirName + "/" + BundleName("classifier", now)
  {
    var kept := KeepLabelled(t.rows);
    SkippedIsUnlabelled(t.rows);
    if kept == [] then
      assert forall k :: 0 <= k < |t.rows| ==> !Labelled(t.rows[k]) by {
        forall k | 0 <= k < |t.rows| ensures !Labelled(t.rows[k]) {
          assert t.rows[k] in t.rows;
        }
      }
      Failure(NoLabeledRows)
    else if forall k :: 0 <= k < |kept| ==> !HasToken(NormOf(t, kept[k])) then
      assert kept[0] in kept;
      Failure(EmptyVocabulary)
    else
      assert kept[0] in kept;
      Success(ClassifierRun(Examples(t), |t.rows| - |kept|, dirName + "/" + BundleName("classifier", now)))
  }

  /** An existing `line_norm` column is used as read, never recomputed. */
  lemma ExistingNormIsKept(dirName: string, t: LabelTable, now: DateTime)
    requires ValidDateTime(now) && t.hasLineNorm
    requires TrainClassifier(dirName, t, now).Success?
    ensures var ex := TrainClassifier(dirName, t, now).value.examples;
      forall k :: 0 <= k < |ex| ==> ex[k].0 == KeepLabelled(t.rows)[k].lineNorm
  {
  }

  // ---------------------------------------------------------------------
  // Bundle names
  // ---------------------------------------------------------------------

  /** `datetime.utcnow()`, to the second. */
  datatype DateTime = DateTime(year: nat, month: nat, day: nat, hour: nat, minute: nat, second: nat)

  predicate ValidDateTime(t: DateTime) {
    1 <= t.year <= 9999 && 1 <= t.month <= 12 && 1 <= t.day <= 31
    && t.hour < 24 && t.minute < 60 && t.second < 60
  }

  /** Chronological order of two instants. */
  predicate Before(a: DateTime, b: DateTime) {
    a.year < b.year || (a.year == b.year &&
    (a.month < b.month || (a.month == b.month &&
    (a.day < b.day || (a.day == b.day &&
    (a.hour < b.hour || (a.hour == b.hour &&
    (a.minute < b.minute || (a.minute == b.minute && a.second < b.second)))))))))
  }

  function Pow10(w: nat): (p: nat)
    ensures p >= 1
  {
    if w == 0 then 1 else 10 * Pow10(w - 1)
  }

  /** `n` written with exactly `w` digits, zero-padded (`%02d`). */
  function Digits(n: nat, w: nat): (r: string)
    ensures |r| == w && forall i :: 0 <= i < w ==> IsDigit(r[i])
  {
    if w == 0 then [] else Digits(n / 10, w - 1) + [DigitChar(n % 10)]
  }

  /** `%Y` prints the year in decimal without padding, which is four digits
      from year 1000 on. */
  lemma {:induction false} DecimalIsDigits(n: nat, w: nat)
    requires w >= 1 && Pow10(w - 1) <= n < Pow10(w)
    ensures Decimal(n) == Digits(n, w)
  {
    if w == 1 {
      assert n < 10;
    } else {
      assert Pow10(w - 1) == 10 * Pow10(w - 2);
      DecimalIsDigits(n / 10, w - 1);
    }
  }

  /** `strftime("%Y%m%d%H%M%S")`. */
  function Stamp(t: DateTime): string
    requires ValidDateTime(t)
  {
    Decimal(t.year) + (Digits(t.month, 2) + (Digits(t.day, 2) + ClockPart(t)))
  }

  /** `%H%M%S`. */
  function ClockPart(t: DateTime): string
    requires ValidDateTime(t)
  {
    Digits(t.hour, 2) + (Digits(t.minute, 2) + Digits(t.second, 2))
  }

  /** `f"{kind}_{ts}.joblib"`. */
  function BundleName(kind: string, t: DateTime): string
    requires ValidDateTime(t)
  {
    kind + "_" + Stamp(t) + ".joblib"
  }

  lemma SingleCharLess(c: char, d: char)
    ensures LexLess([c], [d]) <==> c < d
  {
    assert [c][1..] == [] && [d][1..] == [];
  }

  /** Zero-padded numbers of one width compare like the numbers. */
  lemma {:induction false} DigitsOrder(a: nat, b: nat, w: nat)
    requires a < Pow10(w) && b < Pow10(w)
    ensures LexLess(Digits(a, w), Digits(b, w)) <==> a < b
    ensures Digits(a, w) == Digits(b, w) <==> a == b
  {
    if w == 0 {
      assert a == 0 && b == 0;
      LexLessIrreflexive([]);
    } else {
      var pa := Digits(a / 10, w - 1);
      var pb := Digits(b / 10, w - 1);
      var ca := DigitChar(a % 10);
      var cb := DigitChar(b % 10);
      DigitsOrder(a / 10, b / 10, w - 1);
      LexLessAppend(pa, [ca], pb, [cb]);
      SingleCharLess(ca, cb);
      if pa + [ca] == pb + [cb] {
        assert pa == (pa + [ca])[..w - 1] && pb == (pb + [cb])[..w - 1];
        assert ca == (pa + [ca])[w - 1] && cb == (pb + [cb])[w - 1];
      }
    }
  }

  /** A fixed-width field followed by the rest: the field decides unless
      equal. */
  lemma FieldThen(a: nat, b: nat, w: nat, r1: string, r2: string)
    requires a < Pow10(w) && b < Pow10(w)
    ensures LexLess(Digits(a, w) + r1, Digits(b, w) + r2) <==> a < b || (a == b && LexLess(r1, r2))
    ensures Digits(a, w) + r1 == Digits(b, w) + r2 <==> a == b && r1 == r2
  {
    DigitsOrder(a, b, w);
    LexLessAppend(Digits(a, w), r1, Digits(b, w), r2);
    if Digits(a, w) + r1 == Digits(b, w) + r2 {
      assert Digits(a, w) == (Digits(a, w) + r1)[..w] && Digits(b, w) == (Digits(b, w) + r2)[..w];
      assert r1 == (Digits(a, w) + r1)[w..] && r2 == (Digits(b, w) + r2)[w..];
    }
  }

  /** The time of day prints as six digits that compare like the times. */
  lemma ClockOrder(t1: DateTime, t2: DateTime)
    requires ValidDateTime(t1) && ValidDateTime(t2)
    ensures |ClockPart(t1)| == 6 && |ClockPart(t2)| == 6
    ensures LexLess(ClockPart(t1), ClockPart(t2)) <==>
      t1.hour < t2.hour || (t1.hour == t2.hour &&
      (t1.minute < t2.minute || (t1.minute == t2.minute && t1.second < t2.second)))
    ensures ClockPart(t1) == ClockPart(t2) <==> t1.hour == t2.hour && t1.minute == t2.minute && t1.second == t2.second
  {
    assert Pow10(2) == 100;
    LexLessIrreflexive([]);
    var s1 := Digits(t1.second, 2);
    var s2 := Digits(t2.second, 2);
    FieldThen(t1.second, t2.second, 2, [], []);
    assert s1 + [] == s1 && s2 + [] == s2;
    FieldThen(t1.minute, t2.minute, 2, s1, s2);
    FieldThen(t1.hour, t2.hour, 2, Digits(t1.minute, 2) + s1, Digits(t2.minute, 2) + s2);
  }

  /** From year 1000 on, a stamp has 14 digits. */
  lemma StampDigits(t: DateTime)
    requires ValidDateTime(t) && t.year >= 1000
    ensures |Stamp(t)| == 14 && forall i :: 0 <= i < 14 ==> IsDigit(Stamp(t)[i])
  {
    assert Pow10(3) == 1000 && Pow10(4) == 10000;
    DecimalIsDigits(t.year, 4);
    var c := ClockPart(t);
    assert forall i :: 0 <= i < |c| ==> IsDigit(c[i]);
    var d := Digits(t.day, 2) + c;
    assert forall i :: 0 <= i < |d| ==> IsDigit(d[i]);
    var m := Digits(t.month, 2) + d;
    assert forall i :: 0 <= i < |m| ==> IsDigit(m[i]);
  }

  /** From year 1000 on, stamps compare like the instants they print. */
  lemma StampOrder(t1: DateTime, t2: DateTime)
    requires ValidDateTime(t1) && ValidDateTime(t2) && t1.year >= 1000 && t2.year >= 1000
    ensures |Stamp(t1)| == 14 && |Stamp(t2)| == 14
    ensures LexLess(Stamp(t1), Stamp(t2)) <==> Before(t1, t2)
    ensures Stamp(t1) == Stamp(t2) <==> t1 == t2
  {
    assert Pow10(2) == 100 && Pow10(3) == 1000 && Pow10(4) == 10000;
    StampDigits(t1);
    StampDigits(t2);
    DecimalIsDigits(t1.year, 4);
    DecimalIsDigits(t2.year, 4);
    ClockOrder(t1, t2);
    var c1 := ClockPart(t1);
    var c2 := ClockPart(t2);
    FieldThen(t1.day, t2.day, 2, c1, c2);
    var d1 := Digits(t1.day, 2) + c1;
    var d2 := Digits(t2.day, 2) + c2;
    FieldThen(t1.month, t2.month, 2, d1, d2);
    FieldThen(t1.year, t2.year, 4, Digits(t1.month, 2) + d1, Digits(t2.month, 2) + d2);
  }

  /** Bundles of one kind sort by name exactly as by creation time, so the
      greatest name is the newest bundle. */
  lemma NameOrderIsTimeOrder(kind: string, t1: DateTime, t2: DateTime)
    requires ValidDateTime(t1) && ValidDateTime(t2) && t1.year >= 1000 && t2.year >= 1000
    ensures LexLess(BundleName(kind, t1), BundleName(kind, t2)) <==> Before(t1, t2)
    ensures BundleName(kind, t1) == BundleName(kind, t2) <==> t1 == t2
  {
    StampOrder(t1, t2);
    var p := kind + "_";
    var q1 := Stamp(t1) + ".joblib";
    var q2 := Stamp(t2) + ".joblib";
    assert BundleName(kind, t1) == p + q1 && BundleName(kind, t2) == p + q2;
    LexLessAppend(p, q1, p, q2);
    LexLessIrreflexive(p);
    LexLessAppend(Stamp(t1), ".joblib", Stamp(t2), ".joblib");
    LexLessIrreflexive(".joblib");
    if p + q1 == p + q2 {
      assert q1 == (p + q1)[|p|..] && q2 == (p + q2)[|p|..];
      assert Stamp(t1) == q1[..14] && Stamp(t2) == q2[..14];
    }
  }

  // ---------------------------------------------------------------------
  // Listing
  // ---------------------------------------------------------------------

  /** Index of the last occurrence of `c` in `s`, or -1 (`str.rfind`). */
  function RFind(s: string, c: char): (i: int)
    ensures -1 <= i < |s|
    ensures i >= 0 ==> s[i] == c
    ensures forall j :: i < j < |s| ==> s[j] != c
  {
    if s == [] then -1
    else if s[|s| - 1] == c then |s| - 1
    else RFind(s[..|s| - 1], c)
  }

  /** `Path(name).stem`: the name without its last suffix; a name whose
      only dot leads it (`.joblib`) or ends it has no suffix. */
  function Stem(name: string): string {
    var i := RFind(name, '.');
    if 0 < i < |name| - 1 then name[..i] else name
  }

  /** The stem of a bundle file name drops exactly `.joblib`. */
  lemma StemOfBundle(name: string)
    requires StarMatch(name, "", ".joblib") && |name| > 7
    ensures Stem(name) + ".joblib" == name
  {
    var i := RFind(name, '.');
    assert name[|name| - 7..] == ".joblib";
    assert name[|name| - 7] == '.';
    assert forall j :: |name| - 7 < j < |name| ==> name[j] != '.';
    assert i == |name| - 7;
    assert name == name[..i] + name[i..];
  }

  /** `list_models`: one record per `*.joblib` file in path order, named by
      the file's stem. */
  function ListModels(dirPath: string, files: seq<string>, mtime: string -> int): (infos: seq<ModelInfo>)
    ensures |infos| == |Glob(files, "", ".joblib")|
  {
    var names := Sort(Glob(files, "", ".joblib"));
    assert |names| == |multiset(names)|;
    seq(|names|, k requires 0 <= k < |names| => ModelInfo(Stem(names[k]), mtime(names[k]), dirPath + "/" + names[k]))
  }

  /** The listing is sorted by path. */
  lemma ListModelsSorted(dirPath: string, files: seq<string>, mtime: string -> int)
    ensures var infos := ListModels(dirPath, files, mtime);
      forall i, j :: 0 <= i < j < |infos| ==> LexLe(infos[i].path, infos[j].path)
  {
    var names := Sort(Glob(files, "", ".joblib"));
    var infos := ListModels(dirPath, files, mtime);
    var p := dirPath + "/";
    forall i, j | 0 <= i < j < |infos| ensures LexLe(infos[i].path, infos[j].path) {
      assert infos[i].path == p + names[i] && infos[j].path == p + names[j];
      LexLessAppend(p, names[i], p, names[j]);
      LexLessIrreflexive(p);
    }
  }

  /** The listing has an entry for a file exactly when it is a bundle
      file. */
  lemma ListModelsComplete(dirPath: string, files: seq<string>, mtime: string -> int, n: string)
    ensures var infos := ListModels(dirPath, files, mtime);
      (exists k :: 0 <= k < |infos| && infos[k].path == dirPath + "/" + n)
        <==> n in files && StarMatch(n, "", ".joblib")
  {
    var names := Sort(Glob(files, "", ".joblib"));
    var infos := ListModels(dirPath, files, mtime);
    var p := dirPath + "/";
    if n in files && StarMatch(n, "", ".joblib") {
      assert n in multiset(names);
      var k :| 0 <= k < |names| && names[k] == n;
      assert infos[k].path == p + n;
    }
    if exists k :: 0 <= k < |infos| && infos[k].path == p + n {
      var k :| 0 <= k < |infos| && infos[k].path == p + n;
      assert infos[k].path == p + names[k];
      assert names[k] == (p + n)[|p|..] == n;
      assert names[k] in multiset(names);
    }
  }

  /** Each entry describes one bundle file: its stem, its modification time
      and its path. */
  lemma ListModelsEntries(dirPath: string, files: seq<string>, mtime: string -> int, k: nat)
    requires k < |ListModels(dirPath, files, mtime)|
    ensures exists n :: (n in files && StarMatch(n, "", ".joblib")
      && ListModels(dirPath, files, mtime)[k] == ModelInfo(Stem(n), mtime(n), dirPath + "/" + n))
  {
    var names := Sort(Glob(files, "", ".joblib"));
    assert |names| == |multiset(names)|;
    assert names[k] in multiset(names);
    assert names[k] in Glob(files, "", ".joblib");
  }
}
