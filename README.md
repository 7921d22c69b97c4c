# ALV log-anomaly core in Dafny

This project models the decision logic of the ALV prototype, a log-anomaly
detector and classifier, together with its corpus, label and evaluation
scripts. The statistical models (TF-IDF, Isolation Forest, Random Forest)
stay opaque. Their outputs are inputs here: a decision score per line, a
probability vector per line. What remains is a set of deterministic string,
sequence and map algorithms. Each is stated in Dafny and proved against its
specification.

One module per source file:

- `Preprocess` models `clean_line`, the line normaliser. It has hand-written
  matchers for the three patterns, with Python's `\b`, and each `re.sub` is
  a left-to-right scan.
- `Analyser` models `Analyser.analyse`:
  - bundle choice (the greatest `model_*.joblib` name);
  - blank-line filtering and numbering;
  - threshold selection;
  - the `ERROR|FAIL|FATAL` keyword fallback loop.
- `Classifier` models `Classifier.classify`:
  - a class whose bundle is fixed at construction;
  - the ML loop filling `ml_preds`;
  - the ordered rule loop with its early `break`;
  - `_load_latest`.
- `Schemas` holds the response records and the range constraints on their
  fields.
- `Trainer` models:
  - corpus assembly and the empty-corpus error;
  - label filtering and the no-label error;
  - `line_norm` recomputation;
  - bundle names built from a `%Y%m%d%H%M%S` stamp;
  - `list_models`.
- `AutoLabel`, `BaselineRegex`, `BuildLabels`, `SplitLogs`,
  `EvalClassifier`, `EvalPr` and `EvalRoc` model the scripts of the same
  names. Their loops that append to lists, sets and dicts are methods,
  proved against specification functions.
- Helper modules:
  - `Strings`: Python `str` builtins (`strip`, `rstrip`, `splitlines`,
    `split(",")`, ordering, sorting);
  - `Regex`: case-insensitive search, `\b`, first-match rule lists;
  - `Collections`: `dict(pairs)` with later pairs winning, filtering,
    flattening, de-duplication;
  - `Wrappers`: `Option` and `Result`.

The Python field `label` is called `category` here, because `label` is a
Dafny keyword.

The normaliser is not idempotent, although it is sometimes described as if
it were. `ExampleNotIdempotent` shows this on `"0X1F"`: one pass gives
`"0x1f"`, and a second pass gives `""`. The model follows the code.

## Model

| member | source | states |
|---|---|---|
| Preprocess.CleanLineIsTrimmed | app/service/preprocess.py:12 | The normal form never starts or ends with whitespace. |
| Preprocess.CleanLineIsLowerCase | app/service/preprocess.py:12 | The normal form holds no upper-case (ASCII) letter. |
| Preprocess.CleanLineIsSubsequence | app/service/preprocess.py:9-12 | The normal form is a subsequence of the lower-cased input, so it is never longer: only deletions happen before folding and trimming. |
| Preprocess.RemoveStep | app/service/preprocess.py:9-11 | One step of `re.sub(p, "", s)`: a match at the scan point is dropped whole and the scan resumes after it; otherwise the character is kept. |
| Preprocess.SubDeletesOnly | app/service/preprocess.py:9-11 | A substitution scan only deletes: its output is a subsequence of its input. |
| Preprocess.RemoveDeletesOnly | app/service/preprocess.py:9-11 | Each of the three passes only deletes. |
| Preprocess.NumberPassSpec | app/service/preprocess.py:5 | `\b\d+\b` deletes exactly the digits whose whole run has a non-word character, or the line's end, on both sides. This is proved against an independent definition. |
| Preprocess.ClockTokenDeleted | app/service/preprocess.py:3 | An `HH:MM:SS` token between two separators is deleted, and both separators stay. |
| Preprocess.DateTokenDeleted | app/service/preprocess.py:3 | A `YYYY-MM-DD` token between two separators is deleted, and both separators stay. |
| Preprocess.ClockBetweenWords | app/service/preprocess.py:3 | A clock time between two digit-free words goes; the two spaces around it stay. |
| Preprocess.RemoveSplitsAtInert | app/service/preprocess.py:9-11 | Every pass is local: across a separator, the line is scanned as two separate lines. |
| Preprocess.CleanLineIgnoresRStrip | app/service/preprocess.py:8-12 | Normalising a right-stripped line gives the same result as normalising the line itself. |
| Preprocess.ScrubUntouched | app/service/preprocess.py:9-11 | A line that none of the three patterns matches passes the deletions unchanged. |
| Preprocess.NoDigitsUntouched | app/service/preprocess.py:3-5 | None of the three patterns matches in a line without digits. |
| Preprocess.ExampleClock | app/service/preprocess.py:9 | `"ERROR 12:00:01 KERNEL"` becomes `"error  kernel"`; inner whitespace is not collapsed. |
| Preprocess.ExampleHexInsideWord | app/service/preprocess.py:10 | `"a0x1fz"` becomes `"az"`: a hex literal is deleted even inside a word. |
| Preprocess.UpperHexUntouched | app/service/preprocess.py:4 | The `0x` prefix is case-sensitive, so `"0X1F"` survives and comes out as `"0x1f"`. |
| Preprocess.LowerHexScrubbed | app/service/preprocess.py:10 | `"0x1f"` is deleted by the hex pass. |
| Preprocess.ExampleNotIdempotent | app/service/preprocess.py:8-12 | Cleaning twice differs from cleaning once (`"0X1F"`). |
| Preprocess.DigitsInWordUntouched | app/service/preprocess.py:11 | `"v2"` and `"abc123"` keep their digits. |
| Preprocess.ExampleDigitsInWords | app/service/preprocess.py:5 | Digits touching a letter are not a standalone number. |
| Strings.Strip | app/service/analyser.py:27 | `strip()` leaves no whitespace at either end, and it empties a string exactly when the string is blank. |
| Strings.StripIsSlice | app/service/preprocess.py:12 | `strip()` keeps one contiguous piece and cuts only whitespace. |
| Strings.SplitLines | app/service/analyser.py:27 | No piece of `splitlines()` contains a line boundary. |
| Strings.SplitJoinLines | app/service/analyser.py:27 | `splitlines` recovers the lines of a newline-terminated text. |
| Strings.NonBlank | app/service/analyser.py:27 | `if ln.strip()` keeps exactly the non-blank lines, in order. |
| Strings.NonBlankCounts | app/service/analyser.py:27 | Each non-blank line is kept exactly as often as it occurs, and no blank line is kept. |
| Strings.RawLines | app/service/classifier.py:25 | Every kept line is non-blank and right-stripped. |
| Strings.RawLinesSpec | app/service/classifier.py:25 | The kept lines are the right-stripped non-blank lines of the text, in text order, one per non-blank line. |
| Strings.FirstLineSplits | scripts/eval_pr.py:22 | A first line without a boundary, ended by a newline, comes out of `splitlines` whole, followed by the lines of the rest. |
| Strings.JoinSplit | scripts/eval_roc.py:24 | Joining the `split(",")` fields with commas gives back the row. |
| Strings.SplitFirstFields | scripts/eval_roc.py:24 | A second field exists exactly when the row has a comma. The first field is the text before the first comma. |
| Strings.Sort | scripts/build_labels.py:39 | `sorted` gives an ordered (non-decreasing) permutation of its input. |
| Strings.SortedLastIsGreatest | app/service/classifier.py:56-57 | The last of the sorted names is the greatest one. |
| Strings.Greatest | app/service/analyser.py:16 | `max` over names gives a member that no other name exceeds. |
| Strings.RStrip | app/service/classifier.py:25 | `rstrip()` keeps a prefix, cuts only whitespace, and leaves no trailing whitespace. |
| Strings.IndexOf | scripts/eval_roc.py:24 | The first comma, or the end when there is none: no comma occurs before it. |
| Strings.Split | scripts/eval_roc.py:24 | `split(",")` gives at least one field, and no field contains the separator. |
| Strings.Glob | app/service/analyser.py:16 | `glob("prefix*suffix")` lists exactly the file names with that prefix and suffix. |
| Strings.SortDistinct | app/service/classifier.py:56 | Sorting distinct names keeps exactly those names, in strictly increasing order. |
| Strings.GreatestIsUnique | app/service/analyser.py:16 | Only one name can be the greatest, so the choice of bundle is determined. |
| Regex.Lower | app/service/preprocess.py:12 | `lower()` keeps the length, folds each character on its own, and leaves no upper-case letter. |
| Trainer.RFind | app/service/trainer.py:92 | The last occurrence of the character, or -1 when there is none. |
| Trainer.ClockOrder | app/service/trainer.py:38 | The `%H%M%S` part compares like the time of day. Equal text means an equal time. |
| Preprocess.ClockLineScrubbed | app/service/preprocess.py:9-11 | The three passes turn `"ERROR 12:00:01 KERNEL"` into `"ERROR  KERNEL"`. |
| Preprocess.HexInWordScrubbed | app/service/preprocess.py:9-11 | The three passes turn `"a0x1fz"` into `"az"`. |
| Preprocess.WordDigitsUntouched | app/service/preprocess.py:3-5 | No pattern matches in `"v2"` or `"abc123"`. |
| Regex.FirstMatchFromSpec | app/service/classifier.py:45-46 | The rule index found matches, and no rule between the start and it does. |
| Regex.FirstMatchSpec | scripts/auto_label.py:35-39 | First-match search gives nothing exactly when no pattern is found. Otherwise it gives the label of a matching rule with no earlier match. |
| Regex.FirstMatchIsEarliest | app/service/classifier.py:45-52 | When rule `k` matches and no earlier rule does, the result is rule `k`'s label, whatever later rules say. |
| Regex.FirstRule | app/service/classifier.py:45-52 | The rule loop with `break` returns the first-match label. |
| Analyser.Primary | app/service/analyser.py:34-38 | Primary records are kept lines scoring at most the threshold, with their own score and text, in strictly increasing line order. |
| Analyser.PrimaryComplete | app/service/analyser.py:34-38 | No line scoring at or below the threshold is missed. |
| Analyser.PrimaryEmpty | app/service/analyser.py:37 | With every line above the threshold, nothing is flagged. |
| Analyser.Fallback | app/service/analyser.py:41-45 | Fallback records are lines above the threshold that name an error keyword. Each has score `threshold - 0.001`, in increasing line order. |
| Analyser.FallbackComplete | app/service/analyser.py:41-45 | No line that qualifies for the fallback is missed. |
| Analyser.FallbackPrefix | app/service/analyser.py:41-45 | The fallback over fewer lines is a prefix of the fallback over more. |
| Analyser.KeywordFallback | app/service/analyser.py:40-45 | The append loop builds the fallback list and validates each record as it is built. |
| Analyser.Analyse | app/service/analyser.py:15-46 | `analyse` returns the specified outcome: no model, empty text, the primary list or the fallback. |
| Analyser.NoModelMeansNoAnalysis | app/service/analyser.py:16-18 | Without a `model_*.joblib`, the call fails with "No model trained" whatever the text. With one, it never fails that way. |
| Analyser.ModelUsedIsGreatest | app/service/analyser.py:16-17 | The bundle used has the greatest matching name, and `model_used` reports that name. |
| Analyser.SelectedPointsAtLines | app/service/analyser.py:34-45 | Whichever branch is taken, each record names its line by 1-based number with that line as message, in increasing order. |
| Analyser.AnomaliesPointAtKeptLines | app/service/analyser.py:27-44 | Every anomaly is valid. Its number is a 1-based index into the kept lines, and its message is that line. Numbers strictly increase. |
| Analyser.BlankTextHasNoAnomalies | app/service/analyser.py:29-30 | A text without a non-blank line yields no anomaly. |
| Analyser.PrimaryWins | app/service/analyser.py:40 | When some line is flagged, the result is exactly the primary list. |
| Analyser.FallbackOnlyWhenNothingFlagged | app/service/analyser.py:40-45 | When nothing is flagged, the result is exactly the keyword lines, each with `threshold - 0.001`. |
| Analyser.KeywordIsWholeWord | app/service/analyser.py:8 | `FAILED` alone does not match; `fatal` and `Error:` do. |
| Classifier.ArgMax | app/service/classifier.py:36 | `argmax` is the first index holding the maximum. |
| Classifier.Max | app/service/classifier.py:32 | `max` bounds every probability and is one of them. |
| Classifier.MlRecord | app/service/classifier.py:32-39 | An ML record exists iff the maximum is at least 0.5. It carries the class at the argmax and that maximum as confidence. |
| Classifier.RuleRecord | app/service/classifier.py:45-52 | A rule record exists iff some rule matches the raw line. It carries the first match's label and confidence 1.0. |
| Classifier.MlAt | app/service/classifier.py:28-39 | Without a bundle there is no ML record. With one, the record is the gated prediction for that line. |
| Classifier.RuleAt | app/service/classifier.py:42-52 | A line with an accepted ML record is never checked against the rules. |
| Classifier.CollectSpec | app/service/classifier.py:41-52 | The collected records come from the lines they name, in strictly increasing line order. |
| Classifier.CollectComplete | app/service/classifier.py:41-52 | Every line with a record has it collected. |
| Classifier.MlPrefixNext | app/service/classifier.py:31-39 | A line with an accepted prediction is added to `ml_preds` under its index and appended to its values. A line without one changes neither. |
| Classifier.Classifier.constructor | app/service/classifier.py:20-22 | The bundle is loaded once, as `_load_latest` chooses it. |
| Classifier.Classifier.Classify | app/service/classifier.py:24-53 | `classify` returns the specified record list. |
| Classifier.Classifier.PredictLines | app/service/classifier.py:27-39 | The ML loop indexes exactly the lines with an accepted prediction. `ml_preds.values()` lists their records in line order. |
| Classifier.RulePlanOfRecords | app/service/classifier.py:42-46 | A line in `ml_preds` is skipped by the rule loop. Any other line gets its first-match rule record. |
| Classifier.AppendRuleRecords | app/service/classifier.py:42-52 | The rule loop appends, in line order, the rule record of every line outside `ml_preds`. |
| Classifier.Classifier.ApplyRules | app/service/classifier.py:41-52 | The rule loop appends the rule records of the remaining lines to the ML records. |
| Classifier.CollectMember | app/service/classifier.py:41-52 | A record is collected iff it is the record of its line. |
| Classifier.CollectDisjoint | app/service/classifier.py:41-52 | Two record lists with disjoint lines collect to records of different lines. |
| Classifier.RecordsOfLine | app/service/classifier.py:42-52 | A line's records in the result are its accepted ML record, or else its rule record, or none. |
| Classifier.AtMostOneRecordPerLine | app/service/classifier.py:42-44 | No two records of the result name the same line. |
| Classifier.GateThenRules | app/service/classifier.py:33-52 | A line gets a rule record only when its ML prediction was not accepted. |
| Classifier.NoBundleRecords | app/service/classifier.py:28 | Without a bundle, there are no ML records. |
| Classifier.CollectRuleRecords | app/service/classifier.py:42-52 | Collected rule records are exactly the rule-matching lines, in line order. |
| Classifier.NoBundleCollectsRules | app/service/classifier.py:28-52 | Without a bundle, the rule loop considers every line. |
| Classifier.NoBundleMeansRulesOnly | app/service/classifier.py:28-52 | Without a bundle, the output is exactly the rule-matching lines, in line order. |
| Classifier.CollectConfidence | app/service/classifier.py:32-49 | A bound on every record's confidence carries over to the collected list. |
| Classifier.RecordConfidences | app/service/classifier.py:33-49 | ML records have confidence of at least 0.5; rule records have 1.0. |
| Classifier.RecordsAreValid | app/schemas.py:19 | Every record satisfies the `Classification` range constraint. |
| Classifier.LoadsGreatestName | app/service/classifier.py:55-57 | The bundle loaded is the one with the greatest `classifier_*.joblib` name, or none when there is none. |
| Classifier.MlRecordsComeFirst | app/service/classifier.py:41-48 | A rule record for line 1 is listed after an ML record for line 2. |
| Classifier.FirstRuleWins | app/service/classifier.py:9-10 | A line naming both a timeout and a segmentation fault gets `TimeoutError`. |
| Classifier.TieGoesToFirstClass | app/service/classifier.py:33-36 | On a tie the first class wins, and a tie at 0.5 is accepted. |
| Schemas.NewAnalyseResponse | app/schemas.py:24-27 | The classifications are absent by default, so the response is valid exactly when its anomalies are. |
| Trainer.SourceLinesMembers | app/service/trainer.py:21-23 | The corpus lines are exactly the non-blank lines of the texts. |
| Trainer.SourceLinesConcat | app/service/trainer.py:22 | The corpus follows text order, then line order. |
| Trainer.Corpus | app/service/trainer.py:21-23 | Corpus line `i` is `clean_line` of the `i`-th non-blank line. |
| Trainer.TrainFromTexts | app/service/trainer.py:21-43 | Training fails with an empty corpus iff every line is blank. It fails with an empty vocabulary iff no corpus line has a token. Otherwise it fits on the corpus and names `model_<stamp>.joblib`. |
| Trainer.OneLineCorpus | app/service/trainer.py:21-23 | A text of one non-blank line contributes exactly that line, cleaned. |
| Trainer.BlankAfterCleaningStillCounts | app/service/trainer.py:21-28 | A non-blank line that cleans to `""` passes the empty-corpus check. Training then goes ahead iff its cleaned form has a token. |
| Trainer.KeepLabelled | app/service/trainer.py:56-58 | The filters keep exactly the rows with a present, non-blank label, in order. |
| Trainer.SkippedIsUnlabelled | app/service/trainer.py:59 | `before - after` is the number of rows without a label. |
| Trainer.Examples | app/service/trainer.py:66-73 | There is one `(line_norm, label)` pair per kept row. |
| Trainer.TrainClassifier | app/service/trainer.py:56-86 | Training fails iff no row is labelled, or iff no `line_norm` of a kept row has a token. Otherwise it gives the examples, the skipped count and `classifier_<stamp>.joblib`. |
| Trainer.ExistingNormIsKept | app/service/trainer.py:66-69 | An existing `line_norm` column is used as read, never recomputed. |
| Trainer.DigitsOrder | app/service/trainer.py:38 | Zero-padded numbers of one width compare like the numbers. |
| Trainer.StampDigits | app/service/trainer.py:38 | From year 1000 on, a stamp has 14 digits. |
| Trainer.StampOrder | app/service/trainer.py:38 | Stamps compare like the instants they print. |
| Trainer.NameOrderIsTimeOrder | app/service/trainer.py:38-39 | For one prefix, name order is creation order, and equal names mean equal instants. |
| Trainer.StemOfBundle | app/service/trainer.py:92 | The stem of a bundle name drops exactly `.joblib`. |
| Trainer.ListModels | app/service/trainer.py:89-97 | There is one entry per `*.joblib` file. |
| Trainer.ListModelsSorted | app/service/trainer.py:96 | The listing is sorted by path. |
| Trainer.ListModelsComplete | app/service/trainer.py:96 | A file has an entry exactly when it is a bundle file. |
| Trainer.ListModelsEntries | app/service/trainer.py:91-95 | Each entry has the file's stem, modification time and path. |
| AutoLabel.DetectLabel | scripts/auto_label.py:35-39 | `detect_label` is the first-match label of `PATTERNS_LABEL`, or nothing. |
| AutoLabel.LoadExisting | scripts/auto_label.py:51-58 | The start state holds the existing rows and their keys with `--inplace` on an existing file, and nothing otherwise. |
| AutoLabel.ScanLog | scripts/auto_label.py:62-69 | The loop over one log is the specified scan of its normalised lines. |
| AutoLabel.Run | scripts/auto_label.py:51-75 | The output is the header followed by the rows of the whole scan. |
| AutoLabel.ScanSnoc | scripts/auto_label.py:62-69 | One more line is one more scan step. |
| AutoLabel.ScanConcat | scripts/auto_label.py:60-62 | Scanning two stretches in turn is scanning them together. |
| AutoLabel.ScanAppends | scripts/auto_label.py:64-69 | Earlier rows stay first and in order. Every added row is a line not known before, with its truthy label. |
| AutoLabel.ScanKnownGrows | scripts/auto_label.py:69 | `known` only grows. |
| AutoLabel.ScanKnownIsRowKeys | scripts/auto_label.py:58-69 | `known` is exactly the set of the rows' `line_norm`s. |
| AutoLabel.ScanKnownIff | scripts/auto_label.py:64-69 | A line ends up known iff it was known before or got a label. Unlabelled lines are never added. |
| AutoLabel.ScanNoDuplicates | scripts/auto_label.py:64-69 | No added row repeats the `line_norm` of any earlier row. |
| AutoLabel.MainOutput | scripts/auto_label.py:54-75 | The output is the header `line_norm,label`, then the old rows unchanged, then new, labelled, duplicate-free rows. |
| AutoLabel.BluetoothExample | scripts/auto_label.py:25 | A bracketed Bluetooth tag followed later by "error" is a `BluetoothError`. |
| BaselineRegex.SafeAuprc | scripts/baseline_regex.py:38-44 | The result is "n/a" exactly when there is no positive or the library raises. |
| BaselineRegex.Contributing | scripts/baseline_regex.py:59-62 | A raw line contributes iff its normalised form is a key of `truth`; the order is kept. |
| BaselineRegex.Run | scripts/baseline_regex.py:53-70 | The run fails with the exit message iff no line contributes. Otherwise the four lists pair each contributing line. |
| BaselineRegex.PairLog | scripts/baseline_regex.py:59-67 | The loop over one log extends the pairing by its contributing lines. |
| BaselineRegex.PairStep | scripts/baseline_regex.py:60-67 | A line without a label leaves the lists alone; any other line adds one entry to each. |
| BaselineRegex.PairedSnoc | scripts/baseline_regex.py:63-67 | One more contributing line adds one entry to each list. |
| BaselineRegex.PredictionIsNoneIffNoMatch | scripts/baseline_regex.py:64 | `y_pred` is "None" exactly when no baseline rule matches the raw line. |
| BaselineRegex.InvalidUserWins | scripts/baseline_regex.py:22-36 | "failed password for invalid user" yields `SSHInvalidUser`, although the second rule also matches. |
| BaselineRegex.AuprcGuardNeverFires | scripts/baseline_regex.py:38-44 | In a run that reaches the metrics, the "no positives" guard never fires. |
| BuildLabels.UniversalNewlines | scripts/build_labels.py:24 | Text-mode reading leaves no `"\r"`. |
| BuildLabels.FileLines | scripts/build_labels.py:25 | Iterating a file gives non-empty lines; each but possibly the last ends with its one `"\n"`. |
| BuildLabels.FileLinesJoin | scripts/build_labels.py:25 | The lines put back together give the file. |
| BuildLabels.KeptLines | scripts/build_labels.py:26-28 | A kept line is a non-blank line right-stripped, and every such line is kept. |
| BuildLabels.CollectedFrom | scripts/build_labels.py:26-29 | A collected line is `clean_line` of a non-blank right-stripped line, and every such line is collected. |
| BuildLabels.Existing | scripts/build_labels.py:32-36 | `existing` is empty without a file. Otherwise its keys are the rows' `line_norm`s. |
| BuildLabels.Run | scripts/build_labels.py:38-51 | Nothing is appended iff there are no new lines. Otherwise the header goes only into an empty file, and the rows are numbered from `len(existing)+1`. |
| BuildLabels.AppendNew | scripts/build_labels.py:39-51 | The same, for already collected lines. |
| BuildLabels.NumberedRows | scripts/build_labels.py:50-51 | Row `k` has id `start + k`, the `k`-th new line and an empty label. |
| BuildLabels.NumberRows | scripts/build_labels.py:50-51 | The write loop produces the numbered rows. |
| BuildLabels.NewLinesSpec | scripts/build_labels.py:38-39 | The new lines are strictly increasing. They are exactly the collected lines missing from the table. |
| BuildLabels.NewLinesDistinct | scripts/build_labels.py:38-39 | The new lines are duplicate-free. |
| BuildLabels.StartIdFollowsRows | scripts/build_labels.py:35-45 | `start_id` is at most the number of rows plus one. It equals that exactly when no `line_norm` repeats. |
| SplitLogs.Window | scripts/split_logs.py:31 | `idx[offset:offset+k]` has `min(k, max(0, n-offset))` positions, taken from `offset` on. |
| SplitLogs.Pick | scripts/split_logs.py:31 | Output line `j` is the input line at the window's `j`-th position. |
| SplitLogs.PartsAreWindows | scripts/split_logs.py:29-35 | Train, val and test have the Python slice sizes, at offsets 0, `len(train)` and `len(train)+len(val)`. |
| SplitLogs.WindowsContiguous | scripts/split_logs.py:33-35 | The three windows together are the first `Total` shuffled positions, with no gap and no overlap. |
| SplitLogs.PositionsDisjoint | scripts/split_logs.py:25-35 | When `idx` is a permutation, no input position is taken twice, within a part or across parts. |
| SplitLogs.SplitIsShuffledPrefix | scripts/split_logs.py:29-35 | The parts are the input lines at the first shuffled positions, in order; every output line is an input line. |
| SplitLogs.TotalAtMostN | scripts/split_logs.py:24-35 | The parts hold at most `n` lines together. |
| SplitLogs.LastPartTruncated | scripts/split_logs.py:31-35 | With counts 7, 2 and 3 over ten lines, the test part gets one line. |
| EvalClassifier.DropNa | scripts/eval_classifier.py:35 | A row survives `dropna` exactly when its label is present. |
| EvalClassifier.TruthKeys | scripts/eval_classifier.py:35-36 | `truth` holds exactly the keys of rows that have a label. |
| EvalClassifier.SplitNames | scripts/eval_classifier.py:42-43 | Of the `.log` files, only `val.log` and `test.log` are evaluated. |
| EvalClassifier.SkipsOtherSplits | scripts/eval_classifier.py:42-43 | Another file adds nothing to either list. |
| EvalClassifier.PredsKeys | scripts/eval_classifier.py:46 | `preds` has a key for exactly the normalised messages of the records. |
| EvalClassifier.LaterRecordWins | scripts/eval_classifier.py:46 | Of the records with one normalised message, the last one's label is in `preds`. |
| EvalClassifier.RuleRecordOverridesMl | scripts/eval_classifier.py:46 | A rule record overrides an ML record with the same normalised message. |
| EvalClassifier.PairFile | scripts/eval_classifier.py:48-52 | The loop over one log appends the specified pairs. |
| EvalClassifier.PairLinesSpec | scripts/eval_classifier.py:48-52 | A line contributes iff its normalised form is in `truth`. It adds its true label and `preds.get(norm, "None")`, one entry per line, in order. |
| EvalClassifier.EvaluationLengths | scripts/eval_classifier.py:51-52 | `y_true` and `y_pred` always have equal length. |
| EvalClassifier.Run | scripts/eval_classifier.py:35-55 | The run fails with the exit message iff no labelled line is found. Otherwise it returns the two lists. |
| EvalPr.FirstScoreIsFirst | scripts/eval_pr.py:26 | The score is that of the first anomaly whose message equals the line. |
| EvalPr.FirstScoreDefault | scripts/eval_pr.py:26 | With no such anomaly, the score is 0.0. |
| EvalPr.EntryMeaning | scripts/eval_pr.py:24-28 | `y_true` is 1 iff the line equals some anomaly message. An unmatched line has `y_score` 0.0. |
| EvalPr.OneEntryPerLine | scripts/eval_pr.py:22-28 | There is exactly one entry per line of every log, blank lines included. |
| EvalPr.ScoreLog | scripts/eval_pr.py:25-28 | The loop over one log appends one entry per line. |
| EvalPr.Run | scripts/eval_pr.py:17-28 | The module-level loops produce the specified lists. |
| EvalPr.TrailingBlankNeverMatches | scripts/eval_pr.py:22-27 | A flagged line with trailing blanks counts as a negative, since lines are compared as read. |
| EvalRoc.GtEntrySpec | scripts/eval_roc.py:24 | A row gives an entry iff it has a comma: the text before the first comma, and the stripped second field. |
| EvalRoc.GtPairsFails | scripts/eval_roc.py:23-26 | The parse fails exactly when some row gives no entry. |
| EvalRoc.GtPairsEntries | scripts/eval_roc.py:23-26 | When the parse succeeds, row `k` gives entry `k`. |
| EvalRoc.GtPairsSpec | scripts/eval_roc.py:23-26 | The parse fails iff some row has no comma. Otherwise each row gives its key and stripped value. |
| EvalRoc.GtKeys | scripts/eval_roc.py:23-25 | The keys are the texts before the first comma of the rows after the header. |
| EvalRoc.SecondFieldIsValue | scripts/eval_roc.py:24 | The value is the second field; later fields are dropped. |
| EvalRoc.ScoreAnomalies | scripts/eval_roc.py:30-32 | The loop over one response appends one entry per anomaly. |
| EvalRoc.OneEntryPerAnomaly | scripts/eval_roc.py:28-32 | There is one entry per anomaly across all responses. `y_true` is 1 iff the message is a key; `y_score` is the negated score. |
| EvalRoc.TwoClasses | scripts/eval_roc.py:34 | For 0/1 labels, two classes occur iff both a 1 and a 0 do. |
| EvalRoc.CurveNeedsBothClasses | scripts/eval_roc.py:31-36 | The curve is drawn iff some message is a key and some message is not. |
| EvalRoc.Run | scripts/eval_roc.py:21-36 | A comma-less row stops the run with an index error. Fewer than two classes stop it before the curve. Otherwise it returns the lists. |
| Collections.ToMap | scripts/baseline_regex.py:54 | The keys of `dict(pairs)` are the pairs' keys. |
| Collections.ToMapLastWins | scripts/baseline_regex.py:54 | A key maps to the value of its last pair. |
| Collections.Dedup | scripts/build_labels.py:38 | `set(...)` keeps every element, once. |
| Collections.DistinctKeysCount | scripts/build_labels.py:45 | Without repeated keys, `len(dict(pairs))` is the number of pairs. |
| Collections.KeysCount | scripts/build_labels.py:45 | A dict of pairs never has more keys than pairs. It has exactly as many iff no key repeats. |
| Collections.Filter | scripts/baseline_regex.py:61-62 | A filter keeps exactly the elements satisfying the test, in order. |

## Left out

- Unicode: letters, `\w`, `\d` and case folding are ASCII only. Whitespace and line boundaries follow Python's full sets.
- The statistical models are opaque functions or given values:
  - TF-IDF and forest fitting;
  - `decision_function` and `predict_proba`;
  - the `mean - 2*std` threshold.
- Floats are reals: there is no rounding, NaN or `float()` conversion.
- Reading and writing files is left out:
  - joblib load and dump;
  - CSV and JSON parsing;
  - directory globbing and its order;
  - modification times.

  File name lists, texts and table rows are given as inputs.
- `BuildLabels.Run` takes the `existing` dict. `BuildLabels.Existing` models how it is built from the table rows.
- Text decoding (`errors="ignore"`) is left out. Texts are given as already decoded strings.
- The `random.shuffle` permutation and the `int(frac * n)` counts are inputs, because randomness and float truncation are out of scope. Counts are natural numbers, so negative fractions (a negative slice end) are not modelled.
- The following are left out:
  - the HTTP routes and upload handling in `app/main.py`;
  - the remote analysis in `app/service/chatgpt.py`;
  - the CLI wrapper scripts;
  - the end-to-end tests.
- The evaluation metrics and plots are left out:
  - precision, recall and F1;
  - AUPRC;
  - the ROC and PR curves;
  - printing.
- Clocks: `utcnow()` is a given instant. The stamp is modelled from year 1000 on; earlier years print fewer than four digits.
- `Classifier.Classifier.Classify`: does not model the library's zero-sample error. With a bundle loaded and no non-blank line, `predict_proba` raises (app/service/classifier.py:30), but the model returns no records. `EvalClassifier.Run` therefore also omits that crash for an empty split log.
- `Trainer.HasToken`: follows the vectoriser's default token pattern with ASCII word characters only.
- `EvalClassifier.TruthKeys` states which keys `truth` holds. For a repeated key, the value follows the generic later-wins lemma `Collections.ToMapLastWins` and is not restated.
- `EvalClassifier.DropNa` states which rows survive. That the surviving rows keep their order follows from the definition and is not stated.
- `EvalPr.Run` pairs each response with its log text as given. The `with_suffix(".log")` lookup is file I/O.
