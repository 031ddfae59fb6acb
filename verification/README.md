# Numeric CSV result comparison

A Dafny model of `NumericCsvResult` from the nrtest regression-testing tool
(`nrtest/results/csv.py`). A result file is a delimited text file produced by
a simulation. The class has two parts:

- **Format identification** (`_identify_format`). It counts the leading lines
  that start with `#`. It then sniffs a 1024-character sample after them to
  choose a csv dialect. When the sniffer also judges the sample to start with
  a header, one more header line is counted. When the sample has at most one
  whitespace-separated token, or when the sniffer raises `csv.Error`, the
  class falls back to the `'excel'` dialect.
- **Comparison** (`compare`). Each file skips its own header lines. The two
  row streams are then walked in lockstep. Any of these makes the pair
  incomparable, and `compare` returns `(999.9, 999.9)`:
  - a read error on either side;
  - one side ending before the other;
  - rows of different lengths;
  - a number against text;
  - text that differs after stripping.

  Otherwise every pair of numeric cells adds its relative deviation to a
  running maximum and a running mean.

Modules:

- `Strings` (`strings.dfy`): Python 3 `str.isspace`, `strip()` and `split()`.
- `Format` (`format.dfy`): hash-line counting, the sample, the sniff and
  fallback branches, and the data lines handed to the reader.
- `Comparison` (`comparison.dfy`): cells, rows, and the per-cell deviation.
  It also holds the lockstep walk that follows the source loop step by step.
  The result type is `Outcome = Scored(max, mean) | Incomparable(reason)`.
  The pair `compare` returns is `ComparePair`.
- `ComparisonSpec` (`comparison_spec.dfy`): an independent description of
  comparability and of the score, and the theorems that tie the walk to it.
- `Scenarios` (`scenarios.dfy`): concrete comparisons.

Foreign parts become parameters:

- The csv `Sniffer` is a pair of functions, `sniff(sample, delimiters)` and
  `has_header(sample)`. Either call may return `Raised`.
- `csv.reader` followed by the `float()` tagging of cells is a `Reader`. It
  maps lines and a dialect to rows. A row is either `Row(cells)` or
  `Malformed`, the point where the reader raises `csv.Error`.
- A file is the sequence of lines `readline()` returns.

## Model

| member | source | states |
|---|---|---|
| `Format.HashHeaderCount` | nrtest/results/csv.py:24-36 | the count is the length of the longest run of leading lines starting with `#`: every counted line starts with `#`, and the first uncounted line (if any) does not; an empty file gives 0 |
| `Format.Sample` | nrtest/results/csv.py:39-40 | the sample is a prefix of the text after the hash lines, at most 1024 characters long, and is all of that text when it is shorter |
| `Format.IdentifyFormat` | nrtest/results/csv.py:19-51 | the header count is the hash count or one more. It is one more exactly when the sample has more than one token, `sniff` returns and `has_header` returns true. The dialect is `'excel'` exactly when the sample has at most one token or either sniffer call raises; otherwise it is the sniffed dialect. The header never exceeds the file's lines |
| `Format.SampleNonBlank` | nrtest/results/csv.py:42-49 | the extra header line is only counted when a line exists after the hash lines, so the header fits in the file |
| `Format.DataLines` | nrtest/results/csv.py:73-76 | the lines after skipping exactly `n_header_lines` lines are the file's lines from that index on |
| `Format.EmptyFile` | nrtest/results/csv.py:24-43 | an empty file has 0 header lines and the `'excel'` dialect |
| `Format.IdentifyFormatByWords` | nrtest/results/csv.py:42-51 | the extra header line and the `'excel'` fallback restated on the sample's text: the sniffer is consulted exactly when the sample holds two runs of non-whitespace separated by whitespace |
| `Format.SingleTokenFallsBack` | nrtest/results/csv.py:41-43 | a sample with at most one token gives `'excel'` and no extra header line, whatever the sniffer would say |
| `Format.CommentLineKeepsData` | nrtest/results/csv.py:27-36 | prepending one `#` line adds one header line and changes neither the dialect nor the data lines |
| `Format.CommentLinesKeepData` | nrtest/results/csv.py:27-36 | the same holds for any number of prepended `#` lines |
| `Strings.Strip` | nrtest/results/csv.py:137 | the stripped text has no whitespace at either end, and is empty exactly when the input is all whitespace |
| `Strings.StripUnique` | nrtest/results/csv.py:137 | a text made of whitespace, a core that starts and ends with a non-whitespace character, and more whitespace strips to exactly that core |
| `Strings.StripSplitsString` | nrtest/results/csv.py:137 | every text is its leading whitespace, its stripped text and its trailing whitespace, in that order; together with `StripUnique` this pins `strip()` down completely |
| `Strings.StripIgnoresPadding` | nrtest/results/csv.py:136-140 | whitespace added around a text cell does not change its stripped text |
| `Strings.StripTrimmed` | nrtest/results/csv.py:137 | text without surrounding whitespace strips to itself |
| `Strings.Split` | nrtest/results/csv.py:42 | every token is non-empty and free of whitespace |
| `Strings.SplitSkipsSpace` | nrtest/results/csv.py:42 | a leading whitespace character of any kind (space, tab, newline, carriage return, …) does not change the tokens |
| `Strings.SplitSkipsPadding` | nrtest/results/csv.py:42 | any run of leading whitespace does not change the tokens |
| `Strings.SplitFirstWord` | nrtest/results/csv.py:42 | whitespace, then a token, then nothing or whitespace-led text splits into that token followed by the tokens of the rest; with `SplitBlank` this fixes the tokens of every string, since every string is either all whitespace or of this shape |
| `Strings.SplitTwoWords` | nrtest/results/csv.py:42 | the sample has more than one token exactly when it holds a non-whitespace character, later a whitespace character, and later again a non-whitespace character |
| `Strings.SplitBlank` | nrtest/results/csv.py:42 | the sample splits into no tokens exactly when it is all whitespace |
| `Strings.SplitJoin` | nrtest/results/csv.py:42 | splitting tokens joined by single spaces gives back the tokens |
| `Comparison.Deviation` | nrtest/results/csv.py:126-131 | the deviation is never negative; it is 0 exactly when candidate equals reference; it is 999.9 when only the reference is 0; otherwise it times the reference's magnitude is the absolute difference |
| `ComparisonSpec.DeviationScaleFree` | nrtest/results/csv.py:126-131 | scaling both values by the same non-zero factor leaves the deviation unchanged |
| `Comparison.Absorb` | nrtest/results/csv.py:133-135 | one numeric cell pair makes the running maximum the larger of the old maximum and the deviation, adds the deviation to the sum and one to the count; `ComparisonSpec.FoldComputes` lifts this to a whole run of deviations and `Comparison.AbsorbBounded` gives the invariant it keeps |
| `Comparison.AbsorbBounded` | nrtest/results/csv.py:133-135 | folding a non-negative deviation into the running max, sum and count keeps all of them non-negative, and keeps the sum at most count times max |
| `Comparison.CompareCells` | nrtest/results/csv.py:115-144 | the cell walk of one row keeps the accumulator bounded. When it stops, it names a type or text mismatch at a column of that row |
| `Comparison.Walk` | nrtest/results/csv.py:81-113 | the row walk keeps the accumulator bounded, and stops only at a row it has reached |
| `Comparison.MeanBelowMax` | nrtest/results/csv.py:146-147 | a bounded accumulator with at least one cell has a mean between 0 and its maximum |
| `Comparison.CompareTables` | nrtest/results/csv.py:68-148 | a scored outcome has 0 ≤ mean ≤ max |
| `Comparison.CompareFiles` | nrtest/results/csv.py:72-79 | each file skips its own header lines and is read in its own dialect; a scored outcome has 0 ≤ mean ≤ max |
| `Comparison.ComparePair` | nrtest/results/csv.py:64-148 | a scored outcome is returned as its `(max, mean)`, so 0 ≤ mean ≤ max; an incomparable outcome is returned as `(999.9, 999.9)` |
| `ComparisonSpec.MaxOf` | nrtest/results/csv.py:133 | the maximum bounds every deviation, is 0 when there is none, and is one of the deviations when there are some |
| `ComparisonSpec.FoldAppend` | nrtest/results/csv.py:83-135 | folding two runs of deviations one after the other equals folding their concatenation |
| `ComparisonSpec.FoldComputes` | nrtest/results/csv.py:133-135 | after folding, the running max, sum and count are the maximum, sum and number of the deviations folded in |
| `ComparisonSpec.CompareCellsContinues` | nrtest/results/csv.py:115-144 | the cell walk of a row goes on exactly when every cell pair is two numbers or two texts equal after stripping |
| `ComparisonSpec.CompareCellsFolds` | nrtest/results/csv.py:125-135 | when it goes on, the cell walk has folded in exactly the deviations of the row's numeric pairs, left to right; text pairs add nothing |
| `ComparisonSpec.CompareCellsStops` | nrtest/results/csv.py:136-144 | when it stops, the cell walk names the first incompatible column: a type mismatch for number against text in either order, a text mismatch for differing stripped texts |
| `ComparisonSpec.WalkContinues` | nrtest/results/csv.py:83-113 | the row walk ends normally exactly when both tables have the same number of rows, no read errors, equal row lengths and compatible cells |
| `ComparisonSpec.WalkFoldsRow` | nrtest/results/csv.py:110-135 | a compatible row moves the walk to the next row with that row's deviations folded in |
| `ComparisonSpec.WalkFolds` | nrtest/results/csv.py:83-135 | on compatible tables the walk folds in all deviations in row-major order |
| `ComparisonSpec.WalkStops` | nrtest/results/csv.py:84-113 | when the walk stops, the reason is the first defect. The candidate row is read before the reference row, and row lengths are checked before any cell |
| `ComparisonSpec.CompareTablesSpec` | nrtest/results/csv.py:53-148 | two tables score exactly when they are compatible. The score is then the maximum and the mean of all numeric deviations, each 0 when there is none. An incomparable outcome names the first defect |
| `ComparisonSpec.CompatibleScore` | nrtest/results/csv.py:133-148 | compatible tables score the maximum and the mean of all their numeric deviations |
| `ComparisonSpec.FirstDefectUnique` | nrtest/results/csv.py:84-144 | two tables have at most one first defect, so the reason is determined by the tables |
| `ComparisonSpec.RowDefectUnique` | nrtest/results/csv.py:104-144 | within one row there is at most one defect in the order the source checks: row lengths first, then the first incompatible column |
| `ComparisonSpec.DefectBreaksRow` | nrtest/results/csv.py:104-144 | the row a defect names is not a compatible pair of rows |
| `ComparisonSpec.ZeroDeviations` | nrtest/results/csv.py:133-148 | all-zero deviations give maximum, sum and mean 0 |
| `ComparisonSpec.SelfComparison` | nrtest/results/csv.py:115-148 | a table without read errors compared with itself scores (0, 0) |
| `ComparisonSpec.SelfComparisonOfFile` | nrtest/results/csv.py:72-148 | a result file compared with itself scores (0, 0) unless reading it fails |
| `ComparisonSpec.CommentLinesKeepScore` | nrtest/results/csv.py:27-36 | extra `#` lines at the top of either file do not change the outcome |
| `Scenarios.DeviationScenarios` | nrtest/results/csv.py:126-131 | 10 against 5 deviates by 1, 5 against 0 by 999.9, 0 against 0 by 0 |
| `Scenarios.AggregationScenario` | nrtest/results/csv.py:133-148 | deviations 0, 0.5 and 1 on one row give maximum 1 and mean 0.5 |
| `Scenarios.RowCountScenario` | nrtest/results/csv.py:104-109 | two rows against three is incomparable at row 2 |
| `Scenarios.ColumnCountScenario` | nrtest/results/csv.py:110-113 | three cells against two is incomparable, even though a later cell would also mismatch |
| `Scenarios.TypeMismatchScenario` | nrtest/results/csv.py:141-144 | `abc` against 3.14 is incomparable |
| `Scenarios.ReadErrorScenario` | nrtest/results/csv.py:84-102 | a malformed candidate row is reported before the reference row; a malformed reference row after a finished candidate is still a read error |
| `Scenarios.PaddedTextScenario` | nrtest/results/csv.py:136-140 | any text with whitespace in front of it matches the same text with whitespace after it, adds nothing to the accumulators, and leaves one numeric pair deviating by 1 to score (1, 1) |
| `Scenarios.MatchingTextRow` | nrtest/results/csv.py:125-148 | two texts with equal stripped forms next to the numbers 2 and 1 score (1, 1): text pairs are skipped by the count |
| `Scenarios.SentinelCollision` | nrtest/results/csv.py:69 | a comparable pair with candidate 1 and reference 0 returns exactly `(999.9, 999.9)` |

## Left out

- File opening, `tell`/`seek`, the `with` blocks and closing files. These are
  I/O plumbing. A file is given as its lines.
- The heuristics inside `csv.Sniffer.sniff` and `has_header`. They are
  foreign code and enter the model as functions that may raise.
- `csv.reader` tokenisation by dialect and `float()` parsing. The `Reader`
  parameter stands for both and yields rows of tagged cells.
- IEEE-754 behaviour. Values are `real`, so NaN, infinities and rounding in
  the division and the sum are not modelled. `float()` accepting `nan` or
  `inf` therefore has no counterpart.
- Logging calls. The `Reason` of an incomparable outcome carries the row and
  column; the source logs only a message, and its "line" number there is
  the column index plus 1.
- `Comparison.CompareFiles`: requires each file's header to fit in its
  lines. The source lets `next(f)` raise `StopIteration` otherwise.
  `Format.IdentifyFormat` proves that every file it produces meets this.
- Text mode against binary mode. `_identify_format` reads with `open(path)`
  while `compare` opens with `'rb'`; both are modelled as one line sequence.
  Under Python 3, `csv.reader` rejects the bytes lines of a binary file with
  `csv.Error`, so every non-empty comparison there would be a read error.
  The model follows the Python 2 reading, where binary lines are strings.
- `Strings.Split` and `Strings.Strip` use Python 3's `str.isspace` set.
  Python 2 byte strings split on ASCII whitespace only.
- Line shape. A file is taken to be the lines `readline()` returns, but the
  model does not require that every line except the last ends in `"\n"`, that
  no line is empty, or that no line holds an inner `"\n"`. The lemmas about
  prepended `#` lines (`Format.CommentLinesKeepData`,
  `ComparisonSpec.CommentLinesKeepScore`) therefore also cover comment lines
  without a terminator. Such a comment would merge with the next line in a
  real file. For line lists `readline()` can return, the lemmas say what the
  source does.
- Python versions. Format identification follows Python 3's text mode:
  `read(1024)` counts characters and `split()` breaks on `str.isspace`.
  Under Python 2, `read(1024)` counts bytes and `split()` breaks on ASCII
  whitespace. `compare` follows the Python 2 reading of binary lines, as
  described above.
- The `Result` base class and the constructor. `NumericCsvResult(fpath)`
  corresponds to `Format.IdentifyFormat` applied to the file's lines.

## Findings

| source | as written | input that shows it | evidently intended | confidence | as-written member | corrected member |
|---|---|---|---|---|---|---|
| nrtest/results/csv.py:69 | an incomparable pair is reported as the pair `(999.9, 999.9)`, which is also an ordinary score: a reference value of 0 against a non-zero candidate deviates by exactly 999.9 | one-cell files, candidate `1`, reference `0`: the pair is comparable, yet `compare` returns `(999.9, 999.9)` | incomparable results should be distinguishable from any graded score | high that the collision exists; low that it matters to callers that only threshold the score; not executed | `Scenarios.SentinelCollision` (on `Comparison.ComparePair`) | `Comparison.CompareFiles`, returning `Outcome`, with `ComparisonSpec.CompareTablesSpec` proving the outcome is scored exactly when the tables are compatible |
