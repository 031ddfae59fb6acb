/**
 Format identification of a numeric CSV result (`NumericCsvResult._identify_format`):
 how many leading lines to skip, and which csv dialect to read the rest with.

 A file is the sequence of lines `readline()` returns, line terminators
 included, so the file's text is their concatenation. The csv module's
 `Sniffer` is a foreign heuristic; it enters the model as a pair of functions
 whose calls may raise `csv.Error`.
 */
module Format {
  import opened Strings

  /** Number of characters read after the hash lines to sniff the dialect. */
  const SampleSize: nat := 1024

  /** The delimiters the sniffer may choose from: comma, colon, semicolon, tab, space. */
  const SniffDelimiters: string := ",:;\t "

  /** What `Sniffer.sniff` reports about a dialect. */
  datatype DialectInfo = DialectInfo(delimiter: char, quoteChar: char, doubleQuote: bool, skipInitialSpace: bool)

  /** The dialect a file is read with: the csv module's default `'excel'`, or a sniffed one. */
  datatype Dialect = Excel | Sniffed(info: DialectInfo)

  /** The result of a call into the csv module that may raise `csv.Error`. */
  datatype Attempt<T> = Raised | Returned(value: T)

  /** The two `Sniffer` calls: `sniff(sample, delimiters)` and `has_header(sample)`. */
  datatype Sniffer = Sniffer(
    sniff: (string, string) -> Attempt<DialectInfo>,
    hasHeader: string -> Attempt<bool>)

  /** A result file after format identification: its lines, the dialect chosen,
      and the number of lines `compare` skips before reading rows. */
  datatype CsvFile = CsvFile(lines: seq<string>, dialect: Dialect, headerLines: nat)

  /** A file whose header fits inside it: skipping the header never runs past
      the end of the file. */
  predicate WellFormed(f: CsvFile) {
    f.headerLines <= |f.lines|
  }

  predicate StartsWithHash(line: string) {
    |line| > 0 && line[0] == '#'
  }

  /** The number of leading lines that begin with `#`. */
  function HashHeaderCount(lines: seq<string>): (n: nat)
    ensures n <= |lines|
    ensures forall i :: 0 <= i < n ==> StartsWithHash(lines[i])
    ensures n < |lines| ==> !StartsWithHash(lines[n])
  {
    if |lines| > 0 && StartsWithHash(lines[0]) then 1 + HashHeaderCount(lines[1..]) else 0
  }

  /** The text of a sequence of lines. */
  function Concat(lines: seq<string>): string {
    if |lines| == 0 then "" else lines[0] + Concat(lines[1..])
  }

  /** `read(SampleSize)` positioned at the first of `rest`: at most `SampleSize`
      characters from the start of their text. */
  function Sample(rest: seq<string>): (s: string)
    ensures |s| <= SampleSize
    ensures |rest| == 0 ==> s == ""
    ensures s <= Concat(rest)
    ensures |s| == SampleSize || s == Concat(rest)
  {
    var text := Concat(rest);
    if |text| <= SampleSize then text else text[..SampleSize]
  }

  /** The number of header lines and the dialect of a file with the given lines. */
  function IdentifyFormat(lines: seq<string>, sniffer: Sniffer): (f: CsvFile)
    ensures f.lines == lines
    ensures WellFormed(f)
    ensures var h := HashHeaderCount(lines);
            f.headerLines == h || f.headerLines == h + 1
    ensures var h := HashHeaderCount(lines);
            var sample := Sample(lines[h..]);
            && (f.headerLines == h + 1 <==>
                  && |Split(sample)| > 1
                  && sniffer.sniff(sample, SniffDelimiters).Returned?
                  && sniffer.hasHeader(sample) == Returned(true))
            && (f.dialect == Excel <==>
                  || |Split(sample)| <= 1
                  || sniffer.sniff(sample, SniffDelimiters).Raised?
                  || sniffer.hasHeader(sample).Raised?)
            && (f.dialect.Sniffed? ==> f.dialect.info == sniffer.sniff(sample, SniffDelimiters).value)
  {
    var h := HashHeaderCount(lines);
    var sample := Sample(lines[h..]);
    if |Split(sample)| <= 1 then
      CsvFile(lines, Excel, h)
    else
      SampleNonBlank(lines, h);
      match sniffer.sniff(sample, SniffDelimiters)
      case Raised => CsvFile(lines, Excel, h)
      case Returned(info) =>
        match sniffer.hasHeader(sample)
        case Raised => CsvFile(lines, Excel, h)
        case Returned(header) => CsvFile(lines, Sniffed(info), if header then h + 1 else h)
  }

  /** A sample with two tokens needs at least one line after the hash lines. */
  lemma {:induction false} SampleNonBlank(lines: seq<string>, h: nat)
    requires h <= |lines|
    requires |Split(Sample(lines[h..]))| > 1
    ensures h < |lines|
  {
    SplitBlank(Sample(lines[h..]));
  }

  /** The lines `compare` hands to the csv reader: those after the header. */
  function DataLines(f: CsvFile): (d: seq<string>)
    requires WellFormed(f)
    ensures |d| == |f.lines| - f.headerLines
    ensures forall i :: 0 <= i < |d| ==> d[i] == f.lines[f.headerLines + i]
  {
    f.lines[f.headerLines..]
  }

  /** An empty file has no header lines and the default dialect. */
  lemma {:induction false} EmptyFile(sniffer: Sniffer)
    ensures IdentifyFormat([], sniffer) == CsvFile([], Excel, 0)
  {
  }

  /** A file whose sample after the hash lines is a single token (a
      single-column, single-row file, say) is read with the default dialect,
      whatever the sniffer would say. */
  lemma {:induction false} SingleTokenFallsBack(lines: seq<string>, sniffer: Sniffer)
    requires |Split(Sample(lines[HashHeaderCount(lines)..]))| <= 1
    ensures IdentifyFormat(lines, sniffer).dialect == Excel
    ensures IdentifyFormat(lines, sniffer).headerLines == HashHeaderCount(lines)
  {
  }

  /** The branches of `IdentifyFormat` in terms of the sample's text: the
      sniffer is consulted exactly when the sample holds two runs of
      non-whitespace separated by whitespace, so a sample such as one number
      between blank lines always falls back to the default dialect. */
  lemma {:induction false} IdentifyFormatByWords(lines: seq<string>, sniffer: Sniffer)
    ensures var f := IdentifyFormat(lines, sniffer);
            var h := HashHeaderCount(lines);
            var sample := Sample(lines[h..]);
            && (f.headerLines == h + 1 <==>
                  && TwoWords(sample)
                  && sniffer.sniff(sample, SniffDelimiters).Returned?
                  && sniffer.hasHeader(sample) == Returned(true))
            && (f.dialect == Excel <==>
                  || !TwoWords(sample)
                  || sniffer.sniff(sample, SniffDelimiters).Raised?
                  || sniffer.hasHeader(sample).Raised?)
  {
    SplitTwoWords(Sample(lines[HashHeaderCount(lines)..]));
  }

  /** Prepending a `#` comment line to a file adds one header line and changes
      neither the dialect nor the data lines. */
  lemma {:induction false} CommentLineKeepsData(comment: string, lines: seq<string>, sniffer: Sniffer)
    requires StartsWithHash(comment)
    ensures var f := IdentifyFormat([comment] + lines, sniffer);
            var g := IdentifyFormat(lines, sniffer);
            && f.dialect == g.dialect
            && f.headerLines == g.headerLines + 1
            && DataLines(f) == DataLines(g)
  {
    var all := [comment] + lines;
    assert all[1..] == lines;
    var h := HashHeaderCount(lines);
    assert HashHeaderCount(all) == h + 1;
    assert all[h + 1..] == lines[h..];
  }

  /** Prepending any number of `#` comment lines leaves the data lines and the
      dialect as they were. */
  lemma {:induction false} CommentLinesKeepData(comments: seq<string>, lines: seq<string>, sniffer: Sniffer)
    requires forall i :: 0 <= i < |comments| ==> StartsWithHash(comments[i])
    ensures var f := IdentifyFormat(comments + lines, sniffer);
            var g := IdentifyFormat(lines, sniffer);
            && f.dialect == g.dialect
            && f.headerLines == g.headerLines + |comments|
            && DataLines(f) == DataLines(g)
    decreases |comments|
  {
    if |comments| > 0 {
      var rest := comments[1..];
      assert comments + lines == [comments[0]] + (rest + lines);
      CommentLinesKeepData(rest, lines, sniffer);
      CommentLineKeepsData(comments[0], rest + lines, sniffer);
    } else {
      assert comments + lines == lines;
    }
  }
}
