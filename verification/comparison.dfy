/**
 Row-wise comparison of two numeric CSV results (`NumericCsvResult.compare`).

 After each file's own header lines are skipped, the csv reader turns the
 remaining lines into rows; `float()` then tags every cell as a number or as
 text. Both steps are foreign and enter the model as a `Reader`. The two row
 streams are walked in lockstep: any structural disagreement makes the pair
 incomparable, otherwise every numeric cell pair contributes a relative
 deviation to a running maximum and a running mean.
 */
module Comparison {
  import opened Strings
  import opened Format

  /** A cell as `compare` sees it: `float(cell)` succeeded, or the raw text. */
  datatype Cell = Num(value: real) | Text(text: string)

  /** A row from the csv reader, or the point where reading raised `csv.Error`. */
  datatype Row = Row(cells: seq<Cell>) | Malformed

  /** `csv.reader` over some lines in some dialect, with cells tagged by `float()`. */
  type Reader = (seq<string>, Dialect) -> seq<Row>

  datatype Side = Candidate | Reference

  /** Why two results are incomparable; rows count from 0 after the header,
      columns from 0. */
  datatype Reason =
    | ReadError(side: Side, row: nat)
    | RowCountMismatch(row: nat)
    | ColumnCountMismatch(row: nat)
    | TypeMismatch(row: nat, column: nat)
    | TextMismatch(row: nat, column: nat)

  /** A graded score, or the reason the two results cannot be scored. */
  datatype Outcome = Scored(max: real, mean: real) | Incomparable(reason: Reason)

  /** The deviation charged when the reference is 0 and the candidate is not,
      and both halves of the incomparable sentinel. */
  const Penalty: real := 999.9

  function Abs(x: real): real {
    if x < 0.0 then -x else x
  }

  /** Relative deviation of a candidate value from a reference value. */
  function Deviation(c: real, r: real): (d: real)
    ensures 0.0 <= d
    ensures d == 0.0 <==> c == r
    ensures r != 0.0 ==> d * Abs(r) == Abs(c - r)
    ensures r == 0.0 && c != 0.0 ==> d == Penalty
  {
    if c == 0.0 && r == 0.0 then 0.0
    else if r == 0.0 then Penalty
    else Abs(c - r) / Abs(r)
  }

  /** The running maximum, running sum and count of numeric cell pairs. */
  datatype Acc = Acc(max: real, sum: real, count: nat)

  const Start: Acc := Acc(0.0, 0.0, 0)

  /** Folds one deviation into the accumulator (`max(delta, max_delta)`,
      `avg_delta += delta`, `n_cells += 1`). */
  function Absorb(acc: Acc, d: real): (r: Acc)
    ensures acc.max <= r.max && d <= r.max
    ensures r.max == acc.max || r.max == d
    ensures r.sum == acc.sum + d && r.count == acc.count + 1
  {
    Acc(if acc.max > d then acc.max else d, acc.sum + d, acc.count + 1)
  }

  /** The accumulator's invariant: nothing negative, and the sum bounded by
      count times the maximum, so that the mean never exceeds the maximum. */
  predicate Bounded(acc: Acc) {
    && 0.0 <= acc.max
    && 0.0 <= acc.sum <= acc.count as real * acc.max
  }

  lemma {:induction false} AbsorbBounded(acc: Acc, d: real)
    ensures Bounded(acc) && 0.0 <= d ==> Bounded(Absorb(acc, d))
  {
    if Bounded(acc) && 0.0 <= d {
      var m := if acc.max > d then acc.max else d;
      assert acc.count as real * acc.max <= acc.count as real * m;
    }
  }

  /** The state of the lockstep walk after a row or a cell. */
  datatype Step = Continue(acc: Acc) | Stop(reason: Reason)

  /** Compares cells `j..` of row `i`, whose two sides have equal length. */
  function CompareCells(cs: seq<Cell>, rs: seq<Cell>, i: nat, j: nat, acc: Acc): (s: Step)
    requires |cs| == |rs| && j <= |cs|
    ensures Bounded(acc) && s.Continue? ==> Bounded(s.acc) && acc.count <= s.acc.count
    ensures s.Stop? ==> s.reason.row == i && (s.reason.TypeMismatch? || s.reason.TextMismatch?)
    ensures s.Stop? ==> j <= s.reason.column < |cs|
    decreases |cs| - j
  {
    if j == |cs| then
      Continue(acc)
    else
      var c, r := cs[j], rs[j];
      if c.Num? && r.Num? then
        var d := Deviation(c.value, r.value);
        AbsorbBounded(acc, d);
        CompareCells(cs, rs, i, j + 1, Absorb(acc, d))
      else if c.Text? && r.Text? then
        if Strip(c.text) != Strip(r.text) then Stop(TextMismatch(i, j))
        else CompareCells(cs, rs, i, j + 1, acc)
      else
        Stop(TypeMismatch(i, j))
  }

  /** The lockstep walk over rows `i..`: the candidate row is read first, then
      the reference row; a read error on either side, one side ending before
      the other, or rows of different length stop the walk. */
  function Walk(cand: seq<Row>, ref: seq<Row>, i: nat, acc: Acc): (s: Step)
    requires i <= |cand| && i <= |ref|
    ensures Bounded(acc) && s.Continue? ==> Bounded(s.acc)
    ensures s.Stop? ==> i <= s.reason.row
    decreases |cand| - i
  {
    if i < |cand| && cand[i].Malformed? then Stop(ReadError(Candidate, i))
    else if i < |ref| && ref[i].Malformed? then Stop(ReadError(Reference, i))
    else if i == |cand| && i == |ref| then Continue(acc)
    else if i == |cand| || i == |ref| then Stop(RowCountMismatch(i))
    else if |cand[i].cells| != |ref[i].cells| then Stop(ColumnCountMismatch(i))
    else
      match CompareCells(cand[i].cells, ref[i].cells, i, 0, acc)
      case Stop(reason) => Stop(reason)
      case Continue(next) => Walk(cand, ref, i + 1, next)
  }

  /** Compares candidate rows against reference rows. */
  function CompareTables(cand: seq<Row>, ref: seq<Row>): (o: Outcome)
    ensures o.Scored? ==> 0.0 <= o.mean <= o.max
  {
    match Walk(cand, ref, 0, Start)
    case Stop(reason) => Incomparable(reason)
    case Continue(acc) =>
      if acc.count > 0 then
        MeanBelowMax(acc);
        Scored(acc.max, acc.sum / acc.count as real)
      else
        Scored(acc.max, 0.0)
  }

  lemma {:induction false} MeanBelowMax(acc: Acc)
    requires Bounded(acc) && acc.count > 0
    ensures 0.0 <= acc.sum / acc.count as real <= acc.max
  {
    var n := acc.count as real;
    assert acc.sum / n * n == acc.sum;
  }

  /** Compares a candidate result file with a reference result file: each
      skips its own header lines and is read in its own dialect. */
  function CompareFiles(cand: CsvFile, ref: CsvFile, read: Reader): (o: Outcome)
    requires WellFormed(cand) && WellFormed(ref)
    ensures o.Scored? ==> 0.0 <= o.mean <= o.max
  {
    CompareTables(read(DataLines(cand), cand.dialect), read(DataLines(ref), ref.dialect))
  }

  /** The pair `compare` returns: the score, or `(999.9, 999.9)` when the
      results are incomparable. */
  function ComparePair(cand: CsvFile, ref: CsvFile, read: Reader): (p: (real, real))
    requires WellFormed(cand) && WellFormed(ref)
    ensures 0.0 <= p.1 <= p.0
    ensures CompareFiles(cand, ref, read).Incomparable? ==> p == (Penalty, Penalty)
    ensures var o := CompareFiles(cand, ref, read);
            o.Scored? ==> p == (o.max, o.mean)
  {
    match CompareFiles(cand, ref, read)
    case Scored(max, mean) => (max, mean)
    case Incomparable(_) => (Penalty, Penalty)
  }
}
