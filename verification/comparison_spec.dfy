/**
 An independent description of what comparing two results means, and the
 theorems that tie the lockstep walk of `Comparison` to it: two tables score
 exactly when they have the same shape, the same cell kinds and the same
 stripped text; the score is the maximum and the mean of the per-cell
 deviations in row-major order; and an incomparable outcome names the first
 defect in the order the walk meets it.
 */
module ComparisonSpec {
  import opened Strings
  import opened Format
  import opened Comparison

  /** Two cells that do not stop a comparison: both numbers, or both text
      with equal stripped text. */
  predicate CellsCompatible(a: Cell, b: Cell) {
    || (a.Num? && b.Num?)
    || (a.Text? && b.Text? && Strip(a.text) == Strip(b.text))
  }

  predicate CellsAgreeBefore(cs: seq<Cell>, rs: seq<Cell>, j: nat) {
    && j <= |cs| && j <= |rs|
    && forall k {:trigger CellsCompatible(cs[k], rs[k])} :: 0 <= k < j ==> CellsCompatible(cs[k], rs[k])
  }

  /** Two rows that do not stop a comparison. */
  predicate RowsCompatible(a: Row, b: Row) {
    && a.Row? && b.Row?
    && |a.cells| == |b.cells|
    && CellsAgreeBefore(a.cells, b.cells, |a.cells|)
  }

  predicate RowsAgreeBefore(cand: seq<Row>, ref: seq<Row>, i: nat) {
    && i <= |cand| && i <= |ref|
    && forall k {:trigger RowsCompatible(cand[k], ref[k])} :: 0 <= k < i ==> RowsCompatible(cand[k], ref[k])
  }

  /** Two tables that can be scored. */
  predicate Compatible(cand: seq<Row>, ref: seq<Row>) {
    |cand| == |ref| && RowsAgreeBefore(cand, ref, |cand|)
  }

  /** The deviations of the numeric cell pairs of one row from column `j`
      on, left to right. */
  function CellDeviations(cs: seq<Cell>, rs: seq<Cell>, j: nat): (ds: seq<real>)
    requires |cs| == |rs| && j <= |cs|
    ensures |ds| <= |cs| - j
    ensures forall k :: 0 <= k < |ds| ==> 0.0 <= ds[k]
    decreases |cs| - j
  {
    if j == |cs| then []
    else
      var c, r := cs[j], rs[j];
      (if c.Num? && r.Num? then [Deviation(c.value, r.value)] else []) + CellDeviations(cs, rs, j + 1)
  }

  /** The deviations of the numeric cell pairs of rows `i..`, in row-major order. */
  function DeviationsFrom(cand: seq<Row>, ref: seq<Row>, i: nat): (ds: seq<real>)
    requires Compatible(cand, ref) && i <= |cand|
    ensures forall k :: 0 <= k < |ds| ==> 0.0 <= ds[k]
    decreases |cand| - i
  {
    if i == |cand| then []
    else
      CompatibleRow(cand, ref, i);
      CellDeviations(cand[i].cells, ref[i].cells, 0) + DeviationsFrom(cand, ref, i + 1)
  }

  /** Each row pair of compatible tables is compatible. */
  lemma {:induction false} CompatibleRow(cand: seq<Row>, ref: seq<Row>, i: nat)
    requires Compatible(cand, ref) && i < |cand|
    ensures RowsCompatible(cand[i], ref[i])
  {
  }

  function Deviations(cand: seq<Row>, ref: seq<Row>): seq<real>
    requires Compatible(cand, ref)
  {
    DeviationsFrom(cand, ref, 0)
  }

  function Larger(a: real, b: real): real {
    if a > b then a else b
  }

  /** The largest deviation, or 0 when there is none. */
  function MaxOf(ds: seq<real>): (m: real)
    ensures forall k :: 0 <= k < |ds| ==> ds[k] <= m
    ensures |ds| == 0 ==> m == 0.0
    ensures (forall k :: 0 <= k < |ds| ==> 0.0 <= ds[k]) ==> 0.0 <= m && (|ds| > 0 ==> m in ds)
  {
    if |ds| == 0 then 0.0 else Larger(ds[0], MaxOf(ds[1..]))
  }

  function Sum(ds: seq<real>): real {
    if |ds| == 0 then 0.0 else ds[0] + Sum(ds[1..])
  }

  /** The mean deviation, or 0 when there is none. */
  function Mean(ds: seq<real>): real {
    if |ds| == 0 then 0.0 else Sum(ds) / |ds| as real
  }

  /** Feeding deviations one by one into the accumulator. */
  function Fold(acc: Acc, ds: seq<real>): Acc
    decreases |ds|
  {
    if |ds| == 0 then acc else Fold(Absorb(acc, ds[0]), ds[1..])
  }

  lemma {:induction false} FoldAppend(acc: Acc, a: seq<real>, b: seq<real>)
    ensures Fold(acc, a + b) == Fold(Fold(acc, a), b)
    decreases |a|
  {
    if |a| == 0 {
      assert a + b == b;
    } else {
      assert (a + b)[0] == a[0];
      assert (a + b)[1..] == a[1..] + b;
      FoldAppend(Absorb(acc, a[0]), a[1..], b);
    }
  }

  /** The running maximum, sum and count after a fold are the maximum, sum
      and number of the deviations folded in. */
  lemma {:induction false} FoldComputes(acc: Acc, ds: seq<real>)
    requires 0.0 <= acc.max
    requires forall k :: 0 <= k < |ds| ==> 0.0 <= ds[k]
    ensures Fold(acc, ds) == Acc(Larger(acc.max, MaxOf(ds)), acc.sum + Sum(ds), acc.count + |ds|)
    decreases |ds|
  {
    if |ds| > 0 {
      assert forall k :: 0 <= k < |ds[1..]| ==> ds[1..][k] == ds[k + 1];
      FoldComputes(Absorb(acc, ds[0]), ds[1..]);
    }
  }

  /** The per-row cell walk goes on exactly when all cells of the row are
      compatible. */
  lemma {:induction false} CompareCellsContinues(cs: seq<Cell>, rs: seq<Cell>, i: nat, j: nat, acc: Acc)
    requires |cs| == |rs| && j <= |cs|
    requires CellsAgreeBefore(cs, rs, j)
    ensures CompareCells(cs, rs, i, j, acc).Continue? <==> CellsAgreeBefore(cs, rs, |cs|)
    decreases |cs| - j
  {
    if j < |cs| {
      var c, r := cs[j], rs[j];
      if CellsCompatible(c, r) {
        CellsAgreeOneMore(cs, rs, j);
        if c.Num? && r.Num? {
          CompareCellsContinues(cs, rs, i, j + 1, Absorb(acc, Deviation(c.value, r.value)));
        } else {
          CompareCellsContinues(cs, rs, i, j + 1, acc);
        }
      } else {
        CellsBreakAt(cs, rs, j);
      }
    }
  }

  lemma {:induction false} CellsAgreeOneMore(cs: seq<Cell>, rs: seq<Cell>, j: nat)
    requires CellsAgreeBefore(cs, rs, j) && j < |cs| && j < |rs|
    requires CellsCompatible(cs[j], rs[j])
    ensures CellsAgreeBefore(cs, rs, j + 1)
  {
    forall k | 0 <= k < j + 1
      ensures CellsCompatible(cs[k], rs[k])
    {
    }
  }

  /** An incompatible cell pair breaks every longer agreement. */
  lemma {:induction false} CellsBreakAt(cs: seq<Cell>, rs: seq<Cell>, j: nat)
    requires j < |cs| && j < |rs| && !CellsCompatible(cs[j], rs[j])
    ensures forall m :: j < m ==> !CellsAgreeBefore(cs, rs, m)
  {
  }

  /** When the cell walk goes on, it has folded in the row's deviations. */
  lemma {:induction false} CompareCellsFolds(cs: seq<Cell>, rs: seq<Cell>, i: nat, j: nat, acc: Acc)
    requires |cs| == |rs| && j <= |cs|
    requires CompareCells(cs, rs, i, j, acc).Continue?
    ensures CompareCells(cs, rs, i, j, acc).acc == Fold(acc, CellDeviations(cs, rs, j))
    decreases |cs| - j
  {
    if j < |cs| {
      var c, r := cs[j], rs[j];
      if c.Num? && r.Num? {
        var d := Deviation(c.value, r.value);
        var rest := CellDeviations(cs, rs, j + 1);
        assert CellDeviations(cs, rs, j) == [d] + rest;
        assert ([d] + rest)[1..] == rest;
        CompareCellsFolds(cs, rs, i, j + 1, Absorb(acc, d));
      } else {
        assert CellDeviations(cs, rs, j) == CellDeviations(cs, rs, j + 1);
        CompareCellsFolds(cs, rs, i, j + 1, acc);
      }
    }
  }

  /** When the cell walk stops, it names the first incompatible cell. */
  lemma {:induction false} CompareCellsStops(cs: seq<Cell>, rs: seq<Cell>, i: nat, j: nat, acc: Acc)
    requires |cs| == |rs| && j <= |cs|
    requires CellsAgreeBefore(cs, rs, j)
    requires CompareCells(cs, rs, i, j, acc).Stop?
    ensures CellDefect(cs, rs, CompareCells(cs, rs, i, j, acc).reason)
    decreases |cs| - j
  {
    var c, r := cs[j], rs[j];
    if CellsCompatible(c, r) {
      CellsAgreeOneMore(cs, rs, j);
      if c.Num? && r.Num? {
        CompareCellsStops(cs, rs, i, j + 1, Absorb(acc, Deviation(c.value, r.value)));
      } else {
        CompareCellsStops(cs, rs, i, j + 1, acc);
      }
    }
  }

  /** `reason` names cell `column` of row `row` as the first incompatible
      cell, with the kind of mismatch it has. */
  predicate CellDefect(cs: seq<Cell>, rs: seq<Cell>, reason: Reason) {
    && (reason.TypeMismatch? || reason.TextMismatch?)
    && var j := reason.column;
    && j < |cs| && j < |rs|
    && CellsAgreeBefore(cs, rs, j)
    && (reason.TypeMismatch? ==> cs[j].Num? != rs[j].Num?)
    && (reason.TextMismatch? ==> cs[j].Text? && rs[j].Text? && Strip(cs[j].text) != Strip(rs[j].text))
  }

  /** `reason` is the first defect the lockstep walk meets: every earlier row
      pair is compatible, and row `reason.row` has the defect it names. */
  predicate IsFirstDefect(cand: seq<Row>, ref: seq<Row>, reason: Reason) {
    RowsAgreeBefore(cand, ref, reason.row) && RowDefect(cand, ref, reason)
  }

  /** Row `reason.row` has the defect `reason` names, as the walk checks it:
      the candidate row is read first, then the reference row, then the
      lengths are compared, then the cells. */
  predicate RowDefect(cand: seq<Row>, ref: seq<Row>, reason: Reason) {
    var i := reason.row;
    if reason.ReadError? && reason.side == Candidate then
      i < |cand| && cand[i].Malformed?
    else if reason.ReadError? then
      i < |ref| && ref[i].Malformed? && (i < |cand| ==> cand[i].Row?)
    else if reason.RowCountMismatch? then
      && (i == |cand|) != (i == |ref|)
      && (i < |cand| ==> cand[i].Row?)
      && (i < |ref| ==> ref[i].Row?)
    else if reason.ColumnCountMismatch? then
      && i < |cand| && i < |ref| && cand[i].Row? && ref[i].Row?
      && |cand[i].cells| != |ref[i].cells|
    else
      && i < |cand| && i < |ref| && cand[i].Row? && ref[i].Row?
      && |cand[i].cells| == |ref[i].cells|
      && CellDefect(cand[i].cells, ref[i].cells, reason)
  }

  lemma {:induction false} AgreeOneMore(cand: seq<Row>, ref: seq<Row>, i: nat)
    requires RowsAgreeBefore(cand, ref, i) && i < |cand| && i < |ref|
    requires RowsCompatible(cand[i], ref[i])
    ensures RowsAgreeBefore(cand, ref, i + 1)
  {
    forall k | 0 <= k < i + 1
      ensures RowsCompatible(cand[k], ref[k])
    {
    }
  }

  lemma {:induction false} BrokenRow(cand: seq<Row>, ref: seq<Row>, i: nat)
    requires i < |cand| && i < |ref| && !RowsCompatible(cand[i], ref[i])
    ensures !Compatible(cand, ref)
  {
  }

  /** The row walk from row `i` goes on exactly when the tables are compatible. */
  lemma {:induction false} WalkContinues(cand: seq<Row>, ref: seq<Row>, i: nat, acc: Acc)
    requires RowsAgreeBefore(cand, ref, i)
    ensures Walk(cand, ref, i, acc).Continue? <==> Compatible(cand, ref)
    decreases |cand| - i
  {
    if i < |cand| && i < |ref| {
      if RowsCompatible(cand[i], ref[i]) {
        var cs, rs := cand[i].cells, ref[i].cells;
        CompareCellsContinues(cs, rs, i, 0, acc);
        var s := CompareCells(cs, rs, i, 0, acc);
        WalkRowStep(cand, ref, i, acc);
        AgreeOneMore(cand, ref, i);
        WalkContinues(cand, ref, i + 1, s.acc);
      } else {
        BrokenRow(cand, ref, i);
        WalkBrokenRow(cand, ref, i, acc);
      }
    }
  }

  /** The walk stops at a row pair that is not compatible. */
  lemma {:induction false} WalkBrokenRow(cand: seq<Row>, ref: seq<Row>, i: nat, acc: Acc)
    requires i < |cand| && i < |ref| && !RowsCompatible(cand[i], ref[i])
    ensures Walk(cand, ref, i, acc).Stop?
  {
    if cand[i].Row? && ref[i].Row? && |cand[i].cells| == |ref[i].cells| {
      CompareCellsContinues(cand[i].cells, ref[i].cells, i, 0, acc);
    }
  }

  /** When the row walk from row `i` goes on, it has folded in the deviations
      of rows `i..`. */
  lemma {:induction false} WalkFolds(cand: seq<Row>, ref: seq<Row>, i: nat, acc: Acc)
    requires Compatible(cand, ref) && i <= |cand|
    ensures Walk(cand, ref, i, acc) == Continue(Fold(acc, DeviationsFrom(cand, ref, i)))
    decreases |cand| - i
  {
    if i < |cand| {
      CompatibleRow(cand, ref, i);
      var next := Fold(acc, CellDeviations(cand[i].cells, ref[i].cells, 0));
      WalkFoldsRow(cand, ref, i, acc);
      WalkFolds(cand, ref, i + 1, next);
    }
  }

  /** One compatible row: the walk moves on with the row's deviations folded in. */
  lemma {:induction false} WalkFoldsRow(cand: seq<Row>, ref: seq<Row>, i: nat, acc: Acc)
    requires Compatible(cand, ref) && i < |cand|
    ensures RowsCompatible(cand[i], ref[i])
    ensures var next := Fold(acc, CellDeviations(cand[i].cells, ref[i].cells, 0));
            && Walk(cand, ref, i, acc) == Walk(cand, ref, i + 1, next)
            && Fold(acc, DeviationsFrom(cand, ref, i)) == Fold(next, DeviationsFrom(cand, ref, i + 1))
  {
    CompatibleRow(cand, ref, i);
    var cs, rs := cand[i].cells, ref[i].cells;
    var row := CellDeviations(cs, rs, 0);
    CompareCellsContinues(cs, rs, i, 0, acc);
    CompareCellsFolds(cs, rs, i, 0, acc);
    WalkRowStep(cand, ref, i, acc);
    assert DeviationsFrom(cand, ref, i) == row + DeviationsFrom(cand, ref, i + 1);
    FoldAppend(acc, row, DeviationsFrom(cand, ref, i + 1));
  }

  /** Past a compatible row whose cells the cell walk gets through, the row
      walk moves on to the next row. */
  lemma {:induction false} WalkRowStep(cand: seq<Row>, ref: seq<Row>, i: nat, acc: Acc)
    requires i < |cand| && i < |ref| && RowsCompatible(cand[i], ref[i])
    requires CompareCells(cand[i].cells, ref[i].cells, i, 0, acc).Continue?
    ensures Walk(cand, ref, i, acc) == Walk(cand, ref, i + 1, CompareCells(cand[i].cells, ref[i].cells, i, 0, acc).acc)
  {
  }

  /** When the row walk from row `i` stops, it names the first defect. */
  lemma {:induction false} WalkStops(cand: seq<Row>, ref: seq<Row>, i: nat, acc: Acc)
    requires RowsAgreeBefore(cand, ref, i)
    requires Walk(cand, ref, i, acc).Stop?
    ensures IsFirstDefect(cand, ref, Walk(cand, ref, i, acc).reason)
    decreases |cand| - i
  {
    if i < |cand| && i < |ref| && cand[i].Row? && ref[i].Row? && |cand[i].cells| == |ref[i].cells| {
      var cs, rs := cand[i].cells, ref[i].cells;
      var s := CompareCells(cs, rs, i, 0, acc);
      CompareCellsContinues(cs, rs, i, 0, acc);
      if s.Continue? {
        WalkRowStep(cand, ref, i, acc);
        AgreeOneMore(cand, ref, i);
        WalkStops(cand, ref, i + 1, s.acc);
      } else {
        CompareCellsStops(cs, rs, i, 0, acc);
        assert Walk(cand, ref, i, acc) == s;
      }
    }
  }

  /** Comparing two tables: they score exactly when they are compatible; the
      score is the maximum and mean of their deviations; otherwise the
      reason given is the first defect. */
  lemma {:induction false} CompareTablesSpec(cand: seq<Row>, ref: seq<Row>)
    ensures CompareTables(cand, ref).Scored? <==> Compatible(cand, ref)
    ensures Compatible(cand, ref) ==>
              var ds := Deviations(cand, ref);
              CompareTables(cand, ref) == Scored(MaxOf(ds), Mean(ds))
    ensures CompareTables(cand, ref).Incomparable? ==>
              IsFirstDefect(cand, ref, CompareTables(cand, ref).reason)
  {
    WalkContinues(cand, ref, 0, Start);
    if Compatible(cand, ref) {
      CompatibleScore(cand, ref);
    } else {
      WalkStops(cand, ref, 0, Start);
    }
  }

  /** Compatible tables score the maximum and the mean of their deviations. */
  lemma {:induction false} CompatibleScore(cand: seq<Row>, ref: seq<Row>)
    requires Compatible(cand, ref)
    ensures var ds := Deviations(cand, ref);
            CompareTables(cand, ref) == Scored(MaxOf(ds), Mean(ds))
  {
    var ds := Deviations(cand, ref);
    WalkFolds(cand, ref, 0, Start);
    FoldComputes(Start, ds);
    var acc := Acc(MaxOf(ds), Sum(ds), |ds|);
    assert Fold(Start, ds) == acc;
    assert Walk(cand, ref, 0, Start) == Continue(acc);
  }

  /** The first defect of two tables is unique, so the reason an incomparable
      outcome carries is determined by the tables alone. */
  lemma {:induction false} FirstDefectUnique(cand: seq<Row>, ref: seq<Row>, a: Reason, b: Reason)
    requires IsFirstDefect(cand, ref, a) && IsFirstDefect(cand, ref, b)
    ensures a == b
  {
    if a.row < b.row {
      DefectBreaksRow(cand, ref, a);
    } else if b.row < a.row {
      DefectBreaksRow(cand, ref, b);
    } else {
      RowDefectUnique(cand, ref, a, b);
    }
  }

  /** A row has at most one defect in the order the walk checks for them. */
  lemma {:induction false} RowDefectUnique(cand: seq<Row>, ref: seq<Row>, a: Reason, b: Reason)
    requires a.row == b.row && RowDefect(cand, ref, a) && RowDefect(cand, ref, b)
    ensures a == b
  {
    if (a.TypeMismatch? || a.TextMismatch?) && (b.TypeMismatch? || b.TextMismatch?) {
      var i := a.row;
      CellDefectUnique(cand[i].cells, ref[i].cells, a, b);
    }
  }

  lemma {:induction false} CellDefectUnique(cs: seq<Cell>, rs: seq<Cell>, a: Reason, b: Reason)
    requires a.row == b.row && CellDefect(cs, rs, a) && CellDefect(cs, rs, b)
    ensures a == b
  {
    CellDefectBreaks(cs, rs, a);
    CellDefectBreaks(cs, rs, b);
  }

  /** The row a defect names is not a compatible row pair (or does not exist
      on both sides), so no longer prefix of the tables agrees. */
  lemma {:induction false} DefectBreaksRow(cand: seq<Row>, ref: seq<Row>, reason: Reason)
    requires IsFirstDefect(cand, ref, reason)
    ensures forall n :: reason.row < n ==> !RowsAgreeBefore(cand, ref, n)
  {
    var i := reason.row;
    if i < |cand| && i < |ref| {
      if reason.TypeMismatch? || reason.TextMismatch? {
        var cs, rs := cand[i].cells, ref[i].cells;
        CellDefectBreaks(cs, rs, reason);
        CellsBreakAt(cs, rs, reason.column);
      }
      assert !RowsCompatible(cand[i], ref[i]);
    }
  }

  /** The cell a cell defect names is an incompatible pair. */
  lemma {:induction false} CellDefectBreaks(cs: seq<Cell>, rs: seq<Cell>, reason: Reason)
    requires CellDefect(cs, rs, reason)
    ensures !CellsCompatible(cs[reason.column], rs[reason.column])
  {
  }

  /** The deviation is relative: scaling both values by the same non-zero
      factor (a change of units) does not change it. */
  lemma {:induction false} DeviationScaleFree(c: real, r: real, k: real)
    requires k != 0.0
    ensures Deviation(k * c, k * r) == Deviation(c, r)
  {
    if r != 0.0 {
      ScaleFreeRelative(c, r, k);
    } else {
      ScaleFreeZero(c, k);
    }
  }

  lemma {:induction false} ScaleFreeZero(c: real, k: real)
    requires k != 0.0
    ensures Deviation(k * c, k * 0.0) == Deviation(c, 0.0)
  {
    assert k * 0.0 == 0.0;
    if c != 0.0 {
      NonZeroProduct(k, c);
    }
  }

  lemma {:induction false} NonZeroProduct(a: real, b: real)
    requires a != 0.0 && b != 0.0
    ensures a * b != 0.0
  {
  }

  lemma {:induction false} ScaleFreeRelative(c: real, r: real, k: real)
    requires k != 0.0 && r != 0.0
    ensures Deviation(k * c, k * r) == Deviation(c, r)
  {
    NonZeroProduct(k, r);
    var kc, kr := k * c, k * r;
    assert Deviation(kc, kr) == Abs(kc - kr) / Abs(kr);
    assert kc - kr == k * (c - r);
    AbsProduct(k, c - r);
    AbsProduct(k, r);
    CancelFactor(Abs(k), Abs(c - r), Abs(r));
  }

  lemma {:induction false} AbsProduct(a: real, b: real)
    ensures Abs(a * b) == Abs(a) * Abs(b)
  {
    if a < 0.0 && b < 0.0 {
      assert a * b == (-a) * (-b);
    } else if a < 0.0 {
      assert -(a * b) == (-a) * b;
    } else if b < 0.0 {
      assert -(a * b) == a * (-b);
    }
  }

  lemma {:induction false} CancelFactor(a: real, x: real, y: real)
    requires a > 0.0 && y > 0.0
    ensures (a * x) / (a * y) == x / y
  {
    var q := x / y;
    assert q * y == x;
    assert q * (a * y) == a * x;
  }

  lemma {:induction false} ZeroDeviations(ds: seq<real>)
    requires forall k :: 0 <= k < |ds| ==> ds[k] == 0.0
    ensures MaxOf(ds) == 0.0 && Sum(ds) == 0.0 && Mean(ds) == 0.0
    decreases |ds|
  {
    if |ds| > 0 {
      ZeroDeviations(ds[1..]);
    }
  }

  lemma {:induction false} SelfCellDeviations(cs: seq<Cell>, j: nat)
    requires j <= |cs|
    ensures forall k :: 0 <= k < |CellDeviations(cs, cs, j)| ==> CellDeviations(cs, cs, j)[k] == 0.0
    decreases |cs| - j
  {
    if j < |cs| {
      SelfCellDeviations(cs, j + 1);
    }
  }

  lemma {:induction false} SelfDeviationsFrom(t: seq<Row>, i: nat)
    requires Compatible(t, t) && i <= |t|
    ensures forall k :: 0 <= k < |DeviationsFrom(t, t, i)| ==> DeviationsFrom(t, t, i)[k] == 0.0
    decreases |t| - i
  {
    if i < |t| {
      CompatibleRow(t, t, i);
      SelfCellDeviations(t[i].cells, 0);
      SelfDeviationsFrom(t, i + 1);
    }
  }

  /** A table without read errors compared with itself scores (0, 0). */
  lemma {:induction false} SelfComparison(t: seq<Row>)
    requires forall i :: 0 <= i < |t| ==> t[i].Row?
    ensures CompareTables(t, t) == Scored(0.0, 0.0)
  {
    assert Compatible(t, t);
    CompareTablesSpec(t, t);
    SelfDeviationsFrom(t, 0);
    ZeroDeviations(Deviations(t, t));
  }

  /** A result file compared with itself scores (0, 0) unless reading it fails. */
  lemma {:induction false} SelfComparisonOfFile(f: CsvFile, read: Reader)
    requires WellFormed(f)
    requires forall i :: 0 <= i < |read(DataLines(f), f.dialect)| ==> read(DataLines(f), f.dialect)[i].Row?
    ensures CompareFiles(f, f, read) == Scored(0.0, 0.0)
  {
    SelfComparison(read(DataLines(f), f.dialect));
  }

  /** Extra `#` comment lines at the top of either file change neither the
      outcome of the comparison nor the pair `compare` returns. */
  lemma {:induction false} CommentLinesKeepScore(comments: seq<string>, cand: seq<string>, ref: seq<string>, sniffer: Sniffer, read: Reader)
    requires forall i :: 0 <= i < |comments| ==> StartsWithHash(comments[i])
    ensures CompareFiles(IdentifyFormat(comments + cand, sniffer), IdentifyFormat(ref, sniffer), read)
         == CompareFiles(IdentifyFormat(cand, sniffer), IdentifyFormat(ref, sniffer), read)
    ensures CompareFiles(IdentifyFormat(cand, sniffer), IdentifyFormat(comments + ref, sniffer), read)
         == CompareFiles(IdentifyFormat(cand, sniffer), IdentifyFormat(ref, sniffer), read)
  {
    CommentLinesKeepData(comments, cand, sniffer);
    CommentLinesKeepData(comments, ref, sniffer);
  }
}
