/**
 Concrete comparisons: the deviation rule on single values, aggregation over
 a row, each kind of structural mismatch, whitespace around text cells, and
 a scored outcome that collapses to the same pair as an incomparable one.
 */
module Scenarios {
  import opened Strings
  import opened Format
  import opened Comparison
  import opened ComparisonSpec

  /** 10 against 5 deviates by 1; 5 against 0 by the penalty; 0 against 0 by nothing. */
  lemma {:induction false} DeviationScenarios()
    ensures Deviation(10.0, 5.0) == 1.0
    ensures Deviation(5.0, 0.0) == 999.9
    ensures Deviation(0.0, 0.0) == 0.0
    ensures Deviation(-3.0, -2.0) == 0.5
  {
  }

  /** Deviations 0, 0.5 and 1 on one row give maximum 1 and mean 0.5. */
  lemma {:induction false} AggregationScenario()
    ensures CompareTables([Row([Num(5.0), Num(3.0), Num(10.0)])],
                          [Row([Num(5.0), Num(2.0), Num(5.0)])]) == Scored(1.0, 0.5)
  {
    var cs, rs := [Num(5.0), Num(3.0), Num(10.0)], [Num(5.0), Num(2.0), Num(5.0)];
    var a1 := Acc(0.0, 0.0, 1);
    var a2 := Acc(0.5, 0.5, 2);
    var a3 := Acc(1.0, 1.5, 3);
    assert Deviation(5.0, 5.0) == 0.0;
    assert Deviation(3.0, 2.0) == 0.5;
    assert Deviation(10.0, 5.0) == 1.0;
    assert CompareCells(cs, rs, 0, 3, a3) == Continue(a3);
    assert CompareCells(cs, rs, 0, 2, a2) == Continue(a3);
    assert CompareCells(cs, rs, 0, 1, a1) == Continue(a3);
    assert CompareCells(cs, rs, 0, 0, Start) == Continue(a3);
    assert Walk([Row(cs)], [Row(rs)], 1, a3) == Continue(a3);
    assert Walk([Row(cs)], [Row(rs)], 0, Start) == Continue(a3);
  }

  /** A candidate with one row fewer than the reference is incomparable at
      the row where it ends. */
  lemma {:induction false} RowCountScenario()
    ensures CompareTables([Row([Num(1.0)]), Row([Num(2.0)])],
                          [Row([Num(1.0)]), Row([Num(2.0)]), Row([Num(3.0)])])
         == Incomparable(RowCountMismatch(2))
  {
  }

  /** Three cells against two is incomparable before any cell is compared. */
  lemma {:induction false} ColumnCountScenario()
    ensures CompareTables([Row([Num(1.0), Num(2.0), Num(3.0)])],
                          [Row([Text("x"), Num(2.0)])])
         == Incomparable(ColumnCountMismatch(0))
  {
  }

  /** Text against a number in the same position is incomparable. */
  lemma {:induction false} TypeMismatchScenario()
    ensures CompareTables([Row([Text("abc")])], [Row([Num(3.14)])])
         == Incomparable(TypeMismatch(0, 0))
  {
  }

  /** A malformed candidate row is reported before the reference row is looked at. */
  lemma {:induction false} ReadErrorScenario()
    ensures CompareTables([Row([Num(1.0)]), Malformed], [Row([Num(1.0)]), Malformed])
         == Incomparable(ReadError(Candidate, 1))
    ensures CompareTables([Row([Num(1.0)])], [Row([Num(1.0)]), Malformed])
         == Incomparable(ReadError(Reference, 1))
  {
  }

  /** Text cells that are equal up to surrounding whitespace match and add
      nothing to the numeric accumulators: with one numeric pair deviating by
      1, the score is (1, 1). */
  lemma {:induction false} PaddedTextScenario(p: string, t: string, q: string)
    requires AllSpace(p) && AllSpace(q)
    ensures CompareTables([Row([Text(p + t), Num(2.0)])], [Row([Text(t + q), Num(1.0)])])
         == Scored(1.0, 1.0)
  {
    assert p + t + "" == p + t;
    StripIgnoresPadding(p, t, "");
    assert "" + t + q == t + q;
    StripIgnoresPadding("", t, q);
    MatchingTextRow(p + t, t + q);
  }

  lemma {:induction false} MatchingTextRow(a: string, b: string)
    requires Strip(a) == Strip(b)
    ensures CompareTables([Row([Text(a), Num(2.0)])], [Row([Text(b), Num(1.0)])]) == Scored(1.0, 1.0)
  {
    var cs, rs := [Text(a), Num(2.0)], [Text(b), Num(1.0)];
    var a1 := Acc(1.0, 1.0, 1);
    assert Deviation(2.0, 1.0) == 1.0;
    assert CompareCells(cs, rs, 0, 2, a1) == Continue(a1);
    assert CompareCells(cs, rs, 0, 1, Start) == Continue(a1);
    assert CompareCells(cs, rs, 0, 0, Start) == Continue(a1);
    assert Walk([Row(cs)], [Row(rs)], 1, a1) == Continue(a1);
    assert Walk([Row(cs)], [Row(rs)], 0, Start) == Continue(a1);
  }

  /** A comparable pair whose only reference value is 0 scores exactly the
      incomparable sentinel, so the pair `compare` returns cannot tell the
      two apart. */
  lemma {:induction false} SentinelCollision()
    ensures var cand := CsvFile(["1\n"], Excel, 0);
            var ref := CsvFile(["0\n"], Excel, 0);
            var read: Reader := (lines, d) => if lines == ["1\n"] then [Row([Num(1.0)])] else [Row([Num(0.0)])];
            && CompareFiles(cand, ref, read) == Scored(Penalty, Penalty)
            && ComparePair(cand, ref, read) == (Penalty, Penalty)
  {
    var cand := CsvFile(["1\n"], Excel, 0);
    var ref := CsvFile(["0\n"], Excel, 0);
    var read: Reader := (lines, d) => if lines == ["1\n"] then [Row([Num(1.0)])] else [Row([Num(0.0)])];
    assert DataLines(cand) == ["1\n"];
    assert DataLines(ref) == ["0\n"];
    assert ["0\n"] != ["1\n"] by {
      assert ["0\n"][0][0] != ["1\n"][0][0];
    }
    assert read(DataLines(cand), cand.dialect) == [Row([Num(1.0)])];
    assert read(DataLines(ref), ref.dialect) == [Row([Num(0.0)])];
    assert CompareTables([Row([Num(1.0)])], [Row([Num(0.0)])]) == Scored(Penalty, Penalty);
  }
}
