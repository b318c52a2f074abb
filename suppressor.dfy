/**
  Sparse-row suppressor (`leftoverBarRemover`): measures the percentage of
  present cells in each row and blanks, as written, every row whose
  percentage is NOT below 10; rows below 10 percent are returned unchanged.
 */
module RowSuppressor {
  import opened Cells

  /** The cut-off of `percentReal < 10`. */
  const CutOffPercent: real := 10.0

  /** `percentReal < 10` for one row. A row without columns divides zero by
      zero, a NaN percentage that compares false. */
  predicate BelowCutOff(row: seq<Cell>)
  {
    |row| > 0 && (CountPresent(row) as real) / (|row| as real) * 100.0 < CutOffPercent
  }

  /** One row after suppression. */
  function SuppressRow(row: seq<Cell>): (r: seq<Cell>)
    ensures |r| == |row|
  {
    if BelowCutOff(row) then row else Blank(|row|)
  }

  /** The suppressor's output matrix. */
  function SuppressRows(m: Matrix): (r: Matrix)
    ensures |r| == |m|
    ensures forall i :: 0 <= i < |m| ==> r[i] == SuppressRow(m[i])
  {
    seq(|m|, i requires 0 <= i < |m| => SuppressRow(m[i]))
  }

  /** The suppressor on a fresh 2-D copy of its input: the row mask is
      computed from the percentages, then every row outside the mask is set
      to missing in place. */
  method LeftoverBarRemover(zScoreCleanedList: Matrix) returns (r: Matrix)
    requires |zScoreCleanedList| > 0 && IsRect(zScoreCleanedList)
    ensures r == SuppressRows(zScoreCleanedList)
  {
    var rows, cols := |zScoreCleanedList|, |zScoreCleanedList[0]|;
    var arr := new seq<Cell>[rows](i requires 0 <= i < rows => zScoreCleanedList[i]);
    var mask := seq(rows, i requires 0 <= i < rows => BelowCutOff(zScoreCleanedList[i]));
    forall i | 0 <= i < rows && !mask[i] {
      arr[i] := Blank(cols);
    }
    r := arr[..];
  }

  lemma DivisionBelow(x: real, n: real, y: real)
    requires n > 0.0
    ensures x / n < y <==> x < y * n
  {
    var q := x / n;
    assert q * n == x;
    assert (y - q) * n == y * n - x;
    if q < y {
      assert (y - q) * n > 0.0;
    } else {
      assert (q - y) * n >= 0.0;
    }
  }

  lemma PercentBelowTen(k: nat, len: nat)
    requires len > 0
    ensures (k as real) / (len as real) * 100.0 < 10.0 <==> 10 * k < len
  {
    var c, n := k as real, len as real;
    var q := c / n;
    assert q * 100.0 < 10.0 <==> q < 0.1;
    DivisionBelow(c, n, 0.1);
    assert (10 * k) as real == 10.0 * c;
  }

  /** The percentage test in whole numbers: a row is below 10 percent exactly
      when ten times its present count is less than its length. */
  lemma BelowCutOffIff(row: seq<Cell>)
    ensures BelowCutOff(row) <==> |row| > 0 && 10 * CountPresent(row) < |row|
  {
    if |row| > 0 {
      PercentBelowTen(CountPresent(row), |row|);
    }
  }

  /** A row keeps all its cells when fewer than 10 percent of them are
      present, and becomes entirely missing otherwise. */
  lemma SuppressedRow(m: Matrix, i: nat)
    requires i < |m|
    ensures 10 * CountPresent(m[i]) < |m[i]| ==> SuppressRows(m)[i] == m[i]
    ensures 10 * CountPresent(m[i]) >= |m[i]| ==>
              |SuppressRows(m)[i]| == |m[i]| && forall j :: 0 <= j < |m[i]| ==> SuppressRows(m)[i][j] == Missing
  {
    BelowCutOffIff(m[i]);
  }

  /** After the call every row has fewer than 10 percent present cells
      (rows without columns aside). */
  lemma SuppressedRowsAreSparse(m: Matrix)
    ensures forall i :: 0 <= i < |m| && |m[i]| > 0 ==> 10 * CountPresent(SuppressRows(m)[i]) < |m[i]|
  {
    forall i | 0 <= i < |m| && |m[i]| > 0
      ensures 10 * CountPresent(SuppressRows(m)[i]) < |m[i]|
    {
      BelowCutOffIff(m[i]);
      CountPresentBlank(|m[i]|);
    }
  }

  /** The suppressor only keeps or blanks cells, and keeps the shape. */
  lemma SuppressKeepsOrMissing(m: Matrix)
    ensures KeepsOrMissing(m, SuppressRows(m))
  {
  }

  /** Suppressing twice is suppressing once: every surviving row is already
      below the cut-off. */
  lemma SuppressRowsIdempotent(m: Matrix)
    ensures SuppressRows(SuppressRows(m)) == SuppressRows(m)
  {
    var s := SuppressRows(m);
    forall i | 0 <= i < |m|
      ensures SuppressRow(s[i]) == s[i]
    {
      BelowCutOffIff(m[i]);
      BelowCutOffIff(s[i]);
      CountPresentBlank(|m[i]|);
    }
  }

  lemma CountOneThenBlank(n: nat)
    ensures CountPresent([Val(1.0)] + Blank(n)) == 1
  {
    assert ([Val(1.0)] + Blank(n))[1..] == Blank(n);
    CountPresentBlank(n);
  }

  /** The boundary: a row with exactly 10 percent present cells (1 of 10) is
      blanked, a row with 1 of 11 is kept. */
  lemma TenPercentBoundary()
    ensures SuppressRow([Val(1.0)] + Blank(9)) == Blank(10)
    ensures SuppressRow([Val(1.0)] + Blank(10)) == [Val(1.0)] + Blank(10)
  {
    CountOneThenBlank(9);
    CountOneThenBlank(10);
    BelowCutOffIff([Val(1.0)] + Blank(9));
    BelowCutOffIff([Val(1.0)] + Blank(10));
  }
}
