/**
  Outlier detector (`outlierFinder`): flags the SCM samples whose localized
  z-score reaches a threshold. The statistics of row `i` are taken over the
  present values of the rows around it, clipped at the first and last row.
 */
module OutlierDetector {
  import opened Cells
  import opened Stats

  /** The z-score threshold the data cleaner passes to the detector. */
  const Threshold: real := 0.8

  /** A (row, column) coordinate of the data block. */
  type Coord = (nat, nat)

  /** Rows `[start, end)` whose values give row `i` its statistics: `max(0, i - 1)`
      to `min(numRows, i + 2)`. The window holds row `i` and its immediate
      neighbours, so the first and last row use two rows, interior rows three. */
  function Window(i: nat, numRows: nat): (w: (nat, nat))
    requires i < numRows
    ensures w.0 <= i < w.1 <= numRows
    ensures i <= w.0 + 1 && w.1 <= i + 2
    ensures w.1 - w.0 == if numRows == 1 then 1 else if i == 0 || i == numRows - 1 then 2 else 3
  {
    (if i >= 1 then i - 1 else 0, if i + 2 <= numRows then i + 2 else numRows)
  }

  /** The present values of the window of row `i`, over which the mean and
      the spread are computed. */
  function WindowValues(values: Matrix, i: nat): seq<real>
    requires i < |values|
  {
    var w := Window(i, |values|);
    PresentValues(values[w.0..w.1])
  }

  /** The outlier test of one cell against its window's statistics: a missing
      cell, or a window with zero spread, gives a NaN z-score, which compares
      false; otherwise the z-score must be at least `t`. */
  predicate Flagged(cell: Cell, window: seq<real>, t: real)
  {
    cell.Val? && |window| > 0 && Variance(window) > 0.0 &&
    ZAtLeast(cell.v - Mean(window), Variance(window), t)
  }

  /** `outlierMask` of row `i`. */
  function OutlierMask(values: Matrix, t: real, i: nat): (mask: seq<bool>)
    requires i < |values|
    ensures |mask| == |values[i]|
  {
    var w := WindowValues(values, i);
    seq(|values[i]|, j requires 0 <= j < |values[i]| => Flagged(values[i][j], w, t))
  }

  /** Row `i` of the detector's output matrix. */
  function OutlierRow(values: Matrix, t: real, i: nat): (row: seq<Cell>)
    requires i < |values|
    ensures |row| == |values[i]|
  {
    var mask := OutlierMask(values, t, i);
    seq(|values[i]|, j requires 0 <= j < |values[i]| => if mask[j] then values[i][j] else Missing)
  }

  /** The first `n` rows of the detector's output matrix. */
  function OutliersUpTo(values: Matrix, t: real, n: nat): (m: Matrix)
    requires n <= |values|
    ensures |m| == n && forall i :: 0 <= i < n ==> |m[i]| == |values[i]|
  {
    if n == 0 then [] else OutliersUpTo(values, t, n - 1) + [OutlierRow(values, t, n - 1)]
  }

  /** The detector's output matrix, of the data block's shape. */
  function Outliers(values: Matrix, t: real): (m: Matrix)
    ensures SameShape(values, m)
  {
    OutliersUpTo(values, t, |values|)
  }

  /** The coordinates `(i, j)` of the set entries of `mask`, in column order. */
  function RowCoords(i: nat, mask: seq<bool>): seq<Coord>
  {
    if mask == [] then []
    else RowCoords(i, mask[..|mask| - 1]) + (if mask[|mask| - 1] then [(i, |mask| - 1)] else [])
  }

  /** `whistlerCoords` after the first `n` rows. */
  function CoordsUpTo(values: Matrix, t: real, n: nat): seq<Coord>
    requires n <= |values|
  {
    if n == 0 then [] else CoordsUpTo(values, t, n - 1) + RowCoords(n - 1, OutlierMask(values, t, n - 1))
  }

  function FlaggedCoords(values: Matrix, t: real): seq<Coord>
  {
    CoordsUpTo(values, t, |values|)
  }

  /** Row-major order of coordinates. */
  predicate Before(a: Coord, b: Coord)
  {
    a.0 < b.0 || (a.0 == b.0 && a.1 < b.1)
  }

  predicate RowMajor(cs: seq<Coord>)
  {
    forall k, l :: 0 <= k < l < |cs| ==> Before(cs[k], cs[l])
  }

  /** One pass of the detector loop for row `i`: the window statistics, the
      row's output cells and the row's flagged coordinates. */
  method FlagRow(scmValues: Matrix, threshold: real, i: nat) returns (row: seq<Cell>, coords: seq<Coord>)
    requires i < |scmValues|
    ensures row == OutlierRow(scmValues, threshold, i)
    ensures coords == RowCoords(i, OutlierMask(scmValues, threshold, i))
  {
    var (start, end) := Window(i, |scmValues|);
    var localRows := PresentValues(scmValues[start..end]);
    var outlierMask := seq(|scmValues[i]|, j requires 0 <= j < |scmValues[i]| => Flagged(scmValues[i][j], localRows, threshold));
    assert outlierMask == OutlierMask(scmValues, threshold, i);
    row := seq(|scmValues[i]|, j requires 0 <= j < |scmValues[i]| => if outlierMask[j] then scmValues[i][j] else Missing);
    coords := RowCoords(i, outlierMask);
  }

  /** The detector loop: one row at a time it writes the row's flagged values
      into the preallocated all-missing matrix and appends the row's flagged
      coordinates. */
  method OutlierFinder(data: Spectrogram, threshold: real) returns (outliers: Matrix, whistlerCoords: seq<Coord>)
    requires |data| > 0 && IsRect(Samples(data))
    ensures outliers == Outliers(Samples(data), threshold)
    ensures whistlerCoords == FlaggedCoords(Samples(data), threshold)
  {
    var scmValues := Samples(data);
    whistlerCoords := [];
    var numRows, numCols := |scmValues|, |scmValues[0]|;
    var out := new seq<Cell>[numRows](_ => Blank(numCols));
    for i := 0 to numRows
      invariant out[..i] == OutliersUpTo(scmValues, threshold, i)
      invariant whistlerCoords == CoordsUpTo(scmValues, threshold, i)
    {
      var row, coords := FlagRow(scmValues, threshold, i);
      out[i] := row;
      assert out[..i + 1] == out[..i] + [row];
      CoordsUpToStep(scmValues, threshold, i);
      whistlerCoords := whistlerCoords + coords;
    }
    outliers := out[..];
    assert outliers == out[..numRows];
  }

  lemma {:induction false} OutliersUpToRow(values: Matrix, t: real, n: nat, i: nat)
    requires i < n <= |values|
    ensures OutliersUpTo(values, t, n)[i] == OutlierRow(values, t, i)
  {
    if i < n - 1 {
      OutliersUpToRow(values, t, n - 1, i);
    }
  }

  /** Row `i` of the output matrix is the row the detector loop computes for `i`. */
  lemma OutliersRow(values: Matrix, t: real, i: nat)
    requires i < |values|
    ensures |Outliers(values, t)| == |values|
    ensures Outliers(values, t)[i] == OutlierRow(values, t, i)
  {
    OutliersUpToRow(values, t, |values|, i);
  }

  /** The output has the shape of the data block and holds only original
      values and missing cells. */
  lemma OutliersKeepOrMissing(values: Matrix, t: real)
    ensures KeepsOrMissing(values, Outliers(values, t))
  {
    forall i | 0 <= i < |values| {
      OutliersRow(values, t, i);
    }
  }

  lemma CoordsUpToStep(values: Matrix, t: real, i: nat)
    requires i < |values|
    ensures CoordsUpTo(values, t, i + 1) == CoordsUpTo(values, t, i) + RowCoords(i, OutlierMask(values, t, i))
  {
  }

  /** The flag rule: an output cell is present exactly when its input cell
      passes the test, and then holds the input value; a missing input cell
      stays missing. */
  lemma OutlierCell(values: Matrix, t: real, i: nat, j: nat)
    requires i < |values| && j < |values[i]|
    ensures Outliers(values, t)[i][j].Val? <==> Flagged(values[i][j], WindowValues(values, i), t)
    ensures Outliers(values, t)[i][j].Val? ==> Outliers(values, t)[i][j] == values[i][j]
    ensures values[i][j] == Missing ==> Outliers(values, t)[i][j] == Missing
  {
    OutliersRow(values, t, i);
  }

  /** The flag rule in z-score form: for a present cell whose window has a
      positive standard deviation `s`, the cell keeps its value iff
      `(v - mean) / s >= t` (inclusive). */
  lemma OutlierIffZScore(values: Matrix, t: real, i: nat, j: nat, s: real)
    requires i < |values| && j < |values[i]| && values[i][j].Val?
    requires |WindowValues(values, i)| > 0 && s > 0.0 && Square(s) == Variance(WindowValues(values, i))
    ensures Outliers(values, t)[i][j] == values[i][j] <==>
              (values[i][j].v - Mean(WindowValues(values, i))) / s >= t
  {
    var w := WindowValues(values, i);
    OutliersRow(values, t, i);
    assert Square(s) > 0.0 by { SquarePositive(s); }
    ZAtLeastIsZScoreTest(values[i][j].v - Mean(w), s, t);
  }

  /** Row `i` lies in its own window, so each of its present values is part of
      its statistics sample. */
  lemma RowInWindow(values: Matrix, i: nat, j: nat)
    requires i < |values| && j < |values[i]| && values[i][j].Val?
    ensures values[i][j].v in WindowValues(values, i)
  {
    var w := Window(i, |values|);
    assert values[w.0..w.1][i - w.0] == values[i];
    PresentValuesHas(values[w.0..w.1], i - w.0, j);
  }

  /** A window with zero spread: every present value of the row equals the
      window mean, so its z-score is 0/0 (NaN) and no cell of the row is
      flagged, whatever the threshold. */
  lemma ZeroSpreadNoOutliers(values: Matrix, t: real, i: nat)
    requires i < |values|
    requires |WindowValues(values, i)| > 0 && Variance(WindowValues(values, i)) == 0.0
    ensures forall j :: 0 <= j < |values[i]| && values[i][j].Val? ==> values[i][j].v == Mean(WindowValues(values, i))
    ensures forall j :: 0 <= j < |values[i]| ==> Outliers(values, t)[i][j] == Missing
  {
    var w := WindowValues(values, i);
    OutliersRow(values, t, i);
    ZeroVarianceConstant(w);
    forall j | 0 <= j < |values[i]| && values[i][j].Val?
      ensures values[i][j].v == Mean(w)
    {
      RowInWindow(values, i, j);
    }
  }

  /** A block whose every cell holds the same value has no outliers. */
  lemma {:induction false} ConstantBlockNoOutliers(values: Matrix, c: real, t: real)
    requires forall i, j :: 0 <= i < |values| && 0 <= j < |values[i]| ==> values[i][j] == Val(c)
    ensures forall i, j :: 0 <= i < |values| && 0 <= j < |values[i]| ==> Outliers(values, t)[i][j] == Missing
  {
    forall i, j | 0 <= i < |values| && 0 <= j < |values[i]|
      ensures Outliers(values, t)[i][j] == Missing
    {
      var w := Window(i, |values|);
      var rows := values[w.0..w.1];
      assert forall r, k :: 0 <= r < |rows| && 0 <= k < |rows[r]| ==> rows[r][k] == values[w.0 + r][k];
      ConstantBlockValues(rows, c);
      RowInWindow(values, i, j);
      ConstantSample(WindowValues(values, i), c);
      OutliersRow(values, t, i);
    }
  }

  /** A 3 x 2 block of fives yields an all-missing output at the data
      cleaner's threshold. */
  lemma FivesBlockNoOutliers()
    ensures Outliers([[Val(5.0), Val(5.0)], [Val(5.0), Val(5.0)], [Val(5.0), Val(5.0)]], Threshold)
         == [[Missing, Missing], [Missing, Missing], [Missing, Missing]]
  {
    var values := [[Val(5.0), Val(5.0)], [Val(5.0), Val(5.0)], [Val(5.0), Val(5.0)]];
    ConstantBlockNoOutliers(values, 5.0, Threshold);
    var out := Outliers(values, Threshold);
    assert out[0] == [Missing, Missing];
    assert out[1] == [Missing, Missing];
    assert out[2] == [Missing, Missing];
  }

  lemma TwoPointWindow()
    ensures WindowValues([[Val(0.0), Val(2.0)]], 0) == [0.0, 2.0]
  {
    var values := [[Val(0.0), Val(2.0)]];
    assert values[0..1] == values;
    assert values[0][1..] == [Val(2.0)] && values[0][1..][1..] == [];
    assert values[1..] == [];
  }

  lemma TwoPointSum()
    ensures Sum([0.0, 2.0]) == 2.0
  {
    assert [0.0, 2.0][1..] == [2.0] && [2.0][1..] == [];
  }

  lemma TwoPointDeviations()
    ensures SquaredDeviations([0.0, 2.0], 1.0) == 2.0
  {
    assert [0.0, 2.0][1..] == [2.0] && [2.0][1..] == [];
    assert Square(0.0 - 1.0) == 1.0 by { assert Product(-1.0, -1.0) == 1.0; }
    assert Square(2.0 - 1.0) == 1.0 by { assert Product(1.0, 1.0) == 1.0; }
  }

  lemma TwoPointStatistics()
    ensures Mean([0.0, 2.0]) == 1.0 && Variance([0.0, 2.0]) == 1.0
  {
    TwoPointSum();
    assert Mean([0.0, 2.0]) == 2.0 / 2.0;
    TwoPointDeviations();
  }

  lemma TwoPointMask()
    ensures OutlierMask([[Val(0.0), Val(2.0)]], 1.0, 0) == [false, true]
  {
    var values := [[Val(0.0), Val(2.0)]];
    TwoPointWindow();
    TwoPointStatistics();
    var w := WindowValues(values, 0);
    assert Square(1.0) == 1.0 by { assert Product(1.0, 1.0) == 1.0; }
    assert Square(-1.0) == 1.0 by { assert Product(-1.0, -1.0) == 1.0; }
    assert !Flagged(Val(0.0), w, 1.0);
    assert Flagged(Val(2.0), w, 1.0);
  }

  /** The threshold is inclusive: in the one-row block [0, 2] the mean is 1 and
      the spread is 1, so the value 2 has z-score exactly 1 and is kept at
      threshold 1, while 0 (z-score -1) is not. */
  lemma ThresholdInclusive()
    ensures Outliers([[Val(0.0), Val(2.0)]], 1.0) == [[Missing, Val(2.0)]]
  {
    var values := [[Val(0.0), Val(2.0)]];
    TwoPointMask();
    OutliersRow(values, 1.0, 0);
    assert OutlierRow(values, 1.0, 0) == [Missing, Val(2.0)];
  }

  lemma {:induction false} RowCoordsExact(i: nat, mask: seq<bool>, r: nat, c: nat)
    ensures (r, c) in RowCoords(i, mask) <==> r == i && c < |mask| && mask[c]
  {
    if mask != [] {
      RowCoordsExact(i, mask[..|mask| - 1], r, c);
    }
  }

  lemma {:induction false} RowCoordsOrdered(i: nat, mask: seq<bool>)
    ensures RowMajor(RowCoords(i, mask))
    ensures forall k :: 0 <= k < |RowCoords(i, mask)| ==> RowCoords(i, mask)[k].0 == i && RowCoords(i, mask)[k].1 < |mask|
  {
    if mask != [] {
      var front := mask[..|mask| - 1];
      RowCoordsOrdered(i, front);
    }
  }

  lemma {:induction false} CoordsUpToOrdered(values: Matrix, t: real, n: nat)
    requires n <= |values|
    ensures RowMajor(CoordsUpTo(values, t, n))
    ensures forall k :: 0 <= k < |CoordsUpTo(values, t, n)| ==> CoordsUpTo(values, t, n)[k].0 < n
  {
    if n > 0 {
      CoordsUpToOrdered(values, t, n - 1);
      RowCoordsOrdered(n - 1, OutlierMask(values, t, n - 1));
    }
  }

  /** `whistlerCoords` lists each flagged cell once, in row-major order. */
  lemma FlaggedCoordsRowMajor(values: Matrix, t: real)
    ensures RowMajor(FlaggedCoords(values, t))
  {
    CoordsUpToOrdered(values, t, |values|);
  }

  lemma {:induction false} CoordsUpToExact(values: Matrix, t: real, n: nat, i: nat, j: nat)
    requires n <= |values|
    ensures (i, j) in CoordsUpTo(values, t, n) <==>
              i < n && j < |values[i]| && OutlierMask(values, t, i)[j]
  {
    if n > 0 {
      var front, mask := CoordsUpTo(values, t, n - 1), OutlierMask(values, t, n - 1);
      assert CoordsUpTo(values, t, n) == front + RowCoords(n - 1, mask);
      CoordsUpToExact(values, t, n - 1, i, j);
      RowCoordsExact(n - 1, mask, i, j);
      if i == n - 1 {
        assert (i, j) !in front;
      } else {
        assert (i, j) !in RowCoords(n - 1, mask);
      }
    }
  }

  /** `whistlerCoords` holds exactly the coordinates of the cells the detector keeps. */
  lemma FlaggedCoordsExact(values: Matrix, t: real, i: nat, j: nat)
    ensures (i, j) in FlaggedCoords(values, t) <==>
              i < |values| && j < |values[i]| && Outliers(values, t)[i][j].Val?
  {
    CoordsUpToExact(values, t, |values|, i, j);
    if i < |values| && j < |values[i]| {
      OutliersRow(values, t, i);
      assert OutlierMask(values, t, i)[j] <==> Outliers(values, t)[i][j].Val?;
    }
  }
}
