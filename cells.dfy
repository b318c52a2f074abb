/**
  Cells and matrices of the spectrogram pipeline.

  A spectrogram is a frequency-by-time matrix: rows are frequency channels,
  columns are time samples. A cell holds a measured value or the missing
  marker (NaN in the original program); every NaN-aware aggregation ignores
  the missing marker.
 */
module Cells {

  /** One matrix cell: a measured value, or the missing marker. */
  datatype Cell = Missing | Val(v: real)

  /** A matrix as a sequence of rows. */
  type Matrix = seq<seq<Cell>>

  /** One row of an SCM or EFI spectrogram: column 0 is the channel frequency,
      the remaining columns are the samples over time. */
  datatype SpecRow = SpecRow(freq: real, samples: seq<Cell>)

  type Spectrogram = seq<SpecRow>

  /** The data block of a spectrogram: every row without its channel column. */
  function Samples(s: Spectrogram): (m: Matrix)
    ensures |m| == |s|
    ensures forall i :: 0 <= i < |s| ==> m[i] == s[i].samples
  {
    seq(|s|, i requires 0 <= i < |s| => s[i].samples)
  }

  /** The channel column of a spectrogram. */
  function Channels(s: Spectrogram): (fs: seq<real>)
    ensures |fs| == |s|
    ensures forall i :: 0 <= i < |s| ==> fs[i] == s[i].freq
  {
    seq(|s|, i requires 0 <= i < |s| => s[i].freq)
  }

  /** `m` has `rows` rows of `cols` cells each. */
  predicate HasShape(m: Matrix, rows: nat, cols: nat)
  {
    |m| == rows && forall i :: 0 <= i < |m| ==> |m[i]| == cols
  }

  /** All rows have the length of the first one (what numpy needs to build a 2-D array). */
  predicate IsRect(m: Matrix)
  {
    forall i :: 0 <= i < |m| ==> |m[i]| == |m[0]|
  }

  predicate SameShape(a: Matrix, b: Matrix)
  {
    |a| == |b| && forall i :: 0 <= i < |a| ==> |a[i]| == |b[i]|
  }

  /** `b` is obtained from `a` by keeping some cells and making the others
      missing: no cell of `b` holds a value that `a` did not hold there. */
  predicate KeepsOrMissing(a: Matrix, b: Matrix)
  {
    SameShape(a, b) &&
    forall i, j :: 0 <= i < |a| && 0 <= j < |a[i]| ==> b[i][j] == a[i][j] || b[i][j] == Missing
  }

  /** A row of `n` missing cells (what `arr[i] = np.nan` leaves). */
  function Blank(n: nat): (row: seq<Cell>)
    ensures |row| == n
    ensures forall j :: 0 <= j < n ==> row[j] == Missing
  {
    seq(n, j => Missing)
  }

  /** Number of present (non-missing) cells of a row, `np.sum(~np.isnan(row))`. */
  function CountPresent(row: seq<Cell>): (n: nat)
    ensures n <= |row|
  {
    if row == [] then 0 else (if row[0].Val? then 1 else 0) + CountPresent(row[1..])
  }

  lemma {:induction false} CountPresentBlank(n: nat)
    ensures CountPresent(Blank(n)) == 0
  {
    if n > 0 {
      assert Blank(n)[1..] == Blank(n - 1);
      CountPresentBlank(n - 1);
    }
  }

  /** The present values of a row, in order. */
  function RowValues(row: seq<Cell>): (xs: seq<real>)
    ensures |xs| == CountPresent(row)
  {
    if row == [] then []
    else (if row[0].Val? then [row[0].v] else []) + RowValues(row[1..])
  }

  /** The present values of a block of rows, in row-major order: the sample
      over which `np.nanmean` and `np.nanstd` reduce. */
  function PresentValues(rows: Matrix): seq<real>
  {
    if rows == [] then [] else RowValues(rows[0]) + PresentValues(rows[1..])
  }

  lemma {:induction false} RowValuesHas(row: seq<Cell>, j: nat)
    requires j < |row| && row[j].Val?
    ensures row[j].v in RowValues(row)
  {
    if j > 0 {
      RowValuesHas(row[1..], j - 1);
    }
  }

  /** Every present cell of a block contributes its value to the block's statistics. */
  lemma {:induction false} PresentValuesHas(rows: Matrix, i: nat, j: nat)
    requires i < |rows| && j < |rows[i]| && rows[i][j].Val?
    ensures rows[i][j].v in PresentValues(rows)
  {
    if i == 0 {
      RowValuesHas(rows[0], j);
    } else {
      PresentValuesHas(rows[1..], i - 1, j);
    }
  }

  /** Every value of the block's statistics sample is equal to `c` when every cell of the block is `Val(c)`. */
  lemma {:induction false} ConstantBlockValues(rows: Matrix, c: real)
    requires forall i, j :: 0 <= i < |rows| && 0 <= j < |rows[i]| ==> rows[i][j] == Val(c)
    ensures forall x :: x in PresentValues(rows) ==> x == c
    ensures |rows| > 0 && |rows[0]| > 0 ==> |PresentValues(rows)| > 0
  {
    if rows != [] {
      ConstantRowValues(rows[0], c);
      ConstantBlockValues(rows[1..], c);
      assert forall i, j :: 0 <= i < |rows[1..]| && 0 <= j < |rows[1..][i]| ==> rows[1..][i][j] == rows[i + 1][j];
    }
  }

  lemma {:induction false} ConstantRowValues(row: seq<Cell>, c: real)
    requires forall j :: 0 <= j < |row| ==> row[j] == Val(c)
    ensures forall x :: x in RowValues(row) ==> x == c
    ensures |RowValues(row)| == |row|
  {
    if row != [] {
      ConstantRowValues(row[1..], c);
    }
  }

  /** Keeping-or-blanking composes: a cell present at the end of two such
      stages is present, with the same value, at the start. */
  lemma KeepsOrMissingTransitive(a: Matrix, b: Matrix, c: Matrix)
    requires KeepsOrMissing(a, b) && KeepsOrMissing(b, c)
    ensures KeepsOrMissing(a, c)
  {
    forall i, j | 0 <= i < |a| && 0 <= j < |a[i]|
      ensures c[i][j] == a[i][j] || c[i][j] == Missing
    {
      assert j < |b[i]|;
    }
  }
}
