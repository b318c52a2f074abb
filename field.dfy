/**
  Field reconstruction (`nCalc`, `bCalc`): a refractive index `N` is
  computed for every channel and time column from the interpolated
  frequencies, and the magnetic field is recombined cell by cell as
  `B = w * N^2 * 100/9` from the whistler data `w`. The refractive-index
  formula itself is a parameter of the model.
 */
module FieldCombination {
  import opened Cells
  import opened Stats
  import opened Interpolation
  import opened Pipeline

  /** The refractive indices of one channel `f`, one per time column:
      `refraction(fpe, fce, f)` applied to the envelopes column by column. */
  function IndexRow(env: Envelopes, f: real, refraction: (real, real, real) -> real): (row: seq<real>)
    requires |env.fpe| == |env.fce|
    ensures |row| == |env.fce|
    ensures forall k :: 0 <= k < |row| ==> row[k] == refraction(env.fpe[k], env.fce[k], f)
  {
    seq(|env.fce|, k requires 0 <= k < |env.fce| => refraction(env.fpe[k], env.fce[k], f))
  }

  /** The refractive indices of every channel of `fs`, one row per channel. */
  function IndexRows(env: Envelopes, fs: seq<real>, refraction: (real, real, real) -> real): (n: seq<seq<real>>)
    requires |env.fpe| == |env.fce|
    ensures |n| == |fs| && forall i :: 0 <= i < |n| ==> |n[i]| == |env.fce|
  {
    seq(|fs|, i requires 0 <= i < |fs| => IndexRow(env, fs[i], refraction))
  }

  /** The refractive-index matrix: one row per SCM channel. */
  function RefractiveIndex(params: seq<ParamRow>, scm: Spectrogram, refraction: (real, real, real) -> real): (n: seq<seq<real>>)
    requires WellFormed(params, scm)
    ensures |n| == |scm| && forall i :: 0 <= i < |n| ==> |n[i]| == Columns(scm)
  {
    IndexRows(FrequencyInterpolation(params, Columns(scm)), Channels(scm), refraction)
  }

  /** The loop of `nCalc`: one row of indices appended per channel. */
  method AppendIndexRows(env: Envelopes, channels: seq<real>, refraction: (real, real, real) -> real)
    returns (n: seq<seq<real>>)
    requires |env.fpe| == |env.fce|
    ensures n == IndexRows(env, channels, refraction)
  {
    n := [];
    for i := 0 to |channels|
      invariant |n| == i
      invariant forall k :: 0 <= k < i ==> n[k] == IndexRow(env, channels[k], refraction)
    {
      n := n + [IndexRow(env, channels[i], refraction)];
    }
  }

  /** `nCalc`: the whistler data from the EFI filter, the channel column, and
      the refractive indices of every channel. */
  method NCalc(parameterMatrix: seq<ParamRow>, scmList: Spectrogram, efiList: Spectrogram,
               refraction: (real, real, real) -> real)
    returns (n: seq<seq<real>>, whistlerData: Matrix, channels: seq<real>)
    requires EfiMatches(parameterMatrix, scmList, efiList)
    ensures n == RefractiveIndex(parameterMatrix, scmList, refraction)
    ensures whistlerData == Whistler(parameterMatrix, scmList, efiList)
    ensures channels == Channels(scmList)
  {
    channels := Channels(scmList);
    whistlerData := EfiFilter(parameterMatrix, scmList, efiList);
    var env := FrequencyInterpolation(parameterMatrix, Columns(scmList));
    n := AppendIndexRows(env, channels, refraction);
  }

  /** One recombined cell: `w * N^2 * 100/9`, missing where `w` is missing. */
  function Combine(w: Cell, n: real): (b: Cell)
    ensures b.Val? <==> w.Val?
  {
    match w
    case Missing => Missing
    case Val(a) => Val(a * Square(n) * (100.0 / 9.0))
  }

  /** One recombined row. */
  function FieldRow(w: seq<Cell>, n: seq<real>): (b: seq<Cell>)
    requires |n| >= |w|
    ensures |b| == |w|
  {
    seq(|w|, j requires 0 <= j < |w| => Combine(w[j], n[j]))
  }

  /** The recombined field over a whistler matrix and an index matrix that
      covers it. */
  function Field(w: Matrix, n: seq<seq<real>>): (b: Matrix)
    requires |n| >= |w| && forall i :: 0 <= i < |w| ==> |n[i]| >= |w[i]|
    ensures SameShape(w, b)
  {
    seq(|w|, i requires 0 <= i < |w| => FieldRow(w[i], n[i]))
  }

  /** The inner loop of `bCalc`: one recombined cell appended at a time. */
  method CombineRow(w: seq<Cell>, n: seq<real>) returns (row: seq<Cell>)
    requires |n| >= |w|
    ensures row == FieldRow(w, n)
  {
    row := [];
    for j := 0 to |w|
      invariant |row| == j
      invariant forall k :: 0 <= k < j ==> row[k] == Combine(w[k], n[k])
    {
      row := row + [Combine(w[j], n[j])];
    }
  }

  /** The outer loop of `bCalc`: one recombined row appended at a time. */
  method CombineRows(w: Matrix, n: seq<seq<real>>) returns (b: Matrix)
    requires |n| >= |w| && forall i :: 0 <= i < |w| ==> |n[i]| >= |w[i]|
    ensures b == Field(w, n)
  {
    b := [];
    for i := 0 to |w|
      invariant |b| == i
      invariant forall k :: 0 <= k < i ==> b[k] == FieldRow(w[k], n[k])
    {
      var row := CombineRow(w[i], n[i]);
      b := b + [row];
    }
  }

  /** `bCalc`: the refractive indices and whistler data of `nCalc`,
      recombined cell by cell. */
  method BCalc(parameterMatrix: seq<ParamRow>, scmList: Spectrogram, efiList: Spectrogram,
               refraction: (real, real, real) -> real)
    returns (recalculatedB: Matrix)
    requires EfiMatches(parameterMatrix, scmList, efiList)
    ensures recalculatedB == Field(Whistler(parameterMatrix, scmList, efiList),
                                   RefractiveIndex(parameterMatrix, scmList, refraction))
  {
    var n, whistlerData, _ := NCalc(parameterMatrix, scmList, efiList, refraction);
    recalculatedB := CombineRows(whistlerData, n);
  }

  /** A recombined cell is present exactly where the whistler cell is, and
      then equals `w * N^2 * 100/9`. */
  lemma FieldCell(w: Matrix, n: seq<seq<real>>, i: nat, j: nat)
    requires |n| >= |w| && forall i :: 0 <= i < |w| ==> |n[i]| >= |w[i]|
    requires i < |w| && j < |w[i]|
    ensures Field(w, n)[i][j].Val? <==> w[i][j].Val?
    ensures w[i][j].Val? ==> Field(w, n)[i][j].v == w[i][j].v * (n[i][j] * n[i][j]) * (100.0 / 9.0)
  {
  }

  /** Where the index is non-zero the whistler value is recovered from the
      field: `w = B * 9/100 / N^2`. */
  lemma CombineInverse(a: real, n: real)
    requires n != 0.0
    ensures Square(n) != 0.0 && Combine(Val(a), n).v * (9.0 / 100.0) / Square(n) == a
  {
    SquarePositive(n);
    var s := Square(n);
    var x := Combine(Val(a), n).v * (9.0 / 100.0);
    assert x == a * s;
    var q := x / s;
    assert q * s == x;
    assert Product(q - a, s) == q * s - a * s;
    ProductSign(q - a, s);
  }

  /** w = 9 and N = 2 give B = 400. */
  lemma CombineExample()
    ensures Combine(Val(9.0), 2.0) == Val(400.0)
  {
    assert Square(2.0) == 4.0;
  }

  /** End to end: a present field cell sits where the raw EFI sample is
      present and the raw SCM sample survived the outlier detector, the row
      suppressor and the bounds filter; its value is computed from that EFI
      sample. */
  lemma FieldProvenance(params: seq<ParamRow>, scm: Spectrogram, efi: Spectrogram,
                        refraction: (real, real, real) -> real, i: nat, j: nat)
    requires EfiMatches(params, scm, efi) && i < |scm| && j < Columns(scm)
    ensures var b := Field(Whistler(params, scm, efi), RefractiveIndex(params, scm, refraction));
            b[i][j].Val? ==>
              efi[i].samples[j].Val? && Clean(params, scm)[i][j] == scm[i].samples[j] &&
              ZScoreCleaned(scm)[i][j] == scm[i].samples[j] &&
              b[i][j] == Combine(efi[i].samples[j], RefractiveIndex(params, scm, refraction)[i][j])
  {
    var w := Whistler(params, scm, efi);
    var n := RefractiveIndex(params, scm, refraction);
    FieldCell(w, n, i, j);
    WhistlerCell(params, scm, efi, i, j);
    CleanCell(params, scm, i, j);
  }
}
