/**
  The cleaning pipeline (`dataCleaner`) and the EFI co-mask (`efiFilter`):
  the SCM spectrogram goes through the outlier detector at threshold 0.8,
  the row suppressor and the bounds filter; the cells that survive select
  the EFI cells that are kept.
 */
module Pipeline {
  import opened Cells
  import opened OutlierDetector
  import opened RowSuppressor
  import opened Interpolation
  import opened BoundsFilter

  /** What the pipeline needs of its inputs: a non-empty rectangular SCM
      spectrogram and a non-empty parameter table in time order. */
  predicate WellFormed(params: seq<ParamRow>, scm: Spectrogram)
  {
    |scm| > 0 && IsRect(Samples(scm)) && |params| > 0 && Sorted(Times(params))
  }

  /** Number of sample columns of the SCM spectrogram. */
  function Columns(scm: Spectrogram): nat
    requires |scm| > 0
  {
    |scm[0].samples|
  }

  /** The z-score-cleaned matrix of the pipeline's first stage. */
  function ZScoreCleaned(scm: Spectrogram): (m: Matrix)
    requires |scm| > 0 && IsRect(Samples(scm))
    ensures HasShape(m, |scm|, Columns(scm))
  {
    Outliers(Samples(scm), Threshold)
  }

  /** The row-suppressed matrix of the second stage. */
  function BarRemoved(scm: Spectrogram): (m: Matrix)
    requires |scm| > 0 && IsRect(Samples(scm))
    ensures HasShape(m, |scm|, Columns(scm))
  {
    var z := ZScoreCleaned(scm);
    assert forall i :: 0 <= i < |z| ==> |SuppressRow(z[i])| == |z[i]|;
    SuppressRows(z)
  }

  /** The cleaned SCM data block, after the three filters. */
  function Clean(params: seq<ParamRow>, scm: Spectrogram): (m: Matrix)
    requires WellFormed(params, scm)
    ensures HasShape(m, |scm|, Columns(scm))
  {
    PurgeDataOutsideBounds(BarRemoved(scm), params, scm)
  }

  /** `dataCleaner`: the three stages run one after the other. */
  method DataCleaner(parameterMatrix: seq<ParamRow>, scmList: Spectrogram) returns (cleanedData: Matrix)
    requires WellFormed(parameterMatrix, scmList)
    ensures cleanedData == Clean(parameterMatrix, scmList)
  {
    var zScoreCleanedList, _ := OutlierFinder(scmList, Threshold);
    var barRemovedList := LeftoverBarRemover(zScoreCleanedList);
    cleanedData := PurgeDataOutsideBounds(barRemovedList, parameterMatrix, scmList);
  }

  /** Each stage only keeps or blanks cells: the cleaned matrix holds only
      values that the outlier detector kept, which are raw SCM samples. */
  lemma CleanKeepsOrMissing(params: seq<ParamRow>, scm: Spectrogram)
    requires WellFormed(params, scm)
    ensures KeepsOrMissing(ZScoreCleaned(scm), Clean(params, scm))
    ensures KeepsOrMissing(Samples(scm), Clean(params, scm))
  {
    OutliersKeepOrMissing(Samples(scm), Threshold);
    SuppressKeepsOrMissing(ZScoreCleaned(scm));
    PurgeKeepsOrMissing(BarRemoved(scm), params, scm);
    KeepsOrMissingTransitive(ZScoreCleaned(scm), BarRemoved(scm), Clean(params, scm));
    KeepsOrMissingTransitive(Samples(scm), ZScoreCleaned(scm), Clean(params, scm));
  }

  /** A cleaned cell is present exactly when the outlier detector kept it,
      its row of the detector's output has fewer than 10 percent present
      cells, and its channel lies in the band of its column; it then holds
      the raw SCM sample. */
  lemma CleanCell(params: seq<ParamRow>, scm: Spectrogram, i: nat, j: nat)
    requires WellFormed(params, scm) && i < |scm| && j < Columns(scm)
    ensures var env := FrequencyInterpolation(params, Columns(scm));
            Clean(params, scm)[i][j].Val? <==>
              ZScoreCleaned(scm)[i][j].Val? &&
              10 * CountPresent(ZScoreCleaned(scm)[i]) < Columns(scm) &&
              env.flh[j] <= scm[i].freq <= env.fce[j]
    ensures Clean(params, scm)[i][j].Val? ==> Clean(params, scm)[i][j] == scm[i].samples[j]
  {
    var z := ZScoreCleaned(scm);
    SuppressedRow(z, i);
    PurgeCell(BarRemoved(scm), params, scm, i, j);
    OutlierCell(Samples(scm), Threshold, i, j);
  }

  /** The EFI data block with the cleaned SCM mask applied: the EFI value
      where the SCM cell is present, missing elsewhere. */
  function CoMask(scmValues: Matrix, efiValues: Matrix): (r: Matrix)
    requires SameShape(scmValues, efiValues)
    ensures SameShape(efiValues, r)
  {
    seq(|efiValues|, i requires 0 <= i < |efiValues| =>
      seq(|efiValues[i]|, j requires 0 <= j < |efiValues[i]| =>
        if scmValues[i][j].Val? then efiValues[i][j] else Missing))
  }

  /** The co-mask keeps an EFI cell exactly where the SCM cell is present. */
  lemma CoMaskCell(scmValues: Matrix, efiValues: Matrix, i: nat, j: nat)
    requires SameShape(scmValues, efiValues) && i < |efiValues| && j < |efiValues[i]|
    ensures scmValues[i][j].Val? ==> CoMask(scmValues, efiValues)[i][j] == efiValues[i][j]
    ensures scmValues[i][j] == Missing ==> CoMask(scmValues, efiValues)[i][j] == Missing
    ensures CoMask(scmValues, efiValues)[i][j].Val? <==> scmValues[i][j].Val? && efiValues[i][j].Val?
  {
  }

  /** The co-mask only keeps or blanks EFI cells. */
  lemma CoMaskKeepsOrMissing(scmValues: Matrix, efiValues: Matrix)
    requires SameShape(scmValues, efiValues)
    ensures KeepsOrMissing(efiValues, CoMask(scmValues, efiValues))
  {
  }

  /** What `efiFilter` needs beyond a well-formed pipeline input: an EFI
      spectrogram with the SCM data block's shape. */
  predicate EfiMatches(params: seq<ParamRow>, scm: Spectrogram, efi: Spectrogram)
  {
    WellFormed(params, scm) && HasShape(Samples(efi), |scm|, Columns(scm))
  }

  /** The whistler data: the EFI block co-masked by the cleaned SCM block. */
  function Whistler(params: seq<ParamRow>, scm: Spectrogram, efi: Spectrogram): (w: Matrix)
    requires EfiMatches(params, scm, efi)
    ensures HasShape(w, |scm|, Columns(scm))
  {
    CoMask(Clean(params, scm), Samples(efi))
  }

  /** `efiFilter`: clean the SCM data, then keep the EFI cells where the
      cleaned SCM cells are present. */
  method EfiFilter(parameterMatrix: seq<ParamRow>, scmList: Spectrogram, efiList: Spectrogram) returns (efiFiltered: Matrix)
    requires EfiMatches(parameterMatrix, scmList, efiList)
    ensures efiFiltered == Whistler(parameterMatrix, scmList, efiList)
  {
    var efiValues := Samples(efiList);
    var scmValues := DataCleaner(parameterMatrix, scmList);
    efiFiltered := CoMask(scmValues, efiValues);
  }

  /** A present whistler cell is the raw EFI sample at a cell whose SCM
      sample survived every cleaning stage. */
  lemma WhistlerCell(params: seq<ParamRow>, scm: Spectrogram, efi: Spectrogram, i: nat, j: nat)
    requires EfiMatches(params, scm, efi) && i < |scm| && j < Columns(scm)
    ensures Whistler(params, scm, efi)[i][j].Val? <==> Clean(params, scm)[i][j].Val? && efi[i].samples[j].Val?
    ensures Whistler(params, scm, efi)[i][j].Val? ==>
              Whistler(params, scm, efi)[i][j] == efi[i].samples[j] &&
              ZScoreCleaned(scm)[i][j] == scm[i].samples[j]
  {
    CoMaskCell(Clean(params, scm), Samples(efi), i, j);
    CleanCell(params, scm, i, j);
    OutlierCell(Samples(scm), Threshold, i, j);
  }
}
