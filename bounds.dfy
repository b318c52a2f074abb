/**
  Bounds filter (`purgeDataOutsideBounds`): a cell survives only when its
  channel frequency lies in the band between the lower-hybrid and the
  electron cyclotron frequency interpolated for its time column, both ends
  included.
 */
module BoundsFilter {
  import opened Cells
  import opened Interpolation

  /** `flh <= f <= fce`, the mask of the filter for one cell. */
  predicate InBand(f: real, flh: real, fce: real)
  {
    flh <= f && f <= fce
  }

  /** The filtered matrix: the envelopes are interpolated over as many
      columns as the first SCM row has samples, and every cell outside its
      band becomes missing. */
  function PurgeDataOutsideBounds(barRemovedList: Matrix, params: seq<ParamRow>, scm: Spectrogram): (r: Matrix)
    requires |scm| > 0 && |params| > 0 && Sorted(Times(params))
    requires HasShape(barRemovedList, |scm|, |scm[0].samples|)
    ensures HasShape(r, |scm|, |scm[0].samples|)
  {
    var cols := |scm[0].samples|;
    var env := FrequencyInterpolation(params, cols);
    seq(|scm|, i requires 0 <= i < |scm| =>
      seq(cols, j requires 0 <= j < cols =>
        if InBand(scm[i].freq, env.flh[j], env.fce[j]) then barRemovedList[i][j] else Missing))
  }

  /** Cell `(i, j)` keeps its value when `flh[j] <= freq[i] <= fce[j]` and is
      missing otherwise; a present output cell therefore lies inside its band. */
  lemma PurgeCell(barRemovedList: Matrix, params: seq<ParamRow>, scm: Spectrogram, i: nat, j: nat)
    requires |scm| > 0 && |params| > 0 && Sorted(Times(params))
    requires HasShape(barRemovedList, |scm|, |scm[0].samples|)
    requires i < |scm| && j < |scm[0].samples|
    ensures var env := FrequencyInterpolation(params, |scm[0].samples|);
            var r := PurgeDataOutsideBounds(barRemovedList, params, scm);
            (env.flh[j] <= scm[i].freq <= env.fce[j] ==> r[i][j] == barRemovedList[i][j]) &&
            (!(env.flh[j] <= scm[i].freq <= env.fce[j]) ==> r[i][j] == Missing) &&
            (r[i][j].Val? ==> env.flh[j] <= scm[i].freq <= env.fce[j])
  {
  }

  /** The filter keeps the shape and only keeps or blanks cells. */
  lemma PurgeKeepsOrMissing(barRemovedList: Matrix, params: seq<ParamRow>, scm: Spectrogram)
    requires |scm| > 0 && |params| > 0 && Sorted(Times(params))
    requires HasShape(barRemovedList, |scm|, |scm[0].samples|)
    ensures KeepsOrMissing(barRemovedList, PurgeDataOutsideBounds(barRemovedList, params, scm))
  {
  }

  /** A channel above every control `fce`, or below every control `flh`, is
      removed entirely. */
  lemma ChannelOutsideBand(barRemovedList: Matrix, params: seq<ParamRow>, scm: Spectrogram, i: nat)
    requires |scm| > 0 && |params| > 0 && Sorted(Times(params))
    requires HasShape(barRemovedList, |scm|, |scm[0].samples|)
    requires i < |scm|
    requires scm[i].freq > MaxValue(Fces(params)) || scm[i].freq < MinValue(Flhs(params))
    ensures PurgeDataOutsideBounds(barRemovedList, params, scm)[i] == Blank(|scm[0].samples|)
  {
    var cols := |scm[0].samples|;
    forall j | 0 <= j < cols
      ensures PurgeDataOutsideBounds(barRemovedList, params, scm)[i][j] == Missing
    {
      EnvelopesBounded(params, cols, j);
    }
  }

  /** A channel between every control `flh` and every control `fce` keeps its
      whole row. */
  lemma ChannelInsideBand(barRemovedList: Matrix, params: seq<ParamRow>, scm: Spectrogram, i: nat)
    requires |scm| > 0 && |params| > 0 && Sorted(Times(params))
    requires HasShape(barRemovedList, |scm|, |scm[0].samples|)
    requires i < |scm|
    requires MaxValue(Flhs(params)) <= scm[i].freq <= MinValue(Fces(params))
    ensures PurgeDataOutsideBounds(barRemovedList, params, scm)[i] == barRemovedList[i]
  {
    var cols := |scm[0].samples|;
    forall j | 0 <= j < cols
      ensures PurgeDataOutsideBounds(barRemovedList, params, scm)[i][j] == barRemovedList[i][j]
    {
      EnvelopesBounded(params, cols, j);
    }
  }

  /** With a band from 0 to 50: a channel at 10 keeps its row, one at 60 loses
      it, and one at exactly 50 keeps it (the upper bound is inclusive). */
  lemma BandExample(row: seq<Cell>)
    requires |row| > 0
    ensures var params := [ParamRow(0.0, 50.0, 0.0, 1.0)];
            var scm := [SpecRow(10.0, row), SpecRow(60.0, row), SpecRow(50.0, row)];
            PurgeDataOutsideBounds(Samples(scm), params, scm) == [row, Blank(|row|), row]
  {
    var params := [ParamRow(0.0, 50.0, 0.0, 1.0)];
    var scm := [SpecRow(10.0, row), SpecRow(60.0, row), SpecRow(50.0, row)];
    assert MinValue(Fces(params)) == 50.0 && MaxValue(Flhs(params)) == 0.0;
    assert MaxValue(Fces(params)) == 50.0;
    ChannelInsideBand(Samples(scm), params, scm, 0);
    ChannelOutsideBand(Samples(scm), params, scm, 1);
    ChannelInsideBand(Samples(scm), params, scm, 2);
  }
}
