# THEMIS SCM whistler reconstructor — Dafny model

`Reconstructor.py` cleans a search-coil magnetometer (SCM) spectrogram and then
recombines a magnetic field from it. A spectrogram is a frequency × time
matrix. Column 0 of each row holds the channel frequency and the other columns
hold samples, where NaN means missing. The cleaning pipeline (`dataCleaner`)
has three stages:

1. the **outlier detector** (`outlierFinder`) keeps only the samples whose
   z-score against a window of neighbouring rows reaches 0.8;
2. the **row suppressor** (`leftoverBarRemover`) blanks whole rows according
   to their percentage of present cells;
3. the **bounds filter** (`purgeDataOutsideBounds`) keeps a cell only when
   its channel lies between the lower-hybrid and the electron-cyclotron
   frequency of its time column. The **frequency interpolator**
   (`frequencyInterpolation`) gives those frequencies by piecewise-linear
   interpolation of a parameter table.

The surviving cells then mask the electric-field (EFI) spectrogram
(`efiFilter`). A refractive index `N` is computed per channel and column
(`nCalc`), and the field is recombined as `B = w · N² · 100/9` (`bCalc`).

Modules, one per component:

- `Cells`: cells (`Missing | Val(real)`), matrices, spectrogram rows, and present-cell counts.
- `Stats`: the NaN-ignoring mean and population variance, and the square-root-free z-score test.
- `OutlierDetector`: `outlierFinder` (`outliers.dfy`).
- `RowSuppressor`: `leftoverBarRemover` (`suppressor.dfy`).
- `Interpolation`: `frequencyInterpolation` with `np.interp` semantics (`interp.dfy`).
- `BoundsFilter`: `purgeDataOutsideBounds` (`bounds.dfy`).
- `Pipeline`: `dataCleaner` and `efiFilter` (`pipeline.dfy`).
- `FieldCombination`: `nCalc` and `bCalc` (`field.dfy`).

The model takes each function's form from the code:

- The functions that loop or update in place are methods:
  - `outlierFinder` writes rows into a preallocated array and appends coordinates;
  - `leftoverBarRemover` blanks masked rows of an array in place;
  - `nCalc` and `bCalc` build their results with loops and appends.
- Each of these methods is proved equal to a specification function. The lemmas about that function state what the source promises.
- The vectorised stages (`purgeDataOutsideBounds`, `frequencyInterpolation`) are functions.
- `dataCleaner` and `efiFilter` are methods because they call the methods above. Each has a specification function (`Clean`, `Whistler`).

The z-score test `(v − mean) / std >= t` is stated through the variance,
`var = std²`. `Stats.ZAtLeastIsZScoreTest` proves that it agrees with the
division for every positive standard deviation. A zero spread gives
`0/0 = NaN` in the source, so no cell is flagged. A missing cell is never
flagged.

## Model

| member | source | states |
|---|---|---|
| Stats.Variance | Reconstructor.py:35 | the population variance (square of `np.nanstd`) of a window is non-negative |
| Stats.Sum | Reconstructor.py:34 | the sum of a window's present values |
| Stats.Mean | Reconstructor.py:34 | `np.nanmean`: the sum of the present values divided by their count |
| Stats.ZeroVarianceConstant | Reconstructor.py:34-35 | a window of zero spread has every value equal to its mean |
| Stats.ConstantSample | Reconstructor.py:34-35 | a window whose values are all `c` has mean `c` and spread zero |
| Stats.ZAtLeastIsZScoreTest | Reconstructor.py:37-40 | the square-root-free test holds exactly when `(v − mean) / s >= t` for the standard deviation `s > 0` |
| OutlierDetector.Window | Reconstructor.py:31-33 | the window of row `i` is `[max(0,i-1), min(numRows,i+2))`: it contains `i`, lies within the matrix, and holds 1 row for a one-row matrix, 2 rows at the first and last row, 3 otherwise |
| OutlierDetector.WindowValues | Reconstructor.py:33-35 | the present values of the window rows in row-major order, the sample `np.nanmean` and `np.nanstd` reduce |
| OutlierDetector.Flagged | Reconstructor.py:37-40 | a cell is flagged when it is present, its window has present values of positive spread, and its z-score reaches the threshold |
| OutlierDetector.OutlierMask | Reconstructor.py:37-40 | the flag mask of row `i`, one entry per column |
| OutlierDetector.OutlierRow | Reconstructor.py:42-43 | output row `i`: the input cell where the mask is set, missing elsewhere, as long as the input row |
| OutlierDetector.OutliersUpTo | Reconstructor.py:21-43 | the first `n` output rows have the input's row lengths |
| OutlierDetector.Outliers | Reconstructor.py:21-43 | the detector's output has the shape of the data block |
| OutlierDetector.FlagRow | Reconstructor.py:31-44 | one pass of the row loop computes the output row and the flagged coordinates of row `i` from its window statistics |
| OutlierDetector.OutlierFinder | Reconstructor.py:17-46 | the row loop over a preallocated array returns exactly the specified outlier matrix and coordinate list |
| OutlierDetector.OutliersRow | Reconstructor.py:42-43 | output row `i` is the masked copy of input row `i` |
| OutlierDetector.OutliersKeepOrMissing | Reconstructor.py:42-43 | every output cell is the input cell or missing, and the shape is kept |
| OutlierDetector.OutlierCell | Reconstructor.py:37-43 | an output cell is present iff its input is present and passes the test against a window of positive spread; it then equals the input; a missing input stays missing |
| OutlierDetector.OutlierIffZScore | Reconstructor.py:37-43 | for a present cell and standard deviation `s > 0`: the output keeps the value iff `(v − mean)/s >= t` (inclusive) |
| OutlierDetector.RowInWindow | Reconstructor.py:31-34 | every present value of row `i` takes part in its own window's statistics |
| OutlierDetector.ZeroSpreadNoOutliers | Reconstructor.py:34-40 | when a window's spread is zero every present value of the row equals the mean and no cell of the row is kept |
| OutlierDetector.ConstantBlockNoOutliers | Reconstructor.py:34-43 | a block whose cells all hold the same value yields an all-missing output |
| OutlierDetector.FivesBlockNoOutliers | Reconstructor.py:34-43 | the 3×2 block of 5s yields an all-missing output |
| OutlierDetector.TwoPointWindow | Reconstructor.py:31-33 | the window of a one-row matrix `[0, 2]` is that row's values |
| OutlierDetector.TwoPointMask | Reconstructor.py:37-40 | with threshold 1 the mask of `[0, 2]` is `[false, true]` |
| OutlierDetector.ThresholdInclusive | Reconstructor.py:40-43 | a z-score exactly equal to the threshold is kept: `[0, 2]` at threshold 1 gives `[missing, 2]` |
| OutlierDetector.RowCoordsExact | Reconstructor.py:44 | a row's coordinate list holds `(i, j)` exactly for the set mask positions `j` |
| OutlierDetector.RowCoordsOrdered | Reconstructor.py:44 | a row's coordinates are in increasing column order and lie in that row |
| OutlierDetector.CoordsUpToOrdered | Reconstructor.py:23-44 | the coordinates collected over the first `n` rows are in row-major order |
| OutlierDetector.FlaggedCoordsRowMajor | Reconstructor.py:44 | `whistlerCoords` is in strictly increasing row-major order |
| OutlierDetector.CoordsUpToExact | Reconstructor.py:23-44 | the coordinates collected over the first `n` rows are exactly the kept cells of those rows |
| OutlierDetector.FlaggedCoordsExact | Reconstructor.py:44 | `(i, j)` is in `whistlerCoords` iff output cell `(i, j)` is present |
| OutlierDetector.RowCoords | Reconstructor.py:44 | the `(i, j)` pairs of the set mask positions of row `i`, in column order |
| OutlierDetector.CoordsUpTo | Reconstructor.py:23-44 | the coordinates collected by the first `n` passes of the row loop |
| OutlierDetector.FlaggedCoords | Reconstructor.py:44-46 | the returned `whistlerCoords` |
| RowSuppressor.SuppressRows | Reconstructor.py:62-64 | the suppressor keeps the row count, and each row is suppressed on its own |
| RowSuppressor.BelowCutOff | Reconstructor.py:62-63 | `percentReal < 10` for one row, false for a row without columns (NaN percentage) |
| RowSuppressor.SuppressRow | Reconstructor.py:63-64 | a row keeps its length: it is unchanged when below the cut-off and entirely missing otherwise |
| RowSuppressor.LeftoverBarRemover | Reconstructor.py:60-65 | the in-place masked blanking of an array copy returns exactly the specified suppressed matrix |
| RowSuppressor.PercentBelowTen | Reconstructor.py:62-63 | `k / len · 100 < 10` iff `10·k < len` |
| RowSuppressor.BelowCutOffIff | Reconstructor.py:62-63 | a row is below the cut-off iff it has columns and ten times its present count is less than its length |
| RowSuppressor.SuppressedRow | Reconstructor.py:62-64 | a row with under 10% present cells is returned unchanged; a row with 10% or more becomes entirely missing, with its length kept |
| RowSuppressor.SuppressedRowsAreSparse | Reconstructor.py:62-64 | after the call every row with columns has under 10% present cells |
| RowSuppressor.SuppressKeepsOrMissing | Reconstructor.py:64 | every output cell is the input cell or missing, and the shape is kept |
| RowSuppressor.SuppressRowsIdempotent | Reconstructor.py:62-64 | suppressing twice gives the same matrix as suppressing once |
| RowSuppressor.TenPercentBoundary | Reconstructor.py:62-64 | exactly 10% present (1 of 10) is blanked; 1 of 11 is kept |
| Interpolation.Times | Reconstructor.py:68 | column 0 of the parameter table, row by row |
| Interpolation.Fces | Reconstructor.py:70 | column 1 of the parameter table, row by row |
| Interpolation.Flhs | Reconstructor.py:71 | column 2 of the parameter table, row by row |
| Interpolation.Fpes | Reconstructor.py:72 | column 3 of the parameter table, row by row |
| Interpolation.Lerp | Reconstructor.py:76-78 | `np.interp`'s line on one segment: slope times the offset from the left time plus the left value |
| Interpolation.Segment | Reconstructor.py:76-78 | interpolation inside the control range, searching the segment `ts[k] <= x < ts[k+1]`; the value lies between the smallest and the largest control value |
| Interpolation.Interp | Reconstructor.py:76-78 | `np.interp` with endpoint clamping; every interpolated value lies between the smallest and the largest control value |
| Interpolation.QueryPoints | Reconstructor.py:74 | `length` query points, point `k` being `baseline + k` |
| Interpolation.Envelope | Reconstructor.py:76-78 | one interpolated value per query point |
| Interpolation.FrequencyInterpolation | Reconstructor.py:67-80 | each of the three envelopes has exactly `length` entries |
| Interpolation.EnvelopeEntries | Reconstructor.py:73-78 | entry `k` of each envelope is the interpolant at `baseline + k`, with `baseline` the first control time |
| Interpolation.SegmentOn | Reconstructor.py:76-78 | the segment search, started at or left of `x`, finds the segment `ts[k] <= x < ts[k+1]` and returns that segment's line at `x` |
| Interpolation.InterpOnSegment | Reconstructor.py:76-78 | between two control times `ts[k] <= x < ts[k+1]` the interpolant is the straight line through `(ts[k], vs[k])` and `(ts[k+1], vs[k+1])` |
| Interpolation.EnvelopeOnSegment | Reconstructor.py:73-78 | entry `k` of an envelope, whose query point `baseline + k` lies between control times `s` and `s+1`, is the line through that segment's control points |
| Interpolation.EnvelopeEntryOnSegment | Reconstructor.py:67-78 | entry `k` of each envelope, whose query point `baseline + k` lies between control times `s` and `s+1`, is the line through that segment's control points for `fce`, `flh` and `fpe` |
| Interpolation.InterpClamps | Reconstructor.py:76-78 | a query before the first time gives the first value; a query at or after the last time gives the last value |
| Interpolation.SegmentAtKnot | Reconstructor.py:76-78 | the segment search returns the control value at an interior control time |
| Interpolation.InterpAtKnot | Reconstructor.py:76-78 | for strictly increasing times, a query at a control time returns that control value |
| Interpolation.MinValue | Reconstructor.py:76-78 | the smallest control value, which is one of the control values |
| Interpolation.MaxValue | Reconstructor.py:76-78 | the largest control value, which is one of the control values |
| Interpolation.LerpBetween | Reconstructor.py:76-78 | on a segment the line stays between the segment's two end values |
| Interpolation.EnvelopesBounded | Reconstructor.py:67-80 | every entry of each envelope lies within the range of its control column |
| Interpolation.ConstantControlValues | Reconstructor.py:76-78 | a constant control column interpolates to that constant everywhere |
| Interpolation.TwoPointExample | Reconstructor.py:76 | with times 0, 10 and values 0, 100: the query at 5 gives 50, at −3 gives 0 and at 12 gives 100 |
| BoundsFilter.PurgeDataOutsideBounds | Reconstructor.py:48-58 | the filtered matrix has the SCM data block's shape |
| BoundsFilter.InBand | Reconstructor.py:55 | the mask of one cell, `flh <= freq` and `fce >= freq`, both ends inclusive |
| BoundsFilter.PurgeCell | Reconstructor.py:53-56 | cell `(i, j)` keeps its value when `flh[j] <= freq[i] <= fce[j]` (both ends inclusive) and is missing otherwise |
| BoundsFilter.PurgeKeepsOrMissing | Reconstructor.py:55-56 | every output cell is the input cell or missing, and the shape is kept |
| BoundsFilter.ChannelOutsideBand | Reconstructor.py:53-56 | a channel above every control `fce`, or below every control `flh`, is removed entirely |
| BoundsFilter.ChannelInsideBand | Reconstructor.py:53-56 | a channel between every control `flh` and every control `fce` keeps its whole row |
| BoundsFilter.BandExample | Reconstructor.py:49-56 | with band 0..50: channels at 10 and at exactly 50 keep their row, a channel at 60 loses it |
| Pipeline.ZScoreCleaned | Reconstructor.py:7 | the first stage's output has the data block's shape |
| Pipeline.BarRemoved | Reconstructor.py:9 | the second stage's output has the data block's shape |
| Pipeline.Clean | Reconstructor.py:5-15 | the cleaned matrix has the data block's shape |
| Pipeline.DataCleaner | Reconstructor.py:5-15 | running the three stages returns exactly the specified cleaned matrix |
| Pipeline.CleanKeepsOrMissing | Reconstructor.py:5-15 | missing only grows through the pipeline: every cleaned cell is the outlier detector's cell or missing, and the raw sample or missing |
| Pipeline.CleanCell | Reconstructor.py:5-15 | a cleaned cell is present iff the detector kept it, its detector row has under 10% present cells, and its channel is inside its band; it then holds the raw sample |
| Pipeline.CoMask | Reconstructor.py:112 | the co-masked EFI block has the EFI block's shape |
| Pipeline.CoMaskCell | Reconstructor.py:112 | the EFI value is kept where the SCM cell is present and is missing where it is missing |
| Pipeline.CoMaskKeepsOrMissing | Reconstructor.py:112 | every co-masked cell is the EFI cell or missing |
| Pipeline.Whistler | Reconstructor.py:108-114 | the whistler data has the SCM data block's shape |
| Pipeline.EfiFilter | Reconstructor.py:108-114 | the EFI filter returns exactly the EFI block co-masked by the cleaned SCM block |
| Pipeline.WhistlerCell | Reconstructor.py:108-114 | a whistler cell is present iff the cleaned SCM cell and the EFI cell are both present; it then holds the raw EFI sample |
| Cells.Samples | Reconstructor.py:18 | the data block: every row without its channel column, row by row |
| Cells.Channels | Reconstructor.py:49 | the channel column, row by row |
| Cells.CountPresent | Reconstructor.py:62 | `np.sum(~np.isnan(row))`: the number of present cells, at most the row length |
| Cells.KeepsOrMissingTransitive | Reconstructor.py:7-11 | keeping-or-blanking stages compose into a keeping-or-blanking stage |
| FieldCombination.IndexRow | Reconstructor.py:102-104 | one refractive index per time column, computed from that column's `fpe`, `fce` and the channel |
| FieldCombination.IndexRows | Reconstructor.py:102-104 | one row of indices per channel, each as long as the envelopes |
| FieldCombination.AppendIndexRows | Reconstructor.py:102-104 | the per-channel append loop returns exactly the index rows of every channel |
| FieldCombination.RefractiveIndex | Reconstructor.py:93-106 | one row per channel, each as long as the data block is wide |
| FieldCombination.NCalc | Reconstructor.py:93-106 | returns the specified index matrix, the whistler data and the channel column |
| FieldCombination.FieldRow | Reconstructor.py:86-90 | a recombined row is as long as its whistler row |
| FieldCombination.Combine | Reconstructor.py:88 | one recombined cell `w · N² · 100/9`, present exactly when `w` is present |
| FieldCombination.Field | Reconstructor.py:82-91 | `B` has the row count and row lengths of the whistler data |
| FieldCombination.CombineRow | Reconstructor.py:86-89 | the inner loop returns exactly the recombined row |
| FieldCombination.CombineRows | Reconstructor.py:85-90 | the outer loop returns exactly the recombined matrix |
| FieldCombination.BCalc | Reconstructor.py:82-91 | `bCalc` returns the field recombined from `nCalc`'s index matrix and whistler data |
| FieldCombination.FieldCell | Reconstructor.py:88 | a `B` cell is present iff its whistler cell is, and then equals `w · N² · 100/9` |
| FieldCombination.CombineInverse | Reconstructor.py:88 | for `N ≠ 0` the whistler value is recovered as `B · 9/100 / N²` |
| FieldCombination.CombineExample | Reconstructor.py:88 | `w = 9`, `N = 2` give `B = 400` |
| FieldCombination.FieldProvenance | Reconstructor.py:82-114 | a present `B` cell has a present EFI sample and an SCM sample that survived every cleaning stage, and is computed from that EFI sample |

## Left out

- The `zScores` list that `outlierFinder` returns is not built. Its entries need the square root of `np.nanstd`. The test it feeds is modelled through the variance (`Stats.ZAtLeastIsZScoreTest`).
- The refractive-index formula `(fpe/f)·|fce/f − 1|^(−0.5)` of `nCalc` is a parameter, `refraction`, of `NCalc` and `BCalc`. Its fractional power and its infinity at `fce == f` are not modelled, and `N` is a matrix of reals.
- IEEE arithmetic beyond the missing marker is not modelled. This covers NaN and infinity produced by arithmetic, `nanmean` over an all-NaN window and its warning, and a NaN or infinite `N` inside `B`. A window without present values flags nothing, as NaN comparisons do.
- Floating-point rounding is not modelled. Values are exact reals, and the `np.linspace` query points are exactly `baseline + k`.
- Samples are taken as floats. With integer-typed SCM samples, line 18 builds an integer array, `np.full_like` at line 21 keeps that type, and writing NaN into it at line 43 raises an error; the model, whose cells hold reals, returns a result there instead.
- `np.array`, `.tolist()` and numpy broadcasting are not modelled. Matrices are sequences of equal-length rows, and the EFI block and the bar-removed matrix must have exactly the SCM data block's shape.
- Parameters the source accepts but never reads are dropped: `scmTimeList` and `efiTimeList` everywhere, and `efiList` in `purgeDataOutsideBounds`. `fpe_values` is computed there and ignored.
- Interpolation.FrequencyInterpolation: requires a non-empty parameter table; with none, `fTime[0]` at line 69 raises IndexError. `Pipeline.WellFormed`, and through it `BoundsFilter.PurgeDataOutsideBounds`, carry the same requirement.
- Interpolation.Interp: requires control times in non-decreasing order, which `np.interp` expects and does not check. The value-at-knot property additionally needs strictly increasing times, because a repeated control time makes `np.interp` return the later value.
- OutlierDetector.OutlierFinder: requires a non-empty, rectangular data block, which numpy needs to read `.shape` of a 2-D array.
- RowSuppressor.LeftoverBarRemover: requires a non-empty, rectangular matrix. A matrix with no columns gives a NaN percentage in numpy, which is not below 10, so its rows are "blanked" with no effect; the model does the same.
- The row suppressor follows the code (`Reconstructor.py:63-64`): a row with at least 10% present cells is blanked and a row below 10% is kept, as the comment at line 64 says.
- The window follows the code (`Reconstructor.py:31-32`). Edge rows use two rows, not the three that the comment at `Reconstructor.py:26-28` describes.
