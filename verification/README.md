# LAMOST spectrum preparation, modelled in Dafny

This project models the spectrum-preparation stages of the LAMOST manifold
clustering pipeline.

- **Reading the catalogue spectra.** The pipeline visits the type
  directories A, F and G. It collects one record per observation id, the
  first one seen winning, and flattens the records into a table. The table
  has an `obsid` column, a `type` column and three column families:
  `wavelength_<i>`, `flux_<i>` and `ivar_<i>`. A separate filter drops points
  whose inverse variance (ivar) is below a fraction of the median.
- **Masking noisy points.** For every row the threshold is the NaN-ignoring
  median ivar times a ratio. Each point whose ivar is below the threshold or
  not finite has its three cells set to NaN.
- **Normalising flux.** There are two versions of this stage. Each first
  validates the table and then rewrites the flux family of each row with
  standardised values. The data-pipeline version also skips rows with a
  negative ivar and raises negative fluxes to 0 first.
- **Resampling onto a wavelength grid.** There are three variants, all
  sharing one per-row shape. Each masks NaN points, checks coverage, builds an
  integer grid, interpolates linearly and passes the result through a quality
  gate that counts why it rejects a spectrum. The variants are:
  - an adaptive grid from the ceiling of the first wavelength to the floor of
    the last, interpolated strictly;
  - the fixed 3700–9000 Å grid, interpolated with extrapolation switched on;
  - a configurable grid with NaN filled in outside the samples, written cell
    by cell into a frame.

Linear interpolation follows scipy's two code paths. The extrapolating mode
evaluates scipy's own segment formula. The strict and NaN-filling modes go
through `np.interp`, which returns a sample's own value at a sample point and
retries a NaN result from the other end of the segment. The two agree on
finite samples but not next to an infinite one.

Samples are `Values.Val`: a real, NaN, or a signed infinity. Comparisons
follow numpy, so every comparison with NaN is false. A table is a
`Tables.Table` value. It records whether the id columns exist, the width of
each family, and its rows. The pandas writes `df.loc[idx, col] = v` and
`df.loc[idx, cols] = s` are the functions `SetCell` and `SetFamily`.
`SetCell` appends a column filled with NaN when the column is new.

Each stage's row loop is a method proved against a specification function.
Its counters are a `Resampler.Tally` value, and its result is tied to
`TallyOf`, `KeptOf`, `Frame`, `Denoise`, `Dedup` or `Normalized`. Lemmas then
state what the source promises about those functions.

The modules are:

- `Values`, `Stats`, `Masking`, `Interpolation`, `Grids`: the numpy and scipy
  pieces.
- `Tables`, `Validation`, `Resampler`: shared by the stages.
- One module per core source file: `DataInterpolate`, `FixedInterpolate`,
  `AlignWavelength`, `ProcessNoise`, `SpectraRead`, `DataNormalize` and
  `Normalize`.

Two behaviours of the source worth knowing:

- The adaptive stage never checks for an empty input table
  (src/data/interpolate_spectra.py:33-64). An empty table ends as
  `NothingInterpolated`.
- The adaptive stage labels its columns from the leftover `min_wl`
  (src/data/interpolate_spectra.py:170): the start of the last row that
  reached line 97, kept or not (see Findings).

## Model

| member | source | states |
|---|---|---|
| Masking.DropNaNPointsSpec | src/data/interpolate_spectra.py:74-77 | after masking, wavelength, flux and ivar have equal length, keep their original order, and hold exactly the positions where none of the three is NaN |
| Masking.DropNaNPointsPresent | src/interpolate_spectra.py:70-73 | no NaN survives the mask and the three masked sequences have equal length |
| Masking.SelectIsKept | src/spectra_read.py:38-40 | boolean indexing keeps exactly the positions where the mask holds, in ascending order, one value per true mask entry |
| Masking.MaskedOrdered | src/data/interpolate_spectra.py:74-77 | masking an ordered row leaves finite, strictly increasing wavelengths |
| Stats.SortVals | src/data/process_noise.py:48 | the sort behind the median is an ordered permutation of the non-NaN input |
| Stats.Insert | src/data/process_noise.py:48 | inserting into an ordered sequence gives an ordered sequence holding the old values plus the new one |
| Stats.Median | src/spectra_read.py:29 | `np.median`: NaN for an empty input or any NaN, else the middle of the sorted values; `MedianWithin` bounds it and `SpectraRead.NaNIvarDropsAll` shows one NaN making it NaN |
| Stats.NanMedian | src/data/process_noise.py:48 | `np.nanmedian`: the median of the values that are not NaN; `NanMedianWithin` bounds it |
| Stats.MedianWithin | src/spectra_read.py:29 | the median of reals in [lo, hi] is a real in [lo, hi] |
| Stats.NanMedianWithin | src/data/process_noise.py:48 | when some value is present and every present value is in [lo, hi], the NaN-ignoring median is a real in [lo, hi] |
| Stats.MinOf | src/data/interpolate_spectra.py:97 | `wl.min()` is an element of the samples and at most each of them |
| Stats.MaxOf | src/data/interpolate_spectra.py:98 | `wl.max()` is an element of the samples and at least each of them |
| Interpolation.Linear | src/interpolate_spectra.py:83-86 | scipy's extrapolating formula on the segment `searchsorted` picks; `LinearAtSample`, `LinearBetween`, `LinearFiniteInside` and `LinearNotNegative` state what it gives |
| Interpolation.NpInterp | src/data/interpolate_spectra.py:111-116 | `np.interp`, which the strict and NaN-filling modes use; `NpInterpAtSample`, `NpInterpMatchesLinear`, `NpInterpFiniteInside` and `NpInterpNotNegative` state what it gives |
| Interpolation.Evaluate | src/align_wavelength.py:77-82 | the interpolator at every grid point succeeds exactly when the mode is not strict or every grid point lies within the samples, and then gives one value per grid point; `EvaluateAt` and `ModesAgreeInside` give the values |
| Interpolation.SearchSorted | src/data/interpolate_spectra.py:111-116 | the position found splits the samples into those below `x` and those at or above it |
| Interpolation.SegmentBrackets | src/data/interpolate_spectra.py:111-116 | inside the samples, the segment chosen for `x` brackets `x` |
| Interpolation.LinearBetween | src/interpolate_spectra.py:83-86 | inside the samples, a finite value of scipy's extrapolating formula lies between the two finite samples that bracket it |
| Interpolation.LinearFiniteInside | src/interpolate_spectra.py:83-86 | inside the samples, finite samples give a finite value of scipy's extrapolating formula |
| Interpolation.LinearNotNegative | src/interpolate_spectra.py:83-94 | inside the samples, if no sample is negative then scipy's extrapolating formula gives no negative value |
| Interpolation.LinearAtSample | src/interpolate_spectra.py:83-86 | with finite samples, scipy's extrapolating formula passes through every sample |
| Interpolation.NpInterpAtSample | src/data/interpolate_spectra.py:111-116 | `np.interp`, which the strict and NaN-filling modes use, returns a sample's own value at every sample point, whatever its neighbours hold |
| Interpolation.NpInterpMatchesLinear | src/interpolate_spectra.py:83-86 | inside finite samples, `np.interp` and scipy's extrapolating formula give the same value |
| Interpolation.NpInterpFiniteInside | src/align_wavelength.py:77-82 | inside finite samples, `np.interp` gives a finite value |
| Interpolation.NpInterpNotNegative | src/data/interpolate_spectra.py:111-136 | inside the samples, if no sample is negative then `np.interp`, retry included, gives no negative value |
| Interpolation.ModesDifferAtInfinity | src/interpolate_spectra.py:83-86 | with samples (3799.5, +inf), (3800, 1), (3801, 1), the strict and NaN-filling modes give 1 at 3800 while the extrapolating mode gives NaN |
| Interpolation.ModesAgreeInside | src/interpolate_spectra.py:83-86 | when every grid point lies within the samples, the strict mode does not raise and gives the NaN-filling mode's values; on finite samples the extrapolating mode gives them too |
| Interpolation.FillNaNMarksOutside | src/align_wavelength.py:77-82 | with finite samples, the NaN-filling mode yields NaN exactly at the grid points outside the samples |
| Interpolation.EvaluateAt | src/data/interpolate_spectra.py:111-116 | the strict mode succeeds only with every grid point within the samples, and then gives `np.interp` there; the extrapolating mode gives scipy's formula at every grid point |
| Grids.ArangeSpec | src/data/interpolate_spectra.py:108 | `np.arange` holds, in increasing order, exactly the points `start + k*step` below `stop` |
| Grids.UnitGridSpec | src/data/interpolate_spectra.py:108 | the unit grid from `lo` to `hi` holds the integers `lo..hi`, `hi - lo + 1` of them |
| Grids.FixedGridSpec | src/interpolate_spectra.py:23-24 | the fixed grid is the 5301 integers 3700..9000 |
| Grids.StepGridEnds | src/align_wavelength.py:36 | the configurable grid starts at the minimum and its last point is at or above the maximum, less than one step beyond it; the last point equals the maximum exactly when the step divides the span |
| Tables.Table.SetFamily | src/data/normalize_flux.py:157 | writing one row's whole family changes that family of that row and nothing else |
| Tables.Table.SetCell | src/align_wavelength.py:91-93 | a `.loc` cell write sets one cell; for a new column it appends the column with NaN in every other row; nothing else changes |
| Tables.Table.AddColumn | src/align_wavelength.py:91-93 | a new last column holds the value in the written row and NaN everywhere else |
| Validation.StructuralFailureSpec | src/data/normalize_flux.py:25-52 | the structural checks pass exactly when both id columns, a column of each family and a row exist; an empty table is reported only after the column checks pass |
| Validation.CountRowsPositive | src/data/normalize_flux.py:80-82 | a row counter is positive exactly when some row qualifies |
| Resampler.Waves | src/data/interpolate_spectra.py:74-77 | the masked wavelengths of an ordered row are increasing reals matching the masked flux and ivar point for point |
| Resampler.EndsOfIncreasing | src/data/interpolate_spectra.py:97-98 | the smallest and largest of increasing samples are the first and the last |
| Resampler.MaskedFromRow | src/data/interpolate_spectra.py:74-77 | every masked flux and ivar value is a value of the row |
| Resampler.Gate | src/data/interpolate_spectra.py:124-146 | a spectrum is accepted exactly when no value is NaN or infinite and, where checked, no ivar is negative; NaN/infinity is reported before a negative ivar; an accepted spectrum is unchanged, so negative flux passes |
| Resampler.TallyBalances | src/data/interpolate_spectra.py:58-151 | every row is counted once as kept or skipped; the skipped count is the sum of the three reason counters plus the caught exceptions |
| Resampler.TallyCounts | src/data/interpolate_spectra.py:117-136 | the negative-ivar counter counts negative-ivar rejections; the failed-interpolation counter counts out-of-bounds and NaN/infinity rejections |
| Resampler.KeptIndicesSpec | src/data/interpolate_spectra.py:143-146 | the kept positions are as many as the accepted counter, ascending, and include every accepted row |
| Resampler.KeptOfAt | src/data/interpolate_spectra.py:143-146 | kept spectrum `k` has the id, type and accepted values of the row at kept position `k` |
| Resampler.KeptOfSpec | src/data/interpolate_spectra.py:143-146 | the kept spectra are exactly the accepted rows, in row order, one per accepted count, each with its row's id, type and values |
| DataInterpolate.Resample | src/data/interpolate_spectra.py:66-146 | an accepted spectrum has as many ivar as flux values, at least one, all finite, no ivar negative; `Gates`, `AcceptedPassedChecks` and `AcceptedSpectrum` state when a row is accepted and what it holds |
| DataInterpolate.Gates | src/data/interpolate_spectra.py:83-105 | a row is skipped for too few points exactly when fewer than 3000 survive the mask; with enough points, it is skipped for its range exactly when `floor(max) - ceil(min) < 1000`, so a span of exactly 1000 passes |
| DataInterpolate.UnitGridWithin | src/data/interpolate_spectra.py:97-108 | every point of the grid `ceil(min)..floor(max)` lies within the samples |
| DataInterpolate.GridInside | src/data/interpolate_spectra.py:97-116 | when a row has masked points, every point of its grid `ceil(min)..floor(max)` lies within its masked samples |
| DataInterpolate.StrictNeverRaises | src/data/interpolate_spectra.py:108-121 | the strict interpolator never raises, so no row is counted for a failed interpolation because of bounds |
| DataInterpolate.AcceptedPassedChecks | src/data/interpolate_spectra.py:83-146 | an accepted row passed the point count, the span check and the strict interpolation, and its outcome is the gate's verdict on the interpolated values |
| DataInterpolate.AcceptedSpectrum | src/data/interpolate_spectra.py:97-146 | an accepted row holds `np.interp` of its masked flux and ivar at each whole Ångström from `ceil(min)` to `floor(max)`, more than 1000 values, all finite, no ivar negative |
| DataInterpolate.OnUnitGrid | src/data/interpolate_spectra.py:108-116 | strict evaluation on the unit grid gives one value per whole Ångström, each `np.interp` there |
| DataInterpolate.NoNegativeIvarRejection | src/data/interpolate_spectra.py:111-136 | if no input ivar is negative, no row is rejected for a negative interpolated ivar |
| DataInterpolate.ResampleRows | src/data/interpolate_spectra.py:65-151 | the row loop's counters, kept spectra and final `min_wl` are those of the per-row outcomes |
| DataInterpolate.LastMinAt | src/data/interpolate_spectra.py:97 | `min_wl` is defined after the loop once any row was accepted |
| DataInterpolate.KeptRow | src/data/interpolate_spectra.py:143-146 | kept spectrum `k` is the id, type and interpolated values of an accepted row |
| DataInterpolate.KeptRange | src/data/interpolate_spectra.py:97-116 | kept spectrum `k` has one value per whole Ångström of a span of at least 1000 Å |
| DataInterpolate.KeptPassedGate | src/data/interpolate_spectra.py:124-146 | every kept spectrum has as many ivar as flux values, all finite, no ivar negative |
| DataInterpolate.KeptCount | src/data/interpolate_spectra.py:143-146 | one spectrum is kept per accepted row |
| DataInterpolate.MaxLen | src/data/interpolate_spectra.py:156 | the padding width is the length of the longest kept flux |
| DataInterpolate.PadRows | src/data/interpolate_spectra.py:157-162 | a new zero array with row `i` overwritten from its first cell by spectrum `i` |
| DataInterpolate.PaddedShape | src/data/interpolate_spectra.py:156-177 | every padded row is as wide as the labels; the labels count up by 1 Å from the start, as many as the longest spectrum has values |
| DataInterpolate.PaddedRow | src/data/interpolate_spectra.py:157-175 | padded row `k` holds spectrum `k`'s id, type and values from the first column, then zeros |
| DataInterpolate.PaddedClean | src/data/interpolate_spectra.py:157-185 | padding gate-passed spectra keeps every value finite and no ivar negative |
| DataInterpolate.InterpolateSpectra | src/data/interpolate_spectra.py:33-191 | the stage's column checks, row loop, padding, labels and final check give the stage result |
| DataInterpolate.Interpolate | src/data/interpolate_spectra.py:33-191 | the stage end to end; `Tallied`, `FinalCheckPasses` and `WrittenTable` state its result |
| DataInterpolate.Tallied | src/data/interpolate_spectra.py:33-167 | a missing family is reported before a missing id column; past those checks every row is counted once as kept or skipped, and nothing is written exactly when no row was kept |
| DataInterpolate.FinalCheckPasses | src/data/interpolate_spectra.py:182-185 | the final negative-ivar check never refuses to save |
| DataInterpolate.WrittenTable | src/data/interpolate_spectra.py:153-191 | the written table has one row per accepted spectrum; accepted plus skipped is the row count; every row is as wide as the labels, which are more than 1000 consecutive whole Ångströms from the final `min_wl`; every cell is finite and no ivar is negative |
| DataInterpolate.ColumnsFollowLastStart | src/data/interpolate_spectra.py:160-177 | as written: spectrum `k`'s first columns hold its interpolant from its own start, while column `j` is labelled with the final `min_wl` plus `j` |
| DataInterpolate.MislabelledWhenStartsDiffer | src/data/interpolate_spectra.py:170-177 | as written: when two kept spectra start at different whole Ångströms, one of them has its first column labelled with a wavelength other than the one its value was interpolated at |
| DataInterpolate.KeptRanges | src/data/interpolate_spectra.py:97-98 | the start and end of each kept spectrum, in kept order |
| DataInterpolate.OnGridCell | src/data/interpolate_spectra.py:156-177 | corrected layout: column `j` is labelled with the smallest start plus `j`; it holds each spectrum's own value for that wavelength inside its range and zero outside |
| DataInterpolate.CommonGrid | src/data/interpolate_spectra.py:156-177 | corrected output: one id, type, flux row and ivar row per kept spectrum |
| DataInterpolate.AcceptedAt | src/data/interpolate_spectra.py:115-116 | an accepted row's value at whole Ångström `x` of its range is `np.interp` of its samples at `x` |
| DataInterpolate.CommonGridLabelsMatch | src/data/interpolate_spectra.py:170-177 | corrected: on the common grid every label is the wavelength its column was computed at; a cell holds the row's interpolant at the label inside the row's range and zero outside |
| FixedInterpolate.Head | src/interpolate_spectra.py:37-46 | the stage reads the first 3909 columns of each family, keeping id and type |
| FixedInterpolate.SelectedOrdered | src/interpolate_spectra.py:44-46 | reading the first 3909 columns keeps each row ordered |
| FixedInterpolate.Resample | src/interpolate_spectra.py:62-99 | an accepted spectrum has 5301 finite flux and 5301 finite ivar values; a row is rejected only through the caught exception, for an incomplete range or for NaN/infinity, never for a negative ivar or as out of bounds |
| FixedInterpolate.CoverageGate | src/interpolate_spectra.py:76-80 | a non-empty masked row is rejected as incomplete exactly when its first wavelength is above 3700 or its last below 9000; an empty one is skipped through the caught exception, not as incomplete |
| FixedInterpolate.ExtrapolationUnused | src/interpolate_spectra.py:83-86 | a covering row has at least two samples and every target wavelength lies within them, so the strict interpolator would not raise; on finite masked samples the extrapolating values equal the strict ones |
| FixedInterpolate.AcceptedIff | src/interpolate_spectra.py:76-99 | a row is kept exactly when it covers 3700–9000 Å and every value of scipy's extrapolating formula is finite; it is never rejected for a negative ivar or as out of bounds |
| FixedInterpolate.AcceptedSpectrum | src/interpolate_spectra.py:83-99 | an accepted row holds 5301 finite values per family, scipy's extrapolating formula at 3700 + j |
| FixedInterpolate.ResampleRows | src/interpolate_spectra.py:61-108 | the row loop's counters and kept spectra are those of the per-row outcomes |
| FixedInterpolate.NoIvarOrBoundsRejections | src/interpolate_spectra.py:88-94 | the negative-ivar counter stays 0; the failed-interpolation counter counts exactly the NaN/infinity rejections |
| FixedInterpolate.InterpolateSpectra | src/interpolate_spectra.py:24-127 | the stage's column selection, row loop and output table give the stage result |
| FixedInterpolate.Interpolate | src/interpolate_spectra.py:24-127 | the stage end to end; `Tallied`, `WrittenTable` and `WrittenRowsFromInput` state its result |
| FixedInterpolate.Tallied | src/interpolate_spectra.py:35-117 | the stage fails only for a missing column; otherwise every row is counted once as kept or skipped, nothing is written exactly when no row was kept, and the written table has one row per kept spectrum |
| FixedInterpolate.WrittenTable | src/interpolate_spectra.py:110-127 | one row per accepted spectrum; accepted plus skipped is the row count; 5301 finite values per family under the labels 3700..9000 |
| FixedInterpolate.WrittenRowsFromInput | src/interpolate_spectra.py:96-126 | written row `k` is the id and type of the `k`-th accepted input row, in input order, and its 5301 flux and 5301 ivar values are scipy's extrapolating formula through that row's masked samples at 3700 + j |
| AlignWavelength.DefaultGrid | src/align_wavelength.py:15-36 | the default grid has 5301 points from 3700 to 9000 |
| AlignWavelength.CommonLength | src/align_wavelength.py:60 | the common length is the smallest family width |
| AlignWavelength.Trimmed | src/align_wavelength.py:55-63 | every row is cut to the common length, keeping id, type and wavelength order |
| AlignWavelength.Align | src/align_wavelength.py:55-87 | an aligned row has one flux and one ivar value per grid point, none NaN; a row is removed only for fewer than two points or a NaN value; `AlignedValues` and `AlignedIffCovers` state the rest |
| AlignWavelength.AlignedValues | src/align_wavelength.py:66-87 | a kept row had at least two points; every grid point lies within its samples; its values are `np.interp` at the grid points, none NaN |
| AlignWavelength.AlignedIffCovers | src/align_wavelength.py:77-87 | with finite samples, a row is kept exactly when its samples reach down to the first grid point and up to the last; when the step divides the span, exactly when they reach the configured minimum and maximum |
| AlignWavelength.Outcomes | src/align_wavelength.py:52-87 | one outcome per trimmed row |
| AlignWavelength.TargetStep | src/align_wavelength.py:91-93 | one `.loc` write moves one family of the frame one cell on |
| AlignWavelength.WaveStep | src/align_wavelength.py:91 | writing `wavelength_<i>` moves the frame on by one wavelength cell |
| AlignWavelength.FluxStep | src/align_wavelength.py:92 | writing `flux_<i>` moves the frame on by one flux cell |
| AlignWavelength.IvarStep | src/align_wavelength.py:93 | writing `ivar_<i>` moves the frame on by one ivar cell |
| AlignWavelength.PartialStep | src/align_wavelength.py:90-93 | the three writes for grid point `i` move the frame from `i` written points to `i + 1` |
| AlignWavelength.WriteRow | src/align_wavelength.py:90-93 | the cell-by-cell loop leaves the row holding the grid and its values, other rows widened with NaN |
| AlignWavelength.FrameStep | src/align_wavelength.py:89-95 | writing a kept row moves the frame on by one row |
| AlignWavelength.FrameSkip | src/align_wavelength.py:72-87 | a removed row leaves the frame as it was |
| AlignWavelength.IdFrame | src/align_wavelength.py:40-42 | the frame starts with every input row's id and type and no columns |
| AlignWavelength.AlignRows | src/align_wavelength.py:52-100 | the row loop's counters and frame are those of the per-row outcomes |
| AlignWavelength.AlignTable | src/align_wavelength.py:15-104 | the stage fails exactly when the id or type column is missing; otherwise every row is counted once as valid or removed and stays in the frame; `AlignedFrame` states the frame's contents |
| AlignWavelength.AlignWavelengths | src/align_wavelength.py:15-104 | the stage's grid, id frame and row loop give the stage result |
| AlignWavelength.AlignedFrame | src/align_wavelength.py:40-100 | every input row stays in the frame, in order, with its id and type; a kept row holds the grid and its non-NaN `np.interp` values; a removed row holds only NaN; valid plus removed is the row count |
| AlignWavelength.FrameTypes | src/align_wavelength.py:40-42 | the frame keeps the input rows' types |
| AlignWavelength.RetentionAlwaysFull | src/align_wavelength.py:111-119 | as written: the per-type retention is 100% for every type present and NaN for an absent one; the overall retention exists exactly when the input has a row |
| AlignWavelength.RetentionIgnoresRemovals | src/align_wavelength.py:115-119 | as written: when a row of a type is removed, the logged retention of that type is still 100% while the share actually kept is below 100% |
| AlignWavelength.KeptOfType | src/align_wavelength.py:115-119 | corrected: the kept rows of a type are at most the rows of the type |
| AlignWavelength.OfTypePositive | src/align_wavelength.py:115-119 | a type's row count is positive exactly when the type occurs |
| AlignWavelength.AllKeptOfType | src/align_wavelength.py:115-119 | corrected: the kept count of a type equals its row count exactly when every row of the type is kept |
| AlignWavelength.KeptRetentionSpec | src/align_wavelength.py:115-119 | corrected: the kept share of a type exists exactly when the type occurs, lies in [0, 100], and is 100 exactly when every row of the type is kept |
| ProcessNoise.Threshold | src/data/process_noise.py:48-51 | the row's NaN-ignoring ivar median times the ratio; `SurvivorsAboveThreshold` states that every ivar left in place is at least it |
| ProcessNoise.Denoise | src/data/process_noise.py:34-81 | the copy with every row cleaned; `CleanRowCells` and `DenoiseKeepsShape` state which cells become NaN and that nothing else changes |
| ProcessNoise.KeepMask | src/data/process_noise.py:48-54 | one mask entry per ivar |
| ProcessNoise.Scrub | src/data/process_noise.py:60-70 | scrubbing keeps the family's length |
| ProcessNoise.ScrubFamily | src/data/process_noise.py:60-70 | one per-family loop sets to NaN exactly the masked-out positions of that family of that row |
| ProcessNoise.ScrubRow | src/data/process_noise.py:60-70 | the three loops scrub the row's flux, ivar and wavelength families with the mask |
| ProcessNoise.CleanedStep | src/data/process_noise.py:42-70 | cleaning row `n` moves the copy on by one row and adds that row's dropped points to the counter |
| ProcessNoise.ProcessSpectraNoise | src/data/process_noise.py:34-81 | the saved copy is the denoised table and `removed_points` counts every dropped position |
| ProcessNoise.CleanRowCells | src/data/process_noise.py:54-70 | a position is NaN in all three families exactly when its ivar is not finite or is below the row's threshold; every other cell, id and type are as in the input |
| ProcessNoise.DenoiseKeepsShape | src/data/process_noise.py:34-81 | no flag, width, row count, id or type changes |
| ProcessNoise.SurvivorsAboveThreshold | src/data/process_noise.py:54-66 | every ivar left in place is finite and at least its row's threshold |
| ProcessNoise.DroppedAreNaN | src/data/process_noise.py:57-66 | a row's dropped positions are exactly its NaN ivars after scrubbing |
| ProcessNoise.RemovedIsNaNCount | src/data/process_noise.py:57 | `removed_points` is the number of NaN ivar cells in the output |
| SpectraRead.FilterLowSnr | src/spectra_read.py:15-42 | `filter_low_snr_data`; `FilterSpec` states what it returns and when it fails |
| SpectraRead.SnrMask | src/spectra_read.py:35 | one mask entry per ivar |
| SpectraRead.FilterSpec | src/spectra_read.py:28-42 | the filter fails exactly on arrays of different lengths; otherwise it returns three equal-length sequences holding, in order, the values at exactly the positions whose ivar is at least the threshold, no longer than the input |
| SpectraRead.AtLeastMedianSurvives | src/spectra_read.py:29-35 | with a ratio in [0, 1] and a non-negative median, every point whose ivar is at least the median survives |
| SpectraRead.ScaledBelow | src/spectra_read.py:32 | a non-negative median scaled by a ratio in [0, 1] is at most the median |
| SpectraRead.RatioZeroKeepsAll | src/spectra_read.py:32-40 | with ratio 0 and every ivar finite and non-negative, nothing is removed |
| SpectraRead.ZeroThresholdKeepsAll | src/spectra_read.py:32-35 | with ratio 0 every finite non-negative ivar passes the mask |
| SpectraRead.NaNIvarDropsAll | src/spectra_read.py:29-40 | one NaN ivar makes the median, hence the threshold, NaN, and nothing survives |
| SpectraRead.Tag | src/spectra_read.py:52-61 | the files of a directory are visited in order, each with the directory's type |
| SpectraRead.Dedup | src/spectra_read.py:61-90 | `all_data` after the given visits; `DedupSpec` states that the ids are distinct, every readable file's id is collected, and each record is the first file with its id |
| SpectraRead.DedupSpec | src/spectra_read.py:49-90 | the collected records have pairwise different ids; every readable file's id is collected; each record is the first readable file with its id in visiting order |
| SpectraRead.DedupDistinct | src/spectra_read.py:68-90 | collected ids are pairwise different |
| SpectraRead.DedupComplete | src/spectra_read.py:61-90 | every readable file's id is collected |
| SpectraRead.DedupFirst | src/spectra_read.py:61-90 | each record is what the first readable file with its id yielded |
| SpectraRead.DedupStep | src/spectra_read.py:68-90 | one more readable file is appended exactly when its id is new |
| SpectraRead.IdsAppend | src/spectra_read.py:90 | collecting a record adds its id to `processed_obsids` |
| SpectraRead.VisitsStep | src/spectra_read.py:52-56 | a missing type directory adds no visits; an existing one adds its files |
| SpectraRead.CollectFiles | src/spectra_read.py:61-98 | the inner loop continues the deduplication over one directory's files and keeps `processed_obsids` equal to the collected ids |
| SpectraRead.CollectRecords | src/spectra_read.py:48-98 | `all_data` is the deduplicated records of the files in visiting order |
| SpectraRead.FlattenRecord | src/spectra_read.py:105-118 | the dictionary loop for one record gives its id, type and cells below its wavelength length, or fails on a shorter flux or ivar |
| SpectraRead.Widest | src/spectra_read.py:121 | every row fits within the widest wavelength array |
| SpectraRead.ToFrame | src/spectra_read.py:121 | the DataFrame built from the row dictionaries is well formed with one row per dictionary |
| SpectraRead.FlatRows | src/spectra_read.py:105-118 | the flattened rows, one per record in order, each with equal family widths |
| SpectraRead.FlatRowsFail | src/spectra_read.py:113-116 | one short record makes the whole flattening fail |
| SpectraRead.FlatRowsFailWitness | src/spectra_read.py:113-116 | when the flattening fails, some record is short |
| SpectraRead.ToFrameRow | src/spectra_read.py:121 | frame row `k` holds row `k`'s id, type and cells, then NaN up to the widest row |
| SpectraRead.FrameRow | src/spectra_read.py:105-121 | frame row `k` holds record `k`'s id and type, its cells below its wavelength length, and NaN after |
| SpectraRead.ReadSpectra | src/spectra_read.py:45-122 | a saved frame is well formed with one row per collected record |
| SpectraRead.ProcessSpectraData | src/spectra_read.py:45-122 | collecting, flattening and framing give the stage result |
| SpectraRead.SavedWhen | src/spectra_read.py:100-122 | a frame is saved exactly when some record was collected and no record's flux or ivar is shorter than its wavelengths |
| SpectraRead.SavedFrame | src/spectra_read.py:100-122 | the saved frame has one row per collected record, the id columns, and pairwise different ids |
| SpectraRead.SavedRows | src/spectra_read.py:105-121 | saved row `k` holds record `k`'s id, type and cells below its wavelength length, NaN after |
| DataNormalize.Validate | src/data/normalize_flux.py:15-88 | the verdict of `validate_data`; `ValidateIff` and `DisjointCounts` state when it passes and what the counts hold |
| DataNormalize.NewFlux | src/data/normalize_flux.py:135-157 | a row's new flux, or none when it is skipped; `RowOutcome` and `OnlyFluxChanges` state what it gives |
| DataNormalize.ValidateData | src/data/normalize_flux.py:15-88 | the structural checks, then the counting loop, give the verdict |
| DataNormalize.ValidateIff | src/data/normalize_flux.py:54-88 | validation passes exactly when the structure is complete and some row has data in each family and no negative ivar (a NaN ivar is not negative); then the valid count is positive and the two counts fit in the row count |
| DataNormalize.DisjointCounts | src/data/normalize_flux.py:65-75 | no row is counted both as valid and for a negative ivar |
| DataNormalize.Clip | src/data/normalize_flux.py:144 | clipping keeps the length |
| DataNormalize.ClipSpec | src/data/normalize_flux.py:141-144 | after clipping nothing is negative; non-negative values, NaN included, are untouched; clipping is idempotent |
| DataNormalize.NormalizedStep | src/data/normalize_flux.py:128-166 | processing row `n` moves the copy and `skipped_spectra` on by one row |
| DataNormalize.NormalizeFluxData | src/data/normalize_flux.py:98-170 | validation, the copy and the row loop give the stage result |
| DataNormalize.OnlyFluxChanges | src/data/normalize_flux.py:117-170 | flags, widths, row count, ids, types, wavelengths and ivars of the saved copy are the input's |
| DataNormalize.RowOutcome | src/data/normalize_flux.py:134-157 | a row with a negative ivar is left exactly as it was and is skipped; any other row whose standardised values fit gets the standardisation of its clipped flux |
| DataNormalize.SkippedCount | src/data/normalize_flux.py:120-166 | `skipped_spectra` is at least the validation's negative-ivar count, and equals the number of negative-ivar rows when every standardisation fits |
| Normalize.Validate | src/normalize_flux.py:14-77 | the verdict of `validate_data`; `ValidateIff` states when it passes |
| Normalize.NewFlux | src/normalize_flux.py:115-128 | a row's new flux, or none when the standardised values do not fit; `OnlyFluxChanges` states what it gives |
| Normalize.ValidateData | src/normalize_flux.py:14-77 | the structural checks, then the counting loop, give the verdict |
| Normalize.ValidateIff | src/normalize_flux.py:53-77 | validation passes exactly when the structure is complete and some row has data in each family, whatever the sign of its ivars |
| Normalize.NormalizedStep | src/normalize_flux.py:112-136 | processing row `n` moves the copy on by one row |
| Normalize.NormalizeFluxData | src/normalize_flux.py:89-140 | validation, the copy and the row loop give the stage result |
| Normalize.OnlyFluxChanges | src/normalize_flux.py:102-140 | only flux cells change; every row whose standardised values fit gets them, negative ivars included |

## Left out

- Reading and writing CSV and FITS files, logging, progress messages, the
  per-type log summaries and the noise-filter info file are not modelled. The
  stages take and return tables and records as values.
- A FITS file is given as what reading it yields: the header's observation id
  and the first row of the data table's three arrays, or `Unreadable` for
  any exception. The order in which `glob` lists a directory is part of the
  input.
- The observation id is an integer. A string id from a FITS header is not
  modelled.
- Floating-point rounding and overflow are not modelled. Values are reals
  with NaN and signed infinities, and `ceil` and `floor` are exact.
  `np.interp` divides by the segment width where scipy's formula multiplies
  by its reciprocal; on reals the two are the same.
- scipy's `interp1d` sorts its samples by wavelength and divides by zero on
  repeated wavelengths. The model instead takes as a precondition that the
  present wavelengths of every row are finite and strictly increasing
  (`Masking.Ordered`).
- DataInterpolate.InterpolateSpectra: requires ordered wavelengths in every
  row (see above); an unordered row is not modelled.
- FixedInterpolate.InterpolateSpectra: requires ordered wavelengths in every
  row (see above).
- AlignWavelength.AlignWavelengths: requires ordered wavelengths and a
  positive integer step. A zero or negative step, and non-integer grid
  parameters, are not modelled.
- AlignWavelength.AlignedIffCovers: states the cover condition only for rows
  whose masked flux and ivar are finite, the case in which it holds.
- DataNormalize.NormalizeFluxData: the z-score (NaN-ignoring mean and
  standard deviation, with the zero-deviation branch) is the parameter
  `standardise`. Only its length matters to the model: a result that does
  not fit the flux columns is the pandas error the handler catches.
- Normalize.NormalizeFluxData: the same standardisation parameter.
- The order in which pandas places new columns is not modelled. Each family
  is kept as its own sequence of cells, both for the aligner's interleaved
  `.loc` writes and for the DataFrame built from the record dictionaries.
- The statistics logged after a file has been written are not modelled. The
  noise stage divides by zero on a table without rows or flux columns. The
  data normalisation stage takes `np.min` of an empty array when a star type
  is absent. src/spectra_read.py:125-134 only logs.
- The exception handlers in both `validate_data` loops, in the noise loop
  and in the aligner's row loop (src/align_wavelength.py:97-100) cannot be
  reached with the value model, because `pd.to_numeric(...,
  errors='coerce')` and `astype(float)` on values already numeric do not
  raise. They are not modelled as separate outcomes.
- `filter_low_snr_data` is modelled on its own. `process_spectra_data` does
  not call it.
- The adaptive stage's 0-length check (src/data/interpolate_spectra.py:90-94)
  is unreachable after the 3000-point check, and the model has no branch for
  it.

## Findings

| source | as written | input that shows it | evidently intended | confidence | as-written member | corrected member |
|---|---|---|---|---|---|---|
| src/data/interpolate_spectra.py:170 | the column labels count from `min_wl` as the last row reaching line 97 left it, while each kept spectrum is stored from column 0 starting at its own `ceil(min)` | two kept spectra whose masked wavelengths start at 3800.0 Å and 3801.0 Å: one of them has column 0 labelled with a wavelength other than the one its first value was interpolated at | every column labelled with the wavelength its values were computed at, each spectrum placed on one common grid from the smallest start to the largest end | not executed; high | DataInterpolate.MislabelledWhenStartsDiffer | DataInterpolate.CommonGridLabelsMatch |
| src/align_wavelength.py:116-119 | the per-type retention divides the rows of the type in `aligned_df` by those in `df`, but `aligned_df` holds every input row | a table with one type-A row whose samples do not reach down to 3700 Å: that row is removed, yet the type-A retention is logged as 100% | the share of the type's rows that were kept | not executed; medium | AlignWavelength.RetentionIgnoresRemovals | AlignWavelength.KeptRetentionSpec |
