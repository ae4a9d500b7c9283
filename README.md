# Sentinel-1 / Sentinel-2 pair selection and window preprocessing

This project models the numeric core of a small remote-sensing pipeline.
The pipeline picks the Sentinel-1 (radar) and Sentinel-2 (optical) catalog
products whose footprints overlap most. It then turns one 4000 x 4000 window
of each scene into analysis-ready rasters:

- the radar VH band becomes a speckle-filtered backscatter grid in decibels,
  plus a normalised texture patch;
- the optical red and near-infrared bands become an NDVI grid, cloud-masked
  with the scene classification layer (SCL).

Modules:

- `Results` (`results.dfy`): `Option` and `Result`.
- `Raster` (`raster.dfy`): raster cells (a number or NaN, written
  `NoData`), grid shapes, digital-number scaling, `nan_to_num`, and the two
  Python slicing forms the scripts use: `g[lo:hi, lo:hi]` and
  `g[::step, ::step]`.
- `Selection` (`selection.dfy`): the best-overlap scan over every
  (radar, optical) pair. It is an imperative nested loop. The polygon
  library is kept abstract: footprint, intersection, emptiness and area are
  given functions.
- `Radar` (`sentinel1.dfy`): calibration, decibels, and the two in-place
  masked assignments on a 2-D array: the range mask and the re-mask after
  filtering. It also covers the Lee speckle filter, the every-5th-pixel
  view, the 200 x 200 texture patch and its min-max normalisation. The
  copies between grids and arrays (`Radar.FromGrid`, `Radar.ToGrid`) stand
  for no statement of the script: numpy builds each result array from an
  expression.
- `Optical` (`sentinel2.dfy`): reflectance scaling, NDVI, the
  nearest-neighbour SCL resample onto the band grid, and the cloud mask.
  This code is pure, so the model is made of functions and lemmas.

Float32 values are modelled as exact reals. NaN is the `NoData` cell. The
routines the scripts borrow from numerical libraries are parameters of the
model: `log10`, scipy's 5 x 5 `uniform_filter` and `np.var`.

Two behaviours of the code are worth knowing, and the model follows the code:

- A texture patch with at least one cell and no spread (max == min) is not
  rejected. Lines 168-169 of `preprocessing/Sentinel-1_Processing.py` divide
  0 by 0 and raise nothing: every defined cell becomes NaN
  (`Radar.NormalizeFlatPatch`). Only a zero-size patch raises: `np.nanmin`
  of line 168 stops with `ValueError` when the window has 1000 or fewer rows
  or columns (`Radar.Normalize`, `Radar.WindowHasCell`).
- NDVI lies in the closed range [-1, 1]. In exact arithmetic the 1e-10
  epsilon of line 103 of `preprocessing/Sentinel-2_Processing.py` keeps it
  strictly inside (-1, 1) for non-negative reflectances (`Optical.NdviCell`).
  In float32 the epsilon is absorbed once a reflectance reaches 2^-9, so a
  pixel with red 0 and NIR 0.2 reads exactly 1.0 (see "## Left out").

## Model

| member | source | states |
|---|---|---|
| Selection.SelectBestPair | ingestion/Data_Ingestion.py:121-140 | Three outcomes. The scan fails with ZeroAreaFootprint exactly when some intersecting pair has an optical footprint of area 0, because the score's division raises. It fails with NoOverlapFound exactly when no pair scores above 0 and none divides by zero. Otherwise it returns the pair of largest overlap, and of the pairs tied at that overlap the first in radar-major scan order, because the update uses a strict `>`. |
| Selection.FirstBestUnique | ingestion/Data_Ingestion.py:124-137 | The largest overlap with the first-wins tie-break names exactly one pair, so the selection is determined by the inputs. |
| Selection.OverlapPercent | ingestion/Data_Ingestion.py:133 | With non-negative areas and an intersection no larger than the optical footprint, the score lies in [0, 100]. It is 0 exactly when the intersection has no area, and 100 exactly when the intersection is as large as the optical footprint. |
| Selection.OverlapSwap | ingestion/Data_Ingestion.py:133 | The score is not symmetric. Swapping radar and optical rescales it by the ratio of their footprint areas. |
| Raster.Scale | preprocessing/Sentinel-1_Processing.py:51 | Dividing the digital numbers by 10000 keeps the window's shape. Each scaled cell times the divisor gives back its digital number. |
| Raster.ScaleUnitScene | preprocessing/Sentinel-1_Processing.py:104 | A window whose digital numbers are all 10000 calibrates to linear sigma0 1.0 everywhere. |
| Raster.ScaleNonNegative | preprocessing/Sentinel-2_Processing.py:95-96 | Unsigned digital numbers scale to non-negative reflectances. |
| Radar.Decibels | preprocessing/Sentinel-1_Processing.py:61 | The dB conversion keeps the shape, and each cell is the defined value 10 * log10(sigma0 + 1e-10) of its own input cell. |
| Radar.DecibelArgumentPositive | preprocessing/Sentinel-1_Processing.py:61 | For non-negative sigma0 the logarithm of line 61 is only ever taken of a positive number, so it stays finite and defined. |
| Radar.RangeMask | preprocessing/Sentinel-1_Processing.py:71-72 | After the two masking statements, a cell is kept exactly when it is defined and within [-40, 5] dB, bounds included. Every other cell is NaN. |
| Radar.MaskWhere | preprocessing/Sentinel-1_Processing.py:71 | The in-place masked assignment `a[cond(a)] = nan` leaves the array equal to the cell-wise mask of its old contents. NaN cells are never selected. |
| Radar.MaskRange | preprocessing/Sentinel-1_Processing.py:107-108 | The two in-place assignments on the processing window leave exactly the range mask of the old contents. |
| Raster.FillNoData | preprocessing/Sentinel-1_Processing.py:121 | `nan_to_num(nan=-40)` leaves no NaN. It keeps defined values and puts the fill value in every NaN cell. |
| Radar.MaskLike | preprocessing/Sentinel-1_Processing.py:131 | A cell is NaN wherever the reference has NaN and unchanged everywhere else. |
| Radar.MaskWhereNoData | preprocessing/Sentinel-1_Processing.py:131 | The in-place re-mask leaves the filtered array equal to its old contents with the old NaN positions of the masked dB window imposed on it. |
| Radar.Weight | preprocessing/Sentinel-1_Processing.py:129 | Corrected weight (0 where the variances sum to 0; see Findings). The adaptive weight lies in [0, 1) for a non-negative local variance and a positive overall variance. It is 0 on a locally flat window and 1 when only the overall variance is 0. |
| Radar.LeeCell | preprocessing/Sentinel-1_Processing.py:129 | Corrected weight. A cell whose local variance is 0 becomes its local mean. A cell equal to its local mean is unchanged. |
| Radar.LeeCellBetween | preprocessing/Sentinel-1_Processing.py:129 | With a positive overall variance, the filtered cell lies between its local mean and its input: the filter pulls toward the mean and never past it. |
| Radar.LeeCellAsWritten | preprocessing/Sentinel-1_Processing.py:129 | The expression as numpy evaluates it is NaN exactly when both variances are 0. Otherwise it equals the corrected cell. |
| Radar.ConstantWindowAsWrittenIsNoData | preprocessing/Sentinel-1_Processing.py:129 | For a constant window, the code as written yields NaN while the corrected filter returns the constant. |
| Radar.LeeFilter | preprocessing/Sentinel-1_Processing.py:126-129 | Corrected weight. The filter keeps the window's shape. Each cell is the Lee combination of its value, its box mean and the local variance `mean_sq - mean**2`. |
| Radar.LeeFilterBetween | preprocessing/Sentinel-1_Processing.py:123-129 | Over the whole window, with non-negative local variances and a positive overall variance, every filtered cell lies between its local mean and its input. |
| Radar.LeeFilterConstant | preprocessing/Sentinel-1_Processing.py:129 | Corrected weight. A constant window whose box mean is that constant passes through the corrected filter unchanged; line 129 as written turns such a window to NaN when both variances are 0 (see Findings). |
| Radar.Despeckle | preprocessing/Sentinel-1_Processing.py:121-131 | The despeckled window is NaN exactly where the masked dB window is NaN, so the -40 fill never shows. Each defined cell is the Lee combination of its own dB value with the box statistics of the filled window. |
| Raster.EveryNthAt | preprocessing/Sentinel-1_Processing.py:84 | `s[::step]` has ceil(n / step) elements, and element k is `s[k * step]`. |
| Raster.DownsampleAt | preprocessing/Sentinel-1_Processing.py:82-84 | The downsampled view has ceil(rows / 5) x ceil(cols / 5) cells, and cell (i, j) is source cell (5i, 5j). |
| Raster.Slice | preprocessing/Sentinel-1_Processing.py:141-142 | Python slicing clamps both bounds to the length, so the slice is empty when the range is reversed or starts past the end. Element k is the source element lo + k. |
| Raster.WindowInside | preprocessing/Sentinel-1_Processing.py:166 | When the grid reaches `hi` on both axes, `g[lo:hi, lo:hi]` is (hi - lo) x (hi - lo) and is the grid shifted by lo. |
| Radar.TexturePatchShape | preprocessing/Sentinel-1_Processing.py:166 | The texture patch of a window at least 1200 pixels on a side is 200 x 200. It is the filtered window shifted by 1000 on both axes. |
| Radar.RowValues | preprocessing/Sentinel-1_Processing.py:168-169 | The collected values are exactly the defined cells of a row, in both directions. |
| Radar.DefinedValues | preprocessing/Sentinel-1_Processing.py:168-169 | The collected values are exactly the defined cells of the grid, which is what `nanmin` and `nanmax` range over. |
| Radar.MinOf | preprocessing/Sentinel-1_Processing.py:168-169 | The minimum is an element of the sequence and no larger than any element. |
| Radar.MaxOf | preprocessing/Sentinel-1_Processing.py:168-169 | The maximum is an element of the sequence and no smaller than any element. |
| Radar.LowestIsMin | preprocessing/Sentinel-1_Processing.py:168-169 | The value of a lowest defined cell is the patch's `nanmin`. |
| Radar.HighestIsMax | preprocessing/Sentinel-1_Processing.py:169 | The value of a highest defined cell is the patch's `nanmax`. |
| Radar.Normalize | preprocessing/Sentinel-1_Processing.py:168-169 | Normalising fails with `EmptyPatch` exactly when the patch has no cell, as `np.nanmin` raises `ValueError` on a zero-size array. Otherwise the result keeps the shape, each cell is rescaled by the patch's own defined minimum and maximum, and NaN stays NaN. |
| Radar.NormalizeInUnitRange | preprocessing/Sentinel-1_Processing.py:168-169 | When the patch has a spread, normalising succeeds, NaN positions are kept and every defined cell maps into [0, 1]. |
| Radar.NormalizeMinMax | preprocessing/Sentinel-1_Processing.py:168-169 | When a lowest and a highest defined cell differ, normalising succeeds; the lowest maps to exactly 0 and the highest to exactly 1. |
| Radar.NormalizeFlatPatch | preprocessing/Sentinel-1_Processing.py:168-169 | A patch with at least one cell and no spread (all defined cells equal, or none defined) raises nothing and normalises to all NaN. |
| Radar.ProcessWindow | preprocessing/Sentinel-1_Processing.py:98-131 | Corrected weight. The radar steps run in order on one window of digital numbers: calibrate, convert to dB, mask the range in place, filter, and re-mask in place. The filtered array equals the despeckled masked dB window, the view equals its every-5th-pixel downsample, and the texture equals the normalised [1000:1200, 1000:1200] patch of the filtered array. The texture step fails exactly when the window has 1000 or fewer rows or columns. |
| Radar.WindowHasCell | preprocessing/Sentinel-1_Processing.py:166-168 | The [1000:1200, 1000:1200] patch of a rows x cols window has a cell exactly when rows and cols both exceed 1000. |
| Optical.NdviDenominatorPositive | preprocessing/Sentinel-2_Processing.py:103 | For non-negative reflectances the NDVI denominator is positive, so the division never fails. |
| Optical.NdviCell | preprocessing/Sentinel-2_Processing.py:103 | For non-negative reflectances the NDVI lies strictly inside (-1, 1). It is 0 when the two bands are equal. |
| Optical.NdviSingleBand | preprocessing/Sentinel-2_Processing.py:103 | A pixel with only NIR reads within epsilon / x below +1. A pixel with only red reads within epsilon / x above -1. |
| Optical.NdviOfDigitalNumbers | preprocessing/Sentinel-2_Processing.py:95-103 | NDVI of the scaled bands equals NDVI of the raw digital numbers with epsilon scaled by 10000: scaling changes only the weight of epsilon. |
| Optical.Ndvi | preprocessing/Sentinel-2_Processing.py:103 | The NDVI grid has the bands' shape and is computed pixel by pixel from the two bands. |
| Optical.NearestIndex | preprocessing/Sentinel-2_Processing.py:128-134 | The nearest source pixel of any output pixel is always in range. |
| Optical.NearestDoubling | preprocessing/Sentinel-2_Processing.py:124-134 | Stretching n pixels over 2n picks source pixel i / 2: each source pixel covers a 2 x 2 block. |
| Optical.Resample | preprocessing/Sentinel-2_Processing.py:128-134 | The resampled SCL has exactly the requested shape. Each pixel is copied from its nearest source pixel, so every resampled code already occurs in the source and no class value is invented. |
| Optical.SclWindowDoubles | preprocessing/Sentinel-2_Processing.py:120-134 | The 2000 x 2000 SCL window resampled onto the 4000 x 4000 band window repeats every SCL pixel over a 2 x 2 block. |
| Optical.CloudMask | preprocessing/Sentinel-2_Processing.py:147 | A pixel is masked exactly when its class is 3, 8, 9, 10 or 11. |
| Optical.ApplyMask | preprocessing/Sentinel-2_Processing.py:150 | The masked NDVI is NaN exactly at masked pixels and equals the NDVI elsewhere. |
| Optical.AllExcludedMasksAll | preprocessing/Sentinel-2_Processing.py:147-150 | A classification made only of excluded classes masks every pixel. |
| Optical.NoneExcludedKeepsNdvi | preprocessing/Sentinel-2_Processing.py:147-150 | A classification with no excluded class leaves the NDVI untouched. |
| Optical.ProcessBands | preprocessing/Sentinel-2_Processing.py:95-150 | The two bands fail with ShapeMismatch exactly when their shapes differ. Otherwise every NDVI value lies strictly inside (-1, 1) and equals the NDVI of the digital numbers. The masked grid is NaN exactly where the resampled class is excluded, and equals the NDVI elsewhere. |

## Left out

- The product search, authentication and download code, and the ZIP, glob and GeoTIFF reading and writing: I/O, not modelled. The model starts from the catalog lists and from the raster windows as grids.
- `main.py` is not part of this model. It runs the ingestion script, then starts the radar script in the background, runs the optical script meanwhile, and finally waits for the radar script: the two preprocessing scripts run at the same time. That process orchestration is not modelled.
- The footprint polygons and their intersection, emptiness and area: kept abstract as the `Geometry` parameter. Areas are whatever the polygon library returns, planar areas in squared degrees.
- `log10`, scipy's 5 x 5 `uniform_filter` (its edge mode included) and `np.var`: given functions, not modelled numerically.
- Float32 rounding is not modelled; exact reals stand in. In particular, rounding can make a box-filter local variance slightly negative, and then `variance + overall_variance` can be 0 with a non-zero numerator, giving ±inf. The model reads the weight as 0 whenever the two variances sum to 0, where line 129 gives NaN (0/0) or ±inf (non-zero over 0).
- Plotting, figure saving and the progress printouts are output only.
- The GLCM texture statistics (lines 171-184 of `preprocessing/Sentinel-1_Processing.py`) are not modelled. They are a library call on the normalised patch.
- The first radar read (lines 44-76) repeats the window read of lines 98-108 on the same 4000 x 4000 window. `Radar.ProcessWindow` takes the every-5th-pixel view from the one masked dB window.
- The [1000:1500, 1000:1500] display patches (lines 141-142) only feed plots. They are covered by the generic `Raster.Slice` and `Raster.WindowInside`.
- Optical.ProcessBands: any difference in the two bands' shapes is reported as ShapeMismatch. Numpy's broadcasting of size-1 dimensions, which would let some differing shapes through, is not modelled.
- Optical.ProcessBands: requires a non-empty SCL window, which the 2000 x 2000 read always provides.
- Optical.Resample: uses the pixel-centre nearest-neighbour rule. It is exact for the script's 2x case; skimage's tie rounding for other scale factors may pick the neighbouring pixel.
- Radar.Despeckle: uses the corrected Lee weight, which reads 0/0 as 0. The code as written is `Radar.LeeCellAsWritten`; see Findings.
- Radar.ProcessWindow: its filtered array is `Radar.Despeckle` of the masked dB window, with the corrected Lee weight. On a constant window with no no-data (digital numbers all 10000, say) it keeps the constant, where lines 129-131 as written leave NaN in every cell.
- Radar.Weight, Radar.LeeCell, Radar.LeeFilter, Radar.LeeFilterConstant: state the corrected Lee weight, not line 129 as written. They differ from the code exactly where the two variances sum to 0: there the code gives NaN or ±inf. For a constant window the code gives NaN everywhere instead of passing the constant through.
- Radar.Decibels: the given `log10` is total, so a negative sigma0 gets a defined value. numpy's `log10` gives NaN there, and -inf at 0. Neither happens for the unsigned digital numbers the script reads, which scale to non-negative sigma0.
- Optical.NdviCell, Optical.NdviSingleBand, Optical.ProcessBands: the strict bound -1 < NDVI < 1 holds in exact reals only. In float32 the 1e-10 epsilon is absorbed once a reflectance reaches 2^-9 (a digital number of 20 or more), and a single-band pixel then reads exactly +1 or -1. The code's range is the closed [-1, 1].

## Findings

| source | as written | input that shows it | evidently intended | confidence | as-written member | corrected member |
|---|---|---|---|---|---|---|
| preprocessing/Sentinel-1_Processing.py:129 | The weight `variance / (variance + overall_variance)` is 0/0 = NaN when both variances are 0, so every cell of the filtered window becomes NaN. | A window with no no-data whose digital numbers are all 10000 (0 dB everywhere): both the local and the overall variance are 0. | A locally flat cell has weight 0 and passes through as its local mean, which for a constant window is the constant itself. | medium; not executed | Radar.LeeCellAsWritten | Radar.LeeCell |
