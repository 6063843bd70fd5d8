# Image Color Extractor — centre-region sampler, modelled in Dafny

This project models the core of the Image Color Extractor desktop utility.
The utility scans a folder of JPEG photographs. For each one it takes the
central rectangle (15 % of the width and of the height by default) and computes
seven integer statistics for each of the R, G and B channels: mean, median,
min, max, first and third quartile, and interquartile mean. It writes one
summary row per image and saves the cropped region as `<stem>_cropped<ext>`.

Modules:

- `Wrappers` (`wrappers.dfy`): the `Option` type. `None` stands for the sampler's `(None, None)` failure result.
- `Statistics` (`statistics.dfy`): the per-channel statistics, computed the way numpy computes them:
  - `np.mean`, and `np.median` (mean of the two middle samples).
  - `np.min` and `np.max`.
  - `np.percentile` with its default linear rule. The virtual index is h = (n − 1)·q/100. The upper index is clipped to n − 1.
  - The numpy boolean-mask selection used for the interquartile mean, and its fallback to the mean.
  - Every float-to-int conversion is `Trunc`, Python's truncation toward zero.
- `Sampler` (`sampler.dfy`): covers `get_middle_rectangle_rgb_stats`, in four parts:
  - The crop rectangle, exactly as lines 92-109 compute it.
  - The crop, as sub-grid selection. `getdata()` is flattening in row-major order.
  - The grayscale/RGBA channel normalisation.
  - The statistics record. `Sample` is the specification function. `GetMiddleRectangleRgbStats` is the method in the source's own shape: whole-array statistics first, then `IqrMeans`, a loop over the three channels that appends each interquartile mean.
- `Batch` (`batch.dfy`): the bookkeeping of `process_images`:
  - the case-insensitive `.jpg`/`.jpeg` filter;
  - the header and the 22-cell rows;
  - `os.path.splitext` and the `_cropped` name;
  - skip and save-failure notices;
  - the rule that a row is kept when its crop cannot be saved;
  - the rule that no workbook is written when there are no rows.

  `Run` is a fold of one loop iteration, `Step`, over the listing. Both take the per-file sampling call as a parameter, so the bookkeeping lemmas hold for any sampler. `Batch` and `ProcessImages` use the real one, `SampleEntry`. `ProcessImages` is the loop itself, proved equal to `Batch`.

Inputs the model takes as parameters instead of performing I/O:

- the directory listing: a sequence of `Entry` values, each carrying the file name, the decoded image (`None` when Pillow cannot open it) and whether writing its crop file succeeds;
- whether the folder is a directory;
- whether the workbook can be saved.

Numbers are exact. Pixel channels are integers in 0..255. numpy's doubles are exact reals. The default percentage 0.15 is the exact rational 15/100.

### The 1-pixel minimum (lines 101-103)

The code raises `rect_width`/`rect_height` to 1 only after `right` and `bottom`
have been computed from the unraised values, and nothing reads them afterwards.
The minimum therefore never reaches the crop box. The comment says the minimum
is there to avoid errors on very small images, so the evident intent is a 1×1
crop. As written, the code behaves differently:

- When floor(W·p) = 0 or floor(H·p) = 0, the box has zero width or height.
- The crop is then empty, and `np.min` raises on the empty array.
- The image is skipped: `Sample` returns `None`.

For example, a 3×3 image at 0.15 is skipped; it does not give a one-pixel sample (`ThreeByThreeSkipped`).
The model follows the code. `CorrectedRectangle` is the ordering the comment
intends. The lemmas beside it show that it always gives at least one pixel, and
that it differs from the code exactly in the degenerate case. It is a
comparison only: nothing else in the model uses it.

## Model

| member | source | states |
|---|---|---|
| Statistics.Trunc | image_color_extractor_app.py.py:92-147 | `.astype(int)` and `int(...)`: truncation toward zero; for x ≥ 0 it is the floor, for x ≤ 0 the ceiling (its own ensures) |
| Statistics.Mean | image_color_extractor_app.py.py:124 | `np.mean`: the exact sum over the count; MeanBounds keeps it within the samples' bounds |
| Statistics.Interpolate | image_color_extractor_app.py.py:130-131 | numpy's linear rule at virtual index k/100 of the sorted samples; InterpolateBetween and InterpolateMonotone bound it by its two neighbours and order it in k |
| Statistics.Percentile | image_color_extractor_app.py.py:130-131 | `np.percentile` for a whole-number q; MinMaxArePercentiles, MedianIsPercentile50 and PercentileMonotone relate it to min, max and median and order it in q |
| Statistics.Median | image_color_extractor_app.py.py:125 | `np.median`, defined independently of the percentile rule; MedianIsPercentile50 proves it is the 50th percentile |
| Statistics.IqrMean | image_color_extractor_app.py.py:138-145 | one pass of the IQR loop: the truncated mean of the samples in [lo, hi], else the fallback; IqrMeanCases, ChannelIqrMean and IqrMeanCountsDuplicates state both branches |
| Statistics.ChannelStatsOf | image_color_extractor_app.py.py:124-147 | the seven statistics of one channel; ChannelStatsOrdered, ChannelStatsAreFloors, ConstantChannel and IqrFallbackExample state their order, their exact values and the fallback |
| Sampler.MiddleRectangle | image_color_extractor_app.py.py:92-109 | the crop box as written, with the 1-pixel minimum never reaching it; BoxInsideImage, BoxCentred, DegenerateSampleFails and CorrectedAgreesUnlessDegenerate state its bounds, centring and degenerate case |
| Sampler.Flatten | image_color_extractor_app.py.py:115 | `getdata()`: the pixels in row-major order; FlattenLength gives its length, FlattenRowMajor puts pixel (y, x) at index y·w + x, and FlattenUniform gives its contents for a one-colour grid |
| Sampler.Normalise | image_color_extractor_app.py.py:118-121 | a single band is repeated three times, a fourth band is dropped; GrayChannelsIdentical and RgbaIgnoresAlpha state the effect on the statistics |
| Sampler.StatsOfPixels | image_color_extractor_app.py.py:124-157 | the statistics dictionary, one record per channel; SampleStatsOrdered and SolidImageStats state its properties on samples |
| Sampler.Sample | image_color_extractor_app.py.py:82-161 | the whole sampler, failure included; GetMiddleRectangleRgbStats is proved equal to it, and SampleSucceedsIffNonEmpty, SampleStatsOrdered and SolidImageStats state when it succeeds and what it returns |
| Batch.IsJpegName | image_color_extractor_app.py.py:197 | the case-insensitive `.jpg`/`.jpeg` filter; IsJpegNameCaseInsensitive and JpegNameExamples state that case does not matter, and RowsAreSampledJpegs and NoJpegsNothingProcessed that only names it accepts give rows or notices |
| Batch.LowerIdempotent | image_color_extractor_app.py.py:197 | `str.lower()` applied twice gives the same string as applied once |
| Batch.IsJpegNameCaseInsensitive | image_color_extractor_app.py.py:197 | a name passes the filter exactly when its lowercase form does |
| Batch.JpegNameExamples | image_color_extractor_app.py.py:197 | `a.JPG` and `b.Jpeg` pass the filter; `c.jpg.png` and `jpg` do not |
| Batch.CroppedName | image_color_extractor_app.py.py:216-217 | `f"{base}_cropped{ext}"` over Splitext; JpegCroppedName, HiddenStemCroppedName and HiddenJpegCroppedName give the result for visible and hidden JPEG names |
| Batch.SampleEntry | image_color_extractor_app.py.py:199 | the sampler call for one entry, a file Pillow cannot open giving the failure value; OneGoodOneCorrupt shows such a file skipped |
| Batch.CropSaveSucceeds | image_color_extractor_app.py.py:215-220 | whether `cropped_img.save` succeeds: only when the name has an extension for Pillow to pick a format from, and the file can be written; HiddenJpegCropNeverSaved shows a name without one always failing |
| Batch.Step | image_color_extractor_app.py.py:197-227 | one loop iteration; StepEffect states, case by case, what it appends to rows, crops and notices and that a non-JPEG entry changes nothing |
| Batch.Run | image_color_extractor_app.py.py:196-227 | the loop as a fold of Step over the listing; RowsAreSampledJpegs, CropsAreSavedSamples and NoticesAreFailures state exactly which rows, crops and notices it produces, and RowCount and RowsIgnoreSaveOutcome how they relate |
| Batch.Workbook | image_color_extractor_app.py.py:184-193 | the sheet `wb.save` writes at lines 241-245: the header and the rows, present only when the run completed; EmptyBatchWritesNothing states when it exists |
| Batch.Batch | image_color_extractor_app.py.py:164-238 | the run including the folder check and the empty-workbook case; ProcessImages is proved equal to it, and EmptyBatchWritesNothing and NoJpegsNoWorkbook state how it ends |
| Statistics.Sort | image_color_extractor_app.py.py:125-131 | the samples in ascending order: sorted, same length, same multiset |
| Statistics.Min | image_color_extractor_app.py.py:126 | `np.min` is a sample and no sample is smaller |
| Statistics.Max | image_color_extractor_app.py.py:127 | `np.max` is a sample and no sample is larger |
| Statistics.Between | image_color_extractor_app.py.py:141 | the mask selection keeps only samples in [lo, hi], keeps every such sample and invents none; each value in [lo, hi] occurs in it exactly as often as in the samples, and values outside occur zero times |
| Statistics.MeanBounds | image_color_extractor_app.py.py:124 | the exact mean of samples in [lo, hi] lies in [lo, hi] |
| Statistics.MinMaxArePercentiles | image_color_extractor_app.py.py:126-131 | `np.min` and `np.max` equal the 0th and 100th percentiles of the linear rule |
| Statistics.MedianIsPercentile50 | image_color_extractor_app.py.py:125-131 | `np.median` (middle sample or mean of the two middle samples) equals the linear-rule 50th percentile |
| Statistics.PercentileMonotone | image_color_extractor_app.py.py:130-131 | q ≤ q′ implies percentile(q) ≤ percentile(q′) |
| Statistics.ChannelStatsOrdered | image_color_extractor_app.py.py:124-147 | for 8-bit samples: 0 ≤ min ≤ q1 ≤ median ≤ q3 ≤ max ≤ 255, min ≤ mean ≤ max, min ≤ iqr_mean ≤ max |
| Statistics.ChannelStatsAreFloors | image_color_extractor_app.py.py:124-131 | mean, median, q1 and q3 are the floors of the exact mean, median and percentiles (truncation equals floor on non-negative values) |
| Statistics.IqrMeanCases | image_color_extractor_app.py.py:138-145 | if some sample lies in [lo, hi] the interquartile mean lies in [lo, hi]; if none does it is the fallback |
| Statistics.ChannelIqrMean | image_color_extractor_app.py.py:136-145 | with the channel's own q1/q3: some sample in [q1, q3] gives q1 ≤ iqr_mean ≤ q3; none gives iqr_mean = mean |
| Statistics.ConstantChannel | image_color_extractor_app.py.py:124-147 | when every sample equals c, all seven statistics equal c |
| Statistics.IqrMeanCountsDuplicates | image_color_extractor_app.py.py:141-143 | repeated samples all count: [1, 1, 4] with bounds [0, 4] gives iqr_mean 2, not 2.5 |
| Statistics.IqrFallbackExample | image_color_extractor_app.py.py:136-145 | samples {0, 10}: q1 = 2, q3 = 7, no sample lies between, so iqr_mean falls back to the mean 5 |
| Sampler.Crop | image_color_extractor_app.py.py:112 | the crop is (right − left) by (bottom − top), and pixel (y, x) of the crop is pixel (top + y, left + x) of the image |
| Sampler.FlattenRowMajor | image_color_extractor_app.py.py:115 | `getdata()` lists the pixels row by row: pixel (y, x) of a width-w grid is item y·w + x |
| Sampler.ChannelValues | image_color_extractor_app.py.py:124-137 | one channel's column `pixel_data[:, i]`, the samples the `axis=0` statistics and the IQR loop use: as many as the pixels, each that pixel's channel value, all in 0..255 |
| Sampler.IqrMeans | image_color_extractor_app.py.py:135-147 | the loop yields, for each of the three channels, the truncated mean of its samples in [q1, q3], or its mean when there are none |
| Sampler.GetMiddleRectangleRgbStats | image_color_extractor_app.py.py:82-161 | the method computes exactly the specification `Sample`: same failure cases, same crop, same seven statistics per channel |
| Sampler.BoxInsideImage | image_color_extractor_app.py.py:92-109 | for 0 < p ≤ 1: 0 ≤ left ≤ right ≤ W, 0 ≤ top ≤ bottom ≤ H, width floor(W·p), height floor(H·p), and the clamps change no coordinate |
| Sampler.BoxCentred | image_color_extractor_app.py.py:96-99 | left ≤ W − right ≤ left + 1 and top ≤ H − bottom ≤ top + 1 |
| Sampler.SampleSucceedsIffNonEmpty | image_color_extractor_app.py.py:92-161 | for 0 < p ≤ 1 sampling succeeds iff floor(W·p) ≥ 1 and floor(H·p) ≥ 1; on success the crop is that size and the statistics are those of its pixels in row-major order |
| Sampler.DegenerateSampleFails | image_color_extractor_app.py.py:98-126 | if floor(W·p) = 0 or floor(H·p) = 0 the result is the failure value: the 1-pixel minimum never reaches the box |
| Sampler.ThreeByThreeSkipped | image_color_extractor_app.py.py:92-112 | a 3×3 image at 0.15 gives the box (1, 1, 1, 1) and is skipped |
| Sampler.HundredSquareBox | image_color_extractor_app.py.py:92-109 | a 100×100 image at 0.15 gives the 15×15 box (42, 42, 57, 57) |
| Sampler.CorrectedRectangleNonEmpty | image_color_extractor_app.py.py:101-103 | applying the minimum before deriving the box gives at least 1×1 inside the image |
| Sampler.CorrectedAgreesUnlessDegenerate | image_color_extractor_app.py.py:92-109 | the corrected box equals the as-written box iff floor(W·p) ≥ 1 and floor(H·p) ≥ 1 |
| Sampler.SampleStatsOrdered | image_color_extractor_app.py.py:124-147 | every channel of a successful sample satisfies the ordering of the seven statistics and lies in 0..255 |
| Sampler.SolidImageStats | image_color_extractor_app.py.py:112-147 | in an image of one colour, every statistic of each channel equals that channel's value |
| Sampler.SolidRedSquare | image_color_extractor_app.py.py:92-147 | a solid (255, 0, 0) 100×100 image at 0.15: a 15×15 crop, all R statistics 255, all G and B statistics 0 |
| Sampler.GrayChannelsIdentical | image_color_extractor_app.py.py:118-119 | grayscale data is triplicated: the three channel records are identical and equal the band's statistics |
| Sampler.RgbaIgnoresAlpha | image_color_extractor_app.py.py:120-121 | four-band data gives the statistics of its first three bands whatever the fourth band holds |
| Batch.Splitext | image_color_extractor_app.py.py:216 | base + ext is the name; ext is empty or one dot followed by no dot and no '/'; ext is empty only when every dot of the base name is in its leading run of dots, and non-empty only when it starts in the base name after some non-dot character |
| Batch.RowOf | image_color_extractor_app.py.py:203-212 | the filename followed by 21 ints; cell 3k + c is statistic k (mean, median, min, max, q1, q3, iqr_mean) of channel c (R, G, B) |
| Batch.HeaderLabelsRow | image_color_extractor_app.py.py:184-193 | the header has one more cell than a row's values, and header cell 1 + 3k + c names statistic k and channel c |
| Batch.ProcessImages | image_color_extractor_app.py.py:164-250 | the loop over the listing computes exactly `Batch`: the rows, the saved crops, the notices and how the run ends |
| Batch.StepEffect | image_color_extractor_app.py.py:197-227 | a non-JPEG entry leaves everything unchanged; a JPEG appends a row exactly when sampled and a crop exactly when that crop's save succeeds; a failed sampling appends a skip notice, a failed save a save-failure notice under the `_cropped` name, and a saved crop no notice |
| Batch.NoticesAreFailures | image_color_extractor_app.py.py:214-227 | for any per-file sampler, the notices are exactly a skip for each JPEG that could not be sampled and a save failure for each sampled JPEG whose crop was not saved |
| Batch.RowsAreSampledJpegs | image_color_extractor_app.py.py:196-213 | for any per-file sampler, a row is produced exactly for the entries whose lowercase name ends in `.jpg`/`.jpeg` and whose sampling succeeded, and it holds that entry's name and statistics |
| Batch.RowCount | image_color_extractor_app.py.py:196-227 | one row per sampled entry; each row gives either a saved crop or a save-failure notice |
| Batch.RowsIgnoreSaveOutcome | image_color_extractor_app.py.py:213-224 | the rows do not depend on whether the crops could be saved |
| Batch.CropsAreSavedSamples | image_color_extractor_app.py.py:215-220 | for any per-file sampler, a crop is saved exactly for sampled entries whose save succeeds, under the `_cropped` name and with that entry's cropped image |
| Batch.EmptyBatchWritesNothing | image_color_extractor_app.py.py:229-238 | the workbook is written iff the folder exists, some row was produced and the save succeeds; no rows means no crops and no workbook |
| Batch.NoJpegsNothingProcessed | image_color_extractor_app.py.py:196-227 | with no `.jpg`/`.jpeg` names nothing is sampled and no row, crop or notice is produced |
| Batch.NoJpegsNoWorkbook | image_color_extractor_app.py.py:229-231 | an existing folder with no `.jpg`/`.jpeg` names ends as "nothing processed" with nothing written |
| Batch.OneGoodOneCorrupt | image_color_extractor_app.py.py:196-227 | one good JPEG and one undecodable `.jpg`: exactly one row (the good one) and a skip notice for the other |
| Batch.JpegCroppedName | image_color_extractor_app.py.py:216-217 | for a JPEG name without '/' whose stem before the `.jpg`/`.jpeg` suffix is not all dots, the cropped name is stem + `_cropped` + the original-case extension |
| Batch.HiddenStemCroppedName | image_color_extractor_app.py.py:216-217 | a hidden JPEG with a stem keeps its extension: `.x.jpg` is cropped to `.x_cropped.jpg` |
| Batch.HiddenJpegCroppedName | image_color_extractor_app.py.py:216-217 | for the name `.jpg` splitext finds no extension, so the crop is named `.jpg_cropped` |
| Batch.HiddenJpegCropNeverSaved | image_color_extractor_app.py.py:215-224 | a sampled `.jpg` never has its crop saved, whatever the file system allows: the step adds no crop and the notice for `.jpg_cropped` |

## Left out

- The Tkinter window, widgets, `browse_folder`, `messagebox` and `update_idletasks` (lines 10-79 and 253-259) are user interface. The status `StringVar` texts are reduced to the `Notice` values and the `Finish` value.
- Pillow decoding and `convert('RGB')` (lines 84-87) are foreign library calls. The decoded image is an input grid of (r, g, b) pixels, or `None` when opening fails.
- Pillow's `crop` (line 112) is foreign too. It is modelled as sub-grid selection. A box with right < left or bottom < top is a failure, which is what Pillow's `ValueError` gives. Crops that reach outside the image do not arise, because the clamps prevent them.
- `cropped_img.save` (line 220) is foreign. The encoded bytes are not modelled. Pillow's refusal of a path without an extension is modelled (`CropSaveSucceeds`); whether writing the file then succeeds is a per-entry input. Other format errors Pillow might raise are not modelled.
- openpyxl (lines 178-193, 213, 232-236, 245) is foreign. The sheet is the header plus the list of rows. The removal of the empty sheet and the dummy "Empty" sheet are not modelled, because nothing is saved in that case.
- File-system calls are I/O, so they are inputs rather than operations:
  - `os.path.isdir` is a boolean input.
  - `os.listdir` is the input listing, in whatever order it comes.
  - `os.makedirs` and `os.path.join` are not modelled.
- IEEE doubles are replaced by exact reals in `width * percentage` and in numpy's mean, median and percentile arithmetic. Where a double product rounds across an integer, the real program can truncate differently from the model.
- `str.lower()` is ASCII only. Non-ASCII case mappings are not modelled because Dafny strings have no Unicode case tables.
- `os.path.splitext` follows the POSIX rules. Windows drive letters and backslashes are not modelled.
- Only data with 1, 3 or 4 bands is modelled. After `convert('RGB')` the array always has three bands, so the grayscale and RGBA branches (lines 118-121) never run in the program. They are modelled as `Normalise` with their own lemmas. `GetMiddleRectangleRgbStats` always passes RGB data.
- An empty numpy array has `ndim == 1` and would take the grayscale branch. The model does not follow that path, because an empty crop fails at `np.min` either way.
- The truthiness test `if stats and cropped_img` (line 201) is taken as "sampling succeeded". A returned dictionary and a returned Pillow image are both truthy.
- Exceptions that escape `process_images` are not modelled. `ws_summary.append(row_data)` (line 213) is outside every `try`, and openpyxl refuses a cell string holding the control characters \x00-\x08, \x0b-\x0c or \x0e-\x1f, which Linux file names may contain. A decodable `a\x01.jpg` therefore aborts the whole run: no workbook, and the remaining files unprocessed. `os.makedirs` (line 175) and `os.listdir` (line 196) can raise in the same way. `Step` always appends the row and continues.
- The `print` diagnostics in the exception handlers (lines 160, 222) are output only.
- The exception text shown when the workbook save fails (line 249) is not modelled. That outcome is the `WorkbookSaveFailed` value.
