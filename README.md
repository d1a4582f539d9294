# Canopy cover from drone RGB plots: a verified model

This project models, in Dafny, the pixel-level core of `rgb_drone_canopy_cover.py`. That script measures per-plot canopy cover from field-wide drone rasters. For each scan date and each plot id it clips the plot and can straighten it. It then whitens the background by an HSV range mask and counts the pixels that are not white. The count is expressed as a percentage of a pixel total that is captured once per run, from the first image processed.

The model has four parts, one module each:

- `Orientation` (`orientation.dfy`): the orientation scan of `rotate_plot`. It scans row 1 from column 0 and column 1 from row 0 for the first non-black pixel, keeping 0 when none is found. It then forms the ratio `(col - 1)/(row - 1)`, with the source's IndexError and ZeroDivisionError as `Err` results. The scans are `for` loops with `break`, proved against the specification function `FirstNonBlack`.
- `Segmentation` (`segmentation.dfy`): `mask_image`. It covers the inclusive `cv2.inRange` test, the masked copy (`cv2.bitwise_and`), and the overwrite of every all-zero pixel with white. That overwrite happens in place on an `array2` (a numpy boolean-index assignment, modelled as a `forall` statement).
- `Coverage` (`coverage.dfy`): `get_pixel_percent`. The nested counting loop counts non-white pixels, and the percentage `count / total_pixel * 100` is an exact `real`.
- `Pipeline` (`pipeline.dfy`): the loops of `main`. A class `Run` holds the set-once `total_pixel` / `total_pixel_set` pair and the table of `[date, id, percent]` rows. Its methods are the inner loop body, the inner loop over plot ids and the outer loop over rasters. They are proved against the predicate `Reached`, which states what a run over a sequence of (raster, plot id) pairs leaves behind.

`Pixels` (`pixels.dfy`) holds the 8-bit three-channel `Pixel`, `Black`, `White` and rectangular grids. `Results` (`results.dfy`) holds `Option` and `Result`.

Grids that the source only reads are `seq<seq<Pixel>>` values with `IsGrid`, which says every row has the width of the first, as in a numpy array. The buffer the source overwrites in place is an `array2<Pixel>`. OpenCV's RGB-to-HSV conversion is per-pixel and enters as a function parameter `toHsv: Pixel -> Pixel`.

Two behaviours of the code are worth stating plainly, because the model keeps them:

- `rotate_plot` scans row 1 and column 1 from index 0 and keeps 0 when a scan finds no non-black pixel; it reports no failure of its own. An image whose row 1 and column 1 are all black therefore gets the ratio 1 (`NoForegroundTilt`), and so does an image without a black margin (`UnmarginedImageTilt`). The only failure past the size check is Python's ZeroDivisionError when the column scan stops at row 1 (`TiltUndefinedIff`). An axis-aligned plot behind equal black margins of m rows and m columns never gets the ratio 0 (`AxisAlignedPlotTilt`); unequal margins can give 0, for instance no top margin and a one-column left margin (`LeftMarginOnlyTilt`).
- Failures are not isolated per plot or per date: an error raised for one plot ends the whole run. In the model the only such error on the run's path is a pixel total of 0, which can only happen when the very first image has no pixels; the run then ends with nothing recorded (`FreshRunFailure`, `MeasureRun`).

## Model

| member | source | states |
|---|---|---|
| `Orientation.FirstNonBlack` | rgb_drone_canopy_cover.py:142-150 | The result is the smallest index whose pixel is not black, and every earlier pixel is black. It is None exactly when the whole line is black. |
| `Orientation.ScanRow` | rgb_drone_canopy_cover.py:137-145 | The first loop returns the first non-black column of row 1, scanning from column 0, or 0 when the row is all black. |
| `Orientation.ScanColumn` | rgb_drone_canopy_cover.py:147-150 | The second loop returns the first non-black row of column 1, scanning from row 0, or 0 when the column is all black. |
| `Orientation.TiltRatio` | rgb_drone_canopy_cover.py:153 | Fails with DivisionByZero exactly when row == 1. Otherwise the value times (row - 1) equals col - 1. |
| `Orientation.Tilt` | rgb_drone_canopy_cover.py:137-153 | The ratio of an image fails with IndexOutOfRange if and only if the image has fewer than 2 rows or fewer than 2 columns. |
| `Orientation.EstimateTilt` | rgb_drone_canopy_cover.py:137-153 | rotate_plot up to the ratio. IndexOutOfRange when the image has fewer than 2 rows or columns; otherwise the ratio of the two scan results. |
| `Orientation.TiltFromFirstHits` | rgb_drone_canopy_cover.py:137-153 | If row 1 first turns non-black at column c and column 1 first turns non-black at row r, with r != 1, the ratio is (c - 1)/(r - 1). |
| `Orientation.TiltUndefinedIff` | rgb_drone_canopy_cover.py:147-153 | The ratio is a division by zero if and only if the image is at least 2x2, pixel (0,1) is black and pixel (1,1) is not. |
| `Orientation.UnmarginedImageTilt` | rgb_drone_canopy_cover.py:142-153 | When pixels (1,0) and (0,1) are both non-black, both scans stop at 0 and the ratio is 1. |
| `Orientation.NoForegroundTilt` | rgb_drone_canopy_cover.py:137-153 | When row 1 and column 1 are entirely black, both scans keep 0 and the ratio is 1, not an error. |
| `Orientation.AxisAlignedPlotTilt` | rgb_drone_canopy_cover.py:137-153 | For a foreground rectangle behind a black margin of m rows and m columns, the ratio is a division by zero when m = 1 and 1 otherwise; never 0. |
| `Orientation.LeftMarginOnlyTilt` | rgb_drone_canopy_cover.py:137-153 | A plot with no top margin and a one-column black left margin gets the ratio exactly 0. |
| `Segmentation.InRange` | rgb_drone_canopy_cover.py:186 | Inclusive per-channel test; a pixel can only match bounds that are not inverted and meet [0, 255] on every channel. |
| `Segmentation.KeepMasked` | rgb_drone_canopy_cover.py:188 | Where the mask is set the pixel is kept; otherwise the result is zero, so a non-zero result means the mask was set there. |
| `Segmentation.Whiten` | rgb_drone_canopy_cover.py:190 | The result is never black. A non-black pixel is unchanged; a black pixel becomes white. |
| `Segmentation.WhitenIdempotent` | rgb_drone_canopy_cover.py:190 | Applying the black-to-white overwrite a second time changes nothing. |
| `Segmentation.Segment` | rgb_drone_canopy_cover.py:186-190 | The original pixel when its HSV value is within [lower, upper] inclusively and it is not black; otherwise white. |
| `Segmentation.SegmentGrid` | rgb_drone_canopy_cover.py:186-190 | Same shape as the input, and each pixel is the segmentation of the input pixel at the same position. |
| `Segmentation.SegmentGridShape` | rgb_drone_canopy_cover.py:186-190 | A segmented rectangular grid is rectangular, keeps its rows and columns, and holds no black pixel. |
| `Segmentation.SegmentGridIdempotent` | rgb_drone_canopy_cover.py:184-190 | Segmenting the segmented grid again with the same bounds gives the same grid. |
| `Segmentation.WhitenBlack` | rgb_drone_canopy_cover.py:190 | In place: every pixel becomes the whitened value of its old value. Black becomes white and nothing else changes. |
| `Segmentation.MaskImage` | rgb_drone_canopy_cover.py:186-192 | A fresh array with the image's dimensions whose every pixel is the segmented input pixel. |
| `Coverage.NonWhiteInRow` | rgb_drone_canopy_cover.py:207-212 | The non-white count of a row is at most the row's length. |
| `Coverage.Percentage` | rgb_drone_canopy_cover.py:215 | ZeroDivisionError exactly when total_pixel is 0. Otherwise the value times total_pixel equals 100 times count. |
| `Coverage.GetPixelPercent` | rgb_drone_canopy_cover.py:195-217 | The nested loop counts exactly the non-white pixels, and the result is that count's percentage of the total passed in, not of the image's own size. |
| `Coverage.NonWhiteCount` | rgb_drone_canopy_cover.py:205-212 | The count of non-white pixels is at most the number of pixels visited. |
| `Coverage.GridCells` | rgb_drone_canopy_cover.py:207-212 | On a rectangular image the loops visit rows times columns pixels. |
| `Coverage.RowCountZeroIff` | rgb_drone_canopy_cover.py:207-212 | A row counts 0 if and only if every pixel of it is white. |
| `Coverage.CountZeroIff` | rgb_drone_canopy_cover.py:205-212 | An image counts 0 if and only if every pixel is white (both directions). |
| `Coverage.NoWhiteCountsAll` | rgb_drone_canopy_cover.py:207-212 | An image with no white pixel counts rows times columns. |
| `Coverage.PercentageMonotone` | rgb_drone_canopy_cover.py:215 | For a fixed positive total, a larger count never gives a smaller percentage. |
| `Coverage.PercentageWithinRange` | rgb_drone_canopy_cover.py:215 | A count no larger than the total gives a percentage in [0, 100]. |
| `Coverage.PercentageOfOwnArea` | rgb_drone_canopy_cover.py:207-215 | Measured against its own rows times columns, an image's percentage lies in [0, 100]. |
| `Pipeline.SegmentKeepsCount` | rgb_drone_canopy_cover.py:186-212 | If every pixel is white, or in range and not black, segmentation keeps the non-white count. |
| `Pipeline.SyntheticImageCoverage` | rgb_drone_canopy_cover.py:186-215 | Such a W x H image measured against W x H reads exactly (k / (W x H)) x 100 for its k non-white pixels. |
| `Pipeline.JobsOf` | rgb_drone_canopy_cover.py:268 | One pair per plot id of a raster, in plot order, each carrying the raster's date. |
| `Pipeline.Jobs` | rgb_drone_canopy_cover.py:254-268 | The nested loop visits exactly one pair per plot id of each raster: as many pairs as plot ids summed over the rasters. |
| `Pipeline.RecordOf` | rgb_drone_canopy_cover.py:286-298 | A row carries the pair's date and id, and its percent times the total is 100 times the pair's non-white count. |
| `Pipeline.RecordsFor` | rgb_drone_canopy_cover.py:268-298 | One record per pair, in pair order, all measured against the same total. |
| `Pipeline.BaselineAfter` | rgb_drone_canopy_cover.py:279-283 | Once the flag is set the total stays what it was; while unset, the first pair sets it to that pair's width x height. |
| `Pipeline.BaselineAfterAppend` | rgb_drone_canopy_cover.py:279-283 | Set-once: the total after pairs a then c equals the total after c when started from the flag and value that a left. |
| `Pipeline.Reached` | rgb_drone_canopy_cover.py:250-298 | A completed run adds exactly one row per pair to the table; a stopped run had at least one pair and leaves the table as it was. |
| `Pipeline.ReachedFromSet` | rgb_drone_canopy_cover.py:279-298 | Once a positive total is set, every later pair succeeds, the total never changes, and each pair's record is appended against it. |
| `Pipeline.ReachedCompose` | rgb_drone_canopy_cover.py:254-298 | A completed run over a followed by a run over c (completed or stopped) is the run over a + c. |
| `Pipeline.ReachedStopped` | rgb_drone_canopy_cover.py:285-286 | A run stopped by the division error stays stopped, whatever pairs would have followed. |
| `Pipeline.FreshRunRecords` | rgb_drone_canopy_cover.py:250-298 | From main's initial state, a completed run's total is the first image's width x height, which is positive. There is exactly one record per pair, in loop order, each measured against that total. |
| `Pipeline.FreshRunFirstPercent` | rgb_drone_canopy_cover.py:279-286 | The first record of a fresh run is measured against its own image, so it lies in [0, 100]. |
| `Pipeline.FreshRunFailure` | rgb_drone_canopy_cover.py:250-286 | A fresh run fails exactly when the first image has no pixels, and then it records nothing. |
| `Pipeline.Run.constructor` | rgb_drone_canopy_cover.py:248-251 | The run starts with the flag unset, the total 0 and the table empty. |
| `Pipeline.Run.ProcessPlot` | rgb_drone_canopy_cover.py:279-298 | The total is set only if unset, to this image's width x height. On success one record is appended against the total; on the division error nothing is appended. |
| `Pipeline.Run.ProcessScan` | rgb_drone_canopy_cover.py:268-298 | The inner loop over the plot ids reaches the state Reached describes for the raster's pairs. |
| `Pipeline.Run.ProcessAll` | rgb_drone_canopy_cover.py:254-298 | The outer loop over the rasters reaches the state Reached describes for all pairs in nested-loop order. |
| `Pipeline.MeasureRun` | rgb_drone_canopy_cover.py:250-298 | From a fresh run: it succeeds if and only if there are no pairs or the first image has pixels; then the table has one row per pair, in loop order, each measured against the first image's width x height; otherwise the table is empty. |

## Left out

- Command-line parsing, YAML loading, the directory glob, directory creation and CSV writing (`get_args`, `get_all_directories`, `write_to_file`, the start of `main`). These are I/O with no logic of their own.
- GeoJSON reading and reprojection (`read_geojson`), and the assertion that each raster's CRS matches the boundary layer's. These are calls into geopandas and rasterio.
- `crop_plot`: `rasterio.mask.mask` is a library call, and the rest writes files. The run takes each pair's clipped image as given.
- The `arctan` angle, PIL's `rotate`, `crop(getbbox())` and the image saves in `rotate_plot`. These are floating-point trigonometry and resampling. The model stops at the ratio.
- `cv2.imread`, the BGR-to-RGB swap and OpenCV's RGB-to-HSV arithmetic. The HSV value of a pixel is the parameter `toHsv`.
- IEEE rounding of the ratio and the percentage. Both are exact `real` quotients.
- The verbose printing in `main`.
- Pipeline.Run.ProcessAll: each pair is abstracted to PIL's (width, height) and its already segmented grid. The optional rotation step and its errors (the IndexError for images smaller than 2x2 and the ZeroDivisionError of the ratio) are modelled in `Orientation` but not threaded through the run. Neither is the image-file round trip.
- Pipeline.MeasureRun: an image with no pixels ends the run at the division by zero of the percentage; the real libraries (PIL, OpenCV) may already fail on reading such an image, which is not modelled.
- Coverage.GetPixelPercent: the `total` counter of the source is kept but carries no invariant, because nothing reads it.
