# Windowed temporal median of Sentinel-2 bands

This project models the compositing engine in `image_process.py`. It combines several versions of the same Sentinel-2 band into one cloud-reduced band. The model has two parts.

- **`MedianMerger.merge`** takes a stack of versions × rows × cols of uint16 pixels. At every pixel it drops the zero values, which mean "no data". It then takes the median of the remaining values and casts it back to uint16, so the .5 of an even count is truncated. A pixel that is 0 in every version stays 0. In the model this is the pure function `MedianMerger.Merge`. `MedianMerger.MergePixel` handles one pixel. The median is `OrderStatistics.Median`: the mean of the two middle values of the sorted values, rounded down.
- **`WindowImageProcessor.window`** builds the output band in several steps:
  - It allocates a zeroed `img_shape_w × img_shape_h` buffer.
  - It walks down the rows with `range(0, img_shape_w, window_size_row)`.
  - For each window it fills a stack with the same row range of every version. rasterio's windowed read clips that range to the image.
  - It merges the stack and writes the merged rows into the buffer.

  In the model this is the class `WindowProcessor.WindowImageProcessor`. Its `Window` method loops over a `array2<Pixel>`. `ProcessWindow` is one step of that loop. `FillStack` fills an `array<Image>` stack in its own loop. `AssignRows` is the numpy slice assignment, as nested loops. The band files are given as a sequence of images, one per version, in directory-listing order.

The properties proved:

- **The median.** A merged pixel is the median of the pixel's nonzero values. It is characterised by ranks, independently of the sorting function that defines it.
  - It is 0 exactly when every version is 0.
  - Otherwise it lies between the smallest and the largest nonzero value, so the cast back to uint16 cannot overflow.
  - It does not depend on the order of the versions.
  - With two versions it is the truncated mean, or the nonzero value when the other is 0. With three nonzero versions it is the middle value.
- **The windows.** The window starts are 0, ws, 2·ws, … up to `img_shape_w`, and each window has height `min(ws, rows left)`. The windows are contiguous, disjoint and cover every row. Merging a window's stack gives the same pixels as merging the full versions.
- **The main theorem.** The buffer `Window` returns is the pixelwise merge of the full versions, so windowing does not change the result. `Scenarios` checks this on the cases of `tests/unit/test_image_process.py`, including the 5 × 5 windowing test.

The expected values of the windowing test (tests/unit/test_image_process.py:127-131) are those of the zero-excluding median: in row 2 the values {0, 3} give 3, not the plain median 1.

## Model

| member | source | states |
|---|---|---|
| `OrderStatistics.Sort` | image_process.py:110 | the values the median is taken over, ascending: a sorted permutation of the input |
| `OrderStatistics.Median` | image_process.py:110 | the median of a non-empty collection lies between its minimum and maximum |
| `OrderStatistics.SortHasRank` | image_process.py:110 | entry i of the sorted values has rank i: at most i entries are below it and more than i are at most it |
| `OrderStatistics.RankUnique` | image_process.py:110 | at most one value has a given rank |
| `OrderStatistics.SortedUnique` | image_process.py:110 | two sorted sequences with the same multiset of values are equal |
| `OrderStatistics.MedianByRank` | image_process.py:101-104 | the median is the mean, rounded down, of the values of rank (n-1)/2 and n/2; for odd n it is the middle value |
| `OrderStatistics.MedianPermutation` | image_process.py:110 | the median depends only on the multiset of values |
| `MedianMerger.NonZero` | image_process.py:108 | the values that carry data: the input multiset with every 0 removed, none of them 0 |
| `MedianMerger.NonZeroEmpty` | image_process.py:97-99 | no value carries data exactly when every version is 0 |
| `MedianMerger.MergePixel` | image_process.py:108-111 | the merged pixel is 0 iff every version is 0; otherwise it lies between a nonzero version value and a version value, so it fits uint16 |
| `MedianMerger.Merge` | image_process.py:108-111 | the output has the shape of one version, and each output pixel is the merge of that pixel's values across the versions |
| `MedianMerger.MergeZeroAndBounds` | image_process.py:110-111 | at each (row, col) the output is 0 iff every version is 0 there; otherwise it lies between the smallest nonzero and the largest version value there |
| `MedianMerger.MergePixelByRank` | image_process.py:101-111 | the merged pixel is the truncated mean of the nonzero values of rank (n-1)/2 and n/2, or the middle nonzero value for odd n |
| `MedianMerger.MergePixelPermutation` | image_process.py:108-110 | the merged pixel does not depend on the order of the versions |
| `MedianMerger.MergeTwo` | image_process.py:101-111 | two versions: a 0 is ignored, otherwise the mean rounded down ({1,3}→2, {1,2}→1, {0,3}→3, {0,0}→0) |
| `MedianMerger.MergeThree` | image_process.py:108-110 | three nonzero versions: the middle value ({1,7,5}→5) |
| `WindowProcessor.Range` | image_process.py:148 | Python's range with a positive step: empty iff start ≥ stop, first entry start, entries in [start, stop), the last one within one step of stop |
| `WindowProcessor.RangeStep` | image_process.py:148 | consecutive window starts are one step apart |
| `WindowProcessor.RangeEntry` | image_process.py:148 | window start k is start + k·step |
| `WindowProcessor.WindowHeight` | image_process.py:151-155 | a window is non-empty, at most window_size_row high and inside the image; a shorter one reaches the last row |
| `WindowProcessor.WindowEnds` | image_process.py:148-155 | each window ends where the next one starts, and the last one ends at img_shape_w |
| `WindowProcessor.WindowsOrdered` | image_process.py:148-155 | a later window starts at or after the end of an earlier one |
| `WindowProcessor.WindowsDisjoint` | image_process.py:148-155 | no row lies in two windows |
| `WindowProcessor.WindowsCover` | image_process.py:148-155 | every row in [start, img_shape_w) lies in some window |
| `WindowProcessor.ReadWindow` | image_process.py:159-161 | the windowed read has the clipped row and column counts, and holds the pixels of those rows and columns of the file |
| `WindowProcessor.WindowMergeAgrees` | image_process.py:158-165 | merging a window's stack gives, at every pixel of the window, the merge of the full versions at the same image pixel |
| `WindowProcessor.AssignRows` | image_process.py:166 | the output rows [row_idx, row_idx + height) become the merged block; every other cell is unchanged |
| `WindowProcessor.WindowImageProcessor.constructor` | image_process.py:116-120 | stores window_size_row (default 2000) and the image shape (default 10980 × 10980), and fixes the column window at (0, img_shape_h) |
| `WindowProcessor.WindowImageProcessor.FillStack` | image_process.py:151-162 | a fresh stack with one layer per version; layer i is the window of version i; every layer is height × img_shape_h |
| `WindowProcessor.WindowImageProcessor.ProcessWindow` | image_process.py:149-166 | one window step: the rows before the window hold the merged band, and after the step the window's rows do too; the rows after it stay 0, and no row outside the window changes |
| `WindowProcessor.WindowImageProcessor.Window` | image_process.py:135-168 | no file gives Err(NoSourceData); a zero step gives Err(ZeroStep); otherwise a fresh img_shape_w × img_shape_h buffer that equals the pixelwise merge of the full versions (all 0 for a negative step) |
| `Scenarios.MergeTwoVersions` | image_process.py:108-111 | merging two versions applies the two-value rule at every pixel |
| `Scenarios.MergeThreeVersions` | image_process.py:108-110 | merging three versions with no 0 takes the middle value at every pixel |
| `Scenarios.MedianEven` | tests/unit/test_image_process.py:17-29 | the merge of the even test stack is [[2,1,2],[3,3,4]] |
| `Scenarios.MedianOdd` | tests/unit/test_image_process.py:31-45 | the merge of the odd test stack is [[3,3,3],[5,5,1]] |
| `Scenarios.AllZero` | tests/unit/test_image_process.py:47-60 | two all-zero versions merge to all zeros |
| `Scenarios.DifferentTypes` | tests/unit/test_image_process.py:62-75 | the stack with zeros in either version, after the uint16 cast of 2.5 and 1.3, merges to [[3,2,3],[1,1,1]] |
| `Scenarios.WindowingExpected` | tests/unit/test_image_process.py:118-131 | the merge of the two 5 × 5 test images is [1,1,1,2,1], [2,2,2,2,2], [3,3,3,3,3], [4,5,5,6,6], [2,2,2,2,2] |

`Scenarios.Windowing` runs the same case through the processor: window size 2, shape set to 5 × 5 after construction. It asserts that the returned buffer equals that expected merge.

## Left out

- File I/O through rasterio is not modelled: `get_profile`, the GTiff writing of `create_composite`, and `shutil`/`os.makedirs`. A windowed read is a clipped slice of a given image. The dtype read from the profile is fixed to uint16.
- Directory listing is not modelled. `os.listdir` and `num_files_in_dir` are replaced by the given sequence of versions. The model does not capture a directory whose `os.walk` file count differs from its `os.listdir` entries, for example one with sub-directories.
- `WindowImageProcessor.process` is not modelled: its only content is running the three bands concurrently in a process pool.
- The NaN and floating-point steps of `merge` are replaced by integer arithmetic over the nonzero values: `np.where` to NaN, `nanmedian`, `nan_to_num`, the float `.5` and the cast. The discarded `nanmedian` call on line 109 has no effect.
- The abstract base classes, logging, `puller.py` and `s2_mosaicker.py` are not part of this model.
- `ParallelWindowProcessor` is imported and used by `test_block_windowing`, but it is not defined in `image_process.py`, so it is not modelled.
- `WindowProcessor.WindowImageProcessor.Window` requires every version to have exactly the `img_shape_w × img_shape_h` shape. It also requires the column window fixed at construction to cover `img_shape_h`. Versions of any other shape, and a column window narrower than the band, are outside the model. Depending on the shape, the source then fails with a numpy broadcasting error, reads only part of a larger file, or silently broadcasts a read of one row or one column into the whole window slot (image_process.py:160-162).
- The `merger` passed to the `WindowImageProcessor` constructor (image_process.py:116-118, used at line 165) is not modelled as a parameter: the model always merges with `MedianMerger.Merge`, the only merger the source defines.
- `MedianMerger.MergePixel`: its own contract states only zero-iff-all-zero and the bounds. The full median characterisation is stated by `MedianMerger.MergePixelByRank`.
