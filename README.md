# Crowd-counting preprocessing core, in Dafny

This project models the geometry and rasterisation code of the CLIPGCC crowd
counting repository, `src/datasets.py`:

- `split_into_patches` cuts a 2-D array into overlapping `ph x pw` patches.
  It first pads the array at the bottom and right by reflection, so that the
  padded size minus the patch size is a multiple of the stride. The patches
  come out in row-major order.
- `reassemble_from_patches` walks the same grid. It reads the patches in
  sequence, adds each one into an accumulator, and adds 1 to a count map over
  its footprint. It then divides by `count + 1e-6` and crops back to `H x W`.
- `points_to_point_map` and `load_gt_from_mat` turn head annotations into a
  binary `H x W` point map. The loader picks the `image_info` or the
  `annPoints` key, drops a leading axis of a 3-D array, and swaps the
  `(width, height)` size into a `(height, width)` shape.
- The constructor of `CrowdDataset` lists the full images. For each one it
  collects the consecutively numbered patch files `<base>_patch_<idx>.jpg`
  from index 0 up to the first missing index. It keeps the image only when both
  ground-truth maps exist and at least one patch was found.

Modules:

- `common.dfy`: rasters (`seq<seq<real>>`), the `Error` datatype standing for
  the Python exceptions, and `Result` and `Option`.
- `tiling.dfy`: stride, padding, reflection, the grid of patch corners and
  windows. Split and reassemble share one `Plan` function: the two functions
  compute stride and padding with the same text (lines 115-120 and 177-182),
  so they agree by construction.
- `split.dfy`: `split_into_patches` as nested loops proved against `SplitSpec`.
- `reassemble.dfy`: `reassemble_from_patches` over two `array2`s, updated in
  place, proved against `Reassembled`.
- `roundtrip.dfy`: split followed by reassembly restores the array.
- `groundtruth.dfy`: point rasterisation into an `array2` and the `.mat` key
  dispatch.
- `dataset.dfy`: the sample index built by `CrowdDataset.__init__`, over an
  abstract set of existing paths.

Conventions:

- An overlap fraction is a rational `Ratio(num, den)`. The stride is then
  `max(trunc(p * (den - num) / den), 1)`, which truncates toward zero as
  Python's `int()` does.
- Pixel values are mathematical reals. The `1e-6` of the division is kept, so
  the round trip holds up to a relative error of `1e-6`.
- Python's `%` with a positive divisor is Dafny's `%`.
- numpy's `reflect` padding is modelled by a fold of period `2(n-1)`. This
  also covers a pad larger than the axis. An axis of length 1 repeats its one
  value.
- Reflect-padding an empty axis by a nonzero amount raises in numpy. Here it
  is the `EmptyAxisPad` error.

Where the documentation and the code disagree, the model follows the code:

- The comment at line 184 calls the padding "symmetric", but the pad widths
  are `(0, pad)`. Padding is modelled at the end of each axis only.
- The annotation format is described as accepting an `annPoints` array of
  shape `[N, 2]` or `[1, N, 2]`. The code iterates `points[0]`, which makes
  both shapes raise. See Findings.

## Model

| member | source | states |
|---|---|---|
| Tiling.TruncDiv | src/datasets.py:177-178 | `int(n / d)` truncates toward zero: for `n >= 0` the quotient is the floor, and for `n < 0` it is the ceiling |
| Tiling.Stride | src/datasets.py:177-178 | the stride is at least 1; above 1 it is the truncated `p * (1 - overlap)`; it is 1 exactly when `p * (1 - overlap) < 2`; for an overlap in `[0, 1]` and a patch of at least 1 it never exceeds the patch |
| Tiling.TruncAtMostPatch | src/datasets.py:177-178 | for an overlap in `[0, 1]`, the truncated product is at most the patch size |
| Tiling.Pad | src/datasets.py:181-182 | `0 <= pad < stride`, `n + pad - p` is a multiple of the stride, and the padding is 0 exactly when `n - p` already is |
| Tiling.PadIsLeast | src/datasets.py:181-182 | no smaller padding makes `n + pad - p` a multiple of the stride |
| Tiling.Reflect | src/datasets.py:185 | a reflected index stays inside the axis, is the identity inside the array, and is `2(n-1) - r` on the first reflected band |
| Tiling.ReflectFold | src/datasets.py:185 | for an axis of length `n >= 2`, every padded index `r`, however far past the axis, reflects to an index congruent to `r` or `-r` modulo `2(n-1)`; with `k < n` from `Reflect` this fixes `k` as numpy's repeated reflection does |
| Tiling.Plan | src/datasets.py:115-120 | stride and padding derived once from the shapes and overlaps (the same text is at 177-182); the result is a valid geometry for exactly those shapes |
| Tiling.Geometry.Positions | src/datasets.py:189-191 | there are `Rows * Cols` corners, and every window at a corner lies inside the padded array |
| Tiling.LastStartFlush | src/datasets.py:181-190 | on a divisible axis, the last corner sits exactly one patch before the padded end, so no strip is left over |
| Tiling.StartInRange | src/datasets.py:190 | the `a`-th value of `range(0, n - p + 1, s)` exists exactly when `a < Starts(n, p, s)` |
| Tiling.RowMajorShape | src/datasets.py:189-193 | the nested loops visit `rows * cols` corners, each within the last row and column start |
| Tiling.RowMajorAt | src/datasets.py:189-193 | patch number `a * cols + b` has corner `(a * vs, b * hs)` |
| Tiling.RowMajorOrdered | src/datasets.py:190-191 | corners come in strictly increasing row-major order |
| Tiling.RowMajorPrefix | src/datasets.py:190-191 | the corners of the first `a` rows are a prefix of the whole grid |
| Tiling.Window | src/datasets.py:192 | a window `g[i:i+ph, j:j+pw]` lying inside `g` is `ph x pw` (every window the grid cuts lies inside the padded array) |
| Tiling.WindowAt | src/datasets.py:192 | window pixel `(y, x)` is array pixel `(i + y, j + x)` |
| Tiling.Cuts | src/datasets.py:189-193 | one window per corner |
| Tiling.CutsAt | src/datasets.py:192-193 | cut number `k` is the window at corner number `k` |
| Tiling.CutsAppend | src/datasets.py:189-193 | appending the windows of later corners appends their cuts |
| Tiling.PadReflect | src/datasets.py:185 | the padded array is `(h + padH) x (w + padW)`, and the original `h x w` region is unchanged |
| Tiling.HalfOverlapScenario | src/datasets.py:158-182 | a 500 x 500 array with 224 x 224 patches at half overlap has stride 112, padding 60, and a 4 x 4 grid of 16 patches |
| Split.PadRefusedWhen | src/datasets.py:181-185 | `np.pad` refuses exactly when an empty axis gets a nonzero pad, that is when `0 - p` is not a multiple of its stride; a non-empty input is never refused |
| Split.SplitIntoPatches | src/datasets.py:158-195 | the result is `SplitSpec`: an `EmptyAxisPad` failure, or the windows of the padded array at the row-major corners, with `(H, W)` and `(pad_h, pad_w)` |
| Split.PadAndCut | src/datasets.py:185-195 | for chosen strides and padding, the result is `SplitOf`: an `EmptyAxisPad` failure or the cut windows with the shape and padding |
| Split.CutGrid | src/datasets.py:189-193 | the outer loop yields the windows at every row-major corner, in order |
| Split.CutRow | src/datasets.py:191-193 | the inner loop yields the windows of one row of corners, left to right |
| Split.SplitShape | src/datasets.py:173-195 | the call fails exactly when numpy refuses the padding; otherwise it returns `Rows * Cols` patches of `ph x pw`, the shape `(H, W)` and the padding |
| Split.SplitPatchValue | src/datasets.py:185-192 | pixel `(y, x)` of patch `k` is the input pixel at the reflected indices of corner `k` plus `(y, x)`; inside the input it is the input's own pixel |
| Split.SmallInputNoPatches | src/datasets.py:189-195 | a padded array smaller than one patch gives an empty patch list, not an error |
| Reassemble.ReassembleFault | src/datasets.py:125-146 | an empty list raises `IndexError` at `patches[0]`; a consumed patch of the wrong shape raises a shape error; a list shorter than the grid raises `IndexError`; nothing else fails |
| Reassemble.AddPatch | src/datasets.py:146-148 | each footprint cell gains the patch value and 1 in the count, and every other cell is unchanged |
| Reassemble.Normalise | src/datasets.py:152-157 | the output is `h x w`, and each pixel is the accumulator over `count + 1e-6` |
| Reassemble.ReassembleFromPatches | src/datasets.py:96-157 | the result is `Reassembled`: the fault if any, else per pixel the sum of covering patch values over `count + 1e-6`, cropped to `H x W` |
| Reassemble.AccumulateGrid | src/datasets.py:136-149 | after the loops the fault is that of the `Rows * Cols` patches consumed in order; without a fault, the accumulator and count hold the sums and cover counts over all corners |
| Reassemble.AddRow | src/datasets.py:138-149 | one pass of the inner loop consumes the next patches in sequence and adds each at its corner, or stops at the first missing or mis-shaped patch |
| Reassemble.CoverCountPositive | src/datasets.py:148 | a pixel inside some footprint has a count of at least 1 |
| Reassemble.AxisCover | src/datasets.py:137-138 | with stride at most the patch and a divisible axis, every index lies in some window |
| Reassemble.EveryPixelCovered | src/datasets.py:132-148 | with strides at most the patch and a padded array at least one patch, the count is at least 1 at every padded pixel |
| Reassemble.AccAtUniform | src/datasets.py:146 | if every covering patch holds `v` at a pixel, the accumulator there is `count * v` |
| Reassemble.UniformPixelAveraged | src/datasets.py:146-152 | a covered pixel where every covering patch holds `v` normalises to `v` within `1e-6` relative error: the mean, not the sum |
| Reassemble.PixelOfCopies | src/datasets.py:152 | an accumulator of `count * v` with `count >= 1` normalises to `v` within `1e-6` relative error |
| Reassemble.AverageOfCopies | src/datasets.py:152 | `n >= 1` copies of `v` divided by `n + 1e-6` are within `1e-6` relative error of `v` |
| Reassemble.AccAtPrefix | src/datasets.py:139 | patches past the ones consumed do not enter the accumulator |
| Reassemble.ExtraPatchesIgnored | src/datasets.py:136-149 | extra patches after the grid's count are never read and do not change the result |
| RoundTrip.WindowsReassemble | src/datasets.py:137-157 | for patches of at least one pixel, overlaps in `[0, 1]` and a padded array at least one patch in each direction, patches that are the windows of one padded-size array reassemble to its top-left `H x W` part within `1e-6` |
| RoundTrip.PixelRestored | src/datasets.py:146-152 | each pixel of such a reassembly is the array's pixel within `1e-6` |
| RoundTrip.SplitThenReassemble | src/datasets.py:96-195 | on values, for a non-empty `H x W` array, patches of at least one pixel, overlaps in `[0, 1]` and a padded array at least one patch in each direction, splitting then reassembling with the same settings succeeds, gives `H x W`, and restores every pixel within `1e-6` relative error |
| RoundTrip.SmallInputRoundTripFails | src/datasets.py:96-195 | when the padded array is smaller than one patch in some direction (and numpy accepts the padding), the split returns no patches and the reassembly raises `IndexError` at `patches[0]` |
| RoundTrip.SmallImageExample | src/datasets.py:96-195 | a `100 x 100` array with `224 x 224` patches at half overlap gets stride 112 and padding 12, and the round trip raises `IndexError` |
| RoundTrip.UniformPatchesAveraged | src/datasets.py:146-152 | for patches of at least one pixel, overlaps in `[0, 1]`, a padded array at least one patch in each direction and at least as many patches as corners: if every patch is constant `v`, the output is `v` everywhere, however many patches overlap |
| GroundTruth.Round | src/datasets.py:64 | Python `round`: within 0.5 of the value, with ties to the even integer |
| GroundTruth.Wrap | src/datasets.py:66 | for `-n <= i < n`, numpy's index lands in `[0, n)` and is congruent to `i` modulo `n`; a non-negative index is unchanged |
| GroundTruth.Target | src/datasets.py:64-66 | a row with fewer than two entries raises; a point whose rounded `x >= W` or `y >= H` is skipped; a point in `[-H, H) x [-W, W)` writes `[Wrap(y)][Wrap(x)]` (`[y][x]` when non-negative); a point that passes the bounds test with `y < -H` or `x < -W` raises; every written pixel is inside the map |
| GroundTruth.RasterSpec | src/datasets.py:60-66 | a returned map is `H x W` |
| GroundTruth.MarkPoints | src/datasets.py:63-66 | the loop succeeds exactly when no point raises, and then each cell is 1.0 if some point targets it and 0.0 otherwise |
| GroundTruth.PointsToPointMap | src/datasets.py:50-67 | the returned array holds `PointMapSpec`, and the error is the same |
| GroundTruth.PointMapBinary | src/datasets.py:60-67 | whatever the layout, a returned map is `H x W` with every cell 0.0 or 1.0 |
| GroundTruth.MarkedStep | src/datasets.py:63-66 | one more point adds exactly its own pixel and its own failure |
| GroundTruth.MarkedConcat | src/datasets.py:63-66 | two point lists in turn mark the union of their pixels and fail if either fails |
| GroundTruth.SameMarks | src/datasets.py:63-66 | point lists that fail alike and mark the same pixels give the same map |
| GroundTruth.PointOrderIrrelevant | src/datasets.py:63-66 | any permutation of the points (equal multisets) gives the same map, or the same error |
| GroundTruth.PointSetDetermines | src/datasets.py:63-66 | two point lists holding the same points, in any order and with any repeats, give the same map or the same error |
| GroundTruth.OutOfBoundsPointIgnored | src/datasets.py:65 | a point with rounded `x >= W` or `y >= H` changes nothing and raises nothing |
| GroundTruth.CoincidentPointIgnored | src/datasets.py:66 | a point on an already marked pixel leaves it at 1.0 |
| GroundTruth.NegativeCoordinatesWrap | src/datasets.py:65-66 | any point of any list whose rounded coordinates lie in `[-H, H) x [-W, W)` is valid, and a built map holds 1 at its wrapped pixel |
| GroundTruth.MinusOneIsLastPixel | src/datasets.py:65-66 | a point at `(-1, -1)` marks the bottom-right pixel |
| GroundTruth.FarNegativeCoordinateRaises | src/datasets.py:65-66 | any point of a list that passes the bounds test with rounded `y < -H` or `x < -W` makes the whole map raise `IndexError`, for the record and the 3-D layout alike |
| GroundTruth.SelectPoints | src/datasets.py:81-86 | `image_info` is used whenever present, `annPoints` otherwise, and a file with neither raises `ValueError` |
| GroundTruth.DropLeadingAxis | src/datasets.py:89-90 | a 3-D array becomes its first plane and an empty one raises `IndexError`; other layouts pass through; the result is never 3-D |
| GroundTruth.LoadGtFromMat | src/datasets.py:69-94 | the returned array holds `LoadGtSpec`, and the error is the same |
| GroundTruth.LoadGtDispatch | src/datasets.py:81-93 | `image_info` wins over `annPoints`; neither gives `ValueError`; a 2-D `annPoints` array goes to `points_to_point_map` unchanged, a 3-D one as its first plane (an empty one raises); a returned map has `H = original_size[1]` rows and `W = original_size[0]` columns |
| GroundTruth.AnnPointsAlwaysFail | src/datasets.py:63 | as written, every `annPoints` array of `N x 2` points, also stored as `[1, N, 2]`, raises `IndexError` |
| GroundTruth.FixedAgreesOnImageInfo | src/datasets.py:82 | the corrected loader is unchanged on the `image_info` layout |
| GroundTruth.FixedMarksEveryPoint | src/datasets.py:63-66 | corrected, an `annPoints` array whose points round into the image marks exactly their pixels, stored as `N x 2` or as `[1, N, 2]` |
| GroundTruth.OneHeadCounterexample | src/datasets.py:63-64 | one head at `(1, 2)` in a 4 x 3 image raises as written; corrected, it marks row 2, column 1 |
| Dataset.LowerChar | src/datasets.py:274 | ASCII upper-case letters map to lower case, and every other character is unchanged |
| Dataset.Lower | src/datasets.py:274 | lower-casing keeps the length and folds each character |
| Dataset.ImageFiles | src/datasets.py:273-274 | a name is a full image exactly when it is listed and its lower-cased name ends in `.jpg`, `.jpeg` or `.png` |
| Dataset.ImageFilesAppend | src/datasets.py:273-274 | the filter keeps listing order: the images of two listings in turn are those of the first followed by those of the second |
| Dataset.LastDot | src/datasets.py:279 | the index of the last `.` in the name, or -1 |
| Dataset.Stem | src/datasets.py:279 | the base is a prefix of the name; what is cut off starts at the last `.` and holds no other dot; a base that loses an extension is not all dots; a name without a dot is its own base |
| Dataset.StemDropsExtension | src/datasets.py:279 | `splitext` removes a dot-free extension from a base that is not all dots |
| Dataset.HiddenNameKeepsDot | src/datasets.py:273-279 | a file named `.jpg` passes the filter, but its base is the whole name |
| Dataset.PatchRun | src/datasets.py:282-290 | the probed files are `base_patch_idx`, `base_patch_idx+1`, ..., all existing, and the next one is missing |
| Dataset.RunLengthUnique | src/datasets.py:282-290 | the number of collected patches is the only `n` with files `0..n-1` present and file `n` missing |
| Dataset.GapHidesLaterPatches | src/datasets.py:282-290 | after a missing index, no later patch file is collected |
| Dataset.CollectPatches | src/datasets.py:280-290 | the `while True` loop collects exactly `PatchRun` from index 0 |
| Dataset.SampleFor | src/datasets.py:279-302 | a kept sample holds the image, its patch run from index 0 (non-empty) and the two ground-truth maps, all existing; an image is dropped only when a map is missing or the run is empty |
| Dataset.SampleForCharacterised | src/datasets.py:293-302 | an image is kept exactly when its two ground-truth maps and patch 0 exist; its sample holds the image, its maximal patch run and the two maps |
| Dataset.SamplesOfMembers | src/datasets.py:276-302 | a sample is in the list exactly when some listed image yields it |
| Dataset.SamplesOfAppend | src/datasets.py:276-302 | the samples follow the listing order |
| Dataset.SampleFromListedImage | src/datasets.py:273-302 | a sample is kept exactly when it comes from a directory entry that passes the extension filter |
| Dataset.CollectSamples | src/datasets.py:276-302 | the `for` loop keeps exactly `SamplesOf` of the full images, in order |
| Dataset.CrowdDataset.constructor | src/datasets.py:259-302 | `full_images` is the filtered listing, and `samples` is `SamplesOf` of it |

## Left out

- Channels: the `(H, W, C)` input of the split (which `np.pad` refuses, see below) and the `(C, H, W)` case of the reassembly (lines 102-110, 123-126, 141-143, 154-155). Only 2-D arrays are modelled.
- Reassemble.ReassembleFault: treats every consumed patch whose shape is not `ph x pw` as a shape error. torch would broadcast a `(1, pw)`, `(ph, 1)` or `(1, 1)` patch into the footprint instead.
- Floating point: float32 accumulation and division, `int(p * (1 - overlap))` on a float product, and NaN or infinite coordinates. Values and overlaps are exact reals and rationals.
- Tensor dtype and device selection at lines 123-134: the model works on values.
- RoundTrip.SplitThenReassemble: states the round trip for the patch values only. `split_into_patches` returns numpy arrays, while `reassemble_from_patches` passes `patches[0].dtype` and `patches[0].device` to `torch.zeros`. The round trip therefore holds once a caller converts the patches to tensors of one dtype and device. Handing the numpy patches over directly fails in `torch.zeros` instead. No caller in the repository chains the two functions.
- RoundTrip.SplitThenReassemble: also assumes a padded array at least one patch in each direction, patches of at least one pixel and overlaps in `[0, 1]`. Below one patch the code itself breaks the round trip: the split returns an empty list and the reassembly raises `IndexError` (RoundTrip.SmallInputRoundTripFails, with the `100 x 100` case in RoundTrip.SmallImageExample). An empty input is refused by numpy or yields no patches.
- Default arguments: `vertical_overlap=0.5` and `horizontal_overlap=0.5` (lines 96 and 158), and `patch_size=(224, 224)` of `preprocess`. Every model operation takes the overlaps explicitly; the defaults are the instance `Ratio(1, 2)`.
- Aliasing: the patches of `split_into_patches` are views into one padded array, so writing into one patch changes its neighbours' overlap. The model returns each patch as an independent value.
- The `(H, W, C)` image split from `preprocess` (line 243): with two pad pairs for a 3-D array, `np.pad` cannot broadcast the pad widths and raises. Only 2-D inputs are modelled, so this path is not represented.
- `scipy.io.loadmat` itself (line 80). A `.mat` file is reduced to its two keys. An `image_info` value is the location array of its `[0, 0][0, 0]` record. Other layouts under that key are not modelled.
- GroundTruth.PointsToPointMap: only layouts of real-valued rows are modelled. An `annPoints` entry that is itself a record, or holds non-numeric data, is not represented.
- File system and path strings: `os.listdir`, `os.path.join` and `os.path.exists` become a listing and a set of existing `Path` values. Building a patch file name from the base and the index is taken to be one-to-one.
- Dataset.LowerChar: folds ASCII letters only. Python's `str.lower` folds all of Unicode, which only matters for names whose last five characters are non-ASCII letters.
- Dataset.Stem: assumes a listing entry has no `/`, as `os.listdir` returns plain names.
- `preprocess` (lines 197-257): directory creation, image loading, resizing and `.npy` writes.
- `gaussian_filter` blurring (line 240): a SciPy routine that is not part of this model.
- `CrowdDataset.__len__` (returns the length of `samples`), `CrowdDataset.__getitem__` (file loading and transforms) and the transform fields.
- `plot_sample`: plotting only.

## Findings

| source | as written | input that shows it | evidently intended | confidence | as-written member | corrected member |
|---|---|---|---|---|---|---|
| src/datasets.py:63 | `for point in points[0]` iterates the first row of an `annPoints` array (its two scalars), so `point[0]` raises `IndexError`; a `[1, N, 2]` array reduced at line 90 fails the same way | an `annPoints` file holding `[[1.0, 2.0]]`, with `original_size = (4, 3)` | iterate every point row, as the `image_info` layout already does (its `[0, 0][0, 0]` record has the location array at index 0) | not executed; follows from numpy indexing semantics | GroundTruth.AnnPointsAlwaysFail | GroundTruth.FixedMarksEveryPoint |
