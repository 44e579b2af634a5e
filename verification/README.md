# Dataset loading and aspect-aware preprocessing, in Dafny

This project models the two pieces of original logic in the flower-classification
scripts' `utilities` package:

- `SimpleDatasetLoader` (module `SimpleDatasetLoader`, `datasetloader.dfy`) turns a
  list of image paths into two index-aligned sequences, the images and their class
  labels. Each label is the second-to-last field of its path split on the path
  separator. Each image is passed through the configured preprocessors in list
  order. A progress line follows every `verbose`-th item, but never the first.
- `AspectAwarePreprocessor` (module `AspectAwarePreprocessor`, `aspectaware.dfy`)
  resizes an image along its shorter side, crops the other axis, and resizes the
  crop to a fixed `(width, height)`.

The Python built-ins both rely on are in module `PyOps` (`pyops.dfy`):
- `int(x / 2.0)`, which rounds toward zero;
- slicing with Python's normalisation of negative and oversize bounds
  (Python Library Reference, "Common Sequence Operations", notes 3 to 5; NumPy
  basic slicing follows the same rules);
- `str.split(sep)` and `sep.join(parts)`.

Things the model takes as parameters:
- Image decoding (`cv2.imread`) is a total function from path to image.
- Each preprocessor is a total function from image to image.
- The two external resizes (`imutils.resize`, `cv2.resize`) are function values in
  a `Resizers` record. They are constrained only by the dimensions of what they
  return: the anchored side equals its target, the other side is at least that
  target, and the final resize gives exactly `height` rows of `width` pixels.
- Printing is replaced by a returned sequence of `Progress(processed, total)` events.
- The path separator is a parameter that defaults to `/`.

Where the code and its comments point different ways, the model follows the code:
- Both crop deltas subtract the ORIGINAL image height, and they round toward zero.
  The comment at `aspectawarepreprocessor.py:18-19` says the deltas crop the longer
  dimension to the desired dimension; "## Findings" below gives an input where the
  code does not do that.

Other behaviour of the code that the model keeps as it is:
- A missing or unreadable file is not reported. `cv2.imread`'s result is never
  checked, so the model has no decode error.
- The constructors validate nothing. There is no configuration error for
  non-positive target sizes.
- `verbose` defaults to -1, and any value of at most 0 disables progress lines.
- A path with no separator makes `load` fail with Python's `IndexError`. The
  progress lines already printed for earlier items stay printed.

## Model

| member | source | states |
|---|---|---|
| `PyOps.TruncHalf` | data-augmentation/utilities/preprocessing/aspectawarepreprocessor.py:22-26 | `int(x/2.0)` is x/2 rounded toward zero: twice the result lies between 0 and x and is less than 2 away from x, for negative x as well |
| `PyOps.TruncHalfSign` | data-augmentation/utilities/preprocessing/aspectawarepreprocessor.py:22-26 | the truncated half is negative exactly when x <= -2 and zero exactly when -1 <= x <= 1 |
| `PyOps.Slice` | data-augmentation/utilities/preprocessing/aspectawarepreprocessor.py:30 | `s[start:stop]` with step 1 has `SliceLength` elements; `SliceIsSelection` proves it selects exactly the positions of the unclamped rule, and `SliceElements` that they are consecutive from the normalised start |
| `PyOps.SliceIsSelection` | data-augmentation/utilities/preprocessing/aspectawarepreprocessor.py:30 | the clamped slice `s[start:stop]` equals the elements at the positions k with start' <= k < stop', in order, where a negative bound b counts as n + b (the unclamped rule) |
| `PyOps.SliceElements` | data-augmentation/utilities/preprocessing/aspectawarepreprocessor.py:30 | element j of a slice is element (normalised start + j) of the sequence |
| `PyOps.CropSlice` | data-augmentation/utilities/preprocessing/aspectawarepreprocessor.py:30 | the crop slice `s[d : n-d]` keeps `KeptLength(n, d)` entries, never more than n: n - 2d entries (the middle) when 0 <= d and 2d <= n; the last min(n, -d) entries when d < 0; nothing otherwise |
| `PyOps.SplitFields` | data-augmentation/utilities/datasets/simpledatasetloader.py:37 | `split(sep)` gives more than one field iff the separator occurs, and no field contains the separator |
| `PyOps.Split` | data-augmentation/utilities/datasets/simpledatasetloader.py:37 | `str.split(sep)` always gives at least one field; `SplitThenJoin` and `JoinThenSplit` prove it is the inverse of `sep.join` on separator-free fields, and `SplitFields` that it cuts at every separator |
| `PyOps.SplitThenJoin` | data-augmentation/utilities/datasets/simpledatasetloader.py:37 | joining the fields of `path.split(sep)` with sep gives back the path, so nothing is lost |
| `PyOps.JoinThenSplit` | data-augmentation/utilities/datasets/simpledatasetloader.py:37 | splitting a sep-join of one or more separator-free fields gives back those fields |
| `AspectAwarePreprocessor.New` | data-augmentation/utilities/preprocessing/aspectawarepreprocessor.py:6-10 | the constructor stores width, height and interpolation exactly as given |
| `AspectAwarePreprocessor.DefaultInterpolationIsArea` | data-augmentation/utilities/preprocessing/aspectawarepreprocessor.py:6 | the interpolation defaults to area interpolation |
| `AspectAwarePreprocessor.ChooseBranch` | data-augmentation/utilities/preprocessing/aspectawarepreprocessor.py:20-26 | the resize-by-width branch is taken iff w < h strictly, so square images resize by height; the anchored side is never the longer side |
| `AspectAwarePreprocessor.FirstResize` | data-augmentation/utilities/preprocessing/aspectawarepreprocessor.py:20-25 | the first resize calls the width resize iff w < h and the height resize otherwise, with the preprocessor's target and interpolation; `FirstResizeAnchorsShorterSide` gives the dimensions of its result |
| `AspectAwarePreprocessor.FirstResizeAnchorsShorterSide` | data-augmentation/utilities/preprocessing/aspectawarepreprocessor.py:20-25 | under the resize dimension specs, a portrait image gets width `width` and a square or landscape image gets height `height`, the other side being at least that target |
| `AspectAwarePreprocessor.CropDeltas` | data-augmentation/utilities/preprocessing/aspectawarepreprocessor.py:14-26 | only the branch's own delta is set and the other stays 0; the delta is half, rounded toward zero, of the resized width (width branch) or resized height (height branch) minus the original height |
| `AspectAwarePreprocessor.DeltasFromOriginalHeight` | data-augmentation/utilities/preprocessing/aspectawarepreprocessor.py:19-26 | after a first resize that meets its dimension spec, the delta is the truncated half of (anchored target - original height), and it is negative iff the original height exceeds that target by 2 or more |
| `AspectAwarePreprocessor.Crop` | data-augmentation/utilities/preprocessing/aspectawarepreprocessor.py:29-30 | `image[dh:h - dh, dw:w - dw]`, slicing rows and then every row with Python's normalisation; `CropWindow` proves it is the rectangular window at the normalised bounds with `KeptLength` rows and columns |
| `AspectAwarePreprocessor.Cropped` | data-augmentation/utilities/preprocessing/aspectawarepreprocessor.py:14-30 | the first resize followed by the crop with the as-written deltas, which use the original height; `CropNeverEmpty` proves the result keeps at least one row and one column |
| `AspectAwarePreprocessor.CropWindow` | data-augmentation/utilities/preprocessing/aspectawarepreprocessor.py:29-30 | the crop of a rectangular image is rectangular and is the window starting at the normalised bounds (top, left): pixel (i, j) of the crop is pixel (top + i, left + j) of the image, and a zero delta keeps its axis whole |
| `AspectAwarePreprocessor.CropNeverEmpty` | data-augmentation/utilities/preprocessing/aspectawarepreprocessor.py:19-30 | if the first resize meets its dimension spec and h, w >= 1, the crop keeps at least one row and one column; the anchored axis keeps exactly its target length and the other keeps `KeptLength` of its resized length |
| `AspectAwarePreprocessor.LargeImagesAreNotCropped` | data-augmentation/utilities/preprocessing/aspectawarepreprocessor.py:22-30 | when the original height is at least twice the resized cropped-axis length plus the target, the crop keeps the whole resized image |
| `AspectAwarePreprocessor.Preprocess` | data-augmentation/utilities/preprocessing/aspectawarepreprocessor.py:12-33 | for any non-empty image, whatever its aspect ratio, the output has exactly `height` rows of `width` pixels, with dsize passed as (width, height); the final resize never receives an empty crop |
| `AspectAwarePreprocessor.CenteredDeltas` | data-augmentation/utilities/preprocessing/aspectawarepreprocessor.py:22-26 | the intended deltas: only the branch's own delta is set, to the truncated half of the resized non-anchored side minus its own target |
| `AspectAwarePreprocessor.CenteredCropKeepsTarget` | data-augmentation/utilities/preprocessing/aspectawarepreprocessor.py:22-30 | with the intended deltas, a resized image whose non-anchored side is at least its target is cropped to the target or target + 1 on each axis, removing equal amounts from both ends |
| `AspectAwarePreprocessor.AsWrittenCropOffCentre` | data-augmentation/utilities/preprocessing/aspectawarepreprocessor.py:19-30 | a 200x100 image with a 64x64 target, resized to 128 rows: the as-written delta is -68 and the crop keeps the 68 rows from row 60 on; the intended delta is 32, which keeps 64 rows from row 32 on |
| `SimpleDatasetLoader.NewLoader` | data-augmentation/utilities/datasets/simpledatasetloader.py:16-22 | constructing with no list gives the empty preprocessor list; a given list is stored unchanged |
| `SimpleDatasetLoader.Label` | data-augmentation/utilities/datasets/simpledatasetloader.py:37 | a path has a label iff it contains the separator (otherwise `[-2]` raises `IndexError`), and the label contains no separator; only the path is consulted |
| `SimpleDatasetLoader.LabelOfLayout` | data-augmentation/utilities/datasets/simpledatasetloader.py:34-37 | a path laid out as `dir/.../<label>/<file>` (separator-free fields) has label `<label>` |
| `SimpleDatasetLoader.LabelOfRosesExample` | data-augmentation/utilities/datasets/simpledatasetloader.py:34-37 | `"root/roses/001.jpg"` has label `"roses"` |
| `SimpleDatasetLoader.ApplyAll` | data-augmentation/utilities/datasets/simpledatasetloader.py:40-43 | the preprocessors run in list order, each on the previous one's output; `ApplyAllAppend` proves the empty list is the identity and a concatenated list runs its parts in turn |
| `SimpleDatasetLoader.ApplyAllAppend` | data-augmentation/utilities/datasets/simpledatasetloader.py:40-43 | the preprocessor fold leaves the image unchanged for an empty list, and running s + t is running t on the output of s |
| `SimpleDatasetLoader.ApplyAllSnoc` | data-augmentation/utilities/datasets/simpledatasetloader.py:42-43 | the last preprocessor receives the output of all the ones before it |
| `SimpleDatasetLoader.Reports` | data-augmentation/utilities/datasets/simpledatasetloader.py:50-51 | the test `i > 0 and (i + 1) % verbose == 0` on the 0-based index, stated on the 1-based count k; `ProgressShape` proves which counts are reported |
| `SimpleDatasetLoader.ProgressUpTo` | data-augmentation/utilities/datasets/simpledatasetloader.py:27-51 | the progress lines printed after the first m items; `ProgressShape` proves it holds exactly the reported counts with the total, in increasing order, and `ProgressCount` gives how many there are |
| `SimpleDatasetLoader.ProgressShape` | data-augmentation/utilities/datasets/simpledatasetloader.py:50-51 | after m items, a line for count k was printed iff 1 <= k <= m, verbose > 0, k >= 2 and k % verbose == 0; every line carries the total, and counts strictly increase |
| `SimpleDatasetLoader.ProgressCount` | data-augmentation/utilities/datasets/simpledatasetloader.py:27-51 | the number of lines after m items is 0 when verbose <= 0 (the default -1 included), m - 1 when verbose is 1 (count 1 is never reported), and m / verbose otherwise |
| `SimpleDatasetLoader.TenPathsEveryThree` | data-augmentation/utilities/datasets/simpledatasetloader.py:50-51 | 10 paths with verbose = 3 give exactly the lines 3/10, 6/10 and 9/10 |
| `SimpleDatasetLoader.Load` | data-augmentation/utilities/datasets/simpledatasetloader.py:27-54 | load succeeds iff every path has a separator; it then returns data and labels of exactly one entry per path, in path order, with data[i] the decoded image of path i run through the preprocessors in order and labels[i] that path's label, plus the progress lines for all items; otherwise it fails at the first path without a separator, after the lines for the items before it; an empty list gives two empty sequences and no lines |

## Left out

- Pixel values of both resizes are left out. They are floating-point interpolation inside OpenCV and imutils, so the model keeps only the dimensions.
- `AspectAwarePreprocessor.AnchorsHeight` and `AnchorsWidth` assume the scaled side is at least its target. `imutils.resize` computes that side as `int(n * (t / float(n)))` in floating point, and for a square image this often comes out one below the target (7 * (61 / 7.0) is 60.99999999999999, so a 7x7 image resized to height 61 gets width 60; a few percent of small (n, t) pairs do this). Such inputs are outside the model. The crop would still be non-empty for them when the original side and the target are both at least 2, but the model does not state that.
- `PyOps.TruncHalf`: exact only while |x| < 2^53, where `x / 2.0` is exact in double precision.
- `AspectAwarePreprocessor.Preprocess` requires positive target sizes and a non-empty input. The code does not check these, but the external resizes reject zero sizes and empty images.
- Idempotence of preprocessing at the pixel level is not stated, because pixels are not modelled. Only the output dimensions are.
- `cv2.imread` returning `None` for a missing file is left out. The code never checks for it, so decoding is a total function.
- `np.array` packing of the results (simpledatasetloader.py:54) is left out. The model returns the sequences themselves.
- Console printing is replaced by the returned progress events.
- The `preprocessors is not None` test (simpledatasetloader.py:40) is always true after the constructor. The model keeps a list and never re-checks it.
- The channel depth of images is not modelled. A pixel is a sequence of channel values.
- `ImageToArrayPreprocessor`, `MiniVGGNet` and the training, plotting and augmentation scripts are not part of this model. They are glue over Keras, scikit-learn and matplotlib.

## Findings

| source | as written | input that shows it | evidently intended | confidence | as-written member | corrected member |
|---|---|---|---|---|---|---|
| data-augmentation/utilities/preprocessing/aspectawarepreprocessor.py:22-26 | both crop deltas subtract the original height: from the resized width in the width branch, and from the resized height in the height branch | a 200-row, 100-column image with target 64x64 is resized to 128 rows of 64. The delta is trunc((64 - 200)/2) = -68, so the crop keeps the last 68 rows (60 to 127) and is not centred. For large photos the delta passes the start of the axis and nothing is cropped (`LargeImagesAreNotCropped`), so the final resize distorts the aspect ratio | half the excess of the resized non-anchored side over its own target (delta 32 here, keeping rows 32 to 95), which gives a centred crop of the target size or one more | high, not executed | `AspectAwarePreprocessor.AsWrittenCropOffCentre` (on `CropDeltas`) | `AspectAwarePreprocessor.CenteredCropKeepsTarget` (on `CenteredDeltas`) |

`Preprocess` models the repository, so it keeps the as-written `CropDeltas`.
`CenteredDeltas` is the intended rule, and it is proved on its own.
