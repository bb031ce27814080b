# Image enhancement and face detection, modelled in Dafny

This project models the pixel-level core of the image tools in the repository. The core has
three parts:

- **The four-stage enhancer** `enhanceImage` (`src/utils/image/enhancement.ts`). It copies the
  RGBA buffer and runs four in-place passes over it:
  - histogram equalization;
  - contrast 1.2;
  - 3x3 sharpening;
  - a 3x3 median filter.
- **The sliding-window face detector** (`src/utils/image/face/detection.ts`):
  - a skin-colour test per pixel and an edge strength per pixel;
  - a confidence per window of 24, 36, 48 and 64 pixels;
  - the window scan over every level of the image pyramid;
  - the greedy merge of overlapping detections.
- **The light enhancer** `enhanceImageData` (`src/utils/imagePreprocessing.ts`). It applies
  contrast around mid-grey and then the same sharpening, in place. The model also covers the
  `enhanceFaces` gate and the canvas size that `preprocessImage` draws at.

Each file of the project corresponds to one part:

- `Pixels.dfy` holds what the parts share:
  - bytes, clamping and JavaScript's `Math.round`;
  - JavaScript numbers with `NaN` and the infinities, and what a `Uint8ClampedArray` store does
    with each;
  - flat-index arithmetic;
  - the `ImageData` class, whose `data` is an `array<int>` updated in place.
- `Sorting.dfy` holds `Array.prototype.sort` with a numeric comparator, on arrays that hold
  `undefined`.
- `Enhancement.dfy` covers the four passes. Each pass is a `method` on the array. Its `ensures`
  ties the new contents to a function of the old contents:
  - `a[..] == Equalize(old(a[..]))`;
  - `a[..] == Contrasted(old(a[..]), factor)`;
  - `a[..] == Sharpened(old(a[..]), w, h)`;
  - `a[..] == Denoised(old(a[..]), w)`.

  Lemmas state what those functions mean.
- `FaceDetection.dfy` models rectangles with DOMRect's `left`/`right`/`top`/`bottom`, and the
  detector over levels given as values. The loops are methods proved equal to specification
  functions (`EvaluateWindow`, `DetectFacesAtScale`, `MergeFaceDetections`, `DetectFaces`).
- `Preprocessing.dfy` covers `enhanceImageData`, the gate and the canvas size.

On the degenerate case of equalization, the model follows the code. `equalizeHistogram` has no
guard for an image whose pixels all fall into the first non-empty brightness bin. For such an
image `totalPixels - cdfMin` is 0 and every table entry is `0/0 = NaN` or `-x/0 = -Infinity`.
Storing either into a `Uint8ClampedArray` gives 0. The model computes exactly that:
`EqualizeSingleBrightness` and `DegenerateTableIsZero` prove that every colour byte becomes 0.
`EnhanceSingleColour` proves the consequence: a single-colour image leaves `enhanceImage`
black, with its alpha kept.

## Model

| member | source | states |
|---|---|---|
| Pixels.Clamp | src/utils/image/enhancement.ts:51-53 | `Math.min(255, Math.max(0, v))` is a byte: v itself when v is a byte, 0 below, 255 above |
| Pixels.ClampMonotone | src/utils/image/enhancement.ts:51-53 | clamping preserves order |
| Pixels.Round | src/utils/image/enhancement.ts:52 | `Math.round(x)` is the integer within half a unit of x, with ties rounding up |
| Pixels.RoundMonotone | src/utils/image/enhancement.ts:52 | rounding preserves order |
| Pixels.Divide | src/utils/image/enhancement.ts:35 | JavaScript division: the real quotient for a non-zero divisor; otherwise NaN for 0/0 and an infinity with the sign of the dividend |
| Pixels.TimesPositive | src/utils/image/enhancement.ts:35 | multiplying by 255 keeps NaN and the infinities and scales finite numbers |
| Pixels.RoundNumber | src/utils/image/enhancement.ts:35 | `Math.round` on a JavaScript number keeps NaN and the infinities |
| Pixels.ClampedStore | src/utils/image/enhancement.ts:41 | storing into a `Uint8ClampedArray` gives a byte: NaN and -Infinity store 0, +Infinity stores 255, an integer is clamped |
| Pixels.ImageData.constructor | src/utils/image/enhancement.ts:12 | `new ImageData(data, width, height)` holds exactly the given buffer and size |
| Sorting.Insert | src/utils/image/enhancement.ts:106 | inserting one number makes the sequence one element longer |
| Sorting.InsertSorted | src/utils/image/enhancement.ts:106 | inserting into a sorted sequence keeps it sorted |
| Sorting.InsertMultiset | src/utils/image/enhancement.ts:106 | insertion adds exactly the inserted number to the multiset |
| Sorting.SortSorted | src/utils/image/enhancement.ts:106 | the numeric sort returns an ascending permutation of its input |
| Sorting.SortedElement | src/utils/image/enhancement.ts:106-107 | every entry of the sorted sequence is an entry of the input |
| Sorting.DefinedMembers | src/utils/image/enhancement.ts:101 | a number is among the gathered defined values iff it was pushed |
| Sorting.DefinedAtLeast | src/utils/image/enhancement.ts:98-103 | a stretch of defined entries contributes at least its length of numbers |
| Sorting.UndefinedCount | src/utils/image/enhancement.ts:106 | the undefined entries and the numbers together make up the whole array |
| Sorting.JsSort | src/utils/image/enhancement.ts:106 | `values.sort((a, b) => a - b)` keeps the array length |
| Sorting.JsSortShape | src/utils/image/enhancement.ts:106 | after the sort the numbers come first in ascending order and every `undefined` follows |
| Enhancement.Brightness | src/utils/image/enhancement.ts:21 | `Math.round((r + g + b) / 3)` is a byte, equal to `(r + g + b + 1) div 3` |
| Enhancement.RoundThirds | src/utils/image/enhancement.ts:21 | rounding a third of an integer sum is `(sum + 1) div 3` |
| Enhancement.CountBrightness | src/utils/image/enhancement.ts:16-23 | a histogram bin counts at most the number of pixels |
| Enhancement.CountAtMostStep | src/utils/image/enhancement.ts:27-30 | the pixels at or below brightness v are those at or below v - 1 plus bin v |
| Enhancement.CountAtMostMonotone | src/utils/image/enhancement.ts:28-30 | the cumulative count does not decrease with the brightness |
| Enhancement.CountAtMostAll | src/utils/image/enhancement.ts:17-30 | every pixel has brightness at most 255, so the last cumulative count is `totalPixels` |
| Enhancement.Cdf | src/utils/image/enhancement.ts:25-30 | the cumulative distribution has 256 entries, each between 0 and the pixel count |
| Enhancement.FirstPositive | src/utils/image/enhancement.ts:33 | `cdf.find(x => x > 0) \|\| 0` is 0 exactly when no entry is positive, and otherwise is an entry of the table |
| Enhancement.Table | src/utils/image/enhancement.ts:32-36 | the normalized table has 256 entries |
| Enhancement.TableEntry | src/utils/image/enhancement.ts:35 | entry v of the table: `round((cdf[v] - cdfMin) / (totalPixels - cdfMin) * 255)` as a JavaScript number, NaN or an infinity when the denominator is 0 |
| Enhancement.Equalize | src/utils/image/enhancement.ts:15-44 | equalization keeps the length and the alpha bytes and produces bytes |
| Enhancement.EqualizeHistogram | src/utils/image/enhancement.ts:15-44 | the in-place pass leaves exactly `Equalize` of the old buffer |
| Enhancement.BuildHistogram | src/utils/image/enhancement.ts:16-23 | the histogram loop counts, for each brightness, the pixels of that brightness |
| Enhancement.CumulativeDistribution | src/utils/image/enhancement.ts:25-30 | the prefix-sum loop produces `Cdf` |
| Enhancement.NormalizeCdf | src/utils/image/enhancement.ts:32-36 | the normalization loop maps each entry through `round((cdf[v] - cdfMin) / (total - cdfMin) * 255)` as a JavaScript number |
| Enhancement.ApplyTable | src/utils/image/enhancement.ts:38-43 | each colour byte is replaced by its table entry stored through the clamped array; the alpha bytes are kept |
| Enhancement.EntryMonotone | src/utils/image/enhancement.ts:35 | when `cdfMin < totalPixels`, a table entry does not decrease as the cumulative count grows |
| Enhancement.EntryTop | src/utils/image/enhancement.ts:35 | the entry for the full pixel count stores 255 |
| Enhancement.EntryDegenerate | src/utils/image/enhancement.ts:35 | when `cdfMin == totalPixels` every entry is NaN or -Infinity and stores 0 |
| Enhancement.TableMonotone | src/utils/image/enhancement.ts:32-43 | the stored table is non-decreasing, so equalization preserves the order of brightnesses |
| Enhancement.CdfMinAtMostTotal | src/utils/image/enhancement.ts:33 | `cdfMin` lies between 0 and the pixel count |
| Enhancement.DegenerateTableIsZero | src/utils/image/enhancement.ts:33-36 | when `cdfMin` equals the pixel count (one occupied bin) every table entry is NaN or -Infinity and stores 0 |
| Enhancement.TableTop | src/utils/image/enhancement.ts:32-36 | the brightest entry of the table stores 255 |
| Enhancement.EqualizeSingleBrightness | src/utils/image/enhancement.ts:15-44 | when all pixels share one brightness, equalization zeroes every colour byte and keeps alpha |
| Enhancement.SingleBin | src/utils/image/enhancement.ts:16-23 | a single-brightness image puts all pixels into one bin and none below it |
| Enhancement.FirstPositiveAt | src/utils/image/enhancement.ts:33 | `find` returns the first positive entry: the one with no positive entry before it |
| Enhancement.ContrastValue | src/utils/image/enhancement.ts:51-53 | the contrast formula `round(factor * v + 128 (1 - factor))` stores a byte |
| Enhancement.Contrasted | src/utils/image/enhancement.ts:46-56 | contrast keeps the length and alpha, and maps bytes to bytes |
| Enhancement.ContrastedPixel | src/utils/image/enhancement.ts:49-54 | a pixel's three colour bytes go through the formula and its alpha byte is kept |
| Enhancement.ContrastPixel | src/utils/image/enhancement.ts:50-54 | the channel loop rewrites one pixel's colour bytes and nothing else |
| Enhancement.AdjustContrast | src/utils/image/enhancement.ts:46-56 | the in-place pass leaves exactly `Contrasted` of the old buffer |
| Enhancement.ContrastMonotone | src/utils/image/enhancement.ts:51-53 | for a non-negative factor contrast preserves the order of byte values |
| Enhancement.ContrastAnchors | src/utils/image/enhancement.ts:8 | at factor 1.2, 0 stays 0, 128 stays 128 and 255 stays 255 |
| Enhancement.ContrastClosedForm | src/utils/image/enhancement.ts:46-56 | at factor 1.2 a byte v becomes `Clamp((6v - 126) div 5)`, an integer formula |
| Enhancement.KernelSum | src/utils/image/enhancement.ts:63-67 | the 3x3 kernel sums to `5 centre - up - left - right - down` |
| Enhancement.Sharpened | src/utils/image/enhancement.ts:58-86 | sharpening keeps the length and alpha, and produces bytes from bytes |
| Enhancement.SharpenAt | src/utils/image/enhancement.ts:71-85 | the byte sharpening leaves at an index: the clamped kernel sum over the snapshot for a colour byte of an interior pixel, the snapshot byte otherwise |
| Enhancement.Convolve | src/utils/image/enhancement.ts:74-80 | the kernel loops compute the weighted sum of the nine neighbours read from the snapshot |
| Enhancement.TapStep | src/utils/image/enhancement.ts:77-78 | each kernel step reads a neighbour inside the buffer and adds its weighted value |
| Enhancement.SharpenPixel | src/utils/image/enhancement.ts:73-83 | one pixel's colour bytes are replaced by their clamped sums; alpha and the rest stay |
| Enhancement.SharpenRow | src/utils/image/enhancement.ts:72-84 | one row's interior pixels are sharpened and the rest of the buffer is as before |
| Enhancement.SharpenImage | src/utils/image/enhancement.ts:58-86 | the in-place pass leaves exactly `Sharpened` of the old buffer, read from a snapshot |
| Enhancement.SharpenKeepsBorder | src/utils/image/enhancement.ts:71-72 | pixels on the first and last rows and columns are left unchanged |
| Enhancement.SharpenSmallUnchanged | src/utils/image/enhancement.ts:71-72 | an image less than three pixels wide or high is left unchanged |
| Enhancement.SharpenUniformUnchanged | src/utils/image/enhancement.ts:58-86 | a single-colour image is a fixed point of sharpening |
| Enhancement.Lookup | src/utils/image/enhancement.ts:100-101 | reading `temp[idx]` yields a value iff the index is inside the buffer, and undefined otherwise |
| Enhancement.Window | src/utils/image/enhancement.ts:95-103 | nine values are gathered per window |
| Enhancement.StoreValue | src/utils/image/enhancement.ts:107 | storing into the clamped array gives a byte; a defined byte is stored as is |
| Enhancement.Denoised | src/utils/image/enhancement.ts:88-110 | the median filter keeps the length and alpha, and produces bytes from bytes |
| Enhancement.DenoiseAt | src/utils/image/enhancement.ts:93-108 | the byte the median filter leaves at an index: the window median for a colour byte of a walked pixel, the snapshot byte otherwise |
| Enhancement.Median | src/utils/image/enhancement.ts:95-107 | the stored value for a channel: entry `floor(9 / 2)` of the JavaScript-sorted nine reads, through the clamped store |
| Enhancement.GatherWindow | src/utils/image/enhancement.ts:98-103 | the gathering loops push exactly the nine windowed reads in row order |
| Enhancement.MedianOfWindow | src/utils/image/enhancement.ts:95-107 | the gather-sort-pick sequence yields the median of the window |
| Enhancement.DenoiseKeepsAlpha | src/utils/image/enhancement.ts:94 | the alpha byte of each pixel is untouched |
| Enhancement.DenoiseChannel | src/utils/image/enhancement.ts:93-107 | a colour byte on the walk becomes its window's median |
| Enhancement.DenoisePixel | src/utils/image/enhancement.ts:94-108 | one pixel's colour bytes become their medians; the rest of the buffer stays |
| Enhancement.ReduceNoise | src/utils/image/enhancement.ts:88-110 | the in-place pass leaves exactly `Denoised` of the old buffer, read from a snapshot |
| Enhancement.WindowEdges | src/utils/image/enhancement.ts:93-103 | on the walk only the two corner reads can leave the buffer: the first at the first walked pixel, the last at the last |
| Enhancement.WindowInner | src/utils/image/enhancement.ts:93-103 | the seven inner reads of a walked window are always defined |
| Enhancement.MedianIsWindowValue | src/utils/image/enhancement.ts:106-107 | the stored value is the fifth smallest defined value, and is one of the window's values |
| Enhancement.DenoiseKeepsEdgeRows | src/utils/image/enhancement.ts:93 | a byte in the first or last row, outside the walk, is unchanged |
| Enhancement.DenoiseKeepsRows | src/utils/image/enhancement.ts:93 | the first and last rows are never filtered |
| Enhancement.DenoiseShortUnchanged | src/utils/image/enhancement.ts:93 | an image at most two rows high is left unchanged |
| Enhancement.DenoiseUniformUnchanged | src/utils/image/enhancement.ts:88-110 | a single-colour image is a fixed point of the median filter |
| Enhancement.Enhanced | src/utils/image/enhancement.ts:3-13 | the four passes in order keep the buffer shape and the alpha bytes |
| Enhancement.EnhanceImage | src/utils/image/enhancement.ts:3-13 | returns a fresh image of the same size holding `Enhanced` of the input; the input is untouched |
| Enhancement.EqualizeUniform | src/utils/image/enhancement.ts:15-44 | a single-colour image equalizes to black with its alpha kept |
| Enhancement.ContrastUniform | src/utils/image/enhancement.ts:46-56 | contrast maps a single-colour image to the single contrasted colour |
| Enhancement.ContrastedEqualizedUniform | src/utils/image/enhancement.ts:7-8 | a single-colour image is black after the first two passes |
| Enhancement.UniformLaterStages | src/utils/image/enhancement.ts:9-10 | the last two passes leave a single-colour image unchanged |
| Enhancement.EnhanceSingleColour | src/utils/image/enhancement.ts:3-13 | `enhanceImage` turns any single-colour image black, with its alpha kept |
| FaceDetection.ContainsTransitive | src/utils/image/face/detection.ts:224-236 | containment of rectangles is transitive |
| FaceDetection.MergeRects | src/utils/image/face/detection.ts:224-236 | the merged rectangle spans from the smaller left/top to the larger right/bottom and contains both inputs |
| FaceDetection.MergeRectsLeast | src/utils/image/face/detection.ts:224-236 | it is the smallest rectangle containing both |
| FaceDetection.MergeRectsCommutative | src/utils/image/face/detection.ts:224-236 | merging is symmetric |
| FaceDetection.MergeRectsIdempotent | src/utils/image/face/detection.ts:224-236 | merging a rectangle of non-negative size with itself gives it back |
| FaceDetection.Overlap | src/utils/image/face/detection.ts:211-222 | calculateOverlap: the intersection area divided by the smaller area, as a JavaScript number |
| FaceDetection.IntersectionAtMost | src/utils/image/face/detection.ts:212-218 | for rectangles of non-negative size the intersection area lies between 0 and each rectangle's area |
| FaceDetection.OverlapBounded | src/utils/image/face/detection.ts:211-222 | for rectangles of non-negative size the overlap is NaN exactly when the smaller area is 0, and otherwise a fraction in [0, 1] |
| FaceDetection.OverlapSymmetric | src/utils/image/face/detection.ts:211-222 | the overlap measure is symmetric |
| FaceDetection.OverlapSelf | src/utils/image/face/detection.ts:211-222 | a non-empty rectangle overlaps itself by exactly 1 |
| FaceDetection.OverlapTest | src/utils/image/face/detection.ts:198-222 | `overlap > 0.3` holds iff 10 times the intersection area exceeds 3 times the smaller area, including when the smaller area is 0 and the quotient is NaN |
| FaceDetection.ZeroAreaMeetsNothing | src/utils/image/face/detection.ts:212-216 | a rectangle of zero area has zero intersection with any rectangle |
| FaceDetection.IsSkinColor | src/utils/image/face/detection.ts:138-155 | isSkinColor: the channel thresholds, `r - g > 15`, `max - min > 15`, `abs(r - g) > 15`, and the normalized shares `r / (r + g + b) > 0.35` and `g / (r + g + b) < 0.36` as JavaScript numbers (NaN fails both) |
| FaceDetection.SkinColorIntegerForm | src/utils/image/face/detection.ts:138-155 | the skin test, including the normalized-share tests, is equivalent to an integer condition; the max-min and abs tests are implied by the others |
| FaceDetection.GreyNeverSkin | src/utils/image/face/detection.ts:147-154 | a grey pixel (r = g = b) is never skin-coloured |
| FaceDetection.EdgeStrength | src/utils/image/face/detection.ts:157-171 | the edge strength of a pixel is a non-negative square root |
| FaceDetection.Confidence | src/utils/image/face/detection.ts:173-182 | for non-negative ratios the confidence lies in [0, 1], and it is at most `1.4 skinRatio + 0.3` |
| FaceDetection.ConfidenceWithoutSkin | src/utils/image/face/detection.ts:173-182 | without skin pixels the confidence is at most 0.3 |
| FaceDetection.ConfidenceNeedsSkin | src/utils/image/face/detection.ts:173-182 | reaching the default threshold `DefaultThreshold` (0.8) needs a skin ratio of at least 5/14 |
| FaceDetection.WindowConfidence | src/utils/image/face/detection.ts:101-136 | the confidence of a window: its skin count and edge sum, each divided by `size * size`, combined by calculateConfidence |
| FaceDetection.EvaluateWindow | src/utils/image/face/detection.ts:101-136 | the window loops yield the confidence computed from the window's skin count and edge sum |
| FaceDetection.ReadSkin | src/utils/image/face/detection.ts:114-123 | the pixel read tests the skin colour of the addressed pixel |
| FaceDetection.WindowCounters | src/utils/image/face/detection.ts:112-130 | the row loop counts the window's skin pixels and sums the edge strength of rows after the first |
| FaceDetection.RowCounters | src/utils/image/face/detection.ts:113-129 | the column loop adds the row's skin pixels and, after the first row, the edge strength of columns after the first |
| FaceDetection.Step | src/utils/image/face/detection.ts:85 | the stride `max(1, floor(size / 4))` is at least 1 |
| FaceDetection.ScanRow | src/utils/image/face/detection.ts:88-94 | the windows of one row, x from a start up to `width - size` exclusive in steps of the stride, kept when their confidence reaches the threshold |
| FaceDetection.ScanRows | src/utils/image/face/detection.ts:87-95 | the rows y from a start up to `height - size` exclusive in steps of the stride, concatenated in order |
| FaceDetection.ScanSizes | src/utils/image/face/detection.ts:82-96 | the windows of each size from the s-th of 24, 36, 48, 64 on, concatenated in size order |
| FaceDetection.Candidates | src/utils/image/face/detection.ts:74-99 | what detectFacesAtScale returns: the windows of all four sizes |
| FaceDetection.DetectFacesAtScale | src/utils/image/face/detection.ts:74-99 | the scan returns the candidate windows of one level, by size, row and column |
| FaceDetection.ScanWindows | src/utils/image/face/detection.ts:87-95 | the rows of one window size append that size's candidates |
| FaceDetection.ScanWindowRow | src/utils/image/face/detection.ts:88-94 | one row appends the windows on it that reach the threshold |
| FaceDetection.ScanRowCandidates | src/utils/image/face/detection.ts:88-93 | each window found on a row is square, on the stride grid, strictly inside the level and at or above the threshold |
| FaceDetection.ScanRowsCandidates | src/utils/image/face/detection.ts:87-95 | the same holds for every row of one size |
| FaceDetection.ScanSizesCandidates | src/utils/image/face/detection.ts:82-96 | the same holds for every size scanned from a given one on |
| FaceDetection.CandidatesWellFormed | src/utils/image/face/detection.ts:74-99 | every detection at a level has one of the sizes 24, 36, 48 or 64, lies on that size's grid and strictly inside the level, and reaches the threshold |
| FaceDetection.GreyRowSkin | src/utils/image/face/detection.ts:121-123 | a grey row contributes no skin pixels |
| FaceDetection.GreyPixelNotSkin | src/utils/image/face/detection.ts:117-121 | a grey pixel is not counted as skin |
| FaceDetection.GreyWindowSkin | src/utils/image/face/detection.ts:112-130 | a grey window has no skin pixels |
| FaceDetection.GreyScanRow | src/utils/image/face/detection.ts:88-94 | with a threshold above 0.3, no window on a grey row is detected |
| FaceDetection.GreyScanRows | src/utils/image/face/detection.ts:87-95 | nor on any of its rows |
| FaceDetection.GreyScanSizes | src/utils/image/face/detection.ts:84-96 | nor at any window size |
| FaceDetection.GreyLevelHasNoCandidates | src/utils/image/face/detection.ts:74-99 | a grey level yields no detections at a threshold above 0.3 |
| FaceDetection.Absorb | src/utils/image/face/detection.ts:195-203 | the inner loop from j on: skip used indices; absorb a face whose overlap with the grown rectangle exceeds 0.3, marking it used |
| FaceDetection.MergeFrom | src/utils/image/face/detection.ts:189-206 | the outer loop from i on: skip used indices; otherwise seed a rectangle with face i, absorb, push it |
| FaceDetection.Merge | src/utils/image/face/detection.ts:184-209 | what mergeFaceDetections returns: the outer loop from 0 with nothing used |
| FaceDetection.MergeFaceDetections | src/utils/image/face/detection.ts:184-209 | the merge loops with their `used` set produce the greedy merge |
| FaceDetection.AbsorbCovers | src/utils/image/face/detection.ts:195-203 | the inner loop only adds later indices to `used`, and its rectangle contains the seed and each face it absorbs |
| FaceDetection.MergeFromCovers | src/utils/image/face/detection.ts:189-206 | every face not yet used is contained in some merged rectangle |
| FaceDetection.MergeCovers | src/utils/image/face/detection.ts:184-209 | every input face is contained in some output rectangle |
| FaceDetection.MergeFromSeeds | src/utils/image/face/detection.ts:189-206 | every rectangle the outer loop pushes from i on contains a face at an index from i on that was not used before |
| FaceDetection.MergeSeeds | src/utils/image/face/detection.ts:184-209 | every merged rectangle contains at least one input face |
| FaceDetection.MergeFromLength | src/utils/image/face/detection.ts:189-206 | at most one rectangle is pushed per remaining index |
| FaceDetection.MergeLength | src/utils/image/face/detection.ts:184-209 | merging never adds rectangles, and it gives no rectangles exactly when there were none |
| FaceDetection.DetectFaces | src/utils/image/face/detection.ts:9-27 | the candidates of every level, collected in level order, are merged |
| FaceDetection.AllCandidates | src/utils/image/face/detection.ts:20-24 | the candidates of every level, concatenated in level order |
| FaceDetection.AllCandidatesOf | src/utils/image/face/detection.ts:20-24 | each collected candidate was detected at one of the levels |
| FaceDetection.DetectedFacesCoverCandidates | src/utils/image/face/detection.ts:20-26 | the result has no more rectangles than the candidates, and contains each of them |
| FaceDetection.DetectedFacesContainCandidates | src/utils/image/face/detection.ts:9-27 | every reported rectangle contains some candidate window of some level |
| FaceDetection.GreyLevelsDetectNothing | src/utils/image/face/detection.ts:9-27 | a pyramid of grey levels yields no faces at a threshold above 0.3 |
| FaceDetection.GreyLevelsDetectNothingByDefault | src/utils/image/face/detection.ts:13 | with the default threshold 0.8, grey levels yield no faces |
| FaceDetection.GreyAllCandidates | src/utils/image/face/detection.ts:20-24 | grey levels contribute no candidates |
| Preprocessing.LightContrastValue | src/utils/imagePreprocessing.ts:61-69 | `min(255, max(0, round(1.2 (v - 128) + 128)))` is a byte |
| Preprocessing.LightContrastAt | src/utils/imagePreprocessing.ts:62-70 | the byte the contrast loop leaves at an index: the formula for the three colour bytes of a pixel, the byte itself for alpha |
| Preprocessing.LightContrastAgrees | src/utils/imagePreprocessing.ts:67-69 | the formula equals the four-stage enhancer's contrast at factor 1.2 |
| Preprocessing.LightContrasted | src/utils/imagePreprocessing.ts:62-71 | the contrast loop keeps the length and alpha, and maps bytes to bytes |
| Preprocessing.LightContrastedAgrees | src/utils/imagePreprocessing.ts:61-71 | the loop equals `adjustContrast(data, 1.2)` |
| Preprocessing.LightContrastedPixel | src/utils/imagePreprocessing.ts:64-70 | each pixel's colour bytes go through the formula and its alpha is kept |
| Preprocessing.LightContrastPixel | src/utils/imagePreprocessing.ts:64-70 | the channel loop rewrites one pixel's colour bytes and nothing else |
| Preprocessing.LightContrast | src/utils/imagePreprocessing.ts:62-71 | the in-place loop leaves exactly `LightContrasted` of the old buffer |
| Preprocessing.LightEnhanced | src/utils/imagePreprocessing.ts:57-100 | the light enhancement keeps the buffer shape and the alpha bytes |
| Preprocessing.EnhanceImageData | src/utils/imagePreprocessing.ts:57-100 | rewrites the caller's buffer to contrast-then-sharpen and returns the same object |
| Preprocessing.LightEnhancedIsContrastThenSharpen | src/utils/imagePreprocessing.ts:61-97 | the light enhancer is contrast 1.2 followed by the four-stage enhancer's sharpening |
| Preprocessing.LightEnhancedBorder | src/utils/imagePreprocessing.ts:83-84 | border pixels keep their contrasted value |
| Preprocessing.LightEnhancedSingleColour | src/utils/imagePreprocessing.ts:57-100 | a single-colour image becomes the single contrasted colour, not black |
| Preprocessing.EnhanceIfRequested | src/utils/imagePreprocessing.ts:40-45 | the buffer is enhanced exactly when `enhanceFaces` is set, and otherwise left as it is |
| Preprocessing.CanvasSize | src/utils/imagePreprocessing.ts:25-32 | the drawn size: the decoded size, times `sqrt(maxSize / fileSize)` when the file is larger than `maxSize` |
| Preprocessing.NoDownscaleWithinLimit | src/utils/imagePreprocessing.ts:25-32 | a file no larger than `maxSize` is drawn at its decoded size |
| Preprocessing.DownscaleArea | src/utils/imagePreprocessing.ts:28-32 | a larger file is drawn no larger in either dimension, at `maxSize / fileSize` times the decoded area |
| Preprocessing.DefaultCanvasSize | src/utils/imagePreprocessing.ts:8-32 | with the default limit of 4 MiB, a file up to that size keeps its size, and a larger one shrinks to `4 MiB / fileSize` times its area |

## Left out

- Pyramid generation (`generateImageScales`, `scaleImageData`, `detection.ts:29-72`) draws rescaled copies on a canvas. `DetectFaces` takes the levels as given values instead, so `minFaceSize` and `scaleFactor`, which only the pyramid uses, are not modelled. Rectangles found on a level are kept in that level's coordinates, as in the code.
- `Math.sqrt` is the parameter `root` in `EdgeStrength`, assumed only non-negative. It is the parameter `sqrt` in `CanvasSize`, assumed to square back to its argument.
- Arithmetic is exact: floating-point rounding is not modelled. Examples are `(r + g + b) / 3` before `Math.round`, the equalization quotient, the contrast product, and the confidence sums. A tie that floating point would round differently is computed exactly instead.
- FaceDetection.ValidLevel: this checks only that a level's buffer has four bytes per pixel. It does not check that they are bytes, which the detector never relies on.
- `preprocessImage`'s I/O is not modelled: `createImageBitmap`, canvas drawing, `getImageData`/`putImageData`, `toBlob` and the `File` it builds. The canvas's truncation of a fractional width or height is also not modelled. `CanvasSize` gives the real-valued size the code computes.
- The `detectFaces` option of `preprocessImage` is not modelled: the code destructures it but never reads it.
- The code outside these three files (components, hooks, pages, network clients, shared types) is not part of this model.
- `MergeFaceDetections` and `DetectFaces` work on sequences of value rectangles. DOMRect object identity is not modelled.
