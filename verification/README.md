# throw-shoes face cropping, modelled in Dafny

This project models the image geometry of the two face-cropping scripts of the
throw-shoes repository.

`scripts/face_cropper.py` does the following:

- It finds skin-coloured pixels by fixed YCbCr thresholds plus an RGB guard.
- It cleans the mask with square-window binary morphology: opening, closing and dilation.
- It keeps the largest 8-connected component, found by a row-major scan with a breadth-first flood fill.
- It grows the component's bounding box and squares it inside the frame.
- It crops the image there. When there is no component, it falls back to a centred square.

`utils/cropfaceutil.py` does the following:

- It crops an RGBA cut-out to its visible pixels plus a margin.
- It pads the result with transparency to the standard 1:1 aspect.
- It names the output files.
- It scans a body image for the neck row.

The modules follow the program's structure:

| module | models |
|---|---|
| `Grids` | masks, `np.where`, and first and last set indices |
| `RgbaImages` | RGBA pixels and Python's two-axis slicing |
| `ContentCrop` | `crop_to_content` |
| `AspectPad` | `pad_to_aspect` |
| `BodyScan` | the integer part of `analyse_body_image` |
| `Doubles` | binary64 rounding of `int(w * 0.35)` |
| `OutputNames` | the save paths of `cutout` and the face lookup of `main_cli` |
| `Skin` | `skin_mask` |
| `Morphology` | `_binary_morph` and its wrappers |
| `Components` | `flood_fill` and `largest_component_mask` |
| `CropBoxes` | `CropBox`, `make_square`, `compute_crop_box` and `fallback_crop`'s box |
| `FaceCropper` | `crop_to_face` |

The flood fill and the component scan keep the source's form:

- They are methods.
- The `visited` array is an `array2<bool>` that they update in place.
- Their queue and candidate loops are proved against a specification: connected components of the mask, and the first largest one in row-major order.

`pad_to_aspect` writes the image into a fresh `array2` canvas with two nested loops. Pure computations are functions with lemmas.

## Model

| member | source | states |
|---|---|---|
| Grids.Where | throw-shoes/scripts/face_cropper.py:215 | `np.where(row)[0]` lists only true indices, and lists every true index |
| Grids.WhereIncreasing | throw-shoes/scripts/face_cropper.py:215-216 | the candidates come in strictly increasing column order |
| Grids.WhereEnds | throw-shoes/utils/cropfaceutil.py:276-280 | `xs[0]` and `xs[-1]` are the first and the last opaque column |
| Grids.First | throw-shoes/utils/cropfaceutil.py:279 | the first true index: it is true and nothing before it is |
| Grids.Last | throw-shoes/utils/cropfaceutil.py:280 | the last true index: it is true and nothing after it is |
| Grids.CountWhere | throw-shoes/utils/cropfaceutil.py:276-277 | `xs.size` is the number of true entries |
| Grids.CountSpan | throw-shoes/utils/cropfaceutil.py:277-280 | a row with more than t opaque pixels spans more than t columns from `xs[0]` to `xs[-1]` |
| Grids.BoundsOf | throw-shoes/scripts/face_cropper.py:256-258 | `ys.min()`, `ys.max()`, `xs.min()` and `xs.max()` lie in the grid, bound every set cell, and each is attained by a set cell |
| RgbaImages.AlphaMask | throw-shoes/utils/cropfaceutil.py:107-108 | a cell is set exactly when its alpha is positive |
| RgbaImages.PyIndex | throw-shoes/utils/cropfaceutil.py:113 | a slice bound: in-range bounds are kept, negative ones count from the end, a bound above n clamps to n, and the result lies in [0, n] |
| RgbaImages.PySlice | throw-shoes/utils/cropfaceutil.py:113 | `s[a:b]` has length max(b' - a', 0) for the normalised bounds, and element i is `s[a' + i]` |
| RgbaImages.Cut | throw-shoes/utils/cropfaceutil.py:113 | `img[y0:y1, x0:x1]` is rectangular and no larger than img; for in-range bounds it is exactly the window, pixel by pixel |
| RgbaImages.CutPixel | throw-shoes/utils/cropfaceutil.py:113 | pixel (i, j) of an in-range cut is pixel (y0 + i, x0 + j) |
| RgbaImages.CutWhole | throw-shoes/utils/cropfaceutil.py:113 | cutting the full range returns the image |
| ContentCrop.ContentWindow | throw-shoes/utils/cropfaceutil.py:108-112 | the margin window is clipped to the image on every side, for any margin |
| ContentCrop.CutWindow | throw-shoes/utils/cropfaceutil.py:113 | the inclusive-window cut is rectangular and no larger than the image |
| ContentCrop.CropToContent | throw-shoes/utils/cropfaceutil.py:106-113 | an image without a visible pixel is returned unchanged; otherwise the result is rectangular and no larger |
| ContentCrop.CropIsCut | throw-shoes/utils/cropfaceutil.py:108-113 | with a visible pixel, the result is the cut of the margin window |
| ContentCrop.WindowInside | throw-shoes/utils/cropfaceutil.py:111-112 | for margin >= 0 the window lies in the image and contains every visible pixel |
| ContentCrop.CropToContentWindow | throw-shoes/utils/cropfaceutil.py:111-113 | for margin >= 0 the result has the window's size and copies the window pixel by pixel |
| ContentCrop.PixelKept | throw-shoes/utils/cropfaceutil.py:108-113 | a visible pixel is copied unchanged, shifted by the window corner |
| ContentCrop.VisibleKept | throw-shoes/utils/cropfaceutil.py:108-113 | every visible pixel of the input is kept |
| ContentCrop.LiftPixel | throw-shoes/utils/cropfaceutil.py:108-113 | every visible pixel of the result comes from a visible pixel of the input |
| ContentCrop.DropPixel | throw-shoes/utils/cropfaceutil.py:108-113 | every visible pixel of the input is a visible pixel of the result |
| ContentCrop.CroppedBounds | throw-shoes/utils/cropfaceutil.py:108-113 | the visible bounds of the result are those of the input, shifted by the window corner |
| ContentCrop.SecondWindowWhole | throw-shoes/utils/cropfaceutil.py:111-112 | the window of a cropped image is the whole cropped image |
| ContentCrop.CutWindowWhole | throw-shoes/utils/cropfaceutil.py:113 | a window spanning the whole image cuts out all of it |
| ContentCrop.CropToContentIdempotent | throw-shoes/utils/cropfaceutil.py:106-113 | for margin >= 0, cropping twice is cropping once |
| ContentCrop.TightBorders | throw-shoes/utils/cropfaceutil.py:108-113 | with margin 0, the first and last rows and columns of the result each hold a visible pixel |
| ContentCrop.TightRows | throw-shoes/utils/cropfaceutil.py:112-113 | with margin 0, the first and last rows of the result hold a visible pixel |
| ContentCrop.TightColumns | throw-shoes/utils/cropfaceutil.py:111-113 | with margin 0, the first and last columns of the result hold a visible pixel |
| ContentCrop.BorderPixel | throw-shoes/utils/cropfaceutil.py:112-113 | a visible pixel makes its shifted row of the margin-0 result visible |
| ContentCrop.ColumnPixel | throw-shoes/utils/cropfaceutil.py:111-113 | a visible pixel makes its shifted column of the margin-0 result visible |
| ContentCrop.NegativeMarginWraps | throw-shoes/utils/cropfaceutil.py:111-113 | a negative margin can make Python's negative slice stop wrap, and the only visible pixel is lost |
| AspectPad.CeilDiv | throw-shoes/utils/cropfaceutil.py:130 | `ceil(a / b)` is the least q with q * b >= a |
| AspectPad.NewSize | throw-shoes/utils/cropfaceutil.py:125-135 | neither side shrinks and one side is kept; the size is unchanged exactly when the image is at the ratio |
| AspectPad.NewSizeGrowsOne | throw-shoes/utils/cropfaceutil.py:125-135 | at the ratio nothing changes; otherwise only the short side grows, to the least size that reaches the ratio |
| AspectPad.SquareAtOneToOne | throw-shoes/utils/cropfaceutil.py:20-21 | with the 1:1 target the canvas is max(h, w) square |
| AspectPad.Offset | throw-shoes/utils/cropfaceutil.py:139-149 | "top" gives y0 = 0, "bottom" gives y0 = new_h - h, anything else centres; x0 is always centred; the image fits on the canvas |
| AspectPad.CanvasOf | throw-shoes/utils/cropfaceutil.py:137-151 | the canvas has the new size; each pixel is the image's where the image lies and transparent black elsewhere |
| AspectPad.Paste | throw-shoes/utils/cropfaceutil.py:137-151 | the fresh array written by the two loops holds exactly `CanvasOf` |
| AspectPad.PadToAspect | throw-shoes/utils/cropfaceutil.py:116-152 | a rowless image is the division-by-zero error; otherwise the result is `PadSpec` |
| AspectPad.PadAtRatio | throw-shoes/utils/cropfaceutil.py:125-126 | an image already at the ratio comes back unchanged |
| AspectPad.PadCopies | throw-shoes/utils/cropfaceutil.py:128-151 | the padded image has the new size, holds every input pixel at the anchor offset, and is transparent black elsewhere |
| AspectPad.StandardIsSquare | throw-shoes/utils/cropfaceutil.py:181 | `pad_to_aspect(cropped, 1, 1)` returns a max(h, w) square |
| BodyScan.Opaque | throw-shoes/utils/cropfaceutil.py:276 | `alpha[y] > 0`, entry by entry |
| BodyScan.Threshold | throw-shoes/utils/cropfaceutil.py:270 | `max(1, int(0.08 w))` is at least 1 and is the floor of 8% of w once that reaches 1 |
| BodyScan.Fallback | throw-shoes/utils/cropfaceutil.py:283-286 | the fallback values are the floors of 20% of h and 35% and 65% of w, and lie in the image |
| BodyScan.FallbackAsWritten | throw-shoes/utils/cropfaceutil.py:283-286 | the fallback as written, with the binary64 product for 35%: the neck row and right column are those of the corrected fallback; below the width bound the left column is the floor of 35% of w or one less, and the three values lie in the image |
| BodyScan.FallbackDiffers | throw-shoes/utils/cropfaceutil.py:285 | for w = 180 the fallback as written gives 62, not 63 |
| BodyScan.ScanNeck | throw-shoes/utils/cropfaceutil.py:275-281 | the loop with its `break` finds the first row with more than the threshold of opaque pixels, with its first and last opaque columns, and finds nothing exactly when no row qualifies |
| BodyScan.AnalyseBody | throw-shoes/utils/cropfaceutil.py:265-299 | `analyse_body_image` as written: an image without rows or columns is the division-by-zero error; otherwise the neck row is the first qualifying row with its first and last opaque columns, or the binary64 fallback when no row qualifies; width and height are reported; below the width bound the neck lies in the image |
| BodyScan.AnalyseBodyCorrected | throw-shoes/utils/cropfaceutil.py:265-299 | the same outcome with the intended fallback (the floor of 35% of w), and the neck always lies in the image |
| BodyScan.NeckInImage | throw-shoes/utils/cropfaceutil.py:276-280 | the found neck row lies in the image and its first opaque column is at or left of its last |
| BodyScan.NeckFound | throw-shoes/utils/cropfaceutil.py:275-281 | the first qualifying row gives its first and last opaque columns, which span more than the threshold |
| Doubles.BitLengthBounds | throw-shoes/utils/cropfaceutil.py:285 | a positive number of k binary digits lies in [2^(k-1), 2^k) |
| Doubles.RoundError | throw-shoes/utils/cropfaceutil.py:285 | rounding a product to a double is exact below 2^53 and otherwise moves it by at most 2^-53 of its value |
| Doubles.RoundNearest | throw-shoes/utils/cropfaceutil.py:285 | rounding to nearest a multiple of a unit, ties to even, moves the value by at most half the unit |
| Doubles.QuotientBounds | throw-shoes/utils/cropfaceutil.py:285 | truncating the rounded value by 2^e stays within the relative error of the exact quotient |
| Doubles.TruncatedProduct | throw-shoes/utils/cropfaceutil.py:285 | `int(w * c)` for a double c = m / 2^e is the exact floor of w * m / 2^e while w * m is below 2^53, and otherwise lies within a relative 2^-53 of it |
| Doubles.Point35Floor | throw-shoes/utils/cropfaceutil.py:285 | below the width bound 2^48, `int(w * 0.35)` is the floor of 35% of w or one less |
| Doubles.Width180Counterexample | throw-shoes/utils/cropfaceutil.py:285 | the binary64 product 180 * 0.35 truncates to 62 |
| OutputNames.Decimal | throw-shoes/utils/cropfaceutil.py:241 | `str(i)` is a non-empty string of digits, one digit exactly below 10 |
| OutputNames.DecimalInjective | throw-shoes/utils/cropfaceutil.py:241 | different indices have different decimal strings |
| OutputNames.IndexedName | throw-shoes/utils/cropfaceutil.py:241 | `root_i` plus the extension starts with the root and is longer than root and extension together |
| OutputNames.IndexedNamesDistinct | throw-shoes/utils/cropfaceutil.py:240-241 | the indexed names of different outputs differ |
| OutputNames.IndexedNameIsNotOutPath | throw-shoes/utils/cropfaceutil.py:235-241 | an indexed name never equals the plain output path |
| OutputNames.SavePaths | throw-shoes/utils/cropfaceutil.py:235-243 | one output is saved to the output path; n outputs go to `root_i` plus the extension or ".png"; no two paths coincide |
| OutputNames.LocateFace | throw-shoes/utils/cropfaceutil.py:330-339 | the output path when it exists, otherwise the index-0 name when that exists, otherwise the "Unable to locate" error |
| OutputNames.LocateFindsFirstOutput | throw-shoes/utils/cropfaceutil.py:330-336 | after a multi-output save without the plain path, the lookup finds the first saved output |
| Skin.WrappedDiff | throw-shoes/scripts/face_cropper.py:157 | uint8 `r - g` wraps: it is r - g when r >= g and 256 - (g - r) otherwise |
| Skin.WrapCounterexample | throw-shoes/scripts/face_cropper.py:157-158 | RGB (200, 203, 110) with YCbCr (191, 82, 134) passes the test as written but is rejected by the intended test |
| Skin.SkinDiffers | throw-shoes/scripts/face_cropper.py:147-158 | the two tests disagree exactly on pixels that pass every other condition with green 1 to 5 above red, where only the test as written accepts; when red is at least green they agree |
| Skin.SkinAsWritten | throw-shoes/scripts/face_cropper.py:147-158 | the test as written never accepts red equal to green, and when red is at least green it demands a difference above 5 |
| Skin.IsSkin | throw-shoes/scripts/face_cropper.py:147-158 | every pixel the intended test accepts is accepted by the test as written |
| Skin.SkinMask | throw-shoes/scripts/face_cropper.py:138-160 | the mask has the image's shape; a cell is set exactly when its pixel passes the intended skin test |
| Skin.SkinMaskAsWritten | throw-shoes/scripts/face_cropper.py:138-160 | the same, for the test as written |
| Skin.SkinMasksDiffer | throw-shoes/scripts/face_cropper.py:157-158 | the mask as written is the intended mask plus exactly the greenish pixels of `SkinDiffers` |
| Morphology.Pad | throw-shoes/scripts/face_cropper.py:196 | padding adds p rows and columns on each side; the border cells are clear and cell (a, b) is the mask's cell (a - p, b - p) |
| Morphology.Dilate | throw-shoes/scripts/face_cropper.py:197-199 | one dilation pass keeps the mask's shape (its cells are stated by `DilateCell`) |
| Morphology.Erode | throw-shoes/scripts/face_cropper.py:197-201 | one erosion pass keeps the mask's shape (its cells are stated by `ErodeCell`) |
| Morphology.Step | throw-shoes/scripts/face_cropper.py:196-203 | one loop turn succeeds exactly on a mask with rows and columns and a mode of "dilate" or "erode"; a mask without rows or columns is the window error, raised before the mode is tested; success keeps the shape |
| Morphology.Repeat | throw-shoes/scripts/face_cropper.py:194-204 | no iterations return the mask; one or more iterations on a mask without rows or columns give the window error; success keeps the shape |
| Morphology.Morph | throw-shoes/scripts/face_cropper.py:187-204 | an even kernel is the kernel error; success keeps the shape |
| Morphology.WindowMax | throw-shoes/scripts/face_cropper.py:197-199 | a window's max is positive exactly when one of its cells is set |
| Morphology.WindowMin | throw-shoes/scripts/face_cropper.py:197-201 | a window's min is positive exactly when all of its cells are set |
| Morphology.DilateCell | throw-shoes/scripts/face_cropper.py:194-199 | a dilated cell is set exactly when a set input cell lies within k // 2 rows and columns |
| Morphology.ErodeCell | throw-shoes/scripts/face_cropper.py:194-201 | an eroded cell is set exactly when every cell within k // 2 rows and columns is inside and set |
| Morphology.DilateKeeps | throw-shoes/scripts/face_cropper.py:198-199 | dilation never clears a set cell |
| Morphology.ErodeShrinks | throw-shoes/scripts/face_cropper.py:200-201 | erosion never sets a clear cell |
| Morphology.ErodeClearsBorder | throw-shoes/scripts/face_cropper.py:194-201 | the zero padding makes erosion clear every cell within k // 2 of the border |
| Morphology.MorphOutcome | throw-shoes/scripts/face_cropper.py:187-204 | an even kernel fails before any work; no iterations return the mask; with one or more iterations, a mask without rows or columns is the window error (raised by `sliding_window_view`), an unknown mode fails next, and "dilate" and "erode" succeed and keep the shape |
| Morphology.BinaryMorph | throw-shoes/scripts/face_cropper.py:187-204 | the loop that reassigns `working` computes `Morph`, errors included |
| Morphology.BinaryDilate | throw-shoes/scripts/face_cropper.py:179-180 | `binary_dilate` keeps the shape when it succeeds |
| Morphology.BinaryErode | throw-shoes/scripts/face_cropper.py:183-184 | `binary_erode` keeps the shape when it succeeds |
| Morphology.BinaryOpen | throw-shoes/scripts/face_cropper.py:171-172 | `binary_open` keeps the shape when it succeeds |
| Morphology.BinaryClose | throw-shoes/scripts/face_cropper.py:175-176 | `binary_close` keeps the shape when it succeeds |
| Morphology.OpenSubset | throw-shoes/scripts/face_cropper.py:171-172 | opening succeeds exactly on a mask with rows and columns, and otherwise is the window error; it keeps the shape and never adds a cell |
| Morphology.CloseKeepsInterior | throw-shoes/scripts/face_cropper.py:175-176 | closing keeps every set cell at least k // 2 from the border |
| Morphology.CloseKeepsShape | throw-shoes/scripts/face_cropper.py:175-176 | closing with an odd kernel succeeds exactly on a mask with rows and columns, and keeps the shape |
| Morphology.RepeatDilateKeeps | throw-shoes/scripts/face_cropper.py:179-180 | iterated dilation succeeds and never clears a set cell |
| Morphology.RefineMask | throw-shoes/scripts/face_cropper.py:163-168 | `refine_mask` succeeds exactly on a mask with rows and columns, is the window error otherwise, and keeps the shape |
| Components.ChainClosedIsComponent | throw-shoes/scripts/face_cropper.py:238-250 | a chain of set cells closed under set 8-neighbours is a connected component |
| Components.Visit | throw-shoes/scripts/face_cropper.py:245-250 | one neighbour check marks a set, unvisited neighbour visited and enqueues it, and keeps the queue invariant |
| Components.ScanRow | throw-shoes/scripts/face_cropper.py:244-250 | the inner neighbour loop leaves every set cell of the neighbour row visited |
| Components.ScanNeighbours | throw-shoes/scripts/face_cropper.py:241-250 | the 3x3 loops leave every set neighbour visited and keep the queue invariant |
| Components.FillStep | throw-shoes/scripts/face_cropper.py:238-250 | one queue turn advances the head and keeps every set neighbour of the dequeued cells visited |
| Components.FloodFill | throw-shoes/scripts/face_cropper.py:230-251 | the result starts at the start cell, is distinct, in the grid and chained by adjacency; its later cells are set and were unvisited; exactly its cells become visited; each set neighbour of a listed cell was visited or is listed |
| Components.NewComponent | throw-shoes/scripts/face_cropper.py:216-217 | a fill from an unvisited set cell returns a new component whose row-major least cell is the start |
| Components.RefillSingle | throw-shoes/scripts/face_cropper.py:215-217 | a fill from a candidate visited earlier in the same row returns just that cell |
| Components.Absorb | throw-shoes/scripts/face_cropper.py:216-217 | the bookkeeping after either kind of fill keeps the inventory of components |
| Components.KeepBest | throw-shoes/scripts/face_cropper.py:218-219 | the best fill is replaced only by a strictly larger one |
| Components.Indicator | throw-shoes/scripts/face_cropper.py:224-226 | `component[ys, xs] = True` sets exactly the listed cells |
| Components.CellsOfIndicator | throw-shoes/scripts/face_cropper.py:224-226 | the set cells of that mask are the listed cells |
| Components.Conclude | throw-shoes/scripts/face_cropper.py:213-219 | after the scan the best fill is a component of largest size, and any component met earlier is strictly smaller |
| Components.KeptNothing | throw-shoes/scripts/face_cropper.py:221-222 | the scan keeps nothing exactly when no cell is set |
| Components.OpenCells | throw-shoes/scripts/face_cropper.py:214-215 | `row & ~visited[y]`, cell by cell |
| Components.FillCandidate | throw-shoes/scripts/face_cropper.py:216-219 | one candidate's fill and comparison keep the scan's invariant and cover the candidate |
| Components.ScanRowCandidates | throw-shoes/scripts/face_cropper.py:214-219 | one row of the scan leaves every set cell of the row covered |
| Components.ScanRows | throw-shoes/scripts/face_cropper.py:207-222 | the scan returns nothing exactly when no cell is set; otherwise the first component of largest size |
| Components.LargestComponentMask | throw-shoes/scripts/face_cropper.py:207-227 | `None` exactly when no cell is set; otherwise a mask of the input's shape whose cells form a component of largest size, and a component met earlier in row-major order is strictly smaller (ties keep the first) |
| CropBoxes.CropBox.Height | throw-shoes/scripts/face_cropper.py:24-26 | `height` is non-negative exactly when top <= bottom, and zero exactly when the box has no rows |
| CropBoxes.CropBox.Width | throw-shoes/scripts/face_cropper.py:28-30 | `width` is non-negative exactly when left <= right, and zero exactly when the box has no columns |
| CropBoxes.CropBox.Clamp | throw-shoes/scripts/face_cropper.py:32-38 | `clamp` gives the largest part of the box whose edges lie in the frame |
| CropBoxes.ClampIdempotent | throw-shoes/scripts/face_cropper.py:32-38 | clamping twice is clamping once |
| CropBoxes.ClampInside | throw-shoes/scripts/face_cropper.py:32-38 | a box inside the frame is left alone |
| CropBoxes.FitAxisProperties | throw-shoes/scripts/face_cropper.py:292-310 | one axis of the sliding and cutting lies in the frame, has length min(side, total), and covers a centred interval |
| CropBoxes.Squared | throw-shoes/scripts/face_cropper.py:278-312 | the reference square lies in the frame |
| CropBoxes.SquaredProperties | throw-shoes/scripts/face_cropper.py:278-312 | the reference square lies in the frame, has height min(side, h) and width min(side, w), and contains the input box when that lies in the frame |
| CropBoxes.MakeSquare | throw-shoes/scripts/face_cropper.py:278-312 | the step-by-step edge adjustment lands in the frame and equals the closed form `Squared` |
| CropBoxes.Expanded | throw-shoes/scripts/face_cropper.py:260-272 | the grown face box lies in the frame and contains the component's bounding box |
| CropBoxes.ComputeCropBox | throw-shoes/scripts/face_cropper.py:254-275 | the box lies in the frame, contains the grown face box and every set cell, and is square unless the frame cuts it |
| CropBoxes.ComputeCropBoxClampNoOp | throw-shoes/scripts/face_cropper.py:274-275 | the final `clamp` changes nothing |
| CropBoxes.FallbackBox | throw-shoes/scripts/face_cropper.py:335-339 | the fallback is a min(w, h) square in the frame, centred horizontally, and raised by side // 6 from the vertical centre; it sits at the top only when the raise reaches it |
| CropBoxes.Crop | throw-shoes/scripts/face_cropper.py:126 | the cut has the box's size, and its pixel (i, j) is pixel (top + i, left + j) |
| FaceCropper.CropFromSkin | throw-shoes/scripts/face_cropper.py:119-126 | an image without rows or columns is the error `refine_mask` raises, and nothing is cut; otherwise the fallback is taken exactly when the refined skin mask has no set cell, and cuts the fallback square; otherwise the box is `compute_crop_box` of the first largest component of that mask; the box lies in the frame and the pixels are its cut |
| FaceCropper.CropToFace | throw-shoes/scripts/face_cropper.py:116-126 | `crop_to_face` as written: the outcome `CropFromSkin` states, for the refined mask of the skin test as written (with the wrapping red-green difference) |
| FaceCropper.CropToFaceCorrected | throw-shoes/scripts/face_cropper.py:116-126 | the same outcome for the refined mask of the intended skin test |

## Left out

The image libraries and the neural nets:

- MediaPipe face mesh, the Haar cascade, GrabCut, `cv2.fillPoly`, `cv2.ellipse` and `cv2.GaussianBlur` are foreign calls.
- Because of that, `cutout`, `cutout_with_haar`, `expand_mask_smart`, `polygon_from_landmarks`, `grabcut_refine_with_chin` and `feather_alpha` are modelled only in their integer parts: `crop_to_content`, `pad_to_aspect`, and the output naming.

Floating point and colour conversion:

- `feathered_alpha` and the RGBA assembly of `crop_to_face` and `fallback_crop` work in floating point (a radial ramp). `CropToFace` returns the RGB cut and its box instead.
- PIL's RGB-to-YCbCr conversion is an input. The YCbCr planes are given beside the RGB image.

Other scripts and I/O:

- `export_debug_layers`, image reading and saving, `print`, argument parsing, `collect_inputs`, `main` and the JSON output of `main_cli` are I/O.
- `os.path.splitext` is taken as given: the root and the extension are inputs with `root + ext` equal to the path.
- File existence is a parameter of `LocateFace`.
- The float ratios of `analyse_body_image` (`neck_row / h` and the others) are left out. Only the integers they are computed from are modelled.

Numeric simplifications:

- The percentages 0.55, 0.25, 0.45, 0.08, 0.2 and 0.65 are read as exact rationals. Each of these doubles is at or above its decimal, so `int(n * p)` agrees with the rational floor for the sizes involved.
- 0.35 is the exception; it is recorded under Findings.
- `pad_to_aspect`'s float ratio test with tolerance 1e-6, and its `ceil` of a float quotient, are modelled as exact cross-multiplication.
- AspectPad.PadToAspect requires positive target sides. The source is only ever called with the constants 1 and 1.
- Morphology kernels are natural numbers. `np.pad`'s error for a negative kernel is not modelled.

Weaker statements:

- ContentCrop.WindowInside, CropToContentWindow, PixelKept, VisibleKept, CroppedBounds and CropToContentIdempotent require a margin of at least 0.
  - `CropToContent` itself follows Python's slicing for any margin.
  - NegativeMarginWraps shows that a negative margin can lose visible pixels.
- CropBoxes.MakeSquare is stated equal to `Squared` only for boxes of non-negative side.
  - `compute_crop_box` only builds such boxes.
  - For other boxes only the frame bounds are stated.
- BodyScan.FallbackAsWritten and BodyScan.AnalyseBody state the bounds of the binary64 left column only for widths below 2^48 (`Doubles.WidthBound`). No bound on the left column is proved for wider images.
- Components.FloodFill and the scan are stated over 8-connected components. The breadth-first order of `coords` is not stated, only which cells it holds.

## Findings

| source | as written | input that shows it | evidently intended | confidence | as-written member | corrected member |
|---|---|---|---|---|---|---|
| throw-shoes/scripts/face_cropper.py:157 | `np.abs(r - g)` on uint8 planes wraps modulo 256, so a green-above-red pixel has a difference of 256 - (g - r) | RGB (200, 203, 110), YCbCr (191, 82, 134): the difference is 253 > 5, so the pixel counts as skin | \|r - g\| > 5 on the true difference, rejecting that pixel | not executed | Skin.WrapCounterexample | Skin.SkinDiffers |
| throw-shoes/utils/cropfaceutil.py:285 | `int(w * 0.35)`: the double nearest 0.35 is below 0.35, so the product can truncate one below 35% of w | w = 180: 180 * 0.35 evaluates to 62.99999999999999, giving 62 | 63, the floor of 35% of 180 | not executed | BodyScan.FallbackDiffers | BodyScan.Fallback |

- `FaceCropper.CropToFace` models the program as written: it refines the mask of `Skin.SkinAsWritten`. `FaceCropper.CropToFaceCorrected` refines the mask of the corrected test `Skin.IsSkin`.
- `BodyScan.AnalyseBody` models the program as written: its fallback is `BodyScan.FallbackAsWritten`, which keeps the binary64 product through `Doubles.TruncatedProduct`. `BodyScan.AnalyseBodyCorrected` uses the corrected `BodyScan.Fallback`.
