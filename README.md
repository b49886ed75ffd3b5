# TAEBSM core, modelled in Dafny

TAEBSM (Tool for Automated Extraction of Brain Slices from MRI scans) runs a batch of MRI volumes through resampling, FSL BET skull stripping and FSL FLIRT registration. It then cuts three mid-volume slices from each volume and crops the background around the brain. The imaging work is done by SimpleITK, FSL and OpenCV. This project models the repository's own logic around those calls:

- **Artifact naming** (`Naming`, on top of `PyStr`).
  - Input paths come from a directory listing.
  - A scan's stem is the last `/`-component of its path, cut at the first `.`.
  - The stem gives the output volume, the registration matrix and the transient resampled volume.
  - The `_mask` test picks the files to delete.
- **Resample output size** (`Resample`).
  - Each axis is `round(size * (spacing / outSpacing))`.
  - `np.round` rounds halves to even.
- **Anatomical views** (`Views`).
  - The scan identifier is recovered from the output volume's path.
  - The midpoint index is `shape // 2` on each axis.
  - The axial plane is taken as is; the coronal and sagittal planes are flipped upside down.
  - The model also gives the paths the images are saved under.
- **Background crop** (`Background`).
  - The largest contour is chosen by Python's `max`.
  - Its extreme points come from numpy's `argmin`/`argmax`.
  - The image is cut as `img[top-3 : bot+3, left-3 : right+3]` with Python slice semantics.
- **FSL option mappings** (`FslOptions`). The BET mode letter sets one flag, and the atlas name selects a reference volume.

Strings are `seq<char>`. `str.split`, `sep.join`, `in`, `str.replace` and POSIX `os.path.join` are defined in `PyStr`: split and join are proved inverse both ways, and `in` is characterised as an occurrence at some index. Directory listings, the contour list and the contour-area function are parameters. Spacings are exact reals.

What the code does, and the model follows:
- Any exception ends the whole run. There is no per-file failure isolation and no quarantine state.
- The crop is not clamped at the top or left edge. A negative slice start counts from the far end (see Findings).
- Files are processed in directory-listing order, unsorted.

## Model

| member | source | states |
|---|---|---|
| PyStr.Split | main.py:54-55 | `s.split(sep)` yields at least one part, no part holds the separator, and joining the parts with the separator gives `s` back |
| PyStr.SplitJoin | main.py:54-55 | joining separator-free parts and splitting again gives the same parts: split and join are inverse both ways |
| PyStr.FirstPart | main.py:55 | `s.split(sep)[0]` is the longest prefix of `s` without the separator: a prefix, separator-free, and either all of `s` or followed by the separator |
| PyStr.LastPart | main.py:54 | `s.split(sep)[-1]` is the longest separator-free suffix of `s`: all of `s` or preceded by the separator |
| PyStr.FirstPartBefore | main.py:55 | the first part of `a + sep + b` is `a` when `a` holds no separator |
| PyStr.LastPartAfter | main.py:54 | the last component of `a + sep + b` is `b` when `b` holds no separator |
| PyStr.ContainsAt | main.py:152 | Python's `p in s` holds exactly when `p` occurs in `s` at some index |
| PyStr.ReplaceAbsent | utils/utils.py:90 | `s.replace(pat, rep)` leaves `s` unchanged when `pat` does not occur in it |
| PyStr.RemoveAppended | utils/utils.py:90 | removing a pattern that cannot overlap itself from `s + pat`, where `s` lacks it, gives `s` |
| PyStr.ReplaceChars | utils/utils.py:90 | a character in neither `s` nor `rep` is not in `s.replace(pat, rep)` |
| PyStr.JoinThenLastPart | main.py:45-47 | `os.path.join(dir, name)` for a name without `/` has `name` as its last component, whatever `dir` is |
| Naming.InputFilesSpec | main.py:45-49 | `get_input_file` returns one path per listing entry, in listing order, each `input_files/` + entry with no doubled `/` and whose last component is the entry |
| Naming.InputStemRoundTrip | main.py:45-55 | the stem of the path built for a listing entry equals the stem of the entry |
| Naming.StemChars | main.py:54-55 | a stem holds neither `/` nor `.` |
| Naming.DerivedFilesSpec | main.py:52-77 | the output, matrix and resampled lists keep length and order; element i is `output_files/`, `mat_files/` or `resampled_files/` + stem of input i + `_final.nii.gz`, `_final.mat` or `_resampled.nii.gz` |
| Naming.DerivedStems | main.py:128-130 | output volume and matrix of a scan share the stem `<stem>_final` and the resampled volume has `<stem>_resampled`, so the zipped loops pair files of one scan |
| Naming.OutputFileCollision | main.py:52-58 | two inputs get the same output volume if and only if their stems are equal |
| Naming.StemCollisionExample | main.py:54-55 | `a.nii.gz` and `a.b.nii` both have stem `a` and the same output volume |
| Naming.SelectMasksSpec | main.py:152 | the mask selection keeps exactly the listing entries containing `_mask`, each as many times as the listing holds it, in listing order |
| Naming.MaskFilesSpec | main.py:152-153 | each mask path is `output_files/` followed directly by a selected entry |
| Naming.MaskFilterSelectsOutput | main.py:152-155 | as written: when a scan's stem contains `_mask`, its own output volume name is selected for deletion |
| Naming.SelectBetMasksSpec | main.py:152-155 | corrected selection: exactly the entries ending in `_mask.nii.gz`, each as many times as the listing holds it, in listing order |
| Naming.BetMaskSeparatesOutputs | main.py:152-155 | the corrected test never selects a scan's output volume and always selects the mask BET writes beside it |
| Resample.RoundHalfEven | utils/utils.py:31-33 | `np.round` gives an integer within one half of `x`, and an even one on a tie |
| Resample.RoundHalfEvenUnique | utils/utils.py:31-33 | those two properties determine the rounded value |
| Resample.OutSizeSpec | utils/utils.py:30-33 | the out size exists exactly when no output spacing is zero; then axis i is the nearest integer to `size[i] * (spacing[i] / out[i])`, ties to even |
| Resample.OutSizeAxisIndependent | utils/utils.py:30-33 | axis i of the out size depends only on axis i's size and spacings |
| Resample.OutSizeSameSpacing | utils/utils.py:30-33 | resampling to the spacing an image already has keeps its size |
| Views.Midpoint | utils/utils.py:95 | `shape // 2` is the floor of half of each axis, and lies in `[0, d)` on every axis of positive length `d` |
| Views.ExtractViews | utils/utils.py:95-105 | fails exactly when some axis has length 0 (`IndexError` on an empty first axis, `cv2.resize` rejecting the empty axial plane at line 98 otherwise); otherwise axial is d1×d2 with `axial[r][c] == V[m0][r][c]`, coronal is d0×d2 with `coronal[r][c] == V[d0-1-r][m1][c]`, sagittal is d0×d1 with `sagittal[r][c] == V[d0-1-r][c][m2]` |
| Views.FlipFlip | utils/utils.py:100-105 | the vertical flip applied twice is the identity |
| Views.ViewsUnflipped | utils/utils.py:100-105 | flipping the coronal and sagittal views back gives the plain slices `V[:, m1, :]` and `V[:, :, m2]` |
| Views.FileIdRoundTrip | utils/utils.py:88-90 | the identifier recovered from a scan's output volume path is the scan's stem whenever that stem contains no `_final` |
| Views.FileIdChars | utils/utils.py:88-90 | an identifier holds no `/` |
| Views.SavePathsSpec | utils/utils.py:108-115 | for an identifier without `/` (every identifier, by FileIdChars) the images go to `anatomical_views/<id>/<id>_<view>.png`; an empty identifier gives `anatomical_views/_<view>.png` with no doubled `/` |
| Background.MaxFrom | utils/utils.py:135 | Python's left-to-right `max` scan ends on a contour of maximal area that comes before every other contour of that area |
| Background.LargestContour | utils/utils.py:135 | `max(cnts, key=area)` raises exactly on an empty list; otherwise it picks the first contour whose area is at least every other's |
| Background.LargestContourUnique | utils/utils.py:135 | the first-maximum properties determine the chosen index |
| Background.ArgMinFrom | utils/utils.py:137-140 | numpy `argmin` gives the first index of the smallest value |
| Background.ArgMaxFrom | utils/utils.py:137-140 | numpy `argmax` gives the first index of the largest value |
| Background.ExtremePoints | utils/utils.py:137-140 | the extreme points are at the first minimal x, first maximal x, first minimal y and first maximal y, and every contour point lies within their box |
| Background.SliceBound | utils/utils.py:150 | a slice bound counts from the end when negative and is clamped to `[0, len]` |
| Background.PySlice | utils/utils.py:150 | `s[start:stop]` has `max(0, b - a)` elements for normalised bounds a, b, and element k is `s[a + k]` |
| Background.ReduceBackground | utils/utils.py:122-152 | the crop fails exactly when there is no contour or the chosen contour is empty |
| Background.CropInterior | utils/utils.py:149-150 | away from the edges the crop has `bot-top+6` rows of `right-left+6` pixels and pixel (r, c) is `img[top-3+r][left-3+c]` |
| Background.CropMarginAsymmetric | utils/utils.py:149-150 | as written: the last crop row is `bot+2`, so the margin is 3 before the box and 2 after it |
| Background.CropWrapsNearTop | utils/utils.py:150 | as written: a box starting less than 3 rows from the top of a tall enough image gives a crop with no rows |
| Background.CropWrapsNearLeft | utils/utils.py:150 | as written: a box starting less than 3 columns from the left of a wide enough image gives crop rows with no pixels |
| Background.Clamp | utils/utils.py:150 | corrected slice bound: a negative bound becomes 0, a bound past `n` becomes `n`, one inside `[0, n]` is unchanged |
| Background.ClampedCrop | utils/utils.py:149-150 | the corrected crop of a box inside the image is never empty |
| Background.ClampedCropKeepsBox | utils/utils.py:149-150 | the corrected crop is the whole image window from `max(0, top-3)`, `max(0, left-3)` to 3 rows and columns past the box (clamped to the image); so it holds every pixel of the box, with up to 3 rows and columns of margin on each side |
| Background.ReduceBackgroundClamped | utils/utils.py:135-150 | with the corrected crop the same error cases hold, and a contour inside the image never gives an empty crop |
| FslOptions.BetMode | utils/utils.py:57-60 | mode `B` sets `reduce_bias` only, `R` sets `robust` only, any other mode sets neither |
| FslOptions.AtlasReference | utils/utils.py:74-77 | the two known atlases map to `utils/atlas/<atlas>_brain.nii.gz`; any other name leaves the reference unset |

## Left out

- Argument parsing and directory bootstrapping (main.py:17-43, main.py:79-111): command-line handling and file-system I/O.
- The driver loops (main.py:113-186) are left out. They read and write images, remove files and directories, show progress bars and time the run. The model has no run state.
- The call at main.py:170 passes one argument to `anatomical_views_extraction`, which takes two (utils/utils.py:86). As written it raises `TypeError`. The image size only feeds `cv2.resize`, which is left out, so `Views.ExtractViews` takes no size.
- SimpleITK's BSpline resampling itself (utils/utils.py:35-45) is a foreign library and is left out.
- `Resample.OutSize` works on exact reals, so it does not capture float rounding in the product `size * (spacing / outSpacing)`.
- `Resample.OutSize` cannot represent a NaN or infinite spacing (argparse accepts `--voxel_size nan`); for those, `int(np.round(...))` at utils/utils.py:31-33 raises `ValueError`, an outcome the model does not have.
- `Resample.OutSize` handles three-dimensional images only. A two-dimensional image raises `IndexError` at the `[2]` of line 33; images with more axes index fine at lines 31-33 and are left to the SimpleITK resampler (lines 35-45), which is outside the model.
- FSL BET and FLIRT runs (utils/utils.py:48-83) are external tools. Only the option mappings are modelled. The degrees of freedom and file paths are passed through unchanged.
- These OpenCV steps are foreign floating-point kernels and are left out: `imread`, `cvtColor`, `GaussianBlur`, `threshold`, `erode`, `dilate`, `findContours` and `resize`. The contour list and the area function are inputs instead.
- `drawContours` and `circle` (utils/utils.py:142-147) are left out because their results are never used.
- `plt.imsave` and the colormap (utils/utils.py:117-119, main.py:181) are file output and are left out.
- The unused `Bcolors` constants (utils/utils.py:12-21) and the `FSLOUTPUTTYPE` environment setting (utils/utils.py:2) are left out.
- Background.ReduceBackground: its own contract states only when it fails. The crop's size and contents are stated by `CropInterior`, `CropMarginAsymmetric`, `CropWrapsNearTop` and `CropWrapsNearLeft`. Those lemmas are about `Crop`, which `ReduceBackground` applies to the box of the chosen contour's extreme points.
- Background.ReduceBackgroundClamped: its own contract states non-emptiness only. Pixel preservation is stated by `ClampedCropKeepsBox` on the box, together with `ExtremePoints`, which places every contour point inside that box.

## Findings

| source | as written | input that shows it | evidently intended | confidence | as-written member | corrected member |
|---|---|---|---|---|---|---|
| utils/utils.py:150 | the slice start `extTop[1]-3` (and `extLeft[0]-3`) goes negative near the top or left edge, and a negative start counts from the far end | a 10-row image whose content spans rows 1 to 5: the row slice is `[-2:8]`, that is `[8:8]`, so the crop has no rows | clamp the start to 0 so the content box is kept | high, not executed | Background.CropWrapsNearTop | Background.ClampedCropKeepsBox |
| utils/utils.py:149-150 | the exclusive stop `extBot[1]+3` keeps only 2 rows (and columns) after the box, against 3 before it | content spanning rows 10 to 20 gives crop rows 7 to 22 | 3 pixels of margin on every side | medium, not executed | Background.CropMarginAsymmetric | Background.ClampedCropKeepsBox |
| main.py:152-155 | the `'_mask' in file` test also matches an output volume whose stem contains `_mask`, which is then deleted before registration reads it | input `sub_mask01.nii.gz`: its output `sub_mask01_final.nii.gz` is selected and removed | select only BET masks, the names ending in `_mask.nii.gz` | medium, not executed | Naming.MaskFilterSelectsOutput | Naming.BetMaskSeparatesOutputs |
