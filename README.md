# Product background remover: a Dafny model

The product background remover cuts the product out of a photograph. It reads the image and
asks a segmentation model (MobileSAM) for candidate masks. Then it:

- picks the candidate with the largest area, taking the first one on a tie;
- makes that mask hard: a positive value becomes 255, anything else 0;
- pastes the photograph through the mask onto a fully transparent RGBA canvas;
- saves the result, by default under `<stem>_nobg.png`, and returns it.

A batch driver runs the remover over a directory. It keeps every entry whose lower-cased name
ends in `.jpg`, `.jpeg`, `.png` or `.webp`, and derives each entry's input and output paths. It
isolates failures file by file and counts the calls that did not raise.

The project is organised as follows:

- `wrappers.dfy`: `Option`.
- `raster.dfy`: the `byte` type and rectangular grids.
- `paths.dfy`: POSIX `basename`, `splitext` and `join`, and the output naming rule.
- `masks.dfy`: mask area, `np.argmax`, the selection policy and binarisation.
- `compositing.dfy`: RGB/RGBA pixels, and a `Canvas` class over a two-dimensional array
  whose `Paste` method updates the pixels in place.
- `remover.dfy`: `remove_background`, as a method. The decoded image and the candidate masks
  are parameters. A missing image (a file that cannot be read) raises. No candidate returns
  None. A mask whose size differs from the image's makes the paste raise. Otherwise the return
  value is the very image that was saved.
- `batch.dfy`: `process_batch_images`, as a method with a loop. The directory listing is a
  parameter, and each remover call's outcome is an arbitrary function of the two paths it gets.

Two consequences of the code are worth stating:

- **No mask still counts as processed.** When no mask is found, `remove_background` returns
  `None` without raising (product_bg_remove.py:41-43). So `processed_count += 1` runs
  (example.py:42-43). For a listing `a.jpg`, `b.png`, `notes.txt` where only `a.jpg` yields a
  mask, the count is 2 (`Batch.ScenarioCountsNoMaskFile`).
- **Area is a plain sum.** `mask.sum()` adds up every value of the mask. On 0/1 masks this is
  the number of covered pixels (`Masks.AreaOfZeroOneIsCoverage`).

## Model

| member | source | states |
|---|---|---|
| Paths.Basename | product_bg_remove.py:29 | `os.path.basename`; specified by `BasenameIsLastComponent` |
| Paths.Splitext | product_bg_remove.py:29 | `os.path.splitext`; specified by `SplitextParts`, `SplitextCutPoint` and `SplitextWithoutDot` |
| Paths.OutputName | example.py:36 | `f"{os.path.splitext(name)[0]}_nobg.png"`; specified by `OutputNameParts` and the three worked examples |
| Paths.DefaultOutputName | product_bg_remove.py:28-30 | the output name built from the input's basename; specified by `DefaultOutputNameParts` and `DefaultOutputDropsDirectory` |
| Paths.Join | example.py:33-37 | `os.path.join` with posixpath's three cases; specified by `JoinBasename` |
| Paths.BasenameIsLastComponent | product_bg_remove.py:29 | the basename holds no '/', is a suffix of the path, and is preceded by '/' when shorter than the path |
| Paths.SplitextParts | product_bg_remove.py:29 | root and extension concatenate to the path; the extension is empty or a '.' followed by neither '.' nor '/' |
| Paths.SplitextCutPoint | product_bg_remove.py:29 | for any path: the extension is nonempty iff the last '.' follows the last '/' with some character other than a period between them, and it is then everything from that '.' on |
| Paths.SplitextWithoutDot | product_bg_remove.py:29 | a last component with no period splits into the whole path and an empty extension |
| Paths.SplitextOfExtended | example.py:36 | a one-component root that is not all periods, followed by one extension, splits back into exactly that root and that extension |
| Paths.OutputNameParts | example.py:36 | the output name ends with `_nobg.png`; what precedes the suffix, followed by the dropped extension, is the input name; no '/' is introduced |
| Paths.DefaultOutputNameParts | product_bg_remove.py:28-30 | the default output name is a bare file name ending in `_nobg.png`, built from the input's basename without its extension |
| Paths.DefaultOutputDropsDirectory | product_bg_remove.py:28-30 | the directory of the input path never reaches the default output name |
| Paths.SameStemSameOutput | example.py:36-37 | two names differing only in their extension map to the same output name, so the later write replaces the earlier |
| Paths.JoinBasename | example.py:33-37 | joining a '/'-free name onto any directory gives a path whose basename is that name |
| Paths.OutputNameOfPhoto | product_bg_remove.py:29-30 | "photo.jpeg" gives "photo_nobg.png" |
| Paths.OutputNameOfDoubleExtension | product_bg_remove.py:29-30 | "a.tar.jpg" gives "a.tar_nobg.png": only the last extension is dropped |
| Paths.OutputNameOfDotFile | product_bg_remove.py:29-30 | ".png" has no extension and gives ".png_nobg.png" |
| Masks.Area | product_bg_remove.py:46 | `mask.sum()`, the sum of all values; related to the covered-pixel count by `AreaOfZeroOneIsCoverage` |
| Masks.Areas | product_bg_remove.py:46 | the list of areas in mask order; its first maximum is what `SelectMask` returns |
| Masks.AreaOfZeroOneIsCoverage | product_bg_remove.py:46 | on a 0/1 mask the summed area equals the number of covered pixels |
| Masks.FirstArgMax | product_bg_remove.py:47 | `np.argmax`: the index is in range, holds the maximum, and every earlier value is strictly smaller |
| Masks.FirstArgMaxIsTheFirstMax | product_bg_remove.py:47 | an index is the first maximum if and only if it is the one `FirstArgMax` returns |
| Masks.FirstArgMaxExamples | product_bg_remove.py:46-47 | areas [100, 500, 250] select index 1; the tie [300, 700, 700] keeps the earlier index 1 |
| Masks.SelectMask | product_bg_remove.py:40-48 | no candidate if and only if no mask; otherwise a valid index whose area is the largest, strictly larger than every earlier one |
| Masks.Binarise | product_bg_remove.py:52 | same shape as the mask; every value is 0 or 255; 255 exactly where the mask is positive |
| Compositing.Canvas.Blank | product_bg_remove.py:56 | a fresh canvas of the image's size, every pixel (0, 0, 0, 0) |
| Compositing.Canvas.Paste | product_bg_remove.py:57 | in place: where the mask is 255 the pixel becomes the opaque source pixel; elsewhere it is unchanged |
| Compositing.Canvas.Snapshot | product_bg_remove.py:60-63 | the canvas contents as a grid of its size, pixel for pixel |
| Remover.ResolveOutputPath | product_bg_remove.py:28-30 | the path the result is saved under; specified by `ResolveOutputPathChoice` |
| Remover.CompositePixel | product_bg_remove.py:52-57 | the pixel the paste leaves for a mask value; specified by `CompositePixelIsHard` |
| Remover.ResolveOutputPathChoice | product_bg_remove.py:28-30 | a given output path is used verbatim; otherwise a bare name ending in `_nobg.png` |
| Remover.Composite | product_bg_remove.py:50-57 | the composite has the image's size; each pixel is opaque source where the chosen mask is positive, transparent elsewhere |
| Remover.CompositePixelIsHard | product_bg_remove.py:52-57 | every composite pixel is either the opaque source pixel (alpha 255, mask positive) or transparent (alpha 0) |
| Remover.RemoveBackground | product_bg_remove.py:17-63 | raises `Unreadable` iff there is no image; returns None iff there is an image and no mask; raises `SizeMismatch` iff the selected mask's size differs from the image's; saves iff there is an image and the selected mask has its size, and then saves at the resolved path exactly the image it returns, which is the composite through the selected mask |
| Batch.LowerAscii | example.py:32 | `filename.lower()` on ASCII; specified by `LowerAsciiFolds` |
| Batch.LowerAsciiFolds | example.py:32 | lower-casing keeps the length, leaves no upper-case letter, changes exactly the upper-case letters, and is idempotent |
| Batch.EndsWithAny | example.py:32 | `any(s.endswith(ext) for ext in exts)`; specified by `EndsWithAnyIsSome` |
| Batch.IsImageName | example.py:27-32 | the extension filter; specified by `ImageNameBySuffix` and `ImageNameExamples` |
| Batch.Selected | example.py:30-32 | the entries the loop processes; specified by `SelectedMembership`, `SelectedAppend` and `SelectedLength` |
| Batch.CallFor | example.py:33-37 | the input and output paths of one entry; specified by `PlannedPaths` |
| Batch.Plan | example.py:30-37 | the calls for the selected entries, in order; `ProcessBatch` makes exactly these |
| Batch.CountReturned | example.py:40-43 | the number of calls that did not raise; specified by `CountReturnedBounds` |
| Batch.EndsWithAnyIsSome | example.py:32 | the `any(...endswith(ext) ...)` test holds iff some listed extension is a suffix |
| Batch.ImageNameBySuffix | example.py:27-32 | a name is selected iff some suffix of it, lower-cased, is one of `.jpg`, `.jpeg`, `.png`, `.webp` |
| Batch.ImageNameExamples | example.py:32 | "A.JPG" and "photo.jpeg" are selected; "notes.txt" is not |
| Batch.SelectedMembership | example.py:30-32 | an entry is processed iff it is listed and its name passes the filter |
| Batch.SelectedAppend | example.py:30-32 | the filter keeps listing order: filtering a concatenation concatenates the filtered parts |
| Batch.SelectedLength | example.py:30-32 | no more entries are processed than are listed |
| Batch.CountReturnedBounds | example.py:40-45 | the count never exceeds the number of calls, and equals it iff no call raised |
| Batch.PlannedPaths | example.py:33-37 | each planned call is `os.path.join(input_dir, entry)` and `os.path.join(output_dir, OutputName(entry))`, and their basenames are the entry and `OutputName(entry)` |
| Batch.ProcessBatch | example.py:26-45 | the calls are exactly one per selected entry, in listing order, with the derived paths; the count is the number of calls that returned; count <= calls <= entries |
| Batch.ScenarioSelection | example.py:30-32 | from `a.jpg`, `b.png`, `notes.txt` exactly the two images are processed, in order |
| Batch.ScenarioCountsNoMaskFile | example.py:40-43 | if `a.jpg` saves an image and `b.png` finds no mask, the count is 2 |

## Left out

- The segmentation model (`SAM('mobile_sam.pt')`, the `ProductBackgroundRemover` constructor and the model call): an opaque pretrained network. Its candidate masks are a parameter of `Remover.RemoveBackground`.
- Image decoding and conversion (`cv2.imread`, `cv2.cvtColor`, `Image.fromarray`): foreign library code. The decoded RGB grid, or None for an unreadable file, is a parameter.
- File-system effects (`result.save`, `os.makedirs`, `os.path.exists`, `os.listdir`): I/O. A save is recorded as a `Written` value, and the listing is a parameter. Errors raised while saving are covered only by the batch driver's abstract outcome, where any `Exception` counts as `Raised`.
- `visualize_result` and the command-line entry point (argparse, the default `input_dir/output` directory, all `print` output): presentation only.
- Floating-point and tensor details: mask values are unbounded integers, and `.cpu().numpy()`/`.item()` are identities.
- Compositing.Canvas.Paste: requires a mask of 0/255 values and does not model PIL's blending for intermediate alpha values, because the source always pastes through a binarised mask.
- Batch.LowerAscii: models `str.lower` on ASCII letters only; Unicode case mapping is not modelled.
- Batch.ProcessBatch: a remove_background call is a pure function of its two paths, so the model does not capture state carried between calls, such as a file overwritten by an earlier call.
- Batch.ProcessBatch: only `Exception` subclasses are caught (example.py:44); a `BaseException` such as `KeyboardInterrupt` or `SystemExit` that ends the whole batch is not modelled, and the loop always goes on to the next entry.
