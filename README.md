# GUS-blue stain quantification, modelled in Dafny

GUS-blue measures how much of a plant root in a photograph is stained blue by
the GUS reporter. Both entry points, the command-line tool
`gus-blue_quantification.py` and the Streamlit app `gus_blue_app.py`, carry
their own copy of `process_gus_image`. This project models that pipeline from
the HSV image onwards:

1. the root mask `cv2.inRange(hsv, [0, s, 0], [179, 255, v])`;
2. the raw blue mask, the closed per-channel box `[blue_lower, blue_upper]`;
3. `cv2.bitwise_and` of the two;
4. `cv2.morphologyEx(..., MORPH_OPEN, kernel)` with the plus-shaped kernel
   `[[0,1,0],[1,1,1],[0,1,0]]` (erosion, then dilation);
5. the pixel counts `np.sum(mask > 0)` and the guarded percentage
   `blue_area / root_area * 100`, or 0 when `root_area` is 0.

It also models the command line's file filter: a name is kept when its
lower-cased form ends with `.png`, `.jpg`, `.jpeg`, `.tif` or `.tiff`.

Representation:

- An HSV image is a rectangular `seq<seq<Hsv>>`, and `Hsv(h, s, v)` holds
  integer channels.
- A mask is a `seq<seq<bool>>`; `true` stands for OpenCV's 255.
- The percentage is an exact `real`.

Modules:

- `GusMasks` (`masks.dfy`): pixels, masks, `inRange`, `bitwise_and`, counting.
- `GusMorphology` (`morphology.dfy`): erosion, dilation, opening.
- `GusQuantification` (`quantification.dfy`): the command-line copy of the
  pipeline and the file filter.
- `GusBlueApp` (`blue_app.dfy`): the app copy of the pipeline. It is written
  out again, as in the source, and proved equal to the command-line copy.

**Border convention.** `morphologyEx` is called with OpenCV's default border,
a constant `morphologyDefaultBorderValue()`. Erosion reads positions outside
the image as set, and dilation reads them as unset. So the image edge alone
removes nothing, and a mask with every pixel set survives the opening
unchanged whatever its size. One consequence: the lone pixel of a 1×1 mask has
no neighbour inside the image, so it survives. That is why the isolated-pixel
lemma asks for more than one pixel.

**inRange bounds.** OpenCV clamps the bounds to the 8-bit range and turns a
lower bound above its upper bound into an empty range. For pixel values in
0..255 this gives the same answer as the plain integer box test used here.

**Percentage and small images.**

- The percentage is 0 when the root is empty. It is also 0 when the root
  is non-empty but no blue pixel survives the opening. For the exact ratio
  the model proves that the percentage is 0 if and only if the blue count is
  0. The value the code reports is rounded with `round(…, 2)`, so it is also
  0.0 whenever 0 < blue/root·100 < 0.005. That rounding is not modelled.
- Under OpenCV's default border, a uniformly stained image loses no pixel to
  the opening, at any size (`UniformStainScoresFull`).

## Model

| member | source | states |
|---|---|---|
| `GusMasks.InRange` | gus-blue_quantification.py:31-34 | `cv2.inRange`: a mask of the image's height and width, set at a pixel exactly when the pixel lies in the closed box [lower, upper] |
| `GusMasks.BitwiseAnd` | gus-blue_quantification.py:35 | `cv2.bitwise_and` of two masks of one shape: a mask of that shape, set exactly where both are set |
| `GusMasks.Count` | gus-blue_quantification.py:42-43 | `np.sum(mask > 0)`: the number of set pixels, at most height × width for a rectangular mask |
| `GusMorphology.Erode` | gus-blue_quantification.py:39 | erosion by the plus kernel, with outside positions read as set: a pixel stays set exactly when it and its four in-image orthogonal neighbours are set; same shape as the input |
| `GusMorphology.Dilate` | gus-blue_quantification.py:39 | dilation by the plus kernel, with outside positions read as unset: a pixel is set exactly when it or one of its four in-image orthogonal neighbours is set; same shape as the input |
| `GusMorphology.Open` | gus-blue_quantification.py:38-39 | `MORPH_OPEN`: the dilation of the erosion, of the input's height and width |
| `GusQuantification.RootMask` | gus-blue_quantification.py:30-31 | `root_mask`, the inRange box [0, s, 0]..[179, 255, v]: a mask of the image's height and width |
| `GusQuantification.BlueMaskRaw` | gus-blue_quantification.py:34 | `blue_mask_raw`, the inRange box [blue_lower, blue_upper]: a mask of the image's height and width |
| `GusQuantification.BlueMaskInRoot` | gus-blue_quantification.py:35 | `blue_mask_in_root`: a mask of the image's shape lying inside both the raw blue mask and the root mask |
| `GusQuantification.Percentage` | gus-blue_quantification.py:44 | the guard: 0 when the root count is 0; otherwise percentage × root = blue × 100 |
| `GusQuantification.Lower` | gus-blue_quantification.py:88 | `str.lower` on ASCII: same length, each character lower-cased |
| `GusQuantification.IsImageFile` | gus-blue_quantification.py:87-88 | `f.lower().endswith(exts)`; a kept name has at least 4 characters |
| `GusQuantification.BlackImageScoresZero` | gus-blue_quantification.py:66-73 | an all-black image under the command line's default parameters ([90,40,40]..[140,255,255], root S ≥ 20, V ≤ 240) yields metrics (0, 0, 0) |
| `GusQuantification.SelectImagesAppend` | gus-blue_quantification.py:88 | filtering a listing split in two is filtering each part, in order: the comprehension keeps `os.listdir` order |
| `GusQuantification.SelectImagesSingle` | gus-blue_quantification.py:88 | a one-name listing keeps that name exactly when it is an image file; with `SelectImagesAppend` this fixes order and multiplicity |
| `GusQuantification.ProcessGusImage` | gus-blue_quantification.py:17-55 | there is no result exactly when the image could not be read (`imread` returned `None`) |
| `GusQuantification.RootMaskMembership` | gus-blue_quantification.py:30-31 | for an image in OpenCV's HSV ranges, a pixel is root iff S ≥ the saturation threshold and V ≤ the value maximum; hue never excludes a pixel |
| `GusQuantification.BlueMaskRawMembership` | gus-blue_quantification.py:34 | a pixel is raw blue iff each of H, S and V lies in its closed interval; if some lower bound exceeds its upper bound, the mask counts 0 pixels |
| `GusQuantification.BlueMaskInRootIsMeet` | gus-blue_quantification.py:35 | `blue_mask_in_root` is the pointwise AND of the raw blue mask and the root mask, and lies inside both |
| `GusQuantification.BlueMaskWithinRoot` | gus-blue_quantification.py:35-39 | the cleaned blue mask lies inside the intersection it was cleaned from, and so inside the root mask |
| `GusQuantification.PixelCountBounds` | gus-blue_quantification.py:42-43 | blue pixels ≤ root pixels ≤ height × width |
| `GusQuantification.PercentageInRange` | gus-blue_quantification.py:44 | for blue ≤ root: it is 0 when root is 0; otherwise it is blue/root·100; it lies in [0, 100]; it is 0 iff blue is 0; it is 100 iff root > 0 and blue = root |
| `GusQuantification.MetricsSound` | gus-blue_quantification.py:42-53 | the returned metrics: an empty root gives 0 blue pixels and percentage 0; otherwise the percentage is the exact blue share times 100, in [0, 100]; percentage 0 iff no blue pixel |
| `GusQuantification.WiderBlueBoxNeverFewer` | gus-blue_quantification.py:34-43 | widening the blue box channel by channel never lowers the blue count and leaves the root count unchanged |
| `GusQuantification.IsolatedBluePixelDropped` | gus-blue_quantification.py:38-43 | a blue-in-root pixel with no 4-neighbour in that mask is cleared by the cleanup, so the blue count drops strictly below the pre-cleanup count (image of more than one pixel) |
| `GusQuantification.UniformStainScoresFull` | gus-blue_quantification.py:30-44 | if every pixel is both root and blue, blue = root = height × width, and a non-empty image scores 100 |
| `GusQuantification.UnsaturatedImageScoresZero` | gus-blue_quantification.py:30-44 | if no pixel reaches the root saturation threshold (e.g. an all-black image under the default 20), both counts and the percentage are 0 |
| `GusQuantification.IsImageFileBySuffix` | gus-blue_quantification.py:87-88 | a name is kept iff its last 4 characters, lower-cased, are .png/.jpg/.tif or its last 5 are .jpeg/.tiff |
| `GusQuantification.IsImageFileIgnoresCase` | gus-blue_quantification.py:88 | the filter gives the same verdict on a name and on its lower-cased form |
| `GusQuantification.IsImageFileKeeps` | gus-blue_quantification.py:87-88 | "r1.TIF", "a.JpEg" and ".png" are kept |
| `GusQuantification.IsImageFileDrops` | gus-blue_quantification.py:87-88 | "a.txt", "png" and "a.tif.b" are dropped |
| `GusQuantification.SelectImages` | gus-blue_quantification.py:88 | each selected name is in the listing and passes the filter, each listed name that passes is selected, and the result is no longer than the listing; order and multiplicity are fixed by `SelectImagesAppend` and `SelectImagesSingle` |
| `GusMasks.BitwiseAndWithin` | gus-blue_quantification.py:35 | the AND of two masks lies in both |
| `GusMasks.BitwiseAndGreatest` | gus-blue_quantification.py:35 | every mask that lies in both operands lies in their AND, so the AND is their greatest lower bound |
| `GusMasks.CountMono` | gus-blue_quantification.py:42-43 | if a mask lies inside another, its count is not larger; it is strictly smaller if the other has a pixel it lacks |
| `GusMasks.CountZero` | gus_blue_app.py:29-30 | a mask counts 0 pixels iff no pixel is set |
| `GusMasks.CountFull` | gus_blue_app.py:29-30 | a height × width mask with every pixel set counts height × width |
| `GusMorphology.ErodeShrinksDilateGrows` | gus-blue_quantification.py:38-39 | erosion only removes pixels; dilation only adds them |
| `GusMorphology.ErodeMono` | gus-blue_quantification.py:38-39 | erosion is monotone under mask inclusion |
| `GusMorphology.DilateMono` | gus-blue_quantification.py:38-39 | dilation is monotone under mask inclusion |
| `GusMorphology.OpenMono` | gus-blue_quantification.py:38-39 | the opening is monotone under mask inclusion |
| `GusMorphology.DilateThenErodeGrows` | gus-blue_quantification.py:38-39 | eroding the dilation of a mask contains the mask |
| `GusMorphology.OpenWithin` | gus_blue_app.py:25-26 | the opening is anti-extensive: its result lies inside its input |
| `GusMorphology.OpenIdempotent` | gus_blue_app.py:25-26 | opening twice gives the same mask as opening once |
| `GusMorphology.IsolatedPixelRemoved` | gus-blue_quantification.py:38-39 | in a mask of more than one pixel, a pixel none of whose 4 orthogonal neighbours is set is unset after the opening |
| `GusMorphology.LonePixelOfOneByOneSurvives` | gus-blue_quantification.py:39 | under OpenCV's default border, the set pixel of a 1×1 mask survives the opening |
| `GusMorphology.OpenKeepsFullMask` | gus-blue_quantification.py:39 | a mask with every pixel set is unchanged by the opening |
| `GusBlueApp.ProcessGusImage` | gus_blue_app.py:8-42 | both returned masks have the image's height and width |
| `GusBlueApp.MatchesCommandLine` | gus_blue_app.py:8-42 | for the same HSV image and parameters, the app copy returns the same masks and metrics as the command-line copy |
| `GusBlueApp.MasksOfApp` | gus_blue_app.py:17-26 | the app's root mask is decided by S ≥ threshold and V ≤ maximum alone; its blue mask is the opening of the AND of the blue box mask and the root mask, and lies inside the root mask |
| `GusBlueApp.MetricsOfApp` | gus_blue_app.py:29-31 | blue ≤ root ≤ height × width; the percentage is 0 without root pixels, otherwise the exact blue share times 100, in [0, 100] |

## Left out

- Image reading: `cv2.imread` in the command line, and PIL, the RGBA-to-RGB
  drop and the RGB-to-BGR conversion in the app. These are foreign library
  I/O. The command-line model takes the outcome as an `Option`: `None` means
  the file could not be read.
- `cv2.GaussianBlur` and `cv2.cvtColor(..., COLOR_BGR2HSV)`. These are
  library numerics with their own fixed-point and floating-point rounding.
  The model takes the HSV image they produce as its input.
- `round(percentage, 2)`, which is float rounding. The model keeps the exact
  ratio as a `real`, so the float division is not modelled either.
- The `original` RGB copy in the result, which is used only for display.
- Masks stored as `uint8` 0/255: a mask is a grid of booleans.
- argparse, the directory check, `os.listdir`, `os.path.join`, `sys.exit`,
  the processing loop, matplotlib figures and the pandas CSV output of the
  command line. These are I/O and glue. `SelectImages` models the filter over
  a given listing and returns bare names, not joined paths.
- The whole Streamlit interface: sliders, uploader, expanders, table and
  download button.
- `GusQuantification.Lower`: maps only the ASCII letters A–Z, where Python's
  `str.lower` applies full Unicode case mapping.
