# Pre-press geometry planning, modelled in Dafny

This project models the geometry planning of a pre-press toolkit. The toolkit
takes an image meant for print and writes corrected variants of it: cropped,
padded, or shrunk so that its content keeps a safe margin. The image library
does the pixel work. What the toolkit decides itself is modelled here:

- `geometry.dfy` (module `Geometry`): the library's rectangle
  (`Magick::Geometry`: an extent plus an offset), sizes, and C's truncating
  `/ 2`.
- `smart_crop.dfy` (module `SmartCropping`) models `toolkit/src/smart_crop.hpp`:
  - the per-axis trim solver `GetCrop`. It is an imperative method that adds
    into `dl`/`dr` phase by phase. It is proved equal to `CropTrims`, which
    writes the same choice as the sum of the three phases.
  - the object-frame detector `GetObjectsFrame`. It runs a nested scan over an
    edge-filtered image, given as a 2-D array of blue-channel values. Its loop
    invariants keep the running extremes equal to `Scanned`, the extremes
    after each prefix of the scan. Lemmas about `Scanned` prove that the
    result is the bounding box described by `IsObjectsFrame`.
  - `SmartCrop`, which builds the crop rectangle `CropFrame` from the frame
    and the trims.
- `preprint.dfy` (module `Preprint`) models the geometry and output of
  `toolkit/src/preprint.cpp`:
  - the safe-margin plan `CheckBorder`;
  - the pad-to-size plan `AddBorder` and its fill colour;
  - the output paths and the tab-separated report line of
    `SaveCorrectedImage` and `ConvertToPDF`;
  - the size gate of `MakeBase`.

Four facts about the code as written are worth knowing. The members named
with each of them state it:

- The solver's first phase splits the smaller slack `a` between both ends. Each
  end therefore uses only about half of it. So when the third phase starts,
  about `a` pixels of slack are still unused. The protected range is cut only
  once the trim exceeds `max(lead, trail) + 2 * (min(lead, trail) / 2)`. When
  the smaller slack is odd, the trailing end cuts one pixel into the range,
  although the whole trim would have fit into the two slacks
  (`CropTrimsKeepFrame`, `CropTrimsKeepFrameExactly`).
- `SmartCrop` checks each axis against the image's original extent. It uses
  the one frame detected before either axis is solved.
- `CheckBorder` plans a correction even for an image in which no pixel is
  significant. The frame of such an image is `(0, 0, 0, 0)`, which touches
  the top and left edges, so both offsets become the whole margin
  (`BlankImagePlans`).
- The object frame's far edge is the last significant column and row
  themselves (its extent is `right - left`, without `+ 1`), but the crop and
  the margin test treat that edge as lying past the content. A crop that
  fits the trailing slack may therefore cut off the last significant column
  or row (`CropFrameColumns`, `CropFrameRows`). A frame that passes the
  margin test may have only `border - 1` free pixels after the content
  (`ClearMargins`).

## Model

| member | source | states |
|---|---|---|
| `SmartCropping.CropTrims` | toolkit/src/smart_crop.hpp:6-49 | the two trims always add up to `orig - dest`, whichever phase the solver stops in |
| `SmartCropping.GetCrop` | toolkit/src/smart_crop.hpp:6-49 | the out-pointer accumulation with early returns yields exactly the phase sum `CropTrims`; `dl + dr == orig - dest` |
| `SmartCropping.CropTrimsNonNegative` | toolkit/src/smart_crop.hpp:6-49 | neither trim is negative when `0 <= dest <= orig` and the protected range lies inside the axis |
| `SmartCropping.CropTrimsSymmetric` | toolkit/src/smart_crop.hpp:13-19 | when the cut fits the smaller slack it is split evenly: `dl + dr == dd` and `dl <= dr <= dl + 1`, so an odd pixel goes to the trailing end |
| `SmartCropping.CropTrimsKeepFrame` | toolkit/src/smart_crop.hpp:20-45 | when the cut fits the larger slack, `dl <= frame_off` and `dr <= orig - frame_width - frame_off`: the protected range is untouched |
| `SmartCropping.CropTrimsKeepFrameExactly` | toolkit/src/smart_crop.hpp:11-48 | the protected range is untouched if and only if the cut is at most `max(slacks) + 2 * (min(slacks) / 2)` |
| `SmartCropping.CropTrimsIntrusionBalanced` | toolkit/src/smart_crop.hpp:47-48 | past the larger slack, the two ends cut into the range by amounts that differ by 0 to 2 pixels, the trailing end cutting more |
| `SmartCropping.CropTrimsExample` | toolkit/src/smart_crop.hpp:6-49 | `(1000, 800, 100, 300)` gives `(50, 150)` |
| `SmartCropping.VisitStep` | toolkit/src/smart_crop.hpp:66-72 | visiting one more pixel, with the four comparisons of the scan, keeps the meaning of the extremes: they still bound every significant pixel visited, stay at the sentinels until one is seen, and are otherwise ordered and each attained |
| `SmartCropping.ScannedMeaning` | toolkit/src/smart_crop.hpp:58-74 | after any prefix of the column-by-column scan, the extremes bound every significant pixel visited; they are still the sentinels when none was visited, and otherwise are ordered and each attained by a significant pixel |
| `SmartCropping.ScanFrame` | toolkit/src/smart_crop.hpp:75-79 | in either branch of the sentinel test on the extremes of the whole scan, the reported rectangle is the object frame: the zero rectangle when the test fires, and otherwise the box from the least to the greatest significant coordinate |
| `SmartCropping.GetObjectsFrame` | toolkit/src/smart_crop.hpp:51-80 | the nested loops keep the extremes equal to `Scanned` of the pixels visited so far; the result is the object frame: `(0,0,0,0)` when no pixel's blue value is above 1000 (strictly); otherwise offsets are the least significant column and row and extents are max minus min (no +1); every significant pixel is inside it and witnesses each edge; the frame lies inside the image |
| `SmartCropping.ObjectsFrameUnique` | toolkit/src/smart_crop.hpp:58-79 | the object-frame description fixes one rectangle per image |
| `SmartCropping.ObjectsFrameInside` | toolkit/src/smart_crop.hpp:58-79 | an object frame lies in the image; with any significant pixel, `xOff + width < image width` and `yOff + height < image height` |
| `SmartCropping.ObjectsFrameOfBlock` | toolkit/src/smart_crop.hpp:66-79 | a 10 x 10 block of significant pixels at (5, 5) has the frame `(5, 5)` of width and height 9 |
| `SmartCropping.CropFrameInside` | toolkit/src/smart_crop.hpp:88-106 | the crop rectangle `CropFrame` of a frame inside the image lies inside the image; on every trimmed axis whose larger slack covers the cut it spans from the frame's offset up to its far edge `XEnd`/`YEnd`, that edge excluded |
| `SmartCropping.CropFrameColumns` | toolkit/src/smart_crop.hpp:88-96 | under the same premise on the width, every significant pixel left of the frame's far edge is kept, and the last significant column, at `XEnd(oframe)`, is kept exactly when the trailing trim is smaller than the trailing slack |
| `SmartCropping.CropFrameRows` | toolkit/src/smart_crop.hpp:98-106 | the same along the height: every significant pixel above the far edge is kept, and the last significant row is kept exactly when the trailing trim is smaller than the trailing slack |
| `SmartCropping.SmartCrop` | toolkit/src/smart_crop.hpp:82-110 | one detected frame is used for both axes; the rectangle is `CropFrame`: an axis longer than a non-negative target gets offset `dl` and extent exactly the target, any other axis keeps offset 0 and its full extent; it lies in the image and on every axis whose larger slack covers the cut spans the frame from its offset to its far edge, that edge excluded |
| `Preprint.CheckBorder` | toolkit/src/preprint.cpp:241-293 | offsets are `border - off` when `off < border`, else 0; the overflow of an axis is the near-edge deficit plus the far-edge deficit, so it is never negative; no plan is made and nothing is saved exactly when the frame is `Clear`: offsets and far-edge gaps of at least the margin, the far-edge gap counted from the last significant column and row; otherwise the plan rescales to `(W - x_overflow, H - y_overflow)`, lays the result on a white `W x H` canvas of the image's colorspace at `(x_offset, y_offset)` and shrinks at least one axis; the offsets cover the near-edge deficits, in the original coordinates; the result is saved exactly as `SaveCorrectedImage(outmask, "border_lq_scale", "Enclose objects into safe zone")` |
| `Preprint.ClearMargins` | toolkit/src/preprint.cpp:251-277 | for an image with content, `Clear` holds exactly when every significant pixel lies in columns `border .. W - border` and rows `border .. H - border`, ends included: `border` free pixels before the content, only `border - 1` after it |
| `Preprint.BlankImagePlans` | toolkit/src/preprint.cpp:249-277 | an image without a significant pixel has the zero frame, which never clears a positive margin, so it still gets a plan, with offsets equal to the whole margin on both axes |
| `Preprint.AddBorder` | toolkit/src/preprint.cpp:101-139 | on an axis shorter than its target, an odd shortfall `d` first crops 1 pixel, then `(d+1)/2` of border goes on both sides; on an axis already at least its target, the border is 0 and the extent is unchanged; the padded size is `max(extent, target)` on both axes |
| `Preprint.FillFor` | toolkit/src/preprint.cpp:128-135 | the border colour is `CMYK(0,0,0,0)` exactly when the image is CMYK, and RGB white (65535 on every channel) for any other colorspace |
| `Preprint.SaveCorrectedImage` | toolkit/src/preprint.cpp:141-153 | writes `outmask + "_" + suffix`, then the preview at that path plus `.jpg`, and prints the record of those two paths and the description |
| `Preprint.FieldsOfReportLine` | toolkit/src/preprint.cpp:152 | the tab-separated report line splits back into its three fields when they hold no tab |
| `Preprint.SaveCorrectedImageReport` | toolkit/src/preprint.cpp:143-152 | the printed line is `outfile TAB preview TAB descr` and names exactly the two files written |
| `Preprint.ConvertToPDF` | toolkit/src/preprint.cpp:295-301 | writes `outmask + ".pdf"` and reports it as a record with an empty preview and the description `Converted to pdf` |
| `Preprint.ConvertToPDFReport` | toolkit/src/preprint.cpp:297-300 | the PDF report line splits into the path, an empty field and `Converted to pdf` |
| `Preprint.MakeBase` | toolkit/src/preprint.cpp:155-165 | saves under suffix `base` with description `Save as is` exactly when both width and height are at most 2000 |

## Left out

- The command-line entry point (toolkit/src/preprint.cpp:16-71): argument checks, command dispatch and the exception handler are plumbing around the checks.
- Image-library calls (`read`, `cannyEdge`, `pixelColor`/`quantumBlue`, `scale`, `liquidRescale`, `crop`, `border`, `composite`, `colorSpace`, `magick`, `type`, `write`) are foreign code. The Canny output is a parameter (`edges`). Crops, borders, canvases and rescales are described only by their rectangles and sizes. The written files are described only by their paths.
- `CheckAspectRatio` and `CheckSize` (toolkit/src/preprint.cpp:182-239) work in floating point: the 9/5 aspect test and the millimetre-to-pixel conversions. The margin of `CheckBorder` (5 mm at 300 dpi, 59 pixels) is therefore a parameter `borderWidth`. The targets of `SmartCrop` and `AddBorder` are parameters too.
- `ConvertToCMYK`, `Rescale`, `LiquidRescale` and `MakeGrayScale` (toolkit/src/preprint.cpp:73-99, 167-171) only forward to library calls and `SaveCorrectedImage`. `CheckCMYK` (toolkit/src/preprint.cpp:173-180) saves the image only when its colorspace is not CMYK; its colorspace conversion is a library call.
- `CheckAspectRatio` and `CheckSize` save `lq_rescaled` under the "Smart crop" label (toolkit/src/preprint.cpp:211-212, 233-234) and discard the `SmartCrop` result. This belongs to those float-based callers, so the model does not include it.
- GetCrop: does not model 32-bit `int` overflow. Image extents are far below 2^31.
- SmartCrop: returns the detected frame beside the crop rectangle so the contract can mention it. The pixel crop is not modelled.
- CheckBorder: returns the detected frame beside the plan. The `size_t` subtractions at toolkit/src/preprint.cpp:256 and 268 cannot wrap here, because the frame from `GetObjectsFrame` lies inside the image. The rescale extent is kept as an integer even when it is zero or negative, which happens when the image is narrower than twice the margin. The library would receive a wrapped `size_t` in that case. The offsets are stated against the frame in the original image's coordinates; where the content-aware rescale moves the content is not modelled.
- AddBorder: requires an image of at least 1 x 1 pixel and non-negative targets. A negative target would become a huge `size_t` in the comparisons, and the only caller passes positive constants.
- The report line is modelled without its `std::endl` terminator.
