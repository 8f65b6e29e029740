# Panorama generator: verified model of the frame-to-panorama core

The panorama generator turns a handheld video sweep into one wide image. It
samples frames from the video at a chosen rate. In Night mode it brightens
and blurs each frame. It stitches the kept frames with OpenCV's stitcher,
crops the black border left around the stitched canvas, and inpaints the
black pixels that remain. It enhances the result with PIL and saves it as
`<video stem>_panorama.jpg`.

This project models the parts of that pipeline whose behaviour the program
itself fixes:

- `FrameSampler` (`frame_sampler.dfy`) models `extract_frames`. It is a
  method with a `while` loop over already-decoded frames. Its counter and
  kept-frame list are proved against a specification function, `Sample`,
  and against the closed form of the kept indices. Night conditioning is
  OpenCV's `convertScaleAbs` with offset 20, followed by an opaque blur.
- `BorderRecovery` (`border_recovery.dfy`) models the parts of
  `crop_black_borders` and `inpaint_black_edges` that do not depend on
  OpenCV algorithms:
  - the two threshold-0 masks;
  - the choice of the largest-area region, with Python's `max` tie rule;
  - numpy's clamping slices that do the crop;
  - the return of the unchanged image when there is no region.
- `Pipeline` (`pipeline.dfy`) models `create_panorama`. It branches on the
  stitcher status. A failure prints the code and returns nothing. A success
  runs crop, inpaint and enhancement, in that order, with a BGR↔RGB
  conversion around the PIL enhancers.
- `OutputName` (`output_name.dfy`) models the name that `save_panorama`
  derives. It uses POSIX `basename`, then `splitext` with its leading-dots
  rule, then appends `"_panorama.jpg"`.
- `Images` (`images.dfy`) holds the shared data model: bytes, BGR pixels,
  colour and gray buffers, and intensity sums. `Wrappers` holds `Option`
  and `Result`.

The OpenCV and PIL algorithms are parameters, or fields of a `Toolkit`
value. These are the stitcher, gray conversion, `equalizeHist`,
`findContours` (with each contour's area and bounding rectangle), TELEA
inpainting, the Gaussian blur and the PIL enhancers. The model states
everything relative to whatever those routines return.

The code computes the stride as `int(fps / rate)` and does not clamp it
(`panorama_generator.py:21`). The rate slider runs from 1 to 3 frames per
second (`panorama_generator.py:215`). So the stride is 0 whenever the
capture reports fewer frames per second than the chosen rate, including a
reported fps of 0. The modulo at `panorama_generator.py:32` then raises
ZeroDivisionError at the first frame read, the worker thread dies, and the
status label stays at "Extracting frames" (`panorama_generator.py:173`). A
crash that leaves the interface waiting is evidently not intended. The
model follows the code: a zero stride fails at the first frame read, and an
empty video still yields an empty list. The clamped version appears under
Findings.

## Model

| member | source | states |
|---|---|---|
| FrameSampler.ConvertScaleAbs | panorama_generator.py:30 | with a non-negative offset the byte rises by the offset unless that passes 255, where it saturates; a negative sum is replaced by its absolute value, saturated |
| FrameSampler.NightBrightnessStep | panorama_generator.py:30 | `convertScaleAbs` with alpha 1 and beta 20 maps a byte p to min(255, p + 20), which is at least p and at most p + 20 |
| FrameSampler.Brighten | panorama_generator.py:30 | the Night brightness step keeps the frame's shape and maps every pixel channel by channel |
| FrameSampler.BrightenNeverDarkens | panorama_generator.py:28-31 | brightening never lowers any channel of any pixel, so the total (and mean) intensity of the frame does not decrease |
| FrameSampler.Condition | panorama_generator.py:28-31 | Day mode leaves the frame as read; Night mode blurs the brightened frame, which is nowhere darker than the frame |
| FrameSampler.Conditioned | panorama_generator.py:25-31 | every frame read is conditioned, kept or not; in Day mode the frames are untouched |
| FrameSampler.KeptIndices | panorama_generator.py:32-34 | an index below n is kept exactly when it is a multiple of the stride, and the kept indices strictly increase |
| FrameSampler.Sample | panorama_generator.py:22-34 | the kept frames appear in source order: the k-th kept frame is the frame at the k-th kept index |
| FrameSampler.KeptIndicesClosedForm | panorama_generator.py:22-34 | with n frames read, ceil(n / stride) frames are kept, and the k-th of them is frame k * stride |
| FrameSampler.SampleCount | panorama_generator.py:22-34 | the kept count is ceil(n / stride); an empty video gives an empty list, not an error; otherwise frame 0 is kept first |
| FrameSampler.ConditionCommutesWithSample | panorama_generator.py:28-33 | conditioning every frame and then filtering gives the same list as filtering first and conditioning only the kept frames |
| FrameSampler.TenSecondsAtThirtyFps | panorama_generator.py:21-34 | 300 frames with stride 30 (30 fps sampled at 1 frame/s) keep exactly 10 frames: 0, 30, ..., 270 |
| FrameSampler.ExtractFrames | panorama_generator.py:17-36 | the loop returns the stride-filtered list of conditioned frames; a zero stride fails exactly when at least one frame is read, and a video with no frames returns the empty list |
| FrameSampler.StrideOf | panorama_generator.py:21 | the stride is the integer part of fps / rate |
| FrameSampler.LowFrameRateFails | panorama_generator.py:21-32 | a 2 fps video sampled at 3 frames/s gets stride 0 and fails at its first frame |
| FrameSampler.ClampedStride | panorama_generator.py:21 | the clamped stride is at least 1 and equals the computed stride whenever that is already positive |
| FrameSampler.ExtractFramesClamped | panorama_generator.py:17-36 | with the clamped stride, sampling never fails, keeps ceil(n / stride) frames, and keeps the conditioned frame 0 of a non-empty video |
| Images.TotalIntensityMonotone | panorama_generator.py:30 | an image that is channel-wise no darker than another has at least its total intensity |
| BorderRecovery.Threshold | panorama_generator.py:80 | `cv2.threshold` keeps the grid's shape and thresholds every sample independently |
| BorderRecovery.ContentMask | panorama_generator.py:80 | the crop mask is 255 exactly where the equalized intensity is above 0, and 0 exactly where it is 0 |
| BorderRecovery.BlackMask | panorama_generator.py:106 | the inpaint mask is 255 exactly where the gray intensity is 0, and 0 elsewhere |
| BorderRecovery.MasksAreComplements | panorama_generator.py:80-106 | on the same grid the two masks are exact complements: they sum to 255 at every sample |
| BorderRecovery.LargestIndex | panorama_generator.py:86 | the chosen region's area is at least that of every candidate, and it is the first region with that area |
| BorderRecovery.Slice | panorama_generator.py:95-96 | a Python slice with non-negative bounds takes the in-range part of s[lo:hi], element for element, with its length clamped |
| BorderRecovery.CropInBounds | panorama_generator.py:95-96 | cropping an H x W image to an in-bounds rectangle gives exactly its h x w block: rows y..y+h-1, columns x..x+w-1 |
| BorderRecovery.CropNeverGrows | panorama_generator.py:95-96 | for any rectangle, the crop of an H x W image is rectangular, no taller than H and no wider than W |
| BorderRecovery.Crop | panorama_generator.py:95-96 | the crop never has more rows than the image, and every pixel of it is the image pixel at the same offset from the rectangle's corner |
| BorderRecovery.CropBlackBorders | panorama_generator.py:74-100 | the contours are found on the content mask of the equalized gray image; with no contour the image is returned unchanged, and otherwise it is cropped to the bounding rectangle of a region whose area is at least that of every region |
| BorderRecovery.CropBlackBordersInBounds | panorama_generator.py:85-96 | when the chosen rectangle lies inside an H x W image, the result is exactly its h x w block, taken from rows y.. and columns x.. |
| BorderRecovery.InpaintBlackEdges | panorama_generator.py:103-110 | the image is inpainted with radius 3 under a mask of the gray image's shape that is 255 exactly where the gray intensity is 0, and 0 exactly where it is above 0 |
| BorderRecovery.CropBlackBordersShrinks | panorama_generator.py:74-100 | `crop_black_borders` never makes an H x W image taller or wider |
| Pipeline.SwapRedBlue | panorama_generator.py:50-52 | the BGR/RGB conversion keeps the shape and exchanges the first and third channels of every pixel |
| Pipeline.SwapRedBlueRoundTrip | panorama_generator.py:50-52 | converting to RGB and back restores the image |
| Pipeline.CreatePanorama | panorama_generator.py:39-54 | no panorama is returned exactly when the stitcher status is not OK |
| Pipeline.FailureIgnoresLaterStages | panorama_generator.py:41-44 | after a failed stitch there is no panorama, whatever the gray conversion, contour, inpaint and enhancement routines are: none of crop, inpaint and enhance contributes |
| Pipeline.SuccessComposesStages | panorama_generator.py:46-54 | after a successful stitch the stages run in the order crop, inpaint, enhance: the PIL enhancers receive the inpainted crop of the stitched image in RGB order, and their output, converted back to BGR, is the panorama |
| Pipeline.EnhanceUsesFixedFactors | panorama_generator.py:57-71 | the PIL enhancement depends only on the enhancers at factors Color 1.3, Contrast 1.1 and Sharpness 1.5: two enhancers that agree there give the same result on every image |
| OutputName.RFind | panorama_generator.py:129-130 | `rfind` returns the last index of the character, or -1 when it does not occur |
| OutputName.Basename | panorama_generator.py:129 | the basename is the longest suffix of the path without a '/' |
| OutputName.ExtensionStart | panorama_generator.py:130 | the extension starts at a '.' after which no '.' or '/' occurs, or at the end of the path when there is none |
| OutputName.Splitext | panorama_generator.py:130 | root and extension concatenate back to the path, and the extension is empty or one '.' followed by no '.' or '/' |
| OutputName.SplitextRootIsPrefix | panorama_generator.py:130 | the root of `splitext` is a prefix of its argument |
| OutputName.SplitextOfName | panorama_generator.py:130 | for a name without '/', root and extension concatenate back to the name; an extension starts with its only '.'; there is an extension exactly when a '.' follows a character other than '.' |
| OutputName.RootOfName | panorama_generator.py:130 | the root is the whole name when there is no extension, and otherwise the name cut just before its last '.' |
| OutputName.PanoramaName | panorama_generator.py:127-132 | the output name contains no '/' and ends with "_panorama.jpg" |
| OutputName.PanoramaNameStem | panorama_generator.py:129-130 | the text before "_panorama.jpg" is the basename, minus its extension when it has one |
| OutputName.TripExample | panorama_generator.py:129-130 | "dir/trip.mp4" gives "trip_panorama.jpg" |
| OutputName.HiddenFileExample | panorama_generator.py:129-130 | ".bashrc" keeps its leading dot and gives ".bashrc_panorama.jpg" |
| OutputName.DoubleExtensionExample | panorama_generator.py:129-130 | "clips/a.tar.gz" loses only its last extension and gives "a.tar_panorama.jpg" |

## Left out

- Video decoding (`cv2.VideoCapture`, `read`, `release`): the sampler receives the decoded frames as a sequence.
- The sampling rate's floating-point division: the stride is an integer input, and `StrideOf` uses exact real division.
- Gray conversion weights, `equalizeHist`, `findContours`, `contourArea`, `boundingRect`, `GaussianBlur`, TELEA `inpaint`, the stitcher's registration and blending, and the PIL enhancers' arithmetic (factors 1.3, 1.1 and 1.5): these are library algorithms and appear only as function parameters. So the model makes no claim about pixel values after blurring, inpainting or enhancement. It also does not claim that inpainting keeps the image's size, or that border recovery is idempotent.
- Pipeline.CreatePanorama: the failure message printed with the status code (`panorama_generator.py:43`) is not modelled; the model returns `None` only.
- FrameSampler.ExtractFrames: the mode is fixed for the whole run. The source re-reads the radio button for every frame (`panorama_generator.py:28`) on a worker thread (`panorama_generator.py:175`) while the buttons stay live (`panorama_generator.py:203-204`). So a switch during extraction conditions only the later frames; this is a concurrency effect and is not modelled.
- `cv2.imwrite` in `save_panorama`: only the derived name is modelled, not the file write or its overwrite of an existing file.
- The Tkinter interface (`create_gui`, `load_image_into_label`, the resize callback, the mode buttons, the rate slider, the labels), the background `Thread`, the status-label updates and the `time.time` measurements: these are UI, concurrency and clock concerns.
- Night mode is a two-valued `Mode`. The source compares a Tk string variable with `'Night'`, and only the two radio-button values can occur.
- OutputName.Basename: only POSIX paths are modelled; Windows separators are not.

## Findings

| source | as written | input that shows it | evidently intended | confidence | as-written member | corrected member |
|---|---|---|---|---|---|---|
| panorama_generator.py:21-32 | `skip_frames = int(fps / rate)` is not clamped, so `idx % skip_frames` raises ZeroDivisionError at the first frame whenever fps < rate, including a capture that reports fps 0 | a 2 fps video sampled at 3 frames/s (stride 0) with at least one frame | the stride is clamped to at least 1, so sampling never fails and keeps frame 0 | high, by reading the code; not executed | FrameSampler.LowFrameRateFails | FrameSampler.ExtractFramesClamped |
