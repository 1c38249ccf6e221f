# AI Playground Arena — a verified model of its core

AI Playground Arena is a small Flask web application. It offers three "arenas" that run
computer-vision models on user images:

- an object-removal arena that detects objects and then blurs the regions the user marks "remove";
- a sketch-to-image arena that turns a rough sketch into a picture with a Stable Diffusion
  img2img pipeline, or with a handful of PIL filters when the pipeline is unavailable;
- a GAN playground.

This project models the decision logic of those routes and of the model wrappers they call. It
then proves what that logic guarantees.

- `common.dfy`: `Option`, and `Call`. `Call` is the outcome of a foreign call, which either
  raises or returns a value.
- `raster.dfy`: RGB pixels and rectangular images. It also holds the RGB↔BGR swap (OpenCV's
  `cvtColor` in both directions) and the view of a two-dimensional array as rows.
- `region_edit.dfy`: the heart of `api_object_edit`. It covers Python/NumPy slice semantics for
  `cv_img[y1:y2, x1:x2]` and one action record applied to the working copy. It covers the whole
  list applied in order, and the in-place loop over an `array2`, which raises at the first
  malformed record.
- `detection.py` → `detection.dfy`: the import-time loading of the YOLO model and
  `run_object_detection`. It covers the per-box normalisation that skips problem boxes, the
  label fallback to the decimal class id, and the drawing onto the opened image (a `Canvas`
  class whose mark list grows box by box).
- `sketch_diffusion.py` → `sketch_diffusion.dfy`: the import-time backend state (library, device,
  pipeline, precision), `_fallback_stylize` and `sketch_to_image`. That includes the threshold
  preprocessing, the invocation parameters and the fallback when the pipeline raises.
- `segmentation.py` → `segmentation.dfy`: the placeholder mask, whose top half is 1 and bottom
  half is 0, built in an array.
- `app.py` → `app.dfy`: the routes' 400 replies, their parameter defaults, and the full reply of
  `/api/object_edit`.

Library operations whose pixels cannot be stated are parameters or symbolic values:

- OpenCV's Gaussian blur is a parameter `blur: Image -> Image`. The only requirement on it is that
  it keeps the shape of its input.
- The PIL resize, filters, greyscale and colorize steps are constructors of a symbolic
  `Picture`.
- The greyscale readback `np.array(img.convert("L"))` is a parameter `luma`.
- Model inference is a function field of the loaded backend that raises or returns.
- Module-level globals are set once at import. They are modelled as the immutable value that
  the loading functions return.

Behaviour of the code that the model keeps:

- A bbox whose normalised slice is empty (for instance `x2 <= x1` with both bounds
  non-negative) is silently skipped: the NumPy slice is empty and `roi.size > 0` fails.
- The route neither validates nor clips a bbox. The NumPy slice does the rest: a negative
  bound counts from the far edge, as in Python, and a bound past the edge is clamped to it.
- Detection boxes are stored as the integer coordinates the detector reports, without clipping.
- `num_steps` and `guidance_scale` are not validated.
- The models load once, at import, with no lock.
- The detection route always returns the opened image. It is drawn on in place, and it stays
  undrawn when there is no model or inference raises.
- `api_gan_generate` has no 400 check. When `get_json()` yields `None` (a JSON `null` body),
  `data.get` raises and the request ends as a server error.

## Model

| member | source | states |
|---|---|---|
| Raster.SwapRedBlue | app.py:88 | `cvtColor` with RGB2BGR (and BGR2RGB at line 98) keeps the shape and reverses the channels of every pixel |
| Raster.SwapRedBlueTwice | app.py:88-98 | converting RGB→BGR and back again gives back the image exactly, so the edit route's colour round trip loses nothing |
| RegionEdit.SliceSpan | app.py:93 | index k of a dimension of size n lies in the slice `start:stop` iff start ≤ k < stop, after negative bounds are counted from the end; the span lies within [0, n] |
| RegionEdit.Crop | app.py:93 | the slice read `cv_img[y1:y2, x1:x2]` has the span's size, and its pixel (i, j) is the image's pixel at (y-start + i, x-start + j) |
| RegionEdit.Paste | app.py:96 | the slice assignment keeps the image's shape, puts the patch's pixels inside the span, and leaves every pixel outside it as it was |
| RegionEdit.ApplyAction | app.py:91-96 | one record keeps the image's shape and changes no pixel outside its bbox region; a non-"remove" record or an empty region leaves the image unchanged; for "remove", the region of the result is the blur of the region of the input |
| RegionEdit.ApplyAll | app.py:90-96 | applying the records in order keeps the shape; a list with no "remove" record returns the image unchanged |
| RegionEdit.ApplyAllAppend | app.py:90-96 | the records act one after another on one working copy: applying xs + ys is applying ys to the result of xs |
| RegionEdit.UntouchedOutsideRemovals | app.py:90-96 | a pixel that lies in no "remove" region keeps its value through the whole list |
| RegionEdit.RemoveTwiceCompounds | app.py:93-96 | the same "remove" record given twice blurs its region twice: each pass reads the already-blurred copy |
| RegionEdit.RemovedPixel | app.py:93-96 | a pixel inside a remove record's region takes the value of the blurred region at the same offset |
| RegionEdit.OrderMatters | app.py:90-96 | the result depends on the order of the records: two overlapping removes under a neighbour-mixing filter give different images in the two orders |
| RegionEdit.WellFormedPrefix | app.py:90-92 | the loop gets through exactly the leading records that have a 4-element bbox and an action; the first record after them is malformed |
| RegionEdit.WriteRegion | app.py:96 | the slice assignment writes the patch into the region and leaves every other cell of the array as it was |
| RegionEdit.BlurRegionInPlace | app.py:93-96 | the array region is replaced by the blur of its old contents, and nothing else changes |
| RegionEdit.ApplyActionInPlace | app.py:91-96 | one well-formed record applied to the working array leaves it holding exactly `ApplyAction` of its old contents |
| RegionEdit.ApplyActionsInPlace | app.py:90-96 | the in-place loop stops exactly at the first malformed record, and the array then holds the ordered application of the records before it |
| Detection.LoadDetectionBackend | models/detection.py:5-19 | a model is loaded iff the library imports and loading `yolov8n.pt` returns, and it is the model returned |
| Detection.Digits | models/detection.py:49 | the decimal form of a natural is a non-empty digit string with no leading zero |
| Detection.DigitsRoundTrip | models/detection.py:49 | reading the decimal digits of n back gives n |
| Detection.DecimalRoundTrip | models/detection.py:49 | parsing `str(cls_id)` gives back cls_id for every integer, negative ones included |
| Detection.DecimalString | models/detection.py:49 | `str(n)` is canonical (no leading zero, no "-0") and starts with a minus sign exactly when n < 0 |
| Detection.DigitsOfValue | models/detection.py:49 | a digit string without a leading zero is the decimal spelling of its own value |
| Detection.CanonicalIsDecimalString | models/detection.py:49 | the only canonical string that reads back as n is `str(n)` |
| Detection.Label | models/detection.py:49 | the label is the class name when the id is in `names`, else a canonical string that reads back as the id, which is therefore `str(cls_id)` |
| Detection.Normalize | models/detection.py:46-56 | a box gives a detection iff its coordinates have 4 entries and its class and confidence are present; the detection keeps the coordinates and takes the label of its class |
| Detection.Detections | models/detection.py:43-64 | never more detections than boxes |
| Detection.Kept | models/detection.py:45-64 | the kept indices are increasing and in range |
| Detection.KeptExactly | models/detection.py:45-64 | index j is kept iff every field of box j reads (by Normalize, iff it normalises): a box is skipped exactly when reading one of its fields fails |
| Detection.DetectionsAreKeptBoxes | models/detection.py:45-64 | the k-th detection is exactly the normalisation of the k-th kept box: problem boxes are skipped and order is kept |
| Detection.DetectionsAppend | models/detection.py:45-64 | each box is handled on its own: the detections of xs + ys are those of xs followed by those of ys |
| Detection.NoNamesGivesNumericLabels | models/detection.py:44-49 | without a `names` table, the k-th label reads back as the class id of the k-th kept box and is exactly `str` of that id |
| Detection.MarksFor | models/detection.py:58-61 | one detection draws at most one outline and one caption, the outline first; the outline is there iff it is accepted, the caption iff both are |
| Detection.Annotations | models/detection.py:52-61 | never more than two marks per detection in total; the per-detection structure is MarksFor's |
| Detection.CaptionFollowsOutline | models/detection.py:58-61 | every caption on the image comes right after the outline of a detection that carries that caption |
| Detection.AnnotationsMatchDetections | models/detection.py:52-61 | every drawn mark belongs to a detection, and every detection's outline is drawn unless drawing it raises |
| Detection.AnnotationsExtend | models/detection.py:58-61 | one more detection appends exactly its own marks to the drawing |
| Detection.Canvas.Draw | models/detection.py:59-61 | a drawing call either raises and adds nothing, or adds its mark |
| Detection.Canvas.DrawDetection | models/detection.py:58-64 | a detection draws its outline, then its caption at (x1+3, y1+3); a raise skips the rest of that box |
| Detection.BackendResults | models/detection.py:34-41 | there are results iff a model is loaded and inference returns a non-empty list; they are its first element |
| Detection.DetectionsOf | models/detection.py:34-41 | no model, inference that raises, or an empty result list (indexing `[0]` raises inside the `try`) gives no detections |
| Detection.CollectBox | models/detection.py:46-64 | one loop pass extends the list and the drawing exactly as one more box extends `Detections` and `Annotations` |
| Detection.CollectDetections | models/detection.py:43-64 | the loop returns exactly the detections of the boxes, and the image carries exactly their annotations |
| Detection.RunObjectDetection | models/detection.py:22-66 | the returned list is the detections of the model's results; the returned image is the opened photo carrying exactly the marks of those detections; with no model both are empty |
| SketchDiffusion.LoadSketchBackend | models/sketch_diffusion.py:5-28 | a device is chosen iff the import succeeds, and it is cuda iff CUDA is available; a pipeline is present iff loading `stabilityai/sd-turbo` at that device's precision returns |
| SketchDiffusion.FallbackStylize | models/sketch_diffusion.py:31-43 | the result is always the photo resized to 512×512; it is then edge-enhanced and smoothed iff the style is "cartoon", greyscaled, edge-found and colourised black→#f0f0f0 iff "pencil", and given the detail filter otherwise |
| SketchDiffusion.Binarize | models/sketch_diffusion.py:62-63 | the threshold keeps the shape and is two-tone: a pixel becomes 255 iff its level is below 200 |
| SketchDiffusion.BinarizeNegatesTwoTone | models/sketch_diffusion.py:63 | on an already two-tone image the threshold swaps black and white, so it is its own inverse there (an illustration: the code never thresholds a two-tone image) |
| SketchDiffusion.BackendInvocation | models/sketch_diffusion.py:58-83 | the pipeline gets the prompt, strength 0.8, the given guidance and steps, and the thresholded 512×512 greyscale of the sketch as a two-tone image |
| SketchDiffusion.FirstImage | models/sketch_diffusion.py:69-85 | there is an output iff the pipeline call returns a non-empty image list, and it is the first image |
| SketchDiffusion.SketchToImage | models/sketch_diffusion.py:46-87 | the fallback with the same style is the result iff there is no pipeline or the call fails; otherwise the result is the first generated image, produced under autocast exactly on cuda |
| Segmentation.TopHalfMask | models/segmentation.py:15-17 | the mask is h×w and 0/1; a row is all ones iff it is in the top `h // 2` rows, and all zeros otherwise |
| Segmentation.TopHalfMaskCount | models/segmentation.py:15-17 | the mask has exactly `(h // 2) * w` ones; an image of height 0 or 1 gets an all-zero mask |
| Segmentation.SimpleSegmentationMask | models/segmentation.py:6-19 | the array mask has the image's dimensions and holds exactly the top-half mask |
| App.ApiDetectObjects | app.py:40-58 | 400 "No image" iff there is no upload; otherwise the detections and annotated image of `run_object_detection` on it |
| App.ObjectEditReply | app.py:61-101 | 400 "Invalid payload" iff `get_json()` yields `None` (a JSON `null` body) or the image or actions key is missing; a server error iff some action record is malformed; otherwise an image of the input's shape |
| App.NoRemoveReturnsInput | app.py:88-98 | a well-formed request without a "remove" record returns the uploaded image unchanged |
| App.EditLeavesOtherPixels | app.py:88-98 | every pixel outside all "remove" regions comes back exactly as uploaded |
| App.ToBgrArray | app.py:88 | the fresh OpenCV array holds the image with red and blue swapped |
| App.ApiObjectEdit | app.py:61-101 | the route with its in-place loop answers exactly `ObjectEditReply` |
| App.ApiSketchToImage | app.py:111-120 | 400 "No image" iff there is no upload; otherwise `sketch_to_image` with guidance 3.0 and 15 steps unless given, the default prompt and the "cartoon" style |
| App.GanParameters | app.py:133-138 | a `None` from `get_json()` (a JSON `null` body) is a server error; otherwise latent_dim defaults to 16 and noise_scale to 1.0, and given values pass through |

## Left out

- Flask itself rejects a request whose body is not JSON, inside `get_json()`, before either
  JSON route's checks; the model starts from the value `get_json()` returns.
- Flask routing, `request.files` and `request.get_json`, saving uploads to disk
  (`save_uploaded_image`, timestamps), and base64/PNG encoding and decoding. Uploads arrive as
  decoded images. A base64 or image-decode failure, which ends as a server error, is not modelled.
- JSON values of unexpected types are not modelled. Examples: an `actions` value that is not a
  list, bbox entries that are not integers, a record that is not an object. A record is modelled
  as two optional keys, and only a missing key or a bbox of the wrong length raises.
- Parsing the sketch form fields with `float`/`int`, and the server error when that fails. The
  fields arrive parsed.
- The pixels of OpenCV's 15×15 Gaussian blur and of the PIL filters, resize, greyscale and
  colorize. These are opaque operations: a shape-keeping parameter, or symbolic constructors.
- Model inference for YOLO and Stable Diffusion, `torch.autocast`, tensor dtypes and CUDA
  placement. Inference is a function that raises or returns. The dtype is kept only as the
  chosen `Precision`.
- Detection.Normalize: the confidence is modelled as an integer number of thousandths, so
  `round(score, 3)` is the identity on it. The float confidence itself, the `:.2f` caption text
  and the float→int truncation of coordinates are not modelled; the caption carries the score in
  thousandths.
- Detection.Canvas.Draw: which drawing calls raise is a predicate parameter (`refuses`), not
  something derived from the imaging library.
- SketchDiffusion.BackendInvocation and SketchDiffusion.SketchToImage: the 512×512 size of the thresholded image is proved only for
  a `luma` that keeps size. The preprocessing at models/sketch_diffusion.py:58-64 runs before
  the `try` and is assumed to succeed. This may not hold: `(arr < 200) * 255` is an array of the
  platform's default integer type, typically 64-bit, and `Image.fromarray` may not accept that
  type. If it does not, every call with a loaded pipeline ends in a server error instead of the
  fallback, and `SketchToImage` would raise rather than return. Element types are not part of
  this model, so this path is not modelled.
- The model of `/api/object_edit` assumes uploads are RGB images. The `convert("RGB")` step is
  where the model starts.
- `models/gan_playground.py` is not part of this model. Its generator is outside the core, so
  the GAN route is modelled up to the parameters it passes.
- `static/js/main.js`, the browser UI, is not modelled.
- Concurrency is not modelled: the source has no locking, and requests are modelled one at a
  time.
- Segmentation.SimpleSegmentationMask: the mask holds unbounded integers rather than `uint8`.
  Its values are only 0 and 1, so nothing is lost. Reading the image from a path is replaced by
  taking its pixel array.
