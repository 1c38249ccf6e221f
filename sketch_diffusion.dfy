/**
 * Sketch-to-image stylisation (models/sketch_diffusion.py). The diffusion pipeline and its
 * device are module globals set once at import; a call runs the pipeline on a thresholded
 * 512x512 copy of the sketch when a pipeline is loaded, and otherwise, or when the pipeline
 * call raises, falls back to a fixed chain of imaging filters chosen by the style.
 */
module SketchDiffusion {
  import opened Common
  import opened Raster

  /** The imaging library's built-in kernels used here (their pixel arithmetic is not modelled). */
  datatype Filter = EdgeEnhance | SmoothMore | FindEdges | Detail

  /** An image as the chain of imaging-library operations that produced it. */
  datatype Picture =
    | Opened(pixels: Image)                          // Image.open(path).convert("RGB")
    | Resized(src: Picture, width: nat, height: nat) // img.resize((width, height))
    | Filtered(src: Picture, filter: Filter)         // img.filter(...)
    | Greyscale(src: Picture)                        // ImageOps.grayscale(img)
    | Colorized(src: Picture, black: string, white: string)  // ImageOps.colorize(img, black, white)
    | FromLevels(levels: seq<seq<int>>)              // Image.fromarray(levels).convert("RGB")

  datatype Size = Size(width: nat, height: nat)

  /** Width and height of a picture: resizing sets them, every filter keeps them. */
  function SizeOf(p: Picture): Size {
    match p
    case Opened(px) => Size(Width(px), |px|)
    case Resized(_, w, h) => Size(w, h)
    case Filtered(src, _) => SizeOf(src)
    case Greyscale(src) => SizeOf(src)
    case Colorized(src, _, _) => SizeOf(src)
    case FromLevels(l) => Size(Width(l), |l|)
  }

  /** The picture a chain of filters starts from. */
  function Base(p: Picture): Picture {
    match p
    case Filtered(src, _) => Base(src)
    case Greyscale(src) => Base(src)
    case Colorized(src, _, _) => Base(src)
    case _ => p
  }

  const ModelId := "stabilityai/sd-turbo"
  const Side: nat := 512
  const Cutoff := 200
  const Strength: real := 0.8
  const DefaultPrompt := "a cute digital art, clean, high quality"

  datatype Device = Cuda | Cpu
  datatype Precision = Float16 | Float32

  /** The keyword arguments of one pipeline call. */
  datatype Invocation = Invocation(prompt: string, image: Picture, strength: real, guidanceScale: real, steps: int)

  /** A loaded img2img pipeline: called under autocast or not, it raises or returns its `images` list. */
  datatype Pipeline = Pipeline(generate: (bool, Invocation) -> Call<seq<Picture>>)

  /** The module globals `_HAS_DIFFUSERS`, `_device` and `_pipe`, fixed once the module is imported. */
  datatype SketchBackend = SketchBackend(hasDiffusers: bool, device: Option<Device>, pipe: Option<Pipeline>)

  function PrecisionFor(d: Device): Precision {
    if d == Cuda then Float16 else Float32
  }

  /**
   * Import-time initialisation (lines 5-28). A device is chosen only when the imports succeed,
   * "cuda" exactly when an accelerator is available; the pipeline is loaded in half precision on
   * cuda and full precision on cpu, and stays absent when the imports fail or loading raises.
   */
  function LoadSketchBackend(importOk: bool, cudaAvailable: bool, load: (string, Precision, Device) -> Call<Pipeline>)
    : (b: SketchBackend)
    ensures b.hasDiffusers == importOk
    ensures b.device.Some? <==> importOk
    ensures b.device == Some(Cuda) <==> importOk && cudaAvailable
    ensures b.pipe.Some? ==> importOk
    ensures importOk ==> (b.pipe.Some? <==> load(ModelId, PrecisionFor(b.device.value), b.device.value).Returned?)
    ensures b.pipe.Some? ==> load(ModelId, PrecisionFor(b.device.value), b.device.value) == Returned(b.pipe.value)
  {
    if !importOk then SketchBackend(false, None, None)
    else
      var d := if cudaAvailable then Cuda else Cpu;
      match load(ModelId, PrecisionFor(d), d)
      case Raised => SketchBackend(true, Some(d), None)
      case Returned(p) => SketchBackend(true, Some(d), Some(p))
  }

  /**
   * `_fallback_stylize` (lines 31-43): resize to 512x512, then exactly one style branch:
   * edge-enhance and smooth for "cartoon", greyscale, find-edges and colorize for "pencil",
   * detail for any other string.
   */
  function FallbackStylize(photo: Image, style: string): (r: Picture)
    ensures Base(r) == Resized(Opened(photo), Side, Side)
    ensures SizeOf(r) == Size(Side, Side)
    ensures style == "cartoon" <==> r == Filtered(Filtered(Base(r), EdgeEnhance), SmoothMore)
    ensures style == "pencil" <==> r == Colorized(Filtered(Greyscale(Base(r)), FindEdges), "black", "#f0f0f0")
    ensures style != "cartoon" && style != "pencil" <==> r == Filtered(Base(r), Detail)
  {
    var img := Resized(Opened(photo), Side, Side);
    if style == "cartoon" then
      assert Base(Filtered(img, EdgeEnhance)) == img && SizeOf(Filtered(img, EdgeEnhance)) == Size(Side, Side);
      Filtered(Filtered(img, EdgeEnhance), SmoothMore)
    else if style == "pencil" then
      var edges := Filtered(Greyscale(img), FindEdges);
      assert Base(Greyscale(img)) == img && SizeOf(Greyscale(img)) == Size(Side, Side);
      Colorized(edges, "black", "#f0f0f0")
    else
      assert Base(img) == img && SizeOf(img) == Size(Side, Side);
      Filtered(img, Detail)
  }

  predicate TwoTone(levels: seq<seq<int>>) {
    forall i, j :: 0 <= i < |levels| && 0 <= j < |levels[i]| ==> levels[i][j] == 0 || levels[i][j] == 255
  }

  /**
   * `(arr < 200) * 255` (line 63): every grey level below the cutoff becomes 255 and every
   * other becomes 0, so the result is two-tone and has the input's shape.
   */
  function Binarize(levels: seq<seq<int>>): (r: seq<seq<int>>)
    ensures |r| == |levels| && forall i :: 0 <= i < |r| ==> |r[i]| == |levels[i]|
    ensures TwoTone(r)
    ensures forall i, j :: 0 <= i < |r| && 0 <= j < |r[i]| ==> (r[i][j] == 255 <==> levels[i][j] < Cutoff)
  {
    seq(|levels|, i requires 0 <= i < |levels| =>
      seq(|levels[i]|, j requires 0 <= j < |levels[i]| => if levels[i][j] < Cutoff then 255 else 0))
  }

  /** The photographic negative of an 8-bit grey image. */
  function Negative(levels: seq<seq<int>>): seq<seq<int>> {
    seq(|levels|, i requires 0 <= i < |levels| =>
      seq(|levels[i]|, j requires 0 <= j < |levels[i]| => 255 - levels[i][j]))
  }

  /**
   * An illustration of the threshold at line 63, not something the code relies on: the code
   * thresholds only once, and never on an image that is already two-tone. On a two-tone image
   * the threshold is the negative (dark strokes come out white and the light paper black), so
   * thresholding twice gives the image back.
   */
  lemma BinarizeNegatesTwoTone(levels: seq<seq<int>>)
    requires TwoTone(levels)
    ensures Binarize(levels) == Negative(levels)
    ensures Binarize(Binarize(levels)) == levels
  {
    var b, n := Binarize(levels), Negative(levels);
    forall i | 0 <= i < |levels|
      ensures b[i] == n[i]
    {
      assert |b[i]| == |n[i]|;
      forall j | 0 <= j < |levels[i]|
        ensures b[i][j] == n[i][j]
      {
      }
    }
    var bb := Binarize(b);
    forall i | 0 <= i < |levels|
      ensures bb[i] == levels[i]
    {
      assert |bb[i]| == |levels[i]|;
    }
  }

  /** The readback `np.array(img.convert("L"))` returns one grey level per pixel. */
  ghost predicate LumaKeepsSize(luma: Picture -> seq<seq<int>>) {
    forall p :: |luma(p)| == SizeOf(p).height && IsRect(luma(p)) && (|luma(p)| > 0 ==> Width(luma(p)) == SizeOf(p).width)
  }

  /**
   * Lines 58-64 and the arguments of lines 69-83: the sketch is resized to 512x512 and
   * thresholded; the call passes the prompt, that image, strength 0.8, the guidance scale and
   * the step count. The device plays no part in the arguments.
   */
  function BackendInvocation(photo: Image, luma: Picture -> seq<seq<int>>, guidance: real, steps: int, prompt: string)
    : (inv: Invocation)
    ensures inv.prompt == prompt && inv.strength == Strength && inv.guidanceScale == guidance && inv.steps == steps
    ensures inv.image.FromLevels? && TwoTone(inv.image.levels)
    ensures inv.image.levels == Binarize(luma(Resized(Opened(photo), Side, Side)))
    ensures LumaKeepsSize(luma) ==> SizeOf(inv.image) == Size(Side, Side)
  {
    var init := Resized(Opened(photo), Side, Side);
    var levels := Binarize(luma(init));
    Invocation(prompt, FromLevels(levels), Strength, guidance, steps)
  }

  /** `out.images[0]` inside the `try`: `None` when the call raises or the list is empty. */
  function FirstImage(pipe: Pipeline, autocast: bool, inv: Invocation): (r: Option<Picture>)
    ensures r.Some? <==> pipe.generate(autocast, inv).Returned? && |pipe.generate(autocast, inv).value| > 0
    ensures r.Some? ==> r.value == pipe.generate(autocast, inv).value[0]
  {
    match pipe.generate(autocast, inv)
    case Raised => None
    case Returned(images) => if |images| == 0 then None else Some(images[0])
  }

  /**
   * `sketch_to_image` (lines 46-87). The fallback, with the same sketch and style, is the
   * result exactly when no pipeline is loaded or the pipeline call fails; otherwise the result
   * is the pipeline's first image, produced under autocast exactly when the device is cuda.
   */
  function SketchToImage(b: SketchBackend, photo: Image, luma: Picture -> seq<seq<int>>,
                         guidance: real := 3.0, steps: int := 15,
                         prompt: string := DefaultPrompt, style: string := "cartoon"): (r: Picture)
    ensures b.pipe.None? ==> r == FallbackStylize(photo, style)
    ensures b.pipe.Some? ==>
      var out := FirstImage(b.pipe.value, b.device == Some(Cuda), BackendInvocation(photo, luma, guidance, steps, prompt));
      r == if out.Some? then out.value else FallbackStylize(photo, style)
  {
    if b.pipe.None? then FallbackStylize(photo, style)
    else
      var inv := BackendInvocation(photo, luma, guidance, steps, prompt);
      match FirstImage(b.pipe.value, b.device == Some(Cuda), inv)
      case None => FallbackStylize(photo, style)
      case Some(img) => img
  }
}
