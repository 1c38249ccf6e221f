/**
 * The HTTP routes of app.py, reduced to what they decide: the 400 replies for missing inputs,
 * the parameter defaults, and the object-edit route around the region-edit executor.
 * Uploads arrive already decoded; saving them to disk and base64/PNG encoding are not modelled.
 */
module App {
  import opened Common
  import opened Raster
  import RegionEdit
  import Detection
  import SketchDiffusion

  const BadRequest := 400

  /** What a route answers: a client error with its JSON message, an uncaught exception (500), or a body. */
  datatype Reply<+T> = Rejected(status: int, error: string) | Crashed | Replied(body: T)

  // ----- /api/detect_objects -----

  datatype Detected = Detected(bboxes: seq<Detection.Detection>, annotated: Detection.Canvas)

  /** `api_detect_objects` (lines 40-58): 400 "No image" without an upload, else the detector's answer. */
  method ApiDetectObjects(upload: Option<Image>, backend: Detection.DetectionBackend, refuses: Detection.Mark -> bool)
    returns (reply: Reply<Detected>)
    ensures upload.None? <==> reply == Rejected(BadRequest, "No image")
    ensures upload.Some? ==> (reply.Replied?
      && reply.body.bboxes == Detection.DetectionsOf(backend, upload.value)
      && reply.body.annotated.photo == upload.value
      && reply.body.annotated.marks == Detection.Annotations(reply.body.bboxes, refuses))
  {
    if upload.None? {
      return Rejected(BadRequest, "No image");
    }
    var dets, annotated := Detection.RunObjectDetection(backend, upload.value, refuses);
    reply := Replied(Detected(dets, annotated));
  }

  // ----- /api/object_edit -----

  /**
   * The JSON object `get_json()` returns for an edit request; a field is `None` when its key
   * is missing. The route's `body` is `None` when `get_json()` yields `None` (a JSON `null` body).
   */
  datatype EditRequest = EditRequest(image: Option<Image>, actions: Option<seq<RegionEdit.EditAction>>)

  predicate ValidPayload(body: Option<EditRequest>) {
    body.Some? && body.value.image.Some? && body.value.actions.Some?
  }

  /**
   * The reply of `api_object_edit` (lines 61-101). A `None` from `get_json()` (a JSON `null`
   * body) or a missing key gives 400 "Invalid payload" and no edit; a malformed action record raises (500); otherwise the
   * records are applied to the BGR copy and the result is converted back to RGB.
   */
  function ObjectEditReply(body: Option<EditRequest>, blur: Image -> Image): (r: Reply<Image>)
    requires KeepsShape(blur)
    ensures r.Rejected? <==> !ValidPayload(body)
    ensures r.Rejected? ==> r == Rejected(BadRequest, "Invalid payload")
    ensures r.Crashed? <==> ValidPayload(body) && !RegionEdit.AllWellFormed(body.value.actions.value)
    ensures r.Replied? ==> |r.body| == |body.value.image.value| && Width(r.body) == Width(body.value.image.value)
  {
    if !ValidPayload(body) then Rejected(BadRequest, "Invalid payload")
    else
      var img, acts := body.value.image.value, body.value.actions.value;
      var n := RegionEdit.WellFormedPrefix(acts);
      if n < |acts| then Crashed
      else
        assert acts[..n] == acts;
        Replied(SwapRedBlue(RegionEdit.ApplyAll(SwapRedBlue(img), acts, blur)))
  }

  /** With no `"remove"` record the edited image is the uploaded one: the two channel swaps cancel. */
  lemma NoRemoveReturnsInput(img: Image, acts: seq<RegionEdit.EditAction>, blur: Image -> Image)
    requires KeepsShape(blur) && RegionEdit.AllWellFormed(acts)
    requires forall k :: 0 <= k < |acts| ==> !RegionEdit.IsRemove(acts[k])
    ensures ObjectEditReply(Some(EditRequest(Some(img), Some(acts))), blur) == Replied(img)
  {
    var n := RegionEdit.WellFormedPrefix(acts);
    assert n == |acts|;
    SwapRedBlueTwice(img);
  }

  /** A pixel no `"remove"` region covers comes back exactly as uploaded. */
  lemma EditLeavesOtherPixels(img: Image, acts: seq<RegionEdit.EditAction>, blur: Image -> Image, i: nat, j: nat)
    requires KeepsShape(blur) && RegionEdit.AllWellFormed(acts)
    requires i < |img| && j < Width(img)
    requires forall k :: 0 <= k < |acts| ==> !RegionEdit.Blurs(acts[k], |img|, Width(img), i, j)
    ensures ObjectEditReply(Some(EditRequest(Some(img), Some(acts))), blur).Replied?
    ensures ObjectEditReply(Some(EditRequest(Some(img), Some(acts))), blur).body[i][j] == img[i][j]
  {
    var n := RegionEdit.WellFormedPrefix(acts);
    assert n == |acts|;
    var bgr := SwapRedBlue(img);
    RegionEdit.UntouchedOutsideRemovals(bgr, acts, blur, i, j);
  }

  /** `cv2.cvtColor(np.array(img), cv2.COLOR_RGB2BGR)` (line 88): a fresh array with the channels swapped. */
  method ToBgrArray(img: Image) returns (cv: array2<Pixel>)
    ensures fresh(cv)
    ensures Rows(cv) == SwapRedBlue(img)
  {
    var h, w := |img|, Width(img);
    cv := new Pixel[h, w]((i, j) requires 0 <= i < h && 0 <= j < w => ReverseChannels(img[i][j]));
    ghost var bgr := SwapRedBlue(img);
    ghost var got := Rows(cv);
    forall i | 0 <= i < h
      ensures got[i] == bgr[i]
    {
      forall j | 0 <= j < w
        ensures got[i][j] == bgr[i][j]
      {
        assert got[i][j] == cv[i, j];
      }
    }
  }

  /**
   * `api_object_edit` run step by step: the upload converted into a fresh BGR array, the
   * records applied to that array in place, and the array converted back.
   */
  method ApiObjectEdit(body: Option<EditRequest>, blur: Image -> Image) returns (reply: Reply<Image>)
    requires KeepsShape(blur)
    ensures reply == ObjectEditReply(body, blur)
  {
    if !ValidPayload(body) {
      return Rejected(BadRequest, "Invalid payload");
    }
    var img, acts := body.value.image.value, body.value.actions.value;
    var cv := ToBgrArray(img);
    var done := RegionEdit.ApplyActionsInPlace(cv, acts, blur);
    if done < |acts| {
      return Crashed;
    }
    assert acts[..done] == acts;
    reply := Replied(SwapRedBlue(Rows(cv)));
  }

  // ----- /api/sketch_to_image -----

  /** The form fields of a sketch request, already parsed; `None` when absent. */
  datatype SketchForm = SketchForm(guidanceScale: Option<real>, numSteps: Option<int>)

  /**
   * `api_sketch_to_image` (lines 106-123): 400 "No image" without an upload; otherwise guidance
   * 3.0 and 15 steps unless given, and always the default prompt and the "cartoon" style.
   */
  function ApiSketchToImage(upload: Option<Image>, form: SketchForm, backend: SketchDiffusion.SketchBackend,
                            luma: SketchDiffusion.Picture -> seq<seq<int>>): (r: Reply<SketchDiffusion.Picture>)
    ensures upload.None? <==> r == Rejected(BadRequest, "No image")
    ensures upload.Some? ==> r == Replied(SketchDiffusion.SketchToImage(backend, upload.value, luma,
      form.guidanceScale.GetOr(3.0), form.numSteps.GetOr(15), SketchDiffusion.DefaultPrompt, "cartoon"))
    ensures upload.Some? && backend.pipe.None? ==> r == Replied(SketchDiffusion.FallbackStylize(upload.value, "cartoon"))
  {
    if upload.None? then Rejected(BadRequest, "No image")
    else
      var guidance := form.guidanceScale.GetOr(3.0);
      var steps := form.numSteps.GetOr(15);
      Replied(SketchDiffusion.SketchToImage(backend, upload.value, luma, guidance, steps))
  }

  // ----- /api/gan_generate -----

  /** The JSON object `get_json()` returns for a generation request; `None` fields are absent keys. */
  datatype GanBody = GanBody(latentDim: Option<int>, noiseScale: Option<real>)

  datatype GanParams = GanParams(latentDim: int, noiseScale: real)

  /**
   * The parameters `api_gan_generate` (lines 128-140) passes to the generator: latent_dim 16
   * and noise_scale 1.0 unless given. There is no 400 check: when `get_json()` yields `None`
   * (a JSON `null` body), `data.get` raises and the request ends in a 500.
   */
  function GanParameters(body: Option<GanBody>): (r: Reply<GanParams>)
    ensures r.Crashed? <==> body.None?
    ensures body.Some? ==> (r.Replied?
      && (body.value.latentDim.None? ==> r.body.latentDim == 16)
      && (body.value.latentDim.Some? ==> r.body.latentDim == body.value.latentDim.value)
      && (body.value.noiseScale.None? ==> r.body.noiseScale == 1.0)
      && (body.value.noiseScale.Some? ==> r.body.noiseScale == body.value.noiseScale.value))
  {
    match body
    case None => Crashed
    case Some(b) => Replied(GanParams(b.latentDim.GetOr(16), b.noiseScale.GetOr(1.0)))
  }
}
