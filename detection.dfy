/**
 * Object detection with fallback (models/detection.py): the detector handle is loaded once at
 * import; a run returns no detections and an undrawn image when there is no handle or the
 * call raises, and otherwise turns the backend's raw boxes into `{bbox, label, score}` records,
 * skipping any box whose fields cannot be read, and draws each kept record on the image.
 */
module Detection {
  import opened Common
  import opened Raster

  /** One raw box of the backend's output; a field is `None` when reading it raises. */
  datatype RawBox = RawBox(xyxy: Option<seq<int>>, cls: Option<int>, conf: Option<int>)

  /** The first result object: its `names` and `boxes` attributes, `None` when absent. */
  datatype Results = Results(names: Option<map<int, string>>, boxes: Option<seq<RawBox>>)

  /** A loaded detector: calling it on an image raises or returns a list of result objects. */
  datatype Detector = Detector(infer: Image -> Call<seq<Results>>)

  /** The module globals `_HAS_ULTRALYTICS` and `_model`, fixed once the module is imported. */
  datatype DetectionBackend = DetectionBackend(hasUltralytics: bool, model: Option<Detector>)

  const Weights := "yolov8n.pt"

  /**
   * Import-time initialisation (lines 5-19): the handle exists exactly when the import
   * succeeded and loading the weights did not raise.
   */
  function LoadDetectionBackend(importOk: bool, load: string -> Call<Detector>): (b: DetectionBackend)
    ensures b.hasUltralytics == importOk
    ensures b.model.Some? <==> importOk && load(Weights).Returned?
    ensures b.model.Some? ==> load(Weights) == Returned(b.model.value)
  {
    if !importOk then DetectionBackend(false, None)
    else match load(Weights)
      case Raised => DetectionBackend(true, None)
      case Returned(m) => DetectionBackend(true, Some(m))
  }

  // ----- Python's str(int) and its inverse -----

  function DigitChar(d: nat): (c: char)
    requires d < 10
    ensures '0' <= c <= '9'
  {
    (('0' as int) + d) as char
  }

  predicate AllDigits(s: string) {
    forall k :: 0 <= k < |s| ==> '0' <= s[k] <= '9'
  }

  /** Decimal digits of a natural number, most significant first, without leading zeros. */
  function Digits(n: nat): (s: string)
    ensures |s| >= 1 && AllDigits(s)
    ensures |s| > 1 ==> s[0] != '0'
    ensures s[0] == '0' ==> n == 0
    decreases n
  {
    if n < 10 then [DigitChar(n)] else Digits(n / 10) + [DigitChar(n % 10)]
  }

  /**
   * The strings `str` gives for an int: digits with no leading zero, optionally after a minus
   * sign that is followed by a non-zero digit (so neither "07" nor "-0" qualifies).
   */
  predicate Canonical(s: string) {
    (|s| >= 1 && AllDigits(s) && (|s| > 1 ==> s[0] != '0'))
    || (|s| >= 2 && s[0] == '-' && AllDigits(s[1..]) && s[1] != '0')
  }

  /** `str(n)` for a Python int: a minus sign for negative values, then the digits. */
  function DecimalString(n: int): (s: string)
    ensures Canonical(s)
    ensures |s| > 0 && (s[0] == '-' <==> n < 0)
  {
    if n < 0 then
      var d := Digits(-n);
      assert d[0] != '0';
      assert ("-" + d)[1..] == d;
      "-" + d
    else Digits(n)
  }

  /** The number a string of decimal digits denotes. */
  function DigitsValue(s: string): nat
    requires AllDigits(s)
    decreases |s|
  {
    if |s| == 0 then 0 else DigitsValue(s[..|s| - 1]) * 10 + (s[|s| - 1] as int - '0' as int)
  }

  /** `int(s)` for the strings `str` produces: an optional minus sign, then at least one digit. */
  function ParseDecimal(s: string): Option<int> {
    if |s| > 0 && AllDigits(s) then Some(DigitsValue(s))
    else if |s| > 1 && s[0] == '-' && AllDigits(s[1..]) then
      var v: int := 0 - DigitsValue(s[1..]) as int;
      Some(v)
    else None
  }

  lemma {:induction false} DigitsRoundTrip(n: nat)
    ensures DigitsValue(Digits(n)) == n
    decreases n
  {
    if n >= 10 {
      var s := Digits(n);
      assert s[..|s| - 1] == Digits(n / 10);
      DigitsRoundTrip(n / 10);
    }
  }

  /** Reading back the decimal string of an int gives the int: `int(str(n)) == n`. */
  lemma DecimalRoundTrip(n: int)
    ensures ParseDecimal(DecimalString(n)) == Some(n)
  {
    if n < 0 {
      SignedRoundTrip(-n);
    } else {
      DigitsRoundTrip(n);
    }
  }

  /** A digit string with no leading zero that starts with a non-zero digit denotes a positive number. */
  lemma {:induction false} LeadingDigitPositive(s: string)
    requires |s| >= 1 && AllDigits(s) && s[0] != '0'
    ensures DigitsValue(s) >= 1
    decreases |s|
  {
    if |s| > 1 {
      LeadingDigitPositive(s[..|s| - 1]);
    }
  }

  /** A digit string with no leading zero is the `Digits` of its own value. */
  lemma {:induction false} DigitsOfValue(s: string)
    requires |s| >= 1 && AllDigits(s) && (|s| > 1 ==> s[0] != '0')
    ensures Digits(DigitsValue(s)) == s
    decreases |s|
  {
    if |s| > 1 {
      var p := s[..|s| - 1];
      var c := s[|s| - 1] as int - '0' as int;
      LeadingDigitPositive(p);
      DigitsOfValue(p);
      var n := DigitsValue(s);
      assert n == DigitsValue(p) * 10 + c && n >= 10;
      assert n / 10 == DigitsValue(p) && n % 10 == c;
      assert DigitChar(c) == s[|s| - 1];
      assert s == p + [s[|s| - 1]];
    }
  }

  /**
   * `str` is the only canonical spelling of a number: a canonical string that reads as n is
   * exactly `str(n)`.
   */
  lemma CanonicalIsDecimalString(s: string, n: int)
    requires Canonical(s) && ParseDecimal(s) == Some(n)
    ensures s == DecimalString(n)
  {
    if |s| >= 1 && AllDigits(s) && (|s| > 1 ==> s[0] != '0') {
      DigitsOfValue(s);
    } else {
      var d := s[1..];
      DigitsOfValue(d);
      LeadingDigitPositive(d);
      assert s == "-" + d;
    }
  }

  /** A minus sign before the digits of m reads back as -m. */
  lemma SignedRoundTrip(m: nat)
    ensures ParseDecimal("-" + Digits(m)) == Some(-(m as int))
  {
    var d := Digits(m);
    DigitsRoundTrip(m);
    var s := "-" + d;
    assert s[0] == '-' && s[1..] == d;
  }

  // ----- normalisation of one box -----

  /**
   * A detection record; `Bbox()` is its `"bbox"` list. The score is the confidence as an
   * integer number of thousandths, so `round(score, 3)` is the identity on it.
   */
  datatype Detection = Detection(x1: int, y1: int, x2: int, y2: int, labelText: string, score: int) {
    function Bbox(): seq<int> { [x1, y1, x2, y2] }
  }

  /**
   * `names.get(cls_id, str(cls_id))` (line 49): the class name when the id is known, and
   * otherwise the canonical decimal spelling of the id (by CanonicalIsDecimalString, the only
   * canonical string that reads back as the id).
   */
  function Label(names: map<int, string>, cls: int): (labelText: string)
    ensures cls in names ==> labelText == names[cls]
    ensures cls !in names ==> Canonical(labelText) && ParseDecimal(labelText) == Some(cls)
  {
    if cls in names then names[cls] else DecimalRoundTrip(cls); DecimalString(cls)
  }

  /** Every field the `try` reads is there: four coordinates, a class id and a confidence. */
  predicate Readable(b: RawBox) {
    b.xyxy.Some? && |b.xyxy.value| == 4 && b.cls.Some? && b.conf.Some?
  }

  /**
   * The body of the `try` at lines 47-56: a record when every field of the box reads,
   * with the coordinates kept exactly as converted (no clipping, no reordering).
   */
  function Normalize(names: map<int, string>, b: RawBox): (d: Option<Detection>)
    ensures d.Some? <==> Readable(b)
    ensures d.Some? ==> d.value.Bbox() == b.xyxy.value && d.value.labelText == Label(names, b.cls.value)
                        && d.value.score == b.conf.value
  {
    if Readable(b) then
      var c := b.xyxy.value;
      Some(Detection(c[0], c[1], c[2], c[3], Label(names, b.cls.value), b.conf.value))
    else None
  }

  /** The records the loop collects: one per box that normalises, in the boxes' order. */
  function Detections(names: map<int, string>, boxes: seq<RawBox>): (dets: seq<Detection>)
    ensures |dets| <= |boxes|
    decreases |boxes|
  {
    if |boxes| == 0 then []
    else
      var init := Detections(names, boxes[..|boxes| - 1]);
      match Normalize(names, boxes[|boxes| - 1])
      case None => init
      case Some(d) => init + [d]
  }

  lemma DetectionsExtend(names: map<int, string>, boxes: seq<RawBox>, i: nat)
    requires i < |boxes|
    ensures Normalize(names, boxes[i]).None? ==> Detections(names, boxes[..i + 1]) == Detections(names, boxes[..i])
    ensures Normalize(names, boxes[i]).Some? ==>
      Detections(names, boxes[..i + 1]) == Detections(names, boxes[..i]) + [Normalize(names, boxes[i]).value]
  {
    assert boxes[..i + 1][..i] == boxes[..i];
  }

  /** Positions of the boxes whose fields all read, in increasing order. */
  function Kept(boxes: seq<RawBox>): (ks: seq<nat>)
    ensures forall k :: 0 <= k < |ks| ==> ks[k] < |boxes|
    ensures forall k, l :: 0 <= k < l < |ks| ==> ks[k] < ks[l]
    decreases |boxes|
  {
    if |boxes| == 0 then []
    else
      var n := |boxes| - 1;
      var init := Kept(boxes[..n]);
      if Readable(boxes[n]) then init + [n] else init
  }

  /** A position is kept exactly when every field of its box reads, that is, when the box normalises. */
  lemma {:induction false} KeptExactly(boxes: seq<RawBox>)
    ensures forall j :: 0 <= j < |boxes| ==> (j in Kept(boxes) <==> Readable(boxes[j]))
    decreases |boxes|
  {
    if |boxes| > 0 {
      var n := |boxes| - 1;
      var init := boxes[..n];
      KeptExactly(init);
      var ks, ks' := Kept(init), Kept(boxes);
      assert n !in ks;
      forall j | 0 <= j < |boxes|
        ensures j in ks' <==> Readable(boxes[j])
      {
        if j < n {
          assert init[j] == boxes[j];
        }
      }
    }
  }

  /** The pairing of kept positions with detections, as DetectionsAreKeptBoxes states it. */
  predicate PairedWithKept(names: map<int, string>, boxes: seq<RawBox>) {
    |Detections(names, boxes)| == |Kept(boxes)|
    && forall k :: 0 <= k < |Kept(boxes)| ==>
         Normalize(names, boxes[Kept(boxes)[k]]) == Some(Detections(names, boxes)[k])
  }

  /** The pairing survives one more box that normalises. */
  lemma PairedStepKept(names: map<int, string>, boxes: seq<RawBox>)
    requires |boxes| > 0 && Normalize(names, boxes[|boxes| - 1]).Some?
    requires PairedWithKept(names, boxes[..|boxes| - 1])
    ensures PairedWithKept(names, boxes)
  {
    var n := |boxes| - 1;
    var init := boxes[..n];
    var ks, ks' := Kept(init), Kept(boxes);
    var ds, ds' := Detections(names, init), Detections(names, boxes);
    assert ks' == ks + [n] && ds' == ds + [Normalize(names, boxes[n]).value];
    forall k | 0 <= k < |ks|
      ensures Normalize(names, boxes[ks'[k]]) == Some(ds'[k])
    {
      assert ks'[k] == ks[k] && ds'[k] == ds[k];
      assert init[ks[k]] == boxes[ks[k]];
    }
  }

  /** The pairing survives one more box that does not normalise. */
  lemma PairedStepSkipped(names: map<int, string>, boxes: seq<RawBox>)
    requires |boxes| > 0 && Normalize(names, boxes[|boxes| - 1]).None?
    requires PairedWithKept(names, boxes[..|boxes| - 1])
    ensures PairedWithKept(names, boxes)
  {
    var n := |boxes| - 1;
    var init := boxes[..n];
    var ks := Kept(init);
    assert Kept(boxes) == ks && Detections(names, boxes) == Detections(names, init);
    forall k | 0 <= k < |ks|
      ensures init[ks[k]] == boxes[ks[k]]
    {
    }
  }

  /**
   * The k-th detection is the normalisation of the k-th box that normalises: order is kept,
   * a box is skipped exactly when reading it fails, and a skipped box removes nothing else.
   */
  lemma {:induction false} DetectionsAreKeptBoxes(names: map<int, string>, boxes: seq<RawBox>)
    ensures |Detections(names, boxes)| == |Kept(boxes)|
    ensures forall k :: 0 <= k < |Kept(boxes)| ==>
      Normalize(names, boxes[Kept(boxes)[k]]) == Some(Detections(names, boxes)[k])
    decreases |boxes|
  {
    if |boxes| > 0 {
      DetectionsAreKeptBoxes(names, boxes[..|boxes| - 1]);
      if Normalize(names, boxes[|boxes| - 1]).Some? {
        PairedStepKept(names, boxes);
      } else {
        PairedStepSkipped(names, boxes);
      }
    }
  }

  /** Splitting the box list splits the detections: a bad box in one part does not affect the other. */
  lemma {:induction false} DetectionsAppend(names: map<int, string>, xs: seq<RawBox>, ys: seq<RawBox>)
    ensures Detections(names, xs + ys) == Detections(names, xs) + Detections(names, ys)
    decreases |ys|
  {
    if |ys| == 0 {
      assert xs + ys == xs;
    } else {
      var ys' := ys[..|ys| - 1];
      assert (xs + ys)[..|xs + ys| - 1] == xs + ys';
      assert (xs + ys)[|xs + ys| - 1] == ys[|ys| - 1];
      DetectionsAppend(names, xs, ys');
    }
  }

  /** Without a `names` mapping every label is `str` of its own box's class id. */
  lemma NoNamesGivesNumericLabels(boxes: seq<RawBox>)
    ensures |Detections(map[], boxes)| == |Kept(boxes)|
    ensures forall k :: 0 <= k < |Kept(boxes)| ==> boxes[Kept(boxes)[k]].cls.Some?
    ensures forall k :: 0 <= k < |Kept(boxes)| ==>
      ParseDecimal(Detections(map[], boxes)[k].labelText) == Some(boxes[Kept(boxes)[k]].cls.value)
    ensures forall k :: 0 <= k < |Kept(boxes)| ==>
      Detections(map[], boxes)[k].labelText == DecimalString(boxes[Kept(boxes)[k]].cls.value)
  {
    DetectionsAreKeptBoxes(map[], boxes);
    var ks, ds := Kept(boxes), Detections(map[], boxes);
    forall k | 0 <= k < |ks|
      ensures ParseDecimal(ds[k].labelText) == Some(boxes[ks[k]].cls.value)
      ensures ds[k].labelText == DecimalString(boxes[ks[k]].cls.value)
    {
      var cls := boxes[ks[k]].cls.value;
      assert ds[k].labelText == Label(map[], cls);
      CanonicalIsDecimalString(ds[k].labelText, cls);
    }
  }

  // ----- what is drawn -----

  /** A shape drawn on the image: a box outline, or the caption text at its top-left corner. */
  datatype Mark = Outline(x1: int, y1: int, x2: int, y2: int) | Caption(x: int, y: int, labelText: string, score: int)

  function OutlineOf(d: Detection): Mark {
    Outline(d.x1, d.y1, d.x2, d.y2)
  }

  function CaptionOf(d: Detection): Mark {
    Caption(d.x1 + 3, d.y1 + 3, d.labelText, d.score)
  }

  /**
   * Lines 59-61 for one record: at most one outline and one caption, the outline first; a
   * refused outline skips the caption too; a refused caption keeps the outline.
   */
  function MarksFor(d: Detection, refuses: Mark -> bool): (ms: seq<Mark>)
    ensures |ms| <= 2
    ensures |ms| >= 1 <==> !refuses(OutlineOf(d))
    ensures |ms| >= 1 ==> ms[0] == OutlineOf(d)
    ensures |ms| == 2 <==> !refuses(OutlineOf(d)) && !refuses(CaptionOf(d))
    ensures |ms| == 2 ==> ms[1] == CaptionOf(d)
  {
    if refuses(OutlineOf(d)) then []
    else if refuses(CaptionOf(d)) then [OutlineOf(d)]
    else [OutlineOf(d), CaptionOf(d)]
  }

  /** Everything drawn for a list of records, in their order. */
  function Annotations(dets: seq<Detection>, refuses: Mark -> bool): (marks: seq<Mark>)
    ensures |marks| <= 2 * |dets|
    decreases |dets|
  {
    if |dets| == 0 then [] else Annotations(dets[..|dets| - 1], refuses) + MarksFor(dets[|dets| - 1], refuses)
  }

  /**
   * Every mark belongs to a record, and every record whose outline the library accepts
   * has its outline on the image.
   */
  lemma {:induction false} AnnotationsMatchDetections(dets: seq<Detection>, refuses: Mark -> bool)
    ensures forall m :: m in Annotations(dets, refuses) ==>
      exists k :: 0 <= k < |dets| && (m == OutlineOf(dets[k]) || m == CaptionOf(dets[k]))
    ensures forall k :: 0 <= k < |dets| && !refuses(OutlineOf(dets[k])) ==> OutlineOf(dets[k]) in Annotations(dets, refuses)
    decreases |dets|
  {
    if |dets| > 0 {
      var init := dets[..|dets| - 1];
      AnnotationsMatchDetections(init, refuses);
      assert forall k :: 0 <= k < |init| ==> init[k] == dets[k];
    }
  }

  /**
   * A caption is never drawn on its own: every caption on the image comes right after the
   * outline of a record that carries that caption.
   */
  lemma {:induction false} CaptionFollowsOutline(dets: seq<Detection>, refuses: Mark -> bool)
    ensures forall i :: 0 <= i < |Annotations(dets, refuses)| && Annotations(dets, refuses)[i].Caption? ==>
      0 < i && exists k :: 0 <= k < |dets| && Annotations(dets, refuses)[i] == CaptionOf(dets[k])
                           && Annotations(dets, refuses)[i - 1] == OutlineOf(dets[k])
    decreases |dets|
  {
    if |dets| > 0 {
      var n := |dets| - 1;
      var init := dets[..n];
      CaptionFollowsOutline(init, refuses);
      var a, a' := Annotations(init, refuses), Annotations(dets, refuses);
      var tail := MarksFor(dets[n], refuses);
      assert a' == a + tail;
      forall i | 0 <= i < |a'| && a'[i].Caption?
        ensures 0 < i && exists k :: 0 <= k < |dets| && a'[i] == CaptionOf(dets[k]) && a'[i - 1] == OutlineOf(dets[k])
      {
        if i < |a| {
          assert a'[i] == a[i] && a'[i - 1] == a[i - 1];
          var k :| 0 <= k < |init| && a[i] == CaptionOf(init[k]) && a[i - 1] == OutlineOf(init[k]);
          assert init[k] == dets[k];
        } else {
          assert tail[0].Outline?;
          assert i == |a| + 1 && a'[i] == tail[1] && a'[i - 1] == tail[0];
          assert a'[i] == CaptionOf(dets[n]) && a'[i - 1] == OutlineOf(dets[n]);
        }
      }
    }
  }

  lemma AnnotationsExtend(dets: seq<Detection>, d: Detection, refuses: Mark -> bool)
    ensures Annotations(dets + [d], refuses) == Annotations(dets, refuses) + MarksFor(d, refuses)
  {
    assert (dets + [d])[..|dets|] == dets;
  }

  /** The image being drawn on: `img` and the `ImageDraw` attached to it. */
  class Canvas {
    const photo: Image
    /** Which drawing calls the imaging library rejects with an exception. */
    const refuses: Mark -> bool
    var marks: seq<Mark>

    constructor (photo: Image, refuses: Mark -> bool)
      ensures this.photo == photo && this.refuses == refuses && marks == []
    {
      this.photo := photo;
      this.refuses := refuses;
      marks := [];
    }

    /** One `draw.rectangle` or `draw.text` call; a rejected call raises and draws nothing. */
    method Draw(m: Mark) returns (raised: bool)
      modifies this
      ensures raised == refuses(m)
      ensures marks == if raised then old(marks) else old(marks) + [m]
    {
      raised := refuses(m);
      if !raised {
        marks := marks + [m];
      }
    }

    /** Lines 59-61 inside the `try`: the outline, then the caption; the first raise ends the attempt. */
    method DrawDetection(d: Detection)
      modifies this
      ensures marks == old(marks) + MarksFor(d, refuses)
    {
      var raised := Draw(OutlineOf(d));
      if !raised {
        raised := Draw(CaptionOf(d));
      }
    }
  }

  /** The first result object, or `None` when a fallback applies (no handle, raising call, empty list). */
  function BackendResults(backend: DetectionBackend, photo: Image): (r: Option<Results>)
    ensures r.Some? <==> backend.model.Some? && backend.model.value.infer(photo).Returned?
                         && |backend.model.value.infer(photo).value| > 0
  {
    if backend.model.None? then None
    else match backend.model.value.infer(photo)
      case Raised => None
      case Returned(list) => if |list| == 0 then None else Some(list[0])
  }

  /** The detection list a run returns. */
  function DetectionsOf(backend: DetectionBackend, photo: Image): (dets: seq<Detection>)
    ensures BackendResults(backend, photo).None? ==> dets == []
  {
    match BackendResults(backend, photo)
    case None => []
    case Some(res) => Detections(res.names.GetOr(map[]), res.boxes.GetOr([]))
  }

  /**
   * `run_object_detection` (lines 22-66). Each kept record is appended before it is drawn, so
   * the detections do not depend on which drawing calls fail; on either fallback path nothing
   * is drawn and no detection is returned.
   */
  method RunObjectDetection(backend: DetectionBackend, photo: Image, refuses: Mark -> bool)
    returns (dets: seq<Detection>, annotated: Canvas)
    ensures annotated.photo == photo && annotated.refuses == refuses
    ensures dets == DetectionsOf(backend, photo)
    ensures annotated.marks == Annotations(dets, refuses)
    ensures backend.model.None? ==> dets == [] && annotated.marks == []
  {
    annotated := new Canvas(photo, refuses);
    dets := [];
    if backend.model.None? {
      return;
    }
    var call := backend.model.value.infer(photo);
    if call.Raised? || |call.value| == 0 {
      assert BackendResults(backend, photo).None?;
      return;
    }
    var results := call.value[0];
    assert BackendResults(backend, photo) == Some(results);
    dets := CollectDetections(results.names.GetOr(map[]), results.boxes.GetOr([]), annotated);
  }

  /**
   * The loop at lines 45-64: every box that reads is appended to the list and then drawn;
   * a box that fails to read is skipped, and a failed drawing call skips only the rest of its box.
   */
  method CollectDetections(names: map<int, string>, boxes: seq<RawBox>, canvas: Canvas) returns (dets: seq<Detection>)
    requires canvas.marks == []
    modifies canvas
    ensures dets == Detections(names, boxes)
    ensures canvas.marks == Annotations(dets, canvas.refuses)
  {
    dets := [];
    var i := 0;
    while i < |boxes|
      invariant i <= |boxes|
      invariant dets == Detections(names, boxes[..i])
      invariant canvas.marks == Annotations(dets, canvas.refuses)
    {
      dets := CollectBox(names, boxes, i, dets, canvas);
      i := i + 1;
    }
    assert boxes[..i] == boxes;
  }

  /**
   * One pass of the loop body (lines 46-64): a box that reads is appended and then drawn;
   * one that does not is skipped.
   */
  method CollectBox(names: map<int, string>, boxes: seq<RawBox>, i: nat, dets: seq<Detection>, canvas: Canvas)
    returns (dets': seq<Detection>)
    requires i < |boxes| && dets == Detections(names, boxes[..i])
    requires canvas.marks == Annotations(dets, canvas.refuses)
    modifies canvas
    ensures dets' == Detections(names, boxes[..i + 1])
    ensures canvas.marks == Annotations(dets', canvas.refuses)
  {
    DetectionsExtend(names, boxes, i);
    var d := Normalize(names, boxes[i]);
    dets' := dets;
    if d.Some? {
      AnnotationsExtend(dets, d.value, canvas.refuses);
      dets' := dets + [d.value];
      canvas.DrawDetection(d.value);
    }
  }
}
