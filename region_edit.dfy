/**
 * The region-edit executor of the object-edit route (app.py, lines 88-98): a list of
 * `{bbox, action}` records is walked in order over one working copy of the image, and
 * every `"remove"` record replaces the slice `img[y1:y2, x1:x2]` by a blurred copy of itself.
 */
module RegionEdit {
  import opened Common
  import opened Raster

  /** A half-open index range [lo, hi) along one axis, as a normalised Python slice selects it. */
  datatype Span = Span(lo: nat, hi: nat) {
    predicate Contains(k: int) { lo <= k < hi }
  }

  /** A negative slice bound counts from the end of the axis. */
  function FromEnd(i: int, n: nat): int {
    if i < 0 then i + n else i
  }

  /** Python's clamping of one slice bound into [0, n] (step 1). */
  function ClampBound(i: int, n: nat): (r: nat)
    ensures r <= n
  {
    var j := FromEnd(i, n);
    if j < 0 then 0 else if j > n then n else j
  }

  /**
   * The indices `range(n)[start:stop]` selects. Out-of-range bounds clamp, negative ones
   * count from the end, and a stop at or before the start selects nothing; no error is possible.
   */
  function SliceSpan(start: int, stop: int, n: nat): (s: Span)
    ensures s.lo <= s.hi <= n
    ensures forall k :: 0 <= k < n ==> (s.Contains(k) <==> FromEnd(start, n) <= k < FromEnd(stop, n))
  {
    var lo := ClampBound(start, n);
    var hi := ClampBound(stop, n);
    Span(lo, if hi < lo then lo else hi)
  }

  /** One record of the `actions` list; a field is `None` when its key is missing. */
  datatype EditAction = EditAction(bbox: Option<seq<int>>, action: Option<string>)

  /** The record has both keys and its bbox unpacks into exactly four coordinates. */
  predicate WellFormed(a: EditAction) {
    a.bbox.Some? && |a.bbox.value| == 4 && a.action.Some?
  }

  predicate AllWellFormed(acts: seq<EditAction>) {
    forall k :: 0 <= k < |acts| ==> WellFormed(acts[k])
  }

  predicate IsRemove(a: EditAction) {
    a.action == Some("remove")
  }

  /** Rows `y1:y2` of an image with `h` rows (the bbox is `[x1, y1, x2, y2]`). */
  function RowSpan(a: EditAction, h: nat): Span
    requires WellFormed(a)
  {
    SliceSpan(a.bbox.value[1], a.bbox.value[3], h)
  }

  /** Columns `x1:x2` of an image with `w` columns. */
  function ColSpan(a: EditAction, w: nat): Span
    requires WellFormed(a)
  {
    SliceSpan(a.bbox.value[0], a.bbox.value[2], w)
  }

  /** Pixel (i, j) lies in the region a remove record blurs on an h-by-w image. */
  predicate Blurs(a: EditAction, h: nat, w: nat, i: int, j: int) {
    WellFormed(a) && IsRemove(a) && RowSpan(a, h).Contains(i) && ColSpan(a, w).Contains(j)
  }

  /** The sub-image `g[rows.lo:rows.hi, cols.lo:cols.hi]`. */
  function Crop(g: Image, rows: Span, cols: Span): (r: Image)
    requires rows.lo <= rows.hi <= |g| && cols.lo <= cols.hi <= Width(g)
    ensures |r| == rows.hi - rows.lo
    ensures forall i :: 0 <= i < |r| ==> |r[i]| == cols.hi - cols.lo
    ensures forall i, j :: 0 <= i < |r| && 0 <= j < cols.hi - cols.lo ==> r[i][j] == g[rows.lo + i][cols.lo + j]
  {
    seq(rows.hi - rows.lo, i requires 0 <= i < rows.hi - rows.lo => g[rows.lo + i][cols.lo..cols.hi])
  }

  /** One row of a slice assignment: `row[cols.lo:cols.hi] = part`. */
  function PasteRow(row: seq<Pixel>, cols: Span, part: seq<Pixel>): (r: seq<Pixel>)
    requires cols.lo <= cols.hi <= |row| && |part| == cols.hi - cols.lo
    ensures |r| == |row|
    ensures forall j :: 0 <= j < |row| ==> r[j] == if cols.Contains(j) then part[j - cols.lo] else row[j]
  {
    row[..cols.lo] + part + row[cols.hi..]
  }

  /** The slice assignment `g[rows.lo:rows.hi, cols.lo:cols.hi] = patch`. */
  function Paste(g: Image, rows: Span, cols: Span, patch: Image): (r: Image)
    requires rows.lo <= rows.hi <= |g| && cols.lo <= cols.hi <= Width(g)
    requires |patch| == rows.hi - rows.lo
    requires forall i :: 0 <= i < |patch| ==> |patch[i]| == cols.hi - cols.lo
    ensures |r| == |g| && Width(r) == Width(g)
    ensures forall i, j :: 0 <= i < |g| && 0 <= j < Width(g) ==>
      r[i][j] == if rows.Contains(i) && cols.Contains(j) then patch[i - rows.lo][j - cols.lo] else g[i][j]
  {
    var r := seq(|g|, i requires 0 <= i < |g| =>
      if rows.Contains(i) then PasteRow(g[i], cols, patch[i - rows.lo]) else g[i]);
    assert forall i :: 0 <= i < |g| ==> |r[i]| == Width(g);
    r
  }

  /** Pasting over a region and cropping the same region gives back the patch. */
  lemma CropPaste(g: Image, rows: Span, cols: Span, patch: Image)
    requires rows.lo <= rows.hi <= |g| && cols.lo <= cols.hi <= Width(g)
    requires |patch| == rows.hi - rows.lo
    requires forall i :: 0 <= i < |patch| ==> |patch[i]| == cols.hi - cols.lo
    ensures Crop(Paste(g, rows, cols, patch), rows, cols) == patch
  {
    var c := Crop(Paste(g, rows, cols, patch), rows, cols);
    forall i | 0 <= i < |patch|
      ensures c[i] == patch[i]
    {
      forall j | 0 <= j < cols.hi - cols.lo
        ensures c[i][j] == patch[i][j]
      {
        assert rows.Contains(rows.lo + i) && cols.Contains(cols.lo + j);
      }
    }
  }

  /**
   * One record of the loop at app.py:90-96. A record other than `"remove"`, or a remove whose
   * normalised region is empty, leaves the image as it is; otherwise the region becomes the
   * blur of its previous contents and no pixel outside it changes.
   */
  function ApplyAction(g: Image, a: EditAction, blur: Image -> Image): (r: Image)
    requires WellFormed(a) && KeepsShape(blur)
    ensures |r| == |g| && Width(r) == Width(g)
    ensures forall i, j :: 0 <= i < |g| && 0 <= j < Width(g) && !Blurs(a, |g|, Width(g), i, j) ==> r[i][j] == g[i][j]
    ensures !IsRemove(a) ==> r == g
    ensures RowSpan(a, |g|).lo == RowSpan(a, |g|).hi || ColSpan(a, Width(g)).lo == ColSpan(a, Width(g)).hi ==> r == g
    ensures IsRemove(a) ==> Crop(r, RowSpan(a, |g|), ColSpan(a, Width(g))) == blur(Crop(g, RowSpan(a, |g|), ColSpan(a, Width(g))))
  {
    var rows, cols := RowSpan(a, |g|), ColSpan(a, Width(g));
    if IsRemove(a) && rows.lo < rows.hi && cols.lo < cols.hi then
      var patch := blur(Crop(g, rows, cols));
      CropPaste(g, rows, cols, patch);
      Paste(g, rows, cols, patch)
    else
      g
  }

  /** The whole loop: the records applied in list order to one working copy. */
  function ApplyAll(g: Image, acts: seq<EditAction>, blur: Image -> Image): (r: Image)
    requires AllWellFormed(acts) && KeepsShape(blur)
    ensures |r| == |g| && Width(r) == Width(g)
    ensures (forall k :: 0 <= k < |acts| ==> !IsRemove(acts[k])) ==> r == g
    decreases |acts|
  {
    if |acts| == 0 then g
    else ApplyAction(ApplyAll(g, acts[..|acts| - 1], blur), acts[|acts| - 1], blur)
  }

  /** Running two lists one after the other is running their concatenation on the same copy. */
  lemma {:induction false} ApplyAllAppend(g: Image, xs: seq<EditAction>, ys: seq<EditAction>, blur: Image -> Image)
    requires AllWellFormed(xs) && AllWellFormed(ys) && KeepsShape(blur)
    ensures AllWellFormed(xs + ys)
    ensures ApplyAll(g, xs + ys, blur) == ApplyAll(ApplyAll(g, xs, blur), ys, blur)
    decreases |ys|
  {
    assert AllWellFormed(xs + ys) by {
      forall k | 0 <= k < |xs + ys| ensures WellFormed((xs + ys)[k]) {
        if k < |xs| { assert (xs + ys)[k] == xs[k]; } else { assert (xs + ys)[k] == ys[k - |xs|]; }
      }
    }
    if |ys| == 0 {
      assert xs + ys == xs;
    } else {
      var ys' := ys[..|ys| - 1];
      assert (xs + ys)[..|xs + ys| - 1] == xs + ys';
      assert AllWellFormed(ys') by {
        forall k | 0 <= k < |ys'| ensures WellFormed(ys'[k]) { assert ys'[k] == ys[k]; }
      }
      ApplyAllAppend(g, xs, ys', blur);
    }
  }

  /**
   * A pixel that no remove record's region covers keeps its value through the whole list.
   * Regions are computed against the image's own size, which no record changes.
   */
  lemma {:induction false} UntouchedOutsideRemovals(g: Image, acts: seq<EditAction>, blur: Image -> Image, i: nat, j: nat)
    requires AllWellFormed(acts) && KeepsShape(blur)
    requires i < |g| && j < Width(g)
    requires forall k :: 0 <= k < |acts| ==> !Blurs(acts[k], |g|, Width(g), i, j)
    ensures ApplyAll(g, acts, blur)[i][j] == g[i][j]
    decreases |acts|
  {
    if |acts| > 0 {
      var init := acts[..|acts| - 1];
      assert forall k :: 0 <= k < |init| ==> init[k] == acts[k];
      UntouchedOutsideRemovals(g, init, blur, i, j);
    }
  }

  /**
   * Two identical remove records compound: the region ends up blurred twice, the second
   * blur working on the output of the first.
   */
  lemma RemoveTwiceCompounds(g: Image, a: EditAction, blur: Image -> Image)
    requires WellFormed(a) && IsRemove(a) && KeepsShape(blur)
    ensures Crop(ApplyAll(g, [a, a], blur), RowSpan(a, |g|), ColSpan(a, Width(g)))
         == blur(blur(Crop(g, RowSpan(a, |g|), ColSpan(a, Width(g)))))
  {
    ApplyPair(g, a, a, blur);
    var rows, cols := RowSpan(a, |g|), ColSpan(a, Width(g));
    var once := ApplyAction(g, a, blur);
    assert Crop(once, rows, cols) == blur(Crop(g, rows, cols));
    assert RowSpan(a, |once|) == rows && ColSpan(a, Width(once)) == cols;
  }

  /** Two records applied in turn. */
  lemma ApplyPair(g: Image, x: EditAction, y: EditAction, blur: Image -> Image)
    requires WellFormed(x) && WellFormed(y) && KeepsShape(blur)
    ensures AllWellFormed([x, y])
    ensures ApplyAll(g, [x, y], blur) == ApplyAction(ApplyAction(g, x, blur), y, blur)
  {
    assert [x, y][..1] == [x] && [x][..0] == [];
  }

  /** A stand-in filter that mixes neighbours: each pixel takes the value of its left neighbour. */
  function ShiftRight(g: Image): (r: Image)
    ensures |r| == |g| && Width(r) == Width(g)
    ensures forall i, j :: 0 <= i < |g| && 0 < j < |g[i]| ==> r[i][j] == g[i][j - 1]
  {
    seq(|g|, i requires 0 <= i < |g| => seq(|g[i]|, j requires 0 <= j < |g[i]| => if j == 0 then g[i][0] else g[i][j - 1]))
  }

  /** The remove record for columns 0:2 of the first row. */
  const RemoveLeft := EditAction(Some([0, 0, 2, 1]), Some("remove"))

  /** The remove record for columns 1:3 of the first row. */
  const RemoveRight := EditAction(Some([1, 0, 3, 1]), Some("remove"))

  /** A pixel inside a remove record's region takes the blurred region's value at the same offset. */
  lemma RemovedPixel(g: Image, a: EditAction, blur: Image -> Image, i: nat, j: nat)
    requires WellFormed(a) && IsRemove(a) && KeepsShape(blur)
    requires RowSpan(a, |g|).Contains(i) && ColSpan(a, Width(g)).Contains(j)
    ensures ApplyAction(g, a, blur)[i][j]
         == blur(Crop(g, RowSpan(a, |g|), ColSpan(a, Width(g))))[i - RowSpan(a, |g|).lo][j - ColSpan(a, Width(g)).lo]
  {
    var rows, cols := RowSpan(a, |g|), ColSpan(a, Width(g));
    var r := ApplyAction(g, a, blur);
    assert Crop(r, rows, cols)[i - rows.lo][j - cols.lo] == r[i][j];
  }

  /** The regions of the two records on a one-row, three-column image. */
  lemma RecordSpans()
    ensures WellFormed(RemoveLeft) && RowSpan(RemoveLeft, 1) == Span(0, 1) && ColSpan(RemoveLeft, 3) == Span(0, 2)
    ensures WellFormed(RemoveRight) && RowSpan(RemoveRight, 1) == Span(0, 1) && ColSpan(RemoveRight, 3) == Span(1, 3)
  {
  }

  /** On a one-row, three-column image, removing columns 0:2 copies column 0 into column 1. */
  lemma RemoveLeftShifts(g: Image)
    requires |g| == 1 && Width(g) == 3
    ensures KeepsShape(ShiftRight) && WellFormed(RemoveLeft)
    ensures ApplyAction(g, RemoveLeft, ShiftRight)[0][1] == g[0][0]
  {
    var row, left := Span(0, 1), Span(0, 2);
    RecordSpans();
    var c := Crop(g, row, left);
    RemovedPixel(g, RemoveLeft, ShiftRight, 0, 1);
    assert c[0][0] == g[0][0];
  }

  /** On a one-row, three-column image, removing columns 0:2 keeps column 2. */
  lemma RemoveLeftKeepsLast(g: Image)
    requires |g| == 1 && Width(g) == 3
    ensures KeepsShape(ShiftRight) && WellFormed(RemoveLeft)
    ensures ApplyAction(g, RemoveLeft, ShiftRight)[0][2] == g[0][2]
  {
    RecordSpans();
    assert !Span(0, 2).Contains(2);
  }

  /** On a one-row, three-column image, removing columns 1:3 copies column 1 into column 2. */
  lemma RemoveRightOnRow(g: Image)
    requires |g| == 1 && Width(g) == 3
    ensures KeepsShape(ShiftRight) && WellFormed(RemoveRight)
    ensures ApplyAction(g, RemoveRight, ShiftRight)[0][2] == g[0][1]
  {
    var row, right := Span(0, 1), Span(1, 3);
    RecordSpans();
    var c := Crop(g, row, right);
    RemovedPixel(g, RemoveRight, ShiftRight, 0, 2);
    assert c[0][0] == g[0][1];
  }

  /**
   * Overlapping removes do not commute: on a one-row image whose first two pixels differ,
   * blurring columns 0:2 then 1:3 differs from blurring 1:3 then 0:2 under a neighbour-mixing filter.
   */
  lemma OrderMatters(p: Pixel, q: Pixel, r: Pixel)
    requires p != q
    ensures KeepsShape(ShiftRight) && WellFormed(RemoveLeft) && WellFormed(RemoveRight)
    ensures ApplyAll([[p, q, r]], [RemoveLeft, RemoveRight], ShiftRight) != ApplyAll([[p, q, r]], [RemoveRight, RemoveLeft], ShiftRight)
  {
    var g: Image := [[p, q, r]];
    ApplyPair(g, RemoveLeft, RemoveRight, ShiftRight);
    ApplyPair(g, RemoveRight, RemoveLeft, ShiftRight);
    var ga, gb := ApplyAction(g, RemoveLeft, ShiftRight), ApplyAction(g, RemoveRight, ShiftRight);
    RemoveLeftShifts(g);
    RemoveRightOnRow(ga);
    RemoveRightOnRow(g);
    RemoveLeftKeepsLast(gb);
    assert ApplyAction(ga, RemoveRight, ShiftRight)[0][2] == p;
    assert ApplyAction(gb, RemoveLeft, ShiftRight)[0][2] == q;
  }

  /** How many leading records are well formed: the loop raises at the first malformed one. */
  function WellFormedPrefix(acts: seq<EditAction>): (n: nat)
    ensures n <= |acts| && AllWellFormed(acts[..n])
    ensures n < |acts| ==> !WellFormed(acts[n])
    decreases |acts|
  {
    if |acts| == 0 || !WellFormed(acts[0]) then 0
    else
      var rest := WellFormedPrefix(acts[1..]);
      PrefixExtends(acts, rest);
      rest + 1
  }

  lemma PrefixExtends(acts: seq<EditAction>, rest: nat)
    requires 0 < |acts| && WellFormed(acts[0])
    requires rest <= |acts| - 1 && AllWellFormed(acts[1..][..rest])
    ensures AllWellFormed(acts[..rest + 1])
  {
    forall k | 0 < k < rest + 1
      ensures WellFormed(acts[k])
    {
      assert acts[1..][..rest][k - 1] == acts[k];
    }
  }

  /**
   * ApplyAction computed with the array's dimensions: an array with no rows has an
   * empty row span whatever its column count.
   */
  lemma ApplyActionOnArray(cur: Image, a: EditAction, blur: Image -> Image, h: nat, w: nat)
    requires WellFormed(a) && KeepsShape(blur)
    requires |cur| == h && (h > 0 ==> Width(cur) == w)
    ensures IsRemove(a) && RowSpan(a, h).lo < RowSpan(a, h).hi && ColSpan(a, w).lo < ColSpan(a, w).hi ==>
      ColSpan(a, w).hi <= Width(cur) &&
      ApplyAction(cur, a, blur) == Paste(cur, RowSpan(a, h), ColSpan(a, w), blur(Crop(cur, RowSpan(a, h), ColSpan(a, w))))
    ensures !(IsRemove(a) && RowSpan(a, h).lo < RowSpan(a, h).hi && ColSpan(a, w).lo < ColSpan(a, w).hi) ==>
      ApplyAction(cur, a, blur) == cur
  {
  }

  /** The blurred copy of a region has the region's shape, as `GaussianBlur` keeps the shape. */
  lemma BlurredCropShape(g: Image, rows: Span, cols: Span, blur: Image -> Image)
    requires rows.lo < rows.hi <= |g| && cols.lo <= cols.hi <= Width(g) && KeepsShape(blur)
    ensures |blur(Crop(g, rows, cols))| == rows.hi - rows.lo
    ensures forall i :: 0 <= i < rows.hi - rows.lo ==> |blur(Crop(g, rows, cols))[i]| == cols.hi - cols.lo
  {
    var roi := Crop(g, rows, cols);
    assert |blur(roi)| == |roi| && Width(blur(roi)) == Width(roi);
  }

  /** An image that agrees with `Paste(g, rows, cols, patch)` pixel by pixel is that paste. */
  lemma PasteByPixels(g: Image, rows: Span, cols: Span, patch: Image, r: Image)
    requires rows.lo <= rows.hi <= |g| && cols.lo <= cols.hi <= Width(g)
    requires |patch| == rows.hi - rows.lo
    requires forall i :: 0 <= i < |patch| ==> |patch[i]| == cols.hi - cols.lo
    requires |r| == |g| && Width(r) == Width(g)
    requires forall i, j {:trigger r[i][j]} :: 0 <= i < |g| && 0 <= j < Width(g) ==>
      r[i][j] == if rows.Contains(i) && cols.Contains(j) then patch[i - rows.lo][j - cols.lo] else g[i][j]
    ensures r == Paste(g, rows, cols, patch)
  {
    var p := Paste(g, rows, cols, patch);
    forall i | 0 <= i < |g|
      ensures r[i] == p[i]
    {
      assert |r[i]| == Width(g) == |p[i]|;
      forall j | 0 <= j < Width(g)
        ensures r[i][j] == p[i][j]
      {
        var v := if rows.Contains(i) && cols.Contains(j) then patch[i - rows.lo][j - cols.lo] else g[i][j];
        assert p[i][j] == v;
        assert r[i][j] == v;
      }
    }
  }

  /** One more well-formed record extends the ordered application by one step. */
  lemma ApplyAllStep(g: Image, acts: seq<EditAction>, n: nat, blur: Image -> Image)
    requires n < |acts| && AllWellFormed(acts[..n]) && WellFormed(acts[n]) && KeepsShape(blur)
    ensures AllWellFormed(acts[..n + 1])
    ensures ApplyAll(g, acts[..n + 1], blur) == ApplyAction(ApplyAll(g, acts[..n], blur), acts[n], blur)
  {
    var pre := acts[..n + 1];
    assert pre[..n] == acts[..n];
    forall k | 0 <= k < |pre|
      ensures WellFormed(pre[k])
    {
      if k < n {
        assert pre[k] == acts[..n][k];
      }
    }
  }

  /** The slice assignment `img[rows, cols] = patch` on the working array. */
  method WriteRegion(img: array2<Pixel>, rows: Span, cols: Span, patch: Image)
    requires rows.lo < rows.hi <= img.Length0 && cols.lo <= cols.hi <= img.Length1
    requires |patch| == rows.hi - rows.lo
    requires forall i :: 0 <= i < |patch| ==> |patch[i]| == cols.hi - cols.lo
    modifies img
    ensures Rows(img) == Paste(old(Rows(img)), rows, cols, patch)
  {
    ghost var before: Image := Rows(img);
    forall i, j | rows.lo <= i < rows.hi && cols.lo <= j < cols.hi {
      img[i, j] := patch[i - rows.lo][j - cols.lo];
    }
    ghost var after: Image := Rows(img);
    assert Width(before) == img.Length1 == Width(after);
    PasteByPixels(before, rows, cols, patch, after);
  }

  /** `roi = img[rows, cols]; img[rows, cols] = GaussianBlur(roi)`, on the working array in place. */
  method BlurRegionInPlace(img: array2<Pixel>, rows: Span, cols: Span, blur: Image -> Image)
    requires rows.lo < rows.hi <= img.Length0 && cols.lo <= cols.hi <= img.Length1
    requires KeepsShape(blur)
    modifies img
    ensures Rows(img) == Paste(old(Rows(img)), rows, cols, blur(Crop(old(Rows(img)), rows, cols)))
  {
    var roi := Crop(Rows(img), rows, cols);
    BlurredCropShape(Rows(img), rows, cols, blur);
    WriteRegion(img, rows, cols, blur(roi));
  }

  /** Lines 91-96 for one well-formed record, on the working array in place. */
  method ApplyActionInPlace(img: array2<Pixel>, a: EditAction, blur: Image -> Image)
    requires WellFormed(a) && KeepsShape(blur)
    modifies img
    ensures Rows(img) == ApplyAction(old(Rows(img)), a, blur)
  {
    ghost var cur: Image := Rows(img);
    ApplyActionOnArray(cur, a, blur, img.Length0, img.Length1);
    if IsRemove(a) {
      var rows, cols := RowSpan(a, img.Length0), ColSpan(a, img.Length1);
      if rows.lo < rows.hi && cols.lo < cols.hi {
        BlurRegionInPlace(img, rows, cols, blur);
      }
    }
  }

  lemma WellFormedAt(acts: seq<EditAction>, m: nat, k: nat)
    requires k < m <= |acts| && AllWellFormed(acts[..m])
    ensures WellFormed(acts[k])
  {
    assert acts[..m][k] == acts[k];
  }

  /** A count of leading well-formed records followed by a malformed one (or the end) is the prefix. */
  lemma PrefixIsUnique(acts: seq<EditAction>, n: nat)
    requires n <= |acts| && AllWellFormed(acts[..n])
    requires n < |acts| ==> !WellFormed(acts[n])
    ensures n == WellFormedPrefix(acts)
  {
    var m := WellFormedPrefix(acts);
    if n < m {
      WellFormedAt(acts, m, n);
      assert false;
    } else if m < n {
      WellFormedAt(acts, n, m);
      assert false;
    }
  }

  /**
   * The loop of app.py:90-96 over the working array. It stops at the first malformed record
   * (the exception that ends the request); `done` records how many were applied.
   */
  method ApplyActionsInPlace(img: array2<Pixel>, acts: seq<EditAction>, blur: Image -> Image) returns (done: nat)
    requires KeepsShape(blur)
    modifies img
    ensures done == WellFormedPrefix(acts)
    ensures Rows(img) == ApplyAll(old(Rows(img)), acts[..done], blur)
  {
    ghost var start: Image := Rows(img);
    done := 0;
    while done < |acts| && WellFormed(acts[done])
      invariant done <= |acts| && AllWellFormed(acts[..done])
      invariant Rows(img) == ApplyAll(start, acts[..done], blur)
    {
      ApplyActionInPlace(img, acts[done], blur);
      ApplyAllStep(start, acts, done, blur);
      done := done + 1;
    }
    PrefixIsUnique(acts, done);
  }
}
