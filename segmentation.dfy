/** The placeholder segmentation mask (models/segmentation.py): the top half of the image is foreground. */
module Segmentation {
  import opened Raster

  /** A row of `w` copies of `v`. */
  function Fill(w: nat, v: int): (row: seq<int>)
    ensures |row| == w && forall c :: 0 <= c < w ==> row[c] == v
  {
    seq(w, c => v)
  }

  /** Rows above `k` filled with 1, the rest with 0, on an n-by-w grid. */
  function Band(k: nat, n: nat, w: nat): (m: seq<seq<int>>)
    ensures |m| == n && forall r :: 0 <= r < n ==> m[r] == Fill(w, if r < k then 1 else 0)
  {
    seq(n, r => Fill(w, if r < k then 1 else 0))
  }

  /**
   * The mask `simple_segmentation_mask` builds for an h-by-w image: shape (h, w), entries 0
   * and 1 only, and a row is all ones exactly when it is one of the first `h // 2`.
   */
  function TopHalfMask(h: nat, w: nat): (m: seq<seq<int>>)
    ensures |m| == h && forall r :: 0 <= r < h ==> |m[r]| == w
    ensures forall r, c :: 0 <= r < h && 0 <= c < w ==> m[r][c] == 0 || m[r][c] == 1
    ensures w > 0 ==> forall r :: 0 <= r < h ==> (m[r] == Fill(w, 1) <==> r < h / 2)
    ensures forall r :: 0 <= r < h ==> (m[r] == Fill(w, 0) <==> r >= h / 2 || w == 0)
  {
    var m := Band(h / 2, h, w);
    assert w > 0 ==> Fill(w, 1)[0] != Fill(w, 0)[0];
    m
  }

  function RowSum(row: seq<int>): int
    decreases |row|
  {
    if |row| == 0 then 0 else RowSum(row[..|row| - 1]) + row[|row| - 1]
  }

  /** Sum of all entries: for a 0/1 mask, the number of foreground pixels. */
  function Total(m: seq<seq<int>>): int
    decreases |m|
  {
    if |m| == 0 then 0 else Total(m[..|m| - 1]) + RowSum(m[|m| - 1])
  }

  lemma {:induction false} RowSumFill(w: nat, v: int)
    ensures RowSum(Fill(w, v)) == v * w
    decreases w
  {
    if w > 0 {
      assert Fill(w, v)[..w - 1] == Fill(w - 1, v);
      RowSumFill(w - 1, v);
      assert v * (w - 1) + v == v * w;
    }
  }

  lemma {:induction false} BandTotal(k: nat, n: nat, w: nat)
    ensures Total(Band(k, n, w)) == (if k < n then k else n) * w
    decreases n
  {
    if n > 0 {
      BandSplit(k, n, w);
      BandTotal(k, n - 1, w);
      if n - 1 < k {
        RowSumFill(w, 1);
        assert (n - 1) * w + w == n * w;
      } else {
        RowSumFill(w, 0);
      }
    }
  }

  /** The total of a band is the total of all but its last row plus that row's sum. */
  lemma BandSplit(k: nat, n: nat, w: nat)
    requires n > 0
    ensures Total(Band(k, n, w)) == Total(Band(k, n - 1, w)) + RowSum(Fill(w, if n - 1 < k then 1 else 0))
  {
    assert Band(k, n, w)[..n - 1] == Band(k, n - 1, w);
  }

  /** The mask has `(h // 2) * w` ones; an image of height 0 or 1 gets an all-zero mask. */
  lemma TopHalfMaskCount(h: nat, w: nat)
    ensures Total(TopHalfMask(h, w)) == (h / 2) * w
    ensures h <= 1 ==> forall r :: 0 <= r < h ==> TopHalfMask(h, w)[r] == Fill(w, 0)
  {
    BandTotal(h / 2, h, w);
  }

  /** A grid of h rows of w entries that is 1 exactly in the top `h / 2` rows is the top-half mask. */
  lemma MaskByCells(m: seq<seq<int>>, h: nat, w: nat)
    requires |m| == h && forall r :: 0 <= r < h ==> |m[r]| == w
    requires forall r, c {:trigger m[r][c]} :: 0 <= r < h && 0 <= c < w ==> m[r][c] == if r < h / 2 then 1 else 0
    ensures m == TopHalfMask(h, w)
  {
    var t := TopHalfMask(h, w);
    forall r | 0 <= r < h
      ensures m[r] == t[r]
    {
      assert t[r] == Fill(w, if r < h / 2 then 1 else 0);
      forall c | 0 <= c < w
        ensures m[r][c] == t[r][c]
      {
      }
    }
  }

  /**
   * `simple_segmentation_mask` (lines 6-19): a zero array of the image's shape whose rows
   * `[:h // 2]` are then set to 1. The pixel values of the image are never read.
   */
  method SimpleSegmentationMask(img: array2<Pixel>) returns (mask: array2<int>)
    ensures mask.Length0 == img.Length0 && mask.Length1 == img.Length1
    ensures Rows(mask) == TopHalfMask(img.Length0, img.Length1)
  {
    var h, w := img.Length0, img.Length1;
    mask := new int[h, w]((r, c) => 0);
    forall r, c | 0 <= r < h / 2 && 0 <= c < w {
      mask[r, c] := 1;
    }
    assert forall r, c :: 0 <= r < h && 0 <= c < w ==> mask[r, c] == if r < h / 2 then 1 else 0;
    MaskByCells(Rows(mask), h, w);
  }
}
