/** Pixel grids: the in-memory images that every route decodes, edits and re-encodes. */
module Raster {

  newtype byte = x: int | 0 <= x < 256

  /** One pixel with its three 8-bit channels in storage order (RGB for PIL, BGR for OpenCV). */
  datatype Pixel = Pixel(c0: byte, c1: byte, c2: byte)

  /** A list of rows is rectangular when every row is as long as the first. */
  predicate IsRect<T>(g: seq<seq<T>>) {
    forall i :: 0 <= i < |g| ==> |g[i]| == |g[0]|
  }

  /** Number of columns; an image without rows has none. */
  function Width<T>(g: seq<seq<T>>): nat {
    if |g| == 0 then 0 else |g[0]|
  }

  /** A decoded image: `height` rows of `width` pixels each (a numpy array of shape (h, w, 3)). */
  type Image = g: seq<seq<Pixel>> | IsRect(g)

  /** The channel swap of `cv2.cvtColor` with COLOR_RGB2BGR, and equally with COLOR_BGR2RGB. */
  function ReverseChannels(p: Pixel): Pixel {
    Pixel(p.c2, p.c1, p.c0)
  }

  /** `cvtColor` over a whole image: every pixel has its first and last channel exchanged. */
  function SwapRedBlue(g: Image): (r: Image)
    ensures |r| == |g| && Width(r) == Width(g)
    ensures forall i, j :: 0 <= i < |g| && 0 <= j < |g[i]| ==> |r[i]| == |g[i]| && r[i][j] == ReverseChannels(g[i][j])
  {
    seq(|g|, i requires 0 <= i < |g| => seq(|g[i]|, j requires 0 <= j < |g[i]| => ReverseChannels(g[i][j])))
  }

  /** Swapping the channels twice gives back the image: the two conversions around an edit cancel. */
  lemma SwapRedBlueTwice(g: Image)
    ensures SwapRedBlue(SwapRedBlue(g)) == g
  {
    var r := SwapRedBlue(SwapRedBlue(g));
    assert |r| == |g|;
    forall i | 0 <= i < |g|
      ensures r[i] == g[i]
    {
      assert |r[i]| == |g[i]|;
    }
  }

  /** The rows of a two-dimensional array, read as a list of lists. */
  function Rows<T>(a: array2<T>): (g: seq<seq<T>>)
    reads a
    ensures |g| == a.Length0 && IsRect(g)
    ensures forall i :: 0 <= i < |g| ==> |g[i]| == a.Length1
    ensures forall i, j :: 0 <= i < a.Length0 && 0 <= j < a.Length1 ==> g[i][j] == a[i, j]
  {
    seq(a.Length0, i requires 0 <= i < a.Length0 reads a =>
      seq(a.Length1, j requires 0 <= j < a.Length1 reads a => a[i, j]))
  }

  /** A filter that returns an image of the same height and width as the one it is given. */
  ghost predicate KeepsShape(f: Image -> Image) {
    forall g: Image :: |f(g)| == |g| && Width(f(g)) == Width(g)
  }
}
