/** RGBA images as `cropfaceutil.py` holds them: an (h, w, 4) uint8 array, here a grid of
    four-channel pixels. */
module RgbaImages {
  import opened Grids

  datatype Rgba = Rgba(r: byte, g: byte, b: byte, a: byte)

  type Image = seq<seq<Rgba>>

  /** The all-zero pixel `np.zeros` fills a canvas with: fully transparent black. */
  const Clear: Rgba := Rgba(0, 0, 0, 0)

  /** `alpha > 0`: the pixels that are not fully transparent. */
  function AlphaMask(img: Image): (m: Mask)
    ensures |m| == |img|
    ensures forall y :: 0 <= y < |m| ==> |m[y]| == |img[y]|
    ensures forall y, x :: 0 <= y < |img| && 0 <= x < |img[y]| ==> (m[y][x] <==> img[y][x].a > 0)
  {
    seq(|img|, y requires 0 <= y < |img| => seq(|img[y]|, x requires 0 <= x < |img[y]| => img[y][x].a > 0))
  }

  /** `x in [0, n)` read Python's way as a slice bound: a negative bound counts from the end,
      and the result is clamped to [0, n]. */
  function PyIndex(i: int, n: nat): (k: nat)
    ensures k <= n
    ensures 0 <= i <= n ==> k == i
    ensures i > n ==> k == n
    ensures i < 0 ==> k == Max(i + n, 0)
  {
    if i < 0 then Max(i + n, 0) else Min(i, n)
  }

  /** Python's `s[start:stop]` with step 1: an empty result when the normalised stop does
      not exceed the normalised start. */
  function PySlice<T>(s: seq<T>, start: int, stop: int): (r: seq<T>)
    ensures |r| == Max(PyIndex(stop, |s|) - PyIndex(start, |s|), 0)
    ensures forall i :: 0 <= i < |r| ==> r[i] == s[PyIndex(start, |s|) + i]
  {
    var a, b := PyIndex(start, |s|), PyIndex(stop, |s|);
    if a <= b then s[a..b] else []
  }

  /** `img[y0:y1, x0:x1]` on an (h, w, 4) array. */
  function Cut(img: Image, y0: int, y1: int, x0: int, x1: int): (r: Image)
    requires Rectangular(img)
    ensures Rectangular(r) && |r| <= |img| && Width(r) <= Width(img)
    ensures 0 <= y0 <= y1 <= |img| && 0 <= x0 <= x1 <= Width(img) ==>
      |r| == y1 - y0 && (|r| > 0 ==> Width(r) == x1 - x0) &&
      forall i, j :: 0 <= i < |r| && 0 <= j < Width(r) ==> r[i][j] == img[y0 + i][x0 + j]
  {
    var rows := PySlice(img, y0, y1);
    var r := seq(|rows|, i requires 0 <= i < |rows| => PySlice(rows[i], x0, x1));
    SlicedShape(img, y0, y1, x0, x1, rows, r);
    SlicedWindow(img, y0, y1, x0, x1, rows, r);
    r
  }

  /** The shape of a two-axis slice: a rectangular grid no larger than the image. */
  lemma SlicedShape(img: Image, y0: int, y1: int, x0: int, x1: int, rows: Image, r: Image)
    requires Rectangular(img) && rows == PySlice(img, y0, y1)
    requires |r| == |rows| && forall i :: 0 <= i < |r| ==> r[i] == PySlice(rows[i], x0, x1)
    ensures Rectangular(r) && |r| <= |img| && Width(r) <= Width(img)
  {
  }

  /** A two-axis slice whose bounds lie inside the image copies the window exactly. */
  lemma SlicedWindow(img: Image, y0: int, y1: int, x0: int, x1: int, rows: Image, r: Image)
    requires Rectangular(img) && rows == PySlice(img, y0, y1)
    requires |r| == |rows| && forall i :: 0 <= i < |r| ==> r[i] == PySlice(rows[i], x0, x1)
    requires Rectangular(r)
    ensures 0 <= y0 <= y1 <= |img| && 0 <= x0 <= x1 <= Width(img) ==>
      |r| == y1 - y0 && (|r| > 0 ==> Width(r) == x1 - x0) &&
      forall i, j :: 0 <= i < |r| && 0 <= j < Width(r) ==> r[i][j] == img[y0 + i][x0 + j]
  {
  }

  lemma CutPixel(img: Image, y0: int, y1: int, x0: int, x1: int, y: int, x: int)
    requires Rectangular(img) && 0 <= y0 <= y < y1 <= |img| && 0 <= x0 <= x < x1 <= Width(img)
    ensures Cut(img, y0, y1, x0, x1)[y - y0][x - x0] == img[y][x]
  {
  }

  /** Cutting the whole image gives it back. */
  lemma CutWhole(img: Image)
    requires Rectangular(img)
    ensures Cut(img, 0, |img|, 0, Width(img)) == img
  {
    var r := Cut(img, 0, |img|, 0, Width(img));
    forall i | 0 <= i < |img| ensures r[i] == img[i] {
      assert |r[i]| == |img[i]|;
    }
  }
}
