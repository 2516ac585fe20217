/** Rectangle arithmetic of the face cropper: `CropBox`, `make_square`,
    `compute_crop_box` and the square cut of `fallback_crop`. */
module CropBoxes {
  import opened Grids

  /** Rows [top, bottom) and columns [left, right) of an image. */
  datatype CropBox = CropBox(top: int, bottom: int, left: int, right: int) {

    /** The number of rows from top to bottom: non-negative exactly when the box is not
        upside down, and zero exactly when it is empty. */
    function Height(): (n: int)
      ensures n >= 0 <==> top <= bottom
      ensures n == 0 <==> top == bottom
    {
      bottom - top
    }

    /** The number of columns from left to right, likewise. */
    function Width(): (n: int)
      ensures n >= 0 <==> left <= right
      ensures n == 0 <==> left == right
    {
      right - left
    }

    /** The box is a (possibly empty) rectangle of an h-by-w frame. */
    predicate Inside(h: int, w: int) {
      0 <= top <= bottom <= h && 0 <= left <= right <= w
    }

    /** This box contains `other`. */
    predicate Covers(other: CropBox) {
      top <= other.top && other.bottom <= bottom && left <= other.left && other.right <= right
    }

    /** `clamp(h, w)`: the largest part of this box whose edges lie in the h-by-w frame. */
    function Clamp(h: int, w: int): (r: CropBox)
      ensures 0 <= r.top && r.bottom <= h && 0 <= r.left && r.right <= w
      ensures Covers(r)
      ensures forall c: CropBox :: Covers(c) && 0 <= c.top && c.bottom <= h && 0 <= c.left && c.right <= w
                ==> r.Covers(c)
    {
      CropBox(Max(top, 0), Min(bottom, h), Max(left, 0), Min(right, w))
    }
  }

  /** Clamping twice is clamping once. */
  lemma ClampIdempotent(b: CropBox, h: int, w: int)
    ensures b.Clamp(h, w).Clamp(h, w) == b.Clamp(h, w)
  {
  }

  /** A box already inside the frame is left alone by `clamp`. */
  lemma ClampInside(b: CropBox, h: int, w: int)
    requires b.Inside(h, w)
    ensures b.Clamp(h, w) == b
  {
  }

  /** One axis of `make_square` in closed form: an interval of length `side` starting at
      `start`, slid into [0, total]; or all of [0, total] when `side` does not fit. */
  function FitAxis(start: int, side: int, total: int): (int, int)
  {
    if side >= total then (0, total)
    else
      var lo := Min(Max(start, 0), total - side);
      (lo, lo + side)
  }

  /** The side of the square `make_square` aims for. */
  function Side(box: CropBox): int {
    Max(box.Height(), box.Width())
  }

  /** Reference definition of `make_square`: a square of the larger side, centred on the
      box (centre rounded down), slid back into the frame and cut to it. */
  function Squared(box: CropBox, totalH: int, totalW: int): (r: CropBox)
    requires totalH >= 0 && totalW >= 0 && Side(box) >= 0
    ensures r.Inside(totalH, totalW)
  {
    var side := Side(box);
    var sy, sx := box.top + box.Height() / 2 - side / 2, box.left + box.Width() / 2 - side / 2;
    FitAxisProperties(sy, side, totalH, 0, 0);
    FitAxisProperties(sx, side, totalW, 0, 0);
    var (t, b) := FitAxis(sy, side, totalH);
    var (l, r) := FitAxis(sx, side, totalW);
    CropBox(t, b, l, r)
  }

  /** Half of a larger length, rounded down, leaves at least as much over as half of a
      smaller one. */
  lemma HalvesMonotone(len: int, side: int)
    requires 0 <= len <= side
    ensures len / 2 <= side / 2
    ensures side - side / 2 >= len - len / 2
  {
  }

  /** One axis: the fitted interval lies in [0, total], has length min(side, total), and
      contains [lo, hi) whenever that lies in [0, total] and the centred start covers it. */
  lemma FitAxisProperties(start: int, side: int, total: int, lo: int, hi: int)
    requires 0 <= side && 0 <= total
    ensures var (a, b) := FitAxis(start, side, total);
      0 <= a <= b <= total && b - a == Min(side, total)
    ensures 0 <= lo <= hi <= total && start <= lo && hi <= start + side ==>
      var (a, b) := FitAxis(start, side, total); a <= lo && hi <= b
  {
  }

  /** What `make_square` promises: the result lies in the frame, has height
      min(side, totalH) and width min(side, totalW) (so it is a square of side max(h, w)
      whenever that fits), and contains the input box when the input lies in the frame. */
  lemma SquaredProperties(box: CropBox, totalH: int, totalW: int)
    requires totalH >= 0 && totalW >= 0 && Side(box) >= 0
    ensures var r := Squared(box, totalH, totalW);
      r.Inside(totalH, totalW) && r.Height() == Min(Side(box), totalH) && r.Width() == Min(Side(box), totalW)
    ensures box.Inside(totalH, totalW) ==> Squared(box, totalH, totalW).Covers(box)
  {
    var side := Side(box);
    var h, w := box.Height(), box.Width();
    var sy := box.top + h / 2 - side / 2;
    var sx := box.left + w / 2 - side / 2;
    FitAxisProperties(sy, side, totalH, box.top, box.bottom);
    FitAxisProperties(sx, side, totalW, box.left, box.right);
    if box.Inside(totalH, totalW) {
      HalvesMonotone(h, side);
      HalvesMonotone(w, side);
      assert sy <= box.top && box.bottom <= sy + side;
      assert sx <= box.left && box.right <= sx + side;
    }
  }

  /** `make_square`, step by step as the source adjusts the edges. */
  method MakeSquare(box: CropBox, totalH: int, totalW: int) returns (r: CropBox)
    requires totalH >= 0 && totalW >= 0
    ensures 0 <= r.top && r.bottom <= totalH && 0 <= r.left && r.right <= totalW
    ensures Side(box) >= 0 ==> r == Squared(box, totalH, totalW)
  {
    var height := box.Height();
    var width := box.Width();
    var side := Max(height, width);

    var centerY := box.top + height / 2;
    var centerX := box.left + width / 2;

    var half := side / 2;
    var top := centerY - half;
    var bottom := top + side;
    var left := centerX - half;
    var right := left + side;

    // slide back into the frame
    if top < 0 {
      bottom := bottom - top;
      top := 0;
    }
    if left < 0 {
      right := right - left;
      left := 0;
    }
    if bottom > totalH {
      top := top - (bottom - totalH);
      bottom := totalH;
    }
    if right > totalW {
      left := left - (right - totalW);
      right := totalW;
    }

    // cut to the frame
    top := Max(top, 0);
    left := Max(left, 0);
    bottom := Min(bottom, totalH);
    right := Min(right, totalW);

    r := CropBox(top, bottom, left, right);
  }

  /** The face box grown by int(0.55 * face height) above, int(0.25 * face height) below
      and int(0.45 * face width) on each side, cut to the frame; bottom and right become
      exclusive. */
  function Expanded(b: Bounds, totalH: int, totalW: int): (r: CropBox)
    requires 0 <= b.minY <= b.maxY < totalH && 0 <= b.minX <= b.maxX < totalW
    ensures r.Inside(totalH, totalW)
    ensures r.Covers(CropBox(b.minY, b.maxY + 1, b.minX, b.maxX + 1))
  {
    var faceH := b.maxY - b.minY + 1;
    var faceW := b.maxX - b.minX + 1;
    var expandTop := faceH * 55 / 100;
    var expandBottom := faceH * 25 / 100;
    var expandX := faceW * 45 / 100;
    CropBox(Max(b.minY - expandTop, 0), Min(b.maxY + expandBottom, totalH - 1) + 1,
            Max(b.minX - expandX, 0), Min(b.maxX + expandX, totalW - 1) + 1)
  }

  /** `compute_crop_box`: `size` is PIL's (width, height). The crop lies in the frame,
      contains the grown face box (and so every set cell), and is a square unless the
      frame cuts it in one dimension. */
  function ComputeCropBox(component: Mask, size: (int, int)): (r: CropBox)
    requires Rectangular(component) && AnySet(component)
    requires size.1 == |component| && size.0 == Width(component)
    ensures r.Inside(size.1, size.0)
    ensures r.Covers(Expanded(BoundsOf(component), size.1, size.0))
    ensures forall y, x :: At(component, y, x) ==> r.top <= y < r.bottom && r.left <= x < r.right
    ensures r.Height() == r.Width() || r.Height() == size.1 || r.Width() == size.0
  {
    var totalH, totalW := size.1, size.0;
    var crop := Expanded(BoundsOf(component), totalH, totalW);
    SquaredProperties(crop, totalH, totalW);
    Squared(crop, totalH, totalW).Clamp(totalH, totalW)
  }

  /** The final `clamp` of `compute_crop_box` changes nothing: the squared box is already
      inside the frame. */
  lemma ComputeCropBoxClampNoOp(component: Mask, size: (int, int))
    requires Rectangular(component) && AnySet(component)
    requires size.1 == |component| && size.0 == Width(component)
    ensures var crop := Expanded(BoundsOf(component), size.1, size.0);
      ComputeCropBox(component, size) == Squared(crop, size.1, size.0)
  {
    var crop := Expanded(BoundsOf(component), size.1, size.0);
    SquaredProperties(crop, size.1, size.0);
  }

  /** The square that `fallback_crop` cuts from a w-by-h image (PIL's
      (left, top, left + side, top + side)): side min(w, h), centred horizontally and
      raised by side // 6 from the vertical centre, never above the top edge. */
  function FallbackBox(w: int, h: int): (r: CropBox)
    requires w >= 0 && h >= 0
    ensures r.Inside(h, w)
    ensures r.Height() == r.Width() == Min(w, h)
    ensures 0 <= (w - r.Width()) - 2 * r.left <= 1
    ensures r.top <= (h - r.Height()) / 2
    ensures r.top == 0 || r.top + r.Height() / 6 == (h - r.Height()) / 2
    ensures r.top == 0 ==> (h - r.Height()) / 2 <= r.Height() / 6
  {
    var side := Min(w, h);
    var left := (w - side) / 2;
    var top := Max((h - side) / 2 - side / 6, 0);
    CropBox(top, top + side, left, left + side)
  }

  /** `rgb[top:bottom, left:right]` (and PIL's `image.crop((left, top, right, bottom))`)
      for a box inside the frame: pixel (i, j) of the cut is pixel (top + i, left + j). */
  function Crop<T>(img: seq<seq<T>>, box: CropBox): (r: seq<seq<T>>)
    requires Rectangular(img) && box.Inside(|img|, Width(img))
    ensures |r| == box.Height() && forall i :: 0 <= i < |r| ==> |r[i]| == box.Width()
    ensures forall i, j :: 0 <= i < box.Height() && 0 <= j < box.Width() ==> r[i][j] == img[box.top + i][box.left + j]
  {
    seq(box.Height(), i requires 0 <= i < box.Height() => img[box.top + i][box.left..box.right])
  }
}
