/** `crop_to_content`: the tight bounding box of the non-transparent pixels, grown by a
    margin and clipped to the image, cut out with a NumPy slice. */
module ContentCrop {
  import opened Grids
  import opened RgbaImages

  /** The inclusive window `y0..y1`, `x0..x1` around the visible pixels. */
  function ContentWindow(img: Image, margin: int): (w: Bounds)
    requires Rectangular(img) && AnySet(AlphaMask(img))
    ensures 0 <= w.minY && w.maxY < |img| && 0 <= w.minX && w.maxX < Width(img)
  {
    var b := BoundsOf(AlphaMask(img));
    Bounds(Max(b.minY - margin, 0), Min(b.maxY + margin, |img| - 1),
           Max(b.minX - margin, 0), Min(b.maxX + margin, Width(img) - 1))
  }

  /** `img[y0:y1+1, x0:x1+1]` for the inclusive window `w`. */
  function CutWindow(img: Image, w: Bounds): (r: Image)
    requires Rectangular(img)
    ensures Rectangular(r) && |r| <= |img| && Width(r) <= Width(img)
  {
    Cut(img, w.minY, w.maxY + 1, w.minX, w.maxX + 1)
  }

  function CropToContent(img: Image, margin: int): (r: Image)
    requires Rectangular(img)
    ensures Rectangular(r) && |r| <= |img| && Width(r) <= Width(img)
    ensures !AnySet(AlphaMask(img)) ==> r == img
  {
    if !AnySet(AlphaMask(img)) then img else CutWindow(img, ContentWindow(img, margin))
  }

  /** The crop of an image with a visible pixel is the cut of its window. */
  lemma CropIsCut(img: Image, margin: int)
    requires Rectangular(img) && AnySet(AlphaMask(img))
    ensures CropToContent(img, margin) == CutWindow(img, ContentWindow(img, margin))
  {
    assert !!AnySet(AlphaMask(img));
  }

  /** For a non-negative margin the window lies in the image and holds every visible
      pixel. */
  lemma WindowInside(img: Image, margin: int)
    requires Rectangular(img) && AnySet(AlphaMask(img)) && margin >= 0
    ensures 0 <= ContentWindow(img, margin).minY <= ContentWindow(img, margin).maxY < |img|
    ensures 0 <= ContentWindow(img, margin).minX <= ContentWindow(img, margin).maxX < Width(img)
    ensures forall y, x :: 0 <= y < |img| && 0 <= x < Width(img) && img[y][x].a > 0 ==>
      ContentWindow(img, margin).minY <= y <= ContentWindow(img, margin).maxY &&
      ContentWindow(img, margin).minX <= x <= ContentWindow(img, margin).maxX
  {
    var m, w := AlphaMask(img), ContentWindow(img, margin);
    forall y, x | 0 <= y < |img| && 0 <= x < Width(img) && img[y][x].a > 0
      ensures w.minY <= y <= w.maxY && w.minX <= x <= w.maxX
    {
      assert At(m, y, x);
    }
  }

  /** For a non-negative margin the result is exactly the window, each pixel copied
      unchanged. */
  lemma CropToContentWindow(img: Image, margin: int)
    requires Rectangular(img) && AnySet(AlphaMask(img)) && margin >= 0
    ensures |CropToContent(img, margin)| == ContentWindow(img, margin).maxY - ContentWindow(img, margin).minY + 1
    ensures Width(CropToContent(img, margin)) == ContentWindow(img, margin).maxX - ContentWindow(img, margin).minX + 1
    ensures forall i, j :: 0 <= i < |CropToContent(img, margin)| && 0 <= j < Width(CropToContent(img, margin)) ==>
      CropToContent(img, margin)[i][j] == img[ContentWindow(img, margin).minY + i][ContentWindow(img, margin).minX + j]
  {
    WindowInside(img, margin);
    CropIsCut(img, margin);
  }

  /** A visible pixel of the input lies in the window and is copied unchanged to its place
      in the result, shifted by the window's corner. */
  lemma PixelKept(img: Image, margin: int, y: int, x: int)
    requires Rectangular(img) && AnySet(AlphaMask(img)) && margin >= 0
    requires 0 <= y < |img| && 0 <= x < Width(img) && img[y][x].a > 0
    ensures ContentWindow(img, margin).minY <= y <= ContentWindow(img, margin).maxY
    ensures ContentWindow(img, margin).minX <= x <= ContentWindow(img, margin).maxX
    ensures y - ContentWindow(img, margin).minY < |CropToContent(img, margin)|
    ensures x - ContentWindow(img, margin).minX < |CropToContent(img, margin)[y - ContentWindow(img, margin).minY]|
    ensures CropToContent(img, margin)[y - ContentWindow(img, margin).minY][x - ContentWindow(img, margin).minX] == img[y][x]
  {
    WindowContains(img, margin, y, x);
    CropIsCut(img, margin);
    CutKeeps(img, ContentWindow(img, margin), CropToContent(img, margin), y, x);
  }

  /** `WindowInside` for one visible pixel. */
  lemma WindowContains(img: Image, margin: int, y: int, x: int)
    requires Rectangular(img) && AnySet(AlphaMask(img)) && margin >= 0
    requires 0 <= y < |img| && 0 <= x < Width(img) && img[y][x].a > 0
    ensures 0 <= ContentWindow(img, margin).minY <= y <= ContentWindow(img, margin).maxY < |img|
    ensures 0 <= ContentWindow(img, margin).minX <= x <= ContentWindow(img, margin).maxX < Width(img)
  {
    WindowInside(img, margin);
  }

  /** A pixel of a window inside the image is copied to its place in the cut. */
  lemma CutKeeps(img: Image, w: Bounds, r: Image, y: int, x: int)
    requires Rectangular(img) && 0 <= w.minY <= y <= w.maxY < |img| && 0 <= w.minX <= x <= w.maxX < Width(img)
    requires r == CutWindow(img, w)
    ensures y - w.minY < |r| && x - w.minX < |r[y - w.minY]|
    ensures r[y - w.minY][x - w.minX] == img[y][x]
  {
    CutPixel(img, w.minY, w.maxY + 1, w.minX, w.maxX + 1, y, x);
  }

  /** Every visible pixel of the input is kept (`PixelKept` for all of them at once). */
  lemma VisibleKept(img: Image, margin: int)
    requires Rectangular(img) && AnySet(AlphaMask(img)) && margin >= 0
    ensures forall y, x :: 0 <= y < |img| && 0 <= x < Width(img) && img[y][x].a > 0 ==>
      && ContentWindow(img, margin).minY <= y <= ContentWindow(img, margin).maxY
      && ContentWindow(img, margin).minX <= x <= ContentWindow(img, margin).maxX
      && y - ContentWindow(img, margin).minY < |CropToContent(img, margin)|
      && x - ContentWindow(img, margin).minX < |CropToContent(img, margin)[y - ContentWindow(img, margin).minY]|
      && CropToContent(img, margin)[y - ContentWindow(img, margin).minY][x - ContentWindow(img, margin).minX] == img[y][x]
  {
    forall y, x | 0 <= y < |img| && 0 <= x < Width(img) && img[y][x].a > 0 {
      PixelKept(img, margin, y, x);
    }
  }

  /** A visible pixel of the result is a visible pixel of the input. */
  lemma LiftPixel(img: Image, margin: int, i: int, j: int)
    requires Rectangular(img) && AnySet(AlphaMask(img)) && margin >= 0
    requires At(AlphaMask(CropToContent(img, margin)), i, j)
    ensures At(AlphaMask(img), ContentWindow(img, margin).minY + i, ContentWindow(img, margin).minX + j)
  {
    CropToContentWindow(img, margin);
    var r := CropToContent(img, margin);
    assert r[i][j] == img[ContentWindow(img, margin).minY + i][ContentWindow(img, margin).minX + j];
  }

  /** A visible pixel of the input is a visible pixel of the result. */
  lemma DropPixel(img: Image, margin: int, y: int, x: int)
    requires Rectangular(img) && AnySet(AlphaMask(img)) && margin >= 0
    requires At(AlphaMask(img), y, x)
    ensures At(AlphaMask(CropToContent(img, margin)), y - ContentWindow(img, margin).minY, x - ContentWindow(img, margin).minX)
  {
    PixelKept(img, margin, y, x);
    CropToContentWindow(img, margin);
  }

  /** When some pixel is visible, so is one of the result, and the bounds of the result's
      visible pixels are those of the input shifted by the window's corner. */
  lemma CroppedBounds(img: Image, margin: int)
    requires Rectangular(img) && AnySet(AlphaMask(img)) && margin >= 0
    ensures AnySet(AlphaMask(CropToContent(img, margin)))
    ensures BoundsOf(AlphaMask(CropToContent(img, margin))).minY == BoundsOf(AlphaMask(img)).minY - ContentWindow(img, margin).minY
    ensures BoundsOf(AlphaMask(CropToContent(img, margin))).maxY == BoundsOf(AlphaMask(img)).maxY - ContentWindow(img, margin).minY
    ensures BoundsOf(AlphaMask(CropToContent(img, margin))).minX == BoundsOf(AlphaMask(img)).minX - ContentWindow(img, margin).minX
    ensures BoundsOf(AlphaMask(CropToContent(img, margin))).maxX == BoundsOf(AlphaMask(img)).maxX - ContentWindow(img, margin).minX
  {
    var m, w, b := AlphaMask(img), ContentWindow(img, margin), BoundsOf(AlphaMask(img));
    var mr := AlphaMask(CropToContent(img, margin));
    var x0 :| At(m, b.minY, x0);
    var x1 :| At(m, b.maxY, x1);
    var y2 :| At(m, y2, b.minX);
    var y3 :| At(m, y3, b.maxX);
    DropPixel(img, margin, b.minY, x0);
    DropPixel(img, margin, b.maxY, x1);
    DropPixel(img, margin, y2, b.minX);
    DropPixel(img, margin, y3, b.maxX);
    CropToContentWindow(img, margin);
    var br := BoundsOf(mr);
    var u0 :| At(mr, br.minY, u0);
    var u1 :| At(mr, br.maxY, u1);
    var v2 :| At(mr, v2, br.minX);
    var v3 :| At(mr, v3, br.maxX);
    LiftPixel(img, margin, br.minY, u0);
    LiftPixel(img, margin, br.maxY, u1);
    LiftPixel(img, margin, v2, br.minX);
    LiftPixel(img, margin, v3, br.maxX);
  }

  /** With a non-negative margin the window of a cropped image is the whole of it. */
  lemma SecondWindowWhole(img: Image, margin: int)
    requires Rectangular(img) && AnySet(AlphaMask(img)) && margin >= 0
    ensures AnySet(AlphaMask(CropToContent(img, margin)))
    ensures ContentWindow(CropToContent(img, margin), margin).minY == 0
    ensures ContentWindow(CropToContent(img, margin), margin).minX == 0
    ensures ContentWindow(CropToContent(img, margin), margin).maxY == |CropToContent(img, margin)| - 1
    ensures ContentWindow(CropToContent(img, margin), margin).maxX == Width(CropToContent(img, margin)) - 1
  {
    CropToContentWindow(img, margin);
    CroppedBounds(img, margin);
  }

  /** The window spanning the whole image cuts out all of it. */
  lemma CutWindowWhole(img: Image, w: Bounds)
    requires Rectangular(img) && w.minY == 0 && w.maxY == |img| - 1 && w.minX == 0 && w.maxX == Width(img) - 1
    ensures CutWindow(img, w) == img
  {
    CutWhole(img);
  }

  /** With a non-negative margin a second crop changes nothing. */
  lemma CropToContentIdempotent(img: Image, margin: int)
    requires Rectangular(img) && margin >= 0
    ensures CropToContent(CropToContent(img, margin), margin) == CropToContent(img, margin)
  {
    if AnySet(AlphaMask(img)) {
      var r := CropToContent(img, margin);
      SecondWindowWhole(img, margin);
      CropIsCut(r, margin);
      CutWindowWhole(r, ContentWindow(r, margin));
    }
  }

  /** Row y holds a visible pixel. */
  predicate RowVisible(img: Image, y: int)
    requires 0 <= y < |img|
  {
    exists x :: 0 <= x < |img[y]| && img[y][x].a > 0
  }

  /** Column x holds a visible pixel. */
  predicate ColumnVisible(img: Image, x: int)
    requires Rectangular(img) && 0 <= x < Width(img)
  {
    exists y :: 0 <= y < |img| && img[y][x].a > 0
  }

  /** With margin 0 the cut is the bounding box itself: its first and last rows and its
      first and last columns each hold a visible pixel. */
  lemma TightBorders(img: Image)
    requires Rectangular(img) && AnySet(AlphaMask(img))
    ensures |CropToContent(img, 0)| > 0 && Width(CropToContent(img, 0)) > 0
    ensures RowVisible(CropToContent(img, 0), 0)
    ensures RowVisible(CropToContent(img, 0), |CropToContent(img, 0)| - 1)
    ensures ColumnVisible(CropToContent(img, 0), 0)
    ensures ColumnVisible(CropToContent(img, 0), Width(CropToContent(img, 0)) - 1)
  {
    TightRows(img);
    TightColumns(img);
  }

  lemma TightRows(img: Image)
    requires Rectangular(img) && AnySet(AlphaMask(img))
    ensures |CropToContent(img, 0)| > 0
    ensures RowVisible(CropToContent(img, 0), 0)
    ensures RowVisible(CropToContent(img, 0), |CropToContent(img, 0)| - 1)
  {
    var m, b, w := AlphaMask(img), BoundsOf(AlphaMask(img)), ContentWindow(img, 0);
    CropToContentWindow(img, 0);
    assert w.minY == b.minY && w.maxY == b.maxY;
    var x0: int :| At(m, b.minY, x0);
    var x1: int :| At(m, b.maxY, x1);
    BorderPixel(img, b.minY, x0, 0);
    BorderPixel(img, b.maxY, x1, |CropToContent(img, 0)| - 1);
  }

  lemma TightColumns(img: Image)
    requires Rectangular(img) && AnySet(AlphaMask(img))
    ensures Width(CropToContent(img, 0)) > 0
    ensures ColumnVisible(CropToContent(img, 0), 0)
    ensures ColumnVisible(CropToContent(img, 0), Width(CropToContent(img, 0)) - 1)
  {
    var m, b, w := AlphaMask(img), BoundsOf(AlphaMask(img)), ContentWindow(img, 0);
    CropToContentWindow(img, 0);
    assert w.minX == b.minX && w.maxX == b.maxX;
    var y2: int :| At(m, y2, b.minX);
    var y3: int :| At(m, y3, b.maxX);
    ColumnPixel(img, y2, b.minX, 0);
    ColumnPixel(img, y3, b.maxX, Width(CropToContent(img, 0)) - 1);
  }

  /** A visible pixel of the input at row y makes row i = y - y0 of the margin-0 crop visible. */
  lemma BorderPixel(img: Image, y: int, x: int, i: int)
    requires Rectangular(img) && AnySet(AlphaMask(img)) && At(AlphaMask(img), y, x)
    requires i == y - ContentWindow(img, 0).minY
    ensures 0 <= i < |CropToContent(img, 0)|
    ensures RowVisible(CropToContent(img, 0), i)
  {
    var w: Bounds, r: Image := ContentWindow(img, 0), CropToContent(img, 0);
    PixelKept(img, 0, y, x);
    CropToContentWindow(img, 0);
    assert r[i][x - w.minX].a > 0;
  }

  /** A visible pixel of the input at column x makes column j = x - x0 of the margin-0 crop
      visible. */
  lemma ColumnPixel(img: Image, y: int, x: int, j: int)
    requires Rectangular(img) && AnySet(AlphaMask(img)) && At(AlphaMask(img), y, x)
    requires j == x - ContentWindow(img, 0).minX
    ensures 0 <= j < Width(CropToContent(img, 0))
    ensures ColumnVisible(CropToContent(img, 0), j)
  {
    var w: Bounds, r: Image := ContentWindow(img, 0), CropToContent(img, 0);
    PixelKept(img, 0, y, x);
    CropToContentWindow(img, 0);
    assert r[y - w.minY][j].a > 0;
  }

  /** A negative margin can push the stop of a slice below zero, and Python then counts it
      from the end: in a 10 by 10 image whose only visible pixel is (1, 1), margin -5 gives
      the window rows 6..-4 and columns 6..-4, read as `[6:7]`, so the result is the single
      transparent pixel (6, 6), outside the bounding box, and the visible pixel is lost. */
  lemma NegativeMarginWraps(img: Image)
    requires |img| == 10 && forall y :: 0 <= y < 10 ==> |img[y]| == 10
    requires forall y, x :: 0 <= y < 10 && 0 <= x < 10 ==>
      img[y][x] == if y == 1 && x == 1 then Rgba(0, 0, 0, 255) else Clear
    ensures CropToContent(img, -5) == [[Clear]]
  {
    var m := AlphaMask(img);
    assert At(m, 1, 1);
    var b := BoundsOf(m);
    assert b.minY == 1 && b.maxY == 1 && b.minX == 1 && b.maxX == 1 by {
      forall y, x | At(m, y, x) ensures y == 1 && x == 1 { }
    }
    var w := ContentWindow(img, -5);
    assert w.minY == 6 && w.maxY == -4 && w.minX == 6 && w.maxX == -4;
    var r := CropToContent(img, -5);
    assert r == Cut(img, 6, -3, 6, -3);
    assert |r| == 1 && |r[0]| == 1;
    assert r[0][0] == img[6][6];
    assert r[0] == [Clear];
  }
}
