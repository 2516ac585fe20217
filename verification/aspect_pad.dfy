/** `pad_to_aspect`: transparent padding of an RGBA image up to a target w:h ratio, with no
    resizing. The ratio test and the `ceil` of the source work on floats; here both are exact
    integer arithmetic by cross-multiplication, and the 1e-6 tolerance of the "already at
    ratio" test is exact equality. */
module AspectPad {
  import opened Grids
  import opened RgbaImages

  /** The standardised output ratio w:h. */
  const TargetAspectW: int := 1
  const TargetAspectH: int := 1

  /** The result of `pad_to_aspect`: the image, or the `ZeroDivisionError` that `w / h`
      raises for an image without rows. */
  datatype PadResult = Padded(image: Image) | ZeroHeight

  /** `ceil(a / b)` for a non-negative `a` and a positive `b`. */
  function CeilDiv(a: nat, b: int): (q: nat)
    requires b > 0
    ensures q * b >= a && (q - 1) * b < a
  {
    (a + b - 1) / b
  }

  /** The canvas size `(new_h, new_w)`: unchanged at the target ratio; a too-wide image
      keeps its width and gets height `ceil(w / r_target)`; a too-tall image keeps its
      height and gets width `ceil(h * r_target)`. */
  function NewSize(h: nat, w: nat, tw: int, th: int): (s: (nat, nat))
    requires h > 0 && tw > 0 && th > 0
    ensures s.0 >= h && s.1 >= w && (s.0 == h || s.1 == w)
    ensures s == (h, w) <==> w * th == tw * h
  {
    if w * th == tw * h then (h, w)
    else if w * th > tw * h then
      CeilGrows(w * th, tw, h);
      (CeilDiv(w * th, tw), w)
    else
      CeilGrows(h * tw, th, w);
      (h, CeilDiv(h * tw, th))
  }

  /** A quotient rounded up exceeds every n with n * b below the dividend. */
  lemma CeilGrows(a: nat, b: int, n: nat)
    requires b > 0 && a > n * b
    ensures CeilDiv(a, b) > n
  {
    var q := CeilDiv(a, b);
    assert q * b >= a > n * b;
    MulLess(n, q, b);
  }

  /** At most one dimension changes, and the one that does grows to the least size that
      reaches the target ratio. */
  lemma NewSizeGrowsOne(h: nat, w: nat, tw: int, th: int)
    requires h > 0 && tw > 0 && th > 0
    ensures w * th == tw * h ==> NewSize(h, w, tw, th) == (h, w)
    ensures w * th > tw * h ==>
      && NewSize(h, w, tw, th).1 == w && NewSize(h, w, tw, th).0 > h
      && NewSize(h, w, tw, th).0 * tw >= w * th && (NewSize(h, w, tw, th).0 - 1) * tw < w * th
    ensures w * th < tw * h ==>
      && NewSize(h, w, tw, th).0 == h && NewSize(h, w, tw, th).1 > w
      && NewSize(h, w, tw, th).1 * th >= h * tw && (NewSize(h, w, tw, th).1 - 1) * th < h * tw
  {
    var s := NewSize(h, w, tw, th);
    if w * th > tw * h {
      assert s.0 * tw >= w * th > h * tw;
      MulLess(h, s.0, tw);
    } else if w * th < tw * h {
      assert s.1 * th >= h * tw > w * th;
      MulLess(w, s.1, th);
    }
  }

  lemma MulLess(a: int, b: int, c: int)
    requires c > 0 && a * c < b * c
    ensures a < b
  {
    if a >= b {
      MulMono(b, a, c);
    }
  }

  lemma MulMono(a: int, b: int, c: int)
    requires a <= b && c >= 0
    ensures a * c <= b * c
  {
  }

  /** With a 1:1 target every padded image is a square of side max(h, w). */
  lemma SquareAtOneToOne(h: nat, w: nat)
    requires h > 0
    ensures NewSize(h, w, TargetAspectW, TargetAspectH) == (Max(h, w), Max(h, w))
  {
  }

  /** The offset `(y0, x0)` of the image on the canvas: "top" puts it at the top, "bottom"
      at the bottom, and "center" or any other anchor centres it (rounding down); the
      columns are always centred. */
  function Offset(anchor: string, newH: int, newW: int, h: int, w: int): (o: (int, int))
    requires newH >= h && newW >= w
    ensures 0 <= o.0 && o.0 + h <= newH && 0 <= o.1 && o.1 + w <= newW
    ensures o.1 == (newW - w) / 2
    ensures anchor == "top" ==> o.0 == 0
    ensures anchor == "bottom" ==> o.0 == newH - h
    ensures anchor != "top" && anchor != "bottom" ==> o.0 == (newH - h) / 2
  {
    if anchor == "center" then ((newH - h) / 2, (newW - w) / 2)
    else if anchor == "top" then (0, (newW - w) / 2)
    else if anchor == "bottom" then (newH - h, (newW - w) / 2)
    else ((newH - h) / 2, (newW - w) / 2)
  }

  /** Pixel (y, x) of the canvas once `img` is written at `(y0, x0)`: the image's pixel
      where it lies, transparent black elsewhere. */
  function Placed(img: Image, y0: int, x0: int, y: int, x: int): Rgba
    requires Rectangular(img)
  {
    if y0 <= y < y0 + |img| && x0 <= x < x0 + Width(img) then img[y - y0][x - x0] else Clear
  }

  /** The canvas as a grid. */
  function CanvasOf(img: Image, newH: nat, newW: nat, y0: int, x0: int): (c: Image)
    requires Rectangular(img)
    ensures |c| == newH && forall y :: 0 <= y < newH ==> |c[y]| == newW
    ensures forall y, x :: 0 <= y < newH && 0 <= x < newW ==> c[y][x] == Placed(img, y0, x0, y, x)
  {
    seq(newH, y requires 0 <= y < newH => seq(newW, x requires 0 <= x < newW => Placed(img, y0, x0, y, x)))
  }

  /** What `pad_to_aspect` returns for an image with rows. */
  function PadSpec(img: Image, tw: int, th: int, anchor: string): Image
    requires Rectangular(img) && |img| > 0 && tw > 0 && th > 0
  {
    var h, w := |img|, Width(img);
    if w * th == tw * h then img
    else
      var s := NewSize(h, w, tw, th);
      NewSizeGrowsOne(h, w, tw, th);
      var o := Offset(anchor, s.0, s.1, h, w);
      CanvasOf(img, s.0, s.1, o.0, o.1)
  }

  /** The contents of a two-dimensional array, row by row. */
  function Contents(a: array2<Rgba>): (g: Image)
    reads a
    ensures |g| == a.Length0 && forall y :: 0 <= y < a.Length0 ==> |g[y]| == a.Length1
    ensures forall y, x :: 0 <= y < a.Length0 && 0 <= x < a.Length1 ==> g[y][x] == a[y, x]
  {
    seq(a.Length0, y requires 0 <= y < a.Length0 reads a =>
      seq(a.Length1, x requires 0 <= x < a.Length1 reads a => a[y, x]))
  }

  /** The canvas after rows `0..i` of the image, and the first `j` pixels of row `i`, have
      been written at `(y0, x0)`. */
  ghost predicate Written(canvas: array2<Rgba>, img: Image, y0: int, x0: int, i: int, j: int)
    requires Rectangular(img)
    reads canvas
  {
    forall y, x :: 0 <= y < canvas.Length0 && 0 <= x < canvas.Length1 ==>
      canvas[y, x] == (if y0 <= y < y0 + i || (y == y0 + i && x < x0 + j) then Placed(img, y0, x0, y, x) else Clear)
  }

  /** `canvas[y0:y0+h, x0:x0+w] = img_rgba` on a fresh all-zero canvas. */
  method Paste(img: Image, newH: nat, newW: nat, y0: nat, x0: nat) returns (canvas: array2<Rgba>)
    requires Rectangular(img) && y0 + |img| <= newH && x0 + Width(img) <= newW
    ensures fresh(canvas) && canvas.Length0 == newH && canvas.Length1 == newW
    ensures Contents(canvas) == CanvasOf(img, newH, newW, y0, x0)
  {
    canvas := new Rgba[newH, newW]((y, x) => Clear);
    for i := 0 to |img|
      invariant Written(canvas, img, y0, x0, i, 0)
    {
      for j := 0 to Width(img)
        invariant Written(canvas, img, y0, x0, i, j)
      {
        canvas[y0 + i, x0 + j] := img[i][j];
      }
    }
    assert Written(canvas, img, y0, x0, |img|, 0);
    var c, g := CanvasOf(img, newH, newW, y0, x0), Contents(canvas);
    forall y | 0 <= y < newH ensures g[y] == c[y] {
      assert |g[y]| == |c[y]|;
    }
  }

  /** `pad_to_aspect`. */
  method PadToAspect(img: Image, tw: int, th: int, anchor: string) returns (r: PadResult)
    requires Rectangular(img) && tw > 0 && th > 0
    ensures r.ZeroHeight? <==> |img| == 0
    ensures r.Padded? ==> r.image == PadSpec(img, tw, th, anchor)
  {
    var h, w := |img|, Width(img);
    if h == 0 {
      return ZeroHeight;
    }
    if w * th == tw * h {
      return Padded(img);
    }
    var s := NewSize(h, w, tw, th);
    NewSizeGrowsOne(h, w, tw, th);
    var o := Offset(anchor, s.0, s.1, h, w);
    var canvas := Paste(img, s.0, s.1, o.0, o.1);
    r := Padded(Contents(canvas));
  }

  /** An image already at the target ratio comes back unchanged. */
  lemma PadAtRatio(img: Image, tw: int, th: int, anchor: string)
    requires Rectangular(img) && |img| > 0 && tw > 0 && th > 0 && Width(img) * th == tw * |img|
    ensures PadSpec(img, tw, th, anchor) == img
  {
  }

  /** Otherwise the result has the `NewSize` shape, holds every input pixel at
      `(y0 + i, x0 + j)` for the anchor's offset, and is transparent black everywhere else. */
  lemma PadCopies(img: Image, tw: int, th: int, anchor: string, newH: int, newW: int, y0: int, x0: int)
    requires Rectangular(img) && |img| > 0 && tw > 0 && th > 0 && Width(img) * th != tw * |img|
    requires (newH, newW) == NewSize(|img|, Width(img), tw, th)
    requires newH >= |img| && newW >= Width(img) && (y0, x0) == Offset(anchor, newH, newW, |img|, Width(img))
    ensures |PadSpec(img, tw, th, anchor)| == newH
    ensures forall y :: 0 <= y < newH ==> |PadSpec(img, tw, th, anchor)[y]| == newW
    ensures forall i, j :: 0 <= i < |img| && 0 <= j < Width(img) ==> PadSpec(img, tw, th, anchor)[y0 + i][x0 + j] == img[i][j]
    ensures forall y, x :: 0 <= y < newH && 0 <= x < newW && !(y0 <= y < y0 + |img| && x0 <= x < x0 + Width(img)) ==>
      PadSpec(img, tw, th, anchor)[y][x] == Clear
  {
    var p, c := PadSpec(img, tw, th, anchor), CanvasOf(img, newH, newW, y0, x0);
    assert p == c;
    forall i, j | 0 <= i < |img| && 0 <= j < Width(img) ensures p[y0 + i][x0 + j] == img[i][j] {
      assert c[y0 + i][x0 + j] == Placed(img, y0, x0, y0 + i, x0 + j);
    }
  }

  /** With the standard 1:1 target the output is a square of side max(h, w). */
  lemma StandardIsSquare(img: Image, anchor: string)
    requires Rectangular(img) && |img| > 0
    ensures |PadSpec(img, TargetAspectW, TargetAspectH, anchor)| == Max(|img|, Width(img))
    ensures forall y :: 0 <= y < Max(|img|, Width(img)) ==>
      |PadSpec(img, TargetAspectW, TargetAspectH, anchor)[y]| == Max(|img|, Width(img))
  {
    SquareAtOneToOne(|img|, Width(img));
  }
}
