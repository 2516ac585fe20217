/** Square-window binary morphology of the face cropper (`_binary_morph` and the
    dilate / erode / open / close / refine passes built on it). A kernel-by-kernel window
    slides over the mask padded with `kernel // 2` unset cells on every side. */
module Morphology {
  import opened Grids

  /** The `ValueError`s of `_binary_morph`: an even kernel; a window larger than the padded
      mask, which `sliding_window_view` refuses for a mask without rows or columns; and a
      mode other than "dilate" or "erode". */
  datatype MorphError = EvenKernel | WindowTooLarge | UnsupportedMode(mode: string)

  datatype MorphResult = Ok(mask: Mask) | Err(error: MorphError)

  /** Two masks of the same shape. */
  predicate SameShape(a: Mask, b: Mask) {
    Rectangular(a) && Rectangular(b) && |a| == |b| && Width(a) == Width(b)
  }

  /** A mask without rows or without columns. Padded by k // 2 on each side, its empty axis
      is k - 1 long, shorter than the k-by-k window. */
  predicate EmptyGrid(m: Mask) {
    |m| == 0 || Width(m) == 0
  }

  /** `np.pad(m, p, constant_values=0)`. */
  function Pad(m: Mask, p: nat): (r: Mask)
    requires Rectangular(m)
    ensures |r| == |m| + 2 * p
    ensures forall a :: 0 <= a < |r| ==> |r[a]| == Width(m) + 2 * p
    ensures forall a, b :: 0 <= a < |r| && 0 <= b < Width(m) + 2 * p ==> (r[a][b] <==> At(m, a - p, b - p))
    ensures forall a, b ::
      0 <= a < |r| && 0 <= b < Width(m) + 2 * p && (a < p || a >= |m| + p || b < p || b >= Width(m) + p)
      ==> !r[a][b]
  {
    seq(|m| + 2 * p, a requires 0 <= a < |m| + 2 * p =>
      seq(Width(m) + 2 * p, b requires 0 <= b < Width(m) + 2 * p => At(m, a - p, b - p)))
  }

  /** Some entry of row[lo..hi] is set (the max of a window row). */
  function AnyIn(row: seq<bool>, lo: int, hi: int): (r: bool)
    requires 0 <= lo && hi <= |row|
    ensures r <==> exists j :: lo <= j < hi && row[j]
    decreases hi - lo
  {
    if lo >= hi then false else row[lo] || AnyIn(row, lo + 1, hi)
  }

  /** Every entry of row[lo..hi] is set (the min of a window row). */
  function AllIn(row: seq<bool>, lo: int, hi: int): (r: bool)
    requires 0 <= lo && hi <= |row|
    ensures r <==> forall j :: lo <= j < hi ==> row[j]
    decreases hi - lo
  {
    if lo >= hi then true else row[lo] && AllIn(row, lo + 1, hi)
  }

  /** `windows.max() > 0` for the k-by-k window of g whose top-left corner is (top, left),
      taken over rows top .. rowEnd - 1. */
  function WindowMax(g: Mask, top: int, rowEnd: int, left: int, k: nat): (r: bool)
    requires 0 <= top && rowEnd <= |g| && 0 <= left
    requires forall a :: top <= a < rowEnd ==> left + k <= |g[a]|
    ensures r <==> exists a, b :: top <= a < rowEnd && left <= b < left + k && g[a][b]
    decreases rowEnd - top
  {
    if top >= rowEnd then false
    else AnyIn(g[top], left, left + k) || WindowMax(g, top + 1, rowEnd, left, k)
  }

  /** `windows.min() > 0` for the same window. */
  function WindowMin(g: Mask, top: int, rowEnd: int, left: int, k: nat): (r: bool)
    requires 0 <= top && rowEnd <= |g| && 0 <= left
    requires forall a :: top <= a < rowEnd ==> left + k <= |g[a]|
    ensures r <==> forall a, b :: top <= a < rowEnd && left <= b < left + k ==> g[a][b]
    decreases rowEnd - top
  {
    if top >= rowEnd then true
    else AllIn(g[top], left, left + k) && WindowMin(g, top + 1, rowEnd, left, k)
  }

  /** One dilation pass: pad, slide a k-by-k window, keep the cells whose window has a set
      cell. */
  function Dilate(m: Mask, k: nat): (r: Mask)
    requires Rectangular(m) && k % 2 == 1
    ensures |r| == |m| && forall y :: 0 <= y < |r| ==> |r[y]| == Width(m)
    ensures SameShape(m, r)
  {
    var p := k / 2;
    var padded := Pad(m, p);
    seq(|m|, y requires 0 <= y < |m| =>
      seq(Width(m), x requires 0 <= x < Width(m) => WindowMax(padded, y, y + k, x, k)))
  }

  /** One erosion pass: keep the cells whose whole window is set. */
  function Erode(m: Mask, k: nat): (r: Mask)
    requires Rectangular(m) && k % 2 == 1
    ensures |r| == |m| && forall y :: 0 <= y < |r| ==> |r[y]| == Width(m)
    ensures SameShape(m, r)
  {
    var p := k / 2;
    var padded := Pad(m, p);
    seq(|m|, y requires 0 <= y < |m| =>
      seq(Width(m), x requires 0 <= x < Width(m) => WindowMin(padded, y, y + k, x, k)))
  }

  /** (i, j) is within k // 2 rows and columns of (y, x). */
  predicate Near(y: int, x: int, i: int, j: int, k: nat) {
    y - k / 2 <= i <= y + k / 2 && x - k / 2 <= j <= x + k / 2
  }

  /** Dilation: a cell is set iff some set cell of the input lies within k // 2 rows and
      columns of it, cells outside the image counting as unset. */
  lemma {:induction false} DilateCell(m: Mask, k: nat, y: int, x: int)
    requires Rectangular(m) && k % 2 == 1
    requires 0 <= y < |m| && 0 <= x < Width(m)
    ensures Dilate(m, k)[y][x] <==> exists i, j :: Near(y, x, i, j, k) && At(m, i, j)
  {
    if Dilate(m, k)[y][x] {
      DilateWitness(m, k, y, x);
    }
    if exists i, j :: Near(y, x, i, j, k) && At(m, i, j) {
      var i, j :| Near(y, x, i, j, k) && At(m, i, j);
      DilateNear(m, k, y, x, i, j);
    }
  }

  /** A set dilated cell has a set input cell near it. */
  lemma DilateWitness(m: Mask, k: nat, y: int, x: int)
    requires Rectangular(m) && k % 2 == 1
    requires 0 <= y < |m| && 0 <= x < Width(m) && Dilate(m, k)[y][x]
    ensures exists i, j :: Near(y, x, i, j, k) && At(m, i, j)
  {
    var p := k / 2;
    var padded := Pad(m, p);
    assert WindowMax(padded, y, y + k, x, k);
    var a, b :| y <= a < y + k && x <= b < x + k && padded[a][b];
    assert Near(y, x, a - p, b - p, k) && At(m, a - p, b - p);
  }

  /** A set input cell near (y, x) sets the dilated cell. */
  lemma DilateNear(m: Mask, k: nat, y: int, x: int, i: int, j: int)
    requires Rectangular(m) && k % 2 == 1
    requires 0 <= y < |m| && 0 <= x < Width(m) && Near(y, x, i, j, k) && At(m, i, j)
    ensures Dilate(m, k)[y][x]
  {
    var p := k / 2;
    var padded := Pad(m, p);
    assert padded[i + p][j + p];
    assert WindowMax(padded, y, y + k, x, k);
  }

  /** Erosion: a cell is set iff every cell within k // 2 rows and columns of it lies inside
      the image and is set. */
  lemma {:induction false} ErodeCell(m: Mask, k: nat, y: int, x: int)
    requires Rectangular(m) && k % 2 == 1
    requires 0 <= y < |m| && 0 <= x < Width(m)
    ensures Erode(m, k)[y][x] <==> forall i, j :: Near(y, x, i, j, k) ==> At(m, i, j)
  {
    if Erode(m, k)[y][x] {
      forall i, j | Near(y, x, i, j, k) ensures At(m, i, j) {
        ErodeNear(m, k, y, x, i, j);
      }
    }
    if forall i, j :: Near(y, x, i, j, k) ==> At(m, i, j) {
      ErodeFull(m, k, y, x);
    }
  }

  /** A set eroded cell has every cell near it inside the image and set. */
  lemma ErodeNear(m: Mask, k: nat, y: int, x: int, i: int, j: int)
    requires Rectangular(m) && k % 2 == 1
    requires 0 <= y < |m| && 0 <= x < Width(m) && Erode(m, k)[y][x] && Near(y, x, i, j, k)
    ensures At(m, i, j)
  {
    var p := k / 2;
    var padded := Pad(m, p);
    assert WindowMin(padded, y, y + k, x, k);
    assert padded[i + p][j + p];
  }

  /** A cell whose every near cell is inside the image and set stays set. */
  lemma ErodeFull(m: Mask, k: nat, y: int, x: int)
    requires Rectangular(m) && k % 2 == 1
    requires 0 <= y < |m| && 0 <= x < Width(m)
    requires forall i, j :: Near(y, x, i, j, k) ==> At(m, i, j)
    ensures Erode(m, k)[y][x]
  {
    var p := k / 2;
    var padded := Pad(m, p);
    forall a, b | y <= a < y + k && x <= b < x + k ensures padded[a][b] {
      assert Near(y, x, a - p, b - p, k);
    }
    assert WindowMin(padded, y, y + k, x, k);
  }

  /** Dilation never clears a set cell. */
  lemma DilateKeeps(m: Mask, k: nat, y: int, x: int)
    requires Rectangular(m) && k % 2 == 1
    requires At(m, y, x)
    ensures Dilate(m, k)[y][x]
  {
    DilateCell(m, k, y, x);
    assert Near(y, x, y, x, k);
  }

  /** Erosion never sets a clear cell. */
  lemma ErodeShrinks(m: Mask, k: nat, y: int, x: int)
    requires Rectangular(m) && k % 2 == 1
    requires 0 <= y < |m| && 0 <= x < Width(m)
    requires Erode(m, k)[y][x]
    ensures m[y][x]
  {
    ErodeCell(m, k, y, x);
    assert Near(y, x, y, x, k);
  }

  /** Erosion clears every cell within k // 2 of the image border. */
  lemma ErodeClearsBorder(m: Mask, k: nat, y: int, x: int)
    requires Rectangular(m) && k % 2 == 1
    requires 0 <= y < |m| && 0 <= x < Width(m)
    requires y < k / 2 || y >= |m| - k / 2 || x < k / 2 || x >= Width(m) - k / 2
    ensures !Erode(m, k)[y][x]
  {
    ErodeCell(m, k, y, x);
    var p := k / 2;
    if y < p {
      assert Near(y, x, y - p, x, k) && !At(m, y - p, x);
    } else if y >= |m| - p {
      assert Near(y, x, y + p, x, k) && !At(m, y + p, x);
    } else if x < p {
      assert Near(y, x, y, x - p, k) && !At(m, y, x - p);
    } else {
      assert Near(y, x, y, x + p, k) && !At(m, y, x + p);
    }
  }

  /** One pass of `mode` (the loop body of `_binary_morph`): the window is taken before the
      mode is tested. */
  function Step(m: Mask, k: nat, mode: string): (r: MorphResult)
    requires Rectangular(m) && k % 2 == 1
    ensures r.Ok? <==> !EmptyGrid(m) && (mode == "dilate" || mode == "erode")
    ensures EmptyGrid(m) ==> r == Err(WindowTooLarge)
    ensures r.Ok? ==> SameShape(m, r.mask)
  {
    if EmptyGrid(m) then Err(WindowTooLarge)
    else if mode == "dilate" then Ok(Dilate(m, k))
    else if mode == "erode" then Ok(Erode(m, k))
    else Err(UnsupportedMode(mode))
  }

  /** `iterations` passes of `mode`; `range(iterations)` is empty when iterations <= 0. */
  function Repeat(m: Mask, k: nat, iterations: int, mode: string): (r: MorphResult)
    requires Rectangular(m) && k % 2 == 1
    ensures iterations <= 0 ==> r == Ok(m)
    ensures iterations >= 1 && EmptyGrid(m) ==> r == Err(WindowTooLarge)
    ensures r.Ok? ==> SameShape(m, r.mask)
    decreases iterations
  {
    if iterations <= 0 then Ok(m)
    else
      match Repeat(m, k, iterations - 1, mode)
      case Err(e) => Err(e)
      case Ok(w) => Step(w, k, mode)
  }

  /** `_binary_morph(mask, kernel, iterations, mode)`: the kernel is checked first. */
  function Morph(m: Mask, kernel: nat, iterations: int, mode: string): (r: MorphResult)
    requires Rectangular(m)
    ensures kernel % 2 == 0 ==> r == Err(EvenKernel)
    ensures r.Ok? ==> SameShape(m, r.mask)
  {
    if kernel % 2 == 0 then Err(EvenKernel) else Repeat(m, kernel, iterations, mode)
  }

  /** When `_binary_morph` fails, and how: an even kernel fails before any work; once the
      loop body runs, a mask without rows or columns fails on the window, and then an
      unknown mode fails; otherwise it succeeds and keeps the shape. */
  lemma {:induction false} MorphOutcome(m: Mask, kernel: nat, iterations: int, mode: string)
    requires Rectangular(m)
    ensures kernel % 2 == 0 ==> Morph(m, kernel, iterations, mode) == Err(EvenKernel)
    ensures kernel % 2 == 1 && iterations <= 0 ==> Morph(m, kernel, iterations, mode) == Ok(m)
    ensures kernel % 2 == 1 && iterations >= 1 && EmptyGrid(m) ==>
      Morph(m, kernel, iterations, mode) == Err(WindowTooLarge)
    ensures kernel % 2 == 1 && iterations >= 1 && !EmptyGrid(m) && mode != "dilate" && mode != "erode" ==>
      Morph(m, kernel, iterations, mode) == Err(UnsupportedMode(mode))
    ensures kernel % 2 == 1 && !EmptyGrid(m) && (mode == "dilate" || mode == "erode") ==>
      Morph(m, kernel, iterations, mode).Ok? && SameShape(m, Morph(m, kernel, iterations, mode).mask)
    decreases if iterations < 0 then 0 else iterations
  {
    if kernel % 2 == 1 && iterations >= 1 {
      MorphOutcome(m, kernel, iterations - 1, mode);
    }
  }

  /** `_binary_morph`: reassigns `working` once per iteration. */
  method BinaryMorph(mask: Mask, kernel: nat, iterations: int, mode: string) returns (r: MorphResult)
    requires Rectangular(mask)
    ensures r == Morph(mask, kernel, iterations, mode)
  {
    if kernel % 2 == 0 {
      return Err(EvenKernel);
    }
    var working := mask;
    var i := 0;
    while i < iterations
      invariant 0 <= i <= (if iterations <= 0 then 0 else iterations)
      invariant Repeat(mask, kernel, i, mode) == Ok(working)
      invariant Rectangular(working)
    {
      if EmptyGrid(working) {
        MorphOutcome(mask, kernel, iterations, mode);
        return Err(WindowTooLarge);
      }
      if mode == "dilate" {
        working := Dilate(working, kernel);
      } else if mode == "erode" {
        working := Erode(working, kernel);
      } else {
        MorphOutcome(mask, kernel, iterations, mode);
        return Err(UnsupportedMode(mode));
      }
      i := i + 1;
    }
    assert i == (if iterations <= 0 then 0 else iterations);
    return Ok(working);
  }

  /** `binary_dilate`. */
  function BinaryDilate(m: Mask, kernel: nat, iterations: int): (r: MorphResult)
    requires Rectangular(m)
    ensures r.Ok? ==> SameShape(m, r.mask)
  {
    Morph(m, kernel, iterations, "dilate")
  }

  /** `binary_erode`. */
  function BinaryErode(m: Mask, kernel: nat, iterations: int): (r: MorphResult)
    requires Rectangular(m)
    ensures r.Ok? ==> SameShape(m, r.mask)
  {
    Morph(m, kernel, iterations, "erode")
  }

  /** `binary_open`: erode, then dilate. */
  function BinaryOpen(m: Mask, kernel: nat): (r: MorphResult)
    requires Rectangular(m)
    ensures r.Ok? ==> SameShape(m, r.mask)
  {
    match BinaryErode(m, kernel, 1)
    case Err(e) => Err(e)
    case Ok(e1) => BinaryDilate(e1, kernel, 1)
  }

  /** `binary_close`: dilate, then erode. */
  function BinaryClose(m: Mask, kernel: nat): (r: MorphResult)
    requires Rectangular(m)
    ensures r.Ok? ==> SameShape(m, r.mask)
  {
    match BinaryDilate(m, kernel, 1)
    case Err(e) => Err(e)
    case Ok(d1) => BinaryErode(d1, kernel, 1)
  }

  /** Opening with an odd kernel fails exactly on a mask without rows or columns, and never
      adds a cell: every cell the opening keeps was set in the mask. */
  lemma OpenSubset(m: Mask, kernel: nat, y: int, x: int)
    requires Rectangular(m) && kernel % 2 == 1
    ensures BinaryOpen(m, kernel).Ok? <==> !EmptyGrid(m)
    ensures EmptyGrid(m) ==> BinaryOpen(m, kernel) == Err(WindowTooLarge)
    ensures BinaryOpen(m, kernel).Ok? ==> SameShape(m, BinaryOpen(m, kernel).mask)
    ensures BinaryOpen(m, kernel).Ok? ==> (At(BinaryOpen(m, kernel).mask, y, x) ==> At(m, y, x))
  {
    if EmptyGrid(m) {
      MorphOutcome(m, kernel, 1, "erode");
      return;
    }
    var e := Erode(m, kernel);
    MorphOutcome(m, kernel, 1, "erode");
    MorphOutcome(e, kernel, 1, "dilate");
    assert BinaryOpen(m, kernel) == Ok(Dilate(e, kernel));
    if At(Dilate(e, kernel), y, x) {
      DilateCell(e, kernel, y, x);
      var i, j :| Near(y, x, i, j, kernel) && At(e, i, j);
      ErodeCell(m, kernel, i, j);
      assert Near(i, j, y, x, kernel);
    }
  }

  /** Closing keeps every set cell at least kernel // 2 away from the border (nearer the
      border the zero padding makes the final erosion clear it). */
  lemma CloseKeepsInterior(m: Mask, kernel: nat, y: int, x: int)
    requires Rectangular(m) && kernel % 2 == 1
    requires At(m, y, x)
    requires kernel / 2 <= y < |m| - kernel / 2 && kernel / 2 <= x < Width(m) - kernel / 2
    ensures BinaryClose(m, kernel).Ok?
    ensures At(BinaryClose(m, kernel).mask, y, x)
  {
    assert !EmptyGrid(m);
    var d := Dilate(m, kernel);
    MorphOutcome(m, kernel, 1, "dilate");
    MorphOutcome(d, kernel, 1, "erode");
    assert BinaryClose(m, kernel) == Ok(Erode(d, kernel));
    forall i, j | Near(y, x, i, j, kernel) ensures At(d, i, j) {
      DilateCell(m, kernel, i, j);
      assert Near(i, j, y, x, kernel);
    }
    ErodeCell(d, kernel, y, x);
  }

  /** Iterated dilation never clears a set cell. */
  lemma {:induction false} RepeatDilateKeeps(m: Mask, k: nat, n: int, y: int, x: int)
    requires Rectangular(m) && k % 2 == 1
    requires At(m, y, x)
    ensures Repeat(m, k, n, "dilate").Ok? && At(Repeat(m, k, n, "dilate").mask, y, x)
    decreases if n < 0 then 0 else n
  {
    if n > 0 {
      RepeatDilateKeeps(m, k, n - 1, y, x);
      var w := Repeat(m, k, n - 1, "dilate").mask;
      assert !EmptyGrid(w);
      DilateKeeps(w, k, y, x);
    }
  }

  /** `refine_mask`: open with 5, close with 9, then dilate twice with 7. It fails, on the
      first opening, exactly for a mask without rows or columns, and otherwise keeps the
      shape. */
  function RefineMask(m: Mask): (r: MorphResult)
    requires Rectangular(m)
    ensures r.Ok? <==> !EmptyGrid(m)
    ensures EmptyGrid(m) ==> r == Err(WindowTooLarge)
    ensures r.Ok? ==> SameShape(m, r.mask)
  {
    OpenSubset(m, 5, 0, 0);
    match BinaryOpen(m, 5)
    case Err(e) => Err(e)
    case Ok(openMask) =>
      CloseKeepsShape(openMask, 9);
      match BinaryClose(openMask, 9)
      case Err(e) => Err(e)
      case Ok(closed) =>
        MorphOutcome(closed, 7, 2, "dilate");
        BinaryDilate(closed, 7, 2)
  }

  /** Closing with an odd kernel fails exactly on a mask without rows or columns, and
      otherwise keeps the shape. */
  lemma CloseKeepsShape(m: Mask, kernel: nat)
    requires Rectangular(m) && kernel % 2 == 1
    ensures BinaryClose(m, kernel).Ok? <==> !EmptyGrid(m)
    ensures BinaryClose(m, kernel).Ok? ==> SameShape(m, BinaryClose(m, kernel).mask)
  {
    MorphOutcome(m, kernel, 1, "dilate");
    if !EmptyGrid(m) {
      MorphOutcome(Dilate(m, kernel), kernel, 1, "erode");
    }
  }
}
