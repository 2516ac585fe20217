/** The skin-tone test of the face cropper (`skin_mask`). The Y, Cb and Cr planes come from
    PIL's RGB-to-YCbCr conversion, which is not part of this model: they are inputs, given
    pixel by pixel beside the RGB image they were computed from. */
module Skin {
  import opened Grids

  /** One pixel of the uint8 RGB image. */
  datatype Rgb = Rgb(r: byte, g: byte, b: byte)

  /** The same pixel in PIL's YCbCr mode. */
  datatype Ycc = Ycc(y: byte, cb: byte, cr: byte)

  const SkinCbMin: int := 77
  const SkinCbMax: int := 127
  const SkinCrMin: int := 133
  const SkinCrMax: int := 173

  /** The colour-space window: Cb in [77, 127], Cr in [133, 173] and luma above 60. */
  predicate InSkinRange(c: Ycc) {
    SkinCbMin <= c.cb as int <= SkinCbMax && SkinCrMin <= c.cr as int <= SkinCrMax && c.y as int > 60
  }

  /** The guard against too dark or saturated pixels, apart from the red-green difference. */
  predicate ChannelFloor(p: Rgb) {
    p.r as int > 70 && p.g as int > 40 && p.b as int > 20
  }

  /** `np.abs(r - g)` on uint8 planes: the subtraction wraps modulo 256, and the absolute
      value of an unsigned number is the number itself. */
  function WrappedDiff(p: Rgb): (d: byte)
    ensures p.r >= p.g ==> d as int == p.r as int - p.g as int
    ensures p.r < p.g ==> d as int == 256 - (p.g as int - p.r as int)
  {
    ((p.r as int - p.g as int) % 256) as byte
  }

  /** The distance between the red and green channels. */
  function AbsDiff(p: Rgb): nat {
    if p.r >= p.g then p.r as int - p.g as int else p.g as int - p.r as int
  }

  /** `skin_mask` at one pixel as written: the red-green guard reads the wrapped difference. */
  predicate SkinAsWritten(p: Rgb, c: Ycc)
    ensures SkinAsWritten(p, c) ==> p.r != p.g
    ensures SkinAsWritten(p, c) && p.r >= p.g ==> p.r as int - p.g as int > 5
  {
    InSkinRange(c) && ChannelFloor(p) && WrappedDiff(p) as int > 5
  }

  /** `skin_mask` at one pixel as intended: red and green differ by more than 5. */
  predicate IsSkin(p: Rgb, c: Ycc)
    ensures IsSkin(p, c) ==> SkinAsWritten(p, c)
  {
    InSkinRange(c) && ChannelFloor(p) && AbsDiff(p) > 5
  }

  /** A greenish pixel (green 3 above red) that the wrapped difference lets through: the
      YCbCr values are the ones PIL's conversion gives for this colour. */
  lemma WrapCounterexample()
    ensures SkinAsWritten(Rgb(200, 203, 110), Ycc(191, 82, 134))
    ensures !IsSkin(Rgb(200, 203, 110), Ycc(191, 82, 134))
  {
  }

  /** The two tests disagree exactly on the pixels that pass every other condition and whose
      green exceeds red by 1 to 5; there the written test accepts and the intended one
      rejects. Whenever red is at least green they agree. */
  lemma SkinDiffers(p: Rgb, c: Ycc)
    ensures SkinAsWritten(p, c) != IsSkin(p, c) <==>
      InSkinRange(c) && ChannelFloor(p) && 1 <= p.g as int - p.r as int <= 5
    ensures SkinAsWritten(p, c) != IsSkin(p, c) ==> SkinAsWritten(p, c)
    ensures p.r >= p.g ==> (SkinAsWritten(p, c) <==> IsSkin(p, c))
  {
  }

  /** Two grids of the same shape. */
  predicate SameGrid<S, T>(a: seq<seq<S>>, b: seq<seq<T>>) {
    Rectangular(a) && Rectangular(b) && |a| == |b| && Width(a) == Width(b)
  }

  /** `skin_mask` over the image (intended test). */
  function SkinMask(rgb: seq<seq<Rgb>>, ycc: seq<seq<Ycc>>): (m: Mask)
    requires SameGrid(rgb, ycc)
    ensures SameGrid(m, rgb)
    ensures forall y, x :: 0 <= y < |rgb| && 0 <= x < Width(rgb) ==> (m[y][x] <==> IsSkin(rgb[y][x], ycc[y][x]))
  {
    seq(|rgb|, y requires 0 <= y < |rgb| =>
      seq(Width(rgb), x requires 0 <= x < Width(rgb) => IsSkin(rgb[y][x], ycc[y][x])))
  }

  /** `skin_mask` over the image as written. */
  function SkinMaskAsWritten(rgb: seq<seq<Rgb>>, ycc: seq<seq<Ycc>>): (m: Mask)
    requires SameGrid(rgb, ycc)
    ensures SameGrid(m, rgb)
    ensures forall y, x :: 0 <= y < |rgb| && 0 <= x < Width(rgb) ==> (m[y][x] <==> SkinAsWritten(rgb[y][x], ycc[y][x]))
  {
    seq(|rgb|, y requires 0 <= y < |rgb| =>
      seq(Width(rgb), x requires 0 <= x < Width(rgb) => SkinAsWritten(rgb[y][x], ycc[y][x])))
  }

  /** The written mask is the intended one plus exactly the greenish pixels of
      `SkinDiffers`. */
  lemma SkinMasksDiffer(rgb: seq<seq<Rgb>>, ycc: seq<seq<Ycc>>, y: int, x: int)
    requires SameGrid(rgb, ycc) && 0 <= y < |rgb| && 0 <= x < Width(rgb)
    ensures SkinMaskAsWritten(rgb, ycc)[y][x] <==>
      SkinMask(rgb, ycc)[y][x] ||
      (InSkinRange(ycc[y][x]) && ChannelFloor(rgb[y][x]) && 1 <= rgb[y][x].g as int - rgb[y][x].r as int <= 5)
  {
    SkinDiffers(rgb[y][x], ycc[y][x]);
  }
}
