/** `crop_to_face`: the skin mask, refined by morphology, gives the largest skin-coloured
    component; the crop is the square around it, or the fallback square when there is none.
    The feathered alpha channel and the RGBA image built from it are not part of this model:
    the result is the RGB pixels of the cut and the box it was cut with. */
module FaceCropper {
  import opened Grids
  import opened Skin
  import opened Morphology
  import opened Components
  import opened CropBoxes

  /** Which branch `crop_to_face` took, with the box it cut; or the error `refine_mask`
      raised. */
  datatype FacePlan = FaceCrop(box: CropBox, component: Mask) | Fallback(box: CropBox) | Failed(error: MorphError)

  /** A mask whose set cells form a non-empty set has a set cell. */
  lemma CellsAnySet(m: Mask)
    requires CellsOf(m) != {}
    ensures AnySet(m)
  {
    var c :| c in CellsOf(m);
    assert At(m, c.0, c.1);
  }

  /** The set cells of `c` form a component of `m` of largest size, and every component of
      `m` met earlier in row-major order is strictly smaller. */
  ghost predicate LargestOf(m: Mask, c: Mask) {
    && IsComponent(m, CellsOf(c))
    && (forall s {:trigger IsComponent(m, s)} :: IsComponent(m, s) ==> |s| <= |CellsOf(c)|)
    && FirstOfLargest(m, CellsOf(c))
  }

  /** Every component of `m` holding a cell that comes before all of `cells` is smaller. */
  ghost predicate FirstOfLargest(m: Mask, cells: set<Cell>) {
    forall s, d0 {:trigger IsComponent(m, s), d0 in s} ::
      IsComponent(m, s) && d0 in s && AheadOf(d0, cells) ==> |s| < |cells|
  }

  /** `d0` comes before every cell of `cells` in row-major order. */
  ghost predicate AheadOf(d0: Cell, cells: set<Cell>) {
    forall d :: d in cells ==> Before(d0, d)
  }

  /** What `crop_to_face` does with the skin mask `skin` of `rgb`:
      - `refine_mask` fails exactly on an image without rows or columns, and nothing is cut;
      - otherwise, when the refined mask has no set cell, it cuts the fallback square;
      - otherwise it cuts the `compute_crop_box` square around a largest component of the
        refined mask (the first one met in row-major order among those of largest size);
      - the box lies in the frame and the pixels are its cut. */
  ghost predicate PlannedCrop(rgb: seq<seq<Rgb>>, refined: MorphResult, plan: FacePlan, pixels: seq<seq<Rgb>>)
    requires Rectangular(rgb) && (refined.Ok? ==> SameGrid(refined.mask, rgb))
  {
    && (plan.Failed? <==> refined.Err?)
    && (plan.Failed? ==> plan.error == refined.error && pixels == [])
    && (!plan.Failed? ==>
          && refined.Ok?
          && (plan.Fallback? <==> !AnySet(refined.mask))
          && (plan.Fallback? ==> plan.box == FallbackBox(Width(rgb), |rgb|))
          && (plan.FaceCrop? ==>
                && SameGrid(plan.component, refined.mask)
                && AnySet(plan.component)
                && LargestOf(refined.mask, plan.component)
                && plan.box == ComputeCropBox(plan.component, (Width(rgb), |rgb|)))
          && plan.box.Inside(|rgb|, Width(rgb))
          && pixels == Crop(rgb, plan.box))
  }

  /** Lines 119-126 of `crop_to_face`, from the skin mask on: `refine_mask`, then
      `largest_component_mask`, then the fallback or the computed box, then the cut. */
  method CropFromSkin(rgb: seq<seq<Rgb>>, skin: Mask) returns (plan: FacePlan, pixels: seq<seq<Rgb>>)
    requires SameGrid(skin, rgb)
    ensures plan.Failed? <==> |rgb| == 0 || Width(rgb) == 0
    ensures PlannedCrop(rgb, RefineMask(skin), plan, pixels)
  {
    var refined := RefineMask(skin);
    if refined.Err? {
      PlannedFailed(rgb, refined);
      return Failed(refined.error), [];
    }
    var mask := refined.mask;
    var component := LargestComponentMask(mask);
    if component.None? {
      plan := Fallback(FallbackBox(Width(rgb), |rgb|));
      PlannedFallback(rgb, refined);
    } else {
      var c := component.value;
      CellsAnySet(c);
      assert LargestOf(mask, c);
      plan := FaceCrop(ComputeCropBox(c, (Width(rgb), |rgb|)), c);
      PlannedFace(rgb, refined, c);
    }
    pixels := Crop(rgb, plan.box);
  }

  /** The error branch: `refine_mask` raised. */
  lemma PlannedFailed(rgb: seq<seq<Rgb>>, refined: MorphResult)
    requires Rectangular(rgb) && refined.Err?
    ensures PlannedCrop(rgb, refined, Failed(refined.error), [])
  {
  }

  /** The fallback branch: the refined mask has no set cell. */
  lemma PlannedFallback(rgb: seq<seq<Rgb>>, refined: MorphResult)
    requires Rectangular(rgb) && refined.Ok? && SameGrid(refined.mask, rgb) && !AnySet(refined.mask)
    ensures PlannedCrop(rgb, refined, Fallback(FallbackBox(Width(rgb), |rgb|)), Crop(rgb, FallbackBox(Width(rgb), |rgb|)))
  {
  }

  /** The face branch: `c` is a largest component of the refined mask. */
  lemma PlannedFace(rgb: seq<seq<Rgb>>, refined: MorphResult, c: Mask)
    requires Rectangular(rgb) && refined.Ok? && SameGrid(refined.mask, rgb) && AnySet(refined.mask)
    requires SameGrid(c, refined.mask) && AnySet(c) && LargestOf(refined.mask, c)
    ensures PlannedCrop(rgb, refined, FaceCrop(ComputeCropBox(c, (Width(rgb), |rgb|)), c),
                        Crop(rgb, ComputeCropBox(c, (Width(rgb), |rgb|))))
  {
  }

  /** `crop_to_face` as written: the skin test reads the wrapped red-green difference. */
  method CropToFace(rgb: seq<seq<Rgb>>, ycc: seq<seq<Ycc>>) returns (plan: FacePlan, pixels: seq<seq<Rgb>>)
    requires SameGrid(rgb, ycc)
    ensures plan.Failed? <==> |rgb| == 0 || Width(rgb) == 0
    ensures PlannedCrop(rgb, RefineMask(SkinMaskAsWritten(rgb, ycc)), plan, pixels)
  {
    plan, pixels := CropFromSkin(rgb, SkinMaskAsWritten(rgb, ycc));
  }

  /** `crop_to_face` with the intended skin test on the true red-green difference. */
  method CropToFaceCorrected(rgb: seq<seq<Rgb>>, ycc: seq<seq<Ycc>>) returns (plan: FacePlan, pixels: seq<seq<Rgb>>)
    requires SameGrid(rgb, ycc)
    ensures plan.Failed? <==> |rgb| == 0 || Width(rgb) == 0
    ensures PlannedCrop(rgb, RefineMask(SkinMask(rgb, ycc)), plan, pixels)
  {
    plan, pixels := CropFromSkin(rgb, SkinMask(rgb, ycc));
  }
}
