/**
 * `ProductBackgroundRemover.remove_background`: resolve the output path, pick the largest
 * candidate mask, binarise it, composite a transparent-background image, save and return it.
 * Decoding the file and running the segmentation model are outside the model: their results,
 * the decoded image (or None when the file cannot be read) and the candidate masks, are inputs.
 */
module Remover {
  import opened Wrappers
  import opened Raster
  import opened Paths
  import opened Masks
  import opened Compositing

  /** The two ways the call raises that the model distinguishes. */
  datatype Failure =
    | Unreadable    // imread returned None, so the colour conversion raises
    | SizeMismatch  // the chosen mask and the image differ in size, so paste raises

  /** The record of a `result.save(path)`: which image went to which path. */
  datatype Written = Written(path: string, image: seq<seq<Rgba>>)

  /** How one call ends: returned None, raised, or saved an image and returned it. */
  datatype Removal =
    | NoMask
    | Raised(failure: Failure)
    | Saved(written: Written, returned: seq<seq<Rgba>>)

  /** The explicit output path, or the default derived from the input path. */
  function ResolveOutputPath(imagePath: string, outputPath: Option<string>): string {
    match outputPath
    case Some(p) => p
    case None => DefaultOutputName(imagePath)
  }

  /**
   * A given output path is used verbatim; without one the image is saved under a bare
   * `<stem>_nobg.png` name, in the current directory rather than beside the input.
   */
  lemma ResolveOutputPathChoice(imagePath: string, outputPath: Option<string>)
    ensures outputPath.Some? ==> ResolveOutputPath(imagePath, outputPath) == outputPath.value
    ensures outputPath.None? ==>
      var r := ResolveOutputPath(imagePath, outputPath);
      '/' !in r && |r| >= |OutputSuffix| && r[|r| - |OutputSuffix|..] == OutputSuffix
  {
    DefaultOutputNameParts(imagePath);
  }

  /** The pixel the composite holds where the chosen mask has value `m`. */
  function CompositePixel(p: Rgb, m: int): Rgba {
    if m > 0 then Opaque(p) else Transparent
  }

  /**
   * Binarise the chosen mask, create a transparent canvas of the image's size and paste
   * the image through the binary mask: the pixel is the opaque source pixel where the
   * mask is positive, and transparent elsewhere.
   */
  method Composite(img: Image, chosen: Mask) returns (result: seq<seq<Rgba>>)
    requires IsGrid(img, |img|, Width(img)) && IsGrid(chosen, |img|, Width(img))
    ensures IsGrid(result, |img|, Width(img))
    ensures forall y, x :: 0 <= y < |img| && 0 <= x < Width(img) ==>
      result[y][x] == CompositePixel(img[y][x], chosen[y][x])
  {
    var binary := Binarise(chosen);
    var canvas := new Canvas.Blank(Width(img), |img|);
    canvas.Paste(img, binary);
    result := canvas.Snapshot();
  }

  method RemoveBackground(imagePath: string, outputPath: Option<string>, decoded: Option<Image>, masks: seq<Mask>)
    returns (r: Removal)
    requires decoded.Some? ==> IsGrid(decoded.value, |decoded.value|, Width(decoded.value))
    ensures r == Raised(Unreadable) <==> decoded.None?
    ensures r == NoMask <==> decoded.Some? && masks == []
    ensures r == Raised(SizeMismatch) <==>
      decoded.Some? && SelectMask(masks).Some? &&
      !IsGrid(masks[SelectMask(masks).value], |decoded.value|, Width(decoded.value))
    ensures r.Saved? <==>
      decoded.Some? && SelectMask(masks).Some? &&
      IsGrid(masks[SelectMask(masks).value], |decoded.value|, Width(decoded.value))
    ensures r.Saved? ==> r.written.image == r.returned
    ensures r.Saved? ==> r.written.path == ResolveOutputPath(imagePath, outputPath)
    ensures r.Saved? ==>
      decoded.Some? && SelectMask(masks).Some? &&
      var img, chosen := decoded.value, masks[SelectMask(masks).value];
      IsGrid(chosen, |img|, Width(img)) && IsGrid(r.returned, |img|, Width(img)) &&
      forall y, x :: 0 <= y < |img| && 0 <= x < Width(img) ==>
        r.returned[y][x] == CompositePixel(img[y][x], chosen[y][x])
  {
    var path := ResolveOutputPath(imagePath, outputPath);
    if decoded.None? {
      return Raised(Unreadable);
    }
    var img := decoded.value;
    var best := SelectMask(masks);
    if best.None? {
      return NoMask;
    }
    // paste rejects a mask whose size differs from the image's; binarising keeps the size
    var chosen := masks[best.value];
    if !IsGrid(chosen, |img|, Width(img)) {
      return Raised(SizeMismatch);
    }
    var result := Composite(img, chosen);
    var written := Written(path, result);  // result.save(output_path)
    r := Saved(written, result);
  }

  /** Every pixel of a composite is either an opaque source pixel or fully transparent. */
  lemma CompositePixelIsHard(p: Rgb, m: int)
    ensures CompositePixel(p, m) == Opaque(p) || CompositePixel(p, m) == Transparent
    ensures CompositePixel(p, m).a == 255 <==> m > 0
    ensures CompositePixel(p, m).a == 0 <==> m <= 0
  {
  }
}
