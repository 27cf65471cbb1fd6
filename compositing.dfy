/**
 * The transparent-background composite: a fresh RGBA canvas that the source image
 * is pasted onto through a binary alpha mask, as PIL's `Image.new` and `Image.paste` do.
 */
module Compositing {
  import opened Raster

  datatype Rgb = Rgb(r: byte, g: byte, b: byte)
  datatype Rgba = Rgba(r: byte, g: byte, b: byte, a: byte)

  /** A decoded source image, rows first. */
  type Image = seq<seq<Rgb>>

  /** The canvas's initial colour `(0, 0, 0, 0)`. */
  const Transparent: Rgba := Rgba(0, 0, 0, 0)

  /** An RGB pixel as PIL converts it to RGBA before pasting: fully opaque. */
  function Opaque(p: Rgb): Rgba {
    Rgba(p.r, p.g, p.b, 255)
  }

  /** An RGBA image buffer of fixed size, updated in place. */
  class Canvas {
    const width: nat
    const height: nat
    const pixels: array2<Rgba>

    ghost predicate Valid()
      reads this
    {
      pixels.Length0 == height && pixels.Length1 == width
    }

    /** `Image.new("RGBA", (width, height), (0, 0, 0, 0))`. */
    constructor Blank(width: nat, height: nat)
      ensures Valid() && this.width == width && this.height == height && fresh(pixels)
      ensures forall y, x :: 0 <= y < height && 0 <= x < width ==> pixels[y, x] == Transparent
    {
      this.width := width;
      this.height := height;
      pixels := new Rgba[height, width]((y, x) => Transparent);
    }

    /**
     * `paste(src, (0, 0), mask)` for a source of the canvas's size and a two-valued mask:
     * where the mask is 255 the pixel becomes the opaque source pixel, where it is 0 the
     * canvas keeps its pixel.
     */
    method Paste(src: Image, mask: seq<seq<byte>>)
      requires Valid()
      requires IsGrid(src, height, width) && IsGrid(mask, height, width)
      requires forall y, x :: 0 <= y < height && 0 <= x < width ==> mask[y][x] == 0 || mask[y][x] == 255
      modifies pixels
      ensures forall y, x :: 0 <= y < height && 0 <= x < width ==>
        pixels[y, x] == if mask[y][x] == 255 then Opaque(src[y][x]) else old(pixels[y, x])
    {
      var y := 0;
      while y < height
        invariant 0 <= y <= height
        invariant forall i, j :: 0 <= i < y && 0 <= j < width ==>
          pixels[i, j] == if mask[i][j] == 255 then Opaque(src[i][j]) else old(pixels[i, j])
        invariant forall i, j :: y <= i < height && 0 <= j < width ==> pixels[i, j] == old(pixels[i, j])
      {
        var x := 0;
        while x < width
          invariant 0 <= x <= width
          invariant forall i, j :: 0 <= i < y && 0 <= j < width ==>
            pixels[i, j] == if mask[i][j] == 255 then Opaque(src[i][j]) else old(pixels[i, j])
          invariant forall j :: 0 <= j < x ==>
            pixels[y, j] == if mask[y][j] == 255 then Opaque(src[y][j]) else old(pixels[y, j])
          invariant forall i, j :: y <= i < height && 0 <= j < width && (i > y || j >= x) ==>
            pixels[i, j] == old(pixels[i, j])
        {
          if mask[y][x] == 255 {
            pixels[y, x] := Opaque(src[y][x]);
          }
          x := x + 1;
        }
        y := y + 1;
      }
    }

    /** The canvas's pixels as a grid value, as `numpy.asarray(result)` reads them. */
    function Snapshot(): (img: seq<seq<Rgba>>)
      reads this, pixels
      requires Valid()
      ensures IsGrid(img, height, width)
      ensures forall y, x :: 0 <= y < height && 0 <= x < width ==> img[y][x] == pixels[y, x]
    {
      seq(height, y requires 0 <= y < height reads pixels =>
        seq(width, x requires 0 <= x < width reads pixels => pixels[y, x]))
    }
  }
}
