/** Shared vocabulary for raster data: 8-bit channel values and rectangular grids. */
module Raster {
  /** An 8-bit channel value, as numpy's `uint8` and PIL's 8-bit bands hold it. */
  newtype byte = x: int | 0 <= x < 256

  /** `g` has `height` rows of `width` cells each (row-major, as numpy lays out an image). */
  predicate IsGrid<T>(g: seq<seq<T>>, height: nat, width: nat) {
    |g| == height && forall y :: 0 <= y < height ==> |g[y]| == width
  }

  /** The number of columns of a grid, read off its first row. */
  function Width<T>(g: seq<seq<T>>): nat {
    if |g| == 0 then 0 else |g[0]|
  }
}
