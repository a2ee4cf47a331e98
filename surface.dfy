/** The part of Cairo's `ImageSurface` the transforms use: its size, its pixel buffer
    (`DataPtr`, row-major, one packed 32-bit pixel per cell) and the `MarkDirty` flag. */
module Surfaces {
  class ImageSurface {
    var width: int
    var height: int
    var data: array<bv32>
    var dirty: bool

    ghost predicate Valid()
      reads this
    {
      0 <= width && 0 <= height && data.Length == width * height
    }

    constructor (width: nat, height: nat)
      ensures Valid() && this.width == width && this.height == height && fresh(data) && !dirty
    {
      this.width, this.height := width, height;
      data := new bv32[width * height];
      dirty := false;
    }

    /** Tells Cairo the buffer was written behind its back; modelled as a flag. */
    method MarkDirty()
      modifies this
      ensures dirty && width == old(width) && height == old(height) && data == old(data)
    {
      dirty := true;
    }
  }
}
