/**
 * Colour normalisation: copy a decoded image, pixel by pixel, into a freshly
 * allocated full-colour image with the same bounds.
 */
module Normalize {
  import opened Raster

  /**
   * The copy of `convertToRGB`: the result is a new image with the bounds of
   * `src` whose colour at every point is the colour of `src` there. `src` is
   * only read.
   */
  method ConvertToRGB(src: Image) returns (dst: Image)
    requires src.Valid()
    ensures fresh(dst) && fresh(dst.pix) && dst.Valid()
    ensures dst.bounds == src.bounds
    ensures forall x, y :: dst.At(x, y) == src.At(x, y)
  {
    var b := src.bounds;
    dst := new Image(b);
    var y := b.minY;
    while y < b.maxY
      invariant b.minY <= y <= b.maxY
      invariant forall x', y' :: dst.At(x', y') == if y' < y then src.At(x', y') else Transparent
    {
      var x := b.minX;
      while x < b.maxX
        invariant b.minX <= x <= b.maxX
        invariant forall x', y' :: dst.At(x', y') == if y' < y || (y' == y && x' < x) then src.At(x', y') else Transparent
      {
        dst.Set(x, y, src.At(x, y));
        x := x + 1;
      }
      y := y + 1;
    }
  }
}
