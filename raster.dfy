/**
 * Decoded images: a rectangle of bounds and a grid of colours, laid out as the
 * full-colour RGBA image the normaliser allocates. Colours are opaque values
 * that are copied as they are.
 */
module Raster {
  newtype Byte = x: int | 0 <= x < 256

  /** One pixel: red, green, blue and alpha, eight bits each. */
  datatype Color = Color(r: Byte, g: Byte, b: Byte, a: Byte)

  /** The colour of every pixel of a new image, and of every point outside an image's bounds. */
  const Transparent: Color := Color(0, 0, 0, 0)

  /** The half-open rectangle [minX, maxX) x [minY, maxY). */
  datatype Rect = Rect(minX: int, minY: int, maxX: int, maxY: int) {
    predicate WellFormed() { minX <= maxX && minY <= maxY }
    function Dx(): int { maxX - minX }
    function Dy(): int { maxY - minY }
    predicate Contains(x: int, y: int) { minX <= x < maxX && minY <= y < maxY }
  }

  /** An image whose pixels are stored row by row: row `y - minY`, column `x - minX`. */
  class Image {
    const bounds: Rect
    const pix: array2<Color>

    ghost predicate Valid()
    {
      bounds.WellFormed() && pix.Length0 == bounds.Dy() && pix.Length1 == bounds.Dx()
    }

    /** A new image over `r`, every pixel transparent black. */
    constructor (r: Rect)
      requires r.WellFormed()
      ensures Valid() && bounds == r && fresh(pix)
      ensures forall x, y :: At(x, y) == Transparent
    {
      bounds := r;
      pix := new Color[r.maxY - r.minY, r.maxX - r.minX]((_, _) => Transparent);
    }

    /** The colour at (x, y): the stored pixel inside the bounds, transparent black outside. */
    function At(x: int, y: int): (c: Color)
      requires Valid()
      reads pix
      ensures !bounds.Contains(x, y) ==> c == Transparent
    {
      if bounds.Contains(x, y) then pix[y - bounds.minY, x - bounds.minX] else Transparent
    }

    /** Stores `c` at (x, y) when that point is inside the bounds; outside, nothing changes. */
    method Set(x: int, y: int, c: Color)
      requires Valid()
      modifies pix
      ensures forall x', y' :: At(x', y') == if bounds.Contains(x, y) && x' == x && y' == y then c else old(At(x', y'))
    {
      if bounds.Contains(x, y) {
        pix[y - bounds.minY, x - bounds.minX] := c;
      }
    }
  }
}
