/**
 * `compressImage` as a whole: the outcome of opening and decoding the input,
 * the normalisation decision on the decoder's format tag, and the quality
 * search on the image that results.
 */
module Compress {
  import opened Wrappers
  import opened Raster
  import Normalize
  import QualitySearch

  /** What opening and decoding the input file yields. */
  datatype Decoding =
    | OpenFailed                               // the file could not be opened
    | DecodeFailed                             // no registered decoder accepted the bytes
    | Decoded(img: Image?, format: string)     // a decoder's image (possibly none) and its format tag

  /** The format tags whose images are copied into a full-colour image before encoding. */
  predicate NeedsNormalization(format: string)
  {
    format == "png" || format == "webp"
  }

  /** The encoder with its image fixed: a function from quality level to outcome. */
  function Bind(encode: (Image, int) -> QualitySearch.Encoding, img: Image): int -> QualitySearch.Encoding
  {
    q => encode(img, q)
  }

  /**
   * The compression of one file. `encoded` is the image handed to the
   * encoder, `tried` the quality levels it was asked for, `written` the length
   * of the buffer handed to the write, and `ok` the boolean result.
   */
  method CompressImage(input: Decoding, encode: (Image, int) -> QualitySearch.Encoding, writeOk: bool)
    returns (ok: bool, encoded: Image?, tried: seq<int>, written: Option<nat>)
    requires input.Decoded? && input.img != null ==> input.img.Valid()
    ensures !(input.Decoded? && input.img != null) ==> !ok && encoded == null && tried == [] && written == None
    ensures input.Decoded? && input.img != null ==>
      && encoded != null
      && (NeedsNormalization(input.format) ==>
            fresh(encoded) && encoded.Valid() && encoded.bounds == input.img.bounds
            && forall x, y :: encoded.At(x, y) == input.img.At(x, y))
      && (!NeedsNormalization(input.format) ==> encoded == input.img)
      && var t := QualitySearch.Run(Bind(encode, encoded), QualitySearch.InitialQuality);
         && tried == t.tried
         && written == QualitySearch.WrittenLength(t.stop)
         && (ok <==> written.Some? && writeOk)
  {
    match input
    case OpenFailed =>
      return false, null, [], None;
    case DecodeFailed =>
      return false, null, [], None;
    case Decoded(img, format) =>
      if img == null {
        return false, null, [], None;
      }
      var chosen: Image := img;
      if NeedsNormalization(format) {
        chosen := Normalize.ConvertToRGB(img);
      }
      encoded := chosen;
      ok, tried, written := QualitySearch.CompressSearch(Bind(encode, chosen), writeOk);
  }
}
