/** The platform pieces the compressor works with, reduced to what the compression
    logic can observe: a bitmap's identity and dimensions, and a deterministic JPEG
    encoder given to the compressor as a function. */
module Images {
  import opened KotlinInt

  newtype byte = x: int | 0 <= x < 256

  datatype Option<T> = None | Some(value: T)

  /** Width and height reported by the decoder. */
  datatype Dimensions = Dimensions(width: int, height: int)

  /** A bitmap, identified by how many downscales separate it from the decoded
      original (generation 0), with its pixel dimensions. Its pixels are not
      modelled: the encoder may depend on the bitmap in any way. */
  datatype Bitmap = Bitmap(generation: nat, width: int, height: int)

  /** `compressBitmap(bitmap, quality)`: the JPEG bytes `Bitmap.compress` writes. */
  type Encoder = (Bitmap, int) -> seq<byte>

  /** Every encoding fits in a JVM `ByteArray`, whose size is an `Int`. */
  ghost predicate ValidEncoder(encode: Encoder) {
    forall b: Bitmap, q: int :: |encode(b, q)| <= INT_MAX
  }

  /** A byte array of `n` zero bytes. */
  function Zeros(n: nat): (s: seq<byte>)
    ensures |s| == n
  {
    seq(n, _ => 0 as byte)
  }
}
