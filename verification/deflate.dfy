/** Raw DEFLATE (`zlib.compress(..., wbits=-15)` and `zlib.decompress(...,
    wbits=-15)`) is not modelled: the codec is a pair of function values that
    every operation using it takes as a parameter, and the properties the
    round trips rely on are stated as predicates over that pair. */
module Deflate {
  import opened Wrappers
  import opened Bytes

  /** `decompress` yields None where zlib raises `zlib.error`. */
  datatype Codec = Codec(compress: Bytes -> Bytes, decompress: Bytes -> Option<Bytes>)

  /** Inflating what was deflated gives the input back. */
  ghost predicate Lossless(d: Codec) {
    forall x :: d.decompress(d.compress(x)) == Some(x)
  }

  /** A raw DEFLATE stream always holds at least one (final) block. */
  ghost predicate NeverEmpty(d: Codec) {
    forall x :: |d.compress(x)| > 0
  }
}
