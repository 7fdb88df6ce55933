/** The LZ4 block codec (`lz4::block::compress` / `decompress`) as the archive uses it. */
module Lz4 {
  import opened Wrappers
  import opened Bytes

  /**
   * `decompress(block, size)` rebuilds the input of `compress` when it is given that input's
   * length as the expected size.  The size reaches `decompress` as an `i32`, so the law is only
   * stated for inputs shorter than 2^31 bytes.  The block algorithm itself is not modelled.
   */
  ghost predicate Lossless(compress: seq<byte> -> seq<byte>, decompress: (seq<byte>, int) -> Option<seq<byte>>)
  {
    forall x: seq<byte> :: |x| < I32_LIMIT ==> decompress(compress(x), |x|) == Some(x)
  }
}
