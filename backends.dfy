/** The third-party compression libraries the codecs delegate to. Their byte-level
    algorithms are not modelled: each entry is an arbitrary function, and any
    lemma that needs a backend to invert itself says so in its own requires. */
module Backends {
  import opened Results
  import opened Bytes
  import opened Marshal

  /** `lz4::block::decompress_to_buffer(src, Some(hint), dst)`: the bytes the block
      decoder produces from `src` given the size hint. */
  type BlockDecoder = (seq<byte>, int) -> Result<seq<byte>>

  datatype Backends = Backends(
    snappyMaxCompressLen: nat -> nat,                      // snap::raw::max_compress_len
    snappyCompress: seq<byte> -> Result<seq<byte>>,        // snap::raw::Encoder::compress
    snappyDecompressLen: seq<byte> -> Result<nat>,         // snap::raw::decompress_len
    snappyDecompress: seq<byte> -> Result<seq<byte>>,      // snap::raw::Decoder::decompress
    lz4CompressBound: nat -> Result<nat>,                  // lz4::block::compress_bound
    lz4BlockCompress: seq<byte> -> Result<seq<byte>>,      // lz4::block::compress_to_buffer
    lz4BlockDecompress: BlockDecoder,                      // lz4::block::decompress_to_buffer
    lz4FrameEncode: seq<byte> -> Effect<(), byte>,         // lz4::Encoder: bytes written, then finish()
    lz4FrameDecode: seq<byte> -> Result<seq<byte>>,        // lz4::Decoder, read to the end
    qcomCompress: (Tag, seq<int>) -> seq<byte>,            // q_compress::auto_compress
    qcomDecompress: (Tag, seq<byte>) -> Result<seq<int>>   // q_compress::auto_decompress
  )

  const BufferTooSmall := "destination buffer too small"

  /** A backend writing into a destination slice of `capacity` bytes: it can
      produce no more than fits, so an over-long result counts as its own error. */
  function Fit(r: Result<seq<byte>>, capacity: nat): (f: Result<seq<byte>>)
    ensures f.Ok? ==> r == f && |f.value| <= capacity
    ensures r.Ok? && |r.value| <= capacity ==> f == r
  {
    if r.Ok? && |r.value| > capacity then Err(Io(BufferTooSmall)) else r
  }
}
