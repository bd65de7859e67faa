# Typed codec layer of the Parquet compression module

This project models the typed codec layer of `parquet/src/compression.rs`.
The layer sits between typed value buffers and byte-level compression
libraries:

- the value marshaller (`convert_to_u8` / `convert_from_u8`) turns typed values into
  big-endian bytes and back;
- the byte-level codecs (`SnappyCodec`, `LZ4Codec`, `LZ4RawCodec`,
  `LZ4HadoopCodec`) run an opaque backend on those bytes and append the result
  to a caller-owned buffer;
- `QcomCodec` hands typed values to `q_compress` directly;
- the Hadoop LZ4 container walk `try_decompress_hadoop`, with the
  `backward_compatible_lz4` fallback to the LZ4 frame and LZ4 block codecs;
- the `allowed` gates, `create_codec` and the `CodecOptionsBuilder`.

Modelling choices:

- Every compression library is a function value in a `Backends` record
  (`backends.dfy`). A round trip is never assumed globally: a lemma that needs
  a library to invert itself says so in its own `requires` (`Snappy.Inverse`,
  `Lz4Raw.Inverse`, `Lz4Frame.Inverse`, `Qcom.Inverse`).
- Caller-owned `Vec`s are objects of a class `Vec<T>` (`vectors.dfy`) whose
  methods follow Rust's `resize`, `truncate`, `push`, `append` and
  `copy_from_slice`. Each codec operation is a method on those objects. Its
  `ensures` ties the returned value and the new buffer contents to a pure
  function (`Decompressed`, `Compressed`), and the laws are lemmas about those
  functions.
- `try_decompress_hadoop` is a method with the source's `while` loop over an
  `array<byte>` output slice. It is proved equal to the recursive function
  `HadoopFrame.Parse`, which keeps the continuation rule exactly as written.
- A typed buffer is a `Tag` plus a `seq<int>` whose values fit the tag (two's
  complement ranges for signed tags). `f32`/`f64` values are their raw bit
  patterns.
- Aborts (`panic!`, `.expect(..)`, `.unwrap()` on an error, the length
  assertion of `BigEndian::read_*_into`) are the error value `Panic`. No
  codec's own error handling catches it.
- `n as u32` and `n as i32` are written out (`Bytes.AsU32`, `Bytes.AsI32`);
  other lengths are unbounded.
- A block decoder is only ever relied on at the one size hint the code passes
  it. In the frame walk this is the room left in the output (`HadoopLaws.Fits`,
  `HadoopLaws.Decodable`). For a single LZ4 block it is the original byte
  count (`Lz4Raw.Inverse`). A decoder may fail at every other hint, smaller or
  larger, and still satisfy the hypotheses. LZ4's block decoder does so,
  refusing hints above `0x7E000000`.

Points where the code's behaviour may be unexpected, all modelled as
written:

- an unsupported tag (`i8`) aborts rather than returning a recoverable error;
- input that ends in 1 to 7 bytes fails with "Not all input are consumed";
- the fallback truncates the caller's buffer to 0, not to its starting length;
- `QcomCodec::allowed` excludes both `u8` and `i8`;
- the builder's default for `backward_compatible_lz4` is `true`.

## Model

| member | source | states |
|---|---|---|
| `Bytes.ReadBEOfBE` | parquet/src/compression.rs:906-911 | reading back a big-endian `u32` header gives the number that was written |
| `Bytes.BEOfReadBE` | parquet/src/compression.rs:906-911 | every 4-byte header is the big-endian encoding of the number read from it, so header reading loses nothing |
| `Bytes.AsU32` | parquet/src/compression.rs:1047-1049 | `as u32` keeps the low 32 bits: the result is below 2^32 and equals the input when the input already fits |
| `Bytes.AsI32` | parquet/src/compression.rs:928-931 | `output_len as i32` lies in the `i32` range and is the length itself up to `i32::MAX` |
| `Marshal.ToBytes` | parquet/src/compression.rs:208-295 | `convert_to_u8` succeeds exactly for the nine tags with an arm (`i8` reaches the panic), producing `n * width` bytes |
| `Marshal.FromBytes` | parquet/src/compression.rs:127-205 | `convert_from_u8` succeeds exactly when the tag is not `i8` and the byte count is a whole number of elements; it then yields `bytes / width` typed values |
| `Marshal.EncodeAll` | parquet/src/compression.rs:223-289 | the `BigEndian::write_*_into` arms: the encoding of `n` values is `n * size_of::<T>()` bytes, and decoding it gives the values back (`Marshal.DecodeEncode`) |
| `Marshal.DecodeAll` | parquet/src/compression.rs:141-187 | the `BigEndian::read_*_into` arms: every value read from a word fits the element type, and re-encoding whole words gives the bytes back (`Marshal.EncodeDecode`) |
| `Marshal.DecodeAllLength` | parquet/src/compression.rs:141-147 | `k` whole words decode to exactly `k` values |
| `Marshal.UnsignedRoundTrip` | parquet/src/compression.rs:250-272 | a signed value's two's-complement bit pattern reads back as the same value |
| `Marshal.FromUnsignedInRange` | parquet/src/compression.rs:170-187 | a word read as a signed element type is in that type's range and re-encodes to the same bits |
| `Marshal.DecodeEncode` | parquet/src/compression.rs:141-187 | decoding the big-endian encoding of a typed buffer gives that buffer back |
| `Marshal.EncodeDecode` | parquet/src/compression.rs:223-289 | encoding what was decoded from whole words gives the bytes back |
| `Marshal.MarshalRoundTrip` | parquet/src/compression.rs:127-295 | for every tag but `i8` the two conversions are mutually inverse, in both directions |
| `Marshal.U8PassThrough` | parquet/src/compression.rs:135-221 | `u8` buffers pass through both conversions unchanged: the push loop of `convert_from_u8` (lines 135-140) and the `u8` arm of `convert_to_u8` (lines 217-221) |
| `Marshal.ConvertToU8` | parquet/src/compression.rs:208-295 | the `u8` arm appends to the output, the other arms resize it to exactly the encoding, `i8` panics without touching it, and the result is the output's length |
| `Marshal.PushEach` | parquet/src/compression.rs:136-138 | the push loop appends the values in order and changes nothing else |
| `Marshal.ConvertFromU8` | parquet/src/compression.rs:127-205 | the decoded values are appended after the caller's values and the result is the new length; on a panic the buffer is unchanged |
| `Backends.Fit` | parquet/src/compression.rs:928-932 | a backend writing into a slice of fixed capacity delivers at most that many bytes, and delivers its output unchanged whenever it fits |
| `Adapters.Deliver` | parquet/src/compression.rs:427-430 | converting the internal buffer back only appends to the caller's buffer, and the call returns its own result unless the conversion panicked |
| `Adapters.ConvertBack` | parquet/src/compression.rs:427-430 | the method's new buffer and result are those of `Deliver` |
| `Adapters.ConvertIn` | parquet/src/compression.rs:440-442 | conversion into a fresh internal buffer yields exactly `ToBytes` |
| `Adapters.AppendTail` | parquet/src/compression.rs:444-456 | resize, write into the tail, truncate: the old bytes survive, and success means exactly the backend's output follows them, with success exactly when it fits the reserved room |
| `Adapters.WriteTail` | parquet/src/compression.rs:445-454 | the method's new buffer and result are those of `AppendTail` |
| `Adapters.Zeroed` | parquet/src/compression.rs:419-421 | a fresh internal buffer resized to `len` zero bytes |
| `Snappy.Decompressed` | parquet/src/compression.rs:403-431 | Snappy `decompress` only ever appends to the caller's buffer |
| `Snappy.Decompress` | parquet/src/compression.rs:403-431 | the method's result and new buffer are those of `Snappy.Decompressed` |
| `Snappy.Compressed` | parquet/src/compression.rs:433-457 | Snappy `compress` never changes the bytes the output already held |
| `Snappy.Compress` | parquet/src/compression.rs:433-457 | the method's result and new buffer are those of `Snappy.Compressed` |
| `Snappy.RoundTrip` | parquet/src/compression.rs:1257-1328 | compress then decompress, with or without `uncompress_size`, appends the original values after the caller's and returns the byte count; the compressed buffer keeps its prefix |
| `Lz4Frame.Decompressed` | parquet/src/compression.rs:625-653 | LZ4 frame `decompress` only ever appends to the caller's buffer |
| `Lz4Frame.Decompress` | parquet/src/compression.rs:625-653 | the 4096-byte read loop collects the whole decoded stream and counts its bytes: result and buffer are those of `Lz4Frame.Decompressed` |
| `Lz4Frame.Compressed` | parquet/src/compression.rs:655-679 | LZ4 frame `compress` never changes the bytes the output already held |
| `Lz4Frame.Compress` | parquet/src/compression.rs:655-679 | the chunked feed loop hands the encoder every input byte, in order: result and buffer are those of `Lz4Frame.Compressed` |
| `Lz4Frame.RoundTrip` | parquet/src/compression.rs:1257-1328 | LZ4 frame compress then decompress appends the original values after the caller's and returns the byte count |
| `Lz4Raw.Decompressed` | parquet/src/compression.rs:774-816 | LZ4 raw `decompress` only ever appends to the caller's buffer |
| `Lz4Raw.Decompress` | parquet/src/compression.rs:774-816 | the method's result and new buffer are those of `Lz4Raw.Decompressed` |
| `Lz4Raw.Compressed` | parquet/src/compression.rs:818-844 | LZ4 raw `compress` never changes the bytes the output already held |
| `Lz4Raw.Compress` | parquet/src/compression.rs:818-844 | the method's result and new buffer are those of `Lz4Raw.Compressed` |
| `Lz4Raw.RoundTrip` | parquet/src/compression.rs:1257-1328 | LZ4 raw compress then decompress with the original size appends the original values after the caller's |
| `Lz4Raw.NeedsSize` | parquet/src/compression.rs:786-793 | without `uncompress_size` the call fails and appends nothing |
| `Lz4Raw.ShortBlockRejected` | parquet/src/compression.rs:800-806 | a block decoding to fewer bytes than `uncompress_size` is an error, with nothing appended |
| `HadoopFrame.DecodeFrame` | parquet/src/compression.rs:928-932 | the decoder writes at most the remaining output, and with up to `i32::MAX` bytes left the hint it receives is exactly that room, so its output is delivered unchanged whenever it fits |
| `HadoopFrame.FrameStep` | parquet/src/compression.rs:905-938 | a frame the loop goes past decoded to exactly its advertised size within the remaining output, and its payload lies within the input; a frame it stops at is an error |
| `HadoopFrame.Parse` | parquet/src/compression.rs:887-957 | on success the count equals the number of bytes written, and never more than the output holds |
| `HadoopFrame.ParseIntended` | parquet/src/compression.rs:942-947 | the walk that goes on after every frame keeps the same bounds |
| `HadoopFrame.WriteAt` | parquet/src/compression.rs:928-932 | the block decoder's bytes land at the start of the output slice, and nothing else changes |
| `HadoopFrame.ReadFrame` | parquet/src/compression.rs:906-938 | one pass of the loop body returns the step `FrameStep` describes and leaves its bytes written after the earlier ones |
| `HadoopFrame.TryDecompressHadoop` | parquet/src/compression.rs:887-957 | the loop returns what `Parse` returns and leaves in the output exactly the bytes `Parse` says were written, over the old contents |
| `HadoopLaws.HeaderRead` | parquet/src/compression.rs:906-913 | the loop reads back a serialized frame's two headers, its payload, and the input after it |
| `HadoopLaws.FrameErrors` | parquet/src/compression.rs:915-938 | the four error exits of a frame, in the order the loop checks them: payload missing, output too small, decoder error, wrong decoded size |
| `HadoopLaws.ShortInput` | parquet/src/compression.rs:949-956 | empty input is `Ok(0)` with nothing written; 1 to 7 bytes fail as not consumed |
| `HadoopLaws.SingleFrameAccepted` | parquet/src/compression.rs:900-957 | one valid frame whose payload the decoder turns into its advertised size at the hint the walk passes (the output's size) is accepted with its bytes written |
| `HadoopLaws.ParseFrames` | parquet/src/compression.rs:900-957 | valid frames that fit and decode at the hints the walk passes (the room left before each), and meet the continuation rule, are accepted with the sum of their advertised sizes and their outputs back to back |
| `HadoopLaws.ParseIntendedFrames` | parquet/src/compression.rs:900-957 | the corrected walk accepts any list of valid frames that fit and decode at the hints the walk passes |
| `HadoopLaws.ParseRejectsShortTail` | parquet/src/compression.rs:949-956 | valid frames followed by a 1 to 7 byte tail are rejected whatever the decoder does |
| `HadoopLaws.ParseSound` | parquet/src/compression.rs:900-957 | when the walk succeeds the input is exactly a list of valid frames, and the count is the sum of their advertised sizes |
| `HadoopLaws.ShrinkingFrameRejected` | parquet/src/compression.rs:942-947 | a frame followed by one no longer than its payload, headers included, is rejected whatever the decoder does |
| `HadoopLaws.TwoFramesAccepted` | parquet/src/compression.rs:942-947 | when the second frame is longer than the first frame's payload, two frames that fit and decode at the hints the walk passes are accepted |
| `HadoopLaws.TwoFramesIntended` | parquet/src/compression.rs:942-947 | the corrected walk accepts any two frames that fit and decode at the hints the walk passes |
| `HadoopLaws.ShrinkingFrameExample` | parquet/src/compression.rs:942-947 | a concrete two-frame input that the walk as written rejects and the corrected walk accepts, with a decoder that refuses hints above `0x7E000000` |
| `Lz4Hadoop.Internal` | parquet/src/compression.rs:981-983 | the internal buffer after the walk has exactly `uncompress_size` bytes |
| `Lz4Hadoop.Fallback` | parquet/src/compression.rs:993-1017 | since the buffer is truncated to 0, the fallback's outcome is the LZ4 frame codec's on an empty buffer, or after its non-panic failure the LZ4 raw codec's on an empty buffer, whatever the caller's buffer held |
| `Lz4Hadoop.Decompressed` | parquet/src/compression.rs:959-1024 | without `backward_compatible_lz4` the call only appends to the caller's buffer, and a success reports exactly `uncompress_size` |
| `Lz4Hadoop.Retry` | parquet/src/compression.rs:996-1017 | the fallback arm's result and buffer are those of `Fallback`: truncate, LZ4 frame, and on a non-panic failure truncate again and LZ4 raw |
| `Lz4Hadoop.Decompress` | parquet/src/compression.rs:959-1024 | the method's result and new buffer are those of `Lz4Hadoop.Decompressed` |
| `Lz4Hadoop.Backfill` | parquet/src/compression.rs:1044-1051 | filling in the prefix keeps the buffer's length |
| `Lz4Hadoop.FillPrefix` | parquet/src/compression.rs:1046-1051 | the two header copies fill in the prefix as `Backfill` says |
| `Lz4Hadoop.Compressed` | parquet/src/compression.rs:1026-1054 | Hadoop `compress` never changes the bytes before `offset` |
| `Lz4Hadoop.Compress` | parquet/src/compression.rs:1026-1054 | the method's result and new buffer are those of `Lz4Hadoop.Compressed` |
| `Lz4Hadoop.Layout` | parquet/src/compression.rs:1038-1051 | after `compress`: the old bytes, the big-endian input length, the big-endian compressed length, then the LZ4 block, and the final length is `offset + 8 + ` the block length |
| `Lz4Hadoop.BackfillParts` | parquet/src/compression.rs:1046-1051 | filling in the prefix leaves the bytes before and after it where they were |
| `Lz4Hadoop.OneFrame` | parquet/src/compression.rs:1037-1051 | with both sizes below 2^32, the bytes `compress` appends are exactly one Hadoop frame |
| `Lz4Hadoop.WalkOneFrame` | parquet/src/compression.rs:983-991 | the walk recovers such a frame with the right count and the original bytes |
| `Lz4Hadoop.DecompressOneFrame` | parquet/src/compression.rs:959-1024 | decompressing one frame appends the original values after the caller's, with or without the fallback |
| `Lz4Hadoop.RoundTrip` | parquet/src/compression.rs:1257-1328 | Hadoop compress then decompress with the original size keeps the compressed prefix and appends the original values after the caller's |
| `Lz4Hadoop.NeedsSize` | parquet/src/compression.rs:973-980 | without `uncompress_size` the call fails and appends nothing |
| `Lz4Hadoop.WrongCount` | parquet/src/compression.rs:984-991 | a walk that succeeds with another count fails, appends nothing and tries no fallback |
| `Lz4Hadoop.NoRetry` | parquet/src/compression.rs:993 | without `backward_compatible_lz4` the walk's error is returned (unless conversion panics) and the LZ4 frame decoder is never consulted |
| `Lz4Hadoop.FallsBackToFrame` | parquet/src/compression.rs:996-1005 | with the fallback on, a successful LZ4 frame decode is the result, the caller's values are gone, and the internal buffer follows the decoded values |
| `Lz4Hadoop.FallsBackToBlock` | parquet/src/compression.rs:1006-1015 | when the LZ4 frame decoder fails too, the LZ4 raw codec runs on the emptied buffer and its outcome is the result |
| `Lz4Hadoop.IntendedKeepsPrior` | parquet/src/compression.rs:997-1008 | the corrected fallback keeps the caller's values on every path |
| `Lz4Hadoop.IntendedRecoversFramePage` | parquet/src/compression.rs:996-1021 | the corrected call recovers an LZ4 frame page after the caller's values when the walk rejects it |
| `Lz4Hadoop.FramePageAsWritten` | parquet/src/compression.rs:996-1021 | the call as written on that page: the caller's values are replaced and the internal buffer's bytes follow |
| `Lz4Hadoop.FallbackExample` | parquet/src/compression.rs:996-1021 | a concrete call as written: a caller's `7` is lost and four zero values are appended |
| `Lz4Hadoop.FallbackExampleIntended` | parquet/src/compression.rs:996-1021 | the same call corrected: the `7` is kept and nothing follows the decoded values |
| `Qcom.Decompressed` | parquet/src/compression.rs:1080-1135 | `q_compress` decompress only ever appends to the caller's buffer |
| `Qcom.Decompress` | parquet/src/compression.rs:1080-1135 | the method's result and new buffer are those of `Qcom.Decompressed` |
| `Qcom.Compressed` | parquet/src/compression.rs:1137-1231 | `q_compress` compress succeeds exactly for the types with an arm, panics otherwise, and never changes the bytes the output already held |
| `Qcom.Compress` | parquet/src/compression.rs:1137-1231 | the method's result and new buffer are those of `Qcom.Compressed` |
| `Qcom.RoundTrip` | parquet/src/compression.rs:1080-1231 | compress then decompress appends the original values, and the count is the whole output's length |
| `Factory.DefaultBuilder` | parquet/src/compression.rs:317-323 | the builder's default turns the fallback on |
| `Factory.SetBackwardCompatibleLz4` | parquet/src/compression.rs:334-337 | the setter replaces the switch |
| `Factory.Build` | parquet/src/compression.rs:339-343 | the options carry the builder's switch |
| `Factory.BuilderLaws` | parquet/src/compression.rs:306-343 | default options have the fallback on, and the last value set wins |
| `Factory.CreateCodec` | parquet/src/compression.rs:349-376 | `None` exactly for UNCOMPRESSED, an NYI error exactly for the unsupported kind, and LZ4 gets the option's switch |
| `Factory.Allowed` | parquet/src/compression.rs:91-101 | the default gate admits every buffer, since every tag is one of the ten listed |
| `Factory.QcomAllowed` | parquet/src/compression.rs:1235-1245 | the `q_compress` gate admits a buffer exactly when it is empty or its tag is not `u8`/`i8` |
| `Factory.AllowedAdmitsI8` | parquet/src/compression.rs:91-101 | the default gate admits `i8` although both conversions panic on it |
| `Factory.AllowedIntendedSound` | parquet/src/compression.rs:91-101 | the corrected gate admits a non-empty buffer exactly when it converts, and what it admits round-trips |
| `Factory.QcomAllowedGuardsCodec` | parquet/src/compression.rs:1235-1245 | on a non-empty buffer the `q_compress` gate admits exactly what `compress` accepts, and what it refuses panics in both directions |

## Left out

- Backend internals (snap, the LZ4 block and frame formats, `q_compress`,
  flate2, Brotli, Zstandard) are arbitrary functions. Their round-trip
  guarantees are hypotheses of the lemmas that need them.
- A backend that fails is taken to write nothing into its destination. Bytes a
  failing decoder may leave behind are not modelled.
- `GZipCodec`, `BrotliCodec` and `ZSTDCodec` (`Read`/`Write` stream plumbing
  around opaque backends) are only kinds `create_codec` can return.
- `Lz4Frame.Decompress`: every `decoder.read` is taken to fill the 4096-byte
  buffer until the stream ends. A read error is the decoder failing before
  anything is appended.
- `Lz4Frame.Compress`: the encoder's output is taken to depend only on the bytes
  fed, not on how they were split into 4096-byte writes. Errors from
  `write_all` are folded into the encoder's result.
- `f32`/`f64` are raw 32/64-bit patterns. Floating-point values are not modelled.
- The `dyn DataTypeConstraint` machinery is not modelled: boxing, `typename`
  dispatch, and the `as_any` downcasts whose `.expect` panics when a buffer's
  elements disagree with the example type. Typed buffers are homogeneous by
  construction.
- `get_a_type_example` is not used by the codec layer.
- `parquet/src/basic.rs` is not part of this model. The `Compression` kinds are
  those `create_codec` names, plus LZO as the kind it does not support.
- Feature gating (`cfg`) is not modelled: every optional codec is compiled in.
- `usize` arithmetic is unbounded. Overflow of `offset + len` or `total_len`
  is not modelled.
- `Lz4Hadoop.Decompressed`: keeping the caller's buffer is promised only
  without `backward_compatible_lz4`. With it, the code as written does not keep
  it (second and third rows under Findings).

## Findings

The codec operations model the code as written, quirks included, so that
each defect is visible in their laws. The corrected definitions
(`HadoopFrame.ParseIntended`, `Lz4Hadoop.DecompressedIntended`,
`Factory.AllowedIntended`) stand beside them, and each has its intended
property proved.

| source | as written | input that shows it | evidently intended | confidence | as-written member | corrected member |
|---|---|---|---|---|---|---|
| parquet/src/compression.rs:942-947 | after a frame the walk goes on only if the remaining input is longer than that frame's compressed size; otherwise it breaks and fails when input is left | a frame with a 16-byte payload followed by a frame with an 8-byte payload (16 bytes with headers) | go on after every frame while input remains | not executed | `HadoopLaws.ShrinkingFrameRejected` | `HadoopLaws.ParseIntendedFrames` |
| parquet/src/compression.rs:972 | the fallback truncates the caller's buffer to `output_len`, the length of the fresh internal buffer, which is 0 | `decompress` with the fallback on, a caller's buffer holding `[7]`, input rejected by the walk but accepted by the LZ4 frame decoder: the `7` is lost | truncate to the caller's own starting length | not executed | `Lz4Hadoop.FallbackExample` | `Lz4Hadoop.IntendedKeepsPrior` |
| parquet/src/compression.rs:1021 | after a fallback the zero-filled internal buffer is still converted and appended | the same call: four zero values follow the decoded `[1, 2, 3, 4]` | the fallback's outcome is the call's outcome, with nothing appended after it | not executed | `Lz4Hadoop.FramePageAsWritten` | `Lz4Hadoop.IntendedRecoversFramePage` |
| parquet/src/compression.rs:91-101 | the default gate admits `i8`, whose conversion arms are commented out, so both conversions panic | any non-empty `i8` buffer | admit exactly the tags the marshaller converts | not executed | `Factory.AllowedAdmitsI8` | `Factory.AllowedIntendedSound` |
