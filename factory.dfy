/** Codec selection: the options builder, `create_codec`, and the `allowed`
    gates that say which typed buffers a codec accepts. */
module Factory {
  import opened Results
  import opened Bytes
  import opened Marshal
  import opened Backends
  import Qcom

  /** The compression kinds a column chunk can name. */
  datatype Compression = Uncompressed | Snappy | Gzip | Lzo | Brotli | Lz4 | Zstd | Lz4Raw | Lz4Frame | Qcom

  /** The codec `create_codec` builds; the Hadoop LZ4 codec carries its
      fallback switch. */
  datatype Codec = BrotliCodec | GZipCodec | SnappyCodec | Lz4HadoopCodec(backwardCompatibleLz4: bool)
                 | ZstdCodec | Lz4RawCodec | Lz4Codec | QcomCodec

  datatype CodecOptions = CodecOptions(backwardCompatibleLz4: bool)

  datatype CodecOptionsBuilder = CodecOptionsBuilder(backwardCompatibleLz4: bool)

  /** `CodecOptionsBuilder::default()`: the fallback is on. */
  function DefaultBuilder(): (b: CodecOptionsBuilder)
    ensures b.backwardCompatibleLz4
  {
    CodecOptionsBuilder(true)
  }

  /** `set_backward_compatible_lz4`: replaces the switch. */
  function SetBackwardCompatibleLz4(b: CodecOptionsBuilder, value: bool): (r: CodecOptionsBuilder)
    ensures r.backwardCompatibleLz4 == value
  {
    b.(backwardCompatibleLz4 := value)
  }

  /** `build`: copies the switch into the options. */
  function Build(b: CodecOptionsBuilder): (o: CodecOptions)
    ensures o.backwardCompatibleLz4 == b.backwardCompatibleLz4
  {
    CodecOptions(b.backwardCompatibleLz4)
  }

  /** `CodecOptions::default()`: the default builder, built. */
  function DefaultOptions(): CodecOptions {
    Build(DefaultBuilder())
  }

  /** The options always carry the last value set, and the default one when
      none was set. */
  lemma BuilderLaws(b: CodecOptionsBuilder, v: bool, w: bool)
    ensures DefaultOptions().backwardCompatibleLz4
    ensures Build(SetBackwardCompatibleLz4(SetBackwardCompatibleLz4(b, v), w)) == CodecOptions(w)
  {
  }

  const NotSupported := "The codec type is not supported yet"

  /** `create_codec`, with every optional codec compiled in. */
  function CreateCodec(c: Compression, options: CodecOptions): (r: Result<Option<Codec>>)
    ensures r == Ok(None) <==> c == Uncompressed
    ensures r.Err? <==> c == Lzo
    ensures r.Err? ==> r.error.Nyi?
    ensures c == Lz4 ==> r == Ok(Some(Lz4HadoopCodec(options.backwardCompatibleLz4)))
  {
    match c
      case Brotli => Ok(Some(BrotliCodec))
      case Gzip => Ok(Some(GZipCodec))
      case Snappy => Ok(Some(SnappyCodec))
      case Lz4 => Ok(Some(Lz4HadoopCodec(options.backwardCompatibleLz4)))
      case Zstd => Ok(Some(ZstdCodec))
      case Lz4Raw => Ok(Some(Lz4RawCodec))
      case Lz4Frame => Ok(Some(Lz4Codec))
      case Qcom => Ok(Some(QcomCodec))
      case Uncompressed => Ok(None)
      case Lzo => Err(Nyi(NotSupported))
  }

  /** The default `Codec::allowed`, on a buffer of `n` values tagged `t`: an
      empty buffer, or any of the ten element types. Every tag is one of the
      ten, so the default gate admits every buffer. */
  function Allowed(t: Tag, n: nat): (ok: bool)
    ensures ok
  {
    n == 0 ||
    match t
      case U8 | U16 | U32 | U64 => true
      case I8 | I16 | I32 | I64 => true
      case F32 | F64 => true
  }

  /** `QcomCodec::allowed`: `u8` and `i8` are refused unless the buffer is
      empty. */
  function QcomAllowed(t: Tag, n: nat): (ok: bool)
    ensures ok <==> n == 0 || Qcom.Supported(t)
  {
    n == 0 ||
    match t
      case U16 | U32 | U64 => true
      case I16 | I32 | I64 => true
      case F32 | F64 => true
      case _ => false
  }

  /** The gate of the byte-level codecs admits every type, `i8` included,
      although the marshaller panics on `i8` in both directions. */
  lemma AllowedAdmitsI8(xs: seq<int>, bs: seq<byte>)
    requires WellTyped(I8, xs)
    ensures Allowed(I8, |xs|)
    ensures Panicked(ToBytes(I8, xs)) && Panicked(FromBytes(I8, bs))
  {
  }

  /** The gate as evidently intended: exactly the types the marshaller can
      convert. */
  function AllowedIntended(t: Tag, n: nat): bool {
    n == 0 || t != I8
  }

  /** What the intended gate admits with values in it converts both ways, and
      what it refuses panics. */
  lemma AllowedIntendedSound(t: Tag, xs: seq<int>)
    requires WellTyped(t, xs) && xs != []
    ensures AllowedIntended(t, |xs|) <==> ToBytes(t, xs).Ok?
    ensures AllowedIntended(t, |xs|) ==> FromBytes(t, ToBytes(t, xs).value) == Ok(xs)
  {
    if t != I8 {
      MarshalRoundTrip(t, xs, []);
    }
  }

  /** The `q_compress` gate guards the codec: a non-empty buffer it admits
      compresses without the unsupported-type panic, and one it refuses would
      panic in both directions. */
  lemma QcomAllowedGuardsCodec(be: Backends, t: Tag, xs: seq<int>, input: seq<byte>, out: seq<byte>, prior: seq<int>)
    requires xs != []
    ensures QcomAllowed(t, |xs|) <==> Qcom.Compressed(be, t, xs, out).result.Ok?
    ensures !QcomAllowed(t, |xs|) ==>
      Panicked(Qcom.Compressed(be, t, xs, out).result) && Panicked(Qcom.Decompressed(be, input, t, prior).result)
  {
  }
}
