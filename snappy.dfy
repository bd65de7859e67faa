/** `SnappyCodec`: the raw Snappy format behind the typed adapter. */
module Snappy {
  import opened Results
  import opened Bytes
  import opened Vectors
  import opened Marshal
  import opened Backends
  import opened Adapters

  /** `decompress`: the buffer size is `uncompress_size` or, without one, the
      length the Snappy header announces; the decoder writes into that many
      zeroed bytes; the whole buffer is converted back even when the decoder
      failed; the decoder's byte count is returned. */
  function Decompressed(be: Backends, input: seq<byte>, t: Tag, size: Option<nat>, out: seq<int>): (e: Effect<nat, int>)
    ensures |e.buf| >= |out| && e.buf[..|out|] == out
  {
    var len := if size.Some? then Ok(size.value) else be.snappyDecompressLen(input);
    if len.Err? then Effect(Err(len.error), out)
    else match Fit(be.snappyDecompress(input), len.value)
      case Ok(p) => Deliver(t, Overlay(p, Repeat<byte>(0, len.value)), Ok(|p|), out)
      case Err(e) => Deliver(t, Repeat<byte>(0, len.value), Err(e), out)
  }

  method Decompress(be: Backends, input: seq<byte>, t: Tag, size: Option<nat>, out: Vec<int>) returns (r: Result<nat>)
    modifies out
    ensures Effect(r, out.elems) == Decompressed(be, input, t, size, old(out.elems))
  {
    var len: nat;
    if size.Some? {
      len := size.value;
    } else {
      var announced := be.snappyDecompressLen(input);
      if announced.Err? {
        return Err(announced.error);
      }
      len := announced.value;
    }
    var internal := Zeroed(len);
    var decoded := Fit(be.snappyDecompress(input), len);
    var retsize: Result<nat>;
    if decoded.Ok? {
      internal.CopyFrom(0, decoded.value);
      assert internal.elems == Overlay(decoded.value, Repeat<byte>(0, len));
      retsize := Ok(|decoded.value|);
    } else {
      retsize := Err(decoded.error);
    }
    r := ConvertBack(t, internal.elems, retsize, out);
  }

  /** `compress`: the values as bytes, then the encoder writing into a tail of
      `max_compress_len` bytes, then the truncation to what it wrote. */
  function Compressed(be: Backends, t: Tag, xs: seq<int>, out: seq<byte>): (e: Effect<(), byte>)
    requires WellTyped(t, xs)
    ensures |e.buf| >= |out| && e.buf[..|out|] == out
  {
    match ToBytes(t, xs)
      case Err(e) => Effect(Err(e), out)
      case Ok(b) => AppendTail(out, be.snappyMaxCompressLen(|b|), be.snappyCompress(b))
  }

  method Compress(be: Backends, t: Tag, xs: seq<int>, out: Vec<byte>) returns (r: Result<()>)
    requires WellTyped(t, xs)
    modifies out
    ensures Effect(r, out.elems) == Compressed(be, t, xs, old(out.elems))
  {
    var b := ConvertIn(t, xs);
    if b.Err? {
      return Err(b.error);
    }
    r := WriteTail(out, be.snappyMaxCompressLen(|b.value|), be.snappyCompress(b.value));
  }

  /** What the Snappy library guarantees of its encoder and decoder: the
      encoder fits in `max_compress_len`, and the decoder, and the length in
      the header, give back what was encoded. */
  ghost predicate Inverse(be: Backends) {
    forall b: seq<byte> :: be.snappyCompress(b).Ok? ==>
      && |be.snappyCompress(b).value| <= be.snappyMaxCompressLen(|b|)
      && be.snappyDecompress(be.snappyCompress(b).value) == Ok(b)
      && be.snappyDecompressLen(be.snappyCompress(b).value) == Ok(|b|)
  }

  /** Compress then decompress, with or without `uncompress_size`, restores
      the values after whatever the output already held, reports the byte
      count, and leaves the compressed buffer's own prefix alone. */
  lemma RoundTrip(be: Backends, t: Tag, xs: seq<int>, prefix: seq<byte>, prior: seq<int>, withSize: bool)
    requires Inverse(be) && WellTyped(t, xs) && t != I8
    requires be.snappyCompress(ToBytes(t, xs).value).Ok?
    ensures var c := Compressed(be, t, xs, prefix);
      && c.result == Ok(())
      && c.buf[..|prefix|] == prefix
      && Decompressed(be, c.buf[|prefix|..], t, if withSize then Some(|xs| * Width(t)) else None, prior)
         == Effect(Ok(|xs| * Width(t)), prior + xs)
  {
    var b := ToBytes(t, xs).value;
    var z := be.snappyCompress(b).value;
    assert Overlay(b, Repeat<byte>(0, |b|)) == b;
    MarshalRoundTrip(t, xs, []);
  }
}
