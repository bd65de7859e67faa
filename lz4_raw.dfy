/** `LZ4RawCodec`: a single LZ4 block, with no framing of its own. */
module Lz4Raw {
  import opened Results
  import opened Bytes
  import opened Vectors
  import opened Marshal
  import opened Backends
  import opened Adapters

  const NoSize := "LZ4RawCodec unsupported without uncompress_size"
  const WrongSize := "LZ4RawCodec uncompress_size is not the expected one"
  const HintTooLarge := "called `Result::unwrap()` on an `Err` value: TryFromIntError(())"

  /** `decompress`: `uncompress_size` is required and is the buffer size; it
      is passed to the block decoder as an `i32` hint (`unwrap` panics above
      `i32::MAX`); a decoded count other than the size returns at once; a
      decoder error still converts the zeroed buffer back. */
  function Decompressed(be: Backends, input: seq<byte>, t: Tag, size: Option<nat>, out: seq<int>): (e: Effect<nat, int>)
    ensures |e.buf| >= |out| && e.buf[..|out|] == out
  {
    if size.None? then Effect(Err(General(NoSize)), out)
    else if size.value > I32Max then Effect(Err(Panic(HintTooLarge)), out)
    else
      var req := size.value;
      match Fit(be.lz4BlockDecompress(input, req), req)
        case Ok(p) =>
          if |p| != req then Effect(Err(General(WrongSize)), out)
          else Deliver(t, p, Ok(req), out)
        case Err(e) => Deliver(t, Repeat<byte>(0, req), Err(e), out)
  }

  method Decompress(be: Backends, input: seq<byte>, t: Tag, size: Option<nat>, out: Vec<int>) returns (r: Result<nat>)
    modifies out
    ensures Effect(r, out.elems) == Decompressed(be, input, t, size, old(out.elems))
  {
    if size.None? {
      return Err(General(NoSize));
    }
    var requiredLen := size.value;
    var internal := Zeroed(requiredLen);
    if requiredLen > I32Max {
      return Err(Panic(HintTooLarge));
    }
    var decoded := Fit(be.lz4BlockDecompress(input, requiredLen), |internal.elems|);
    var retsize: Result<nat>;
    if decoded.Ok? {
      if |decoded.value| != requiredLen {
        return Err(General(WrongSize));
      }
      internal.CopyFrom(0, decoded.value);
      assert internal.elems == decoded.value;
      retsize := Ok(requiredLen);
    } else {
      retsize := Err(decoded.error);
    }
    r := ConvertBack(t, internal.elems, retsize, out);
  }

  /** `compress`: the values as bytes, a tail of `compress_bound` bytes, the
      block compressor writing into it, and the truncation to what it wrote. */
  function Compressed(be: Backends, t: Tag, xs: seq<int>, out: seq<byte>): (e: Effect<(), byte>)
    requires WellTyped(t, xs)
    ensures |e.buf| >= |out| && e.buf[..|out|] == out
  {
    match ToBytes(t, xs)
      case Err(e) => Effect(Err(e), out)
      case Ok(b) =>
        match be.lz4CompressBound(|b|)
          case Err(e) => Effect(Err(e), out)
          case Ok(req) => AppendTail(out, req, be.lz4BlockCompress(b))
  }

  method Compress(be: Backends, t: Tag, xs: seq<int>, out: Vec<byte>) returns (r: Result<()>)
    requires WellTyped(t, xs)
    modifies out
    ensures Effect(r, out.elems) == Compressed(be, t, xs, old(out.elems))
  {
    var b := ConvertIn(t, xs);
    if b.Err? {
      return Err(b.error);
    }
    var bound := be.lz4CompressBound(|b.value|);
    if bound.Err? {
      return Err(bound.error);
    }
    r := WriteTail(out, bound.value, be.lz4BlockCompress(b.value));
  }

  /** What the LZ4 library guarantees of its block functions: a compressed
      block fits in `compress_bound`, and decodes back when the size hint is
      the original byte count. */
  ghost predicate Inverse(be: Backends) {
    forall b: seq<byte> :: be.lz4BlockCompress(b).Ok? ==>
      && be.lz4CompressBound(|b|).Ok?
      && |be.lz4BlockCompress(b).value| <= be.lz4CompressBound(|b|).value
      && be.lz4BlockDecompress(be.lz4BlockCompress(b).value, |b|) == Ok(b)
  }

  /** Compress then decompress with the original byte count restores the
      values after whatever the output already held, and compressing leaves
      the compressed buffer's own prefix alone. */
  lemma RoundTrip(be: Backends, t: Tag, xs: seq<int>, prefix: seq<byte>, prior: seq<int>)
    requires Inverse(be) && WellTyped(t, xs) && t != I8
    requires be.lz4BlockCompress(ToBytes(t, xs).value).Ok?
    requires |xs| * Width(t) <= I32Max
    ensures var c := Compressed(be, t, xs, prefix);
      && c.result == Ok(())
      && c.buf[..|prefix|] == prefix
      && Decompressed(be, c.buf[|prefix|..], t, Some(|xs| * Width(t)), prior)
         == Effect(Ok(|xs| * Width(t)), prior + xs)
  {
    var b := ToBytes(t, xs).value;
    MarshalRoundTrip(t, xs, []);
  }

  /** Without `uncompress_size` there is nothing to decode into. */
  lemma NeedsSize(be: Backends, input: seq<byte>, t: Tag, out: seq<int>)
    ensures Decompressed(be, input, t, None, out) == Effect(Err(General(NoSize)), out)
  {
  }

  /** A block that decodes to fewer bytes than `uncompress_size` is an error,
      and nothing is appended (one that decodes to more does not fit the
      buffer, which is the decoder's own error). */
  lemma ShortBlockRejected(be: Backends, input: seq<byte>, t: Tag, req: nat, out: seq<int>)
    requires req <= I32Max
    requires be.lz4BlockDecompress(input, req).Ok? && |be.lz4BlockDecompress(input, req).value| < req
    ensures Decompressed(be, input, t, Some(req), out).result.Err?
    ensures Decompressed(be, input, t, Some(req), out).buf == out
  {
  }
}
