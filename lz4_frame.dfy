/** `LZ4Codec`: the LZ4 frame format, streamed through a 4096-byte buffer in
    both directions. */
module Lz4Frame {
  import opened Results
  import opened Bytes
  import opened Vectors
  import opened Marshal
  import opened Backends
  import opened Adapters

  const BufferSize: nat := 4096

  function Min(a: nat, b: nat): nat {
    if a < b then a else b
  }

  /** `decompress`: every byte the frame decoder yields, converted back to
      values, with their count as the result; `uncompress_size` is ignored. A
      decoder error returns before anything is appended. */
  function Decompressed(be: Backends, input: seq<byte>, t: Tag, out: seq<int>): (e: Effect<nat, int>)
    ensures |e.buf| >= |out| && e.buf[..|out|] == out
  {
    match be.lz4FrameDecode(input)
      case Err(e) => Effect(Err(e), out)
      case Ok(d) => Deliver(t, d, Ok(|d|), out)
  }

  /** The read loop: `decoder.read` fills at most a buffer's worth, a zero
      read ends the stream, and each chunk is appended to the internal buffer
      and counted. */
  method Decompress(be: Backends, input: seq<byte>, t: Tag, size: Option<nat>, out: Vec<int>) returns (r: Result<nat>)
    modifies out
    ensures Effect(r, out.elems) == Decompressed(be, input, t, old(out.elems))
  {
    var internal := new Vec<byte>([]);
    var stream := be.lz4FrameDecode(input);
    if stream.Err? {
      return Err(stream.error);
    }
    var d := stream.value;
    var buffer := new byte[BufferSize](_ => 0);
    var pos, totalLen := 0, 0;
    while true
      invariant pos == totalLen <= |d|
      invariant internal.elems == d[..pos]
      invariant out.elems == old(out.elems)
      decreases |d| - pos
    {
      var len := Min(BufferSize, |d| - pos);
      forall i | 0 <= i < len {
        buffer[i] := d[pos + i];
      }
      if len == 0 {
        break;
      }
      totalLen := totalLen + len;
      internal.Extend(buffer[..len]);
      assert d[..pos + len] == d[..pos] + d[pos..pos + len];
      pos := pos + len;
    }
    assert internal.elems == d;
    r := ConvertBack(t, internal.elems, Ok(totalLen), out);
  }

  /** `compress`: the values as bytes, fed to a frame encoder that writes onto
      the end of `out`, then `finish`. The encoder's output is taken to depend
      only on the bytes fed, not on how they were split. */
  function Compressed(be: Backends, t: Tag, xs: seq<int>, out: seq<byte>): (e: Effect<(), byte>)
    requires WellTyped(t, xs)
    ensures |e.buf| >= |out| && e.buf[..|out|] == out
  {
    match ToBytes(t, xs)
      case Err(e) => Effect(Err(e), out)
      case Ok(b) =>
        ConcatParts(out, be.lz4FrameEncode(b).buf);
        Effect(be.lz4FrameEncode(b).result, out + be.lz4FrameEncode(b).buf)
  }

  /** The feed loop: one buffer's worth at a time, at least once, until the
      whole input has been written. */
  method Compress(be: Backends, t: Tag, xs: seq<int>, out: Vec<byte>) returns (r: Result<()>)
    requires WellTyped(t, xs)
    modifies out
    ensures Effect(r, out.elems) == Compressed(be, t, xs, old(out.elems))
  {
    var converted := ConvertIn(t, xs);
    if converted.Err? {
      return Err(converted.error);
    }
    var b := converted.value;
    var fed: seq<byte> := [];
    var from := 0;
    while true
      invariant from <= |b| && fed == b[..from]
      decreases |b| - from
    {
      var to := Min(from + BufferSize, |b|);
      assert b[..to] == b[..from] + b[from..to];
      fed := fed + b[from..to];
      from := from + BufferSize;
      if from >= |b| {
        assert fed == b;
        break;
      }
    }
    var encoded := be.lz4FrameEncode(fed);
    out.Extend(encoded.buf);
    r := encoded.result;
  }

  /** What the LZ4 library guarantees of its frame encoder and decoder. */
  ghost predicate Inverse(be: Backends) {
    forall b: seq<byte> :: be.lz4FrameEncode(b).result.Ok? ==> be.lz4FrameDecode(be.lz4FrameEncode(b).buf) == Ok(b)
  }

  /** Compress then decompress restores the values after whatever the output
      already held and returns the byte count, and compressing only appends. */
  lemma RoundTrip(be: Backends, t: Tag, xs: seq<int>, prefix: seq<byte>, prior: seq<int>)
    requires Inverse(be) && WellTyped(t, xs) && t != I8
    requires be.lz4FrameEncode(ToBytes(t, xs).value).result.Ok?
    ensures var c := Compressed(be, t, xs, prefix);
      && c.result.Ok?
      && c.buf[..|prefix|] == prefix
      && Decompressed(be, c.buf[|prefix|..], t, prior) == Effect(Ok(|xs| * Width(t)), prior + xs)
  {
    var b := ToBytes(t, xs).value;
    ConcatParts(prefix, be.lz4FrameEncode(b).buf);
    MarshalRoundTrip(t, xs, []);
  }
}
