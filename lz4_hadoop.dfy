/** `LZ4HadoopCodec`: LZ4 blocks in Hadoop frames, with an optional fallback to
    the LZ4 frame format and then to a bare LZ4 block when the frames do not
    parse. */
module Lz4Hadoop {
  import opened Results
  import opened Bytes
  import opened Vectors
  import opened Marshal
  import opened Backends
  import opened Adapters
  import opened HadoopFrame
  import HadoopLaws
  import Lz4Frame
  import Lz4Raw

  const NoSize := "LZ4HadoopCodec unsupported without uncompress_size"
  const WrongSize := "LZ4HadoopCodec uncompress_size is not the expected one"

  /** The length the fallback truncates the caller's buffer back to: the
      length of the (fresh, empty) internal buffer, not of the caller's. */
  const OutputLen: nat := 0

  /** The internal buffer after the frame walk: what it wrote over `req`
      zeroed bytes. */
  function Internal(input: seq<byte>, req: nat, dec: BlockDecoder): (b: seq<byte>)
    ensures |b| == req
  {
    Overlay(Parse(input, req, dec).written, Repeat<byte>(0, req))
  }

  /** The fallback as written: the caller's buffer truncated to `OutputLen`,
      the LZ4 frame codec, and when that fails (other than by a panic) the
      buffer truncated again and the LZ4 block codec. Since `OutputLen` is
      zero, the outcome is that of the codecs on an empty buffer, whatever
      the caller's buffer held. */
  function Fallback(be: Backends, input: seq<byte>, t: Tag, size: Option<nat>, out: seq<int>): (e: Effect<nat, int>)
    ensures var frame := Lz4Frame.Decompressed(be, input, t, []);
      && (frame.result.Ok? || Panicked(frame.result) ==> e == frame)
      && (!(frame.result.Ok? || Panicked(frame.result)) ==> e == Lz4Raw.Decompressed(be, input, t, size, []))
  {
    var frame := Lz4Frame.Decompressed(be, input, t, Truncated(out, OutputLen));
    if frame.result.Ok? || Panicked(frame.result) then frame
    else Lz4Raw.Decompressed(be, input, t, size, Truncated(frame.buf, OutputLen))
  }

  /** `decompress` as written. `uncompress_size` is required; a walk that
      succeeds with another count returns at once; a failed walk is returned,
      or with `backward` handed to the fallback; and in every case that gets
      this far the internal buffer is then converted and appended. Without
      `backward` the call only appends, and succeeds only with a count of
      exactly `uncompress_size`. */
  function Decompressed(be: Backends, backward: bool, input: seq<byte>, t: Tag, size: Option<nat>, out: seq<int>): (e: Effect<nat, int>)
    ensures !backward ==> |e.buf| >= |out| && e.buf[..|out|] == out
    ensures !backward && e.result.Ok? ==> size == Some(e.result.value)
  {
    if size.None? then Effect(Err(General(NoSize)), out)
    else
      var req := size.value;
      var internal := Internal(input, req, be.lz4BlockDecompress);
      match Parse(input, req, be.lz4BlockDecompress).result
        case Ok(n) =>
          if n != req then Effect(Err(General(WrongSize)), out)
          else Deliver(t, internal, Ok(n), out)
        case Err(e) =>
          if !backward then Deliver(t, internal, Err(e), out)
          else
            var fallback := Fallback(be, input, t, size, out);
            if Panicked(fallback.result) then fallback
            else Deliver(t, internal, fallback.result, fallback.buf)
  }

  /** The fallback arm of `decompress`: truncate, try the LZ4 frame codec, and
      when it fails truncate again and try the LZ4 block codec. A panic in
      either unwinds past the arm. */
  method Retry(be: Backends, input: seq<byte>, t: Tag, size: Option<nat>, out: Vec<int>) returns (r: Result<nat>)
    modifies out
    ensures Effect(r, out.elems) == Fallback(be, input, t, size, old(out.elems))
  {
    out.Truncate(OutputLen);
    r := Lz4Frame.Decompress(be, input, t, size, out);
    if r.Ok? || Panicked(r) {
      return;
    }
    out.Truncate(OutputLen);
    r := Lz4Raw.Decompress(be, input, t, size, out);
  }

  method Decompress(be: Backends, backward: bool, input: seq<byte>, t: Tag, size: Option<nat>, out: Vec<int>)
    returns (r: Result<nat>)
    modifies out
    ensures Effect(r, out.elems) == Decompressed(be, backward, input, t, size, old(out.elems))
  {
    var outputLen := OutputLen;
    if size.None? {
      return Err(General(NoSize));
    }
    var requiredLen := size.value;
    var internal := new byte[outputLen + requiredLen](_ => 0);
    assert internal[..] == Repeat<byte>(0, requiredLen);
    var hadoop := TryDecompressHadoop(input, internal, be.lz4BlockDecompress);
    var retsize: Result<nat>;
    if hadoop.Ok? {
      if hadoop.value != requiredLen {
        return Err(General(WrongSize));
      }
      retsize := hadoop;
    } else if !backward {
      retsize := hadoop;
    } else {
      retsize := Retry(be, input, t, size, out);
      if Panicked(retsize) {
        return retsize;
      }
    }
    r := ConvertBack(t, internal[..], retsize, out);
  }

  /** The prefix of `PrefixLen` bytes at `offset` filled in with the
      decompressed size `n` and the count of bytes after the prefix, both as
      big-endian `u32` (a cast that keeps the low 32 bits). */
  function Backfill(s: seq<byte>, offset: nat, n: nat): (r: seq<byte>)
    requires offset + PrefixLen <= |s|
    ensures |r| == |s|
  {
    s[..offset] + BE(AsU32(n), SizeU32) + BE(AsU32(|s| - offset - PrefixLen), SizeU32) + s[offset + PrefixLen..]
  }

  /** The two copies into the prefix, one header at a time, fill it in as
      `Backfill` says. */
  lemma BackfillSteps(s: seq<byte>, offset: nat, a: seq<byte>, b: seq<byte>, s1: seq<byte>, s2: seq<byte>)
    requires offset + PrefixLen <= |s| && |a| == SizeU32 && |b| == SizeU32
    requires s1 == s[..offset] + a + s[offset + SizeU32..]
    requires s2 == s1[..offset + SizeU32] + b + s1[offset + PrefixLen..]
    ensures s2 == s[..offset] + a + b + s[offset + PrefixLen..]
  {
    assert s1[..offset + SizeU32] == s[..offset] + a;
    assert s1[offset + PrefixLen..] == s[offset + PrefixLen..];
  }

  /** `compress`: a zeroed prefix, the LZ4 block codec appending after it, and
      the prefix filled in. An error from the block codec is returned with
      whatever it left. */
  function Compressed(be: Backends, t: Tag, xs: seq<int>, out: seq<byte>): (e: Effect<(), byte>)
    requires WellTyped(t, xs)
    ensures |e.buf| >= |out| && e.buf[..|out|] == out
  {
    match ToBytes(t, xs)
      case Err(e) => Effect(Err(e), out)
      case Ok(b) =>
        var framed := out + Repeat<byte>(0, PrefixLen);
        var raw := Lz4Raw.Compressed(be, t, xs, framed);
        assert raw.buf[..|out|] == framed[..|out|] == out;
        if raw.result.Err? then raw
        else Effect(Ok(()), Backfill(raw.buf, |out|, |b|))
  }

  /** Writes the two big-endian headers into the prefix at `offset`. */
  method FillPrefix(out: Vec<byte>, offset: nat, n: nat)
    requires offset + PrefixLen <= |out.elems|
    modifies out
    ensures out.elems == Backfill(old(out.elems), offset, n)
  {
    ghost var raw := out.elems;
    var compressedSize := out.Len() - offset - PrefixLen;
    var uncompressed, compressed := BE(AsU32(n), SizeU32), BE(AsU32(compressedSize), SizeU32);
    out.CopyFrom(offset, uncompressed);
    ghost var half := out.elems;
    out.CopyFrom(offset + SizeU32, compressed);
    BackfillSteps(raw, offset, uncompressed, compressed, half, out.elems);
  }

  method Compress(be: Backends, t: Tag, xs: seq<int>, out: Vec<byte>) returns (r: Result<()>)
    requires WellTyped(t, xs)
    modifies out
    ensures Effect(r, out.elems) == Compressed(be, t, xs, old(out.elems))
  {
    var converted := ConvertIn(t, xs);
    if converted.Err? {
      return Err(converted.error);
    }
    var internal := converted.value;
    var offset := out.Len();
    out.Resize(offset + PrefixLen, 0);
    r := Lz4Raw.Compress(be, t, xs, out);
    if r.Err? {
      return;
    }
    FillPrefix(out, offset, |internal|);
    r := Ok(());
  }

  /** The layout `compress` leaves: the caller's bytes, the big-endian `u32`
      byte length of the marshalled input, the big-endian `u32` count of
      compressed bytes, and the LZ4 block itself. */
  lemma Layout(be: Backends, t: Tag, xs: seq<int>, out: seq<byte>)
    requires WellTyped(t, xs) && Compressed(be, t, xs, out).result.Ok?
    ensures var e, c := Compressed(be, t, xs, out), be.lz4BlockCompress(ToBytes(t, xs).value).value;
      && |e.buf| == |out| + PrefixLen + |c|
      && e.buf[..|out|] == out
      && e.buf[|out|..|out| + SizeU32] == BE(AsU32(|xs| * Width(t)), SizeU32)
      && e.buf[|out| + SizeU32..|out| + PrefixLen] == BE(AsU32(|c|), SizeU32)
      && e.buf[|out| + PrefixLen..] == c
  {
    var b := ToBytes(t, xs).value;
    var framed := out + Repeat<byte>(0, PrefixLen);
    var raw := Lz4Raw.Compressed(be, t, xs, framed);
    var c := be.lz4BlockCompress(b).value;
    assert raw.buf[|framed|..] == c;
    SplitAt(raw.buf, |framed|);
    BackfillParts(raw.buf, out, Repeat<byte>(0, PrefixLen), c, |b|);
  }

  /** Filling in the prefix of `out + z + c` leaves `out` and `c` where they
      were and puts the two headers between them. */
  lemma BackfillParts(s: seq<byte>, out: seq<byte>, z: seq<byte>, c: seq<byte>, n: nat)
    requires |z| == PrefixLen && s == out + z + c
    ensures var e := Backfill(s, |out|, n);
      && |e| == |out| + PrefixLen + |c|
      && e[..|out|] == out
      && e[|out|..|out| + SizeU32] == BE(AsU32(n), SizeU32)
      && e[|out| + SizeU32..|out| + PrefixLen] == BE(AsU32(|c|), SizeU32)
      && e[|out| + PrefixLen..] == c
  {
    var a, m := BE(AsU32(n), SizeU32), BE(AsU32(|c|), SizeU32);
    assert s[..|out|] == out && s[|out| + PrefixLen..] == c;
    assert Backfill(s, |out|, n) == out + (a + (m + c));
    ConcatParts(out, a + (m + c));
    ConcatParts(a, m + c);
    ConcatParts(m, c);
  }

  /** With both sizes below 2^32, the bytes `compress` appends are exactly one
      Hadoop frame. */
  lemma OneFrame(be: Backends, t: Tag, xs: seq<int>, out: seq<byte>)
    requires WellTyped(t, xs) && Compressed(be, t, xs, out).result.Ok?
    requires |xs| * Width(t) < U32Modulus
    requires |be.lz4BlockCompress(ToBytes(t, xs).value).value| < U32Modulus
    ensures Compressed(be, t, xs, out).buf[|out|..]
         == HadoopLaws.Serialize([HadoopLaws.Frame(|xs| * Width(t), be.lz4BlockCompress(ToBytes(t, xs).value).value)])
  {
    var e, c := Compressed(be, t, xs, out), be.lz4BlockCompress(ToBytes(t, xs).value).value;
    var f := HadoopLaws.Frame(|xs| * Width(t), c);
    Layout(be, t, xs, out);
    var tail := e.buf[|out|..];
    assert tail == tail[..SizeU32] + tail[SizeU32..PrefixLen] + tail[PrefixLen..];
    assert HadoopLaws.Serialize([f]) == HadoopLaws.FrameBytes(f) + HadoopLaws.Serialize([]);
  }

  /** The frame walk recovers a single frame holding an LZ4 block. */
  lemma WalkOneFrame(be: Backends, b: seq<byte>)
    requires Lz4Raw.Inverse(be) && be.lz4BlockCompress(b).Ok?
    requires |b| <= I32Max && |be.lz4BlockCompress(b).value| < U32Modulus
    ensures var x := HadoopLaws.Serialize([HadoopLaws.Frame(|b|, be.lz4BlockCompress(b).value)]);
      && Parse(x, |b|, be.lz4BlockDecompress).result == Ok(|b|)
      && Internal(x, |b|, be.lz4BlockDecompress) == b
  {
    var f := HadoopLaws.Frame(|b|, be.lz4BlockCompress(b).value);
    HadoopLaws.SingleFrameAccepted(f, b, be.lz4BlockDecompress);
  }

  /** A single frame holding the LZ4 block of a typed buffer decompresses
      back to that buffer, with or without the fallback. */
  lemma DecompressOneFrame(be: Backends, backward: bool, t: Tag, xs: seq<int>, prior: seq<int>)
    requires Lz4Raw.Inverse(be) && WellTyped(t, xs) && t != I8
    requires be.lz4BlockCompress(ToBytes(t, xs).value).Ok?
    requires |xs| * Width(t) <= I32Max
    requires |be.lz4BlockCompress(ToBytes(t, xs).value).value| < U32Modulus
    ensures var b := ToBytes(t, xs).value;
      var x := HadoopLaws.Serialize([HadoopLaws.Frame(|b|, be.lz4BlockCompress(b).value)]);
      Decompressed(be, backward, x, t, Some(|b|), prior) == Effect(Ok(|b|), prior + xs)
  {
    WalkOneFrame(be, ToBytes(t, xs).value);
    MarshalRoundTrip(t, xs, []);
  }

  /** Compress then decompress with the original byte count, with or without
      the fallback, restores the values after whatever the output held. */
  lemma RoundTrip(be: Backends, backward: bool, t: Tag, xs: seq<int>, prefix: seq<byte>, prior: seq<int>)
    requires Lz4Raw.Inverse(be) && WellTyped(t, xs) && t != I8
    requires be.lz4BlockCompress(ToBytes(t, xs).value).Ok?
    requires |xs| * Width(t) <= I32Max
    requires |be.lz4BlockCompress(ToBytes(t, xs).value).value| < U32Modulus
    ensures var c := Compressed(be, t, xs, prefix);
      && c.result.Ok?
      && c.buf[..|prefix|] == prefix
      && Decompressed(be, backward, c.buf[|prefix|..], t, Some(|xs| * Width(t)), prior)
         == Effect(Ok(|xs| * Width(t)), prior + xs)
  {
    OneFrame(be, t, xs, prefix);
    Layout(be, t, xs, prefix);
    DecompressOneFrame(be, backward, t, xs, prior);
  }

  /** Without `uncompress_size` the call fails before anything is appended. */
  lemma NeedsSize(be: Backends, backward: bool, input: seq<byte>, t: Tag, out: seq<int>)
    ensures Decompressed(be, backward, input, t, None, out) == Effect(Err(General(NoSize)), out)
  {
  }

  /** A walk that succeeds with a count other than `uncompress_size` is an
      error with nothing appended, and no fallback is tried. */
  lemma WrongCount(be: Backends, backward: bool, input: seq<byte>, t: Tag, req: nat, out: seq<int>)
    requires Parse(input, req, be.lz4BlockDecompress).result.Ok?
    requires Parse(input, req, be.lz4BlockDecompress).result.value != req
    ensures Decompressed(be, backward, input, t, Some(req), out) == Effect(Err(General(WrongSize)), out)
  {
  }

  /** Without `backward`, a failed walk's error is the result (unless
      converting the internal buffer panics), and the LZ4 frame decoder is
      never consulted. */
  lemma NoRetry(be: Backends, frameDecode: seq<byte> -> Result<seq<byte>>, input: seq<byte>, t: Tag, req: nat, out: seq<int>)
    requires Parse(input, req, be.lz4BlockDecompress).result.Err?
    ensures var d := Decompressed(be, false, input, t, Some(req), out);
      && (d.result == Parse(input, req, be.lz4BlockDecompress).result || Panicked(d.result))
      && Decompressed(be.(lz4FrameDecode := frameDecode), false, input, t, Some(req), out) == d
  {
  }

  /** With `backward`, a failed walk goes to the LZ4 frame codec, whose
      success is the result; but the caller's buffer was first truncated to
      `OutputLen`, and the internal buffer is still appended afterwards. */
  lemma FallsBackToFrame(be: Backends, input: seq<byte>, t: Tag, req: nat, out: seq<int>)
    requires Parse(input, req, be.lz4BlockDecompress).result.Err?
    requires be.lz4FrameDecode(input).Ok? && FromBytes(t, be.lz4FrameDecode(input).value).Ok?
    requires FromBytes(t, Internal(input, req, be.lz4BlockDecompress)).Ok?
    ensures Decompressed(be, true, input, t, Some(req), out)
         == Effect(Ok(|be.lz4FrameDecode(input).value|),
                   FromBytes(t, be.lz4FrameDecode(input).value).value
                   + FromBytes(t, Internal(input, req, be.lz4BlockDecompress)).value)
  {
    assert Truncated(out, OutputLen) == [];
  }

  /** With `backward`, when the frame decoder fails too, the LZ4 block codec
      is tried next, again on the truncated buffer, and its outcome is the
      result. */
  lemma FallsBackToBlock(be: Backends, input: seq<byte>, t: Tag, req: nat, out: seq<int>)
    requires Parse(input, req, be.lz4BlockDecompress).result.Err?
    requires be.lz4FrameDecode(input).Err? && !Panicked(be.lz4FrameDecode(input))
    requires !Panicked(Lz4Raw.Decompressed(be, input, t, Some(req), []).result)
    requires FromBytes(t, Internal(input, req, be.lz4BlockDecompress)).Ok?
    ensures var raw := Lz4Raw.Decompressed(be, input, t, Some(req), []);
      Decompressed(be, true, input, t, Some(req), out)
        == Effect(raw.result, raw.buf + FromBytes(t, Internal(input, req, be.lz4BlockDecompress)).value)
  {
    assert Truncated(out, OutputLen) == [];
    var frame := Lz4Frame.Decompressed(be, input, t, []);
    assert frame == Effect(Err(be.lz4FrameDecode(input).error), []);
    assert Truncated(frame.buf, OutputLen) == [];
  }

  /** The fallback as evidently intended: each attempt starts from the
      caller's buffer as it was. */
  function FallbackIntended(be: Backends, input: seq<byte>, t: Tag, size: Option<nat>, out: seq<int>): Effect<nat, int> {
    var frame := Lz4Frame.Decompressed(be, input, t, Truncated(out, |out|));
    if frame.result.Ok? || Panicked(frame.result) then frame
    else Lz4Raw.Decompressed(be, input, t, size, Truncated(frame.buf, |out|))
  }

  /** `decompress` as evidently intended: the fallback truncates to the
      caller's own starting length, and its outcome is the call's outcome. */
  function DecompressedIntended(be: Backends, backward: bool, input: seq<byte>, t: Tag, size: Option<nat>, out: seq<int>): Effect<nat, int> {
    if size.None? then Effect(Err(General(NoSize)), out)
    else
      var req := size.value;
      var internal := Internal(input, req, be.lz4BlockDecompress);
      match Parse(input, req, be.lz4BlockDecompress).result
        case Ok(n) =>
          if n != req then Effect(Err(General(WrongSize)), out)
          else Deliver(t, internal, Ok(n), out)
        case Err(e) =>
          if !backward then Deliver(t, internal, Err(e), out)
          else FallbackIntended(be, input, t, size, out)
  }

  /** The corrected call only ever appends: whatever the caller's buffer held
      is still there, on every path. */
  lemma IntendedKeepsPrior(be: Backends, backward: bool, input: seq<byte>, t: Tag, size: Option<nat>, out: seq<int>)
    ensures var d := DecompressedIntended(be, backward, input, t, size, out);
      |d.buf| >= |out| && d.buf[..|out|] == out
  {
    assert Truncated(out, |out|) == out;
    var frame := Lz4Frame.Decompressed(be, input, t, out);
    assert |frame.buf| >= |out| && frame.buf[..|out|] == out;
    if !(frame.result.Ok? || Panicked(frame.result)) {
      assert frame.buf == out;
      assert Truncated(frame.buf, |out|) == out;
    }
  }

  /** The corrected call recovers a page written by the LZ4 frame codec, after
      whatever the caller's buffer held, whenever the Hadoop walk rejects it. */
  lemma IntendedRecoversFramePage(be: Backends, t: Tag, xs: seq<int>, prior: seq<int>, req: nat)
    requires Lz4Frame.Inverse(be) && WellTyped(t, xs) && t != I8
    requires be.lz4FrameEncode(ToBytes(t, xs).value).result.Ok?
    requires Parse(Lz4Frame.Compressed(be, t, xs, []).buf, req, be.lz4BlockDecompress).result.Err?
    ensures DecompressedIntended(be, true, Lz4Frame.Compressed(be, t, xs, []).buf, t, Some(req), prior)
         == Effect(Ok(|xs| * Width(t)), prior + xs)
  {
    var page := Lz4Frame.Compressed(be, t, xs, []).buf;
    Lz4Frame.RoundTrip(be, t, xs, [], prior);
    assert page[0..] == page;
    assert Truncated(prior, |prior|) == prior;
  }

  /** The call as written on the same page: the fallback's values replace the
      caller's, and the internal buffer's `req` bytes follow them. */
  lemma FramePageAsWritten(be: Backends, t: Tag, xs: seq<int>, prior: seq<int>, req: nat)
    requires Lz4Frame.Inverse(be) && WellTyped(t, xs) && t != I8
    requires be.lz4FrameEncode(ToBytes(t, xs).value).result.Ok?
    requires Parse(Lz4Frame.Compressed(be, t, xs, []).buf, req, be.lz4BlockDecompress).result.Err?
    requires req % Width(t) == 0
    ensures var page := Lz4Frame.Compressed(be, t, xs, []).buf;
      var d := Decompressed(be, true, page, t, Some(req), prior);
      && d.result == Ok(|xs| * Width(t))
      && d.buf == xs + FromBytes(t, Internal(page, req, be.lz4BlockDecompress)).value
  {
    var page := Lz4Frame.Compressed(be, t, xs, []).buf;
    var internal := Internal(page, req, be.lz4BlockDecompress);
    Lz4Frame.RoundTrip(be, t, xs, [], []);
    assert page[0..] == page;
    assert FromBytes(t, internal).Ok?;
    FallsBackToFrame(be, page, t, req, prior);
    assert be.lz4FrameDecode(page) == Ok(ToBytes(t, xs).value);
    MarshalRoundTrip(t, xs, []);
  }

  /** Backends whose LZ4 frame decoder yields `[1, 2, 3, 4]` for any input;
      every other entry is an identity or a constant. */
  const FrameYields1234: Backends := Backends(
    n => n, b => Ok(b), b => Ok(|b|), b => Ok(b),
    n => Ok(n), b => Ok(b), (b, h) => Ok(b),
    b => Effect(Ok(()), b), b => Ok([1, 2, 3, 4]),
    (t, xs) => [], (t, b) => Ok([]))

  /** A one-byte input the walk rejects and a fallback that decodes four
      bytes: the internal buffer is then four zero bytes. */
  lemma FallbackExampleSetup()
    ensures Parse([9], 4, FrameYields1234.lz4BlockDecompress).result.Err?
    ensures Internal([9], 4, FrameYields1234.lz4BlockDecompress) == [0, 0, 0, 0]
    ensures FromBytes(U8, [0, 0, 0, 0]) == Ok([0, 0, 0, 0])
    ensures FromBytes(U8, [1, 2, 3, 4]) == Ok([1, 2, 3, 4])
  {
    assert Parse([9], 4, FrameYields1234.lz4BlockDecompress) == Final(1);
    U8PassThrough([], [1, 2, 3, 4]);
    U8PassThrough([], [0, 0, 0, 0]);
  }

  /** With a caller's buffer holding `7`, as written, the `7` is gone and four
      zero values from the internal buffer follow the decoded ones. */
  lemma FallbackExample()
    ensures Decompressed(FrameYields1234, true, [9], U8, Some(4), [7]) == Effect(Ok(4), [1, 2, 3, 4, 0, 0, 0, 0])
  {
    FallbackExampleSetup();
    FallsBackToFrame(FrameYields1234, [9], U8, 4, [7]);
  }

  /** The same call as intended: the `7` is kept and nothing follows. */
  lemma FallbackExampleIntended()
    ensures DecompressedIntended(FrameYields1234, true, [9], U8, Some(4), [7]) == Effect(Ok(4), [7, 1, 2, 3, 4])
  {
    FallbackExampleSetup();
    assert Truncated([7], 1) == [7];
  }
}
