/** The Hadoop LZ4 container: a sequence of frames, each a big-endian `u32`
    decompressed size, a big-endian `u32` compressed size, and that many bytes
    of LZ4 block payload; and `try_decompress_hadoop`, which walks it. */
module HadoopFrame {
  import opened Results
  import opened Bytes
  import opened Backends
  import opened Vectors

  const SizeU32: nat := 4
  const PrefixLen: nat := 8

  const NotEnoughBytes := "Not enough bytes for Hadoop frame"
  const NotEnoughOutput := "Not enough bytes to hold advertised output"
  const UnexpectedSize := "Unexpected decompressed size"
  const NotAllConsumed := "Not all input are consumed"

  /** How a parse ends: the count it returns, and the bytes the block decoder
      wrote, contiguously from the start of the output slice. */
  datatype Outcome = Outcome(result: Result<nat>, written: seq<byte>)

  /** The check after the loop: success only when no input is left. */
  function Final(remaining: nat): Outcome {
    Outcome(if remaining == 0 then Ok(0) else Err(Io(NotAllConsumed)), [])
  }

  /** A frame of `n` bytes, written as `p`, followed by the rest of the parse. */
  function Prepend(n: nat, p: seq<byte>, o: Outcome): Outcome {
    Outcome(if o.result.Ok? then Ok(n + o.result.value) else o.result, p + o.written)
  }

  /** The block decoder called on one frame's payload, into an output slice of
      `capacity` bytes with `capacity as i32` as its size hint. */
  function DecodeFrame(dec: BlockDecoder, payload: seq<byte>, capacity: nat): (r: Result<seq<byte>>)
    ensures r.Ok? ==> |r.value| <= capacity
    ensures capacity <= I32Max && dec(payload, capacity).Ok? && |dec(payload, capacity).value| <= capacity
            ==> r == dec(payload, capacity)
  {
    Fit(dec(payload, AsI32(capacity)), capacity)
  }

  /** What one pass of the loop makes of a frame at the front of `x`: the parse
      stops with an error, or the frame decoded to `p` and the walk may go on. */
  datatype Step = Stop(o: Outcome) | Next(eds: nat, ecs: nat, p: seq<byte>)

  /** Bytes a step leaves written at the front of the output slice. */
  function StepWritten(s: Step): seq<byte> {
    if s.Next? then s.p else s.o.written
  }

  /** One frame: the two big-endian headers, the check that the payload is all
      there, the check that the output has room, the block decoder, and the check
      that it produced the advertised size. */
  function FrameStep(x: seq<byte>, cap: nat, dec: BlockDecoder): (s: Step)
    requires |x| >= PrefixLen
    ensures s.Next? ==> |s.p| == s.eds <= cap && s.ecs <= |x| - PrefixLen
    ensures s.Stop? ==> s.o.result.Err? && |s.o.written| <= cap
  {
    var eds := ReadBE(x[..SizeU32]);
    var ecs := ReadBE(x[SizeU32..PrefixLen]);
    var body := x[PrefixLen..];
    if |body| < ecs then Stop(Outcome(Err(Io(NotEnoughBytes)), []))
    else if cap < eds then Stop(Outcome(Err(Io(NotEnoughOutput)), []))
    else match DecodeFrame(dec, body[..ecs], cap)
      case Err(e) => Stop(Outcome(Err(e), []))
      case Ok(p) =>
        if |p| != eds then Stop(Outcome(Err(Io(UnexpectedSize)), p))
        else Next(eds, ecs, p)
  }

  /** `try_decompress_hadoop` on input `x` into an output slice of `cap` bytes,
      as written: after a frame it goes on only while the remaining input is
      longer than that frame's compressed size, and otherwise stops and
      succeeds only if nothing is left. */
  function Parse(x: seq<byte>, cap: nat, dec: BlockDecoder): (o: Outcome)
    ensures |o.written| <= cap
    ensures o.result.Ok? ==> o.result.value == |o.written|
    decreases |x|
  {
    if |x| < PrefixLen then Final(|x|)
    else match FrameStep(x, cap, dec)
      case Stop(o) => o
      case Next(eds, ecs, p) =>
        var remaining := |x| - PrefixLen - ecs;
        if remaining > ecs then Prepend(eds, p, Parse(x[PrefixLen + ecs..], cap - eds, dec))
        else Prepend(eds, p, Final(remaining))
  }

  /** The frame walk as evidently intended: after every frame, carry on with
      whatever input remains. */
  function ParseIntended(x: seq<byte>, cap: nat, dec: BlockDecoder): (o: Outcome)
    ensures |o.written| <= cap
    ensures o.result.Ok? ==> o.result.value == |o.written|
    decreases |x|
  {
    if |x| < PrefixLen then Final(|x|)
    else match FrameStep(x, cap, dec)
      case Stop(o) => o
      case Next(eds, ecs, p) => Prepend(eds, p, ParseIntended(x[PrefixLen + ecs..], cap - eds, dec))
  }

  lemma PrependAssoc(a: nat, w: seq<byte>, n: nat, p: seq<byte>, o: Outcome)
    ensures Prepend(a, w, Prepend(n, p, o)) == Prepend(a + n, w + p, o)
  {
    assert w + (p + o.written) == (w + p) + o.written;
  }

  /** Writes the bytes the block decoder produced into the output slice. */
  method WriteAt(a: array<byte>, at: nat, p: seq<byte>)
    requires at + |p| <= a.Length
    modifies a
    ensures a[..] == old(a[..])[..at] + p + old(a[..])[at + |p|..]
  {
    forall i | 0 <= i < |p| {
      a[at + i] := p[i];
    }
  }

  lemma OverlayGrow(w: seq<byte>, p: seq<byte>, base: seq<byte>, prev: seq<byte>, next: seq<byte>)
    requires |w| + |p| <= |base|
    requires prev == Overlay(w, base)
    requires next == prev[..|w|] + p + prev[|w| + |p|..]
    ensures next == Overlay(w + p, base)
  {
    assert prev[..|w|] == w;
    assert prev[|w| + |p|..] == base[|w| + |p|..];
  }

  /** The loop's invariant carried over one frame that the walk goes past:
      `n2`, `w2`, `x2` and `cap2` are the cursors after that frame. */
  lemma ParseContinues(whole: Outcome, n: nat, w: seq<byte>, x: seq<byte>, cap: nat, dec: BlockDecoder,
                       n2: nat, w2: seq<byte>, x2: seq<byte>, cap2: nat)
    requires |x| >= PrefixLen
    requires whole == Prepend(n, w, Parse(x, cap, dec))
    requires FrameStep(x, cap, dec).Next?
    requires |x| - PrefixLen - FrameStep(x, cap, dec).ecs > FrameStep(x, cap, dec).ecs
    requires n2 == n + FrameStep(x, cap, dec).eds && w2 == w + FrameStep(x, cap, dec).p
    requires x2 == x[PrefixLen..][FrameStep(x, cap, dec).ecs..] && cap2 + FrameStep(x, cap, dec).eds == cap
    ensures whole == Prepend(n2, w2, Parse(x2, cap2, dec))
  {
    var s := FrameStep(x, cap, dec);
    assert x2 == x[PrefixLen + s.ecs..];
    assert Parse(x, cap, dec) == Prepend(s.eds, s.p, Parse(x2, cap2, dec));
    PrependAssoc(n, w, s.eds, s.p, Parse(x2, cap2, dec));
  }

  /** The loop's invariant at the `break` after a frame, with `remaining`
      bytes of input left. */
  lemma ParseBreaks(whole: Outcome, n: nat, w: seq<byte>, x: seq<byte>, cap: nat, dec: BlockDecoder,
                    n2: nat, w2: seq<byte>, remaining: nat)
    requires |x| >= PrefixLen
    requires whole == Prepend(n, w, Parse(x, cap, dec))
    requires FrameStep(x, cap, dec).Next?
    requires remaining == |x| - PrefixLen - FrameStep(x, cap, dec).ecs <= FrameStep(x, cap, dec).ecs
    requires n2 == n + FrameStep(x, cap, dec).eds && w2 == w + FrameStep(x, cap, dec).p
    ensures whole == Prepend(n2, w2, Final(remaining))
  {
    var s := FrameStep(x, cap, dec);
    PrependAssoc(n, w, s.eds, s.p, Final(remaining));
  }

  /** The loop's invariant at an error return inside a frame. */
  lemma ParseStops(whole: Outcome, n: nat, w: seq<byte>, x: seq<byte>, cap: nat, dec: BlockDecoder)
    requires |x| >= PrefixLen
    requires whole == Prepend(n, w, Parse(x, cap, dec))
    requires FrameStep(x, cap, dec).Stop?
    ensures whole.result == FrameStep(x, cap, dec).o.result
    ensures whole.written == w + FrameStep(x, cap, dec).o.written
  {
  }

  /** The outcome after the loop: the bytes counted so far when no input is
      left, and an error otherwise. */
  lemma Finishes(whole: Outcome, n: nat, w: seq<byte>, remaining: nat)
    requires whole == Prepend(n, w, Final(remaining))
    ensures whole.result == if remaining == 0 then Ok(n) else Err(Io(NotAllConsumed))
    ensures whole.written == w
  {
    assert w + [] == w;
  }

  lemma LoopEnds(whole: Outcome, n: nat, w: seq<byte>, x: seq<byte>, cap: nat, dec: BlockDecoder)
    requires |x| < PrefixLen
    requires whole == Prepend(n, w, Parse(x, cap, dec))
    ensures whole == Prepend(n, w, Final(|x|))
  {
  }

  /** One pass of the loop body up to the cursor updates: reads the headers
      of the frame at the front of `rest`, checks them, and lets the block decoder
      write into the output slice that starts at `outPos`, after the bytes
      `written` so far over the initial contents `base`. */
  method ReadFrame(rest: seq<byte>, output: array<byte>, outPos: nat, outputLen: nat, dec: BlockDecoder,
                   ghost base: seq<byte>, ghost written: seq<byte>)
    returns (s: Step)
    requires |rest| >= PrefixLen
    requires outPos + outputLen == output.Length == |base| && outPos == |written|
    requires output[..] == Overlay(written, base)
    modifies output
    ensures s == FrameStep(rest, outputLen, dec)
    ensures output[..] == Overlay(written + StepWritten(s), base)
  {
    var eds := ReadBE(rest[..SizeU32]);
    var ecs := ReadBE(rest[SizeU32..PrefixLen]);
    var input := rest[PrefixLen..];
    var inputLen := |rest| - PrefixLen;
    assert written + [] == written;
    if inputLen < ecs {
      return Stop(Outcome(Err(Io(NotEnoughBytes)), []));
    }
    if outputLen < eds {
      return Stop(Outcome(Err(Io(NotEnoughOutput)), []));
    }
    var decoded := DecodeFrame(dec, input[..ecs], outputLen);
    if decoded.Err? {
      return Stop(Outcome(Err(decoded.error), []));
    }
    var p := decoded.value;
    ghost var prev := output[..];
    WriteAt(output, outPos, p);
    OverlayGrow(written, p, base, prev, output[..]);
    if |p| != eds {
      return Stop(Outcome(Err(Io(UnexpectedSize)), p));
    }
    s := Next(eds, ecs, p);
  }

  /** `try_decompress_hadoop(input_buf, output_buf)`: returns what `Parse`
      returns and leaves in `output` the bytes `Parse` says were written. */
  method TryDecompressHadoop(input: seq<byte>, output: array<byte>, dec: BlockDecoder)
    returns (r: Result<nat>)
    modifies output
    ensures r == Parse(input, output.Length, dec).result
    ensures output[..] == Overlay(Parse(input, output.Length, dec).written, old(output[..]))
  {
    var inputLen: nat := |input|;
    var rest := input;                // the `input` slice of the source
    var readBytes := 0;
    var outputLen: nat := output.Length;
    var outPos := 0;                  // where the `output` slice starts
    ghost var base := output[..];
    ghost var written: seq<byte> := [];
    ghost var whole := Parse(input, output.Length, dec);
    var stopped := false;
    while inputLen >= PrefixLen
      invariant inputLen == |rest|
      invariant outPos + outputLen == output.Length == |base|
      invariant readBytes == outPos == |written|
      invariant output[..] == Overlay(written, base)
      invariant whole == Prepend(readBytes, written, Parse(rest, outputLen, dec))
      decreases inputLen
    {
      var step := ReadFrame(rest, output, outPos, outputLen, dec, base, written);
      if step.Stop? {
        ParseStops(whole, readBytes, written, rest, outputLen, dec);
        written := written + StepWritten(step);
        r := step.o.result;
        assert r == whole.result;
        return;
      }
      var eds, ecs := step.eds, step.ecs;
      ghost var frame, n0, w0, cap0 := rest, readBytes, written, outputLen;
      written := written + step.p;
      rest := rest[PrefixLen..];
      inputLen := inputLen - PrefixLen - ecs;
      outputLen := outputLen - eds;
      readBytes := readBytes + eds;
      if inputLen > ecs {
        rest := rest[ecs..];
        outPos := outPos + eds;
        ParseContinues(whole, n0, w0, frame, cap0, dec, readBytes, written, rest, outputLen);
      } else {
        ParseBreaks(whole, n0, w0, frame, cap0, dec, readBytes, written, inputLen);
        stopped := true;
        break;
      }
    }
    if !stopped {
      LoopEnds(whole, readBytes, written, rest, outputLen, dec);
    }
    Finishes(whole, readBytes, written, inputLen);
    if inputLen == 0 {
      r := Ok(readBytes);
    } else {
      r := Err(Io(NotAllConsumed));
    }
    assert r == whole.result;
  }
}
