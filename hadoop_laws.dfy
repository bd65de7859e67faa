/** What the Hadoop LZ4 frame walk accepts and rejects, stated over lists of
    frames: the walk recovers well-formed inputs (subject to its continuation
    rule), never accepts input it has not consumed, and rejects a short tail. */
module HadoopLaws {
  import opened Results
  import opened Bytes
  import opened Vectors
  import opened Backends
  import opened HadoopFrame

  const HintTooBig := "Given size parameter is too big"

  /** One frame: the size its payload decompresses to, and the payload. */
  datatype Frame = Frame(size: nat, payload: seq<byte>)

  /** Both header fields fit in a `u32`. */
  predicate ValidFrame(f: Frame) {
    f.size < U32Modulus && |f.payload| < U32Modulus
  }

  predicate AllValid(fs: seq<Frame>) {
    forall i :: 0 <= i < |fs| ==> ValidFrame(fs[i])
  }

  /** A frame on the wire: two big-endian `u32` headers, then the payload. */
  function FrameBytes(f: Frame): (s: seq<byte>)
    ensures |s| == PrefixLen + |f.payload|
  {
    BE(f.size, SizeU32) + BE(|f.payload|, SizeU32) + f.payload
  }

  function Serialize(fs: seq<Frame>): seq<byte> {
    if fs == [] then [] else FrameBytes(fs[0]) + Serialize(fs[1..])
  }

  /** The sum of the advertised decompressed sizes. */
  function TotalSize(fs: seq<Frame>): nat {
    if fs == [] then 0 else fs[0].size + TotalSize(fs[1..])
  }

  function Flatten(outs: seq<seq<byte>>): seq<byte> {
    if outs == [] then [] else outs[0] + Flatten(outs[1..])
  }

  /** Every frame is well-formed, its advertised size fits the output left
      for it, and the block decoder turns its payload into `outs[i]`, of that
      size, given the one size hint the walk passes there: the room left,
      `cap` less the sizes of the frames before it. */
  predicate Decodable(fs: seq<Frame>, outs: seq<seq<byte>>, cap: nat, dec: BlockDecoder)
    decreases |fs|
  {
    && |fs| == |outs|
    && (fs != [] ==>
         && ValidFrame(fs[0])
         && |outs[0]| == fs[0].size <= cap
         && dec(fs[0].payload, cap) == Ok(outs[0])
         && Decodable(fs[1..], outs[1..], cap - fs[0].size, dec))
  }

  /** The continuation rule of the walk holds after every frame but the last:
      what follows a frame is longer than that frame's payload. */
  predicate Continues(fs: seq<Frame>)
    decreases |fs|
  {
    |fs| <= 1 || (|Serialize(fs[1..])| > |fs[0].payload| && Continues(fs[1..]))
  }

  /** Reading the headers of a serialized frame gives back its fields, and the
      input after it is what followed it. */
  lemma HeaderRead(f: Frame, rest: seq<byte>)
    requires ValidFrame(f)
    ensures var x := FrameBytes(f) + rest;
      && |x| >= PrefixLen + |f.payload|
      && ReadBE(x[..SizeU32]) == f.size
      && ReadBE(x[SizeU32..PrefixLen]) == |f.payload|
      && x[PrefixLen..][..|f.payload|] == f.payload
      && x[PrefixLen + |f.payload|..] == rest
  {
    var a, b := BE(f.size, SizeU32), BE(|f.payload|, SizeU32);
    var x := a + b + f.payload + rest;
    assert x == a + (b + (f.payload + rest));
    ConcatParts(a, b + (f.payload + rest));
    ConcatParts(b, f.payload + rest);
    ConcatParts(f.payload, rest);
    assert x[SizeU32..PrefixLen] == b;
    assert x[PrefixLen..] == f.payload + rest;
    assert x[PrefixLen + |f.payload|..] == rest;
    ReadBEOfBE(f.size, SizeU32);
    ReadBEOfBE(|f.payload|, SizeU32);
  }

  /** Whatever the walk makes of a frame, a `Next` step reads that frame's
      own headers. */
  lemma NextReadsFrame(f: Frame, rest: seq<byte>, cap: nat, dec: BlockDecoder)
    requires ValidFrame(f)
    ensures |FrameBytes(f) + rest| >= PrefixLen
    ensures var s := FrameStep(FrameBytes(f) + rest, cap, dec);
      s.Next? ==> s.eds == f.size && s.ecs == |f.payload|
    ensures (FrameBytes(f) + rest)[PrefixLen + |f.payload|..] == rest
  {
    HeaderRead(f, rest);
  }

  /** Two big-endian headers in front of `body` are read back as written. */
  lemma HeadersRead(eds: nat, ecs: nat, body: seq<byte>)
    requires eds < U32Modulus && ecs < U32Modulus
    ensures var x := BE(eds, SizeU32) + BE(ecs, SizeU32) + body;
      && |x| == PrefixLen + |body|
      && ReadBE(x[..SizeU32]) == eds
      && ReadBE(x[SizeU32..PrefixLen]) == ecs
      && x[PrefixLen..] == body
  {
    var a, b := BE(eds, SizeU32), BE(ecs, SizeU32);
    assert a + b + body == a + (b + body);
    ConcatParts(a, b + body);
    ConcatParts(b, body);
    ReadBEOfBE(eds, SizeU32);
    ReadBEOfBE(ecs, SizeU32);
  }

  /** The four ways a frame at the front of the input ends the walk, in the
      order the loop checks them: the payload is not all there, the output has
      no room for the advertised size, the block decoder fails, or it produces
      a size other than the advertised one. */
  lemma FrameErrors(eds: nat, ecs: nat, body: seq<byte>, cap: nat, dec: BlockDecoder)
    requires eds < U32Modulus && ecs < U32Modulus
    ensures var x := BE(eds, SizeU32) + BE(ecs, SizeU32) + body;
      && (|body| < ecs ==> Parse(x, cap, dec).result == Err(Io(NotEnoughBytes)))
      && (ecs <= |body| && cap < eds ==> Parse(x, cap, dec).result == Err(Io(NotEnoughOutput)))
      && (ecs <= |body| && eds <= cap && DecodeFrame(dec, body[..ecs], cap).Err? ==>
            Parse(x, cap, dec).result == Err(DecodeFrame(dec, body[..ecs], cap).error))
      && (ecs <= |body| && eds <= cap && DecodeFrame(dec, body[..ecs], cap).Ok?
          && |DecodeFrame(dec, body[..ecs], cap).value| != eds ==>
            Parse(x, cap, dec).result == Err(Io(UnexpectedSize)))
  {
    HeadersRead(eds, ecs, body);
  }

  /** The check after the loop: the empty input is `Ok(0)` with nothing
      written, and fewer than `PrefixLen` bytes of anything else are left
      unconsumed. */
  lemma ShortInput(x: seq<byte>, cap: nat, dec: BlockDecoder)
    requires |x| < PrefixLen
    ensures x == [] ==> Parse(x, cap, dec) == Outcome(Ok(0), [])
    ensures x != [] ==> Parse(x, cap, dec).result == Err(Io(NotAllConsumed))
  {
  }

  /** A well-formed frame whose payload decodes to `p`, of the advertised
      size, within `cap` bytes of output, given `cap` as the size hint; `cap`
      is one the `as i32` cast passes unchanged. */
  predicate Fits(f: Frame, p: seq<byte>, cap: nat, dec: BlockDecoder) {
    ValidFrame(f) && dec(f.payload, cap) == Ok(p) && |p| == f.size <= cap <= I32Max
  }

  /** A frame that fits, in front of `rest`, is a `Next` step of the walk
      that reads exactly that frame. */
  lemma StepOnFrame(f: Frame, p: seq<byte>, rest: seq<byte>, x: seq<byte>, cap: nat, dec: BlockDecoder)
    requires Fits(f, p, cap, dec) && x == FrameBytes(f) + rest
    ensures |x| == PrefixLen + |f.payload| + |rest|
    ensures FrameStep(x, cap, dec) == Next(f.size, |f.payload|, p)
    ensures x[PrefixLen + |f.payload|..] == rest
  {
    HeaderRead(f, rest);
    assert AsI32(cap) == cap;
    assert dec(f.payload, cap) == Ok(p);
  }

  /** After a frame that fits, the walk as written goes on to the rest when
      the rest is longer than the frame's payload. */
  lemma ParseGoesOn(f: Frame, p: seq<byte>, rest: seq<byte>, x: seq<byte>, cap: nat, dec: BlockDecoder)
    requires Fits(f, p, cap, dec) && x == FrameBytes(f) + rest && |rest| > |f.payload|
    ensures Parse(x, cap, dec) == Prepend(f.size, p, Parse(rest, cap - f.size, dec))
  {
    StepOnFrame(f, p, rest, x, cap, dec);
  }

  /** After a frame that fits, the intended walk always goes on to the rest. */
  lemma IntendedGoesOn(f: Frame, p: seq<byte>, rest: seq<byte>, x: seq<byte>, cap: nat, dec: BlockDecoder)
    requires Fits(f, p, cap, dec) && x == FrameBytes(f) + rest
    ensures ParseIntended(x, cap, dec) == Prepend(f.size, p, ParseIntended(rest, cap - f.size, dec))
  {
    StepOnFrame(f, p, rest, x, cap, dec);
  }

  /** A walk that yields a frame's count and output in front of an accepted
      rest is accepted, with the sums. */
  lemma PrependAccepted(a: Outcome, n: nat, p: seq<byte>, o: Outcome, t: nat, w: seq<byte>, total: nat, all: seq<byte>)
    requires a == Prepend(n, p, o) && o == Outcome(Ok(t), w)
    requires total == n + t && all == p + w
    ensures a == Outcome(Ok(total), all)
  {
  }

  /** A frame that fits, with nothing after it, is accepted. */
  lemma LastFrameAccepted(f: Frame, p: seq<byte>, x: seq<byte>, cap: nat, dec: BlockDecoder)
    requires Fits(f, p, cap, dec) && x == FrameBytes(f)
    ensures Parse(x, cap, dec) == Outcome(Ok(f.size), p)
  {
    assert x == FrameBytes(f) + [];
    StepOnFrame(f, p, [], x, cap, dec);
    assert Parse(x, cap, dec) == Prepend(f.size, p, Final(0));
    PrependAccepted(Parse(x, cap, dec), f.size, p, Final(0), 0, [], f.size, p);
  }

  /** A frame that fits, followed by more input than its payload which the
      walk accepts, is accepted with the sums. */
  lemma FrameThenAccepted(f: Frame, p: seq<byte>, rest: seq<byte>, x: seq<byte>, cap: nat, dec: BlockDecoder,
                          t: nat, w: seq<byte>, total: nat, all: seq<byte>)
    requires Fits(f, p, cap, dec) && x == FrameBytes(f) + rest && |rest| > |f.payload|
    requires Parse(rest, cap - f.size, dec) == Outcome(Ok(t), w)
    requires total == f.size + t && all == p + w
    ensures Parse(x, cap, dec) == Outcome(Ok(total), all)
  {
    ParseGoesOn(f, p, rest, x, cap, dec);
    PrependAccepted(Parse(x, cap, dec), f.size, p, Parse(rest, cap - f.size, dec), t, w, total, all);
  }

  /** The intended walk over a frame that fits, followed by input it accepts,
      accepts the whole with the sums. */
  lemma IntendedFrameThenAccepted(f: Frame, p: seq<byte>, rest: seq<byte>, x: seq<byte>, cap: nat, dec: BlockDecoder,
                                  t: nat, w: seq<byte>, total: nat, all: seq<byte>)
    requires Fits(f, p, cap, dec) && x == FrameBytes(f) + rest
    requires ParseIntended(rest, cap - f.size, dec) == Outcome(Ok(t), w)
    requires total == f.size + t && all == p + w
    ensures ParseIntended(x, cap, dec) == Outcome(Ok(total), all)
  {
    IntendedGoesOn(f, p, rest, x, cap, dec);
    PrependAccepted(ParseIntended(x, cap, dec), f.size, p, ParseIntended(rest, cap - f.size, dec), t, w, total, all);
  }

  /** A decodable list of frames splits at its first frame: serialization,
      sizes and outputs, and the first frame fits. */
  lemma FirstFrame(fs: seq<Frame>, outs: seq<seq<byte>>, cap: nat, dec: BlockDecoder)
    requires fs != [] && Decodable(fs, outs, cap, dec) && TotalSize(fs) <= cap <= I32Max
    ensures Serialize(fs) == FrameBytes(fs[0]) + Serialize(fs[1..])
    ensures TotalSize(fs) == fs[0].size + TotalSize(fs[1..])
    ensures Flatten(outs) == outs[0] + Flatten(outs[1..])
    ensures Fits(fs[0], outs[0], cap, dec)
    ensures Decodable(fs[1..], outs[1..], cap - fs[0].size, dec) && TotalSize(fs[1..]) <= cap - fs[0].size
  {
  }

  /** The continuation rule for a list of two or more frames: the input after
      the first frame is longer than its payload, and the rule holds of the
      rest. */
  lemma ContinuesTail(fs: seq<Frame>)
    requires |fs| > 1 && Continues(fs)
    ensures |Serialize(fs[1..])| > |fs[0].payload| && Continues(fs[1..])
  {
  }

  /** A single frame that decodes to `p`, into an output of exactly its
      advertised size, is accepted with `p` written. */
  lemma SingleFrameAccepted(f: Frame, p: seq<byte>, dec: BlockDecoder)
    requires ValidFrame(f) && dec(f.payload, f.size) == Ok(p) && |p| == f.size <= I32Max
    ensures Parse(Serialize([f]), f.size, dec) == Outcome(Ok(f.size), p)
  {
    assert [f][1..] == [];
    assert Serialize([f]) == FrameBytes(f) + Serialize([]);
    LastFrameAccepted(f, p, Serialize([f]), f.size, dec);
  }

  /** Completeness of the walk as written: well-formed frames that decode and
      fit, and that meet the continuation rule, are accepted, with the sum of
      their sizes as the count and their outputs written back to back. The
      empty input is the case `fs == []`: `Ok(0)`, nothing written. */
  lemma {:induction false} ParseFrames(fs: seq<Frame>, outs: seq<seq<byte>>, cap: nat, dec: BlockDecoder)
    requires Decodable(fs, outs, cap, dec) && TotalSize(fs) <= cap <= I32Max && Continues(fs)
    ensures Parse(Serialize(fs), cap, dec) == Outcome(Ok(TotalSize(fs)), Flatten(outs))
    decreases |fs|
  {
    if fs == [] {
      assert Serialize(fs) == [];
    } else {
      var f, p, fs', outs' := fs[0], outs[0], fs[1..], outs[1..];
      FirstFrame(fs, outs, cap, dec);
      if fs' == [] {
        assert Serialize(fs) == FrameBytes(f) && TotalSize(fs) == f.size && Flatten(outs) == p;
        LastFrameAccepted(f, p, Serialize(fs), cap, dec);
      } else {
        ContinuesTail(fs);
        ParseFrames(fs', outs', cap - f.size, dec);
        FrameThenAccepted(f, p, Serialize(fs'), Serialize(fs), cap, dec,
                          TotalSize(fs'), Flatten(outs'), TotalSize(fs), Flatten(outs));
      }
    }
  }

  /** Completeness of the intended walk: no continuation rule is needed. */
  lemma {:induction false} ParseIntendedFrames(fs: seq<Frame>, outs: seq<seq<byte>>, cap: nat, dec: BlockDecoder)
    requires Decodable(fs, outs, cap, dec) && TotalSize(fs) <= cap <= I32Max
    ensures ParseIntended(Serialize(fs), cap, dec) == Outcome(Ok(TotalSize(fs)), Flatten(outs))
    decreases |fs|
  {
    if fs == [] {
      assert Serialize(fs) == [];
    } else {
      var f, p, fs', outs' := fs[0], outs[0], fs[1..], outs[1..];
      FirstFrame(fs, outs, cap, dec);
      ParseIntendedFrames(fs', outs', cap - f.size, dec);
      IntendedFrameThenAccepted(f, p, Serialize(fs'), Serialize(fs), cap, dec,
                                TotalSize(fs'), Flatten(outs'), TotalSize(fs), Flatten(outs));
    }
  }

  /** A valid frame in front of non-empty input that the walk would reject
      if it reached it: the walk rejects the whole, either at the frame or,
      when it reaches the rest, there. */
  lemma RejectedAfterFrame(f: Frame, rest: seq<byte>, x: seq<byte>, cap: nat, dec: BlockDecoder)
    requires ValidFrame(f) && x == FrameBytes(f) + rest && |rest| > 0
    requires f.size <= cap && |rest| > |f.payload| ==> Parse(rest, cap - f.size, dec).result.Err?
    ensures Parse(x, cap, dec).result.Err?
  {
    NextReadsFrame(f, rest, cap, dec);
  }

  /** A valid input followed by a tail too short to hold a frame header is
      rejected, whatever the block decoder does. */
  lemma {:induction false} ParseRejectsShortTail(fs: seq<Frame>, tail: seq<byte>, cap: nat, dec: BlockDecoder)
    requires AllValid(fs) && 0 < |tail| < PrefixLen
    ensures Parse(Serialize(fs) + tail, cap, dec).result.Err?
    decreases |fs|
  {
    if fs == [] {
      assert Serialize(fs) + tail == tail;
    } else {
      var f, rest := fs[0], Serialize(fs[1..]) + tail;
      assert Serialize(fs) + tail == FrameBytes(f) + rest;
      if f.size <= cap && |rest| > |f.payload| {
        assert AllValid(fs[1..]) by {
          forall i | 0 <= i < |fs[1..]| ensures ValidFrame(fs[1..][i]) {
            assert fs[1..][i] == fs[i + 1];
          }
        }
        ParseRejectsShortTail(fs[1..], tail, cap - f.size, dec);
      }
      RejectedAfterFrame(f, rest, Serialize(fs) + tail, cap, dec);
    }
  }

  /** The frames the walk reads from the front of `x`, up to where it stops. */
  function Walked(x: seq<byte>, cap: nat, dec: BlockDecoder): seq<Frame>
    decreases |x|
  {
    if |x| < PrefixLen then []
    else match FrameStep(x, cap, dec)
      case Stop(_) => []
      case Next(eds, ecs, p) =>
        var f := Frame(eds, x[PrefixLen..][..ecs]);
        if |x| - PrefixLen - ecs > ecs then [f] + Walked(x[PrefixLen + ecs..], cap - eds, dec)
        else [f]
  }

  /** The headers at the front of `x` and the payload they announce make a
      valid frame, which re-serializes to exactly those bytes. */
  lemma FrameAtFront(x: seq<byte>, ecs: nat)
    requires |x| >= PrefixLen + ecs && ecs == ReadBE(x[SizeU32..PrefixLen])
    ensures var f := Frame(ReadBE(x[..SizeU32]), x[PrefixLen..][..ecs]);
      ValidFrame(f) && FrameBytes(f) + x[PrefixLen + ecs..] == x
  {
    var a, b, c := x[..SizeU32], x[SizeU32..PrefixLen], x[PrefixLen..][..ecs];
    assert Pow256(SizeU32) == U32Modulus;
    BEOfReadBE(a);
    BEOfReadBE(b);
    assert x[..PrefixLen + ecs] == a + b + c;
    SplitAt(x, PrefixLen + ecs);
  }

  /** Soundness of the walk: when it succeeds, the input is exactly a list of
      valid frames, nothing before or after them, and the count is the sum of
      their advertised sizes. */
  lemma {:induction false} ParseSound(x: seq<byte>, cap: nat, dec: BlockDecoder)
    requires Parse(x, cap, dec).result.Ok?
    ensures AllValid(Walked(x, cap, dec))
    ensures Serialize(Walked(x, cap, dec)) == x
    ensures Parse(x, cap, dec).result.value == TotalSize(Walked(x, cap, dec))
    decreases |x|
  {
    if |x| >= PrefixLen {
      var s := FrameStep(x, cap, dec);
      var f := Frame(s.eds, x[PrefixLen..][..s.ecs]);
      FrameAtFront(x, s.ecs);
      var rest := x[PrefixLen + s.ecs..];
      if |rest| > s.ecs {
        ParseSound(rest, cap - s.eds, dec);
        var tail := Walked(rest, cap - s.eds, dec);
        assert Walked(x, cap, dec) == [f] + tail;
        assert ([f] + tail)[1..] == tail;
        assert AllValid([f] + tail) by {
          forall i | 0 <= i < |[f] + tail| ensures ValidFrame(([f] + tail)[i]) {
            if i > 0 { assert ([f] + tail)[i] == tail[i - 1]; }
          }
        }
      } else {
        assert Walked(x, cap, dec) == [f];
        assert rest == [];
        assert Serialize([f]) == FrameBytes(f) + Serialize([]);
      }
    }
  }

  /** The continuation quirk: a frame followed by a shorter one (at most its
      own payload length, headers included) ends the walk with input left, so
      such an input is rejected whatever the block decoder does. */
  lemma ShrinkingFrameRejected(f1: Frame, f2: Frame, cap: nat, dec: BlockDecoder)
    requires ValidFrame(f1) && ValidFrame(f2)
    requires PrefixLen + |f2.payload| <= |f1.payload|
    ensures Parse(Serialize([f1, f2]), cap, dec).result.Err?
  {
    var rest := FrameBytes(f2);
    assert Serialize([f1, f2]) == FrameBytes(f1) + rest by {
      assert [f1, f2][1..] == [f2];
      assert Serialize([f2]) == rest + Serialize([]);
    }
    NextReadsFrame(f1, rest, cap, dec);
  }

  /** The list facts about a pair of frames that decode to `p1` and `p2` at
      the hints the walk passes them. */
  lemma FramePair(f1: Frame, f2: Frame, p1: seq<byte>, p2: seq<byte>, cap: nat, dec: BlockDecoder)
    requires ValidFrame(f1) && ValidFrame(f2) && f1.size + f2.size <= cap
    requires dec(f1.payload, cap) == Ok(p1) && |p1| == f1.size
    requires dec(f2.payload, cap - f1.size) == Ok(p2) && |p2| == f2.size
    ensures Decodable([f1, f2], [p1, p2], cap, dec)
    ensures TotalSize([f1, f2]) == f1.size + f2.size
    ensures Flatten([p1, p2]) == p1 + p2
    ensures Continues([f1, f2]) <==> PrefixLen + |f2.payload| > |f1.payload|
  {
    var fs: seq<Frame>, outs: seq<seq<byte>> := [f1, f2], [p1, p2];
    assert fs[1..] == [f2] && outs[1..] == [p2] && fs[1..][1..] == [] && outs[1..][1..] == [];
    assert TotalSize(fs[1..][1..]) == 0;
    assert Serialize(fs[1..]) == FrameBytes(f2) + Serialize([]);
    assert Flatten(outs[1..]) == p2 + Flatten([]);
    assert Flatten(outs) == p1 + (p2 + []);
  }

  /** Two frames that decode and fit are accepted by the intended walk. */
  lemma TwoFramesIntended(f1: Frame, f2: Frame, p1: seq<byte>, p2: seq<byte>, cap: nat, dec: BlockDecoder)
    requires ValidFrame(f1) && ValidFrame(f2)
    requires f1.size + f2.size <= cap <= I32Max
    requires dec(f1.payload, cap) == Ok(p1) && |p1| == f1.size
    requires dec(f2.payload, cap - f1.size) == Ok(p2) && |p2| == f2.size
    ensures ParseIntended(Serialize([f1, f2]), cap, dec) == Outcome(Ok(f1.size + f2.size), p1 + p2)
  {
    FramePair(f1, f2, p1, p2, cap, dec);
    ParseIntendedFrames([f1, f2], [p1, p2], cap, dec);
  }

  /** The other side of the continuation rule: when the second frame, headers
      included, is longer than the first frame's payload, the walk as written
      accepts two frames that decode and fit. */
  lemma TwoFramesAccepted(f1: Frame, f2: Frame, p1: seq<byte>, p2: seq<byte>, cap: nat, dec: BlockDecoder)
    requires ValidFrame(f1) && ValidFrame(f2)
    requires PrefixLen + |f2.payload| > |f1.payload|
    requires f1.size + f2.size <= cap <= I32Max
    requires dec(f1.payload, cap) == Ok(p1) && |p1| == f1.size
    requires dec(f2.payload, cap - f1.size) == Ok(p2) && |p2| == f2.size
    ensures Parse(Serialize([f1, f2]), cap, dec) == Outcome(Ok(f1.size + f2.size), p1 + p2)
  {
    FramePair(f1, f2, p1, p2, cap, dec);
    ParseFrames([f1, f2], [p1, p2], cap, dec);
  }

  /** A two-frame input the walk rejects and the intended walk accepts: a
      16-byte payload decoding to two bytes, then an 8-byte payload decoding
      to three, with a block decoder that, like LZ4's, refuses size hints
      above `0x7E000000`. */
  lemma ShrinkingFrameExample()
    ensures var f1, f2 := Frame(2, Repeat(0, 16)), Frame(3, Repeat(1, 8));
      var dec: BlockDecoder := (s, h) =>
        if h > 0x7E00_0000 then Err(General(HintTooBig))
        else if s == f1.payload then Ok([5, 5]) else Ok([6, 6, 6]);
      && Parse(Serialize([f1, f2]), 5, dec).result.Err?
      && ParseIntended(Serialize([f1, f2]), 5, dec) == Outcome(Ok(5), [5, 5, 6, 6, 6])
  {
    var f1, f2 := Frame(2, Repeat(0, 16)), Frame(3, Repeat(1, 8));
    var dec: BlockDecoder := (s, h) =>
      if h > 0x7E00_0000 then Err(General(HintTooBig))
      else if s == f1.payload then Ok([5, 5]) else Ok([6, 6, 6]);
    ShrinkingFrameRejected(f1, f2, 5, dec);
    assert f2.payload != f1.payload by { assert |f2.payload| != |f1.payload|; }
    TwoFramesIntended(f1, f2, [5, 5], [6, 6, 6], 5, dec);
  }
}
