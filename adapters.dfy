/** The byte handling every backend adapter shares: converting typed values to
    bytes on the way in, converting the internal byte buffer back to typed
    values on the way out, and writing a backend's output into the tail of a
    caller's buffer. */
module Adapters {
  import opened Results
  import opened Bytes
  import opened Vectors
  import opened Marshal
  import opened Backends

  /** The end of a byte-level `decompress`: `convert_from_u8(internal)` with
      `.expect`, which appends the decoded values to the caller's buffer, and
      then the call's own result. A conversion panic ends the call instead. */
  function Deliver(t: Tag, internal: seq<byte>, retsize: Result<nat>, out: seq<int>): (e: Effect<nat, int>)
    ensures |e.buf| >= |out| && e.buf[..|out|] == out
    ensures Panicked(e.result) || e.result == retsize
  {
    match FromBytes(t, internal)
      case Err(e) => Effect(Err(e), out)
      case Ok(values) => Effect(retsize, out + values)
  }

  /** `convert_from_u8(internal, ..).expect(..)` followed by `retsize`. */
  method ConvertBack(t: Tag, internal: seq<byte>, retsize: Result<nat>, out: Vec<int>) returns (r: Result<nat>)
    modifies out
    ensures Effect(r, out.elems) == Deliver(t, internal, retsize, old(out.elems))
  {
    var converted := ConvertFromU8(internal, t, out);
    if converted.Err? {
      return Err(converted.error);
    }
    r := retsize;
  }

  /** `convert_to_u8` into a fresh internal buffer, with `.expect`. */
  method ConvertIn(t: Tag, input: seq<int>) returns (r: Result<seq<byte>>)
    requires WellTyped(t, input)
    ensures r == ToBytes(t, input)
  {
    var internal := new Vec<byte>([]);
    var converted := ConvertToU8(t, input, internal);
    if converted.Err? {
      return Err(converted.error);
    }
    assert [] + ToBytes(t, input).value == ToBytes(t, input).value;
    r := Ok(internal.elems);
  }

  /** Resize `out` by `req` zero bytes, let a backend that produced `c` write
      into that tail, then truncate to what it wrote. Only the tail is ever
      touched: the bytes `out` held survive, and on success exactly the
      backend's output follows them; a backend error leaves the zeroed tail. */
  function AppendTail(out: seq<byte>, req: nat, c: Result<seq<byte>>): (e: Effect<(), byte>)
    ensures |e.buf| >= |out| && e.buf[..|out|] == out
    ensures e.result.Ok? <==> c.Ok? && |c.value| <= req
    ensures e.result.Ok? ==> e.buf[|out|..] == c.value
    ensures e.result.Err? ==> |e.buf| == |out| + req
  {
    match Fit(c, req)
      case Err(e) => Effect(Err(e), out + Repeat<byte>(0, req))
      case Ok(written) =>
        ConcatParts(out, written);
        Effect(Ok(()), out + written)
  }

  /** `output_buf.resize(offset + req, 0)`, the backend writing into
      `output_buf[offset..]`, and `output_buf.truncate(offset + n)`. */
  method WriteTail(out: Vec<byte>, req: nat, c: Result<seq<byte>>) returns (r: Result<()>)
    modifies out
    ensures Effect(r, out.elems) == AppendTail(old(out.elems), req, c)
  {
    var offset := out.Len();
    out.Resize(offset + req, 0);
    var written := Fit(c, req);
    if written.Err? {
      return Err(written.error);
    }
    var n := |written.value|;
    out.CopyFrom(offset, written.value);
    out.Truncate(offset + n);
    assert out.elems == old(out.elems) + written.value;
    r := Ok(());
  }

  /** A decoder's output written over `len` zeroed bytes of a fresh buffer. */
  method Zeroed(len: nat) returns (internal: Vec<byte>)
    ensures fresh(internal) && internal.elems == Repeat<byte>(0, len)
  {
    internal := new Vec<byte>([]);
    internal.Resize(len, 0);
    assert [] + Repeat<byte>(0, len) == Repeat<byte>(0, len);
  }
}
