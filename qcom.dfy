/** `QcomCodec`: q_compress works on typed values directly, so there is no
    byte conversion; `u8` and `i8` reach the panicking default arm. */
module Qcom {
  import opened Results
  import opened Bytes
  import opened Vectors
  import opened Marshal
  import opened Backends

  const DecompressFailed := "failed to decompress"

  /** The tags with an arm in both `compress` and `decompress`. */
  predicate Supported(t: Tag) {
    t != U8 && t != I8
  }

  /** `decompress`: the decoded values are pushed onto `out`, and the result
      is the length of `out` afterwards, prior contents included. A decoder
      error is an `.expect` panic. */
  function Decompressed(be: Backends, input: seq<byte>, t: Tag, out: seq<int>): (e: Effect<nat, int>)
    ensures |e.buf| >= |out| && e.buf[..|out|] == out
  {
    if !Supported(t) then Effect(Err(Panic(UnsupportedType)), out)
    else match be.qcomDecompress(t, input)
      case Err(_) => Effect(Err(Panic(DecompressFailed)), out)
      case Ok(xs) => Effect(Ok(|out| + |xs|), out + xs)
  }

  method Decompress(be: Backends, input: seq<byte>, t: Tag, size: Option<nat>, out: Vec<int>) returns (r: Result<nat>)
    modifies out
    ensures Effect(r, out.elems) == Decompressed(be, input, t, old(out.elems))
  {
    if !Supported(t) {
      return Err(Panic(UnsupportedType));
    }
    var decoded := be.qcomDecompress(t, input);
    if decoded.Err? {
      return Err(Panic(DecompressFailed));
    }
    PushEach(decoded.value, out);
    r := Ok(out.Len());
  }

  /** `compress`: the backend's output appended to `out`. It succeeds
      exactly on the supported types, panics on the others, and never
      disturbs what `out` held. */
  function Compressed(be: Backends, t: Tag, xs: seq<int>, out: seq<byte>): (e: Effect<(), byte>)
    ensures e.result.Ok? <==> Supported(t)
    ensures e.result.Err? ==> Panicked(e.result)
    ensures |e.buf| >= |out| && e.buf[..|out|] == out
  {
    if !Supported(t) then Effect(Err(Panic(UnsupportedType)), out)
    else
      ConcatParts(out, be.qcomCompress(t, xs));
      Effect(Ok(()), out + be.qcomCompress(t, xs))
  }

  method Compress(be: Backends, t: Tag, xs: seq<int>, out: Vec<byte>) returns (r: Result<()>)
    modifies out
    ensures Effect(r, out.elems) == Compressed(be, t, xs, old(out.elems))
  {
    if !Supported(t) {
      return Err(Panic(UnsupportedType));
    }
    out.Extend(be.qcomCompress(t, xs));
    r := Ok(());
  }

  /** What q_compress guarantees: every typed buffer decodes back. */
  ghost predicate Inverse(be: Backends) {
    forall t: Tag, xs: seq<int> :: Supported(t) && WellTyped(t, xs) ==> be.qcomDecompress(t, be.qcomCompress(t, xs)) == Ok(xs)
  }

  /** Compress then decompress restores the values after whatever the output
      already held; the count returned is the whole output's length. */
  lemma RoundTrip(be: Backends, t: Tag, xs: seq<int>, prefix: seq<byte>, prior: seq<int>)
    requires Inverse(be) && WellTyped(t, xs) && Supported(t)
    ensures var c := Compressed(be, t, xs, prefix);
      && c.result.Ok?
      && c.buf[..|prefix|] == prefix
      && Decompressed(be, c.buf[|prefix|..], t, prior) == Effect(Ok(|prior| + |xs|), prior + xs)
  {
    ConcatParts(prefix, be.qcomCompress(t, xs));
  }
}
