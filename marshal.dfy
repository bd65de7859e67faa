/** The value marshaller of the `Codec` trait (`convert_to_u8` and
    `convert_from_u8`): typed value sequences to big-endian bytes and back. */
module Marshal {
  import opened Results
  import opened Bytes
  import opened Vectors

  /** The ten primitive element types a typed buffer can hold. `F32` and `F64`
      stand for the raw IEEE-754 bit patterns of the floating-point types. */
  datatype Tag = U8 | U16 | U32 | U64 | I8 | I16 | I32 | I64 | F32 | F64

  /** `std::mem::size_of` of the element type. */
  function Width(t: Tag): nat {
    match t
    case U8 | I8 => 1
    case U16 | I16 => 2
    case U32 | I32 | F32 => 4
    case U64 | I64 | F64 => 8
  }

  predicate Signed(t: Tag) {
    t.I8? || t.I16? || t.I32? || t.I64?
  }

  /** Number of distinct values of the element type. */
  function Modulus(t: Tag): nat {
    Pow256(Width(t))
  }

  /** The values the element type can hold (two's complement for signed types). */
  predicate InRange(t: Tag, x: int) {
    if Signed(t) then -(Modulus(t) / 2) <= x < Modulus(t) / 2
    else 0 <= x < Modulus(t)
  }

  /** A typed buffer: every value fits its element type. */
  predicate WellTyped(t: Tag, xs: seq<int>) {
    forall i :: 0 <= i < |xs| ==> InRange(t, xs[i])
  }

  /** The bit pattern of a value of the element type: a negative value stands
      for its two's complement, `x + 256^width`. */
  function Unsigned(t: Tag, x: int): (u: nat)
    requires InRange(t, x)
    ensures u < Modulus(t)
    ensures x >= 0 ==> u == x
  {
    if x < 0 then x + Modulus(t) else x
  }

  /** The value a bit pattern stands for. */
  function FromUnsigned(t: Tag, u: nat): int {
    if Signed(t) && u >= Modulus(t) / 2 then u - Modulus(t) else u
  }

  /** Concatenated big-endian encodings of `xs`: `n` values take
      `n * size_of::<T>()` bytes. */
  function EncodeAll(t: Tag, xs: seq<int>): (bs: seq<byte>)
    requires WellTyped(t, xs)
    ensures |bs| == |xs| * Width(t)
  {
    if xs == [] then []
    else
      MulStep(|xs| - 1, Width(t));
      BE(Unsigned(t, xs[0]), Width(t)) + EncodeAll(t, xs[1..])
  }

  /** Values read back from consecutive big-endian words of `bs` (a partial
      word at the end is not read); each fits the element type. */
  function DecodeAll(t: Tag, bs: seq<byte>): (xs: seq<int>)
    ensures WellTyped(t, xs)
    decreases |bs|
  {
    if |bs| < Width(t) then []
    else
      var u := ReadBE(bs[..Width(t)]);
      FromUnsignedInRange(t, u);
      var rest := DecodeAll(t, bs[Width(t)..]);
      assert WellTyped(t, [FromUnsigned(t, u)] + rest) by {
        forall i | 0 < i <= |rest|
          ensures InRange(t, ([FromUnsigned(t, u)] + rest)[i])
        {
          assert ([FromUnsigned(t, u)] + rest)[i] == rest[i - 1];
        }
      }
      [FromUnsigned(t, u)] + rest
  }

  lemma MulStep(n: nat, w: nat)
    ensures (n + 1) * w == n * w + w
  {
  }

  /** `k` whole words decode to `k` values. */
  lemma {:induction false} DecodeAllLength(t: Tag, bs: seq<byte>, k: nat)
    requires |bs| == k * Width(t)
    ensures |DecodeAll(t, bs)| == k
    decreases k
  {
    if k > 0 {
      MulStep(k - 1, Width(t));
      DecodeAllLength(t, bs[Width(t)..], k - 1);
    }
  }

  /** A byte count with no remainder is a whole number of words. */
  lemma Euclid(t: Tag, n: nat)
    requires n % Width(t) == 0
    ensures n == (n / Width(t)) * Width(t)
  {
  }

  lemma WholeWords(t: Tag, n: nat)
    ensures (n * Width(t)) % Width(t) == 0
  {
    match t
    case U8 | I8 =>
    case U16 | I16 => assert n * 2 == 2 * n;
    case U32 | I32 | F32 => assert n * 4 == 4 * n;
    case U64 | I64 | F64 => assert n * 8 == 8 * n;
  }

  const UnsupportedType := "Unsupported data type"
  const WidthMismatch := "byte length is not a multiple of the element width"

  /** What `convert_to_u8` produces from `xs`: the `i8` arm is commented out in
      the source, so that tag reaches the panicking default arm. */
  function ToBytes(t: Tag, xs: seq<int>): (r: Result<seq<byte>>)
    requires WellTyped(t, xs)
    ensures r.Ok? <==> t != I8
    ensures r.Ok? ==> |r.value| == |xs| * Width(t)
  {
    if t == I8 then Err(Panic(UnsupportedType))
    else Ok(EncodeAll(t, xs))
  }

  /** What `convert_from_u8` decodes from `bs`: `i8` panics as above, and
      `BigEndian::read_*_into` panics when the byte count is not a whole number
      of elements. */
  function FromBytes(t: Tag, bs: seq<byte>): (r: Result<seq<int>>)
    ensures r.Ok? <==> t != I8 && |bs| % Width(t) == 0
    ensures r.Ok? ==> |r.value| * Width(t) == |bs| && WellTyped(t, r.value)
  {
    if t == I8 then Err(Panic(UnsupportedType))
    else if |bs| % Width(t) != 0 then Err(Panic(WidthMismatch))
    else
      Euclid(t, |bs|);
      DecodeAllLength(t, bs, |bs| / Width(t));
      Ok(DecodeAll(t, bs))
  }

  lemma {:induction false} FromUnsignedInRange(t: Tag, u: nat)
    requires u < Modulus(t)
    ensures InRange(t, FromUnsigned(t, u))
    ensures Unsigned(t, FromUnsigned(t, u)) == u
  {
  }

  lemma {:induction false} UnsignedRoundTrip(t: Tag, x: int)
    requires InRange(t, x)
    ensures FromUnsigned(t, Unsigned(t, x)) == x
  {
  }

  /** Decoding the encoding of a typed buffer gives the buffer back. */
  lemma {:induction false} DecodeEncode(t: Tag, xs: seq<int>)
    requires WellTyped(t, xs)
    ensures DecodeAll(t, EncodeAll(t, xs)) == xs
  {
    if xs != [] {
      var w := Width(t);
      var head := BE(Unsigned(t, xs[0]), w);
      var bs := head + EncodeAll(t, xs[1..]);
      ConcatParts(head, EncodeAll(t, xs[1..]));
      ReadBEOfBE(Unsigned(t, xs[0]), w);
      UnsignedRoundTrip(t, xs[0]);
      DecodeEncode(t, xs[1..]);
      DecodeStep(t, bs);
      HeadTail(xs);
    }
  }

  lemma DecodeStep(t: Tag, bs: seq<byte>)
    requires |bs| >= Width(t)
    ensures DecodeAll(t, bs) == [FromUnsigned(t, ReadBE(bs[..Width(t)]))] + DecodeAll(t, bs[Width(t)..])
  {
  }

  lemma EncodeStep(t: Tag, x: int, xs: seq<int>)
    requires InRange(t, x) && WellTyped(t, xs)
    ensures EncodeAll(t, [x] + xs) == BE(Unsigned(t, x), Width(t)) + EncodeAll(t, xs)
  {
    assert ([x] + xs)[1..] == xs;
  }

  /** `n` bytes make a whole number of words of the element type. */
  predicate Whole(t: Tag, n: nat)
    decreases n
  {
    n == 0 || (n >= Width(t) && Whole(t, n - Width(t)))
  }

  lemma {:induction false} WholeOfMul(t: Tag, k: nat)
    ensures Whole(t, k * Width(t))
  {
    if k > 0 {
      MulStep(k - 1, Width(t));
      WholeOfMul(t, k - 1);
    }
  }

  /** The source's test for whole words, `n % width == 0`, means `Whole`. */
  lemma WholeOfMod(t: Tag, n: nat)
    requires n % Width(t) == 0
    ensures Whole(t, n)
  {
    Euclid(t, n);
    WholeOfMul(t, n / Width(t));
  }

  /** One word of `EncodeDecode`: if the rest re-encodes, so does the whole. */
  lemma EncodeDecodeStep(t: Tag, bs: seq<byte>)
    requires |bs| >= Width(t)
    requires EncodeAll(t, DecodeAll(t, bs[Width(t)..])) == bs[Width(t)..]
    ensures EncodeAll(t, DecodeAll(t, bs)) == bs
  {
    var w := Width(t);
    var head, tail := bs[..w], bs[w..];
    var u := ReadBE(head);
    FromUnsignedInRange(t, u);
    DecodeStep(t, bs);
    EncodeStep(t, FromUnsigned(t, u), DecodeAll(t, tail));
    BEOfReadBE(head);
    SplitAt(bs, w);
  }

  /** Encoding what was decoded from whole words gives the bytes back. */
  lemma {:induction false} EncodeDecode(t: Tag, bs: seq<byte>)
    requires Whole(t, |bs|)
    ensures EncodeAll(t, DecodeAll(t, bs)) == bs
    decreases |bs|
  {
    if |bs| > 0 {
      var rest := bs[Width(t)..];
      assert Whole(t, |rest|);
      EncodeDecode(t, rest);
      EncodeDecodeStep(t, bs);
    }
  }

  /** The marshaller's inverse law, both directions, on the results the
      codecs see: every supported tag round-trips every typed buffer, and
      every whole number of words. */
  lemma MarshalRoundTrip(t: Tag, xs: seq<int>, bs: seq<byte>)
    requires t != I8
    ensures WellTyped(t, xs) ==> FromBytes(t, ToBytes(t, xs).value) == Ok(xs)
    ensures |bs| % Width(t) == 0 ==> ToBytes(t, FromBytes(t, bs).value) == Ok(bs)
  {
    if WellTyped(t, xs) {
      WholeWords(t, |xs|);
      DecodeEncode(t, xs);
    }
    if |bs| % Width(t) == 0 {
      WholeOfMod(t, |bs|);
      EncodeDecode(t, bs);
    }
  }

  /** `u8` buffers pass through both directions unchanged. */
  lemma {:induction false} U8PassThrough(xs: seq<int>, bs: seq<byte>)
    requires WellTyped(U8, xs)
    ensures ToBytes(U8, xs) == Ok(xs)
    ensures FromBytes(U8, bs) == Ok(bs)
  {
    U8EncodeIdentity(xs);
    U8DecodeIdentity(bs);
  }

  lemma {:induction false} U8EncodeIdentity(xs: seq<int>)
    requires WellTyped(U8, xs)
    ensures EncodeAll(U8, xs) == xs
  {
    if xs != [] {
      U8EncodeIdentity(xs[1..]);
      assert BE(Unsigned(U8, xs[0]), 1) == [xs[0]];
    }
  }

  lemma {:induction false} U8DecodeIdentity(bs: seq<byte>)
    ensures DecodeAll(U8, bs) == bs
    decreases |bs|
  {
    if bs != [] {
      U8DecodeIdentity(bs[1..]);
      assert bs[..1] == [bs[0]];
      assert ReadBE(bs[..1]) == bs[0];
    }
  }

  /** `convert_to_u8`: the `u8` arm appends the values to `out`; every other
      supported arm resizes `out` to exactly the encoded length and overwrites
      it; `i8` panics. Returns the final length of `out`. */
  method ConvertToU8(t: Tag, input: seq<int>, out: Vec<byte>) returns (r: Result<nat>)
    requires WellTyped(t, input)
    modifies out
    ensures ToBytes(t, input).Err? ==> r == Err(ToBytes(t, input).error) && out.elems == old(out.elems)
    ensures ToBytes(t, input).Ok? ==>
      && out.elems == (if t == U8 then old(out.elems) else []) + ToBytes(t, input).value
      && r == Ok(|out.elems|)
  {
    if t == I8 {
      return Err(Panic(UnsupportedType));
    }
    var encoded := EncodeAll(t, input);
    if t == U8 {
      out.Extend(encoded);
    } else {
      var u8Size := |input| * Width(t);
      out.Resize(u8Size, 0);
      out.CopyFrom(0, encoded);
    }
    r := Ok(out.Len());
  }

  /** `for x in xs { out.push(x) }` (and
      `convert_vec_to_vecbox_for_datatypeconstraint`): appends `xs` in order. */
  method PushEach(xs: seq<int>, out: Vec<int>)
    modifies out
    ensures out.elems == old(out.elems) + xs
  {
    for i := 0 to |xs|
      invariant out.elems == old(out.elems) + xs[..i]
    {
      out.Push(xs[i]);
    }
    assert xs[..|xs|] == xs;
  }

  /** `convert_from_u8`: pushes the decoded values one by one onto `out` and
      returns the final length of `out`; panics on `i8` and on a byte count that
      is not a whole number of elements. */
  method ConvertFromU8(input: seq<byte>, t: Tag, out: Vec<int>) returns (r: Result<nat>)
    modifies out
    ensures FromBytes(t, input).Err? ==> r == Err(FromBytes(t, input).error) && out.elems == old(out.elems)
    ensures FromBytes(t, input).Ok? ==>
      && out.elems == old(out.elems) + FromBytes(t, input).value
      && r == Ok(|out.elems|)
  {
    if t == I8 {
      return Err(Panic(UnsupportedType));
    }
    if t == U8 {
      U8DecodeIdentity(input);
      PushEach(input, out);
    } else {
      if |input| % Width(t) != 0 {
        return Err(Panic(WidthMismatch));
      }
      var internal := DecodeAll(t, input);
      PushEach(internal, out);
    }
    r := Ok(out.Len());
  }
}
