/**
 * SCALE encodings of the argument and field types the contracts calls and the
 * transfer event use: byte vectors, fixed-size byte arrays and fixed-width
 * little-endian integers. A tuple or struct is the concatenation of its
 * fields' encodings in declared order, with nothing between them.
 */
module Scale {
  import opened Bytes
  import opened Wrappers
  import opened Compact

  /** A vector's length is written as a compact u32. */
  const LengthWidth: nat := 4
  const MaxVecLen: nat := 0x1_0000_0000

  /** A byte vector: its compact length, then its bytes. */
  function EncodeVec(data: seq<Byte>): (bs: seq<Byte>)
    requires |data| < MaxVecLen
    ensures |bs| > |data| && bs[|bs| - |data|..] == data
  {
    Pow256Table();
    Pow256Monotone(LengthWidth, MaxBigLen);
    Encode(|data|) + data
  }

  /** Reads a byte vector from the front of `bs`. */
  function DecodeVec(bs: seq<Byte>): (r: Result<(seq<Byte>, seq<Byte>), CodecError>)
    ensures r.Success? ==> |r.value.0| < MaxVecLen && |r.value.1| < |bs|
  {
    Pow256Table();
    var (len, rest) :- Decode(bs, LengthWidth);
    if |rest| < len then Failure(NotEnoughData)
    else Success((rest[..len], rest[len..]))
  }

  lemma DecodeVecEncode(data: seq<Byte>, rest: seq<Byte>)
    requires |data| < MaxVecLen
    ensures DecodeVec(EncodeVec(data) + rest) == Success((data, rest))
  {
    Pow256Table();
    var e := Encode(|data|);
    assert EncodeVec(data) + rest == e + (data + rest);
    DecodeEncode(|data|, LengthWidth, data + rest);
    assert (data + rest)[..|data|] == data && (data + rest)[|data|..] == rest;
  }

  /** Whatever decodes as a vector is exactly that vector's encoding followed by the rest. */
  lemma EncodeVecOfDecode(bs: seq<Byte>)
    requires DecodeVec(bs).Success?
    ensures bs == EncodeVec(DecodeVec(bs).value.0) + DecodeVec(bs).value.1
  {
    Pow256Table();
    var (len, rest) := Decode(bs, LengthWidth).value;
    EncodeOfDecode(bs, LengthWidth);
    assert rest == rest[..len] + rest[len..];
  }

  /** Reads a fixed-size value of `n` raw bytes (a hash or an account id) from the front of `bs`. */
  function DecodeFixed(bs: seq<Byte>, n: nat): (r: Result<(seq<Byte>, seq<Byte>), CodecError>)
    ensures r.Success? <==> n <= |bs|
    ensures r.Success? ==> |r.value.0| == n && bs == r.value.0 + r.value.1
    ensures r.Failure? ==> r.error == NotEnoughData
  {
    if |bs| < n then Failure(NotEnoughData) else Success((bs[..n], bs[n..]))
  }

  /** A u128 is written as sixteen little-endian bytes. */
  const U128Width: nat := 16
  const U128Limit: nat := 0x1_0000_0000_0000_0000_0000_0000_0000_0000

  function EncodeU128(n: nat): (bs: seq<Byte>)
    requires n < U128Limit
    ensures |bs| == U128Width && FromLE(bs) == n
  {
    Pow256Table();
    ToLE(n, U128Width)
  }

  function DecodeU128(bs: seq<Byte>): (r: Result<(nat, seq<Byte>), CodecError>)
    ensures r.Success? <==> U128Width <= |bs|
    ensures r.Success? ==> r.value.0 < U128Limit && r.value.1 == bs[U128Width..]
  {
    Pow256Table();
    if |bs| < U128Width then Failure(NotEnoughData)
    else Success((FromLE(bs[..U128Width]), bs[U128Width..]))
  }

  lemma DecodeU128Encode(n: nat, rest: seq<Byte>)
    requires n < U128Limit
    ensures DecodeU128(EncodeU128(n) + rest) == Success((n, rest))
  {
    assert (EncodeU128(n) + rest)[..U128Width] == EncodeU128(n);
  }

  lemma EncodeU128OfDecode(bs: seq<Byte>)
    requires DecodeU128(bs).Success?
    ensures bs == EncodeU128(DecodeU128(bs).value.0) + DecodeU128(bs).value.1
  {
    Pow256Table();
    ToLEFromLE(bs[..U128Width]);
    assert bs == bs[..U128Width] + bs[U128Width..];
  }
}
