/**
 * The SCALE codec's compact (general) integer encoding, as defined in the
 * SCALE codec appendix of the Polkadot Protocol Specification under
 * "Compact/General Integers".
 *
 * The two low bits of the first byte select the mode:
 *   0b00  single byte:   values below 2^6, the value is the upper six bits;
 *   0b01  two bytes:     values below 2^14, little-endian, value shifted left by two;
 *   0b10  four bytes:    values below 2^30, little-endian, value shifted left by two;
 *   0b11  big integer:   the upper six bits hold (number of value bytes - 4), and that
 *                        many little-endian value bytes follow.
 * Decoding is canonical: a value written in a wider mode than it needs is refused.
 */
module Compact {
  import opened Bytes
  import opened Wrappers

  /** Why a byte string does not decode. */
  datatype CodecError =
    | NotEnoughData     // fewer bytes remain than the declared shape needs
    | OutOfRange        // the value is not the canonical one for its mode
    | UnexpectedPrefix  // big-integer mode declares more bytes than the target type has
    | NoSuchVariant     // an enum index no variant carries

  const SingleByteLimit: nat := 0x40      // 2^6
  const TwoByteLimit: nat := 0x4000       // 2^14
  const FourByteLimit: nat := 0x4000_0000 // 2^30
  /** The six-bit length field allows at most 63 + 4 value bytes. */
  const MaxBigLen: nat := 67

  /** Values the compact encoding can represent at all (below 2^536). */
  predicate Encodable(n: nat) {
    n < Pow256(MaxBigLen)
  }

  /** The number of value bytes big-integer mode writes for `n`: the fewest that hold it, and at least four. */
  function BigLen(n: nat): (len: nat)
    ensures 4 <= len
    ensures n < Pow256(len)
    ensures len == 4 || Pow256(len - 1) <= n
  {
    if ByteLen(n) < 4 then Pow256Monotone(ByteLen(n), 4); 4 else ByteLen(n)
  }

  /** The mode bits of the narrowest mode that holds `n`. */
  function ModeOf(n: nat): (m: nat)
    ensures m < 4
  {
    if n < SingleByteLimit then 0
    else if n < TwoByteLimit then 1
    else if n < FourByteLimit then 2
    else 3
  }

  /** The total length of `n`'s encoding in its mode: one, two or four bytes, or the length byte and the value bytes. */
  function EncodedLen(n: nat): (len: nat)
    ensures len == 1 <==> ModeOf(n) == 0
    ensures len == 2 <==> ModeOf(n) == 1
    ensures len == 4 <==> ModeOf(n) == 2
    ensures len >= 5 <==> ModeOf(n) == 3
  {
    if n < SingleByteLimit then 1
    else if n < TwoByteLimit then 2
    else if n < FourByteLimit then 4
    else 1 + BigLen(n)
  }

  /** Two-byte mode: `n` shifted left by two, mode bits 0b01, as a little-endian u16. */
  function EncodeTwoBytesMode(n: nat): (bs: seq<Byte>)
    requires n < TwoByteLimit
    ensures |bs| == 2 && bs[0] % 4 == 1
  {
    Pow256Table();
    ModeOfLowByte(n * 4 + 1, 2);
    DivMod(n * 4 + 1, 4, n, 1);
    ToLE(n * 4 + 1, 2)
  }

  /** Four-byte mode: `n` shifted left by two, mode bits 0b10, as a little-endian u32. */
  function EncodeFourBytesMode(n: nat): (bs: seq<Byte>)
    requires n < FourByteLimit
    ensures |bs| == 4 && bs[0] % 4 == 2
  {
    Pow256Table();
    ModeOfLowByte(n * 4 + 2, 4);
    DivMod(n * 4 + 2, 4, n, 2);
    ToLE(n * 4 + 2, 4)
  }

  /** Big-integer mode: the length byte, then the value bytes. */
  function EncodeBigMode(n: nat): (bs: seq<Byte>)
    requires Encodable(n)
    ensures |bs| == 1 + BigLen(n) && |bs| <= 1 + MaxBigLen
    ensures bs[0] % 4 == 3
  {
    ByteLenAtMost(n, MaxBigLen);
    var header: Byte := (BigLen(n) - 4) * 4 + 3;
    DivMod(header, 4, BigLen(n) - 4, 3);
    [header] + ToLE(n, BigLen(n))
  }

  /**
   * The compact encoding of `n`: each value takes the narrowest mode that holds
   * it, and the mode bits of the first byte name that mode.
   */
  function Encode(n: nat): (bs: seq<Byte>)
    requires Encodable(n)
    ensures 1 <= |bs| <= 1 + MaxBigLen
    ensures bs[0] % 4 == ModeOf(n) && |bs| == EncodedLen(n)
  {
    if n < SingleByteLimit then
      var b: Byte := n * 4;
      DivMod(b, 4, n, 0);
      [b]
    else if n < TwoByteLimit then EncodeTwoBytesMode(n)
    else if n < FourByteLimit then EncodeFourBytesMode(n)
    else EncodeBigMode(n)
  }

  /** Two-byte mode: the value is the little-endian u16 shifted right by two, and must need this mode. */
  function DecodeTwoBytes(bs: seq<Byte>): (r: Result<(nat, seq<Byte>), CodecError>)
    ensures r.Success? ==> SingleByteLimit <= r.value.0 < TwoByteLimit && 2 <= |bs| && r.value.1 == bs[2..]
  {
    Pow256Table();
    if |bs| < 2 then Failure(NotEnoughData)
    else
      var v := FromLE(bs[..2]) / 4;
      if v < SingleByteLimit then Failure(OutOfRange) else Success((v, bs[2..]))
  }

  /** Four-byte mode: the value is the little-endian u32 shifted right by two, and must need this mode. */
  function DecodeFourBytes(bs: seq<Byte>): (r: Result<(nat, seq<Byte>), CodecError>)
    ensures r.Success? ==> TwoByteLimit <= r.value.0 < FourByteLimit && 4 <= |bs| && r.value.1 == bs[4..]
  {
    Pow256Table();
    if |bs| < 4 then Failure(NotEnoughData)
    else
      var v := FromLE(bs[..4]) / 4;
      if v < TwoByteLimit then Failure(OutOfRange) else Success((v, bs[4..]))
  }

  /**
   * Big-integer mode: the first byte's upper six bits give the number of value
   * bytes less four; more bytes than the target type has, or a value that a
   * shorter form would hold, is refused.
   */
  function DecodeBig(bs: seq<Byte>, width: nat): (r: Result<(nat, seq<Byte>), CodecError>)
    requires 4 <= width <= MaxBigLen
    requires 1 <= |bs|
    ensures r.Success? ==> FourByteLimit <= r.value.0 < Pow256(width)
    ensures r.Success? ==> var len := bs[0] / 4 + 4;
      len <= width && 1 + len <= |bs| && r.value == (FromLE(bs[1..1 + len]), bs[1 + len..])
    ensures r.Success? ==> Pow256(bs[0] / 4 + 3) <= r.value.0
  {
    var len := bs[0] / 4 + 4;
    if len > width then Failure(UnexpectedPrefix)
    else if |bs| < 1 + len then Failure(NotEnoughData)
    else
      var v := FromLE(bs[1..1 + len]);
      Pow256Monotone(len, width);
      if v < FourByteLimit || v < Pow256(len - 1) then Failure(OutOfRange)
      else Success((v, bs[1 + len..]))
  }

  /**
   * Decodes one compact integer of a type `width` bytes wide (4 for u32, 8 for
   * u64, 16 for u128) from the front of `bs`, returning it with the bytes after it.
   */
  function Decode(bs: seq<Byte>, width: nat): (r: Result<(nat, seq<Byte>), CodecError>)
    requires 4 <= width <= MaxBigLen
    ensures r.Success? ==> r.value.0 < Pow256(width)
    ensures r.Success? ==> |r.value.1| < |bs| && r.value.1 == bs[|bs| - |r.value.1|..]
  {
    Pow256Table();
    Pow256Monotone(4, width);
    if |bs| == 0 then Failure(NotEnoughData)
    else if bs[0] % 4 == 0 then Success((bs[0] / 4, bs[1..]))
    else if bs[0] % 4 == 1 then DecodeTwoBytes(bs)
    else if bs[0] % 4 == 2 then DecodeFourBytes(bs)
    else DecodeBig(bs, width)
  }

  /** The single-byte mode: the value shifted left by two. */
  lemma EncodeSingle(n: nat)
    requires n < SingleByteLimit
    ensures Encodable(n)
    ensures |Encode(n)| == 1 && Encode(n)[0] == n * 4
  {
    Pow256Table();
    Pow256Monotone(4, MaxBigLen);
  }

  /** Below 2^14 the encoding is the two-byte little-endian form of `4n + 1`. */
  lemma EncodeIsTwoBytesMode(n: nat)
    requires SingleByteLimit <= n < TwoByteLimit
    ensures Encodable(n) && n * 4 + 1 < Pow256(2)
    ensures Encode(n) == ToLE(n * 4 + 1, 2)
  {
    Pow256Table();
    Pow256Monotone(4, MaxBigLen);
  }

  /** The two-byte mode written out byte by byte. */
  lemma EncodeTwoBytes(n: nat)
    requires SingleByteLimit <= n < TwoByteLimit
    ensures Encodable(n)
    ensures |Encode(n)| == 2 && Encode(n)[0] == 4 * (n % 64) + 1 && Encode(n)[1] == n / 64
  {
    var x := n * 4 + 1;
    EncodeIsTwoBytesMode(n);
    ToLEHead(x, 2);
    ToLEHead(x / 256, 1);
    DivMod(x, 256, n / 64, 4 * (n % 64) + 1);
    DivMod(n / 64, 256, 0, n / 64);
  }

  /** Between 2^14 and 2^30 the encoding is the four-byte little-endian form of `4n + 2`. */
  lemma EncodeIsFourBytesMode(n: nat)
    requires TwoByteLimit <= n < FourByteLimit
    ensures Encodable(n) && n * 4 + 2 < Pow256(4)
    ensures Encode(n) == ToLE(n * 4 + 2, 4)
  {
    Pow256Table();
    Pow256Monotone(4, MaxBigLen);
  }

  /** The four-byte mode: the mode byte, then the upper bits in three bytes. */
  lemma EncodeFourBytes(n: nat)
    requires TwoByteLimit <= n < FourByteLimit
    ensures Encodable(n)
    ensures n / 64 < Pow256(3)
    ensures |Encode(n)| == 4 && Encode(n)[0] == 4 * (n % 64) + 2 && Encode(n)[1..] == ToLE(n / 64, 3)
  {
    var x := n * 4 + 2;
    EncodeIsFourBytesMode(n);
    ToLEHead(x, 4);
    DivMod(x, 256, n / 64, 4 * (n % 64) + 2);
  }

  /** The big-integer mode: the length byte, then the value bytes. */
  lemma EncodeBig(n: nat)
    requires FourByteLimit <= n && Encodable(n)
    ensures BigLen(n) <= MaxBigLen
    ensures |Encode(n)| == 1 + BigLen(n) && Encode(n)[0] == (BigLen(n) - 4) * 4 + 3
    ensures Encode(n)[1..] == ToLE(n, BigLen(n))
  {
    Pow256Table();
    ByteLenAtMost(n, MaxBigLen);
  }

  lemma DecodeEncodeSingle(n: nat, width: nat, rest: seq<Byte>)
    requires 4 <= width <= MaxBigLen
    requires n < SingleByteLimit
    ensures Encodable(n)
    ensures Decode(Encode(n) + rest, width) == Success((n, rest))
  {
    Pow256Table();
    Pow256Monotone(4, MaxBigLen);
    var bs := Encode(n) + rest;
    DivMod(n * 4, 4, n, 0);
    assert bs[0] == n * 4 && bs[1..] == rest;
    DecodeModes(bs, width);
  }

  /** The mode bits of a little-endian integer are those of its lowest byte. */
  lemma ModeOfLowByte(x: nat, len: nat)
    requires 1 <= len && x < Pow256(len)
    ensures ToLE(x, len)[0] % 4 == x % 4
  {
    ToLEHead(x, len);
    DivMod(x % 256, 4, (x % 256) / 4, x % 4);
  }

  /** Two-byte mode reads back `4v + 1` written in two bytes. */
  lemma DecodeTwoBytesOf(bs: seq<Byte>, v: nat)
    requires SingleByteLimit <= v
    requires 2 <= |bs| && FromLE(bs[..2]) == 4 * v + 1
    ensures DecodeTwoBytes(bs) == Success((v, bs[2..]))
  {
    DivMod(4 * v + 1, 4, v, 1);
  }

  /** Four-byte mode reads back `4v + 2` written in four bytes. */
  lemma DecodeFourBytesOf(bs: seq<Byte>, v: nat)
    requires TwoByteLimit <= v
    requires 4 <= |bs| && FromLE(bs[..4]) == 4 * v + 2
    ensures DecodeFourBytes(bs) == Success((v, bs[4..]))
  {
    DivMod(4 * v + 2, 4, v, 2);
  }

  lemma DecodeEncodeTwoBytes(n: nat, width: nat, rest: seq<Byte>)
    requires 4 <= width <= MaxBigLen
    requires SingleByteLimit <= n < TwoByteLimit
    ensures Encodable(n)
    ensures Decode(Encode(n) + rest, width) == Success((n, rest))
  {
    var e := Encode(n);
    var bs := e + rest;
    EncodeIsTwoBytesMode(n);
    ModeOfLowByte(n * 4 + 1, 2);
    DivMod(n * 4 + 1, 4, n, 1);
    assert bs[..2] == e && bs[2..] == rest && bs[0] == e[0];
    DecodeModes(bs, width);
    DecodeTwoBytesOf(bs, n);
  }

  lemma DecodeEncodeFourBytes(n: nat, width: nat, rest: seq<Byte>)
    requires 4 <= width <= MaxBigLen
    requires TwoByteLimit <= n < FourByteLimit
    ensures Encodable(n)
    ensures Decode(Encode(n) + rest, width) == Success((n, rest))
  {
    var e := Encode(n);
    var bs := e + rest;
    EncodeIsFourBytesMode(n);
    ModeOfLowByte(n * 4 + 2, 4);
    DivMod(n * 4 + 2, 4, n, 2);
    assert bs[..4] == e && bs[4..] == rest && bs[0] == e[0];
    DecodeModes(bs, width);
    DecodeFourBytesOf(bs, n);
  }

  /** Big-integer mode reads back a length byte and value bytes in shortest form. */
  lemma DecodeBigOfParts(bs: seq<Byte>, width: nat, len: nat)
    requires 4 <= len <= width <= MaxBigLen
    requires 1 + len <= |bs| && bs[0] == (len - 4) * 4 + 3
    requires FourByteLimit <= FromLE(bs[1..1 + len]) && Pow256(len - 1) <= FromLE(bs[1..1 + len])
    ensures Decode(bs, width) == Success((FromLE(bs[1..1 + len]), bs[1 + len..]))
  {
    DivMod(bs[0], 4, len - 4, 3);
    DecodeModes(bs, width);
  }

  /** The value bytes big-integer mode writes are the shortest form of the value. */
  lemma BigLenShortest(n: nat)
    requires FourByteLimit <= n
    ensures Pow256(BigLen(n) - 1) <= n
  {
    if BigLen(n) == 4 {
      Pow256Table();
    }
  }

  lemma DecodeEncodeBig(n: nat, width: nat, rest: seq<Byte>)
    requires 4 <= width <= MaxBigLen
    requires FourByteLimit <= n < Pow256(width) && Encodable(n)
    ensures Decode(Encode(n) + rest, width) == Success((n, rest))
  {
    var e := Encode(n);
    var bs := e + rest;
    var len := BigLen(n);
    EncodeBig(n);
    ByteLenAtMost(n, width);
    BigLenShortest(n);
    assert bs[1..1 + len] == e[1..] && bs[1 + len..] == rest;
    DecodeBigOfParts(bs, width, len);
  }

  /** The mode bits of the first byte choose the decoder. */
  lemma DecodeModes(bs: seq<Byte>, width: nat)
    requires 4 <= width <= MaxBigLen
    requires 1 <= |bs|
    ensures bs[0] % 4 == 0 ==> Decode(bs, width) == Success((bs[0] / 4, bs[1..]))
    ensures bs[0] % 4 == 1 ==> Decode(bs, width) == DecodeTwoBytes(bs)
    ensures bs[0] % 4 == 2 ==> Decode(bs, width) == DecodeFourBytes(bs)
    ensures bs[0] % 4 == 3 ==> Decode(bs, width) == DecodeBig(bs, width)
  {
  }

  /** Decoding an encoding gives the value back and leaves what followed untouched. */
  lemma DecodeEncode(n: nat, width: nat, rest: seq<Byte>)
    requires 4 <= width <= MaxBigLen
    requires n < Pow256(width)
    ensures Encodable(n)
    ensures Decode(Encode(n) + rest, width) == Success((n, rest))
  {
    if n < SingleByteLimit {
      DecodeEncodeSingle(n, width, rest);
    } else if n < TwoByteLimit {
      DecodeEncodeTwoBytes(n, width, rest);
    } else if n < FourByteLimit {
      DecodeEncodeFourBytes(n, width, rest);
    } else {
      Pow256Monotone(width, MaxBigLen);
      DecodeEncodeBig(n, width, rest);
    }
  }

  /** A single-byte-mode byte is the encoding of its upper six bits. */
  lemma EncodeOfDecodeSingle(bs: seq<Byte>)
    requires 1 <= |bs| && bs[0] % 4 == 0
    ensures Encodable(bs[0] / 4)
    ensures bs == Encode(bs[0] / 4) + bs[1..]
  {
    var v := bs[0] / 4;
    EncodeSingle(v);
    DivMod(bs[0], 4, v, 0);
    SplitAfterHead(bs, Encode(v), 1);
  }

  lemma EncodeOfDecodeTwoBytes(bs: seq<Byte>)
    requires DecodeTwoBytes(bs).Success? && bs[0] % 4 == 1
    ensures Encodable(DecodeTwoBytes(bs).value.0)
    ensures bs == Encode(DecodeTwoBytes(bs).value.0) + DecodeTwoBytes(bs).value.1
  {
    var v := DecodeTwoBytes(bs).value.0;
    var a: int := bs[0] / 4;
    var b1: int := bs[1];
    var w := FromLE(bs[..2]);
    assert v == w / 4;
    FromLETwo(bs[..2]);
    assert w == 4 * (a + 64 * b1) + 1;
    DivMod(w, 4, a + 64 * b1, 1);
    DivMod(v, 64, b1, a);
    EncodeTwoBytes(v);
    SplitAfterHead(bs, Encode(v), 2);
  }

  lemma EncodeOfDecodeFourBytes(bs: seq<Byte>)
    requires DecodeFourBytes(bs).Success? && bs[0] % 4 == 2
    ensures Encodable(DecodeFourBytes(bs).value.0)
    ensures bs == Encode(DecodeFourBytes(bs).value.0) + DecodeFourBytes(bs).value.1
  {
    var v := DecodeFourBytes(bs).value.0;
    var a: int := bs[0] / 4;
    var hi := FromLE(bs[1..4]);
    var w := FromLE(bs[..4]);
    assert v == w / 4;
    assert bs[..4][1..] == bs[1..4];
    assert w == 4 * (a + 64 * hi) + 2;
    DivMod(w, 4, a + 64 * hi, 2);
    DivMod(v, 64, hi, a);
    EncodeFourBytes(v);
    ToLEFromLE(bs[1..4]);
    SplitAfterHead(bs, Encode(v), 4);
  }

  /** A length byte and value bytes in shortest form are the encoding of their value. */
  lemma EncodeOfBigParts(bs: seq<Byte>, len: nat)
    requires 4 <= len <= MaxBigLen
    requires 1 + len <= |bs| && bs[0] == (len - 4) * 4 + 3
    requires FourByteLimit <= FromLE(bs[1..1 + len]) && Pow256(len - 1) <= FromLE(bs[1..1 + len])
    ensures Encodable(FromLE(bs[1..1 + len]))
    ensures bs == Encode(FromLE(bs[1..1 + len])) + bs[1 + len..]
  {
    var vb := bs[1..1 + len];
    var v := FromLE(vb);
    Pow256Monotone(len, MaxBigLen);
    assert |vb| == len;
    assert v < Pow256(len);
    assert Pow256(len - 1) <= v;
    ByteLenUnique(v, len);
    assert BigLen(v) == len;
    EncodeBig(v);
    ToLEFromLE(vb);
    var e := Encode(v);
    assert e[0] == bs[0] && e[1..] == vb;
    SplitAfterHead(bs, e, 1 + len);
  }

  lemma EncodeOfDecodeBig(bs: seq<Byte>, width: nat)
    requires 4 <= width <= MaxBigLen
    requires 1 <= |bs| && bs[0] % 4 == 3 && DecodeBig(bs, width).Success?
    ensures Encodable(DecodeBig(bs, width).value.0)
    ensures bs == Encode(DecodeBig(bs, width).value.0) + DecodeBig(bs, width).value.1
  {
    var len := bs[0] / 4 + 4;
    DivMod(bs[0], 4, len - 4, 3);
    EncodeOfBigParts(bs, len);
  }

  /**
   * Canonicity: whatever decodes is exactly the encoding of the decoded value
   * followed by the remaining bytes, so no value has two accepted encodings.
   */
  lemma EncodeOfDecode(bs: seq<Byte>, width: nat)
    requires 4 <= width <= MaxBigLen
    requires Decode(bs, width).Success?
    ensures Encodable(Decode(bs, width).value.0)
    ensures bs == Encode(Decode(bs, width).value.0) + Decode(bs, width).value.1
  {
    DecodeModes(bs, width);
    if bs[0] % 4 == 0 {
      EncodeOfDecodeSingle(bs);
    } else if bs[0] % 4 == 1 {
      EncodeOfDecodeTwoBytes(bs);
    } else if bs[0] % 4 == 2 {
      EncodeOfDecodeFourBytes(bs);
    } else {
      EncodeOfDecodeBig(bs, width);
    }
  }

  /** Distinct values have distinct encodings. */
  lemma EncodeInjective(a: nat, b: nat)
    requires Encodable(a) && Encodable(b)
    requires Encode(a) == Encode(b)
    ensures a == b
  {
    Pow256Table();
    DecodeEncode(a, MaxBigLen, []);
    DecodeEncode(b, MaxBigLen, []);
  }
}
