/** Fixed-width integers as the emitted codec stores them: `memcpy` of the
    value after the SBE_BIG_ENDIAN_ENCODE_n / SBE_LITTLE_ENDIAN_ENCODE_n
    conversion, so that the bytes in the buffer are always in the field's
    declared byte order, whatever the host's. */
module Endian {

  newtype byte = b: int | 0 <= b < 256

  datatype ByteOrder = LittleEndian | BigEndian

  /** An integer primitive: width in bytes, two's complement when signed. */
  datatype IntType = IntType(width: nat, signed: bool)
  {
    predicate Valid() { width == 1 || width == 2 || width == 4 || width == 8 }
  }

  function Pow256(n: nat): (r: nat)
    ensures r >= 1
  {
    if n == 0 then 1 else 256 * Pow256(n - 1)
  }

  /** Least significant byte first, the value taken modulo 256^width. */
  function LittleBytes(v: nat, width: nat): (r: seq<byte>)
    ensures |r| == width
  {
    if width == 0 then [] else [(v % 256) as byte] + LittleBytes(v / 256, width - 1)
  }

  /** The unsigned value of little-endian bytes. */
  function LittleValue(bs: seq<byte>): (r: nat)
    ensures r < Pow256(|bs|)
  {
    if bs == [] then 0 else bs[0] as nat + 256 * LittleValue(bs[1..])
  }

  function Reverse(s: seq<byte>): (r: seq<byte>)
    ensures |r| == |s|
  {
    if s == [] then [] else Reverse(s[1..]) + [s[0]]
  }

  lemma {:induction false} ReverseAt(s: seq<byte>)
    ensures forall k :: 0 <= k < |s| ==> Reverse(s)[k] == s[|s| - 1 - k]
  {
    if s != [] {
      ReverseAt(s[1..]);
    }
  }

  /** The bytes of the unsigned value v in the given order. */
  function EncodeUnsigned(v: nat, width: nat, order: ByteOrder): (r: seq<byte>)
    ensures |r| == width
  {
    if order == LittleEndian then LittleBytes(v, width) else Reverse(LittleBytes(v, width))
  }

  /** The unsigned value of bytes stored in the given order. */
  function DecodeUnsigned(bs: seq<byte>, order: ByteOrder): (r: nat)
    ensures r < Pow256(|bs|)
  {
    LittleValue(if order == LittleEndian then bs else Reverse(bs))
  }

  /** Half the range of a width: 2^(8*width - 1). */
  function Half(width: nat): (r: nat)
    requires width >= 1
    ensures 2 * r == Pow256(width)
  {
    128 * Pow256(width - 1)
  }

  function MinValue(t: IntType): int
    requires t.Valid()
  {
    if t.signed then -(Half(t.width) as int) else 0
  }

  function MaxValue(t: IntType): int
    requires t.Valid()
  {
    if t.signed then Half(t.width) - 1 else Pow256(t.width) - 1
  }

  predicate InRange(v: int, t: IntType)
    requires t.Valid()
  {
    MinValue(t) <= v <= MaxValue(t)
  }

  /** The bytes a store of v leaves in the buffer: v reduced modulo 256^width,
      which is two's complement for the negative values of a signed type. */
  function Encode(v: int, t: IntType, order: ByteOrder): (r: seq<byte>)
    ensures |r| == t.width
  {
    EncodeUnsigned(v % Pow256(t.width), t.width, order)
  }

  /** The value a load returns from the bytes of a field. */
  function Decode(bs: seq<byte>, t: IntType, order: ByteOrder): (r: int)
    requires t.Valid() && |bs| == t.width
    ensures InRange(r, t)
  {
    var u := DecodeUnsigned(bs, order);
    if t.signed && u >= Half(t.width) then u - Pow256(t.width) else u
  }

  lemma {:induction false} LittleRoundTrip(v: nat, width: nat)
    requires v < Pow256(width)
    ensures LittleValue(LittleBytes(v, width)) == v
  {
    if width > 0 {
      LittleRoundTrip(v / 256, width - 1);
      var bs := LittleBytes(v, width);
      assert bs[1..] == LittleBytes(v / 256, width - 1);
    }
  }

  lemma {:induction false} LittleBytesOfValue(bs: seq<byte>)
    ensures LittleBytes(LittleValue(bs), |bs|) == bs
  {
    if bs != [] {
      var v := LittleValue(bs);
      assert v % 256 == bs[0] as nat;
      assert v / 256 == LittleValue(bs[1..]);
      LittleBytesOfValue(bs[1..]);
    }
  }

  lemma ReverseReverse(s: seq<byte>)
    ensures Reverse(Reverse(s)) == s
  {
    ReverseAt(s);
    ReverseAt(Reverse(s));
    assert forall k :: 0 <= k < |s| ==> Reverse(Reverse(s))[k] == s[k];
  }

  /** Loading what was stored gives back the unsigned value, in either order. */
  lemma DecodeEncodeUnsigned(v: nat, width: nat, order: ByteOrder)
    requires v < Pow256(width)
    ensures DecodeUnsigned(EncodeUnsigned(v, width, order), order) == v
  {
    LittleRoundTrip(v, width);
    if order == BigEndian {
      ReverseReverse(LittleBytes(v, width));
    }
  }

  /** Storing what was loaded rewrites the same bytes. */
  lemma EncodeDecodeUnsigned(bs: seq<byte>, order: ByteOrder)
    ensures EncodeUnsigned(DecodeUnsigned(bs, order), |bs|, order) == bs
  {
    if order == LittleEndian {
      LittleBytesOfValue(bs);
    } else {
      LittleBytesOfValue(Reverse(bs));
      ReverseReverse(bs);
    }
  }

  /** Reduction modulo p of a value within one period of zero. */
  lemma ModOfRange(v: int, p: int)
    requires p > 0 && -p <= v < p
    ensures v % p == if v < 0 then v + p else v
  {
    if v < 0 {
      assert (v / p) * p + v % p == v;
    }
  }

  /** A store followed by a load returns the stored value, for every integer
      type and byte order. */
  lemma DecodeEncode(v: int, t: IntType, order: ByteOrder)
    requires t.Valid() && InRange(v, t)
    ensures Decode(Encode(v, t, order), t, order) == v
  {
    var p := Pow256(t.width);
    ModOfRange(v, p);
    DecodeEncodeUnsigned(v % p, t.width, order);
  }

  /** A load followed by a store of the loaded value leaves the bytes as they were. */
  lemma EncodeDecode(bs: seq<byte>, t: IntType, order: ByteOrder)
    requires t.Valid() && |bs| == t.width
    ensures Encode(Decode(bs, t, order), t, order) == bs
  {
    var u := DecodeUnsigned(bs, order);
    var p := Pow256(t.width);
    var d := Decode(bs, t, order);
    assert d == u || d == u as int - p;
    ModOfRange(d, p);
    assert d % p == u;
    EncodeDecodeUnsigned(bs, order);
  }

  lemma {:induction false} LittleValueZero(bs: seq<byte>)
    ensures LittleValue(bs) == 0 <==> forall k :: 0 <= k < |bs| ==> bs[k] == 0
  {
    if bs != [] {
      LittleValueZero(bs[1..]);
      assert forall k :: 1 <= k < |bs| ==> bs[k] == bs[1..][k - 1];
    }
  }

  /** The value is zero exactly when every byte is zero, in either order: the
      bit-set `isEmpty()` compares the raw bytes with 0 without conversion. */
  lemma DecodeUnsignedZero(bs: seq<byte>, order: ByteOrder)
    ensures DecodeUnsigned(bs, order) == 0 <==> forall k :: 0 <= k < |bs| ==> bs[k] == 0
  {
    if order == LittleEndian {
      LittleValueZero(bs);
    } else {
      var r := Reverse(bs);
      ReverseAt(bs);
      LittleValueZero(r);
      if forall k :: 0 <= k < |r| ==> r[k] == 0 {
        forall k | 0 <= k < |bs| ensures bs[k] == 0 {
          assert r[|bs| - 1 - k] == bs[k];
        }
      }
    }
  }
}
