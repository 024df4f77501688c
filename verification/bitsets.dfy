/** Bit sets: an unsigned integer of 1, 2, 4 or 8 bytes whose named choices
    are single bit positions below 32. The static choice functions test and
    set a bit of a value; the buffer-backed ones do the same on the set's
    bytes, converting from and to the declared byte order. */
module BitSets {
  import opened Endian
  import opened Buffers
  import opened Fields
  import opened Flyweights

  function Pow2(n: nat): (r: nat)
    ensures r >= 1
  {
    if n == 0 then 1 else 2 * Pow2(n - 1)
  }

  /** Bit k of v: the static getter `(bits & (1u << k)) != 0`. */
  function HasBit(v: nat, k: nat): bool
  {
    if k == 0 then v % 2 == 1 else HasBit(v / 2, k - 1)
  }

  /** v with bit k set to b and every other bit kept: `bits | (1u << k)` or
      `bits & ~(1u << k)` on an unbounded unsigned value. */
  function WithBit(v: nat, k: nat, b: bool): nat
  {
    if k == 0 then v / 2 * 2 + (if b then 1 else 0) else 2 * WithBit(v / 2, k - 1, b) + v % 2
  }

  /** Setting a bit and testing it gives the value set. */
  lemma {:induction false} BitAfterWith(v: nat, k: nat, b: bool)
    ensures HasBit(WithBit(v, k, b), k) == b
  {
    if k > 0 {
      BitAfterWith(v / 2, k - 1, b);
      assert WithBit(v, k, b) / 2 == WithBit(v / 2, k - 1, b);
    }
  }

  /** Setting a bit leaves every other bit as it was. */
  lemma {:induction false} OtherBitsAfterWith(v: nat, k: nat, b: bool, j: nat)
    requires j != k
    ensures HasBit(WithBit(v, k, b), j) == HasBit(v, j)
  {
    if k == 0 {
      assert WithBit(v, k, b) / 2 == v / 2;
    } else if j > 0 {
      OtherBitsAfterWith(v / 2, k - 1, b, j - 1);
      assert WithBit(v, k, b) / 2 == WithBit(v / 2, k - 1, b);
    }
  }

  /** Setting a bit below n keeps a value of n bits within n bits. */
  lemma {:induction false} WithBitBounded(v: nat, k: nat, b: bool, n: nat)
    requires v < Pow2(n) && k < n
    ensures WithBit(v, k, b) < Pow2(n)
  {
    var half := Pow2(n - 1);
    assert Pow2(n) == 2 * half;
    if k == 0 {
      assert v / 2 < half;
    } else {
      WithBitBounded(v / 2, k - 1, b, n - 1);
    }
  }

  /** A value of n bits is zero exactly when none of its n bits is set. */
  lemma {:induction false} NoBitsIffZero(v: nat, n: nat)
    requires v < Pow2(n)
    ensures v == 0 ==> forall k :: 0 <= k < n ==> !HasBit(v, k)
    ensures v != 0 ==> exists k :: 0 <= k < n && HasBit(v, k)
  {
    if v == 0 {
      forall k | 0 <= k < n
        ensures !HasBit(v, k)
      {
        ZeroHasNoBit(k);
      }
    } else {
      var k := SomeBit(v, n);
    }
  }

  lemma {:induction false} ZeroHasNoBit(k: nat)
    ensures !HasBit(0, k)
  {
    if k > 0 {
      ZeroHasNoBit(k - 1);
    }
  }

  /** A set bit of a non-zero value of n bits. */
  lemma {:induction false} SomeBit(v: nat, n: nat) returns (k: nat)
    requires 0 < v < Pow2(n)
    ensures k < n && HasBit(v, k)
  {
    if v % 2 == 1 {
      k := 0;
    } else {
      var k' := SomeBit(v / 2, n - 1);
      k := k' + 1;
    }
  }

  lemma {:induction false} Pow2Add(a: nat, b: nat)
    ensures Pow2(a + b) == Pow2(a) * Pow2(b)
  {
    if a > 0 {
      Pow2Add(a - 1, b);
    }
  }

  /** A width in bytes holds eight bits per byte. */
  lemma {:induction false} Pow256Bits(width: nat)
    ensures Pow256(width) == Pow2(8 * width)
  {
    if width > 0 {
      Pow256Bits(width - 1);
      Pow2Add(8, 8 * (width - 1));
      assert Pow2(8) == 256;
    }
  }

  /** The static setter as the corrected code computes it: the bit changed in
      an unbounded value, then `static_cast` back to the set's type. */
  function WithChoice(bits: nat, t: IntType, k: nat, value: bool): (r: nat)
    requires t.Valid() && k < 32
    ensures r < Pow256(t.width)
  {
    WithBit(bits, k, value) % Pow256(t.width)
  }

  /** The static setter as written: `~(1u << k)` is a 32-bit mask, so clearing
      a choice of an eight-byte set also clears bits 32 to 63. */
  function WithChoiceAsWritten(bits: nat, t: IntType, k: nat, value: bool): (r: nat)
    requires t.Valid() && k < 32
    ensures r < Pow256(t.width)
  {
    (if value then WithBit(bits, k, true) else WithBit(bits % Pow2(32), k, false)) % Pow256(t.width)
  }

  /** For a set of at most four bytes the 32-bit mask is wide enough. */
  lemma WithChoiceAsWrittenNarrow(bits: nat, t: IntType, k: nat, value: bool)
    requires t.Valid() && t.width <= 4 && k < 32 && bits < Pow256(t.width)
    ensures WithChoiceAsWritten(bits, t, k, value) == WithChoice(bits, t, k, value)
  {
    if !value {
      Pow256Bits(t.width);
      Pow2Mono(8 * t.width, 32);
      ModSmall(bits, Pow2(32));
    }
  }

  lemma {:induction false} Pow2Mono(a: nat, b: nat)
    requires a <= b
    ensures Pow2(a) <= Pow2(b)
  {
    if a < b {
      Pow2Mono(a, b - 1);
    }
  }

  lemma ModSmall(a: nat, m: nat)
    requires a < m
    ensures a % m == a
  {
  }

  /** An eight-byte set with only bit 32 set loses that bit when choice 0 is cleared. */
  lemma WithChoiceAsWrittenLosesHighBits()
    ensures HasBit(Pow2(32), 32)
    ensures !HasBit(WithChoiceAsWritten(Pow2(32), IntType(8, false), 0, false), 32)
  {
    var m := Pow2(32);
    HasBitPow2(32);
    assert m % m == 0;
    assert WithBit(0, 0, false) == 0;
    ZeroHasNoBit(32);
  }

  lemma {:induction false} HasBitPow2(n: nat)
    ensures HasBit(Pow2(n), n)
  {
    if n > 0 {
      HasBitPow2(n - 1);
      assert Pow2(n) / 2 == Pow2(n - 1);
    }
  }

  /** The corrected static setter: for a choice inside the set's type, the
      chosen bit reads back as set and every other bit is kept. */
  lemma WithChoiceSetsOnlyK(bits: nat, t: IntType, k: nat, value: bool, j: nat)
    requires t.Valid() && k < 32 && k < 8 * t.width && bits < Pow256(t.width)
    ensures HasBit(WithChoice(bits, t, k, value), k) == value
    ensures j != k ==> HasBit(WithChoice(bits, t, k, value), j) == HasBit(bits, j)
  {
    Pow256Bits(t.width);
    WithBitBounded(bits, k, value, 8 * t.width);
    ModSmall(WithBit(bits, k, value), Pow256(t.width));
    BitAfterWith(bits, k, value);
    if j != k {
      OtherBitsAfterWith(bits, k, value, j);
    }
  }

  /** A bit set's encoding type: unsigned, in a declared byte order. */
  datatype SetEncoding = SetEncoding(t: IntType, order: ByteOrder)
  {
    predicate Valid() { t.Valid() && !t.signed }
  }

  /** The set's value held in the bytes at `at`, read in the declared order. */
  function SetValue(s: seq<byte>, at: nat, enc: SetEncoding): (r: nat)
    requires at + enc.t.width <= |s|
    ensures r < Pow256(enc.t.width)
  {
    DecodeUnsigned(s[at..at + enc.t.width], enc.order)
  }

  /** The bytes after the buffer-backed setter of choice k. */
  function SetChoiceBytes(s: seq<byte>, at: nat, enc: SetEncoding, k: nat, value: bool): (r: seq<byte>)
    requires enc.Valid() && k < 32 && at + enc.t.width <= |s|
    ensures |r| == |s|
  {
    Splice(s, at, EncodeUnsigned(WithChoice(SetValue(s, at, enc), enc.t, k, value), enc.t.width, enc.order))
  }

  /** The bytes after the buffer-backed setter as written: the same read,
      change and write back, with the 32-bit clear mask of `WithChoiceAsWritten`. */
  function SetChoiceBytesAsWritten(s: seq<byte>, at: nat, enc: SetEncoding, k: nat, value: bool): (r: seq<byte>)
    requires enc.Valid() && k < 32 && at + enc.t.width <= |s|
    ensures |r| == |s|
  {
    Splice(s, at, EncodeUnsigned(WithChoiceAsWritten(SetValue(s, at, enc), enc.t, k, value), enc.t.width, enc.order))
  }

  /** For a set of at most four bytes the buffer-backed setter as written
      writes the same bytes as the corrected one. */
  lemma SetChoiceAsWrittenNarrow(s: seq<byte>, at: nat, enc: SetEncoding, k: nat, value: bool)
    requires enc.Valid() && enc.t.width <= 4 && k < 32 && at + enc.t.width <= |s|
    ensures SetChoiceBytesAsWritten(s, at, enc, k, value) == SetChoiceBytes(s, at, enc, k, value)
  {
    WithChoiceAsWrittenNarrow(SetValue(s, at, enc), enc.t, k, value);
  }

  /** The setter as written leaves in the set the value `WithChoiceAsWritten` computes. */
  lemma SetValueAsWritten(s: seq<byte>, at: nat, enc: SetEncoding, k: nat, value: bool)
    requires enc.Valid() && k < 32 && at + enc.t.width <= |s|
    ensures SetValue(SetChoiceBytesAsWritten(s, at, enc, k, value), at, enc) ==
      WithChoiceAsWritten(SetValue(s, at, enc), enc.t, k, value)
  {
    var written := WithChoiceAsWritten(SetValue(s, at, enc), enc.t, k, value);
    SpliceRead(s, at, EncodeUnsigned(written, enc.t.width, enc.order));
    DecodeEncodeUnsigned(written, enc.t.width, enc.order);
  }

  /** Bit 32 fits an eight-byte set. */
  lemma Bit32Fits()
    ensures Pow2(32) < Pow256(8)
  {
    Pow256Bits(8);
    Pow2Mono(33, 64);
    assert Pow2(33) == 2 * Pow2(32);
  }

  /** Clearing any choice of an eight-byte set with the setter as written
      leaves a value below 2^32: every bit from 32 to 63 is lost, whatever
      the set held before. */
  lemma SetChoiceAsWrittenClearsHighBits(s: seq<byte>, at: nat, order: ByteOrder, k: nat)
    requires k < 32 && at + 8 <= |s|
    ensures SetValue(SetChoiceBytesAsWritten(s, at, SetEncoding(IntType(8, false), order), k, false),
                     at, SetEncoding(IntType(8, false), order)) < Pow2(32)
  {
    var enc := SetEncoding(IntType(8, false), order);
    var low := SetValue(s, at, enc) % Pow2(32);
    SetValueAsWritten(s, at, enc, k, false);
    WithBitBounded(low, k, false, 32);
    Bit32Fits();
    ModSmall(WithBit(low, k, false), Pow256(8));
  }

  /** The bitset flyweight is bound over a block the size of its encoding. */
  ghost predicate Bound(fw: Flyweight, enc: SetEncoding)
    reads fw
  {
    enc.Valid() && fw.Bound() && fw.encodedLength == enc.t.width
  }

  /** The buffer-backed choice getter. */
  method GetChoice(fw: Flyweight, enc: SetEncoding, k: nat) returns (b: bool)
    requires Bound(fw, enc) && k < 32
    ensures b == HasBit(SetValue(fw.buffer[..], fw.offset, enc), k)
  {
    var bits := DecodeUnsigned(fw.buffer[fw.offset..fw.offset + enc.t.width], enc.order);
    b := HasBit(bits, k);
  }

  /** The buffer-backed choice setter: read, change the bit, write back. */
  method SetChoice(fw: Flyweight, enc: SetEncoding, k: nat, value: bool)
    requires Bound(fw, enc) && k < 32
    modifies fw.buffer
    ensures fw.buffer[..] == SetChoiceBytes(old(fw.buffer[..]), fw.offset, enc, k, value)
  {
    var bits := DecodeUnsigned(fw.buffer[fw.offset..fw.offset + enc.t.width], enc.order);
    bits := WithChoice(bits, enc.t, k, value);
    CopyIn(fw.buffer, fw.offset, EncodeUnsigned(bits, enc.t.width, enc.order));
  }

  /** After the setter, choice k reads back as the value set, every other
      choice as before, and the bytes outside the set are untouched. */
  lemma SetChoiceThenGet(s: seq<byte>, at: nat, enc: SetEncoding, k: nat, value: bool, j: nat)
    requires enc.Valid() && k < 32 && k < 8 * enc.t.width && at + enc.t.width <= |s|
    ensures HasBit(SetValue(SetChoiceBytes(s, at, enc, k, value), at, enc), k) == value
    ensures j != k ==>
      HasBit(SetValue(SetChoiceBytes(s, at, enc, k, value), at, enc), j) == HasBit(SetValue(s, at, enc), j)
  {
    var w := enc.t.width;
    var bits := WithChoice(SetValue(s, at, enc), enc.t, k, value);
    SpliceRead(s, at, EncodeUnsigned(bits, w, enc.order));
    DecodeEncodeUnsigned(bits, w, enc.order);
    WithChoiceSetsOnlyK(SetValue(s, at, enc), enc.t, k, value, j);
  }

  /** `clear()`: zero bytes over the set. */
  method Clear(fw: Flyweight, enc: SetEncoding)
    requires Bound(fw, enc)
    modifies fw.buffer
    ensures fw.buffer[..] == Splice(old(fw.buffer[..]), fw.offset, Zeros(enc.t.width))
  {
    CopyIn(fw.buffer, fw.offset, Zeros(enc.t.width));
  }

  /** `isEmpty()`: compares the raw bytes with 0, which needs no byte-order
      conversion; it holds exactly when the set's value is 0. */
  method IsEmpty(fw: Flyweight, enc: SetEncoding) returns (b: bool)
    requires Bound(fw, enc)
    ensures b <==> SetValue(fw.buffer[..], fw.offset, enc) == 0
  {
    var raw := fw.buffer[fw.offset..fw.offset + enc.t.width];
    b := raw == Zeros(enc.t.width);
    assert raw == fw.buffer[..][fw.offset..fw.offset + enc.t.width];
    DecodeUnsignedZero(raw, enc.order);
    assert (forall k :: 0 <= k < |raw| ==> raw[k] == 0) <==> raw == Zeros(enc.t.width);
  }

  /** A set is empty exactly when none of its choices is set. */
  lemma EmptyIffNoChoice(s: seq<byte>, at: nat, enc: SetEncoding)
    requires enc.Valid() && at + enc.t.width <= |s|
    ensures SetValue(s, at, enc) == 0 <==> forall k :: 0 <= k < 8 * enc.t.width ==> !HasBit(SetValue(s, at, enc), k)
  {
    Pow256Bits(enc.t.width);
    NoBitsIffZero(SetValue(s, at, enc), 8 * enc.t.width);
  }

  /** After `clear()` the set is empty. */
  lemma ClearThenEmpty(s: seq<byte>, at: nat, enc: SetEncoding)
    requires enc.Valid() && at + enc.t.width <= |s|
    ensures SetValue(Splice(s, at, Zeros(enc.t.width)), at, enc) == 0
  {
    SpliceRead(s, at, Zeros(enc.t.width));
    DecodeUnsignedZero(Zeros(enc.t.width), enc.order);
  }
}
