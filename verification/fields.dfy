/** Fixed-offset fields of a flyweight: the integer scalar accessors, the
    fixed-length array accessors and the char-array text accessors. Every
    accessor addresses `m_buffer + m_offset + offset`; `base` below is the
    flyweight's `m_offset`. */
module Fields {
  import opened Endian
  import opened Errors
  import opened Buffers
  import opened Text

  /** An integer field: offset within the block, primitive type, byte order. */
  datatype ScalarField = ScalarField(offset: nat, t: IntType, order: ByteOrder)

  /** A fixed-length array field of `length` elements of type t. */
  datatype ArrayField = ArrayField(offset: nat, t: IntType, order: ByteOrder, length: nat)
  {
    function Size(): nat { Times(length, t.width) }
    function ElementOffset(index: nat): nat { offset + Times(index, t.width) }
  }

  /** A fixed-length char array field. */
  datatype CharArrayField = CharArrayField(offset: nat, length: nat)

  /** The integer that a load (memcpy then byte-order conversion) takes from the
      bytes at position at. */
  function ValueAt(s: seq<byte>, at: nat, t: IntType, order: ByteOrder): (r: int)
    requires t.Valid() && at + t.width <= |s|
    ensures InRange(r, t)
  {
    Decode(s[at..at + t.width], t, order)
  }

  /** The buffer after a store (byte-order conversion then memcpy) of v at at. */
  function StoreAt(s: seq<byte>, at: nat, t: IntType, order: ByteOrder, v: int): (r: seq<byte>)
    requires t.Valid() && at + t.width <= |s|
    ensures |r| == |s|
  {
    Splice(s, at, Encode(v, t, order))
  }

  /** A load after a store returns the stored value. */
  lemma LoadAfterStore(s: seq<byte>, at: nat, t: IntType, order: ByteOrder, v: int)
    requires t.Valid() && InRange(v, t) && at + t.width <= |s|
    ensures ValueAt(StoreAt(s, at, t, order, v), at, t, order) == v
  {
    SpliceRead(s, at, Encode(v, t, order));
    DecodeEncode(v, t, order);
  }

  /** Bytes that hold the encoding of v load as v. */
  lemma ValueOfEncoded(s: seq<byte>, at: nat, t: IntType, order: ByteOrder, v: int)
    requires t.Valid() && InRange(v, t) && at + t.width <= |s|
    requires s[at..at + t.width] == Encode(v, t, order)
    ensures ValueAt(s, at, t, order) == v
  {
    DecodeEncode(v, t, order);
  }

  /** A store leaves a field whose bytes it does not cover as it was. */
  lemma LoadAfterOtherStore(s: seq<byte>, at: nat, t: IntType, order: ByteOrder, v: int,
                            at2: nat, t2: IntType, order2: ByteOrder)
    requires t.Valid() && at + t.width <= |s|
    requires t2.Valid() && at2 + t2.width <= |s|
    requires at + t.width <= at2 || at2 + t2.width <= at
    ensures ValueAt(StoreAt(s, at, t, order, v), at2, t2, order2) == ValueAt(s, at2, t2, order2)
  {
    SpliceElsewhere(s, at, Encode(v, t, order), at2, at2 + t2.width);
  }

  /** Storing the value just loaded leaves the bytes as they were. */
  lemma StoreLoaded(s: seq<byte>, at: nat, t: IntType, order: ByteOrder)
    requires t.Valid() && at + t.width <= |s|
    ensures StoreAt(s, at, t, order, ValueAt(s, at, t, order)) == s
  {
    var bs := s[at..at + t.width];
    EncodeDecode(bs, t, order);
    assert s == s[..at] + bs + s[at + t.width..];
  }

  /** The scalar getter. */
  method GetScalar(buffer: array<byte>, base: nat, f: ScalarField) returns (v: int)
    requires f.t.Valid() && base + f.offset + f.t.width <= buffer.Length
    ensures v == ValueAt(buffer[..], base + f.offset, f.t, f.order)
  {
    var at := base + f.offset;
    assert buffer[at..at + f.t.width] == buffer[..][at..at + f.t.width];
    v := Decode(buffer[at..at + f.t.width], f.t, f.order);
  }

  /** The scalar setter. */
  method SetScalar(buffer: array<byte>, base: nat, f: ScalarField, v: int)
    requires f.t.Valid() && InRange(v, f.t) && base + f.offset + f.t.width <= buffer.Length
    modifies buffer
    ensures buffer[..] == StoreAt(old(buffer[..]), base + f.offset, f.t, f.order, v)
  {
    CopyIn(buffer, base + f.offset, Encode(v, f.t, f.order));
  }

  /** k * w, the byte size of k elements of width w, written as repeated
      addition so that offsets stay linear for the solver. */
  function Times(k: nat, w: nat): nat
  {
    if k == 0 then 0 else Times(k - 1, w) + w
  }

  lemma {:induction false} TimesIsProduct(k: nat, w: nat)
    ensures Times(k, w) == k * w
  {
    if k > 0 {
      TimesIsProduct(k - 1, w);
    }
  }

  lemma {:induction false} TimesMono(a: nat, b: nat, w: nat)
    requires a <= b
    ensures Times(a, w) <= Times(b, w)
  {
    if a < b {
      TimesMono(a, b - 1, w);
    }
  }

  /** Element index of an array lies inside the array when index < length. */
  lemma ElementInside(f: ArrayField, index: nat)
    requires index < f.length
    ensures f.ElementOffset(index) + f.t.width <= f.offset + f.Size()
  {
    TimesMono(index + 1, f.length, f.t.width);
  }

  /** Distinct elements occupy disjoint bytes. */
  lemma ElementsDisjoint(f: ArrayField, i: nat, j: nat)
    requires i < j
    ensures f.ElementOffset(i) + f.t.width <= f.ElementOffset(j)
  {
    TimesMono(i + 1, j, f.t.width);
  }

  /** The indexed getter: E104 for an index outside the array. */
  method GetElement(buffer: array<byte>, base: nat, f: ArrayField, index: nat) returns (r: Result<int>)
    requires f.t.Valid() && base + f.offset + f.Size() <= buffer.Length
    ensures index >= f.length ==> r == Err(GetIndexOutOfRange)
    ensures index < f.length ==>
      base + f.ElementOffset(index) + f.t.width <= buffer.Length &&
      r == Ok(ValueAt(buffer[..], base + f.ElementOffset(index), f.t, f.order))
  {
    if index >= f.length {
      return Err(GetIndexOutOfRange);
    }
    ElementInside(f, index);
    var at := base + f.ElementOffset(index);
    r := Ok(Decode(buffer[at..at + f.t.width], f.t, f.order));
  }

  /** The indexed setter: E105 for an index outside the array, the buffer untouched. */
  method SetElement(buffer: array<byte>, base: nat, f: ArrayField, index: nat, v: int) returns (r: Result<()>)
    requires f.t.Valid() && InRange(v, f.t) && base + f.offset + f.Size() <= buffer.Length
    modifies buffer
    ensures index >= f.length ==> r == Err(SetIndexOutOfRange) && buffer[..] == old(buffer[..])
    ensures index < f.length ==>
      base + f.ElementOffset(index) + f.t.width <= buffer.Length && r == Ok(()) &&
      buffer[..] == StoreAt(old(buffer[..]), base + f.ElementOffset(index), f.t, f.order, v)
  {
    if index >= f.length {
      return Err(SetIndexOutOfRange);
    }
    ElementInside(f, index);
    SetScalar(buffer, base, ScalarField(f.ElementOffset(index), f.t, f.order), v);
    r := Ok(());
  }

  /** A store to one element leaves every other element as it was. */
  lemma ElementsIndependent(s: seq<byte>, base: nat, f: ArrayField, i: nat, j: nat, v: int)
    requires f.t.Valid() && base + f.offset + f.Size() <= |s|
    requires i < f.length && j < f.length && i != j
    ensures base + f.ElementOffset(i) + f.t.width <= |s| && base + f.ElementOffset(j) + f.t.width <= |s|
    ensures ValueAt(StoreAt(s, base + f.ElementOffset(i), f.t, f.order, v), base + f.ElementOffset(j), f.t, f.order)
         == ValueAt(s, base + f.ElementOffset(j), f.t, f.order)
  {
    ElementInside(f, i);
    ElementInside(f, j);
    if i < j { ElementsDisjoint(f, i, j); } else { ElementsDisjoint(f, j, i); }
    LoadAfterOtherStore(s, base + f.ElementOffset(i), f.t, f.order, v, base + f.ElementOffset(j), f.t, f.order);
  }

  /** The bulk getter: E106 when more elements are asked for than the array
      holds; otherwise a raw copy of `length` elements, without byte-order
      conversion, into dst. */
  method GetArray(buffer: array<byte>, base: nat, f: ArrayField, dst: array<byte>, length: nat) returns (r: Result<nat>)
    requires base + f.offset + f.Size() <= buffer.Length
    requires dst != buffer
    requires length <= f.length ==> Times(length, f.t.width) <= dst.Length
    modifies dst
    ensures length > f.length ==> r == Err(LengthTooLarge) && dst[..] == old(dst[..])
    ensures length <= f.length ==>
      Times(length, f.t.width) <= f.Size() && r == Ok(length) &&
      dst[..] == Splice(old(dst[..]), 0, buffer[base + f.offset..base + f.offset + Times(length, f.t.width)])
  {
    if length > f.length {
      return Err(LengthTooLarge);
    }
    TimesMono(length, f.length, f.t.width);
    var at := base + f.offset;
    CopyIn(dst, 0, buffer[at..at + Times(length, f.t.width)]);
    r := Ok(length);
  }

  /** The bulk setter: a raw copy of the whole array from src. */
  method PutArray(buffer: array<byte>, base: nat, f: ArrayField, src: seq<byte>)
    requires |src| == f.Size() && base + f.offset + f.Size() <= buffer.Length
    modifies buffer
    ensures buffer[..] == Splice(old(buffer[..]), base + f.offset, src)
  {
    CopyIn(buffer, base + f.offset, src);
  }

  /** The bytes of the values stored one after the other. */
  function EncodeAll(vs: seq<int>, t: IntType, order: ByteOrder): (r: seq<byte>)
    requires t.Valid()
    ensures |r| == Times(|vs|, t.width)
  {
    if vs == [] then [] else EncodeAll(vs[..|vs| - 1], t, order) + Encode(vs[|vs| - 1], t, order)
  }


  /** Appending one value appends its bytes, after i elements' worth of bytes. */
  lemma EncodeAllSnoc(vs: seq<int>, t: IntType, order: ByteOrder, i: nat)
    requires t.Valid()
    requires i < |vs|
    ensures |EncodeAll(vs[..i], t, order)| == Times(i, t.width)
    ensures Times(i, t.width) + t.width <= Times(|vs|, t.width)
    ensures EncodeAll(vs[..i + 1], t, order) == EncodeAll(vs[..i], t, order) + Encode(vs[i], t, order)
  {
    assert vs[..i + 1][..i] == vs[..i];
    TimesMono(i + 1, |vs|, t.width);
  }

  /** Element k of the stored values occupies bytes [k*width, (k+1)*width). */
  lemma {:induction false} EncodeAllAt(vs: seq<int>, t: IntType, order: ByteOrder, k: nat)
    requires t.Valid()
    requires k < |vs|
    ensures Times(k, t.width) + t.width <= |EncodeAll(vs, t, order)|
    ensures EncodeAll(vs, t, order)[Times(k, t.width)..Times(k, t.width) + t.width] == Encode(vs[k], t, order)
  {
    var n := |vs| - 1;
    if k < n {
      EncodeAllAt(vs[..n], t, order, k);
      assert vs[..n][k] == vs[k];
      EncodeAllFront(vs, t, order, Times(k, t.width), Times(k, t.width) + t.width, Encode(vs[k], t, order));
    } else {
      EncodeAllLast(vs, t, order);
    }
  }

  /** The bytes of all but the last value are a prefix of the bytes of all. */
  lemma EncodeAllFront(vs: seq<int>, t: IntType, order: ByteOrder, from: nat, to: nat, part: seq<byte>)
    requires t.Valid() && vs != []
    requires from <= to <= |EncodeAll(vs[..|vs| - 1], t, order)|
    requires EncodeAll(vs[..|vs| - 1], t, order)[from..to] == part
    ensures to <= |EncodeAll(vs, t, order)| && EncodeAll(vs, t, order)[from..to] == part
  {
    var front := EncodeAll(vs[..|vs| - 1], t, order);
    var last := Encode(vs[|vs| - 1], t, order);
    assert EncodeAll(vs, t, order) == front + last;
    SliceOfFront(front, last, from, to);
  }

  /** The last value's bytes end the bytes of all. */
  lemma EncodeAllLast(vs: seq<int>, t: IntType, order: ByteOrder)
    requires t.Valid() && vs != []
    ensures Times(|vs| - 1, t.width) + t.width <= |EncodeAll(vs, t, order)|
    ensures EncodeAll(vs, t, order)[Times(|vs| - 1, t.width)..Times(|vs| - 1, t.width) + t.width]
         == Encode(vs[|vs| - 1], t, order)
  {
    var front := EncodeAll(vs[..|vs| - 1], t, order);
    var last := Encode(vs[|vs| - 1], t, order);
    assert EncodeAll(vs, t, order) == front + last;
    SliceOfBack(front, last, Times(|vs| - 1, t.width));
  }

  lemma SliceOfFront(a: seq<byte>, b: seq<byte>, from: nat, to: nat)
    requires from <= to <= |a|
    ensures (a + b)[from..to] == a[from..to]
  {
  }

  lemma SliceOfBack(a: seq<byte>, b: seq<byte>, from: nat)
    requires from == |a|
    ensures (a + b)[from..from + |b|] == b
  {
  }

  /** Storing value i after the first i values extends the stored bytes by one element. */
  lemma PutValuesStep(s0: seq<byte>, at: nat, values: seq<int>, t: IntType, order: ByteOrder, i: nat,
                      before: seq<byte>, pos: nat)
    requires t.Valid()
    requires i < |values| && at + Times(|values|, t.width) <= |s0|
    requires at + |EncodeAll(values[..i], t, order)| <= |s0|
    requires before == Splice(s0, at, EncodeAll(values[..i], t, order))
    requires pos == at + Times(i, t.width)
    ensures pos + t.width <= |before|
    ensures at + |EncodeAll(values[..i + 1], t, order)| <= |s0|
    ensures StoreAt(before, pos, t, order, values[i]) == Splice(s0, at, EncodeAll(values[..i + 1], t, order))
  {
    EncodeAllSnoc(values, t, order, i);
    TimesMono(i + 1, |values|, t.width);
    SpliceAdjacent(s0, at, EncodeAll(values[..i], t, order), Encode(values[i], t, order));
  }

  /** One `memcpy` of the multi-value setter: value i, after the first i values. */
  method PutValueAt(buffer: array<byte>, base: nat, f: ArrayField, values: seq<int>, i: nat,
                    elementOffset: nat, ghost s0: seq<byte>)
    requires f.t.Valid() && i < |values| == f.length && InRange(values[i], f.t)
    requires base + f.offset + f.Size() <= |s0| == buffer.Length
    requires base + f.offset + |EncodeAll(values[..i], f.t, f.order)| <= |s0|
    requires elementOffset == f.offset + Times(i, f.t.width)
    requires buffer[..] == Splice(s0, base + f.offset, EncodeAll(values[..i], f.t, f.order))
    modifies buffer
    ensures base + f.offset + |EncodeAll(values[..i + 1], f.t, f.order)| <= |s0|
    ensures buffer[..] == Splice(s0, base + f.offset, EncodeAll(values[..i + 1], f.t, f.order))
  {
    PutValuesStep(s0, base + f.offset, values, f.t, f.order, i, buffer[..], base + elementOffset);
    SetScalar(buffer, base, ScalarField(elementOffset, f.t, f.order), values[i]);
  }

  /** The multi-value setter generated for arrays of two to four elements:
      `value0` at the array's offset, `value1` one element further, and so on. */
  method PutValues(buffer: array<byte>, base: nat, f: ArrayField, values: seq<int>)
    requires f.t.Valid() && 1 < f.length <= 4 && |values| == f.length
    requires forall k :: 0 <= k < |values| ==> InRange(values[k], f.t)
    requires base + f.offset + f.Size() <= buffer.Length
    modifies buffer
    ensures buffer[..] == Splice(old(buffer[..]), base + f.offset, EncodeAll(values, f.t, f.order))
  {
    ghost var s0 := buffer[..];
    var i, elementOffset := 0, f.offset;
    while i < |values|
      invariant 0 <= i <= |values| && elementOffset == f.offset + Times(i, f.t.width)
      invariant base + f.offset + |EncodeAll(values[..i], f.t, f.order)| <= |s0|
      invariant buffer[..] == Splice(s0, base + f.offset, EncodeAll(values[..i], f.t, f.order))
    {
      PutValueAt(buffer, base, f, values, i, elementOffset, s0);
      i, elementOffset := i + 1, elementOffset + f.t.width;
    }
    assert values[..i] == values;
  }

  /** After the multi-value setter, element k's bytes are value k's bytes. */
  lemma StoredElementBytes(s: seq<byte>, base: nat, f: ArrayField, values: seq<int>, k: nat)
    requires f.t.Valid() && |values| == f.length
    requires base + f.offset + f.Size() <= |s| && k < f.length
    ensures base + f.ElementOffset(k) + f.t.width <= |s|
    ensures Splice(s, base + f.offset, EncodeAll(values, f.t, f.order))[base + f.ElementOffset(k)..base + f.ElementOffset(k) + f.t.width]
         == Encode(values[k], f.t, f.order)
  {
    var all := EncodeAll(values, f.t, f.order);
    EncodeAllAt(values, f.t, f.order, k);
    SpliceReadPart(s, base + f.offset, all, Times(k, f.t.width), Encode(values[k], f.t, f.order), base + f.ElementOffset(k));
  }

  /** After the multi-value setter, element k reads back as value k. */
  lemma PutValuesThenGet(s: seq<byte>, base: nat, f: ArrayField, values: seq<int>, k: nat)
    requires f.t.Valid() && |values| == f.length
    requires base + f.offset + f.Size() <= |s| && k < f.length && InRange(values[k], f.t)
    ensures base + f.ElementOffset(k) + f.t.width <= |s|
    ensures ValueAt(Splice(s, base + f.offset, EncodeAll(values, f.t, f.order)), base + f.ElementOffset(k), f.t, f.order)
         == values[k]
  {
    StoredElementBytes(s, base, f, values, k);
    ValueOfEncoded(Splice(s, base + f.offset, EncodeAll(values, f.t, f.order)), base + f.ElementOffset(k),
                   f.t, f.order, values[k]);
  }

  /** The char-array text getter: the bytes up to the first NUL or the end of
      the array. */
  method GetCharsAsString(buffer: array<byte>, base: nat, f: CharArrayField) returns (s: seq<byte>)
    requires base + f.offset + f.length <= buffer.Length
    ensures s == UntilNul(buffer[base + f.offset..base + f.offset + f.length])
  {
    var at := base + f.offset;
    var length := 0;
    while length < f.length && buffer[at + length] != 0
      invariant 0 <= length <= f.length
      invariant forall k :: at <= k < at + length ==> buffer[k] != 0
    {
      length := length + 1;
    }
    var chars := buffer[at..at + f.length];
    assert forall k :: 0 <= k < length ==> chars[k] == buffer[at + k];
    UntilNulAt(chars, length);
    s := buffer[at..at + length];
    assert s == chars[..length];
  }

  /** The JSON-escaped text getter of a char array. */
  method GetCharsAsJsonEscapedString(buffer: array<byte>, base: nat, f: CharArrayField) returns (s: seq<byte>)
    requires base + f.offset + f.length <= buffer.Length
    ensures s == JsonEscape(UntilNul(buffer[base + f.offset..base + f.offset + f.length]))
  {
    var text := GetCharsAsString(buffer, base, f);
    s := EscapeJson(text);
  }

  /** The char-array text setter: E106 when the text is longer than the array,
      the buffer untouched; otherwise the text followed by NULs up to the end
      of the array. */
  method PutChars(buffer: array<byte>, base: nat, f: CharArrayField, str: seq<byte>) returns (r: Result<()>)
    requires base + f.offset + f.length <= buffer.Length
    modifies buffer
    ensures |str| > f.length ==> r == Err(LengthTooLarge) && buffer[..] == old(buffer[..])
    ensures |str| <= f.length ==>
      r == Ok(()) && buffer[..] == Splice(old(buffer[..]), base + f.offset, str + Zeros(f.length - |str|))
  {
    if |str| > f.length {
      return Err(LengthTooLarge);
    }
    var at := base + f.offset;
    CopyIn(buffer, at, str);
    var start := |str|;
    while start < f.length
      invariant |str| <= start <= f.length
      invariant forall k :: 0 <= k < buffer.Length ==>
        buffer[k] == (if at <= k < at + |str| then str[k - at]
                      else if at + |str| <= k < at + start then 0
                      else old(buffer[k]))
    {
      buffer[at + start] := 0;
      start := start + 1;
    }
    var want := Splice(old(buffer[..]), at, str + Zeros(f.length - |str|));
    assert forall k :: 0 <= k < buffer.Length ==> buffer[..][k] == want[k];
    r := Ok(());
  }

  /** Text without NUL bytes that fits reads back as itself after a put. */
  lemma PutCharsThenGet(s: seq<byte>, base: nat, f: CharArrayField, str: seq<byte>)
    requires base + f.offset + f.length <= |s| && |str| <= f.length
    requires forall k :: 0 <= k < |str| ==> str[k] != 0
    ensures UntilNul(Splice(s, base + f.offset, str + Zeros(f.length - |str|))[base + f.offset..base + f.offset + f.length])
         == str
  {
    SpliceRead(s, base + f.offset, str + Zeros(f.length - |str|));
    UntilNulOfPadded(str, Zeros(f.length - |str|));
  }
}
