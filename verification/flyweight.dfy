/** The flyweights the emitted codec binds over a buffer: the fixed-size
    flyweight shared by composites, bit sets, the message header and the group
    dimension header, and the message flyweight with its cursor. */
module Flyweights {
  import opened Endian
  import opened Errors
  import opened Buffers
  import opened Fields

  /** The number of values of `size_t`, modulo which its arithmetic wraps. */
  const SIZE_RANGE: nat := 0x1_0000_0000_0000_0000

  /** The read/write position a message and its groups share: the message owns
      it as `m_position`, a group reaches it through `m_positionPtr`. */
  class Cursor {
    var pos: nat

    constructor ()
      ensures pos == 0
    {
      pos := 0;
    }
  }

  /** `sbePosition(position)`: every move of the cursor goes through this
      check against the buffer length; on E100 the cursor stays where it was. */
  method MovePosition(cursor: Cursor, bufferLength: nat, p: nat) returns (r: Result<()>)
    modifies cursor
    ensures r.Ok? <==> p <= bufferLength
    ensures r.Err? ==> r.error == BufferTooShort
    ensures cursor.pos == if r.Ok? then p else old(cursor.pos)
  {
    if p > bufferLength {
      return Err(BufferTooShort);
    }
    cursor.pos := p;
    r := Ok(());
  }

  /** A fixed-size flyweight of `encodedLength` bytes at `offset`. */
  class Flyweight {
    const encodedLength: nat
    var buffer: array<byte>
    var bufferLength: nat
    var offset: nat

    ghost predicate Valid()
      reads this
    {
      bufferLength <= buffer.Length
    }

    /** Whether the flyweight's bytes lie inside the buffer length. */
    ghost predicate Bound()
      reads this
    {
      Valid() && offset + encodedLength <= bufferLength
    }

    /** The default constructor: no buffer yet. */
    constructor (encodedLength: nat)
      ensures Valid() && this.encodedLength == encodedLength
      ensures bufferLength == 0 && offset == 0
    {
      this.encodedLength := encodedLength;
      buffer := new byte[0];
      bufferLength := 0;
      offset := 0;
    }

    /** `wrap`: rebinds to a buffer; E107 when the flyweight does not fit
        before bufferLength, and then nothing changes. */
    method Wrap(buf: array<byte>, off: nat, bufLen: nat) returns (r: Result<()>)
      requires bufLen <= buf.Length
      modifies this
      ensures r.Ok? <==> off + encodedLength <= bufLen
      ensures r.Err? ==> (r.error == FlyweightTooShort && buffer == old(buffer) &&
                          bufferLength == old(bufferLength) && offset == old(offset))
      ensures r.Ok? ==> Bound() && buffer == buf && bufferLength == bufLen && offset == off
    {
      if off + encodedLength > bufLen {
        return Err(FlyweightTooShort);
      }
      buffer, bufferLength, offset := buf, bufLen, off;
      r := Ok(());
    }
  }

  /** The layout of the message header composite: its length and the fields
      `wrapAndApplyHeader` fills in. */
  datatype HeaderLayout = HeaderLayout(
    encodedLength: nat, blockLength: ScalarField, templateId: ScalarField, schemaId: ScalarField)
  {
    predicate Valid()
    {
      blockLength.t.Valid() && templateId.t.Valid() && schemaId.t.Valid() &&
      blockLength.offset + blockLength.t.width <= encodedLength &&
      templateId.offset + templateId.t.width <= encodedLength &&
      schemaId.offset + schemaId.t.width <= encodedLength &&
      Apart(blockLength, templateId) && Apart(blockLength, schemaId) && Apart(templateId, schemaId)
    }
  }

  predicate Apart(a: ScalarField, b: ScalarField)
  {
    a.offset + a.t.width <= b.offset || b.offset + b.t.width <= a.offset
  }

  /** The bytes after the header at `at` has been given the three values. */
  function WithHeader(s: seq<byte>, at: nat, h: HeaderLayout, blockLength: int, templateId: int, schemaId: int): (r: seq<byte>)
    requires h.Valid() && at + h.encodedLength <= |s|
    ensures |r| == |s|
  {
    StoreAt(
      StoreAt(
        StoreAt(s, at + h.blockLength.offset, h.blockLength.t, h.blockLength.order, blockLength),
        at + h.templateId.offset, h.templateId.t, h.templateId.order, templateId),
      at + h.schemaId.offset, h.schemaId.t, h.schemaId.order, schemaId)
  }

  /** The three stores of `wrapAndApplyHeader`. */
  method ApplyHeader(buf: array<byte>, at: nat, h: HeaderLayout, blockLength: int, templateId: int, schemaId: int)
    requires h.Valid() && at + h.encodedLength <= buf.Length
    requires InRange(blockLength, h.blockLength.t) && InRange(templateId, h.templateId.t) && InRange(schemaId, h.schemaId.t)
    modifies buf
    ensures buf[..] == WithHeader(old(buf[..]), at, h, blockLength, templateId, schemaId)
  {
    ghost var s0 := buf[..];
    SetScalar(buf, at, h.blockLength, blockLength);
    ghost var s1 := buf[..];
    SetScalar(buf, at, h.templateId, templateId);
    ghost var s2 := buf[..];
    SetScalar(buf, at, h.schemaId, schemaId);
    WithHeaderSteps(s0, s1, s2, at, h, blockLength, templateId, schemaId);
  }

  lemma WithHeaderSteps(s0: seq<byte>, s1: seq<byte>, s2: seq<byte>, at: nat, h: HeaderLayout,
                        blockLength: int, templateId: int, schemaId: int)
    requires h.Valid() && at + h.encodedLength <= |s0|
    requires s1 == StoreAt(s0, at + h.blockLength.offset, h.blockLength.t, h.blockLength.order, blockLength)
    requires s2 == StoreAt(s1, at + h.templateId.offset, h.templateId.t, h.templateId.order, templateId)
    ensures WithHeader(s0, at, h, blockLength, templateId, schemaId) ==
      StoreAt(s2, at + h.schemaId.offset, h.schemaId.t, h.schemaId.order, schemaId)
  {
  }

  /** A header written by `wrapAndApplyHeader` reads back as the message's
      block length, template id and schema id (one lemma per field). */
  lemma WithHeaderBlockLength(s: seq<byte>, at: nat, h: HeaderLayout, blockLength: int, templateId: int, schemaId: int)
    requires h.Valid() && at + h.encodedLength <= |s| && InRange(blockLength, h.blockLength.t)
    ensures ValueAt(WithHeader(s, at, h, blockLength, templateId, schemaId), at + h.blockLength.offset,
                    h.blockLength.t, h.blockLength.order) == blockLength
  {
    var b, t, i := h.blockLength, h.templateId, h.schemaId;
    var s1 := StoreAt(s, at + b.offset, b.t, b.order, blockLength);
    assert ValueAt(s1, at + b.offset, b.t, b.order) == blockLength by {
      LoadAfterStore(s, at + b.offset, b.t, b.order, blockLength);
    }
    ReadPastTwoStores(s1, at + b.offset, b.t, b.order,
                      at + t.offset, t.t, t.order, templateId, at + i.offset, i.t, i.order, schemaId);
  }

  /** Two stores that miss a field leave its value as it was. */
  lemma ReadPastTwoStores(s: seq<byte>, p: nat, t: IntType, order: ByteOrder,
                          q1: nat, t1: IntType, order1: ByteOrder, v1: int,
                          q2: nat, t2: IntType, order2: ByteOrder, v2: int)
    requires t.Valid() && t1.Valid() && t2.Valid()
    requires p + t.width <= |s| && q1 + t1.width <= |s| && q2 + t2.width <= |s|
    requires p + t.width <= q1 || q1 + t1.width <= p
    requires p + t.width <= q2 || q2 + t2.width <= p
    ensures ValueAt(StoreAt(StoreAt(s, q1, t1, order1, v1), q2, t2, order2, v2), p, t, order) == ValueAt(s, p, t, order)
  {
    LoadAfterOtherStore(s, q1, t1, order1, v1, p, t, order);
    LoadAfterOtherStore(StoreAt(s, q1, t1, order1, v1), q2, t2, order2, v2, p, t, order);
  }

  lemma WithHeaderTemplateId(s: seq<byte>, at: nat, h: HeaderLayout, blockLength: int, templateId: int, schemaId: int)
    requires h.Valid() && at + h.encodedLength <= |s| && InRange(templateId, h.templateId.t)
    ensures ValueAt(WithHeader(s, at, h, blockLength, templateId, schemaId), at + h.templateId.offset,
                    h.templateId.t, h.templateId.order) == templateId
  {
    var b, t, i := h.blockLength, h.templateId, h.schemaId;
    var s1 := StoreAt(s, at + b.offset, b.t, b.order, blockLength);
    var s2 := StoreAt(s1, at + t.offset, t.t, t.order, templateId);
    assert ValueAt(s2, at + t.offset, t.t, t.order) == templateId by {
      LoadAfterStore(s1, at + t.offset, t.t, t.order, templateId);
    }
    LoadAfterOtherStore(s2, at + i.offset, i.t, i.order, schemaId, at + t.offset, t.t, t.order);
  }

  lemma WithHeaderSchemaId(s: seq<byte>, at: nat, h: HeaderLayout, blockLength: int, templateId: int, schemaId: int)
    requires h.Valid() && at + h.encodedLength <= |s| && InRange(schemaId, h.schemaId.t)
    ensures ValueAt(WithHeader(s, at, h, blockLength, templateId, schemaId), at + h.schemaId.offset,
                    h.schemaId.t, h.schemaId.order) == schemaId
  {
    var b, t, i := h.blockLength, h.templateId, h.schemaId;
    var s1 := StoreAt(s, at + b.offset, b.t, b.order, blockLength);
    var s2 := StoreAt(s1, at + t.offset, t.t, t.order, templateId);
    LoadAfterStore(s2, at + i.offset, i.t, i.order, schemaId);
  }

  /** A message flyweight: the buffer, its length, the message's offset and
      the cursor, with the schema's constants for this message. */
  class Message {
    const blockLength: nat
    const templateId: nat
    const schemaId: nat
    const header: HeaderLayout
    var buffer: array<byte>
    var bufferLength: nat
    var offset: nat
    const position: Cursor

    /** What the schema guarantees about the constants. */
    predicate Schema()
    {
      header.Valid() && InRange(blockLength, header.blockLength.t) &&
      InRange(templateId, header.templateId.t) && InRange(schemaId, header.schemaId.t)
    }

    ghost predicate Valid()
      reads this, position
    {
      Schema() && bufferLength <= buffer.Length && position.pos <= bufferLength
    }

    /** The default constructor: no buffer yet, the cursor at 0. */
    constructor (blockLength: nat, templateId: nat, schemaId: nat, header: HeaderLayout)
      requires header.Valid() && InRange(blockLength, header.blockLength.t)
      requires InRange(templateId, header.templateId.t) && InRange(schemaId, header.schemaId.t)
      ensures Valid() && fresh(position)
      ensures this.blockLength == blockLength && this.templateId == templateId
      ensures this.schemaId == schemaId && this.header == header
      ensures bufferLength == 0 && offset == 0 && position.pos == 0
    {
      this.blockLength := blockLength;
      this.templateId := templateId;
      this.schemaId := schemaId;
      this.header := header;
      buffer := new byte[0];
      bufferLength := 0;
      offset := 0;
      position := new Cursor();
    }

    /** `wrapForDecode`: binds at `off` with the block length the sender used;
        the cursor goes to the end of the block, E100 when that is past
        bufLen, and then nothing changes. */
    method WrapForDecode(buf: array<byte>, off: nat, actingBlockLength: nat, bufLen: nat) returns (r: Result<()>)
      requires Valid() && bufLen <= buf.Length
      modifies this, position
      ensures Valid()
      ensures r.Ok? <==> off + actingBlockLength <= bufLen
      ensures r.Err? ==> (r.error == BufferTooShort && buffer == old(buffer) && bufferLength == old(bufferLength) &&
                          offset == old(offset) && position.pos == old(position.pos))
      ensures r.Ok? ==> (buffer == buf && bufferLength == bufLen && offset == off &&
                         position.pos == off + actingBlockLength)
    {
      if off + actingBlockLength > bufLen {
        return Err(BufferTooShort);
      }
      buffer, bufferLength, offset := buf, bufLen, off;
      position.pos := off + actingBlockLength;
      r := Ok(());
    }

    /** `wrapForEncode`: binds with the schema's own block length. */
    method WrapForEncode(buf: array<byte>, off: nat, bufLen: nat) returns (r: Result<()>)
      requires Valid() && bufLen <= buf.Length
      modifies this, position
      ensures Valid()
      ensures r.Ok? <==> off + blockLength <= bufLen
      ensures r.Err? ==> (r.error == BufferTooShort && buffer == old(buffer) && bufferLength == old(bufferLength) &&
                          offset == old(offset) && position.pos == old(position.pos))
      ensures r.Ok? ==> (buffer == buf && bufferLength == bufLen && offset == off &&
                         position.pos == off + blockLength)
    {
      r := WrapForDecode(buf, off, blockLength, bufLen);
    }

    /** `wrapAndApplyHeader`: E107 when the header does not fit, with nothing
        written; otherwise the header receives the block length, template id
        and schema id, and the message is bound just after it with the
        schema's block length. On the E100 of that bind the header has
        already been written. */
    method WrapAndApplyHeader(buf: array<byte>, off: nat, bufLen: nat) returns (r: Result<()>)
      requires Valid() && bufLen <= buf.Length
      modifies this, position, buf
      ensures Valid()
      ensures r.Ok? <==> off + header.encodedLength + blockLength <= bufLen
      ensures off + header.encodedLength > bufLen ==>
        (r == Err(FlyweightTooShort) && buf[..] == old(buf[..]) && buffer == old(buffer) &&
         bufferLength == old(bufferLength) && offset == old(offset) && position.pos == old(position.pos))
      ensures off + header.encodedLength <= bufLen ==>
        buf[..] == WithHeader(old(buf[..]), off, header, blockLength, templateId, schemaId)
      ensures off + header.encodedLength <= bufLen && r.Err? ==>
        (r.error == BufferTooShort && buffer == old(buffer) && bufferLength == old(bufferLength) &&
         offset == old(offset) && position.pos == old(position.pos))
      ensures r.Ok? ==> (buffer == buf && bufferLength == bufLen && offset == off + header.encodedLength &&
                         position.pos == off + header.encodedLength + blockLength)
    {
      if off + header.encodedLength > bufLen {
        return Err(FlyweightTooShort);
      }
      ApplyHeader(buf, off, header, blockLength, templateId, schemaId);
      if off + header.encodedLength + blockLength > bufLen {
        return Err(BufferTooShort);
      }
      buffer, bufferLength, offset := buf, bufLen, off + header.encodedLength;
      position.pos := off + header.encodedLength + blockLength;
      r := Ok(());
    }

    /** `sbePosition(position)`. */
    method SetPosition(p: nat) returns (r: Result<()>)
      requires Valid()
      modifies position
      ensures Valid()
      ensures r.Ok? <==> p <= bufferLength
      ensures r.Err? ==> r.error == BufferTooShort
      ensures position.pos == if r.Ok? then p else old(position.pos)
    {
      r := MovePosition(position, bufferLength, p);
    }

    /** `encodedLength()`: how far the cursor has moved past the message's
        offset, as a `size_t` subtraction, which wraps when the cursor has
        been moved before the offset. */
    function EncodedLength(): (r: nat)
      reads this, position
      ensures r < SIZE_RANGE
      ensures offset <= position.pos < offset + SIZE_RANGE ==> offset + r == position.pos
      ensures position.pos < offset <= position.pos + SIZE_RANGE ==> r + offset == position.pos + SIZE_RANGE
    {
      (position.pos - offset) % SIZE_RANGE
    }
  }
}
