/** Repeating groups: the dimension header (block length and count) in front
    of the elements, and the group flyweight that walks the elements through
    the cursor it shares with its message. */
module Groups {
  import opened Endian
  import opened Errors
  import opened Buffers
  import opened Fields
  import opened Flyweights

  /** The group dimension header composite: its length, and its block length
      and count fields, both unsigned. */
  datatype DimensionLayout = DimensionLayout(encodedLength: nat, blockLength: ScalarField, numInGroup: ScalarField)
  {
    predicate Valid()
    {
      blockLength.t.Valid() && !blockLength.t.signed && numInGroup.t.Valid() && !numInGroup.t.signed &&
      blockLength.offset + blockLength.t.width <= encodedLength &&
      numInGroup.offset + numInGroup.t.width <= encodedLength &&
      Apart(blockLength, numInGroup)
    }
  }

  /** What the schema fixes for one group: its dimension header, the block
      length of one element and the applicable range of the count. */
  datatype GroupLayout = GroupLayout(dims: DimensionLayout, blockLength: nat, minCount: int, maxCount: int)
  {
    predicate Valid() { dims.Valid() && 0 <= minCount }
  }

  /** The bytes after `wrapForEncode` has written the dimension header at
      `at`: the block length (cast to its field's type) and the count. */
  function WithDimensions(s: seq<byte>, at: nat, d: DimensionLayout, blockLength: int, count: int): (r: seq<byte>)
    requires d.Valid() && at + d.encodedLength <= |s|
    ensures |r| == |s|
  {
    StoreAt(StoreAt(s, at + d.blockLength.offset, d.blockLength.t, d.blockLength.order, blockLength),
            at + d.numInGroup.offset, d.numInGroup.t, d.numInGroup.order, count)
  }

  /** The two stores of the dimension header. */
  method ApplyDimensions(buf: array<byte>, at: nat, d: DimensionLayout, blockLength: int, count: int)
    requires d.Valid() && at + d.encodedLength <= buf.Length && InRange(count, d.numInGroup.t)
    modifies buf
    ensures buf[..] == WithDimensions(old(buf[..]), at, d, blockLength, count)
  {
    CopyIn(buf, at + d.blockLength.offset, Encode(blockLength, d.blockLength.t, d.blockLength.order));
    SetScalar(buf, at, d.numInGroup, count);
  }

  /** A dimension header written for encoding is read back by decoding as the
      same block length and count, when the block length fits its field. */
  lemma DimensionsRoundTrip(s: seq<byte>, at: nat, d: DimensionLayout, blockLength: int, count: int)
    requires d.Valid() && at + d.encodedLength <= |s|
    requires InRange(blockLength, d.blockLength.t) && InRange(count, d.numInGroup.t)
    ensures ValueAt(WithDimensions(s, at, d, blockLength, count), at + d.blockLength.offset,
                    d.blockLength.t, d.blockLength.order) == blockLength
    ensures ValueAt(WithDimensions(s, at, d, blockLength, count), at + d.numInGroup.offset,
                    d.numInGroup.t, d.numInGroup.order) == count
  {
    var b, n := d.blockLength, d.numInGroup;
    var s1 := StoreAt(s, at + b.offset, b.t, b.order, blockLength);
    assert ValueAt(s1, at + b.offset, b.t, b.order) == blockLength by {
      LoadAfterStore(s, at + b.offset, b.t, b.order, blockLength);
    }
    LoadAfterOtherStore(s1, at + n.offset, n.t, n.order, count, at + b.offset, b.t, b.order);
    LoadAfterStore(s1, at + n.offset, n.t, n.order, count);
  }

  /** The start offsets of the remaining elements `forEach` visits from
      cursor position `start`, when the callback run on each element moves the
      cursor on by `extras[k]` bytes through `sbePosition`; E108 when an
      element's block does not fit, E100 when the callback's move does not. */
  function Visits(start: nat, blockLength: nat, extras: seq<nat>, bufferLength: nat): Result<seq<nat>>
    decreases |extras|
  {
    if extras == [] then Ok([])
    else if start + blockLength > bufferLength then Err(NextGroupTooShort)
    else if start + blockLength + extras[0] > bufferLength then Err(BufferTooShort)
    else Joined([start], Visits(start + blockLength + extras[0], blockLength, extras[1..], bufferLength))
  }

  function Joined(done: seq<nat>, rest: Result<seq<nat>>): Result<seq<nat>>
  {
    if rest.Ok? then Ok(done + rest.value) else rest
  }

  /** The bytes taken by elements whose callbacks move on by `extras`. */
  function Span(blockLength: nat, extras: seq<nat>): nat
  {
    if extras == [] then 0 else blockLength + extras[0] + Span(blockLength, extras[1..])
  }

  /** From a cursor inside the buffer, the walk succeeds exactly when all the
      elements fit before bufferLength. */
  lemma {:induction false} VisitsOk(start: nat, blockLength: nat, extras: seq<nat>, bufferLength: nat)
    requires start <= bufferLength
    ensures Visits(start, blockLength, extras, bufferLength).Ok? <==> start + Span(blockLength, extras) <= bufferLength
    decreases |extras|
  {
    if extras != [] {
      var next := start + blockLength + extras[0];
      assert start + Span(blockLength, extras) == next + Span(blockLength, extras[1..]);
      if next <= bufferLength {
        VisitsOk(next, blockLength, extras[1..], bufferLength);
        assert Visits(start, blockLength, extras, bufferLength) ==
               Joined([start], Visits(next, blockLength, extras[1..], bufferLength));
      }
    }
  }

  /** A successful walk visits every element once, each one starting where
      the blocks and callbacks before it end. */
  lemma {:induction false} VisitsLayout(start: nat, blockLength: nat, extras: seq<nat>, bufferLength: nat)
    requires Visits(start, blockLength, extras, bufferLength).Ok?
    ensures |Visits(start, blockLength, extras, bufferLength).value| == |extras|
    ensures forall k :: 0 <= k < |extras| ==>
      Visits(start, blockLength, extras, bufferLength).value[k] == start + Span(blockLength, extras[..k])
    decreases |extras|
  {
    if extras != [] {
      var next := start + blockLength + extras[0];
      VisitsLayout(next, blockLength, extras[1..], bufferLength);
      var vs := Visits(start, blockLength, extras, bufferLength).value;
      var rest := Visits(next, blockLength, extras[1..], bufferLength).value;
      assert vs == [start] + rest;
      forall k | 0 <= k < |extras|
        ensures vs[k] == start + Span(blockLength, extras[..k])
      {
        if k > 0 {
          assert extras[..k][1..] == extras[1..][..k - 1];
        }
      }
    }
  }

  lemma JoinedNothing(rest: Result<seq<nat>>)
    ensures Joined([], rest) == rest
  {
    if rest.Ok? {
      assert [] + rest.value == rest.value;
    }
  }

  lemma JoinedStep(done: seq<nat>, x: nat, rest: Result<seq<nat>>)
    ensures Joined(done, Joined([x], rest)) == Joined(done + [x], rest)
  {
    if rest.Ok? {
      assert done + ([x] + rest.value) == (done + [x]) + rest.value;
    }
  }

  /** The group flyweight. `position` is `m_positionPtr`: the cursor of the
      enclosing message, shared with every other group of that message. */
  class Group {
    const layout: GroupLayout
    var buffer: array<byte>
    var bufferLength: nat
    var position: Cursor?
    var blockLength: nat
    var count: nat
    var index: int
    var offset: nat

    ghost predicate Valid()
      reads this
    {
      layout.Valid() && bufferLength <= buffer.Length
    }

    /** The default constructor: no buffer, no cursor, all counters 0. */
    constructor (layout: GroupLayout)
      requires layout.Valid()
      ensures Valid() && this.layout == layout && position == null
      ensures bufferLength == 0 && blockLength == 0 && count == 0 && index == 0 && offset == 0
    {
      this.layout := layout;
      buffer := new byte[0];
      bufferLength := 0;
      position := null;
      blockLength := 0;
      count := 0;
      index := 0;
      offset := 0;
    }

    /** `hasNext()`: the index starts at `size_t` max, here -1, so that one
        more than it is 0 before the first `next()`. */
    predicate HasNext()
      reads this
    {
      index + 1 < count
    }

    /** How many more elements `hasNext()` lets `next()` reach: none once the
        index has reached or passed the last element. */
    function Remaining(): nat
      reads this
    {
      if index + 1 < count then count - (index + 1) else 0
    }

    /** `wrapForDecode`: binds the dimension header at the cursor (E107 when
        it does not fit, and then nothing changes), takes the block length and
        count from it, and moves the cursor past it. */
    method WrapForDecode(buf: array<byte>, pos: Cursor, bufLen: nat) returns (r: Result<()>)
      requires Valid() && bufLen <= buf.Length
      modifies this, pos
      ensures Valid() && offset == old(offset)
      ensures r.Ok? <==> old(pos.pos) + layout.dims.encodedLength <= bufLen
      ensures r.Err? ==> (r.error == FlyweightTooShort && pos.pos == old(pos.pos) &&
                          buffer == old(buffer) && bufferLength == old(bufferLength) && position == old(position) &&
                          blockLength == old(blockLength) && count == old(count) && index == old(index))
      ensures r.Ok? ==>
        (buffer == buf && bufferLength == bufLen && position == pos && index == -1 &&
         blockLength == ValueAt(buf[..], old(pos.pos) + layout.dims.blockLength.offset,
                                layout.dims.blockLength.t, layout.dims.blockLength.order) &&
         count == ValueAt(buf[..], old(pos.pos) + layout.dims.numInGroup.offset,
                          layout.dims.numInGroup.t, layout.dims.numInGroup.order) &&
         pos.pos == old(pos.pos) + layout.dims.encodedLength)
      ensures r.Ok? ==> (HasNext() <==> count > 0)
    {
      var at := pos.pos;
      if at + layout.dims.encodedLength > bufLen {
        return Err(FlyweightTooShort);
      }
      var bl := GetScalar(buf, at, layout.dims.blockLength);
      var n := GetScalar(buf, at, layout.dims.numInGroup);
      buffer, bufferLength := buf, bufLen;
      blockLength, count := bl, n;
      index := -1;
      position := pos;
      pos.pos := at + layout.dims.encodedLength;
      r := Ok(());
    }

    /** `wrapForEncode`: E110 when the count is outside the schema's range,
        and then nothing changes; otherwise the buffer is taken, and E107 when
        the dimension header does not fit at the cursor; otherwise the header
        receives the schema's block length and the count, and the cursor moves
        past it. */
    method WrapForEncode(buf: array<byte>, count: int, pos: Cursor, bufLen: nat) returns (r: Result<()>)
      requires Valid() && bufLen <= buf.Length && InRange(count, layout.dims.numInGroup.t)
      modifies this, pos, buf
      ensures Valid() && offset == old(offset)
      ensures r == Err(CountOutOfRange) <==> !(layout.minCount <= count <= layout.maxCount)
      ensures r == Err(CountOutOfRange) ==>
        (buffer == old(buffer) && bufferLength == old(bufferLength))
      ensures r != Err(CountOutOfRange) ==> buffer == buf && bufferLength == bufLen
      ensures r.Err? ==> r.error == CountOutOfRange || r.error == FlyweightTooShort
      ensures r == Err(FlyweightTooShort) <==>
        (layout.minCount <= count <= layout.maxCount && old(pos.pos) + layout.dims.encodedLength > bufLen)
      ensures r.Err? ==>
        (buf[..] == old(buf[..]) && pos.pos == old(pos.pos) && position == old(position) &&
         blockLength == old(blockLength) && this.count == old(this.count) && index == old(index))
      ensures r.Ok? ==>
        (buf[..] == WithDimensions(old(buf[..]), old(pos.pos), layout.dims, layout.blockLength, count) &&
         index == -1 && this.count == count && blockLength == layout.blockLength && position == pos &&
         pos.pos == old(pos.pos) + layout.dims.encodedLength)
      ensures r.Ok? ==> (HasNext() <==> count > 0)
    {
      if (layout.minCount > 0 && count < layout.minCount) || count > layout.maxCount {
        return Err(CountOutOfRange);
      }
      buffer, bufferLength := buf, bufLen;
      var at := pos.pos;
      if at + layout.dims.encodedLength > bufLen {
        return Err(FlyweightTooShort);
      }
      ApplyDimensions(buf, at, layout.dims, layout.blockLength, count);
      index := -1;
      this.count := count;
      blockLength := layout.blockLength;
      position := pos;
      pos.pos := at + layout.dims.encodedLength;
      r := Ok(());
    }

    /** `next()`: the element starts at the cursor (recorded even when the
        call fails); E108 when its block does not fit, otherwise the cursor
        moves past the block and the index advances. */
    method Next() returns (r: Result<()>)
      requires Valid() && position != null
      modifies this, position
      ensures Valid() && position == old(position) && buffer == old(buffer) && bufferLength == old(bufferLength)
      ensures blockLength == old(blockLength) && count == old(count)
      ensures offset == old(position.pos)
      ensures r.Ok? <==> old(position.pos) + blockLength <= bufferLength
      ensures r.Err? ==> (r.error == NextGroupTooShort && position.pos == old(position.pos) && index == old(index))
      ensures r.Ok? ==> (position.pos == old(position.pos) + blockLength && index == old(index) + 1)
    {
      offset := position.pos;
      if offset + blockLength > bufferLength {
        return Err(NextGroupTooShort);
      }
      position.pos := offset + blockLength;
      index := index + 1;
      r := Ok(());
    }

    /** `sbePosition(position)` of the group: moves the shared cursor. */
    method SetPosition(p: nat) returns (r: Result<()>)
      requires Valid() && position != null
      modifies position
      ensures r.Ok? <==> p <= bufferLength
      ensures r.Err? ==> r.error == BufferTooShort
      ensures position.pos == if r.Ok? then p else old(position.pos)
    {
      r := MovePosition(position, bufferLength, p);
    }

    /** `forEach(func)`: `next()` then the callback, while `hasNext()`. The
        callback is modelled by its effect on the shared cursor: on the k-th
        remaining element it moves the cursor on by `extras[k]` bytes. The
        result is the start offsets of the elements visited, or the first error. */
    method ForEach(extras: seq<nat>) returns (r: Result<seq<nat>>)
      requires Valid() && position != null && |extras| == Remaining()
      modifies this, position
      ensures Valid() && position == old(position)
      ensures r == Visits(old(position.pos), blockLength, extras, bufferLength)
      ensures r.Ok? ==> !HasNext() && position.pos == old(position.pos) + Span(blockLength, extras)
    {
      ghost var start := position.pos;
      var visited: seq<nat> := [];
      var i := 0;
      JoinedNothing(Visits(start, blockLength, extras, bufferLength));
      assert extras[i..] == extras;
      while HasNext()
        invariant Valid() && position == old(position) && position != null
        invariant blockLength == old(blockLength) && count == old(count) && bufferLength == old(bufferLength)
        invariant 0 <= i <= |extras| && Remaining() == |extras| - i
        invariant Visits(start, blockLength, extras, bufferLength) ==
                  Joined(visited, Visits(position.pos, blockLength, extras[i..], bufferLength))
        invariant start + Span(blockLength, extras) == position.pos + Span(blockLength, extras[i..])
        decreases |extras| - i
      {
        var p := position.pos;
        var e := Next();
        if e.Err? {
          return Err(e.error);
        }
        var m := MovePosition(position, bufferLength, position.pos + extras[i]);
        if m.Err? {
          return Err(m.error);
        }
        JoinedStep(visited, p, Visits(position.pos, blockLength, extras[i + 1..], bufferLength));
        assert extras[i..][1..] == extras[i + 1..];
        visited := visited + [p];
        i := i + 1;
      }
      assert extras[i..] == [];
      assert visited + [] == visited;
      return Ok(visited);
    }
  }

  /** The group property `x()` of a message: binds the group for decoding at
      the message's cursor, which the group then shares. */
  method GroupForDecode(msg: Message, g: Group) returns (r: Result<()>)
    requires msg.Valid() && g.Valid()
    modifies g, msg.position
    ensures msg.Valid() && g.Valid()
    ensures r.Ok? <==> old(msg.position.pos) + g.layout.dims.encodedLength <= msg.bufferLength
    ensures r.Err? ==> r.error == FlyweightTooShort && msg.position.pos == old(msg.position.pos)
    ensures r.Ok? ==> (g.position == msg.position && g.buffer == msg.buffer && g.index == -1 &&
                       msg.position.pos == old(msg.position.pos) + g.layout.dims.encodedLength)
    ensures r.Ok? ==>
      (g.blockLength == ValueAt(msg.buffer[..], old(msg.position.pos) + g.layout.dims.blockLength.offset,
                                g.layout.dims.blockLength.t, g.layout.dims.blockLength.order) &&
       g.count == ValueAt(msg.buffer[..], old(msg.position.pos) + g.layout.dims.numInGroup.offset,
                          g.layout.dims.numInGroup.t, g.layout.dims.numInGroup.order))
  {
    r := g.WrapForDecode(msg.buffer, msg.position, msg.bufferLength);
  }

  /** The group property `xCount(count)` of a message: binds the group for
      encoding `count` elements at the message's cursor. */
  method GroupForEncode(msg: Message, g: Group, count: int) returns (r: Result<()>)
    requires msg.Valid() && g.Valid() && InRange(count, g.layout.dims.numInGroup.t)
    modifies g, msg.position, msg.buffer
    ensures msg.Valid() && g.Valid()
    ensures r == Err(CountOutOfRange) <==> !(g.layout.minCount <= count <= g.layout.maxCount)
    ensures r.Err? ==> msg.position.pos == old(msg.position.pos) && msg.buffer[..] == old(msg.buffer[..])
    ensures r.Ok? ==> (g.position == msg.position && g.count == count &&
                       msg.position.pos == old(msg.position.pos) + g.layout.dims.encodedLength)
    ensures r.Ok? ==> old(msg.position.pos) + g.layout.dims.encodedLength <= msg.bufferLength
    ensures r.Ok? ==>
      (msg.buffer[..] == WithDimensions(old(msg.buffer[..]), old(msg.position.pos), g.layout.dims,
                                        g.layout.blockLength, count) &&
       g.blockLength == g.layout.blockLength && g.index == -1)
  {
    r := g.WrapForEncode(msg.buffer, count, msg.position, msg.bufferLength);
  }
}
