/** Variable-length data fields: a length field followed by that many bytes,
    read and written at the cursor a message shares with its groups. The
    accessors are members of both the message and the group classes; here
    they take that codec's buffer, buffer length and cursor. */
module VarData {
  import opened Endian
  import opened Errors
  import opened Buffers
  import opened Fields
  import opened Text
  import opened Flyweights

  /** The length field in front of the data: an unsigned integer type, its
      byte order, and the largest length the schema allows for it. */
  datatype LengthField = LengthField(t: IntType, order: ByteOrder, maxLength: nat)
  {
    predicate Valid() { t.Valid() && !t.signed && maxLength <= MaxValue(t) }
  }

  /** The data length stored in the length field at `at`. */
  function LengthAt(s: seq<byte>, at: nat, lf: LengthField): nat
    requires lf.Valid() && at + lf.t.width <= |s|
  {
    ValueAt(s, at, lf.t, lf.order)
  }

  /** The bytes after `put` has written `data` as a var-data field at `at`:
      first the length field, then the data just behind it. */
  function WithVarData(s: seq<byte>, at: nat, lf: LengthField, data: seq<byte>): (r: seq<byte>)
    requires lf.Valid() && at + lf.t.width + |data| <= |s|
    ensures |r| == |s|
  {
    Splice(Splice(s, at, Encode(|data|, lf.t, lf.order)), at + lf.t.width, data)
  }

  function Min(a: nat, b: nat): nat
  {
    if a < b then a else b
  }

  /** `xLength()`: the length field at the cursor, read without a check
      against the buffer length; the cursor does not move. */
  method DataLength(buffer: array<byte>, cursor: Cursor, lf: LengthField) returns (n: nat)
    requires lf.Valid() && cursor.pos + lf.t.width <= buffer.Length
    ensures n == LengthAt(buffer[..], cursor.pos, lf)
  {
    n := GetScalar(buffer, cursor.pos, ScalarField(0, lf.t, lf.order));
  }

  /** `skipX()`: reads the length field at the cursor (without a check) and
      moves the cursor past the length field and the data; E100 when that is
      past the buffer length, and then the cursor stays. */
  method Skip(buffer: array<byte>, bufferLength: nat, cursor: Cursor, lf: LengthField) returns (r: Result<nat>)
    requires lf.Valid() && cursor.pos + lf.t.width <= buffer.Length
    modifies cursor
    ensures var n := LengthAt(buffer[..], old(cursor.pos), lf);
      (r.Ok? <==> old(cursor.pos) + lf.t.width + n <= bufferLength) &&
      (r.Err? ==> r.error == BufferTooShort && cursor.pos == old(cursor.pos)) &&
      (r.Ok? ==> r.value == n && cursor.pos == old(cursor.pos) + lf.t.width + n)
  {
    var n := DataLength(buffer, cursor, lf);
    var m := MovePosition(cursor, bufferLength, cursor.pos + lf.t.width + n);
    if m.Err? {
      return Err(m.error);
    }
    r := Ok(n);
  }

  /** `x()`: the position of the data, the length field being read at the
      cursor without a check; the cursor moves past the data, E100 as in
      `skipX()`. */
  method Payload(buffer: array<byte>, bufferLength: nat, cursor: Cursor, lf: LengthField) returns (r: Result<nat>)
    requires lf.Valid() && cursor.pos + lf.t.width <= buffer.Length
    modifies cursor
    ensures var n := LengthAt(buffer[..], old(cursor.pos), lf);
      (r.Ok? <==> old(cursor.pos) + lf.t.width + n <= bufferLength) &&
      (r.Err? ==> r.error == BufferTooShort && cursor.pos == old(cursor.pos)) &&
      (r.Ok? ==> r.value == old(cursor.pos) + lf.t.width && cursor.pos == r.value + n)
  {
    var n := DataLength(buffer, cursor, lf);
    var at := cursor.pos + lf.t.width;
    var m := MovePosition(cursor, bufferLength, at + n);
    if m.Err? {
      return Err(m.error);
    }
    r := Ok(at);
  }

  /** `getX(dst, length)`: the cursor first moves past the length field (E100
      when that does not fit, nothing else happening); then, with the data
      length read, it moves past the data (E100 when that does not fit,
      leaving the cursor just behind the length field and `dst` untouched);
      otherwise the first `min(length, data length)` data bytes are copied to
      `dst` and their number returned. */
  method Get(buffer: array<byte>, bufferLength: nat, cursor: Cursor, lf: LengthField,
             dst: array<byte>, length: nat) returns (r: Result<nat>)
    requires lf.Valid() && bufferLength <= buffer.Length && length <= dst.Length && dst != buffer
    modifies cursor, dst
    ensures old(cursor.pos) + lf.t.width > bufferLength ==>
      (r == Err(BufferTooShort) && cursor.pos == old(cursor.pos) && dst[..] == old(dst[..]))
    ensures old(cursor.pos) + lf.t.width <= bufferLength ==>
      var at := old(cursor.pos) + lf.t.width;
      var n := LengthAt(buffer[..], old(cursor.pos), lf);
      (r.Ok? <==> at + n <= bufferLength) &&
      (r.Err? ==> r.error == BufferTooShort && cursor.pos == at && dst[..] == old(dst[..])) &&
      (r.Ok? ==> r.value == Min(length, n) && cursor.pos == at + n &&
                 dst[..] == Splice(old(dst[..]), 0, buffer[at..at + r.value]))
  {
    var lengthPosition := cursor.pos;
    var at := lengthPosition + lf.t.width;
    var m := MovePosition(cursor, bufferLength, at);
    if m.Err? {
      return Err(m.error);
    }
    var n := GetScalar(buffer, lengthPosition, ScalarField(0, lf.t, lf.order));
    var bytesToCopy := Min(length, n);
    m := MovePosition(cursor, bufferLength, at + n);
    if m.Err? {
      return Err(m.error);
    }
    CopyIn(dst, 0, buffer[at..at + bytesToCopy]);
    r := Ok(bytesToCopy);
  }

  /** `getXAsString()` (and `getXAsStringView()`): the whole data as a string,
      with the cursor moves and E100 cases of `getX`. */
  method GetAsString(buffer: array<byte>, bufferLength: nat, cursor: Cursor, lf: LengthField)
    returns (r: Result<seq<byte>>)
    requires lf.Valid() && bufferLength <= buffer.Length
    modifies cursor
    ensures old(cursor.pos) + lf.t.width > bufferLength ==>
      (r == Err(BufferTooShort) && cursor.pos == old(cursor.pos))
    ensures old(cursor.pos) + lf.t.width <= bufferLength ==>
      var at := old(cursor.pos) + lf.t.width;
      var n := LengthAt(buffer[..], old(cursor.pos), lf);
      (r.Ok? <==> at + n <= bufferLength) &&
      (r.Err? ==> r.error == BufferTooShort && cursor.pos == at) &&
      (r.Ok? ==> r.value == buffer[at..at + n] && cursor.pos == at + n)
  {
    var lengthPosition := cursor.pos;
    var m := MovePosition(cursor, bufferLength, lengthPosition + lf.t.width);
    if m.Err? {
      return Err(m.error);
    }
    var n := GetScalar(buffer, lengthPosition, ScalarField(0, lf.t, lf.order));
    var at := cursor.pos;
    m := MovePosition(cursor, bufferLength, at + n);
    if m.Err? {
      return Err(m.error);
    }
    r := Ok(buffer[at..at + n]);
  }

  /** `getXAsJsonEscapedString()`: the string of `getXAsString()`, escaped. */
  method GetAsJsonEscapedString(buffer: array<byte>, bufferLength: nat, cursor: Cursor, lf: LengthField)
    returns (r: Result<seq<byte>>)
    requires lf.Valid() && bufferLength <= buffer.Length
    modifies cursor
    ensures old(cursor.pos) + lf.t.width > bufferLength ==>
      (r == Err(BufferTooShort) && cursor.pos == old(cursor.pos))
    ensures old(cursor.pos) + lf.t.width <= bufferLength ==>
      var at := old(cursor.pos) + lf.t.width;
      var n := LengthAt(buffer[..], old(cursor.pos), lf);
      (r.Ok? <==> at + n <= bufferLength) &&
      (r.Err? ==> r.error == BufferTooShort && cursor.pos == at) &&
      (r.Ok? ==> r.value == JsonEscape(buffer[at..at + n]) && cursor.pos == at + n)
  {
    var s :- GetAsString(buffer, bufferLength, cursor, lf);
    var e := EscapeJson(s);
    r := Ok(e);
  }

  /** `putX(src, length)`: the cursor first moves past the length field (E100
      when that does not fit, nothing written); the length is stored there;
      then the cursor moves past the data (E100 when that does not fit, the
      length field already written) and the data is copied in. */
  method Put(buffer: array<byte>, bufferLength: nat, cursor: Cursor, lf: LengthField, src: seq<byte>)
    returns (r: Result<()>)
    requires lf.Valid() && bufferLength <= buffer.Length && InRange(|src|, lf.t)
    modifies cursor, buffer
    ensures old(cursor.pos) + lf.t.width > bufferLength ==>
      (r == Err(BufferTooShort) && cursor.pos == old(cursor.pos) && buffer[..] == old(buffer[..]))
    ensures old(cursor.pos) + lf.t.width <= bufferLength < old(cursor.pos) + lf.t.width + |src| ==>
      (r == Err(BufferTooShort) && cursor.pos == old(cursor.pos) + lf.t.width &&
       buffer[..] == Splice(old(buffer[..]), old(cursor.pos), Encode(|src|, lf.t, lf.order)))
    ensures old(cursor.pos) + lf.t.width + |src| <= bufferLength ==>
      (r == Ok(()) && cursor.pos == old(cursor.pos) + lf.t.width + |src| &&
       buffer[..] == WithVarData(old(buffer[..]), old(cursor.pos), lf, src))
  {
    var lengthPosition := cursor.pos;
    var m := MovePosition(cursor, bufferLength, lengthPosition + lf.t.width);
    if m.Err? {
      return Err(m.error);
    }
    CopyIn(buffer, lengthPosition, Encode(|src|, lf.t, lf.order));
    var at := cursor.pos;
    m := MovePosition(cursor, bufferLength, at + |src|);
    if m.Err? {
      return Err(m.error);
    }
    CopyIn(buffer, at, src);
    r := Ok(());
  }

  /** `putX(std::string)`: E109 when the string is longer than the schema's
      maximum length, and then nothing changes; otherwise `putX` with the
      string's bytes and length. */
  method PutString(buffer: array<byte>, bufferLength: nat, cursor: Cursor, lf: LengthField, str: seq<byte>)
    returns (r: Result<()>)
    requires lf.Valid() && bufferLength <= buffer.Length
    modifies cursor, buffer
    ensures |str| > lf.maxLength ==>
      (r == Err(StringTooLong) && cursor.pos == old(cursor.pos) && buffer[..] == old(buffer[..]))
    ensures |str| <= lf.maxLength && old(cursor.pos) + lf.t.width > bufferLength ==>
      (r == Err(BufferTooShort) && cursor.pos == old(cursor.pos) && buffer[..] == old(buffer[..]))
    ensures |str| <= lf.maxLength && old(cursor.pos) + lf.t.width <= bufferLength < old(cursor.pos) + lf.t.width + |str| ==>
      (r == Err(BufferTooShort) && cursor.pos == old(cursor.pos) + lf.t.width &&
       buffer[..] == Splice(old(buffer[..]), old(cursor.pos), Encode(|str|, lf.t, lf.order)))
    ensures |str| <= lf.maxLength && old(cursor.pos) + lf.t.width + |str| <= bufferLength ==>
      (r == Ok(()) && cursor.pos == old(cursor.pos) + lf.t.width + |str| &&
       buffer[..] == WithVarData(old(buffer[..]), old(cursor.pos), lf, str))
  {
    if |str| > lf.maxLength {
      return Err(StringTooLong);
    }
    r := Put(buffer, bufferLength, cursor, lf, str);
  }

  /** What `putX` wrote reads back: the length field holds the data's length
      and the data follows it. */
  lemma PutThenRead(s: seq<byte>, at: nat, lf: LengthField, data: seq<byte>)
    requires lf.Valid() && InRange(|data|, lf.t) && at + lf.t.width + |data| <= |s|
    ensures LengthAt(WithVarData(s, at, lf, data), at, lf) == |data|
    ensures WithVarData(s, at, lf, data)[at + lf.t.width..at + lf.t.width + |data|] == data
  {
    var s1 := Splice(s, at, Encode(|data|, lf.t, lf.order));
    assert LengthAt(s1, at, lf) == |data| by {
      LoadAfterStore(s, at, lf.t, lf.order, |data|);
    }
    SpliceElsewhere(s1, at + lf.t.width, data, at, at + lf.t.width);
    SpliceRead(s1, at + lf.t.width, data);
  }

  /** `putX` changes no byte outside its length field and data. */
  lemma PutLeavesRest(s: seq<byte>, at: nat, lf: LengthField, data: seq<byte>, from: nat, to: nat)
    requires lf.Valid() && at + lf.t.width + |data| <= |s| && from <= to <= |s|
    requires to <= at || at + lf.t.width + |data| <= from
    ensures WithVarData(s, at, lf, data)[from..to] == s[from..to]
  {
    var s1 := Splice(s, at, Encode(|data|, lf.t, lf.order));
    SpliceElsewhere(s, at, Encode(|data|, lf.t, lf.order), from, to);
    SpliceElsewhere(s1, at + lf.t.width, data, from, to);
  }

  /** Two var-data fields put one behind the other both read back: the
      second put leaves the first field as it was. */
  lemma TwoFieldsRead(s: seq<byte>, at: nat, lf1: LengthField, d1: seq<byte>, lf2: LengthField, d2: seq<byte>)
    requires lf1.Valid() && lf2.Valid() && InRange(|d1|, lf1.t) && InRange(|d2|, lf2.t)
    requires at + lf1.t.width + |d1| + lf2.t.width + |d2| <= |s|
    ensures var next := at + lf1.t.width + |d1|;
      var s2 := WithVarData(WithVarData(s, at, lf1, d1), next, lf2, d2);
      LengthAt(s2, at, lf1) == |d1| && s2[at + lf1.t.width..next] == d1 &&
      LengthAt(s2, next, lf2) == |d2| && s2[next + lf2.t.width..next + lf2.t.width + |d2|] == d2
  {
    var next := at + lf1.t.width + |d1|;
    var s1 := WithVarData(s, at, lf1, d1);
    var s2 := WithVarData(s1, next, lf2, d2);
    PutThenRead(s, at, lf1, d1);
    PutThenRead(s1, next, lf2, d2);
    PutLeavesRest(s1, next, lf2, d2, at, next);
    assert s2[at..next][..lf1.t.width] == s2[at..at + lf1.t.width];
    assert s1[at..next][..lf1.t.width] == s1[at..at + lf1.t.width];
    assert s2[at..next][lf1.t.width..] == s2[at + lf1.t.width..next];
    assert s1[at..next][lf1.t.width..] == s1[at + lf1.t.width..next];
  }
}
