# SBE C++ codec generator, modelled in Dafny

This project models the C++ generator of Simple Binary Encoding (SBE). The
generator emits header-only flyweight codecs. Two kinds of behaviour are
modelled: what the emitted code does at run time, and the few pure decisions
the generator makes while it writes that code.

The run-time part is modelled over a byte array:

- **Fixed fields.** Integer scalar getters and setters load and store with an
  explicit byte-order conversion (`Fields`, `Endian`). Enum properties use the
  same load and store with no check of the domain.
- **Arrays.** Fixed arrays have an indexed getter (E104) and setter (E105), a
  bulk getter (E106), a bulk put and a multi-value put. Char arrays have text
  accessors with NUL termination and padding (E106).
- **Flyweights** (`Flyweights`). A fixed flyweight checks at `wrap` that its
  block fits (E107). A message flyweight binds with `wrapForDecode`,
  `wrapForEncode` and `wrapAndApplyHeader`, and every move of its cursor goes
  through `sbeCheckPosition` (E100).
- **Repeating groups** (`Groups`). A group shares the message's cursor through
  `m_positionPtr`; here both hold the same `Cursor` object. Covered: the
  dimension header (E107, and E110 for a count out of range), `hasNext`,
  `next` (E108) and `forEach`.
- **Variable-length data** (`VarData`). A length field is followed by the
  bytes. Covered: skip, the pointer getter, copy out, string, JSON-escaped
  string, put, and string put (E109).
- **Bit sets** (`BitSets`). Choice getters and setters, `clear` and `isEmpty`.
- **JSON escaping** (`Text`). The escaping the `...AsJsonEscapedString()`
  accessors apply.

Every error the emitted code throws is an `Errors.Error` carrying its code
(E100–E110). A method returns `Err` where the C++ throws, and says what state
the throw leaves behind.

The generation-time part (`Literals`, `SpanWalk`) covers:

- rendering constant and null values as C++ literals;
- the choice between a null value's macro and its literal;
- the walks that step through the token list by each token's
  `componentTokenCount`.

All cited paths are relative to the repository root. The generator is
`sbe-tool/src/main/java/uk/co/real_logic/sbe/generation/cpp/CppGenerator.java`,
written `CppGenerator.java` below only in prose.

## Model

| member | source | states |
|---|---|---|
| Endian.Decode | sbe-tool/src/main/java/uk/co/real_logic/sbe/generation/cpp/CppGenerator.java:1128-1135 | a load yields a value inside the range of the field's integer type |
| Endian.DecodeEncode | sbe-tool/src/main/java/uk/co/real_logic/sbe/generation/cpp/CppGenerator.java:1104-1182 | a store followed by a load gives back the stored value, for every integer type, signedness and byte order |
| Endian.EncodeDecode | sbe-tool/src/main/java/uk/co/real_logic/sbe/generation/cpp/CppGenerator.java:1104-1182 | storing the value just loaded rewrites the same bytes |
| Endian.DecodeEncodeUnsigned | sbe-tool/src/main/java/uk/co/real_logic/sbe/generation/cpp/CppGenerator.java:1128-1135 | the byte-order conversion round-trips for unsigned values in either order |
| Endian.EncodeDecodeUnsigned | sbe-tool/src/main/java/uk/co/real_logic/sbe/generation/cpp/CppGenerator.java:1170-1175 | encoding the decoded value of any bytes gives the same bytes back |
| Endian.DecodeUnsignedZero | sbe-tool/src/main/java/uk/co/real_logic/sbe/generation/cpp/CppGenerator.java:652-659 | a value is zero iff all its bytes are zero, in either order, so a raw comparison with 0 needs no conversion |
| Buffers.CopyIn | sbe-tool/src/main/java/uk/co/real_logic/sbe/generation/cpp/CppGenerator.java:1329 | `memcpy` into the buffer: the piece lands at the position and every other byte is unchanged |
| Text.UntilNul | sbe-tool/src/main/java/uk/co/real_logic/sbe/generation/cpp/CppGenerator.java:1378-1382 | the text is a prefix with no NUL, followed by a NUL unless it is the whole array |
| Text.UntilNulOfPadded | sbe-tool/src/main/java/uk/co/real_logic/sbe/generation/cpp/CppGenerator.java:1436-1440 | NUL-free text padded with NULs reads back as the text |
| Text.EscapeJson | sbe-tool/src/main/java/uk/co/real_logic/sbe/generation/cpp/CppGenerator.java:1459-1484 | the byte-by-byte escaping loop produces the escaped form of the whole string |
| Text.EscapeByteIdentity | sbe-tool/src/main/java/uk/co/real_logic/sbe/generation/cpp/CppGenerator.java:1463-1482 | a byte is emitted as itself iff it is not a control byte, a quote or a backslash |
| Text.JsonEscapePrintable | sbe-tool/src/main/java/uk/co/real_logic/sbe/generation/cpp/CppGenerator.java:1473-1476 | the escaped text contains no control byte |
| Text.JsonEscapeQuotes | sbe-tool/src/main/java/uk/co/real_logic/sbe/generation/cpp/CppGenerator.java:1465-1466 | every quote in the escaped text is preceded by a backslash |
| Text.UnescapeEscape | sbe-tool/src/main/java/uk/co/real_logic/sbe/generation/cpp/CppGenerator.java:1452-1488 | a JSON reader recovers the original bytes from the escaped text |
| Fields.GetScalar | sbe-tool/src/main/java/uk/co/real_logic/sbe/generation/cpp/CppGenerator.java:1196-1204 | the scalar getter (and the enum getter) returns the value decoded from the field's bytes in the declared order |
| Fields.SetScalar | sbe-tool/src/main/java/uk/co/real_logic/sbe/generation/cpp/CppGenerator.java:1206-1218 | the scalar setter (and the enum setter) writes exactly the encoded value over the field's bytes |
| Fields.LoadAfterStore | sbe-tool/src/main/java/uk/co/real_logic/sbe/generation/cpp/CppGenerator.java:1184-1219 | a getter after a setter returns the value set |
| Fields.LoadAfterOtherStore | sbe-tool/src/main/java/uk/co/real_logic/sbe/generation/cpp/CppGenerator.java:1184-1219 | a setter leaves every field it does not overlap unchanged |
| Fields.StoreLoaded | sbe-tool/src/main/java/uk/co/real_logic/sbe/generation/cpp/CppGenerator.java:1184-1219 | setting the value just read leaves the buffer as it was |
| Fields.GetElement | sbe-tool/src/main/java/uk/co/real_logic/sbe/generation/cpp/CppGenerator.java:1262-1281 | E104 iff index >= array length; otherwise the element lies inside the array and its decoded value is returned |
| Fields.SetElement | sbe-tool/src/main/java/uk/co/real_logic/sbe/generation/cpp/CppGenerator.java:1283-1305 | E105 iff index >= array length, and then the buffer is untouched; otherwise exactly that element is stored |
| Fields.ElementsIndependent | sbe-tool/src/main/java/uk/co/real_logic/sbe/generation/cpp/CppGenerator.java:1262-1305 | setting one element leaves every other element's value unchanged |
| Fields.GetArray | sbe-tool/src/main/java/uk/co/real_logic/sbe/generation/cpp/CppGenerator.java:1307-1324 | E106 iff more elements are asked for than the array holds, and then dst is untouched; otherwise that many elements' raw bytes are copied to the front of dst and the count is returned |
| Fields.PutArray | sbe-tool/src/main/java/uk/co/real_logic/sbe/generation/cpp/CppGenerator.java:1326-1336 | the whole array's bytes are replaced by the source bytes, nothing else changes |
| Fields.PutValues | sbe-tool/src/main/java/uk/co/real_logic/sbe/generation/cpp/CppGenerator.java:1338-1371 | the multi-value setter writes the encodings of all values one after the other over the array |
| Fields.PutValuesThenGet | sbe-tool/src/main/java/uk/co/real_logic/sbe/generation/cpp/CppGenerator.java:1338-1371 | after the multi-value setter, element k reads back as value k |
| Fields.GetCharsAsString | sbe-tool/src/main/java/uk/co/real_logic/sbe/generation/cpp/CppGenerator.java:1376-1385 | the loop returns the array's bytes before the first NUL (the whole array when there is none) |
| Fields.GetCharsAsJsonEscapedString | sbe-tool/src/main/java/uk/co/real_logic/sbe/generation/cpp/CppGenerator.java:1390 | the JSON getter of a char array returns the escaped NUL-terminated text |
| Fields.PutChars | sbe-tool/src/main/java/uk/co/real_logic/sbe/generation/cpp/CppGenerator.java:1428-1444 | E106 iff the text is longer than the array, and then the buffer is untouched; otherwise the text is written followed by NULs to the end of the array |
| Fields.PutCharsThenGet | sbe-tool/src/main/java/uk/co/real_logic/sbe/generation/cpp/CppGenerator.java:1373-1444 | NUL-free text that fits reads back unchanged after a put |
| Flyweights.MovePosition | sbe-tool/src/main/java/uk/co/real_logic/sbe/generation/cpp/CppGenerator.java:1810-1822 | the cursor moves iff the new position is within the buffer length; otherwise E100 and the cursor stays |
| Flyweights.Flyweight.constructor | sbe-tool/src/main/java/uk/co/real_logic/sbe/generation/cpp/CppGenerator.java:1578-1600 | the default flyweight has no buffer, length 0 and offset 0 |
| Flyweights.Flyweight.Wrap | sbe-tool/src/main/java/uk/co/real_logic/sbe/generation/cpp/CppGenerator.java:1602-1629 | E107 iff offset + encoded length exceeds the buffer length, and then nothing changes; otherwise the flyweight is bound and its block fits |
| Flyweights.ApplyHeader | sbe-tool/src/main/java/uk/co/real_logic/sbe/generation/cpp/CppGenerator.java:1782-1787 | the three header stores leave the buffer as the header with block length, template id and schema id |
| Flyweights.WithHeaderBlockLength | sbe-tool/src/main/java/uk/co/real_logic/sbe/generation/cpp/CppGenerator.java:1784-1785 | the header's block length reads back as the message's block length |
| Flyweights.WithHeaderTemplateId | sbe-tool/src/main/java/uk/co/real_logic/sbe/generation/cpp/CppGenerator.java:1786 | the header's template id reads back as the message's template id |
| Flyweights.WithHeaderSchemaId | sbe-tool/src/main/java/uk/co/real_logic/sbe/generation/cpp/CppGenerator.java:1787 | the header's schema id reads back as the message's schema id |
| Flyweights.Message.constructor | sbe-tool/src/main/java/uk/co/real_logic/sbe/generation/cpp/CppGenerator.java:1714-1718 | the default message has no buffer, offset 0 and its cursor at 0 |
| Flyweights.Message.WrapForDecode | sbe-tool/src/main/java/uk/co/real_logic/sbe/generation/cpp/CppGenerator.java:1796-1803 | E100 iff offset + acting block length exceeds the buffer length, and then nothing changes; otherwise the message is bound and the cursor is at the end of the block |
| Flyweights.Message.WrapForEncode | sbe-tool/src/main/java/uk/co/real_logic/sbe/generation/cpp/CppGenerator.java:1774-1777 | as the decode bind with the schema's own block length |
| Flyweights.Message.WrapAndApplyHeader | sbe-tool/src/main/java/uk/co/real_logic/sbe/generation/cpp/CppGenerator.java:1779-1794 | E107 with nothing written when the header does not fit; otherwise the header is written, then E100 (header left written) or the message is bound just after the header with the cursor past its block |
| Flyweights.Message.SetPosition | sbe-tool/src/main/java/uk/co/real_logic/sbe/generation/cpp/CppGenerator.java:1819-1822 | the cursor moves iff the position is within the buffer length; E100 otherwise, with the cursor unchanged |
| Flyweights.Message.EncodedLength | sbe-tool/src/main/java/uk/co/real_logic/sbe/generation/cpp/CppGenerator.java:1824-1827 | the distance from the offset to the cursor, wrapping modulo 2^64 as a `size_t` difference does |
| Groups.ApplyDimensions | sbe-tool/src/main/java/uk/co/real_logic/sbe/generation/cpp/CppGenerator.java:257-259 | the dimension header receives the block length (cast to its field's type) and the count |
| Groups.DimensionsRoundTrip | sbe-tool/src/main/java/uk/co/real_logic/sbe/generation/cpp/CppGenerator.java:218-265 | a header written by the encode bind is read by the decode bind as the same block length and count |
| Groups.Group.constructor | sbe-tool/src/main/java/uk/co/real_logic/sbe/generation/cpp/CppGenerator.java:200-207 | the default group has no buffer, no cursor and all counters 0 |
| Groups.Group.WrapForDecode | sbe-tool/src/main/java/uk/co/real_logic/sbe/generation/cpp/CppGenerator.java:218-231 | E107 iff the dimension header does not fit at the cursor, and then nothing changes; otherwise block length and count come from the header, the index is before the first element, the shared cursor moves past the header, and hasNext holds iff count > 0 |
| Groups.Group.WrapForEncode | sbe-tool/src/main/java/uk/co/real_logic/sbe/generation/cpp/CppGenerator.java:237-269 | E110 iff count is outside [min, max], with nothing changed; else E107 iff the header does not fit, with buffer and cursor unchanged; otherwise the header is written and the group is positioned before its first element |
| Groups.Group.Next | sbe-tool/src/main/java/uk/co/real_logic/sbe/generation/cpp/CppGenerator.java:311-323 | the element offset is the cursor (even on failure); E108 iff its block does not fit, with cursor and index unchanged; otherwise the cursor moves past the block and the index advances |
| Groups.Group.SetPosition | sbe-tool/src/main/java/uk/co/real_logic/sbe/generation/cpp/CppGenerator.java:287-299 | the shared cursor moves iff the position is within the buffer length; E100 otherwise |
| Groups.Group.ForEach | sbe-tool/src/main/java/uk/co/real_logic/sbe/generation/cpp/CppGenerator.java:326-346 | on any group state, including one whose index has reached or passed the count (then nothing is visited), the loop visits exactly the element offsets of the walk specification or stops at its first error; on success no element is left and the cursor has moved by the span of all elements |
| Groups.VisitsOk | sbe-tool/src/main/java/uk/co/real_logic/sbe/generation/cpp/CppGenerator.java:326-346 | the walk over the remaining elements succeeds iff all of them fit before the buffer length |
| Groups.VisitsLayout | sbe-tool/src/main/java/uk/co/real_logic/sbe/generation/cpp/CppGenerator.java:326-346 | a successful walk visits every element once, each starting where the previous element and its nested data end |
| Groups.GroupForDecode | sbe-tool/src/main/java/uk/co/real_logic/sbe/generation/cpp/CppGenerator.java:375-380 | the group property binds the group at the message's cursor, which the group then shares; E107 iff the dimension header does not fit; on success the group's block length and count are the values read from the header and the cursor is past it |
| Groups.GroupForEncode | sbe-tool/src/main/java/uk/co/real_logic/sbe/generation/cpp/CppGenerator.java:384-390 | the count property fails with E110 iff the count is out of range; on success the message's buffer holds the dimension header with the schema's block length and the count, the group's block length is the schema's, its index is before the first element, and it shares the message's cursor, moved past the header |
| VarData.DataLength | sbe-tool/src/main/java/uk/co/real_logic/sbe/generation/cpp/CppGenerator.java:618-625 | the length getter returns the length field's value at the cursor |
| VarData.Skip | sbe-tool/src/main/java/uk/co/real_logic/sbe/generation/cpp/CppGenerator.java:429-440 | succeeds iff length field plus data fit before the buffer length, returning the data length with the cursor past the data; E100 otherwise with the cursor unchanged |
| VarData.Payload | sbe-tool/src/main/java/uk/co/real_logic/sbe/generation/cpp/CppGenerator.java:447-456 | returns the position just after the length field, and the cursor ends past the data; E100 as for skip |
| VarData.Get | sbe-tool/src/main/java/uk/co/real_logic/sbe/generation/cpp/CppGenerator.java:463-478 | E100 with nothing changed when the length field does not fit; E100 with the cursor behind the length field when the data does not fit; otherwise min(length, data length) data bytes go to dst, that count is returned, and the cursor is past the data |
| VarData.GetAsString | sbe-tool/src/main/java/uk/co/real_logic/sbe/generation/cpp/CppGenerator.java:504-543 | the same two E100 cases; otherwise the whole data as a string, with the cursor past it |
| VarData.GetAsJsonEscapedString | sbe-tool/src/main/java/uk/co/real_logic/sbe/generation/cpp/CppGenerator.java:525 | the string of the string getter, JSON-escaped, with the same errors and cursor moves |
| VarData.Put | sbe-tool/src/main/java/uk/co/real_logic/sbe/generation/cpp/CppGenerator.java:485-497 | E100 with nothing written; or E100 with only the length field written; or the length field and data written back to back with the cursor past the data |
| VarData.PutString | sbe-tool/src/main/java/uk/co/real_logic/sbe/generation/cpp/CppGenerator.java:550-566 | E109 iff the string is longer than the length type allows, with nothing changed; otherwise as put |
| VarData.PutThenRead | sbe-tool/src/main/java/uk/co/real_logic/sbe/generation/cpp/CppGenerator.java:463-497 | after a put the length field reads as the data's length and the data reads back |
| VarData.PutLeavesRest | sbe-tool/src/main/java/uk/co/real_logic/sbe/generation/cpp/CppGenerator.java:485-497 | a put changes no byte outside its length field and data |
| VarData.TwoFieldsRead | sbe-tool/src/main/java/uk/co/real_logic/sbe/generation/cpp/CppGenerator.java:404-576 | two var-data fields put one after the other both read back |
| BitSets.GetChoice | sbe-tool/src/main/java/uk/co/real_logic/sbe/generation/cpp/CppGenerator.java:765-776 | the choice getter reports bit k of the set's value read in its byte order |
| BitSets.SetChoice | sbe-tool/src/main/java/uk/co/real_logic/sbe/generation/cpp/CppGenerator.java:778-793 | the choice setter writes back the set's value with bit k changed; it uses the corrected mask, not the 32-bit mask of the code as written (see Findings) |
| BitSets.SetChoiceThenGet | sbe-tool/src/main/java/uk/co/real_logic/sbe/generation/cpp/CppGenerator.java:765-793 | after setting choice k with the corrected setter it reads back as the value set, and every other choice is unchanged |
| BitSets.SetValueAsWritten | sbe-tool/src/main/java/uk/co/real_logic/sbe/generation/cpp/CppGenerator.java:778-788 | the buffer-backed setter as written leaves in the set the value the 32-bit-mask static setter computes |
| BitSets.SetChoiceAsWrittenNarrow | sbe-tool/src/main/java/uk/co/real_logic/sbe/generation/cpp/CppGenerator.java:778-788 | for sets of at most four bytes the buffer-backed setter as written writes the same bytes as the corrected one |
| BitSets.SetChoiceAsWrittenClearsHighBits | sbe-tool/src/main/java/uk/co/real_logic/sbe/generation/cpp/CppGenerator.java:783-785 | clearing any choice of an eight-byte set with the buffer-backed setter as written leaves a value below 2^32, so bits 32 to 63 are lost |
| BitSets.WithChoice | sbe-tool/src/main/java/uk/co/real_logic/sbe/generation/cpp/CppGenerator.java:755-763 | the corrected static setter, the evidently intended behaviour of the lines cited (see Findings): its result fits the set's type |
| BitSets.WithChoiceSetsOnlyK | sbe-tool/src/main/java/uk/co/real_logic/sbe/generation/cpp/CppGenerator.java:746-763 | the static setter sets bit k to the value, as the static getter sees it, and keeps every other bit |
| BitSets.WithChoiceAsWritten | sbe-tool/src/main/java/uk/co/real_logic/sbe/generation/cpp/CppGenerator.java:755-763 | the setter as written, with its 32-bit clear mask, still yields a value of the set's type |
| BitSets.WithChoiceAsWrittenNarrow | sbe-tool/src/main/java/uk/co/real_logic/sbe/generation/cpp/CppGenerator.java:755-763 | for sets of at most four bytes the setter as written equals the corrected one |
| BitSets.WithChoiceAsWrittenLosesHighBits | sbe-tool/src/main/java/uk/co/real_logic/sbe/generation/cpp/CppGenerator.java:783-785 | on an eight-byte set, clearing choice 0 as written also clears bit 32 |
| BitSets.Clear | sbe-tool/src/main/java/uk/co/real_logic/sbe/generation/cpp/CppGenerator.java:643-650 | clear writes zero bytes over the set and nothing else |
| BitSets.ClearThenEmpty | sbe-tool/src/main/java/uk/co/real_logic/sbe/generation/cpp/CppGenerator.java:643-659 | after clear the set's value is 0 |
| BitSets.IsEmpty | sbe-tool/src/main/java/uk/co/real_logic/sbe/generation/cpp/CppGenerator.java:652-659 | isEmpty holds iff the set's value is 0 in its byte order |
| BitSets.EmptyIffNoChoice | sbe-tool/src/main/java/uk/co/real_logic/sbe/generation/cpp/CppGenerator.java:652-659 | a set is empty iff none of its choices is set |
| Literals.IntTypeOf | sbe-tool/src/main/java/uk/co/real_logic/sbe/generation/cpp/CppGenerator.java:2136-2170 | every integer primitive maps to a valid width and signedness |
| Literals.ParseLong | sbe-tool/src/main/java/uk/co/real_logic/sbe/generation/cpp/CppGenerator.java:2164 | a parsed long lies in [-2^63, 2^63) |
| Literals.ParseLongText | sbe-tool/src/main/java/uk/co/real_logic/sbe/generation/cpp/CppGenerator.java:2164 | parsing the decimal text of a long gives the long back |
| Literals.RenderRoundTrip | sbe-tool/src/main/java/uk/co/real_logic/sbe/generation/cpp/CppGenerator.java:2164 | reading a number rendered in a radix gives the number back |
| Literals.RenderNoLeadingZero | sbe-tool/src/main/java/uk/co/real_logic/sbe/generation/cpp/CppGenerator.java:2164 | a rendered number starts with 0 iff it is 0 |
| Literals.Literal | sbe-tool/src/main/java/uk/co/real_logic/sbe/generation/cpp/CppGenerator.java:2131-2173 | a literal is produced for every type and value, except a UINT64 value that is not a long, where parsing throws |
| Literals.LiteralRoundTrip | sbe-tool/src/main/java/uk/co/real_logic/sbe/generation/cpp/CppGenerator.java:2131-2173 | for a finite number and any type but UINT64, the value can be read back from its literal |
| Literals.Int64Literal | sbe-tool/src/main/java/uk/co/real_logic/sbe/generation/cpp/CppGenerator.java:2155-2161 | an INT64 literal is `INT64_MIN` iff the value is the most negative long; otherwise it is the value with an `L` suffix |
| Literals.FloatingLiteral | sbe-tool/src/main/java/uk/co/real_logic/sbe/generation/cpp/CppGenerator.java:2151-2168 | FLOAT and DOUBLE values ending in NaN become their NaN macros; otherwise FLOAT gets an `f` suffix and DOUBLE is unchanged |
| Literals.LiteralCast | sbe-tool/src/main/java/uk/co/real_logic/sbe/generation/cpp/CppGenerator.java:2138-2144 | a number's literal starts with a cast iff the type is CHAR or an 8- or 16-bit integer |
| Literals.LiteralVerbatim | sbe-tool/src/main/java/uk/co/real_logic/sbe/generation/cpp/CppGenerator.java:2146-2168 | a number's literal is the value text itself iff the type is INT32, UINT32 or DOUBLE |
| Literals.Uint64Literal | sbe-tool/src/main/java/uk/co/real_logic/sbe/generation/cpp/CppGenerator.java:2163-2165 | a UINT64 literal is `0x` + hex + `L`, where the hex denotes the value, or the value plus 2^64 when the long is negative |
| Literals.NullValueLiteral | sbe-tool/src/main/java/uk/co/real_logic/sbe/generation/cpp/CppGenerator.java:2096-2129 | a null value from the schema is rendered as a literal of that value |
| Literals.DefaultNullIsExtreme | sbe-tool/src/main/java/uk/co/real_logic/sbe/generation/cpp/CppGenerator.java:943-950 | with no schema null value, an integer type's null is a macro whose value is the type's minimum (signed) or maximum (unsigned) |
| SpanWalk.Walk | sbe-tool/src/main/java/uk/co/real_logic/sbe/generation/cpp/CppGenerator.java:404-576 | the stepping loop returns exactly the walk specification: the visited child starts, or IllegalState at the child it rejects |
| SpanWalk.ChainLayout | sbe-tool/src/main/java/uk/co/real_logic/sbe/generation/cpp/CppGenerator.java:982-1018 | an unchecked walk visits children inside the list, in strictly increasing order, each starting where the previous one ends, the last reaching the end |
| SpanWalk.CheckedWalk | sbe-tool/src/main/java/uk/co/real_logic/sbe/generation/cpp/CppGenerator.java:2292-2329 | a checked walk completes iff every child starts with the expected signal, and then visits the same children; otherwise it throws at the first child that does not |

## Left out

- Floating-point fields (the `sbe_float_as_uint_u` / `sbe_double_as_uint_u` unions) are not modelled: Dafny has no IEEE-754 type. FLOAT and DOUBLE literals are modelled only as text.
- Platform byte-order macros are replaced by an explicit little- or big-endian byte order per field. `SBE_NO_BOUNDS_CHECK`, which turns every bounds check off, is not modelled.
- `rawValue()` of a bit set copies in host byte order, which depends on the platform, so it is not modelled.
- Enum properties (`CppGenerator.java` 1962-2037) are the scalar getter and setter with no check of the domain. The enum lookup's `static_cast` (824-838) and the enum display are not modelled separately.
- All display and JSON printing generators are left out. Their token walk over var data is the same as `SpanWalk.Walk`. Their group walk uses `findEndSignal`, which is not part of this model.
- `collectFields`, `collectGroups`, `collectVarData`, `findFirst` and `findEndSignal` are not part of this model. `SpanWalk` models each walk as advancing by the child's `componentTokenCount`. That is what the composite and var-data loops do, and the group loop reaches the same place on a well-formed token list.
- Constant fields (1490-1568), `...SinceVersion()`, `...Id()`, `sbeHeaderSize()` and the other static accessors only return schema constants. Apart from the literal rendering, they are not modelled.
- The message constructors marked `SBE_NOEXCEPT` that delegate to the checking constructor (1690-1701) terminate the program instead of throwing. They are not modelled.
- Groups.Group.ForEach: the callback is modelled only by how far it moves the shared cursor on each element (`extras`). Anything else the callback does is not modelled.
- Groups.Group.Next: requires a bound group (`position != null`). The source dereferences a null `m_positionPtr` on an unbound group.
- VarData.DataLength: requires the length field to lie inside the physical array. The source reads it with no check against the buffer length, so a read past the array is undefined behaviour in C++.
- VarData.Skip: requires the length field to lie inside the physical array, for the same reason as `VarData.DataLength`. The E100 check after the read is modelled as written.
- VarData.Payload: requires the length field to lie inside the physical array, for the same reason as `VarData.DataLength`.
- VarData.GetAsString: checks the data's bounds before it reads the data. The source builds the string first, reading past the buffer length before it throws; the result and the error are the same.
- VarData.Put: the explicit `length` argument is modelled as the length of `src`. It is required to fit the length field's type; the source would truncate it silently.
- BitSets.GetChoice: the choice position is required to be below 32. `1u << k` is a 32-bit shift, undefined for positions 32 to 63 of an eight-byte set.
- BitSets.SetChoice: the choice position is required to be below 32, for the same reason as `BitSets.GetChoice`. It writes back with the corrected mask, so it keeps bits 32 to 63 of an eight-byte set where the code as written clears them; the setter as written is `BitSets.SetChoiceBytesAsWritten` (see Findings).
- Flyweights.Flyweight.Wrap: adds `offset + encodedLength` (1610) as unbounded naturals. The generated C++ adds them as 64-bit `size_t`, so an offset near 2^64 makes the sum wrap and the bounds check pass, and later accesses fall outside the buffer. The model's bounds check does not wrap, so its error condition is stated only in unbounded arithmetic.
- Flyweights.Message.WrapForDecode: adds `offset + actingBlockLength` (1686, 1796-1803) as unbounded naturals. The generated C++ adds them as 64-bit `size_t`, so an offset near 2^64 makes the sum wrap and the bounds check pass, and later accesses fall outside the buffer. The model's bounds check does not wrap, so its error condition is stated only in unbounded arithmetic.
- Flyweights.Message.WrapForEncode: adds `offset + blockLength` (1774-1777) as unbounded naturals. The generated C++ adds them as 64-bit `size_t`, so an offset near 2^64 makes the sum wrap and the bounds check pass, and later accesses fall outside the buffer. The model's bounds check does not wrap, so its error condition is stated only in unbounded arithmetic.
- Flyweights.Message.WrapAndApplyHeader: adds the header and block sums (1779-1794) as unbounded naturals. The generated C++ adds them as 64-bit `size_t`, so an offset near 2^64 makes the sum wrap and the bounds check pass, and later accesses fall outside the buffer. The model's bounds check does not wrap, so its error condition is stated only in unbounded arithmetic.
- Groups.Group.WrapForDecode: adds the dimensions flyweight's `offset + encodedLength` and the cursor sum (218-231) as unbounded naturals. The generated C++ adds them as 64-bit `size_t`, so an offset near 2^64 makes the sum wrap and the bounds check pass, and later accesses fall outside the buffer. The model's bounds check does not wrap, so its error condition is stated only in unbounded arithmetic.
- Groups.Group.WrapForEncode: adds the dimensions flyweight's `offset + encodedLength` and the cursor sum (237-269) as unbounded naturals. The generated C++ adds them as 64-bit `size_t`, so an offset near 2^64 makes the sum wrap and the bounds check pass, and later accesses fall outside the buffer. The model's bounds check does not wrap, so its error condition is stated only in unbounded arithmetic.
- Groups.Group.Next: adds `m_offset + m_blockLength` (314) as unbounded naturals. The generated C++ adds them as 64-bit `size_t`, so an offset near 2^64 makes the sum wrap and the bounds check pass, and later accesses fall outside the buffer. The model's bounds check does not wrap, so its error condition is stated only in unbounded arithmetic.
- Groups.Group.ForEach: adds the cursor sums of `next()` on each element (314, 326-346) as unbounded naturals. The generated C++ adds them as 64-bit `size_t`, so an offset near 2^64 makes the sum wrap and the bounds check pass, and later accesses fall outside the buffer. The model's bounds check does not wrap, so its error condition is stated only in unbounded arithmetic.
- VarData.Skip: adds the cursor sums (429-440) as unbounded naturals. The generated C++ adds them as 64-bit `size_t`, so an offset near 2^64 makes the sum wrap and the bounds check pass, and later accesses fall outside the buffer. The model's bounds check does not wrap, so its error condition is stated only in unbounded arithmetic.
- VarData.Payload: adds the cursor sum (447-456) as unbounded naturals. The generated C++ adds them as 64-bit `size_t`, so an offset near 2^64 makes the sum wrap and the bounds check pass, and later accesses fall outside the buffer. The model's bounds check does not wrap, so its error condition is stated only in unbounded arithmetic.
- VarData.Get: adds `lengthPosition + lengthOfLengthField` and `pos + dataLength` (468, 475) as unbounded naturals. The generated C++ adds them as 64-bit `size_t`, so an offset near 2^64 makes the sum wrap and the bounds check pass, and later accesses fall outside the buffer. The model's bounds check does not wrap, so its error condition is stated only in unbounded arithmetic.
- VarData.GetAsString: adds the cursor sums (504-543) as unbounded naturals. The generated C++ adds them as 64-bit `size_t`, so an offset near 2^64 makes the sum wrap and the bounds check pass, and later accesses fall outside the buffer. The model's bounds check does not wrap, so its error condition is stated only in unbounded arithmetic.
- VarData.GetAsJsonEscapedString: adds the cursor sums (525) as unbounded naturals. The generated C++ adds them as 64-bit `size_t`, so an offset near 2^64 makes the sum wrap and the bounds check pass, and later accesses fall outside the buffer. The model's bounds check does not wrap, so its error condition is stated only in unbounded arithmetic.
- VarData.Put: adds the cursor sums (485-497) as unbounded naturals. The generated C++ adds them as 64-bit `size_t`, so an offset near 2^64 makes the sum wrap and the bounds check pass, and later accesses fall outside the buffer. The model's bounds check does not wrap, so its error condition is stated only in unbounded arithmetic.
- VarData.PutString: adds the cursor sums of the `Put` it calls (550-566) as unbounded naturals. The generated C++ adds them as 64-bit `size_t`, so an offset near 2^64 makes the sum wrap and the bounds check pass, and later accesses fall outside the buffer. The model's bounds check does not wrap, so its error condition is stated only in unbounded arithmetic.
- Groups and VarData: the dimension header's blockLength and numInGroup types and the var-data length type are required to be unsigned, as SBE schemas declare them. A signed type is not modelled.
- Literals.CppTypeName: assumes the standard mapping of SBE primitives to `<cstdint>` types. `CppUtil` is not part of this model.
- Literals.NullValueLiteral: for CHAR, FLOAT and DOUBLE with no null value in the schema, the applicable null value is passed in as text. It is not computed here.
- Literals.ParseLong: accepts ASCII digits only. Java's `Long.parseLong` also accepts other Unicode decimal digits.
- File output, file headers, include guards and the formatting of generated text (indentation, naming) are not modelled.

## Findings

| source | as written | input that shows it | evidently intended | confidence | as-written member | corrected member |
|---|---|---|---|---|---|---|
| sbe-tool/src/main/java/uk/co/real_logic/sbe/generation/cpp/CppGenerator.java:755-785 | a choice is cleared with `bits & ~(1u << k)`. `~(1u << k)` is a 32-bit `unsigned int`, zero-extended to 64 bits for a `std::uint64_t` set, so the mask also clears bits 32-63 | a `uint64` set holding only bit 32 (value 2^32), cleared at choice 0: the result is 0 and bit 32 is lost | only bit k changes, whatever the width of the set | not executed | BitSets.WithChoiceAsWrittenLosesHighBits | BitSets.WithChoiceSetsOnlyK |
| sbe-tool/src/main/java/uk/co/real_logic/sbe/generation/cpp/CppGenerator.java:778-788 | the buffer-backed setter clears a choice with `bits & ~(1u << k)` after converting `bits` from its byte order, the same 32-bit mask as the static setter | an eight-byte set holding only bit 32 (value 2^32), choice 0 cleared: the bytes written hold 0 and bit 32 is lost | only bit k changes, whatever the width of the set | not executed | BitSets.SetChoiceAsWrittenClearsHighBits | BitSets.SetChoiceThenGet |
