/** Text views of raw bytes: the NUL-terminated reading of a char array and the
    JSON-escaped form that the `get...AsJsonEscapedString()` accessors return. */
module Text {
  import opened Endian
  import opened Errors

  const QUOTE: byte := 0x22
  const BACKSLASH: byte := 0x5c

  /** The bytes of s before its first NUL, or all of s when it has none. */
  function UntilNul(s: seq<byte>): (r: seq<byte>)
    ensures |r| <= |s| && r == s[..|r|]
    ensures forall k :: 0 <= k < |r| ==> r[k] != 0
    ensures |r| < |s| ==> s[|r|] == 0
  {
    if s == [] || s[0] == 0 then [] else [s[0]] + UntilNul(s[1..])
  }

  /** Text without NUL bytes, padded with NULs, reads back as itself: what a
      char-array put followed by a get returns. */
  lemma {:induction false} UntilNulOfPadded(str: seq<byte>, pad: seq<byte>)
    requires forall k :: 0 <= k < |str| ==> str[k] != 0
    requires forall k :: 0 <= k < |pad| ==> pad[k] == 0
    ensures UntilNul(str + pad) == str
  {
    if str != [] {
      assert (str + pad)[1..] == str[1..] + pad;
      UntilNulOfPadded(str[1..], pad);
    }
  }

  /** The first n bytes are the text exactly when none of them is NUL and the
      next one, if any, is. */
  lemma {:induction false} UntilNulAt(s: seq<byte>, n: nat)
    requires n <= |s|
    requires forall k :: 0 <= k < n ==> s[k] != 0
    requires n == |s| || s[n] == 0
    ensures UntilNul(s) == s[..n]
  {
    if n > 0 {
      UntilNulAt(s[1..], n - 1);
      assert s[..n] == [s[0]] + s[1..][..n - 1];
    }
  }

  /** A lower-case hexadecimal digit, as `std::hex` writes it. */
  function HexDigit(d: nat): (r: byte)
    requires d < 16
    ensures IsHexDigit(r) && HexValue(r) == d
  {
    if d < 10 then (0x30 + d) as byte else (0x61 + d - 10) as byte
  }

  predicate IsHexDigit(c: byte)
  {
    0x30 <= c <= 0x39 || 0x61 <= c <= 0x66 || 0x41 <= c <= 0x46
  }

  function HexValue(c: byte): nat
    requires IsHexDigit(c)
  {
    if c <= 0x39 then (c - 0x30) as nat
    else if c >= 0x61 then (c - 0x61) as nat + 10
    else (c - 0x41) as nat + 10
  }

  /** The escaped form of one byte: the two-character escapes for `"`, `\` and
      the five named controls, `\u00XX` for every other byte below 0x20, the
      byte itself otherwise. */
  function EscapeByte(c: byte): (r: seq<byte>)
    ensures |r| == 1 || (|r| > 1 && r[0] == BACKSLASH)
  {
    if c == QUOTE then [BACKSLASH, QUOTE]
    else if c == BACKSLASH then [BACKSLASH, BACKSLASH]
    else if c == 0x08 then [BACKSLASH, 'b' as byte]
    else if c == 0x0c then [BACKSLASH, 'f' as byte]
    else if c == 0x0a then [BACKSLASH, 'n' as byte]
    else if c == 0x0d then [BACKSLASH, 'r' as byte]
    else if c == 0x09 then [BACKSLASH, 't' as byte]
    else if c <= 0x1f then
      [BACKSLASH, 'u' as byte, '0' as byte, '0' as byte, HexDigit(c as nat / 16), HexDigit(c as nat % 16)]
    else [c]
  }

  function JsonEscape(s: seq<byte>): seq<byte>
  {
    if s == [] then [] else EscapeByte(s[0]) + JsonEscape(s[1..])
  }

  lemma {:induction false} JsonEscapeAppend(a: seq<byte>, b: seq<byte>)
    ensures JsonEscape(a + b) == JsonEscape(a) + JsonEscape(b)
  {
    if a != [] {
      assert (a + b)[0] == a[0];
      assert (a + b)[1..] == a[1..] + b;
      JsonEscapeAppend(a[1..], b);
      calc {
        JsonEscape(a + b);
        EscapeByte(a[0]) + JsonEscape(a[1..] + b);
        EscapeByte(a[0]) + (JsonEscape(a[1..]) + JsonEscape(b));
        (EscapeByte(a[0]) + JsonEscape(a[1..])) + JsonEscape(b);
      }
    } else {
      assert a + b == b;
    }
  }

  /** The loop of the JSON-escaped getter, one byte at a time into a stream. */
  method EscapeJson(s: seq<byte>) returns (out: seq<byte>)
    ensures out == JsonEscape(s)
  {
    out := [];
    var i := 0;
    while i < |s|
      invariant 0 <= i <= |s|
      invariant out == JsonEscape(s[..i])
    {
      JsonEscapeAppend(s[..i], [s[i]]);
      assert s[..i + 1] == s[..i] + [s[i]];
      out := out + EscapeByte(s[i]);
      i := i + 1;
    }
    assert s[..i] == s;
  }

  /** A byte passes through unchanged exactly when it is printable and is
      neither a quote nor a backslash. */
  lemma EscapeByteIdentity(c: byte)
    ensures EscapeByte(c) == [c] <==> (c >= 0x20 && c != QUOTE && c != BACKSLASH)
  {
  }

  /** The escaped text holds no control byte, so it can sit between the quotes
      of a JSON string. */
  lemma {:induction false} JsonEscapePrintable(s: seq<byte>)
    ensures forall k :: 0 <= k < |JsonEscape(s)| ==> JsonEscape(s)[k] >= 0x20
  {
    if s != [] {
      JsonEscapePrintable(s[1..]);
      var e := EscapeByte(s[0]);
      assert forall k :: 0 <= k < |e| ==> e[k] >= 0x20;
      assert JsonEscape(s) == e + JsonEscape(s[1..]);
    }
  }

  /** Every unescaped quote in the escaped text is preceded by a backslash:
      the text cannot end the JSON string early. */
  lemma {:induction false} JsonEscapeQuotes(s: seq<byte>)
    ensures forall k :: 0 <= k < |JsonEscape(s)| && JsonEscape(s)[k] == QUOTE ==>
      k > 0 && JsonEscape(s)[k - 1] == BACKSLASH
  {
    if s != [] {
      JsonEscapeQuotes(s[1..]);
      var e := EscapeByte(s[0]);
      var rest := JsonEscape(s[1..]);
      assert JsonEscape(s) == e + rest;
      forall k | 0 <= k < |e + rest| && (e + rest)[k] == QUOTE
        ensures k > 0 && (e + rest)[k - 1] == BACKSLASH
      {
        if k >= |e| {
          assert rest[k - |e|] == QUOTE;
          if k - |e| == 0 {
            assert false;
          }
        }
      }
    }
  }

  /** The byte a two-character JSON escape stands for. */
  function NamedEscape(c: byte): Option<byte>
  {
    if c == QUOTE then Some(QUOTE)
    else if c == BACKSLASH then Some(BACKSLASH)
    else if c == '/' as byte then Some('/' as byte)
    else if c == 'b' as byte then Some(0x08)
    else if c == 'f' as byte then Some(0x0c)
    else if c == 'n' as byte then Some(0x0a)
    else if c == 'r' as byte then Some(0x0d)
    else if c == 't' as byte then Some(0x09)
    else None
  }

  function Prepend(c: byte, r: Option<seq<byte>>): Option<seq<byte>>
  {
    if r.Some? then Some([c] + r.value) else None
  }

  /** The bytes a JSON reader takes from the inside of a string whose escapes
      name bytes (`\u00XX`); None for an escape it does not accept. */
  function Unescape(e: seq<byte>): Option<seq<byte>>
    decreases |e|
  {
    if e == [] then Some([])
    else if e[0] != BACKSLASH then Prepend(e[0], Unescape(e[1..]))
    else if |e| < 2 then None
    else if e[1] == 'u' as byte then
      if |e| >= 6 && e[2] == '0' as byte && e[3] == '0' as byte && IsHexDigit(e[4]) && IsHexDigit(e[5])
      then Prepend((HexValue(e[4]) * 16 + HexValue(e[5])) as byte, Unescape(e[6..]))
      else None
    else if NamedEscape(e[1]).Some? then Prepend(NamedEscape(e[1]).value, Unescape(e[2..]))
    else None
  }

  lemma UnescapeByte(c: byte, rest: seq<byte>)
    ensures Unescape(EscapeByte(c) + rest) == Prepend(c, Unescape(rest))
  {
    var e := EscapeByte(c) + rest;
    if c < 0x20 && c != 0x08 && c != 0x0c && c != 0x0a && c != 0x0d && c != 0x09 {
      assert e[6..] == rest;
      assert HexValue(e[4]) * 16 + HexValue(e[5]) == c as nat;
    } else if |EscapeByte(c)| == 2 {
      assert e[2..] == rest;
    } else {
      assert e[1..] == rest;
    }
  }

  /** Reading the escaped text as a JSON string gives back the original bytes. */
  lemma {:induction false} UnescapeEscape(s: seq<byte>)
    ensures Unescape(JsonEscape(s)) == Some(s)
  {
    if s != [] {
      UnescapeEscape(s[1..]);
      UnescapeByte(s[0], JsonEscape(s[1..]));
      assert [s[0]] + s[1..] == s;
    }
  }
}
