/** The raw byte buffer the emitted codec works on, and the `std::memcpy`
    calls it makes into and out of it. */
module Buffers {
  import opened Endian

  /** The bytes of s after a copy of piece to position at. */
  function Splice(s: seq<byte>, at: nat, piece: seq<byte>): (r: seq<byte>)
    requires at + |piece| <= |s|
    ensures |r| == |s|
  {
    seq(|s|, k requires 0 <= k < |s| => if at <= k < at + |piece| then piece[k - at] else s[k])
  }

  /** n zero bytes. */
  function Zeros(n: nat): (r: seq<byte>)
    ensures |r| == n
    ensures forall k :: 0 <= k < n ==> r[k] == 0
  {
    seq(n, _ => 0)
  }

  /** After a splice the spliced bytes read back, whatever was there before. */
  lemma SpliceRead(s: seq<byte>, at: nat, piece: seq<byte>)
    requires at + |piece| <= |s|
    ensures Splice(s, at, piece)[at..at + |piece|] == piece
  {
    var w := Splice(s, at, piece)[at..at + |piece|];
    assert forall k :: 0 <= k < |piece| ==> w[k] == piece[k];
  }

  /** Any part of the spliced bytes, from position p inside the piece, reads
      back as that part of the piece. */
  lemma SpliceReadPart(s: seq<byte>, at: nat, piece: seq<byte>, from: nat, part: seq<byte>, p: nat)
    requires at + |piece| <= |s| && from + |part| <= |piece| && p == at + from
    requires piece[from..from + |part|] == part
    ensures Splice(s, at, piece)[p..p + |part|] == part
  {
    var w := Splice(s, at, piece)[p..p + |part|];
    assert forall k :: 0 <= k < |part| ==> w[k] == piece[from + k];
  }

  /** A splice leaves every range that does not overlap it as it was. */
  lemma SpliceElsewhere(s: seq<byte>, at: nat, piece: seq<byte>, from: nat, to: nat)
    requires at + |piece| <= |s| && from <= to <= |s|
    requires to <= at || at + |piece| <= from
    ensures Splice(s, at, piece)[from..to] == s[from..to]
  {
    var w := Splice(s, at, piece)[from..to];
    assert forall k :: 0 <= k < to - from ==> w[k] == s[from + k];
  }

  /** Two adjacent copies are one copy of the concatenation. */
  lemma SpliceAdjacent(s: seq<byte>, at: nat, p: seq<byte>, q: seq<byte>)
    requires at + |p| + |q| <= |s|
    ensures Splice(Splice(s, at, p), at + |p|, q) == Splice(s, at, p + q)
  {
    var a := Splice(Splice(s, at, p), at + |p|, q);
    var b := Splice(s, at, p + q);
    assert forall k :: 0 <= k < |s| ==> a[k] == b[k];
  }

  /** `std::memcpy(buffer + at, piece, |piece|)`. */
  method CopyIn(buffer: array<byte>, at: nat, piece: seq<byte>)
    requires at + |piece| <= buffer.Length
    modifies buffer
    ensures buffer[..] == Splice(old(buffer[..]), at, piece)
  {
    var i := 0;
    while i < |piece|
      invariant 0 <= i <= |piece|
      invariant forall k :: 0 <= k < buffer.Length ==>
        buffer[k] == (if at <= k < at + i then piece[k - at] else old(buffer[k]))
    {
      buffer[at + i] := piece[i];
      i := i + 1;
    }
    assert buffer[..] == Splice(old(buffer[..]), at, piece) by {
      var r := Splice(old(buffer[..]), at, piece);
      assert forall k :: 0 <= k < buffer.Length ==> buffer[..][k] == r[k];
    }
  }
}
