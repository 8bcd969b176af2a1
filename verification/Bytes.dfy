/** Bytes, little-endian words and buffers, as memcpy and the structs of the disk formats use them. */
module Bytes {
  type byte = x: int | 0 <= x < 256

  function Zeros(n: nat): (r: seq<byte>)
    ensures |r| == n && forall i :: 0 <= i < n ==> r[i] == 0
  {
    seq(n, _ => 0)
  }

  /** A uint32_t in memory. */
  function Word(x: nat): (r: seq<byte>)
    ensures |r| == 4
  {
    [x % 256, x / 256 % 256, x / 0x1_0000 % 256, x / 0x100_0000 % 256]
  }

  function WordAt(b: seq<byte>, off: nat): nat
    requires off + 4 <= |b|
  {
    var b0: int, b1: int, b2: int, b3: int := b[off], b[off + 1], b[off + 2], b[off + 3];
    b0 + 256 * b1 + 0x1_0000 * b2 + 0x100_0000 * b3
  }

  lemma WordRoundTrip(x: nat, b: seq<byte>, off: nat)
    requires x < 0x1_0000_0000 && off + 4 <= |b| && b[off..off + 4] == Word(x)
    ensures WordAt(b, off) == x
  {
    assert b[off] == b[off..off + 4][0] && b[off + 1] == b[off..off + 4][1];
    assert b[off + 2] == b[off..off + 4][2] && b[off + 3] == b[off..off + 4][3];
    var x1, x2, x3 := x / 256, x / 0x1_0000, x / 0x100_0000;
    assert x == 256 * x1 + x % 256;
    assert 0x1_0000 * x2 <= x < 0x1_0000 * x2 + 0x1_0000;
    assert x1 / 256 == x2 by { assert 256 * x2 <= x1 < 256 * x2 + 256; }
    assert 0x100_0000 * x3 <= x < 0x100_0000 * x3 + 0x100_0000;
    assert x2 / 256 == x3 by { assert 256 * x3 <= x2 < 256 * x3 + 256; }
    assert x3 < 256;
    assert x1 == 256 * x2 + x1 % 256 && x2 == 256 * x3 + x2 % 256;
  }

  /** Little-endian: the k-th byte is the k-th digit. */
  lemma WordDigits(b: seq<byte>, off: nat)
    requires off + 4 <= |b|
    ensures var x := WordAt(b, off);
            && x % 256 == b[off] && x / 256 % 256 == b[off + 1] && x / 0x1_0000 % 256 == b[off + 2] && x / 0x100_0000 == b[off + 3]
  {
    var b0: int, b1: int, b2: int, b3: int := b[off], b[off + 1], b[off + 2], b[off + 3];
    var x := WordAt(b, off);
    assert x / 256 == b1 + 256 * (b2 + 256 * b3) by { assert x == 256 * (b1 + 256 * (b2 + 256 * b3)) + b0; }
    assert x / 0x1_0000 == b2 + 256 * b3 by { assert x == 0x1_0000 * (b2 + 256 * b3) + (b0 + 256 * b1); }
    assert x / 0x100_0000 == b3;
  }

  /** memcpy of `data` into a buffer at an offset. */
  function Patch(b: seq<byte>, off: nat, data: seq<byte>): (r: seq<byte>)
    requires off + |data| <= |b|
    ensures |r| == |b|
    ensures forall i :: 0 <= i < |b| ==> r[i] == if off <= i < off + |data| then data[i - off] else b[i]
    ensures r[off..off + |data|] == data
  {
    b[..off] + data + b[off + |data|..]
  }

  /** The bytes of a C string up to its terminator. */
  function CString(b: seq<byte>): (r: seq<byte>)
    ensures |r| <= |b| && 0 !in r && r == b[..|r|] && (|r| < |b| ==> b[|r|] == 0)
  {
    if b == [] || b[0] == 0 then [] else
      var rest := CString(b[1..]);
      assert b == [b[0]] + b[1..];
      [b[0]] + rest
  }

  lemma {:induction false} CStringOfPadded(name: seq<byte>, n: nat)
    requires 0 !in name
    ensures CString(name + Zeros(n)) == name
  {
    var b := name + Zeros(n);
    if name == [] {
      assert b == [] || b[0] == 0;
    } else {
      assert b[1..] == name[1..] + Zeros(n);
      CStringOfPadded(name[1..], n);
    }
  }
}
