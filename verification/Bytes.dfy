/** Bytes, the fixed-width integers of the C sources, and little-endian field access. */
module Bytes {

  type byte = x: int | 0 <= x < 0x100
  type uint16 = x: int | 0 <= x < 0x1_0000
  type uint32 = x: int | 0 <= x < 0x1_0000_0000
  type int32 = x: int | -0x8000_0000 <= x < 0x8000_0000

  /** What `calloc` hands out. */
  function Zeros(n: nat): (s: seq<byte>)
    ensures |s| == n
    ensures forall i :: 0 <= i < n ==> s[i] == 0
  {
    seq(n, _ => 0)
  }

  /** `htons` and `ntohs` on a little-endian host. */
  function Swap16(v: uint16): uint16 {
    Join16(v / 0x100, v % 0x100)
  }

  /** `htonl` and `ntohl` on a little-endian host. */
  function Swap32(v: uint32): uint32 {
    Join32(v / 0x100_0000, v / 0x1_0000 % 0x100, v / 0x100 % 0x100, v % 0x100)
  }

  /** The 16-bit value with low byte `lo` and high byte `hi`. */
  function Join16(lo: byte, hi: byte): uint16 {
    lo as int + hi as int * 0x100
  }

  /** The 32-bit value with the four given bytes, lowest first. */
  function Join32(b0: byte, b1: byte, b2: byte, b3: byte): uint32 {
    b0 as int + b1 as int * 0x100 + b2 as int * 0x1_0000 + b3 as int * 0x100_0000
  }

  function Get16(s: seq<byte>, at: nat): uint16
    requires at + 2 <= |s|
  {
    Join16(s[at], s[at + 1])
  }

  function Put16(s: seq<byte>, at: nat, v: uint16): (r: seq<byte>)
    requires at + 2 <= |s|
    ensures |r| == |s|
  {
    s[at := v % 0x100][at + 1 := v / 0x100]
  }

  function Get32(s: seq<byte>, at: nat): uint32
    requires at + 4 <= |s|
  {
    Join32(s[at], s[at + 1], s[at + 2], s[at + 3])
  }

  function Put32(s: seq<byte>, at: nat, v: uint32): (r: seq<byte>)
    requires at + 4 <= |s|
    ensures |r| == |s|
  {
    s[at := v % 0x100][at + 1 := v / 0x100 % 0x100][at + 2 := v / 0x1_0000 % 0x100][at + 3 := v / 0x100_0000]
  }

  lemma Digits16(v: uint16, lo: byte, hi: byte)
    requires v == Join16(lo, hi)
    ensures v % 0x100 == lo && v / 0x100 == hi
  {
  }

  lemma SwapOfDigits(lo: byte, hi: byte)
    ensures Swap16(Join16(lo, hi)) == Join16(hi, lo)
  {
    Digits16(Join16(lo, hi), lo, hi);
  }

  lemma SwapOfExtremes()
    ensures Swap16(0) == 0 && Swap16(0xffff) == 0xffff
  {
    hide Swap16;
    SwapOfDigits(0, 0);
    SwapOfDigits(0xff, 0xff);
  }

  lemma Swap16Bytes(v: uint16)
    ensures Swap16(v) % 0x100 == v / 0x100 && Swap16(v) / 0x100 == v % 0x100
  {
    Digits16(Swap16(v), v / 0x100, v % 0x100);
  }

  lemma Swap16Involution(v: uint16)
    ensures Swap16(Swap16(v)) == v
  {
    Swap16Bytes(v);
  }

  /** A 32-bit value is the sum of its four byte digits, and those digits are determined by the sum. */
  lemma Digits32(v: uint32, b0: byte, b1: byte, b2: byte, b3: byte)
    requires v == Join32(b0, b1, b2, b3)
    ensures v % 0x100 == b0 && v / 0x100 % 0x100 == b1 && v / 0x1_0000 % 0x100 == b2 && v / 0x100_0000 == b3
  {
    assert v / 0x100 == b1 + b2 * 0x100 + b3 * 0x1_0000;
    assert v / 0x1_0000 == b2 + b3 * 0x100;
  }

  lemma Digits32Join(v: uint32)
    ensures v == Join32(v % 0x100, v / 0x100 % 0x100, v / 0x1_0000 % 0x100, v / 0x100_0000)
  {
    assert v / 0x100 == v / 0x100 % 0x100 + v / 0x1_0000 * 0x100;
    assert v / 0x1_0000 == v / 0x1_0000 % 0x100 + v / 0x100_0000 * 0x100;
  }

  lemma Get32OfPut32(s: seq<byte>, at: nat, v: uint32)
    requires at + 4 <= |s|
    ensures Get32(Put32(s, at, v), at) == v
  {
    Digits32Join(v);
  }

  method Store16(a: array<byte>, at: nat, v: uint16)
    requires at + 2 <= a.Length
    modifies a
    ensures a[..] == Put16(old(a[..]), at, v)
  {
    a[at] := v % 0x100;
    a[at + 1] := v / 0x100;
  }

  method Store32(a: array<byte>, at: nat, v: uint32)
    requires at + 4 <= a.Length
    modifies a
    ensures a[..] == Put32(old(a[..]), at, v)
  {
    a[at] := v % 0x100;
    a[at + 1] := v / 0x100 % 0x100;
    a[at + 2] := v / 0x1_0000 % 0x100;
    a[at + 3] := v / 0x100_0000;
  }

  /** `memcpy`, `strncpy` and `recv` into the buffer `a` at offset `at`. */
  method CopyInto(a: array<byte>, at: nat, s: seq<byte>)
    requires at + |s| <= a.Length
    modifies a
    ensures a[..] == old(a[..at]) + s + old(a[at + |s|..])
  {
    for i := 0 to |s|
      invariant forall j :: 0 <= j < a.Length ==> a[j] == if at <= j < at + i then s[j - at] else old(a[j])
    {
      a[at + i] := s[i];
    }
  }
}
