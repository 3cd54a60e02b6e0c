/** Fixed-width integers, big-endian fields and memory copies shared by the models. */
module Bytes {

  type byte = x: int | 0 <= x < 0x100
  type int8 = x: int | -0x80 <= x < 0x80
  type uint16 = x: int | 0 <= x < 0x1_0000
  type uint32 = x: int | 0 <= x < 0x1_0000_0000

  /** A six-byte hardware address. */
  type Mac = s: seq<byte> | |s| == 6 witness [0, 0, 0, 0, 0, 0]

  datatype Option<+T> = None | Some(value: T)

  /** The result of one 32-bit unsigned addition or subtraction (C's wrap-around). */
  function Wrap32(x: int): uint32
    requires -0x1_0000_0000 <= x < 0x2_0000_0000
  {
    if x < 0 then x + 0x1_0000_0000
    else if x >= 0x1_0000_0000 then x - 0x1_0000_0000
    else x
  }

  /** Reading a 32-bit unsigned value as a two's complement `int`. */
  function ToInt32(x: uint32): int {
    if x < 0x8000_0000 then x else x - 0x1_0000_0000
  }

  /** The low 16 bits of n, most significant byte first. */
  function Be16(n: nat): seq<byte> {
    [n / 0x100 % 0x100, n % 0x100]
  }

  /** A two-byte field, high byte first. */
  lemma Be16Bytes(n: nat)
    requires n < 0x1_0000
    ensures Be16(n) == [n / 0x100, n % 0x100]
  {
  }

  /** The 16-bit big-endian number at index i. */
  function ReadBe16(s: seq<byte>, i: nat): uint16
    requires i + 2 <= |s|
  {
    s[i] as int * 0x100 + s[i + 1]
  }

  /** b with s written over the bytes from `at` on. */
  function Splice<T>(b: seq<T>, at: nat, s: seq<T>): (r: seq<T>)
    requires at + |s| <= |b|
    ensures |r| == |b|
  {
    b[..at] + s + b[at + |s|..]
  }

  /** memcpy of s to a[at..]. */
  method Copy(a: array<byte>, at: nat, s: seq<byte>)
    requires at + |s| <= a.Length
    modifies a
    ensures a[..] == Splice(old(a[..]), at, s)
  {
    forall i | 0 <= i < |s| {
      a[at + i] := s[i];
    }
  }
}
