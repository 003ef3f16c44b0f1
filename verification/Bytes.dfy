/** Bytes, little-endian words and C strings, as several parts of the kernel lay them out in memory and on disk. */
module Bytes {
  newtype byte = x: int | 0 <= x < 256

  /** A C string, without its terminator. */
  type Name = seq<byte>

  function Le32(b: seq<byte>): (v: nat)
    requires |b| == 4
    ensures v < 0x1_0000_0000
  {
    b[0] as nat + 0x100 * b[1] as nat + 0x1_0000 * b[2] as nat + 0x100_0000 * b[3] as nat
  }

  function ToLe32(v: nat): (b: seq<byte>)
    requires v < 0x1_0000_0000
    ensures |b| == 4 && Le32(b) == v
  {
    var a := v / 0x100;
    var b := a / 0x100;
    var c := b / 0x100;
    [(v % 0x100) as byte, (a % 0x100) as byte, (b % 0x100) as byte, c as byte]
  }

  /** The least significant byte comes first. */
  lemma LittleEndian(v: nat)
    requires v < 0x1_0000_0000
    ensures ToLe32(v)[0] as nat == v % 256 && ToLe32(v)[1] as nat == v / 256 % 256
    ensures ToLe32(v)[2] as nat == v / 65536 % 256 && ToLe32(v)[3] as nat == v / 16777216 % 256
  {
    hide Le32;
    Quotients(v);
    assert ToLe32(v)[2] as nat == v / 256 / 256 % 256 && ToLe32(v)[3] as nat == v / 256 / 256 / 256;
  }

  lemma Quotients(v: nat)
    ensures v / 256 / 256 == v / 65536 && v / 256 / 256 / 256 == v / 16777216
  {
  }

  /** The C string at the start of a buffer. */
  function CString(b: seq<byte>): (n: Name)
    ensures |n| <= |b| && 0 !in n && n == b[..|n|]
    ensures |n| < |b| ==> b[|n|] == 0
  {
    if b == [] || b[0] == 0 then [] else
    var rest := CString(b[1..]);
    [b[0]] + rest
  }

  lemma {:induction false} CStringUnique(b: seq<byte>, n: Name)
    requires |n| < |b| && 0 !in n && n == b[..|n|] && b[|n|] == 0
    ensures CString(b) == n
  {
    if n != [] {
      assert b[0] == n[0] && b[0] in n;
      CStringUnique(b[1..], n[1..]);
    }
  }

  /** A buffer with the bytes from `at` on replaced by `d`. */
  function Patch(a: seq<byte>, at: nat, d: seq<byte>): (r: seq<byte>)
    requires at + |d| <= |a|
    ensures |r| == |a|
  {
    a[..at] + d + a[at + |d|..]
  }

  /** `memcpy` of `d` into a buffer at offset `at`. */
  method Put(a: array<byte>, at: nat, d: seq<byte>)
    requires at + |d| <= a.Length
    modifies a
    ensures a[..] == Patch(old(a[..]), at, d)
    ensures forall k :: 0 <= k < a.Length ==> a[k] == if at <= k < at + |d| then d[k - at] else old(a[k])
  {
    forall k | at <= k < at + |d| {
      a[k] := d[k - at];
    }
  }
}
