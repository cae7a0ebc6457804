/** Bytes, fixed-width integers and their codecs in both byte orders. */
module Bytes {
  type byte = x: int | 0 <= x < 0x100
  type u16 = x: int | 0 <= x < 0x1_0000
  type u32 = x: int | 0 <= x < 0x1_0000_0000
  type u64 = x: int | 0 <= x < 0x1_0000_0000_0000_0000
  type i64 = x: int | -0x8000_0000_0000_0000 <= x < 0x8000_0000_0000_0000
  type bytes = seq<byte>

  // Big-endian reading of two and four bytes.
  function U16(hi: byte, lo: byte): u16 {
    hi * 256 + lo
  }

  function U32(b3: byte, b2: byte, b1: byte, b0: byte): u32 {
    U16(b3, b2) * 0x1_0000 + U16(b1, b0)
  }

  predicate Bit(n: nat, weight: nat)
    requires weight > 0
  {
    n / weight % 2 == 1
  }

  // Words of any width, little-endian and big-endian.
  function FromLE(s: bytes): nat {
    if |s| == 0 then 0 else s[0] + 256 * FromLE(s[1..])
  }

  function FromBE(s: bytes): nat {
    if |s| == 0 then 0 else 256 * FromBE(s[..|s| - 1]) + s[|s| - 1]
  }

  lemma {:induction false} FromBEBound(s: bytes)
    ensures FromBE(s) < Capacity(|s|)
  {
    if |s| > 0 {
      FromBEBound(s[..|s| - 1]);
    }
  }

  function ToLE(n: nat, width: nat): (s: bytes)
    ensures |s| == width
  {
    if width == 0 then [] else [n % 256] + ToLE(n / 256, width - 1)
  }

  function Capacity(width: nat): (c: nat)
    ensures c > 0
  {
    if width == 0 then 1 else 256 * Capacity(width - 1)
  }

  lemma {:induction false} ReadBackLE(n: nat, width: nat)
    requires n < Capacity(width)
    ensures FromLE(ToLE(n, width)) == n
  {
    if width > 0 {
      ReadBackLE(n / 256, width - 1);
      assert ToLE(n, width)[1..] == ToLE(n / 256, width - 1);
    }
  }

  lemma {:induction false} FromLEBound(s: bytes)
    ensures FromLE(s) < Capacity(|s|)
  {
    if |s| > 0 {
      FromLEBound(s[1..]);
    }
  }

  lemma WordCapacity()
    ensures Capacity(4) == 0x1_0000_0000
    ensures Capacity(8) == 0x1_0000_0000_0000_0000
  {
    assert Capacity(2) == 0x1_0000;
    assert Capacity(6) == 0x1_0000 * Capacity(4);
  }

  // A part of a part is a part of the whole.
  lemma SliceOfSlice<T>(s: seq<T>, at: nat, size: nat, a: nat, b: nat)
    requires at + size <= |s| && a <= b <= size
    ensures s[at..at + size][a..b] == s[at + a..at + b]
  {
    var part := s[at..at + size];
    forall k: nat | k < b - a
      ensures part[a..b][k] == s[at + a..at + b][k]
    {
      assert part[a + k] == s[at + (a + k)];
    }
  }
}
