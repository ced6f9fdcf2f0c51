/**
  Fixed-width integers, their byte images in either byte order, and the
  byte-order conversions of a little-endian host (OpenBSD/amd64, the
  platform the 1104-byte `pfioc_table` layout with an 8-byte pointer is for).
 */
module Endian {

  type byte = x: int | 0 <= x < 0x100
  type uint16 = x: int | 0 <= x < 0x1_0000
  type uint32 = x: int | 0 <= x < 0x1_0000_0000
  type int32 = x: int | -0x8000_0000 <= x < 0x8000_0000
  type uint64 = x: int | 0 <= x < 0x1_0000_0000_0000_0000
  type uint128 = x: int | 0 <= x < 0x1_0000_0000_0000_0000_0000_0000_0000_0000

  /** 256 to the power n: one more than the largest value n bytes hold. */
  function Pow256(n: nat): (p: nat)
    ensures p >= 1
  {
    if n == 0 then 1 else 256 * Pow256(n - 1)
  }

  lemma Pow256Widths()
    ensures Pow256(2) == 0x1_0000
    ensures Pow256(4) == 0x1_0000_0000
    ensures Pow256(8) == 0x1_0000_0000_0000_0000
    ensures Pow256(16) == 0x1_0000_0000_0000_0000_0000_0000_0000_0000
  {
  }

  function Zeros(n: nat): (z: seq<byte>)
    ensures |z| == n
    ensures forall i :: 0 <= i < n ==> z[i] == 0
  {
    seq(n, _ => 0)
  }

  predicate AllZero(s: seq<byte>)
  {
    forall i :: 0 <= i < |s| ==> s[i] == 0
  }

  function Reverse<T>(s: seq<T>): (r: seq<T>)
    ensures |r| == |s|
    ensures forall i :: 0 <= i < |s| ==> r[i] == s[|s| - 1 - i]
  {
    if s == [] then [] else Reverse(s[1..]) + [s[0]]
  }

  lemma ReverseReverse<T>(s: seq<T>)
    ensures Reverse(Reverse(s)) == s
  {
  }

  /** The number whose least significant byte comes first in `bs`. */
  function LeValue(bs: seq<byte>): (v: nat)
    ensures v < Pow256(|bs|)
  {
    if bs == [] then 0 else bs[0] + 256 * LeValue(bs[1..])
  }

  /** The `n` bytes of `x`, least significant first. */
  function LeBytes(x: nat, n: nat): (bs: seq<byte>)
    requires x < Pow256(n)
    ensures |bs| == n && LeValue(bs) == x
  {
    if n == 0 then [] else [x % 256] + LeBytes(x / 256, n - 1)
  }

  /** Reading bytes as a number and writing it back gives the same bytes. */
  lemma {:induction false} LeBytesOfValue(bs: seq<byte>)
    ensures LeBytes(LeValue(bs), |bs|) == bs
  {
    if bs != [] {
      LeBytesOfValue(bs[1..]);
      var v := LeValue(bs[1..]);
      assert (bs[0] + 256 * v) % 256 == bs[0];
      assert (bs[0] + 256 * v) / 256 == v;
    }
  }

  /** The number whose most significant byte comes first in `bs` (network order). */
  function BeValue(bs: seq<byte>): (v: nat)
    ensures v < Pow256(|bs|)
  {
    LeValue(Reverse(bs))
  }

  /** The `n` bytes of `x`, most significant first (network order). */
  function BeBytes(x: nat, n: nat): (bs: seq<byte>)
    requires x < Pow256(n)
    ensures |bs| == n && BeValue(bs) == x
  {
    ReverseReverse(LeBytes(x, n));
    Reverse(LeBytes(x, n))
  }

  lemma BeBytesOfValue(bs: seq<byte>)
    ensures BeBytes(BeValue(bs), |bs|) == bs
  {
    LeBytesOfValue(Reverse(bs));
    ReverseReverse(bs);
  }

  lemma {:induction false} LeValueOfZeros(bs: seq<byte>)
    requires AllZero(bs)
    ensures LeValue(bs) == 0
  {
    if bs != [] {
      LeValueOfZeros(bs[1..]);
    }
  }

  lemma {:induction false} LeBytesOfZero(n: nat)
    ensures LeBytes(0, n) == Zeros(n)
  {
    if n > 0 {
      LeBytesOfZero(n - 1);
    }
  }

  /** Distinct numbers below the bound have distinct byte images. */
  lemma LeBytesInjective(x: nat, y: nat, n: nat)
    requires x < Pow256(n) && y < Pow256(n)
    requires LeBytes(x, n) == LeBytes(y, n)
    ensures x == y
  {
  }

  /** `u32::swap_bytes`: its little-endian image is the big-endian image of its argument. */
  function Swap32(x: uint32): (y: uint32)
    ensures LeBytes(y, 4) == BeBytes(x, 4)
  {
    Pow256Widths();
    var be := BeBytes(x, 4);
    LeBytesOfValue(be);
    LeValue(be)
  }

  lemma {:induction false} Swap32Involutive(x: uint32)
    ensures Swap32(Swap32(x)) == x
  {
    Pow256Widths();
    var y := Swap32(x);
    BeBytesOfValue(LeBytes(y, 4));
    assert BeBytes(Swap32(y), 4) == LeBytes(y, 4);
    ReverseReverse(LeBytes(x, 4));
    LeBytesInjective(Swap32(y), x, 4);
  }

  /** `u32::to_be` on a little-endian host: the word in memory holds `x`'s network-order bytes. */
  function ToBe32(x: uint32): (y: uint32)
    ensures Pow256(4) == 0x1_0000_0000 && LeBytes(y, 4) == BeBytes(x, 4)
  {
    Pow256Widths();
    Swap32(x)
  }

  /** `u32::from_be` on a little-endian host: the word whose network-order bytes are `x`'s bytes in memory. */
  function FromBe32(x: uint32): (y: uint32)
    ensures Pow256(4) == 0x1_0000_0000 && BeBytes(y, 4) == LeBytes(x, 4)
  {
    Pow256Widths();
    Swap32Involutive(x);
    ReverseReverse(LeBytes(x, 4));
    Swap32(x)
  }

  /**
    `u32::to_le` on a little-endian host: the word in memory holds `x`'s
    bytes least significant first, the reverse of its network order.
   */
  function ToLe32(x: uint32): (y: uint32)
    ensures Pow256(4) == 0x1_0000_0000 && LeBytes(y, 4) == Reverse(BeBytes(x, 4))
  {
    Pow256Widths();
    ReverseReverse(LeBytes(x, 4));
    x
  }
}
