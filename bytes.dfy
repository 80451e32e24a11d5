/**
 * Reading the fixed-width fields of netlink structures out of a receive buffer.
 * Netlink uses host byte order; the model fixes it to little-endian.
 */
module Bytes {
  newtype byte = b: int | 0 <= b < 0x100

  /** The byte at position i; positions outside the received data read as zero. */
  function ByteAt(buf: seq<byte>, i: int): byte {
    if 0 <= i < |buf| then buf[i] else 0
  }

  /** An unsigned 16-bit field (__u16) starting at position i. */
  function U16(buf: seq<byte>, i: int): (r: nat)
    ensures r < 0x1_0000
  {
    ByteAt(buf, i) as nat + 0x100 * ByteAt(buf, i + 1) as nat
  }

  /** An unsigned 32-bit field (__u32) starting at position i. */
  function U32(buf: seq<byte>, i: int): (r: nat)
    ensures r < 0x1_0000_0000
  {
    U16(buf, i) + 0x1_0000 * U16(buf, i + 2)
  }

  /** The bytes at positions i up to j, read as ByteAt does. */
  function Slice(buf: seq<byte>, i: int, j: int): (r: seq<byte>)
    requires i <= j
    ensures |r| == j - i
    ensures forall k :: 0 <= k < |r| ==> r[k] == ByteAt(buf, i + k)
  {
    seq(j - i, k => ByteAt(buf, i + k))
  }

  /** NLMSG_ALIGN and RTA_ALIGN: round a length up to a multiple of 4. */
  function Align4(n: nat): (r: nat)
    ensures n <= r < n + 4 && r % 4 == 0
  {
    (n + 3) / 4 * 4
  }
}
