/** Fixed-width integers, hardware addresses and big-endian field encodings
    shared by the frame forge, the offer parser and the worker. */
module Bytes {

  type uint8 = x: int | 0 <= x < 0x100
  type uint16 = x: int | 0 <= x < 0x1_0000
  type uint32 = x: int | 0 <= x < 0x1_0000_0000

  /** A 6-byte Ethernet hardware address (pnet's MacAddr). */
  type MacAddr = s: seq<uint8> | |s| == 6 witness [0, 0, 0, 0, 0, 0]

  /** The broadcast hardware address ff:ff:ff:ff:ff:ff. */
  const Broadcast: MacAddr := [0xFF, 0xFF, 0xFF, 0xFF, 0xFF, 0xFF]

  /** A fresh zero-filled buffer of n bytes, as `[0; n]` in the source. */
  function Zeros(n: nat): (z: seq<uint8>)
    ensures |z| == n
    ensures AllZero(z)
  {
    seq(n, _ => 0)
  }

  predicate AllZero(s: seq<uint8>)
  {
    forall i :: 0 <= i < |s| ==> s[i] == 0
  }

  /** Network (big-endian) encoding of a 16-bit field. */
  function BE16(w: uint16): (b: seq<uint8>)
    ensures |b| == 2
    ensures ReadBE16(b, 0) == w
  {
    [w / 0x100, w % 0x100]
  }

  /** Network (big-endian) encoding of a 32-bit field. */
  function BE32(w: uint32): (b: seq<uint8>)
    ensures |b| == 4
    ensures ReadBE32(b, 0) == w
  {
    var high, low := BE16(w / 0x1_0000), BE16(w % 0x1_0000);
    assert ReadBE32(high + low, 0) == ReadBE16(high, 0) * 0x1_0000 + ReadBE16(low, 0);
    high + low
  }

  /** The 16-bit big-endian field stored at offset `off`. */
  function ReadBE16(s: seq<uint8>, off: nat): uint16
    requires off + 2 <= |s|
  {
    (s[off] as int) * 0x100 + s[off + 1]
  }

  /** The 32-bit big-endian field stored at offset `off`. */
  function ReadBE32(s: seq<uint8>, off: nat): uint32
    requires off + 4 <= |s|
  {
    (s[off] as int) * 0x100_0000 + (s[off + 1] as int) * 0x1_0000 + (s[off + 2] as int) * 0x100 + s[off + 3]
  }

  /** A field read at an offset only depends on the bytes it covers. */
  lemma ReadBE16Slice(s: seq<uint8>, off: nat)
    requires off + 2 <= |s|
    ensures ReadBE16(s, off) == ReadBE16(s[off..off + 2], 0)
  {
  }

  lemma ReadBE32Slice(s: seq<uint8>, off: nat)
    requires off + 4 <= |s|
    ensures ReadBE32(s, off) == ReadBE32(s[off..off + 4], 0)
  {
  }
}
