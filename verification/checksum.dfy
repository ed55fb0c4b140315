/** The UDP checksum of the Discover frame: 16-bit one's-complement summation
    with end-around carry (RFC 1071) over the RFC 768 pseudo-header, the UDP
    header and the payload. */
module Checksum {
  import opened Bytes

  /** One's-complement 16-bit arithmetic works modulo 2^16 - 1. */
  const OnesModulus: nat := 0xFFFF

  /** The one's-complement value of a plain (unbounded) sum `n`: 0 stays 0,
      any other `n` becomes the unique value in 1..0xFFFF congruent to `n`
      modulo 0xFFFF. This is RFC 1071's "add everything, then fold the
      carries back in" computed in one go. */
  function OnesReduce(n: nat): (r: uint16)
    ensures r % OnesModulus == n % OnesModulus
    ensures r == 0 <==> n == 0
  {
    if n == 0 then 0 else (n - 1) % OnesModulus + 1
  }

  /** `end_around_carry_sum`: a wrapping 16-bit add whose carry flag is added
      back into the low 16 bits. The second addition never overflows. */
  function EndAroundCarry(a: uint16, b: uint16): (r: uint16)
    ensures a + b < 0x1_0000 ==> r == a + b
    ensures a + b >= 0x1_0000 ==> r == a + b - 0xFFFF
    ensures r == OnesReduce(a + b)
  {
    var wrapped := (a + b) % 0x1_0000;
    var carry := if a + b >= 0x1_0000 then 1 else 0;
    wrapped + carry
  }

  /** Plain sum of a sequence of words. */
  function Sum(ws: seq<uint16>): nat
  {
    if |ws| == 0 then 0 else ws[0] + Sum(ws[1..])
  }

  /** The running `sum = end_around_carry_sum(sum, w)` updates, word by word,
      starting from `acc`. */
  function FoldCarry(acc: uint16, ws: seq<uint16>): (r: uint16)
    ensures r == 0 <==> acc == 0 && forall k :: 0 <= k < |ws| ==> ws[k] == 0
    decreases |ws|
  {
    if |ws| == 0 then acc else FoldCarry(EndAroundCarry(acc, ws[0]), ws[1..])
  }

  /** The bytes of `data` read as big-endian 16-bit words; an odd trailing
      byte is the high byte of a last word whose low byte is zero. */
  function Words(data: seq<uint8>): (ws: seq<uint16>)
    ensures |ws| == (|data| + 1) / 2
  {
    if |data| == 0 then []
    else if |data| == 1 then [(data[0] as int) * 0x100]
    else [(data[0] as int) * 0x100 + data[1]] + Words(data[2..])
  }

  /** Word `k` is made of bytes `2k` (high) and `2k + 1` (low, or zero past
      the end). */
  lemma {:induction false} WordsAt(data: seq<uint8>, k: nat)
    requires k < (|data| + 1) / 2
    ensures Words(data)[k] == (data[2 * k] as int) * 0x100 + (if 2 * k + 1 < |data| then data[2 * k + 1] else 0)
    decreases k
  {
    if k > 0 {
      WordsAt(data[2..], k - 1);
    }
  }

  /** The RFC 1071 Internet checksum of `data`: the complement of the
      one's-complement sum of its words. */
  function InternetChecksum(data: seq<uint8>): uint16
  {
    0xFFFF - OnesReduce(Sum(Words(data)))
  }

  /** The RFC 768 pseudo-header for source 0.0.0.0, destination
      255.255.255.255, protocol 17 and the given UDP length. */
  function PseudoHeader(udpLength: uint16): (h: seq<uint8>)
    ensures |h| == 12
  {
    [0, 0, 0, 0] + [0xFF, 0xFF, 0xFF, 0xFF] + [0, 17] + BE16(udpLength)
  }

  /** The UDP header of the Discover frame (ports 68 -> 67) carrying the
      given checksum field. */
  function UdpHeader(udpLength: uint16, checksum: uint16): (h: seq<uint8>)
    ensures |h| == 8
  {
    BE16(68) + BE16(67) + BE16(udpLength) + BE16(checksum)
  }

  /** The ten words the source feeds to the sum before the payload: the
      pseudo-header (src 0.0.0.0, dst 255.255.255.255, protocol, length)
      and the UDP header, whose checksum word the source sets to 0. */
  function HeaderWords(udpLength: uint16, checksum: uint16): seq<uint16>
  {
    [0x0000, 0x0000, 0xFFFF, 0xFFFF, 17, udpLength, 0x0044, 0x0043, udpLength, checksum]
  }

  /** `forge_udp_checksum_for_dhcp_discover`: `0xFFFF - sum`, with no
      substitution of a zero result by 0xFFFF. It equals the RFC 1071
      checksum of the pseudo-header, the UDP header and the payload, and is
      never 0xFFFF. */
  function UdpChecksum(payload: seq<uint8>): (c: uint16)
    requires |payload| + 8 <= 0xFFFF
    ensures c == InternetChecksum(PseudoHeader(|payload| + 8) + UdpHeader(|payload| + 8, 0) + payload)
    ensures c != 0xFFFF
  {
    var ws := HeaderWords(|payload| + 8, 0) + Words(payload);
    UdpChecksumMatchesReference(payload, |payload| + 8);
    0xFFFF - FoldCarry(0, ws)
  }

  /** The source's word-by-word fold is the one's-complement value of the
      RFC 768 byte layout, and it is never zero. */
  lemma UdpChecksumMatchesReference(payload: seq<uint8>, len: uint16)
    requires len == |payload| + 8
    ensures var ws := HeaderWords(len, 0) + Words(payload);
            && FoldCarry(0, ws) == OnesReduce(Sum(Words(PseudoHeader(len) + UdpHeader(len, 0) + payload)))
            && FoldCarry(0, ws) != 0
  {
    HeaderWordsMatchBytes(len, 0);
    FoldOverHeaderAndPayload(PseudoHeader(len) + UdpHeader(len, 0), payload, len);
  }

  lemma FoldOverHeaderAndPayload(header: seq<uint8>, payload: seq<uint8>, len: uint16)
    requires |header| == 20 && Words(header) == HeaderWords(len, 0)
    ensures var ws := HeaderWords(len, 0) + Words(payload);
            && FoldCarry(0, ws) == OnesReduce(Sum(Words(header + payload)))
            && FoldCarry(0, ws) != 0
  {
    var ws := HeaderWords(len, 0) + Words(payload);
    SumOverHeaderAndPayload(header, payload, len, 0);
    SumAppend(HeaderWords(len, 0), Words(payload));
    HeaderWordsSum(len, 0);
    FoldCarryIsOnesReduce(0, ws);
  }

  /** The receiver's check (RFC 768, RFC 1071 section 1): summing the
      pseudo-header, the UDP header carrying the computed checksum and the
      payload gives all ones. */
  lemma UdpChecksumVerifies(payload: seq<uint8>, len: uint16)
    requires len == |payload| + 8
    ensures OnesReduce(Sum(Words(PseudoHeader(len) + UdpHeader(len, UdpChecksum(payload)) + payload))) == 0xFFFF
  {
    var c := UdpChecksum(payload);
    HeaderWordsMatchBytes(len, 0);
    HeaderWordsMatchBytes(len, c);
    ChecksumCompletesSum(PseudoHeader(len) + UdpHeader(len, 0), PseudoHeader(len) + UdpHeader(len, c), payload, len, c);
  }

  lemma ChecksumCompletesSum(zeroed: seq<uint8>, filled: seq<uint8>, payload: seq<uint8>, len: uint16, c: uint16)
    requires |zeroed| == 20 && Words(zeroed) == HeaderWords(len, 0)
    requires |filled| == 20 && Words(filled) == HeaderWords(len, c)
    requires c == 0xFFFF - OnesReduce(Sum(Words(zeroed + payload)))
    ensures OnesReduce(Sum(Words(filled + payload))) == 0xFFFF
  {
    var base := Sum(Words(zeroed + payload));
    SumOverHeaderAndPayload(zeroed, payload, len, 0);
    SumOverHeaderAndPayload(filled, payload, len, c);
    OnesReduceAdd(base, c);
  }

  /** The source never replaces a zero result by 0xFFFF as RFC 768 asks:
      this two-byte payload makes the summed words a multiple of 0xFFFF, so
      the transmitted checksum is 0, which a receiver reads as "no checksum". */
  lemma UdpChecksumCanBeZero()
    ensures UdpChecksum([0xFF, 0x53]) == 0
  {
    var payload: seq<uint8> := [0xFF, 0x53];
    HeaderWordsMatchBytes(10, 0);
    SumOverHeaderAndPayload(PseudoHeader(10) + UdpHeader(10, 0), payload, 10, 0);
    assert Words(payload) == [0xFF53];
    assert Sum(Words(payload)) == 0xFF53;
  }

  lemma SumOverHeaderAndPayload(header: seq<uint8>, payload: seq<uint8>, len: uint16, checksum: uint16)
    requires |header| == 20 && Words(header) == HeaderWords(len, checksum)
    ensures Sum(Words(header + payload)) == 2 * 0xFFFF + 17 + 0x44 + 0x43 + 2 * len + checksum + Sum(Words(payload))
  {
    WordsAppend(header, payload);
    SumAppend(HeaderWords(len, checksum), Words(payload));
    HeaderWordsSum(len, checksum);
  }

  /** The ten hand-written words are exactly the words of the RFC 768
      pseudo-header followed by the UDP header. */
  lemma HeaderWordsMatchBytes(len: uint16, checksum: uint16)
    ensures Words(PseudoHeader(len) + UdpHeader(len, checksum)) == HeaderWords(len, checksum)
  {
    var header := PseudoHeader(len) + UdpHeader(len, checksum);
    var ws := Words(header);
    assert |ws| == 10;
    assert header[10..12] == BE16(len) && header[16..18] == BE16(len) && header[18..20] == BE16(checksum);
    forall k | 0 <= k < 10
      ensures ws[k] == HeaderWords(len, checksum)[k]
    {
      WordsAt(header, k);
    }
  }

  lemma HeaderWordsSum(len: uint16, checksum: uint16)
    ensures Sum(HeaderWords(len, checksum)) == 2 * 0xFFFF + 17 + 0x44 + 0x43 + 2 * len + checksum
  {
    var h := HeaderWords(len, checksum);
    assert Sum(h[9..]) == checksum;
    assert Sum(h[8..]) == len + checksum;
    assert Sum(h[7..]) == 0x43 + len + checksum;
    assert Sum(h[6..]) == 0x44 + 0x43 + len + checksum;
    assert Sum(h[5..]) == len + 0x44 + 0x43 + len + checksum;
    assert Sum(h[4..]) == 17 + len + 0x44 + 0x43 + len + checksum;
    assert Sum(h[3..]) == 0xFFFF + 17 + len + 0x44 + 0x43 + len + checksum;
    assert Sum(h[2..]) == 2 * 0xFFFF + 17 + len + 0x44 + 0x43 + len + checksum;
    assert Sum(h[1..]) == Sum(h[2..]);
    assert h == h[0..];
  }

  /** Folding with end-around carry word by word gives the same value as
      summing everything first and reducing once. */
  lemma {:induction false} FoldCarryIsOnesReduce(acc: uint16, ws: seq<uint16>)
    ensures FoldCarry(acc, ws) == OnesReduce(acc + Sum(ws))
    decreases |ws|
  {
    if |ws| == 0 {
      OnesReduceFixed(acc);
    } else {
      var next := EndAroundCarry(acc, ws[0]);
      FoldCarryIsOnesReduce(next, ws[1..]);
      OnesReduceAdd(acc + ws[0], Sum(ws[1..]));
    }
  }

  /** A value that already fits in 16 bits is its own one's-complement value. */
  lemma OnesReduceFixed(x: uint16)
    ensures OnesReduce(x) == x
  {
  }

  /** Reducing early does not change the final one's-complement value. */
  lemma OnesReduceAdd(x: nat, y: nat)
    ensures OnesReduce(OnesReduce(x) + y) == OnesReduce(x + y)
  {
    var r := OnesReduce(x);
    ModAddCongruent(r, x, y);
    OnesReduceByResidue(r + y, x + y);
  }

  lemma ModAddCongruent(a: nat, b: nat, y: nat)
    requires a % OnesModulus == b % OnesModulus
    ensures (a + y) % OnesModulus == (b + y) % OnesModulus
  {
  }

  /** `OnesReduce` depends only on the residue and on being zero. */
  lemma OnesReduceByResidue(a: nat, b: nat)
    requires a % OnesModulus == b % OnesModulus
    requires a == 0 <==> b == 0
    ensures OnesReduce(a) == OnesReduce(b)
  {
  }

  lemma {:induction false} WordsAppend(a: seq<uint8>, b: seq<uint8>)
    requires |a| % 2 == 0
    ensures Words(a + b) == Words(a) + Words(b)
    decreases |a|
  {
    if |a| == 0 {
      assert a + b == b;
    } else {
      var w := (a[0] as int) * 0x100 + a[1];
      WordsAppend(a[2..], b);
      assert (a + b)[2..] == a[2..] + b;
      assert Words(a + b) == [w] + (Words(a[2..]) + Words(b));
    }
  }

  lemma {:induction false} SumAppend(xs: seq<uint16>, ys: seq<uint16>)
    ensures Sum(xs + ys) == Sum(xs) + Sum(ys)
    decreases |xs|
  {
    if |xs| == 0 {
      assert xs + ys == ys;
    } else {
      SumAppend(xs[1..], ys);
      assert (xs + ys)[1..] == xs[1..] + ys;
    }
  }
}
