/** The DHCPDISCOVER frame forge: a 300-byte BOOTREQUEST (section 2 of
    RFC 2131) inside a UDP datagram inside an IPv4 packet inside an
    Ethernet II frame, 342 bytes in all. Every buffer is a fresh value, so
    the frame is a function of the hardware address, xid and secs alone. */
module Forge {
  import opened Bytes
  import opened Headers
  import opened Checksum

  const DhcpLen: nat := 300
  const UdpLen: nat := 308
  const Ipv4Len: nat := 328
  const FrameLen: nat := 342

  /** The DHCP magic cookie 99.130.83.99 (section 3 of RFC 2131). */
  const MagicCookie: seq<uint8> := [0x63, 0x82, 0x53, 0x63]

  /** Host Name option payload (section 3.14 of RFC 2132): "DCS-CYBERATTAQUE4". */
  const HostName: seq<uint8> :=
    [0x44, 0x43, 0x53, 0x2d, 0x43, 0x59, 0x42, 0x45, 0x52, 0x41, 0x54, 0x54, 0x41, 0x51, 0x55, 0x45, 0x34]

  /** Parameter Request List option payload (section 9.8 of RFC 2132). */
  const ParameterRequestList: seq<uint8> :=
    [0x01, 0x1c, 0x02, 0x03, 0x0f, 0x06, 0x77, 0x0c, 0x2c, 0x2f, 0x1a, 0x79, 0x2a]

  /** The options the forge lists after the cookie, before the End option. */
  const DiscoverOptionBytes: seq<uint8> :=
    [53, 1, 1] + [12, 17] + HostName + [55, 13] + ParameterRequestList

  /** The 64-byte options field: cookie, message type Discover (section 9.6
      of RFC 2132), host name, parameter request list, End (section 3.2 of
      RFC 2132), then zero padding. */
  const OptionsField: seq<uint8> := MagicCookie + DiscoverOptionBytes + [0xFF] + Zeros(22)

  /** `forge_dhcp_packet`. */
  function DhcpLayer(mac: MacAddr, xid: uint32, secs: uint16): (d: seq<uint8>)
    ensures |d| == DhcpLen
    ensures d[0] == 1 && d[1] == 1 && d[2] == 6 && d[3] == 0
    ensures DhcpXid(d) == xid && DhcpSecs(d) == secs
    ensures AllZero(d[10..28])
    ensures DhcpChaddr(d) == mac
    ensures AllZero(d[34..DhcpFixedLen])
    ensures DhcpOptions(d) == OptionsField
  {
    var d := [1, 1, 6, 0] + BE32(xid) + BE16(secs) + Zeros(18) + mac + Zeros(202) + OptionsField;
    assert d[4..8] == BE32(xid) && d[8..10] == BE16(secs);
    assert d[10..28] == Zeros(18) && d[34..DhcpFixedLen] == Zeros(202);
    ReadBE32Slice(d, 4);
    ReadBE16Slice(d, 8);
    d
  }

  /** `forge_udp_packet`: ports 68 -> 67, length of the whole datagram, and
      the checksum of the payload. */
  function UdpLayer(payload: seq<uint8>): (u: seq<uint8>)
    requires |payload| + UdpHeaderLen <= 0xFFFF
    ensures |u| == |payload| + UdpHeaderLen
    ensures UdpSource(u) == DhcpClientPort && UdpDestination(u) == DhcpServerPort
    ensures UdpLength(u) == |u|
    ensures UdpChecksumField(u) == UdpChecksum(payload)
    ensures UdpPayload(u) == payload
  {
    var u := UdpHeader(|payload| + UdpHeaderLen, UdpChecksum(payload)) + payload;
    assert u[0..2] == BE16(68) && u[2..4] == BE16(67);
    assert u[4..6] == BE16(|payload| + UdpHeaderLen) && u[6..8] == BE16(UdpChecksum(payload));
    ReadBE16Slice(u, 0);
    ReadBE16Slice(u, 2);
    ReadBE16Slice(u, 4);
    ReadBE16Slice(u, 6);
    u
  }

  /** The 20-byte header `forge_ip_packet` writes, with a given checksum
      field: version 4, IHL 5, DSCP 4, ECN 0, total length 328, id 0, no
      flags or fragment offset, TTL 128, protocol 17, 0.0.0.0 ->
      255.255.255.255. */
  function Ipv4Header(checksum: uint16): (h: seq<uint8>)
    ensures |h| == Ipv4MinHeaderLen
    ensures Ipv4Version(h) == 4 && Ipv4Ihl(h) == 5 && Ipv4Dscp(h) == 4 && Ipv4Ecn(h) == 0
    ensures Ipv4TotalLength(h) == Ipv4Len
    ensures Ipv4Identification(h) == 0 && Ipv4FlagsFragment(h) == 0
    ensures Ipv4Ttl(h) == 128 && Ipv4Protocol(h) == ProtocolUdp
    ensures Ipv4HeaderChecksum(h) == checksum
    ensures Ipv4Source(h) == [0, 0, 0, 0] && Ipv4Destination(h) == [0xFF, 0xFF, 0xFF, 0xFF]
  {
    [4 * 16 + 5, 4 * 4 + 0] + BE16(Ipv4Len as uint16) + BE16(0) + BE16(0) + [128, ProtocolUdp]
      + BE16(checksum) + [0, 0, 0, 0] + [0xFF, 0xFF, 0xFF, 0xFF]
  }

  /** The hard-coded header checksum of `forge_ip_packet`. */
  const Ipv4ChecksumConstant: uint16 := 0x3996

  /** The constant 0x3996 is the RFC 1071 checksum of the header it is
      written into, so a receiver summing that header gets all ones. */
  lemma Ipv4ChecksumConstantIsCorrect()
    ensures InternetChecksum(Ipv4Header(0)) == Ipv4ChecksumConstant
    ensures OnesReduce(Sum(Words(Ipv4Header(Ipv4ChecksumConstant)))) == 0xFFFF
  {
    var zeroed, filled := Ipv4Header(0), Ipv4Header(Ipv4ChecksumConstant);
    Ipv4HeaderSum(0);
    Ipv4HeaderSum(Ipv4ChecksumConstant);
    var n0, n1 := Sum(Words(zeroed)), Sum(Words(filled));
    assert n0 == 0x2C667;
    assert OnesReduce(n0) == 0xC669;
    assert n1 == 0x2FFFD;
    assert OnesReduce(n1) == 0xFFFF;
  }

  /** The header's ten words: 0x4510, 0x0148, id 0, flags 0, 0x8011, the
      checksum, source 0.0.0.0 and destination 255.255.255.255. */
  function Ipv4HeaderWords(checksum: uint16): seq<uint16>
  {
    [0x4510, 0x0148, 0, 0, 0x8011, checksum, 0, 0, 0xFFFF, 0xFFFF]
  }

  lemma Ipv4HeaderSum(checksum: uint16)
    ensures Sum(Words(Ipv4Header(checksum))) == 0x4510 + 0x0148 + 0x8011 + checksum + 2 * 0xFFFF
  {
    Ipv4HeaderWordsMatch(checksum);
    Ipv4HeaderWordsSum(checksum);
  }

  lemma Ipv4HeaderWordsMatch(checksum: uint16)
    ensures Words(Ipv4Header(checksum)) == Ipv4HeaderWords(checksum)
  {
    var h, ws, expected := Ipv4Header(checksum), Words(Ipv4Header(checksum)), Ipv4HeaderWords(checksum);
    forall k | 0 <= k < 10
      ensures ws[k] == expected[k]
    {
      WordsAt(h, k);
    }
  }

  lemma Ipv4HeaderWordsSum(checksum: uint16)
    ensures Sum(Ipv4HeaderWords(checksum)) == 0x4510 + 0x0148 + 0x8011 + checksum + 2 * 0xFFFF
  {
    var e := Ipv4HeaderWords(checksum);
    assert e == [0x4510, 0x0148] + ([0, 0] + ([0x8011, checksum] + ([0, 0] + [0xFFFF, 0xFFFF])));
    PairSum(0xFFFF, 0xFFFF, []);
    PairSum(0, 0, [0xFFFF, 0xFFFF]);
    PairSum(0x8011, checksum, [0, 0] + [0xFFFF, 0xFFFF]);
    PairSum(0, 0, [0x8011, checksum] + ([0, 0] + [0xFFFF, 0xFFFF]));
    PairSum(0x4510, 0x0148, [0, 0] + ([0x8011, checksum] + ([0, 0] + [0xFFFF, 0xFFFF])));
  }

  lemma PairSum(a: uint16, b: uint16, rest: seq<uint16>)
    ensures Sum([a, b] + rest) == a + b + Sum(rest)
  {
    assert ([a, b] + rest)[1..] == [b] + rest;
    assert ([b] + rest)[1..] == rest;
  }

  /** `forge_ip_packet`, called on the 308-byte UDP datagram. */
  function IpLayer(payload: seq<uint8>): (ip: seq<uint8>)
    requires |payload| == UdpLen
    ensures |ip| == Ipv4Len
    ensures Ipv4Version(ip) == 4 && Ipv4Ihl(ip) == 5 && Ipv4Dscp(ip) == 4 && Ipv4Ecn(ip) == 0
    ensures Ipv4TotalLength(ip) == |ip|
    ensures Ipv4Identification(ip) == 0 && Ipv4FlagsFragment(ip) == 0
    ensures Ipv4Ttl(ip) == 128 && Ipv4Protocol(ip) == ProtocolUdp
    ensures Ipv4HeaderChecksum(ip) == Ipv4ChecksumConstant
    ensures Ipv4Source(ip) == [0, 0, 0, 0] && Ipv4Destination(ip) == [0xFF, 0xFF, 0xFF, 0xFF]
    ensures Ipv4Payload(ip) == payload
  {
    var header := Ipv4Header(Ipv4ChecksumConstant);
    var ip := header + payload;
    assert ip[..Ipv4MinHeaderLen] == header;
    assert forall k :: 0 <= k < Ipv4MinHeaderLen ==> ip[k] == header[k];
    ip
  }

  /** `forge_eth_packet`: broadcast destination, the target as source,
      ethertype IPv4. */
  function EthLayer(mac: MacAddr, payload: seq<uint8>): (f: seq<uint8>)
    requires |payload| == Ipv4Len
    ensures |f| == FrameLen
    ensures EthDestination(f) == Broadcast && EthSource(f) == mac
    ensures EthType(f) == EtherTypeIpv4
    ensures EthPayload(f) == payload
  {
    var f := Broadcast + mac + BE16(EtherTypeIpv4) + payload;
    assert f[12..14] == BE16(EtherTypeIpv4);
    ReadBE16Slice(f, 12);
    f
  }

  /** `forge_dhcp_discover`: the layers built innermost first. */
  function ForgeDiscover(mac: MacAddr, xid: uint32, secs: uint16): (f: seq<uint8>)
    ensures |f| == FrameLen
    ensures IsDiscoverFor(f, mac, xid, secs)
  {
    EthLayer(mac, IpLayer(UdpLayer(DhcpLayer(mac, xid, secs))))
  }

  /** `f` decodes, through the same accessors the offer parser uses, to a
      broadcast BOOTREQUEST from `mac` over UDP 68 -> 67 carrying `xid`,
      `secs` and the Discover options. */
  predicate IsDiscoverFor(f: seq<uint8>, mac: MacAddr, xid: uint32, secs: uint16)
  {
    && |f| >= EthHeaderLen
    && EthDestination(f) == Broadcast && EthSource(f) == mac && EthType(f) == EtherTypeIpv4
    && var ip := EthPayload(f);
    && |ip| >= Ipv4MinHeaderLen && Ipv4Protocol(ip) == ProtocolUdp
    && var udp := Ipv4Payload(ip);
    && |udp| >= UdpHeaderLen
    && UdpSource(udp) == DhcpClientPort && UdpDestination(udp) == DhcpServerPort
    && var dhcp := UdpPayload(udp);
    && |dhcp| >= DhcpFixedLen
    && DhcpChaddr(dhcp) == mac && DhcpXid(dhcp) == xid && DhcpSecs(dhcp) == secs
    && DhcpOptions(dhcp) == OptionsField
  }

  /** The frame as one byte string: Ethernet header, IPv4 header, UDP
      header, DHCP message. */
  lemma FrameLayout(mac: MacAddr, xid: uint32, secs: uint16)
    ensures var d := DhcpLayer(mac, xid, secs);
            ForgeDiscover(mac, xid, secs)
            == Broadcast + mac + BE16(EtherTypeIpv4) + Ipv4Header(Ipv4ChecksumConstant)
               + UdpHeader(UdpLen, UdpChecksum(d)) + d
  {
  }

  /** The UDP datagram inside the frame passes the receiver's checksum test
      over the RFC 768 pseudo-header. */
  lemma ForgedUdpChecksumVerifies(mac: MacAddr, xid: uint32, secs: uint16)
    ensures var udp := ForgeDiscover(mac, xid, secs)[EthHeaderLen + Ipv4MinHeaderLen..];
            OnesReduce(Sum(Words(PseudoHeader(UdpLen) + udp))) == 0xFFFF
  {
    var d := DhcpLayer(mac, xid, secs);
    var u := UdpLayer(d);
    var ip := IpLayer(u);
    var f := ForgeDiscover(mac, xid, secs);
    assert f[EthHeaderLen..] == ip;
    assert ip[Ipv4MinHeaderLen..] == u;
    assert f[EthHeaderLen + Ipv4MinHeaderLen..] == u;
    DatagramVerifies(d, u, UdpLen);
  }

  lemma DatagramVerifies(d: seq<uint8>, u: seq<uint8>, len: uint16)
    requires len == |d| + UdpHeaderLen && u == UdpHeader(len, UdpChecksum(d)) + d
    ensures OnesReduce(Sum(Words(PseudoHeader(len) + u))) == 0xFFFF
  {
    UdpChecksumVerifies(d, len);
    assert PseudoHeader(len) + u == PseudoHeader(len) + UdpHeader(len, UdpChecksum(d)) + d;
  }

  /** Two DHCP messages for the same hardware address differ at most in the
      xid (bytes 4-7) and secs (bytes 8-9) fields. */
  lemma DhcpLayersDifferOnlyInXidSecs(mac: MacAddr, xid1: uint32, secs1: uint16, xid2: uint32, secs2: uint16)
    ensures var d1, d2 := DhcpLayer(mac, xid1, secs1), DhcpLayer(mac, xid2, secs2);
            d1[..4] == d2[..4] && d1[10..] == d2[10..]
  {
  }

  /** Two frames forged for the same hardware address differ at most in the
      UDP checksum (frame bytes 40-41), the xid (46-49) and secs (50-51). */
  lemma ForgedFramesDifferOnlyInXidSecsChecksum(mac: MacAddr, xid1: uint32, secs1: uint16, xid2: uint32, secs2: uint16)
    ensures var f1, f2 := ForgeDiscover(mac, xid1, secs1), ForgeDiscover(mac, xid2, secs2);
            forall i :: 0 <= i < FrameLen && !(40 <= i < 42) && !(46 <= i < 52) ==> f1[i] == f2[i]
  {
    var d1, d2 := DhcpLayer(mac, xid1, secs1), DhcpLayer(mac, xid2, secs2);
    var h := Broadcast + mac + BE16(EtherTypeIpv4) + Ipv4Header(Ipv4ChecksumConstant);
    FrameLayout(mac, xid1, secs1);
    FrameLayout(mac, xid2, secs2);
    DhcpLayersDifferOnlyInXidSecs(mac, xid1, secs1, xid2, secs2);
    UdpHeadersDifferOnlyInChecksum(UdpLen as uint16, UdpChecksum(d1), UdpChecksum(d2));
    FramesAgree(h, UdpHeader(UdpLen as uint16, UdpChecksum(d1)), UdpHeader(UdpLen as uint16, UdpChecksum(d2)), d1, d2);
  }

  lemma UdpHeadersDifferOnlyInChecksum(len: uint16, c1: uint16, c2: uint16)
    ensures UdpHeader(len, c1)[..6] == UdpHeader(len, c2)[..6]
  {
    assert UdpHeader(len, c1)[..6] == BE16(68) + BE16(67) + BE16(len);
    assert UdpHeader(len, c2)[..6] == BE16(68) + BE16(67) + BE16(len);
  }

  /** Frames made of one 34-byte prefix, UDP headers agreeing on their first
      six bytes and DHCP messages agreeing outside bytes 4-9 agree outside
      frame bytes 40-41 and 46-51. */
  lemma FramesAgree(h: seq<uint8>, u1: seq<uint8>, u2: seq<uint8>, d1: seq<uint8>, d2: seq<uint8>)
    requires |h| == EthHeaderLen + Ipv4MinHeaderLen && |u1| == |u2| == UdpHeaderLen && |d1| == |d2| >= 10
    requires u1[..6] == u2[..6] && d1[..4] == d2[..4] && d1[10..] == d2[10..]
    ensures forall i :: 0 <= i < |h| + UdpHeaderLen + |d1| && !(40 <= i < 42) && !(46 <= i < 52)
                        ==> (h + u1 + d1)[i] == (h + u2 + d2)[i]
  {
    forall i | 0 <= i < |h| + UdpHeaderLen + |d1| && !(40 <= i < 42) && !(46 <= i < 52)
      ensures (h + u1 + d1)[i] == (h + u2 + d2)[i]
    {
      if 34 <= i < 40 {
        assert u1[i - 34] == u1[..6][i - 34] && u2[i - 34] == u2[..6][i - 34];
      } else if 42 <= i < 46 {
        assert d1[i - 42] == d1[..4][i - 42] && d2[i - 42] == d2[..4][i - 42];
      } else if 52 <= i {
        assert d1[i - 42] == d1[10..][i - 52] && d2[i - 42] == d2[10..][i - 52];
      }
    }
  }
}
