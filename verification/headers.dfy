/** Field accessors of the four layers, at the offsets the pnet packet
    views use: Ethernet II, IPv4 (section 3.1 of RFC 791), UDP (RFC 768) and
    the fixed part of a DHCP message (section 2 of RFC 2131). The forge
    writes through these offsets and the offer parser reads through them. */
module Headers {
  import opened Bytes

  // ---------------------------------------------------------------- Ethernet

  const EthHeaderLen: nat := 14
  const EtherTypeIpv4: uint16 := 0x0800

  function EthDestination(f: seq<uint8>): seq<uint8>
    requires |f| >= EthHeaderLen
  {
    f[0..6]
  }

  function EthSource(f: seq<uint8>): seq<uint8>
    requires |f| >= EthHeaderLen
  {
    f[6..12]
  }

  function EthType(f: seq<uint8>): uint16
    requires |f| >= EthHeaderLen
  {
    ReadBE16(f, 12)
  }

  function EthPayload(f: seq<uint8>): seq<uint8>
    requires |f| >= EthHeaderLen
  {
    f[EthHeaderLen..]
  }

  // -------------------------------------------------------------------- IPv4

  const Ipv4MinHeaderLen: nat := 20
  const ProtocolUdp: uint8 := 17

  function Ipv4Version(p: seq<uint8>): nat
    requires |p| >= Ipv4MinHeaderLen
  {
    p[0] / 16
  }

  /** Internet Header Length, in 32-bit words. */
  function Ipv4Ihl(p: seq<uint8>): nat
    requires |p| >= Ipv4MinHeaderLen
  {
    p[0] % 16
  }

  function Ipv4Dscp(p: seq<uint8>): nat
    requires |p| >= Ipv4MinHeaderLen
  {
    p[1] / 4
  }

  function Ipv4Ecn(p: seq<uint8>): nat
    requires |p| >= Ipv4MinHeaderLen
  {
    p[1] % 4
  }

  function Ipv4TotalLength(p: seq<uint8>): uint16
    requires |p| >= Ipv4MinHeaderLen
  {
    ReadBE16(p, 2)
  }

  function Ipv4Identification(p: seq<uint8>): uint16
    requires |p| >= Ipv4MinHeaderLen
  {
    ReadBE16(p, 4)
  }

  /** The 3 flag bits and the 13-bit fragment offset. */
  function Ipv4FlagsFragment(p: seq<uint8>): uint16
    requires |p| >= Ipv4MinHeaderLen
  {
    ReadBE16(p, 6)
  }

  function Ipv4Ttl(p: seq<uint8>): uint8
    requires |p| >= Ipv4MinHeaderLen
  {
    p[8]
  }

  function Ipv4Protocol(p: seq<uint8>): uint8
    requires |p| >= Ipv4MinHeaderLen
  {
    p[9]
  }

  function Ipv4HeaderChecksum(p: seq<uint8>): uint16
    requires |p| >= Ipv4MinHeaderLen
  {
    ReadBE16(p, 10)
  }

  function Ipv4Source(p: seq<uint8>): seq<uint8>
    requires |p| >= Ipv4MinHeaderLen
  {
    p[12..16]
  }

  function Ipv4Destination(p: seq<uint8>): seq<uint8>
    requires |p| >= Ipv4MinHeaderLen
  {
    p[16..20]
  }

  /** The payload starts after 4 * IHL bytes, and never before byte 20. */
  function Ipv4PayloadOffset(p: seq<uint8>): nat
    requires |p| >= Ipv4MinHeaderLen
  {
    if 4 * Ipv4Ihl(p) > Ipv4MinHeaderLen then 4 * Ipv4Ihl(p) else Ipv4MinHeaderLen
  }

  /** Everything after the header; empty when the header claims more bytes
      than the buffer holds. */
  function Ipv4Payload(p: seq<uint8>): seq<uint8>
    requires |p| >= Ipv4MinHeaderLen
  {
    if Ipv4PayloadOffset(p) <= |p| then p[Ipv4PayloadOffset(p)..] else []
  }

  // --------------------------------------------------------------------- UDP

  const UdpHeaderLen: nat := 8
  const DhcpServerPort: uint16 := 67
  const DhcpClientPort: uint16 := 68

  function UdpSource(u: seq<uint8>): uint16
    requires |u| >= UdpHeaderLen
  {
    ReadBE16(u, 0)
  }

  function UdpDestination(u: seq<uint8>): uint16
    requires |u| >= UdpHeaderLen
  {
    ReadBE16(u, 2)
  }

  function UdpLength(u: seq<uint8>): uint16
    requires |u| >= UdpHeaderLen
  {
    ReadBE16(u, 4)
  }

  function UdpChecksumField(u: seq<uint8>): uint16
    requires |u| >= UdpHeaderLen
  {
    ReadBE16(u, 6)
  }

  function UdpPayload(u: seq<uint8>): seq<uint8>
    requires |u| >= UdpHeaderLen
  {
    u[UdpHeaderLen..]
  }

  // -------------------------------------------------------------------- DHCP

  /** op .. file: everything before the options field. */
  const DhcpFixedLen: nat := 236

  function DhcpXid(d: seq<uint8>): uint32
    requires |d| >= DhcpFixedLen
  {
    ReadBE32(d, 4)
  }

  function DhcpSecs(d: seq<uint8>): uint16
    requires |d| >= DhcpFixedLen
  {
    ReadBE16(d, 8)
  }

  /** The first 6 bytes of the 16-byte client hardware address field. */
  function DhcpChaddr(d: seq<uint8>): seq<uint8>
    requires |d| >= DhcpFixedLen
  {
    d[28..34]
  }

  /** The options field (magic cookie included), i.e. pnet's DHCP payload. */
  function DhcpOptions(d: seq<uint8>): seq<uint8>
    requires |d| >= DhcpFixedLen
  {
    d[DhcpFixedLen..]
  }
}
