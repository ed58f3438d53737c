/** IP packets as bytes, and the fields the firewall reads from them (src/firewall/packet.rs). */
module Packet {
  import opened Wrappers

  type u8 = n: int | 0 <= n < 0x100
  type u16 = n: int | 0 <= n < 0x1_0000
  type u32 = n: int | 0 <= n < 0x1_0000_0000

  const ZERO_V4: seq<u8> := [0, 0, 0, 0]
  const ZERO_V6: seq<u8> := [0, 0, 0, 0, 0, 0, 0, 0, 0, 0, 0, 0, 0, 0, 0, 0]

  type Ipv4Addr = s: seq<u8> | |s| == 4 witness ZERO_V4
  type Ipv6Addr = s: seq<u8> | |s| == 16 witness ZERO_V6

  datatype IpAddr = V4(v4: Ipv4Addr) | V6(v6: Ipv6Addr)

  datatype PacketInfo = PacketInfo(
    src: IpAddr, dst: IpAddr, protocol: u8, srcPort: u16, dstPort: u16,
    tcpFlags: u8, icmpType: u8, icmpId: u16, transportOffset: nat)

  const ICMP_V4: u8 := 1
  const TCP: u8 := 6
  const UDP: u8 := 17
  const ICMP_V6: u8 := 58

  const FIN: u8 := 0x01
  const SYN: u8 := 0x02
  const RST: u8 := 0x04
  const ACK: u8 := 0x10

  /** Whether the one-bit `mask` is set in a flags byte. */
  predicate HasFlag(flags: u8, mask: u8)
    requires mask > 0
  {
    flags / mask % 2 == 1
  }

  predicate IsIcmp(protocol: u8) { protocol == ICMP_V4 || protocol == ICMP_V6 }

  predicate IsEchoRequest(protocol: u8, icmpType: u8) {
    (protocol == ICMP_V4 && icmpType == 8) || (protocol == ICMP_V6 && icmpType == 128)
  }

  predicate IsEchoReply(protocol: u8, icmpType: u8) {
    (protocol == ICMP_V4 && icmpType == 0) || (protocol == ICMP_V6 && icmpType == 129)
  }

  function ReadU16(p: seq<u8>, at: nat): u16
    requires at + 2 <= |p|
  {
    p[at] as int * 0x100 + p[at + 1]
  }

  function ReadU32(p: seq<u8>, at: nat): u32
    requires at + 4 <= |p|
  {
    ReadU16(p, at) as int * 0x1_0000 + ReadU16(p, at + 2)
  }

  // Fields of the transport header: 0 when the protocol has none or the packet ends first.

  function Port(p: seq<u8>, protocol: u8, at: nat): u16 {
    if (protocol == TCP || protocol == UDP) && at + 2 <= |p| then ReadU16(p, at) else 0
  }

  function TcpFlags(p: seq<u8>, protocol: u8, header: nat): u8 {
    if protocol == TCP && header + 13 < |p| then p[header + 13] else 0
  }

  function IcmpType(p: seq<u8>, protocol: u8, header: nat): u8 {
    if IsIcmp(protocol) && header < |p| then p[header] else 0
  }

  function IcmpId(p: seq<u8>, protocol: u8, header: nat): u16 {
    var kind := IcmpType(p, protocol, header);
    if (IsEchoRequest(protocol, kind) || IsEchoReply(protocol, kind)) && header + 6 <= |p|
    then ReadU16(p, header + 4) else 0
  }

  function InfoAt(p: seq<u8>, protocol: u8, header: nat, src: IpAddr, dst: IpAddr): PacketInfo {
    PacketInfo(src, dst, protocol, Port(p, protocol, header), Port(p, protocol, header + 2),
               TcpFlags(p, protocol, header), IcmpType(p, protocol, header), IcmpId(p, protocol, header), header)
  }

  function ParseIpv4(p: seq<u8>): Option<PacketInfo> {
    if |p| < 20 then None else
    var ihl := p[0] % 16;
    if ihl < 5 || |p| < ihl * 4 || ReadU16(p, 6) % 0x2000 != 0 then None
    else Some(InfoAt(p, p[9], ihl * 4, V4(p[12..16]), V4(p[16..20])))
  }

  const IPV6_FRAGMENT: u8 := 44
  const IPV6_AH: u8 := 51
  const IPV6_TLV: set<u8> := {0, 43, 60, 135, 139, 140}
  const MAX_HEADERS: nat := 8

  datatype FragmentHeader = FragmentHeader(offset: nat, id: u32)
  datatype Chain = Chain(protocol: u8, offset: nat, fragment: Option<FragmentHeader>)

  /** The IPv6 extension-header walk, with `left` headers still allowed. */
  function Walk(p: seq<u8>, next: u8, off: nat, fragment: Option<FragmentHeader>, left: nat): Option<Chain>
    decreases left
  {
    if left == 0 then None
    else if next == IPV6_FRAGMENT then
      if fragment.Some? || |p| < off + 8 then None else
      var header := FragmentHeader(ReadU16(p, off + 2) / 8, ReadU32(p, off + 4));
      if header.offset != 0 then Some(Chain(IPV6_FRAGMENT, off + 8, Some(header)))
      else if off + 8 >= |p| then None
      else Walk(p, p[off], off + 8, Some(header), left - 1)
    else if next == IPV6_AH || next in IPV6_TLV then
      if off + 1 >= |p| then None else
      var len := if next == IPV6_AH then (p[off + 1] as int + 2) * 4 else (p[off + 1] as int + 1) * 8;
      if off + len >= |p| then None
      else Walk(p, p[off], off + len, fragment, left - 1)
    else Some(Chain(next, off, fragment))
  }

  function ParseIpv6(p: seq<u8>): Option<PacketInfo> {
    if |p| < 40 then None else
    match Walk(p, p[6], 40, None, MAX_HEADERS)
    case None => None
    case Some(chain) =>
      if chain.fragment.Some? then None
      else if (chain.protocol == TCP || chain.protocol == UDP) && |p| < chain.offset + 4 then None
      else Some(InfoAt(p, chain.protocol, chain.offset, V6(p[8..24]), V6(p[24..40])))
  }

  /** `parse_packet_info`: whole packets only; every fragment is refused. */
  function Parse(p: seq<u8>): Option<PacketInfo> {
    if |p| == 0 then None
    else if p[0] / 16 == 4 then ParseIpv4(p)
    else if p[0] / 16 == 6 then ParseIpv6(p)
    else None
  }

  datatype FragmentKey = FragmentKey(src: Ipv6Addr, dst: Ipv6Addr, id: u32)
  datatype Ipv6Fragment = Ipv6Fragment(info: PacketInfo, key: FragmentKey, first: bool)

  predicate CarriesUpperHeader(p: seq<u8>, protocol: u8, off: nat) {
    if protocol == TCP then off + 12 < |p| && p[off + 12] / 16 >= 5 && |p| >= off + p[off + 12] / 16 * 4
    else |p| >= off + (if protocol == UDP || protocol == ICMP_V6 then 8 else 0)
  }

  /** `parse_ipv6_fragment`: IPv6 fragments only. */
  function ParseFragment(p: seq<u8>): Option<Ipv6Fragment> {
    if |p| < 40 || p[0] / 16 != 6 then None else
    match Walk(p, p[6], 40, None, MAX_HEADERS)
    case None => None
    case Some(chain) =>
      if chain.fragment.None? then None else
      var first := chain.fragment.value.offset == 0;
      if first && !CarriesUpperHeader(p, chain.protocol, chain.offset) then None
      else Some(Ipv6Fragment(InfoAt(p, chain.protocol, chain.offset, V6(p[8..24]), V6(p[24..40])),
                             FragmentKey(p[8..24], p[24..40], chain.fragment.value.id), first))
  }

  // Address classes (src/membership.rs, src/exit_node/policy.rs).

  /** `200::/7`, the addresses the mesh derives for its members. */
  predicate IsOverlay(ip: IpAddr) { ip.V6? && ip.v6[0] / 2 == 1 }

  /** Destinations the open internet could reach, so an exit node may forward to them. */
  predicate IsTransitable(ip: IpAddr) {
    match ip
    case V4(o) =>
      && !(o[0] == 100 && o[1] / 64 == 1)
      && !(o[0] == 10 || (o[0] == 172 && o[1] / 16 == 1) || (o[0] == 192 && o[1] == 168))
      && !(o[0] == 127 || (o[0] == 169 && o[1] == 254) || o[0] / 16 == 14 || o == [255, 255, 255, 255])
      && !(o == ZERO_V4 || o[..3] == [192, 0, 2] || o[..3] == [198, 51, 100] || o[..3] == [203, 0, 113])
      && !(o[..3] == [192, 0, 0] || (o[0] == 198 && o[1] / 2 == 9) || o[0] == 0 || o[0] >= 240)
    case V6(o) =>
      && !IsOverlay(ip)
      && !(o == ZERO_V6[15 := 1] || o[0] == 0xff || o == ZERO_V6)
      && !(o[0] == 0xfe && o[1] / 64 == 2)
      && !(o[0] / 2 == 126)
  }
}
