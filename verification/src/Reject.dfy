/**
 * Fail-fast replies (src/reject.rs): TCP resets, ICMP unreachables and Packet Too Big. The functions
 * give each reply as a concatenation of fields; the methods fill buffers the way the source does.
 */
module Reject {
  import opened Wrappers
  import opened Packet
  import opened Checksum

  const MTU: nat := 1280
  const IPV4_HEADER_LEN: nat := 20
  const IPV6_HEADER_LEN: nat := 40
  const TCP_HEADER_LEN: nat := 20
  const ICMP_HEADER_LEN: nat := 8
  const IPV6_QUOTE: nat := MTU - IPV6_HEADER_LEN - ICMP_HEADER_LEN

  // ---- Headers ----

  function Ipv4Header(src: Ipv4Addr, dst: Ipv4Addr, protocol: u8, len: nat): (h: seq<u8>)
    ensures |h| == IPV4_HEADER_LEN
  {
    var total := (IPV4_HEADER_LEN + len) % 0x1_0000;
    [0x45, 0, total / 0x100, total % 0x100, 0, 0, 0, 0, 64, protocol, 0, 0] + src + dst
  }

  function Ipv4Packet(src: Ipv4Addr, dst: Ipv4Addr, protocol: u8, payload: seq<u8>): seq<u8> {
    Sealed(Ipv4Header(src, dst, protocol, |payload|), 10, 0) + payload
  }

  function Ipv6Header(src: Ipv6Addr, dst: Ipv6Addr, next: u8, len: nat): (h: seq<u8>)
    ensures |h| == IPV6_HEADER_LEN
  {
    [0x60, 0, 0, 0] + U16Bytes(len % 0x1_0000) + [next, 64] + src + dst
  }

  function Ipv6Packet(src: Ipv6Addr, dst: Ipv6Addr, next: u8, payload: seq<u8>): seq<u8> {
    Ipv6Header(src, dst, next, |payload|) + payload
  }

  // ---- Replies ----

  predicate NotUnicast(ip: IpAddr) {
    match ip
    case V4(o) => o[0] / 16 == 14 || o == [255, 255, 255, 255] || o == ZERO_V4
    case V6(o) => o[0] == 0xff || o == ZERO_V6
  }

  predicate IsIcmpError(info: PacketInfo) {
    || (info.protocol == ICMP_V4 && info.icmpType in {3, 4, 5, 11, 12})
    || (info.protocol == ICMP_V6 && info.icmpType < 128)
  }

  /** Sequence numbers the incoming segment consumes: its payload, and one each for SYN and FIN. */
  function SegmentLength(packet: seq<u8>, info: PacketInfo): nat
    requires info.transportOffset + TCP_HEADER_LEN <= |packet|
  {
    var tcp := packet[info.transportOffset..];
    var total := if info.src.V4? then ReadU16(packet, 2) as int else IPV6_HEADER_LEN + ReadU16(packet, 4);
    var headers := info.transportOffset + tcp[12] as int / 16 * 4;
    (if total < headers then 0 else total - headers)
    + (if HasFlag(tcp[13], SYN) then 1 else 0) + (if HasFlag(tcp[13], FIN) then 1 else 0)
  }

  /** The number after the incoming segment, which a reset without an ACK to go by acknowledges. */
  function NextNumber(packet: seq<u8>, info: PacketInfo): u32
    requires info.transportOffset + TCP_HEADER_LEN <= |packet|
  {
    (ReadU32(packet, info.transportOffset + 4) as int + SegmentLength(packet, info)) % 0x1_0000_0000
  }

  /** Sequence and acknowledgement numbers of the reset, by section 3.4 of RFC 793. */
  function RstNumbers(packet: seq<u8>, info: PacketInfo): (b: seq<u8>)
    requires info.transportOffset + TCP_HEADER_LEN <= |packet|
    ensures |b| == 8
  {
    var t := info.transportOffset;
    if HasFlag(packet[t + 13], ACK) then packet[t + 8..t + 12] + [0, 0, 0, 0]
    else [0, 0, 0, 0] + U32Bytes(NextNumber(packet, info))
  }

  /** The reset before its checksum. */
  function RstSegment(packet: seq<u8>, info: PacketInfo): (seg: seq<u8>)
    requires info.transportOffset + TCP_HEADER_LEN <= |packet|
    ensures |seg| == TCP_HEADER_LEN
  {
    U16Bytes(info.dstPort) + U16Bytes(info.srcPort) + RstNumbers(packet, info)
    + [0x50, if HasFlag(packet[info.transportOffset + 13], ACK) then RST else 0x14, 0, 0, 0, 0, 0, 0]
  }

  /** A segment before its checksum that resets `info`'s connection. */
  predicate ResetsSender(seg: seq<u8>, info: PacketInfo) {
    && |seg| == TCP_HEADER_LEN && ReadU16(seg, 16) == 0 && HasFlag(seg[13], RST)
    && ReadU16(seg, 0) == info.dstPort && ReadU16(seg, 2) == info.srcPort
  }

  /** The reset swaps the ports and answers the segment's own numbers, so its sender accepts it. */
  lemma RstFields(packet: seq<u8>, info: PacketInfo)
    requires info.transportOffset + TCP_HEADER_LEN <= |packet|
    ensures var seg, t := RstSegment(packet, info), info.transportOffset;
            && ResetsSender(seg, info) && seg[4..12] == RstNumbers(packet, info)
            && (HasFlag(seg[13], ACK) <==> !HasFlag(packet[t + 13], ACK))
            && var numbers, acked := RstNumbers(packet, info), HasFlag(packet[t + 13], ACK);
            && ReadU32(numbers, 0) == (if acked then ReadU32(packet, t + 8) else 0)
            && ReadU32(numbers, 4) == (if acked then 0 else NextNumber(packet, info))
  {
  }

  /** The segment sealed and wrapped for the way back. */
  function TcpReply(info: PacketInfo, seg: seq<u8>): Option<seq<u8>>
    requires |seg| == TCP_HEADER_LEN
  {
    match (info.dst, info.src)
    case (V4(src), V4(dst)) => Some(Ipv4Packet(src, dst, TCP, Sealed(seg, 16, PseudoSum(src, dst, TCP, |seg|))))
    case (V6(src), V6(dst)) => Some(Ipv6Packet(src, dst, TCP, Sealed(seg, 16, PseudoSum(src, dst, TCP, |seg|))))
    case _ => None
  }

  function TcpRst(packet: seq<u8>, info: PacketInfo): Option<seq<u8>> {
    if HasFlag(info.tcpFlags, RST) || |packet| < info.transportOffset + TCP_HEADER_LEN then None
    else TcpReply(info, RstSegment(packet, info))
  }

  /** An ICMP error before its checksum: type, code, the four bytes after the checksum, the quoted packet. */
  function IcmpMessage(kind: u8, code: u8, rest: seq<u8>, quote: seq<u8>): (msg: seq<u8>)
    requires |rest| == 4
    ensures |msg| == ICMP_HEADER_LEN + |quote| && ReadU16(msg, 2) == 0 && msg[0] == kind && msg[1] == code
    ensures msg[4..8] == rest && msg[8..] == quote
  {
    [kind, code, 0, 0] + rest + quote
  }

  function Quote(packet: seq<u8>, len: nat): (q: seq<u8>)
    ensures q <= packet && |q| == if |packet| < len then |packet| else len
  {
    if |packet| < len then packet else packet[..len]
  }

  function IcmpV4Reply(src: Ipv4Addr, dst: Ipv4Addr, msg: seq<u8>): seq<u8>
    requires |msg| >= 4
  {
    Ipv4Packet(src, dst, ICMP_V4, Sealed(msg, 2, 0))
  }

  function IcmpV6Reply(src: Ipv6Addr, dst: Ipv6Addr, msg: seq<u8>): seq<u8>
    requires |msg| >= 4
  {
    Ipv6Packet(src, dst, ICMP_V6, Sealed(msg, 2, PseudoSum(src, dst, ICMP_V6, |msg|)))
  }

  /** Port unreachable for UDP, administratively filtered for everything else. */
  function UnreachableCode(info: PacketInfo): u8 {
    match info.src
    case V4(_) => if info.protocol == UDP then 3 else 13
    case V6(_) => if info.protocol == UDP then 4 else 1
  }

  function Unreachable(packet: seq<u8>, info: PacketInfo): Option<seq<u8>> {
    match (info.dst, info.src)
    case (V4(src), V4(dst)) =>
      Some(IcmpV4Reply(src, dst, IcmpMessage(3, UnreachableCode(info), [0, 0, 0, 0],
                                             Quote(packet, info.transportOffset + 8))))
    case (V6(src), V6(dst)) =>
      Some(IcmpV6Reply(src, dst, IcmpMessage(1, UnreachableCode(info), [0, 0, 0, 0],
                                             Quote(packet, IPV6_QUOTE))))
    case _ => None
  }

  function RejectReply(packet: seq<u8>, info: PacketInfo): Option<seq<u8>> {
    if NotUnicast(info.src) || IsIcmpError(info) then None
    else if info.protocol == TCP then TcpRst(packet, info)
    else Unreachable(packet, info)
  }

  function TooBigReply(packet: seq<u8>, info: PacketInfo, mtu: u16): Option<seq<u8>> {
    if NotUnicast(info.src) || IsIcmpError(info) then None else
    match (info.dst, info.src)
    case (V4(src), V4(dst)) =>
      Some(IcmpV4Reply(src, dst, IcmpMessage(3, 4, [0, 0] + U16Bytes(mtu), Quote(packet, info.transportOffset + 8))))
    case (V6(src), V6(dst)) =>
      Some(IcmpV6Reply(src, dst, IcmpMessage(2, 0, U32Bytes(mtu), Quote(packet, IPV6_QUOTE))))
    case _ => None
  }

  /** Every reply this module can build for a packet. */
  predicate IsReply(reply: seq<u8>, packet: seq<u8>, info: PacketInfo, mtu: u16) {
    RejectReply(packet, info) == Some(reply) || TooBigReply(packet, info, mtu) == Some(reply)
  }

  // ---- Every reply is a valid packet back to the sender ----

  /** What the transport checksum adds to the body's sum; ICMP over IPv4 has no pseudo-header. */
  function PseudoOf(src: seq<u8>, dst: seq<u8>, protocol: u8, len: nat): nat {
    if protocol == ICMP_V4 then 0 else PseudoSum(src, dst, protocol, len)
  }

  function BodySum(src: seq<u8>, dst: seq<u8>, protocol: u8, body: seq<u8>): nat {
    PseudoOf(src, dst, protocol, |body|) + WordSum(body)
  }

  predicate BodyVerifies(src: seq<u8>, dst: seq<u8>, protocol: u8, body: seq<u8>) {
    Verifies(BodySum(src, dst, protocol, body))
  }

  predicate HeaderVerifies(header: seq<u8>) { Verifies(WordSum(header)) }

  predicate ValidIpv4(p: seq<u8>) {
    && |p| >= IPV4_HEADER_LEN && p[0] == 0x45
    && (|p| < 0x1_0000 ==> ReadU16(p, 2) == |p|)
    && HeaderVerifies(p[..IPV4_HEADER_LEN])
    && BodyVerifies(p[12..16], p[16..20], p[9], p[IPV4_HEADER_LEN..])
  }

  predicate ValidIpv6(p: seq<u8>) {
    && IPV6_HEADER_LEN <= |p| <= MTU && p[0] == 0x60
    && ReadU16(p, 4) + IPV6_HEADER_LEN == |p|
    && BodyVerifies(p[8..24], p[24..40], p[6], p[IPV6_HEADER_LEN..])
  }

  lemma Ipv4Layout(src: Ipv4Addr, dst: Ipv4Addr, protocol: u8, body: seq<u8>)
    ensures var p, blank := Ipv4Packet(src, dst, protocol, body), Ipv4Header(src, dst, protocol, |body|);
            && |p| == IPV4_HEADER_LEN + |body| && p[0] == 0x45 && ReadU16(p, 6) == 0 && p[9] == protocol
            && ReadU16(p, 2) == |p| % 0x1_0000
            && p[12..16] == src && p[16..20] == dst && p[IPV4_HEADER_LEN..] == body
            && ReadU16(blank, 10) == 0 && p[..IPV4_HEADER_LEN] == Sealed(blank, 10, 0)
  {
  }

  lemma Ipv4Parses(src: Ipv4Addr, dst: Ipv4Addr, protocol: u8, body: seq<u8>)
    ensures var p := Ipv4Packet(src, dst, protocol, body);
            Parse(p) == Some(InfoAt(p, protocol, IPV4_HEADER_LEN, V4(src), V4(dst)))
  {
    Ipv4Layout(src, dst, protocol, body);
  }

  lemma Ipv4Sums(src: Ipv4Addr, dst: Ipv4Addr, protocol: u8, body: seq<u8>)
    requires BodyVerifies(src, dst, protocol, body)
    ensures ValidIpv4(Ipv4Packet(src, dst, protocol, body))
  {
    Ipv4Layout(src, dst, protocol, body);
    var p, blank := Ipv4Packet(src, dst, protocol, body), Ipv4Header(src, dst, protocol, |body|);
    HeaderSealed(blank, p[..IPV4_HEADER_LEN]);
    SameBody(src, dst, protocol, body, p[12..16], p[16..20], p[9], p[IPV4_HEADER_LEN..]);
  }

  lemma HeaderSealed(blank: seq<u8>, header: seq<u8>)
    requires |blank| == IPV4_HEADER_LEN && ReadU16(blank, 10) == 0 && header == Sealed(blank, 10, 0)
    ensures HeaderVerifies(header)
  {
    SealedVerifies(blank, 10, 0);
  }

  lemma SameBody(src: seq<u8>, dst: seq<u8>, protocol: u8, body: seq<u8>,
                 src': seq<u8>, dst': seq<u8>, protocol': u8, body': seq<u8>)
    requires src == src' && dst == dst' && protocol == protocol' && body == body'
    ensures BodyVerifies(src, dst, protocol, body) == BodyVerifies(src', dst', protocol', body')
  {
  }

  lemma Ipv6Layout(src: Ipv6Addr, dst: Ipv6Addr, next: u8, body: seq<u8>)
    ensures var p := Ipv6Packet(src, dst, next, body);
            && |p| == IPV6_HEADER_LEN + |body| && p[0] == 0x60 && p[6] == next
            && ReadU16(p, 4) == |body| % 0x1_0000
            && p[8..24] == src && p[24..40] == dst && p[IPV6_HEADER_LEN..] == body
  {
  }

  lemma Ipv6Parses(src: Ipv6Addr, dst: Ipv6Addr, next: u8, body: seq<u8>)
    requires (next == TCP || next == ICMP_V6) && |body| >= 4
    ensures var p := Ipv6Packet(src, dst, next, body);
            Parse(p) == Some(InfoAt(p, next, IPV6_HEADER_LEN, V6(src), V6(dst)))
  {
    Ipv6Layout(src, dst, next, body);
    assert Walk(Ipv6Packet(src, dst, next, body), next, 40, None, MAX_HEADERS) == Some(Chain(next, 40, None));
  }

  lemma Ipv6Sums(src: Ipv6Addr, dst: Ipv6Addr, next: u8, body: seq<u8>)
    requires |body| <= MTU - IPV6_HEADER_LEN && BodyVerifies(src, dst, next, body)
    ensures ValidIpv6(Ipv6Packet(src, dst, next, body))
  {
    Ipv6Layout(src, dst, next, body);
    var p := Ipv6Packet(src, dst, next, body);
    SameBody(src, dst, next, body, p[8..24], p[24..40], p[6], p[IPV6_HEADER_LEN..]);
  }

  /** The reply came back from where the packet was going, to where it came from. */
  predicate AnswersSender(reply: seq<u8>, info: PacketInfo) {
    && (if info.src.V4? then ValidIpv4(reply) else ValidIpv6(reply))
    && Parse(reply).Some?
    && var r := Parse(reply).value;
       && r.src == info.dst && r.dst == info.src
       && (r.protocol == TCP ==> r.srcPort == info.dstPort && r.dstPort == info.srcPort && HasFlag(r.tcpFlags, RST))
       && (r.protocol != TCP ==> IsIcmpError(r))
  }

  lemma TcpV4Answers(seg: seq<u8>, info: PacketInfo)
    requires info.src.V4? && info.dst.V4? && ResetsSender(seg, info)
    ensures var src, dst := info.dst.v4, info.src.v4;
            AnswersSender(Ipv4Packet(src, dst, TCP, Sealed(seg, 16, PseudoSum(src, dst, TCP, |seg|))), info)
  {
    var src, dst := info.dst.v4, info.src.v4;
    var body := Sealed(seg, 16, PseudoSum(src, dst, TCP, |seg|));
    SealedVerifies(seg, 16, PseudoSum(src, dst, TCP, |seg|));
    Ipv4Sums(src, dst, TCP, body);
    Ipv4Parses(src, dst, TCP, body);
    Ipv4Layout(src, dst, TCP, body);
    BodyPorts(Ipv4Packet(src, dst, TCP, body), IPV4_HEADER_LEN, seg, body);
  }

  lemma TcpV6Answers(seg: seq<u8>, info: PacketInfo)
    requires info.src.V6? && info.dst.V6? && ResetsSender(seg, info)
    ensures var src, dst := info.dst.v6, info.src.v6;
            AnswersSender(Ipv6Packet(src, dst, TCP, Sealed(seg, 16, PseudoSum(src, dst, TCP, |seg|))), info)
  {
    var src, dst := info.dst.v6, info.src.v6;
    var body := Sealed(seg, 16, PseudoSum(src, dst, TCP, |seg|));
    SealedVerifies(seg, 16, PseudoSum(src, dst, TCP, |seg|));
    Ipv6Sums(src, dst, TCP, body);
    Ipv6Parses(src, dst, TCP, body);
    Ipv6Layout(src, dst, TCP, body);
    BodyPorts(Ipv6Packet(src, dst, TCP, body), IPV6_HEADER_LEN, seg, body);
  }

  lemma BodyPorts(p: seq<u8>, header: nat, seg: seq<u8>, body: seq<u8>)
    requires |seg| == |body| == TCP_HEADER_LEN && header + TCP_HEADER_LEN == |p| && p[header..] == body
    requires forall i :: 0 <= i < 16 ==> body[i] == seg[i]
    ensures Port(p, TCP, header) == ReadU16(seg, 0) && Port(p, TCP, header + 2) == ReadU16(seg, 2)
    ensures TcpFlags(p, TCP, header) == seg[13]
  {
  }

  /**
   * The reset after `header` bytes of `reply` has the numbers section 3.4 of RFC 793 asks for: it continues from the
   * segment's acknowledgement, or acknowledges the segment itself if that carried none.
   */
  predicate ResetsBy793(reply: seq<u8>, header: nat, packet: seq<u8>, info: PacketInfo)
    requires info.transportOffset + TCP_HEADER_LEN <= |packet|
  {
    && |reply| == header + TCP_HEADER_LEN
    && var t, acked := info.transportOffset, HasFlag(packet[info.transportOffset + 13], ACK);
       && ReadU32(reply, header + 4) == (if acked then ReadU32(packet, t + 8) else 0)
       && ReadU32(reply, header + 8) == (if acked then 0 else NextNumber(packet, info))
       && HasFlag(reply[header + 13], RST) && (HasFlag(reply[header + 13], ACK) <==> !acked)
  }

  lemma SealedReset(reply: seq<u8>, header: nat, pseudo: nat, packet: seq<u8>, info: PacketInfo)
    requires info.transportOffset + TCP_HEADER_LEN <= |packet| && header <= |reply|
    requires reply[header..] == Sealed(RstSegment(packet, info), 16, pseudo)
    ensures ResetsBy793(reply, header, packet, info)
  {
    RstFields(packet, info);
    var seg, body := RstSegment(packet, info), reply[header..];
    assert forall i :: 0 <= i < 16 ==> body[i] == seg[i] && body[i] == reply[header + i];
    assert forall i :: 0 <= i < 8 ==> seg[4 + i] == RstNumbers(packet, info)[i];
  }

  /** Every reset is a valid packet back to the sender, with the numbers that make it accept it. */
  lemma TcpRstAnswers(packet: seq<u8>, info: PacketInfo)
    requires TcpRst(packet, info).Some?
    ensures AnswersSender(TcpRst(packet, info).value, info)
    ensures ResetsBy793(TcpRst(packet, info).value,
                        if info.src.V4? then IPV4_HEADER_LEN else IPV6_HEADER_LEN, packet, info)
  {
    var seg, reply := RstSegment(packet, info), TcpRst(packet, info).value;
    RstFields(packet, info);
    if info.src.V4? {
      TcpV4Answers(seg, info);
      var pseudo := PseudoSum(info.dst.v4, info.src.v4, TCP, |seg|);
      Ipv4Layout(info.dst.v4, info.src.v4, TCP, Sealed(seg, 16, pseudo));
      SealedReset(reply, IPV4_HEADER_LEN, pseudo, packet, info);
    } else {
      TcpV6Answers(seg, info);
      var pseudo := PseudoSum(info.dst.v6, info.src.v6, TCP, |seg|);
      Ipv6Layout(info.dst.v6, info.src.v6, TCP, Sealed(seg, 16, pseudo));
      SealedReset(reply, IPV6_HEADER_LEN, pseudo, packet, info);
    }
  }

  /** `reply` delivers `msg`, but for its checksum, after an IP header. */
  predicate Carries(reply: seq<u8>, header: nat, msg: seq<u8>) {
    && |msg| >= 4 && |reply| == header + |msg|
    && reply[header] == msg[0] && reply[header + 1] == msg[1] && reply[header + 4..] == msg[4..]
  }

  lemma IcmpV4Answers(msg: seq<u8>, info: PacketInfo)
    requires info.src.V4? && info.dst.V4? && |msg| >= 8 && ReadU16(msg, 2) == 0 && msg[0] == 3
    ensures AnswersSender(IcmpV4Reply(info.dst.v4, info.src.v4, msg), info)
    ensures Carries(IcmpV4Reply(info.dst.v4, info.src.v4, msg), IPV4_HEADER_LEN, msg)
  {
    SealedVerifies(msg, 2, 0);
    Ipv4Sums(info.dst.v4, info.src.v4, ICMP_V4, Sealed(msg, 2, 0));
    Ipv4Parses(info.dst.v4, info.src.v4, ICMP_V4, Sealed(msg, 2, 0));
    Ipv4Layout(info.dst.v4, info.src.v4, ICMP_V4, Sealed(msg, 2, 0));
  }

  lemma IcmpV6Answers(msg: seq<u8>, info: PacketInfo)
    requires info.src.V6? && info.dst.V6? && 8 <= |msg| <= 8 + IPV6_QUOTE && ReadU16(msg, 2) == 0 && msg[0] < 128
    ensures AnswersSender(IcmpV6Reply(info.dst.v6, info.src.v6, msg), info)
    ensures Carries(IcmpV6Reply(info.dst.v6, info.src.v6, msg), IPV6_HEADER_LEN, msg)
  {
    var pseudo := PseudoSum(info.dst.v6, info.src.v6, ICMP_V6, |msg|);
    SealedVerifies(msg, 2, pseudo);
    Ipv6Sums(info.dst.v6, info.src.v6, ICMP_V6, Sealed(msg, 2, pseudo));
    Ipv6Parses(info.dst.v6, info.src.v6, ICMP_V6, Sealed(msg, 2, pseudo));
    Ipv6Layout(info.dst.v6, info.src.v6, ICMP_V6, Sealed(msg, 2, pseudo));
  }

  lemma CarriedTail(reply: seq<u8>, header: nat, msg: seq<u8>)
    requires Carries(reply, header, msg) && |msg| >= 8
    ensures reply[header + 4..header + 8] == msg[4..8] && reply[header + 8..] == msg[8..]
  {
  }

  /** `reply` is an ICMP error saying `kind`, `code` and `rest`, and quoting `quote`. */
  predicate Says(reply: seq<u8>, header: nat, kind: u8, code: u8, rest: seq<u8>, quote: seq<u8>) {
    && |reply| >= header + 8 && reply[header] == kind && reply[header + 1] == code
    && reply[header + 4..header + 8] == rest && reply[header + 8..] == quote
  }

  lemma IcmpV4Says(code: u8, rest: seq<u8>, packet: seq<u8>, info: PacketInfo)
    requires |rest| == 4 && info.src.V4? && info.dst.V4?
    ensures var quote := Quote(packet, info.transportOffset + 8);
            var reply := IcmpV4Reply(info.dst.v4, info.src.v4, IcmpMessage(3, code, rest, quote));
            AnswersSender(reply, info) && Says(reply, IPV4_HEADER_LEN, 3, code, rest, quote)
  {
    var msg := IcmpMessage(3, code, rest, Quote(packet, info.transportOffset + 8));
    IcmpV4Answers(msg, info);
    CarriedTail(IcmpV4Reply(info.dst.v4, info.src.v4, msg), IPV4_HEADER_LEN, msg);
  }

  lemma IcmpV6Says(kind: u8, code: u8, rest: seq<u8>, packet: seq<u8>, info: PacketInfo)
    requires |rest| == 4 && info.src.V6? && info.dst.V6? && kind < 128
    ensures var quote := Quote(packet, IPV6_QUOTE);
            var reply := IcmpV6Reply(info.dst.v6, info.src.v6, IcmpMessage(kind, code, rest, quote));
            AnswersSender(reply, info) && Says(reply, IPV6_HEADER_LEN, kind, code, rest, quote)
  {
    var msg := IcmpMessage(kind, code, rest, Quote(packet, IPV6_QUOTE));
    IcmpV6Answers(msg, info);
    CarriedTail(IcmpV6Reply(info.dst.v6, info.src.v6, msg), IPV6_HEADER_LEN, msg);
  }

  /** UDP is told its port is unreachable, other protocols that they are filtered, quoting the packet's start. */
  lemma UnreachableAnswers(packet: seq<u8>, info: PacketInfo)
    requires Unreachable(packet, info).Some?
    ensures var reply := Unreachable(packet, info).value;
            && AnswersSender(reply, info)
            && (if info.src.V4?
                then Says(reply, IPV4_HEADER_LEN, 3, UnreachableCode(info), [0, 0, 0, 0],
                          Quote(packet, info.transportOffset + 8))
                else Says(reply, IPV6_HEADER_LEN, 1, UnreachableCode(info), [0, 0, 0, 0], Quote(packet, IPV6_QUOTE)))
    ensures info.protocol == UDP <==> UnreachableCode(info) == (if info.src.V4? then 3 else 4)
  {
    if info.src.V4? {
      IcmpV4Says(UnreachableCode(info), [0, 0, 0, 0], packet, info);
    } else {
      IcmpV6Says(1, UnreachableCode(info), [0, 0, 0, 0], packet, info);
    }
  }

  /** The reply carries the path MTU where RFC 1191 and RFC 4443 put it, and quotes the packet's start. */
  lemma TooBigAnswers(packet: seq<u8>, info: PacketInfo, mtu: u16)
    requires TooBigReply(packet, info, mtu).Some?
    ensures var reply := TooBigReply(packet, info, mtu).value;
            && AnswersSender(reply, info)
            && (if info.src.V4?
                then Says(reply, IPV4_HEADER_LEN, 3, 4, [0, 0] + U16Bytes(mtu), Quote(packet, info.transportOffset + 8))
                else Says(reply, IPV6_HEADER_LEN, 2, 0, U32Bytes(mtu), Quote(packet, IPV6_QUOTE)))
  {
    if info.src.V4? {
      var rest := [0, 0] + U16Bytes(mtu);
      IcmpV4Says(4, rest, packet, info);
    } else {
      var rest := U32Bytes(mtu);
      IcmpV6Says(2, 0, rest, packet, info);
    }
  }

  /**
   * The reply is short enough for its length field to be exact and for every 32-bit sum over it, its header's and its
   * body's with the pseudo-header, not to overflow.
   */
  predicate NothingOverflows(reply: seq<u8>, info: PacketInfo) {
    if info.src.V4? then
      && IPV4_HEADER_LEN <= |reply| <= 96 && ReadU16(reply, 2) == |reply|
      && WordSum(reply[..IPV4_HEADER_LEN]) < U32_LIMIT
      && BodySum(reply[12..16], reply[16..20], reply[9], reply[IPV4_HEADER_LEN..]) < U32_LIMIT
    else
      && IPV6_HEADER_LEN <= |reply| <= MTU && ReadU16(reply, 4) + IPV6_HEADER_LEN == |reply|
      && BodySum(reply[8..24], reply[24..40], reply[6], reply[IPV6_HEADER_LEN..]) < U32_LIMIT
  }

  /** The parser never puts the transport header of an IPv4 packet past its longest header. */
  lemma ParsedOffset(packet: seq<u8>, info: PacketInfo)
    requires Parse(packet) == Some(info)
    ensures info.src.V4? <==> info.dst.V4?
    ensures info.src.V4? ==> info.transportOffset <= 60
  {
  }

  /** An IPv4 reply is a header, and a reset or an ICMP header with a quote of at most `transportOffset + 8` bytes. */
  lemma ReplyLength(packet: seq<u8>, info: PacketInfo, mtu: u16, reply: seq<u8>)
    requires IsReply(reply, packet, info, mtu) && info.src.V4?
    ensures |reply| <= IPV4_HEADER_LEN + TCP_HEADER_LEN
            || |reply| <= IPV4_HEADER_LEN + ICMP_HEADER_LEN + info.transportOffset + 8
  {
  }

  lemma ReplyFits(reply: seq<u8>, info: PacketInfo)
    requires AnswersSender(reply, info) && (info.src.V4? ==> |reply| <= 96)
    ensures NothingOverflows(reply, info)
  {
    if info.src.V4? {
      SumBound(reply[..IPV4_HEADER_LEN], 0);
      TransportSumFits(reply[12..16], reply[16..20], reply[9], reply[IPV4_HEADER_LEN..]);
    } else {
      TransportSumFits(reply[8..24], reply[24..40], reply[6], reply[IPV6_HEADER_LEN..]);
    }
  }

  /**
   * Whatever the packet and its length, every reply verifies, parses, and swaps addresses and ports; and for a packet
   * that was parsed, nothing overflows on the way.
   */
  lemma EveryReplyVerifies(packet: seq<u8>, info: PacketInfo, mtu: u16, reply: seq<u8>)
    requires IsReply(reply, packet, info, mtu)
    ensures AnswersSender(reply, info)
    ensures Parse(packet) == Some(info) ==> NothingOverflows(reply, info)
  {
    ReplyAnswers(packet, info, mtu, reply);
    if Parse(packet) == Some(info) {
      ParsedOffset(packet, info);
      if info.src.V4? { ReplyLength(packet, info, mtu, reply); }
      ReplyFits(reply, info);
    }
  }

  lemma ReplyAnswers(packet: seq<u8>, info: PacketInfo, mtu: u16, reply: seq<u8>)
    requires IsReply(reply, packet, info, mtu)
    ensures AnswersSender(reply, info)
  {
    if RejectReply(packet, info) != Some(reply) {
      TooBigAnswers(packet, info, mtu);
    } else if info.protocol == TCP {
      TcpRstAnswers(packet, info);
    } else {
      UnreachableAnswers(packet, info);
    }
  }

  /** `body` is `blank`, whose checksum field at `at` is zero, sealed with this pseudo-header sum. */
  predicate SealedFrom(body: seq<u8>, blank: seq<u8>, at: nat, pseudo: nat) {
    at % 2 == 0 && at + 2 <= |blank| && ReadU16(blank, at) == 0 && body == Sealed(blank, at, pseudo)
  }

  /** The pseudo-header sum of a packet for a body of its own length. */
  function PacketPseudo(p: seq<u8>, info: PacketInfo): nat
    requires |p| >= (if info.src.V4? then IPV4_HEADER_LEN else IPV6_HEADER_LEN)
  {
    if info.src.V4? then PseudoOf(p[12..16], p[16..20], p[9], |p| - IPV4_HEADER_LEN)
    else PseudoOf(p[8..24], p[24..40], p[6], |p| - IPV6_HEADER_LEN)
  }

  function HeaderLen(info: PacketInfo): nat { if info.src.V4? then IPV4_HEADER_LEN else IPV6_HEADER_LEN }

  lemma SealedV4(src: Ipv4Addr, dst: Ipv4Addr, protocol: u8, blank: seq<u8>, at: nat, info: PacketInfo)
    requires info.src.V4? && at % 2 == 0 && at + 2 <= |blank| && ReadU16(blank, at) == 0
    ensures var p := Ipv4Packet(src, dst, protocol, Sealed(blank, at, PseudoOf(src, dst, protocol, |blank|)));
            |p| >= HeaderLen(info) && SealedFrom(p[HeaderLen(info)..], blank, at, PacketPseudo(p, info))
  {
    Ipv4Layout(src, dst, protocol, Sealed(blank, at, PseudoOf(src, dst, protocol, |blank|)));
  }

  lemma SealedV6(src: Ipv6Addr, dst: Ipv6Addr, next: u8, blank: seq<u8>, at: nat, info: PacketInfo)
    requires !info.src.V4? && at % 2 == 0 && at + 2 <= |blank| && ReadU16(blank, at) == 0
    ensures var p := Ipv6Packet(src, dst, next, Sealed(blank, at, PseudoOf(src, dst, next, |blank|)));
            |p| >= HeaderLen(info) && SealedFrom(p[HeaderLen(info)..], blank, at, PacketPseudo(p, info))
  {
    Ipv6Layout(src, dst, next, Sealed(blank, at, PseudoOf(src, dst, next, |blank|)));
  }

  lemma RstIsSealed(packet: seq<u8>, info: PacketInfo)
    requires TcpRst(packet, info).Some?
    ensures var reply := TcpRst(packet, info).value;
            && |reply| >= HeaderLen(info)
            && SealedFrom(reply[HeaderLen(info)..], RstSegment(packet, info), 16, PacketPseudo(reply, info))
  {
    var blank := RstSegment(packet, info);
    RstFields(packet, info);
    if info.src.V4? {
      SealedV4(info.dst.v4, info.src.v4, TCP, blank, 16, info);
    } else {
      SealedV6(info.dst.v6, info.src.v6, TCP, blank, 16, info);
    }
  }

  /** The ICMP message of a reply before its checksum: an unreachable, or a too-big. */
  function IcmpBlank(packet: seq<u8>, info: PacketInfo, tooBig: Option<u16>): seq<u8> {
    match info.src
    case V4(_) =>
      var quote := Quote(packet, info.transportOffset + 8);
      if tooBig.Some? then IcmpMessage(3, 4, [0, 0] + U16Bytes(tooBig.value), quote)
      else IcmpMessage(3, UnreachableCode(info), [0, 0, 0, 0], quote)
    case V6(_) =>
      var quote := Quote(packet, IPV6_QUOTE);
      if tooBig.Some? then IcmpMessage(2, 0, U32Bytes(tooBig.value), quote)
      else IcmpMessage(1, UnreachableCode(info), [0, 0, 0, 0], quote)
  }

  lemma IcmpIsSealed(packet: seq<u8>, info: PacketInfo, tooBig: Option<u16>, reply: seq<u8>)
    requires Some(reply) == if tooBig.Some? then TooBigReply(packet, info, tooBig.value) else Unreachable(packet, info)
    ensures && |reply| >= HeaderLen(info)
            && SealedFrom(reply[HeaderLen(info)..], IcmpBlank(packet, info, tooBig), 2, PacketPseudo(reply, info))
  {
    var blank := IcmpBlank(packet, info, tooBig);
    if info.src.V4? {
      SealedV4(info.dst.v4, info.src.v4, ICMP_V4, blank, 2, info);
    } else {
      SealedV6(info.dst.v6, info.src.v6, ICMP_V6, blank, 2, info);
    }
  }

  /** What a builder sums: the reset or the ICMP message before its checksum. */
  lemma ReplyIsSealed(packet: seq<u8>, info: PacketInfo, mtu: u16, reply: seq<u8>) returns (blank: seq<u8>, at: nat)
    requires IsReply(reply, packet, info, mtu)
    ensures |reply| >= HeaderLen(info) && SealedFrom(reply[HeaderLen(info)..], blank, at, PacketPseudo(reply, info))
  {
    if RejectReply(packet, info) == Some(reply) && info.protocol == TCP {
      RstIsSealed(packet, info);
      return RstSegment(packet, info), 16;
    }
    var tooBig := if RejectReply(packet, info) == Some(reply) then None else Some(mtu);
    IcmpIsSealed(packet, info, tooBig, reply);
    return IcmpBlank(packet, info, tooBig), 2;
  }

  /** For a parsed packet, the sum the builder accumulates before it knows the checksum stays within 32 bits too. */
  lemma BuilderSumFits(packet: seq<u8>, info: PacketInfo, mtu: u16, reply: seq<u8>) returns (blank: seq<u8>, at: nat)
    requires Parse(packet) == Some(info) && IsReply(reply, packet, info, mtu)
    ensures |reply| >= HeaderLen(info) && SealedFrom(reply[HeaderLen(info)..], blank, at, PacketPseudo(reply, info))
    ensures PacketPseudo(reply, info) + WordSum(blank) < U32_LIMIT
  {
    blank, at := ReplyIsSealed(packet, info, mtu, reply);
    EveryReplyVerifies(packet, info, mtu, reply);
    SealedSumGrows(blank, at, PacketPseudo(reply, info));
  }

  /** A reply never provokes a reject, and an ICMP reply never provokes a Packet Too Big: no chain grows past one. */
  lemma NoRejectStorm(packet: seq<u8>, info: PacketInfo, mtu: u16, reply: seq<u8>, later: u16)
    requires IsReply(reply, packet, info, mtu)
    ensures Parse(reply).Some?
    ensures RejectReply(reply, Parse(reply).value) == None
    ensures Parse(reply).value.protocol != TCP ==> TooBigReply(reply, Parse(reply).value, later) == None
  {
    ReplyAnswers(packet, info, mtu, reply);
  }

  // ---- What is answered, and with what numbers ----

  /** The source is one host: not multicast, broadcast or unspecified. */
  predicate FromOneHost(info: PacketInfo) {
    match info.src
    case V4(o) => !(224 <= o[0] <= 239) && o != [255, 255, 255, 255] && o != [0, 0, 0, 0]
    case V6(o) => o[0] != 255 && exists i :: 0 <= i < 16 && o[i] != 0
  }

  /** An ICMP error: unreachable, quench, redirect, time exceeded or parameter problem; ICMPv6 types below 128. */
  predicate ReportsError(info: PacketInfo) {
    || (info.protocol == 1 && (info.icmpType == 3 || info.icmpType == 4 || info.icmpType == 5
                               || info.icmpType == 11 || info.icmpType == 12))
    || (info.protocol == 58 && info.icmpType <= 127)
  }

  /**
   * Exactly which parsed packets are answered: anything from one host but an ICMP error and, for a rejection, a reset
   * or a TCP packet cut off before the end of its header.
   */
  lemma WhatIsAnswered(packet: seq<u8>, info: PacketInfo, mtu: u16)
    requires Parse(packet) == Some(info)
    ensures TooBigReply(packet, info, mtu).Some? <==> FromOneHost(info) && !ReportsError(info)
    ensures RejectReply(packet, info).Some?
            <==> && FromOneHost(info) && !ReportsError(info)
                 && (info.protocol == 6 ==> info.tcpFlags / 4 % 2 == 0 && |packet| >= info.transportOffset + 20)
  {
    ParsedOffset(packet, info);
    if info.src.V6? {
      assert info.src.v6 == ZERO_V6 <==> forall i :: 0 <= i < 16 ==> info.src.v6[i] == 0;
    }
  }

  /** What kind of answer: a reset for TCP, else unreachable: the port for UDP, administratively for the rest. */
  lemma AnswerInNumbers(packet: seq<u8>, info: PacketInfo, reply: seq<u8>)
    requires Parse(packet) == Some(info) && RejectReply(packet, info) == Some(reply)
    ensures Parse(reply).Some?
    ensures var r := Parse(reply).value;
            if info.protocol == 6 then r.protocol == 6
            else if info.src.V4? then
              r.protocol == 1 && |reply| > 21 && reply[20] == 3 && reply[21] == (if info.protocol == 17 then 3 else 13)
            else
              r.protocol == 58 && |reply| > 41 && reply[40] == 1 && reply[41] == (if info.protocol == 17 then 4 else 1)
  {
    ReplyAnswers(packet, info, 0, reply);
    if info.protocol != 6 {
      UnreachableAnswers(packet, info);
      UnreachableProtocol(packet, info);
    } else {
      ResetProtocol(packet, info);
    }
  }

  lemma UnreachableProtocol(packet: seq<u8>, info: PacketInfo)
    requires Unreachable(packet, info).Some? && Parse(Unreachable(packet, info).value).Some?
    ensures Parse(Unreachable(packet, info).value).value.protocol == if info.src.V4? then 1 else 58
  {
    var blank := IcmpBlank(packet, info, None);
    if info.src.V4? {
      Ipv4Parses(info.dst.v4, info.src.v4, ICMP_V4, Sealed(blank, 2, 0));
    } else {
      var pseudo := PseudoSum(info.dst.v6, info.src.v6, ICMP_V6, |blank|);
      Ipv6Parses(info.dst.v6, info.src.v6, ICMP_V6, Sealed(blank, 2, pseudo));
    }
  }

  lemma ResetProtocol(packet: seq<u8>, info: PacketInfo)
    requires TcpRst(packet, info).Some? && Parse(TcpRst(packet, info).value).Some?
    ensures Parse(TcpRst(packet, info).value).value.protocol == 6
  {
    var seg := RstSegment(packet, info);
    if info.src.V4? {
      Ipv4Parses(info.dst.v4, info.src.v4, TCP, Sealed(seg, 16, PseudoSum(info.dst.v4, info.src.v4, TCP, |seg|)));
    } else {
      Ipv6Parses(info.dst.v6, info.src.v6, TCP, Sealed(seg, 16, PseudoSum(info.dst.v6, info.src.v6, TCP, |seg|)));
    }
  }

  /** The length of the packet, as its IP header states it. */
  function StatedLength(packet: seq<u8>, info: PacketInfo): nat
    requires |packet| >= 20
  {
    if info.src.V4? then packet[2] as int * 256 + packet[3] else packet[4] as int * 256 + packet[5] + 40
  }

  /** Four bytes as a number. */
  function Number(b: seq<u8>, at: nat): nat
    requires at + 4 <= |b|
  {
    ((b[at] as int * 256 + b[at + 1]) * 256 + b[at + 2]) * 256 + b[at + 3]
  }

  /**
   * The numbers of the reset, read off the bytes. To a segment with an acknowledgement it continues there. To one
   * without, it acknowledges what the segment took up: by the stated length the bytes after its header, and one each
   * for SYN and FIN.
   */
  lemma ResetNumbers(packet: seq<u8>, info: PacketInfo, reply: seq<u8>)
    requires Parse(packet) == Some(info) && info.protocol == 6 && RejectReply(packet, info) == Some(reply)
    ensures var t, h := info.transportOffset, if info.src.V4? then 20 else 40;
            && |packet| >= t + 20 && |reply| == h + 20
            && var flags, payload := packet[t + 13], StatedLength(packet, info) - t - packet[t + 12] as int / 16 * 4;
            if flags / 16 % 2 == 1 then Number(reply, h + 4) == Number(packet, t + 8) && Number(reply, h + 8) == 0
            else
              && Number(reply, h + 4) == 0
              && Number(reply, h + 8) == (Number(packet, t + 4) + (if payload > 0 then payload else 0)
                                          + flags / 2 % 2 + flags % 2) % 0x1_0000_0000
  {
    TcpRstAnswers(packet, info);
    NumbersInBytes(packet, info, reply, if info.src.V4? then 20 else 40);
  }

  lemma NumbersInBytes(packet: seq<u8>, info: PacketInfo, reply: seq<u8>, h: nat)
    requires info.transportOffset + TCP_HEADER_LEN <= |packet|
    requires ResetsBy793(reply, h, packet, info)
    ensures var t := info.transportOffset;
            var flags, payload := packet[t + 13], StatedLength(packet, info) - t - packet[t + 12] as int / 16 * 4;
            if flags / 16 % 2 == 1 then Number(reply, h + 4) == Number(packet, t + 8) && Number(reply, h + 8) == 0
            else
              && Number(reply, h + 4) == 0
              && Number(reply, h + 8) == (Number(packet, t + 4) + (if payload > 0 then payload else 0)
                                          + flags / 2 % 2 + flags % 2) % 0x1_0000_0000
  {
    var t := info.transportOffset;
    SegmentTakesUp(packet, info);
    NumberIsRead(reply, h + 4);
    NumberIsRead(reply, h + 8);
    NumberIsRead(packet, t + 4);
    NumberIsRead(packet, t + 8);
  }

  lemma NumberIsRead(b: seq<u8>, at: nat)
    requires at + 4 <= |b|
    ensures Number(b, at) == ReadU32(b, at)
  {
  }

  lemma SegmentTakesUp(packet: seq<u8>, info: PacketInfo)
    requires info.transportOffset + TCP_HEADER_LEN <= |packet|
    ensures var t := info.transportOffset;
            var flags, payload := packet[t + 13], StatedLength(packet, info) - t - packet[t + 12] as int / 16 * 4;
            SegmentLength(packet, info) == (if payload > 0 then payload else 0) + flags / 2 % 2 + flags % 2
  {
    var tcp := packet[info.transportOffset..];
    assert tcp[12] == packet[info.transportOffset + 12] && tcp[13] == packet[info.transportOffset + 13];
  }

  // ---- The builders ----

  method CopyInto(p: array<u8>, at: nat, bytes: seq<u8>)
    requires at + |bytes| <= p.Length
    modifies p
    ensures p[..] == old(p[..at]) + bytes + old(p[at + |bytes|..])
    ensures p[..at + |bytes|] == old(p[..at]) + bytes && p[at + |bytes|..] == old(p[at + |bytes|..])
  {
    forall i | 0 <= i < |bytes| { p[at + i] := bytes[i]; }
  }

  method WriteU16(p: array<u8>, at: nat, n: u16)
    requires at + 2 <= p.Length
    modifies p
    ensures p[..] == PutU16(old(p[..]), at, n)
  {
    p[at] := n / 0x100;
    p[at + 1] := n % 0x100;
  }

  method FillIpv4Header(p: array<u8>, src: Ipv4Addr, dst: Ipv4Addr, protocol: u8)
    requires p.Length >= IPV4_HEADER_LEN && forall i :: 0 <= i < p.Length ==> p[i] == 0
    modifies p
    ensures p[..IPV4_HEADER_LEN] == Ipv4Header(src, dst, protocol, p.Length - IPV4_HEADER_LEN)
  {
    p[0] := 0x45;
    WriteU16(p, 2, p.Length % 0x1_0000);
    p[8] := 64;
    p[9] := protocol;
    CopyInto(p, 12, src);
    CopyInto(p, 16, dst);
  }

  method WrapIpv4(src: Ipv4Addr, dst: Ipv4Addr, protocol: u8, payload: seq<u8>) returns (packet: seq<u8>)
    ensures packet == Ipv4Packet(src, dst, protocol, payload)
  {
    var p := new u8[IPV4_HEADER_LEN + |payload|](_ => 0);
    FillIpv4Header(p, src, dst, protocol);
    var blank := p[..IPV4_HEADER_LEN];
    var sum := ChecksumWords(blank);
    var check := Fold(sum);
    WriteU16(p, 10, check);
    assert p[..IPV4_HEADER_LEN] == PutU16(blank, 10, check);
    CopyInto(p, IPV4_HEADER_LEN, payload);
    packet := p[..];
  }

  method WrapIpv6(src: Ipv6Addr, dst: Ipv6Addr, next: u8, payload: seq<u8>) returns (packet: seq<u8>)
    ensures packet == Ipv6Packet(src, dst, next, payload)
  {
    var p := new u8[IPV6_HEADER_LEN + |payload|](_ => 0);
    p[0] := 0x60;
    CopyInto(p, 4, U16Bytes(|payload| % 0x1_0000));
    p[6] := next;
    p[7] := 64;
    assert p[..8] == [0x60, 0, 0, 0] + U16Bytes(|payload| % 0x1_0000) + [next, 64];
    CopyInto(p, 8, src);
    CopyInto(p, 24, dst);
    CopyInto(p, IPV6_HEADER_LEN, payload);
    packet := p[..];
  }

  /** The checksum shared by TCP and ICMPv6, pseudo-header first. */
  method TransportChecksum(src: seq<u8>, dst: seq<u8>, protocol: u8, body: seq<u8>) returns (check: u16)
    ensures check == Complement(PseudoSum(src, dst, protocol, |body|) + WordSum(body))
    ensures |src| <= 16 && |dst| <= 16 && |body| <= 0x1_0000 ==>
              PseudoSum(src, dst, protocol, |body|) + WordSum(body) < U32_LIMIT
  {
    var s := ChecksumWords(src);
    var d := ChecksumWords(dst);
    var b := ChecksumWords(body);
    if |src| <= 16 && |dst| <= 16 && |body| <= 0x1_0000 { TransportSumFits(src, dst, protocol, body); }
    check := Fold(s + d + protocol + |body| + b);
  }

  method CountSegment(packet: seq<u8>, info: PacketInfo) returns (segLen: nat)
    requires info.transportOffset + TCP_HEADER_LEN <= |packet|
    ensures segLen == SegmentLength(packet, info)
  {
    var tcp := packet[info.transportOffset..];
    var headers := info.transportOffset + tcp[12] as int / 16 * 4;
    var total: nat := if info.src.V4? then ReadU16(packet, 2) else IPV6_HEADER_LEN + ReadU16(packet, 4) as int;
    segLen := if total < headers then 0 else total - headers;
    if HasFlag(tcp[13], SYN) { segLen := segLen + 1; }
    if HasFlag(tcp[13], FIN) { segLen := segLen + 1; }
  }

  /** Sequence number, acknowledgement and flags of the reset, from the fields of the segment it answers. */
  method ChooseNumbers(packet: seq<u8>, info: PacketInfo) returns (rstSeq: u32, rstAck: u32, rstFlags: u8)
    requires info.transportOffset + TCP_HEADER_LEN <= |packet|
    ensures U32Bytes(rstSeq) + U32Bytes(rstAck) == RstNumbers(packet, info)
    ensures rstFlags == if HasFlag(packet[info.transportOffset + 13], ACK) then RST else 0x14
  {
    var t := info.transportOffset;
    assert U32Bytes(0) == [0, 0, 0, 0];
    if HasFlag(packet[t + 13], ACK) {
      U32RoundTrip(packet, t + 8);
      return ReadU32(packet, t + 8), 0, RST;
    }
    var segLen := CountSegment(packet, info);
    return 0, (ReadU32(packet, t + 4) as int + segLen) % U32_LIMIT, 0x14;
  }

  /** Ports and numbers, field after field. */
  method FillFront(seg: array<u8>, src: seq<u8>, dst: seq<u8>, number: seq<u8>, ack: seq<u8>)
    requires |src| == |dst| == 2 && |number| == |ack| == 4 && seg.Length >= 12
    modifies seg
    ensures seg[..12] == src + dst + (number + ack) && seg[12..] == old(seg[12..])
  {
    CopyInto(seg, 0, src);
    assert seg[12..] == old(seg[12..]);
    CopyInto(seg, 2, dst);
    assert seg[12..] == old(seg[12..]);
    CopyInto(seg, 4, number);
    assert seg[12..] == old(seg[12..]);
    CopyInto(seg, 8, ack);
  }

  method FillRst(packet: seq<u8>, info: PacketInfo) returns (seg: array<u8>)
    requires info.transportOffset + TCP_HEADER_LEN <= |packet|
    ensures fresh(seg) && seg[..] == RstSegment(packet, info)
  {
    var rstSeq, rstAck, flags := ChooseNumbers(packet, info);
    seg := new u8[TCP_HEADER_LEN](_ => 0);
    seg[12] := 0x50;
    seg[13] := flags;
    assert seg[12..] == [0x50, flags, 0, 0, 0, 0, 0, 0];
    FillFront(seg, U16Bytes(info.dstPort), U16Bytes(info.srcPort), U32Bytes(rstSeq), U32Bytes(rstAck));
    assert seg[..] == seg[..12] + seg[12..];
  }

  method SendTcp(info: PacketInfo, seg: array<u8>) returns (reply: Option<seq<u8>>)
    requires seg.Length == TCP_HEADER_LEN
    modifies seg
    ensures reply == TcpReply(info, old(seg[..]))
  {
    match (info.dst, info.src)
    case (V4(src), V4(dst)) =>
      var check := TransportChecksum(src, dst, TCP, seg[..]);
      WriteU16(seg, 16, check);
      var p := WrapIpv4(src, dst, TCP, seg[..]);
      return Some(p);
    case (V6(src), V6(dst)) =>
      var check := TransportChecksum(src, dst, TCP, seg[..]);
      WriteU16(seg, 16, check);
      var p := WrapIpv6(src, dst, TCP, seg[..]);
      return Some(p);
    case _ => return None;
  }

  method BuildTcpRst(packet: seq<u8>, info: PacketInfo) returns (reply: Option<seq<u8>>)
    ensures reply == TcpRst(packet, info)
  {
    if HasFlag(info.tcpFlags, RST) || |packet| < info.transportOffset + TCP_HEADER_LEN { return None; }
    var seg := FillRst(packet, info);
    reply := SendTcp(info, seg);
  }

  method BuildIcmpMessage(kind: u8, code: u8, rest: seq<u8>, quote: seq<u8>) returns (msg: array<u8>)
    requires |rest| == 4
    ensures fresh(msg) && msg[..] == IcmpMessage(kind, code, rest, quote)
  {
    msg := new u8[ICMP_HEADER_LEN + |quote|](_ => 0);
    msg[0] := kind;
    msg[1] := code;
    CopyInto(msg, 4, rest);
    CopyInto(msg, ICMP_HEADER_LEN, quote);
  }

  method SendIcmp(info: PacketInfo, msg: array<u8>) returns (reply: Option<seq<u8>>)
    requires msg.Length >= ICMP_HEADER_LEN
    modifies msg
    ensures reply == match (info.dst, info.src)
                     case (V4(src), V4(dst)) => Some(IcmpV4Reply(src, dst, old(msg[..])))
                     case (V6(src), V6(dst)) => Some(IcmpV6Reply(src, dst, old(msg[..])))
                     case _ => None
  {
    match (info.dst, info.src)
    case (V4(src), V4(dst)) =>
      var sum := ChecksumWords(msg[..]);
      var check := Fold(sum);
      WriteU16(msg, 2, check);
      var p := WrapIpv4(src, dst, ICMP_V4, msg[..]);
      return Some(p);
    case (V6(src), V6(dst)) =>
      var check := TransportChecksum(src, dst, ICMP_V6, msg[..]);
      WriteU16(msg, 2, check);
      var p := WrapIpv6(src, dst, ICMP_V6, msg[..]);
      return Some(p);
    case _ => return None;
  }

  method BuildUnreachable(packet: seq<u8>, info: PacketInfo) returns (reply: Option<seq<u8>>)
    ensures reply == Unreachable(packet, info)
  {
    var code := UnreachableCode(info);
    var msg;
    if info.src.V4? {
      msg := BuildIcmpMessage(3, code, [0, 0, 0, 0], Quote(packet, info.transportOffset + 8));
    } else {
      msg := BuildIcmpMessage(1, code, [0, 0, 0, 0], Quote(packet, IPV6_QUOTE));
    }
    reply := SendIcmp(info, msg);
  }

  method BuildReject(packet: seq<u8>, info: PacketInfo) returns (reply: Option<seq<u8>>)
    ensures reply == RejectReply(packet, info)
  {
    if NotUnicast(info.src) || IsIcmpError(info) { return None; }
    if info.protocol == TCP {
      reply := BuildTcpRst(packet, info);
    } else {
      reply := BuildUnreachable(packet, info);
    }
  }

  method BuildPacketTooBig(packet: seq<u8>, info: PacketInfo, mtu: u16) returns (reply: Option<seq<u8>>)
    ensures reply == TooBigReply(packet, info, mtu)
  {
    if NotUnicast(info.src) || IsIcmpError(info) { return None; }
    var msg;
    if info.src.V4? {
      msg := BuildIcmpMessage(3, 4, [0, 0] + U16Bytes(mtu), Quote(packet, info.transportOffset + 8));
    } else {
      msg := BuildIcmpMessage(2, 0, U32Bytes(mtu), Quote(packet, IPV6_QUOTE));
    }
    reply := SendIcmp(info, msg);
  }
}
