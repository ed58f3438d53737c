/** What the packet parser (src/firewall/packet.rs) and the address classes mean, beside their definitions. */
module PacketLaws {
  import opened Wrappers
  import opened Packet

  // ---- Extension headers and fragments ----

  /** An IPv6 header before `rest`. */
  function Header6(src: Ipv6Addr, dst: Ipv6Addr, next: u8, len: u16): (h: seq<u8>)
    ensures |h| == 40 && h[6] == next && h[8..24] == src && h[24..40] == dst && h[0] == 0x60
  {
    [0x60, 0, 0, 0, len / 0x100, len % 0x100, next, 64] + src + dst
  }

  /** A protocol the walk stops at. */
  predicate IsUpper(next: u8) { next !in {0, 43, 44, 51, 60, 135, 139, 140} }

  /** The fields of a transport header do not depend on what comes before it. */
  lemma SameFields(p: seq<u8>, at: nat, q: seq<u8>, to: nat, protocol: u8)
    requires at <= |p| && to <= |q| && p[at..] == q[to..]
    ensures Port(p, protocol, at) == Port(q, protocol, to) && Port(p, protocol, at + 2) == Port(q, protocol, to + 2)
    ensures TcpFlags(p, protocol, at) == TcpFlags(q, protocol, to)
    ensures IcmpType(p, protocol, at) == IcmpType(q, protocol, to) && IcmpId(p, protocol, at) == IcmpId(q, protocol, to)
  {
    assert |p| - at == |q| - to;
    assert forall i :: 0 <= i < |p| - at ==> p[at + i] == p[at..][i] && q[to + i] == q[to..][i];
  }

  /** Two bytes as a number, zero past the end. */
  function Pair(p: seq<u8>, at: nat): nat { if at + 2 <= |p| then p[at] as int * 256 + p[at + 1] else 0 }

  /** Where the fields of a parsed packet are: ports and flags for TCP and UDP, type and echo id for ICMP. */
  lemma FieldsInBytes(p: seq<u8>, info: PacketInfo)
    requires Parse(p) == Some(info)
    ensures var t := info.transportOffset;
            && info.srcPort == (if info.protocol == 6 || info.protocol == 17 then Pair(p, t) else 0)
            && info.dstPort == (if info.protocol == 6 || info.protocol == 17 then Pair(p, t + 2) else 0)
            && info.tcpFlags == (if info.protocol == 6 && t + 13 < |p| then p[t + 13] else 0)
            && info.icmpType == (if (info.protocol == 1 || info.protocol == 58) && t < |p| then p[t] else 0)
            && info.icmpId == (if (info.protocol == 1 && info.icmpType in {0, 8})
                                  || (info.protocol == 58 && info.icmpType in {128, 129})
                               then Pair(p, t + 4) else 0)
  {
  }

  /** An extension header before the transport header changes nothing but where that starts. */
  lemma OptionsAreSkipped(
      src: Ipv6Addr, dst: Ipv6Addr, kind: u8, options: seq<u8>, next: u8, body: seq<u8>, len: u16)
    requires kind in {0, 43, 51, 60, 135, 139, 140} && IsUpper(next) && body != []
    requires |options| >= 8 && options[0] == next
    requires |options| == if kind == 51 then (options[1] as int + 2) * 4 else (options[1] as int + 1) * 8
    ensures var plain, long := Header6(src, dst, next, len) + body, Header6(src, dst, kind, len) + options + body;
            && (Parse(plain) == None <==> (next == 6 || next == 17) && |body| < 4)
            && (Parse(plain).Some? ==> Parse(plain).value.transportOffset == 40)
            && Parse(long) == match Parse(plain)
                              case None => None
                              case Some(info) => Some(info.(transportOffset := 40 + |options|))
  {
    var plain, long := Header6(src, dst, next, len) + body, Header6(src, dst, kind, len) + options + body;
    assert plain[0] == 0x60 && plain[6] == next && plain[8..24] == src && plain[24..40] == dst;
    assert long[0] == 0x60 && long[6] == kind && long[8..24] == src && long[24..40] == dst;
    assert long[40] == options[0] && long[41] == options[1];
    assert Walk(plain, next, 40, None, 8) == Some(Chain(next, 40, None));
    assert Walk(long, next, 40 + |options|, None, 7) == Some(Chain(next, 40 + |options|, None));
    assert Walk(long, kind, 40, None, 8) == Walk(long, next, 40 + |options|, None, 7);
    assert plain[40..] == body == long[40 + |options|..];
    SameFields(plain, 40, long, 40 + |options|, next);
  }

  /** A fragment header: what follows, the offset in units of eight bytes, whether more follow, and the packet's id. */
  function FragmentBytes(next: u8, offset: nat, more: bool, id: u32): (h: seq<u8>)
    requires offset < 0x2000
    ensures |h| == 8
  {
    var word := offset * 8 + if more then 1 else 0;
    [next, 0, word / 0x100, word % 0x100,
     id / 0x100_0000, id / 0x1_0000 % 0x100, id / 0x100 % 0x100, id % 0x100]
  }

  lemma FourBytes(id: u32)
    ensures (id / 0x100_0000 * 0x100 + id / 0x1_0000 % 0x100) * 0x1_0000
            + (id / 0x100 % 0x100 * 0x100 + id % 0x100) == id
  {
    var a, b, c := id / 0x100, id / 0x1_0000, id / 0x100_0000;
    assert a / 0x100 == b && b / 0x100 == c;
  }

  lemma FragmentReadsBack(p: seq<u8>, at: nat, next: u8, offset: nat, more: bool, id: u32)
    requires offset < 0x2000 && at + 8 <= |p| && p[at..at + 8] == FragmentBytes(next, offset, more, id)
    ensures p[at] == next && ReadU16(p, at + 2) / 8 == offset && ReadU32(p, at + 4) == id
  {
    var h := p[at..at + 8];
    assert p[at] == h[0] && p[at + 2] == h[2] && p[at + 3] == h[3];
    assert p[at + 4] == h[4] && p[at + 5] == h[5] && p[at + 6] == h[6] && p[at + 7] == h[7];
    FourBytes(id);
  }

  /** The first fragment of a packet holds its whole transport header, as RFC 7112 requires. */
  predicate HoldsHeader(next: u8, body: seq<u8>) {
    if next == 6 then |body| >= 20 && body[12] as int / 16 * 4 >= 20 && |body| >= body[12] as int / 16 * 4
    else |body| >= if next == 17 || next == 58 then 8 else 1
  }

  /**
   * A fragment is never taken for a whole packet. A later one is always classified, the first exactly if it holds its
   * transport header; its fields are then those of the whole packet.
   */
  lemma FragmentsParse(
      src: Ipv6Addr, dst: Ipv6Addr, next: u8, offset: nat, more: bool, id: u32, body: seq<u8>, len: u16)
    requires offset < 0x2000 && IsUpper(next)
    ensures var p, whole := Header6(src, dst, 44, len) + FragmentBytes(next, offset, more, id) + body,
                            Header6(src, dst, next, len) + body;
            && Parse(p) == None
            && (ParseFragment(p).Some? <==> offset != 0 || HoldsHeader(next, body))
            && (ParseFragment(p).Some? ==>
                  && ParseFragment(p).value.key == FragmentKey(src, dst, id)
                  && (ParseFragment(p).value.first <==> offset == 0)
                  && (offset == 0 ==> Some(ParseFragment(p).value.info.(transportOffset := 40)) == Parse(whole)))
  {
    var frag, plain := FragmentBytes(next, offset, more, id), Header6(src, dst, next, len);
    var p, whole := Header6(src, dst, 44, len) + frag + body, plain + body;
    assert p[0] == 0x60 && p[6] == 44 && p[8..24] == src && p[24..40] == dst && p[40..48] == frag;
    FragmentReadsBack(p, 40, next, offset, more, id);
    var header := FragmentHeader(offset, id);
    if offset == 0 && body != [] {
      assert Walk(p, next, 48, Some(header), 7) == Some(Chain(next, 48, Some(header)));
      assert p[48..] == body == whole[40..];
      assert |body| > 12 ==> p[60] == body[12];
      assert CarriesUpperHeader(p, next, 48) <==> HoldsHeader(next, body);
      assert whole[0] == 0x60 && whole[6] == next && whole[8..24] == src && whole[24..40] == dst;
      assert Walk(whole, next, 40, None, 8) == Some(Chain(next, 40, None));
      SameFields(p, 48, whole, 40, next);
    }
    assert Walk(p, 44, 40, None, 8).Some? ==> Walk(p, 44, 40, None, 8).value.fragment == Some(header);
  }

  /** IPv4 options are skipped too, and a fragment but the first is no packet. */
  lemma Ipv4OptionsAreSkipped(header: seq<u8>, options: seq<u8>, body: seq<u8>)
    requires |header| == 20 && |options| % 4 == 0 && |options| <= 40 && header[0] == 0x45 + |options| / 4
    ensures var plain, long := header[0 := 0x45] + body, header + options + body;
            var offset := (header[6] as int * 256 + header[7]) % 8192;
            && (offset != 0 ==> Parse(plain) == None && Parse(long) == None)
            && (offset == 0 ==>
                  && Parse(plain).Some? && Parse(plain).value.transportOffset == 20
                  && Parse(plain).value.src == V4(header[12..16]) && Parse(plain).value.dst == V4(header[16..20])
                  && Parse(long) == Some(Parse(plain).value.(transportOffset := 20 + |options|)))
  {
    var plain, long := header[0 := 0x45] + body, header + options + body;
    assert plain[6] == header[6] == long[6] && plain[7] == header[7] == long[7] && plain[9] == header[9] == long[9];
    assert plain[12..16] == header[12..16] == long[12..16] && plain[16..20] == header[16..20] == long[16..20];
    assert plain[20..] == body == long[20 + |options|..];
    SameFields(plain, 20, long, 20 + |options|, header[9]);
  }

  /** The walk reads nothing from where it ends on. */
  lemma {:induction false} WalkReadsHeaders(p: seq<u8>, q: seq<u8>, next: u8, off: nat,
                                            fragment: Option<FragmentHeader>, left: nat)
    requires |p| == |q| && Walk(p, next, off, fragment, left).Some?
    requires forall i :: 0 <= i < |p| && i < Walk(p, next, off, fragment, left).value.offset ==> p[i] == q[i]
    ensures Walk(q, next, off, fragment, left) == Walk(p, next, off, fragment, left)
    ensures off <= Walk(p, next, off, fragment, left).value.offset
    decreases left
  {
    WalkMovesOn(p, next, off, fragment, left);
    if next == IPV6_FRAGMENT {
      var header := FragmentHeader(ReadU16(p, off + 2) / 8, ReadU32(p, off + 4));
      if header.offset == 0 { WalkMovesOn(p, p[off], off + 8, Some(header), left - 1); }
      assert q[off] == p[off] && ReadU16(q, off + 2) == ReadU16(p, off + 2);
      assert ReadU32(q, off + 4) == ReadU32(p, off + 4);
      if header.offset == 0 {
        WalkReadsHeaders(p, q, p[off], off + 8, Some(header), left - 1);
      }
    } else if next == IPV6_AH || next in IPV6_TLV {
      var len := if next == IPV6_AH then (p[off + 1] as int + 2) * 4 else (p[off + 1] as int + 1) * 8;
      WalkMovesOn(p, p[off], off + len, fragment, left - 1);
      assert q[off] == p[off] && q[off + 1] == p[off + 1];
      WalkReadsHeaders(p, q, p[off], off + len, fragment, left - 1);
    }
  }

  lemma {:induction false} WalkMovesOn(p: seq<u8>, next: u8, off: nat, fragment: Option<FragmentHeader>, left: nat)
    requires Walk(p, next, off, fragment, left).Some?
    ensures off <= Walk(p, next, off, fragment, left).value.offset
    decreases left
  {
    if next == IPV6_FRAGMENT {
      var header := FragmentHeader(ReadU16(p, off + 2) / 8, ReadU32(p, off + 4));
      if header.offset == 0 { WalkMovesOn(p, p[off], off + 8, Some(header), left - 1); }
    } else if next == IPV6_AH || next in IPV6_TLV {
      var len := if next == IPV6_AH then (p[off + 1] as int + 2) * 4 else (p[off + 1] as int + 1) * 8;
      WalkMovesOn(p, p[off], off + len, fragment, left - 1);
    }
  }

  /** Changing bytes from the transport header of an IPv6 packet on changes nothing but the fields read there. */
  lemma SameHeaders(p: seq<u8>, q: seq<u8>, info: PacketInfo)
    requires Parse(p) == Some(info) && info.src.V6? && |q| == |p|
    requires forall i :: 0 <= i < info.transportOffset && i < |p| ==> p[i] == q[i]
    ensures Parse(q) == Some(InfoAt(q, info.protocol, info.transportOffset, info.src, info.dst))
  {
    var chain := Walk(p, p[6], 40, None, MAX_HEADERS).value;
    WalkMovesOn(p, p[6], 40, None, MAX_HEADERS);
    assert p[0] == q[0] && p[6] == q[6] && p[8..24] == q[8..24] && p[24..40] == q[24..40];
    WalkReadsHeaders(p, q, p[6], 40, None, MAX_HEADERS);
  }

  // ---- Addresses as numbers ----

  function Address(o: Ipv4Addr): nat { ((o[0] as int * 256 + o[1]) * 256 + o[2]) * 256 + o[3] }

  predicate Between(n: nat, first: nat, last: nat) { first <= n <= last }

  /** The IPv4 blocks an exit node does not forward to, as ranges of addresses. */
  predicate Withheld(n: nat) {
    || Between(n, 0x0000_0000, 0x00ff_ffff) || Between(n, 0x0a00_0000, 0x0aff_ffff)
    || Between(n, 0x6440_0000, 0x647f_ffff) || Between(n, 0x7f00_0000, 0x7fff_ffff)
    || Between(n, 0xa9fe_0000, 0xa9fe_ffff) || Between(n, 0xac10_0000, 0xac1f_ffff)
    || Between(n, 0xc000_0000, 0xc000_00ff) || Between(n, 0xc000_0200, 0xc000_02ff)
    || Between(n, 0xc0a8_0000, 0xc0a8_ffff) || Between(n, 0xc612_0000, 0xc613_ffff)
    || Between(n, 0xc633_6400, 0xc633_64ff) || Between(n, 0xcb00_7100, 0xcb00_71ff)
    || Between(n, 0xe000_0000, 0xffff_ffff)
  }

  /** A block of addresses, by its first byte and a range of second bytes. */
  lemma Block(o: Ipv4Addr, a: nat, from: nat, to: nat)
    requires a < 256 && from <= to < 256
    ensures Between(Address(o), a * 0x100_0000 + from * 0x1_0000, a * 0x100_0000 + to * 0x1_0000 + 0xffff)
            <==> o[0] == a && from <= o[1] <= to
  {
    assert Address(o) == o[0] as int * 0x100_0000 + o[1] as int * 0x1_0000 + o[2] as int * 0x100 + o[3] as int;
  }

  /** A block of 256 addresses. */
  lemma SmallBlock(o: Ipv4Addr, a: nat, b: nat, c: nat)
    requires a < 256 && b < 256 && c < 256
    ensures var first := a * 0x100_0000 + b * 0x1_0000 + c * 0x100;
            Between(Address(o), first, first + 0xff) <==> o[0] == a && o[1] == b && o[2] == c
  {
    assert Address(o) == o[0] as int * 0x100_0000 + o[1] as int * 0x1_0000 + o[2] as int * 0x100 + o[3] as int;
  }

  /** Everything from a first byte on. */
  lemma Above(o: Ipv4Addr, a: nat)
    requires a < 256
    ensures Between(Address(o), a * 0x100_0000, 0xffff_ffff) <==> a <= o[0]
  {
    assert Address(o) == o[0] as int * 0x100_0000 + o[1] as int * 0x1_0000 + o[2] as int * 0x100 + o[3] as int;
  }

  /**
   * Exactly these are withheld: this network, private, carrier-grade, loopback, link-local, protocol, documentation,
   * benchmarking, multicast, reserved and broadcast addresses.
   */
  lemma TransitableV4Iff(o: Ipv4Addr)
    ensures IsTransitable(V4(o)) <==> !Withheld(Address(o))
  {
    Block(o, 0, 0, 255);
    Block(o, 10, 0, 255);
    Block(o, 100, 64, 127);
    Block(o, 127, 0, 255);
    Block(o, 169, 254, 254);
    Block(o, 172, 16, 31);
    SmallBlock(o, 192, 0, 0);
    SmallBlock(o, 192, 0, 2);
    Block(o, 192, 168, 168);
    Block(o, 198, 18, 19);
    SmallBlock(o, 198, 51, 100);
    SmallBlock(o, 203, 0, 113);
    Above(o, 224);
    assert o == [o[0], o[1], o[2], o[3]] && o[..3] == [o[0], o[1], o[2]];
  }
}
