/** The userspace SSH port NAT (src/forward.rs): it edits a port in place and repairs the checksum. */
module SshNat {
  import opened Wrappers
  import opened Packet
  import opened Checksum
  import PacketLaws

  datatype Config = Config(v6: Ipv6Addr, listenPort: u16, meshPort: u16)
  datatype Rewrite = Untouched | Rewritten | Truncated

  /** Where the port to change is, and its two values. */
  datatype Edit = Edit(at: nat, before: u16, after: u16)

  /** The edit this packet needs, if it is SSH to or from this node while the NAT is on. */
  function EditFor(ssh: Option<Config>, info: PacketInfo, inbound: bool): Option<Edit> {
    if ssh.None? || info.protocol != TCP then None
    else if inbound then
      if info.dst != V6(ssh.value.v6) || info.dstPort != ssh.value.meshPort then None
      else Some(Edit(info.transportOffset + 2, ssh.value.meshPort, ssh.value.listenPort))
    else
      if info.src != V6(ssh.value.v6) || info.srcPort != ssh.value.listenPort then None
      else Some(Edit(info.transportOffset, ssh.value.listenPort, ssh.value.meshPort))
  }

  function Edited(pkt: seq<u8>, info: PacketInfo, e: Edit): seq<u8>
    requires info.transportOffset + 18 <= |pkt| && e.at + 2 <= |pkt|
  {
    var check := info.transportOffset + 16;
    PutU16(PutU16(pkt, e.at, e.after), check, Replaced(ReadU16(pkt, check), e.before, e.after))
  }

  /** `rewrite_ssh_port`. */
  method RewriteSshPort(pkt: array<u8>, ssh: Option<Config>, info: PacketInfo, inbound: bool) returns (r: Rewrite)
    modifies pkt
    ensures var edit := EditFor(ssh, info, inbound);
            && (r.Untouched? <==> edit.None?)
            && (r.Rewritten? <==> edit.Some? && pkt.Length >= info.transportOffset + 18)
            && pkt[..] == (if r.Rewritten? then Edited(old(pkt[..]), info, edit.value) else old(pkt[..]))
  {
    if ssh.None? || info.protocol != TCP { return Untouched; }
    var ihl := info.transportOffset;
    var portAt, before, after := ihl + 2, ssh.value.meshPort, ssh.value.listenPort;
    if inbound {
      if info.dst != V6(ssh.value.v6) || info.dstPort != ssh.value.meshPort { return Untouched; }
    } else {
      if info.src != V6(ssh.value.v6) || info.srcPort != ssh.value.listenPort { return Untouched; }
      portAt, before, after := ihl, ssh.value.listenPort, ssh.value.meshPort;
    }
    if pkt.Length < ihl + 18 { return Truncated; }
    pkt[portAt], pkt[portAt + 1] := after / 0x100, after % 0x100;
    var check := ihl + 16;
    var sum := CsumReplace2(ReadU16(pkt[..], check), before, after);
    pkt[check], pkt[check + 1] := sum / 0x100, sum % 0x100;
    return Rewritten;
  }

  function Octets(ip: IpAddr): seq<u8> { if ip.V4? then ip.v4 else ip.v6 }

  /** The TCP checksum of a whole packet, as its receiver computes it. */
  predicate TcpVerifies(src: seq<u8>, dst: seq<u8>, segment: seq<u8>) {
    Verifies(PseudoSum(src, dst, TCP, |segment|) + WordSum(segment))
  }

  /** The segment after the edit: its port at `at` and its checksum replaced together. */
  function EditedSegment(seg: seq<u8>, at: nat, before: u16, after: u16): seq<u8>
    requires at + 2 <= |seg| && 18 <= |seg|
  {
    PutU16(PutU16(seg, at, after), 16, Replaced(ReadU16(seg, 16), before, after))
  }

  lemma EditIsLocal(pkt: seq<u8>, info: PacketInfo, e: Edit)
    requires info.transportOffset + 18 <= |pkt|
    requires e.at == info.transportOffset || e.at == info.transportOffset + 2
    ensures var t, out := info.transportOffset, Edited(pkt, info, e);
            && out[t..] == EditedSegment(pkt[t..], e.at - t, e.before, e.after)
            && |out| == |pkt| && ReadU16(out, e.at) == e.after
            && (forall i :: 0 <= i < |pkt| && !(e.at <= i < e.at + 2) && !(t + 16 <= i < t + 18) ==> out[i] == pkt[i])
  {
  }

  lemma TwoWordsPut(seg: seq<u8>, at: nat, n: u16, check: u16)
    requires |seg| >= 18 && (at == 0 || at == 2)
    ensures WordSum(PutU16(PutU16(seg, at, n), 16, check))
            == WordSum(seg) - ReadU16(seg, at) - ReadU16(seg, 16) + n + check
  {
    WordSumPut(seg, at, n);
    WordSumPut(PutU16(seg, at, n), 16, check);
  }

  lemma WordsAreInside(seg: seq<u8>, at: nat)
    requires |seg| >= 18 && (at == 0 || at == 2)
    ensures ReadU16(seg, at) as int + ReadU16(seg, 16) as int <= WordSum(seg)
  {
    TwoWordsPut(seg, at, 0, 0);
  }

  /** A word of the segment and its checksum changed together: what verified before verifies after. */
  lemma SegmentStillVerifies(pseudo: nat, seg: seq<u8>, at: nat, after: u16)
    requires pseudo > 0 && |seg| >= 18 && (at == 0 || at == 2)
    requires Verifies(pseudo + WordSum(seg))
    ensures Verifies(pseudo + WordSum(EditedSegment(seg, at, ReadU16(seg, at), after)))
  {
    var before, check := ReadU16(seg, at), ReadU16(seg, 16);
    WordsAreInside(seg, at);
    TwoWordsPut(seg, at, after, Replaced(check, before, after));
    SumStillVerifies(pseudo + WordSum(seg), pseudo + WordSum(EditedSegment(seg, at, before, after)),
                     check, before, after);
  }

  lemma SumStillVerifies(sum: nat, edited: nat, check: u16, before: u16, after: u16)
    requires sum > before as int + check && edited == sum - before - check + after + Replaced(check, before, after)
    requires Verifies(sum)
    ensures Verifies(edited)
  {
    ReplacedVerifies(sum - before - check, check, before, after);
  }

  /**
   * The NAT keeps a verifying packet verifying, changes only the port and checksum bytes, and
   * delivers it to the other port: the fast update refines recomputing the whole checksum.
   */
  lemma RewriteKeepsChecksum(pkt: seq<u8>, ssh: Option<Config>, info: PacketInfo, inbound: bool)
    requires Parse(pkt) == Some(info) && EditFor(ssh, info, inbound).Some?
    requires info.transportOffset + 18 <= |pkt|
    requires TcpVerifies(Octets(info.src), Octets(info.dst), pkt[info.transportOffset..])
    ensures var t, edit := info.transportOffset, EditFor(ssh, info, inbound).value;
            var out := Edited(pkt, info, edit);
            && TcpVerifies(Octets(info.src), Octets(info.dst), out[t..])
            && |out| == |pkt|
            && (forall i :: 0 <= i < |pkt| && !(edit.at <= i < edit.at + 2) && !(t + 16 <= i < t + 18) ==>
                  out[i] == pkt[i])
            && ReadU16(pkt, edit.at) == edit.before && ReadU16(out, edit.at) == edit.after
  {
    ParsedPorts(pkt, info);
    EditKeepsChecksum(pkt, info, EditFor(ssh, info, inbound).value);
  }

  lemma EditKeepsChecksum(pkt: seq<u8>, info: PacketInfo, edit: Edit)
    requires info.transportOffset + 18 <= |pkt|
    requires edit.at == info.transportOffset || edit.at == info.transportOffset + 2
    requires TcpVerifies(Octets(info.src), Octets(info.dst), pkt[info.transportOffset..])
    requires ReadU16(pkt, edit.at) == edit.before
    ensures var t, out := info.transportOffset, Edited(pkt, info, edit);
            && TcpVerifies(Octets(info.src), Octets(info.dst), out[t..])
            && |out| == |pkt| && ReadU16(out, edit.at) == edit.after
            && (forall i :: 0 <= i < |pkt| && !(edit.at <= i < edit.at + 2) && !(t + 16 <= i < t + 18) ==>
                  out[i] == pkt[i])
  {
    var t := info.transportOffset;
    EditIsLocal(pkt, info, edit);
    TcpStillVerifies(Octets(info.src), Octets(info.dst), pkt[t..], edit.at - t, edit.before, edit.after);
  }

  lemma TcpStillVerifies(src: seq<u8>, dst: seq<u8>, seg: seq<u8>, at: nat, before: u16, after: u16)
    requires |seg| >= 18 && (at == 0 || at == 2) && before == ReadU16(seg, at) && TcpVerifies(src, dst, seg)
    ensures TcpVerifies(src, dst, EditedSegment(seg, at, before, after))
  {
    SegmentStillVerifies(PseudoSum(src, dst, TCP, |seg|), seg, at, after);
  }

  lemma ParsedPorts(pkt: seq<u8>, info: PacketInfo)
    requires Parse(pkt) == Some(info) && info.protocol == TCP && info.transportOffset + 18 <= |pkt|
    ensures ReadU16(pkt, info.transportOffset) == info.srcPort
    ensures ReadU16(pkt, info.transportOffset + 2) == info.dstPort
  {
  }

  /** The parser sees the translated packet as the same one, to or from the other port. */
  lemma RewrittenParses(pkt: seq<u8>, c: Config, info: PacketInfo, inbound: bool)
    requires Parse(pkt) == Some(info) && EditFor(Some(c), info, inbound).Some? && info.transportOffset + 18 <= |pkt|
    ensures var out := Edited(pkt, info, EditFor(Some(c), info, inbound).value);
            Parse(out) == Some(if inbound then info.(dstPort := c.listenPort) else info.(srcPort := c.meshPort))
  {
    var edit := EditFor(Some(c), info, inbound).value;
    var out := Edited(pkt, info, edit);
    EditIsLocal(pkt, info, edit);
    BothVersions(pkt, info);
    PacketLaws.SameHeaders(pkt, out, info);
    OtherFieldsStay(pkt, out, info, edit.at, edit.after);
  }

  lemma BothVersions(pkt: seq<u8>, info: PacketInfo)
    requires Parse(pkt) == Some(info)
    ensures info.src.V6? <==> info.dst.V6?
    ensures info == InfoAt(pkt, info.protocol, info.transportOffset, info.src, info.dst)
  {
  }

  lemma OtherFieldsStay(pkt: seq<u8>, out: seq<u8>, info: PacketInfo, at: nat, after: u16)
    requires info == InfoAt(pkt, TCP, info.transportOffset, info.src, info.dst)
    requires |out| == |pkt| && info.transportOffset + 18 <= |pkt|
    requires at == info.transportOffset || at == info.transportOffset + 2
    requires ReadU16(out, at) == after
    requires forall i :: info.transportOffset <= i < info.transportOffset + 16 && !(at <= i < at + 2) ==>
                           out[i] == pkt[i]
    ensures InfoAt(out, TCP, info.transportOffset, info.src, info.dst)
            == if at == info.transportOffset then info.(srcPort := after) else info.(dstPort := after)
  {
    var t := info.transportOffset;
    assert out[t + 13] == pkt[t + 13];
  }

  /**
   * What the listener answers to a translated packet leaves translated back: the peer sees it come from the mesh port
   * it called. Nothing else addressed to this node, and no other protocol, is touched.
   */
  lemma AnswerComesFromMeshPort(c: Config, info: PacketInfo, answer: PacketInfo)
    requires EditFor(Some(c), info, true).Some?
    requires answer.protocol == 6 && answer.src == info.dst
    requires answer.srcPort == EditFor(Some(c), info, true).value.after
    ensures EditFor(Some(c), answer, false).Some? && EditFor(Some(c), answer, false).value.after == info.dstPort
    ensures info.protocol == 6 && info.dst == V6(c.v6) && info.dstPort == c.meshPort
  {
  }

  lemma OtherTrafficIsUntouched(ssh: Option<Config>, info: PacketInfo, inbound: bool)
    ensures EditFor(ssh, info, inbound) == None
            <==> || ssh == None || info.protocol != 6
                 || (inbound && !(info.dst == V6(ssh.value.v6) && info.dstPort == ssh.value.meshPort))
                 || (!inbound && !(info.src == V6(ssh.value.v6) && info.srcPort == ssh.value.listenPort))
  {
  }
}
