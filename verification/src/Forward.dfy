/** Admission of datagrams that arrive from a mesh peer (`evaluate_inbound` in src/forward.rs). */
module Forward {
  import opened Wrappers
  import opened Packet
  import Firewall
  import Runs = FirewallRuns
  import Frags = FragmentVerdicts
  import ReturnTraffic

  const MAX_PACKET: nat := 1500
  const WIRE_CLIENT: IpAddr := V4([192, 0, 0, 2])
  const LOCAL_CLIENT: IpAddr := V4([10, 64, 0, 2])

  type EndpointId = Firewall.EndpointId

  /** Who may route out through this node on one network. */
  datatype Allow = Allow(any: bool, users: set<EndpointId>)

  /** The exit peer this node routes its own internet traffic through. */
  datatype Selection = Selection(peerUser: EndpointId, ipv6: Ipv6Addr, carriesV4: bool)

  datatype ExitContext = ExitContext(
    myV6: Ipv6Addr, selection: Option<Selection>, nets: map<string, Allow>,
    selfAddrs: set<IpAddr>, onLink: IpAddr -> bool)

  datatype Peer = Peer(identity: EndpointId, ipv6: Ipv6Addr, network: string, shared: set<string>)

  datatype Decision =
    | Accept(info: PacketInfo)
    | DropFirewall(info: PacketInfo)
    | DropMalformed | DropFragment | DropSpoof | DropExit

  predicate ExitAllows(exit: ExitContext, peer: Peer) {
    peer.network in exit.nets
    && (exit.nets[peer.network].any || peer.identity in exit.nets[peer.network].users)
  }

  predicate TransitPermitted(exit: ExitContext, peer: Peer, dst: IpAddr) {
    ExitAllows(exit, peer) && IsTransitable(dst) && !exit.onLink(dst) && dst !in exit.selfAddrs
  }

  /** The source is the sender's own mesh address, or an IPv4 exit client bound for the internet. */
  predicate SourceOk(info: PacketInfo, peer: Peer) {
    info.src == V6(peer.ipv6) || (info.src == WIRE_CLIENT && IsTransitable(info.dst))
  }

  /** A reply to our own internet traffic, from the exit peer we selected. */
  predicate ExitReturn(info: PacketInfo, exit: ExitContext, peer: Peer) {
    && exit.selection.Some?
    && (exit.selection.value.peerUser == peer.identity || exit.selection.value.ipv6 == peer.ipv6)
    && IsTransitable(info.src)
    && (info.dst == V6(exit.myV6) || (info.dst == WIRE_CLIENT && exit.selection.value.carriesV4))
  }

  /** An IPv4 exit return as our TUN sees it, which is how our outbound flow was tracked. */
  function DeliveredInfo(info: PacketInfo): PacketInfo {
    if info.dst == WIRE_CLIENT then info.(dst := LOCAL_CLIENT) else info
  }

  /** What is left to decide once the addresses are checked; none of it depends on the firewall's state. */
  datatype Route =
    | Settled(decision: Decision)
    | Later(info: PacketInfo, later: FragmentKey)
    | Judge(info: PacketInfo, event: Runs.Event, first: Option<FragmentKey>)

  function RouteInfo(info: PacketInfo, fragment: Option<Ipv6Fragment>, exit: ExitContext, peer: Peer,
                     sshPort: u16): Route {
    var returning := !SourceOk(info, peer);
    if returning && !ExitReturn(info, exit, peer) then Settled(DropSpoof)
    else if !returning && !IsOverlay(info.dst) then
      Settled(if TransitPermitted(exit, peer, info.dst) then Accept(info) else DropExit)
    else if fragment.Some? && !fragment.value.first then Later(info, fragment.value.key)
    else if fragment.Some? && info.protocol == TCP && info.dstPort == sshPort then Settled(DropFragment)
    else Judge(info, Question(info, returning, peer), if fragment.Some? then Some(fragment.value.key) else None)
  }

  function Classify(packet: seq<u8>, exit: ExitContext, peer: Peer, sshPort: u16): Route {
    if |packet| > MAX_PACKET then Settled(DropMalformed)
    else if Parse(packet).Some? then RouteInfo(Parse(packet).value, None, exit, peer, sshPort)
    else match ParseFragment(packet)
      case Some(f) => RouteInfo(f.info, Some(f), exit, peer, sshPort)
      case None => Settled(DropMalformed)
  }

  function Decide(route: Route, s: Runs.State, table: Frags.Table): Decision {
    match route
    case Settled(d) => d
    case Later(info, key) => if Frags.Holds(Frags.Expire(table, s.now), key) then Accept(info) else DropFragment
    case Judge(info, e, _) => if Runs.Answer(s, e) == Some(Firewall.Allow) then Accept(info) else DropFirewall(info)
  }

  function TableAfter(route: Route, s: Runs.State, table: Frags.Table): Frags.Table {
    match route
    case Settled(_) => table
    case Later(_, _) => Frags.Expire(table, s.now)
    case Judge(_, e, first) =>
      if first.Some? && Runs.Answer(s, e) == Some(Firewall.Allow)
      then Frags.AllowKey(table, first.value, s.now)
      else table
  }

  /** The firewall step a datagram takes; a datagram the firewall never sees takes none. */
  function FirewallEvent(route: Route): Runs.Event { if route.Judge? then route.event else Runs.Tick(0) }

  /** `evaluate_inbound`. */
  method EvaluateInbound(packet: seq<u8>, firewall: Firewall.SharedFirewall, exit: ExitContext, peer: Peer,
                         fragments: Frags.Verdicts, sshPort: u16, now: nat) returns (d: Decision)
    requires fragments.Valid()
    modifies firewall`conntrack, fragments
    ensures fragments.Valid()
    ensures var route := Classify(packet, exit, peer, sshPort);
            var s := Runs.State(firewall.config, old(firewall.conntrack), now);
            && d == Decide(route, s, old(fragments.order))
            && fragments.order == TableAfter(route, s, old(fragments.order))
            && firewall.conntrack == Runs.Step(s, FirewallEvent(route)).flows
  {
    if |packet| > MAX_PACKET { return DropMalformed; }
    var whole := Parse(packet);
    if whole.Some? {
      d := EvaluateInfo(whole.value, None, firewall, exit, peer, fragments, sshPort, now);
    } else {
      var fragment := ParseFragment(packet);
      if fragment.None? { return DropMalformed; }
      d := EvaluateInfo(fragment.value.info, fragment, firewall, exit, peer, fragments, sshPort, now);
    }
  }

  method EvaluateInfo(info: PacketInfo, fragment: Option<Ipv6Fragment>, firewall: Firewall.SharedFirewall,
                      exit: ExitContext, peer: Peer, fragments: Frags.Verdicts, sshPort: u16, now: nat)
      returns (d: Decision)
    requires fragments.Valid()
    modifies firewall`conntrack, fragments
    ensures fragments.Valid()
    ensures var route := RouteInfo(info, fragment, exit, peer, sshPort);
            var s := Runs.State(firewall.config, old(firewall.conntrack), now);
            && d == Decide(route, s, old(fragments.order))
            && fragments.order == TableAfter(route, s, old(fragments.order))
            && firewall.conntrack == Runs.Step(s, FirewallEvent(route)).flows
  {
    var returning := false;
    if !SourceOk(info, peer) {
      returning := ExitReturn(info, exit, peer);
      if !returning { return DropSpoof; }
    }
    if !returning && !IsOverlay(info.dst) {
      return if TransitPermitted(exit, peer, info.dst) then Accept(info) else DropExit;
    }
    if fragment.Some? && !fragment.value.first {
      var follows := fragments.Admits(fragment.value.key, now);
      return if follows then Accept(info) else DropFragment;
    }
    if fragment.Some? && info.protocol == TCP && info.dstPort == sshPort { return DropFragment; }
    var admitted := Ask(info, returning, firewall, peer, now);
    if !admitted { return DropFirewall(info); }
    if fragment.Some? { fragments.Allow(fragment.value.key, now); }
    return Accept(info);
  }

  /**
   * How the firewall is asked about this packet: conntrack alone for an exit return, the whole evaluation otherwise.
   */
  function Question(info: PacketInfo, returning: bool, peer: Peer): Runs.Event {
    if returning then Runs.ExitReply(DeliveredInfo(info))
    else Runs.Packet(Firewall.Query(Firewall.In, info, peer.identity, peer.shared))
  }

  method Ask(info: PacketInfo, returning: bool, firewall: Firewall.SharedFirewall, peer: Peer, now: nat)
      returns (admitted: bool)
    modifies firewall`conntrack
    ensures var s, e := Runs.State(firewall.config, old(firewall.conntrack), now), Question(info, returning, peer);
            && admitted == (Runs.Answer(s, e) == Some(Firewall.Allow))
            && firewall.conntrack == Runs.Step(s, e).flows
  {
    if returning {
      admitted := firewall.AdmitsReply(DeliveredInfo(info), now);
    } else {
      var action := firewall.EvaluatePacket(Firewall.Query(Firewall.In, info, peer.identity, peer.shared), now);
      admitted := action.Allow?;
    }
  }

  // ---- One datagram ----

  /**
   * A whole packet gets in exactly as mesh traffic the firewall allows, permitted exit transit, or a tracked exit
   * return.
   */
  lemma AdmissionSafety(packet: seq<u8>, info: PacketInfo, s: Runs.State, table: Frags.Table,
                        exit: ExitContext, peer: Peer, sshPort: u16)
    requires Parse(packet) == Some(info) && |packet| <= MAX_PACKET && !s.config.disabled
    ensures Decide(Classify(packet, exit, peer, sshPort), s, table) == Accept(info) <==>
              || (&& info.src == V6(peer.ipv6) && IsOverlay(info.dst)
                  && Firewall.Evaluate(s.config, s.flows,
                                       Firewall.Query(Firewall.In, info, peer.identity, peer.shared), s.now)
                       .action == Firewall.Allow)
              || ((info.src == V6(peer.ipv6) || info.src == WIRE_CLIENT) && TransitPermitted(exit, peer, info.dst))
              || (&& !SourceOk(info, peer) && ExitReturn(info, exit, peer)
                  && Firewall.Track(s.flows, Firewall.In, DeliveredInfo(info), s.now).admitted)
  {
  }

  /** Whatever the state, an accepted packet or fragment with a mesh source address carries its sender's own. */
  lemma NoImpersonation(packet: seq<u8>, s: Runs.State, table: Frags.Table, exit: ExitContext, peer: Peer, sshPort: u16)
    requires Decide(Classify(packet, exit, peer, sshPort), s, table).Accept?
    ensures var info := Decide(Classify(packet, exit, peer, sshPort), s, table).info;
            && (IsOverlay(info.src) ==> info.src == V6(peer.ipv6))
            && (!IsOverlay(info.src) && info.src != V6(peer.ipv6) ==>
                  info.src == WIRE_CLIENT || ExitReturn(info, exit, peer))
  {
  }

  /**
   * A fragment gets in by the same address checks. Out to the internet as permitted transit; otherwise the first if it
   * is not for the SSH port and passes as a whole packet would, and a later one exactly if its first is in the table.
   */
  lemma FragmentAdmission(packet: seq<u8>, f: Ipv6Fragment, s: Runs.State, table: Frags.Table,
                          exit: ExitContext, peer: Peer, sshPort: u16)
    requires Parse(packet) == None && ParseFragment(packet) == Some(f) && |packet| <= 1500 && !s.config.disabled
    ensures var info, mesh := f.info, f.info.src == V6(peer.ipv6);
            var returning := !mesh && ExitReturn(info, exit, peer);
            Decide(Classify(packet, exit, peer, sshPort), s, table) == Accept(info) <==>
              || (mesh && !IsOverlay(info.dst) && TransitPermitted(exit, peer, info.dst))
              || (&& ((mesh && IsOverlay(info.dst)) || returning)
                  && if !f.first then Frags.Holds(Frags.Expire(table, s.now), f.key)
                     else
                       && !(info.protocol == 6 && info.dstPort == sshPort)
                       && if returning then Firewall.Track(s.flows, Firewall.In, DeliveredInfo(info), s.now).admitted
                          else
                            var q := Firewall.Query(Firewall.In, info, peer.identity, peer.shared);
                            Firewall.Evaluate(s.config, s.flows, q, s.now).action == Firewall.Allow)
  {
    FragmentsAreV6(packet, f);
  }

  lemma FragmentsAreV6(packet: seq<u8>, f: Ipv6Fragment)
    requires ParseFragment(packet) == Some(f)
    ensures f.info.src.V6? && f.info.dst.V6?
  {
  }

  /**
   * IPv4 exit traffic comes back: an allowed packet from 10.64.0.2 opens the way for the answer that the selected exit
   * sends to 192.0.0.2, for 300 seconds (TCP) or 30 seconds (anything else), and the tracker alone decides.
   */
  lemma ExitReturnComesBack(s: Runs.State, out: Firewall.Query, later: nat, packet: seq<u8>, info: PacketInfo,
                            exit: ExitContext, peer: Peer, table: Frags.Table, sshPort: u16)
    requires !s.config.disabled && out.direction.Out? && out.info.src == V4([10, 64, 0, 2])
    requires ReturnTraffic.Opener(out.info) && ReturnTraffic.IsQuiet(s.flows, ReturnTraffic.Connection(out.info))
    requires Runs.Answer(s, Runs.Packet(out)) == Some(Firewall.Allow) && s.now <= later
    requires Parse(packet) == Some(info) && |packet| <= 1500 && info.dst == V4([192, 0, 0, 2])
    requires ReturnTraffic.Reverses(info.(dst := V4([10, 64, 0, 2])), out.info) && IsTransitable(info.src)
    requires exit.selection.Some? && exit.selection.value.carriesV4
    requires exit.selection.value.peerUser == peer.identity || exit.selection.value.ipv6 == peer.ipv6
    ensures var live := Runs.Step(s, Runs.Packet(out)).(now := later);
            Decide(Classify(packet, exit, peer, sshPort), live, table) == Accept(info)
            <==> later < s.now + ReturnTraffic.Window(out.info.protocol)
  {
    ReturnTraffic.OpenerOpens(s.config, s.flows, out, s.now);
    var flows := Runs.Step(s, Runs.Packet(out)).flows;
    var delivered := info.(dst := V4([10, 64, 0, 2]));
    assert DeliveredInfo(info) == delivered;
    ReturnTraffic.TrackedReply(flows, delivered, out.info, s.now, later);
  }

  /** IPv6 exit traffic comes back to this node's own mesh address in the same way. */
  lemma ExitReturnComesBackV6(s: Runs.State, out: Firewall.Query, later: nat, packet: seq<u8>, info: PacketInfo,
                              exit: ExitContext, peer: Peer, table: Frags.Table, sshPort: u16)
    requires !s.config.disabled && out.direction.Out? && out.info.src == V6(exit.myV6)
    requires ReturnTraffic.Opener(out.info) && ReturnTraffic.IsQuiet(s.flows, ReturnTraffic.Connection(out.info))
    requires Runs.Answer(s, Runs.Packet(out)) == Some(Firewall.Allow) && s.now <= later
    requires Parse(packet) == Some(info) && |packet| <= 1500 && ReturnTraffic.Reverses(info, out.info)
    requires IsTransitable(info.src) && info.src != V6(peer.ipv6) && exit.selection.Some?
    requires exit.selection.value.peerUser == peer.identity || exit.selection.value.ipv6 == peer.ipv6
    ensures var live := Runs.Step(s, Runs.Packet(out)).(now := later);
            Decide(Classify(packet, exit, peer, sshPort), live, table) == Accept(info)
            <==> later < s.now + ReturnTraffic.Window(out.info.protocol)
  {
    ReturnTraffic.OpenerOpens(s.config, s.flows, out, s.now);
    ReturnTraffic.TrackedReply(Runs.Step(s, Runs.Packet(out)).flows, info, out.info, s.now, later);
  }

  /** A stranger's address is let in only from the exit this node selected, and only to this node's exit addresses. */
  lemma StrangersComeThroughTheExit(packet: seq<u8>, s: Runs.State, table: Frags.Table,
                                    exit: ExitContext, peer: Peer, sshPort: u16)
    requires Decide(Classify(packet, exit, peer, sshPort), s, table).Accept?
    ensures var info := Decide(Classify(packet, exit, peer, sshPort), s, table).info;
            info.src != V6(peer.ipv6) && info.src != V4([192, 0, 0, 2]) ==>
              && exit.selection.Some?
              && (exit.selection.value.peerUser == peer.identity || exit.selection.value.ipv6 == peer.ipv6)
              && (info.dst == V6(exit.myV6) || info.dst == V4([192, 0, 0, 2]))
  {
  }

  /** Traffic out to the internet is let in exactly if this node offers the sender an exit there. */
  lemma TransitIff(packet: seq<u8>, info: PacketInfo, s: Runs.State, table: Frags.Table,
                   exit: ExitContext, peer: Peer, sshPort: u16)
    requires Parse(packet) == Some(info) && |packet| <= 1500 && info.src == V6(peer.ipv6) && !IsOverlay(info.dst)
    ensures Decide(Classify(packet, exit, peer, sshPort), s, table) == Accept(info) <==>
              && (exists net :: net in exit.nets && net == peer.network
                                && (exit.nets[net].any || peer.identity in exit.nets[net].users))
              && IsTransitable(info.dst) && !exit.onLink(info.dst) && info.dst !in exit.selfAddrs
  {
  }

  // ---- Runs ----

  /** The reader of one connection of a peer, whose mesh address it derives once. */
  datatype Reader = Reader(connection: nat, ipv6: Ipv6Addr)

  /** A datagram some reader took in, or a step of this node's own firewall. */
  datatype Event =
    | Inbound(reader: Reader, identity: EndpointId, network: string, shared: set<string>,
              packet: seq<u8>, exit: ExitContext, sshPort: u16)
    | Local(event: Runs.Event)

  /** Every reader keeps its own table, empty when it starts. */
  datatype Node = Node(firewall: Runs.State, tables: map<Reader, Frags.Table>)

  function TableOf(n: Node, r: Reader): Frags.Table { if r in n.tables then n.tables[r] else [] }

  function RouteOf(e: Event): Route
    requires e.Inbound?
  {
    Classify(e.packet, e.exit, Peer(e.identity, e.reader.ipv6, e.network, e.shared), e.sshPort)
  }

  function AsFirewallEvent(e: Event): Runs.Event {
    if e.Local? then e.event else FirewallEvent(RouteOf(e))
  }

  function Step(n: Node, e: Event): Node {
    Node(Runs.Step(n.firewall, AsFirewallEvent(e)),
         if e.Inbound? then n.tables[e.reader := TableAfter(RouteOf(e), n.firewall, TableOf(n, e.reader))]
         else n.tables)
  }

  /** What the node does with the datagram of `e`. */
  function DecisionOf(n: Node, e: Event): Decision
    requires e.Inbound?
  {
    Decide(RouteOf(e), n.firewall, TableOf(n, e.reader))
  }

  function After(n: Node, es: seq<Event>, k: nat): Node
    requires k <= |es|
  {
    if k == 0 then n else Step(After(n, es, k - 1), es[k - 1])
  }

  function AsFirewallRun(es: seq<Event>): (r: seq<Runs.Event>)
    ensures |r| == |es| && forall i :: 0 <= i < |es| ==> r[i] == AsFirewallEvent(es[i])
  {
    seq(|es|, i requires 0 <= i < |es| => AsFirewallEvent(es[i]))
  }

  /** A node's run is a firewall run, so every guarantee about those holds here. */
  lemma {:induction false} NodeRunsFirewall(n: Node, es: seq<Event>, k: nat)
    requires k <= |es|
    ensures After(n, es, k).firewall == Runs.After(n.firewall, AsFirewallRun(es), k)
  {
    if k > 0 { NodeRunsFirewall(n, es, k - 1); }
  }

  /**
   * An exit return that is let in belongs to a flow one of this node's own outbound packets opened earlier in the run.
   */
  lemma ExitReturnWasOpened(n: Node, es: seq<Event>, k: nat) returns (ev: Runs.Evidence)
    requires n.firewall.flows == map[] && k < |es| && es[k].Inbound? && !After(n, es, k).firewall.config.disabled
    requires RouteOf(es[k]).Judge? && RouteOf(es[k]).event.ExitReply?
    requires DecisionOf(After(n, es, k), es[k]).Accept?
    ensures var f := Firewall.FlowOf(Firewall.In, DeliveredInfo(RouteOf(es[k]).info));
            && f in After(n, es, k).firewall.flows
            && var state := After(n, es, k).firewall.flows[f];
            && Runs.Explains(Runs.History(n.firewall, AsFirewallRun(es), k, f), state, ev)
            && ev.openedAt < k && es[ev.openedAt].Local? && es[ev.openedAt].event.Packet?
            && es[ev.openedAt].event.query.direction.Out?
            && Firewall.FlowOf(Firewall.Out, es[ev.openedAt].event.query.info) == f
            && After(n, es, k).firewall.now < state.seen + Firewall.Timeout(state, f.proto)
  {
    var run := AsFirewallRun(es);
    NodeRunsFirewall(n, es, k);
    ev := Runs.ConntrackProvenance(n.firewall, run, k);
    OnlyLocalIsOutbound(es[ev.openedAt]);
  }

  lemma OnlyLocalIsOutbound(e: Event)
    requires AsFirewallEvent(e).Packet? && AsFirewallEvent(e).query.direction.Out?
    ensures e.Local?
  {
  }

  /** The first fragment of `key` was let in by this reader at step `j`. */
  predicate FirstAccepted(n: Node, es: seq<Event>, j: nat, r: Reader, key: FragmentKey) {
    && j < |es| && es[j].Inbound? && es[j].reader == r
    && RouteOf(es[j]).Judge? && RouteOf(es[j]).first == Some(key) && DecisionOf(After(n, es, j), es[j]).Accept?
  }

  /** The entry goes back to a first fragment this reader let in, exactly `TTL` before its deadline. */
  predicate Earned(n: Node, es: seq<Event>, k: nat, r: Reader, entry: Frags.Entry)
    requires k <= |es|
  {
    exists j :: 0 <= j < k && FirstAccepted(n, es, j, r, entry.key)
                && entry.deadline == After(n, es, j).firewall.now + Frags.TTL
  }

  /**
   * The table a datagram leaves its reader: ordered still, and with no entry but those it had and the one it earned.
   */
  lemma DatagramTable(route: Route, s: Runs.State, table: Frags.Table, entry: Frags.Entry)
    requires Frags.Ordered(table, s.now)
    ensures Frags.Ordered(TableAfter(route, s, table), s.now)
    ensures entry in TableAfter(route, s, table) ==>
              || entry in table
              || (&& route.Judge? && route.first == Some(entry.key) && Decide(route, s, table).Accept?
                  && entry.deadline == s.now + Frags.TTL)
  {
    Frags.ExpireOrdered(table, s.now, s.now);
    var key := if route.Judge? && route.first.Some? then route.first.value else entry.key;
    Frags.AllowOrdered(table, key, s.now, s.now);
    Frags.TableEntries(table, key, s.now, entry);
  }

  lemma StepTable(n: Node, e: Event, r: Reader, entry: Frags.Entry)
    requires Frags.Ordered(TableOf(n, r), n.firewall.now)
    ensures Frags.Ordered(TableOf(Step(n, e), r), Step(n, e).firewall.now)
    ensures entry in TableOf(Step(n, e), r) ==>
              || entry in TableOf(n, r)
              || (&& e.Inbound? && e.reader == r && RouteOf(e).Judge? && RouteOf(e).first == Some(entry.key)
                  && DecisionOf(n, e).Accept? && entry.deadline == n.firewall.now + Frags.TTL)
  {
    if e.Inbound? && e.reader == r { DatagramTable(RouteOf(e), n.firewall, TableOf(n, r), entry); }
    var table := TableOf(Step(n, e), r);
    assert table[0..] == table;
    Frags.SuffixOrdered(table, 0, n.firewall.now, Step(n, e).firewall.now);
  }

  /**
   * In every run, every reader's table is ordered and bounded, and each entry goes back to a first fragment it let in.
   */
  lemma {:induction false} TableIsEarned(n: Node, es: seq<Event>, k: nat, r: Reader, entry: Frags.Entry)
    requires n.tables == map[] && k <= |es|
    ensures Frags.Ordered(TableOf(After(n, es, k), r), After(n, es, k).firewall.now)
    ensures entry in TableOf(After(n, es, k), r) ==> Earned(n, es, k, r, entry)
  {
    if k > 0 {
      var before := After(n, es, k - 1);
      TableIsEarned(n, es, k - 1, r, entry);
      StepTable(before, es[k - 1], r, entry);
      assert After(n, es, k) == Step(before, es[k - 1]);
      if entry in TableOf(After(n, es, k), r) && entry !in TableOf(before, r) {
        assert FirstAccepted(n, es, k - 1, r, entry.key);
      }
    }
  }

  /**
   * A later fragment is let in only after its own first fragment was, less than ten seconds before, by the same reader:
   * from the same peer, on the same connection.
   */
  lemma LaterFollowsFirst(n: Node, es: seq<Event>, k: nat) returns (j: nat)
    requires n.tables == map[] && k < |es| && es[k].Inbound? && RouteOf(es[k]).Later?
    requires DecisionOf(After(n, es, k), es[k]).Accept?
    ensures j < k && FirstAccepted(n, es, j, es[k].reader, RouteOf(es[k]).later)
    ensures After(n, es, k).firewall.now < After(n, es, j).firewall.now + Frags.TTL
  {
    var r, key := es[k].reader, RouteOf(es[k]).later;
    var now, table := After(n, es, k).firewall.now, TableOf(After(n, es, k), r);
    TableIsEarned(n, es, k, r, Frags.Entry(key, 0));
    Frags.ExpireOrdered(table, now, now);
    var live := Frags.Expire(table, now);
    var i :| 0 <= i < |live| && live[i].key == key;
    var entry := live[i];
    Frags.TableEntries(table, key, now, entry);
    TableIsEarned(n, es, k, r, entry);
    j :| 0 <= j < k && FirstAccepted(n, es, j, r, entry.key)
         && entry.deadline == After(n, es, j).firewall.now + Frags.TTL;
  }

  /** Nobody but its reader changes a reader's table. */
  lemma {:induction false} TableIsOwn(n: Node, es: seq<Event>, j: nat, k: nat, r: Reader)
    requires j <= k <= |es| && forall i :: j <= i < k ==> es[i].Inbound? ==> es[i].reader != r
    ensures TableOf(After(n, es, k), r) == TableOf(After(n, es, j), r)
    decreases k
  {
    if k > j { TableIsOwn(n, es, j, k - 1, r); }
  }

  lemma FirstIsEntered(n: Node, es: seq<Event>, j: nat, r: Reader, key: FragmentKey)
    requires FirstAccepted(n, es, j, r, key)
    ensures TableOf(After(n, es, j + 1), r)
            == Frags.AllowKey(TableOf(After(n, es, j), r), key, After(n, es, j).firewall.now)
  {
    assert After(n, es, j + 1) == Step(After(n, es, j), es[j]);
  }

  lemma ClockGoesOn(n: Node, es: seq<Event>, j: nat, k: nat)
    requires j <= k <= |es|
    ensures After(n, es, j).firewall.now <= After(n, es, k).firewall.now
  {
    NodeRunsFirewall(n, es, j);
    NodeRunsFirewall(n, es, k);
    Runs.TimeNeverDecreases(n.firewall, AsFirewallRun(es), j, k);
  }

  lemma LaterDecided(m: Node, e: Event)
    requires e.Inbound? && RouteOf(e).Later?
    ensures DecisionOf(m, e).Accept?
            <==> Frags.Holds(Frags.Expire(TableOf(m, e.reader), m.firewall.now), RouteOf(e).later)
  {
  }

  lemma TableAfterFirst(n: Node, es: seq<Event>, j: nat, k: nat, r: Reader, key: FragmentKey)
    requires n.tables == map[] && j < k <= |es| && FirstAccepted(n, es, j, r, key)
    requires !Frags.Holds(Frags.Expire(TableOf(After(n, es, j), r), After(n, es, j).firewall.now), key)
    requires forall i :: j < i < k && es[i].Inbound? ==> es[i].reader != r
    ensures var m := After(n, es, k);
            Frags.Holds(Frags.Expire(TableOf(m, r), m.firewall.now), key)
            <==> m.firewall.now < After(n, es, j).firewall.now + 10_000_000_000
  {
    var at := After(n, es, j);
    TableIsEarned(n, es, j, r, Frags.Entry(key, 0));
    FirstIsEntered(n, es, j, r, key);
    TableIsOwn(n, es, j + 1, k, r);
    ClockGoesOn(n, es, j, k);
    Frags.FirstOpensTenSeconds(TableOf(at, r), key, at.firewall.now, at.firewall.now, After(n, es, k).firewall.now);
  }

  /**
   * In every run, once a reader has let in a first fragment it did not know, the later fragment it takes in next is let
   * in exactly for ten seconds, whatever other readers and this node do in between.
   */
  lemma LaterIsLetIn(n: Node, es: seq<Event>, j: nat, k: nat)
    requires n.tables == map[] && j < k < |es| && es[k].Inbound? && RouteOf(es[k]).Later?
    requires FirstAccepted(n, es, j, es[k].reader, RouteOf(es[k]).later)
    requires var at := After(n, es, j);
             !Frags.Holds(Frags.Expire(TableOf(at, es[k].reader), at.firewall.now), RouteOf(es[k]).later)
    requires forall i :: j < i < k && es[i].Inbound? ==> es[i].reader != es[k].reader
    ensures DecisionOf(After(n, es, k), es[k]).Accept?
            <==> After(n, es, k).firewall.now < After(n, es, j).firewall.now + 10_000_000_000
  {
    LaterDecided(After(n, es, k), es[k]);
    TableAfterFirst(n, es, j, k, es[k].reader, RouteOf(es[k]).later);
  }
}
