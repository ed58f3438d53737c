/**
 * The local device firewall (src/firewall.rs): a first-match rule scan, direction defaults, and a
 * connection tracker that only our own outbound traffic opens. The functions are the specification;
 * class SharedFirewall updates the live state in place and is proved against them.
 */
module Firewall {
  import opened Wrappers
  import opened Packet

  datatype Direction = In | Out
  datatype Action = Allow | Deny
  datatype Protocol = AnyProtocol | Tcp | Udp | Icmp

  /** A peer's public key, compared only for equality. */
  datatype EndpointId = EndpointId(key: nat)

  datatype PeerFilter =
    | AnyPeer
    | Identity(id: EndpointId)
    | Except(hostnames: seq<string>, identities: seq<EndpointId>)

  datatype PortRange = PortRange(first: u16, last: u16)
  datatype RuleOrigin = Local | Network(net: string) | Ssh

  datatype FirewallRule = FirewallRule(
    direction: Direction, action: Action, protocol: Protocol, port: Option<PortRange>,
    peer: PeerFilter, network: Option<string>, origin: RuleOrigin)

  datatype FirewallConfig = FirewallConfig(
    defaultInbound: Action, defaultOutbound: Action, reject: bool, disabled: bool, rules: seq<FirewallRule>)

  /** A packet as the firewall is asked about it; `shared` holds the networks shared with `peer`. */
  datatype Query = Query(direction: Direction, info: PacketInfo, peer: EndpointId, shared: set<string>)

  // ---- Rules ----

  predicate ProtocolMatches(filter: Protocol, protocol: u8) {
    match filter
    case AnyProtocol => true
    case Tcp => protocol == TCP
    case Udp => protocol == UDP
    case Icmp => IsIcmp(protocol)
  }

  predicate PeerMatches(filter: PeerFilter, peer: EndpointId) {
    match filter
    case AnyPeer => true
    case Identity(id) => id == peer
    case Except(_, identities) => peer !in identities
  }

  predicate RuleMatches(rule: FirewallRule, q: Query) {
    && rule.direction == q.direction
    && ProtocolMatches(rule.protocol, q.info.protocol)
    && (rule.port.Some? ==> rule.port.value.first <= q.info.dstPort <= rule.port.value.last)
    && PeerMatches(rule.peer, q.peer)
    && (rule.network.Some? ==> rule.network.value in q.shared)
  }

  /** The lowest index at or after `i` whose rule matches. */
  function FirstMatch(rules: seq<FirewallRule>, q: Query, i: nat): (r: Option<nat>)
    requires i <= |rules|
    decreases |rules| - i
    ensures r.None? ==> forall j :: i <= j < |rules| ==> !RuleMatches(rules[j], q)
    ensures r.Some? ==> i <= r.value < |rules| && RuleMatches(rules[r.value], q)
    ensures r.Some? ==> forall j :: i <= j < r.value ==> !RuleMatches(rules[j], q)
  {
    if i == |rules| then None
    else if RuleMatches(rules[i], q) then Some(i)
    else FirstMatch(rules, q, i + 1)
  }

  /** `match_rule`: the scan as the source runs it. */
  method MatchRule(config: FirewallConfig, q: Query) returns (r: Option<nat>)
    ensures r == FirstMatch(config.rules, q, 0)
  {
    var i := 0;
    while i < |config.rules|
      invariant i <= |config.rules|
      invariant FirstMatch(config.rules, q, 0) == FirstMatch(config.rules, q, i)
    {
      if RuleMatches(config.rules[i], q) { return Some(i); }
      i := i + 1;
    }
    return None;
  }

  function DefaultFor(config: FirewallConfig, direction: Direction): Action {
    if direction.Out? then config.defaultOutbound else config.defaultInbound
  }

  // ---- Connection tracking ----

  /** Time is counted in nanoseconds, the resolution of the source's clock. */
  const SECOND: nat := 1_000_000_000
  const TCP_FLOW_TIMEOUT: nat := 300 * SECOND
  const TCP_CLOSING_TIMEOUT: nat := 30 * SECOND
  const UDP_FLOW_TIMEOUT: nat := 30 * SECOND

  /** A connection seen from this host; both directions of one connection have the same flow. */
  datatype Flow = Flow(proto: u8, localIp: IpAddr, localPort: u16, peerIp: IpAddr, peerPort: u16, icmpId: u16)

  function FlowOf(direction: Direction, info: PacketInfo): Flow {
    if direction.Out?
    then Flow(info.protocol, info.src, info.srcPort, info.dst, info.dstPort, info.icmpId)
    else Flow(info.protocol, info.dst, info.dstPort, info.src, info.srcPort, info.icmpId)
  }

  datatype FlowState =
    | Active(seen: nat)
    | HalfClosed(seen: nat, fin: Direction)
    | Closing(seen: nat)

  type Flows = map<Flow, FlowState>

  function Timeout(state: FlowState, protocol: u8): nat {
    if state.Closing? then TCP_CLOSING_TIMEOUT
    else if protocol == TCP then TCP_FLOW_TIMEOUT
    else UDP_FLOW_TIMEOUT
  }

  /** `FlowState::active`; the saturating subtraction counts a record from the future as age 0. */
  predicate Alive(state: FlowState, protocol: u8, now: nat) {
    (if now < state.seen then 0 else now - state.seen) < Timeout(state, protocol)
  }

  predicate IsSynOut(direction: Direction, info: PacketInfo) {
    direction.Out? && info.protocol == TCP && HasFlag(info.tcpFlags, SYN)
  }

  predicate IsFin(info: PacketInfo) { info.protocol == TCP && HasFlag(info.tcpFlags, FIN) }

  predicate IsRst(info: PacketInfo) { info.protocol == TCP && HasFlag(info.tcpFlags, RST) }

  function Record(state: FlowState, direction: Direction, info: PacketInfo, now: nat): FlowState {
    if IsSynOut(direction, info) then Active(now)
    else match state
      case Active(_) => if IsFin(info) then HalfClosed(now, direction) else Active(now)
      case HalfClosed(_, first) =>
        if IsFin(info) && first != direction then Closing(now) else HalfClosed(now, first)
      case Closing(_) => state
  }

  /** Whether conntrack may admit `info` inbound as return traffic: of ICMP, only an echo reply. */
  predicate Eligible(info: PacketInfo) {
    !IsIcmp(info.protocol) || IsEchoReply(info.protocol, info.icmpType)
  }

  /** Whether `track_packet` looks the flow up at all. */
  predicate Trackable(direction: Direction, info: PacketInfo) {
    if direction.In? then Eligible(info)
    else !IsIcmp(info.protocol) || IsEchoRequest(info.protocol, info.icmpType)
  }

  datatype Tracked = Tracked(admitted: bool, flows: Flows)

  /** `track_packet`, on the flow the packet belongs to. */
  function Track(flows: Flows, direction: Direction, info: PacketInfo, now: nat): Tracked {
    var flow := FlowOf(direction, info);
    if !Trackable(direction, info) then Tracked(false, flows)
    else if flow in flows then
      var state := flows[flow];
      var alive := Alive(state, flow.proto, now);
      if IsRst(info) then Tracked(direction.Out? || alive, flows - {flow})
      else if direction.In? && (!alive || (state.Closing? && HasFlag(info.tcpFlags, SYN))) then Tracked(false, flows)
      else if !alive && IsFin(info) then Tracked(false, flows)
      else Tracked(true, flows[flow := Record(state, direction, info, now)])
    else if direction.In? || IsFin(info) || IsRst(info) then Tracked(false, flows)
    else Tracked(true, flows[flow := Active(now)])
  }

  datatype Evaluated = Evaluated(action: Action, flows: Flows)

  /** Whether `evaluate_packet` hands the packet to the tracker. */
  predicate Consults(config: FirewallConfig, q: Query) {
    && !config.disabled
    && match FirstMatch(config.rules, q, 0)
       case Some(i) => config.rules[i].action.Allow?
       case None => if q.direction.Out? then config.defaultOutbound.Allow? else Eligible(q.info)
  }

  /** `evaluate_packet`. */
  function Evaluate(config: FirewallConfig, flows: Flows, q: Query, now: nat): Evaluated {
    var tracked := if Consults(config, q) then Track(flows, q.direction, q.info, now) else Tracked(false, flows);
    if config.disabled then Evaluated(Allow, flows)
    else match FirstMatch(config.rules, q, 0)
      case Some(i) => Evaluated(config.rules[i].action, tracked.flows)
      case None =>
        if q.direction.In? && tracked.admitted then Evaluated(Allow, tracked.flows)
        else Evaluated(DefaultFor(config, q.direction), tracked.flows)
  }

  /** `admits_reply`: conntrack alone decides, and no rule can stand in for it. */
  function Reply(config: FirewallConfig, flows: Flows, info: PacketInfo, now: nat): Tracked {
    if config.disabled then Tracked(true, flows) else Track(flows, In, info, now)
  }

  /** One sweep of the evictor with the clock read at `now`. */
  function Sweep(flows: Flows, now: nat): Flows {
    map f | f in flows && Alive(flows[f], f.proto, now) :: flows[f]
  }

  // ---- explain ----

  datatype DecidedBy = Disabled | Rule(index: nat, rule: FirewallRule) | Default
  datatype Verdict = Verdict(action: Action, decidedBy: DecidedBy, reject: bool, returnTraffic: bool)

  const SSH_PORT: u16 := 22

  predicate RejectsDenied(config: FirewallConfig, info: PacketInfo, sshPort: u16) {
    config.reject || (info.protocol == TCP && (info.dstPort == SSH_PORT || info.dstPort == sshPort))
  }

  /** `explain`: the verdict on a new packet, without touching the tracker. */
  function Explain(config: FirewallConfig, q: Query, sshPort: u16): Verdict {
    if config.disabled then Verdict(Allow, Disabled, false, false)
    else match FirstMatch(config.rules, q, 0)
      case Some(i) =>
        var rule := config.rules[i];
        Verdict(rule.action, Rule(i, rule), RejectsDenied(config, q.info, sshPort) && rule.action.Deny?, false)
      case None =>
        var action := DefaultFor(config, q.direction);
        Verdict(action, Default, RejectsDenied(config, q.info, sshPort) && action.Deny?,
                q.direction.In? && action.Deny? && Eligible(q.info))
  }

  /** `explain` and enforcement disagree exactly when it reports return traffic and the tracker rescues the packet. */
  lemma ExplainAgrees(config: FirewallConfig, flows: Flows, q: Query, now: nat, sshPort: u16)
    ensures var verdict := Explain(config, q, sshPort);
            verdict.action != Evaluate(config, flows, q, now).action
            <==> verdict.returnTraffic && Track(flows, In, q.info, now).admitted
    ensures FlowOf(q.direction, q.info) !in flows ==>
              Explain(config, q, sshPort).action == Evaluate(config, flows, q, now).action
    ensures var decidedBy := Explain(config, q, sshPort).decidedBy;
            decidedBy.Rule? ==>
              && decidedBy.index < |config.rules| && config.rules[decidedBy.index] == decidedBy.rule
              && RuleMatches(decidedBy.rule, q)
              && forall j :: 0 <= j < decidedBy.index ==> !RuleMatches(config.rules[j], q)
  {
  }

  // ---- Renaming a network ----

  predicate NamesNetwork(rule: FirewallRule, net: string) {
    rule.network == Some(net) || rule.origin == Network(net)
  }

  predicate AnyNames(rules: seq<FirewallRule>, net: string) {
    exists i :: 0 <= i < |rules| && NamesNetwork(rules[i], net)
  }

  function RenameRule(rule: FirewallRule, from: string, to: string): FirewallRule {
    rule.(network := if rule.network == Some(from) then Some(to) else rule.network,
          origin := if rule.origin == Network(from) then Network(to) else rule.origin)
  }

  function RenameRules(rules: seq<FirewallRule>, from: string, to: string): (r: seq<FirewallRule>)
    ensures |r| == |rules| && forall i :: 0 <= i < |r| ==> r[i] == RenameRule(rules[i], from, to)
  {
    seq(|rules|, i requires 0 <= i < |rules| => RenameRule(rules[i], from, to))
  }

  function RenameConfig(config: FirewallConfig, from: string, to: string): FirewallConfig {
    config.(rules := RenameRules(config.rules, from, to))
  }

  /** `now` shares `to` where `before` shared `from`, and every other network alike. */
  predicate FollowsRename(before: set<string>, now: set<string>, from: string, to: string) {
    && (to in now <==> from in before)
    && (forall net <- before + now :: net != from && net != to ==> (net in before <==> net in now))
  }

  /** If no rule is scoped to the new name, the same rule index decides every packet, with the same action. */
  lemma RenamePreservesVerdicts(config: FirewallConfig, q: Query, now: set<string>, from: string, to: string)
    requires from != to && forall i :: 0 <= i < |config.rules| ==> config.rules[i].network != Some(to)
    requires FollowsRename(q.shared, now, from, to)
    ensures FirstMatch(RenameRules(config.rules, from, to), q.(shared := now), 0) == FirstMatch(config.rules, q, 0)
    ensures forall flows, t :: Evaluate(RenameConfig(config, from, to), flows, q.(shared := now), t)
                            == Evaluate(config, flows, q, t)
  {
  }

  /** Renaming back undoes a rename exactly when no rule named the new name already. */
  lemma RenameUndone(config: FirewallConfig, from: string, to: string)
    ensures RenameConfig(RenameConfig(config, from, to), to, from) == config
            <==> from == to || !AnyNames(config.rules, to)
  {
  }

  /** The exception happens: a rule that already named the new name is carried off by renaming back. */
  lemma RenameCarriesOff(config: FirewallConfig, rule: FirewallRule, from: string, to: string)
    requires from != to && config.rules == [rule] && rule.network == Some(to)
    ensures RenameConfig(RenameConfig(config, from, to), to, from).rules[0].network == Some(from)
  {
  }

  lemma RenameIdempotent(rules: seq<FirewallRule>, from: string, to: string)
    ensures RenameRules(RenameRules(rules, from, to), from, to) == RenameRules(rules, from, to)
    ensures !AnyNames(rules, from) ==> RenameRules(rules, from, to) == rules
    ensures from != to ==> !AnyNames(RenameRules(rules, from, to), from)
  {
  }

  // ---- The live firewall ----

  class SharedFirewall {
    var config: FirewallConfig
    var conntrack: Flows

    constructor (config: FirewallConfig)
      ensures this.config == config && conntrack == map[]
    {
      this.config := config;
      conntrack := map[];
    }

    method TrackPacket(direction: Direction, info: PacketInfo, now: nat) returns (admitted: bool)
      modifies this`conntrack
      ensures Tracked(admitted, conntrack) == Track(old(conntrack), direction, info, now)
    {
      var flow := FlowOf(direction, info);
      if (direction.In? && !Eligible(info))
         || (direction.Out? && IsIcmp(flow.proto) && !IsEchoRequest(flow.proto, info.icmpType)) {
        return false;
      }
      if flow in conntrack {
        var alive := Alive(conntrack[flow], flow.proto, now);
        if flow.proto == TCP && HasFlag(info.tcpFlags, RST) {
          conntrack := conntrack - {flow};
          return direction.Out? || alive;
        }
        if direction.In? && (!alive || (conntrack[flow].Closing? && HasFlag(info.tcpFlags, SYN))) {
          return false;
        }
        if !alive && flow.proto == TCP && HasFlag(info.tcpFlags, FIN) { return false; }
        conntrack := conntrack[flow := Record(conntrack[flow], direction, info, now)];
        return true;
      }
      if direction.In? || (flow.proto == TCP && (HasFlag(info.tcpFlags, FIN) || HasFlag(info.tcpFlags, RST))) {
        return false;
      }
      conntrack := conntrack[flow := Active(now)];
      return true;
    }

    method EvaluatePacket(q: Query, now: nat) returns (action: Action)
      modifies this`conntrack
      ensures Evaluated(action, conntrack) == Evaluate(config, old(conntrack), q, now)
    {
      if config.disabled { return Allow; }
      var matched := MatchRule(config, q);
      if matched.Some? {
        action := config.rules[matched.value].action;
        if action.Allow? { var _ := TrackPacket(q.direction, q.info, now); }
        return;
      }
      if q.direction.Out? {
        action := DefaultFor(config, Out);
        if action.Allow? { var _ := TrackPacket(Out, q.info, now); }
      } else {
        var rescued := false;
        if Eligible(q.info) { rescued := TrackPacket(In, q.info, now); }
        action := if rescued then Allow else DefaultFor(config, In);
      }
    }

    method AdmitsReply(info: PacketInfo, now: nat) returns (admitted: bool)
      modifies this`conntrack
      ensures Tracked(admitted, conntrack) == Reply(config, old(conntrack), info, now)
    {
      if config.disabled { return true; }
      admitted := TrackPacket(In, info, now);
    }

    /** The evictor visits the entries one by one; `pending` is what it has not reached yet. */
    method EvictIdle(now: nat)
      modifies this`conntrack
      ensures conntrack == Sweep(old(conntrack), now)
    {
      var pending := conntrack.Keys;
      while pending != {}
        invariant pending <= conntrack.Keys <= old(conntrack).Keys
        invariant forall f :: f in conntrack ==> conntrack[f] == old(conntrack)[f]
        invariant forall f :: f in conntrack && f !in pending ==> Alive(conntrack[f], f.proto, now)
        invariant forall f :: f in old(conntrack) && f !in conntrack ==> !Alive(old(conntrack)[f], f.proto, now)
      {
        var flow :| flow in pending;
        if !Alive(conntrack[flow], flow.proto, now) { conntrack := conntrack - {flow}; }
        pending := pending - {flow};
      }
    }

    /** Returns whether any rule named the network; when none did, nothing changes. */
    method RenameNetwork(from: string, to: string) returns (renamed: bool)
      modifies this`config
      ensures config == RenameConfig(old(config), from, to)
      ensures renamed <==> AnyNames(old(config).rules, from)
    {
      var rules := config.rules;
      renamed := false;
      var i := 0;
      while i < |rules|
        invariant i <= |rules| == |old(config).rules|
        invariant forall j :: 0 <= j < i ==> rules[j] == RenameRule(old(config).rules[j], from, to)
        invariant forall j :: i <= j < |rules| ==> rules[j] == old(config).rules[j]
        invariant renamed <==> exists j :: 0 <= j < i && NamesNetwork(old(config).rules[j], from)
      {
        if rules[i].network == Some(from) {
          rules := rules[i := rules[i].(network := Some(to))];
          renamed := true;
        }
        if rules[i].origin == Network(from) {
          rules := rules[i := rules[i].(origin := Network(to))];
          renamed := true;
        }
        i := i + 1;
      }
      config := config.(rules := rules);
    }
  }
}
