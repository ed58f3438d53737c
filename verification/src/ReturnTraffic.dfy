/**
 * What the tracker is for: replies to this device's own traffic get back in, and nothing else does on their account
 * (src/firewall.rs). Stated in protocol numbers and seconds.
 */
module ReturnTraffic {
  import opened Wrappers
  import opened Packet
  import opened Firewall
  import opened FirewallRuns

  /** A packet that opens a connection: TCP without FIN or RST, an echo request, or any other protocol. */
  predicate Opener(info: PacketInfo) {
    if info.protocol == 6 then info.tcpFlags % 2 == 0 && info.tcpFlags / 4 % 2 == 0
    else if info.protocol == 1 then info.icmpType == 8
    else if info.protocol == 58 then info.icmpType == 128
    else true
  }

  /** The way back of `sent`: addresses and ports swapped, and for a ping the echo reply with the same id. */
  predicate Reverses(back: PacketInfo, sent: PacketInfo) {
    && back.protocol == sent.protocol
    && back.src == sent.dst && back.dst == sent.src && back.srcPort == sent.dstPort && back.dstPort == sent.srcPort
    && back.icmpId == sent.icmpId
    && (back.protocol == 1 ==> back.icmpType == 0) && (back.protocol == 58 ==> back.icmpType == 129)
  }

  /** How long a connection stays open for replies, in nanoseconds. */
  function Window(protocol: u8): nat { if protocol == 6 then 300_000_000_000 else 30_000_000_000 }

  /** The connection of an outbound packet. */
  function Connection(sent: PacketInfo): Flow {
    Flow(sent.protocol, sent.src, sent.srcPort, sent.dst, sent.dstPort, sent.icmpId)
  }

  /** The connection is not tracked, or tracked with no FIN seen. */
  predicate IsQuiet(flows: Flows, f: Flow) { f in flows ==> flows[f].Active? }

  /** An allowed opener opens its connection. */
  lemma OpenerOpens(config: FirewallConfig, flows: Flows, out: Query, now: nat)
    requires !config.disabled && out.direction.Out? && Opener(out.info) && IsQuiet(flows, Connection(out.info))
    requires Evaluate(config, flows, out, now).action == Allow
    ensures Connection(out.info) in Evaluate(config, flows, out, now).flows
    ensures Evaluate(config, flows, out, now).flows[Connection(out.info)] == Active(now)
  {
  }

  /** A reply no rule names is let in exactly while its connection's window is open, or if the default lets it in. */
  lemma ReplyAnswer(config: FirewallConfig, flows: Flows, back: Query, sent: PacketInfo, since: nat, later: nat)
    requires !config.disabled && back.direction.In? && Reverses(back.info, sent) && since <= later
    requires forall j :: 0 <= j < |config.rules| ==> !RuleMatches(config.rules[j], back)
    requires Connection(sent) in flows && flows[Connection(sent)] == Active(since)
    ensures Evaluate(config, flows, back, later).action == Allow
            <==> later < since + Window(sent.protocol) || config.defaultInbound.Allow?
  {
  }

  /** For a reply from an exit the tracker alone decides. */
  lemma TrackedReply(flows: Flows, back: PacketInfo, sent: PacketInfo, since: nat, later: nat)
    requires Reverses(back, sent) && since <= later
    requires Connection(sent) in flows && flows[Connection(sent)] == Active(since)
    ensures Track(flows, In, back, later).admitted <==> later < since + Window(sent.protocol)
  {
  }

  /**
   * An allowed outbound packet opens the way back: from then on a reply that no rule names is let in exactly until
   * 300 seconds (TCP) or 30 seconds (anything else) have passed, whatever the config has become.
   */
  lemma ReplyIsAdmitted(config: FirewallConfig, flows: Flows, out: Query, now: nat,
                        live: FirewallConfig, back: Query, later: nat)
    requires !config.disabled && out.direction.Out? && Opener(out.info) && IsQuiet(flows, Connection(out.info))
    requires Evaluate(config, flows, out, now).action == Allow
    requires !live.disabled && back.direction.In? && Reverses(back.info, out.info) && now <= later
    requires forall j :: 0 <= j < |live.rules| ==> !RuleMatches(live.rules[j], back)
    ensures Evaluate(live, Evaluate(config, flows, out, now).flows, back, later).action == Allow
            <==> later < now + Window(out.info.protocol) || live.defaultInbound.Allow?
  {
    OpenerOpens(config, flows, out, now);
    ReplyAnswer(live, Evaluate(config, flows, out, now).flows, back, out.info, now, later);
  }

  /** The event is a packet of connection `f`, in either direction. */
  predicate Belongs(e: Event, f: Flow) {
    && IsPacket(e)
    && var info := InfoOf(e);
       && info.protocol == f.proto && info.icmpId == f.icmpId
       && var out := DirectionOf(e).Out?;
       && (if out then info.src else info.dst) == f.localIp
       && (if out then info.srcPort else info.dstPort) == f.localPort
       && (if out then info.dst else info.src) == f.peerIp
       && (if out then info.dstPort else info.srcPort) == f.peerPort
  }

  lemma StepStaysOpen(s: State, e: Event, f: Flow, at: nat)
    requires FlowAt(s, f) == Some(Active(at)) && at <= s.now < at + Window(f.proto) && !Belongs(e, f)
    ensures FlowAt(Step(s, e), f) == Some(Active(at))
  {
    StepAtFlow(s, e, f);
  }

  /** Traffic of other connections, sweeps, edits and the clock leave an open connection open. */
  lemma {:induction false} StaysOpen(s: State, es: seq<Event>, n: nat, f: Flow, at: nat)
    requires n <= |es| && FlowAt(s, f) == Some(Active(at)) && at <= s.now
    requires forall j :: 0 <= j < n ==> !Belongs(es[j], f)
    requires After(s, es, n).now < at + Window(f.proto)
    ensures FlowAt(After(s, es, n), f) == Some(Active(at))
  {
    if n > 0 {
      TimeNeverDecreases(s, es, 0, n - 1);
      TimeNeverDecreases(s, es, n - 1, n);
      StaysOpen(s, es, n - 1, f, at);
      StepStaysOpen(After(s, es, n - 1), es[n - 1], f, at);
    }
  }

  /** The same over runs: whatever else happens in between, the reply is let in while the window is open. */
  lemma RepliesComeBack(s: State, out: Query, es: seq<Event>, n: nat, back: Query)
    requires !s.config.disabled && out.direction.Out? && Opener(out.info) && IsQuiet(s.flows, Connection(out.info))
    requires Answer(s, Packet(out)) == Some(Allow) && n <= |es|
    requires forall j :: 0 <= j < n ==> !Belongs(es[j], Connection(out.info))
    requires back.direction.In? && Reverses(back.info, out.info)
    requires var t := After(Step(s, Packet(out)), es, n);
             && !t.config.disabled && t.now < s.now + Window(out.info.protocol)
             && forall j :: 0 <= j < |t.config.rules| ==> !RuleMatches(t.config.rules[j], back)
    ensures Answer(After(Step(s, Packet(out)), es, n), Packet(back)) == Some(Allow)
  {
    var opening := Step(s, Packet(out));
    var t, f := After(opening, es, n), Connection(out.info);
    OpenerOpens(s.config, s.flows, out, s.now);
    StaysOpen(opening, es, n, f, s.now);
    TimeNeverDecreases(opening, es, 0, n);
    ReplyAnswer(t.config, t.flows, back, out.info, s.now, t.now);
  }

  /** Someone else's ping is never a reply: with no rule for it, inbound ICMP but an echo reply meets the default. */
  lemma PingsMeetTheDefault(config: FirewallConfig, flows: Flows, q: Query, now: nat)
    requires !config.disabled && q.direction.In?
    requires (q.info.protocol == 1 && q.info.icmpType != 0) || (q.info.protocol == 58 && q.info.icmpType != 129)
    requires forall j :: 0 <= j < |config.rules| ==> !RuleMatches(config.rules[j], q)
    ensures Evaluate(config, flows, q, now) == Evaluated(config.defaultInbound, flows)
  {
  }

  /** Switched off, the firewall allows everything and tracks nothing. */
  lemma OffAllowsAll(config: FirewallConfig, flows: Flows, q: Query, now: nat, sshPort: u16)
    requires config.disabled
    ensures Evaluate(config, flows, q, now) == Evaluated(Allow, flows) && Explain(config, q, sshPort).action == Allow
    ensures Reply(config, flows, q.info, now) == Tracked(true, flows)
  {
  }

  /** A sweep keeps exactly the entries that the evictor, coming to each with the same clock reading, would keep. */
  lemma SweepIsEvictions(s: State, f: Flow)
    ensures f in Sweep(s.flows, s.now) <==> f in Step(s, Evict(f, s.now)).flows
    ensures f in Sweep(s.flows, s.now) ==> Sweep(s.flows, s.now)[f] == s.flows[f]
    ensures f in s.flows && s.flows[f].seen <= s.now ==>
              (f in Sweep(s.flows, s.now) <==>
               s.now < s.flows[f].seen + if s.flows[f].Closing? then 30_000_000_000 else Window(f.proto))
  {
  }

  /** The five tests of a rule, in protocol numbers. */
  predicate Concerns(rule: FirewallRule, q: Query) {
    && (rule.direction.In? <==> q.direction.In?)
    && match rule.protocol {
         case AnyProtocol => true
         case Tcp => q.info.protocol == 6
         case Udp => q.info.protocol == 17
         case Icmp => q.info.protocol == 1 || q.info.protocol == 58
       }
    && (rule.port.Some? ==> q.info.dstPort >= rule.port.value.first && rule.port.value.last >= q.info.dstPort)
    && match rule.peer {
         case AnyPeer => true
         case Identity(id) => q.peer == id
         case Except(_, ids) => !(q.peer in ids)
       }
    && (rule.network == None || exists net :: net in q.shared && rule.network == Some(net))
  }

  /**
   * Putting a rule first decides exactly the packets it concerns; for any other packet, `explain` names the rule that
   * decided before, one place further down, or the same default.
   */
  lemma FirstRuleDecides(config: FirewallConfig, rule: FirewallRule, q: Query, flows: Flows, now: nat, sshPort: u16)
    requires !config.disabled
    ensures var more := config.(rules := [rule] + config.rules);
            if Concerns(rule, q) then
              && Evaluate(more, flows, q, now).action == rule.action
              && Explain(more, q, sshPort).decidedBy == DecidedBy.Rule(0, rule)
            else
              && Evaluate(more, flows, q, now) == Evaluate(config, flows, q, now)
              && Explain(more, q, sshPort).action == Explain(config, q, sshPort).action
              && match Explain(config, q, sshPort).decidedBy
                 case Rule(i, r) => Explain(more, q, sshPort).decidedBy == DecidedBy.Rule(i + 1, r)
                 case d => Explain(more, q, sshPort).decidedBy == d
  {
    var more := [rule] + config.rules;
    assert Concerns(rule, q) <==> RuleMatches(rule, q);
    FirstMatchBehind(rule, config.rules, q, 0);
  }

  lemma {:induction false} FirstMatchBehind(rule: FirewallRule, rules: seq<FirewallRule>, q: Query, i: nat)
    requires i <= |rules|
    ensures FirstMatch([rule] + rules, q, i + 1)
            == match FirstMatch(rules, q, i) { case None => None case Some(j) => Some(j + 1) }
    decreases |rules| - i
  {
    if i < |rules| {
      assert ([rule] + rules)[i + 1] == rules[i];
      FirstMatchBehind(rule, rules, q, i + 1);
    }
  }

  /** A denied packet is answered, rather than dropped, in reject mode and for SSH: port 22 or the mesh's own. */
  lemma ExplainRejects(config: FirewallConfig, q: Query, sshPort: u16)
    ensures Explain(config, q, sshPort).reject
            <==> && Explain(config, q, sshPort).action.Deny?
                 && (config.reject || (q.info.protocol == 6 && q.info.dstPort in {22, sshPort}))
  {
  }
}
