# rayfish, modelled in Dafny

rayfish is a peer-to-peer mesh VPN. Every node judges its own traffic with a stateful firewall, answers what it
rejects, remembers the paths that reached its peers, hands out single-use invites, and applies deploy specs written by
a coordinator. This project models that decision logic and proves what it keeps over every input and every run.

`dafny verify dfyconfig.toml` checks everything. One module per component, in `src/`:

| module | component |
|---|---|
| `Packet`, `PacketLaws` | the IPv4/IPv6 parser the firewall reads packets with, IPv6 fragments included, and the address classes |
| `Firewall`, `FirewallRuns`, `ReturnTraffic` | rule matching, connection tracking, eviction and network renames; then every run of packets, sweeps, edits and clock ticks; and what gets back in |
| `Checksum`, `Reject`, `SshNat` | ones' complement sums, the RST, unreachable and too-big replies, and the in-place SSH port NAT |
| `FragmentVerdicts`, `Forward` | the table of accepted first fragments, and the inbound admission decision over whole runs |
| `EndpointHints`, `WarmLookup` | pruning of remembered paths, and the cache and its copy on disk when saves fail |
| `Rename` | the crash-safe rename of a saved network, as a machine that may crash between any two stages |
| `Tokens`, `Apply`, `ApplyLaws`, `LoadedSpec`, `SpecMeaning` | protocol specs and login lists, the expansion of a deploy spec into rules between hosts, what follows from it, what a spec that passed loading promises, and what a spec means read off its text |
| `Invite` | the invite ledger over runs with failing saves |
| `Hostname` | hostname collisions and the mesh form of a device name |

Code that changes state in place is a class (`SharedFirewall`, `Verdicts`, `Lookup`, `ConfigDir`, `InviteStore`) or a
method over an array, proved against a function of the old state; the properties are lemmas about those functions.

## How it is modelled

- Clocks, randomness and outcomes of saves are parameters. A save is `Saved`, `Refused` (nothing written) or
  `FailedAfterWrite` (written, but reported as failed). Instants are nanoseconds, wall-clock times seconds.
- Endpoint identities, network keys and transport paths are opaque values. A secret is identified with its hash.
- In `FirewallRuns` a run interleaves packets, exit replies, evictions of single entries, config edits and ticks of a
  clock that never goes back. The evictor reads its clock before it walks the table, so an eviction may use an earlier
  reading than the packets it interleaves with.
- In `Rename` each atomic write or file move is one stage, and a crash may fall between any two stages, also during
  recovery.
- The current hosts of a network are checked hostnames. `LoadedSpec.Live` says that the hosts an alias has joined with
  are among them, as src/cli/firewall.rs reads both from one status.
- In `Apply`, maps are visited in an arbitrary order, which covers the sorted order the source uses. A concrete name
  reached twice by one key is merged once; merging a value with itself does not change what it means.

Some promises do not hold of the code as it stands. For each, one lemma gives the exact condition and another (or the
same one) a failing input:

- Evicting an expired entry is invisible to every later packet exactly when the entry is `Active`
  (`EvictionIsTransparent`). An expired `HalfClosed` or `Closing` TCP entry still steers the connection that reuses its
  ports (`HalfClosedEvictionShows`, `ClosingEvictionShows`), and for every TCP connection runs from an empty tracker
  reach both (`ShowingEvictionsAreReached`).
- The incremental checksum update is undone by the opposite update exactly when the checksum is not `0xffff`, which
  becomes 0 (`ReplaceRoundTrip`).
- Pruning early and then later equals pruning later exactly when no hint that is fresh at the later time is dated after
  the earlier one (`PruneComposes`, `FutureHintIsLost`).
- A remembered path resolves at once exactly when the clock is not at zero and the peer has at most 8 usable paths
  (`RememberThenResolve`, `PathsThatDoNotResolve`).
- Merging two login lists loses exactly the privileged account named in one when the other is the empty list, although
  the two grants kept apart would admit it (`MergeLosesPrivileged`, `RootIsLost`).
- Revoking by id stops a redeemable secret exactly when the id names the entry the secret resolves to
  (`RevokeStopsSecret`); a shared record may repeat a hash under another id (`RevokedCopyRedeems`).
- One recipient has at most one live delivery, except exactly when a restore revives a second one
  (`DeliveriesStayUnique`, `TwoLiveDeliveries`).
- Renaming a network in the firewall config is undone by the opposite rename exactly when no rule named the new name
  (`RenameUndone`, `RenameCarriesOff`).
- A renamed network keeps the ledger it had, or the absence of one, exactly when it had one or none was left under the
  new name (`LedgerFollows`, `StaleLedger`).
- Expanding an expansion again, with nothing left to resolve, changes nothing exactly when the spec is stable: no host
  it seeds or resolves to starts with `*-`, and every exclusion an allow of a reached entry resolves to is over valid
  hostnames in ascending order (`ExpandsAgainIff`). A spec that passed loading is stable if, in the groups it uses,
  only aliases start with `*-` (`LoadedIsStable`). Loading accepts a group with the member `*-x`, whose expansion moves
  (`StarMemberMoves`).

## Model

| member | source | states |
|---|---|---|
| `Firewall.FirstMatch` | src/firewall.rs:544-586 | The rule found matches and no earlier rule does; none is found only if no rule matches. |
| `Firewall.MatchRule` | src/firewall.rs:544-586 | The early-return loop finds the first matching rule. |
| `Firewall.ExplainAgrees` | src/firewall.rs:712-757 | `explain` differs from enforcement if and only if it reports return traffic and the tracker admits the packet; for an untracked flow they always agree; a rule it names is the first one that matches. |
| `Firewall.RenamePreservesVerdicts` | src/firewall.rs:339-352 | If no rule names the new name, the renamed config matches the same rule index and gives the same verdict and tracker for every packet, tracker and time. |
| `Firewall.RenameUndone` | src/firewall.rs:339-352 | Renaming back restores the config if and only if no rule named the new name (or the names are equal). |
| `Firewall.RenameCarriesOff` | src/firewall.rs:339-352 | The failing case: a rule that named the new name ends up under the old one. |
| `Firewall.RenameIdempotent` | src/firewall.rs:339-352 | Renaming again changes nothing, a rename of an unnamed network changes nothing, and no rule names the old name afterwards. |
| `Firewall.SharedFirewall.constructor` | src/firewall.rs:485-492 | A new firewall tracks no flow. |
| `Firewall.SharedFirewall.TrackPacket` | src/firewall.rs:761-800 | The in-place tracker update is the tracker step of the run model: RST removes, outbound creates or restarts, FINs advance, expired entries admit nothing. |
| `Firewall.SharedFirewall.EvaluatePacket` | src/firewall.rs:630-695 | Verdict and tracker together, as the run model has them. |
| `Firewall.SharedFirewall.AdmitsReply` | src/firewall.rs:701-704 | Exit replies are admitted by the tracker alone, or by a disabled firewall. |
| `Firewall.SharedFirewall.EvictIdle` | src/firewall.rs:804-816 | The sweep keeps exactly the entries still within their timeout. |
| `Firewall.SharedFirewall.RenameNetwork` | src/firewall.rs:339-352 | The in-place rename loop, and whether any rule changed. |
| `FirewallRuns.StepAtFlow` | src/firewall.rs:761-816 | What any event of a run does to one flow is its effect on that flow alone. |
| `FirewallRuns.TrackerReplaysHistory` | src/firewall.rs:399-445 | After any run from an empty tracker, a flow's state is the replay of what happened to it. |
| `FirewallRuns.TrackedFlowIsExplained` | src/firewall.rs:399-445 | Every tracked flow has an opening, a latest beginning, FINs and a deciding record in the run that make it what it is; HalfClosed needs a FIN of one side only, Closing one of each since it began. |
| `FirewallRuns.ConntrackProvenance` | src/firewall.rs:630-704 | In every run, an inbound packet admitted by conntrack belongs to a flow opened by an earlier allowed outbound packet, not reset or evicted since, whose deciding record is within its timeout. |
| `FirewallRuns.OpeningIsAllowed` | src/firewall.rs:630-695 | Only an allowed outbound packet opens a flow. |
| `FirewallRuns.ClosingIsFixed` | src/firewall.rs:399-445 | Until the flow begins anew, no traffic moves or extends a Closing entry. |
| `FirewallRuns.ClosedWindowAdmitsNothing` | src/firewall.rs:761-800 | From 30 s after the second FIN on, conntrack admits nothing inbound until the flow begins anew. |
| `FirewallRuns.RunsAreWellFormed` | src/firewall.rs:399-445 | In every run from an empty tracker, only TCP flows are ever half closed or closing. |
| `FirewallRuns.SimilarRun` | src/firewall.rs:804-816 | Two trackers that differ only in expired Active entries answer every continuation alike. |
| `FirewallRuns.EvictionIsTransparent` | src/firewall.rs:804-816 | Evicting an expired entry is invisible in every continuation if and only if it is Active, hence always for UDP and ICMP. |
| `FirewallRuns.ClosingEvictionShows` | src/firewall.rs:761-816 | For every expired Closing entry, a continuation whose answers reveal its eviction. |
| `FirewallRuns.HalfClosedEvictionShows` | src/firewall.rs:761-816 | For every expired HalfClosed entry, a continuation whose answers reveal its eviction. |
| `FirewallRuns.ShowingEvictionsAreReached` | src/firewall.rs:761-816 | For every TCP connection, runs from an empty tracker that end with an expired HalfClosed and an expired Closing entry whose eviction shows. |
| `FirewallRuns.ExpiredEntryAdmitsNothing` | src/firewall.rs:761-800 | Whatever its state, an expired entry does not change the next inbound verdict. |
| `ReturnTraffic.ReplyIsAdmitted` | src/firewall.rs:630-800 | After an allowed outbound TCP packet without FIN or RST, echo request, or packet of another protocol, of a connection not already closing, the reverse packet that no rule names is allowed exactly until 300 s (TCP) or 30 s (else) have passed, or if the inbound default allows it; the config may change in between. |
| `ReturnTraffic.RepliesComeBack` | src/firewall.rs:630-816 | The same over runs: whatever traffic of other connections, sweeps, config edits and ticks come in between, the reply is let in while its window is open. |
| `ReturnTraffic.TrackedReply` | src/firewall.rs:701-704 | For an exit reply the tracker alone decides, with the same window, exactly. |
| `ReturnTraffic.PingsMeetTheDefault` | src/firewall.rs:676-694 | Inbound ICMP other than an echo reply, with no rule for it, meets the default and leaves the tracker alone, whatever is tracked. |
| `ReturnTraffic.FirstRuleDecides` | src/firewall.rs:544-586 | Putting a rule first decides exactly the packets its five tests concern; any other packet is decided and tracked as before, and `explain` names the same rule one place further down, or the same default. |
| `ReturnTraffic.ExplainRejects` | src/firewall.rs:712-757 | `explain` reports a rejection exactly for a denied packet in reject mode or to SSH: TCP port 22 or the mesh's own. |
| `ReturnTraffic.OffAllowsAll` | src/firewall.rs:648-650 | Switched off, everything is allowed and nothing is tracked. |
| `ReturnTraffic.SweepIsEvictions` | src/firewall.rs:804-816 | The sweep keeps exactly the entries within 300 s, 30 s, or 30 s of closing. |
| `Checksum.ChecksumWords` | src/reject.rs:281-292 | The word loop sums every length, odd ones included, and its accumulator never overflows 32 bits for up to 131072 bytes. |
| `Checksum.Fold` | src/reject.rs:295-300 | The folding loop computes the complement of the end-around-carry sum. |
| `Checksum.SumBound` | src/reject.rs:281-292 | The sum is at most 65535 per word. |
| `Checksum.VerifiesIffMultiple` | src/reject.rs:295-300 | A positive sum folds to 0xffff if and only if it is a multiple of 65535. |
| `Checksum.SealedVerifies` | src/reject.rs:302-330 | Writing the folded complement into a zero field makes the whole verify, with any pseudo-header sum. |
| `Checksum.SealedSumGrows` | src/reject.rs:302-330 | The sum accumulated before the checksum is known is at most the sum of the finished bytes. |
| `Checksum.TransportSumFits` | src/reject.rs:302-330 | Pseudo-header and body of up to 64 KiB sum to less than 2^32, for addresses of either IP version. |
| `Checksum.CsumReplace2` | src/forward.rs:159-165 | The incremental update computes section 3 of RFC 1624. |
| `Checksum.ReplacedVerifies` | src/forward.rs:156-165 | A sum that verified before a word and the checksum are replaced verifies after. |
| `Checksum.ReplaceRoundTrip` | src/forward.rs:159-165 | Replacing old by new and new by old restores the checksum if and only if it is not 0xffff; that one becomes 0. |
| `PacketLaws.FieldsInBytes` | src/firewall/packet.rs:269-325 | Ports, flags, ICMP type and echo id of a parsed packet, by the bytes they are read from. |
| `PacketLaws.OptionsAreSkipped` | src/firewall/packet.rs:123-190 | Any kind of extension header but a fragment one, before the transport header of an IPv6 packet, changes nothing but where that starts; and exactly which plain packets parse. |
| `PacketLaws.Ipv4OptionsAreSkipped` | src/firewall/packet.rs:54-82 | So do IPv4 options; an IPv4 packet at a fragment offset is refused. |
| `PacketLaws.FragmentsParse` | src/firewall/packet.rs:120-246 | An IPv6 fragment is never a whole packet; a later one is always classified and the first exactly if it holds its whole transport header; its key is read back, and its fields are those of the whole packet. |
| `PacketLaws.SameHeaders` | src/firewall/packet.rs:123-287 | Changing bytes of an IPv6 packet from its transport header on changes nothing but the fields read there. |
| `PacketLaws.TransitableV4Iff` | src/exit_node/policy.rs:8-35 | The IPv4 addresses an exit node forwards to are those outside thirteen numeric ranges. |
| `Reject.RstFields` | src/reject.rs:134-197 | Ports, flags and numbers of the reset before its checksum. |
| `Reject.TcpRstAnswers` | src/reject.rs:134-197 | Every RST sent parses, goes back to the sender with swapped addresses and ports, its sums verify, and it carries the numbers of section 3.4 of RFC 793: the segment's acknowledgement, or an acknowledgement of everything the segment took up. |
| `Reject.UnreachableAnswers` | src/reject.rs:206-242 | Every unreachable reply parses, goes back to the sender, verifies, says the right type and code, and quotes the offending packet. |
| `Reject.TooBigAnswers` | src/reject.rs:76-102 | Every too-big reply parses, goes back to the sender, verifies, names the MTU in the right field and quotes the packet. |
| `Reject.EveryReplyVerifies` | src/reject.rs:48-102 | Whatever packet is answered, each reply verifies and answers its sender; an IPv6 reply is at most 1280 bytes. For a parsed packet an IPv4 reply is at most 96 bytes, every length field is exact, and no 32-bit sum over the reply overflows. |
| `Reject.BuilderSumFits` | src/reject.rs:134-330 | For a parsed packet, the body of every reply is a message with a zero checksum field, sealed, and the sum the builder accumulates over it stays below 2^32. |
| `Reject.NoRejectStorm` | src/reject.rs:48-122 | No reply is ever answered by another rejection, and no ICMP reply by a too-big. |
| `Reject.WhatIsAnswered` | src/reject.rs:48-145 | Exactly which parsed packets are answered: from one host and no ICMP error, and for a rejection no reset and no TCP header cut short. |
| `Reject.AnswerInNumbers` | src/reject.rs:48-230 | With what: a reset for TCP; otherwise type and code 3/3 (UDP) or 3/13 for IPv4, 1/4 (UDP) or 1/1 for IPv6. |
| `Reject.ResetNumbers` | src/reject.rs:134-197 | Off the bytes of packet and reply: the reset continues from the acknowledgement, or acknowledges the sequence number plus, by the stated length, the bytes after the TCP header plus one each for SYN and FIN, in 32 bits. |
| `Reject.Ipv4Parses` | src/reject.rs:248-261 | A wrapped IPv4 packet parses back to the addresses and protocol it was built from. |
| `Reject.Ipv6Parses` | src/reject.rs:263-274 | The same for IPv6. |
| `Reject.WrapIpv4` | src/reject.rs:248-261 | Filling the buffer and writing its checksum gives the declared IPv4 packet. |
| `Reject.WrapIpv6` | src/reject.rs:263-274 | Filling the buffer gives the declared IPv6 packet. |
| `Reject.TransportChecksum` | src/reject.rs:302-330 | The pseudo-header and body sums folded together, within 32 bits for bodies of up to 64 KiB. |
| `Reject.CountSegment` | src/reject.rs:148-165 | Sequence numbers the incoming segment takes up: payload by the IP length, and one each for SYN and FIN. |
| `Reject.ChooseNumbers` | src/reject.rs:167-175 | Sequence number, acknowledgement and flags of the reset, computed from the segment's fields. |
| `Reject.FillRst` | src/reject.rs:134-180 | The RST segment, field by field. |
| `Reject.BuildTcpRst` | src/reject.rs:134-197 | The RST reply, or none for a RST or a truncated header. |
| `Reject.BuildIcmpMessage` | src/reject.rs:235-242 | Header, rest and quote, with a zero checksum. |
| `Reject.BuildUnreachable` | src/reject.rs:206-230 | The unreachable reply for either IP version. |
| `Reject.BuildReject` | src/reject.rs:48-63 | Which packets are answered, and how. |
| `Reject.BuildPacketTooBig` | src/reject.rs:76-102 | Which packets get a too-big reply, and how. |
| `SshNat.RewriteSshPort` | src/forward.rs:183-214 | The packet is edited in place, left alone, or refused without a byte changed, exactly when the source says. |
| `SshNat.RewriteKeepsChecksum` | src/forward.rs:183-214 | A segment that verified still verifies, only the port and checksum bytes change, and the port becomes the other one. |
| `SshNat.RewrittenParses` | src/forward.rs:183-214 | The parser sees a translated packet as the same one, to the listen port or from the mesh port. |
| `SshNat.AnswerComesFromMeshPort` | src/forward.rs:183-214 | What the listener answers to a translated packet is translated back to the port the peer called. |
| `SshNat.OtherTrafficIsUntouched` | src/forward.rs:183-205 | Exactly which packets are left alone. |
| `FragmentVerdicts.ExpireOrdered` | src/forward/frag_verdicts.rs:60-68 | Expiry keeps the table ordered, bounded and without repeats, and leaves no expired entry. |
| `FragmentVerdicts.AllowOrdered` | src/forward/frag_verdicts.rs:39-52 | So does recording a first fragment, which the table then holds. |
| `FragmentVerdicts.TableEntries` | src/forward/frag_verdicts.rs:39-68 | No operation invents an entry. |
| `FragmentVerdicts.FirstOpensTenSeconds` | src/forward/frag_verdicts.rs:39-68 | A first fragment that was not known lets its later ones through for exactly ten seconds. |
| `FragmentVerdicts.RepeatKeepsDeadline` | src/forward/frag_verdicts.rs:39-43 | A repeated first fragment does not prolong that. |
| `FragmentVerdicts.OnlyTheOldestGoes` | src/forward/frag_verdicts.rs:44-51 | At 1024 entries the oldest goes, and nothing else that is in date. |
| `FragmentVerdicts.Verdicts.constructor` | src/forward/frag_verdicts.rs:30-35 | A new table is empty. |
| `FragmentVerdicts.Verdicts.DropExpired` | src/forward/frag_verdicts.rs:60-68 | Set and queue drop the expired prefix together. |
| `FragmentVerdicts.Verdicts.EvictOldest` | src/forward/frag_verdicts.rs:44-49 | At capacity the oldest entries leave both set and queue. |
| `FragmentVerdicts.Verdicts.Allow` | src/forward/frag_verdicts.rs:39-52 | The table after a first fragment passed; set and queue still hold the same keys. |
| `FragmentVerdicts.Verdicts.Admits` | src/forward/frag_verdicts.rs:55-58 | A later fragment passes if and only if an unexpired entry has its key. |
| `Forward.EvaluateInbound` | src/forward.rs:265-397 | Decision, fragment table and tracker after one datagram, for every datagram, context and state. |
| `Forward.EvaluateInfo` | src/forward.rs:280-397 | The same once the packet or fragment is parsed. |
| `Forward.AdmissionSafety` | src/forward.rs:265-397 | With the firewall on, a whole packet is accepted if and only if it comes from the sender's mesh address into the mesh and passes the firewall, or is permitted transit, or is a return from the selected exit that the tracker admits. |
| `Forward.NoImpersonation` | src/forward.rs:265-397 | An accepted datagram with a mesh source has the sender's own; any other source is an IPv4 exit client or an exit return. |
| `Forward.FragmentAdmission` | src/forward.rs:265-397 | With the firewall on, exactly which fragments get in: permitted transit; a first one that is not for the SSH port and passes as a whole packet would; a later one whose first is in the table. |
| `Forward.TransitIff` | src/forward.rs:343-367 | A peer's packet out of the mesh is accepted if and only if an exit is offered to it on its network and the destination is transitable, off-link and not this host. |
| `Forward.StrangersComeThroughTheExit` | src/forward.rs:295-342 | A source that is neither the peer's own address nor the wire address gets in only from the selected exit, and only to this node's mesh address or the wire address. |
| `Forward.ExitReturnComesBack` | src/forward.rs:297-410 | An allowed packet from 10.64.0.2 opens the way for the answer the selected exit sends to 192.0.0.2, exactly for the 300 s or 30 s of its protocol. |
| `Forward.ExitReturnComesBackV6` | src/forward.rs:290-397 | The same for IPv6, to this node's mesh address. |
| `Forward.NodeRunsFirewall` | src/forward.rs:265-397 | The firewall inside a run of datagrams is a run of the firewall alone. |
| `Forward.ExitReturnWasOpened` | src/forward.rs:401-410 | In every run, an accepted exit return belongs to a flow, as delivered, that an earlier local outbound packet opened and that is within its timeout. |
| `Forward.TableIsEarned` | src/forward.rs:1183-1254 | In every run each reader's table stays ordered and bounded, and each entry is due to a first fragment that reader accepted. |
| `Forward.LaterFollowsFirst` | src/forward.rs:368-397 | In every run, a later fragment is accepted only within 10 s of an accepted first fragment of the same packet, taken in by the same reader: from the same peer on the same connection. |
| `Forward.LaterIsLetIn` | src/forward.rs:368-397 | In every run, once a reader accepted a first fragment it did not know, the later fragment it takes in next is accepted exactly within ten seconds, whatever other readers and this node do in between. |
| `EndpointHints.SortedIsStable` | src/endpoint_hints.rs:71-97 | Sorting orders by age, keeps every hint and keeps the order of equal ages. |
| `EndpointHints.PruneLimits` | src/endpoint_hints.rs:71-97 | Every result is sorted and fresh, with distinct paths, at most 64 peers and 8 paths each; a fresh hint is kept or displaced by kept hints at least as recent: a copy, 8 paths of its peer, or 64 other peers. |
| `EndpointHints.PruneInNumbers` | src/endpoint_hints.rs:71-97 | The same in numbers: 64 peers, 8 paths each, seven days; and for every other fresh hint, kept hints at least as recent that are a copy, eight of its peer, or 64 other peers. |
| `EndpointHints.PruneComposes` | src/endpoint_hints.rs:71-97 | Pruning at t1 and then at t2 equals pruning at t2 if and only if no hint fresh at t2 is dated after t1. |
| `EndpointHints.FutureHintIsLost` | src/endpoint_hints.rs:71-97 | The failing case: a hint dated after the first prune. |
| `EndpointHints.PruneIdempotent` | src/endpoint_hints.rs:71-97 | Pruning twice is pruning once. |
| `EndpointHints.RetainFresh` | src/endpoint_hints.rs:71-80 | The first filter keeps the usable hints of known age, not future and not expired. |
| `EndpointHints.RetainWithinLimits` | src/endpoint_hints.rs:80-97 | The single pass with counters and a seen-set keeps what the greedy definition keeps. |
| `EndpointHints.Prune` | src/endpoint_hints.rs:71-97 | The three passes compute the pruned list. |
| `WarmLookup.Lookup.constructor` | src/endpoint_hints.rs:125-131 | Startup prunes what was loaded. |
| `WarmLookup.Lookup.Snapshot` | src/endpoint_hints.rs:133-137 | A snapshot is pruned at the time it is taken. |
| `WarmLookup.Lookup.UpdateSettings` | src/endpoint_hints.rs:139-152 | A failed save leaves memory as it was. |
| `WarmLookup.Lookup.RememberPaths` | src/endpoint_hints.rs:155-187 | New state and outcome of remembering, including paths saved recently enough not to be written again. |
| `WarmLookup.Lookup.ForgetDirectHints` | src/endpoint_hints.rs:191-206 | New state and outcome of forgetting, also when the save or the clock fails. |
| `WarmLookup.OpKeepsForgotten` | src/endpoint_hints.rs:139-206 | No operation that teaches no direct path of the peer brings one back, in memory or in what it writes. |
| `WarmLookup.ForgottenStaysForgotten` | src/endpoint_hints.rs:191-206 | After forgetting, whatever the save did, in every run without the peer being remembered, no direct path of it is in memory, and the disk holds none or was never written. |
| `WarmLookup.ForgetKeepsTheRest` | src/endpoint_hints.rs:191-206 | Whenever forgetting fails, at the clock or at the save, exactly the peer's direct paths leave memory; when it succeeds memory is the rest, pruned. |
| `WarmLookup.OpKeepsTidy` | src/endpoint_hints.rs:139-206 | Every operation keeps memory within the limits and sorted. |
| `WarmLookup.RunsStayTidy` | src/endpoint_hints.rs:125-206 | So memory is within the limits and sorted at every moment of every run from startup on, whatever was loaded and whichever saves fail. |
| `WarmLookup.SnapshotOnlyFilters` | src/endpoint_hints.rs:133-137 | On memory kept that way, pruning a snapshot only drops what is no longer fresh. |
| `WarmLookup.RememberThenResolve` | src/endpoint_hints.rs:155-248 | After a successful remember, a lookup at the clock reading that decided it (the one that found everything saved, or the one it stamped) returns all usable paths if and only if there are none, or that reading is past zero and there are at most 8. |
| `WarmLookup.RememberKeepsTheRest` | src/endpoint_hints.rs:139-187 | Paths all remembered within half an hour change nothing. Otherwise a saved remember stamps them, keeps every other fresh hint the limits allow, gains nothing else, and memory is what was written; a failed one leaves memory alone. |
| `WarmLookup.ResolvesTheFresh` | src/endpoint_hints.rs:222-248 | A lookup offers exactly the peer's paths seen within seven days. |
| `WarmLookup.RememberInAnyRun` | src/endpoint_hints.rs:125-248 | The same at every moment of every run from startup on. |
| `WarmLookup.PathsThatDoNotResolve` | src/endpoint_hints.rs:155-248 | The failing cases, from an empty cache: one path at time zero, and nine paths. |
| `Rename.StepSettles` | src/config.rs:707-744 | Every stage keeps where recovery will end. |
| `Rename.RecoveryIsDeterministic` | src/daemon/network_registry.rs:56-87 | From any disk whatsoever and through any crashes, a recovery that finishes ends in the one state that disk determines. |
| `Rename.RecoveryFinishes` | src/daemon/network_registry.rs:56-87 | Every stage without a crash brings recovery one closer to its end: five finish it, from any disk, and it stays finished. |
| `Rename.CrashSafeRename` | src/config.rs:635-744 | Through any crashes the network is saved in exactly one file at every moment, its ledger is never lost or duplicated, other networks' files and ledgers never change, and a finished recovery leaves the disk of an uninterrupted rename. |
| `Rename.UninterruptedRename` | src/config.rs:635-744 | Five stages or more without a crash halt with exactly that disk. |
| `Rename.SettledIsRenamed` | src/config.rs:707-744 | Where recovery ends is the rename: file, inner name, ledger and firewall rules. |
| `Rename.LedgerFollows` | src/config.rs:726-734 | However interrupted, a finished rename has under the new name the ledger, present or absent, the network had before if and only if it had one or none was left there; none is left under the old name. |
| `Rename.StaleLedger` | src/config.rs:726-734 | The failing case: a network without invites, renamed to a name with a ledger left over, takes it over. |
| `Rename.PendingRenameEnds` | src/config.rs:635-665 | In every run of requests, stages and crashes, no request replaces a pending rename: it stays the pending one until it has ended with the disk it was to leave. |
| `Rename.ActKeepsIntent` | src/config.rs:635-665 | One step of that; an intent appears only when a request finds none. |
| `Rename.ConfigDir.MoveFile` | src/config.rs:707-722 | The move stage, with its cases for a file already moved or a name taken. |
| `Rename.ConfigDir.MoveLedgerFile` | src/config.rs:723-734 | The ledger stage. |
| `Rename.ConfigDir.RewriteFile` | src/config.rs:735-744 | The stage that rewrites the name inside the file. |
| `Rename.ConfigDir.SaveFirewall` | src/daemon/network_registry.rs:66-71 | The firewall stage. |
| `Rename.ConfigDir.FinishInterruptedRename` | src/daemon/network_registry.rs:56-87 | Any number of stages of recovery. |
| `Rename.ConfigDir.RenameNetwork` | src/config.rs:635-665 | Refused, nothing to rename, or committed; only the last changes the disk, and with all stages done it is the renamed one. |
| `Tokens.PiecesOfJoin` | src/apply.rs:607-618 | Joining tokens and splitting them again is the identity. |
| `Tokens.TrimDropsSpaces` | src/apply.rs:607-618 | Trimming takes spaces off both ends and nothing else. |
| `Tokens.AscendingIsUnique` | src/apply.rs:607-618 | A set of tokens has one ascending spelling. |
| `Tokens.MergeSpecIsUnion` | src/apply.rs:607-618 | Merging specs is the union of their tokens, in the canonical spelling. |
| `Tokens.MergeUsersIsWidest` | src/apply.rs:579-602 | Merging login lists grants the widest of the two: everyone, then every unprivileged account, then the named ones together. |
| `Tokens.MergeLosesPrivileged` | src/apply.rs:588-602 | A merged list admits nothing new, and refuses a login one of the lists admits if and only if a privileged account is named in one and the other is empty. |
| `Tokens.RootIsLost` | src/apply.rs:588-602 | The concrete case: root merged with the empty list is refused. |
| `Tokens.GrantsDecide` | src/ssh/authz.rs:40-65 | Lists that grant the same let in the same logins. |
| `Apply.ExpandPeers` | src/apply.rs:537-563 | The loop over one entry's peers fails if and only if some peer cannot be expanded; otherwise it has, for each concrete peer, what the rules that resolve to it say, merged. |
| `Apply.MergeMapExpands` | src/apply.rs:579-618 | Merging an entry's peer side into a subject adds exactly what the entry says to it. |
| `Apply.ExpandEntry` | src/apply.rs:535-570 | One entry fails if and only if its subject or one of its allowed peers does; otherwise it keeps the expansion of everything before it, and adds itself. |
| `Apply.ExpandEntries` | src/apply.rs:535-571 | The loop over entries, in any order, fails if and only if some entry does; otherwise it expands them all. |
| `Apply.ExpandFirewall` | src/apply.rs:422-574 | It fails if and only if some exclusion selector cannot be read or expanded. Otherwise its hosts are those some subject resolves to, plus the targets of an exclusion, and for every host and peer the allow, deny and ssh entries exist if and only if some spec entry resolves to the pair, and mean the union of all that do. |
| `SpecMeaning.AllowsMean` | src/apply.rs:422-574 | Read off the spec text, groups, aliases and joined hosts: a host allows a peer a token if and only if some entry for the host has a key about the peer with that token. |
| `SpecMeaning.DeniesMean` | src/apply.rs:422-574 | The same for denies. |
| `SpecMeaning.SshMeans` | src/apply.rs:422-602 | Who may log in: an unprivileged account if and only if some list for the pair lets it in; a privileged one if and only if some list lets everyone in, or one names it and none is empty. |
| `SpecMeaning.HostsAreThese` | src/apply.rs:503-563 | Which hosts the expansion has: those an entry is for and, with a target exclusion, `*` and every target. |
| `SpecMeaning.ExcludedGetsNothing` | src/apply.rs:545-574 | A host a target exclusion names, literally, by a group or by an alias, gets nothing from that entry: its row is what the other entries say. |
| `SpecMeaning.OthersGetAll` | src/apply.rs:515-571 | Every current or declared host it does not name gets all of a well-formed entry: its allows and denies token by token, and its logins. |
| `SpecMeaning.ResolvesToWhatItStandsFor` | src/apply.rs:478-501 | A name resolves to `*`, its group's members, its alias's hosts, or itself, in that order. |
| `SpecMeaning.SelectorMeans` | src/apply.rs:440-476 | A peer exclusion that passed loading expands, if it does, to a selector of exactly the hosts its terms exclude. |
| `ApplyLaws.ExpansionIsDetermined` | src/apply.rs:422-574 | Any two expansions agree on hosts, on the text of every allow and deny, and on every login every ssh grant lets in: the order of processing does not show. |
| `ApplyLaws.ExpansionIsIdempotent` | src/apply.rs:604-618 | Expanding a stable spec, and then its expansion with nothing left to resolve, succeeds and gives it back. |
| `ApplyLaws.ExpandsAgainIff` | src/apply.rs:422-574 | For every spec, context and expansion: expanding again changes nothing if and only if the spec is stable, a condition on the spec and its names alone. |
| `ApplyLaws.StableIffExpanded` | src/apply.rs:422-574 | Stability read off the spec is the same as no host of the expansion being an exclusion and every allowed peer being settled. |
| `ApplyLaws.FixedIffSettled` | src/apply.rs:442-478 | With nothing left to resolve, a peer expands to itself if and only if it is no exclusion, or one over valid hostnames in ascending order. |
| `LoadedSpec.LoadedFailsIff` | src/apply.rs:165-228 | A spec that passed loading fails to expand if and only if some allow excludes an alias, directly or through a group, with no joined device. |
| `LoadedSpec.LoadedSelector` | src/apply.rs:180-208 | A selector of a spec that passed loading fails to expand if and only if it excludes such an alias; otherwise it becomes an exclusion over valid hostnames in ascending order. |
| `LoadedSpec.LoadedIsStable` | src/apply.rs:165-228 | A spec that passed loading is stable if, in the groups it uses, only aliases start with `*-`. |
| `LoadedSpec.StarMemberMoves` | src/apply.rs:165-177 | The failing case: a group with the member `*-x`, given rules; the spec passes loading and expands, and expanding again changes it. |
| `ApplyLaws.BareExclusion` | src/apply.rs:442-478 | With nothing left to resolve, a selector over valid hostnames is sorted, and any other is refused. |
| `ApplyLaws.BareName` | src/apply.rs:480-511 | With no groups and no aliases, a name stands for itself. |
| `ApplyLaws.SelectorRoundTrip` | src/apply.rs:442-478 | An expanded exclusion, read back, excludes exactly the hosts it was made from, and expands to itself. |
| `Invite.Find` | src/invite.rs:369-389 | The entry a secret resolves to is the first with its hash. |
| `Invite.OnlyMatch` | src/invite.rs:408-427 | An id prefix selects an entry only if it selects no other. |
| `Invite.EntryAfterEdit` | src/invite.rs:261-472 | No operation routes a known secret to another entry; at most the status of its entry changes. |
| `Invite.CallAtSecret` | src/invite.rs:369-472 | What one call, with any save outcome, means for a secret in memory and on disk. |
| `Invite.SingleUse` | src/invite.rs:369-405 | In every run with failing saves, reloads and clock changes, redemptions of a secret number at most one more than its effective restores, and no more than them while it is unused. |
| `Invite.RedeemsIff` | src/invite.rs:369-389 | A redemption succeeds if and only if the entry is pending, its time is not up, and the save succeeds. |
| `Invite.MintedRedeemsInTime` | src/invite.rs:67-89 | A secret new to the ledger, minted, saved and otherwise left alone through any run, redeems at a later clock reading if and only if that is before minting plus its time to live, capped at 64 bits. |
| `Invite.DeliveryRedeemsForAWeek` | src/invite.rs:292-313 | The same for a private delivery, for seven days. |
| `Invite.SharedRedeemsInTime` | src/invite.rs:434-448 | The same for a shared invite, until the moment it came with. |
| `Invite.BurnAndRestore` | src/invite.rs:396-472 | A burn, saved or not, stops the secret; undoing a redemption makes it good for the time it has left, and no longer. |
| `Invite.SharedOncePerId` | src/invite.rs:434-437 | A record shared under a known id changes nothing. |
| `Invite.RevokesIff` | src/invite.rs:408-427 | A revocation succeeds if and only if exactly one id starts with the text and that invite is not used; it changes that one alone. |
| `Invite.RevokedForever` | src/invite.rs:408-427 | Once the entry a secret resolves to is revoked and saved, no run redeems it again, even if a shared record repeats the hash. |
| `Invite.RevokeStopsSecret` | src/invite.rs:408-448 | A revocation stops a redeemable secret if and only if the id names the entry it resolves to. |
| `Invite.RevokedCopyRedeems` | src/invite.rs:408-448 | The failing case: an invite is minted, a shared record repeats its hash, the record's id is revoked, and the secret still redeems. |
| `Invite.DeliveriesStayUnique` | src/invite.rs:275-313 | Every operation keeps one live delivery per recipient, except exactly a restore that revives a second. |
| `Invite.OneDeliveryEach` | src/invite.rs:275-313 | So no run without such a restore, and with a clock that does not go back, ever has two, in memory or on disk. |
| `Invite.TwoLiveDeliveries` | src/invite.rs:396-405 | Deliver, redeem, deliver, restore leaves two. |
| `Invite.InviteStore.FindEntry` | src/invite.rs:369-376 | The search by hash. |
| `Invite.InviteStore.MintInvite` | src/invite.rs:261-272 | Ledger and id after minting, for any save outcome. |
| `Invite.InviteStore.RedeemSecret` | src/invite.rs:369-389 | Ledger and exact answer: unknown, used, revoked, expired if and only if pending and its time is up, admitted with the bound hostname, or a failed save. |
| `Invite.InviteStore.RestoreSecret` | src/invite.rs:396-405 | Ledger after undoing a redemption. |
| `Invite.InviteStore.FindOnlyMatch` | src/invite.rs:408-420 | The search by id prefix, refusing an ambiguous one. |
| `Invite.InviteStore.RevokeInvite` | src/invite.rs:408-427 | Ledger and success of a revocation. |
| `Invite.InviteStore.RecordShared` | src/invite.rs:434-448 | Ledger and success of recording another coordinator's invite, once per id. |
| `Invite.InviteStore.BurnByHash` | src/invite.rs:454-472 | Ledger after another coordinator's redemption, and whether anything changed. |
| `Invite.InviteStore.LiveDelivery` | src/invite.rs:275-287 | The first live delivery to the recipient. |
| `Invite.InviteStore.DeliveryFor` | src/invite.rs:292-313 | The live delivery if there is one, else a new one; an error only when the new one cannot be saved. |
| `Hostname.CandidateNumber` | src/hostname.rs:158-172 | The number of a candidate can be read back from it. |
| `Hostname.CandidateKeepsTheWish` | src/hostname.rs:158-172 | A candidate is the wish, a hyphen and the number; a wish too long is cut to what fits in 63 characters, and only hyphens at the cut are dropped. |
| `Hostname.CandidateIsValid` | src/hostname.rs:116-172 | Every 32-bit candidate of a valid name is a valid label. |
| `Hostname.SomeCandidateIsFree` | src/hostname.rs:158-172 | Pigeonhole: `n` candidates cannot all be taken by fewer than `n` names. |
| `Hostname.ResolveCollision` | src/hostname.rs:158-172 | The search ends within one more candidate than there are taken names, with the wish or the first free candidate, untaken and valid. |
| `Hostname.ResolutionIsUnique` | src/hostname.rs:158-172 | That result is the only one. |
| `Hostname.AdmissionHostname` | src/hostname.rs:138-156 | Refused if and only if invalid, or authoritative and taken; otherwise untaken, and the wish itself whenever it is free. |
| `Hostname.MeshFormLoop` | src/hostname.rs:82-114 | The character loop computes the mesh form. |
| `Hostname.FoldedIsClean` | src/hostname.rs:82-114 | What is left of any name is empty or a valid label without doubled hyphens. |
| `Hostname.FoldedIsTheWords` | src/hostname.rs:82-109 | Before it is cut to 63 characters, the name is the words of the lowered text, possessives left out, in order, with one hyphen between neighbours. |
| `Hostname.MeshFormFixpoints` | src/hostname.rs:82-114 | It leaves a name alone if and only if the name is a valid label without doubled hyphens and not a placeholder. |
| `Hostname.MeshFormIdempotent` | src/hostname.rs:82-114 | Every name it gives is valid and left alone; it gives none if and only if nothing or a placeholder is left. |
| `Hostname.PossessiveVanishes` | src/hostname.rs:82-114 | A possessive, with a straight or curly apostrophe and in either case, changes nothing in the mesh form. |

## Left out

- `ray` CLI, daemon IPC, QUIC and TUN tasks, channels, metrics and lazy dialing: plumbing around the decisions modelled here.
- Kernel state of exit nodes and the host firewall: external tools and their text output.
- IPv4 exit rewriting between the wire client and local client addresses, beyond the packet information the admission decision uses.
- Messages and reasons of errors: an error is one value, `Err`.
- Reading and writing TOML and YAML, file permissions, and how a write is made atomic.
- The check for a destroyed network when a network file is saved.
- Unreadable intent, ledger or network files during a rename, and saves of the firewall file that fail without a crash: each ends recovery at the stage it fails in, and the next start is the crash already modelled.
- The warning list of aliases with no joined device, `membership_diff`, and the materialising of suggested rules on a host: easy members beside the expansion.
- Parsing of protocol specs into firewall rules: a spec is its set of tokens.
- The in-memory list of an ssh grant is compared by the logins it grants, not by its order.
- Marking a delivery delivered, unsupported or refused, and gossip of invites between coordinators.
- Loading the hint cache from the settings file, and settings other than the hints.
- Hostname.ResolveCollision: validity is stated for fewer than 2^32 - 1 taken names, since the source counts candidates in 32 bits; beyond that the counter overflows.
- WarmLookup.OpKeepsForgotten: an operation whose save fails without writing leaves the disk as it was, so the disk part speaks of what is written.
