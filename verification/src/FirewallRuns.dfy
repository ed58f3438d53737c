/**
 * What the stateful firewall guarantees over whole runs: any interleaving of packets in both
 * directions, exit replies, concurrent evictions, config edits and clock ticks.
 */
module FirewallRuns {
  import opened Wrappers
  import opened Packet
  import opened Firewall

  /** One atomic step. `Evict` is the evictor at one entry, with the clock it read when its sweep began. */
  datatype Event =
    | Packet(query: Query)
    | ExitReply(reply: PacketInfo)
    | Evict(flow: Flow, sweptAt: nat)
    | Edit(config: FirewallConfig)
    | Tick(elapsed: nat)

  datatype State = State(config: FirewallConfig, flows: Flows, now: nat)

  function Step(s: State, e: Event): State {
    match e
    case Packet(q) => s.(flows := Evaluate(s.config, s.flows, q, s.now).flows)
    case ExitReply(info) => s.(flows := Reply(s.config, s.flows, info, s.now).flows)
    case Evict(f, at) =>
      if f in s.flows && at <= s.now && !Alive(s.flows[f], f.proto, at) then s.(flows := s.flows - {f}) else s
    case Edit(config) => s.(config := config)
    case Tick(elapsed) => s.(now := s.now + elapsed)
  }

  /** What the data path answers: nothing for a step that judges no packet. */
  function Answer(s: State, e: Event): Option<Action> {
    match e
    case Packet(q) => Some(Evaluate(s.config, s.flows, q, s.now).action)
    case ExitReply(info) => Some(if Reply(s.config, s.flows, info, s.now).admitted then Allow else Deny)
    case _ => None
  }

  function After(s: State, es: seq<Event>, n: nat): State
    requires n <= |es|
  {
    if n == 0 then s else Step(After(s, es, n - 1), es[n - 1])
  }

  // ---- What a step does to one flow ----

  predicate IsPacket(e: Event) { e.Packet? || e.ExitReply? }

  function DirectionOf(e: Event): Direction
    requires IsPacket(e)
  {
    if e.Packet? then e.query.direction else In
  }

  function InfoOf(e: Event): PacketInfo
    requires IsPacket(e)
  {
    if e.Packet? then e.query.info else e.reply
  }

  /** The event is a packet of flow `f` that the firewall hands to the tracker. */
  predicate Reaches(s: State, e: Event, f: Flow) {
    && IsPacket(e)
    && FlowOf(DirectionOf(e), InfoOf(e)) == f
    && Trackable(DirectionOf(e), InfoOf(e))
    && (if e.Packet? then Consults(s.config, e.query) else !s.config.disabled)
  }

  /** An allowed outbound packet of an untracked flow, opening it. */
  predicate Opens(s: State, e: Event, f: Flow) {
    && Reaches(s, e, f) && f !in s.flows
    && DirectionOf(e).Out? && !IsFin(InfoOf(e)) && !IsRst(InfoOf(e))
  }

  /** A tracked reset, ending the flow. */
  predicate Resets(s: State, e: Event, f: Flow) {
    Reaches(s, e, f) && f in s.flows && IsRst(InfoOf(e))
  }

  /** A packet recorded on an existing flow. */
  predicate Records(s: State, e: Event, f: Flow) {
    && Reaches(s, e, f) && f in s.flows && !IsRst(InfoOf(e))
    && (if Alive(s.flows[f], f.proto, s.now)
        then DirectionOf(e).In? && s.flows[f].Closing? ==> !HasFlag(InfoOf(e).tcpFlags, SYN)
        else DirectionOf(e).Out? && !IsFin(InfoOf(e)))
  }

  predicate Evicts(s: State, e: Event, f: Flow) {
    e.Evict? && e.flow == f && f in s.flows && e.sweptAt <= s.now && !Alive(s.flows[f], f.proto, e.sweptAt)
  }

  /** What a step does to flow `f`. */
  datatype Effect = Opened | Restarted | Finned(sender: Direction) | Touched | Ended | Untouched

  function EffectOf(s: State, e: Event, f: Flow): Effect {
    if Opens(s, e, f) then Opened
    else if Resets(s, e, f) || Evicts(s, e, f) then Ended
    else if !Records(s, e, f) then Untouched
    else if IsSynOut(DirectionOf(e), InfoOf(e)) then Restarted
    else if IsFin(InfoOf(e)) then Finned(DirectionOf(e))
    else Touched
  }

  function FlowAt(s: State, f: Flow): Option<FlowState> {
    if f in s.flows then Some(s.flows[f]) else None
  }

  /** What an effect makes of the flow's tracked state. */
  function Next(state: Option<FlowState>, effect: Effect, now: nat): Option<FlowState> {
    if effect.Opened? then Some(Active(now))
    else if effect.Ended? || state.None? then None
    else Some(match effect
      case Restarted => Active(now)
      case Finned(d) =>
        (match state.value
         case Active(_) => HalfClosed(now, d)
         case HalfClosed(_, first) => if d != first then Closing(now) else HalfClosed(now, first)
         case Closing(_) => state.value)
      case Touched => if state.value.Closing? then state.value else state.value.(seen := now)
      case _ => state.value)
  }

  /** The effect alone decides what becomes of the flow. */
  lemma StepAtFlow(s: State, e: Event, f: Flow)
    ensures FlowAt(Step(s, e), f) == Next(FlowAt(s, f), EffectOf(s, e, f), s.now)
  {
  }

  // ---- Provenance ----

  datatype Note = Note(effect: Effect, at: nat)

  function NoteAt(s: State, es: seq<Event>, j: nat, f: Flow): Note
    requires j < |es|
  {
    Note(EffectOf(After(s, es, j), es[j], f), After(s, es, j).now)
  }

  /** What the first `n` steps of a run did to flow `f`, and when. */
  function History(s: State, es: seq<Event>, n: nat, f: Flow): seq<Note>
    requires n <= |es|
  {
    seq(n, j requires 0 <= j < n => NoteAt(s, es, j, f))
  }

  function Opposite(d: Direction): Direction { if d.In? then Out else In }

  /**
   * Positions in a history that explain a tracked flow: its opening, latest beginning, first FIN and deciding record.
   */
  datatype Evidence = Evidence(openedAt: nat, began: nat, firstFin: nat, decided: nat)

  predicate Lasts(h: seq<Note>, ev: Evidence) {
    && ev.openedAt <= ev.began <= ev.decided < |h|
    && h[ev.openedAt].effect.Opened?
    && (forall j :: ev.openedAt < j < |h| ==> !h[j].effect.Ended? && !h[j].effect.Opened?)
    && (h[ev.began].effect.Opened? || h[ev.began].effect.Restarted?)
    && (forall j :: ev.began < j < |h| ==> !h[j].effect.Restarted?)
    && !h[ev.decided].effect.Untouched?
  }

  /** The tracked state is what the packets recorded since the flow began make it. */
  predicate Explains(h: seq<Note>, state: FlowState, ev: Evidence) {
    && Lasts(h, ev)
    && state.seen == h[ev.decided].at
    && match state
       case Active(_) =>
         && (forall j :: ev.began < j < |h| ==> !h[j].effect.Finned?)
         && (forall j :: ev.decided < j < |h| ==> h[j].effect.Untouched?)
       case HalfClosed(_, d) =>
         && ev.began < ev.firstFin <= ev.decided && h[ev.firstFin].effect == Finned(d)
         && (forall j :: ev.began < j < |h| ==> h[j].effect != Finned(Opposite(d)))
         && (forall j :: ev.decided < j < |h| ==> h[j].effect.Untouched?)
       case Closing(_) =>
         && ev.began < ev.firstFin < ev.decided
         && h[ev.firstFin].effect.Finned?
         && var second := Finned(Opposite(h[ev.firstFin].effect.sender));
            h[ev.decided].effect == second && forall j :: ev.began < j < ev.decided ==> h[j].effect != second
  }

  /** The tracked state a history leads to, from an untracked flow. */
  function Replay(h: seq<Note>): Option<FlowState> {
    if h == [] then None else Next(Replay(h[..|h| - 1]), h[|h| - 1].effect, h[|h| - 1].at)
  }

  lemma ExplainsNext(h: seq<Note>, state: FlowState, ev: Evidence, note: Note) returns (next: Evidence)
    requires Explains(h, state, ev) && !note.effect.Ended? && !note.effect.Opened?
    ensures Explains(h + [note], Next(Some(state), note.effect, note.at).value, next)
  {
    var m := |h|;
    next := match note.effect
      case Restarted => ev.(began := m, decided := m)
      case Finned(_) =>
        if state.Active? then ev.(firstFin := m, decided := m)
        else if state.Closing? then ev else ev.(decided := m)
      case Touched => if state.Closing? then ev else ev.(decided := m)
      case _ => ev;
  }

  lemma {:induction false} ReplayIsExplained(h: seq<Note>) returns (ev: Evidence)
    requires Replay(h).Some?
    ensures Explains(h, Replay(h).value, ev)
  {
    var m := |h| - 1;
    if h[m].effect.Opened? { return Evidence(m, m, m, m); }
    ev := ReplayIsExplained(h[..m]);
    ev := ExplainsNext(h[..m], Replay(h[..m]).value, ev, h[m]);
    assert h == h[..m] + [h[m]];
  }

  lemma {:induction false} TrackerReplaysHistory(s: State, es: seq<Event>, n: nat, f: Flow)
    requires s.flows == map[] && n <= |es|
    ensures FlowAt(After(s, es, n), f) == Replay(History(s, es, n, f))
  {
    if n > 0 {
      TrackerReplaysHistory(s, es, n - 1, f);
      StepAtFlow(After(s, es, n - 1), es[n - 1], f);
      HistoryGrows(s, es, n, f);
    }
  }

  lemma HistoryGrows(s: State, es: seq<Event>, n: nat, f: Flow)
    requires 0 < n <= |es|
    ensures var note := NoteAt(s, es, n - 1, f);
            Replay(History(s, es, n, f)) == Next(Replay(History(s, es, n - 1, f)), note.effect, note.at)
  {
    var h := History(s, es, n, f);
    assert h[n - 1] == NoteAt(s, es, n - 1, f) && h[..n - 1] == History(s, es, n - 1, f);
  }

  /** Every tracked flow was opened by an allowed outbound packet and is explained by the run since. */
  lemma TrackedFlowIsExplained(s: State, es: seq<Event>, n: nat, f: Flow) returns (ev: Evidence)
    requires s.flows == map[] && n <= |es|
    requires f in After(s, es, n).flows
    ensures Explains(History(s, es, n, f), After(s, es, n).flows[f], ev)
  {
    TrackerReplaysHistory(s, es, n, f);
    ev := ReplayIsExplained(History(s, es, n, f));
  }

  /** Conntrack, and neither a rule nor a default, is what admits this inbound packet. */
  predicate RescuedByConntrack(s: State, e: Event) {
    && IsPacket(e) && DirectionOf(e).In? && !s.config.disabled
    && Track(s.flows, In, InfoOf(e), s.now).admitted
    && (e.Packet? ==> FirstMatch(s.config.rules, e.query, 0).None?)
  }

  /**
   * An inbound packet that conntrack admits belongs to a flow opened by an earlier allowed outbound
   * packet, not reset or evicted since, whose deciding record is within its timeout.
   */
  lemma ConntrackProvenance(s: State, es: seq<Event>, n: nat) returns (ev: Evidence)
    requires s.flows == map[] && n < |es|
    requires RescuedByConntrack(After(s, es, n), es[n])
    ensures var f, now := FlowOf(In, InfoOf(es[n])), After(s, es, n).now;
            && Answer(After(s, es, n), es[n]) == Some(Allow)
            && f in After(s, es, n).flows
            && var state := After(s, es, n).flows[f];
            && Explains(History(s, es, n, f), state, ev)
            && es[ev.openedAt].Packet? && es[ev.openedAt].query.direction.Out?
            && Answer(After(s, es, ev.openedAt), es[ev.openedAt]) == Some(Allow)
            && After(s, es, ev.decided).now <= now < After(s, es, ev.decided).now + Timeout(state, f.proto)
  {
    ev := TrackedFlowIsExplained(s, es, n, FlowOf(In, InfoOf(es[n])));
    OpeningIsAllowed(After(s, es, ev.openedAt), es[ev.openedAt], FlowOf(In, InfoOf(es[n])));
    TimeNeverDecreases(s, es, ev.decided, n);
  }

  lemma {:induction false} TimeNeverDecreases(s: State, es: seq<Event>, i: nat, n: nat)
    requires i <= n <= |es|
    ensures After(s, es, i).now <= After(s, es, n).now
    decreases n
  {
    if i < n { TimeNeverDecreases(s, es, i, n - 1); }
  }

  lemma OpeningIsAllowed(s: State, e: Event, f: Flow)
    requires Opens(s, e, f)
    ensures e.Packet? && e.query.direction.Out? && Answer(s, e) == Some(Allow)
  {
  }

  // ---- The closing window ----

  /** An outbound packet opens the flow afresh, or restarts it with a SYN. */
  predicate BeginsAt(s: State, es: seq<Event>, j: nat, f: Flow) {
    j < |es| && (NoteAt(s, es, j, f).effect.Opened? || NoteAt(s, es, j, f).effect.Restarted?)
  }

  /** Once Closing, a flow keeps the same `since` until it is dropped or an outbound packet begins it again. */
  lemma {:induction false} ClosingIsFixed(s: State, es: seq<Event>, i: nat, n: nat, f: Flow)
    requires i <= n <= |es|
    requires f in After(s, es, i).flows && After(s, es, i).flows[f].Closing?
    requires forall j :: i <= j < n ==> !BeginsAt(s, es, j, f)
    ensures f in After(s, es, n).flows ==> After(s, es, n).flows[f] == After(s, es, i).flows[f]
    decreases n
  {
    if i < n {
      ClosingIsFixed(s, es, i, n - 1, f);
      StepAtFlow(After(s, es, n - 1), es[n - 1], f);
      assert !BeginsAt(s, es, n - 1, f);
    }
  }

  /** So from 30 s after the second FIN, conntrack admits nothing more, whatever traffic arrived meanwhile. */
  lemma ClosedWindowAdmitsNothing(s: State, es: seq<Event>, i: nat, n: nat)
    requires i <= n < |es| && IsPacket(es[n]) && DirectionOf(es[n]).In?
    requires var f := FlowOf(In, InfoOf(es[n]));
             && f in After(s, es, i).flows && After(s, es, i).flows[f].Closing?
             && After(s, es, i).flows[f].seen + TCP_CLOSING_TIMEOUT <= After(s, es, n).now
             && (forall j :: i <= j < n ==> !BeginsAt(s, es, j, f))
    ensures !RescuedByConntrack(After(s, es, n), es[n])
  {
    ClosingIsFixed(s, es, i, n, FlowOf(In, InfoOf(es[n])));
  }

  // ---- Eviction ----

  function Answers(s: State, es: seq<Event>): (r: seq<Option<Action>>)
    decreases es
    ensures |r| == |es|
  {
    if es == [] then [] else [Answer(s, es[0])] + Answers(Step(s, es[0]), es[1..])
  }

  function Without(s: State, f: Flow): State { s.(flows := s.flows - {f}) }

  predicate Expired(s: State, f: Flow) { f in s.flows && !Alive(s.flows[f], f.proto, s.now) }

  /** Dropping the entry now changes no answer in any continuation. */
  ghost predicate Transparent(s: State, f: Flow) {
    forall es :: Answers(s, es) == Answers(Without(s, f), es)
  }

  /** FIN states belong to TCP. */
  predicate WellFormed(s: State) {
    forall f :: f in s.flows && !s.flows[f].Active? ==> f.proto == TCP
  }

  lemma {:induction false} RunsAreWellFormed(s: State, es: seq<Event>, n: nat)
    requires s.flows == map[] && n <= |es|
    ensures WellFormed(After(s, es, n))
  {
    if n > 0 {
      var before := After(s, es, n - 1);
      RunsAreWellFormed(s, es, n - 1);
      forall f | f in After(s, es, n).flows && !After(s, es, n).flows[f].Active? ensures f.proto == TCP {
        StepAtFlow(before, es[n - 1], f);
      }
    }
  }

  /** `lean` is `full` without some expired Active entries. */
  predicate Similar(full: State, lean: State) {
    && full.config == lean.config && full.now == lean.now
    && (forall f :: f in lean.flows ==> f in full.flows && full.flows[f] == lean.flows[f])
    && (forall f :: f in full.flows && f !in lean.flows ==> full.flows[f].Active? && Expired(full, f))
  }

  lemma SimilarFlow(full: State, lean: State, e: Event, f: Flow)
    requires Similar(full, lean)
    ensures var a, b := Step(full, e), Step(lean, e);
            && (f in b.flows ==> f in a.flows && a.flows[f] == b.flows[f])
            && (f in a.flows && f !in b.flows ==> a.flows[f].Active? && Expired(a, f))
  {
    StepAtFlow(full, e, f);
    StepAtFlow(lean, e, f);
  }

  lemma SimilarStep(full: State, lean: State, e: Event)
    requires Similar(full, lean)
    ensures Similar(Step(full, e), Step(lean, e))
    ensures Answer(full, e) == Answer(lean, e)
  {
    forall f ensures
      var a, b := Step(full, e), Step(lean, e);
      && (f in b.flows ==> f in a.flows && a.flows[f] == b.flows[f])
      && (f in a.flows && f !in b.flows ==> a.flows[f].Active? && Expired(a, f))
    {
      SimilarFlow(full, lean, e, f);
    }
    SimilarAnswer(full, lean, e);
  }

  lemma SimilarAnswer(full: State, lean: State, e: Event)
    requires Similar(full, lean)
    ensures Answer(full, e) == Answer(lean, e)
  {
  }

  lemma {:induction false} SimilarRun(full: State, lean: State, es: seq<Event>)
    requires Similar(full, lean)
    ensures Answers(full, es) == Answers(lean, es)
    decreases es
  {
    if es != [] {
      SimilarStep(full, lean, es[0]);
      SimilarRun(Step(full, es[0]), Step(lean, es[0]), es[1..]);
    }
  }

  /** Evicting an expired entry is invisible for ever exactly when the entry is Active: always so outside TCP. */
  lemma EvictionIsTransparent(s: State, f: Flow)
    requires WellFormed(s) && Expired(s, f)
    ensures Transparent(s, f) <==> s.flows[f].Active?
    ensures f.proto != TCP ==> Transparent(s, f)
  {
    if s.flows[f].Active? {
      forall es ensures Answers(s, es) == Answers(Without(s, f), es) { SimilarRun(s, Without(s, f), es); }
    } else {
      var es := if s.flows[f].Closing? then ReopenedAfterClosing(f) else ClosedAgain(f, s.flows[f].fin);
      if s.flows[f].Closing? { ClosingEvictionShows(s, f); } else { HalfClosedEvictionShows(s, f); }
      assert Answers(s, es) != Answers(Without(s, f), es);
    }
  }

  const PLAIN := FirewallConfig(Deny, Allow, false, false, [])

  /** A packet of the TCP flow `f` with these flags, in this direction. */
  function Segment(f: Flow, d: Direction, flags: u8): Event {
    var info := if d.Out?
      then PacketInfo(f.localIp, f.peerIp, TCP, f.localPort, f.peerPort, flags, 0, f.icmpId, 40)
      else PacketInfo(f.peerIp, f.localIp, TCP, f.peerPort, f.localPort, flags, 0, f.icmpId, 40);
    Packet(Query(d, info, EndpointId(0), {}))
  }

  function ReopenedAfterClosing(f: Flow): seq<Event> {
    [Edit(PLAIN), Segment(f, Out, ACK), Segment(f, In, ACK)]
  }

  function ClosedAgain(f: Flow, fin: Direction): seq<Event> {
    [Edit(PLAIN), Segment(f, Out, ACK), Segment(f, Opposite(fin), FIN), Tick(TCP_CLOSING_TIMEOUT), Segment(f, In, ACK)]
  }

  lemma {:induction false} AnswersAt(s: State, es: seq<Event>, n: nat)
    requires n < |es|
    ensures Answers(s, es)[n] == Answer(After(s, es, n), es[n])
    decreases |es|
  {
    var t := Step(s, es[0]);
    if n > 0 {
      AnswersAt(t, es[1..], n - 1);
      AfterTail(s, es, n);
    }
  }

  lemma {:induction false} AfterTail(s: State, es: seq<Event>, n: nat)
    requires 0 < n <= |es|
    ensures After(s, es, n) == After(Step(s, es[0]), es[1..], n - 1)
    decreases n
  {
    if n > 1 { AfterTail(s, es, n - 1); }
  }

  /** Under the plain config every segment of a TCP flow reaches the tracker. */
  lemma PlainSegment(s: State, f: Flow, d: Direction, flags: u8)
    requires s.config == PLAIN && f.proto == TCP
    ensures var e := Segment(f, d, flags);
            && DirectionOf(e) == d && InfoOf(e).tcpFlags == flags && InfoOf(e).protocol == TCP && Reaches(s, e, f)
            && Step(s, e).config == PLAIN && Step(s, e).now == s.now
            && FlowAt(Step(s, e), f) == Next(FlowAt(s, f), EffectOf(s, e, f), s.now)
  {
    StepAtFlow(s, Segment(f, d, flags), f);
  }

  lemma PlainAnswer(s: State, f: Flow)
    requires s.config == PLAIN && f.proto == TCP
    ensures Answer(s, Segment(f, In, ACK))
            == Some(if f in s.flows && Alive(s.flows[f], TCP, s.now) then Allow else Deny)
  {
  }

  /** A kept Closing entry refuses what a dropped one would let an outbound packet reopen. */
  lemma ClosingEvictionShows(s: State, f: Flow)
    requires f.proto == TCP && Expired(s, f) && s.flows[f].Closing?
    ensures Answers(s, ReopenedAfterClosing(f)) != Answers(Without(s, f), ReopenedAfterClosing(f))
  {
    var es := ReopenedAfterClosing(f);
    forall t | t == s || t == Without(s, f)
      ensures Answers(t, es)[2] == Some(if t == s then Deny else Allow)
    {
      var t1 := Step(t, es[0]);
      var t2 := Step(t1, es[1]);
      assert After(t, es, 0) == t && After(t, es, 1) == t1 && After(t, es, 2) == t2;
      PlainSegment(t1, f, Out, ACK);
      PlainAnswer(t2, f);
      AnswersAt(t, es, 2);
    }
    assert f in s.flows && f !in Without(s, f).flows;
  }

  /** A kept HalfClosed entry remembers the first FIN, so a later one closes it 270 s earlier. */
  lemma HalfClosedEvictionShows(s: State, f: Flow)
    requires f.proto == TCP && Expired(s, f) && s.flows[f].HalfClosed?
    ensures var es := ClosedAgain(f, s.flows[f].fin); Answers(s, es) != Answers(Without(s, f), es)
  {
    var es := ClosedAgain(f, s.flows[f].fin);
    ClosedAgainAnswer(s, f, s.flows[f].fin);
    ClosedAgainAnswer(Without(s, f), f, s.flows[f].fin);
    assert Answers(s, es)[4] != Answers(Without(s, f), es)[4];
  }

  lemma ClosedAgainAnswer(t: State, f: Flow, fin: Direction)
    requires f.proto == TCP && (f !in t.flows || (Expired(t, f) && t.flows[f].HalfClosed? && t.flows[f].fin == fin))
    ensures Answers(t, ClosedAgain(f, fin))[4] == Some(if f in t.flows then Deny else Allow)
  {
    var es := ClosedAgain(f, fin);
    var t1 := Step(t, es[0]);
    var t2 := Step(t1, es[1]);
    PlainSegment(t1, f, Out, ACK);
    assert FlowAt(t2, f) == Some(if f in t.flows then HalfClosed(t.now, fin) else Active(t.now));
    var t3 := Step(t2, es[2]);
    PlainSegment(t2, f, Opposite(fin), FIN);
    assert FlowAt(t3, f) == Some(if f in t.flows then Closing(t.now) else HalfClosed(t.now, Opposite(fin)));
    var t4 := Step(t3, es[3]);
    PlainAnswer(t4, f);
    ClosedAgainStates(t, f, fin);
    AnswersAt(t, es, 4);
  }

  lemma ClosedAgainStates(t: State, f: Flow, fin: Direction)
    ensures var es := ClosedAgain(f, fin);
            After(t, es, 4) == Step(Step(Step(Step(t, es[0]), es[1]), es[2]), es[3])
  {
    var es := ClosedAgain(f, fin);
    assert After(t, es, 2) == Step(After(t, es, 1), es[1]);
  }

  const EMPTY := State(PLAIN, map[], 0)

  /** A connection open and then closed from one side, or from both, and left alone until it expires. */
  function ClosedOnce(f: Flow): seq<Event> {
    [Segment(f, Out, ACK), Segment(f, Out, FIN), Tick(TCP_FLOW_TIMEOUT)]
  }

  function ClosedTwice(f: Flow): seq<Event> {
    [Segment(f, Out, ACK), Segment(f, Out, FIN), Segment(f, In, FIN), Tick(TCP_FLOW_TIMEOUT)]
  }

  lemma OpenedAndFinned(f: Flow) returns (s: State)
    requires f.proto == TCP
    ensures s == Step(Step(EMPTY, Segment(f, Out, ACK)), Segment(f, Out, FIN))
    ensures s.config == PLAIN && s.now == 0 && FlowAt(s, f) == Some(HalfClosed(0, Out))
  {
    var open := Step(EMPTY, Segment(f, Out, ACK));
    PlainSegment(EMPTY, f, Out, ACK);
    assert FlowAt(open, f) == Some(Active(0));
    s := Step(open, Segment(f, Out, FIN));
    PlainSegment(open, f, Out, FIN);
  }

  /**
   * Such entries are reached: for every TCP connection, runs from an empty tracker that end in one whose eviction
   * shows.
   */
  lemma ShowingEvictionsAreReached(f: Flow)
    requires f.proto == TCP
    ensures var s := After(EMPTY, ClosedOnce(f), 3); Expired(s, f) && s.flows[f].HalfClosed? && !Transparent(s, f)
    ensures var s := After(EMPTY, ClosedTwice(f), 4); Expired(s, f) && s.flows[f].Closing? && !Transparent(s, f)
  {
    var once, twice := ClosedOnce(f), ClosedTwice(f);
    var finned := OpenedAndFinned(f);
    assert After(EMPTY, once, 1) == Step(EMPTY, once[0]) && After(EMPTY, twice, 1) == Step(EMPTY, twice[0]);
    assert After(EMPTY, once, 2) == finned && After(EMPTY, twice, 2) == finned;
    var half := After(EMPTY, once, 3);
    assert half == Step(finned, once[2]);
    HalfClosedEvictionShows(half, f);
    PlainSegment(finned, f, In, FIN);
    var closing := After(EMPTY, twice, 4);
    assert After(EMPTY, twice, 3) == Step(finned, twice[2]) && closing == Step(Step(finned, twice[2]), twice[3]);
    ClosingEvictionShows(closing, f);
  }

  /** Whatever the state of an expired entry, dropping it leaves the next inbound answer as it was. */
  lemma ExpiredEntryAdmitsNothing(s: State, f: Flow, e: Event)
    requires Expired(s, f) && IsPacket(e) && DirectionOf(e).In?
    ensures Answer(s, e) == Answer(Without(s, f), e)
    ensures FlowOf(In, InfoOf(e)) == f ==> !RescuedByConntrack(s, e)
  {
  }
}
