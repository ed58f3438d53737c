/**
 * The live hint cache and its copy on disk (`WarmLookup` in src/endpoint_hints.rs). Saving can fail at
 * any time, before or after the file changed; memory is authoritative.
 */
module WarmLookup {
  import opened Wrappers
  import opened Firewall
  import opened EndpointHints

  const PERSIST_AFTER: nat := 30 * 60

  /** How a settings write ends: done, refused with the file untouched, or reported failed after the file changed. */
  datatype Save = Saved | Refused | FailedAfterWrite

  datatype Cache = Cache(memory: seq<Hint>, disk: seq<Hint>)
  datatype Outcome = Outcome(cache: Cache, ok: bool)

  function Write(c: Cache, hints: seq<Hint>, save: Save): Outcome {
    match save
    case Saved => Outcome(Cache(hints, hints), true)
    case Refused => Outcome(c, false)
    case FailedAfterWrite => Outcome(c.(disk := hints), false)
  }

  function UsableOnly(addrs: seq<TransportAddr>): seq<TransportAddr> {
    if addrs == [] then []
    else if Usable(addrs[0]) then [addrs[0]] + UsableOnly(addrs[1..])
    else UsableOnly(addrs[1..])
  }

  lemma {:induction false} UsableOnlyMember(addrs: seq<TransportAddr>, a: TransportAddr)
    ensures a in UsableOnly(addrs) <==> a in addrs && Usable(a)
  {
    if addrs != [] { UsableOnlyMember(addrs[1..], a); }
  }

  predicate SavedRecently(hs: seq<Hint>, peer: EndpointId, addrs: seq<TransportAddr>, now: nat) {
    forall a :: a in addrs ==>
      exists h :: h in hs && h.peer == peer && h.addr == a && h.seen <= now && now - h.seen < PERSIST_AFTER
  }

  /** The hints that stay when `peer`'s copies of `addrs` go. */
  function WithoutPaths(hs: seq<Hint>, peer: EndpointId, addrs: seq<TransportAddr>): seq<Hint> {
    if hs == [] then []
    else if hs[0].peer != peer || hs[0].addr !in addrs then [hs[0]] + WithoutPaths(hs[1..], peer, addrs)
    else WithoutPaths(hs[1..], peer, addrs)
  }

  function Stamped(peer: EndpointId, addrs: seq<TransportAddr>, now: nat): (r: seq<Hint>)
    ensures |r| == |addrs| && forall i :: 0 <= i < |r| ==> r[i] == Hint(peer, addrs[i], now)
  {
    seq(|addrs|, i requires 0 <= i < |addrs| => Hint(peer, addrs[i], now))
  }

  function Remembered(hs: seq<Hint>, peer: EndpointId, addrs: seq<TransportAddr>, now: nat): seq<Hint> {
    Pruned(WithoutPaths(Pruned(hs, now), peer, addrs) + Stamped(peer, addrs, now), now)
  }

  /** `remember`: the clock is read once to see what was saved recently and once to stamp, and may fail both times. */
  function Remember(c: Cache, peer: EndpointId, all: seq<TransportAddr>, t1: Option<nat>, t2: Option<nat>,
                    save: Save): Outcome {
    var addrs := UsableOnly(all);
    if t1.None? then Outcome(c, false)
    else if SavedRecently(c.memory, peer, addrs, t1.value) then Outcome(c, true)
    else if t2.None? then Outcome(c, false)
    else Write(c, Remembered(c.memory, peer, addrs, t2.value), save)
  }

  function WithoutDirect(hs: seq<Hint>, peer: EndpointId): seq<Hint> {
    if hs == [] then []
    else if hs[0].peer != peer || hs[0].addr.Relay? then [hs[0]] + WithoutDirect(hs[1..], peer)
    else WithoutDirect(hs[1..], peer)
  }

  /** `forget_direct_hints`: memory forgets first, whatever becomes of the save. */
  function Forget(c: Cache, peer: EndpointId, t: Option<nat>, save: Save): Outcome {
    var forgotten := c.(memory := WithoutDirect(c.memory, peer));
    if t.None? then Outcome(forgotten, false)
    else Write(forgotten, Pruned(forgotten.memory, t.value), save)
  }

  /** The paths a lookup of `peer` offers. */
  function Resolved(c: Cache, peer: EndpointId, now: nat): set<TransportAddr> {
    set h | h in Pruned(c.memory, now) && h.peer == peer :: h.addr
  }

  // ---- The object ----

  class Lookup {
    var hints: seq<Hint>
    var disk: seq<Hint>

    ghost function State(): Cache
      reads this
    {
      Cache(hints, disk)
    }

    constructor (loaded: seq<Hint>, disk: seq<Hint>, now: nat)
      ensures State() == Cache(Pruned(loaded, now), disk)
    {
      var pruned := Prune(loaded, now);
      this.hints, this.disk := pruned, disk;
    }

    method Snapshot(now: nat) returns (r: seq<Hint>)
      ensures r == Pruned(hints, now)
    {
      r := Prune(hints, now);
    }

    method UpdateSettings(next: seq<Hint>, save: Save) returns (ok: bool)
      modifies this
      ensures Outcome(State(), ok) == Write(old(State()), next, save)
    {
      if save.Refused? { return false; }
      disk := next;
      if save.FailedAfterWrite? { return false; }
      hints := next;
      return true;
    }

    method RememberPaths(peer: EndpointId, all: seq<TransportAddr>, t1: Option<nat>, t2: Option<nat>, save: Save)
        returns (ok: bool)
      modifies this
      ensures Outcome(State(), ok) == Remember(old(State()), peer, all, t1, t2, save)
    {
      var addrs := UsableOnly(all);
      if t1.None? { return false; }
      if SavedRecently(hints, peer, addrs, t1.value) { return true; }
      if t2.None? { return false; }
      var next := Snapshot(t2.value);
      next := Prune(WithoutPaths(next, peer, addrs) + Stamped(peer, addrs, t2.value), t2.value);
      ok := UpdateSettings(next, save);
    }

    method ForgetDirectHints(peer: EndpointId, t: Option<nat>, save: Save) returns (ok: bool)
      modifies this
      ensures Outcome(State(), ok) == Forget(old(State()), peer, t, save)
    {
      var kept, i := [], |hints|;
      while i > 0
        invariant 0 <= i <= |hints| && kept == WithoutDirect(hints[i..], peer) && State() == old(State())
      {
        i := i - 1;
        assert hints[i..][1..] == hints[i + 1..];
        if hints[i].peer != peer || hints[i].addr.Relay? { kept := [hints[i]] + kept; }
      }
      assert hints[0..] == hints;
      hints := kept;
      if t.None? { return false; }
      var next := Snapshot(t.value);
      ok := UpdateSettings(next, save);
    }
  }

  // ---- Forgetting ----

  datatype Op =
    | RememberOp(peer: EndpointId, addrs: seq<TransportAddr>, t1: Option<nat>, t2: Option<nat>, save: Save)
    | ForgetOp(peer: EndpointId, t: Option<nat>, save: Save)

  function Apply(c: Cache, op: Op): Outcome {
    match op
    case RememberOp(p, addrs, t1, t2, save) => Remember(c, p, addrs, t1, t2, save)
    case ForgetOp(p, t, save) => Forget(c, p, t, save)
  }

  function After(c: Cache, ops: seq<Op>, n: nat): Cache
    requires n <= |ops|
  {
    if n == 0 then c else Apply(After(c, ops, n - 1), ops[n - 1]).cache
  }

  predicate NoDirect(hs: seq<Hint>, peer: EndpointId) { forall h :: h in hs && h.peer == peer ==> h.addr.Relay? }

  /** The operation teaches the cache no direct path of `peer`. */
  predicate TeachesNoDirect(op: Op, peer: EndpointId) {
    op.RememberOp? && op.peer == peer ==> forall a :: a in op.addrs ==> !a.Ip?
  }

  lemma PrunedNoDirect(hs: seq<Hint>, now: nat, peer: EndpointId)
    requires NoDirect(hs, peer)
    ensures NoDirect(Pruned(hs, now), peer)
  {
    forall h | h in Pruned(hs, now) && h.peer == peer ensures h.addr.Relay? { PrunedMember(hs, now, h); }
  }

  lemma {:induction false} WithoutPathsMember(hs: seq<Hint>, peer: EndpointId, addrs: seq<TransportAddr>, h: Hint)
    ensures h in WithoutPaths(hs, peer, addrs) <==> h in hs && (h.peer != peer || h.addr !in addrs)
  {
    if hs != [] { WithoutPathsMember(hs[1..], peer, addrs, h); }
  }

  lemma {:induction false} WithoutDirectMember(hs: seq<Hint>, peer: EndpointId, h: Hint)
    ensures h in WithoutDirect(hs, peer) <==> h in hs && (h.peer != peer || h.addr.Relay?)
  {
    if hs != [] { WithoutDirectMember(hs[1..], peer, h); }
  }

  lemma RememberedNoDirect(hs: seq<Hint>, p: EndpointId, all: seq<TransportAddr>, now: nat, peer: EndpointId)
    requires NoDirect(hs, peer) && (p == peer ==> forall a :: a in all ==> !a.Ip?)
    ensures NoDirect(Remembered(hs, p, UsableOnly(all), now), peer)
  {
    var addrs := UsableOnly(all);
    var base := Pruned(hs, now);
    PrunedNoDirect(hs, now, peer);
    var next := WithoutPaths(base, p, addrs) + Stamped(p, addrs, now);
    forall h | h in next && h.peer == peer ensures h.addr.Relay? {
      WithoutPathsMember(base, p, addrs, h);
      UsableOnlyMember(all, h.addr);
    }
    PrunedNoDirect(next, now, peer);
  }

  /** One operation: memory stays clean, and so does anything written. */
  lemma OpKeepsForgotten(c: Cache, op: Op, peer: EndpointId)
    requires NoDirect(c.memory, peer) && TeachesNoDirect(op, peer)
    ensures NoDirect(Apply(c, op).cache.memory, peer)
    ensures Apply(c, op).cache.disk == c.disk || NoDirect(Apply(c, op).cache.disk, peer)
    ensures Apply(c, op).ok && Apply(c, op).cache != c ==> NoDirect(Apply(c, op).cache.disk, peer)
  {
    match op
    case RememberOp(p, all, _, t2, _) =>
      if t2.Some? { RememberedNoDirect(c.memory, p, all, t2.value, peer); }
    case ForgetOp(p, t, _) =>
      var forgotten := WithoutDirect(c.memory, p);
      forall h | h in forgotten && h.peer == peer ensures h.addr.Relay? { WithoutDirectMember(c.memory, p, h); }
      if t.Some? { PrunedNoDirect(forgotten, t.value, peer); }
  }

  /**
   * After `forget_direct_hints`, even one whose save failed, no direct path of the peer is in memory or in
   * anything written later, until the peer is remembered with a direct path again.
   */
  lemma {:induction false} ForgottenStaysForgotten(c: Cache, peer: EndpointId, t: Option<nat>, save: Save,
                                                   ops: seq<Op>, n: nat)
    requires n <= |ops| && forall i :: 0 <= i < n ==> TeachesNoDirect(ops[i], peer)
    ensures var start := Forget(c, peer, t, save).cache;
            && NoDirect(After(start, ops, n).memory, peer)
            && (After(start, ops, n).disk == c.disk || NoDirect(After(start, ops, n).disk, peer))
  {
    var start := Forget(c, peer, t, save).cache;
    if n == 0 {
      var forgotten := WithoutDirect(c.memory, peer);
      forall h | h in forgotten && h.peer == peer ensures h.addr.Relay? { WithoutDirectMember(c.memory, peer, h); }
      if t.Some? { PrunedNoDirect(forgotten, t.value, peer); }
    } else {
      ForgottenStaysForgotten(c, peer, t, save, ops, n - 1);
      OpKeepsForgotten(After(start, ops, n - 1), ops[n - 1], peer);
    }
  }

  /**
   * When the clock or the save fails, exactly the peer's direct paths leave memory; a save that succeeds only prunes.
   */
  lemma ForgetKeepsTheRest(c: Cache, peer: EndpointId, t: Option<nat>, save: Save, h: Hint)
    ensures !Forget(c, peer, t, save).ok ==>
              (h in Forget(c, peer, t, save).cache.memory <==> h in c.memory && (h.peer != peer || h.addr.Relay?))
    ensures Forget(c, peer, t, save).ok ==>
              Forget(c, peer, t, save).cache.memory == Pruned(WithoutDirect(c.memory, peer), t.value)
  {
    WithoutDirectMember(c.memory, peer, h);
  }

  // ---- What memory always is ----

  /** Within the limits, oldest first, with a real date: what every prune leaves. */
  predicate Tidy(hs: seq<Hint>) {
    OldestFirst(hs) && Limited(hs) && forall h :: h in hs ==> Usable(h.addr) && h.seen != 0
  }

  lemma PrunedIsTidy(hs: seq<Hint>, now: nat)
    ensures Tidy(Pruned(hs, now))
  {
    PruneLimits(hs, now, Hint(EndpointId(0), Ip(0), 0));
    forall h | h in Pruned(hs, now) ensures Usable(h.addr) && h.seen != 0 { PrunedMember(hs, now, h); }
  }

  predicate Sublist(a: seq<Hint>, b: seq<Hint>) {
    if b == [] then a == []
    else Sublist(a, b[1..]) || (a != [] && a[0] == b[0] && Sublist(a[1..], b[1..]))
  }

  lemma {:induction false} SublistMember(a: seq<Hint>, b: seq<Hint>, p: EndpointId)
    requires Sublist(a, b)
    ensures Peers(a) <= Peers(b) && Pairs(a) <= Pairs(b) && PathCount(a, p) <= PathCount(b, p)
    ensures forall h :: h in a ==> h in b
  {
    if b != [] {
      if Sublist(a, b[1..]) {
        SublistMember(a, b[1..], p);
      } else {
        SublistMember(a[1..], b[1..], p);
        assert a == [a[0]] + a[1..];
      }
    }
  }

  lemma SublistFits(newer: seq<Hint>, all: seq<Hint>, h: Hint)
    requires Sublist(newer, all) && Limited(all) && Fits(all, h)
    ensures Fits(newer, h)
  {
    SublistMember(newer, all, h.peer);
    LimitedIsWithin(all);
    SubsetSize(Peers(newer), Peers(all));
    if h.peer !in Peers(newer) && h.peer in Peers(all) { SubsetSize(Peers(newer) + {h.peer}, Peers(all)); }
  }

  lemma SubsetSize<T>(a: set<T>, b: set<T>)
    requires a <= b
    ensures |a| <= |b| && (|a| == |b| ==> a == b)
  {
    assert b == a + (b - a);
  }

  lemma {:induction false} SublistTidy(a: seq<Hint>, b: seq<Hint>)
    requires Sublist(a, b) && Limited(b) && OldestFirst(b)
    ensures Limited(a) && OldestFirst(a)
  {
    if b != [] {
      if Sublist(a, b[1..]) {
        SublistTidy(a, b[1..]);
      } else {
        SublistTidy(a[1..], b[1..]);
        SublistFits(a[1..], b[1..], a[0]);
        if |a| > 1 {
          SublistMember(a[1..], b[1..], a[0].peer);
          HeadIsOldest(b, a[1]);
        }
      }
    }
  }

  lemma {:induction false} FreshSublist(hs: seq<Hint>, now: nat)
    ensures Sublist(FreshOnly(hs, now), hs)
  {
    if hs != [] {
      FreshSublist(hs[1..], now);
      Cons(hs[0], FreshOnly(hs[1..], now));
    }
  }

  lemma {:induction false} WithoutDirectSublist(hs: seq<Hint>, peer: EndpointId)
    ensures Sublist(WithoutDirect(hs, peer), hs)
  {
    if hs != [] {
      WithoutDirectSublist(hs[1..], peer);
      Cons(hs[0], WithoutDirect(hs[1..], peer));
    }
  }

  /** Every operation leaves memory tidy, however its save ends. */
  lemma OpKeepsTidy(c: Cache, op: Op)
    requires Tidy(c.memory)
    ensures Tidy(Apply(c, op).cache.memory)
  {
    match op
    case RememberOp(p, all, _, t2, _) =>
      if t2.Some? {
        var addrs := UsableOnly(all);
        PrunedIsTidy(WithoutPaths(Pruned(c.memory, t2.value), p, addrs) + Stamped(p, addrs, t2.value), t2.value);
      }
    case ForgetOp(p, t, _) =>
      var forgotten := WithoutDirect(c.memory, p);
      WithoutDirectSublist(c.memory, p);
      SublistTidy(forgotten, c.memory);
      SublistMember(forgotten, c.memory, p);
      if t.Some? { PrunedIsTidy(forgotten, t.value); }
  }

  /** So memory is tidy at every moment of every run from startup on, whatever was loaded and whichever saves fail. */
  lemma {:induction false} RunsStayTidy(loaded: seq<Hint>, disk: seq<Hint>, now: nat, ops: seq<Op>, n: nat)
    requires n <= |ops|
    ensures Tidy(After(Cache(Pruned(loaded, now), disk), ops, n).memory)
  {
    if n == 0 {
      PrunedIsTidy(loaded, now);
    } else {
      RunsStayTidy(loaded, disk, now, ops, n - 1);
      OpKeepsTidy(After(Cache(Pruned(loaded, now), disk), ops, n - 1), ops[n - 1]);
    }
  }

  /** On what memory holds, a lookup's prune only filters by age: no limit ever hides a live path. */
  lemma SnapshotOnlyFilters(hs: seq<Hint>, now: nat)
    requires Tidy(hs)
    ensures Pruned(hs, now) == FreshOnly(hs, now)
  {
    FreshSublist(hs, now);
    SublistTidy(FreshOnly(hs, now), hs);
    SortedIsIdentity(FreshOnly(hs, now));
    LimitedIsKept(FreshOnly(hs, now));
  }

  // ---- Remembering ----

  function PathsOf(hs: seq<Hint>, peer: EndpointId): set<TransportAddr> {
    set h | h in hs && h.peer == peer :: h.addr
  }

  lemma {:induction false} PathsAreDistinct(hs: seq<Hint>, peer: EndpointId)
    requires Limited(hs)
    ensures |PathsOf(hs, peer)| == PathCount(hs, peer)
  {
    if hs != [] {
      PathsAreDistinct(hs[1..], peer);
      var rest := PathsOf(hs[1..], peer);
      if hs[0].peer == peer {
        assert PathsOf(hs, peer) == rest + {hs[0].addr};
        assert hs[0].addr !in rest;
      } else {
        assert PathsOf(hs, peer) == rest;
      }
    }
  }

  lemma {:induction false} InsertAppend(x: Hint, hs: seq<Hint>, b: seq<Hint>)
    requires forall h :: h in b ==> x.seen <= h.seen
    ensures Insert(x, hs + b) == Insert(x, hs) + b
  {
    if hs == [] {
      assert [] + b == b;
      InsertOldest(x, b);
    } else {
      assert (hs + b)[1..] == hs[1..] + b;
      InsertAppend(x, hs[1..], b);
    }
  }

  /** Hints stamped now, appended last, stay last through the sort. */
  lemma {:induction false} SortedAppend(a: seq<Hint>, b: seq<Hint>, now: nat)
    requires (forall h :: h in a ==> h.seen <= now) && (forall h :: h in b ==> h.seen == now) && OldestFirst(b)
    ensures Sorted(a + b) == Sorted(a) + b
  {
    if a == [] {
      assert [] + b == b;
      SortedIsIdentity(b);
    } else {
      assert (a + b)[1..] == a[1..] + b;
      SortedAppend(a[1..], b, now);
      InsertAppend(a[0], Sorted(a[1..]), b);
    }
  }

  lemma {:induction false} FreshAppend(a: seq<Hint>, b: seq<Hint>, now: nat)
    ensures FreshOnly(a + b, now) == FreshOnly(a, now) + FreshOnly(b, now)
  {
    if a == [] {
      assert [] + b == b;
    } else {
      assert (a + b)[1..] == a[1..] + b;
      FreshAppend(a[1..], b, now);
    }
  }

  lemma {:induction false} KeptNewest(a: seq<Hint>, b: seq<Hint>, h: Hint)
    requires h in Kept(b)
    ensures h in Kept(a + b)
  {
    if a == [] {
      assert [] + b == b;
    } else {
      assert (a + b)[1..] == a[1..] + b;
      KeptNewest(a[1..], b, h);
    }
  }

  lemma {:induction false} SuffixLimited(hs: seq<Hint>, k: nat)
    requires k <= |hs| && Limited(hs)
    ensures Limited(hs[k..])
  {
    if k > 0 {
      SuffixLimited(hs[1..], k - 1);
      assert hs[k..] == hs[1..][k - 1..];
    } else {
      assert hs[0..] == hs;
    }
  }

  /** Among at most eight paths of one peer, only an equal path can be in the way. */
  lemma OnlyACopyDisplaces(rest: seq<Hint>, x: Hint, paths: set<TransportAddr>)
    requires Limited(rest) && x.addr in paths && |paths| <= MAX_PATHS_PER_PEER
    requires forall h :: h in rest ==> h.peer == x.peer && h.addr in paths
    requires !Fits(rest, x)
    ensures (x.peer, x.addr) in Pairs(rest)
  {
    assert Peers(rest) <= {x.peer};
    SubsetSize(Peers(rest), {x.peer});
    PathsAreDistinct(rest, x.peer);
    SubsetSize(PathsOf(rest, x.peer), paths);
    if PathCount(rest, x.peer) >= MAX_PATHS_PER_PEER { assert x.addr in PathsOf(rest, x.peer); }
  }

  /** At most eight paths of one peer, all stamped now: each survives. */
  lemma StampedSurvive(peer: EndpointId, addrs: seq<TransportAddr>, now: nat, a: TransportAddr)
    requires a in addrs && |set x | x in addrs| <= MAX_PATHS_PER_PEER
    ensures Hint(peer, a, now) in Kept(Stamped(peer, addrs, now))
  {
    var news, x := Stamped(peer, addrs, now), Hint(peer, a, now);
    var kept := Kept(news);
    var i :| 0 <= i < |addrs| && addrs[i] == a;
    assert news[i] == x;
    EqualTimesOrdered(news);
    KeptOrDisplaced(news, x);
    KeptLimited(news);
    forall h | h in kept ensures h.peer == peer && h.seen == now && h.addr in addrs { KeptMember(news, h); }
    if Displaced(kept, x) {
      var k :| 0 <= k <= |kept| && CrowdedOut(kept, k, x);
      SuffixLimited(kept, k);
      OnlyACopyDisplaces(kept[k..], x, set y | y in addrs);
      var h :| h in kept[k..] && (h.peer, h.addr) == (x.peer, x.addr);
      assert h == x;
    }
  }

  lemma {:induction false} EqualTimesOrdered(hs: seq<Hint>)
    requires forall g, h :: g in hs && h in hs ==> g.seen == h.seen
    ensures OldestFirst(hs)
  {
    if |hs| > 1 { EqualTimesOrdered(hs[1..]); }
  }

  lemma RememberedHolds(hs: seq<Hint>, peer: EndpointId, addrs: seq<TransportAddr>, now: nat, a: TransportAddr)
    requires now > 0 && a in addrs && |set x | x in addrs| <= MAX_PATHS_PER_PEER
    requires forall x :: x in addrs ==> Usable(x)
    ensures Hint(peer, a, now) in Remembered(hs, peer, addrs, now)
  {
    var base, news := WithoutPaths(Pruned(hs, now), peer, addrs), Stamped(peer, addrs, now);
    var recent := FreshOnly(base, now);
    FreshAppend(base, news, now);
    EqualTimesOrdered(news);
    forall h | h in news ensures Fresh(h, now) {}
    DatedIfAll(news, now);
    StillFresh(news, now);
    forall h | h in recent ensures h.seen <= now { FreshOnlyMember(base, now, h); }
    SortedAppend(recent, news, now);
    StampedSurvive(peer, addrs, now, a);
    KeptNewest(Sorted(recent), news, Hint(peer, a, now));
  }

  function PathSet(all: seq<TransportAddr>): set<TransportAddr> { set a | a in all && Usable(a) }

  /** The clock reading a successful `remember` acted on: the one that found everything saved, or the one it stamped. */
  function DecidedAt(c: Cache, peer: EndpointId, all: seq<TransportAddr>, t1: nat, t2: Option<nat>): nat {
    if t2.None? || SavedRecently(c.memory, peer, UsableOnly(all), t1) then t1 else t2.value
  }

  /** After a successful `remember`, a lookup at that instant offers every path exactly when there are at most eight. */
  lemma RememberThenResolve(c: Cache, peer: EndpointId, all: seq<TransportAddr>, t1: nat, t2: Option<nat>, save: Save)
    requires Tidy(c.memory) && Remember(c, peer, all, Some(t1), t2, save).ok
    ensures var paths, now := PathSet(all), DecidedAt(c, peer, all, t1, t2);
            paths <= Resolved(Remember(c, peer, all, Some(t1), t2, save).cache, peer, now)
            <==> paths == {} || (now > 0 && |paths| <= MAX_PATHS_PER_PEER)
  {
    var addrs, paths, now := UsableOnly(all), PathSet(all), DecidedAt(c, peer, all, t1, t2);
    var next := Remember(c, peer, all, Some(t1), t2, save).cache;
    forall a ensures a in addrs <==> a in paths { UsableOnlyMember(all, a); }
    assert (set x | x in addrs) == paths;
    OpKeepsTidy(c, RememberOp(peer, all, Some(t1), t2, save));
    var offered := Resolved(next, peer, now);
    if now > 0 && |paths| <= MAX_PATHS_PER_PEER {
      forall a | a in paths ensures a in offered {
        var h: Hint;
        if SavedRecently(c.memory, peer, addrs, t1) {
          h :| h in next.memory && h.peer == peer && h.addr == a && h.seen <= now && now - h.seen < PERSIST_AFTER;
          assert Fresh(h, now);
        } else {
          h := Hint(peer, a, now);
          RememberedHolds(c.memory, peer, addrs, now, a);
        }
        SnapshotOnlyFilters(next.memory, now);
        FreshOnlyMember(next.memory, now, h);
      }
    }
    if paths != {} && paths <= offered {
      var a :| a in paths;
      var h :| h in Pruned(next.memory, now) && h.peer == peer && h.addr == a;
      PrunedMember(next.memory, now, h);
      PruneLimits(next.memory, now, h);
      PathsAreDistinct(Pruned(next.memory, now), peer);
      assert offered == PathsOf(Pruned(next.memory, now), peer);
      SubsetSize(paths, offered);
    }
  }

  /** And so at every moment of every run from startup on. */
  lemma RememberInAnyRun(loaded: seq<Hint>, disk: seq<Hint>, started: nat, ops: seq<Op>, n: nat,
                         peer: EndpointId, all: seq<TransportAddr>, t1: nat, t2: Option<nat>, save: Save)
    requires n <= |ops|
    ensures var c := After(Cache(Pruned(loaded, started), disk), ops, n);
            var paths, now := PathSet(all), DecidedAt(c, peer, all, t1, t2);
            var done := Remember(c, peer, all, Some(t1), t2, save);
            done.ok ==>
              (paths <= Resolved(done.cache, peer, now) <==>
               paths == {} || (now > 0 && |paths| <= MAX_PATHS_PER_PEER))
  {
    var c := After(Cache(Pruned(loaded, started), disk), ops, n);
    RunsStayTidy(loaded, disk, started, ops, n);
    if Remember(c, peer, all, Some(t1), t2, save).ok { RememberThenResolve(c, peer, all, t1, t2, save); }
  }

  /** Every usable path of the list is remembered for the peer, stamped less than half an hour before `now`. */
  predicate KnownSince(memory: seq<Hint>, peer: EndpointId, all: seq<TransportAddr>, now: nat) {
    forall a :: a in all && (a.Ip? || a.Relay?) ==>
      exists h :: h in memory && h.peer == peer && h.addr == a && h.seen <= now < h.seen + 1800
  }

  lemma KnownIsSavedRecently(memory: seq<Hint>, peer: EndpointId, all: seq<TransportAddr>, now: nat)
    ensures KnownSince(memory, peer, all, now) <==> SavedRecently(memory, peer, UsableOnly(all), now)
  {
    forall a ensures a in UsableOnly(all) <==> a in all && (a.Ip? || a.Relay?) { UsableOnlyMember(all, a); }
    if KnownSince(memory, peer, all, now) {
      forall a | a in UsableOnly(all)
        ensures exists h :: h in memory && h.peer == peer && h.addr == a
                            && h.seen <= now && now - h.seen < PERSIST_AFTER
      {
        var h :| h in memory && h.peer == peer && h.addr == a && h.seen <= now < h.seen + 1800;
      }
    }
    if SavedRecently(memory, peer, UsableOnly(all), now) {
      forall a | a in all && (a.Ip? || a.Relay?)
        ensures exists h :: h in memory && h.peer == peer && h.addr == a && h.seen <= now < h.seen + 1800
      {
        var h :| h in memory && h.peer == peer && h.addr == a && h.seen <= now && now - h.seen < PERSIST_AFTER;
      }
    }
  }

  /** One of the paths being remembered. */
  predicate IsNews(h: Hint, peer: EndpointId, all: seq<TransportAddr>) {
    h.peer == peer && h.addr in all && (h.addr.Ip? || h.addr.Relay?)
  }

  /** `next` is `memory` with the news stamped `now`: nothing else gained, and nothing fresh lost but to the limits. */
  predicate Renews(memory: seq<Hint>, next: seq<Hint>, peer: EndpointId, all: seq<TransportAddr>, now: nat) {
    && (forall h :: h in memory && h.seen <= now < h.seen + 604800 && !IsNews(h, peer, all) ==>
          h in next || Displaced(next, h))
    && (forall h :: h in next ==>
          if IsNews(h, peer, all) then h.seen == now else h in memory && h.seen <= now < h.seen + 604800)
  }

  /**
   * Paths all remembered within the last half hour change nothing. Otherwise a remember that is saved stamps them,
   * keeps every other fresh hint the limits allow, drops the rest, and writes what memory then holds. One that fails
   * leaves memory alone, whatever reached the disk.
   */
  lemma RememberKeepsTheRest(c: Cache, peer: EndpointId, all: seq<TransportAddr>, t1: nat, t2: nat, save: Save)
    requires Tidy(c.memory)
    ensures var done := Remember(c, peer, all, Some(t1), Some(t2), save);
            if KnownSince(c.memory, peer, all, t1) then done == Outcome(c, true)
            else
              && done.ok == save.Saved?
              && (!done.ok ==> done.cache.memory == c.memory)
              && (save.Saved? ==> done.cache.disk == done.cache.memory)
              && (if save.Refused? then done.cache.disk == c.disk else Renews(c.memory, done.cache.disk, peer, all, t2))
  {
    KnownIsSavedRecently(c.memory, peer, all, t1);
    if !KnownSince(c.memory, peer, all, t1) { RememberedRenews(c.memory, peer, all, t2); }
  }

  lemma RememberedRenews(memory: seq<Hint>, peer: EndpointId, all: seq<TransportAddr>, now: nat)
    requires Tidy(memory)
    ensures Renews(memory, Remembered(memory, peer, UsableOnly(all), now), peer, all, now)
  {
    var addrs := UsableOnly(all);
    var recent := Pruned(memory, now);
    var base, news := WithoutPaths(recent, peer, addrs), Stamped(peer, addrs, now);
    var next := Pruned(base + news, now);
    forall a ensures a in addrs <==> a in all && (a.Ip? || a.Relay?) { UsableOnlyMember(all, a); }
    SnapshotOnlyFilters(memory, now);
    forall h | h in memory && h.seen <= now < h.seen + 604800 && !IsNews(h, peer, all)
      ensures h in next || Displaced(next, h)
    {
      FreshOnlyMember(memory, now, h);
      WithoutPathsMember(recent, peer, addrs, h);
      PruneLimits(base + news, now, h);
    }
    forall h | h in next
      ensures if IsNews(h, peer, all) then h.seen == now else h in memory && h.seen <= now < h.seen + 604800
    {
      PrunedMember(base + news, now, h);
      WithoutPathsMember(recent, peer, addrs, h);
      FreshOnlyMember(memory, now, h);
    }
  }

  /** A lookup offers exactly the peer's paths seen within the last seven days. */
  lemma ResolvesTheFresh(c: Cache, peer: EndpointId, now: nat, a: TransportAddr)
    requires Tidy(c.memory)
    ensures a in Resolved(c, peer, now)
            <==> exists h :: h in c.memory && h.peer == peer && h.addr == a && h.seen <= now < h.seen + 604800
  {
    SnapshotOnlyFilters(c.memory, now);
    forall h ensures h in Pruned(c.memory, now) <==> h in c.memory && h.seen <= now < h.seen + 604800 {
      FreshOnlyMember(c.memory, now, h);
    }
    if a in Resolved(c, peer, now) {
      var h :| h in Pruned(c.memory, now) && h.peer == peer && h.addr == a;
      assert h in c.memory;
    }
  }

  /** Both exceptions happen, from an empty cache: a clock at zero, and a ninth path. */
  lemma PathsThatDoNotResolve(peer: EndpointId)
    ensures var one := [Ip(0)];
            Ip(0) !in Resolved(Remember(Cache([], []), peer, one, Some(0), Some(0), Saved).cache, peer, 0)
    ensures var nine := seq(9, i requires 0 <= i < 9 => Ip(i));
            exists a :: a in nine
                        && a !in Resolved(Remember(Cache([], []), peer, nine, Some(1), Some(1), Saved).cache, peer, 1)
  {
    var c, one, nine := Cache([], []), [Ip(0)], seq(9, i requires 0 <= i < 9 => Ip(i));
    assert Ip(0) in one && Usable(Ip(0));
    RememberThenResolve(c, peer, one, 0, Some(0), Saved);
    assert PathSet(one) == {Ip(0)};
    var paths := PathSet(nine);
    forall i | 0 <= i < 9 ensures Ip(i) in paths { assert nine[i] == Ip(i); }
    CountPaths(9);
    assert paths == set i | 0 <= i < 9 :: Ip(i);
    RememberThenResolve(c, peer, nine, 1, Some(1), Saved);
  }

  lemma {:induction false} CountPaths(n: nat)
    ensures |set i | 0 <= i < n :: Ip(i)| == n
  {
    if n > 0 {
      CountPaths(n - 1);
      assert (set i | 0 <= i < n :: Ip(i)) == (set i | 0 <= i < n - 1 :: Ip(i)) + {Ip(n - 1)};
    }
  }
}
