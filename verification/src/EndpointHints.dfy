/**
 * The cache of transport paths that worked (src/endpoint_hints.rs), bounded by age, by 64 peers and by
 * 8 paths per peer. Lists are kept oldest first, and the limits are applied from the newest end.
 */
module EndpointHints {
  import opened Firewall

  const MAX_PEERS: nat := 64
  const MAX_PATHS_PER_PEER: nat := 8
  const MAX_AGE: nat := 7 * 24 * 60 * 60

  /** A path, compared only for equality; `Custom` paths are never cached. */
  datatype TransportAddr = Ip(socket: nat) | Relay(url: nat) | Custom(tag: nat)

  datatype Hint = Hint(peer: EndpointId, addr: TransportAddr, seen: nat)

  predicate Usable(addr: TransportAddr) { addr.Ip? || addr.Relay? }

  predicate Fresh(h: Hint, now: nat) {
    Usable(h.addr) && h.seen != 0 && h.seen <= now && now - h.seen < MAX_AGE
  }

  function FreshOnly(hs: seq<Hint>, now: nat): seq<Hint> {
    if hs == [] then []
    else if Fresh(hs[0], now) then [hs[0]] + FreshOnly(hs[1..], now)
    else FreshOnly(hs[1..], now)
  }

  lemma {:induction false} FreshOnlyMember(hs: seq<Hint>, now: nat, h: Hint)
    ensures h in FreshOnly(hs, now) <==> h in hs && Fresh(h, now)
  {
    if hs != [] { FreshOnlyMember(hs[1..], now, h); }
  }

  /** The recursive functions below take a list apart the way it was put together. */
  lemma Cons(h: Hint, rest: seq<Hint>)
    ensures ([h] + rest)[0] == h && ([h] + rest)[1..] == rest
  {
  }

  // ---- The stable sort ----

  predicate OldestFirst(hs: seq<Hint>) { |hs| < 2 || (hs[0].seen <= hs[1].seen && OldestFirst(hs[1..])) }

  lemma {:induction false} HeadIsOldest(hs: seq<Hint>, h: Hint)
    requires OldestFirst(hs) && h in hs
    ensures hs[0].seen <= h.seen
  {
    if h != hs[0] { HeadIsOldest(hs[1..], h); }
  }

  function Insert(h: Hint, hs: seq<Hint>): (r: seq<Hint>)
    ensures r != []
  {
    if hs == [] || h.seen <= hs[0].seen then [h] + hs else [hs[0]] + Insert(h, hs[1..])
  }

  /** `sort_by_key` on the time: oldest first, and hints of the same second keep their order. */
  function Sorted(hs: seq<Hint>): seq<Hint> {
    if hs == [] then [] else Insert(hs[0], Sorted(hs[1..]))
  }

  lemma {:induction false} InsertOrdered(h: Hint, hs: seq<Hint>)
    requires OldestFirst(hs)
    ensures OldestFirst(Insert(h, hs)) && (Insert(h, hs)[0] == h || (hs != [] && Insert(h, hs)[0] == hs[0]))
  {
    if hs == [] || h.seen <= hs[0].seen {
      Cons(h, hs);
    } else {
      InsertOrdered(h, hs[1..]);
      Cons(hs[0], Insert(h, hs[1..]));
    }
  }

  lemma {:induction false} InsertElements(h: Hint, hs: seq<Hint>)
    ensures multiset(Insert(h, hs)) == multiset(hs) + multiset{h}
  {
    if hs != [] && h.seen > hs[0].seen {
      InsertElements(h, hs[1..]);
      assert hs == [hs[0]] + hs[1..];
    }
  }

  function At(hs: seq<Hint>, t: nat): seq<Hint> {
    if hs == [] then [] else if hs[0].seen == t then [hs[0]] + At(hs[1..], t) else At(hs[1..], t)
  }

  lemma {:induction false} InsertAt(h: Hint, hs: seq<Hint>, t: nat)
    ensures At(Insert(h, hs), t) == if h.seen == t then [h] + At(hs, t) else At(hs, t)
  {
    if hs == [] || h.seen <= hs[0].seen {
      Cons(h, hs);
    } else {
      InsertAt(h, hs[1..], t);
      Cons(hs[0], Insert(h, hs[1..]));
      if h.seen == t { AtOlder(hs, t); }
    }
  }

  lemma AtOlder(hs: seq<Hint>, t: nat)
    requires hs != [] && hs[0].seen < t
    ensures At(hs, t) == At(hs[1..], t)
  {
  }

  /** The sort orders by time, keeps every hint, and keeps the order of hints of the same second. */
  lemma {:induction false} SortedIsStable(hs: seq<Hint>, t: nat)
    ensures OldestFirst(Sorted(hs)) && multiset(Sorted(hs)) == multiset(hs)
    ensures At(Sorted(hs), t) == At(hs, t)
  {
    if hs != [] {
      SortedIsStable(hs[1..], t);
      InsertOrdered(hs[0], Sorted(hs[1..]));
      InsertElements(hs[0], Sorted(hs[1..]));
      InsertAt(hs[0], Sorted(hs[1..]), t);
      assert hs == [hs[0]] + hs[1..];
    }
  }

  lemma SortedMember(hs: seq<Hint>, h: Hint)
    ensures h in Sorted(hs) <==> h in hs
  {
    SortedIsStable(hs, 0);
    assert h in Sorted(hs) <==> h in multiset(Sorted(hs));
    assert h in hs <==> h in multiset(hs);
  }

  lemma {:induction false} SortedIsIdentity(hs: seq<Hint>)
    requires OldestFirst(hs)
    ensures Sorted(hs) == hs
  {
    if hs != [] { SortedIsIdentity(hs[1..]); }
  }

  lemma {:induction false} InsertFresh(h: Hint, hs: seq<Hint>, now: nat)
    requires OldestFirst(hs)
    ensures FreshOnly(Insert(h, hs), now) == if Fresh(h, now) then Insert(h, FreshOnly(hs, now)) else FreshOnly(hs, now)
  {
    if hs == [] || h.seen <= hs[0].seen {
      Cons(h, hs);
      InsertOldest(h, FreshOnly(hs, now)) by {
        forall x | x in FreshOnly(hs, now) ensures h.seen <= x.seen {
          FreshOnlyMember(hs, now, x);
          HeadIsOldest(hs, x);
        }
      }
    } else {
      InsertFresh(h, hs[1..], now);
      Cons(hs[0], Insert(h, hs[1..]));
      Cons(hs[0], FreshOnly(hs[1..], now));
    }
  }

  lemma InsertOldest(h: Hint, hs: seq<Hint>)
    requires forall x :: x in hs ==> h.seen <= x.seen
    ensures Insert(h, hs) == [h] + hs
  {
  }

  lemma {:induction false} SortedFresh(hs: seq<Hint>, now: nat)
    ensures Sorted(FreshOnly(hs, now)) == FreshOnly(Sorted(hs), now)
  {
    if hs != [] {
      SortedFresh(hs[1..], now);
      SortedIsStable(hs[1..], 0);
      InsertFresh(hs[0], Sorted(hs[1..]), now);
      Cons(hs[0], FreshOnly(hs[1..], now));
    }
  }

  // ---- The limits ----

  function Peers(hs: seq<Hint>): set<EndpointId> { set h | h in hs :: h.peer }

  function Pairs(hs: seq<Hint>): set<(EndpointId, TransportAddr)> { set h | h in hs :: (h.peer, h.addr) }

  function PathCount(hs: seq<Hint>, peer: EndpointId): nat {
    if hs == [] then 0 else (if hs[0].peer == peer then 1 else 0) + PathCount(hs[1..], peer)
  }

  /** Whether `h` still fits, given the newer hints already kept. */
  predicate Fits(newer: seq<Hint>, h: Hint) {
    && (h.peer in Peers(newer) || |Peers(newer)| < MAX_PEERS)
    && PathCount(newer, h.peer) < MAX_PATHS_PER_PEER
    && (h.peer, h.addr) !in Pairs(newer)
  }

  /** The greedy pass, newest first. */
  function Kept(hs: seq<Hint>): seq<Hint> {
    if hs == [] then []
    else
      var newer := Kept(hs[1..]);
      if Fits(newer, hs[0]) then [hs[0]] + newer else newer
  }

  function Pruned(hs: seq<Hint>, now: nat): seq<Hint> { Kept(Sorted(FreshOnly(hs, now))) }

  lemma {:induction false} KeptMember(hs: seq<Hint>, h: Hint)
    ensures h in Kept(hs) ==> h in hs
  {
    if hs != [] { KeptMember(hs[1..], h); }
  }

  lemma PrunedMember(hs: seq<Hint>, now: nat, h: Hint)
    ensures h in Pruned(hs, now) ==> h in hs && Fresh(h, now)
  {
    KeptMember(Sorted(FreshOnly(hs, now)), h);
    SortedMember(FreshOnly(hs, now), h);
    FreshOnlyMember(hs, now, h);
  }

  /** Every hint fits with the newer ones. */
  predicate Limited(hs: seq<Hint>) { hs == [] || (Fits(hs[1..], hs[0]) && Limited(hs[1..])) }

  lemma {:induction false} KeptLimited(hs: seq<Hint>)
    ensures Limited(Kept(hs))
    ensures OldestFirst(hs) ==> OldestFirst(Kept(hs))
  {
    if hs != [] {
      KeptLimited(hs[1..]);
      var newer := Kept(hs[1..]);
      Cons(hs[0], newer);
      if OldestFirst(hs) && newer != [] {
        KeptMember(hs[1..], newer[0]);
        HeadIsOldest(hs, newer[0]);
      }
    }
  }

  lemma {:induction false} LimitedIsKept(hs: seq<Hint>)
    requires Limited(hs)
    ensures Kept(hs) == hs
  {
    if hs != [] { LimitedIsKept(hs[1..]); }
  }

  ghost predicate Within(hs: seq<Hint>) {
    && |Peers(hs)| <= MAX_PEERS
    && (forall p :: PathCount(hs, p) <= MAX_PATHS_PER_PEER)
    && (forall i, j :: 0 <= i < j < |hs| ==> (hs[i].peer, hs[i].addr) != (hs[j].peer, hs[j].addr))
  }

  lemma {:induction false} LimitedIsWithin(hs: seq<Hint>)
    requires Limited(hs)
    ensures Within(hs)
  {
    if hs != [] {
      var newer := hs[1..];
      LimitedIsWithin(newer);
      assert Peers(hs) == Peers(newer) + {hs[0].peer};
      forall j | 1 <= j < |hs| ensures (hs[0].peer, hs[0].addr) != (hs[j].peer, hs[j].addr) {
        assert hs[j] in newer;
      }
    }
  }

  /** The kept hints from `k` on, all at least as recent as `x`, leave no room for it. */
  predicate CrowdedOut(kept: seq<Hint>, k: nat, x: Hint) {
    && k <= |kept|
    && (forall h :: h in kept[k..] ==> x.seen <= h.seen)
    && !Fits(kept[k..], x)
  }

  /** Newer hints displaced `x`: the same path, eight paths of its peer, or 64 other peers. */
  predicate Displaced(kept: seq<Hint>, x: Hint) { exists k :: 0 <= k <= |kept| && CrowdedOut(kept, k, x) }

  lemma {:induction false} KeptOrDisplaced(hs: seq<Hint>, x: Hint)
    requires OldestFirst(hs) && x in hs
    ensures x in Kept(hs) || Displaced(Kept(hs), x)
  {
    var newer, kept := Kept(hs[1..]), Kept(hs);
    if x == hs[0] {
      if !Fits(newer, x) {
        assert newer[0..] == newer;
        forall h | h in newer ensures x.seen <= h.seen {
          KeptMember(hs[1..], h);
          HeadIsOldest(hs, h);
        }
        assert CrowdedOut(kept, 0, x);
      }
    } else {
      KeptOrDisplaced(hs[1..], x);
      if x !in newer && kept != newer {
        var k :| 0 <= k <= |newer| && CrowdedOut(newer, k, x);
        assert kept[k + 1..] == newer[k..];
        assert CrowdedOut(kept, k + 1, x);
      }
    }
  }

  /** What `prune` promises: the survivors respect the limits, and every fresh hint that is gone had to go. */
  lemma PruneLimits(hs: seq<Hint>, now: nat, x: Hint)
    ensures OldestFirst(Pruned(hs, now)) && Limited(Pruned(hs, now)) && Within(Pruned(hs, now))
    ensures x in Pruned(hs, now) ==> x in hs && Fresh(x, now)
    ensures x in hs && Fresh(x, now) ==> x in Pruned(hs, now) || Displaced(Pruned(hs, now), x)
  {
    var sorted := Sorted(FreshOnly(hs, now));
    SortedIsStable(FreshOnly(hs, now), 0);
    SortedMember(FreshOnly(hs, now), x);
    FreshOnlyMember(hs, now, x);
    PrunedMember(hs, now, x);
    KeptLimited(sorted);
    LimitedIsWithin(Kept(sorted));
    if x in sorted { KeptOrDisplaced(sorted, x); }
  }

  // ---- Pruning and time ----

  /** Usable hints dated no later than `now`. */
  /** Kept hints from some point on, all at least as recent as `x`, are a copy of it, eight of its peer, or 64 peers. */
  ghost predicate HasReason(kept: seq<Hint>, x: Hint) {
    exists k :: 0 <= k <= |kept| && HasReasonFrom(kept[k..], x)
  }

  ghost predicate HasReasonFrom(newer: seq<Hint>, x: Hint) {
    && (forall h :: h in newer ==> x.seen <= h.seen)
    && (|| (exists h :: h in newer && h.peer == x.peer && h.addr == x.addr)
        || PathCount(newer, x.peer) >= 8
        || (|Peers(newer)| >= 64 && forall h :: h in newer ==> h.peer != x.peer))
  }

  /** The limits in numbers: 64 peers, 8 paths each, seven days; and a reason for everything else that is dropped. */
  lemma PruneInNumbers(hs: seq<Hint>, now: nat, x: Hint, peer: EndpointId)
    ensures |Peers(Pruned(hs, now))| <= 64 && PathCount(Pruned(hs, now), peer) <= 8
    ensures x in Pruned(hs, now) ==> x in hs && (x.addr.Ip? || x.addr.Relay?) && 0 < x.seen <= now < x.seen + 604800
    ensures x in hs && (x.addr.Ip? || x.addr.Relay?) && 0 < x.seen <= now < x.seen + 604800 ==>
              x in Pruned(hs, now) || HasReason(Pruned(hs, now), x)
  {
    var kept := Pruned(hs, now);
    PruneLimits(hs, now, x);
    if Displaced(kept, x) {
      var k :| 0 <= k <= |kept| && CrowdedOut(kept, k, x);
      NoRoomIsAReason(kept[k..], x);
    }
  }

  lemma NoRoomIsAReason(newer: seq<Hint>, x: Hint)
    requires (forall h :: h in newer ==> x.seen <= h.seen) && !Fits(newer, x)
    ensures HasReasonFrom(newer, x)
  {
    if (x.peer, x.addr) in Pairs(newer) {
      var h :| h in newer && (h.peer, h.addr) == (x.peer, x.addr);
    } else if x.peer !in Peers(newer) {
      forall h | h in newer ensures h.peer != x.peer { assert h.peer in Peers(newer); }
    }
  }

  predicate Dated(hs: seq<Hint>, now: nat) {
    hs == [] || (Usable(hs[0].addr) && 0 < hs[0].seen <= now && Dated(hs[1..], now))
  }

  lemma {:induction false} DatedIfAll(hs: seq<Hint>, now: nat)
    requires forall h :: h in hs ==> Usable(h.addr) && 0 < h.seen <= now
    ensures Dated(hs, now)
  {
    if hs != [] { DatedIfAll(hs[1..], now); }
  }

  lemma {:induction false} StillFresh(hs: seq<Hint>, now: nat)
    requires OldestFirst(hs) && Dated(hs, now) && (hs != [] ==> Fresh(hs[0], now))
    ensures FreshOnly(hs, now) == hs
  {
    if hs != [] { StillFresh(hs[1..], now); }
  }

  lemma {:induction false} KeptDated(hs: seq<Hint>, now: nat)
    requires Dated(hs, now)
    ensures Dated(Kept(hs), now)
  {
    if hs != [] {
      KeptDated(hs[1..], now);
      Cons(hs[0], Kept(hs[1..]));
    }
  }

  /** Expiry cuts the old end off, and the greedy pass looks only at newer hints: the two commute. */
  lemma {:induction false} KeptFresh(hs: seq<Hint>, now: nat)
    requires OldestFirst(hs) && Dated(hs, now)
    ensures FreshOnly(Kept(hs), now) == Kept(FreshOnly(hs, now))
  {
    if hs != [] {
      if Fresh(hs[0], now) {
        StillFresh(hs, now);
        KeptLimited(hs);
        KeptDated(hs, now);
        if Kept(hs) != [] {
          KeptMember(hs, Kept(hs)[0]);
          HeadIsOldest(hs, Kept(hs)[0]);
        }
        StillFresh(Kept(hs), now);
      } else {
        KeptFresh(hs[1..], now);
        Cons(hs[0], Kept(hs[1..]));
      }
    }
  }

  /** No hint that is fresh at `t2` is dated after `t1`. */
  predicate NothingAfter(hs: seq<Hint>, t1: nat, t2: nat) { forall h :: h in hs && Fresh(h, t2) ==> h.seen <= t1 }

  lemma {:induction false} FreshOnlyTwice(hs: seq<Hint>, t1: nat, t2: nat)
    requires t1 <= t2 && NothingAfter(hs, t1, t2)
    ensures FreshOnly(FreshOnly(hs, t1), t2) == FreshOnly(hs, t2)
  {
    if hs != [] {
      assert Fresh(hs[0], t2) ==> hs[0].seen <= t1;
      FreshOnlyTwice(hs[1..], t1, t2);
      Cons(hs[0], FreshOnly(hs[1..], t1));
    }
  }

  lemma OldestFirstFresh(hs: seq<Hint>, now: nat)
    requires OldestFirst(hs)
    ensures OldestFirst(FreshOnly(hs, now))
  {
    SortedIsIdentity(hs);
    SortedFresh(hs, now);
    SortedIsStable(FreshOnly(hs, now), 0);
  }

  lemma {:induction false} NewestIsKept(hs: seq<Hint>)
    requires hs != []
    ensures hs[|hs| - 1] in Kept(hs)
  {
    if |hs| > 1 {
      NewestIsKept(hs[1..]);
    } else {
      assert Kept(hs[1..]) == [] && Peers([]) == {} && Pairs([]) == {};
    }
  }

  lemma {:induction false} LastIsNewest(hs: seq<Hint>, h: Hint)
    requires OldestFirst(hs) && h in hs
    ensures h.seen <= hs[|hs| - 1].seen
  {
    if h == hs[0] { HeadIsOldest(hs, hs[|hs| - 1]); } else { LastIsNewest(hs[1..], h); }
  }

  /** Pruning early changes nothing later, exactly when no hint still fresh then is dated after the early prune. */
  lemma PruneComposes(hs: seq<Hint>, t1: nat, t2: nat)
    requires t1 <= t2
    ensures Pruned(Pruned(hs, t1), t2) == Pruned(hs, t2) <==> NothingAfter(hs, t1, t2)
  {
    if NothingAfter(hs, t1, t2) { EarlyPruneIsHarmless(hs, t1, t2); } else { EarlyPruneDropsTheFuture(hs, t1, t2); }
  }

  lemma EarlyPruneIsHarmless(hs: seq<Hint>, t1: nat, t2: nat)
    requires t1 <= t2 && NothingAfter(hs, t1, t2)
    ensures Pruned(Pruned(hs, t1), t2) == Pruned(hs, t2)
  {
    var early := Sorted(FreshOnly(hs, t1));
    SortedIsStable(FreshOnly(hs, t1), 0);
    forall h | h in early ensures Usable(h.addr) && 0 < h.seen <= t2 {
      SortedMember(FreshOnly(hs, t1), h);
      FreshOnlyMember(hs, t1, h);
    }
    DatedIfAll(early, t2);
    KeptLimited(early);
    KeptFresh(early, t2);
    OldestFirstFresh(Kept(early), t2);
    SortedIsIdentity(FreshOnly(Kept(early), t2));
    KeptLimited(FreshOnly(early, t2));
    LimitedIsKept(Kept(FreshOnly(early, t2)));
    SortedFresh(FreshOnly(hs, t1), t2);
    FreshOnlyTwice(hs, t1, t2);
  }

  lemma EarlyPruneDropsTheFuture(hs: seq<Hint>, t1: nat, t2: nat)
    requires t1 <= t2 && !NothingAfter(hs, t1, t2)
    ensures Pruned(Pruned(hs, t1), t2) != Pruned(hs, t2)
  {
    var x :| x in hs && Fresh(x, t2) && x.seen > t1;
    var late := Sorted(FreshOnly(hs, t2));
    FreshOnlyMember(hs, t2, x);
    SortedMember(FreshOnly(hs, t2), x);
    SortedIsStable(FreshOnly(hs, t2), 0);
    var last := late[|late| - 1];
    LastIsNewest(late, x);
    NewestIsKept(late);
    PrunedMember(Pruned(hs, t1), t2, last);
    PrunedMember(hs, t1, last);
  }

  /** The exception happens: a clock that ran ahead and was set back prunes a hint a later prune would have kept. */
  lemma FutureHintIsLost(peer: EndpointId, socket: nat)
    ensures var hs := [Hint(peer, Ip(socket), 2)];
            Pruned(Pruned(hs, 1), 2) != Pruned(hs, 2) && Hint(peer, Ip(socket), 2) in Pruned(hs, 2)
  {
    var h := Hint(peer, Ip(socket), 2);
    assert h in [h] && Fresh(h, 2);
    PruneComposes([h], 1, 2);
    assert FreshOnly([h], 2) == [h] && Sorted([h]) == [h];
    NewestIsKept([h]);
  }

  /** `prune` is idempotent. */
  lemma PruneIdempotent(hs: seq<Hint>, now: nat)
    ensures Pruned(Pruned(hs, now), now) == Pruned(hs, now)
  {
    PruneComposes(hs, now, now);
  }

  // ---- The pass itself ----

  method RetainFresh(hints: seq<Hint>, now: nat) returns (recent: seq<Hint>)
    ensures recent == FreshOnly(hints, now)
  {
    recent := [];
    var i := |hints|;
    while i > 0
      invariant 0 <= i <= |hints| && recent == FreshOnly(hints[i..], now)
    {
      i := i - 1;
      assert hints[i..][1..] == hints[i + 1..];
      if Fresh(hints[i], now) { recent := [hints[i]] + recent; }
    }
    assert hints[0..] == hints;
  }

  /** The counters agree with the hints kept so far. */
  ghost predicate Counts(kept: seq<Hint>, peers: map<EndpointId, nat>, paths: set<(EndpointId, TransportAddr)>) {
    && Limited(kept) && peers.Keys == Peers(kept) && paths == Pairs(kept)
    && forall p :: p in peers ==> peers[p] == PathCount(kept, p)
  }

  /** The counting pass, from the newest hint down. */
  method RetainWithinLimits(hints: seq<Hint>) returns (kept: seq<Hint>)
    ensures kept == Kept(hints)
  {
    var peers: map<EndpointId, nat> := map[];
    var paths: set<(EndpointId, TransportAddr)> := {};
    kept := [];
    var i := |hints|;
    while i > 0
      invariant 0 <= i <= |hints| && kept == Kept(hints[i..]) && Counts(kept, peers, paths)
    {
      i := i - 1;
      var h := hints[i];
      assert hints[i..][1..] == hints[i + 1..];
      FitsIffCounted(kept, h, peers, paths);
      var count := if h.peer in peers then peers[h.peer] else 0;
      if (h.peer in peers || |peers| != MAX_PEERS) && count != MAX_PATHS_PER_PEER && (h.peer, h.addr) !in paths {
        CountsNext(kept, h, peers, paths);
        kept, peers, paths := [h] + kept, peers[h.peer := count + 1], paths + {(h.peer, h.addr)};
      }
    }
    assert hints[0..] == hints;
  }

  /** The counters tell exactly whether the next hint fits; a peer counted for the first time always does. */
  lemma FitsIffCounted(kept: seq<Hint>, h: Hint, peers: map<EndpointId, nat>, paths: set<(EndpointId, TransportAddr)>)
    requires Counts(kept, peers, paths)
    ensures Fits(kept, h) <==>
              && (h.peer in peers || |peers| != MAX_PEERS)
              && (if h.peer in peers then peers[h.peer] else 0) != MAX_PATHS_PER_PEER
              && (h.peer, h.addr) !in paths
  {
    LimitedIsWithin(kept);
    Absent(kept, h.peer);
    assert |peers| == |peers.Keys|;
  }

  lemma CountsNext(kept: seq<Hint>, h: Hint, peers: map<EndpointId, nat>, paths: set<(EndpointId, TransportAddr)>)
    requires Counts(kept, peers, paths) && Fits(kept, h)
    ensures Counts([h] + kept, peers[h.peer := (if h.peer in peers then peers[h.peer] else 0) + 1],
                   paths + {(h.peer, h.addr)})
  {
    Cons(h, kept);
    Absent(kept, h.peer);
    assert Peers([h] + kept) == Peers(kept) + {h.peer};
    assert Pairs([h] + kept) == Pairs(kept) + {(h.peer, h.addr)};
  }

  lemma {:induction false} Absent(hs: seq<Hint>, peer: EndpointId)
    ensures peer !in Peers(hs) ==> PathCount(hs, peer) == 0
  {
    if hs != [] { Absent(hs[1..], peer); }
  }

  /** `prune`. */
  method Prune(hints: seq<Hint>, now: nat) returns (kept: seq<Hint>)
    ensures kept == Pruned(hints, now)
  {
    var recent := RetainFresh(hints, now);
    kept := RetainWithinLimits(Sorted(recent));
  }
}
