/**
 * Verdicts on IPv6 fragments (src/forward/frag_verdicts.rs): a later fragment may follow its first for a short time.
 */
module FragmentVerdicts {
  import opened Packet
  import opened Firewall

  const TTL: nat := 10 * SECOND
  const CAPACITY: nat := 1024

  datatype Entry = Entry(key: FragmentKey, deadline: nat)
  type Table = seq<Entry>

  predicate Holds(t: Table, key: FragmentKey) { exists i :: 0 <= i < |t| && t[i].key == key }

  /** The first index from `i` on whose time is not up. */
  function FirstLive(t: Table, i: nat, now: nat): (n: nat)
    requires i <= |t|
    decreases |t| - i
    ensures i <= n <= |t| && (n < |t| ==> now < t[n].deadline)
  {
    if i < |t| && t[i].deadline <= now then FirstLive(t, i + 1, now) else i
  }

  /** The table without the entries at its front whose time is up. */
  function Expire(t: Table, now: nat): Table { t[FirstLive(t, 0, now)..] }

  /** A full table without its oldest entry. */
  function MakeRoom(t: Table): Table { if |t| >= CAPACITY then t[|t| - CAPACITY + 1..] else t }

  /** Remember that the first fragment of `key` passed; a repeat keeps the old deadline. */
  function AllowKey(t: Table, key: FragmentKey, now: nat): Table {
    var live := Expire(t, now);
    if Holds(live, key) then live else MakeRoom(live) + [Entry(key, now + TTL)]
  }

  /** One entry per key, within capacity, oldest deadline first. */
  predicate Ordered(t: Table, now: nat) {
    && |t| <= CAPACITY
    && (forall i, j :: 0 <= i < j < |t| ==> t[i].key != t[j].key && t[i].deadline <= t[j].deadline)
    && (forall i :: 0 <= i < |t| ==> t[i].deadline <= now + TTL)
  }

  lemma SuffixOrdered(t: Table, k: nat, before: nat, now: nat)
    requires k <= |t| && Ordered(t, before) && before <= now
    ensures Ordered(t[k..], now)
  {
  }

  lemma PushOrdered(t: Table, key: FragmentKey, now: nat)
    requires Ordered(t, now) && |t| < CAPACITY && !Holds(t, key)
    ensures Ordered(t + [Entry(key, now + TTL)], now) && Holds(t + [Entry(key, now + TTL)], key)
  {
    assert (t + [Entry(key, now + TTL)])[|t|].key == key;
  }

  /** Expiring keeps the table ordered, and everything left is in date. */
  lemma ExpireOrdered(t: Table, before: nat, now: nat)
    requires Ordered(t, before) && before <= now
    ensures Ordered(Expire(t, now), now)
    ensures forall i :: 0 <= i < |Expire(t, now)| ==> now < Expire(t, now)[i].deadline
  {
    SuffixOrdered(t, FirstLive(t, 0, now), before, now);
  }

  /** Allowing a key keeps the table ordered and within capacity, and the key is held. */
  lemma AllowOrdered(t: Table, key: FragmentKey, before: nat, now: nat)
    requires Ordered(t, before) && before <= now
    ensures Ordered(AllowKey(t, key, now), now) && Holds(AllowKey(t, key, now), key)
  {
    var live := Expire(t, now);
    ExpireOrdered(t, before, now);
    if !Holds(live, key) {
      var room := MakeRoom(live);
      SuffixOrdered(live, |live| - |room|, now, now);
      assert room == live[|live| - |room|..];
      PushOrdered(room, key, now);
    }
  }

  /** Nothing enters the table but what is allowed into it. */
  lemma TableEntries(t: Table, key: FragmentKey, now: nat, e: Entry)
    ensures e in Expire(t, now) ==> e in t
    ensures e in AllowKey(t, key, now) ==> e in t || e == Entry(key, now + TTL)
  {
    var live := Expire(t, now);
    if e in AllowKey(t, key, now) && !Holds(live, key) {
      assert e in MakeRoom(live) ==> e in live;
    }
  }

  lemma {:induction false} LiveStays(t: Table, i: nat, now: nat, j: nat)
    requires i <= j < |t| && now < t[j].deadline
    ensures FirstLive(t, i, now) <= j
    decreases j - i
  {
    if i < j { LiveStays(t, i + 1, now, j); }
  }

  lemma {:induction false} DeadGoes(t: Table, i: nat, now: nat)
    requires i <= |t| && forall j :: i <= j < |t| ==> t[j].deadline <= now
    ensures FirstLive(t, i, now) == |t|
    decreases |t| - i
  {
    if i < |t| { DeadGoes(t, i + 1, now); }
  }

  /** A first fragment that was not known opens the way for its later ones for exactly ten seconds. */
  lemma FirstOpensTenSeconds(t: Table, key: FragmentKey, before: nat, now: nat, later: nat)
    requires Ordered(t, before) && before <= now <= later && !Holds(Expire(t, now), key)
    ensures Holds(Expire(AllowKey(t, key, now), later), key) <==> later < now + 10_000_000_000
  {
    var after := AllowKey(t, key, now);
    AllowOrdered(t, key, before, now);
    var last := |after| - 1;
    assert after[last] == Entry(key, now + TTL);
    if later < now + TTL {
      LiveStays(after, 0, later, last);
      var rest := Expire(after, later);
      assert rest[|rest| - 1] == after[last];
    } else {
      DeadGoes(after, 0, later);
    }
  }

  /** A repeat of a first fragment does not prolong the way: its deadline stays. */
  lemma RepeatKeepsDeadline(t: Table, key: FragmentKey, before: nat, now: nat, later: nat, i: nat)
    requires Ordered(t, before) && before <= now <= later && i < |t| && t[i].key == key && now < t[i].deadline
    ensures Holds(Expire(AllowKey(t, key, now), later), key) <==> later < t[i].deadline
  {
    var live := Expire(t, now);
    LiveStays(t, 0, now, i);
    var at := i - FirstLive(t, 0, now);
    assert live[at] == t[i];
    assert AllowKey(t, key, now) == live;
    ExpireOrdered(t, before, now);
    if later < t[i].deadline {
      LiveStays(live, 0, later, at);
      assert Expire(live, later)[at - FirstLive(live, 0, later)] == live[at];
    } else {
      ExpireOrdered(live, now, later);
    }
  }

  /** Recording a first fragment drops what is out of date and, at 1024 entries, the oldest; every other entry stays. */
  lemma OnlyTheOldestGoes(t: Table, key: FragmentKey, before: nat, now: nat, i: nat)
    requires Ordered(t, before) && before <= now && i < |t| && now < t[i].deadline
    requires i > FirstLive(t, 0, now) || |t| - FirstLive(t, 0, now) < 1024
    ensures t[i] in AllowKey(t, key, now)
  {
    LiveStays(t, 0, now, i);
    var live, at := Expire(t, now), i - FirstLive(t, 0, now);
    assert live[at] == t[i];
    if !Holds(live, key) && |live| >= CAPACITY { assert MakeRoom(live)[at - 1] == live[at]; }
  }

  class Verdicts {
    var allowed: set<FragmentKey>
    var order: Table

    ghost predicate Valid()
      reads this
    {
      && (forall k :: k in allowed <==> Holds(order, k))
      && |allowed| == |order|
      && forall i, j :: 0 <= i < j < |order| ==> order[i].key != order[j].key
    }

    constructor ()
      ensures Valid() && order == []
    {
      allowed, order := {}, [];
    }

    method DropExpired(now: nat)
      requires Valid()
      modifies this
      ensures Valid() && order == Expire(old(order), now)
    {
      ghost var i := 0;
      while |order| > 0 && order[0].deadline <= now
        invariant Valid() && i <= |old(order)| && order == old(order)[i..]
        invariant FirstLive(old(order), i, now) == FirstLive(old(order), 0, now)
        decreases |order|
      {
        PopOldest();
        i := i + 1;
      }
    }

    method PopOldest()
      requires Valid() && |order| > 0
      modifies this
      ensures Valid() && order == old(order)[1..] && allowed <= old(allowed)
    {
      var oldest := order[0].key;
      allowed := allowed - {oldest};
      order := order[1..];
      assert forall i :: 0 <= i < |order| ==> order[i] == old(order)[i + 1];
      forall k ensures k in allowed <==> Holds(order, k) {
        if k in allowed {
          var i :| 0 <= i < |old(order)| && old(order)[i].key == k;
          assert order[i - 1].key == k;
        }
      }
    }

    method PushNewest(key: FragmentKey, now: nat)
      requires Valid() && key !in allowed
      modifies this
      ensures Valid() && order == old(order) + [Entry(key, now + TTL)]
    {
      allowed := allowed + {key};
      order := order + [Entry(key, now + TTL)];
      assert order[|order| - 1].key == key;
      forall k ensures k in allowed <==> Holds(order, k) {
        if k in old(allowed) {
          var i :| 0 <= i < |old(order)| && old(order)[i].key == k;
          assert order[i].key == k;
        }
      }
    }

    method EvictOldest()
      requires Valid()
      modifies this
      ensures Valid() && order == MakeRoom(old(order)) && allowed <= old(allowed)
    {
      ghost var i := 0;
      while |allowed| >= CAPACITY
        invariant Valid() && i <= |old(order)| && order == old(order)[i..] && allowed <= old(allowed)
        invariant i == 0 || |order| >= CAPACITY - 1
        decreases |order|
      {
        PopOldest();
        i := i + 1;
      }
    }

    method Allow(key: FragmentKey, now: nat)
      requires Valid()
      modifies this
      ensures Valid() && order == AllowKey(old(order), key, now)
    {
      DropExpired(now);
      if key in allowed { return; }
      EvictOldest();
      PushNewest(key, now);
    }

    method Admits(key: FragmentKey, now: nat) returns (r: bool)
      requires Valid()
      modifies this
      ensures Valid() && order == Expire(old(order), now) && r == Holds(order, key)
    {
      DropExpired(now);
      r := key in allowed;
    }
  }
}
