/**
 * The coordinator's ledger of single-use invites (src/invite.rs). A secret is known by its hash, which is
 * all the ledger stores. Every change is made in memory first and then saved, and the save can fail.
 */
module Invite {
  import opened Wrappers
  import opened Firewall

  const U64_MAX: nat := 0xffff_ffff_ffff_ffff
  const DELIVERY_TTL: nat := 7 * 86400

  const ZERO_HASH: string := "0000000000000000000000000000000000000000000000000000000000000000"
  /** The hash of a secret made here; one learned from another coordinator is any text. */
  type Hash = s: string | |s| == 64 witness ZERO_HASH

  datatype Status = Pending | Redeemed(redeemer: EndpointId, at: nat) | Revoked
  datatype Delivery = Delivery(recipient: EndpointId, code: nat, delivered: bool, unsupported: bool,
                               refusal: Option<string>)

  datatype Invite = Invite(id: string, hash: string, created: nat, expires: nat, status: Status,
                           hostname: Option<string>, delivery: Option<Delivery>)

  function New(hash: Hash, now: nat, ttl: nat, hostname: Option<string>, delivery: Option<Delivery>): Invite {
    Invite(hash[..8], hash, now, if now + ttl > U64_MAX then U64_MAX else now + ttl, Pending, hostname, delivery)
  }

  predicate IsLive(i: Invite, now: nat) { i.status.Pending? && i.expires > now }

  type Invites = seq<Invite>

  /** The entry a secret resolves to: the first with its hash. */
  function Find(l: Invites, hash: string, from: nat): (r: Option<nat>)
    requires from <= |l|
    decreases |l| - from
    ensures r.Some? ==> from <= r.value < |l| && l[r.value].hash == hash
                        && forall j :: from <= j < r.value ==> l[j].hash != hash
    ensures r.None? ==> forall j :: from <= j < |l| ==> l[j].hash != hash
  {
    if from == |l| then None else if l[from].hash == hash then Some(from) else Find(l, hash, from + 1)
  }

  function Entry(l: Invites, hash: string): Option<Invite> {
    var i := Find(l, hash, 0);
    if i.Some? then Some(l[i.value]) else None
  }

  function SetStatus(l: Invites, i: nat, status: Status): Invites
    requires i < |l|
  {
    l[i := l[i].(status := status)]
  }

  /** The first entry from `from` on whose id starts with `id`. */
  function FindId(l: Invites, id: string, from: nat): (r: Option<nat>)
    requires from <= |l|
    decreases |l| - from
    ensures r.Some? ==> from <= r.value < |l| && id <= l[r.value].id
                        && forall j :: from <= j < r.value ==> !(id <= l[j].id)
    ensures r.None? ==> forall j :: from <= j < |l| ==> !(id <= l[j].id)
  {
    if from == |l| then None else if id <= l[from].id then Some(from) else FindId(l, id, from + 1)
  }

  /** The one entry whose id starts with `id`, if exactly one does. */
  function OnlyMatch(l: Invites, id: string): (r: Option<nat>)
    ensures r.Some? ==> r.value < |l| && forall j :: 0 <= j < |l| ==> (id <= l[j].id <==> j == r.value)
    ensures r.None? ==> forall i :: 0 <= i < |l| && id <= l[i].id ==>
                          exists j :: 0 <= j < |l| && j != i && id <= l[j].id
  {
    var i := FindId(l, id, 0);
    if i.None? || FindId(l, id, i.value + 1).Some? then None else i
  }

  /** A live private delivery to this recipient. */
  predicate LiveDeliveryTo(i: Invite, recipient: EndpointId, now: nat) {
    IsLive(i, now) && i.delivery.Some? && i.delivery.value.recipient == recipient
  }

  function FindDelivery(l: Invites, recipient: EndpointId, now: nat, from: nat): (r: Option<nat>)
    requires from <= |l|
    decreases |l| - from
    ensures r.Some? ==> from <= r.value < |l| && LiveDeliveryTo(l[r.value], recipient, now)
                        && forall j :: from <= j < r.value ==> !LiveDeliveryTo(l[j], recipient, now)
    ensures r.None? ==> forall j :: from <= j < |l| ==> !LiveDeliveryTo(l[j], recipient, now)
  {
    if from == |l| then None
    else if LiveDeliveryTo(l[from], recipient, now) then Some(from)
    else FindDelivery(l, recipient, now, from + 1)
  }

  // ---- Operations ----

  datatype Save = Saved | Refused | FailedAfterWrite

  datatype Ledger = Ledger(memory: Invites, disk: Invites, now: nat)

  datatype Op =
    | Mint(made: Hash, ttl: nat, hostname: Option<string>)
    | Deliver(made: Hash, recipient: EndpointId, code: nat)
    | Redeem(hash: string, redeemer: EndpointId)
    | Restore(hash: string)
    | Revoke(id: string)
    | Share(id: string, hash: string, expires: nat)
    | Burn(hash: string, zero: EndpointId)
    | Reload
    | Clock(now: nat)

  /** What an operation does to the list: refuse or have nothing to do, add an entry, or change one's status. */
  datatype Edit = Nothing | Append(invite: Invite) | Set(at: nat, status: Status)

  function EditFor(l: Invites, op: Op, now: nat): (e: Edit)
    ensures e.Set? ==> e.at < |l|
  {
    match op
    case Mint(hash, ttl, hostname) => Append(New(hash, now, ttl, hostname, None))
    case Deliver(hash, recipient, code) =>
      if FindDelivery(l, recipient, now, 0).Some? then Nothing
      else Append(New(hash, now, DELIVERY_TTL, None, Some(Delivery(recipient, code, false, false, None))))
    case Redeem(hash, redeemer) =>
      var i := Find(l, hash, 0);
      if i.Some? && IsLive(l[i.value], now) then Set(i.value, Redeemed(redeemer, now)) else Nothing
    case Restore(hash) =>
      var i := Find(l, hash, 0);
      if i.Some? && l[i.value].status.Redeemed? then Set(i.value, Pending) else Nothing
    case Revoke(id) =>
      var i := OnlyMatch(l, id);
      if i.Some? && !l[i.value].status.Redeemed? then Set(i.value, Revoked) else Nothing
    case Share(id, hash, expires) =>
      if exists i :: 0 <= i < |l| && l[i].id == id then Nothing
      else Append(Invite(id, hash, now, expires, Pending, None, None))
    case Burn(hash, zero) =>
      var i := Find(l, hash, 0);
      if i.Some? && l[i.value].status.Pending? then Set(i.value, Redeemed(zero, now)) else Nothing
    case Reload => Nothing
    case Clock(_) => Nothing
  }

  function Edited(l: Invites, e: Edit): Invites
    requires e.Set? ==> e.at < |l|
  {
    match e
    case Nothing => l
    case Append(x) => l + [x]
    case Set(i, status) => SetStatus(l, i, status)
  }

  function Apply(s: Ledger, op: Op, save: Save): Ledger {
    match op
    case Reload => s.(memory := s.disk)
    case Clock(now) => s.(now := now)
    case _ =>
      var edit := EditFor(s.memory, op, s.now);
      var next := Edited(s.memory, edit);
      if edit.Nothing? || save.Refused? then s.(memory := next) else s.(memory := next, disk := next)
  }

  /** The operation changed the ledger and said so. */
  predicate Succeeds(s: Ledger, op: Op, save: Save) { !EditFor(s.memory, op, s.now).Nothing? && save.Saved? }

  datatype Call = Call(op: Op, save: Save)

  function After(s: Ledger, calls: seq<Call>, n: nat): Ledger
    requires n <= |calls|
  {
    if n == 0 then s else Apply(After(s, calls, n - 1), calls[n - 1].op, calls[n - 1].save)
  }

  // ---- Single use ----

  /** This call redeems the secret, and says so. */
  predicate RedeemedBy(s: Ledger, c: Call, hash: string) {
    c.op.Redeem? && c.op.hash == hash && Succeeds(s, c.op, c.save)
  }

  /** This call restores the secret after finding it burned, whether or not its save succeeds. */
  predicate RestoredBy(s: Ledger, c: Call, hash: string) {
    c.op == Restore(hash) && !EditFor(s.memory, c.op, s.now).Nothing?
  }

  function Redeems(s: Ledger, calls: seq<Call>, n: nat, hash: string): nat
    requires n <= |calls|
  {
    if n == 0 then 0
    else Redeems(s, calls, n - 1, hash) + (if RedeemedBy(After(s, calls, n - 1), calls[n - 1], hash) then 1 else 0)
  }

  function Restores(s: Ledger, calls: seq<Call>, n: nat, hash: string): nat
    requires n <= |calls|
  {
    if n == 0 then 0
    else Restores(s, calls, n - 1, hash) + (if RestoredBy(After(s, calls, n - 1), calls[n - 1], hash) then 1 else 0)
  }

  /** The secret is unknown or still unused in this copy of the ledger. */
  predicate Unused(l: Invites, hash: string) { Entry(l, hash).None? || Entry(l, hash).value.status.Pending? }

  predicate RevokedIn(l: Invites, hash: string) { Entry(l, hash).Some? && Entry(l, hash).value.status.Revoked? }

  lemma {:induction false} FindAppend(l: Invites, x: Invite, hash: string, from: nat)
    requires from <= |l|
    ensures Find(l + [x], hash, from) ==
              if Find(l, hash, from).Some? then Find(l, hash, from)
              else if x.hash == hash then Some(|l|) else None
    decreases |l| - from
  {
    if from < |l| { FindAppend(l, x, hash, from + 1); }
  }

  lemma {:induction false} FindAfterSet(l: Invites, i: nat, status: Status, hash: string, from: nat)
    requires i < |l| && from <= |l|
    ensures Find(SetStatus(l, i, status), hash, from) == Find(l, hash, from)
    decreases |l| - from
  {
    if from < |l| { FindAfterSet(l, i, status, hash, from + 1); }
  }

  /** Nothing ever routes a secret to another entry: an edit at most changes the status of the one it has. */
  lemma EntryAfterEdit(l: Invites, e: Edit, hash: string)
    requires e.Set? ==> e.at < |l|
    ensures Entry(Edited(l, e), hash) ==
              if e.Append? then (if Entry(l, hash).None? && e.invite.hash == hash then Some(e.invite)
                                 else Entry(l, hash))
              else if e.Set? && Find(l, hash, 0) == Some(e.at) then Some(l[e.at].(status := e.status))
              else Entry(l, hash)
  {
    match e
    case Nothing =>
    case Append(x) => FindAppend(l, x, hash, 0);
    case Set(i, status) => FindAfterSet(l, i, status, hash, 0);
  }

  /** What one call means for a secret, in memory and on disk. */
  lemma CallAtSecret(s: Ledger, c: Call, hash: string)
    ensures var t := Apply(s, c.op, c.save);
            && (RedeemedBy(s, c, hash) ==> Unused(s.memory, hash) && !Unused(t.memory, hash) && !Unused(t.disk, hash))
            && (Unused(t.memory, hash) || Unused(t.disk, hash) ==>
                  Unused(s.memory, hash) || Unused(s.disk, hash) || RestoredBy(s, c, hash))
            && (RestoredBy(s, c, hash) ==> !Unused(s.memory, hash) && !RedeemedBy(s, c, hash))
  {
    EntryAfterEdit(s.memory, EditFor(s.memory, c.op, s.now), hash);
  }

  /** A call never redeems a revoked secret, and leaves it revoked. */
  lemma CallAtRevoked(s: Ledger, c: Call, hash: string)
    ensures var t := Apply(s, c.op, c.save);
            && (RevokedIn(s.memory, hash) ==> !RedeemedBy(s, c, hash))
            && (RevokedIn(s.memory, hash) && RevokedIn(s.disk, hash)
                ==> RevokedIn(t.memory, hash) && RevokedIn(t.disk, hash))
  {
    EntryAfterEdit(s.memory, EditFor(s.memory, c.op, s.now), hash);
  }

  /** Redemptions are paid for: one is free while the secret is unused somewhere, each further one by a restore. */
  predicate WithinBudget(s: Ledger, hash: string, redeems: nat, restores: nat) {
    && redeems <= restores + 1
    && (Unused(s.memory, hash) || Unused(s.disk, hash) ==> redeems <= restores)
  }

  lemma CallKeepsBudget(s: Ledger, c: Call, hash: string, redeems: nat, restores: nat)
    requires WithinBudget(s, hash, redeems, restores)
    ensures WithinBudget(Apply(s, c.op, c.save), hash,
                         redeems + (if RedeemedBy(s, c, hash) then 1 else 0),
                         restores + (if RestoredBy(s, c, hash) then 1 else 0))
  {
    CallAtSecret(s, c, hash);
  }

  /**
   * In any run of mints, deliveries, redeems, restores, revocations, shared records, burns, reloads and clock
   * changes, with saves failing anywhere, a secret is redeemed at most once more than it is restored.
   */
  lemma {:induction false} SingleUse(s: Ledger, calls: seq<Call>, n: nat, hash: string)
    requires n <= |calls|
    ensures WithinBudget(After(s, calls, n), hash, Redeems(s, calls, n, hash), Restores(s, calls, n, hash))
  {
    if n > 0 {
      SingleUse(s, calls, n - 1, hash);
      CallKeepsBudget(After(s, calls, n - 1), calls[n - 1], hash, Redeems(s, calls, n - 1, hash),
                      Restores(s, calls, n - 1, hash));
    }
  }

  // ---- Time ----

  /** Who redeems: a secret whose entry is pending and whose time is not up, and no other. */
  lemma RedeemsIff(s: Ledger, hash: string, redeemer: EndpointId, save: Save)
    ensures Succeeds(s, Redeem(hash, redeemer), save)
            <==> && save.Saved? && Entry(s.memory, hash).Some?
                 && Entry(s.memory, hash).value.status.Pending? && s.now < Entry(s.memory, hash).value.expires
  {
  }

  /** A call about something else: not the secret, not an id that names its invite, and not one that starts with it. */
  predicate LeavesAlone(c: Call, hash: string, id: string) {
    match c.op
    case Redeem(h, _) => h != hash
    case Restore(h) => h != hash
    case Burn(h, _) => h != hash
    case Revoke(prefix) => !(prefix <= id)
    case _ => true
  }

  /** The secret resolves to this invite in memory and on disk. */
  predicate Keeps(s: Ledger, hash: string, invite: Invite) {
    Entry(s.memory, hash) == Some(invite) && Entry(s.disk, hash) == Some(invite)
  }

  lemma CallLeavesAlone(s: Ledger, c: Call, hash: string, invite: Invite)
    requires Keeps(s, hash, invite) && LeavesAlone(c, hash, invite.id)
    ensures Keeps(Apply(s, c.op, c.save), hash, invite)
  {
    EntryAfterEdit(s.memory, EditFor(s.memory, c.op, s.now), hash);
  }

  lemma {:induction false} RunLeavesAlone(s: Ledger, calls: seq<Call>, n: nat, hash: string, invite: Invite)
    requires n <= |calls| && Keeps(s, hash, invite)
    requires forall i :: 0 <= i < n ==> LeavesAlone(calls[i], hash, invite.id)
    ensures Keeps(After(s, calls, n), hash, invite)
  {
    if n > 0 {
      RunLeavesAlone(s, calls, n - 1, hash, invite);
      CallLeavesAlone(After(s, calls, n - 1), calls[n - 1], hash, invite);
    }
  }

  /** The moment an invite stops, `ttl` seconds from `now` in 64 bits. */
  function Until(now: nat, ttl: nat): nat {
    if now + ttl <= 18446744073709551615 then now + ttl else 18446744073709551615
  }

  /**
   * A secret new to the ledger, minted and saved at one clock reading and then left alone through any run, redeems at
   * a later one exactly before its time to live is up.
   */
  lemma MintedRedeemsInTime(s: Ledger, hash: Hash, ttl: nat, hostname: Option<string>,
                            calls: seq<Call>, n: nat, r: EndpointId)
    requires Entry(s.memory, hash).None? && n <= |calls|
    requires forall i :: 0 <= i < n ==> LeavesAlone(calls[i], hash, hash[..8])
    ensures var t := After(Apply(s, Mint(hash, ttl, hostname), Saved), calls, n);
            Succeeds(t, Redeem(hash, r), Saved) <==> t.now < Until(s.now, ttl)
  {
    var invite := New(hash, s.now, ttl, hostname, None);
    EntryAfterEdit(s.memory, Append(invite), hash);
    RunLeavesAlone(Apply(s, Mint(hash, ttl, hostname), Saved), calls, n, hash, invite);
  }

  /** A private delivery is good for seven days. */
  lemma DeliveryRedeemsForAWeek(s: Ledger, hash: Hash, recipient: EndpointId, code: nat,
                                calls: seq<Call>, n: nat, r: EndpointId)
    requires Entry(s.memory, hash).None? && FindDelivery(s.memory, recipient, s.now, 0).None? && n <= |calls|
    requires forall i :: 0 <= i < n ==> LeavesAlone(calls[i], hash, hash[..8])
    ensures var t := After(Apply(s, Deliver(hash, recipient, code), Saved), calls, n);
            Succeeds(t, Redeem(hash, r), Saved) <==> t.now < Until(s.now, 604800)
  {
    var invite := New(hash, s.now, DELIVERY_TTL, None, Some(Delivery(recipient, code, false, false, None)));
    EntryAfterEdit(s.memory, Append(invite), hash);
    RunLeavesAlone(Apply(s, Deliver(hash, recipient, code), Saved), calls, n, hash, invite);
  }

  /** An invite shared by another coordinator redeems here until the moment that coordinator gave. */
  lemma SharedRedeemsInTime(s: Ledger, id: string, hash: string, expires: nat, calls: seq<Call>, n: nat, r: EndpointId)
    requires Entry(s.memory, hash).None? && (forall i :: 0 <= i < |s.memory| ==> s.memory[i].id != id) && n <= |calls|
    requires forall i :: 0 <= i < n ==> LeavesAlone(calls[i], hash, id)
    ensures var t := After(Apply(s, Share(id, hash, expires), Saved), calls, n);
            Succeeds(t, Redeem(hash, r), Saved) <==> t.now < expires
  {
    var invite := Invite(id, hash, s.now, expires, Pending, None, None);
    EntryAfterEdit(s.memory, Append(invite), hash);
    RunLeavesAlone(Apply(s, Share(id, hash, expires), Saved), calls, n, hash, invite);
  }

  /** A burn, saved or not, stops the secret; undoing a redemption makes it good again, for the time it has left. */
  lemma BurnAndRestore(s: Ledger, hash: string, zero: EndpointId, save: Save, r: EndpointId)
    ensures !Succeeds(Apply(s, Burn(hash, zero), save), Redeem(hash, r), Saved)
    ensures Entry(s.memory, hash).Some? && Entry(s.memory, hash).value.status.Redeemed? ==>
              (Succeeds(Apply(s, Restore(hash), save), Redeem(hash, r), Saved)
               <==> s.now < Entry(s.memory, hash).value.expires)
  {
    EntryAfterEdit(s.memory, EditFor(s.memory, Burn(hash, zero), s.now), hash);
    EntryAfterEdit(s.memory, EditFor(s.memory, Restore(hash), s.now), hash);
  }

  /** A record shared under an id that is known changes nothing. */
  lemma SharedOncePerId(s: Ledger, id: string, hash: string, expires: nat, save: Save, i: nat)
    requires i < |s.memory| && s.memory[i].id == id
    ensures Apply(s, Share(id, hash, expires), save) == s
  {
  }

  // ---- Revocation ----

  /** A revocation succeeds exactly if one id starts with the text and that invite is not used; it changes no other. */
  lemma RevokesIff(s: Ledger, id: string)
    ensures Succeeds(s, Revoke(id), Saved)
            <==> exists i :: 0 <= i < |s.memory| && id <= s.memory[i].id && !s.memory[i].status.Redeemed?
                             && forall j :: 0 <= j < |s.memory| && j != i ==> !(id <= s.memory[j].id)
    ensures var t := Apply(s, Revoke(id), Saved);
            && |t.memory| == |s.memory|
            && forall i :: 0 <= i < |s.memory| ==>
                 t.memory[i] == if Succeeds(s, Revoke(id), Saved) && id <= s.memory[i].id
                                then s.memory[i].(status := Revoked) else s.memory[i]
  {
  }

  /** Once the entry a secret resolves to is revoked and saved, no run ever redeems the secret again. */
  lemma {:induction false} RevokedForever(s: Ledger, calls: seq<Call>, n: nat, hash: string)
    requires n <= |calls| && RevokedIn(s.memory, hash) && RevokedIn(s.disk, hash)
    ensures RevokedIn(After(s, calls, n).memory, hash) && RevokedIn(After(s, calls, n).disk, hash)
    ensures Redeems(s, calls, n, hash) == 0
  {
    if n > 0 {
      RevokedForever(s, calls, n - 1, hash);
      CallAtRevoked(After(s, calls, n - 1), calls[n - 1], hash);
    }
  }

  /**
   * A saved revocation stops a live secret exactly when the id names the entry it resolves to, and not a later copy.
   */
  lemma RevokeStopsSecret(s: Ledger, id: string, hash: string, redeemer: EndpointId)
    requires Succeeds(s, Revoke(id), Saved) && Succeeds(s, Redeem(hash, redeemer), Saved)
    ensures var t := Apply(s, Revoke(id), Saved);
            && (!Succeeds(t, Redeem(hash, redeemer), Saved) <==> OnlyMatch(s.memory, id) == Find(s.memory, hash, 0))
            && (!Succeeds(t, Redeem(hash, redeemer), Saved) <==> RevokedIn(t.memory, hash) && RevokedIn(t.disk, hash))
  {
    EntryAfterEdit(s.memory, EditFor(s.memory, Revoke(id), s.now), hash);
  }

  /** Minted, then shared by another coordinator under its own id: two entries with one hash. */
  lemma MintThenShare(hash: Hash, id: string, ttl: nat) returns (both: Invites)
    requires !(id <= hash[..8])
    ensures both == [New(hash, 0, ttl, None, None), Invite(id, hash, 0, 1, Pending, None, None)]
    ensures Apply(Apply(Ledger([], [], 0), Mint(hash, ttl, None), Saved), Share(id, hash, 1), Saved)
            == Ledger(both, both, 0)
  {
    var own := New(hash, 0, ttl, None, None);
    assert Apply(Ledger([], [], 0), Mint(hash, ttl, None), Saved) == Ledger([own], [own], 0);
    assert own.id != id;
    both := [own, Invite(id, hash, 0, 1, Pending, None, None)];
  }

  /** Revoking the copy leaves the secret redeemable. */
  lemma RevokeTheCopy(s: Ledger, own: Invite, copy: Invite, redeemer: EndpointId)
    requires s.memory == [own, copy] && IsLive(own, s.now) && copy.hash == own.hash && copy.status.Pending?
    requires !(copy.id <= own.id)
    ensures Succeeds(s, Revoke(copy.id), Saved)
    ensures Succeeds(Apply(s, Revoke(copy.id), Saved), Redeem(own.hash, redeemer), Saved)
  {
    assert FindId(s.memory, copy.id, 1) == Some(1) && FindId(s.memory, copy.id, 2) == None;
    assert OnlyMatch(s.memory, copy.id) == Some(1) && Find(s.memory, own.hash, 0) == Some(0);
    RevokeStopsSecret(s, copy.id, own.hash, redeemer);
  }

  /** The exception happens: a shared record repeats the hash, its id is revoked, and the secret still redeems. */
  lemma RevokedCopyRedeems(hash: Hash, id: string, ttl: nat, redeemer: EndpointId)
    requires ttl > 0 && !(id <= hash[..8])
    ensures var calls := [Call(Mint(hash, ttl, None), Saved), Call(Share(id, hash, 1), Saved), Call(Revoke(id), Saved)];
            && Succeeds(After(Ledger([], [], 0), calls, 2), Revoke(id), Saved)
            && Succeeds(After(Ledger([], [], 0), calls, 3), Redeem(hash, redeemer), Saved)
  {
    var calls := [Call(Mint(hash, ttl, None), Saved), Call(Share(id, hash, 1), Saved), Call(Revoke(id), Saved)];
    var s0 := Ledger([], [], 0);
    var both := MintThenShare(hash, id, ttl);
    assert After(s0, calls, 1) == Apply(s0, calls[0].op, Saved);
    assert After(s0, calls, 2) == Apply(After(s0, calls, 1), calls[1].op, Saved) == Ledger(both, both, 0);
    assert After(s0, calls, 3) == Apply(After(s0, calls, 2), calls[2].op, Saved);
    RevokeTheCopy(Ledger(both, both, 0), both[0], both[1], redeemer);
  }

  // ---- Private deliveries ----

  /** At most one live delivery per recipient, so repeated applies and lost acknowledgements share one credential. */
  ghost predicate OneLiveEach(l: Invites, now: nat) {
    forall i, j, r :: 0 <= i < j < |l| && LiveDeliveryTo(l[i], r, now) ==> !LiveDeliveryTo(l[j], r, now)
  }

  /** Restoring this secret would revive a delivery whose recipient has been given another meanwhile. */
  predicate RevivesSecond(l: Invites, hash: string, now: nat) {
    var i := Find(l, hash, 0);
    && i.Some? && l[i.value].status.Redeemed? && l[i.value].expires > now && l[i.value].delivery.Some?
    && exists j :: 0 <= j < |l| && j != i.value && LiveDeliveryTo(l[j], l[i.value].delivery.value.recipient, now)
  }

  /** Every change keeps one live delivery per recipient, except exactly a restore that revives a second one. */
  lemma DeliveriesStayUnique(l: Invites, op: Op, now: nat)
    requires OneLiveEach(l, now)
    ensures OneLiveEach(Edited(l, EditFor(l, op, now)), now) <==> !(op.Restore? && RevivesSecond(l, op.hash, now))
  {
    match EditFor(l, op, now)
    case Nothing =>
    case Append(x) => AppendStaysUnique(l, x, now);
    case Set(k, status) =>
      if op.Restore? { RestoreUnique(l, op.hash, now); } else { RetireStaysUnique(l, k, status, now); }
  }

  lemma AppendStaysUnique(l: Invites, x: Invite, now: nat)
    requires OneLiveEach(l, now)
    requires x.delivery.None? || forall i :: 0 <= i < |l| ==> !LiveDeliveryTo(l[i], x.delivery.value.recipient, now)
    ensures OneLiveEach(l + [x], now)
  {
  }

  lemma RetireStaysUnique(l: Invites, k: nat, status: Status, now: nat)
    requires OneLiveEach(l, now) && k < |l| && !status.Pending?
    ensures OneLiveEach(SetStatus(l, k, status), now)
  {
  }

  lemma RestoreUnique(l: Invites, hash: string, now: nat)
    requires OneLiveEach(l, now) && Find(l, hash, 0).Some? && l[Find(l, hash, 0).value].status.Redeemed?
    ensures OneLiveEach(SetStatus(l, Find(l, hash, 0).value, Pending), now) <==> !RevivesSecond(l, hash, now)
  {
    var k := Find(l, hash, 0).value;
    var r := SetStatus(l, k, Pending);
    if RevivesSecond(l, hash, now) {
      var p := l[k].delivery.value.recipient;
      var j :| 0 <= j < |l| && j != k && LiveDeliveryTo(l[j], p, now);
      assert LiveDeliveryTo(r[k], p, now) && LiveDeliveryTo(r[j], p, now);
    } else {
      forall i, j, p | 0 <= i < j < |r| && LiveDeliveryTo(r[i], p, now) ensures !LiveDeliveryTo(r[j], p, now) {
        if i != k { assert LiveDeliveryTo(l[i], p, now); }
      }
    }
  }

  /** Call `i` does not turn the clock back, and restores no delivery whose recipient has another live one. */
  predicate Orderly(s: Ledger, calls: seq<Call>, i: nat)
    requires i < |calls|
  {
    var before, op := After(s, calls, i), calls[i].op;
    && (op.Clock? ==> before.now <= op.now)
    && (op.Restore? ==> !RevivesSecond(before.memory, op.hash, before.now))
  }

  /** So in every orderly run, memory and disk hold at most one live delivery per recipient at all times. */
  lemma {:induction false} OneDeliveryEach(s: Ledger, calls: seq<Call>, n: nat)
    requires n <= |calls| && s.memory == s.disk == [] && forall i :: 0 <= i < n ==> Orderly(s, calls, i)
    ensures var t := After(s, calls, n); OneLiveEach(t.memory, t.now) && OneLiveEach(t.disk, t.now)
  {
    if n > 0 {
      OneDeliveryEach(s, calls, n - 1);
      assert Orderly(s, calls, n - 1);
      CallStaysUnique(After(s, calls, n - 1), calls[n - 1]);
    }
  }

  lemma CallStaysUnique(s: Ledger, c: Call)
    requires OneLiveEach(s.memory, s.now) && OneLiveEach(s.disk, s.now)
    requires c.op.Clock? ==> s.now <= c.op.now
    requires c.op.Restore? ==> !RevivesSecond(s.memory, c.op.hash, s.now)
    ensures var t := Apply(s, c.op, c.save); OneLiveEach(t.memory, t.now) && OneLiveEach(t.disk, t.now)
  {
    DeliveriesStayUnique(s.memory, c.op, s.now);
    if c.op.Clock? {
      StaysUniqueLater(s.memory, s.now, c.op.now);
      StaysUniqueLater(s.disk, s.now, c.op.now);
    }
  }

  lemma StaysUniqueLater(l: Invites, now: nat, later: nat)
    requires OneLiveEach(l, now) && now <= later
    ensures OneLiveEach(l, later)
  {
    forall i, j, r | 0 <= i < j < |l| && LiveDeliveryTo(l[i], r, later) ensures !LiveDeliveryTo(l[j], r, later) {
      assert LiveDeliveryTo(l[i], r, now);
    }
  }

  /** The exception happens: a delivery is redeemed, a second one is made, and the first redemption is undone. */
  lemma TwoLiveDeliveries(first: Hash, second: Hash, r: EndpointId)
    requires first != second
    ensures var calls := [Call(Deliver(first, r, 1), Saved), Call(Redeem(first, r), Saved),
                          Call(Deliver(second, r, 2), Saved), Call(Restore(first), Saved)];
            !OneLiveEach(After(Ledger([], [], 0), calls, 4).memory, 0)
  {
    var calls := [Call(Deliver(first, r, 1), Saved), Call(Redeem(first, r), Saved),
                  Call(Deliver(second, r, 2), Saved), Call(Restore(first), Saved)];
    var s0 := Ledger([], [], 0);
    var a := New(first, 0, DELIVERY_TTL, None, Some(Delivery(r, 1, false, false, None)));
    var b := New(second, 0, DELIVERY_TTL, None, Some(Delivery(r, 2, false, false, None)));
    var used := a.(status := Redeemed(r, 0));
    assert After(s0, calls, 1).memory == [a];
    assert After(s0, calls, 2).memory == [used];
    assert After(s0, calls, 3).memory == [used, b];
    var m := After(s0, calls, 4).memory;
    assert m == [a, b];
    assert LiveDeliveryTo(m[0], r, 0) && LiveDeliveryTo(m[1], r, 0);
  }

  // ---- The store ----

  datatype Redemption = Admitted(hostname: Option<string>) | Unknown | Used | WasRevoked | Expired | SaveFailed

  class InviteStore {
    var invites: Invites
    var disk: Invites

    ghost function State(now: nat): Ledger
      reads this
    {
      Ledger(invites, disk, now)
    }

    method SaveLedger(save: Save) returns (ok: bool)
      modifies this
      ensures invites == old(invites) && ok == save.Saved?
      ensures disk == if save.Refused? then old(disk) else invites
    {
      if !save.Refused? { disk := invites; }
      return save.Saved?;
    }

    method FindEntry(hash: string) returns (r: Option<nat>)
      ensures r == Find(invites, hash, 0)
    {
      var i := 0;
      while i < |invites|
        invariant i <= |invites| && Find(invites, hash, 0) == Find(invites, hash, i)
      {
        if invites[i].hash == hash { return Some(i); }
        i := i + 1;
      }
      return None;
    }

    method MintInvite(hash: Hash, ttl: nat, hostname: Option<string>, now: nat, save: Save) returns (id: Result<string>)
      modifies this
      ensures State(now) == Apply(old(State(now)), Mint(hash, ttl, hostname), save)
      ensures id == if save.Saved? then Ok(hash[..8]) else Err
    {
      var invite := New(hash, now, ttl, hostname, None);
      invites := invites + [invite];
      var ok := SaveLedger(save);
      return if ok then Ok(invite.id) else Err;
    }

    method RedeemSecret(hash: string, redeemer: EndpointId, now: nat, save: Save) returns (r: Redemption)
      modifies this
      ensures State(now) == Apply(old(State(now)), Redeem(hash, redeemer), save)
      ensures r.Admitted? <==> Succeeds(old(State(now)), Redeem(hash, redeemer), save)
      ensures r == match Entry(old(invites), hash)
                   case None => Unknown
                   case Some(i) =>
                     match i.status
                     case Redeemed(_, _) => Used
                     case Revoked => WasRevoked
                     case Pending =>
                       if i.expires <= now then Expired
                       else if save.Saved? then Admitted(i.hostname) else SaveFailed
    {
      var i := FindEntry(hash);
      if i.None? { return Unknown; }
      var invite := invites[i.value];
      if invite.status.Redeemed? { return Used; }
      if invite.status.Revoked? { return WasRevoked; }
      if now >= invite.expires { return Expired; }
      invites := SetStatus(invites, i.value, Redeemed(redeemer, now));
      var ok := SaveLedger(save);
      return if ok then Admitted(invite.hostname) else SaveFailed;
    }

    method RestoreSecret(hash: string, now: nat, save: Save) returns (ok: bool)
      modifies this
      ensures State(now) == Apply(old(State(now)), Restore(hash), save)
      ensures ok <==> EditFor(old(invites), Restore(hash), now).Nothing? || save.Saved?
    {
      var i := FindEntry(hash);
      if i.None? || !invites[i.value].status.Redeemed? { return true; }
      invites := SetStatus(invites, i.value, Pending);
      ok := SaveLedger(save);
    }

    /** The single entry whose id starts with `id`. */
    method FindOnlyMatch(id: string) returns (found: Option<nat>)
      ensures found == OnlyMatch(invites, id)
    {
      found := None;
      var i := 0;
      while i < |invites|
        invariant i <= |invites|
        invariant found.None? ==> FindId(invites, id, 0) == FindId(invites, id, i)
        invariant found.Some? ==> FindId(invites, id, 0) == found && found.value < i
                                  && FindId(invites, id, found.value + 1) == FindId(invites, id, i)
      {
        if id <= invites[i].id {
          if found.Some? { return None; }
          found := Some(i);
        }
        i := i + 1;
      }
    }

    method RevokeInvite(id: string, now: nat, save: Save) returns (ok: bool)
      modifies this
      ensures State(now) == Apply(old(State(now)), Revoke(id), save)
      ensures ok <==> Succeeds(old(State(now)), Revoke(id), save)
    {
      var found := FindOnlyMatch(id);
      if found.None? { return false; }
      if invites[found.value].status.Redeemed? { return false; }
      invites := SetStatus(invites, found.value, Revoked);
      ok := SaveLedger(save);
    }

    method RecordShared(id: string, hash: string, expires: nat, now: nat, save: Save) returns (ok: bool)
      modifies this
      ensures State(now) == Apply(old(State(now)), Share(id, hash, expires), save)
      ensures ok <==> EditFor(old(invites), Share(id, hash, expires), now).Nothing? || save.Saved?
    {
      var i := 0;
      while i < |invites|
        invariant i <= |invites| && State(now) == old(State(now))
        invariant forall j :: 0 <= j < i ==> invites[j].id != id
      {
        if invites[i].id == id { return true; }
        i := i + 1;
      }
      invites := invites + [Invite(id, hash, now, expires, Pending, None, None)];
      ok := SaveLedger(save);
    }

    method BurnByHash(hash: string, zero: EndpointId, now: nat, save: Save) returns (changed: Result<bool>)
      modifies this
      ensures State(now) == Apply(old(State(now)), Burn(hash, zero), save)
      ensures changed == Ok(true) <==> Succeeds(old(State(now)), Burn(hash, zero), save)
      ensures changed == Ok(false) <==> EditFor(old(invites), Burn(hash, zero), now).Nothing?
    {
      var i := FindEntry(hash);
      if i.None? || !invites[i.value].status.Pending? { return Ok(false); }
      invites := SetStatus(invites, i.value, Redeemed(zero, now));
      var ok := SaveLedger(save);
      return if ok then Ok(true) else Err;
    }

    method LiveDelivery(recipient: EndpointId, now: nat) returns (r: Option<nat>)
      ensures r == FindDelivery(invites, recipient, now, 0)
    {
      var i := 0;
      while i < |invites|
        invariant i <= |invites| && FindDelivery(invites, recipient, now, 0) == FindDelivery(invites, recipient, now, i)
      {
        if LiveDeliveryTo(invites[i], recipient, now) { return Some(i); }
        i := i + 1;
      }
      return None;
    }

    /** Reuses the live delivery if there is one, and otherwise mints one. */
    method DeliveryFor(recipient: EndpointId, hash: Hash, code: nat, now: nat, save: Save) returns (r: Result<Invite>)
      modifies this
      ensures State(now) == Apply(old(State(now)), Deliver(hash, recipient, code), save)
      ensures r.Ok? ==> r.value in invites && (LiveDeliveryTo(r.value, recipient, now) || now + DELIVERY_TTL > U64_MAX)
      ensures FindDelivery(old(invites), recipient, now, 0).Some? ==>
                r == Ok(invites[FindDelivery(old(invites), recipient, now, 0).value])
      ensures r.Err? <==> FindDelivery(old(invites), recipient, now, 0).None? && !save.Saved?
    {
      var live := LiveDelivery(recipient, now);
      if live.Some? { return Ok(invites[live.value]); }
      var invite := New(hash, now, DELIVERY_TTL, None, Some(Delivery(recipient, code, false, false, None)));
      invites := invites + [invite];
      var ok := SaveLedger(save);
      return if ok then Ok(invite) else Err;
    }
  }
}
