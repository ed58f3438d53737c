/**
 * The crash-safe rename of a network (src/config.rs, with the firewall half from
 * src/daemon/network_registry.rs). Each file operation is atomic; the power may go between any two.
 */
module Rename {
  import opened Wrappers
  import Firewall

  /** A saved network: the name inside its file, and everything else in it. */
  datatype Net = Net(name: string, body: nat)

  /** An invite ledger, as a whole file. */
  datatype Ledger = Ledger(content: nat)

  datatype Intent = Intent(from: string, to: string)

  datatype Disk = Disk(
    networks: map<string, Net>, ledgers: map<string, Ledger>,
    intent: Option<Intent>, firewall: Firewall.FirewallConfig)

  predicate ValidName(name: string) {
    && 0 < |name| <= 64
    && forall c :: c in name ==> 'a' <= c <= 'z' || '0' <= c <= '9' || c == '-'
  }

  // ---- The steps ----

  /** Where recovery is. Each stage makes at most one file operation. */
  datatype Pc = Moving | MovingLedger | Rewriting | SavingRules | Clearing | Halted

  datatype Machine = Machine(disk: Disk, pc: Pc)

  function MoveConfig(d: Disk, from: string, to: string): Disk
    requires from in d.networks
  {
    d.(networks := (d.networks - {from})[to := d.networks[from]])
  }

  function MoveLedger(d: Disk, from: string, to: string): Disk
    requires from in d.ledgers
  {
    d.(ledgers := (d.ledgers - {from})[to := d.ledgers[from]])
  }

  function RewriteName(d: Disk, to: string): Disk
    requires to in d.networks
  {
    d.(networks := d.networks[to := d.networks[to].(name := to)])
  }

  function SaveRules(d: Disk, from: string, to: string): Disk {
    d.(firewall := Firewall.RenameConfig(d.firewall, from, to))
  }

  function ClearIntent(d: Disk): Disk { d.(intent := None) }

  /** One stage of `finish_interrupted_rename`. An error halts it with the intent still saved. */
  function Step(m: Machine): Machine {
    var d := m.disk;
    if d.intent.None? then Machine(d, Halted) else
    var Intent(from, to) := d.intent.value;
    match m.pc
    case Moving =>
      if !ValidName(from) || !ValidName(to) then Machine(d, Halted)
      else if from in d.networks then
        if to in d.networks then Machine(d, Clearing) else Machine(MoveConfig(d, from, to), MovingLedger)
      else Machine(d, if to in d.networks then MovingLedger else Clearing)
    case MovingLedger =>
      Machine(if from in d.ledgers then MoveLedger(d, from, to) else d, Rewriting)
    case Rewriting =>
      if to !in d.networks then Machine(d, Halted)
      else if d.networks[to].name == to then Machine(d, SavingRules)
      else if d.networks[to].name == from then Machine(RewriteName(d, to), SavingRules)
      else Machine(d, Halted)
    case SavingRules =>
      Machine(if Firewall.AnyNames(d.firewall.rules, from) then SaveRules(d, from, to) else d, Clearing)
    case Clearing => Machine(ClearIntent(d), Halted)
    case Halted => m
  }

  /** The power goes; the next start begins recovery again from the saved intent. */
  function Restart(m: Machine): Machine { m.(pc := Moving) }

  datatype Event = Advance | Crash

  function Run(m: Machine, es: seq<Event>, n: nat): Machine
    requires n <= |es|
  {
    if n == 0 then m
    else if es[n - 1].Crash? then Restart(Run(m, es, n - 1))
    else Step(Run(m, es, n - 1))
  }

  // ---- Recovery gives one result, however often it is interrupted ----

  /** The disk an uninterrupted recovery leaves. */
  function Settled(d: Disk): Disk {
    if d.intent.None? then d else
    var Intent(from, to) := d.intent.value;
    if !ValidName(from) || !ValidName(to) then d
    else if from in d.networks && to in d.networks then ClearIntent(d)
    else if from !in d.networks && to !in d.networks then ClearIntent(d)
    else
      var moved := if from in d.networks then MoveConfig(d, from, to) else d;
      var followed := if from in moved.ledgers then MoveLedger(moved, from, to) else moved;
      if followed.networks[to].name != to && followed.networks[to].name != from then followed
      else ClearIntent(SaveRules(RewriteName(followed, to), from, to))
  }

  /** What holds at each stage of recovery. */
  predicate Consistent(m: Machine) {
    m.disk.intent.Some? ==>
      var Intent(from, to) := m.disk.intent.value;
      match m.pc
      case Moving => true
      case MovingLedger => ValidName(from) && ValidName(to) && from !in m.disk.networks && to in m.disk.networks
      case Rewriting =>
        ValidName(from) && ValidName(to) && from !in m.disk.networks && to in m.disk.networks
        && (from != to ==> from !in m.disk.ledgers)
      case SavingRules =>
        ValidName(from) && ValidName(to) && from !in m.disk.networks && to in m.disk.networks
        && (from != to ==> from !in m.disk.ledgers) && m.disk.networks[to].name == to
      case Clearing => ClearIntent(m.disk) == Settled(m.disk)
      case Halted => Settled(m.disk) == m.disk
  }

  lemma StepSettles(m: Machine)
    requires Consistent(m)
    ensures Consistent(Step(m)) && Settled(Step(m).disk) == Settled(m.disk)
  {
  }

  /**
   * However many crashes hit recovery, on any disk whatever, once it halts it has left
   * exactly the disk an uninterrupted recovery would have left.
   */
  lemma {:induction false} RecoveryIsDeterministic(d: Disk, es: seq<Event>, n: nat)
    requires n <= |es|
    ensures Consistent(Run(Machine(d, Moving), es, n))
    ensures Settled(Run(Machine(d, Moving), es, n).disk) == Settled(d)
    ensures Run(Machine(d, Moving), es, n).pc.Halted? ==> Run(Machine(d, Moving), es, n).disk == Settled(d)
  {
    if n > 0 {
      RecoveryIsDeterministic(d, es, n - 1);
      StepSettles(Run(Machine(d, Moving), es, n - 1));
    }
  }

  /** A run without a crash. */
  function Steps(m: Machine, n: nat): Machine { if n == 0 then m else Step(Steps(m, n - 1)) }

  lemma {:induction false} RunAdvances(m: Machine, es: seq<Event>, n: nat)
    requires n <= |es| && forall i :: 0 <= i < n ==> es[i].Advance?
    ensures Run(m, es, n) == Steps(m, n)
  {
    if n > 0 { RunAdvances(m, es, n - 1); }
  }

  function StagesLeft(pc: Pc): nat {
    match pc
    case Moving => 5
    case MovingLedger => 4
    case Rewriting => 3
    case SavingRules => 2
    case Clearing => 1
    case Halted => 0
  }

  /** Five stages without a crash finish it, and it stays finished. */
  lemma {:induction false} RecoveryFinishes(m: Machine, n: nat)
    ensures StagesLeft(Steps(m, n).pc) <= if n < StagesLeft(m.pc) then StagesLeft(m.pc) - n else 0
  {
    if n > 0 { RecoveryFinishes(m, n - 1); }
  }

  // ---- A rename ----

  /** `rename_network_in` up to its commit point: the intent is saved, or nothing changes. */
  function Commit(d: Disk, from: string, to: string): Result<Option<Disk>> {
    if !ValidName(to) || d.intent.Some? || !ValidName(from) then Err
    else if from !in d.networks then Ok(None)
    else if d.networks[from].name != from || to in d.networks then Err
    else Ok(Some(d.(intent := Some(Intent(from, to)))))
  }

  /** The disk after a rename: the file, the name in it, the ledger and the firewall rules all follow. */
  function Renamed(d: Disk, from: string, to: string): Disk
    requires from in d.networks
  {
    Disk((d.networks - {from})[to := d.networks[from].(name := to)],
         if from in d.ledgers then (d.ledgers - {from})[to := d.ledgers[from]] else d.ledgers,
         None,
         Firewall.RenameConfig(d.firewall, from, to))
  }

  /** At every moment of a rename the network is saved in exactly one file, and no other network's files change. */
  predicate SavedOnce(before: Disk, now: Disk, from: string, to: string)
    requires from in before.networks
  {
    && (from in now.networks <==> to !in now.networks)
    && (from in now.networks ==> now.networks[from] == before.networks[from])
    && (to in now.networks ==>
          && now.networks[to].body == before.networks[from].body
          && (now.networks[to].name == from || now.networks[to].name == to))
    && now.networks - {from, to} == before.networks - {from, to}
    && now.ledgers - {from, to} == before.ledgers - {from, to}
    && (from !in before.ledgers ==> now.ledgers == before.ledgers)
    && (from in before.ledgers ==>
          || (from in now.ledgers && now.ledgers == before.ledgers)
          || (from !in now.ledgers && to in now.ledgers && now.ledgers[to] == before.ledgers[from]))
  }

  lemma StepSavesOnce(before: Disk, m: Machine, from: string, to: string)
    requires from in before.networks && before.networks[from].name == from && from != to
    requires SavedOnce(before, m.disk, from, to) && Consistent(m)
    requires m.disk.intent.Some? ==> m.disk.intent.value == Intent(from, to)
    ensures SavedOnce(before, Step(m).disk, from, to)
    ensures Step(m).disk.intent.Some? ==> Step(m).disk.intent.value == Intent(from, to)
  {
  }

  /**
   * From the commit point on, at every step of every run with any number of crashes, the network is saved exactly
   * once; and a run that finishes leaves the renamed disk, the same as if nothing had interrupted it.
   */
  lemma {:induction false} CrashSafeRename(d: Disk, from: string, to: string, es: seq<Event>, n: nat)
    requires n <= |es| && Commit(d, from, to).Ok? && Commit(d, from, to).value.Some?
    ensures var m := Run(Machine(Commit(d, from, to).value.value, Moving), es, n);
            && SavedOnce(d, m.disk, from, to)
            && (m.disk.intent.Some? ==> m.disk.intent.value == Intent(from, to))
            && (m.pc.Halted? ==> m.disk == Renamed(d, from, to))
  {
    var start := Commit(d, from, to).value.value;
    RecoveryIsDeterministic(start, es, n);
    assert start.networks == d.networks;
    SettledIsRenamed(d, from, to);
    if n > 0 {
      CrashSafeRename(d, from, to, es, n - 1);
      RecoveryIsDeterministic(start, es, n - 1);
      StepSavesOnce(d, Run(Machine(start, Moving), es, n - 1), from, to);
    }
  }

  lemma SettledIsRenamed(d: Disk, from: string, to: string)
    requires Commit(d, from, to).Ok? && Commit(d, from, to).value.Some?
    ensures Settled(Commit(d, from, to).value.value) == Renamed(d, from, to)
  {
  }

  /** Without a crash, five stages or more leave the renamed disk. */
  lemma UninterruptedRename(d: Disk, from: string, to: string, n: nat)
    requires n >= 5 && Commit(d, from, to).Ok? && Commit(d, from, to).value.Some?
    ensures Steps(Machine(Commit(d, from, to).value.value, Moving), n) == Machine(Renamed(d, from, to), Halted)
  {
    var m, es := Machine(Commit(d, from, to).value.value, Moving), seq(n, _ => Advance);
    RunAdvances(m, es, n);
    RecoveryFinishes(m, n);
    CrashSafeRename(d, from, to, es, n);
  }

  function LedgerOf(d: Disk, name: string): Option<Ledger> { if name in d.ledgers then Some(d.ledgers[name]) else None }

  /**
   * However it was interrupted, a finished rename has the ledger the network had before, present or absent, exactly
   * when it had one or none was left under the new name.
   */
  lemma LedgerFollows(d: Disk, from: string, to: string, es: seq<Event>, n: nat)
    requires n <= |es| && Commit(d, from, to).Ok? && Commit(d, from, to).value.Some?
    requires Run(Machine(Commit(d, from, to).value.value, Moving), es, n).pc.Halted?
    ensures var now := Run(Machine(Commit(d, from, to).value.value, Moving), es, n).disk;
            && LedgerOf(now, from) == None
            && (LedgerOf(now, to) == LedgerOf(d, from) <==> from in d.ledgers || to !in d.ledgers)
  {
    CrashSafeRename(d, from, to, es, n);
  }

  /** It happens: `office`, which has no invites, is renamed to `home` and takes over a ledger left there. */
  lemma StaleLedger(config: Firewall.FirewallConfig, left: Ledger)
    ensures var d := Disk(map["office" := Net("office", 0)], map["home" := left], None, config);
            && Commit(d, "office", "home").Ok? && Commit(d, "office", "home").value.Some?
            && var now := Steps(Machine(Commit(d, "office", "home").value.value, Moving), 5);
            && now.pc.Halted? && LedgerOf(d, "office") == None && LedgerOf(now.disk, "home") == Some(left)
  {
    var d := Disk(map["office" := Net("office", 0)], map["home" := left], None, config);
    assert ValidName("office") && ValidName("home");
    UninterruptedRename(d, "office", "home", 5);
  }

  // ---- One rename at a time ----

  /** What can happen: someone asks for a rename, recovery makes a stage, or the power goes. */
  datatype Act = Ask(from: string, to: string) | Go | Fail

  function Next(m: Machine, a: Act): Machine {
    match a
    case Ask(from, to) =>
      (match Commit(m.disk, from, to)
       case Ok(Some(d)) => Machine(d, Moving)
       case _ => m)
    case Go => Step(m)
    case Fail => Restart(m)
  }

  function Acts(m: Machine, acts: seq<Act>, n: nat): Machine
    requires n <= |acts|
  {
    if n == 0 then m else Next(Acts(m, acts, n - 1), acts[n - 1])
  }

  /** A saved intent is left as it is, or cleared when its own recovery has done everything it had to. */
  lemma ActKeepsIntent(m: Machine, a: Act)
    requires Consistent(m)
    ensures Consistent(Next(m, a))
    ensures m.disk.intent.Some? ==>
              || (Next(m, a).disk.intent == m.disk.intent && Settled(Next(m, a).disk) == Settled(m.disk))
              || (Next(m, a).disk.intent == None && Next(m, a).disk == Settled(m.disk))
    ensures m.disk.intent == None && Next(m, a).disk.intent.Some? ==>
              a.Ask? && Next(m, a).disk == m.disk.(intent := Some(Intent(a.from, a.to)))
  {
    StepSettles(m);
  }

  /** The rename pending at step `i` came to its end at step `j`. */
  predicate EndedAt(m: Machine, acts: seq<Act>, i: nat, j: nat)
    requires i <= |acts| && j <= |acts|
  {
    Acts(m, acts, j).disk.intent == None && Acts(m, acts, j).disk == Settled(Acts(m, acts, i).disk)
  }

  /**
   * In every run of requests, stages and crashes, a pending rename stays the pending one until it has ended with the
   * disk it was to leave: no later request replaces it.
   */
  lemma {:induction false} PendingRenameEnds(m: Machine, acts: seq<Act>, i: nat, n: nat)
    requires i <= n <= |acts| && Consistent(m) && Acts(m, acts, i).disk.intent.Some?
    ensures Consistent(Acts(m, acts, n))
    ensures || (&& Acts(m, acts, n).disk.intent == Acts(m, acts, i).disk.intent
                && Settled(Acts(m, acts, n).disk) == Settled(Acts(m, acts, i).disk))
            || exists j :: i < j <= n && EndedAt(m, acts, i, j)
    decreases n
  {
    if n > i {
      PendingRenameEnds(m, acts, i, n - 1);
      ActKeepsIntent(Acts(m, acts, n - 1), acts[n - 1]);
      if Acts(m, acts, n - 1).disk.intent == Acts(m, acts, i).disk.intent
         && Settled(Acts(m, acts, n - 1).disk) == Settled(Acts(m, acts, i).disk)
         && Acts(m, acts, n).disk.intent == None {
        assert EndedAt(m, acts, i, n);
      }
    } else {
      ActsStayConsistent(m, acts, n);
    }
  }

  lemma {:induction false} ActsStayConsistent(m: Machine, acts: seq<Act>, n: nat)
    requires n <= |acts| && Consistent(m)
    ensures Consistent(Acts(m, acts, n))
  {
    if n > 0 {
      ActsStayConsistent(m, acts, n - 1);
      ActKeepsIntent(Acts(m, acts, n - 1), acts[n - 1]);
    }
  }

  // ---- The config directory ----

  class ConfigDir {
    var networks: map<string, Net>
    var ledgers: map<string, Ledger>
    var intent: Option<Intent>
    var firewall: Firewall.FirewallConfig

    ghost function Contents(): Disk
      reads this
    {
      Disk(networks, ledgers, intent, firewall)
    }

    /** Move the network's file, unless another one is saved under the new name or there is none to move. */
    method MoveFile(from: string, to: string) returns (next: Pc)
      requires intent == Some(Intent(from, to))
      modifies this
      ensures Machine(Contents(), next) == Step(Machine(old(Contents()), Moving))
    {
      if !ValidName(from) || !ValidName(to) { return Halted; }
      if from in networks {
        if to in networks { return Clearing; }
        networks := (networks - {from})[to := networks[from]];
      }
      return if to in networks then MovingLedger else Clearing;
    }

    /** Move its invite ledger, over any left under the new name. */
    method MoveLedgerFile(from: string, to: string) returns (next: Pc)
      requires intent == Some(Intent(from, to))
      modifies this
      ensures Machine(Contents(), next) == Step(Machine(old(Contents()), MovingLedger))
    {
      if from in ledgers { ledgers := (ledgers - {from})[to := ledgers[from]]; }
      return Rewriting;
    }

    /** Rewrite the name inside the file, if it is still the old one. */
    method RewriteFile(from: string, to: string) returns (next: Pc)
      requires intent == Some(Intent(from, to))
      modifies this
      ensures Machine(Contents(), next) == Step(Machine(old(Contents()), Rewriting))
    {
      if to !in networks { return Halted; }
      var net := networks[to];
      if net.name != to {
        if net.name != from { return Halted; }
        networks := networks[to := net.(name := to)];
      }
      return SavingRules;
    }

    method SaveFirewall(from: string, to: string) returns (next: Pc)
      requires intent == Some(Intent(from, to))
      modifies this
      ensures Machine(Contents(), next) == Step(Machine(old(Contents()), SavingRules))
    {
      if Firewall.AnyNames(firewall.rules, from) { firewall := Firewall.RenameConfig(firewall, from, to); }
      return Clearing;
    }

    /** `finish_interrupted_rename`, until it is done or the power goes after `stages` stages. */
    method FinishInterruptedRename(stages: nat) returns (pc: Pc)
      modifies this
      ensures Machine(Contents(), pc) == Steps(Machine(old(Contents()), Moving), stages)
    {
      pc := Moving;
      for done := 0 to stages
        invariant Machine(Contents(), pc) == Steps(Machine(old(Contents()), Moving), done)
      {
        if intent.None? { pc := Halted; continue; }
        var Intent(from, to) := intent.value;
        match pc
        case Moving => pc := MoveFile(from, to);
        case MovingLedger => pc := MoveLedgerFile(from, to);
        case Rewriting => pc := RewriteFile(from, to);
        case SavingRules => pc := SaveFirewall(from, to);
        case Clearing => intent, pc := None, Halted;
        case Halted =>
      }
    }

    /** `rename_network_in`, and the stages completed after it committed. */
    method RenameNetwork(from: string, to: string, stages: nat) returns (committed: Result<bool>)
      modifies this
      ensures match Commit(old(Contents()), from, to)
              case Err => committed.Err? && Contents() == old(Contents())
              case Ok(None) => committed == Ok(false) && Contents() == old(Contents())
              case Ok(Some(d)) =>
                && committed == Ok(true) && Contents() == Steps(Machine(d, Moving), stages).disk
                && (stages >= 5 ==> Contents() == Renamed(old(Contents()), from, to))
    {
      if !ValidName(to) || intent.Some? || !ValidName(from) { return Err; }
      if from !in networks { return Ok(false); }
      if networks[from].name != from || to in networks { return Err; }
      if stages >= 5 { UninterruptedRename(Contents(), from, to, stages); }
      intent := Some(Intent(from, to));
      var _ := FinishInterruptedRename(stages);
      return Ok(true);
    }
  }
}
