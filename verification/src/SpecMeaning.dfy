/**
 * What a deploy spec means, read off its text, groups, aliases and joined hosts; and that its expansion
 * (`expand_firewall` in src/apply.rs) says exactly that, pair by pair of concrete host and peer.
 */
module SpecMeaning {
  import opened Wrappers
  import opened Tokens
  import opened Apply
  import opened ApplyLaws
  import opened LoadedSpec
  import Hostname

  /** A member of a group stands for `*`, for the hosts an alias has joined with, or for itself. */
  predicate MemberStands(ctx: Context, m: string, h: string) {
    if m == "*" then h == "*"
    else if m in ctx.aliases then ctx.aliases[m] in ctx.joined && h in ctx.joined[ctx.aliases[m]]
    else h == m
  }

  /** A name in the spec stands for `*`, the members of a group, the hosts of an alias, or itself, in that order. */
  predicate Stands(ctx: Context, name: string, h: string) {
    if name != "*" && name in ctx.groups then exists m :: m in ctx.groups[name] && MemberStands(ctx, m, h)
    else MemberStands(ctx, name, h)
  }

  lemma {:induction false} MembersStand(ctx: Context, ms: seq<string>, h: string)
    ensures h in MembersOf(ctx, ms) <==> exists m :: m in ms && MemberStands(ctx, m, h)
  {
    if ms != [] {
      MembersStand(ctx, ms[1..], h);
      assert forall m :: m in ms <==> m == ms[0] || m in ms[1..];
      if MemberStands(ctx, ms[0], h) { assert ms[0] in ms; }
    }
  }

  lemma ResolvesToWhatItStandsFor(ctx: Context, name: string, h: string)
    ensures h in ResolveName(ctx, name) <==> Stands(ctx, name, h)
  {
    if name != "*" && name in ctx.groups {
      var members := MembersOf(ctx, ctx.groups[name]);
      MembersStand(ctx, ctx.groups[name], h);
      OrderedAscends(members);
      assert h in Ordered(members) <==> h in Elements(Ordered(members));
      assert h in members <==> h in Elements(members);
    }
  }

  // ---- Targets ----

  /** Some subject is `*-` and terms. */
  predicate HasTargetExclusion(fw: Network) { exists k :: k in fw && "*-" <= k }

  /** A name the spec uses for hosts, as a subject or as a peer. */
  predicate Declares(fw: Network, name: string) {
    && name != "*" && !("*-" <= name)
    && (name in fw || exists k :: k in fw && (name in fw[k].allows || name in fw[k].denies || name in fw[k].ssh))
  }

  /** A host that is on the network, or that a declared name stands for. */
  ghost predicate IsTarget(fw: Network, ctx: Context, h: string) {
    h != "*" && (h in ctx.current || exists name :: Declares(fw, name) && Stands(ctx, name, h))
  }

  /** Some term of the selector stands for the host. */
  predicate NamedIn(ctx: Context, selector: string, h: string)
    requires "*-" <= selector
  {
    exists t :: t in Split(selector[2..]) && Stands(ctx, t, h)
  }

  /** The hosts an entry is for: every target its exclusion does not name, or what its name stands for. */
  ghost predicate IsFor(fw: Network, ctx: Context, k: string, h: string) {
    if "*-" <= k then "" !in Split(k[2..]) && IsTarget(fw, ctx, h) && !NamedIn(ctx, k, h) else Stands(ctx, k, h)
  }

  lemma DeclaredAreExpected(fw: Network, name: string)
    ensures name in ExpectedHosts(fw) <==> Declares(fw, name)
  {
    if Declares(fw, name) {
      assert IsConcrete(name);
      if name !in fw {
        var k :| k in fw && (name in fw[k].allows || name in fw[k].denies || name in fw[k].ssh);
        assert name in PeerKeys(fw[k]);
      }
    }
  }

  lemma TargetsAreThese(fw: Network, ctx: Context, h: string)
    requires HasTargetExclusion(fw)
    ensures h in Targets(fw, ctx) <==> IsTarget(fw, ctx, h)
  {
    if h in Targets(fw, ctx) && h !in ctx.current {
      var name :| name in ExpectedHosts(fw) && h in ResolveName(ctx, name);
      DeclaredAreExpected(fw, name);
      ResolvesToWhatItStandsFor(ctx, name, h);
    }
    if IsTarget(fw, ctx, h) && h !in ctx.current {
      var name :| Declares(fw, name) && Stands(ctx, name, h);
      DeclaredAreExpected(fw, name);
      ResolvesToWhatItStandsFor(ctx, name, h);
    }
  }

  lemma SubjectsAreThese(fw: Network, ctx: Context, k: string, h: string)
    requires k in fw
    ensures h in Subjects(ctx, Targets(fw, ctx), k) <==> IsFor(fw, ctx, k, h)
  {
    if "*-" <= k {
      TargetsAreThese(fw, ctx, h);
      forall t ensures h in ResolveName(ctx, t) <==> Stands(ctx, t, h) { ResolvesToWhatItStandsFor(ctx, t, h); }
    } else {
      ResolvesToWhatItStandsFor(ctx, k, h);
      assert h in Elements(ResolveName(ctx, k)) <==> h in ResolveName(ctx, k);
    }
  }

  // ---- Peers ----

  /** The peers a key is about: what its name stands for, and in `allows` the selector an exclusion expands to. */
  predicate IsAbout(ctx: Context, q: string, p: string) {
    if "*-" <= q then ExpandExclusion(ctx, q) == Ok(p) else Stands(ctx, q, p)
  }

  lemma AllowPeersAreThese(ctx: Context, q: string, p: string)
    ensures p in AllowPeers(ctx, q) <==> IsAbout(ctx, q, p)
  {
    if !("*-" <= q) {
      ResolvesToWhatItStandsFor(ctx, q, p);
      assert p in Elements(ResolveName(ctx, q)) <==> p in ResolveName(ctx, q);
    }
  }

  lemma OtherPeersAreThese(ctx: Context, q: string, p: string)
    ensures p in OtherPeers(ctx, q) <==> Stands(ctx, q, p)
  {
    ResolvesToWhatItStandsFor(ctx, q, p);
    assert p in Elements(ResolveName(ctx, q)) <==> p in ResolveName(ctx, q);
  }

  // ---- What the spec says ----

  /** Key `q` of entry `k`, among `keys`, is about `p` and the entry is for `s`. */
  ghost predicate AllowReaches(
      fw: Network, ctx: Context, keys: set<string>, s: string, p: string, k: string, q: string) {
    k in keys && k in fw && IsFor(fw, ctx, k, s) && q in fw[k].allows && IsAbout(ctx, q, p)
  }

  ghost predicate DenyReaches(
      fw: Network, ctx: Context, keys: set<string>, s: string, p: string, k: string, q: string) {
    k in keys && k in fw && IsFor(fw, ctx, k, s) && q in fw[k].denies && Stands(ctx, q, p)
  }

  ghost predicate SshReaches(
      fw: Network, ctx: Context, keys: set<string>, s: string, p: string, k: string, q: string) {
    k in keys && k in fw && IsFor(fw, ctx, k, s) && q in fw[k].ssh && Stands(ctx, q, p)
  }

  lemma HostsAreThese(fw: Network, ctx: Context, out: Network, s: string)
    requires ExpandsTo(fw, ctx, out)
    ensures s in out <==> || (exists k :: k in fw && IsFor(fw, ctx, k, s))
                          || (HasTargetExclusion(fw) && (s == "*" || IsTarget(fw, ctx, s)))
  {
    HostOf(fw, ctx, out, s);
    forall k | k in fw ensures s in Subjects(ctx, Targets(fw, ctx), k) <==> IsFor(fw, ctx, k, s) {
      SubjectsAreThese(fw, ctx, k, s);
    }
    if HasTargetExclusion(fw) { TargetsAreThese(fw, ctx, s); }
  }

  // ---- The expansion says the same ----

  /** Key `q` of entry `k` reaches subject `s` and peer `p`, as names are looked up. */
  predicate Reach<V>(t: Table<V>, subjects: Lookup, peers: Lookup, s: string, p: string, k: string, q: string) {
    k in t && s in subjects(k) && q in t[k] && p in peers(q)
  }

  lemma SpeaksIffReach<V>(t: Table<V>, subjects: Lookup, peers: Lookup, s: string, p: string)
    ensures Speaks(t, subjects, peers, s, p) <==> exists k, q :: Reach(t, subjects, peers, s, p, k, q)
  {
    if Speaks(t, subjects, peers, s, p) {
      var k :| k in t && s in subjects(k) && Mentions(t[k], peers, p);
      var q :| q in t[k] && p in peers(q);
      assert Reach(t, subjects, peers, s, p, k, q);
    }
    if k, q :| Reach(t, subjects, peers, s, p, k, q) { assert Mentions(t[k], peers, p); }
  }

  lemma SaidIffReach<V, A>(t: Table<V>, subjects: Lookup, peers: Lookup, atoms: V -> set<A>, s: string, p: string, a: A)
    ensures a in Said(t, subjects, peers, atoms, s, p)
            <==> exists k, q :: Reach(t, subjects, peers, s, p, k, q) && a in atoms(t[k][q])
  {
    if a in Said(t, subjects, peers, atoms, s, p) {
      var k :| k in t && s in subjects(k) && a in PeerAtoms(t[k], peers, atoms, p);
      var q :| q in t[k] && p in peers(q) && a in atoms(t[k][q]);
      assert Reach(t, subjects, peers, s, p, k, q);
    }
    if k, q :| Reach(t, subjects, peers, s, p, k, q) && a in atoms(t[k][q]) {
      assert a in PeerAtoms(t[k], peers, atoms, p);
    }
  }

  lemma AllowReachesIff(fw: Network, ctx: Context, s: string, p: string, k: string, q: string)
    ensures var n := NamesOf(fw, ctx);
            Reach(Allows(fw), n.subjects, n.allowed, s, p, k, q) <==> AllowReaches(fw, ctx, fw.Keys, s, p, k, q)
  {
    if k in fw { SubjectsAreThese(fw, ctx, k, s); }
    AllowPeersAreThese(ctx, q, p);
  }

  lemma DenyReachesIff(fw: Network, ctx: Context, s: string, p: string, k: string, q: string)
    ensures var n := NamesOf(fw, ctx);
            Reach(Denies(fw), n.subjects, n.others, s, p, k, q) <==> DenyReaches(fw, ctx, fw.Keys, s, p, k, q)
  {
    if k in fw { SubjectsAreThese(fw, ctx, k, s); }
    OtherPeersAreThese(ctx, q, p);
  }

  lemma SshReachesIff(fw: Network, ctx: Context, s: string, p: string, k: string, q: string)
    ensures var n := NamesOf(fw, ctx);
            Reach(Ssh(fw), n.subjects, n.others, s, p, k, q) <==> SshReaches(fw, ctx, fw.Keys, s, p, k, q)
  {
    if k in fw { SubjectsAreThese(fw, ctx, k, s); }
    OtherPeersAreThese(ctx, q, p);
  }

  /** A host allows a peer exactly the tokens that the spec's entries for the host say about the peer. */
  lemma AllowsMean(fw: Network, ctx: Context, out: Network, s: string, p: string, token: string)
    requires ExpandsTo(fw, ctx, out) && s in out
    ensures p in out[s].allows <==> exists k, q :: AllowReaches(fw, ctx, fw.Keys, s, p, k, q)
    ensures p in out[s].allows ==>
              (token in SpecTokens(out[s].allows[p])
               <==> exists k, q :: AllowReaches(fw, ctx, fw.Keys, s, p, k, q) && token in SpecTokens(fw[k].allows[q]))
  {
    var n := NamesOf(fw, ctx);
    HostOf(fw, ctx, out, s);
    assert CellExpanded(out[s].allows, Allows(fw), n.subjects, n.allowed, SpecTokens, Same, Canonical, s, p);
    SpeaksIffReach(Allows(fw), n.subjects, n.allowed, s, p);
    SaidIffReach(Allows(fw), n.subjects, n.allowed, SpecTokens, s, p, token);
    forall k, q ensures Reach(Allows(fw), n.subjects, n.allowed, s, p, k, q)
                        <==> AllowReaches(fw, ctx, fw.Keys, s, p, k, q) {
      AllowReachesIff(fw, ctx, s, p, k, q);
    }
  }

  lemma DeniesMean(fw: Network, ctx: Context, out: Network, s: string, p: string, token: string)
    requires ExpandsTo(fw, ctx, out) && s in out
    ensures p in out[s].denies <==> exists k, q :: DenyReaches(fw, ctx, fw.Keys, s, p, k, q)
    ensures p in out[s].denies ==>
              (token in SpecTokens(out[s].denies[p])
               <==> exists k, q :: DenyReaches(fw, ctx, fw.Keys, s, p, k, q) && token in SpecTokens(fw[k].denies[q]))
  {
    var n := NamesOf(fw, ctx);
    HostOf(fw, ctx, out, s);
    assert CellExpanded(out[s].denies, Denies(fw), n.subjects, n.others, SpecTokens, Same, Canonical, s, p);
    SpeaksIffReach(Denies(fw), n.subjects, n.others, s, p);
    SaidIffReach(Denies(fw), n.subjects, n.others, SpecTokens, s, p, token);
    forall k, q ensures Reach(Denies(fw), n.subjects, n.others, s, p, k, q)
                        <==> DenyReaches(fw, ctx, fw.Keys, s, p, k, q) {
      DenyReachesIff(fw, ctx, s, p, k, q);
    }
  }

  /** What is granted, from what the widest of some lists is. */
  lemma WidestDecides(users: seq<string>, all: set<Atom>, account: string)
    requires Grants(users) == Widest(all) && all != {}
    ensures "*" in users <==> Everyone in all
    ensures users == [] <==> Everyone !in all && Unprivileged in all
    ensures Everyone !in all && Unprivileged !in all ==> (account in users <==> Named(account) in all)
  {
    if "*" !in users { NamedOnly(users, account); }
    assert "*" in users <==> Everyone in Grants(users);
  }

  /** Some account list that reaches the pair lets everyone in, lets any unprivileged account in, or names this one. */
  ghost predicate GrantsAll(fw: Network, ctx: Context, s: string, p: string) {
    exists k, q :: SshReaches(fw, ctx, fw.Keys, s, p, k, q) && "*" in fw[k].ssh[q]
  }

  ghost predicate GrantsPlain(fw: Network, ctx: Context, s: string, p: string) {
    exists k, q :: SshReaches(fw, ctx, fw.Keys, s, p, k, q) && fw[k].ssh[q] == []
  }

  ghost predicate GrantsNamed(fw: Network, ctx: Context, s: string, p: string, account: string) {
    exists k, q :: SshReaches(fw, ctx, fw.Keys, s, p, k, q) && account in fw[k].ssh[q]
  }

  ghost function SshSaid(fw: Network, ctx: Context, s: string, p: string): set<Atom> {
    var n := NamesOf(fw, ctx);
    Said(Ssh(fw), n.subjects, n.others, Grants, s, p)
  }

  lemma AtomSaid(fw: Network, ctx: Context, s: string, p: string, a: Atom)
    ensures a in SshSaid(fw, ctx, s, p)
            <==> exists k, q :: SshReaches(fw, ctx, fw.Keys, s, p, k, q) && a in Grants(fw[k].ssh[q])
  {
    var n := NamesOf(fw, ctx);
    SaidIffReach(Ssh(fw), n.subjects, n.others, Grants, s, p, a);
    forall k, q ensures Reach(Ssh(fw), n.subjects, n.others, s, p, k, q)
                        <==> SshReaches(fw, ctx, fw.Keys, s, p, k, q) {
      SshReachesIff(fw, ctx, s, p, k, q);
    }
  }

  lemma EveryoneSaid(fw: Network, ctx: Context, s: string, p: string)
    ensures Everyone in SshSaid(fw, ctx, s, p) <==> GrantsAll(fw, ctx, s, p)
  {
    AtomSaid(fw, ctx, s, p, Everyone);
    assert forall l: seq<string> {:trigger Grants(l)} :: Everyone in Grants(l) <==> "*" in l;
  }

  lemma UnprivilegedSaid(fw: Network, ctx: Context, s: string, p: string)
    ensures Unprivileged in SshSaid(fw, ctx, s, p) <==> GrantsPlain(fw, ctx, s, p)
  {
    AtomSaid(fw, ctx, s, p, Unprivileged);
    assert forall l: seq<string> {:trigger Grants(l)} :: Unprivileged in Grants(l) <==> l == [];
  }

  lemma NamedSaid(fw: Network, ctx: Context, s: string, p: string, account: string)
    ensures Named(account) in SshSaid(fw, ctx, s, p) ==> GrantsNamed(fw, ctx, s, p, account)
    ensures GrantsNamed(fw, ctx, s, p, account) ==>
              Named(account) in SshSaid(fw, ctx, s, p) || GrantsAll(fw, ctx, s, p)
  {
    AtomSaid(fw, ctx, s, p, Named(account));
    if GrantsNamed(fw, ctx, s, p, account) {
      var k, q :| SshReaches(fw, ctx, fw.Keys, s, p, k, q) && account in fw[k].ssh[q];
      assert "*" in fw[k].ssh[q] || Named(account) in Grants(fw[k].ssh[q]);
    }
  }

  /**
   * Who may log in. An unprivileged account exactly if some list for the pair lets it in. A privileged one exactly if
   * some list lets everyone in, or some list names it and no list is the empty, any-unprivileged-account one.
   */
  lemma SshMeans(fw: Network, ctx: Context, out: Network, s: string, p: string, account: string)
    requires ExpandsTo(fw, ctx, out) && s in out
    ensures p in out[s].ssh <==> exists k, q :: SshReaches(fw, ctx, fw.Keys, s, p, k, q)
    ensures p in out[s].ssh ==>
              && (Permits(out[s].ssh[p], account, false) <==>
                  GrantsAll(fw, ctx, s, p) || GrantsPlain(fw, ctx, s, p) || GrantsNamed(fw, ctx, s, p, account))
              && (Permits(out[s].ssh[p], account, true) <==>
                  GrantsAll(fw, ctx, s, p) || (GrantsNamed(fw, ctx, s, p, account) && !GrantsPlain(fw, ctx, s, p)))
  {
    var n := NamesOf(fw, ctx);
    HostOf(fw, ctx, out, s);
    assert CellExpanded(out[s].ssh, Ssh(fw), n.subjects, n.others, Grants, Widest, AnyList, s, p);
    SpeaksIffReach(Ssh(fw), n.subjects, n.others, s, p);
    forall k, q ensures Reach(Ssh(fw), n.subjects, n.others, s, p, k, q)
                        <==> SshReaches(fw, ctx, fw.Keys, s, p, k, q) {
      SshReachesIff(fw, ctx, s, p, k, q);
    }
    if p in out[s].ssh {
      SomethingSaid(fw, ctx, s, p);
      EveryoneSaid(fw, ctx, s, p);
      UnprivilegedSaid(fw, ctx, s, p);
      NamedSaid(fw, ctx, s, p, account);
      WidestDecides(out[s].ssh[p], SshSaid(fw, ctx, s, p), account);
      WidestDecides(out[s].ssh[p], SshSaid(fw, ctx, s, p), "*");
    }
  }

  lemma SomethingSaid(fw: Network, ctx: Context, s: string, p: string)
    requires exists k, q :: SshReaches(fw, ctx, fw.Keys, s, p, k, q)
    ensures SshSaid(fw, ctx, s, p) != {}
  {
    var k, q :| SshReaches(fw, ctx, fw.Keys, s, p, k, q);
    var users := fw[k].ssh[q];
    var a := if "*" in users then Everyone else if users == [] then Unprivileged else Named(users[0]);
    assert a in Grants(users);
    AtomSaid(fw, ctx, s, p, a);
  }

  // ---- Target exclusions ----

  /** A host that a target exclusion names gets nothing from that entry: its row is what the other entries say. */
  lemma ExcludedGetsNothing(fw: Network, ctx: Context, out: Network, k: string, s: string, p: string, token: string)
    requires ExpandsTo(fw, ctx, out) && k in fw && "*-" <= k && NamedIn(ctx, k, s) && s in out
    ensures p in out[s].allows <==> exists j, q :: AllowReaches(fw, ctx, fw.Keys - {k}, s, p, j, q)
    ensures p in out[s].denies <==> exists j, q :: DenyReaches(fw, ctx, fw.Keys - {k}, s, p, j, q)
    ensures p in out[s].ssh <==> exists j, q :: SshReaches(fw, ctx, fw.Keys - {k}, s, p, j, q)
    ensures p in out[s].allows ==>
              (token in SpecTokens(out[s].allows[p]) <==>
               exists j, q :: AllowReaches(fw, ctx, fw.Keys - {k}, s, p, j, q) && token in SpecTokens(fw[j].allows[q]))
    ensures p in out[s].denies ==>
              (token in SpecTokens(out[s].denies[p]) <==>
               exists j, q :: DenyReaches(fw, ctx, fw.Keys - {k}, s, p, j, q) && token in SpecTokens(fw[j].denies[q]))
  {
    AllowsMean(fw, ctx, out, s, p, token);
    DeniesMean(fw, ctx, out, s, p, token);
    SshMeans(fw, ctx, out, s, p, token);
    var rest := fw.Keys - {k};
    forall j, q
      ensures AllowReaches(fw, ctx, fw.Keys, s, p, j, q) <==> AllowReaches(fw, ctx, rest, s, p, j, q)
      ensures DenyReaches(fw, ctx, fw.Keys, s, p, j, q) <==> DenyReaches(fw, ctx, rest, s, p, j, q)
      ensures SshReaches(fw, ctx, fw.Keys, s, p, j, q) <==> SshReaches(fw, ctx, rest, s, p, j, q)
    {
    }
  }

  /** Every other target gets all of it. */
  lemma OthersGetAll(fw: Network, ctx: Context, out: Network, k: string, s: string, q: string, p: string)
    requires ExpandsTo(fw, ctx, out) && k in fw && "*-" <= k && "" !in Split(k[2..])
    requires IsTarget(fw, ctx, s) && !NamedIn(ctx, k, s)
    ensures s in out
    ensures q in fw[k].allows && IsAbout(ctx, q, p) ==>
              p in out[s].allows && SpecTokens(fw[k].allows[q]) <= SpecTokens(out[s].allows[p])
    ensures q in fw[k].denies && Stands(ctx, q, p) ==>
              p in out[s].denies && SpecTokens(fw[k].denies[q]) <= SpecTokens(out[s].denies[p])
    ensures q in fw[k].ssh && Stands(ctx, q, p) ==> p in out[s].ssh
  {
    HostsAreThese(fw, ctx, out, s);
    assert IsFor(fw, ctx, k, s);
    if q in fw[k].allows && IsAbout(ctx, q, p) {
      assert AllowReaches(fw, ctx, fw.Keys, s, p, k, q);
      forall token | token in SpecTokens(fw[k].allows[q])
        ensures p in out[s].allows && token in SpecTokens(out[s].allows[p])
      {
        AllowsMean(fw, ctx, out, s, p, token);
      }
      AllowsMean(fw, ctx, out, s, p, "");
    }
    if q in fw[k].denies && Stands(ctx, q, p) {
      assert DenyReaches(fw, ctx, fw.Keys, s, p, k, q);
      forall token | token in SpecTokens(fw[k].denies[q])
        ensures p in out[s].denies && token in SpecTokens(out[s].denies[p])
      {
        DeniesMean(fw, ctx, out, s, p, token);
      }
      DeniesMean(fw, ctx, out, s, p, "");
    }
    if q in fw[k].ssh && Stands(ctx, q, p) {
      assert SshReaches(fw, ctx, fw.Keys, s, p, k, q);
      SshMeans(fw, ctx, out, s, p, "");
    }
  }

  // ---- Peer exclusions ----

  predicate OneExcludes(ctx: Context, m: string, h: string) {
    if m in ctx.aliases then ctx.aliases[m] in ctx.joined && h in ctx.joined[ctx.aliases[m]] else h == m
  }

  /** A term excludes the members of a group, the hosts of an alias, or itself. */
  predicate Excludes(ctx: Context, t: string, h: string) {
    if t in ctx.groups then exists m :: m in ctx.groups[t] && OneExcludes(ctx, m, h) else OneExcludes(ctx, t, h)
  }

  lemma {:induction false} AllExclude(ctx: Context, names: seq<string>, h: string)
    requires ExcludedAll(ctx, names).Ok?
    ensures h in ExcludedAll(ctx, names).value <==> exists m :: m in names && OneExcludes(ctx, m, h)
  {
    if names != [] {
      AllExclude(ctx, names[1..], h);
      assert forall m :: m in names <==> m == names[0] || m in names[1..];
      if OneExcludes(ctx, names[0], h) { assert names[0] in names; }
    }
  }

  lemma {:induction false} TermsExclude(ctx: Context, terms: seq<string>, h: string)
    requires ExcludedTerms(ctx, terms).Ok?
    ensures h in ExcludedTerms(ctx, terms).value <==> exists t :: t in terms && Excludes(ctx, t, h)
  {
    if terms != [] {
      TermsExclude(ctx, terms[1..], h);
      if terms[0] in ctx.groups { AllExclude(ctx, ctx.groups[terms[0]], h); }
      assert forall t :: t in terms <==> t == terms[0] || t in terms[1..];
      if Excludes(ctx, terms[0], h) { assert terms[0] in terms; }
    }
  }

  /** The selector a loaded exclusion expands to names exactly the hosts its terms exclude. */
  lemma SelectorMeans(ctx: Context, aliases: set<string>, p: string, h: string)
    requires Live(ctx) && aliases <= ctx.aliases.Keys && IsExclusion(p) && SelectorLoads(ctx.groups, aliases, p)
    requires ExpandExclusion(ctx, p).Ok?
    ensures var e := ExpandExclusion(ctx, p).value;
            && IsExclusion(e)
            && (h in Split(e[2..]) <==> exists t :: t in Split(p[2..]) && Excludes(ctx, t, h))
  {
    var terms := Split(p[2..]);
    forall t | t in terms ensures TermCanExclude(ctx, t) { assert TermLoads(ctx.groups, aliases, t); }
    AllTerms(ctx, terms);
    var hosts := ExcludedTerms(ctx, terms).value;
    forall x | x in hosts ensures ',' !in x { ValidName(x); }
    WrittenIsSettled(hosts);
    OrderedAscends(hosts);
    assert ("*-" + Join(Ordered(hosts)))[2..] == Join(Ordered(hosts));
    assert h in Ordered(hosts) <==> h in Elements(Ordered(hosts));
    assert h in hosts <==> h in Elements(hosts);
    TermsExclude(ctx, terms, h);
  }
}
