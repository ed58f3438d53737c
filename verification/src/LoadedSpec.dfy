/**
 * What loading a deploy spec checks (`validate_names` in src/apply.rs), and what its expansion then promises: exactly
 * when it fails, and when it is a fixed point.
 */
module LoadedSpec {
  import opened Wrappers
  import opened Tokens
  import opened Apply
  import opened ApplyLaws
  import Hostname

  type Groups = map<string, seq<string>>

  /** A term an exclusion may have: a group of aliases and hostnames, an alias, or a hostname. */
  predicate TermLoads(groups: Groups, aliases: set<string>, t: string) {
    if t in groups then
      && groups[t] != []
      && forall m :: m in groups[t] ==> m != "*" && m !in groups && (m in aliases || Hostname.IsValid(m))
    else t in aliases || Hostname.IsValid(t)
  }

  predicate SelectorLoads(groups: Groups, aliases: set<string>, p: string) {
    IsExclusion(p) ==> ExclusionTerms(p).Ok? && forall t :: t in Split(p[2..]) ==> TermLoads(groups, aliases, t)
  }

  predicate EntryLoads(groups: Groups, aliases: set<string>, subject: string, h: Host) {
    && SelectorLoads(groups, aliases, subject)
    && (forall p :: p in h.allows ==> SelectorLoads(groups, aliases, p))
    && (forall p :: p in h.denies ==> !IsExclusion(p))
    && (forall p :: p in h.ssh ==> !IsExclusion(p) && "" !in h.ssh[p])
  }

  /** `validate_names`, on one network and the spec's own groups and alias names. */
  predicate Loads(fw: Network, groups: Groups, aliases: set<string>) {
    && (forall g :: g in groups ==> g !in aliases && forall m :: m in groups[g] ==> m !in groups)
    && (forall s :: s in fw ==> EntryLoads(groups, aliases, s, fw[s]))
  }

  /** Every host an identity has joined with is one of the current hosts, as both are read from the same status. */
  predicate Live(ctx: Context) { forall i :: i in ctx.joined ==> forall h :: h in ctx.joined[i] ==> h in ctx.current }

  /** What the expansion is given: a loaded spec, its aliases among those of the network, and the live status. */
  predicate Loaded(fw: Network, ctx: Context, aliases: set<string>) {
    Loads(fw, ctx.groups, aliases) && aliases <= ctx.aliases.Keys && Live(ctx)
  }

  // ---- When it fails ----

  predicate Unjoined(ctx: Context, name: string) {
    name in ctx.aliases && Joined(ctx, ctx.aliases[name]) == []
  }

  /** An alias with no joined device, named directly or through a group. */
  predicate TermUnjoined(ctx: Context, t: string) {
    if t in ctx.groups then exists m :: m in ctx.groups[t] && Unjoined(ctx, m) else Unjoined(ctx, t)
  }

  predicate ExcludesUnjoined(ctx: Context, p: string) {
    IsExclusion(p) && exists t :: t in Split(p[2..]) && TermUnjoined(ctx, t)
  }

  /** A name that can be excluded: an alias of the network, or a valid hostname. */
  predicate CanExclude(ctx: Context, name: string) { name in ctx.aliases || Hostname.IsValid(name) }

  predicate AllValid(hosts: seq<string>) { forall h :: h in hosts ==> Hostname.IsValid(h) }

  lemma JoinedAreValid(ctx: Context, identity: string)
    requires Live(ctx)
    ensures AllValid(Joined(ctx, identity))
  {
    forall h | h in Joined(ctx, identity) ensures Hostname.IsValid(h) {
      var host: Hostname.Label := h;
    }
  }

  lemma OneName(ctx: Context, name: string)
    requires Live(ctx) && CanExclude(ctx, name)
    ensures ExcludedOne(ctx, name).Err? <==> Unjoined(ctx, name)
    ensures ExcludedOne(ctx, name).Ok? ==> ExcludedOne(ctx, name).value != [] && AllValid(ExcludedOne(ctx, name).value)
  {
    if name in ctx.aliases { JoinedAreValid(ctx, ctx.aliases[name]); }
  }

  lemma {:induction false} AllNames(ctx: Context, names: seq<string>)
    requires Live(ctx) && forall m :: m in names ==> CanExclude(ctx, m)
    ensures ExcludedAll(ctx, names).Err? <==> exists m :: m in names && Unjoined(ctx, m)
    ensures ExcludedAll(ctx, names).Ok? ==>
              (names != [] ==> ExcludedAll(ctx, names).value != []) && AllValid(ExcludedAll(ctx, names).value)
  {
    if names != [] {
      OneName(ctx, names[0]);
      AllNames(ctx, names[1..]);
      assert forall m :: m in names <==> m == names[0] || m in names[1..];
    }
  }

  /** A term of a loaded selector resolves to valid hosts unless it names an alias nobody has joined with. */
  predicate TermCanExclude(ctx: Context, t: string) {
    if t in ctx.groups then ctx.groups[t] != [] && forall m :: m in ctx.groups[t] ==> CanExclude(ctx, m)
    else CanExclude(ctx, t)
  }

  lemma {:induction false} AllTerms(ctx: Context, terms: seq<string>)
    requires Live(ctx) && forall t :: t in terms ==> TermCanExclude(ctx, t)
    ensures ExcludedTerms(ctx, terms).Err? <==> exists t :: t in terms && TermUnjoined(ctx, t)
    ensures ExcludedTerms(ctx, terms).Ok? ==>
              (terms != [] ==> ExcludedTerms(ctx, terms).value != []) && AllValid(ExcludedTerms(ctx, terms).value)
  {
    if terms != [] {
      assert TermCanExclude(ctx, terms[0]);
      if terms[0] in ctx.groups { AllNames(ctx, ctx.groups[terms[0]]); } else { OneName(ctx, terms[0]); }
      AllTerms(ctx, terms[1..]);
      assert forall t :: t in terms <==> t == terms[0] || t in terms[1..];
      if TermUnjoined(ctx, terms[0]) { assert terms[0] in terms; }
    }
  }

  /** A loaded selector expands, to a settled one, unless it excludes an alias with no joined device. */
  lemma LoadedSelector(ctx: Context, aliases: set<string>, p: string)
    requires Live(ctx) && aliases <= ctx.aliases.Keys && IsExclusion(p) && SelectorLoads(ctx.groups, aliases, p)
    ensures PeerFails(ctx, p) <==> ExcludesUnjoined(ctx, p)
    ensures !PeerFails(ctx, p) ==> IsSettled(ExpandExclusion(ctx, p).value)
  {
    var terms := Split(p[2..]);
    forall t | t in terms ensures TermCanExclude(ctx, t) { assert TermLoads(ctx.groups, aliases, t); }
    AllTerms(ctx, terms);
    if !ExcludesUnjoined(ctx, p) {
      var hosts := ExcludedTerms(ctx, terms).value;
      forall h | h in hosts ensures ',' !in h { ValidName(h); }
      WrittenIsSettled(hosts);
      OrderedAscends(hosts);
      forall h | h in Ordered(hosts) ensures Hostname.IsValid(h) { assert h in Elements(hosts); }
    }
  }

  /** A loaded spec fails to expand exactly when some allow excludes an alias with no joined device. */
  lemma LoadedFailsIff(fw: Network, ctx: Context, aliases: set<string>)
    requires Loaded(fw, ctx, aliases)
    ensures Fails(fw, ctx) <==> exists s, p :: s in fw && p in fw[s].allows && ExcludesUnjoined(ctx, p)
  {
    forall s | s in fw
      ensures !SubjectFails(s) && forall p :: p in fw[s].allows ==> (PeerFails(ctx, p) <==> ExcludesUnjoined(ctx, p))
    {
      assert EntryLoads(ctx.groups, aliases, s, fw[s]);
      forall p | p in fw[s].allows ensures PeerFails(ctx, p) <==> ExcludesUnjoined(ctx, p) {
        if IsExclusion(p) { LoadedSelector(ctx, aliases, p); }
      }
    }
  }

  // ---- When it is a fixed point ----

  /** The names the firewall uses, as subjects or peers. */
  function Used(fw: Network): set<string> { fw.Keys + set s, p | s in fw && p in PeerKeys(fw[s]) :: p }

  /** Members that are aliases, or do not look like exclusions. */
  predicate PlainMembers(ctx: Context, ms: seq<string>) { forall m :: m in ms ==> m in ctx.aliases || !IsExclusion(m) }

  predicate PlainGroups(ctx: Context, used: set<string>) {
    forall g :: g in used && g in ctx.groups ==> PlainMembers(ctx, ctx.groups[g])
  }

  predicate NoExclusions(names: seq<string>) { forall h :: h in names ==> !IsExclusion(h) }

  lemma JoinedArePlain(ctx: Context, identity: string)
    requires Live(ctx)
    ensures NoExclusions(Joined(ctx, identity))
  {
    JoinedAreValid(ctx, identity);
    forall h | h in Joined(ctx, identity) ensures !IsExclusion(h) { ValidName(h); }
  }

  lemma {:induction false} MembersArePlain(ctx: Context, ms: seq<string>)
    requires Live(ctx) && PlainMembers(ctx, ms)
    ensures NoExclusions(MembersOf(ctx, ms))
  {
    if ms != [] {
      if ms[0] in ctx.aliases { JoinedArePlain(ctx, ctx.aliases[ms[0]]); }
      MembersArePlain(ctx, ms[1..]);
    }
  }

  /** A name that is not an exclusion never stands for one. */
  lemma ResolvedIsPlain(ctx: Context, name: string)
    requires Live(ctx) && (name in ctx.groups ==> PlainMembers(ctx, ctx.groups[name])) && !IsExclusion(name)
    ensures NoExclusions(ResolveName(ctx, name))
  {
    if name in ctx.groups {
      var members := MembersOf(ctx, ctx.groups[name]);
      MembersArePlain(ctx, ctx.groups[name]);
      OrderedAscends(members);
      forall h | h in Ordered(members) ensures !IsExclusion(h) { assert h in Elements(members); }
    } else if name in ctx.aliases {
      JoinedArePlain(ctx, ctx.aliases[name]);
    }
  }

  lemma TargetIsPlain(fw: Network, ctx: Context, s: string)
    requires Live(ctx) && PlainGroups(ctx, Used(fw)) && s in Targets(fw, ctx)
    ensures !IsExclusion(s)
  {
    if s in ctx.current {
      var host: Hostname.Label := s;
      ValidName(host);
    } else {
      var name :| name in ExpectedHosts(fw) && s in ResolveName(ctx, name);
      ResolvedIsPlain(ctx, name);
    }
  }

  lemma LoadedEntry(ctx: Context, aliases: set<string>, targets: set<string>, k: string, h: Host)
    requires Live(ctx) && PlainGroups(ctx, {k} + h.allows.Keys) && aliases <= ctx.aliases.Keys
    requires EntryLoads(ctx.groups, aliases, k, h)
    requires forall s :: s in targets ==> !IsExclusion(s)
    ensures StableEntry(ctx, Subjects(ctx, targets, k), h.allows.Keys)
  {
    if !IsExclusion(k) { ResolvedIsPlain(ctx, k); }
    forall q, p | q in h.allows && p in AllowPeers(ctx, q) ensures IsSettled(p) {
      assert SelectorLoads(ctx.groups, aliases, q);
      if IsExclusion(q) { LoadedSelector(ctx, aliases, q); } else { ResolvedIsPlain(ctx, q); }
    }
  }

  /** A loaded spec is stable if, in the groups it uses, only aliases look like exclusions. */
  lemma LoadedIsStable(fw: Network, ctx: Context, aliases: set<string>)
    requires Loaded(fw, ctx, aliases) && PlainGroups(ctx, Used(fw))
    ensures Stable(fw, ctx)
  {
    var targets := Targets(fw, ctx);
    forall s | s in targets ensures !IsExclusion(s) { TargetIsPlain(fw, ctx, s); }
    forall k | k in fw ensures StableEntry(ctx, Subjects(ctx, targets, k), fw[k].allows.Keys) {
      forall p | p in fw[k].allows ensures p in Used(fw) { assert p in PeerKeys(fw[k]); }
      LoadedEntry(ctx, aliases, targets, k, fw[k]);
    }
  }

  // A group whose member looks like an exclusion: loading accepts it as a hostname.

  const STAR_GROUP := Context(map[], map["g" := ["*-x"]], map[], {})
  const RULES_IT := map["g" := Host(map["a" := "tcp"], map[], map[])]

  lemma StarMemberLoads()
    ensures Loaded(RULES_IT, STAR_GROUP, {}) && !Fails(RULES_IT, STAR_GROUP)
  {
    assert !IsExclusion("g") && !IsExclusion("a");
    assert EntryLoads(STAR_GROUP.groups, {}, "g", RULES_IT["g"]);
    LoadedFailsIff(RULES_IT, STAR_GROUP, {});
  }

  lemma StarMemberIsUnstable()
    ensures !Stable(RULES_IT, STAR_GROUP)
  {
    var member := ["*-x"];
    assert member[1..] == [] && MembersOf(STAR_GROUP, member) == member + [] == member;
    assert Ordered([]) == [] && Ordered(member) == Insert("*-x", []) == member;
    assert STAR_GROUP.groups["g"] == member && ResolveName(STAR_GROUP, "g") == member;
    assert "*-x" in Elements(member) && IsExclusion("*-x");
    var targets := Targets(RULES_IT, STAR_GROUP);
    assert "*-x" in Subjects(STAR_GROUP, targets, "g");
    assert !StableEntry(STAR_GROUP, Subjects(STAR_GROUP, targets, "g"), RULES_IT["g"].allows.Keys);
  }

  /** The exception happens to a spec that loads: it expands, and expanding it again gives something else. */
  lemma StarMemberMoves(fw: Network, ctx: Context, out: Network, again: Context)
    requires fw == RULES_IT && ctx == STAR_GROUP && Bare(again)
    ensures Loaded(fw, ctx, {}) && !Fails(fw, ctx) && (ExpandsTo(fw, ctx, out) ==> !ExpandsTo(out, again, out))
  {
    StarMemberLoads();
    StarMemberIsUnstable();
    if ExpandsTo(fw, ctx, out) { ExpandsAgainIff(fw, ctx, out, again); }
  }
}
