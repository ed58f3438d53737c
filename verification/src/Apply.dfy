/**
 * Expansion of a deploy spec (`expand_firewall` in src/apply.rs): groups, aliases, wildcards and exclusions
 * become rules between concrete hosts. Maps are visited in whatever order; the result does not depend on it.
 */
module Apply {
  import opened Wrappers
  import opened Tokens
  import Hostname

  /** Rules for one target host, by peer. */
  datatype Host = Host(allows: map<string, string>, denies: map<string, string>, ssh: map<string, seq<string>>)

  type Network = map<string, Host>

  const EMPTY_HOST: Host := Host(map[], map[], map[])

  /** What names stand for: aliases name identities, `joined` gives an identity's hostnames on this network. */
  datatype Context = Context(
    aliases: map<string, string>, groups: map<string, seq<string>>,
    joined: map<string, seq<string>>, current: set<Hostname.Label>)

  // ---- Names ----

  function Joined(ctx: Context, identity: string): seq<string> {
    if identity in ctx.joined then ctx.joined[identity] else []
  }

  /** A group member: `*`, an alias, or a hostname. */
  function Member(ctx: Context, m: string): seq<string> {
    if m == "*" then ["*"]
    else if m in ctx.aliases then Joined(ctx, ctx.aliases[m])
    else [m]
  }

  function MembersOf(ctx: Context, ms: seq<string>): seq<string> {
    if ms == [] then [] else Member(ctx, ms[0]) + MembersOf(ctx, ms[1..])
  }

  /** `resolve_name`: a group, then an alias, then a hostname; `*` stays. */
  function ResolveName(ctx: Context, name: string): seq<string> {
    if name == "*" then [name]
    else if name in ctx.groups then Ordered(MembersOf(ctx, ctx.groups[name]))
    else if name in ctx.aliases then Joined(ctx, ctx.aliases[name])
    else [name]
  }

  predicate IsExclusion(name: string) { "*-" <= name }

  /** The terms after `*-`; an empty one is an error. */
  function ExclusionTerms(name: string): Result<seq<string>>
    requires IsExclusion(name)
  {
    var terms := Split(name[2..]);
    if "" in terms then Err else Ok(terms)
  }

  /** Hosts an excluded name stands for; an alias must have joined. */
  function ExcludedOne(ctx: Context, name: string): Result<seq<string>> {
    if name in ctx.aliases then
      var hosts := Joined(ctx, ctx.aliases[name]);
      if hosts == [] then Err else Ok(hosts)
    else Ok([name])
  }

  function ExcludedAll(ctx: Context, names: seq<string>): Result<seq<string>> {
    if names == [] then Ok([]) else
    match (ExcludedOne(ctx, names[0]), ExcludedAll(ctx, names[1..]))
    case (Ok(a), Ok(b)) => Ok(a + b)
    case _ => Err
  }

  function ExcludedTerms(ctx: Context, terms: seq<string>): Result<seq<string>> {
    if terms == [] then Ok([]) else
    var first := if terms[0] in ctx.groups then ExcludedAll(ctx, ctx.groups[terms[0]]) else ExcludedOne(ctx, terms[0]);
    match (first, ExcludedTerms(ctx, terms[1..]))
    case (Ok(a), Ok(b)) => Ok(a + b)
    case _ => Err
  }

  /** `expand_exclusion`: the same selector over hostnames, sorted, each a valid label. */
  function ExpandExclusion(ctx: Context, selector: string): Result<string>
    requires IsExclusion(selector)
  {
    match ExclusionTerms(selector)
    case Err => Err
    case Ok(terms) =>
      match ExcludedTerms(ctx, terms)
      case Err => Err
      case Ok(hosts) =>
        var joined := Join(Ordered(hosts));
        if hosts == [] || exists h :: h in Split(joined) && !Hostname.IsValid(h) then Err else Ok("*-" + joined)
  }

  /** Peers are looked up through a function of the name; one that cannot be expanded has none. */
  type Lookup = string -> set<string>

  /** Whether an `allows` key can be expanded. */
  predicate PeerFails(ctx: Context, peer: string) { IsExclusion(peer) && ExpandExclusion(ctx, peer).Err? }

  /** Concrete peers of an `allows` key: an exclusion stays one selector. */
  function AllowPeers(ctx: Context, peer: string): set<string> {
    if IsExclusion(peer) then
      match ExpandExclusion(ctx, peer)
      case Err => {}
      case Ok(expanded) => {expanded}
    else Elements(ResolveName(ctx, peer))
  }

  /** Concrete peers of a `denies` or `ssh` key. */
  function OtherPeers(ctx: Context, peer: string): set<string> { Elements(ResolveName(ctx, peer)) }

  predicate IsConcrete(name: string) { name != "*" && !IsExclusion(name) }

  function PeerKeys(h: Host): set<string> { h.allows.Keys + h.denies.Keys + h.ssh.Keys }

  /** `expected_hosts_for_network`. */
  function ExpectedHosts(fw: Network): set<string> {
    (set s | s in fw && IsConcrete(s)) + (set s, p | s in fw && p in PeerKeys(fw[s]) && IsConcrete(p) :: p)
  }

  /** The hosts a target exclusion selects from: current and declared ones. */
  function Targets(fw: Network, ctx: Context): set<string> {
    if exists s :: s in fw && IsExclusion(s)
    then ctx.current + (set n, h | n in ExpectedHosts(fw) && h in ResolveName(ctx, n) :: h) - {"*"}
    else {}
  }

  predicate SubjectFails(subject: string) { IsExclusion(subject) && ExclusionTerms(subject).Err? }

  /** Concrete subjects of a spec subject: an exclusion is the targets it does not name. */
  function Subjects(ctx: Context, targets: set<string>, subject: string): set<string> {
    if IsExclusion(subject) then
      match ExclusionTerms(subject)
      case Err => {}
      case Ok(terms) => targets - (set t, h | t in terms && h in ResolveName(ctx, t) :: h)
    else Elements(ResolveName(ctx, subject))
  }

  // ---- Merging one kind of rule ----

  /**
   * How values merge, and what they mean: a merged value means `norm` of everything merged into it, and is spelled
   * in its canonical form.
   */
  ghost predicate Lawful<V(!new), A(!new)>(merge: (Option<V>, V) -> V, atoms: V -> set<A>, norm: set<A> -> set<A>,
                                           canon: V -> bool) {
    && (forall v: V :: atoms(merge(None, v)) == norm(atoms(v)))
    && (forall o: V, v: V :: atoms(merge(Some(o), v)) == norm(atoms(o) + atoms(v)))
    && (forall x: set<A>, y: set<A> :: norm(norm(x) + y) == norm(x + y))
    && (forall o: Option<V>, v: V :: canon(merge(o, v)))
  }

  lemma NormBoth<V(!new), A(!new)>(
      merge: (Option<V>, V) -> V, atoms: V -> set<A>, norm: set<A> -> set<A>, canon: V -> bool, x: set<A>, y: set<A>)
    requires Lawful(merge, atoms, norm, canon)
    ensures norm(norm(x) + norm(y)) == norm(x + y)
    ensures norm(norm(y)) == norm(y)
  {
    assert norm(x) + norm(y) == norm(y) + norm(x);
    assert y + norm(x) == norm(x) + y;
    assert norm(y) + {} == norm(y) && y + {} == y;
  }

  function Get<V>(m: map<string, V>, k: string): Option<V> { if k in m then Some(m[k]) else None }

  /** `v` merged into the entry of each of `hosts`. */
  function MergeAt<V>(m: map<string, V>, hosts: set<string>, v: V, merge: (Option<V>, V) -> V): map<string, V> {
    map h | h in m.Keys + hosts :: if h in hosts then merge(Get(m, h), v) else m[h]
  }

  /** Every entry of `from` merged into `into`. */
  function MergeMap<V>(into: map<string, V>, from: map<string, V>, merge: (Option<V>, V) -> V): map<string, V> {
    map p | p in into.Keys + from.Keys :: if p in from then merge(Get(into, p), from[p]) else into[p]
  }

  /** Everything the rules say about peer `p`. */
  ghost function PeerAtoms<V, A>(rules: map<string, V>, peers: Lookup, atoms: V -> set<A>, p: string): set<A> {
    set k, a | k in rules && p in peers(k) && a in atoms(rules[k]) :: a
  }

  predicate Mentions<V>(rules: map<string, V>, peers: Lookup, p: string) {
    exists k :: k in rules && p in peers(k)
  }

  ghost predicate PeersExpanded<V(!new), A(!new)>(out: map<string, V>, rules: map<string, V>, peers: Lookup,
                                                  atoms: V -> set<A>, norm: set<A> -> set<A>, canon: V -> bool) {
    && (forall p :: p in out <==> Mentions(rules, peers, p))
    && (forall p :: p in out ==> atoms(out[p]) == norm(PeerAtoms(rules, peers, atoms, p)) && canon(out[p]))
  }

  lemma PeerAtomsAdd<V, A>(rules: map<string, V>, peers: Lookup, atoms: V -> set<A>, k: string, v: V, p: string)
    requires k !in rules
    ensures PeerAtoms(rules[k := v], peers, atoms, p)
            == if p in peers(k) then PeerAtoms(rules, peers, atoms, p) + atoms(v) else PeerAtoms(rules, peers, atoms, p)
    ensures Mentions(rules[k := v], peers, p) <==> Mentions(rules, peers, p) || p in peers(k)
    ensures !Mentions(rules, peers, p) ==> PeerAtoms(rules, peers, atoms, p) == {}
  {
    var more := rules[k := v];
    var before, after := PeerAtoms(rules, peers, atoms, p), PeerAtoms(more, peers, atoms, p);
    forall a | a in before ensures a in after {
      var j :| j in rules && p in peers(j) && a in atoms(rules[j]);
      assert j in more && more[j] == rules[j];
    }
    if p in peers(k) {
      forall a | a in atoms(v) ensures a in after { assert k in more && more[k] == v; }
      assert after == before + atoms(v);
      assert k in more;
    } else {
      assert after == before;
    }
    if Mentions(rules, peers, p) {
      var j :| j in rules && p in peers(j);
      assert j in more;
    }
  }

  lemma MergeAtExpands<V(!new), A(!new)>(
      out: map<string, V>, rules: map<string, V>, peers: Lookup, k: string, v: V,
      merge: (Option<V>, V) -> V, atoms: V -> set<A>, norm: set<A> -> set<A>, canon: V -> bool)
    requires Lawful(merge, atoms, norm, canon) && k !in rules
    requires PeersExpanded(out, rules, peers, atoms, norm, canon)
    ensures PeersExpanded(MergeAt(out, peers(k), v, merge), rules[k := v], peers, atoms, norm, canon)
  {
    var next, more := MergeAt(out, peers(k), v, merge), rules[k := v];
    forall p
      ensures p in next <==> Mentions(more, peers, p)
      ensures p in next ==> atoms(next[p]) == norm(PeerAtoms(more, peers, atoms, p)) && canon(next[p])
    {
      PeerAtomsAdd(rules, peers, atoms, k, v, p);
      assert {} + atoms(v) == atoms(v);
    }
  }

  /** One subject's peer side, expanded once; the first peer that cannot be expanded ends it. */
  method ExpandPeers<V(!new), A(!new)>(
      rules: map<string, V>, peers: Lookup, fails: string -> bool, merge: (Option<V>, V) -> V,
      ghost atoms: V -> set<A>, ghost norm: set<A> -> set<A>, ghost canon: V -> bool)
      returns (r: Result<map<string, V>>)
    requires Lawful(merge, atoms, norm, canon)
    ensures r.Err? <==> exists k :: k in rules && fails(k)
    ensures r.Ok? ==> PeersExpanded(r.value, rules, peers, atoms, norm, canon)
  {
    var out: map<string, V> := map[];
    var left := rules.Keys;
    ghost var done: map<string, V> := map[];
    while left != {}
      invariant left <= rules.Keys && done == (map k | k in rules && k !in left :: rules[k])
      invariant forall k :: k in rules && k !in left ==> !fails(k)
      invariant PeersExpanded(out, done, peers, atoms, norm, canon)
    {
      var k :| k in left;
      if fails(k) { return Err; }
      MergeAtExpands(out, done, peers, k, rules[k], merge, atoms, norm, canon);
      out := MergeAt(out, peers(k), rules[k], merge);
      left := left - {k};
      done := done[k := rules[k]];
    }
    assert done == rules;
    r := Ok(out);
  }

  // ---- All subjects ----

  type Table<V> = map<string, map<string, V>>

  /** Everything the entries say to subject `s` about peer `p`. */
  ghost function Said<V, A>(
      t: Table<V>, subjects: Lookup, peers: Lookup, atoms: V -> set<A>, s: string, p: string): set<A> {
    set k, a | k in t && s in subjects(k) && a in PeerAtoms(t[k], peers, atoms, p) :: a
  }

  predicate Speaks<V>(t: Table<V>, subjects: Lookup, peers: Lookup, s: string, p: string) {
    exists k :: k in t && s in subjects(k) && Mentions(t[k], peers, p)
  }

  /** What `out` holds for one subject and peer is what the entries say. */
  ghost predicate CellExpanded<V(!new), A(!new)>(
      out: map<string, V>, t: Table<V>, subjects: Lookup, peers: Lookup,
      atoms: V -> set<A>, norm: set<A> -> set<A>, canon: V -> bool, s: string, p: string) {
    && (p in out <==> Speaks(t, subjects, peers, s, p))
    && (p in out ==> atoms(out[p]) == norm(Said(t, subjects, peers, atoms, s, p)) && canon(out[p]))
  }

  lemma SaidAdd<V, A>(
      t: Table<V>, subjects: Lookup, peers: Lookup, atoms: V -> set<A>, k: string, rules: map<string, V>,
      s: string, p: string)
    requires k !in t
    ensures Said(t[k := rules], subjects, peers, atoms, s, p)
            == if s in subjects(k) then Said(t, subjects, peers, atoms, s, p) + PeerAtoms(rules, peers, atoms, p)
               else Said(t, subjects, peers, atoms, s, p)
    ensures Speaks(t[k := rules], subjects, peers, s, p)
            <==> Speaks(t, subjects, peers, s, p) || (s in subjects(k) && Mentions(rules, peers, p))
    ensures !Speaks(t, subjects, peers, s, p) ==> Said(t, subjects, peers, atoms, s, p) == {}
    ensures !Mentions(rules, peers, p) ==> PeerAtoms(rules, peers, atoms, p) == {}
  {
    var more := t[k := rules];
    var before, after := Said(t, subjects, peers, atoms, s, p), Said(more, subjects, peers, atoms, s, p);
    var here := PeerAtoms(rules, peers, atoms, p);
    forall a | a in before ensures a in after && Speaks(t, subjects, peers, s, p) {
      var j :| j in t && s in subjects(j) && a in PeerAtoms(t[j], peers, atoms, p);
      assert j in more && more[j] == t[j];
      assert Mentions(t[j], peers, p);
    }
    if s in subjects(k) {
      forall a | a in here ensures a in after { assert k in more && more[k] == rules; }
      assert after == before + here;
      assert k in more && more[k] == rules;
    } else {
      assert after == before;
    }
    if Speaks(t, subjects, peers, s, p) {
      var j :| j in t && s in subjects(j) && Mentions(t[j], peers, p);
      assert j in more && more[j] == t[j];
    }
  }

  /** Merging the peer side of entry `k` into one of its subjects. */
  lemma MergeMapExpands<V(!new), A(!new)>(
      out: map<string, V>, t: Table<V>, subjects: Lookup, peers: Lookup,
      k: string, rules: map<string, V>, side: map<string, V>,
      merge: (Option<V>, V) -> V, atoms: V -> set<A>, norm: set<A> -> set<A>, canon: V -> bool, s: string, p: string)
    requires Lawful(merge, atoms, norm, canon) && k !in t
    requires PeersExpanded(side, rules, peers, atoms, norm, canon)
    requires CellExpanded(out, t, subjects, peers, atoms, norm, canon, s, p)
    ensures CellExpanded(if s in subjects(k) then MergeMap(out, side, merge) else out, t[k := rules],
                         subjects, peers, atoms, norm, canon, s, p)
  {
    SaidAdd(t, subjects, peers, atoms, k, rules, s, p);
    var x, y := Said(t, subjects, peers, atoms, s, p), PeerAtoms(rules, peers, atoms, p);
    NormBoth(merge, atoms, norm, canon, x, y);
    assert x == {} ==> x + y == y;
    assert y == {} ==> x + y == x;
  }

  /** What `out` holds for subject `s` is what the entries say to it. */
  ghost predicate RowExpanded<V(!new), A(!new)>(
      out: map<string, V>, t: Table<V>, subjects: Lookup, peers: Lookup,
      atoms: V -> set<A>, norm: set<A> -> set<A>, canon: V -> bool, s: string) {
    forall p :: CellExpanded(out, t, subjects, peers, atoms, norm, canon, s, p)
  }

  lemma MergeRowExpands<V(!new), A(!new)>(
      out: map<string, V>, t: Table<V>, subjects: Lookup, peers: Lookup,
      k: string, rules: map<string, V>, side: map<string, V>,
      merge: (Option<V>, V) -> V, atoms: V -> set<A>, norm: set<A> -> set<A>, canon: V -> bool, s: string)
    requires Lawful(merge, atoms, norm, canon) && k !in t
    requires PeersExpanded(side, rules, peers, atoms, norm, canon)
    requires RowExpanded(out, t, subjects, peers, atoms, norm, canon, s)
    ensures RowExpanded(if s in subjects(k) then MergeMap(out, side, merge) else out, t[k := rules],
                        subjects, peers, atoms, norm, canon, s)
  {
    var next, more := if s in subjects(k) then MergeMap(out, side, merge) else out, t[k := rules];
    forall p ensures CellExpanded(next, more, subjects, peers, atoms, norm, canon, s, p) {
      MergeMapExpands(out, t, subjects, peers, k, rules, side, merge, atoms, norm, canon, s, p);
    }
  }

  // ---- The two kinds of value ----

  function Same<A>(x: set<A>): set<A> { x }

  /** A spec in its one canonical spelling: ascending tokens joined by commas. */
  predicate Canonical(spec: string) { Ascending(Pieces(spec)) && spec == Join(Pieces(spec)) }

  predicate AnyList(users: seq<string>) { true }

  lemma SpecsAreLawful()
    ensures Lawful(MergeSpec, SpecTokens, Same, Canonical)
  {
    forall o: Option<string>, v: string
      ensures SpecTokens(MergeSpec(o, v)) == (if o.Some? then SpecTokens(o.value) else {}) + SpecTokens(v)
      ensures Canonical(MergeSpec(o, v))
    {
      MergeSpecIsUnion(o, v);
    }
    forall v: string ensures {} + SpecTokens(v) == SpecTokens(v) {}
  }

  lemma UsersAreLawful()
    ensures Lawful(MergeUsers, Grants, Widest, AnyList)
  {
    forall o: Option<seq<string>>, v: seq<string>
      ensures Grants(MergeUsers(o, v)) == Widest((if o.Some? then Grants(o.value) else {}) + Grants(v))
    {
      MergeUsersIsWidest(o, v);
    }
    forall v: seq<string> ensures {} + Grants(v) == Grants(v) {}
  }

  // ---- The whole firewall ----

  function Allows(fw: Network): Table<string> { map s | s in fw :: fw[s].allows }
  function Denies(fw: Network): Table<string> { map s | s in fw :: fw[s].denies }
  function Ssh(fw: Network): Table<seq<string>> { map s | s in fw :: fw[s].ssh }

  /** How names are looked up during one expansion, and which `allows` peers cannot be expanded. */
  datatype Names = Names(subjects: Lookup, allowed: Lookup, others: Lookup, fails: string -> bool)

  function NamesOf(fw: Network, ctx: Context): Names {
    var targets := Targets(fw, ctx);
    Names(s => Subjects(ctx, targets, s), p => AllowPeers(ctx, p), p => OtherPeers(ctx, p), p => PeerFails(ctx, p))
  }

  /** The rules of concrete host `s` are what the entries `fw` say to it. */
  ghost predicate HostExpanded(h: Host, fw: Network, n: Names, s: string) {
    && RowExpanded(h.allows, Allows(fw), n.subjects, n.allowed, SpecTokens, Same, Canonical, s)
    && RowExpanded(h.denies, Denies(fw), n.subjects, n.others, SpecTokens, Same, Canonical, s)
    && RowExpanded(h.ssh, Ssh(fw), n.subjects, n.others, Grants, Widest, AnyList, s)
  }

  /** Hosts entered before any rule: with a target exclusion, `*` and every target. */
  function Seeds(fw: Network, ctx: Context): set<string> {
    if exists s :: s in fw && IsExclusion(s) then {"*"} + Targets(fw, ctx) else {}
  }

  predicate Covered(fw: Network, n: Names, s: string) { exists k :: k in fw && s in n.subjects(k) }

  ghost predicate ExpandedSoFar(out: Network, seeds: set<string>, fw: Network, n: Names) {
    && (forall s :: s in out <==> s in seeds || Covered(fw, n, s))
    && (forall s :: s in out ==> HostExpanded(out[s], fw, n, s))
  }

  /** `out` is what the whole firewall expands to. */
  ghost predicate ExpandsTo(fw: Network, ctx: Context, out: Network) {
    ExpandedSoFar(out, Seeds(fw, ctx), fw, NamesOf(fw, ctx))
  }

  /** The selector of the subject, or of an `allows` peer, is malformed or cannot be expanded. */
  predicate EntryFails(n: Names, subject: string, h: Host) {
    SubjectFails(subject) || exists p :: p in h.allows && n.fails(p)
  }

  predicate AnyFails(fw: Network, n: Names) { exists s :: s in fw && EntryFails(n, s, fw[s]) }

  predicate Fails(fw: Network, ctx: Context) {
    exists s :: s in fw && (SubjectFails(s) || exists p :: p in fw[s].allows && PeerFails(ctx, p))
  }

  function MergeHost(into: Host, from: Host): Host {
    Host(MergeMap(into.allows, from.allows, MergeSpec), MergeMap(into.denies, from.denies, MergeSpec),
         MergeMap(into.ssh, from.ssh, MergeUsers))
  }

  function HostAt(out: Network, s: string): Host { if s in out then out[s] else EMPTY_HOST }

  /** The peer side of one entry merged into each of its subjects. */
  function MergeEntry(out: Network, hosts: set<string>, side: Host): Network {
    map s | s in out.Keys + hosts :: if s in hosts then MergeHost(HostAt(out, s), side) else out[s]
  }

  /** A host no entry has reached yet has no rules. */
  lemma NothingSaidYet(out: Network, seeds: set<string>, fw: Network, n: Names, s: string)
    requires ExpandedSoFar(out, seeds, fw, n)
    ensures HostExpanded(HostAt(out, s), fw, n, s)
  {
  }

  ghost predicate SideExpanded(side: Host, h: Host, n: Names) {
    && PeersExpanded(side.allows, h.allows, n.allowed, SpecTokens, Same, Canonical)
    && PeersExpanded(side.denies, h.denies, n.others, SpecTokens, Same, Canonical)
    && PeersExpanded(side.ssh, h.ssh, n.others, Grants, Widest, AnyList)
  }

  /** For a spec section (`allows`, `denies`): the merged row says what the longer table says. */
  lemma SpecRowExpands(into: map<string, string>, t: Table<string>, subjects: Lookup, peers: Lookup, k: string,
                       rules: map<string, string>, side: map<string, string>, s: string)
    requires k !in t && RowExpanded(into, t, subjects, peers, SpecTokens, Same, Canonical, s)
    requires PeersExpanded(side, rules, peers, SpecTokens, Same, Canonical)
    ensures RowExpanded(if s in subjects(k) then MergeMap(into, side, MergeSpec) else into, t[k := rules],
                        subjects, peers, SpecTokens, Same, Canonical, s)
  {
    SpecsAreLawful();
    MergeRowExpands(into, t, subjects, peers, k, rules, side, MergeSpec, SpecTokens, Same, Canonical, s);
  }

  lemma SshRowExpands(into: map<string, seq<string>>, t: Table<seq<string>>, subjects: Lookup, peers: Lookup, k: string,
                      rules: map<string, seq<string>>, side: map<string, seq<string>>, s: string)
    requires k !in t && RowExpanded(into, t, subjects, peers, Grants, Widest, AnyList, s)
    requires PeersExpanded(side, rules, peers, Grants, Widest, AnyList)
    ensures RowExpanded(if s in subjects(k) then MergeMap(into, side, MergeUsers) else into, t[k := rules],
                        subjects, peers, Grants, Widest, AnyList, s)
  {
    UsersAreLawful();
    MergeRowExpands(into, t, subjects, peers, k, rules, side, MergeUsers, Grants, Widest, AnyList, s);
  }

  lemma TablesAdd(fw: Network, k: string, h: Host)
    ensures Allows(fw[k := h]) == Allows(fw)[k := h.allows]
    ensures Denies(fw[k := h]) == Denies(fw)[k := h.denies]
    ensures Ssh(fw[k := h]) == Ssh(fw)[k := h.ssh]
  {
  }

  lemma MergeHostExpands(into: Host, fw: Network, n: Names, k: string, h: Host, side: Host, s: string)
    requires k !in fw && HostExpanded(into, fw, n, s) && SideExpanded(side, h, n)
    ensures HostExpanded(if s in n.subjects(k) then MergeHost(into, side) else into, fw[k := h], n, s)
  {
    TablesAdd(fw, k, h);
    SpecRowExpands(into.allows, Allows(fw), n.subjects, n.allowed, k, h.allows, side.allows, s);
    SpecRowExpands(into.denies, Denies(fw), n.subjects, n.others, k, h.denies, side.denies, s);
    SshRowExpands(into.ssh, Ssh(fw), n.subjects, n.others, k, h.ssh, side.ssh, s);
  }

  lemma MergeEntryExpands(out: Network, seeds: set<string>, fw: Network, n: Names, k: string, h: Host, side: Host)
    requires k !in fw && ExpandedSoFar(out, seeds, fw, n) && SideExpanded(side, h, n)
    ensures ExpandedSoFar(MergeEntry(out, n.subjects(k), side), seeds, fw[k := h], n)
  {
    var next, more := MergeEntry(out, n.subjects(k), side), fw[k := h];
    forall s
      ensures s in next <==> s in seeds || Covered(more, n, s)
      ensures s in next ==> HostExpanded(next[s], more, n, s)
    {
      if Covered(fw, n, s) {
        var j :| j in fw && s in n.subjects(j);
        assert j in more;
      }
      if s in n.subjects(k) { assert k in more; }
      NothingSaidYet(out, seeds, fw, n, s);
      MergeHostExpands(HostAt(out, s), fw, n, k, h, side, s);
    }
  }

  /** One entry: its peer side, then its subjects. */
  method ExpandEntry(out: Network, k: string, h: Host, n: Names, ghost seeds: set<string>, ghost done: Network)
      returns (next: Result<Network>)
    requires k !in done && ExpandedSoFar(out, seeds, done, n)
    ensures next.Err? <==> EntryFails(n, k, h)
    ensures next.Ok? ==> ExpandedSoFar(next.value, seeds, done[k := h], n)
  {
    SpecsAreLawful();
    UsersAreLawful();
    var allows := ExpandPeers(h.allows, n.allowed, n.fails, MergeSpec, SpecTokens, Same, Canonical);
    if allows.Err? { return Err; }
    var denies := ExpandPeers(h.denies, n.others, _ => false, MergeSpec, SpecTokens, Same, Canonical);
    var ssh := ExpandPeers(h.ssh, n.others, _ => false, MergeUsers, Grants, Widest, AnyList);
    if SubjectFails(k) { return Err; }
    var side := Host(allows.value, denies.value, ssh.value);
    MergeEntryExpands(out, seeds, done, n, k, h, side);
    next := Ok(MergeEntry(out, n.subjects(k), side));
  }

  lemma SeedsExpand(seeds: set<string>, n: Names)
    ensures ExpandedSoFar(map s | s in seeds :: EMPTY_HOST, seeds, map[], n)
  {
  }

  /** Every entry of the firewall in turn, in any order, until one fails. */
  method ExpandEntries(fw: Network, n: Names, seeds: set<string>) returns (r: Result<Network>)
    ensures r.Err? <==> AnyFails(fw, n)
    ensures r.Ok? ==> ExpandedSoFar(r.value, seeds, fw, n)
  {
    var out: Network := map s | s in seeds :: EMPTY_HOST;
    SeedsExpand(seeds, n);
    var left := fw.Keys;
    ghost var done: Network := map[];
    while left != {}
      invariant left <= fw.Keys && done == (map k | k in fw && k !in left :: fw[k])
      invariant forall k :: k in fw && k !in left ==> !EntryFails(n, k, fw[k])
      invariant ExpandedSoFar(out, seeds, done, n)
    {
      var k :| k in left;
      var next := ExpandEntry(out, k, fw[k], n, seeds, done);
      if next.Err? { return Err; }
      out := next.value;
      left := left - {k};
      done := done[k := fw[k]];
    }
    assert done == fw;
    r := Ok(out);
  }

  lemma FailuresAreThese(fw: Network, ctx: Context)
    ensures AnyFails(fw, NamesOf(fw, ctx)) <==> Fails(fw, ctx)
  {
    var n := NamesOf(fw, ctx);
    forall s | s in fw
      ensures EntryFails(n, s, fw[s]) <==> SubjectFails(s) || exists p :: p in fw[s].allows && PeerFails(ctx, p)
    {
      assert forall p :: n.fails(p) == PeerFails(ctx, p);
    }
  }

  /** `expand_firewall`. */
  method ExpandFirewall(fw: Network, ctx: Context) returns (r: Result<Network>)
    ensures r.Err? <==> Fails(fw, ctx)
    ensures r.Ok? ==> ExpandsTo(fw, ctx, r.value)
  {
    FailuresAreThese(fw, ctx);
    r := ExpandEntries(fw, NamesOf(fw, ctx), Seeds(fw, ctx));
  }
}
