/** What the expansion of a deploy spec (src/apply.rs) guarantees: one result for every order, and a fixed point. */
module ApplyLaws {
  import opened Wrappers
  import opened Tokens
  import opened Apply
  import Hostname

  // ---- One result ----

  /** Two canonical specs with the same tokens are the same text. */
  lemma CanonicalIsUnique(a: string, b: string)
    requires Canonical(a) && Canonical(b) && SpecTokens(a) == SpecTokens(b)
    ensures a == b
  {
    AscendingIsUnique(Pieces(a), Pieces(b));
  }

  lemma SpecRowIsDetermined(
      a: map<string, string>, b: map<string, string>, t: Table<string>, subjects: Lookup, peers: Lookup, s: string)
    requires RowExpanded(a, t, subjects, peers, SpecTokens, Same, Canonical, s)
    requires RowExpanded(b, t, subjects, peers, SpecTokens, Same, Canonical, s)
    ensures a == b
  {
    forall p ensures p in a <==> p in b
             ensures p in a && p in b ==> a[p] == b[p]
    {
      assert CellExpanded(a, t, subjects, peers, SpecTokens, Same, Canonical, s, p);
      assert CellExpanded(b, t, subjects, peers, SpecTokens, Same, Canonical, s, p);
      if p in a { CanonicalIsUnique(a[p], b[p]); }
    }
  }

  /** The two lists let in the same logins. */
  ghost predicate SameLogins(a: seq<string>, b: seq<string>) {
    forall account, privileged :: Permits(a, account, privileged) == Permits(b, account, privileged)
  }

  lemma SshRowIsDetermined(
      a: map<string, seq<string>>, b: map<string, seq<string>>, t: Table<seq<string>>,
      subjects: Lookup, peers: Lookup, s: string)
    requires RowExpanded(a, t, subjects, peers, Grants, Widest, AnyList, s)
    requires RowExpanded(b, t, subjects, peers, Grants, Widest, AnyList, s)
    ensures a.Keys == b.Keys && forall p :: p in a ==> SameLogins(a[p], b[p])
  {
    forall p ensures p in a <==> p in b
             ensures p in a && p in b ==> SameLogins(a[p], b[p])
    {
      assert CellExpanded(a, t, subjects, peers, Grants, Widest, AnyList, s, p);
      assert CellExpanded(b, t, subjects, peers, Grants, Widest, AnyList, s, p);
      if p in a {
        forall account, privileged
          ensures Permits(a[p], account, privileged) == Permits(b[p], account, privileged)
        {
          GrantsDecide(a[p], b[p], account, privileged);
        }
      }
    }
  }

  /**
   * The order entries, peers and hosts are visited in does not show: any two expansions have the same hosts, the same
   * text in every allow and deny, and the same logins in every ssh grant.
   */
  lemma ExpansionIsDetermined(fw: Network, ctx: Context, a: Network, b: Network)
    requires ExpandsTo(fw, ctx, a) && ExpandsTo(fw, ctx, b)
    ensures a.Keys == b.Keys
    ensures forall s :: s in a ==> a[s].allows == b[s].allows && a[s].denies == b[s].denies
    ensures forall s :: s in a ==>
              && a[s].ssh.Keys == b[s].ssh.Keys
              && forall p :: p in a[s].ssh ==> SameLogins(a[s].ssh[p], b[s].ssh[p])
  {
    var n := NamesOf(fw, ctx);
    forall s ensures s in a <==> s in b {}
    forall s | s in a
      ensures a[s].allows == b[s].allows && a[s].denies == b[s].denies
      ensures a[s].ssh.Keys == b[s].ssh.Keys && forall p :: p in a[s].ssh ==> SameLogins(a[s].ssh[p], b[s].ssh[p])
    {
      assert HostExpanded(a[s], fw, n, s) && HostExpanded(b[s], fw, n, s);
      SpecRowIsDetermined(a[s].allows, b[s].allows, Allows(fw), n.subjects, n.allowed, s);
      SpecRowIsDetermined(a[s].denies, b[s].denies, Denies(fw), n.subjects, n.others, s);
      SshRowIsDetermined(a[s].ssh, b[s].ssh, Ssh(fw), n.subjects, n.others, s);
    }
  }

  /** Every name in the firewall stands for itself alone, as names do once expanded. */
  ghost predicate SelfNamed(fw: Network, n: Names) {
    && (forall s :: s in fw ==> !IsExclusion(s) && n.subjects(s) == {s})
    && (forall s, p :: s in fw && p in fw[s].allows ==> n.allowed(p) == {p})
    && (forall s, p :: s in fw && (p in fw[s].denies || p in fw[s].ssh) ==> n.others(p) == {p})
  }

  lemma OwnRow<V(!new), A(!new)>(t: Table<V>, subjects: Lookup, peers: Lookup,
                                 atoms: V -> set<A>, norm: set<A> -> set<A>, canon: V -> bool, s: string)
    requires s in t && (forall k :: k in t ==> subjects(k) == {k}) && (forall p :: p in t[s] ==> peers(p) == {p})
    requires forall p :: p in t[s] ==> norm(atoms(t[s][p])) == atoms(t[s][p]) && canon(t[s][p])
    ensures RowExpanded(t[s], t, subjects, peers, atoms, norm, canon, s)
  {
    forall p ensures CellExpanded(t[s], t, subjects, peers, atoms, norm, canon, s, p) {
      if p in t[s] {
        assert p in peers(p);
        assert Mentions(t[s], peers, p);
        var own := atoms(t[s][p]);
        forall a ensures a in PeerAtoms(t[s], peers, atoms, p) <==> a in own {}
        assert PeerAtoms(t[s], peers, atoms, p) == own;
        forall a ensures a in Said(t, subjects, peers, atoms, s, p) <==> a in own {
          if a in own { assert s in subjects(s); }
        }
        assert Said(t, subjects, peers, atoms, s, p) == own;
      }
    }
  }

  lemma RowIsCanonical(row: map<string, string>, t: Table<string>, subjects: Lookup, peers: Lookup, s: string)
    requires RowExpanded(row, t, subjects, peers, SpecTokens, Same, Canonical, s)
    ensures forall p :: p in row ==> Canonical(row[p])
  {
    forall p | p in row ensures Canonical(row[p]) {
      assert CellExpanded(row, t, subjects, peers, SpecTokens, Same, Canonical, s, p);
    }
  }

  lemma SettledHost(fw: Network, n: Names, out: Network, m: Names, s: string)
    requires s in out && HostExpanded(out[s], fw, n, s) && SelfNamed(out, m)
    ensures HostExpanded(out[s], out, m, s)
  {
    RowIsCanonical(out[s].allows, Allows(fw), n.subjects, n.allowed, s);
    RowIsCanonical(out[s].denies, Denies(fw), n.subjects, n.others, s);
    OwnRow(Allows(out), m.subjects, m.allowed, SpecTokens, Same, Canonical, s);
    OwnRow(Denies(out), m.subjects, m.others, SpecTokens, Same, Canonical, s);
    OwnRow(Ssh(out), m.subjects, m.others, Grants, Widest, AnyList, s);
  }

  lemma SettledHosts(seeds: set<string>, fw: Network, n: Names, out: Network, m: Names)
    requires ExpandedSoFar(out, seeds, fw, n) && SelfNamed(out, m)
    ensures ExpandedSoFar(out, {}, out, m)
  {
    forall s ensures s in out <==> Covered(out, m, s) {
      if s in out { assert s in m.subjects(s); }
    }
    forall s | s in out ensures HostExpanded(out[s], out, m, s) { SettledHost(fw, n, out, m, s); }
  }

  lemma NoSeeds(fw: Network, ctx: Context)
    requires forall s :: s in fw ==> !IsExclusion(s)
    ensures Seeds(fw, ctx) == {}
  {
  }

  // ---- Names that stand for themselves ----

  predicate Bare(ctx: Context) { ctx.groups == map[] && ctx.aliases == map[] }

  lemma {:induction false} SplitOfJoin(l: seq<string>)
    requires l != [] && forall t :: t in l ==> ',' !in t
    ensures Split(Join(l)) == l
  {
    var t := l[0];
    if |l| == 1 {
      CommaAfter(t, "", 0);
      assert t + "" == t;
    } else {
      var rest := "," + Join(l[1..]);
      var s := t + rest;
      assert Join(l) == s;
      CommaAfter(t, rest, 0);
      assert s[..|t|] == t && s[|t| + 1..] == Join(l[1..]);
      SplitOfJoin(l[1..]);
    }
  }

  lemma {:induction false} BareTerms(ctx: Context, terms: seq<string>)
    requires Bare(ctx)
    ensures ExcludedTerms(ctx, terms) == Ok(terms)
  {
    if terms != [] {
      BareTerms(ctx, terms[1..]);
      assert [terms[0]] + terms[1..] == terms;
    }
  }

  /** An expanded exclusion, read back, excludes exactly the hosts it was made from, and expands to itself. */
  lemma SelectorRoundTrip(hosts: seq<string>, again: Context)
    requires hosts != [] && (forall h :: h in hosts ==> Hostname.IsValid(h)) && Bare(again)
    ensures var selector := "*-" + Join(Ordered(hosts));
            && ExclusionTerms(selector).Ok?
            && Elements(ExclusionTerms(selector).value) == Elements(hosts)
            && ExpandExclusion(again, selector) == Ok(selector)
  {
    var l := Ordered(hosts);
    var selector := "*-" + Join(l);
    OrderedAscends(hosts);
    forall h | h in l ensures Hostname.IsValid(h) && ',' !in h && h != "" {
      assert h in Elements(l);
    }
    assert hosts[0] in Elements(l);
    SplitOfJoin(l);
    assert selector[2..] == Join(l);
    BareTerms(again, l);
    OrderedAscends(l);
    AscendingIsUnique(Ordered(l), l);
  }

  /** With no groups and no aliases, a name stands for itself. */
  lemma BareName(ctx: Context, name: string)
    requires Bare(ctx)
    ensures Elements(ResolveName(ctx, name)) == {name}
    ensures !IsExclusion(name) ==> AllowPeers(ctx, name) == {name}
  {
  }

  lemma {:induction false} JoinOfSplit(s: string)
    ensures Join(Split(s)) == s
    decreases |s|
  {
    var k := Comma(s, 0);
    if k < |s| {
      var rest := Split(s[k + 1..]);
      JoinOfSplit(s[k + 1..]);
      assert ([s[..k]] + rest)[1..] == rest;
      assert s == s[..k] + "," + s[k + 1..];
    }
  }

  lemma {:induction false} SplitHasNoCommas(s: string)
    ensures forall t :: t in Split(s) ==> ',' !in t
    decreases |s|
  {
    var k := Comma(s, 0);
    if k < |s| { SplitHasNoCommas(s[k + 1..]); }
  }

  // ---- Expanding again ----

  /** Not an exclusion, or one over valid hostnames in ascending order. */
  predicate IsSettled(p: string) {
    IsExclusion(p) ==> Ascending(Split(p[2..])) && forall t :: t in Split(p[2..]) ==> Hostname.IsValid(t)
  }

  /** An `allows` peer that expands, to itself alone. */
  predicate IsFixed(ctx: Context, p: string) { !PeerFails(ctx, p) && AllowPeers(ctx, p) == {p} }

  /** Whatever terms without commas it is made from, a selector the expansion writes is settled. */
  lemma WrittenIsSettled(hosts: seq<string>)
    requires hosts != [] && forall h :: h in hosts ==> ',' !in h
    ensures Split(Join(Ordered(hosts))) == Ordered(hosts)
    ensures (forall h :: h in Ordered(hosts) ==> Hostname.IsValid(h)) ==> IsSettled("*-" + Join(Ordered(hosts)))
  {
    var l := Ordered(hosts);
    OrderedAscends(hosts);
    assert hosts[0] in Elements(l);
    forall h | h in l ensures ',' !in h { assert h in Elements(l); }
    SplitOfJoin(l);
    assert ("*-" + Join(l))[2..] == Join(l);
  }

  lemma ValidName(name: string)
    requires Hostname.IsValid(name)
    ensures !IsExclusion(name) && ',' !in name && name != ""
  {
    assert name[0] in name;
  }

  /** A list of terms is written back as it was read exactly when it is ascending. */
  lemma RewrittenIffAscending(s: string)
    ensures Join(Ordered(Split(s))) == s <==> Ascending(Split(s))
  {
    var terms := Split(s);
    SplitHasNoCommas(s);
    WrittenIsSettled(terms);
    JoinOfSplit(s);
    OrderedAscends(terms);
    if Ascending(terms) { AscendingIsUnique(Ordered(terms), terms); }
  }

  /** With nothing left to resolve, a selector over valid hostnames is sorted, and any other is refused. */
  lemma BareExclusion(again: Context, p: string)
    requires Bare(again) && IsExclusion(p)
    ensures var terms := Split(p[2..]);
            ExpandExclusion(again, p) ==
              if forall t :: t in terms ==> Hostname.IsValid(t) then Ok("*-" + Join(Ordered(terms))) else Err
  {
    var terms := Split(p[2..]);
    SplitHasNoCommas(p[2..]);
    BareTerms(again, terms);
    WrittenIsSettled(terms);
    OrderedAscends(terms);
    forall t ensures t in Ordered(terms) <==> t in terms {
      assert t in Ordered(terms) <==> t in Elements(Ordered(terms));
      assert t in terms <==> t in Elements(terms);
    }
  }

  /** With nothing left to resolve, the peers that expand to themselves are the settled ones. */
  lemma FixedIffSettled(again: Context, p: string)
    requires Bare(again)
    ensures IsFixed(again, p) <==> IsSettled(p)
  {
    if IsExclusion(p) {
      var joined := Join(Ordered(Split(p[2..])));
      BareExclusion(again, p);
      RewrittenIffAscending(p[2..]);
      assert p == "*-" + p[2..] && ("*-" + joined)[2..] == joined;
    } else {
      BareName(again, p);
    }
  }

  /**
   * The condition on the spec and its names: no host seeded or resolved to is an exclusion, and every exclusion that
   * an allow of an entry with any subject resolves to is over valid hostnames in ascending order.
   */
  predicate Stable(fw: Network, ctx: Context) {
    var targets := Targets(fw, ctx);
    && (forall s :: s in Seeds(fw, ctx) ==> !IsExclusion(s))
    && (forall k :: k in fw ==> StableEntry(ctx, Subjects(ctx, targets, k), fw[k].allows.Keys))
  }

  predicate StableEntry(ctx: Context, subjects: set<string>, peers: set<string>) {
    && (forall s :: s in subjects ==> !IsExclusion(s))
    && (subjects != {} ==> forall q :: q in peers ==> forall p :: p in AllowPeers(ctx, q) ==> IsSettled(p))
  }

  /** Hosts that are not exclusions, with settled peers. */
  predicate Expanded(out: Network) { forall s :: s in out ==> ExpandedHost(s, out[s].allows.Keys) }

  predicate ExpandedHost(s: string, peers: set<string>) {
    !IsExclusion(s) && forall p :: p in peers ==> IsSettled(p)
  }

  /** A peer of a host comes from an allow of an entry that reaches the host. */
  lemma PeerHasEntry(fw: Network, ctx: Context, h: Host, s: string, p: string) returns (k: string, q: string)
    requires HostExpanded(h, fw, NamesOf(fw, ctx), s) && p in h.allows
    ensures k in fw && s in Subjects(ctx, Targets(fw, ctx), k) && q in fw[k].allows && p in AllowPeers(ctx, q)
  {
    var n := NamesOf(fw, ctx);
    assert CellExpanded(h.allows, Allows(fw), n.subjects, n.allowed, SpecTokens, Same, Canonical, s, p);
    k :| k in Allows(fw) && s in n.subjects(k) && Mentions(Allows(fw)[k], n.allowed, p);
    q :| q in fw[k].allows && p in n.allowed(q);
  }

  lemma EntryHasPeer(fw: Network, ctx: Context, h: Host, s: string, k: string, q: string, p: string)
    requires HostExpanded(h, fw, NamesOf(fw, ctx), s)
    requires k in fw && s in Subjects(ctx, Targets(fw, ctx), k) && q in fw[k].allows && p in AllowPeers(ctx, q)
    ensures p in h.allows
  {
    var n := NamesOf(fw, ctx);
    assert p in n.allowed(q) && Mentions(Allows(fw)[k], n.allowed, p);
    assert s in n.subjects(k) && Speaks(Allows(fw), n.subjects, n.allowed, s, p);
    assert CellExpanded(h.allows, Allows(fw), n.subjects, n.allowed, SpecTokens, Same, Canonical, s, p);
  }

  /** Which hosts an expansion has, and that each has what its entries say. */
  lemma HostOf(fw: Network, ctx: Context, out: Network, s: string)
    requires ExpandsTo(fw, ctx, out)
    ensures s in out <==> s in Seeds(fw, ctx) || exists k :: k in fw && s in Subjects(ctx, Targets(fw, ctx), k)
    ensures s in out ==> HostExpanded(out[s], fw, NamesOf(fw, ctx), s)
  {
    var n, targets := NamesOf(fw, ctx), Targets(fw, ctx);
    assert forall k :: n.subjects(k) == Subjects(ctx, targets, k);
    assert Covered(fw, n, s) <==> exists k :: k in fw && s in Subjects(ctx, targets, k);
  }

  lemma StableHost(fw: Network, ctx: Context, out: Network, s: string)
    requires ExpandsTo(fw, ctx, out) && Stable(fw, ctx) && s in out
    ensures ExpandedHost(s, out[s].allows.Keys)
  {
    HostOf(fw, ctx, out, s);
    if s !in Seeds(fw, ctx) {
      var k :| k in fw && s in Subjects(ctx, Targets(fw, ctx), k);
      assert StableEntry(ctx, Subjects(ctx, Targets(fw, ctx), k), fw[k].allows.Keys);
    }
    forall p | p in out[s].allows ensures IsSettled(p) {
      var k, q := PeerHasEntry(fw, ctx, out[s], s, p);
      assert StableEntry(ctx, Subjects(ctx, Targets(fw, ctx), k), fw[k].allows.Keys);
    }
  }

  lemma ExpandedEntry(fw: Network, ctx: Context, out: Network, k: string)
    requires ExpandsTo(fw, ctx, out) && Expanded(out) && k in fw
    ensures StableEntry(ctx, Subjects(ctx, Targets(fw, ctx), k), fw[k].allows.Keys)
  {
    var subjects := Subjects(ctx, Targets(fw, ctx), k);
    forall s | s in subjects ensures s in out && ExpandedHost(s, out[s].allows.Keys) { HostOf(fw, ctx, out, s); }
    if subjects != {} {
      var s :| s in subjects;
      HostOf(fw, ctx, out, s);
      forall q, p | q in fw[k].allows && p in AllowPeers(ctx, q) ensures IsSettled(p) {
        EntryHasPeer(fw, ctx, out[s], s, k, q, p);
      }
    }
  }

  /** The condition on the input says the same as its reading on the result. */
  lemma StableIffExpanded(fw: Network, ctx: Context, out: Network)
    requires ExpandsTo(fw, ctx, out)
    ensures Stable(fw, ctx) <==> Expanded(out)
  {
    if Stable(fw, ctx) {
      forall s | s in out ensures ExpandedHost(s, out[s].allows.Keys) { StableHost(fw, ctx, out, s); }
    }
    if Expanded(out) {
      forall s | s in Seeds(fw, ctx) ensures !IsExclusion(s) {
        HostOf(fw, ctx, out, s);
        assert ExpandedHost(s, out[s].allows.Keys);
      }
      forall k | k in fw ensures StableEntry(ctx, Subjects(ctx, Targets(fw, ctx), k), fw[k].allows.Keys) {
        ExpandedEntry(fw, ctx, out, k);
      }
    }
  }

  /** What an exclusion expands to, with nothing left to resolve, is settled. */
  lemma BarePeerIsSettled(again: Context, q: string, p: string)
    requires Bare(again) && p in AllowPeers(again, q)
    ensures IsSettled(p)
  {
    if IsExclusion(q) {
      SplitHasNoCommas(q[2..]);
      BareExclusion(again, q);
      WrittenIsSettled(Split(q[2..]));
      OrderedAscends(Split(q[2..]));
      forall t | t in Ordered(Split(q[2..])) ensures Hostname.IsValid(t) { assert t in Elements(Split(q[2..])); }
    } else {
      BareName(again, q);
    }
  }

  lemma BareTargets(fw: Network, again: Context, s: string)
    requires Bare(again) && s in Targets(fw, again)
    ensures !IsExclusion(s)
  {
    if s in again.current {
      var host: Hostname.Label := s;
      ValidName(host);
    } else {
      var name :| name in ExpectedHosts(fw) && s in ResolveName(again, name);
      BareName(again, name);
      assert s in Elements(ResolveName(again, name));
    }
  }

  /** With nothing left to resolve, every spec is stable. */
  lemma BareIsStable(fw: Network, again: Context)
    requires Bare(again)
    ensures Stable(fw, again)
  {
    var targets := Targets(fw, again);
    forall s | s in targets ensures !IsExclusion(s) { BareTargets(fw, again, s); }
    forall k | k in fw ensures StableEntry(again, Subjects(again, targets, k), fw[k].allows.Keys) {
      BareName(again, k);
      forall q, p | q in fw[k].allows && p in AllowPeers(again, q) ensures IsSettled(p) {
        BarePeerIsSettled(again, q, p);
      }
    }
  }

  predicate AllFixed(out: Network, again: Context) {
    forall s :: s in out ==> !IsExclusion(s) && forall p :: p in out[s].allows ==> IsFixed(again, p)
  }

  lemma ExpandedIsFixed(out: Network, again: Context)
    requires Bare(again) && Expanded(out)
    ensures AllFixed(out, again)
  {
    forall s | s in out ensures !IsExclusion(s) && forall p :: p in out[s].allows ==> IsFixed(again, p) {
      assert ExpandedHost(s, out[s].allows.Keys);
      forall p | p in out[s].allows ensures IsFixed(again, p) { FixedIffSettled(again, p); }
    }
  }

  lemma FixedIsSelfNamed(out: Network, again: Context)
    requires Bare(again) && AllFixed(out, again)
    ensures SelfNamed(out, NamesOf(out, again)) && !Fails(out, again) && Seeds(out, again) == {}
  {
    var m := NamesOf(out, again);
    forall s | s in out ensures m.subjects(s) == {s} { BareName(again, s); }
    forall p: string ensures m.others(p) == {p} { BareName(again, p); }
    forall s, p | s in out && p in out[s].allows ensures m.allowed(p) == {p} { assert IsFixed(again, p); }
    NoSeeds(out, again);
  }

  /** Expanding a stable spec, and then its expansion with nothing left to resolve, succeeds and changes nothing. */
  lemma ExpansionIsIdempotent(fw: Network, ctx: Context, out: Network, again: Context)
    requires ExpandsTo(fw, ctx, out) && Stable(fw, ctx) && Bare(again)
    ensures !Fails(out, again) && ExpandsTo(out, again, out)
  {
    StableIffExpanded(fw, ctx, out);
    ExpandedIsFixed(out, again);
    FixedIsSelfNamed(out, again);
    SettledHosts(Seeds(fw, ctx), fw, NamesOf(fw, ctx), out, NamesOf(out, again));
  }

  /** Expanding again changes nothing exactly when the spec is stable. */
  lemma ExpandsAgainIff(fw: Network, ctx: Context, out: Network, again: Context)
    requires ExpandsTo(fw, ctx, out) && Bare(again)
    ensures ExpandsTo(out, again, out) <==> Stable(fw, ctx)
  {
    StableIffExpanded(fw, ctx, out);
    if ExpandsTo(out, again, out) {
      BareIsStable(out, again);
      StableIffExpanded(out, again, out);
    } else if Stable(fw, ctx) {
      ExpansionIsIdempotent(fw, ctx, out, again);
    }
  }
}
