/**
 * The two values a deploy rule can hold, and how expansion merges them (src/apply.rs): comma-separated
 * protocol specs, and lists of local login accounts.
 */
module Tokens {
  import opened Wrappers

  // ---- Text ----

  /** Unicode White_Space, which `str::trim` removes. */
  predicate IsSpace(c: char) {
    var n := c as int;
    || 0x09 <= n <= 0x0d || n == 0x20 || n == 0x85 || n == 0xa0 || n == 0x1680 || 0x2000 <= n <= 0x200a
    || n == 0x2028 || n == 0x2029 || n == 0x202f || n == 0x205f || n == 0x3000
  }

  function Trim(s: string): string
    decreases |s|
  {
    if s == [] then []
    else if IsSpace(s[0]) then Trim(s[1..])
    else if IsSpace(s[|s| - 1]) then Trim(s[..|s| - 1])
    else s
  }

  predicate Trimmed(s: string) { s == [] || (!IsSpace(s[0]) && !IsSpace(s[|s| - 1])) }

  /** Position of the first comma from `i` on, or the length. */
  function Comma(s: string, i: nat): (k: nat)
    requires i <= |s|
    decreases |s| - i
    ensures i <= k <= |s| && (k < |s| ==> s[k] == ',') && forall j :: i <= j < k ==> s[j] != ','
  {
    if i < |s| && s[i] != ',' then Comma(s, i + 1) else i
  }

  /** `split(',')`, with empty pieces. */
  function Split(s: string): (r: seq<string>)
    decreases |s|
    ensures r != []
  {
    var k := Comma(s, 0);
    if k == |s| then [s] else [s[..k]] + Split(s[k + 1..])
  }

  /** The tokens of a spec, in order: split at commas, trimmed, empties dropped. */
  function Pieces(s: string): seq<string>
    decreases |s|
  {
    var k := Comma(s, 0);
    var t := Trim(s[..k]);
    var head := if t == [] then [] else [t];
    if k == |s| then head else head + Pieces(s[k + 1..])
  }

  function Join(l: seq<string>): string {
    if l == [] then "" else if |l| == 1 then l[0] else l[0] + "," + Join(l[1..])
  }

  predicate IsToken(t: string) { t != [] && Trimmed(t) && ',' !in t }

  predicate AllTokens(l: seq<string>) { forall t :: t in l ==> IsToken(t) }

  lemma {:induction false} TrimIsToken(s: string)
    requires ',' !in s
    ensures Trimmed(Trim(s)) && ',' !in Trim(s)
    decreases |s|
  {
    if s != [] {
      if IsSpace(s[0]) { TrimIsToken(s[1..]); } else if IsSpace(s[|s| - 1]) { TrimIsToken(s[..|s| - 1]); }
    }
  }

  predicate AllSpaces(s: string) { forall c :: c in s ==> IsSpace(c) }

  /** Trimming takes spaces off both ends and nothing else. */
  lemma {:induction false} TrimDropsSpaces(s: string) returns (i: nat, j: nat)
    ensures i <= j <= |s| && Trim(s) == s[i..j] && AllSpaces(s[..i]) && AllSpaces(s[j..])
    decreases |s|
  {
    if s == [] {
      i, j := 0, 0;
    } else if IsSpace(s[0]) {
      i, j := TrimDropsSpaces(s[1..]);
      assert s[1..][i..j] == s[i + 1..j + 1] && s[..i + 1] == [s[0]] + s[1..][..i] && s[j + 1..] == s[1..][j..];
      i, j := i + 1, j + 1;
    } else if IsSpace(s[|s| - 1]) {
      var cut := s[..|s| - 1];
      i, j := TrimDropsSpaces(cut);
      assert cut[i..j] == s[i..j] && s[..i] == cut[..i] && s[j..] == cut[j..] + [s[|s| - 1]];
    } else {
      i, j := 0, |s|;
      assert s[0..|s|] == s;
    }
  }

  lemma {:induction false} PiecesAreTokens(s: string)
    ensures AllTokens(Pieces(s))
    decreases |s|
  {
    var k := Comma(s, 0);
    TrimIsToken(s[..k]);
    if k < |s| { PiecesAreTokens(s[k + 1..]); }
  }

  lemma {:induction false} CommaAfter(t: string, rest: string, i: nat)
    requires i <= |t| && ',' !in t && (rest == [] || rest[0] == ',')
    ensures Comma(t + rest, i) == |t|
    decreases |t| - i
  {
    if i < |t| {
      assert (t + rest)[i] == t[i] && t[i] in t;
      CommaAfter(t, rest, i + 1);
    } else if rest != [] {
      assert (t + rest)[i] == rest[0];
    }
  }

  lemma TokenTrims(t: string)
    requires Trimmed(t)
    ensures Trim(t) == t
  {
  }

  /** Joining tokens and taking them apart again is the identity. */
  lemma {:induction false} PiecesOfJoin(l: seq<string>)
    requires AllTokens(l)
    ensures Pieces(Join(l)) == l
  {
    if l != [] {
      var t := l[0];
      assert IsToken(t);
      TokenTrims(t);
      if |l| == 1 {
        CommaAfter(t, "", 0);
        assert t + "" == t && t[..|t|] == t;
      } else {
        var rest := "," + Join(l[1..]);
        var s := t + rest;
        assert Join(l) == s;
        CommaAfter(t, rest, 0);
        assert s[..|t|] == t && s[|t| + 1..] == Join(l[1..]);
        PiecesOfJoin(l[1..]);
      }
    }
  }

  // ---- Ordered sets of strings ----

  /** The order of a `BTreeSet` of strings. */
  predicate Less(a: string, b: string) {
    b != [] && (a == [] || a[0] < b[0] || (a[0] == b[0] && Less(a[1..], b[1..])))
  }

  lemma {:induction false} LessIsTotal(a: string, b: string)
    ensures a == b || Less(a, b) || Less(b, a)
    ensures Less(a, b) ==> !Less(b, a) && a != b
    decreases |a|
  {
    if a != [] && b != [] {
      LessIsTotal(a[1..], b[1..]);
      assert a == [a[0]] + a[1..] && b == [b[0]] + b[1..];
    }
  }

  lemma {:induction false} LessIsTransitive(a: string, b: string, c: string)
    requires Less(a, b) && Less(b, c)
    ensures Less(a, c)
  {
    if a != [] && a[0] == b[0] == c[0] { LessIsTransitive(a[1..], b[1..], c[1..]); }
  }

  predicate Ascending(l: seq<string>) { |l| < 2 || (Less(l[0], l[1]) && Ascending(l[1..])) }

  function Insert(x: string, l: seq<string>): (r: seq<string>)
    ensures r != []
  {
    if l == [] || Less(x, l[0]) then [x] + l
    else if x == l[0] then l
    else [l[0]] + Insert(x, l[1..])
  }

  /** The list as a `BTreeSet` iterates it: ascending, without repeats. */
  function Ordered(l: seq<string>): seq<string> { if l == [] then [] else Insert(l[0], Ordered(l[1..])) }

  function Elements(l: seq<string>): set<string> { set x | x in l }

  lemma {:induction false} InsertAscends(x: string, l: seq<string>)
    requires Ascending(l)
    ensures Ascending(Insert(x, l)) && (Insert(x, l)[0] == x || (l != [] && Insert(x, l)[0] == l[0]))
  {
    if l != [] {
      LessIsTotal(x, l[0]);
      if Less(x, l[0]) {
        assert ([x] + l)[1..] == l;
      } else if x != l[0] {
        InsertAscends(x, l[1..]);
        assert ([l[0]] + Insert(x, l[1..]))[1..] == Insert(x, l[1..]);
      }
    }
  }

  lemma {:induction false} InsertElements(x: string, l: seq<string>)
    ensures Elements(Insert(x, l)) == Elements(l) + {x}
  {
    if l != [] && !Less(x, l[0]) && x != l[0] {
      InsertElements(x, l[1..]);
      assert l == [l[0]] + l[1..];
      assert Elements(Insert(x, l)) == Elements(Insert(x, l[1..])) + {l[0]};
      assert Elements(l) == Elements(l[1..]) + {l[0]};
    } else {
      assert Elements([x] + l) == Elements(l) + {x};
    }
  }

  lemma {:induction false} OrderedAscends(l: seq<string>)
    ensures Ascending(Ordered(l)) && Elements(Ordered(l)) == Elements(l)
  {
    if l != [] {
      OrderedAscends(l[1..]);
      InsertAscends(l[0], Ordered(l[1..]));
      InsertElements(l[0], Ordered(l[1..]));
      assert l == [l[0]] + l[1..];
    }
  }

  lemma {:induction false} HeadIsLeast(l: seq<string>, x: string)
    requires Ascending(l) && x in l
    ensures x == l[0] || Less(l[0], x)
  {
    if x != l[0] {
      HeadIsLeast(l[1..], x);
      if x != l[1] { LessIsTransitive(l[0], l[1], x); }
    }
  }

  /** There is one ascending list of a given set: expansion cannot depend on the order entries were processed in. */
  lemma {:induction false} AscendingIsUnique(a: seq<string>, b: seq<string>)
    requires Ascending(a) && Ascending(b) && Elements(a) == Elements(b)
    ensures a == b
  {
    NoElements(a);
    NoElements(b);
    if a != [] {
      assert a[0] in Elements(b);
      assert b[0] in Elements(a);
      HeadIsLeast(a, b[0]);
      HeadIsLeast(b, a[0]);
      LessIsTotal(a[0], b[0]);
      TailElements(a);
      TailElements(b);
      AscendingIsUnique(a[1..], b[1..]);
      assert a == [a[0]] + a[1..] && b == [b[0]] + b[1..];
    }
  }

  lemma NoElements(l: seq<string>)
    ensures Elements(l) == {} <==> l == []
  {
    if l != [] { assert l[0] in Elements(l); }
  }

  lemma TailElements(l: seq<string>)
    requires Ascending(l) && l != []
    ensures Elements(l[1..]) == Elements(l) - {l[0]}
  {
    assert l == [l[0]] + l[1..];
    if l[0] in l[1..] {
      HeadIsLeast(l[1..], l[0]);
      LessIsTotal(l[0], l[1]);
      assert false;
    }
  }

  // ---- Specs ----

  function SpecTokens(s: string): set<string> { Elements(Pieces(s)) }

  /** `merge_spec`. */
  function MergeSpec(existing: Option<string>, added: string): string {
    Join(Ordered((if existing.Some? then Pieces(existing.value) else []) + Pieces(added)))
  }

  /** Merging is the union of the tokens, in the one canonical spelling. */
  lemma MergeSpecIsUnion(existing: Option<string>, added: string)
    ensures var m := MergeSpec(existing, added);
            && SpecTokens(m) == (if existing.Some? then SpecTokens(existing.value) else {}) + SpecTokens(added)
            && Ascending(Pieces(m)) && m == Join(Pieces(m))
  {
    var all := (if existing.Some? then Pieces(existing.value) else []) + Pieces(added);
    if existing.Some? { PiecesAreTokens(existing.value); }
    PiecesAreTokens(added);
    OrderedAscends(all);
    forall t | t in Ordered(all) ensures IsToken(t) {
      assert t in Elements(Ordered(all));
      assert t in all;
    }
    PiecesOfJoin(Ordered(all));
    assert Elements(all) == (if existing.Some? then SpecTokens(existing.value) else {}) + SpecTokens(added);
  }

  // ---- Login accounts ----

  /** What an account list grants: every account, every account but privileged ones, or the named ones. */
  datatype Atom = Everyone | Unprivileged | Named(account: string)

  function Grants(users: seq<string>): set<Atom> {
    if "*" in users then {Everyone}
    else if users == [] then {Unprivileged}
    else set u | u in users :: Named(u)
  }

  /** A wider grant swallows the narrower ones. */
  function Widest(atoms: set<Atom>): set<Atom> {
    if Everyone in atoms then {Everyone} else if Unprivileged in atoms then {Unprivileged} else atoms
  }

  /** `add_ssh_grant` with `merge_ssh_users`: a new peer takes the list as it is. */
  function MergeUsers(existing: Option<seq<string>>, added: seq<string>): seq<string> {
    if existing.None? then added
    else if "*" in existing.value || "*" in added then ["*"]
    else if existing.value == [] || added == [] then []
    else Ordered(existing.value + added)
  }

  lemma MergeUsersIsWidest(existing: Option<seq<string>>, added: seq<string>)
    ensures Grants(MergeUsers(existing, added))
            == Widest((if existing.Some? then Grants(existing.value) else {}) + Grants(added))
  {
    if existing.Some? {
      var all := existing.value + added;
      OrderedAscends(all);
      forall u ensures u in Ordered(all) <==> u in existing.value || u in added {
        assert u in Ordered(all) <==> u in Elements(Ordered(all));
        assert u in all <==> u in Elements(all);
      }
    }
  }

  /** Whether a login as this account is let in (`UserPolicy` in src/ssh/authz.rs). */
  predicate Permits(users: seq<string>, account: string, privileged: bool) {
    "*" in users || account in users || (users == [] && !privileged)
  }

  /** What a list grants decides every login. */
  lemma GrantsDecide(a: seq<string>, b: seq<string>, account: string, privileged: bool)
    requires Grants(a) == Grants(b)
    ensures Permits(a, account, privileged) == Permits(b, account, privileged)
  {
    assert "*" in a <==> Everyone in Grants(a);
    assert "*" in b <==> Everyone in Grants(b);
    if "*" !in a {
      NamedOnly(a, account);
      NamedOnly(b, account);
    }
  }

  lemma NamedOnly(users: seq<string>, account: string)
    requires "*" !in users
    ensures account in users <==> Named(account) in Grants(users)
    ensures users == [] <==> Unprivileged in Grants(users)
  {
  }

  /**
   * Two grants kept apart permit what either permits. Merged, they permit the same logins except one: a privileged
   * account named in one list is lost when the other list is the empty, any-unprivileged-account one.
   */
  lemma MergeLosesPrivileged(a: seq<string>, b: seq<string>, account: string, privileged: bool)
    ensures Permits(MergeUsers(Some(a), b), account, privileged) ==>
              Permits(a, account, privileged) || Permits(b, account, privileged)
    ensures && (Permits(a, account, privileged) || Permits(b, account, privileged))
            && !Permits(MergeUsers(Some(a), b), account, privileged)
            <==> && privileged && "*" !in a && "*" !in b
                 && ((a == [] && account in b) || (b == [] && account in a))
  {
    OrderedAscends(a + b);
    assert account in Ordered(a + b) <==> account in Elements(Ordered(a + b));
    assert account in a + b <==> account in Elements(a + b);
    assert "*" in Ordered(a + b) <==> "*" in Elements(Ordered(a + b));
    assert "*" in a + b <==> "*" in Elements(a + b);
  }

  /** The case itself: `["root"]` merged with `[]` no longer admits root. */
  lemma RootIsLost()
    ensures Permits(["root"], "root", true) && !Permits(MergeUsers(Some(["root"]), []), "root", true)
  {
  }
}
