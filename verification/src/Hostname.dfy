/** Magic DNS hostnames (src/hostname.rs): folding a device name, and resolving collisions. */
module Hostname {
  import opened Wrappers

  const MAX_LABEL: nat := 63
  const PLACEHOLDERS: set<string> := {"localhost", "unknown", "android"}

  predicate IsLower(c: char) { 'a' <= c <= 'z' }

  predicate IsDigit(c: char) { '0' <= c <= '9' }

  predicate IsLabelChar(c: char) { IsLower(c) || IsDigit(c) || c == '-' }

  /** `is_valid_hostname`: one lowercase DNS label. */
  predicate IsValid(name: string) {
    && 0 < |name| <= MAX_LABEL
    && name[0] != '-' && name[|name| - 1] != '-'
    && forall c :: c in name ==> IsLabelChar(c)
  }

  /** A checked hostname (`MachineHostname` in ray-proto/src/ipc.rs). */
  type Label = s: string | IsValid(s) witness "a"

  // ---- Collisions ----

  function Digit(n: nat): (c: char)
    requires n < 10
    ensures IsDigit(c) && c as int == n + '0' as int
  {
    (n + '0' as int) as char
  }

  /** Decimal digits of `n`. */
  function Decimal(n: nat): (s: string)
    ensures |s| > 0 && forall c :: c in s ==> IsDigit(c)
    decreases n
  {
    if n < 10 then [Digit(n)] else Decimal(n / 10) + [Digit(n % 10)]
  }

  function Value(s: string): int {
    if s == [] then 0 else Value(s[..|s| - 1]) * 10 + (s[|s| - 1] as int - '0' as int)
  }

  lemma {:induction false} DecimalRoundTrip(n: nat)
    ensures Value(Decimal(n)) == n
  {
    if n >= 10 {
      DecimalRoundTrip(n / 10);
      assert Decimal(n)[..|Decimal(n)| - 1] == Decimal(n / 10);
    }
  }

  lemma {:induction false} DecimalLength(n: nat, digits: nat, bound: nat)
    requires n < bound && bound == Pow10(digits) && digits > 0
    ensures |Decimal(n)| <= digits
    decreases digits
  {
    if n >= 10 { DecimalLength(n / 10, digits - 1, Pow10(digits - 1)); }
  }

  function Pow10(k: nat): nat { if k == 0 then 1 else 10 * Pow10(k - 1) }

  function Suffix(i: nat): string { "-" + Decimal(i) }

  function TrimEnd(s: string): (r: string)
    ensures r <= s && (r != [] ==> r[|r| - 1] != '-')
    ensures s != [] && s[0] != '-' ==> r != []
  {
    if s != [] && s[|s| - 1] == '-' then TrimEnd(s[..|s| - 1]) else s
  }

  function Take(s: string, n: int): (r: string)
    ensures r <= s
  {
    if n <= 0 then [] else if |s| < n then s else s[..n]
  }

  /** The `i`-th alternative to a taken name, shortened to fit one label. */
  function Candidate(desired: string, i: nat): string {
    TrimEnd(Take(desired, MAX_LABEL - |Suffix(i)|)) + Suffix(i)
  }

  /** The number after the last hyphen. */
  function AfterHyphen(s: string): string {
    if s == [] then [] else if s[|s| - 1] == '-' then [] else AfterHyphen(s[..|s| - 1]) + [s[|s| - 1]]
  }

  lemma {:induction false} AfterHyphenOf(base: string, digits: string)
    requires forall k :: 0 <= k < |digits| ==> digits[k] != '-'
    ensures AfterHyphen(base + "-" + digits) == digits
  {
    var s := base + "-" + digits;
    if digits == [] {
      assert s[|s| - 1] == '-';
    } else {
      var front, last := digits[..|digits| - 1], digits[|digits| - 1];
      AfterHyphenOf(base, front);
      assert s[..|s| - 1] == base + "-" + front;
      assert s[|s| - 1] == last && digits == front + [last];
    }
  }

  /** The number of a candidate can be read back from it. */
  lemma CandidateNumber(desired: string, i: nat)
    ensures Value(AfterHyphen(Candidate(desired, i))) == i
  {
    var base, digits := TrimEnd(Take(desired, MAX_LABEL - |Suffix(i)|)), Decimal(i);
    forall k | 0 <= k < |digits| ensures digits[k] != '-' { assert digits[k] in digits; }
    AfterHyphenOf(base, digits);
    assert Candidate(desired, i) == base + "-" + digits;
    DecimalRoundTrip(i);
  }

  /**
   * A candidate is the wish, a hyphen and the number. A wish too long for that is cut to what fits in 63 characters,
   * and hyphens at the cut are dropped.
   */
  lemma CandidateKeepsTheWish(desired: string, i: nat) returns (base: string)
    requires IsValid(desired) && |Decimal(i)| < 62
    ensures Candidate(desired, i) == base + "-" + Decimal(i) && base <= desired
    ensures |desired| + 1 + |Decimal(i)| <= 63 ==> base == desired
    ensures base != "" ==> base[|base| - 1] != '-'
    ensures forall k :: |base| <= k < |desired| && k < 62 - |Decimal(i)| ==> desired[k] == '-'
  {
    var cut := Take(desired, MAX_LABEL - |Suffix(i)|);
    base := TrimEnd(cut);
    TrimEndDropsHyphens(cut);
  }

  lemma {:induction false} TrimEndDropsHyphens(s: string)
    ensures forall k :: |TrimEnd(s)| <= k < |s| ==> s[k] == '-'
  {
    if s != [] && s[|s| - 1] == '-' { TrimEndDropsHyphens(s[..|s| - 1]); }
  }

  /** Different numbers give different names. */
  lemma CandidatesDiffer(desired: string, i: nat, j: nat)
    requires Candidate(desired, i) == Candidate(desired, j)
    ensures i == j
  {
    CandidateNumber(desired, i);
    CandidateNumber(desired, j);
  }

  lemma CandidateIsValid(desired: string, i: nat)
    requires IsValid(desired) && i < 0x1_0000_0000
    ensures IsValid(Candidate(desired, i))
  {
    assert Pow10(10) == 10_000_000_000 by { assert Pow10(5) == 100_000; }
    DecimalLength(i, 10, Pow10(10));
    var cut := Take(desired, MAX_LABEL - |Suffix(i)|);
    assert cut[0] == desired[0];
    var base, c := TrimEnd(cut), Candidate(desired, i);
    assert forall x :: x in base ==> x in desired;
    assert c[|c| - 1] == Decimal(i)[|Decimal(i)| - 1];
    assert c[|c| - 1] in Decimal(i);
    forall x | x in c ensures IsLabelChar(x) {
      assert x in base || x == '-' || x in Decimal(i);
    }
  }

  function Candidates(desired: string, n: nat): (s: set<string>) {
    set i | 1 <= i <= n :: Candidate(desired, i)
  }

  lemma {:induction false} CandidatesCount(desired: string, n: nat)
    ensures |Candidates(desired, n)| == n
  {
    if n == 0 {
      assert Candidates(desired, 0) == {};
    } else {
      CandidatesCount(desired, n - 1);
      CandidatesGrow(desired, n);
    }
  }

  lemma CandidatesGrow(desired: string, n: nat)
    requires n > 0
    ensures Candidates(desired, n) == Candidates(desired, n - 1) + {Candidate(desired, n)}
    ensures Candidate(desired, n) !in Candidates(desired, n - 1)
  {
    forall i | 1 <= i < n ensures Candidate(desired, i) != Candidate(desired, n) {
      if Candidate(desired, i) == Candidate(desired, n) { CandidatesDiffer(desired, i, n); }
    }
  }

  /** Pigeonhole: `n` candidates cannot all be among fewer than `n` names. */
  lemma SomeCandidateIsFree(desired: string, taken: seq<string>, n: nat)
    requires forall i :: 1 <= i <= n ==> Candidate(desired, i) in taken
    ensures n <= |taken|
  {
    var names := set x | x in taken;
    NamesFit(taken);
    CandidatesCount(desired, n);
    assert Candidates(desired, n) <= names;
    assert names == Candidates(desired, n) + (names - Candidates(desired, n));
  }

  lemma {:induction false} NamesFit(taken: seq<string>)
    ensures |set x | x in taken| <= |taken|
  {
    if taken != [] {
      var rest := taken[1..];
      NamesFit(rest);
      assert (set x | x in taken) == (set x | x in rest) + {taken[0]};
    }
  }

  /** `name` is what the search must return: the wish itself, or the first free candidate. */
  predicate IsResolution(name: string, desired: string, taken: seq<string>) {
    if desired !in taken then name == desired
    else exists i :: 1 <= i <= |taken| + 1 && name == Candidate(desired, i) && name !in taken
                     && forall j :: 1 <= j < i ==> Candidate(desired, j) in taken
  }

  /**
   * `resolve_collision`. The source's loop has no bound; it stops after at most one candidate more than there
   * are taken names, and below that many the 32-bit counter cannot overflow.
   */
  method ResolveCollision(desired: string, taken: seq<string>) returns (name: string)
    ensures IsResolution(name, desired, taken) && name !in taken
    ensures IsValid(desired) && |taken| < 0xffff_ffff ==> IsValid(name)
  {
    if desired !in taken { return desired; }
    var i := 1;
    while true
      invariant 1 <= i <= |taken| + 1
      invariant forall j :: 1 <= j < i ==> Candidate(desired, j) in taken
      decreases |taken| + 1 - i
    {
      var candidate := Candidate(desired, i);
      if candidate !in taken {
        if IsValid(desired) && i < 0x1_0000_0000 { CandidateIsValid(desired, i); }
        return candidate;
      }
      i := i + 1;
      SomeCandidateIsFree(desired, taken, i - 1);
    }
  }

  /** The answer is unique, so resolving twice against the same names agrees. */
  lemma ResolutionIsUnique(a: string, b: string, desired: string, taken: seq<string>)
    requires IsResolution(a, desired, taken) && IsResolution(b, desired, taken)
    ensures a == b
  {
    if desired in taken {
      var i :| 1 <= i <= |taken| + 1 && a == Candidate(desired, i) && a !in taken
               && forall j :: 1 <= j < i ==> Candidate(desired, j) in taken;
      var k :| 1 <= k <= |taken| + 1 && b == Candidate(desired, k) && b !in taken
               && forall j :: 1 <= j < k ==> Candidate(desired, j) in taken;
      assert i == k;
    }
  }

  /** `admission_hostname`: an invite-bound name is given verbatim or refused, never renamed. */
  method AdmissionHostname(desired: string, taken: seq<string>, authoritative: bool) returns (r: Result<string>)
    ensures r.Err? <==> !IsValid(desired) || (authoritative && desired in taken)
    ensures r.Ok? ==> r.value !in taken && (|taken| < 0xffff_ffff ==> IsValid(r.value))
    ensures r.Ok? && (authoritative || desired !in taken) ==> r.value == desired
    ensures r.Ok? ==> IsResolution(r.value, desired, taken)
  {
    if !IsValid(desired) { return Err; }
    if authoritative {
      return if desired in taken then Err else Ok(desired);
    }
    var name := ResolveCollision(desired, taken);
    return Ok(name);
  }

  // ---- Folding a device name ----

  function Lowered(c: char): char { if 'A' <= c <= 'Z' then (c as int + 32) as char else c }

  predicate IsApostrophe(c: char) { c == '\'' || c as int == 0x2019 }

  predicate IsAlphanumeric(c: char) { IsLower(c) || IsDigit(c) || 'A' <= c <= 'Z' }

  /** A possessive `'s` starts here. */
  predicate PossessiveAt(s: string, i: nat)
    requires i < |s|
  {
    IsApostrophe(s[i]) && i + 1 < |s| && s[i + 1] == 's' && (i + 2 >= |s| || !IsAlphanumeric(s[i + 2]))
  }

  function Pushed(name: string, c: char): string {
    if IsLower(c) || IsDigit(c) then name + [c]
    else if name == [] || name[|name| - 1] != '-' then name + "-"
    else name
  }

  /** The folding loop from position `i`, with `name` built so far. */
  function FoldFrom(s: string, i: nat, name: string): string
    requires i <= |s|
    decreases |s| - i
  {
    if i == |s| then name
    else if PossessiveAt(s, i) then FoldFrom(s, i + 2, name)
    else FoldFrom(s, i + 1, Pushed(name, s[i]))
  }

  function TrimStart(s: string): string { if s != [] && s[0] == '-' then TrimStart(s[1..]) else s }

  function LoweredAll(s: string): (r: string)
    ensures |r| == |s| && forall i :: 0 <= i < |s| ==> r[i] == Lowered(s[i])
  {
    seq(|s|, i requires 0 <= i < |s| => Lowered(s[i]))
  }

  function Folded(raw: string): string {
    TrimEnd(Take(TrimEnd(TrimStart(FoldFrom(LoweredAll(raw), 0, ""))), MAX_LABEL))
  }

  function MeshForm(raw: string): Option<string> {
    var name := Folded(raw);
    if IsValid(name) && name !in PLACEHOLDERS then Some(name) else None
  }

  /** `mesh_form`. */
  method MeshFormLoop(raw: string) returns (r: Option<string>)
    ensures r == MeshForm(raw)
  {
    var lower := LoweredAll(raw);
    var name, i := "", 0;
    while i < |lower|
      invariant i <= |lower| && FoldFrom(lower, i, name) == FoldFrom(lower, 0, "")
    {
      if PossessiveAt(lower, i) {
        i := i + 2;
      } else {
        name := Pushed(name, lower[i]);
        i := i + 1;
      }
    }
    name := TrimEnd(Take(TrimEnd(TrimStart(name)), MAX_LABEL));
    return if IsValid(name) && name !in PLACEHOLDERS then Some(name) else None;
  }

  /** Lowercase letters, digits and single hyphens. */
  predicate Clean(s: string) {
    && (forall c :: c in s ==> IsLabelChar(c))
    && (forall i :: 0 <= i < |s| - 1 ==> !(s[i] == '-' && s[i + 1] == '-'))
  }

  lemma {:induction false} FoldIsClean(s: string, i: nat, name: string)
    requires i <= |s| && Clean(name)
    ensures Clean(FoldFrom(s, i, name))
    decreases |s| - i
  {
    if i < |s| {
      if PossessiveAt(s, i) { FoldIsClean(s, i + 2, name); } else { FoldIsClean(s, i + 1, Pushed(name, s[i])); }
    }
  }

  lemma {:induction false} TrimStartIsSuffix(s: string)
    ensures |TrimStart(s)| <= |s| && TrimStart(s) == s[|s| - |TrimStart(s)|..]
    ensures TrimStart(s) != [] ==> TrimStart(s)[0] != '-'
  {
    if s != [] && s[0] == '-' { TrimStartIsSuffix(s[1..]); }
  }

  lemma SliceIsClean(s: string, i: nat, j: nat)
    requires i <= j <= |s| && Clean(s)
    ensures Clean(s[i..j])
  {
  }

  lemma FoldedIsClean(raw: string)
    ensures Clean(Folded(raw)) && |Folded(raw)| <= MAX_LABEL
    ensures Folded(raw) != [] ==> IsValid(Folded(raw))
  {
    FoldIsClean(LoweredAll(raw), 0, "");
    CutIsClean(FoldFrom(LoweredAll(raw), 0, ""));
  }

  /** Trimmed, cut to length and trimmed again. */
  lemma CutIsClean(folded: string)
    requires Clean(folded)
    ensures var r := TrimEnd(Take(TrimEnd(TrimStart(folded)), MAX_LABEL));
            Clean(r) && |r| <= MAX_LABEL && (r != [] ==> IsValid(r))
  {
    TrimStartIsSuffix(folded);
    var a := TrimStart(folded);
    SliceIsClean(folded, |folded| - |a|, |folded|);
    assert folded[|folded| - |a|..|folded|] == a;
    var r := TrimEnd(Take(TrimEnd(a), MAX_LABEL));
    assert r == a[..|r|] == a[0..|r|];
    SliceIsClean(a, 0, |r|);
    if r != [] { assert r[0] == a[0]; }
  }

  /** On a clean name the fold copies: nothing in it is a possessive, and no run collapses. */
  lemma {:induction false} FoldOfClean(s: string, i: nat)
    requires i <= |s| && Clean(s)
    ensures FoldFrom(s, i, s[..i]) == s
    decreases |s| - i
  {
    if i < |s| {
      assert s[i] in s;
      assert s[..i + 1] == s[..i] + [s[i]];
      if i > 0 { assert !(s[i - 1] == '-' && s[i] == '-'); }
      FoldOfClean(s, i + 1);
    } else {
      assert s[..i] == s;
    }
  }

  /** The names `mesh_form` leaves alone are exactly the valid, clean ones that are not placeholders. */
  lemma MeshFormFixpoints(s: string)
    ensures MeshForm(s) == Some(s) <==> IsValid(s) && Clean(s) && s !in PLACEHOLDERS
  {
    if MeshForm(s) == Some(s) { FoldedIsClean(s); }
    if IsValid(s) && Clean(s) {
      forall i | 0 <= i < |s| ensures Lowered(s[i]) == s[i] { assert s[i] in s; }
      assert LoweredAll(s) == s;
      FoldOfClean(s, 0);
      assert s[..0] == "";
      assert FoldFrom(s, 0, "") == s;
      assert TrimStart(s) == s && TrimEnd(s) == s && Take(s, MAX_LABEL) == s;
    }
  }

  lemma {:induction false} FoldShift(a: string, b: string, i: nat, name: string)
    requires i <= |b|
    ensures FoldFrom(a + b, |a| + i, name) == FoldFrom(b, i, name)
    decreases |b| - i
  {
    if i < |b| {
      var step, next := if PossessiveAt(b, i) then 2 else 1, if PossessiveAt(b, i) then name else Pushed(name, b[i]);
      assert (a + b)[|a| + i] == b[i] && PossessiveAt(a + b, |a| + i) == PossessiveAt(b, i);
      FoldShift(a, b, i + step, next);
    }
  }

  /** What follows a word does not change how the word folds, unless it goes on with a letter or digit. */
  lemma {:induction false} FoldPrefix(a: string, t: string, i: nat, name: string)
    requires i <= |a| && (t == [] || !IsAlphanumeric(t[0]))
    ensures FoldFrom(a + t, i, name) == FoldFrom(a + t, |a|, FoldFrom(a, i, name))
    decreases |a| - i
  {
    if i < |a| {
      assert (a + t)[i] == a[i] && PossessiveAt(a + t, i) == PossessiveAt(a, i);
      if PossessiveAt(a, i) { FoldPrefix(a, t, i + 2, name); } else { FoldPrefix(a, t, i + 1, Pushed(name, a[i])); }
    }
  }

  lemma PossessiveFolds(owner: string, quote: char, rest: string)
    requires IsApostrophe(quote) && (rest == [] || !IsAlphanumeric(rest[0]))
    ensures FoldFrom(owner + [quote, 's'] + rest, 0, "") == FoldFrom(owner + rest, 0, "")
  {
    var own, s := FoldFrom(owner, 0, ""), [quote, 's'];
    var whole := owner + (s + rest);
    assert owner + s + rest == whole == (owner + s) + rest;
    FoldPrefix(owner, s + rest, 0, "");
    FoldPrefix(owner, rest, 0, "");
    assert PossessiveAt(whole, |owner|);
    FoldShift(owner + s, rest, 0, own);
    FoldShift(owner, rest, 0, own);
  }

  // ---- Words ----

  /** The maximal runs of letters and digits from `i` on, possessives left out, with `word` begun. */
  function Words(s: string, i: nat, word: string): seq<string>
    requires i <= |s|
    decreases |s| - i
  {
    if i == |s| then (if word == "" then [] else [word])
    else if PossessiveAt(s, i) then Words(s, i + 2, word)
    else if IsLower(s[i]) || IsDigit(s[i]) then Words(s, i + 1, word + [s[i]])
    else (if word == "" then [] else [word]) + Words(s, i + 1, "")
  }

  function Hyphenated(words: seq<string>): string {
    if words == [] then "" else if |words| == 1 then words[0] else words[0] + "-" + Hyphenated(words[1..])
  }

  /** Finished words, each with a hyphen after it. */
  function Finished(done: seq<string>): string { if done == [] then "" else done[0] + "-" + Finished(done[1..]) }

  predicate IsWord(w: string) { w != "" && forall c :: c in w ==> IsLower(c) || IsDigit(c) }

  predicate AllWords(done: seq<string>) { forall w :: w in done ==> IsWord(w) }

  lemma {:induction false} FinishedGrows(done: seq<string>, w: string)
    ensures Finished(done + [w]) == Finished(done) + w + "-"
  {
    if done == [] {
      assert [w][1..] == [];
    } else {
      FinishedGrows(done[1..], w);
      assert (done + [w])[1..] == done[1..] + [w] && (done + [w])[0] == done[0];
    }
  }

  lemma {:induction false} FinishedEnds(done: seq<string>)
    requires AllWords(done)
    ensures done != [] ==>
              && Finished(done) == Hyphenated(done) + "-"
              && Hyphenated(done) != "" && Hyphenated(done)[0] != '-'
              && Hyphenated(done)[|Hyphenated(done)| - 1] != '-'
  {
    if done != [] {
      var w := done[0];
      assert IsWord(w) && w[0] in w && w[|w| - 1] in w;
      if |done| > 1 { FinishedEnds(done[1..]); } else { assert done[1..] == []; }
    }
  }

  lemma {:induction false} HyphenatedEnds(done: seq<string>, word: string)
    ensures word != "" ==> Finished(done) + word == Hyphenated(done + [word])
  {
    if done != [] {
      HyphenatedEnds(done[1..], word);
      assert (done + [word])[1..] == done[1..] + [word] && (done + [word])[0] == done[0];
    }
  }

  /** A name half built: a hyphen in front if the text began with something else, the finished words, the one begun. */
  datatype Draft = Draft(lead: bool, done: seq<string>, word: string)

  function Front(lead: bool): string { if lead then "-" else "" }

  function Body(d: Draft): string { Finished(d.done) + d.word }

  function Text(d: Draft): string { Front(d.lead) + Body(d) }

  predicate IsDraft(d: Draft) { AllWords(d.done) && (d.word == "" || IsWord(d.word)) }

  function AllOf(d: Draft): seq<string> { d.done + (if d.word == "" then [] else [d.word]) }

  /** The draft with one more character. */
  function Drafted(d: Draft, c: char): Draft {
    if IsLower(c) || IsDigit(c) then d.(word := d.word + [c])
    else if d.word != "" then d.(done := d.done + [d.word], word := "")
    else if d.done == [] then d.(lead := true)
    else d
  }

  lemma DraftedText(d: Draft, c: char)
    requires IsDraft(d)
    ensures IsDraft(Drafted(d, c)) && Text(Drafted(d, c)) == Pushed(Text(d), c)
  {
    if IsLower(c) || IsDigit(c) {
      assert Text(d) + [c] == Front(d.lead) + (Finished(d.done) + (d.word + [c]));
    } else if d.word != "" {
      DraftedEnd(d);
    } else if d.done != [] {
      FinishedEnds(d.done);
      assert Text(d)[|Text(d)| - 1] == '-';
    }
  }

  lemma DraftedEnd(d: Draft)
    requires IsDraft(d) && d.word != ""
    ensures Text(d) != "" && Text(d)[|Text(d)| - 1] != '-'
    ensures Text(d.(done := d.done + [d.word], word := "")) == Text(d) + "-"
  {
    assert d.word[|d.word| - 1] in d.word;
    assert Text(d)[|Text(d)| - 1] == d.word[|d.word| - 1];
    FinishedGrows(d.done, d.word);
    assert Body(d.(done := d.done + [d.word], word := "")) == Body(d) + "-";
    assert Front(d.lead) + (Body(d) + "-") == Text(d) + "-";
  }

  /** The loop builds the words. */
  lemma {:induction false} FoldBuildsWords(s: string, i: nat, d: Draft) returns (e: Draft)
    requires i <= |s| && IsDraft(d)
    ensures IsDraft(e) && FoldFrom(s, i, Text(d)) == Text(e) && d.done + Words(s, i, d.word) == AllOf(e)
    decreases |s| - i
  {
    if i == |s| {
      e := d;
    } else if PossessiveAt(s, i) {
      e := FoldBuildsWords(s, i + 2, d);
    } else {
      DraftedText(d, s[i]);
      e := FoldBuildsWords(s, i + 1, Drafted(d, s[i]));
      WordsGoOn(s, i, d);
    }
  }

  lemma WordsGoOn(s: string, i: nat, d: Draft)
    requires i < |s| && !PossessiveAt(s, i)
    ensures var next := Drafted(d, s[i]); next.done + Words(s, i + 1, next.word) == d.done + Words(s, i, d.word)
  {
    var rest := Words(s, i + 1, "");
    assert d.done + ([d.word] + rest) == d.done + [d.word] + rest;
    assert [] + rest == rest;
  }

  lemma StripFront(lead: bool, body: string)
    requires body == "" || body[0] != '-'
    ensures TrimStart(Front(lead) + body) == body
  {
    if lead { assert ("-" + body)[1..] == body; } else { assert "" + body == body; }
  }

  lemma StripBack(x: string)
    requires x != "" && x[|x| - 1] != '-'
    ensures TrimEnd(x) == x && TrimEnd(x + "-") == x
  {
    assert (x + "-")[..|x|] == x;
  }

  lemma BodyIsHyphenated(d: Draft)
    requires IsDraft(d)
    ensures var body, h := Body(d), Hyphenated(AllOf(d));
            if AllOf(d) == [] then body == "" && h == ""
            else (body == h || body == h + "-") && h != "" && h[0] != '-' && h[|h| - 1] != '-'
  {
    FinishedEnds(AllOf(d));
    if d.word == "" {
      FinishedEnds(d.done);
      assert AllOf(d) == d.done && Finished(d.done) + d.word == Finished(d.done);
    } else {
      HyphenatedEnds(d.done, d.word);
    }
  }

  /** What is trimmed off such a name is the hyphen in front and the one behind. */
  lemma TrimBoth(lead: bool, body: string, h: string)
    requires if h == "" then body == "" else (body == h || body == h + "-") && h[0] != '-' && h[|h| - 1] != '-'
    ensures TrimEnd(TrimStart(Front(lead) + body)) == h
  {
    if h != "" {
      assert body[0] == h[0];
      StripBack(h);
    }
    StripFront(lead, body);
  }

  lemma TrimmedWords(d: Draft)
    requires IsDraft(d)
    ensures TrimEnd(TrimStart(Text(d))) == Hyphenated(AllOf(d))
  {
    BodyIsHyphenated(d);
    TrimBoth(d.lead, Body(d), Hyphenated(AllOf(d)));
  }

  /**
   * Before it is cut to length, the folded name is the words of the lowered text, in order, with one hyphen between
   * neighbours: nothing is lost, and what was apart stays apart.
   */
  lemma FoldedIsTheWords(raw: string)
    ensures TrimEnd(TrimStart(FoldFrom(LoweredAll(raw), 0, ""))) == Hyphenated(Words(LoweredAll(raw), 0, ""))
    ensures Folded(raw) == TrimEnd(Take(Hyphenated(Words(LoweredAll(raw), 0, "")), 63))
  {
    var start := Draft(false, [], "");
    assert Text(start) == "";
    var end := FoldBuildsWords(LoweredAll(raw), 0, start);
    TrimmedWords(end);
    assert [] + Words(LoweredAll(raw), 0, "") == Words(LoweredAll(raw), 0, "");
  }

  /** A possessive vanishes, straight or curly, in either case: `Alice's MacBook` becomes what `Alice MacBook` does. */
  lemma PossessiveVanishes(owner: string, quote: char, s: char, rest: string)
    requires IsApostrophe(quote) && Lowered(s) == 's' && (rest == [] || !IsAlphanumeric(rest[0]))
    ensures MeshForm(owner + [quote, s] + rest) == MeshForm(owner + rest)
  {
    assert LoweredAll(owner + [quote, s] + rest) == LoweredAll(owner) + [quote, 's'] + LoweredAll(rest);
    assert LoweredAll(owner + rest) == LoweredAll(owner) + LoweredAll(rest);
    PossessiveFolds(LoweredAll(owner), quote, LoweredAll(rest));
  }

  /**
   * Every name it produces is one it leaves alone, and it refuses only when nothing, or only a placeholder, is left.
   */
  lemma MeshFormIdempotent(raw: string)
    ensures MeshForm(raw).Some? ==> IsValid(MeshForm(raw).value) && MeshForm(MeshForm(raw).value) == MeshForm(raw)
    ensures MeshForm(raw).None? <==> Folded(raw) == "" || Folded(raw) in PLACEHOLDERS
  {
    FoldedIsClean(raw);
    if MeshForm(raw).Some? { MeshFormFixpoints(MeshForm(raw).value); }
  }
}
