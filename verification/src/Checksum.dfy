/** The Internet checksum (RFC 1071) as src/reject.rs computes it, and its incremental form (RFC 1624). */
module Checksum {
  import opened Packet

  function U16Bytes(n: u16): seq<u8> { [n / 0x100, n % 0x100] }

  function U32Bytes(n: u32): seq<u8> { U16Bytes(n / 0x1_0000) + U16Bytes(n % 0x1_0000) }

  lemma U16RoundTrip(p: seq<u8>, at: nat)
    requires at + 2 <= |p|
    ensures U16Bytes(ReadU16(p, at)) == p[at..at + 2]
  {
  }

  lemma U32RoundTrip(p: seq<u8>, at: nat)
    requires at + 4 <= |p|
    ensures U32Bytes(ReadU32(p, at)) == p[at..at + 4]
  {
    U16RoundTrip(p, at);
    U16RoundTrip(p, at + 2);
    assert p[at..at + 4] == p[at..at + 2] + p[at + 2..at + 4];
  }

  /** The 16-bit word at `i`, an odd last byte padded with zero. */
  function Word(b: seq<u8>, i: nat): u16
    requires i < |b|
  {
    if i + 1 < |b| then ReadU16(b, i) else b[i] as int * 0x100
  }

  function SumFrom(b: seq<u8>, i: nat): nat
    decreases |b| - i
  {
    if i >= |b| then 0 else Word(b, i) + SumFrom(b, i + 2)
  }

  /** Sum of the big-endian 16-bit words. */
  function WordSum(b: seq<u8>): nat { SumFrom(b, 0) }

  /** End-around carry: the one's-complement sum. 0 only for 0, so 0xffff stands for every other multiple of 0xffff. */
  function Carry(sum: nat): u16 {
    if sum == 0 then 0 else 1 + (sum - 1) % 0xffff
  }

  function Complement(sum: nat): u16 { 0xffff - Carry(sum) }

  /** What a receiver checks: the sum, checksum field included, is all ones. */
  predicate Verifies(sum: nat) { Carry(sum) == 0xffff }

  /** The pseudo-header both TCP over IPv4 and every IPv6 transport add. */
  function PseudoSum(src: seq<u8>, dst: seq<u8>, protocol: u8, len: nat): nat {
    WordSum(src) + WordSum(dst) + protocol + len
  }

  const U32_LIMIT := 0x1_0000_0000

  // ---- The loops ----

  lemma {:induction false} SumBound(b: seq<u8>, i: nat)
    ensures i <= |b| ==> SumFrom(b, i) <= 0xffff * ((|b| - i + 1) / 2)
    decreases |b| - i
  {
    if i < |b| { SumBound(b, i + 2); }
  }

  lemma CarryStep(sum: nat)
    ensures Carry(sum % 0x1_0000 + sum / 0x1_0000) == Carry(sum)
  {
  }

  /** How many times the carry wraps around. */
  function Wraps(sum: nat): nat { if sum == 0 then 0 else (sum - 1) / 0xffff }

  lemma CarryWraps(sum: nat)
    ensures Carry(sum) == sum - 0xffff * Wraps(sum)
  {
  }

  /** A sum verifies exactly when it is a positive multiple of 0xffff. */
  lemma VerifiesIffMultiple(sum: nat, k: int)
    requires sum > 0
    ensures sum == 0xffff * k ==> Verifies(sum)
    ensures Verifies(sum) ==> sum == 0xffff * (Wraps(sum) + 1)
  {
    CarryWraps(sum);
    if sum == 0xffff * k { assert Wraps(sum) == k - 1; }
  }

  /** `checksum_words`. A 32-bit accumulator cannot overflow on anything up to 128 KiB. */
  method ChecksumWords(bytes: seq<u8>) returns (sum: nat)
    ensures sum == WordSum(bytes)
    ensures |bytes| <= 0x2_0000 ==> sum < U32_LIMIT
  {
    SumBound(bytes, 0);
    sum := 0;
    var i := 0;
    while i + 1 < |bytes|
      invariant i <= |bytes|
      invariant sum + SumFrom(bytes, i) == WordSum(bytes)
      invariant |bytes| <= 0x2_0000 ==> sum < U32_LIMIT
    {
      sum := sum + ReadU16(bytes, i);
      i := i + 2;
    }
    if i < |bytes| { sum := sum + bytes[i] as int * 0x100; }
  }

  method CarryLoop(start: nat) returns (sum: u16)
    ensures sum == Carry(start)
  {
    var s := start;
    while s / 0x1_0000 != 0
      invariant Carry(s) == Carry(start)
      decreases s
    {
      CarryStep(s);
      s := s % 0x1_0000 + s / 0x1_0000;
    }
    sum := s;
  }

  /** `fold`. */
  method Fold(sum: nat) returns (r: u16)
    ensures r == Complement(sum)
  {
    var s := CarryLoop(sum);
    r := 0xffff - s;
  }

  // ---- Filling a checksum in ----

  function PutU16(b: seq<u8>, at: nat, n: u16): (r: seq<u8>)
    requires at + 2 <= |b|
    ensures |r| == |b| && ReadU16(r, at) == n
    ensures forall i :: 0 <= i < |b| && i != at && i != at + 1 ==> r[i] == b[i]
  {
    b[at := n / 0x100][at + 1 := n % 0x100]
  }

  lemma {:induction false} SumFromPut(b: seq<u8>, at: nat, n: u16, i: nat)
    requires at % 2 == 0 && i % 2 == 0 && at + 2 <= |b|
    ensures SumFrom(PutU16(b, at, n), i) == SumFrom(b, i) + (if i <= at then n - ReadU16(b, at) else 0)
    decreases |b| - i
  {
    if i < |b| {
      SumFromPut(b, at, n, i + 2);
      assert i != at ==> Word(PutU16(b, at, n), i) == Word(b, i);
    }
  }

  /** Replacing an aligned word moves the sum by the difference. */
  lemma WordSumPut(b: seq<u8>, at: nat, n: u16)
    requires at % 2 == 0 && at + 2 <= |b|
    ensures WordSum(PutU16(b, at, n)) == WordSum(b) - ReadU16(b, at) + n
  {
    SumFromPut(b, at, n, 0);
  }

  /** `b` with the checksum over it and `pseudo` written at `at`. */
  function Sealed(b: seq<u8>, at: nat, pseudo: nat): seq<u8>
    requires at + 2 <= |b|
  {
    PutU16(b, at, Complement(pseudo + WordSum(b)))
  }

  lemma SealedVerifies(b: seq<u8>, at: nat, pseudo: nat)
    requires at % 2 == 0 && at + 2 <= |b| && ReadU16(b, at) == 0
    ensures Verifies(pseudo + WordSum(Sealed(b, at, pseudo)))
  {
    var sum := pseudo + WordSum(b);
    WordSumPut(b, at, Complement(sum));
    CarryWraps(sum);
    VerifiesIffMultiple(sum + Complement(sum), Wraps(sum) + 1);
  }

  /** Sealing only adds to the sum: what was accumulated before the checksum was known is no larger. */
  lemma SealedSumGrows(b: seq<u8>, at: nat, pseudo: nat)
    requires at % 2 == 0 && at + 2 <= |b| && ReadU16(b, at) == 0
    ensures WordSum(b) <= WordSum(Sealed(b, at, pseudo))
  {
    WordSumPut(b, at, Complement(pseudo + WordSum(b)));
  }

  /** Addresses of either IP version and a body of up to 64 KiB: the accumulator stays within 32 bits. */
  lemma TransportSumFits(src: seq<u8>, dst: seq<u8>, protocol: u8, body: seq<u8>)
    requires |src| <= 16 && |dst| <= 16 && |body| <= 0x1_0000
    ensures PseudoSum(src, dst, protocol, |body|) + WordSum(body) < U32_LIMIT
  {
    SumBound(src, 0);
    SumBound(dst, 0);
    SumBound(body, 0);
  }

  // ---- Incremental update ----

  /** What `csum_replace2` must return, by RFC 1624. */
  function Replaced(check: u16, before: u16, after: u16): u16 {
    Complement((0xffff - check) + (0xffff - before) + after)
  }

  method CsumReplace2(check: u16, before: u16, after: u16) returns (r: u16)
    ensures r == Replaced(check, before, after)
  {
    var s := CarryLoop((0xffff - check as int) + (0xffff - before as int) + after);
    r := 0xffff - s;
  }

  /** A sum that verifies still does after one of its words and the checksum change together. */
  lemma ReplacedVerifies(rest: nat, check: u16, before: u16, after: u16)
    requires rest > 0 && Verifies(rest + before + check)
    ensures Verifies(rest + after + Replaced(check, before, after))
  {
    var m := Wraps(rest + before + check) + 1;
    var sum := (0xffff - check) + (0xffff - before) + after;
    VerifiesIffMultiple(rest + before + check, m);
    CarryWraps(sum);
    VerifiesIffMultiple(rest + after + Replaced(check, before, after), m - 1 + Wraps(sum));
  }

  /** Undoing the replacement restores every checksum but 0xffff. */
  lemma ReplaceRoundTrip(check: u16, before: u16, after: u16)
    ensures Replaced(Replaced(check, before, after), after, before) == check <==> check != 0xffff
    ensures Replaced(Replaced(0xffff, before, after), after, before) == 0
  {
    CarryWraps((0xffff - check as int) + (0xffff - before) + after);
    CarryWraps(0xffff - before as int + after);
  }
}
