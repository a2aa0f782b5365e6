/** The Internet checksum of util.rs (RFC 1071).

    `Canonical` is the meaning of the carry-folding loop: the one representative of a
    sum modulo 0xffff that lies in 1..0xffff, or 0 for the sum 0.
  */
module Checksum {
  import opened Words
  import opened Parts

  const MAX_SLICE := 0x2_0000

  function WordAt(s: seq<u8>, i: nat): nat
    requires i < |s|
  {
    0x100 * (s[i] as int) + if i + 1 < |s| then s[i + 1] else 0
  }

  /** The sum of the big-endian words of a byte string, an odd last byte padded with zero. */
  function WordSum(s: seq<u8>): nat {
    if s == [] then 0 else WordAt(s, 0) + if |s| >= 2 then WordSum(s[2..]) else 0
  }

  function Canonical(n: nat): u16 {
    if n == 0 then 0 else (n - 1) % 0xffff + 1
  }

  function OnesComp(seed: u16, s: seq<u8>): u16 { Canonical(seed + WordSum(s)) }

  // ---------- the representative ----------

  /** Canonical: 0 only for 0, otherwise the unique congruent value in 1..0xffff. */
  lemma CanonicalIsUnique(n: nat, r: u16)
    ensures r == Canonical(n) <==> if n == 0 then r == 0 else r > 0 && (n - r) % 0xffff == 0
  {}

  lemma Periodic(x: int, k: int)
    ensures (x + k * 0xffff) % 0xffff == x % 0xffff
  {}

  lemma FoldKeepsCanonical(c: nat)
    requires c > 0xffff
    ensures c % 0x1_0000 + c / 0x1_0000 < c
    ensures Canonical(c % 0x1_0000 + c / 0x1_0000) == Canonical(c)
  {
    Periodic(c % 0x1_0000 + c / 0x1_0000 - 1, c / 0x1_0000);
  }

  /** Folding early does not change the result. */
  lemma CanonicalAbsorbs(x: nat, y: nat)
    ensures Canonical(Canonical(x) + y) == Canonical(x + y)
  {
    if x > 0 {
      Periodic(Canonical(x) + y - 1, (x - 1) / 0xffff);
    }
  }

  lemma CanonicalOfWord(w: u16)
    ensures Canonical(w) == w
  {}

  // ---------- sums of byte strings ----------

  lemma {:induction false} WordSumConcat(a: seq<u8>, b: seq<u8>)
    requires |a| % 2 == 0
    ensures WordSum(a + b) == WordSum(a) + WordSum(b)
  {
    if a == [] {
      assert a + b == b;
    } else {
      WordSumConcat(a[2..], b);
      assert (a + b)[2..] == a[2..] + b;
    }
  }

  lemma {:induction false} WordSumBound(s: seq<u8>)
    ensures WordSum(s) <= (|s| + 1) / 2 * 0xffff
  {
    if |s| >= 2 {
      WordSumBound(s[2..]);
    }
  }

  lemma WordSumOneMore(s: seq<u8>, i: nat)
    requires i + 1 < |s| && i % 2 == 0
    ensures WordSum(s[..i + 2]) == WordSum(s[..i]) + WordAt(s, i)
  {
    WordSumConcat(s[..i], s[i..i + 2]);
    assert s[..i] + s[i..i + 2] == s[..i + 2];
    assert s[i..i + 2][2..] == [];
  }

  lemma WordSumLastOdd(s: seq<u8>)
    requires |s| % 2 == 1
    ensures WordSum(s) == WordSum(s[..|s| - 1]) + 0x100 * (s[|s| - 1] as int)
  {
    var i := |s| - 1;
    WordSumConcat(s[..i], s[i..]);
    assert s[..i] + s[i..] == s;
  }

  // ---------- the loop ----------

  /** compute_ones_comp; the type of `checksum` says that the u32 accumulator never overflows. */
  method ComputeOnesComp(inChecksum: u16, slice: seq<u8>) returns (r: u16)
    requires 0 < |slice| <= MAX_SLICE
    ensures r == OnesComp(inChecksum, slice)
  {
    var checksum: u32 := inChecksum;
    var i := 0;
    while i < |slice| - 1
      invariant 0 <= i <= |slice| && i % 2 == 0
      invariant checksum == inChecksum + WordSum(slice[..i])
    {
      WordSumOneMore(slice, i);
      WordSumBound(slice[..i + 2]);
      checksum := checksum + (0x100 * (slice[i] as int) + slice[i + 1]);
      i := i + 2;
    }
    if i < |slice| {
      assert i == |slice| - 1;
      WordSumLastOdd(slice);
      WordSumBound(slice);
      checksum := checksum + 0x100 * (slice[i] as int);
    } else {
      assert slice[..i] == slice;
    }
    while checksum > 0xffff
      invariant Canonical(checksum) == OnesComp(inChecksum, slice)
    {
      FoldKeepsCanonical(checksum);
      checksum := checksum % 0x1_0000 + checksum / 0x1_0000;
    }
    CanonicalOfWord(checksum);
    r := checksum;
  }

  method ComputeChecksum(slice: seq<u8>) returns (r: u16)
    requires 0 < |slice| <= MAX_SLICE
    ensures r == 0xffff - OnesComp(0, slice)
  {
    var sum := ComputeOnesComp(0, slice);
    r := 0xffff - sum;
  }

  // ---------- how long a slice may be ----------

  function AllOnes(n: nat): (s: seq<u8>)
    ensures |s| == n
  {
    seq(n, i => 0xff)
  }

  lemma {:induction false} AllOnesSum(n: nat)
    ensures WordSum(AllOnes(n)) == n / 2 * 0xffff + n % 2 * 0xff00
    decreases n
  {
    if n >= 2 {
      AllOnesSum(n - 2);
      assert AllOnes(n)[2..] == AllOnes(n - 2);
    }
  }

  predicate FitsAccumulator(seed: u16, s: seq<u8>) { seed + WordSum(s) <= 0xffff_ffff }

  /** The bound is tight: 0x20000 is the largest length for which no seed and no contents
      overflow the 32-bit accumulator. */
  lemma AccumulatorFitsIff(n: nat)
    ensures (forall seed: u16, s: seq<u8> :: |s| == n ==> FitsAccumulator(seed, s)) <==> n <= MAX_SLICE
  {
    forall seed: u16, s: seq<u8> | |s| == n && n <= MAX_SLICE ensures FitsAccumulator(seed, s) {
      WordSumBound(s);
    }
    if n > MAX_SLICE {
      AllOnesSum(n);
      assert !FitsAccumulator(0xffff, AllOnes(n));
    }
  }

  // ---------- fragments ----------

  /** The loop of compute_buffer_ones_comp over the fragments of a buffer. */
  function PartsOnesComp(seed: u16, parts: seq<seq<u8>>): u16
    decreases |parts|
  {
    if parts == [] then seed else PartsOnesComp(OnesComp(seed, parts[0]), parts[1..])
  }

  /** Summing an even part first and continuing from its folded sum is exact. */
  lemma OnesCompChains(seed: u16, a: seq<u8>, b: seq<u8>)
    requires |a| % 2 == 0
    ensures OnesComp(OnesComp(seed, a), b) == OnesComp(seed, a + b)
  {
    WordSumConcat(a, b);
    CanonicalAbsorbs(seed + WordSum(a), WordSum(b));
  }

  /** FRAGMENTS: with even parts before the last, the sum over the parts is the sum over the
      bytes they hold together. */
  lemma {:induction false} PartsSumFlat(seed: u16, parts: seq<seq<u8>>)
    requires EvenButLast(parts)
    ensures PartsOnesComp(seed, parts) == OnesComp(seed, Flatten(parts))
    decreases |parts|
  {
    if parts == [] {
      CanonicalOfWord(seed);
    } else if |parts| == 1 {
      FlattenOne(parts[0]);
      assert parts == [parts[0]];
      assert PartsOnesComp(OnesComp(seed, parts[0]), parts[1..]) == OnesComp(seed, parts[0]);
    } else {
      PartsSumFlat(OnesComp(seed, parts[0]), parts[1..]);
      OnesCompChains(seed, parts[0], Flatten(parts[1..]));
    }
  }

  /** ... and the evenness is needed. */
  lemma OddPartsDiffer()
    ensures PartsOnesComp(0, [[1], [2]]) == 0x300 && OnesComp(0, Flatten([[1], [2]])) == 0x102
  {
    assert Flatten([[1], [2]]) == [1, 2];
    assert [1, 2][2..] == [];
    assert [[1], [2]][1..] == [[2]] && [[2]][1..] == [];
  }

  // ---------- detecting damage ----------

  /** The receiver's test: the sum over everything, checksum included, complements to zero. */
  predicate Accepts(seed: u16, s: seq<u8>) { OnesComp(seed, s) == 0xffff }

  lemma AcceptsIffMultiple(seed: u16, s: seq<u8>)
    ensures Accepts(seed, s) <==> seed + WordSum(s) > 0 && (seed + WordSum(s)) % 0xffff == 0
  {}

  function ReplaceWord(s: seq<u8>, i: nat, w: u16): (r: seq<u8>)
    requires i + 1 < |s|
    ensures |r| == |s|
  {
    s[i := w / 0x100][i + 1 := w % 0x100]
  }

  lemma ReplaceWordSum(s: seq<u8>, i: nat, w: u16)
    requires i % 2 == 0 && i + 1 < |s|
    ensures WordSum(ReplaceWord(s, i, w)) == WordSum(s) - WordAt(s, i) + w
  {
    var s' := ReplaceWord(s, i, w);
    WordSumAround(s, i);
    WordSumAround(s', i);
    assert s'[..i] == s[..i] && s'[i + 2..] == s[i + 2..];
  }

  lemma WordSumAround(s: seq<u8>, i: nat)
    requires i % 2 == 0 && i + 1 < |s|
    ensures WordSum(s) == WordSum(s[..i]) + WordAt(s, i) + WordSum(s[i + 2..])
  {
    WordSumOneMore(s, i);
    WordSumConcat(s[..i + 2], s[i + 2..]);
    assert s[..i + 2] + s[i + 2..] == s;
  }

  /** DETECTION: of an accepted packet with one aligned word replaced, the receiver accepts
      exactly those whose new word is congruent to the old one modulo 0xffff (and that are not
      zero altogether). */
  lemma DamageDetectedIff(seed: u16, s: seq<u8>, i: nat, w: u16)
    requires Accepts(seed, s) && i % 2 == 0 && i + 1 < |s|
    ensures Accepts(seed, ReplaceWord(s, i, w)) <==>
              (w - WordAt(s, i)) % 0xffff == 0 && seed + WordSum(ReplaceWord(s, i, w)) > 0
  {
    ReplaceWordSum(s, i, w);
    AcceptsIffMultiple(seed, s);
    AcceptsIffMultiple(seed, ReplaceWord(s, i, w));
    var n := seed + WordSum(s);
    Periodic(w - WordAt(s, i), n / 0xffff);
  }

  /** A checksum computed over zero in its aligned place from one pseudo header is accepted with
      another exactly if their word sums are congruent. */
  lemma AcceptedWithSeed(w: nat, v: nat, s: seq<u8>, i: nat)
    requires w > 0 && v > 0 && i % 2 == 0 && i + 1 < |s| && WordAt(s, i) == 0
    ensures Accepts(Canonical(v), ReplaceWord(s, i, 0xffff - OnesComp(Canonical(w), s))) <==> (v - w) % 0xffff == 0
  {
    var c := 0xffff - OnesComp(Canonical(w), s);
    ReplaceWordSum(s, i, c);
    AcceptsIffMultiple(Canonical(v), ReplaceWord(s, i, c));
    CongruentSums(w, v, WordSum(s));
  }

  lemma CongruentSums(w: nat, v: nat, n: nat)
    requires w > 0 && v > 0
    ensures (Canonical(v) + n + 0xffff - Canonical(Canonical(w) + n)) % 0xffff == (v - w) % 0xffff
  {
    var x := Canonical(w) + n;
    var a, b, d := (v - 1) / 0xffff, (w - 1) / 0xffff, (x - 1) / 0xffff;
    assert Canonical(v) == v - a * 0xffff && Canonical(w) == w - b * 0xffff && Canonical(x) == x - d * 0xffff;
    Periodic(v - w, d + b - a + 1);
  }

  /** GENERATE AND VALIDATE: a checksum computed over zero in its aligned place makes the
      receiver accept. */
  lemma ChecksumMakesAccepted(seed: u16, s: seq<u8>, i: nat)
    requires i % 2 == 0 && i + 1 < |s| && WordAt(s, i) == 0
    ensures Accepts(seed, ReplaceWord(s, i, 0xffff - OnesComp(seed, s)))
  {
    var n := seed + WordSum(s);
    var c := 0xffff - OnesComp(seed, s);
    ReplaceWordSum(s, i, c);
    AcceptsIffMultiple(seed, ReplaceWord(s, i, c));
    CanonicalIsUnique(n, Canonical(n));
    if n > 0 {
      Periodic(n - Canonical(n), 1);
    }
  }
}
