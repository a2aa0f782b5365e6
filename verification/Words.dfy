/** Machine integers and the modular sequence-number comparisons of util.rs.

    A sequence number is a 32-bit word that wraps; the stream it numbers does not.
    A stream position is therefore an unbounded integer, and `Wrap` takes it to the
    word that travels in a header.  `Nearest` goes back: it is the one position
    congruent to a word that lies within half the number space of a reference.
  */
module Words {
  type u8 = x: int | 0 <= x < 0x100
  type u16 = x: int | 0 <= x < 0x1_0000
  type u32 = x: int | 0 <= x < 0x1_0000_0000

  datatype Option<+T> = None | Some(value: T)

  function Min(a: int, b: int): int { if a <= b then a else b }

  function Max(a: int, b: int): int { if a >= b then a else b }

  /** Vec::remove: the rest moves up. */
  function Without<T>(s: seq<T>, i: nat): (r: seq<T>)
    requires i < |s|
    ensures |r| == |s| - 1
  {
    s[..i] + s[i + 1..]
  }

  // ---------- wrap-around arithmetic ----------

  function Wrap(position: int): u32 { position % 0x1_0000_0000 }

  function WrappingAdd(a: u32, b: int): u32 { (a + b) % 0x1_0000_0000 }

  function WrappingSub(a: u32, b: u32): u32 { (a - b) % 0x1_0000_0000 }

  predicate SeqGt(a: u32, b: u32) {
    var diff := WrappingSub(a, b);
    diff < 0x8000_0000 && diff != 0
  }

  predicate SeqLt(a: u32, b: u32) { SeqGt(b, a) }

  predicate SeqLe(a: u32, b: u32) { !SeqGt(a, b) }

  predicate SeqGe(a: u32, b: u32) { !SeqGt(b, a) }

  function WrappingMax(a: u32, b: u32): u32 { if SeqGt(a, b) then a else b }

  // ---------- words against unbounded positions ----------

  /** The position congruent to `word` in [reference - 2^31, reference + 2^31). */
  function Nearest(reference: int, word: u32): (position: int)
    ensures Wrap(position) == word
    ensures reference - 0x8000_0000 <= position < reference + 0x8000_0000
  {
    reference - 0x8000_0000 + (word - reference + 0x8000_0000) % 0x1_0000_0000
  }

  lemma NearestIsUnique(reference: int, position: int)
    requires reference - 0x8000_0000 <= position < reference + 0x8000_0000
    ensures Nearest(reference, Wrap(position)) == position
  {}

  lemma WrapIsInjectiveNearby(p: int, q: int)
    requires -0x1_0000_0000 < p - q < 0x1_0000_0000
    ensures Wrap(p) == Wrap(q) <==> p == q
  {}

  lemma WrapPeriodic(p: int, k: int)
    ensures Wrap(p + k * 0x1_0000_0000) == Wrap(p)
  {}

  lemma WrapAdd(p: int, n: int)
    ensures WrappingAdd(Wrap(p), n) == Wrap(p + n)
  {
    WrapPeriodic(p + n, -(p / 0x1_0000_0000));
  }

  lemma WrapSub(p: int, q: int)
    ensures WrappingSub(Wrap(p), Wrap(q)) == Wrap(p - q)
  {
    WrapPeriodic(p - q, q / 0x1_0000_0000 - p / 0x1_0000_0000);
  }

  /** The bridge: closer than half the number space, every comparison on words is
      the comparison on positions. */
  lemma SeqCompareIsOrder(p: int, q: int)
    requires -0x8000_0000 < p - q < 0x8000_0000
    ensures SeqGt(Wrap(p), Wrap(q)) <==> p > q
    ensures SeqLt(Wrap(p), Wrap(q)) <==> p < q
    ensures SeqLe(Wrap(p), Wrap(q)) <==> p <= q
    ensures SeqGe(Wrap(p), Wrap(q)) <==> p >= q
    ensures WrappingMax(Wrap(p), Wrap(q)) == Wrap(Max(p, q))
  {
    WrapSub(p, q);
    WrapSub(q, p);
    WrapIsInjectiveNearby(p, q);
  }

  /** ... and half the number space is exactly how far the bridge reaches: among
      positions less than 2^32 apart the comparisons agree with the order in both
      directions if and only if the distance is below 2^31. */
  lemma SeqCompareReach(p: int, q: int)
    requires -0x1_0000_0000 < p - q < 0x1_0000_0000
    ensures (&& (SeqGt(Wrap(p), Wrap(q)) <==> p > q)
             && (SeqGt(Wrap(q), Wrap(p)) <==> q > p))
            <==> -0x8000_0000 < p - q < 0x8000_0000
  {
    WrapSub(p, q);
    WrapSub(q, p);
  }

  /** The wrapped distance of two words, as a distance of positions. */
  lemma WrapDistance(a: u32, b: u32)
    ensures Wrap(a + WrappingSub(b, a)) == b
    ensures WrappingAdd(a, WrappingSub(b, a)) == b
  {
    WrapAdd(a, b - a);
  }

  lemma WrappingAddTwice(a: u32, n: int, m: int)
    ensures WrappingAdd(WrappingAdd(a, n), m) == WrappingAdd(a, n + m)
  {
    WrapAdd(a + n, m);
  }

  /** A word that the wrapped comparisons place after `una` and not after `una + length`
      is at most `length` beyond `una`. */
  lemma BetweenIsWithin(una: u32, length: nat, word: u32)
    requires length < 0x8000_0000
    requires SeqLt(una, word) && SeqLe(word, WrappingAdd(una, length))
    ensures 0 < WrappingSub(word, una) <= length
    ensures WrappingAdd(una, length) == WrappingAdd(word, length - WrappingSub(word, una))
  {
    var t := WrappingSub(word, una);
    WrapDistance(una, word);
    SeqCompareIsOrder(una + t, una + length);
    WrappingAddTwice(una, t, length - t);
  }
}
