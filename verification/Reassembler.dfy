/** The reassembler of tcp.rs: an expected sequence number and an unsorted list of
    early segments.

    `TCPReassembler` is the object whose fields the source updates; `Add` on
    `Reassembly` values is its specification.  The theorems are about streams: a
    stream `s` starts at an unbounded position `base`, and every segment handed to
    the reassembler is a piece of that stream.
  */
module Reassembler {
  import opened Words

  datatype Entry = Entry(seqNum: u32, data: seq<u8>)

  datatype Reassembly = Reassembly(nextSequence: u32, outOfOrder: seq<Entry>)

  // ---------- specification functions ----------

  /** The rescan of the early segments after one that was in order: `seqNum` is its
      sequence number, `r` the list and expected number so far, `i` the scan index
      and `packet` the data assembled so far. */
  function Drain(r: Reassembly, seqNum: u32, packet: seq<u8>, i: nat): (Reassembly, seq<u8>)
    decreases |r.outOfOrder|, |r.outOfOrder| - i
  {
    if i >= |r.outOfOrder| then (r, packet)
    else
      var e := r.outOfOrder[i];
      var rest := Without(r.outOfOrder, i);
      if SeqGt(seqNum, e.seqNum) then
        Drain(r.(outOfOrder := rest), seqNum, packet, i)
      else if e.seqNum == r.nextSequence then
        Drain(Reassembly(WrappingAdd(r.nextSequence, |e.data|), rest), seqNum, packet + e.data, 0)
      else
        Drain(r, seqNum, packet, i + 1)
  }

  function Add(r: Reassembly, packet: seq<u8>, seqNum: u32): (Reassembly, Option<seq<u8>>) {
    if seqNum == r.nextSequence then
      var r1 := r.(nextSequence := WrappingAdd(r.nextSequence, |packet|));
      var (r2, data) := Drain(r1, seqNum, packet, 0);
      (r2, Some(data))
    else
      (r.(outOfOrder := r.outOfOrder + [Entry(seqNum, packet)]), None)
  }

  // ---------- the object ----------

  /** What a rescan returns starts with what it was given. */
  lemma {:induction false} DrainExtends(r: Reassembly, seqNum: u32, packet: seq<u8>, i: nat)
    requires i <= |r.outOfOrder|
    ensures packet <= Drain(r, seqNum, packet, i).1
    decreases |r.outOfOrder|, |r.outOfOrder| - i
  {
    if i < |r.outOfOrder| {
      var e, rest := r.outOfOrder[i], Without(r.outOfOrder, i);
      if SeqGt(seqNum, e.seqNum) {
        DrainExtends(r.(outOfOrder := rest), seqNum, packet, i);
      } else if e.seqNum == r.nextSequence {
        DrainExtends(Reassembly(WrappingAdd(r.nextSequence, |e.data|), rest), seqNum, packet + e.data, 0);
      } else {
        DrainExtends(r, seqNum, packet, i + 1);
      }
    }
  }

  class TCPReassembler {
    var nextSequence: u32
    var outOfOrder: seq<Entry>

    function State(): Reassembly
      reads this
    {
      Reassembly(nextSequence, outOfOrder)
    }

    constructor ()
      ensures State() == Reassembly(0, [])
    {
      nextSequence := 0;
      outOfOrder := [];
    }

    method SetNextExpect(seqNum: u32)
      modifies this
      ensures State() == old(State()).(nextSequence := seqNum)
    {
      nextSequence := seqNum;
    }

    method AddPacket(packet: seq<u8>, seqNum: u32) returns (assembled: Option<seq<u8>>)
      modifies this
      ensures (State(), assembled) == Add(old(State()), packet, seqNum)
    {
      if seqNum == nextSequence {
        nextSequence := WrappingAdd(nextSequence, |packet|);
        var data := packet;
        var i := 0;
        while i < |outOfOrder|
          invariant 0 <= i <= |outOfOrder|
          invariant Drain(State(), seqNum, data, i)
                 == Drain(old(State()).(nextSequence := WrappingAdd(seqNum, |packet|)), seqNum, packet, 0)
          decreases |outOfOrder|, |outOfOrder| - i
        {
          if SeqGt(seqNum, outOfOrder[i].seqNum) {
            outOfOrder := Without(outOfOrder, i);
          } else if outOfOrder[i].seqNum == nextSequence {
            var early := outOfOrder[i];
            outOfOrder := Without(outOfOrder, i);
            nextSequence := WrappingAdd(nextSequence, |early.data|);
            data := data + early.data;
            i := 0;
          } else {
            i := i + 1;
          }
        }
        assembled := Some(data);
      } else {
        outOfOrder := outOfOrder + [Entry(seqNum, packet)];
        assembled := None;
      }
    }
  }

  // ---------- streams ----------

  /** The bytes of the stream between two positions. */
  function Piece(s: seq<u8>, base: int, from: int, upto: int): (r: seq<u8>)
    requires base <= from <= upto <= base + |s|
    ensures |r| == upto - from
  {
    s[from - base..upto - base]
  }

  ghost predicate IsPiece(s: seq<u8>, base: int, from: int, data: seq<u8>) {
    && base <= from && from + |data| <= base + |s|
    && data == Piece(s, base, from, from + |data|)
  }

  lemma PiecesJoin(s: seq<u8>, base: int, from: int, mid: int, upto: int)
    requires base <= from <= mid <= upto <= base + |s|
    ensures Piece(s, base, from, mid) + Piece(s, base, mid, upto) == Piece(s, base, from, upto)
  {}

  /** A stored early segment, judged from the delivered position `next`: it holds the
      stream's bytes at its own position, which is less than 2^31 behind, at most
      `ahead` beyond, and never exactly the one awaited. */
  ghost predicate GoodEntry(e: Entry, s: seq<u8>, base: int, next: int, ahead: nat, maxLen: nat) {
    var p := Nearest(next, e.seqNum);
    && IsPiece(s, base, p, e.data)
    && next - 0x8000_0000 < p <= next + ahead && p != next
    && |e.data| <= maxLen
  }

  /** The reassembler holds `next` as its expected position in the stream. */
  ghost predicate Tracks(r: Reassembly, s: seq<u8>, base: int, next: int, ahead: nat, maxLen: nat) {
    && ahead + maxLen < 0x8000_0000
    && base <= next <= base + |s|
    && r.nextSequence == Wrap(next)
    && forall e :: e in r.outOfOrder ==> GoodEntry(e, s, base, next, ahead, maxLen)
  }

  /** The rescan from `first` (the position of the segment that was in order): what has
      been assembled runs from `first` to `next`, and positions of stored segments are
      still judged from `first`. */
  ghost predicate Draining(r: Reassembly, s: seq<u8>, base: int, first: int, next: int, packet: seq<u8>,
                           ahead: nat, maxLen: nat)
  {
    && ahead + maxLen < 0x8000_0000
    && base <= first <= next <= base + |s| && next <= first + ahead + maxLen
    && r.nextSequence == Wrap(next)
    && packet == Piece(s, base, first, next)
    && forall e :: e in r.outOfOrder ==>
        var p := Nearest(first, e.seqNum);
        && IsPiece(s, base, p, e.data)
        && first - 0x8000_0000 < p <= first + ahead
        && |e.data| <= maxLen
  }

  /** The entries before the scan index have been seen and are neither old nor due. */
  ghost predicate Scanned(r: Reassembly, seqNum: u32, i: nat) {
    i <= |r.outOfOrder| &&
    forall j :: 0 <= j < i ==> !SeqGt(seqNum, r.outOfOrder[j].seqNum) && r.outOfOrder[j].seqNum != r.nextSequence
  }

  /** Every early segment is either kept or ends up behind the expected position. */
  ghost predicate Accounted(before: seq<Entry>, after: seq<Entry>, first: int, next: int) {
    forall e :: e in before && |e.data| > 0 ==> e in after || Nearest(first, e.seqNum) < next
  }

  /** `upto` can be reached from `from` by laying early segments end to end. */
  ghost predicate Chained(entries: seq<Entry>, first: int, from: int, upto: int)
    requires from <= upto
    decreases upto - from
  {
    from == upto ||
    exists e :: e in entries && |e.data| > 0 && Nearest(first, e.seqNum) == from
             && from + |e.data| <= upto && Chained(entries, first, from + |e.data|, upto)
  }

  lemma {:induction false} ChainedMonotone(small: seq<Entry>, large: seq<Entry>, first: int, from: int, upto: int)
    requires from <= upto && Chained(small, first, from, upto)
    requires forall e :: e in small ==> e in large
    ensures Chained(large, first, from, upto)
    decreases upto - from
  {
    if from != upto {
      var e :| e in small && |e.data| > 0 && Nearest(first, e.seqNum) == from
             && from + |e.data| <= upto && Chained(small, first, from + |e.data|, upto);
      ChainedMonotone(small, large, first, from + |e.data|, upto);
      assert e in large;
    }
  }

  lemma WithoutKeepsOthers<T>(s: seq<T>, i: nat)
    requires i < |s|
    ensures forall x :: x in s <==> x == s[i] || x in Without(s, i)
  {
    forall x | x in s ensures x == s[i] || x in Without(s, i) {
      var k :| 0 <= k < |s| && s[k] == x;
      assert k < i ==> Without(s, i)[k] == x;
      assert k > i ==> Without(s, i)[k - 1] == x;
    }
  }

  /** What the rescan achieves from `r` and `next` on, ending in `r'` at `next'`. */
  ghost predicate Drained(r: Reassembly, r': Reassembly, first: int, next: int, next': int) {
    && next <= next'
    && Scanned(r', Wrap(first), |r'.outOfOrder|)
    && (forall e :: e in r'.outOfOrder ==> e in r.outOfOrder)
    && Accounted(r.outOfOrder, r'.outOfOrder, first, next')
    && Chained(r.outOfOrder, first, next, next')
  }

  /** Scanning one entry fewer achieves the same, if the entry was behind already. */
  lemma DrainedWithOld(r: Reassembly, i: nat, r': Reassembly, first: int, next: int, next': int)
    requires i < |r.outOfOrder|
    requires Drained(r.(outOfOrder := Without(r.outOfOrder, i)), r', first, next, next')
    requires Nearest(first, r.outOfOrder[i].seqNum) < next
    ensures Drained(r, r', first, next, next')
  {
    WithoutKeepsOthers(r.outOfOrder, i);
    ChainedMonotone(Without(r.outOfOrder, i), r.outOfOrder, first, next, next');
  }

  /** ... or if the entry is the next link of the chain. */
  lemma DrainedWithDue(r: Reassembly, i: nat, r1: Reassembly, r': Reassembly, first: int, next: int, next': int)
    requires i < |r.outOfOrder| && r1.outOfOrder == Without(r.outOfOrder, i)
    requires Nearest(first, r.outOfOrder[i].seqNum) == next
    requires Drained(r1, r', first, next + |r.outOfOrder[i].data|, next')
    ensures Drained(r, r', first, next, next')
  {
    var e := r.outOfOrder[i];
    WithoutKeepsOthers(r.outOfOrder, i);
    ChainedMonotone(r1.outOfOrder, r.outOfOrder, first, next + |e.data|, next');
    assert e in r.outOfOrder;
  }

  /** What the rescan does: it assembles one contiguous piece, by laying early segments
      end to end, and leaves only entries that are neither old nor due. */
  lemma {:induction false} DrainAssembles(r: Reassembly, s: seq<u8>, base: int, first: int, next: int,
                                          packet: seq<u8>, i: nat, ahead: nat, maxLen: nat)
      returns (next': int)
    requires Draining(r, s, base, first, next, packet, ahead, maxLen)
    requires Scanned(r, Wrap(first), i)
    ensures Draining(Drain(r, Wrap(first), packet, i).0, s, base, first, next',
                     Drain(r, Wrap(first), packet, i).1, ahead, maxLen)
    ensures Drained(r, Drain(r, Wrap(first), packet, i).0, first, next, next')
    decreases |r.outOfOrder|, |r.outOfOrder| - i
  {
    if i == |r.outOfOrder| {
      next' := next;
    } else {
      var e := r.outOfOrder[i];
      var p := Nearest(first, e.seqNum);
      var rest := Without(r.outOfOrder, i);
      WithoutKeepsOthers(r.outOfOrder, i);
      SeqCompareIsOrder(first, p);
      if SeqGt(Wrap(first), e.seqNum) {
        var r1 := r.(outOfOrder := rest);
        next' := DrainAssembles(r1, s, base, first, next, packet, i, ahead, maxLen);
        DrainedWithOld(r, i, Drain(r1, Wrap(first), packet, i).0, first, next, next');
      } else if e.seqNum == r.nextSequence {
        DueIsNext(r, s, base, first, next, packet, i, ahead, maxLen);
        var r1 := Reassembly(WrappingAdd(r.nextSequence, |e.data|), rest);
        next' := DrainAssembles(r1, s, base, first, next + |e.data|, packet + e.data, 0, ahead, maxLen);
        DrainedWithDue(r, i, r1, Drain(r1, Wrap(first), packet + e.data, 0).0, first, next, next');
      } else {
        next' := DrainAssembles(r, s, base, first, next, packet, i + 1, ahead, maxLen);
      }
    }
  }

  /** An early segment that carries the expected number is the stream's next piece. */
  lemma DueIsNext(r: Reassembly, s: seq<u8>, base: int, first: int, next: int, packet: seq<u8>, i: nat,
                  ahead: nat, maxLen: nat)
    requires Draining(r, s, base, first, next, packet, ahead, maxLen)
    requires i < |r.outOfOrder| && r.outOfOrder[i].seqNum == r.nextSequence
    requires !SeqGt(Wrap(first), r.outOfOrder[i].seqNum)
    ensures var e := r.outOfOrder[i];
            && Nearest(first, e.seqNum) == next
            && Draining(Reassembly(WrappingAdd(r.nextSequence, |e.data|), Without(r.outOfOrder, i)),
                        s, base, first, next + |e.data|, packet + e.data, ahead, maxLen)
  {
    var e := r.outOfOrder[i];
    assert e in r.outOfOrder;
    var p := Nearest(first, e.seqNum);
    SeqCompareIsOrder(first, p);
    WrapIsInjectiveNearby(p, next);
    WrapAdd(next, |e.data|);
    PiecesJoin(s, base, first, next, next + |e.data|);
    WithoutKeepsOthers(r.outOfOrder, i);
  }

  /** A segment of the stream as the network hands it over: its true position and data. */
  datatype Arrival = Arrival(position: int, data: seq<u8>)

  /** The network's promise for one arrival: it is a piece of the stream that is less
      than 2^31 old and at most `ahead` early. */
  ghost predicate Admissible(a: Arrival, s: seq<u8>, base: int, next: int, ahead: nat, maxLen: nat) {
    && IsPiece(s, base, a.position, a.data)
    && next - 0x8000_0000 < a.position <= next + ahead
    && |a.data| <= maxLen
  }

  /** One call with the awaited segment: what comes back is exactly the stream from the old
      expected position to the new, and no early segment that is still ahead is lost. */
  lemma InOrderPacket(r: Reassembly, s: seq<u8>, base: int, next: int, a: Arrival, ahead: nat, maxLen: nat)
      returns (r': Reassembly, next': int)
    requires Tracks(r, s, base, next, ahead, maxLen)
    requires Admissible(a, s, base, next, ahead, maxLen) && a.position == next
    ensures next + |a.data| <= next' <= base + |s| && next' <= next + ahead + maxLen
    ensures Add(r, a.data, Wrap(a.position)) == (r', Some(Piece(s, base, next, next')))
    ensures Tracks(r', s, base, next', ahead, maxLen)
    ensures forall e :: e in r'.outOfOrder ==> e in r.outOfOrder && Nearest(next', e.seqNum) == Nearest(next, e.seqNum)
    ensures Accounted(r.outOfOrder, r'.outOfOrder, next, next')
    ensures Chained(r.outOfOrder, next, next + |a.data|, next')
  {
    var r1 := r.(nextSequence := WrappingAdd(r.nextSequence, |a.data|));
    WrapAdd(next, |a.data|);
    next' := DrainAssembles(r1, s, base, next, next + |a.data|, a.data, 0, ahead, maxLen);
    r' := Drain(r1, Wrap(next), a.data, 0).0;
    forall e | e in r'.outOfOrder
      ensures GoodEntry(e, s, base, next', ahead, maxLen) && Nearest(next', e.seqNum) == Nearest(next, e.seqNum)
    {
      var q := Nearest(next, e.seqNum);
      SeqCompareIsOrder(next, q);
      NearestIsUnique(next', q);
      assert IsPiece(s, base, q, e.data);
      assert q != next';
    }
  }

  /** One call with any other segment: nothing comes back and the segment is kept. */
  lemma EarlyPacket(r: Reassembly, s: seq<u8>, base: int, next: int, a: Arrival, ahead: nat, maxLen: nat)
      returns (r': Reassembly)
    requires Tracks(r, s, base, next, ahead, maxLen)
    requires Admissible(a, s, base, next, ahead, maxLen) && a.position != next
    ensures Add(r, a.data, Wrap(a.position)) == (r', None)
    ensures r'.outOfOrder == r.outOfOrder + [Entry(Wrap(a.position), a.data)]
    ensures Nearest(next, Wrap(a.position)) == a.position
    ensures Tracks(r', s, base, next, ahead, maxLen)
  {
    WrapIsInjectiveNearby(a.position, next);
    NearestIsUnique(next, a.position);
    r' := r.(outOfOrder := r.outOfOrder + [Entry(Wrap(a.position), a.data)]);
  }

  /** One call: what comes out continues the stream from the expected position. */
  lemma AddPacketDelivers(r: Reassembly, s: seq<u8>, base: int, next: int, a: Arrival, ahead: nat, maxLen: nat)
    requires Tracks(r, s, base, next, ahead, maxLen)
    requires Admissible(a, s, base, next, ahead, maxLen)
    ensures var (r', out) := Add(r, a.data, Wrap(a.position));
            var next' := next + (if out.Some? then |out.value| else 0);
            && Tracks(r', s, base, next', ahead, maxLen)
            && (out.Some? ==> out.value == Piece(s, base, next, next'))
  {
    if a.position == next {
      var r', next' := InOrderPacket(r, s, base, next, a, ahead, maxLen);
    } else {
      var r' := EarlyPacket(r, s, base, next, a, ahead, maxLen);
    }
  }

  // ---------- whole runs: safety ----------

  /** A run of the reassembler: a stream `s` that starts at position `base`, the arrivals in
      the order in which they come, and the network's bounds. */
  datatype Run = Run(s: seq<u8>, base: int, arrivals: seq<Arrival>, ahead: nat, maxLen: nat)

  /** The state after the first `n` arrivals, and everything delivered so far. */
  function Feed(run: Run, n: nat): (Reassembly, seq<u8>)
    requires n <= |run.arrivals|
  {
    if n == 0 then (Reassembly(Wrap(run.base), []), [])
    else
      var (r, sofar) := Feed(run, n - 1);
      var a := run.arrivals[n - 1];
      var (r', out) := Add(r, a.data, Wrap(a.position));
      (r', if out.Some? then sofar + out.value else sofar)
  }

  /** The start of the stream plus everything delivered. */
  function Delivered(run: Run, n: nat): int
    requires n <= |run.arrivals|
  {
    run.base + |Feed(run, n).1|
  }

  /** Each of the first `n` arrivals meets the network's promise at the moment it arrives. */
  ghost predicate AdmissibleRun(run: Run, n: nat)
    requires n <= |run.arrivals|
  {
    && run.ahead + run.maxLen < 0x8000_0000
    && (n > 0 ==>
         && AdmissibleRun(run, n - 1)
         && Admissible(run.arrivals[n - 1], run.s, run.base, Delivered(run, n - 1), run.ahead, run.maxLen))
  }

  /** SAFETY: whatever the order, the overlaps and the duplicates, and however often the
      sequence numbers wrap, what has been delivered is a prefix of the stream, and it
      ends at the expected position. */
  lemma {:induction false} DeliversAPrefix(run: Run, n: nat)
    requires n <= |run.arrivals| && AdmissibleRun(run, n)
    ensures Feed(run, n).1 <= run.s
    ensures Feed(run, n).0.nextSequence == Wrap(Delivered(run, n))
    ensures Tracks(Feed(run, n).0, run.s, run.base, Delivered(run, n), run.ahead, run.maxLen)
  {
    if n > 0 {
      DeliversAPrefix(run, n - 1);
      var (r, out) := Feed(run, n - 1);
      var next := Delivered(run, n - 1);
      AddPacketDelivers(r, run.s, run.base, next, run.arrivals[n - 1], run.ahead, run.maxLen);
    }
  }

  function OutLength(out: Option<seq<u8>>): nat { if out.Some? then |out.value| else 0 }

  /** The last arrival of a run, by itself. */
  lemma OneArrival(run: Run, n: nat) returns (r: Reassembly, next: int, r': Reassembly, out: Option<seq<u8>>)
    requires 0 < n <= |run.arrivals| && AdmissibleRun(run, n)
    ensures r == Feed(run, n - 1).0 && next == Delivered(run, n - 1)
    ensures Tracks(r, run.s, run.base, next, run.ahead, run.maxLen)
    ensures Admissible(run.arrivals[n - 1], run.s, run.base, next, run.ahead, run.maxLen)
    ensures Add(r, run.arrivals[n - 1].data, Wrap(run.arrivals[n - 1].position)) == (r', out)
    ensures Feed(run, n).0 == r' && Delivered(run, n) == next + OutLength(out)
  {
    DeliversAPrefix(run, n - 1);
    r, next := Feed(run, n - 1).0, Delivered(run, n - 1);
    var added := Add(r, run.arrivals[n - 1].data, Wrap(run.arrivals[n - 1].position));
    r', out := added.0, added.1;
  }

  /** What one call leaves of the stored segments: with the awaited segment, those neither passed
      nor laid end to end after it; with any other, that one more. */
  ghost predicate Leaves(q: seq<Entry>, q': seq<Entry>, x: Arrival, next: int, next': int) {
    if x.position == next then
      && next < End(x) <= next' && Chained(q, next, End(x), next')
      && Accounted(q, q', next, next')
      && forall e :: e in q' ==> e in q && Nearest(next', e.seqNum) == Nearest(next, e.seqNum)
    else
      && next' == next && q' == q + [Entry(Wrap(x.position), x.data)]
      && Nearest(next, Wrap(x.position)) == x.position
  }

  lemma CallLeaves(r: Reassembly, s: seq<u8>, base: int, next: int, x: Arrival, ahead: nat, maxLen: nat,
                   r': Reassembly, out: Option<seq<u8>>)
    requires Tracks(r, s, base, next, ahead, maxLen) && Admissible(x, s, base, next, ahead, maxLen)
    requires x.data != [] && Add(r, x.data, Wrap(x.position)) == (r', out)
    ensures Leaves(r.outOfOrder, r'.outOfOrder, x, next, next + OutLength(out))
  {
    if x.position == next {
      var r1, n1 := InOrderPacket(r, s, base, next, x, ahead, maxLen);
      assert n1 == next + OutLength(out);
    } else {
      var r1 := EarlyPacket(r, s, base, next, x, ahead, maxLen);
    }
  }

  lemma LastLeaves(run: Run, n: nat, x: Arrival)
    requires 0 < n <= |run.arrivals| && AdmissibleRun(run, n) && x == run.arrivals[n - 1] && x.data != []
    ensures Leaves(Feed(run, n - 1).0.outOfOrder, Feed(run, n).0.outOfOrder, x, Delivered(run, n - 1), Delivered(run, n))
  {
    var r, next, r', out := OneArrival(run, n);
    CallLeaves(r, run.s, run.base, next, x, run.ahead, run.maxLen, r', out);
  }

  // ---------- whole runs: completeness and confluence ----------

  ghost predicate Before(cuts: seq<int>, i: nat, j: nat)
    requires i < |cuts| && j < |cuts|
  {
    cuts[i] < cuts[j]
  }

  /** A stream cut into non-empty segments at the given positions. */
  ghost predicate IsCut(cuts: seq<int>, s: seq<u8>, base: int) {
    && |cuts| > 0 && cuts[0] == base && cuts[|cuts| - 1] == base + |s|
    && forall i: nat, j: nat :: i < j < |cuts| ==> Before(cuts, i, j)
  }

  ghost predicate IsOrder(order: seq<nat>, cuts: seq<int>) {
    forall j :: j in order ==> j + 1 < |cuts|
  }

  lemma CutBounds(s: seq<u8>, base: int, cuts: seq<int>, k: nat)
    requires IsCut(cuts, s, base) && k + 1 < |cuts|
    ensures base <= cuts[k] < cuts[k + 1] <= base + |s|
  {
    assert Before(cuts, k, k + 1);
    assert k > 0 ==> Before(cuts, 0, k);
    assert k + 1 < |cuts| - 1 ==> Before(cuts, k + 1, |cuts| - 1);
  }

  lemma CutIndex(s: seq<u8>, base: int, cuts: seq<int>, i: nat, j: nat)
    requires IsCut(cuts, s, base) && i < |cuts| && j < |cuts|
    ensures cuts[i] < cuts[j] <==> i < j
  {
    assert i < j ==> Before(cuts, i, j);
    assert j < i ==> Before(cuts, j, i);
  }

  /** The k-th segment of a cut. */
  function CutSegment(s: seq<u8>, base: int, cuts: seq<int>, k: nat): (a: Arrival)
    requires IsCut(cuts, s, base) && k + 1 < |cuts|
    ensures |a.data| == cuts[k + 1] - cuts[k] > 0
  {
    CutBounds(s, base, cuts, k);
    Arrival(cuts[k], Piece(s, base, cuts[k], cuts[k + 1]))
  }

  /** The arrivals when segments come in the given order, repetitions allowed. */
  function Arrivals(s: seq<u8>, base: int, cuts: seq<int>, order: seq<nat>): (a: seq<Arrival>)
    requires IsCut(cuts, s, base) && IsOrder(order, cuts)
    ensures |a| == |order|
    ensures forall i :: 0 <= i < |a| ==>
      order[i] in order && a[i] == CutSegment(s, base, cuts, order[i])
  {
    seq(|order|, i requires 0 <= i < |order| =>
      assert order[i] in order;
      CutSegment(s, base, cuts, order[i]))
  }

  ghost predicate Stored(q: seq<Entry>, next: int, cuts: seq<int>, k: nat)
    requires k + 1 < |cuts|
  {
    exists e :: e in q && Nearest(next, e.seqNum) == cuts[k] && |e.data| == cuts[k + 1] - cuts[k]
  }

  ghost predicate FromCut(e: Entry, next: int, cuts: seq<int>, order: seq<nat>, k: nat) {
    && k in order && k + 1 < |cuts|
    && Nearest(next, e.seqNum) == cuts[k] && |e.data| == cuts[k + 1] - cuts[k]
  }

  /** `m` is the first segment that has not arrived. */
  ghost predicate FirstMissing(m: nat, cuts: seq<int>, order: seq<nat>) {
    && m < |cuts| && m !in order
    && forall k :: 0 <= k < m ==> k in order
  }

  /** The expected position stands at the start of the first segment that has not
      arrived, and every segment that arrived beyond it is stored. */
  ghost predicate AtFirstMissing(q: seq<Entry>, next: int, cuts: seq<int>, order: seq<nat>, m: nat) {
    && FirstMissing(m, cuts, order) && next == cuts[m]
    && IsOrder(order, cuts)
    && (forall k :: k in order && k > m ==> Stored(q, next, cuts, k))
    && (forall e :: e in q ==> exists k :: FromCut(e, next, cuts, order, k))
  }

  /** A chain of stored segments that starts at a cut ends at a cut, and every segment in
      between has arrived. */
  lemma {:induction false} ChainFollowsCuts(q: seq<Entry>, first: int, cuts: seq<int>, order: seq<nat>,
                                            s: seq<u8>, base: int, a: nat, upto: int) returns (b: nat)
    requires IsCut(cuts, s, base) && IsOrder(order, cuts)
    requires forall e :: e in q ==> exists k :: FromCut(e, first, cuts, order, k)
    requires a < |cuts| && cuts[a] <= upto && Chained(q, first, cuts[a], upto)
    ensures a <= b < |cuts| && upto == cuts[b]
    ensures forall k :: a <= k < b ==> k in order
    decreases upto - cuts[a]
  {
    if cuts[a] == upto {
      b := a;
    } else {
      var e :| e in q && |e.data| > 0 && Nearest(first, e.seqNum) == cuts[a]
             && cuts[a] + |e.data| <= upto && Chained(q, first, cuts[a] + |e.data|, upto);
      var k :| FromCut(e, first, cuts, order, k);
      CutIndex(s, base, cuts, k, a);
      CutIndex(s, base, cuts, a, k);
      b := ChainFollowsCuts(q, first, cuts, order, s, base, a + 1, upto);
    }
  }

  /** An entry of the old list that is still ahead is one of the new list. */
  lemma StillStored(q: seq<Entry>, q': seq<Entry>, next: int, next': int, cuts: seq<int>, k: nat)
    requires k + 1 < |cuts| && cuts[k] < cuts[k + 1] && next' <= cuts[k]
    requires Stored(q, next, cuts, k) && Accounted(q, q', next, next')
    requires forall e :: e in q' ==> Nearest(next', e.seqNum) == Nearest(next, e.seqNum)
    ensures Stored(q', next', cuts, k)
  {
    var e :| e in q && Nearest(next, e.seqNum) == cuts[k] && |e.data| == cuts[k + 1] - cuts[k];
    assert e in q';
  }

  lemma NotStoredAtNext(q: seq<Entry>, s: seq<u8>, base: int, next: int, cuts: seq<int>, k: nat, ahead: nat, maxLen: nat)
    requires forall e :: e in q ==> GoodEntry(e, s, base, next, ahead, maxLen)
    requires k + 1 < |cuts| && cuts[k] == next
    ensures !Stored(q, next, cuts, k)
  {}

  /** Laying stored segments end to end leads from one first missing segment to the next. */
  lemma NextMissing(q: seq<Entry>, q': seq<Entry>, s: seq<u8>, base: int, next: int, next': int, cuts: seq<int>,
                    order: seq<nat>, m: nat, ahead: nat, maxLen: nat) returns (m': nat)
    requires IsCut(cuts, s, base) && m + 1 < |cuts| && AtFirstMissing(q, next, cuts, order, m)
    requires cuts[m + 1] <= next' && Chained(q, next, cuts[m + 1], next') && Accounted(q, q', next, next')
    requires forall e :: e in q' ==> e in q && Nearest(next', e.seqNum) == Nearest(next, e.seqNum)
    requires forall e :: e in q' ==> GoodEntry(e, s, base, next', ahead, maxLen)
    ensures AtFirstMissing(q', next', cuts, order + [m], m')
  {
    var order' := order + [m];
    assert forall k :: k in order' <==> k in order || k == m;
    m' := ChainFollowsCuts(q, next, cuts, order, s, base, m + 1, next');
    assert m' !in order by {
      if m' in order {
        StillStored(q, q', next, next', cuts, m') by { CutBounds(s, base, cuts, m'); }
        NotStoredAtNext(q', s, base, next', cuts, m', ahead, maxLen);
      }
    }
    forall k | k in order' && k > m' ensures Stored(q', next', cuts, k) {
      CutBounds(s, base, cuts, k);
      CutIndex(s, base, cuts, m', k);
      StillStored(q, q', next, next', cuts, k);
    }
    forall e | e in q' ensures exists k :: FromCut(e, next', cuts, order', k) {
      var k :| FromCut(e, next, cuts, order, k);
      assert FromCut(e, next', cuts, order', k);
    }
  }

  /** Any other segment of the cut arrives. */
  lemma StillMissing(q: seq<Entry>, s: seq<u8>, base: int, next: int, cuts: seq<int>, order: seq<nat>,
                     m: nat, j: nat, x: Entry)
    requires IsCut(cuts, s, base) && j + 1 < |cuts| && j != m && AtFirstMissing(q, next, cuts, order, m)
    requires Nearest(next, x.seqNum) == cuts[j] && |x.data| == cuts[j + 1] - cuts[j]
    ensures AtFirstMissing(q + [x], next, cuts, order + [j], m)
  {
    var q', order' := q + [x], order + [j];
    assert forall k :: k in order' <==> k in order || k == j;
    assert forall e :: e in q' <==> e in q || e == x;
    assert FromCut(x, next, cuts, order', j);
    forall e | e in q ensures exists k :: FromCut(e, next, cuts, order', k) {
      var k :| FromCut(e, next, cuts, order, k);
      assert FromCut(e, next, cuts, order', k);
    }
    assert Accounted(q, q', next, next);
    forall k | k in order' && k > m ensures Stored(q', next, cuts, k) {
      if k in order {
        CutBounds(s, base, cuts, k);
        CutIndex(s, base, cuts, m, k);
        StillStored(q, q', next, next, cuts, k);
      }
    }
  }

  /** A segment of the cut arrives. */
  lemma SegmentArrives(q: seq<Entry>, q': seq<Entry>, s: seq<u8>, base: int, next: int, next': int, cuts: seq<int>,
                       order: seq<nat>, m: nat, j: nat, ahead: nat, maxLen: nat) returns (m': nat)
    requires IsCut(cuts, s, base) && j + 1 < |cuts| && AtFirstMissing(q, next, cuts, order, m)
    requires Leaves(q, q', CutSegment(s, base, cuts, j), next, next')
    requires forall e :: e in q' ==> GoodEntry(e, s, base, next', ahead, maxLen)
    ensures AtFirstMissing(q', next', cuts, order + [j], m')
  {
    CutIndex(s, base, cuts, j, m);
    CutIndex(s, base, cuts, m, j);
    if j == m {
      m' := NextMissing(q, q', s, base, next, next', cuts, order, m, ahead, maxLen);
    } else {
      m' := m;
      var x := CutSegment(s, base, cuts, j);
      StillMissing(q, s, base, next, cuts, order, m, j, Entry(Wrap(x.position), x.data));
    }
  }

  /** The run in which the segments of a cut come in the given order. */
  function CutRun(s: seq<u8>, base: int, cuts: seq<int>, order: seq<nat>, ahead: nat, maxLen: nat): Run
    requires IsCut(cuts, s, base) && IsOrder(order, cuts)
  {
    Run(s, base, Arrivals(s, base, cuts, order), ahead, maxLen)
  }

  lemma LastSegmentArrives(run: Run, cuts: seq<int>, order: seq<nat>, n: nat, j: nat, m: nat) returns (m': nat)
    requires IsCut(cuts, run.s, run.base) && j + 1 < |cuts| && 0 < n <= |run.arrivals| && AdmissibleRun(run, n)
    requires run.arrivals[n - 1] == CutSegment(run.s, run.base, cuts, j)
    requires AtFirstMissing(Feed(run, n - 1).0.outOfOrder, Delivered(run, n - 1), cuts, order, m)
    ensures AtFirstMissing(Feed(run, n).0.outOfOrder, Delivered(run, n), cuts, order + [j], m')
  {
    LastLeaves(run, n, run.arrivals[n - 1]);
    DeliversAPrefix(run, n);
    m' := SegmentArrives(Feed(run, n - 1).0.outOfOrder, Feed(run, n).0.outOfOrder, run.s, run.base,
                         Delivered(run, n - 1), Delivered(run, n), cuts, order, m, j, run.ahead, run.maxLen);
  }

  lemma TakeOneMore<T>(s: seq<T>, n: nat)
    requires 0 < n <= |s|
    ensures s[n - 1] in s && s[..n] == s[..n - 1] + [s[n - 1]]
  {}

  /** After segments `order` of the cut, the run stands at the first missing one. */
  lemma {:induction false} StandsAtFirstMissing(run: Run, cuts: seq<int>, order: seq<nat>, n: nat) returns (m: nat)
    requires IsCut(cuts, run.s, run.base) && IsOrder(order, cuts) && n <= |order|
    requires run.arrivals == Arrivals(run.s, run.base, cuts, order) && AdmissibleRun(run, n)
    ensures AtFirstMissing(Feed(run, n).0.outOfOrder, Delivered(run, n), cuts, order[..n], m)
    decreases n
  {
    if n == 0 {
      m := 0;
    } else {
      m := StandsAtFirstMissing(run, cuts, order, n - 1);
      TakeOneMore(order, n);
      m := LastSegmentArrives(run, cuts, order[..n - 1], n, order[n - 1], m);
    }
  }

  /** What such a run has delivered. */
  lemma DeliveredToMissing(run: Run, cuts: seq<int>, order: seq<nat>) returns (m: nat)
    requires IsCut(cuts, run.s, run.base) && IsOrder(order, cuts)
    requires run.arrivals == Arrivals(run.s, run.base, cuts, order) && AdmissibleRun(run, |order|)
    ensures FirstMissing(m, cuts, order) && run.base <= cuts[m] <= run.base + |run.s|
    ensures Feed(run, |order|).1 == Piece(run.s, run.base, run.base, cuts[m])
  {
    m := StandsAtFirstMissing(run, cuts, order, |order|);
    assert order[..|order|] == order;
    DeliversAPrefix(run, |order|);
  }

  /** CONFLUENCE: what has been delivered depends only on which segments have arrived, not on
      their order or repetition: it is the stream up to the first segment that is missing. */
  lemma DeliveredUpToFirstMissing(s: seq<u8>, base: int, cuts: seq<int>, order: seq<nat>, m: nat,
                                  ahead: nat, maxLen: nat)
    requires IsCut(cuts, s, base) && IsOrder(order, cuts)
    requires AdmissibleRun(CutRun(s, base, cuts, order, ahead, maxLen), |order|)
    requires FirstMissing(m, cuts, order)
    ensures base <= cuts[m] <= base + |s|
    ensures Feed(CutRun(s, base, cuts, order, ahead, maxLen), |order|).1 == Piece(s, base, base, cuts[m])
  {
    var m' := DeliveredToMissing(CutRun(s, base, cuts, order, ahead, maxLen), cuts, order);
    assert !(m' < m) && !(m < m');
  }

  /** COMPLETENESS: the whole stream comes out if and only if every segment has arrived. */
  lemma CompleteIffAllArrived(s: seq<u8>, base: int, cuts: seq<int>, order: seq<nat>, ahead: nat, maxLen: nat)
    requires IsCut(cuts, s, base) && IsOrder(order, cuts)
    requires AdmissibleRun(CutRun(s, base, cuts, order, ahead, maxLen), |order|)
    ensures Feed(CutRun(s, base, cuts, order, ahead, maxLen), |order|).1 == s
            <==> (forall k :: 0 <= k < |cuts| - 1 ==> k in order)
  {
    var m := DeliveredToMissing(CutRun(s, base, cuts, order, ahead, maxLen), cuts, order);
    WholeIffLast(s, base, cuts, order, m);
  }

  lemma WholeIffLast(s: seq<u8>, base: int, cuts: seq<int>, order: seq<nat>, m: nat)
    requires IsCut(cuts, s, base) && IsOrder(order, cuts) && FirstMissing(m, cuts, order)
    requires base <= cuts[m] <= base + |s|
    ensures Piece(s, base, base, cuts[m]) == s <==> (forall k :: 0 <= k < |cuts| - 1 ==> k in order)
  {
    CutIndex(s, base, cuts, m, |cuts| - 1);
    if m == |cuts| - 1 {
      assert Piece(s, base, base, cuts[m]) == s;
    } else {
      assert |Piece(s, base, base, cuts[m])| < |s|;
      assert m !in order;
    }
  }

  /** Agreeing cuts matter.  Three bytes, every one of which arrives: in one order of
      the same three overlapping segments all of them come out, in another the last
      one never does, because the only segment that holds it stays behind as old. */
  lemma OverlapOrderMatters()
    ensures var a, b, c := Arrival(0, [7]), Arrival(1, [8, 9]), Arrival(0, [7, 8]);
            var run1, run2 := Run([7, 8, 9], 0, [a, b, c], 3, 3), Run([7, 8, 9], 0, [c, a, b], 3, 3);
            && AdmissibleRun(run1, 3) && Feed(run1, 3).1 == [7, 8, 9]
            && AdmissibleRun(run2, 3) && Feed(run2, 3).1 == [7, 8]
  {
    var s := [7, 8, 9];
    var a, b, c := Arrival(0, [7]), Arrival(1, [8, 9]), Arrival(0, [7, 8]);
    var run1, run2 := Run(s, 0, [a, b, c], 3, 3), Run(s, 0, [c, a, b], 3, 3);
    OneMoreArrival(run1, 0, Reassembly(0, []), []);
    assert Add(Reassembly(0, []), [7], 0) == (Reassembly(1, []), Some([7]));
    OneMoreArrival(run1, 1, Reassembly(1, []), [] + [7]);
    assert Add(Reassembly(1, []), [8, 9], 1) == (Reassembly(3, []), Some([8, 9]));
    OneMoreArrival(run1, 2, Reassembly(3, []), [] + [7] + [8, 9]);
    OneMoreArrival(run2, 0, Reassembly(0, []), []);
    assert Add(Reassembly(0, []), [7, 8], 0) == (Reassembly(2, []), Some([7, 8]));
    OneMoreArrival(run2, 1, Reassembly(2, []), [] + [7, 8]);
    OneMoreArrival(run2, 2, Reassembly(2, [] + [Entry(0, [7])]), [] + [7, 8]);
  }

  lemma OneMoreArrival(run: Run, n: nat, r: Reassembly, sofar: seq<u8>)
    requires n < |run.arrivals| && AdmissibleRun(run, n) && Feed(run, n) == (r, sofar)
    requires Admissible(run.arrivals[n], run.s, run.base, run.base + |sofar|, run.ahead, run.maxLen)
    ensures AdmissibleRun(run, n + 1)
    ensures var (r', out) := Add(r, run.arrivals[n].data, Wrap(run.arrivals[n].position));
            Feed(run, n + 1) == (r', if out.Some? then sofar + out.value else sofar)
  {}

  // ---------- hole detection ----------

  /** `receive_next_seq` after the first `n` arrivals, as tcp_input maintains it. */
  function HighWater(run: Run, n: nat): u32
    requires n <= |run.arrivals|
  {
    if n == 0 then Wrap(run.base)
    else
      var a := run.arrivals[n - 1];
      WrappingMax(HighWater(run, n - 1), WrappingAdd(Wrap(a.position), |a.data|))
  }

  function End(a: Arrival): int { a.position + |a.data| }

  /** The largest end of the first `n` arrivals, or the start of the stream. */
  function Top(run: Run, n: nat): int
    requires n <= |run.arrivals|
  {
    if n == 0 then run.base else Max(Top(run, n - 1), End(run.arrivals[n - 1]))
  }

  lemma {:induction false} TopIsLargest(run: Run, n: nat, bound: int)
    requires n <= |run.arrivals|
    ensures Top(run, n) <= bound <==> run.base <= bound && forall k :: 0 <= k < n ==> End(run.arrivals[k]) <= bound
  {
    if n > 0 {
      TopIsLargest(run, n - 1, bound);
    }
  }

  /** The arrivals are young enough for the high-water comparison as well. */
  ghost predicate YoungRun(run: Run, n: nat)
    requires n <= |run.arrivals|
  {
    n > 0 ==>
      && YoungRun(run, n - 1)
      && Delivered(run, n - 1) - 0x8000_0000 + run.ahead + run.maxLen < run.arrivals[n - 1].position
  }

  ghost predicate EntriesBelow(q: seq<Entry>, next: int, top: int) {
    forall e :: e in q ==> Nearest(next, e.seqNum) + |e.data| <= top
  }

  lemma {:induction false} ChainStaysBelow(q: seq<Entry>, first: int, from: int, upto: int, top: int)
    requires from <= upto && Chained(q, first, from, upto)
    requires EntriesBelow(q, first, top) && from <= top
    ensures upto <= top
    decreases upto - from
  {
    if from != upto {
      var e :| e in q && |e.data| > 0 && Nearest(first, e.seqNum) == from
             && from + |e.data| <= upto && Chained(q, first, from + |e.data|, upto);
      ChainStaysBelow(q, first, from + |e.data|, upto, top);
    }
  }

  /** One arrival keeps everything delivered or stored below the high-water mark. */
  lemma StaysBelowTop(r: Reassembly, s: seq<u8>, base: int, next: int, a: Arrival, top: int, ahead: nat, maxLen: nat,
                      r': Reassembly, out: Option<seq<u8>>)
    requires Tracks(r, s, base, next, ahead, maxLen) && Admissible(a, s, base, next, ahead, maxLen)
    requires next <= top <= next + ahead + maxLen && EntriesBelow(r.outOfOrder, next, top)
    requires Add(r, a.data, Wrap(a.position)) == (r', out)
    ensures var next' := next + OutLength(out);
            && next' <= Max(top, End(a)) <= next' + ahead + maxLen
            && EntriesBelow(r'.outOfOrder, next', Max(top, End(a)))
  {
    if a.position == next {
      var r1, next' := InOrderPacket(r, s, base, next, a, ahead, maxLen);
      ChainStaysBelow(r.outOfOrder, next, next + |a.data|, next', Max(top, End(a)));
    } else {
      var r1 := EarlyPacket(r, s, base, next, a, ahead, maxLen);
    }
  }

  ghost predicate BelowTop(run: Run, n: nat, top: int)
    requires n <= |run.arrivals|
  {
    && Delivered(run, n) <= top <= Delivered(run, n) + run.ahead + run.maxLen
    && EntriesBelow(Feed(run, n).0.outOfOrder, Delivered(run, n), top)
  }

  lemma LastBelowTop(run: Run, n: nat, top: int)
    requires 0 < n <= |run.arrivals| && AdmissibleRun(run, n) && BelowTop(run, n - 1, top)
    ensures BelowTop(run, n, Max(top, End(run.arrivals[n - 1])))
  {
    var r, next, r', out := OneArrival(run, n);
    StaysBelowTop(r, run.s, run.base, next, run.arrivals[n - 1], top, run.ahead, run.maxLen, r', out);
  }

  lemma {:induction false} TopBoundsDelivered(run: Run, n: nat)
    requires n <= |run.arrivals| && AdmissibleRun(run, n)
    ensures BelowTop(run, n, Top(run, n))
  {
    if n > 0 {
      TopBoundsDelivered(run, n - 1);
      LastBelowTop(run, n, Top(run, n - 1));
    }
  }

  lemma {:induction false} HighWaterIsTop(run: Run, n: nat)
    requires n <= |run.arrivals| && AdmissibleRun(run, n) && YoungRun(run, n)
    ensures HighWater(run, n) == Wrap(Top(run, n))
  {
    if n > 0 {
      HighWaterIsTop(run, n - 1);
      var a := run.arrivals[n - 1];
      WrapAdd(a.position, |a.data|);
      TopBoundsDelivered(run, n - 1);
      SeqCompareIsOrder(Top(run, n - 1), End(a));
    }
  }

  /** HOLE DETECTION: the code's test `receive_next_seq == get_next_expect()` is true exactly
      when no segment received so far ends beyond what has been delivered. */
  lemma NoHoleIffAllDelivered(run: Run, n: nat)
    requires n <= |run.arrivals| && AdmissibleRun(run, n) && YoungRun(run, n)
    ensures HighWater(run, n) == Feed(run, n).0.nextSequence
            <==> (forall k :: 0 <= k < n ==> End(run.arrivals[k]) <= Delivered(run, n))
  {
    DeliversAPrefix(run, n);
    HighWaterIsTop(run, n);
    TopBoundsDelivered(run, n);
    TopIsLargest(run, n, Delivered(run, n));
    WrapIsInjectiveNearby(Top(run, n), Delivered(run, n));
  }
}
