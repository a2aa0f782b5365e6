/** The reassembler on segments that overlap in any way.

    Cut differently, the same bytes can get stuck: a stored segment whose start has been passed
    is discarded, whatever it holds beyond.  This is when exactly that cannot happen.
  */
module Overlaps {
  import opened Words
  import opened Reassembler

  // ---------- laying segments end to end ----------

  /** The segments numbered in `path`, laid end to end, lead from `from` to `upto`. */
  ghost predicate IsPath(a: seq<Arrival>, path: seq<nat>, from: int, upto: int)
    decreases |path|
  {
    if path == [] then from == upto
    else path[0] < |a| && a[path[0]].position == from && IsPath(a, path[1..], End(a[path[0]]), upto)
  }

  ghost predicate Reachable(a: seq<Arrival>, from: int, upto: int) {
    exists path :: IsPath(a, path, from, upto)
  }

  ghost predicate StartsAt(a: seq<Arrival>, p: int) {
    exists k :: 0 <= k < |a| && a[k].position == p
  }

  /** A position short of the end that is reachable end to end and where no segment starts. */
  ghost predicate DeadEnd(a: seq<Arrival>, base: int, end: int, p: int) {
    Reachable(a, base, p) && p != end && !StartsAt(a, p)
  }

  ghost predicate NoDeadEnd(a: seq<Arrival>, base: int, end: int) {
    forall p :: !DeadEnd(a, base, end, p)
  }

  lemma SomeDeadEnd(a: seq<Arrival>, base: int, end: int) returns (p: int)
    requires !NoDeadEnd(a, base, end)
    ensures DeadEnd(a, base, end, p)
  {
    p :| DeadEnd(a, base, end, p);
  }

  lemma {:induction false} PathConcat(a: seq<Arrival>, p: seq<nat>, q: seq<nat>, from: int, mid: int, upto: int)
    requires IsPath(a, p, from, mid) && IsPath(a, q, mid, upto)
    ensures IsPath(a, p + q, from, upto)
    decreases |p|
  {
    if p == [] {
      assert p + q == q;
    } else {
      assert (p + q)[0] == p[0] && (p + q)[1..] == p[1..] + q;
      PathConcat(a, p[1..], q, End(a[p[0]]), mid, upto);
    }
  }

  lemma ReachableConcat(a: seq<Arrival>, from: int, mid: int, upto: int)
    requires Reachable(a, from, mid) && Reachable(a, mid, upto)
    ensures Reachable(a, from, upto)
  {
    var p :| IsPath(a, p, from, mid);
    var q :| IsPath(a, q, mid, upto);
    PathConcat(a, p, q, from, mid, upto);
  }

  lemma ReachableOne(a: seq<Arrival>, k: nat)
    requires k < |a|
    ensures Reachable(a, a[k].position, End(a[k]))
  {
    assert [k][1..] == [];
    assert IsPath(a, [k], a[k].position, End(a[k]));
  }

  /** The same segments are found among others. */
  ghost predicate Among(a: seq<Arrival>, b: seq<Arrival>) {
    forall k :: 0 <= k < |a| ==> a[k] in b
  }

  lemma {:induction false} PathAmong(a: seq<Arrival>, b: seq<Arrival>, path: seq<nat>, from: int, upto: int)
    requires IsPath(a, path, from, upto) && Among(a, b)
    ensures Reachable(b, from, upto)
    decreases |path|
  {
    if path == [] {
      assert IsPath(b, [], from, upto);
    } else {
      PathAmong(a, b, path[1..], End(a[path[0]]), upto);
      assert a[path[0]] in b;
      var k :| 0 <= k < |b| && b[k] == a[path[0]];
      ReachableOne(b, k);
      ReachableConcat(b, from, End(b[k]), upto);
    }
  }

  lemma ReachableAmong(a: seq<Arrival>, b: seq<Arrival>, from: int, upto: int)
    requires Reachable(a, from, upto) && Among(a, b)
    ensures Reachable(b, from, upto)
  {
    var path :| IsPath(a, path, from, upto);
    PathAmong(a, b, path, from, upto);
  }

  // ---------- where the reassembler stands ----------

  /** A segment that has arrived lies behind the expected position, or is stored. */
  ghost predicate Placed(x: Arrival, q: seq<Entry>, next: int) {
    x.position < next || exists e :: e in q && Nearest(next, e.seqNum) == x.position && e.data == x.data
  }

  ghost predicate FromArrival(e: Entry, a: seq<Arrival>, next: int) {
    exists k :: 0 <= k < |a| && a[k].position == Nearest(next, e.seqNum) && a[k].data == e.data
  }

  /** After the segments `a`, the expected position is `next` and the stored ones are `q`. */
  ghost predicate Standing(q: seq<Entry>, a: seq<Arrival>, base: int, next: int) {
    && (forall k :: 0 <= k < |a| ==> Placed(a[k], q, next))
    && (forall e :: e in q ==> FromArrival(e, a, next))
    && Reachable(a, base, next)
  }

  lemma {:induction false} ChainReaches(q: seq<Entry>, a: seq<Arrival>, first: int, from: int, upto: int)
    requires from <= upto && Chained(q, first, from, upto)
    requires forall e :: e in q ==> FromArrival(e, a, first)
    ensures Reachable(a, from, upto)
    decreases upto - from
  {
    if from == upto {
      assert IsPath(a, [], from, upto);
    } else {
      var e :| e in q && |e.data| > 0 && Nearest(first, e.seqNum) == from
             && from + |e.data| <= upto && Chained(q, first, from + |e.data|, upto);
      assert FromArrival(e, a, first);
      var k :| 0 <= k < |a| && a[k].position == from && a[k].data == e.data;
      ChainReaches(q, a, first, from + |e.data|, upto);
      ReachableOne(a, k);
      ReachableConcat(a, from, from + |e.data|, upto);
    }
  }

  lemma FromArrivalMore(e: Entry, a: seq<Arrival>, x: Arrival, next: int)
    requires FromArrival(e, a, next)
    ensures FromArrival(e, a + [x], next)
  {
    var k :| 0 <= k < |a| && a[k].position == Nearest(next, e.seqNum) && a[k].data == e.data;
    assert (a + [x])[k] == a[k];
  }

  /** Stored segments are kept or passed. */
  lemma PlacedStays(y: Arrival, q: seq<Entry>, q': seq<Entry>, next: int, next': int)
    requires Placed(y, q, next) && y.data != [] && next <= next' && Accounted(q, q', next, next')
    requires forall e :: e in q' ==> Nearest(next', e.seqNum) == Nearest(next, e.seqNum)
    ensures Placed(y, q', next')
  {
    if y.position >= next' {
      var e :| e in q && Nearest(next, e.seqNum) == y.position && e.data == y.data;
      assert e in q';
    }
  }

  ghost predicate NonEmptyArrivals(a: seq<Arrival>) {
    forall k :: 0 <= k < |a| ==> a[k].data != []
  }

  lemma AllPlacedStay(a: seq<Arrival>, x: Arrival, q: seq<Entry>, q': seq<Entry>, next: int, next': int)
    requires forall k :: 0 <= k < |a| ==> Placed(a[k], q, next) && a[k].data != []
    requires next <= next' && Accounted(q, q', next, next') && x.position < next'
    requires forall e :: e in q' ==> Nearest(next', e.seqNum) == Nearest(next, e.seqNum)
    ensures forall k :: 0 <= k < |a| + 1 ==> Placed((a + [x])[k], q', next')
  {
    forall k | 0 <= k < |a| + 1 ensures Placed((a + [x])[k], q', next') {
      if k < |a| { PlacedStays(a[k], q, q', next, next'); }
    }
  }

  lemma AllFromMore(q: seq<Entry>, a: seq<Arrival>, x: Arrival, next: int)
    requires forall e :: e in q ==> FromArrival(e, a, next)
    ensures forall e :: e in q ==> FromArrival(e, a + [x], next)
  {
    forall e | e in q ensures FromArrival(e, a + [x], next) { FromArrivalMore(e, a, x, next); }
  }

  /** The way to the old position, the segment itself, and the chain of stored ones. */
  lemma WayOn(q: seq<Entry>, a: seq<Arrival>, x: Arrival, base: int, next: int, next': int)
    requires Reachable(a, base, next) && x.position == next && End(x) <= next'
    requires forall e :: e in q ==> FromArrival(e, a + [x], next)
    requires Chained(q, next, End(x), next')
    ensures Reachable(a + [x], base, next')
  {
    var b := a + [x];
    ReachableAmong(a, b, base, next);
    assert b[|a|] == x;
    ReachableOne(b, |a|);
    ReachableConcat(b, base, next, End(x));
    ChainReaches(q, b, next, End(x), next');
    ReachableConcat(b, base, End(x), next');
  }

  /** The awaited segment arrives. */
  lemma StandingAfterDue(q: seq<Entry>, q': seq<Entry>, a: seq<Arrival>, x: Arrival, base: int, next: int, next': int)
    requires Standing(q, a, base, next) && NonEmptyArrivals(a)
    requires x.position == next < End(x) <= next' && Chained(q, next, End(x), next')
    requires Accounted(q, q', next, next')
    requires forall e :: e in q' ==> e in q && Nearest(next', e.seqNum) == Nearest(next, e.seqNum)
    ensures Standing(q', a + [x], base, next')
  {
    AllPlacedStay(a, x, q, q', next, next');
    AllFromMore(q, a, x, next);
    WayOn(q, a, x, base, next, next');
    assert forall e :: e in q' ==> FromArrival(e, a + [x], next');
  }

  lemma StoredOneMore(q: seq<Entry>, a: seq<Arrival>, x: Arrival, base: int, next: int, e0: Entry)
    requires Standing(q, a, base, next) && Nearest(next, e0.seqNum) == x.position && e0.data == x.data
    ensures Standing(q + [e0], a + [x], base, next)
  {
    var q', b := q + [e0], a + [x];
    assert forall e :: e in q' <==> e in q || e == e0;
    forall k | 0 <= k < |b| ensures Placed(b[k], q', next) {
      if k < |a| {
        assert Placed(a[k], q, next);
        if a[k].position >= next {
          var e :| e in q && Nearest(next, e.seqNum) == a[k].position && e.data == a[k].data;
          assert e in q';
        }
      } else {
        assert e0 in q';
      }
    }
    forall e | e in q' ensures FromArrival(e, b, next) {
      if e in q {
        FromArrivalMore(e, a, x, next);
      } else {
        assert b[|a|] == x;
      }
    }
    ReachableAmong(a, b, base, next);
  }

  lemma StandingAfterOne(q: seq<Entry>, q': seq<Entry>, a: seq<Arrival>, x: Arrival, base: int, next: int, next': int)
    requires Standing(q, a, base, next) && NonEmptyArrivals(a) && Leaves(q, q', x, next, next')
    ensures Standing(q', a + [x], base, next')
  {
    if x.position == next {
      StandingAfterDue(q, q', a, x, base, next, next');
    } else {
      StoredOneMore(q, a, x, base, next, Entry(Wrap(x.position), x.data));
    }
  }

  lemma LastStanding(run: Run, n: nat, a: seq<Arrival>, x: Arrival)
    requires 0 < n <= |run.arrivals| && AdmissibleRun(run, n)
    requires NonEmptyArrivals(a) && x == run.arrivals[n - 1] && x.data != []
    requires Standing(Feed(run, n - 1).0.outOfOrder, a, run.base, Delivered(run, n - 1))
    ensures Standing(Feed(run, n).0.outOfOrder, a + [x], run.base, Delivered(run, n))
  {
    LastLeaves(run, n, x);
    StandingAfterOne(Feed(run, n - 1).0.outOfOrder, Feed(run, n).0.outOfOrder, a, x,
                     run.base, Delivered(run, n - 1), Delivered(run, n));
  }

  lemma {:induction false} RunStanding(run: Run, n: nat)
    requires n <= |run.arrivals| && AdmissibleRun(run, n) && NonEmptyArrivals(run.arrivals)
    ensures Standing(Feed(run, n).0.outOfOrder, run.arrivals[..n], run.base, Delivered(run, n))
    decreases n
  {
    if n == 0 {
      assert IsPath([], [], run.base, run.base);
    } else {
      RunStanding(run, n - 1);
      TakeOneMore(run.arrivals, n);
      LastStanding(run, n, run.arrivals[..n - 1], run.arrivals[n - 1]);
    }
  }

  /** NEVER STUCK ON WHAT HAS ARRIVED: no segment that has arrived, however they overlap, starts at
      the expected position. */
  lemma NoneStartsAtDelivered(run: Run, n: nat, k: nat)
    requires k < n <= |run.arrivals| && AdmissibleRun(run, n) && NonEmptyArrivals(run.arrivals)
    ensures run.arrivals[k].position != Delivered(run, n)
  {
    RunStanding(run, n);
    DeliversAPrefix(run, n);
    assert run.arrivals[..n][k] == run.arrivals[k];
    assert Placed(run.arrivals[..n][k], Feed(run, n).0.outOfOrder, Delivered(run, n));
  }

  /** The expected position is always reached by laying segments that have arrived end to end. */
  lemma DeliveredIsReachable(run: Run, n: nat)
    requires n <= |run.arrivals| && AdmissibleRun(run, n) && NonEmptyArrivals(run.arrivals)
    ensures Reachable(run.arrivals[..n], run.base, Delivered(run, n))
  {
    RunStanding(run, n);
  }

  /** If the segments that have arrived have no dead end, the whole stream has been delivered,
      whatever their order, overlaps and repetitions. */
  lemma CompleteIfNoDeadEnd(run: Run, n: nat)
    requires n <= |run.arrivals| && AdmissibleRun(run, n) && NonEmptyArrivals(run.arrivals)
    requires NoDeadEnd(run.arrivals[..n], run.base, run.base + |run.s|)
    ensures Feed(run, n).1 == run.s
  {
    DeliveredIsReachable(run, n);
    DeliversAPrefix(run, n);
    var p, a := Delivered(run, n), run.arrivals[..n];
    if p != run.base + |run.s| {
      assert !DeadEnd(a, run.base, run.base + |run.s|, p);
      var k :| 0 <= k < |a| && a[k].position == p;
      NoneStartsAtDelivered(run, n, k);
      assert false;
    }
  }

  // ---------- all orders of a set of segments ----------

  ghost predicate Exhausts(order: seq<nat>, a: seq<Arrival>) {
    Indices(order, a) && forall k :: 0 <= k < |a| ==> k in order
  }

  ghost predicate Indices(order: seq<nat>, a: seq<Arrival>) {
    forall j :: 0 <= j < |order| ==> order[j] < |a|
  }

  /** The run in which the segments come in the given order, repetitions allowed. */
  function Ordered(a: seq<Arrival>, order: seq<nat>): (r: seq<Arrival>)
    requires Indices(order, a)
    ensures |r| == |order| && forall j :: 0 <= j < |r| ==> r[j] == a[order[j]]
  {
    seq(|order|, j requires 0 <= j < |order| => a[order[j]])
  }

  /** Non-empty pieces of one stream, none longer than the network's bound. */
  ghost predicate Pieces(a: seq<Arrival>, s: seq<u8>, base: int, ahead: nat, maxLen: nat) {
    && ahead + maxLen < 0x8000_0000
    && forall k :: 0 <= k < |a| ==> IsPiece(s, base, a[k].position, a[k].data) && 0 < |a[k].data| <= maxLen
  }

  /** If the stream is no longer than the network's reach, any order of such pieces meets its promise. */
  lemma {:induction false} AnyOrderAdmissible(run: Run, n: nat)
    requires n <= |run.arrivals| && Pieces(run.arrivals, run.s, run.base, run.ahead, run.maxLen) && |run.s| <= run.ahead
    ensures AdmissibleRun(run, n)
  {
    if n > 0 {
      AnyOrderAdmissible(run, n - 1);
      DeliversAPrefix(run, n - 1);
      assert IsPiece(run.s, run.base, run.arrivals[n - 1].position, run.arrivals[n - 1].data);
    }
  }

  /** Where the first `i` segments of a path lead. */
  function Along(a: seq<Arrival>, path: seq<nat>, base: int, i: nat): int
    requires i <= |path| && Indices(path, a)
  {
    if i == 0 then base else End(a[path[i - 1]])
  }

  lemma {:induction false} PathSteps(a: seq<Arrival>, path: seq<nat>, from: int, upto: int)
    requires IsPath(a, path, from, upto)
    ensures Indices(path, a) && Along(a, path, from, |path|) == upto
    ensures forall i :: 0 <= i < |path| ==> a[path[i]].position == Along(a, path, from, i)
    decreases |path|
  {
    if path != [] {
      var rest := path[1..];
      PathSteps(a, rest, End(a[path[0]]), upto);
      forall i | 0 <= i < |path| ensures path[i] < |a| && a[path[i]].position == if i == 0 then from else End(a[path[i - 1]]) {
        if i > 0 {
          assert rest[i - 1] == path[i];
          assert a[rest[i - 1]].position == Along(a, rest, End(a[path[0]]), i - 1);
        }
      }
      assert |rest| > 0 ==> rest[|rest| - 1] == path[|path| - 1];
    }
  }

  /** A segment that comes when it is awaited and nothing is stored. */
  lemma FeedDue(run: Run, i: nat, p: int)
    requires i < |run.arrivals| && run.arrivals[i].position == p
    requires Feed(run, i).0 == Reassembly(Wrap(p), []) && Delivered(run, i) == p
    ensures Feed(run, i + 1).0 == Reassembly(Wrap(End(run.arrivals[i])), [])
    ensures Delivered(run, i + 1) == End(run.arrivals[i])
  {
    var x := run.arrivals[i];
    WrapAdd(p, |x.data|);
    assert Add(Reassembly(Wrap(p), []), x.data, Wrap(p)) == (Reassembly(Wrap(End(x)), []), Some(x.data));
  }

  /** A run that begins with a path delivers up to where it leads, storing nothing. */
  lemma {:induction false} FeedAlong(run: Run, a: seq<Arrival>, path: seq<nat>, upto: int, i: nat)
    requires IsPath(a, path, run.base, upto) && Indices(path, a) && i <= |path| <= |run.arrivals|
    requires forall j :: 0 <= j < |path| ==> run.arrivals[j] == a[path[j]]
    requires Pieces(run.arrivals, run.s, run.base, run.ahead, run.maxLen)
    ensures AdmissibleRun(run, i)
    ensures Feed(run, i).0 == Reassembly(Wrap(Along(a, path, run.base, i)), [])
    ensures Delivered(run, i) == Along(a, path, run.base, i)
    decreases i
  {
    if i > 0 {
      FeedAlong(run, a, path, upto, i - 1);
      PathSteps(a, path, run.base, upto);
      FeedDue(run, i - 1, Along(a, path, run.base, i - 1));
      assert IsPiece(run.s, run.base, run.arrivals[i - 1].position, run.arrivals[i - 1].data);
    }
  }

  /** A segment the network may hand over when `next` is awaited. */
  predicate InReach(a: Arrival, next: int, ahead: nat) { next - 0x8000_0000 < a.position <= next + ahead }

  /** At a dead end nothing moves any more. */
  lemma {:induction false} StuckAt(run: Run, m: nat, n: nat, p: int)
    requires m <= n <= |run.arrivals| && AdmissibleRun(run, m) && Delivered(run, m) == p
    requires !StartsAt(run.arrivals, p) && Pieces(run.arrivals, run.s, run.base, run.ahead, run.maxLen)
    requires forall j :: m <= j < n ==> InReach(run.arrivals[j], p, run.ahead)
    ensures AdmissibleRun(run, n) && Delivered(run, n) == p
    decreases n
  {
    if n > m {
      StuckAt(run, m, n - 1, p);
      DeliversAPrefix(run, n - 1);
      var x := run.arrivals[n - 1];
      assert IsPiece(run.s, run.base, x.position, x.data);
      var r' := EarlyPacket(Feed(run, n - 1).0, run.s, run.base, p, x, run.ahead, run.maxLen);
    }
  }

  /** Those of the first `n` segments that are within reach. */
  function Near(a: seq<Arrival>, next: int, ahead: nat, n: nat): (r: seq<nat>)
    requires n <= |a|
    ensures forall k: nat :: k in r <==> k < n && InReach(a[k], next, ahead)
  {
    if n == 0 then []
    else Near(a, next, ahead, n - 1) + if InReach(a[n - 1], next, ahead) then [n - 1] else []
  }

  function OrderRun(a: seq<Arrival>, s: seq<u8>, base: int, ahead: nat, maxLen: nat, order: seq<nat>): Run
    requires Indices(order, a)
  {
    Run(s, base, Ordered(a, order), ahead, maxLen)
  }

  ghost predicate Complete(run: Run) {
    Feed(run, |run.arrivals|).1 == run.s
  }

  /** An order the network may hand the segments over in, repetitions allowed, until none that it could
      hand over next is still to come. */
  ghost predicate Settles(a: seq<Arrival>, order: seq<nat>, run: Run) {
    && AdmissibleRun(run, |run.arrivals|)
    && forall k :: 0 <= k < |a| && InReach(a[k], Delivered(run, |run.arrivals|), run.ahead) ==> k in order
  }

  lemma PiecesOrdered(a: seq<Arrival>, s: seq<u8>, base: int, ahead: nat, maxLen: nat, order: seq<nat>, p: int)
    requires Pieces(a, s, base, ahead, maxLen) && Indices(order, a) && !StartsAt(a, p)
    ensures Pieces(Ordered(a, order), s, base, ahead, maxLen) && !StartsAt(Ordered(a, order), p)
  {
    assert forall k :: 0 <= k < |a| ==> a[k].position != p;
  }

  /** A path first, and then all that is within reach. */
  lemma PathThenNear(a: seq<Arrival>, path: seq<nat>, p: int, ahead: nat) returns (order: seq<nat>)
    requires Indices(path, a)
    ensures order == path + Near(a, p, ahead, |a|) && Indices(order, a)
    ensures forall j :: 0 <= j < |path| ==> Ordered(a, order)[j] == a[path[j]]
    ensures forall j :: |path| <= j < |order| ==> InReach(Ordered(a, order)[j], p, ahead)
    ensures forall k :: 0 <= k < |a| && InReach(a[k], p, ahead) ==> k in order
  {
    var near := Near(a, p, ahead, |a|);
    order := path + near;
    forall j | |path| <= j < |order| ensures order[j] < |a| && InReach(a[order[j]], p, ahead) {
      assert order[j] == near[j - |path|] && near[j - |path|] in near;
    }
  }

  /** From a dead end, an order that settles there. */
  lemma DeadEndOrder(a: seq<Arrival>, s: seq<u8>, base: int, ahead: nat, maxLen: nat, p: int) returns (order: seq<nat>)
    requires Pieces(a, s, base, ahead, maxLen) && DeadEnd(a, base, base + |s|, p)
    ensures Indices(order, a)
    ensures var run := OrderRun(a, s, base, ahead, maxLen, order); Settles(a, order, run) && !Complete(run)
    ensures base <= p <= base + |s| && forall k :: 0 <= k < |a| && InReach(a[k], p, ahead) ==> k in order
  {
    var path :| IsPath(a, path, base, p);
    PathSteps(a, path, base, p);
    order := PathThenNear(a, path, p, ahead);
    var run := OrderRun(a, s, base, ahead, maxLen, order);
    PiecesOrdered(a, s, base, ahead, maxLen, order, p);
    FeedAlong(run, a, path, p, |path|);
    StuckAt(run, |path|, |order|, p);
    DeliversAPrefix(run, |order|);
  }

  /** Without a dead end whatever settles is complete. */
  lemma SettledCompletes(a: seq<Arrival>, run: Run, order: seq<nat>)
    requires Pieces(a, run.s, run.base, run.ahead, run.maxLen) && Indices(order, a) && run.arrivals == Ordered(a, order)
    requires NoDeadEnd(a, run.base, run.base + |run.s|) && Settles(a, order, run)
    ensures Complete(run)
  {
    var b, n := run.arrivals, |run.arrivals|;
    var p := Delivered(run, n);
    assert b[..n] == b && Among(b, a);
    DeliveredIsReachable(run, n);
    DeliversAPrefix(run, n);
    ReachableAmong(b, a, run.base, p);
    assert !DeadEnd(a, run.base, run.base + |run.s|, p);
    if p != run.base + |run.s| { NotAwaited(a, run, order, p); }
  }

  lemma NotAwaited(a: seq<Arrival>, run: Run, order: seq<nat>, p: int)
    requires Pieces(a, run.s, run.base, run.ahead, run.maxLen) && Indices(order, a) && run.arrivals == Ordered(a, order)
    requires Settles(a, order, run) && p == Delivered(run, |run.arrivals|)
    ensures !StartsAt(a, p)
  {
    forall k | 0 <= k < |a| ensures a[k].position != p {
      if k in order {
        var j :| 0 <= j < |order| && order[j] == k;
        NoneStartsAtDelivered(run, |run.arrivals|, j);
      }
    }
  }

  /** OVERLAPS: of a set of segments of a stream, overlapping in any way, every order in which the
      network may hand them over, with any repetitions, ends with the whole stream delivered if and
      only if every position short of the end that can be reached by laying some of them end to end
      is the start of one of them. */
  lemma SettlesCompleteIff(a: seq<Arrival>, s: seq<u8>, base: int, ahead: nat, maxLen: nat)
    requires Pieces(a, s, base, ahead, maxLen)
    ensures (forall order :: Indices(order, a) && Settles(a, order, OrderRun(a, s, base, ahead, maxLen, order))
                 ==> Complete(OrderRun(a, s, base, ahead, maxLen, order)))
            <==> NoDeadEnd(a, base, base + |s|)
  {
    if NoDeadEnd(a, base, base + |s|) {
      forall order | Indices(order, a) && Settles(a, order, OrderRun(a, s, base, ahead, maxLen, order))
        ensures Complete(OrderRun(a, s, base, ahead, maxLen, order))
      {
        SettledCompletes(a, OrderRun(a, s, base, ahead, maxLen, order), order);
      }
    } else {
      var p := SomeDeadEnd(a, base, base + |s|);
      var order := DeadEndOrder(a, s, base, ahead, maxLen, p);
    }
  }

  lemma AllWithinReach(a: seq<Arrival>, s: seq<u8>, base: int, ahead: nat, maxLen: nat, p: int)
    requires Pieces(a, s, base, ahead, maxLen) && |s| <= ahead && base <= p <= base + |s|
    ensures forall k :: 0 <= k < |a| ==> InReach(a[k], p, ahead)
  {
    forall k | 0 <= k < |a| ensures InReach(a[k], p, ahead) {
      assert IsPiece(s, base, a[k].position, a[k].data);
    }
  }

  /** In particular: of a stream no longer than the network's reach, every order of the whole set
      delivers all if and only if that is so. */
  lemma DeliversInEveryOrderIff(a: seq<Arrival>, s: seq<u8>, base: int, ahead: nat, maxLen: nat)
    requires Pieces(a, s, base, ahead, maxLen) && |s| <= ahead
    ensures (forall order :: Exhausts(order, a) ==> Complete(OrderRun(a, s, base, ahead, maxLen, order)))
            <==> NoDeadEnd(a, base, base + |s|)
  {
    if NoDeadEnd(a, base, base + |s|) {
      forall order | Exhausts(order, a) ensures Complete(OrderRun(a, s, base, ahead, maxLen, order)) {
        var run := OrderRun(a, s, base, ahead, maxLen, order);
        PiecesCovered(a, s, base, ahead, maxLen, order);
        AnyOrderAdmissible(run, |order|);
        SettledCompletes(a, run, order);
      }
    } else {
      var p := SomeDeadEnd(a, base, base + |s|);
      var order := DeadEndOrder(a, s, base, ahead, maxLen, p);
      AllWithinReach(a, s, base, ahead, maxLen, p);
      assert Exhausts(order, a);
    }
  }

  lemma PiecesCovered(a: seq<Arrival>, s: seq<u8>, base: int, ahead: nat, maxLen: nat, order: seq<nat>)
    requires Pieces(a, s, base, ahead, maxLen) && Indices(order, a)
    ensures Pieces(Ordered(a, order), s, base, ahead, maxLen)
  {}
}
