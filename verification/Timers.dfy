/** The timer list of timer.rs.

    A closure is named by the number of the set_timer call that brought it.  The scan drops its
    lock while a closure runs, so a pass is split into steps: `Look` is one turn of the loop under
    the lock, and in the gap before `Resume` other threads, and the closure, may set and cancel.
  */
module Timers {
  import opened Words

  datatype Timer = Timer(deadline: nat, id: nat, closure: nat)

  datatype Firing = Firing(closure: nat, time: nat)

  /** Where the scan is: between passes, at the head of its loop, or in the gap of one turn. */
  datatype Scan = Idle | At(now: nat, i: nat) | Gap(now: nat, i: nat)

  /** The list and the counter, and what has happened: the deadline of every timer ever set, what
      fired and when, and what was cancelled. */
  datatype State = State(
    pending: seq<Timer>, nextId: u32, scan: Scan, deadlines: seq<nat>, fired: seq<Firing>, cancelled: seq<nat>)

  const START := State([], 1, Idle, [], [], [])

  // ---------- the operations on the list ----------

  function IdFrom(nextId: u32): nat { nextId % 0x8000_0000 }

  function Pushed(s: State, deadline: nat): State {
    s.(pending := s.pending + [Timer(deadline, IdFrom(s.nextId), |s.deadlines|)],
       nextId := WrappingAdd(s.nextId, 1),
       deadlines := s.deadlines + [deadline])
  }

  /** The first timer from `i` on with that identifier. */
  function Find(pending: seq<Timer>, id: int, i: nat): (r: Option<nat>)
    requires i <= |pending|
    ensures r.Some? ==> i <= r.value < |pending| && pending[r.value].id == id
    ensures r.None? ==> forall j :: i <= j < |pending| ==> pending[j].id != id
    decreases |pending| - i
  {
    if i == |pending| then None
    else if pending[i].id == id then Some(i)
    else Find(pending, id, i + 1)
  }

  /** Vec::swap_remove: the last element takes the place of the one removed. */
  function SwapRemove(p: seq<Timer>, i: nat): (r: seq<Timer>)
    requires i < |p|
    ensures |r| == |p| - 1
  {
    p[i := p[|p| - 1]][..|p| - 1]
  }

  function CancelAnswer(s: State, id: int): bool { Find(s.pending, id, 0).Some? }

  function Cancelled(s: State, id: int): State {
    match Find(s.pending, id, 0)
    case None => s
    case Some(i) => s.(pending := SwapRemove(s.pending, i), cancelled := s.cancelled + [s.pending[i].closure])
  }

  class TimerList {
    var pending: seq<Timer>
    var nextId: u32

    constructor ()
      ensures pending == START.pending && nextId == START.nextId
    {
      pending := [];
      nextId := 1;
    }

    ghost predicate Shows(s: State)
      reads this
    {
      pending == s.pending && nextId == s.nextId
    }

    /** `closure` is the number of timers set before. */
    method SetTimer(currentTime: nat, timeoutMs: u32, closure: nat, ghost s: State) returns (id: nat)
      requires Shows(s) && closure == |s.deadlines|
      modifies this
      ensures Shows(Pushed(s, currentTime + timeoutMs)) && id == IdFrom(old(nextId))
      ensures CancelAnswer(Pushed(s, currentTime + timeoutMs), id)
      ensures Inv(s) ==> id == IdOf(closure)
    {
      id := nextId % 0x8000_0000;
      nextId := WrappingAdd(nextId, 1);
      pending := pending + [Timer(currentTime + timeoutMs, id, closure)];
      assert pending[|pending| - 1].id == id;
      NextIdIs(closure);
    }

    method CancelTimer(timerId: int, ghost s: State) returns (found: bool)
      requires Shows(s)
      modifies this
      ensures Shows(Cancelled(s, timerId)) && found == CancelAnswer(s, timerId)
    {
      var i := 0;
      while i < |pending|
        invariant i <= |pending| && Shows(s) && Find(pending, timerId, i) == Find(pending, timerId, 0)
      {
        if pending[i].id == timerId {
          pending := pending[i := pending[|pending| - 1]][..|pending| - 1];
          return true;
        }
        i := i + 1;
      }
      return false;
    }

    /** One turn of the loop of the scan: the timer to fire now, or the next index. */
    method LookAt(now: nat, i: nat, ghost s: State) returns (due: Option<Timer>, next: nat)
      requires Shows(s) && s.scan == At(now, i)
      modifies this`pending
      ensures Shows(Looked(s))
      ensures due == if i < |s.pending| && now >= s.pending[i].deadline then Some(s.pending[i]) else None
      ensures Looked(s).scan == if i >= |s.pending| then Idle else if due.Some? then Gap(now, next) else At(now, next)
      ensures forall k :: IsPending(pending, k) + (if due.Some? && due.value.closure == k then 1 else 0) == IsPending(s.pending, k)
    {
      due, next := None, i;
      if i < |pending| {
        if now >= pending[i].deadline {
          due := Some(pending[i]);
          forall k ensures IsPending(s.pending, k) == IsPending(Without(s.pending, i), k) + if s.pending[i].closure == k then 1 else 0 {
            PendingRemoved(s.pending, i, k);
          }
          pending := pending[..i] + pending[i + 1..];
        } else {
          next := i + 1;
        }
      }
    }
  }

  function Looked(s: State): State
    requires s.scan.At?
  {
    var now, i := s.scan.now, s.scan.i;
    if i >= |s.pending| then s.(scan := Idle)
    else if now >= s.pending[i].deadline then
      s.(pending := Without(s.pending, i), scan := Gap(now, i), fired := s.fired + [Firing(s.pending[i].closure, now)])
    else s.(scan := At(now, i + 1))
  }

  // ---------- runs ----------

  datatype Action = Set(time: nat, timeout: u32) | Cancel(id: int) | Begin(now: nat) | Look | Resume

  /** Nothing else happens while the scan holds the lock. */
  predicate Enabled(s: State, a: Action) {
    match a
    case Set(_, _) => !s.scan.At?
    case Cancel(_) => !s.scan.At?
    case Begin(_) => s.scan.Idle?
    case Look => s.scan.At?
    case Resume => s.scan.Gap?
  }

  function Act(s: State, a: Action): State
    requires Enabled(s, a)
  {
    match a
    case Set(time, timeout) => Pushed(s, time + timeout)
    case Cancel(id) => Cancelled(s, id)
    case Begin(now) => s.(scan := At(now, 0))
    case Look => Looked(s)
    case Resume => s.(scan := At(s.scan.now, s.scan.i))
  }

  function Run(s: State, actions: seq<Action>): Option<State>
    decreases |actions|
  {
    if actions == [] then Some(s)
    else if Enabled(s, actions[0]) then Run(Act(s, actions[0]), actions[1..])
    else None
  }

  // ---------- every timer is in one place ----------

  function IsPending(p: seq<Timer>, k: nat): nat {
    if p == [] then 0 else (if p[0].closure == k then 1 else 0) + IsPending(p[1..], k)
  }

  function HasFired(f: seq<Firing>, k: nat): nat {
    if f == [] then 0 else (if f[0].closure == k then 1 else 0) + HasFired(f[1..], k)
  }

  function IsCancelled(c: seq<nat>, k: nat): nat {
    if c == [] then 0 else (if c[0] == k then 1 else 0) + IsCancelled(c[1..], k)
  }

  /** In how many places closure `k` is. */
  function Places(s: State, k: nat): nat { IsPending(s.pending, k) + HasFired(s.fired, k) + IsCancelled(s.cancelled, k) }

  function IdOf(closure: nat): nat { (closure + 1) % 0x8000_0000 }

  predicate TimerOk(s: State, t: Timer) {
    t.closure < |s.deadlines| && t.deadline == s.deadlines[t.closure] && t.id == IdOf(t.closure)
  }

  predicate FiringOk(s: State, f: Firing) { f.closure < |s.deadlines| && f.time >= s.deadlines[f.closure] }

  ghost predicate Inv(s: State) {
    && (forall k: nat :: Places(s, k) == if k < |s.deadlines| then 1 else 0)
    && s.nextId == Wrap(|s.deadlines| + 1)
    && (forall i :: 0 <= i < |s.pending| ==> TimerOk(s, s.pending[i]))
    && (forall i :: 0 <= i < |s.fired| ==> FiringOk(s, s.fired[i]))
  }

  lemma {:induction false} PendingConcat(a: seq<Timer>, b: seq<Timer>, k: nat)
    ensures IsPending(a + b, k) == IsPending(a, k) + IsPending(b, k)
    decreases |a|
  {
    if a == [] {
      assert a + b == b;
    } else {
      assert (a + b)[0] == a[0] && (a + b)[1..] == a[1..] + b;
      PendingConcat(a[1..], b, k);
    }
  }

  lemma PendingOneMore(p: seq<Timer>, t: Timer, k: nat)
    ensures IsPending(p + [t], k) == IsPending(p, k) + if t.closure == k then 1 else 0
  {
    PendingConcat(p, [t], k);
    assert [t][1..] == [];
  }

  lemma {:induction false} FiredOneMore(f: seq<Firing>, x: Firing, k: nat)
    ensures HasFired(f + [x], k) == HasFired(f, k) + if x.closure == k then 1 else 0
    decreases |f|
  {
    if f == [] {
      assert (f + [x])[1..] == [];
    } else {
      assert (f + [x])[0] == f[0] && (f + [x])[1..] == f[1..] + [x];
      FiredOneMore(f[1..], x, k);
    }
  }

  lemma {:induction false} CancelledOneMore(c: seq<nat>, x: nat, k: nat)
    ensures IsCancelled(c + [x], k) == IsCancelled(c, k) + if x == k then 1 else 0
    decreases |c|
  {
    if c == [] {
      assert (c + [x])[1..] == [];
    } else {
      assert (c + [x])[0] == c[0] && (c + [x])[1..] == c[1..] + [x];
      CancelledOneMore(c[1..], x, k);
    }
  }

  lemma {:induction false} PendingRemoved(p: seq<Timer>, i: nat, k: nat)
    requires i < |p|
    ensures IsPending(p, k) == IsPending(Without(p, i), k) + if p[i].closure == k then 1 else 0
    decreases i
  {
    var r := Without(p, i);
    if i == 0 {
      assert r == p[1..];
    } else {
      assert r[0] == p[0] && r[1..] == Without(p[1..], i - 1);
      PendingRemoved(p[1..], i - 1, k);
    }
  }

  /** Swapping in the last element takes out the same one. */
  lemma PendingSwapRemoved(p: seq<Timer>, i: nat, k: nat)
    requires i < |p|
    ensures IsPending(p, k) == IsPending(SwapRemove(p, i), k) + if p[i].closure == k then 1 else 0
  {
    var n := |p| - 1;
    var front := p[..n];
    PendingOneMore(front, p[n], k);
    assert p == front + [p[n]];
    if i < n {
      var r := SwapRemove(p, i);
      PendingRemoved(front, i, k);
      PendingRemoved(r, i, k);
      assert Without(r, i) == Without(front, i);
    } else {
      assert SwapRemove(p, i) == front;
    }
  }

  lemma SetKeeps(s: State, deadline: nat)
    requires Inv(s)
    ensures Inv(Pushed(s, deadline))
  {
    var e := Pushed(s, deadline);
    var t := Timer(deadline, IdFrom(s.nextId), |s.deadlines|);
    forall k: nat ensures Places(e, k) == if k < |e.deadlines| then 1 else 0 {
      PendingOneMore(s.pending, t, k);
      assert Places(s, k) == if k < |s.deadlines| then 1 else 0;
    }
    NextIdIs(|s.deadlines|);
    forall i | 0 <= i < |e.pending| ensures TimerOk(e, e.pending[i]) {
      if i < |s.pending| { assert TimerOk(s, s.pending[i]); }
    }
    forall i | 0 <= i < |e.fired| ensures FiringOk(e, e.fired[i]) {
      assert FiringOk(s, s.fired[i]);
    }
  }

  lemma NextIdIs(n: nat)
    ensures IdFrom(Wrap(n + 1)) == IdOf(n) && WrappingAdd(Wrap(n + 1), 1) == Wrap(n + 2)
  {
    HalfOf(n + 1);
    WrapAdd(n + 1, 1);
  }

  lemma HalfOf(n: nat)
    ensures n % 0x1_0000_0000 % 0x8000_0000 == n % 0x8000_0000
  {
    var k := n / 0x1_0000_0000;
    assert n == n % 0x1_0000_0000 + 0x8000_0000 * (2 * k);
    AddHalves(n % 0x1_0000_0000, 2 * k);
  }

  lemma AddHalves(x: nat, k: nat)
    ensures (x + 0x8000_0000 * k) % 0x8000_0000 == x % 0x8000_0000
  {}

  lemma CancelKeeps(s: State, id: int)
    requires Inv(s)
    ensures Inv(Cancelled(s, id))
  {
    var e := Cancelled(s, id);
    if CancelAnswer(s, id) {
      var i := Find(s.pending, id, 0).value;
      forall k: nat ensures Places(e, k) == Places(s, k) {
        PendingSwapRemoved(s.pending, i, k);
        CancelledOneMore(s.cancelled, s.pending[i].closure, k);
      }
      forall j | 0 <= j < |e.pending| ensures TimerOk(e, e.pending[j]) {
        assert TimerOk(s, s.pending[j]) && TimerOk(s, s.pending[|s.pending| - 1]);
      }
      forall j | 0 <= j < |e.fired| ensures FiringOk(e, e.fired[j]) {
        assert FiringOk(s, s.fired[j]);
      }
    }
  }

  lemma LookKeeps(s: State)
    requires Inv(s) && s.scan.At?
    ensures Inv(Looked(s))
  {
    var e := Looked(s);
    var i := s.scan.i;
    if i < |s.pending| && s.scan.now >= s.pending[i].deadline {
      var f := Firing(s.pending[i].closure, s.scan.now);
      forall k: nat ensures Places(e, k) == Places(s, k) {
        PendingRemoved(s.pending, i, k);
        FiredOneMore(s.fired, f, k);
      }
      assert TimerOk(s, s.pending[i]);
      forall j | 0 <= j < |e.pending| ensures TimerOk(e, e.pending[j]) {
        assert TimerOk(s, s.pending[if j < i then j else j + 1]);
      }
      forall j | 0 <= j < |e.fired| ensures FiringOk(e, e.fired[j]) {
        if j < |s.fired| { assert FiringOk(s, s.fired[j]); }
      }
    } else {
      SameListKeeps(s, e.scan);
    }
  }

  lemma SameListKeeps(s: State, scan: Scan)
    requires Inv(s)
    ensures Inv(s.(scan := scan))
  {
    var e := s.(scan := scan);
    assert forall k: nat :: Places(e, k) == Places(s, k);
    assert forall i :: 0 <= i < |e.pending| ==> TimerOk(s, e.pending[i]);
    assert forall i :: 0 <= i < |e.fired| ==> FiringOk(s, e.fired[i]);
  }

  lemma ActKeeps(s: State, a: Action)
    requires Inv(s) && Enabled(s, a)
    ensures Inv(Act(s, a))
  {
    match a
    case Set(time, timeout) => SetKeeps(s, time + timeout);
    case Cancel(id) => CancelKeeps(s, id);
    case Begin(now) => SameListKeeps(s, At(now, 0));
    case Look => LookKeeps(s);
    case Resume => SameListKeeps(s, At(s.scan.now, s.scan.i));
  }

  lemma {:induction false} RunKeeps(s: State, actions: seq<Action>)
    requires Inv(s) && Run(s, actions).Some?
    ensures Inv(Run(s, actions).value)
    decreases |actions|
  {
    if actions != [] {
      ActKeeps(s, actions[0]);
      RunKeeps(Act(s, actions[0]), actions[1..]);
    }
  }

  ghost predicate Reachable(s: State) { exists actions :: Run(START, actions) == Some(s) }

  lemma ReachableInv(s: State)
    requires Reachable(s)
    ensures Inv(s)
  {
    var actions :| Run(START, actions) == Some(s);
    RunKeeps(START, actions);
  }

  /** LINEARITY: whatever is set and cancelled in the gaps of the scan, every timer ever set is in
      exactly one place, once: pending, fired or cancelled; and none fires before its deadline. */
  lemma EachTimerOnce(s: State, k: nat)
    requires Reachable(s)
    ensures IsPending(s.pending, k) + HasFired(s.fired, k) + IsCancelled(s.cancelled, k) == if k < |s.deadlines| then 1 else 0
    ensures forall i :: 0 <= i < |s.fired| ==> s.fired[i].closure < |s.deadlines| && s.fired[i].time >= s.deadlines[s.fired[i].closure]
  {
    ReachableInv(s);
    assert Places(s, k) == if k < |s.deadlines| then 1 else 0;
    assert forall i :: 0 <= i < |s.fired| ==> FiringOk(s, s.fired[i]);
  }

  // ---------- cancelling ----------

  lemma {:induction false} CancelledStays(s: State, actions: seq<Action>, k: nat)
    requires Run(s, actions).Some?
    ensures IsCancelled(s.cancelled, k) <= IsCancelled(Run(s, actions).value.cancelled, k)
    decreases |actions|
  {
    if actions != [] {
      if actions[0].Cancel? && CancelAnswer(s, actions[0].id) {
        CancelledOneMore(s.cancelled, s.pending[Find(s.pending, actions[0].id, 0).value].closure, k);
      }
      CancelledStays(Act(s, actions[0]), actions[1..], k);
    }
  }

  lemma {:induction false} RunConcat(s: State, a: seq<Action>, b: seq<Action>)
    requires Run(s, a).Some?
    ensures Run(s, a + b) == Run(Run(s, a).value, b)
    decreases |a|
  {
    if a == [] {
      assert a + b == b;
    } else {
      assert (a + b)[0] == a[0] && (a + b)[1..] == a[1..] + b;
      RunConcat(Act(s, a[0]), a[1..], b);
    }
  }

  /** When cancel_timer answers true, the closure of the timer it found has not run and never will. */
  lemma CancelledNeverFires(s: State, id: int, later: seq<Action>)
    requires Reachable(s) && !s.scan.At? && CancelAnswer(s, id) && Run(Cancelled(s, id), later).Some?
    ensures var k := s.pending[Find(s.pending, id, 0).value].closure;
            HasFired(Run(Cancelled(s, id), later).value.fired, k) == 0
  {
    var k := s.pending[Find(s.pending, id, 0).value].closure;
    var e := Run(Cancelled(s, id), later).value;
    var actions :| Run(START, actions) == Some(s);
    RunConcat(START, actions, [Cancel(id)] + later);
    assert ([Cancel(id)] + later)[1..] == later;
    assert Reachable(e);
    EachTimerOnce(e, k);
    CancelledStays(Cancelled(s, id), later, k);
    CancelledOneMore(s.cancelled, k, k);
  }

  lemma {:induction false} PendingIff(p: seq<Timer>, k: nat)
    ensures IsPending(p, k) > 0 <==> exists i :: 0 <= i < |p| && p[i].closure == k
  {
    if p != [] {
      PendingIff(p[1..], k);
      assert forall i :: 0 <= i < |p| - 1 ==> p[1..][i] == p[i + 1];
      if IsPending(p, k) > 0 && p[0].closure != k {
        var i :| 0 <= i < |p[1..]| && p[1..][i].closure == k;
        assert p[i + 1].closure == k;
      }
      if exists i :: 0 <= i < |p| && p[i].closure == k {
        var i :| 0 <= i < |p| && p[i].closure == k;
        assert i > 0 ==> p[1..][i - 1].closure == k;
      }
    }
  }

  /** With fewer than 2^31 timers set, the identifier names the timer: cancel_timer answers true
      exactly if that timer is pending, and takes that one out. */
  lemma CancelIffPending(s: State, id: int)
    requires Reachable(s) && |s.deadlines| < 0x8000_0000
    ensures CancelAnswer(s, id) <==> id >= 1 && IsPending(s.pending, id - 1) > 0
    ensures CancelAnswer(s, id) ==> Cancelled(s, id).cancelled == s.cancelled + [id - 1]
  {
    ReachableInv(s);
    assert forall i :: 0 <= i < |s.pending| ==> TimerOk(s, s.pending[i]) && s.pending[i].id == s.pending[i].closure + 1;
    if id >= 1 {
      PendingIff(s.pending, id - 1);
    }
  }

  predicate GoodIds(n: nat) {
    && (forall k :: 0 <= k < n ==> IdOf(k) > 0)
    && (forall j, k :: 0 <= j < k < n ==> IdOf(j) != IdOf(k))
  }

  /** Identifiers are positive and distinct for fewer than 2^31 timers, and for no more: the next
      one is 0. */
  lemma GoodIdsIff(n: nat)
    ensures GoodIds(n) <==> n < 0x8000_0000
  {
    if n >= 0x8000_0000 {
      assert IdOf(0x7fff_ffff) == 0;
    }
  }

  // ---------- the scan ----------

  /** What cancel_timer can see before it acts: timer `k` is the one it will take out, or the scan is
      in a gap, the one it will take out lies before the index, and the last one of the list, which
      takes its place, is `k`. */
  predicate Loses(s: State, a: Action, k: nat) {
    a.Cancel? && CancelAnswer(s, a.id) &&
    var j, last := Find(s.pending, a.id, 0).value, |s.pending| - 1;
    || s.pending[j].closure == k
    || (s.scan.Gap? && j < s.scan.i <= last && s.pending[last].closure == k)
  }

  predicate NeverLoses(s: State, actions: seq<Action>, k: nat)
    requires Run(s, actions).Some?
    decreases |actions|
  {
    actions == [] || (!Loses(s, actions[0], k) && NeverLoses(Act(s, actions[0]), actions[1..], k))
  }

  ghost predicate Within(p: seq<Timer>, i: nat, k: nat) {
    exists j :: i <= j < |p| && p[j].closure == k
  }

  /** The scan at time `now` will still come to timer `k`, which is due. */
  ghost predicate Ahead(s: State, k: nat, now: nat) {
    && k < |s.deadlines| && s.deadlines[k] <= now
    && !s.scan.Idle? && s.scan.now == now && Within(s.pending, s.scan.i, k)
  }

  /** Timer `k` has not fired, and is nowhere the scan will still come to. */
  ghost predicate OutOfReach(s: State, k: nat) {
    && k < |s.deadlines| && HasFired(s.fired, k) == 0
    && (s.scan.Idle? || !Within(s.pending, s.scan.i, k))
  }

  lemma Twice(p: seq<Timer>, k: nat, i: nat, j: nat)
    requires i < |p| && j < |p| && i != j && p[i].closure == k && p[j].closure == k
    ensures IsPending(p, k) >= 2
  {
    var rest := Without(p, i);
    PendingRemoved(p, i, k);
    assert rest[if j < i then j else j - 1] == p[j];
    PendingIff(rest, k);
  }

  /** An action that is no loss leaves a timer within reach there, or fires it. */
  lemma AheadStep(s: State, a: Action, k: nat, now: nat)
    requires Inv(s) && Enabled(s, a) && !a.Begin? && Ahead(s, k, now) && !Loses(s, a, k)
    ensures Ahead(Act(s, a), k, now) || HasFired(Act(s, a).fired, k) > 0
  {
    var e := Act(s, a);
    var j :| s.scan.i <= j < |s.pending| && s.pending[j].closure == k;
    if a.Set? {
      assert e.pending[j] == s.pending[j];
    } else if a.Look? {
      assert TimerOk(s, s.pending[j]);
      AheadLooked(s, k, j);
    } else if a.Cancel? && CancelAnswer(s, a.id) {
      var n := |s.pending| - 1;
      assert e.pending[if j == n then Find(s.pending, a.id, 0).value else j].closure == k;
    }
  }

  lemma AheadLooked(s: State, k: nat, j: nat)
    requires s.scan.At? && s.scan.i <= j < |s.pending| && s.pending[j].closure == k && s.pending[j].deadline <= s.scan.now
    ensures !Looked(s).scan.Idle? && Looked(s).scan.now == s.scan.now
    ensures Within(Looked(s).pending, Looked(s).scan.i, k) || HasFired(Looked(s).fired, k) > 0
  {
    var e, i := Looked(s), s.scan.i;
    if i == j {
      FiredOneMore(s.fired, Firing(k, s.scan.now), k);
    } else if s.scan.now >= s.pending[i].deadline {
      assert e.pending[j - 1] == s.pending[j];
    } else {
      assert e.pending[j] == s.pending[j];
    }
  }

  /** A loss puts the timer out of reach. */
  lemma LossStep(s: State, a: Action, k: nat, now: nat)
    requires Inv(s) && Enabled(s, a) && Ahead(s, k, now) && Loses(s, a, k)
    ensures OutOfReach(Act(s, a), k)
  {
    var e, i := Act(s, a), s.scan.i;
    var j, n := Find(s.pending, a.id, 0).value, |s.pending| - 1;
    assert Places(s, k) == 1;
    PendingIff(s.pending, k);
    var was := if s.pending[j].closure == k then j else n;
    forall p | i <= p < |e.pending| ensures e.pending[p].closure != k {
      var q := if p == j then n else p;
      assert e.pending[p] == s.pending[q] && q != was;
      if s.pending[q].closure == k { Twice(s.pending, k, q, was); }
    }
  }

  /** Out of reach, the timer stays out of reach. */
  lemma OutOfReachStep(s: State, a: Action, k: nat)
    requires Enabled(s, a) && !a.Begin? && OutOfReach(s, k)
    ensures OutOfReach(Act(s, a), k)
  {
    var e := Act(s, a);
    if a.Look? && s.scan.i < |s.pending| {
      var i := s.scan.i;
      assert s.pending[i].closure != k;
      FiredOneMore(s.fired, Firing(s.pending[i].closure, s.scan.now), k);
      if s.scan.now >= s.pending[i].deadline {
        assert forall p :: i <= p < |e.pending| ==> e.pending[p] == s.pending[p + 1];
      }
    }
  }

  /** A timer that has fired is not in the list, so it cannot be lost. */
  lemma FiredStep(s: State, a: Action, k: nat)
    requires Inv(s) && Enabled(s, a) && HasFired(s.fired, k) > 0
    ensures !Loses(s, a, k) && HasFired(Act(s, a).fired, k) > 0
  {
    assert Places(s, k) <= 1;
    PendingIff(s.pending, k);
    if a.Look? && s.scan.i < |s.pending| {
      FiredOneMore(s.fired, Firing(s.pending[s.scan.i].closure, s.scan.now), k);
    }
  }

  lemma {:induction false} FiredRun(s: State, pass: seq<Action>, k: nat)
    requires Inv(s) && Run(s, pass).Some? && HasFired(s.fired, k) > 0
    ensures NeverLoses(s, pass, k) && HasFired(Run(s, pass).value.fired, k) > 0
    decreases |pass|
  {
    if pass != [] {
      FiredStep(s, pass[0], k);
      ActKeeps(s, pass[0]);
      FiredRun(Act(s, pass[0]), pass[1..], k);
    }
  }

  lemma {:induction false} OutOfReachRun(s: State, pass: seq<Action>, k: nat)
    requires Run(s, pass).Some? && OutOfReach(s, k) && forall j :: 0 <= j < |pass| ==> !pass[j].Begin?
    ensures HasFired(Run(s, pass).value.fired, k) == 0
    decreases |pass|
  {
    if pass != [] {
      OutOfReachStep(s, pass[0], k);
      OutOfReachRun(Act(s, pass[0]), pass[1..], k);
    }
  }

  lemma {:induction false} AheadRun(s: State, pass: seq<Action>, k: nat, now: nat)
    requires Inv(s) && Run(s, pass).Some? && Run(s, pass).value.scan.Idle? && Ahead(s, k, now)
    requires forall j :: 0 <= j < |pass| ==> !pass[j].Begin?
    ensures HasFired(Run(s, pass).value.fired, k) > 0 <==> NeverLoses(s, pass, k)
    decreases |pass|
  {
    if pass != [] {
      var a, rest, e := pass[0], pass[1..], Act(s, pass[0]);
      ActKeeps(s, a);
      if Loses(s, a, k) {
        LossStep(s, a, k, now);
        OutOfReachRun(e, rest, k);
      } else {
        AheadStep(s, a, k, now);
        if HasFired(e.fired, k) > 0 {
          FiredRun(e, rest, k);
        } else {
          AheadRun(e, rest, k, now);
        }
      }
    }
  }

  /** COMPLETENESS: a timer that was pending and due when a pass began has fired when the pass has
      ended if and only if no cancel in between took it out, or swapped it in front of the index. */
  lemma PassFiresIff(s: State, now: nat, pass: seq<Action>, i: nat)
    requires Reachable(s) && s.scan.Idle? && i < |s.pending| && s.pending[i].deadline <= now
    requires Run(s.(scan := At(now, 0)), pass).Some? && Run(s.(scan := At(now, 0)), pass).value.scan.Idle?
    requires forall j :: 0 <= j < |pass| ==> !pass[j].Begin?
    ensures var b, k := s.(scan := At(now, 0)), s.pending[i].closure;
            HasFired(Run(b, pass).value.fired, k) == 1 <==> NeverLoses(b, pass, k)
  {
    var b, k := s.(scan := At(now, 0)), s.pending[i].closure;
    ReachableInv(s);
    assert TimerOk(s, s.pending[i]);
    SameListKeeps(s, At(now, 0));
    assert Within(b.pending, 0, k);
    AheadRun(b, pass, k, now);
    RunKeeps(b, pass);
    assert Places(Run(b, pass).value, k) <= 1;
  }

  lemma {:induction false} NoCancelNoLoss(s: State, pass: seq<Action>, k: nat)
    requires Run(s, pass).Some? && forall j :: 0 <= j < |pass| ==> !pass[j].Cancel?
    ensures NeverLoses(s, pass, k)
    decreases |pass|
  {
    if pass != [] {
      NoCancelNoLoss(Act(s, pass[0]), pass[1..], k);
    }
  }

  /** In particular every due timer fires in a pass in which nothing is cancelled. */
  lemma PassFiresAllDue(s: State, now: nat, pass: seq<Action>, i: nat)
    requires Reachable(s) && s.scan.Idle? && i < |s.pending| && s.pending[i].deadline <= now
    requires Run(s.(scan := At(now, 0)), pass).Some? && Run(s.(scan := At(now, 0)), pass).value.scan.Idle?
    requires forall j :: 0 <= j < |pass| ==> !pass[j].Cancel? && !pass[j].Begin?
    ensures HasFired(Run(s.(scan := At(now, 0)), pass).value.fired, s.pending[i].closure) == 1
  {
    PassFiresIff(s, now, pass, i);
    NoCancelNoLoss(s.(scan := At(now, 0)), pass, s.pending[i].closure);
  }

  lemma RunStep(s: State, actions: seq<Action>, a: Action, rest: seq<Action>)
    requires actions == [a] + rest && Enabled(s, a)
    ensures Run(s, actions) == Run(Act(s, a), rest)
  {
    assert actions[0] == a && actions[1..] == rest;
  }

  /** Three timers: one for later, and two that are due at time 10. */
  function ThreeSet(): State {
    START.(pending := [Timer(99, 1, 0), Timer(5, 2, 1), Timer(6, 3, 2)], nextId := 4, deadlines := [99, 5, 6])
  }

  lemma ThreeAreSet()
    ensures Run(START, [Set(0, 99), Set(0, 5), Set(0, 6)]) == Some(ThreeSet())
  {
    var s1 := START.(pending := [Timer(99, 1, 0)], nextId := 2, deadlines := [99]);
    var s2 := START.(pending := [Timer(99, 1, 0), Timer(5, 2, 1)], nextId := 3, deadlines := [99, 5]);
    assert Pushed(START, 99) == s1;
    assert Pushed(s1, 5) == s2;
    assert Pushed(s2, 6) == ThreeSet();
    RunStep(START, [Set(0, 99), Set(0, 5), Set(0, 6)], Set(0, 99), [Set(0, 5), Set(0, 6)]);
    RunStep(s1, [Set(0, 5), Set(0, 6)], Set(0, 5), [Set(0, 6)]);
    RunStep(s2, [Set(0, 6)], Set(0, 6), []);
  }

  /** The scan has fired the second and is in the gap; the first is cancelled. */
  lemma SkipsThird(s: State)
    requires s == ThreeSet().(pending := [Timer(99, 1, 0), Timer(6, 3, 2)], scan := Gap(10, 1), fired := [Firing(1, 10)])
    ensures Run(s, [Cancel(1), Resume, Look])
         == Some(s.(pending := [Timer(6, 3, 2)], scan := Idle, cancelled := [0]))
    ensures Loses(s, Cancel(1), 2)
  {
    var c := s.(pending := [Timer(6, 3, 2)], cancelled := [0]);
    assert Find(s.pending, 1, 0) == Some(0) && Cancelled(s, 1) == c;
    RunStep(s, [Cancel(1), Resume, Look], Cancel(1), [Resume, Look]);
    RunStep(c, [Resume, Look], Resume, [Look]);
    RunStep(c.(scan := At(10, 1)), [Look], Look, []);
  }

  /** A cancel in the gap can move a due timer in front of the index.  The pass then ends without
      firing it, and it is still pending. */
  lemma CancelMaySkip()
    ensures Run(START, [Set(0, 99), Set(0, 5), Set(0, 6)]) == Some(ThreeSet())
    ensures var e := Run(ThreeSet(), [Begin(10), Look, Look, Cancel(1), Resume, Look]);
            e.Some? && e.value.scan.Idle? && e.value.pending == [Timer(6, 3, 2)] && e.value.fired == [Firing(1, 10)]
  {
    ThreeAreSet();
    var s := ThreeSet();
    var g := s.(pending := [Timer(99, 1, 0), Timer(6, 3, 2)], scan := Gap(10, 1), fired := [Firing(1, 10)]);
    assert Looked(s.(scan := At(10, 1))) == g;
    RunStep(s, [Begin(10), Look, Look, Cancel(1), Resume, Look], Begin(10), [Look, Look, Cancel(1), Resume, Look]);
    RunStep(s.(scan := At(10, 0)), [Look, Look, Cancel(1), Resume, Look], Look, [Look, Cancel(1), Resume, Look]);
    RunStep(s.(scan := At(10, 1)), [Look, Cancel(1), Resume, Look], Look, [Cancel(1), Resume, Look]);
    SkipsThird(g);
  }

  // ---------- the end of a pass ----------

  function Due(p: seq<Timer>, now: nat): nat {
    if p == [] then 0 else (if p[0].deadline <= now then 1 else 0) + Due(p[1..], now)
  }

  lemma {:induction false} DueConcat(a: seq<Timer>, b: seq<Timer>, now: nat)
    ensures Due(a + b, now) == Due(a, now) + Due(b, now)
    decreases |a|
  {
    if a == [] {
      assert a + b == b;
    } else {
      assert (a + b)[0] == a[0] && (a + b)[1..] == a[1..] + b;
      DueConcat(a[1..], b, now);
    }
  }

  lemma DueOne(t: Timer, now: nat)
    ensures Due([t], now) == if t.deadline <= now then 1 else 0
  {
    assert [t][1..] == [];
  }

  lemma DueRemoved(p: seq<Timer>, i: nat, now: nat)
    requires i < |p|
    ensures Due(p, now) == Due(Without(p, i), now) + if p[i].deadline <= now then 1 else 0
  {
    DueConcat(p[..i], p[i + 1..], now);
    DueConcat(p[..i], [p[i]] + p[i + 1..], now);
    DueConcat([p[i]], p[i + 1..], now);
    DueOne(p[i], now);
    assert p == p[..i] + ([p[i]] + p[i + 1..]);
  }

  lemma DueSwapRemoved(p: seq<Timer>, i: nat, now: nat)
    requires i < |p|
    ensures Due(SwapRemove(p, i), now) <= Due(p, now)
  {
    var n := |p| - 1;
    var front := p[..n];
    DueConcat(front, [p[n]], now);
    assert p == front + [p[n]];
    if i < n {
      var r := SwapRemove(p, i);
      DueRemoved(front, i, now);
      DueRemoved(r, i, now);
      DueOne(p[n], now);
      assert Without(r, i) == Without(front, i);
    } else {
      assert SwapRemove(p, i) == front;
    }
  }

  /** In the gap: timers are cancelled, or set for later than the time of the pass. */
  predicate GapAction(a: Action, now: nat) { a.Cancel? || (a.Set? && a.time + a.timeout > now) }

  lemma {:induction false} GapAddsNoDue(s: State, gap: seq<Action>, now: nat)
    requires s.scan.Gap? && s.scan.now == now && forall j :: 0 <= j < |gap| ==> GapAction(gap[j], now)
    ensures Run(s, gap).Some? && Run(s, gap).value.scan == s.scan
    ensures Due(Run(s, gap).value.pending, now) <= Due(s.pending, now)
    decreases |gap|
  {
    if gap != [] {
      var e := Act(s, gap[0]);
      assert GapAction(gap[0], now);
      if gap[0].Set? {
        var t := Timer(gap[0].time + gap[0].timeout, IdFrom(s.nextId), |s.deadlines|);
        DueConcat(s.pending, [t], now);
        DueOne(t, now);
      } else if CancelAnswer(s, gap[0].id) {
        DueSwapRemoved(s.pending, Find(s.pending, gap[0].id, 0).value, now);
      }
      GapAddsNoDue(e, gap[1..], now);
    }
  }

  /** TERMINATION: if nothing is set in a pass that is already due, every turn of its loop, with
      whatever happens in the gap, lowers the number of due timers, or leaves it and comes nearer
      to the end of the list. */
  lemma TurnDescends(s: State, gap: seq<Action>)
    requires s.scan.At? && s.scan.i < |s.pending|
    requires forall j :: 0 <= j < |gap| ==> GapAction(gap[j], s.scan.now)
    ensures var now := s.scan.now;
            if s.pending[s.scan.i].deadline <= now
            then var e := Run(Looked(s), gap + [Resume]);
                 e.Some? && e.value.scan == s.scan && Due(e.value.pending, now) < Due(s.pending, now)
            else var e := Looked(s);
                 e.pending == s.pending && e.scan == At(now, s.scan.i + 1) && |e.pending| - e.scan.i < |s.pending| - s.scan.i
  {
    var now := s.scan.now;
    if s.pending[s.scan.i].deadline <= now {
      var g := Looked(s);
      DueRemoved(s.pending, s.scan.i, now);
      GapAddsNoDue(g, gap, now);
      RunConcat(g, gap, [Resume]);
      assert [Resume][1..] == [];
    }
  }
}
