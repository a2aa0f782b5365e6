/** The acknowledgement of a FIN.

    send_packet acknowledges one number more once the connection is closing, and promises to do so
    only when all other data has been received.  It decides that by comparing the end of what has
    arrived with the position awaited: here is when that comparison is right.
  */
module Fin {
  import opened Words
  import opened Reassembler
  import opened Socket
  import opened Lifecycle

  // ---------- the receive side over a run ----------

  /** The socket's receive fields after the first `n` arrivals of a run. */
  ghost predicate Reflects(s: Sock, run: Run, n: nat)
    requires n <= |run.arrivals|
  {
    s.reassembler == Feed(run, n).0 && s.receiveNextSeq == HighWater(run, n)
  }

  /** The data segment an event brings. */
  function DataIn(e: Event): seq<Segment> {
    if e.Arrives? && !HasRst(e.segment.flags) && e.segment.payload != [] then [e.segment] else []
  }

  /** The data segments among the first `n` events. */
  function DataOf(events: seq<Event>, n: nat): seq<Segment>
    requires n <= |events|
  {
    if n == 0 then [] else DataOf(events, n - 1) + DataIn(events[n - 1])
  }

  /** Those segments are the arrivals of the run, their positions wrapped. */
  ghost predicate Carry(data: seq<Segment>, run: Run) {
    && |data| <= |run.arrivals|
    && forall i :: 0 <= i < |data| ==>
         data[i].payload == run.arrivals[i].data && data[i].seqNum == Wrap(run.arrivals[i].position)
  }

  lemma TransitionLeavesReceived(s: Sock, g: Segment)
    requires !s.state.SynSent?
    ensures var s' := Transition(s, g).0; s'.reassembler == s.reassembler && s'.receiveNextSeq == s.receiveNextSeq
  {
    if s.state.FinWait1? { FinWaitLeavesReceived(s, g); }
  }

  lemma FinWaitLeavesReceived(s: Sock, g: Segment)
    ensures var s' := OnFinWait1(s, g).0; s'.reassembler == s.reassembler && s'.receiveNextSeq == s.receiveNextSeq
  {}

  /** What a segment does to the receive fields is what its data does. */
  lemma InputReceives(s: Sock, g: Segment)
    requires PastHandshake(s) && !HasRst(g.flags) && Input(s, g).Some?
    ensures var s', t := Input(s, g).value.0, ReceiveData(Noticed(s, g), g).0;
            s'.reassembler == t.reassembler && s'.receiveNextSeq == t.receiveNextSeq
  {
    var t := ReceiveData(Noticed(s, g), g).0;
    ReceiveDataLeaves(Noticed(s, g), g);
    ProcessAckLeaves(t, g);
    TransitionLeavesReceived(ProcessAck(t, g).value, g);
  }

  lemma DataReceived(s: Sock, g: Segment)
    requires g.payload != []
    ensures var t := ReceiveData(s, g).0;
            && t.reassembler == Add(s.reassembler, g.payload, g.seqNum).0
            && t.receiveNextSeq == WrappingMax(s.receiveNextSeq, WrappingAdd(g.seqNum, |g.payload|))
  {}

  lemma OthersLeaveReceived(s: Sock, e: Event, s': Sock)
    requires !e.Arrives? && Happens(s, e) == Some(s')
    ensures s'.reassembler == s.reassembler && s'.receiveNextSeq == s.receiveNextSeq
  {}

  /** From `s` to `t` the receive fields take in this data segment, if there is one. */
  ghost predicate Receives(s: Sock, t: Sock, data: seq<Segment>) {
    if data == [] then t.reassembler == s.reassembler && t.receiveNextSeq == s.receiveNextSeq
    else
      var g := data[0];
      && |data| == 1 && t.reassembler == Add(s.reassembler, g.payload, g.seqNum).0
      && t.receiveNextSeq == WrappingMax(s.receiveNextSeq, WrappingAdd(g.seqNum, |g.payload|))
  }

  lemma ArrivalReceives(s: Sock, g: Segment, s': Sock)
    requires PastHandshake(s) && Input(s, g).Some? && s' == Input(s, g).value.0
    ensures Receives(s, s', DataIn(Arrives(g)))
  {
    if !HasRst(g.flags) {
      InputReceives(s, g);
      if g.payload != [] { DataReceived(Noticed(s, g), g); }
    }
  }

  lemma EventReceives(s: Sock, e: Event, s': Sock)
    requires PastHandshake(s) && Happens(s, e) == Some(s')
    ensures Receives(s, s', DataIn(e))
  {
    match e
    case Arrives(g) => ArrivalReceives(s, g, s');
    case _ => OthersLeaveReceived(s, e, s');
  }

  lemma RankStaysPast(s: Sock, s': Sock)
    requires PastHandshake(s) && Raises(s.state, s'.state)
    ensures PastHandshake(s')
  {}

  /** The data is the next arrival of the run, if there is any. */
  ghost predicate CarriesNext(data: seq<Segment>, run: Run, m: nat) {
    data == [] ||
    (&& m < |run.arrivals| && data[0].payload == run.arrivals[m].data
     && data[0].seqNum == Wrap(run.arrivals[m].position))
  }

  lemma ReflectsNext(s: Sock, t: Sock, data: seq<Segment>, run: Run, m: nat)
    requires m <= |run.arrivals| && Reflects(s, run, m) && Receives(s, t, data) && CarriesNext(data, run, m)
    ensures m + |data| <= |run.arrivals| && Reflects(t, run, m + |data|)
  {}

  lemma CarryLess(data: seq<Segment>, more: seq<Segment>, run: Run)
    requires Carry(data + more, run)
    ensures Carry(data, run) && CarriesNext(more, run, |data|)
  {
    assert forall i :: 0 <= i < |data| ==> (data + more)[i] == data[i];
    if more != [] { assert (data + more)[|data|] == more[0]; }
  }

  /** Where a run of events has led, if it has not panicked, after `m` arrivals. */
  ghost predicate Follows(r: Option<Sock>, run: Run, m: nat) {
    r.Some? ==> PastHandshake(r.value) && m <= |run.arrivals| && Reflects(r.value, run, m)
  }

  lemma FollowsNext(before: Option<Sock>, e: Event, r: Option<Sock>, run: Run, m: nat, data: seq<Segment>)
    requires Follows(before, run, m) && data == DataIn(e) && CarriesNext(data, run, m)
    requires r == if before.None? then None else Happens(before.value, e)
    ensures Follows(r, run, m + |data|)
  {
    if r.Some? {
      EventReceives(before.value, e, r.value);
      EventRaisesRank(before.value, e);
      RankStaysPast(before.value, r.value);
      ReflectsNext(before.value, r.value, data, run, m);
    }
  }

  lemma EventComesNext(s: Sock, events: seq<Event>, n: nat, before: Option<Sock>, r: Option<Sock>)
    requires 0 < n <= |events| && before == HappenAll(s, events, n - 1) && r == HappenAll(s, events, n)
    ensures r == if before.None? then None else Happens(before.value, events[n - 1])
  {
    HappenAllNext(s, events, n, before);
  }

  /** The data segments among the first `n` events are the first `m` arrivals. */
  ghost predicate Brought(events: seq<Event>, n: nat, run: Run, m: nat)
    requires n <= |events|
  {
    if n == 0 then m == 0
    else
      var data := DataIn(events[n - 1]);
      && |data| <= m <= |run.arrivals| && CarriesNext(data, run, m - |data|) && Brought(events, n - 1, run, m - |data|)
  }

  lemma {:induction false} CarryIsBrought(events: seq<Event>, n: nat, run: Run, data: seq<Segment>)
    requires n <= |events| && data == DataOf(events, n) && Carry(data, run)
    ensures Brought(events, n, run, |data|)
    decreases n
  {
    if n > 0 {
      var sofar, more := DataOf(events, n - 1), DataIn(events[n - 1]);
      CarryLess(sofar, more, run);
      CarryIsBrought(events, n - 1, run, sofar);
    }
  }

  lemma FollowsRunNext(s: Sock, events: seq<Event>, n: nat, run: Run, before: Option<Sock>, r: Option<Sock>, k: nat, more: seq<Segment>)
    requires 0 < n <= |events| && before == HappenAll(s, events, n - 1) && r == HappenAll(s, events, n)
    requires Follows(before, run, k) && more == DataIn(events[n - 1]) && CarriesNext(more, run, k)
    ensures Follows(r, run, k + |more|)
  {
    EventComesNext(s, events, n, before, r);
    FollowsNext(before, events[n - 1], r, run, k, more);
  }

  lemma {:induction false} RunFollows(s: Sock, events: seq<Event>, n: nat, run: Run, r: Option<Sock>, m: nat)
    requires n <= |events| && Follows(Some(s), run, 0) && r == HappenAll(s, events, n) && Brought(events, n, run, m)
    ensures Follows(r, run, m)
    decreases n
  {
    if n > 0 {
      var before, more := HappenAll(s, events, n - 1), DataIn(events[n - 1]);
      RunFollows(s, events, n - 1, run, before, m - |more|);
      FollowsRunNext(s, events, n, run, before, r, m - |more|, more);
    }
  }

  /** Past the handshake, whatever happens, the receive fields are those of the run of the data
      segments that have arrived. */
  lemma ReceiveSideFollows(s: Sock, events: seq<Event>, n: nat, run: Run, r: Option<Sock>, data: seq<Segment>)
    requires n <= |events| && Follows(Some(s), run, 0)
    requires r == HappenAll(s, events, n) && data == DataOf(events, n) && Carry(data, run)
    ensures Follows(r, run, |data|)
  {
    CarryIsBrought(events, n, run, data);
    RunFollows(s, events, n, run, r, |data|);
  }

  // ---------- whether the FIN has arrived ----------

  predicate FinIn(e: Event) { e.Arrives? && !HasRst(e.segment.flags) && HasFin(e.segment.flags) }

  /** A FIN is among the first `n` events. */
  predicate FinAmong(events: seq<Event>, n: nat)
    requires n <= |events|
  {
    n > 0 && (FinAmong(events, n - 1) || FinIn(events[n - 1]))
  }

  /** In a connection that was established, the state tells whether a FIN has arrived. */
  predicate Tells(state: State, fin: bool) {
    match state
    case Established | FinWait1 | FinWait2 => !fin
    case CloseWait | Closing | LastAck | TimeWait => fin
    case Closed => true
    case SynSent | SynReceived | Listen => false
  }

  lemma TransitionTells(s: Sock, g: Segment, fin: bool)
    requires Tells(s.state, fin)
    ensures Tells(Transition(s, g).0.state, fin || HasFin(g.flags))
  {}

  lemma EventTells(s: Sock, e: Event, s': Sock, fin: bool)
    requires Tells(s.state, fin) && Happens(s, e) == Some(s')
    ensures Tells(s'.state, fin || FinIn(e))
  {
    if e.Arrives? && !HasRst(e.segment.flags) {
      var g, t := e.segment, ReceiveData(Noticed(s, e.segment), e.segment).0;
      ReceiveDataLeaves(Noticed(s, g), g);
      ProcessAckLeaves(t, g);
      TransitionTells(ProcessAck(t, g).value, g, fin);
    }
  }

  lemma {:induction false} StateTellsFin(s: Sock, events: seq<Event>, n: nat, r: Option<Sock>)
    requires n <= |events| && s.state.Established? && r == HappenAll(s, events, n)
    ensures r.Some? ==> Tells(r.value.state, FinAmong(events, n))
    decreases n
  {
    if n > 0 {
      var before := HappenAll(s, events, n - 1);
      StateTellsFin(s, events, n - 1, before);
      HappenAllNext(s, events, n, before);
      if r.Some? {
        EventTells(before.value, events[n - 1], r.value, FinAmong(events, n - 1));
      }
    }
  }

  // ---------- the acknowledgement ----------

  /** The states in which send_packet may add one. */
  predicate AddsOne(state: State) {
    state.FinWait1? || state.FinWait2? || state.Closing? || state.CloseWait?
  }

  /** The end of the stream, where its FIN is. */
  function EndOf(run: Run): int { run.base + |run.s| }

  /** No segment that has arrived ends beyond what has been delivered. */
  ghost predicate NothingBeyond(run: Run, n: nat)
    requires n <= |run.arrivals|
  {
    forall k :: 0 <= k < n ==> End(run.arrivals[k]) <= Delivered(run, n)
  }

  /** The FIN has arrived, and every byte before it. */
  predicate AllIn(run: Run, n: nat, fin: bool)
    requires n <= |run.arrivals|
  {
    fin && Delivered(run, n) == EndOf(run)
  }

  /** The number after everything received: the FIN counts once it and all bytes before it are there. */
  function UpToFin(run: Run, n: nat, fin: bool): int
    requires n <= |run.arrivals|
  {
    Delivered(run, n) + if AllIn(run, n, fin) then 1 else 0
  }

  /** What a socket in that state acknowledges. */
  ghost function AckPosition(state: State, run: Run, n: nat): int
    requires n <= |run.arrivals|
  {
    Delivered(run, n) + if AddsOne(state) && NothingBeyond(run, n) then 1 else 0
  }

  lemma AckNumberIs(s: Sock, run: Run, n: nat)
    requires n <= |run.arrivals| && AdmissibleRun(run, n) && YoungRun(run, n) && Reflects(s, run, n)
    ensures AckNumber(s) == Wrap(AckPosition(s.state, run, n))
  {
    DeliversAPrefix(run, n);
    NoHoleIffAllDelivered(run, n);
    WrapAdd(Delivered(run, n), 1);
  }

  /** No segment ends beyond the end of the stream. */
  lemma {:induction false} PiecesEnd(run: Run, n: nat)
    requires n <= |run.arrivals| && AdmissibleRun(run, n)
    ensures forall k :: 0 <= k < n ==> End(run.arrivals[k]) <= EndOf(run)
  {
    if n > 0 {
      PiecesEnd(run, n - 1);
    }
  }

  /** When that is exactly what has been received: where one may be added, if all is in or some
      segment has arrived that ends beyond the first missing byte; elsewhere, unless all is in. */
  ghost predicate Exact(state: State, run: Run, n: nat, fin: bool)
    requires n <= |run.arrivals|
  {
    if AddsOne(state) then AllIn(run, n, fin) || !NothingBeyond(run, n) else !AllIn(run, n, fin)
  }

  lemma ExactIff(state: State, run: Run, n: nat, fin: bool)
    requires n <= |run.arrivals| && AdmissibleRun(run, n)
    ensures Wrap(AckPosition(state, run, n)) == Wrap(UpToFin(run, n, fin)) <==> Exact(state, run, n, fin)
    ensures AckPosition(state, run, n) <= UpToFin(run, n, fin) <==> (AddsOne(state) ==> Exact(state, run, n, fin))
  {
    PiecesEnd(run, n);
    WrapIsInjectiveNearby(AckPosition(state, run, n), UpToFin(run, n, fin));
  }

  /** The condition, state by state. */
  ghost predicate ByState(state: State, run: Run, n: nat, fin: bool, exact: bool)
    requires n <= |run.arrivals|
  {
    match state
    case Established => !fin && exact
    case FinWait1 | FinWait2 => !fin && (exact <==> !NothingBeyond(run, n))
    case CloseWait | Closing => fin && (exact <==> Delivered(run, n) == EndOf(run) || !NothingBeyond(run, n))
    case LastAck | TimeWait => fin && (exact <==> Delivered(run, n) != EndOf(run))
    case Closed => exact <==> !AllIn(run, n, fin)
    case SynSent | SynReceived | Listen => false
  }

  lemma FinNumberIff(state: State, run: Run, n: nat)
    requires n <= |run.arrivals| && AdmissibleRun(run, n) && EndOf(run) <= Delivered(run, n) + run.ahead
    ensures Wrap(AckPosition(state, run, n)) == Wrap(EndOf(run) + 1) <==> AddsOne(state) && Delivered(run, n) == EndOf(run)
  {
    DeliversAPrefix(run, n);
    PiecesEnd(run, n);
    WrapIsInjectiveNearby(AckPosition(state, run, n), EndOf(run) + 1);
  }

  /** THE FIN: over every run from the established state, the acknowledgement number of a socket is
      that of what it has received, the FIN included, exactly under this condition; and the number
      of the FIN is acknowledged exactly in four states, once every byte has been delivered. */
  lemma FinAcknowledgedIff(s: Sock, events: seq<Event>, n: nat, run: Run, r: Sock, data: seq<Segment>)
    requires n <= |events| && s.state.Established? && Reflects(s, run, 0)
    requires data == DataOf(events, n) && Carry(data, run) && HappenAll(s, events, n) == Some(r)
    requires AdmissibleRun(run, |data|) && YoungRun(run, |data|)
    ensures AckNumber(r) == Wrap(AckPosition(r.state, run, |data|))
    ensures var fin := FinAmong(events, n);
            ByState(r.state, run, |data|, fin, AckNumber(r) == Wrap(UpToFin(run, |data|, fin)))
    ensures EndOf(run) <= Delivered(run, |data|) + run.ahead ==>
              (AckNumber(r) == Wrap(EndOf(run) + 1) <==> AddsOne(r.state) && Delivered(run, |data|) == EndOf(run))
  {
    ReceiveSideFollows(s, events, n, run, Some(r), data);
    StateTellsFin(s, events, n, Some(r));
    AckNumberIs(r, run, |data|);
    ExactIff(r.state, run, |data|, FinAmong(events, n));
    if EndOf(run) <= Delivered(run, |data|) + run.ahead { FinNumberIff(r.state, run, |data|); }
  }

  // ---------- what is sent ----------

  /** The segments a socket sends when something happens to it. */
  function Sends(s: Sock, e: Event): seq<Segment> {
    match e
    case Arrives(g) => (match Input(s, g) case None => [] case Some(effect) => effect.1)
    case WritePart(data) =>
      if s.state.Closed? || data == [] || !WindowOpen(s, data) then [] else [WritePacket(s, data).1]
    case ReadPart(_) => []
    case Closes => Close(s).1
    case RetransmitFires => Retransmit(s).1
    case DelayedAckFires => DelayedAck(s).1
    case ResponseFires => (match ResponseTimeout(s) case None => [] case Some(effect) => effect.1)
    case TimeWaitFires => []
  }

  /** `g` acknowledges what `t` would in state `state`. */
  predicate Bears(g: Segment, t: Sock, state: State) { g.ackNum == AckNumber(t.(state := state)) }

  lemma DataBears(s: Sock, g: Segment, a: Segment)
    requires a in ReceiveData(s, g).1
    ensures Bears(a, ReceiveData(s, g).0, s.state)
  {}

  lemma RepliesBear(s: Sock, g: Segment, a: Segment)
    requires !s.state.SynSent? && a in Transition(s, g).1
    ensures Bears(a, Transition(s, g).0, s.state)
  {}

  /** Equal receive fields bear the same number. */
  lemma SameReceiveBears(a: Segment, t: Sock, t': Sock, state: State)
    requires t.reassembler == t'.reassembler && t.receiveNextSeq == t'.receiveNextSeq && Bears(a, t, state)
    ensures Bears(a, t', state)
  {}

  lemma PartsBear(s1: Sock, g: Segment, s2: Sock, acks: seq<Segment>, s3: Sock, s': Sock, replies: seq<Segment>, a: Segment)
    requires PastHandshake(s1) && ReceiveData(s1, g) == (s2, acks) && ProcessAck(s2, g) == Some(s3)
    requires Transition(s3, g) == (s', replies) && (a in acks || a in replies)
    ensures Bears(a, s', s1.state)
  {
    ReceiveDataLeaves(s1, g);
    ProcessAckLeaves(s2, g);
    TransitionLeavesReceived(s3, g);
    if a in acks {
      DataBears(s1, g, a);
      SameReceiveBears(a, s2, s', s1.state);
    } else {
      RepliesBear(s3, g, a);
    }
  }

  lemma InputBears(s: Sock, g: Segment, s': Sock, a: Segment)
    requires PastHandshake(s) && Input(s, g).Some? && s' == Input(s, g).value.0 && a in Input(s, g).value.1
    ensures Bears(a, s', s.state)
  {
    if !HasRst(g.flags) {
      var (s2, acks) := ReceiveData(Noticed(s, g), g);
      var s3 := ProcessAck(s2, g).value;
      var (s4, replies) := Transition(s3, g);
      PartsBear(Noticed(s, g), g, s2, acks, s3, s4, replies, a);
    }
  }

  lemma CloseBears(s: Sock, a: Segment)
    requires a in Close(s).1
    ensures Bears(a, Close(s).0, s.state)
  {}

  lemma ResponseBears(s: Sock, a: Segment)
    requires ResponseTimeout(s).Some? && a in ResponseTimeout(s).value.1
    ensures Bears(a, ResponseTimeout(s).value.0, s.state)
  {}

  lemma TimersBear(s: Sock, a: Segment)
    ensures a in Retransmit(s).1 ==> Bears(a, Retransmit(s).0, s.state)
    ensures a in DelayedAck(s).1 ==> Bears(a, DelayedAck(s).0, s.state)
  {}

  lemma OthersBear(s: Sock, e: Event, s': Sock, a: Segment)
    requires !e.Arrives? && Happens(s, e) == Some(s') && a in Sends(s, e)
    ensures Bears(a, s', s.state)
  {
    match e
    case Closes => CloseBears(s, a);
    case ResponseFires => ResponseBears(s, a);
    case RetransmitFires | DelayedAckFires => TimersBear(s, a);
    case _ =>
  }

  /** Every segment sent acknowledges by the state before and the receive fields after. */
  lemma EventBears(s: Sock, e: Event, s': Sock, a: Segment)
    requires PastHandshake(s) && Happens(s, e) == Some(s') && a in Sends(s, e)
    ensures Bears(a, s', s.state)
  {
    match e
    case Arrives(g) => InputBears(s, g, s', a);
    case _ => OthersBear(s, e, s', a);
  }

  lemma BearsExactly(a: Segment, t: Sock, state: State, run: Run, n: nat, fin: bool)
    requires n <= |run.arrivals| && AdmissibleRun(run, n) && YoungRun(run, n)
    requires Reflects(t, run, n) && Bears(a, t, state)
    ensures a.ackNum == Wrap(UpToFin(run, n, fin)) <==> Exact(state, run, n, fin)
  {
    AckNumberIs(t.(state := state), run, n);
    ExactIff(state, run, n, fin);
  }

  lemma SentExactly(t: Sock, e: Event, t': Sock, a: Segment, run: Run, m: nat, fin: bool)
    requires m <= |run.arrivals| && AdmissibleRun(run, m) && YoungRun(run, m) && Reflects(t', run, m)
    requires PastHandshake(t) && Happens(t, e) == Some(t') && a in Sends(t, e)
    ensures a.ackNum == Wrap(UpToFin(run, m, fin)) <==> Exact(t.state, run, m, fin)
  {
    EventBears(t, e, t', a);
    BearsExactly(a, t', t.state, run, m, fin);
  }

  lemma SentExactNext(s: Sock, events: seq<Event>, n: nat, run: Run, t: Sock, t': Sock, m: nat, a: Segment, fin: bool)
    requires n < |events| && HappenAll(s, events, n) == Some(t) && HappenAll(s, events, n + 1) == Some(t')
    requires m <= |run.arrivals| && AdmissibleRun(run, m) && YoungRun(run, m) && Reflects(t', run, m)
    requires PastHandshake(t) && a in Sends(t, events[n])
    ensures a.ackNum == Wrap(UpToFin(run, m, fin)) <==> Exact(t.state, run, m, fin)
  {
    EventComesNext(s, events, n + 1, Some(t), Some(t'));
    SentExactly(t, events[n], t', a, run, m, fin);
  }

  /** EVERY SEGMENT: over every run from the established state, a segment sent when event `n` happens
      acknowledges exactly what has been received by then if and only if the condition holds, for the
      state before that event. */
  lemma SentExactIff(s: Sock, events: seq<Event>, n: nat, run: Run, t: Sock, t': Sock, data: seq<Segment>, a: Segment)
    requires n < |events| && s.state.Established? && Reflects(s, run, 0)
    requires HappenAll(s, events, n) == Some(t) && HappenAll(s, events, n + 1) == Some(t')
    requires data == DataOf(events, n + 1) && Carry(data, run)
    requires AdmissibleRun(run, |data|) && YoungRun(run, |data|) && a in Sends(t, events[n])
    ensures var fin := FinAmong(events, n + 1);
            a.ackNum == Wrap(UpToFin(run, |data|, fin)) <==> Exact(t.state, run, |data|, fin)
    ensures Tells(t.state, FinAmong(events, n))
  {
    StateTellsFin(s, events, n, Some(t));
    ReceiveSideFollows(s, events, n + 1, run, Some(t'), data);
    SentExactNext(s, events, n, run, t, t', |data|, a, FinAmong(events, n + 1));
  }

  // ---------- two inputs ----------

  lemma FinWait1Data(s: Sock, g: Segment, r: Reassembly, out: Option<seq<u8>>)
    requires s.state.FinWait1? && g.payload != [] && Add(s.reassembler, g.payload, g.seqNum) == (r, out)
    ensures var (t, acks) := ReceiveData(s, g);
            && acks == [SendPacket(t, [], FLAG_ACK)] && t.reassembler == r
            && t.receiveNextSeq == WrappingMax(s.receiveNextSeq, WrappingAdd(g.seqNum, |g.payload|))
  {}

  lemma FinWait1Number(s: Sock)
    requires s.state.FinWait1? && s.receiveNextSeq == s.reassembler.nextSequence
    ensures SendPacket(s, [], FLAG_ACK).ackNum == WrappingAdd(s.reassembler.nextSequence, 1)
  {}

  /** A segment that changes no state is taken in two steps. */
  lemma InputStays(s: Sock, g: Segment, t: Sock, acks: seq<Segment>, u: Sock)
    requires !HasRst(g.flags) && ReceiveData(Noticed(s, g), g) == (t, acks)
    requires ProcessAck(t, g) == Some(u) && Transition(u, g) == (u, [])
    ensures Input(s, g) == Some((u, acks))
  {
    assert acks + [] == acks;
  }

  lemma FinWait1Stays(s: Sock, g: Segment)
    requires s.state.FinWait1? && !HasFin(g.flags) && g.ackNum != WrappingAdd(s.sendNextSeq, 1)
    ensures Transition(s, g) == (s, [])
  {}

  lemma OneByteInput(s: Sock, g: Segment)
    requires s.state.FinWait1? && s.sendUnacked == 1 && s.sendNextSeq == 1
    requires s.receiveNextSeq == 1 && s.reassembler == Reassembly(1, [])
    requires g == Segment(1, 1, FLAG_ACK, 0xffff, 0, [7])
    ensures Input(s, g).Some?
    ensures var (s', sent) := Input(s, g).value; s'.state.FinWait1? && |sent| == 1 && sent[0].ackNum == 3
  {
    assert Add(Reassembly(1, []), [7], 1) == (Reassembly(2, []), Some([7]));
    FinWait1Data(Noticed(s, g), g, Reassembly(2, []), Some([7]));
    ReceiveDataLeaves(Noticed(s, g), g);
    var t, acks := ReceiveData(Noticed(s, g), g).0, ReceiveData(Noticed(s, g), g).1;
    FinWait1Number(t);
    NothingNew(t, g);
    var u := ProcessAck(t, g).value;
    FinWait1Stays(u, g);
    InputStays(s, g, t, acks, u);
  }

  lemma NothingNew(s: Sock, g: Segment)
    requires g.ackNum == s.sendUnacked && s.state.FinWait1?
    ensures ProcessAck(s, g).Some?
    ensures var s' := ProcessAck(s, g).value; s'.state.FinWait1? && s'.sendNextSeq == s.sendNextSeq
  {
    assert !SeqLt(s.sendUnacked, g.ackNum);
    UpdateWindowLeaves(s, g);
  }

  /** The socket closes, and one byte comes in. */
  function ClosesThenByte(): seq<Event> { [Closes, Arrives(Segment(1, 1, FLAG_ACK, 0xffff, 0, [7]))] }

  function OneByte(): Run { Run([7], 1, [Arrival(1, [7])], 1, 1) }

  lemma OneByteCarried()
    ensures DataOf(ClosesThenByte(), 2) == [ClosesThenByte()[1].segment] && Carry(DataOf(ClosesThenByte(), 2), OneByte())
    ensures !FinAmong(ClosesThenByte(), 2)
  {
    assert DataOf(ClosesThenByte(), 1) == [] + DataIn(Closes);
    assert [] + DataIn(ClosesThenByte()[1]) == [ClosesThenByte()[1].segment];
  }

  lemma OneByteReceived()
    ensures Reflects(Idle(), OneByte(), 0) && Wrap(UpToFin(OneByte(), 1, false)) == 2
  {
    assert Add(Reassembly(1, []), [7], 1) == (Reassembly(2, []), Some([7]));
    assert Feed(OneByte(), 0) == (Reassembly(1, []), []);
  }

  /** FIRST INPUT: before any FIN has come, a closing socket that has received the one byte at 1
      acknowledges 3 ... */
  lemma AcknowledgesFinBeforeIt() returns (t: Sock, t': Sock)
    ensures Reflects(Idle(), OneByte(), 0) && Carry(DataOf(ClosesThenByte(), 2), OneByte()) && !FinAmong(ClosesThenByte(), 2)
    ensures HappenAll(Idle(), ClosesThenByte(), 1) == Some(t) && HappenAll(Idle(), ClosesThenByte(), 2) == Some(t')
    ensures t.state.FinWait1? && t'.state.FinWait1?
    ensures var sent := Sends(t, ClosesThenByte()[1]); |sent| == 1 && sent[0].ackNum == 3
    ensures Wrap(UpToFin(OneByte(), 1, false)) == 2
  {
    var events := ClosesThenByte();
    OneByteCarried();
    OneByteReceived();
    t := SetState(Idle(), FinWait1).(responseArmed := true);
    HappenAllNext(Idle(), events, 1, Some(Idle()));
    assert Happens(Idle(), Closes) == Some(t);
    OneByteInput(t, events[1].segment);
    t' := Input(t, events[1].segment).value.0;
    HappenAllNext(Idle(), events, 2, Some(t));
  }

  lemma OneBeyond(n: u32)
    ensures SeqGt(WrappingAdd(n, 1), n)
  {
    assert Wrap(n) == n;
    SeqCompareIsOrder(n + 1, n);
  }

  /** ... and the sender of that byte, whose SND.NXT is 2, takes no notice of it. */
  lemma BeyondNextIsIgnored(p: Sock, a: Segment)
    requires a.ackNum == WrappingAdd(p.sendNextSeq, 1)
    ensures ProcessAck(p, a) == Some(p)
  {
    OneBeyond(p.sendNextSeq);
    IgnoredBeyondNext(p, a);
  }

  lemma IgnoredBeyondNext(p: Sock, a: Segment)
    requires !SeqLe(a.ackNum, p.sendNextSeq)
    ensures ProcessAck(p, a) == Some(p)
  {}

  /** A FIN without data closes the receive side whatever number it bears; the number that is then
      acknowledged is one beyond the position awaited, unless something beyond that has arrived. */
  lemma BareFin(s: Sock, g: Segment)
    requires SenderKeeps(s) && s.state.Established? && g.payload == [] && HasFin(g.flags) && !HasRst(g.flags)
    ensures Input(s, g).Some?
    ensures var s', next := Input(s, g).value.0, s.reassembler.nextSequence;
            && s'.state == CloseWait && s'.reassembler == s.reassembler && s'.receiveNextSeq == s.receiveNextSeq
            && AckNumber(s') == if s.receiveNextSeq == next then WrappingAdd(next, 1) else next
  {
    var t := Noticed(s, g);
    AckWithinQueue(t, g);
    ProcessAckLeaves(t, g);
  }

  /** SECOND INPUT: the one byte is lost and a FIN without data follows.  The socket then
      acknowledges 2, and so the byte it does not have. */
  lemma AcknowledgesLostByte() returns (r: Sock)
    ensures var events, run := [Arrives(Segment(2, 1, FLAG_FIN + FLAG_ACK, 0xffff, 0, []))], Run([7], 1, [], 1, 1);
            && Reflects(Idle(), run, 0) && DataOf(events, 1) == [] && FinAmong(events, 1)
            && HappenAll(Idle(), events, 1) == Some(r) && r.state.CloseWait?
            && AckNumber(r) == 2 && Wrap(UpToFin(run, 0, true)) == 1
  {
    var fin := Segment(2, 1, FLAG_FIN + FLAG_ACK, 0xffff, 0, []);
    BareFin(Idle(), fin);
    r := Input(Idle(), fin).value.0;
    HappenAllNext(Idle(), [Arrives(fin)], 1, Some(Idle()));
    assert DataOf([Arrives(fin)], 1) == [] + DataIn(Arrives(fin));
  }
}
