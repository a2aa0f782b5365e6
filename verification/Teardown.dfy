/** How a connection ends: the state as a function of what has happened, the segments that take two
    endpoints from ESTABLISHED to CLOSED, and the response timer.
  */
module Teardown {
  import opened Words
  import opened Reassembler
  import opened Socket
  import opened Lifecycle
  import opened Fin
  import T = Transfer

  // ---------- the state as a function of what has happened ----------

  /** What a run has brought: whether the application has closed, whether a FIN has come, whether the
      close came first, whether the own FIN is then acknowledged, and whether all is over. */
  datatype History = History(closed: bool, fin: bool, first: bool, acked: bool, over: bool)

  predicate ResetIn(e: Event) { e.Arrives? && HasRst(e.segment.flags) }

  predicate AckIn(e: Event) { e.Arrives? && !HasRst(e.segment.flags) && HasAck(e.segment.flags) }

  /** `finNumber` is the number that acknowledges the own FIN; only one who closed first looks at it,
      and only until the peer's FIN has come. */
  function Heard(h: History, e: Event, finNumber: u32): History {
    match e
    case Arrives(g) =>
      if HasRst(g.flags) then h.(over := true)
      else
        var answered := h.closed && HasAck(g.flags);
        h.(fin := h.fin || HasFin(g.flags),
           acked := h.acked || (answered && h.first && (h.fin || g.ackNum == finNumber)),
           over := h.over || (answered && !h.first))
    case Closes => h.(closed := true, first := if h.closed then h.first else !h.fin)
    case TimeWaitFires => h.(over := true)
    case _ => h
  }

  /** The state that belongs to a history. */
  function StateFor(h: History): State {
    if h.over then Closed
    else if !h.closed then (if h.fin then CloseWait else Established)
    else if !h.first then LastAck
    else if h.fin then (if h.acked then TimeWait else Closing)
    else (if h.acked then FinWait2 else FinWait1)
  }

  /** The number after everything accepted for sending and the FIN. */
  function FinNumber(s: Sock, events: seq<Event>, n: nat): u32
    requires n <= |events|
  {
    WrappingAdd(s.sendNextSeq, |AcceptedBy(s, events, n)| + 1)
  }

  function Past(s: Sock, events: seq<Event>, n: nat): History
    requires n <= |events|
  {
    if n == 0 then History(false, false, false, false, false)
    else Heard(Past(s, events, n - 1), events[n - 1], FinNumber(s, events, n - 1))
  }

  lemma ProcessAckNext(s: Sock, g: Segment)
    requires ProcessAck(s, g).Some?
    ensures ProcessAck(s, g).value.sendNextSeq == s.sendNextSeq
    ensures ProcessAck(s, g).value.requestRetryCount == s.requestRetryCount
  {}

  lemma ReceiveDataCount(s: Sock, g: Segment)
    ensures ReceiveData(s, g).0.requestRetryCount == s.requestRetryCount
  {}

  /** The match on the state sees the state and SND.NXT as they were. */
  lemma MatchSees(s: Sock, g: Segment) returns (u: Sock)
    requires !HasRst(g.flags) && Input(s, g).Some?
    ensures Input(s, g).value.0 == Transition(u, g).0
    ensures u.state == s.state && u.sendNextSeq == s.sendNextSeq && u.requestRetryCount == s.requestRetryCount
  {
    var t := ReceiveData(Noticed(s, g), g).0;
    ReceiveDataLeaves(Noticed(s, g), g);
    ReceiveDataCount(Noticed(s, g), g);
    ProcessAckLeaves(t, g);
    ProcessAckNext(t, g);
    u := ProcessAck(t, g).value;
  }

  lemma MatchHears(u: Sock, g: Segment, h: History)
    requires u.state == StateFor(h) && !HasRst(g.flags) && u.requestRetryCount == 0
    ensures var s' := Transition(u, g).0;
            s'.state == StateFor(Heard(h, Arrives(g), WrappingAdd(u.sendNextSeq, 1))) && s'.requestRetryCount == 0
  {}

  /** One event takes the state to that of the longer history, and counts no retry. */
  lemma EventHears(s: Sock, e: Event, s': Sock, h: History)
    requires s.state == StateFor(h) && s.requestRetryCount == 0 && (h.acked ==> h.closed) && Happens(s, e) == Some(s')
    ensures s'.state == StateFor(Heard(h, e, WrappingAdd(s.sendNextSeq, 1))) && s'.requestRetryCount == 0
  {
    if e.Arrives? && !HasRst(e.segment.flags) {
      var u := MatchSees(s, e.segment);
      MatchHears(u, e.segment, h);
    }
  }

  lemma MatchNext(u: Sock, g: Segment)
    requires PastHandshake(u)
    ensures Transition(u, g).0.sendNextSeq == u.sendNextSeq
  {
    TransitionLeaves(u, g);
  }

  /** SND.NXT moves by what is accepted for sending. */
  lemma EventNext(s: Sock, e: Event, s': Sock)
    requires PastHandshake(s) && Happens(s, e) == Some(s')
    ensures s'.sendNextSeq == WrappingAdd(s.sendNextSeq, |Accepted(s, e)|)
  {
    if e.Arrives? && !HasRst(e.segment.flags) {
      var u := MatchSees(s, e.segment);
      MatchNext(u, e.segment);
    }
  }

  /** What a run keeps: the state is that of the history, no retry is counted, and SND.NXT is one
      before the number of the FIN. */
  ghost predicate Agrees(r: Option<Sock>, h: History, finNumber: u32) {
    r.Some? ==> r.value.state == StateFor(h) && r.value.requestRetryCount == 0 && (h.acked ==> h.closed)
                && finNumber == WrappingAdd(r.value.sendNextSeq, 1)
  }

  lemma OneAfter(next: u32, m: nat, f: u32, f': u32, next': u32)
    requires f == WrappingAdd(next, 1) && f' == WrappingAdd(f, m) && next' == WrappingAdd(next, m)
    ensures f' == WrappingAdd(next', 1)
  {
    WrappingAddTwice(next, 1, m);
    WrappingAddTwice(next, m, 1);
  }

  lemma AgreesNext(before: Sock, e: Event, r: Option<Sock>, h: History, f: u32, f': u32)
    requires Agrees(Some(before), h, f) && r == Happens(before, e) && f' == WrappingAdd(f, |Accepted(before, e)|)
    ensures Agrees(r, Heard(h, e, f), f')
  {
    if r.Some? {
      EventHears(before, e, r.value, h);
      EventNext(before, e, r.value);
      OneAfter(before.sendNextSeq, |Accepted(before, e)|, f, f', r.value.sendNextSeq);
    }
  }

  lemma OneMoreAccepted(next: u32, sofar: seq<u8>, more: seq<u8>)
    ensures WrappingAdd(next, |sofar + more| + 1) == WrappingAdd(WrappingAdd(next, |sofar| + 1), |more|)
  {
    WrappingAddTwice(next, |sofar| + 1, |more|);
  }

  lemma FinNumberNext(s: Sock, events: seq<Event>, n: nat, before: Sock, more: seq<u8>)
    requires 0 < n <= |events| && HappenAll(s, events, n - 1) == Some(before) && more == Accepted(before, events[n - 1])
    ensures FinNumber(s, events, n) == WrappingAdd(FinNumber(s, events, n - 1), |more|)
  {
    HappenAllNext(s, events, n, Some(before));
    OneMoreAccepted(s.sendNextSeq, AcceptedBy(s, events, n - 1), more);
  }

  lemma {:induction false} RunAgrees(s: Sock, events: seq<Event>, n: nat, r: Option<Sock>)
    requires n <= |events| && s.state.Established? && s.requestRetryCount == 0 && r == HappenAll(s, events, n)
    ensures Agrees(r, Past(s, events, n), FinNumber(s, events, n))
    decreases n
  {
    if n > 0 {
      var before := HappenAll(s, events, n - 1);
      RunAgrees(s, events, n - 1, before);
      EventComesNext(s, events, n, before, r);
      if before.Some? {
        FinNumberNext(s, events, n, before.value, Accepted(before.value, events[n - 1]));
        AgreesNext(before.value, events[n - 1], r, Past(s, events, n - 1), FinNumber(s, events, n - 1), FinNumber(s, events, n));
      }
    }
  }

  /** STATE: over every run from the established state, whatever arrives, the state is the one that
      belongs to what has happened; and no retry is ever counted. */
  lemma StateIsHistory(s: Sock, events: seq<Event>, n: nat, r: Sock)
    requires n <= |events| && s.state.Established? && s.requestRetryCount == 0 && HappenAll(s, events, n) == Some(r)
    ensures r.state == StateFor(Past(s, events, n)) && r.requestRetryCount == 0
    ensures WrappingAdd(r.sendNextSeq, 1) == FinNumber(s, events, n)
  {
    RunAgrees(s, events, n, Some(r));
  }

  // ---------- when a connection is closed ----------

  /** The first call of tcp_close among the first `n` events. */
  function FirstClose(events: seq<Event>, n: nat): (r: Option<nat>)
    requires n <= |events|
    ensures r.Some? ==> r.value < n
  {
    if n == 0 then None
    else if FirstClose(events, n - 1).Some? then FirstClose(events, n - 1)
    else if events[n - 1].Closes? then Some(n - 1)
    else None
  }

  /** By then the application has closed, and only after a FIN had come. */
  predicate ClosedAfterFin(events: seq<Event>, n: nat)
    requires n <= |events|
  {
    var j := FirstClose(events, n);
    j.Some? && FinAmong(events, j.value)
  }

  /** An event that ends the connection: a reset, the end of TIME-WAIT, or any acknowledgement at all
      once a FIN has come and been answered by a close. */
  predicate Ends(events: seq<Event>, k: nat)
    requires k < |events|
  {
    ResetIn(events[k]) || events[k].TimeWaitFires? || (AckIn(events[k]) && ClosedAfterFin(events, k))
  }

  ghost predicate Ended(events: seq<Event>, n: nat)
    requires n <= |events|
  {
    exists k :: 0 <= k < n && Ends(events, k)
  }

  lemma EndedNext(events: seq<Event>, n: nat)
    requires 0 < n <= |events|
    ensures Ended(events, n) <==> Ended(events, n - 1) || Ends(events, n - 1)
  {
    if Ended(events, n - 1) {
      var k :| 0 <= k < n - 1 && Ends(events, k);
      assert Ends(events, k);
    }
  }

  /** A history says what it says of the events so far. */
  ghost predicate Says(h: History, events: seq<Event>, n: nat)
    requires n <= |events|
  {
    var j := FirstClose(events, n);
    && h.fin == FinAmong(events, n) && h.closed == j.Some?
    && (j.Some? ==> h.first == !FinAmong(events, j.value))
    && (h.over <==> Ended(events, n))
  }

  lemma SaysNext(h: History, events: seq<Event>, n: nat, finNumber: u32)
    requires 0 < n <= |events| && Says(h, events, n - 1)
    ensures Says(Heard(h, events[n - 1], finNumber), events, n)
  {
    EndedNext(events, n);
  }

  lemma {:induction false} PastSays(s: Sock, events: seq<Event>, n: nat)
    requires n <= |events|
    ensures Says(Past(s, events, n), events, n)
    decreases n
  {
    if n > 0 {
      PastSays(s, events, n - 1);
      SaysNext(Past(s, events, n - 1), events, n, FinNumber(s, events, n - 1));
    }
  }

  /** CLOSED: over every run from the established state, the connection is closed if and only if a
      reset has come, TIME-WAIT has run out, or an acknowledgement has come after the application
      closed in answer to a FIN. */
  lemma ClosedIff(s: Sock, events: seq<Event>, n: nat, r: Sock)
    requires n <= |events| && s.state.Established? && s.requestRetryCount == 0 && HappenAll(s, events, n) == Some(r)
    ensures r.state.Closed? <==> Ended(events, n)
  {
    StateIsHistory(s, events, n, r);
    PastSays(s, events, n);
  }

  /** In particular a reset closes it for good, whenever it comes. */
  lemma ResetCloses(s: Sock, events: seq<Event>, n: nat, k: nat, r: Sock)
    requires k < n <= |events| && s.state.Established? && s.requestRetryCount == 0 && HappenAll(s, events, n) == Some(r)
    requires ResetIn(events[k])
    ensures r.state.Closed?
  {
    assert Ends(events, k);
    ClosedIff(s, events, n, r);
  }

  // ---------- how a connection begins ----------

  predicate Opening(state: State) { state.SynSent? || state.SynReceived? }

  /** An event that ends the opening, one way or the other. */
  predicate EndsOpening(e: Event) { AckIn(e) || ResetIn(e) || e.TimeWaitFires? }

  predicate OpeningEnded(events: seq<Event>, n: nat)
    requires n <= |events|
  {
    n > 0 && (OpeningEnded(events, n - 1) || EndsOpening(events[n - 1]))
  }

  lemma EventOpens(s: Sock, e: Event, s': Sock)
    requires Opening(s.state) && s.requestRetryCount == 0 && Happens(s, e) == Some(s')
    ensures s'.requestRetryCount == 0
    ensures if AckIn(e) then s'.state == Established else if EndsOpening(e) then s'.state == Closed else s'.state == s.state
  {
    if e.Arrives? && !HasRst(e.segment.flags) {
      var u := MatchSees(s, e.segment);
    }
  }

  /** OPENING: a socket in SYN-SENT or SYN-RECEIVED stays there until the first acknowledgement or
      reset, and the first acknowledgement establishes it, whether or not it bears a SYN. */
  lemma {:induction false} OpensIff(s: Sock, events: seq<Event>, n: nat, r: Option<Sock>)
    requires n <= |events| && Opening(s.state) && s.requestRetryCount == 0 && r == HappenAll(s, events, n)
    ensures r.Some? && !OpeningEnded(events, n) ==> r.value.state == s.state && r.value.requestRetryCount == 0
    ensures r.Some? && n > 0 && !OpeningEnded(events, n - 1) && AckIn(events[n - 1]) ==> r.value.state == Established
    decreases n
  {
    if n > 0 {
      var before := HappenAll(s, events, n - 1);
      OpensIff(s, events, n - 1, before);
      EventComesNext(s, events, n, before, r);
      if r.Some? && !OpeningEnded(events, n - 1) { EventOpens(before.value, events[n - 1], r.value); }
    }
  }

  // ---------- the response timer ----------

  lemma MatchCounts(u: Sock, g: Segment)
    requires u.requestRetryCount == 0
    ensures Transition(u, g).0.requestRetryCount == 0
  {}

  lemma EventCounts(s: Sock, e: Event, s': Sock)
    requires s.requestRetryCount == 0 && Happens(s, e) == Some(s')
    ensures s'.requestRetryCount == 0 && (e.ResponseFires? ==> s'.state == s.state)
  {
    if e.Arrives? && !HasRst(e.segment.flags) {
      var u := MatchSees(s, e.segment);
      MatchCounts(u, e.segment);
    }
  }

  /** RETRIES: no run ever counts one, so the response timer never gives up: however often it
      fires, it changes no state. */
  lemma {:induction false} NeverGivesUp(s: Sock, events: seq<Event>, n: nat, r: Option<Sock>)
    requires n <= |events| && s.requestRetryCount == 0 && r == HappenAll(s, events, n)
    ensures r.Some? ==> r.value.requestRetryCount == 0
    ensures r.Some? && n > 0 && events[n - 1].ResponseFires? ==> r.value.state == HappenAll(s, events, n - 1).value.state
    decreases n
  {
    if n > 0 {
      var before := HappenAll(s, events, n - 1);
      NeverGivesUp(s, events, n - 1, before);
      EventComesNext(s, events, n, before, r);
      if r.Some? { EventCounts(before.value, events[n - 1], r.value); }
    }
  }

  /** It would give up after five: but only a change of state writes the count, and starts it again. */
  lemma GivesUpIff(s: Sock)
    ensures ResponseTimeout(s).Some? && ResponseTimeout(s).value.0.state != s.state <==> s.requestRetryCount >= 5 && s.state != Closed
    ensures s.requestRetryCount >= 5 ==> ResponseTimeout(s).Some? && ResponseTimeout(s).value.0.state == Closed
  {}

  lemma MatchResets(u: Sock, g: Segment)
    ensures var s' := Transition(u, g).0; s'.requestRetryCount == if s'.state == u.state then u.requestRetryCount else 0
  {}

  lemma CountIsReset(s: Sock, e: Event, s': Sock)
    requires Happens(s, e) == Some(s') && s'.state != s.state
    ensures s'.requestRetryCount == 0
  {
    if e.Arrives? && !HasRst(e.segment.flags) {
      var u := MatchSees(s, e.segment);
      MatchResets(u, e.segment);
    }
  }

  /** The timer is set, and stops the program if it fires. */
  predicate Trapped(s: Sock) { s.responseArmed && ResponseTimeout(s).None? }

  /** The last segment to arrive, if any has, was a FIN taken in FIN-WAIT-2, and TIME-WAIT is not over;
      or none has arrived, and it was so from the start. */
  predicate FinInFinWait2(s: Sock, events: seq<Event>, n: nat)
    requires n <= |events|
  {
    if n == 0 then Trapped(s)
    else
      match events[n - 1]
      case Arrives(_) => FinIn(events[n - 1]) && HappenAll(s, events, n - 1).Some? && HappenAll(s, events, n - 1).value.state.FinWait2?
      case TimeWaitFires => false
      case _ => FinInFinWait2(s, events, n - 1)
  }

  lemma MatchArms(u: Sock, g: Segment)
    requires !u.responseArmed && u.requestRetryCount == 0
    ensures Trapped(Transition(u, g).0) <==> u.state.FinWait2? && HasFin(g.flags)
  {}

  lemma ReceivesDisarmed(s: Sock, g: Segment) returns (u: Sock)
    requires !HasRst(g.flags) && Input(s, g).Some? && s.requestRetryCount == 0
    ensures Input(s, g).value.0 == Transition(u, g).0
    ensures u.state == s.state && !u.responseArmed && u.requestRetryCount == 0
  {
    var t := ReceiveData(Noticed(s, g), g).0;
    ReceiveDataLeaves(Noticed(s, g), g);
    ReceiveDataCount(Noticed(s, g), g);
    ReceiveDataTimer(Noticed(s, g), g);
    ProcessAckLeaves(t, g);
    ProcessAckNext(t, g);
    ProcessAckTimer(t, g);
    u := ProcessAck(t, g).value;
  }

  lemma ReceiveDataTimer(s: Sock, g: Segment)
    ensures ReceiveData(s, g).0.responseArmed == s.responseArmed
  {}

  lemma ProcessAckTimer(s: Sock, g: Segment)
    requires ProcessAck(s, g).Some?
    ensures ProcessAck(s, g).value.responseArmed == s.responseArmed
  {}

  lemma OthersTrap(s: Sock, e: Event, s': Sock)
    requires s.requestRetryCount == 0 && s.state != Listen && !e.Arrives? && Happens(s, e) == Some(s')
    ensures Trapped(s') <==> Trapped(s) && !e.TimeWaitFires?
  {}

  lemma ArrivalTraps(s: Sock, g: Segment, s': Sock)
    requires s.requestRetryCount == 0 && Happens(s, Arrives(g)) == Some(s')
    ensures Trapped(s') <==> s.state.FinWait2? && FinIn(Arrives(g))
  {
    if !HasRst(g.flags) {
      var u := ReceivesDisarmed(s, g);
      MatchArms(u, g);
    }
  }

  lemma EventTraps(s: Sock, e: Event, s': Sock)
    requires s.requestRetryCount == 0 && s.state != Listen && Happens(s, e) == Some(s')
    ensures s'.state != Listen
    ensures Trapped(s') <==> if e.Arrives? then s.state.FinWait2? && FinIn(e) else Trapped(s) && !e.TimeWaitFires?
  {
    EventRaisesRank(s, e);
    NeverListen(s.state, s'.state);
    if e.Arrives? {
      ArrivalTraps(s, e.segment, s');
    } else {
      OthersTrap(s, e, s');
    }
  }

  lemma NeverListen(before: State, after: State)
    requires before != Listen && Raises(before, after)
    ensures after != Listen
  {}

  /** RESPONSE TIMER: over every run, the timer is set in a state in which it stops the program if and
      only if the last segment to arrive was a FIN taken in FIN-WAIT-2, or it was so from the start
      (as on a connection that a listener has just made). */
  lemma {:induction false} TrappedIff(s: Sock, events: seq<Event>, n: nat, r: Option<Sock>)
    requires n <= |events| && s.requestRetryCount == 0 && s.state != Listen && r == HappenAll(s, events, n)
    ensures r.Some? ==> (Trapped(r.value) <==> FinInFinWait2(s, events, n)) && r.value.state != Listen
    decreases n
  {
    if n > 0 {
      var before := HappenAll(s, events, n - 1);
      TrappedIff(s, events, n - 1, before);
      NeverGivesUp(s, events, n - 1, before);
      EventComesNext(s, events, n, before, r);
      if r.Some? { EventTraps(before.value, events[n - 1], r.value); }
    }
  }

  /** A connection that a listener has just made is such: it waits for the handshake's last segment. */
  lemma ListenerIsTrapped(iss: u32, syn: Segment)
    ensures Trapped(NewConnection(iss, syn).0) && !Trapped(Open(iss).0)
    ensures NewConnection(iss, syn).0.requestRetryCount == 0
  {}

  /** SENT AGAIN: in SYN-SENT the very SYN that opened; while the own FIN is not acknowledged a FIN, but
      without the ACK flag it first bore, so that the peer does not look at its number; after the
      peer's FIN an acknowledgement; and otherwise nothing.  The socket stays as it was. */
  lemma SendsAgain(s: Sock, iss: u32)
    requires s.requestRetryCount == 0 && s.responseArmed && ResponseTimeout(s).Some?
    ensures ResponseTimeout(Open(iss).0) == Some(Open(iss))
    ensures var (s', sent) := ResponseTimeout(s).value;
            && s' == s && |sent| <= 1 && (sent == [] <==> s.state.Closed? || s.state.Established?)
            && (sent != [] ==>
                  sent[0].flags == (if s.state.SynSent? then FLAG_SYN
                                    else if s.state.FinWait1? || s.state.LastAck? then FLAG_FIN else FLAG_ACK)
                  && sent[0].payload == [] && sent[0].seqNum == s.sendNextSeq && sent[0].ackNum == AckNumber(s))
  {
    assert s.(responseArmed := true) == s;
    var o := SetState(NewSock(iss), SynSent);
    assert SendPacket(o.(responseArmed := true), [], FLAG_SYN) == SendPacket(o, [], FLAG_SYN);
  }

  // ---------- the segments that close a connection ----------

  /** Both are established, and all that either has sent the other has received. */
  predicate InSync(a: Sock, b: Sock) { HasAllOf(a, b) && HasAllOf(b, a) }

  predicate HasAllOf(b: Sock, a: Sock) {
    && a.state.Established? && SenderKeeps(a) && a.requestRetryCount == 0
    && b.receiveNextSeq == b.reassembler.nextSequence == a.sendNextSeq
  }

  /** The code's own handshake, for all initial sequence numbers, ends so; and each has taken the
      segment size the other announced. */
  lemma HandshakeInSync(issA: u32, issB: u32) returns (a: Sock, b: Sock)
    ensures Input(Open(issA).0, T.SynAckSegment(issB, issA)) == Some((a, [T.AckSegment(issA + 1, issB + 1)]))
    ensures Input(NewConnection(issB, T.SynSegment(issA)).0, T.AckSegment(issA + 1, issB + 1)) == Some((b, []))
    ensures InSync(a, b) && a.sendMss == OUR_MSS && b.sendMss == OUR_MSS
  {
    a, b := T.HandshakeStarts(issA, issB);
    JustHasAll(T.Node(b, issB + 1, [], [], None), T.Node(a, issA + 1, [], [], None));
    JustHasAll(T.Node(a, issA + 1, [], [], None), T.Node(b, issB + 1, [], [], None));
  }

  lemma JustHasAll(y: T.Node, x: T.Node)
    requires T.JustEstablished(x, y.base) && T.JustEstablished(y, x.base) && T.InStep(x.sock) && T.InStep(y.sock)
    ensures HasAllOf(y.sock, x.sock)
  {
    AddNothing(x.sock.sendUnacked);
  }

  lemma AddNothing(n: u32)
    ensures WrappingAdd(n, 0) == n
  {}

  /** What a segment without data leaves as it was until the match on the state. */
  predicate Alike(s: Sock, u: Sock) {
    && u.state == s.state && u.sendNextSeq == s.sendNextSeq && u.receiveNextSeq == s.receiveNextSeq
    && u.reassembler == s.reassembler && u.receiveQueue == s.receiveQueue && u.requestRetryCount == s.requestRetryCount
    && SenderKeeps(u) && !u.responseArmed
  }

  /** A segment without data is its acknowledgement and the match on the state. */
  lemma BareInput(s: Sock, g: Segment) returns (u: Sock)
    requires SenderKeeps(s) && g.payload == [] && !HasRst(g.flags)
    ensures Input(s, g) == Some(Transition(u, g)) && Alike(s, u)
  {
    var t := Noticed(s, g);
    assert ReceiveData(t, g) == (t, []);
    AckWithinQueue(t, g);
    ProcessAckLeaves(t, g);
    ProcessAckNext(t, g);
    ProcessAckTimer(t, g);
    u := ProcessAck(t, g).value;
    assert [] + Transition(u, g).1 == Transition(u, g).1;
  }

  /** The flags of the segments that close a connection. */
  lemma Flags()
    ensures HasFin(FLAG_FIN + FLAG_ACK) && HasAck(FLAG_FIN + FLAG_ACK) && !HasRst(FLAG_FIN + FLAG_ACK)
    ensures !HasFin(FLAG_ACK) && HasAck(FLAG_ACK) && !HasRst(FLAG_ACK)
  {}

  /** A change of state alone. */
  function Turned(s: Sock, state: State): Sock { s.(state := state, requestRetryCount := 0) }

  lemma AlikeTurned(s: Sock, u: Sock, state: State)
    requires Alike(s, u) && !(state.SynSent? || state.SynReceived? || state.Listen?)
    ensures Alike(Turned(s, state), Turned(u, state))
  {}

  /** A bare FIN to an established socket is not answered. */
  lemma FinToEstablished(b: Sock, g: Segment) returns (b': Sock)
    requires SenderKeeps(b) && b.state.Established? && g.payload == [] && HasFin(g.flags) && !HasRst(g.flags)
    ensures Input(b, g) == Some((b', [])) && Alike(Turned(b, CloseWait), b')
  {
    var u := BareInput(b, g);
    b' := Turned(u, CloseWait);
    AlikeTurned(b, u, CloseWait);
    assert Transition(u, g) == (b', []);
  }

  /** The acknowledgement of the own FIN, in FIN-WAIT-1. */
  lemma AckToFinWait1(a: Sock, g: Segment) returns (a': Sock)
    requires SenderKeeps(a) && a.state.FinWait1? && g.payload == [] && g.flags == FLAG_ACK
    requires g.ackNum == WrappingAdd(a.sendNextSeq, 1)
    ensures Input(a, g) == Some((a', [])) && Alike(Turned(a, FinWait2), a')
  {
    Flags();
    var u := BareInput(a, g);
    a' := Turned(u, FinWait2);
    AlikeTurned(a, u, FinWait2);
    assert Transition(u, g) == (a', []);
  }

  lemma FinToFinWait1(a: Sock, g: Segment) returns (a': Sock)
    requires SenderKeeps(a) && a.state.FinWait1? && g.payload == [] && g.flags == FLAG_FIN + FLAG_ACK
    requires g.ackNum == WrappingAdd(a.sendNextSeq, 1)
    ensures Input(a, g) == Some((a', [])) && Alike(Turned(a, TimeWait), a')
  {
    Flags();
    var u := BareInput(a, g);
    a' := Turned(u, TimeWait);
    AlikeTurned(a, u, TimeWait);
    assert Transition(u, g) == (a', []);
  }

  lemma FinCrossesFin(a: Sock, g: Segment) returns (a': Sock, reply: Segment)
    requires SenderKeeps(a) && a.state.FinWait1? && g.payload == [] && g.flags == FLAG_FIN + FLAG_ACK
    requires g.ackNum != WrappingAdd(a.sendNextSeq, 1)
    ensures Input(a, g) == Some((a', [reply])) && a'.state.Closing? && SenderKeeps(a') && a'.responseArmed
    ensures reply.flags == FLAG_ACK && reply.payload == []
  {
    Flags();
    var u := BareInput(a, g);
    AlikeTurned(a, u, Closing);
    a', reply := Turned(u, Closing).(responseArmed := true), SendPacket(Turned(u, Closing), [], FLAG_ACK);
    assert Transition(u, g) == (a', [reply]);
  }

  lemma FinToFinWait2(a: Sock, g: Segment) returns (a': Sock, reply: Segment)
    requires SenderKeeps(a) && a.state.FinWait2? && g.payload == [] && g.flags == FLAG_FIN + FLAG_ACK
    ensures Input(a, g) == Some((a', [reply])) && a'.state.TimeWait? && a'.responseArmed && a'.requestRetryCount == 0
    ensures reply.flags == FLAG_ACK && reply.payload == [] && reply.ackNum == AckNumber(a)
  {
    Flags();
    var u := BareInput(a, g);
    a', reply := Turned(u, TimeWait).(responseArmed := true), SendPacket(u, [], FLAG_ACK);
    assert Transition(u, g) == (a', [reply]);
  }

  lemma AckToClosing(a: Sock, g: Segment) returns (a': Sock)
    requires SenderKeeps(a) && a.state.Closing? && g.payload == [] && g.flags == FLAG_ACK
    ensures Input(a, g) == Some((a', [])) && a'.state.TimeWait?
  {
    Flags();
    var u := BareInput(a, g);
    a' := Turned(u, TimeWait);
    assert Transition(u, g) == (a', []);
  }

  lemma AckToLastAck(b: Sock, g: Segment) returns (b': Sock)
    requires SenderKeeps(b) && b.state.LastAck? && g.payload == [] && g.flags == FLAG_ACK
    ensures Input(b, g) == Some((b', [])) && b'.state.Closed?
  {
    Flags();
    var u := BareInput(b, g);
    b' := Turned(u, Closed);
    assert Transition(u, g) == (b', []);
  }

  /** The first to close. */
  lemma ClosesFirst(a: Sock) returns (a1: Sock, fin: Segment)
    requires a.state.Established? && SenderKeeps(a)
    ensures Close(a) == (a1, [fin]) && fin.payload == [] && fin.flags == FLAG_FIN + FLAG_ACK
    ensures fin.seqNum == a.sendNextSeq && fin.ackNum == a.reassembler.nextSequence
    ensures a1 == a.(state := FinWait1, requestRetryCount := 0, responseArmed := true) && SenderKeeps(a1)
  {
    a1, fin := SetState(a, FinWait1).(responseArmed := true), SendPacket(a, [], FLAG_FIN + FLAG_ACK);
  }

  /** The second, once it has the first one's FIN: its own acknowledges that. */
  lemma ClosesSecond(b: Sock) returns (b1: Sock, fin: Segment)
    requires b.state.CloseWait? && SenderKeeps(b) && b.receiveNextSeq == b.reassembler.nextSequence
    ensures Close(b) == (b1, [fin]) && fin.payload == [] && fin.flags == FLAG_FIN + FLAG_ACK
    ensures fin.ackNum == WrappingAdd(b.reassembler.nextSequence, 1)
    ensures b1 == b.(state := LastAck, requestRetryCount := 0, responseArmed := true) && SenderKeeps(b1)
  {
    b1, fin := SetState(b, LastAck).(responseArmed := true), SendPacket(b, [], FLAG_FIN + FLAG_ACK);
  }

  lemma AcksFin(b: Sock) returns (b1: Sock, ack: Segment)
    requires b.state.CloseWait? && SenderKeeps(b) && b.receiveNextSeq == b.reassembler.nextSequence
    ensures DelayedAck(b) == (b1, [ack]) && ack.payload == [] && ack.flags == FLAG_ACK
    ensures ack.ackNum == WrappingAdd(b.reassembler.nextSequence, 1)
    ensures b1 == b.(delayedAckArmed := false, numDelayedAcks := 0) && SenderKeeps(b1)
  {
    b1, ack := b.(delayedAckArmed := false, numDelayedAcks := 0), SendPacket(b, [], FLAG_ACK);
  }

  /** ORDERLY: of any two sockets in step, one closes, the other acknowledges that and then closes too.
      The code's own segments close both; but the one that closed first waits for TIME-WAIT to run out
      with the response timer set, which is shorter and stops the program. */
  lemma OrderlyTeardown(a: Sock, b: Sock)
    returns (a1: Sock, fin: Segment, b1: Sock, b2: Sock, ack: Segment, a2: Sock,
             b3: Sock, fin2: Segment, a3: Sock, last: Segment, b4: Sock)
    requires InSync(a, b)
    ensures Close(a) == (a1, [fin]) && Input(b, fin) == Some((b1, []))
    ensures DelayedAck(b1) == (b2, [ack]) && Input(a1, ack) == Some((a2, []))
    ensures Close(b2) == (b3, [fin2]) && Input(a2, fin2) == Some((a3, [last]))
    ensures Input(b3, last) == Some((b4, [])) && b4.state.Closed?
    ensures a3.state.TimeWait? && TimeWaitTimeout(a3).0.state.Closed? && Trapped(a3)
  {
    a1, fin := ClosesFirst(a);
    b1 := FinToEstablished(b, fin);
    b2, ack := AcksFin(b1);
    a2 := AckToFinWait1(a1, ack);
    b3, fin2 := ClosesSecond(b2);
    a3, last := FinToFinWait2(a2, fin2);
    b4 := AckToLastAck(b3, last);
  }

  /** SIMULTANEOUS: both close and their FINs cross; both end in TIME-WAIT. */
  lemma SimultaneousTeardown(a: Sock, b: Sock)
    returns (a1: Sock, finA: Segment, b1: Sock, finB: Segment, a2: Sock, ackA: Segment, b2: Sock, ackB: Segment,
             a3: Sock, b3: Sock)
    requires InSync(a, b)
    ensures Close(a) == (a1, [finA]) && Close(b) == (b1, [finB])
    ensures Input(a1, finB) == Some((a2, [ackA])) && Input(b1, finA) == Some((b2, [ackB]))
    ensures Input(a2, ackB) == Some((a3, [])) && Input(b2, ackA) == Some((b3, []))
    ensures a3.state.TimeWait? && b3.state.TimeWait?
    ensures TimeWaitTimeout(a3).0.state.Closed? && TimeWaitTimeout(b3).0.state.Closed?
  {
    a1, finA := ClosesFirst(a);
    b1, finB := ClosesFirst(b);
    NotOneMore(a.sendNextSeq);
    NotOneMore(b.sendNextSeq);
    a2, ackA := FinCrossesFin(a1, finB);
    b2, ackB := FinCrossesFin(b1, finA);
    a3 := AckToClosing(a2, ackB);
    b3 := AckToClosing(b2, ackA);
  }

  lemma NotOneMore(n: u32)
    ensures n != WrappingAdd(n, 1)
  {}

  /** What tcp_input answers when no socket is found and no new connection is made. */
  function NoSocket(g: Segment): Segment { Segment(1, WrappingAdd(g.seqNum, 1), FLAG_RST + FLAG_ACK, 0, 0, []) }

  /** HASTY: if the other closes at once, its FIN also acknowledges the first and is not answered.  It
      sends it again without end (nothing changes at either side) until TIME-WAIT is over there; then
      the next copy finds no socket, and a reset closes it. */
  lemma HastyTeardown(a: Sock, b: Sock)
    returns (a1: Sock, fin: Segment, b1: Sock, b2: Sock, fin2: Segment, a2: Sock, again: Segment, b3: Sock)
    requires InSync(a, b)
    ensures Close(a) == (a1, [fin]) && Input(b, fin) == Some((b1, []))
    ensures Close(b1) == (b2, [fin2]) && Input(a1, fin2) == Some((a2, []))
    ensures a2.state.TimeWait? && b2.state.LastAck?
    ensures ResponseTimeout(b2) == Some((b2, [again])) && Input(a2, again) == Some((a2, []))
    ensures TimeWaitTimeout(a2).0.state.Closed?
    ensures Input(b2, NoSocket(again)) == Some((b3, [])) && b3.state.Closed?
  {
    a1, fin := ClosesFirst(a);
    b1 := FinToEstablished(b, fin);
    b2, fin2 := ClosesSecond(b1);
    a2 := FinToFinWait1(a1, fin2);
    again, b3 := WaitsForReset(a2, b2);
  }

  lemma WaitsForReset(a: Sock, b: Sock) returns (again: Segment, b': Sock)
    requires a.state.TimeWait? && !a.responseArmed && b.state.LastAck? && b.responseArmed && b.requestRetryCount == 0
    ensures ResponseTimeout(b) == Some((b, [again])) && Input(a, again) == Some((a, []))
    ensures TimeWaitTimeout(a).0.state.Closed?
    ensures Input(b, NoSocket(again)) == Some((b', [])) && b'.state.Closed?
  {
    again := SendsFinAgain(b);
    FinToTimeWait(a, again);
    b' := ResetArrives(b, NoSocket(again));
  }

  lemma SendsFinAgain(b: Sock) returns (g: Segment)
    requires b.state.LastAck? && b.responseArmed && b.requestRetryCount == 0
    ensures ResponseTimeout(b) == Some((b, [g])) && g.flags == FLAG_FIN && g.payload == [] && g.mss == 0
  {
    g := SendPacket(b, [], FLAG_FIN);
    assert b.(responseArmed := true) == b;
  }

  lemma ResetArrives(b: Sock, g: Segment) returns (b': Sock)
    requires HasRst(g.flags)
    ensures Input(b, g) == Some((b', [])) && b'.state.Closed?
  {
    b' := SetState(Noticed(b, g), Closed);
  }

  lemma FinToTimeWait(a: Sock, g: Segment)
    requires a.state.TimeWait? && !a.responseArmed && g.flags == FLAG_FIN && g.payload == [] && g.mss == 0
    ensures Input(a, g) == Some((a, []))
  {
    assert Noticed(a, g) == a && ReceiveData(a, g) == (a, []) && ProcessAck(a, g) == Some(a);
    assert Transition(a, g) == (a, []) && [] + Transition(a, g).1 == [];
  }

  /** ANSWERS: past the handshake a segment is answered at once if and only if it brings data (and the
      connection is no longer open, or it is the fifth, or a FIN comes with it), or is a FIN taken in
      FIN-WAIT-2, or in FIN-WAIT-1 without acknowledging the own FIN.  A bare FIN is not answered
      otherwise. */
  lemma AnsweredIff(s: Sock, g: Segment)
    requires SenderKeeps(s) && !HasRst(g.flags)
    ensures Input(s, g).Some?
    ensures Input(s, g).value.1 != [] <==>
              || (g.payload != [] && (s.state != Established || s.numDelayedAcks >= 4 || HasFin(g.flags)))
              || (HasFin(g.flags) && s.state.FinWait2?)
              || (HasFin(g.flags) && s.state.FinWait1? && !(HasAck(g.flags) && g.ackNum == WrappingAdd(s.sendNextSeq, 1)))
  {
    var t := Noticed(s, g);
    var t2 := ReceiveData(t, g).0;
    ReceiveDataLeaves(t, g);
    DataAnswered(t, g);
    AckWithinQueue(t2, g);
    ProcessAckLeaves(t2, g);
    ProcessAckNext(t2, g);
    MatchAnswers(ProcessAck(t2, g).value, g);
  }

  lemma DataAnswered(s: Sock, g: Segment)
    ensures ReceiveData(s, g).1 != []
            <==> g.payload != [] && (s.state != Established || s.numDelayedAcks >= 4 || HasFin(g.flags))
  {}

  lemma MatchAnswers(u: Sock, g: Segment)
    requires PastHandshake(u)
    ensures Transition(u, g).1 != [] <==>
              HasFin(g.flags) && (u.state.FinWait2?
                                  || (u.state.FinWait1? && !(HasAck(g.flags) && g.ackNum == WrappingAdd(u.sendNextSeq, 1))))
  {}
}
