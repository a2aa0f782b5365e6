/** What a socket keeps up while a connection lasts: tcp_write as a run of single packets, what
    acknowledgements remove, the timers that guard what is unacknowledged, and the segment size.
  */
module Upkeep {
  import opened Words
  import opened Reassembler
  import opened Socket
  import opened Lifecycle
  import opened Fin

  // ---------- a call of tcp_write is a run ----------

  /** The segments sent by the first `n` events. */
  function SentBy(s: Sock, events: seq<Event>, n: nat): seq<Segment>
    requires n <= |events|
  {
    if n == 0 then []
    else
      match HappenAll(s, events, n - 1)
      case None => SentBy(s, events, n - 1)
      case Some(s') => SentBy(s, events, n - 1) + Sends(s', events[n - 1])
  }

  /** From `s` these events lead to `s'`, accepting these bytes and sending these segments. */
  ghost predicate Runs(s: Sock, events: seq<Event>, s': Sock, accepted: seq<u8>, sent: seq<Segment>) {
    && HappenAll(s, events, |events|) == Some(s')
    && AcceptedBy(s, events, |events|) == accepted && SentBy(s, events, |events|) == sent
  }

  lemma SentByNext(s: Sock, events: seq<Event>, n: nat, r: Option<Sock>)
    requires 0 < n <= |events| && r == HappenAll(s, events, n - 1)
    ensures SentBy(s, events, n) == SentBy(s, events, n - 1) + if r.None? then [] else Sends(r.value, events[n - 1])
  {
    assert SentBy(s, events, n - 1) + [] == SentBy(s, events, n - 1);
  }

  lemma {:induction false} SamePrefix(s: Sock, events: seq<Event>, more: seq<Event>, n: nat)
    requires n <= |events|
    ensures HappenAll(s, events + more, n) == HappenAll(s, events, n)
    ensures AcceptedBy(s, events + more, n) == AcceptedBy(s, events, n)
    ensures SentBy(s, events + more, n) == SentBy(s, events, n)
  {
    if n > 0 {
      var all, r := events + more, HappenAll(s, events, n - 1);
      SamePrefix(s, events, more, n - 1);
      assert all[n - 1] == events[n - 1];
      HappenAllNext(s, events, n, r);
      HappenAllNext(s, all, n, r);
      SentByNext(s, events, n, r);
      SentByNext(s, all, n, r);
    }
  }

  /** A run goes on by one event. */
  lemma RunsOn(s: Sock, events: seq<Event>, t: Sock, accepted: seq<u8>, sent: seq<Segment>, e: Event, s': Sock)
    requires Runs(s, events, t, accepted, sent) && Happens(t, e) == Some(s')
    ensures Runs(s, events + [e], s', accepted + Accepted(t, e), sent + Sends(t, e))
  {
    var all := events + [e];
    SamePrefix(s, events, [e], |events|);
    HappenAllNext(s, all, |all|, Some(t));
    SentByNext(s, all, |all|, Some(t));
  }

  predicate WritesOnly(events: seq<Event>) { forall i :: 0 <= i < |events| ==> events[i].WritePart? }

  lemma PartHappens(t: Sock, data: seq<u8>)
    requires !t.state.Closed? && data != [] && WindowOpen(t, data)
    ensures var (t1, g) := WritePacket(t, data);
            && Happens(t, WritePart(data)) == Some(t1) && Sends(t, WritePart(data)) == [g]
            && Accepted(t, WritePart(data)) == data[..PacketLength(t, data)]
  {}

  /** After some part of a call of tcp_write, the rest of it. */
  lemma {:induction false} WriteRunsOn(s: Sock, before: seq<Event>, t: Sock, accepted: seq<u8>, sent: seq<Segment>,
                                       data: seq<u8>) returns (events: seq<Event>)
    requires t.sendMss > 0 && WritesOnly(before) && Runs(s, before, t, accepted, sent)
    ensures var ((s', more), taken) := Write(t, data);
            taken <= |data| && WritesOnly(events) && Runs(s, events, s', accepted + data[..taken], sent + more)
    decreases |data|
  {
    WriteTakesInOrder(t, data);
    if t.state.Closed? || data == [] || !WindowOpen(t, data) {
      events := before;
      assert accepted + data[..0] == accepted && sent + [] == sent;
    } else {
      var n := PacketLength(t, data);
      var (t1, g) := WritePacket(t, data);
      PartHappens(t, data);
      RunsOn(s, before, t, accepted, sent, WritePart(data), t1);
      WriteTakesInOrder(t1, data[n..]);
      events := WriteRunsOn(s, before + [WritePart(data)], t1, accepted + data[..n], sent + [g], data[n..]);
      PartsJoin(accepted, data, n, Write(t1, data[n..]).1, sent, g, Write(t1, data[n..]).0.1);
    }
  }

  lemma PartsJoin(accepted: seq<u8>, data: seq<u8>, n: nat, taken: nat, sent: seq<Segment>, g: Segment, more: seq<Segment>)
    requires n + taken <= |data|
    ensures accepted + data[..n] + data[n..][..taken] == accepted + data[..n + taken]
    ensures sent + [g] + more == sent + ([g] + more)
  {
    assert data[..n] + data[n..][..taken] == data[..n + taken];
  }

  /** WRITE IS A RUN: a call of tcp_write, up to its next wait, is a run of events that each write one
      packet; what every run keeps therefore holds across calls. */
  lemma WriteIsRun(s: Sock, data: seq<u8>) returns (events: seq<Event>)
    requires s.sendMss > 0
    ensures var ((s', sent), taken) := Write(s, data);
            taken <= |data| && WritesOnly(events) && Runs(s, events, s', data[..taken], sent)
  {
    RunsNothing(s);
    var ((s', sent), taken) := Write(s, data);
    events := WriteRunsOn(s, [], s, [], [], data);
    FromNothing(data, taken, sent);
  }

  lemma RunsNothing(s: Sock)
    ensures Runs(s, [], s, [], [])
  {}

  lemma FromNothing(data: seq<u8>, taken: nat, sent: seq<Segment>)
    requires taken <= |data|
    ensures [] + data[..taken] == data[..taken] && [] + sent == sent
  {}

  // ---------- what acknowledgements remove ----------

  lemma DistanceBeyond(una: u32, q: nat, k: int, x: u32, next: u32)
    requires q < k < 0x8000_0000 && x == Wrap(una + k) && next == Wrap(una + q)
    ensures SeqGt(x, next)
  {
    SeqCompareIsOrder(una + k, una + q);
  }

  /** The wrapped tests let through the acknowledgements of the first `k` queued bytes. */
  lemma AckBeyond(s: Sock, ackNum: u32, k: int)
    requires SenderKeeps(s) && k == WrappingSub(ackNum, s.sendUnacked)
    ensures SeqLt(s.sendUnacked, ackNum) && SeqLe(ackNum, s.sendNextSeq) <==> 0 < k <= |s.retransmitQueue|
    ensures k == 0 ==> ackNum == s.sendUnacked
  {
    var una, q := s.sendUnacked, |s.retransmitQueue|;
    WrapDistance(una, ackNum);
    if 0 < k <= q {
      AtDistance(una, k, q, ackNum, s.sendNextSeq);
    } else if q < k < 0x8000_0000 {
      DistanceBeyond(una, q, k, ackNum, s.sendNextSeq);
    }
  }

  lemma AckTrims(s: Sock, ackNum: u32, k: int)
    requires SenderKeeps(s) && k == WrappingSub(ackNum, s.sendUnacked)
    ensures TrimAcked(s, ackNum).Some?
    ensures var s' := TrimAcked(s, ackNum).value;
            if k <= |s.retransmitQueue|
            then s'.retransmitQueue == s.retransmitQueue[k..] && s'.sendUnacked == ackNum
            else s'.retransmitQueue == s.retransmitQueue && s'.sendUnacked == s.sendUnacked
  {
    AckBeyond(s, ackNum, k);
  }

  /** ACKNOWLEDGEMENT: past the handshake a segment takes exactly the bytes it acknowledges out of the
      queue, and none if it acknowledges more than is queued, bears no ACK, or the connection is
      closed or in TIME-WAIT. */
  lemma AckRemoves(s: Sock, g: Segment)
    requires SenderKeeps(s) && !HasRst(g.flags)
    ensures Input(s, g).Some?
    ensures var s', k := Input(s, g).value.0, WrappingSub(g.ackNum, s.sendUnacked);
            if HasAck(g.flags) && s.state != Closed && s.state != TimeWait && k <= |s.retransmitQueue|
            then s'.retransmitQueue == s.retransmitQueue[k..] && s'.sendUnacked == g.ackNum
            else s'.retransmitQueue == s.retransmitQueue && s'.sendUnacked == s.sendUnacked
  {
    var t := ReceiveData(Noticed(s, g), g).0;
    ReceiveDataLeaves(Noticed(s, g), g);
    AckTrims(t, g.ackNum, WrappingSub(g.ackNum, s.sendUnacked));
    AckWithinQueue(t, g);
    ProcessAckLeaves(t, g);
    AckedIs(t, g);
    TransitionLeaves(ProcessAck(t, g).value, g);
  }

  lemma AckedIs(t: Sock, g: Segment)
    requires SenderKeeps(t) && ProcessAck(t, g).Some?
    ensures var u := ProcessAck(t, g).value;
            if HasAck(g.flags) && t.state != Closed && t.state != TimeWait
            then TrimAcked(t, g.ackNum).Some? && u.retransmitQueue == TrimAcked(t, g.ackNum).value.retransmitQueue
                 && u.sendUnacked == TrimAcked(t, g.ackNum).value.sendUnacked
            else u == t
  {}

  /** A newer segment that acknowledges everything sent sets the window, as long as the connection is not
      closed or in TIME-WAIT. */
  lemma AckSetsWindow(s: Sock, g: Segment)
    requires SenderKeeps(s) && HasAck(g.flags) && !HasRst(g.flags) && s.state != Closed && s.state != TimeWait
    requires g.ackNum == s.sendNextSeq && SeqLt(s.sendLastWinSeq, g.seqNum)
    ensures Input(s, g).Some?
    ensures var s' := Input(s, g).value.0;
            s'.sendWindow == g.window && s'.sendLastWinSeq == g.seqNum && s'.sendLastWinAck == g.ackNum
  {
    var t := ReceiveData(Noticed(s, g), g).0;
    ReceiveDataLeaves(Noticed(s, g), g);
    AckWithinQueue(t, g);
    ProcessAckLeaves(t, g);
    AllAcked(t, g);
    TransitionLeaves(ProcessAck(t, g).value, g);
  }

  lemma AllAcked(t: Sock, g: Segment)
    requires SenderKeeps(t) && HasAck(g.flags) && t.state != Closed && t.state != TimeWait
    requires g.ackNum == t.sendNextSeq && SeqLt(t.sendLastWinSeq, g.seqNum) && ProcessAck(t, g).Some?
    ensures var u := ProcessAck(t, g).value;
            u.sendWindow == g.window && u.sendLastWinSeq == g.seqNum && u.sendLastWinAck == g.ackNum
  {
    AckBeyond(t, g.ackNum, WrappingSub(g.ackNum, t.sendUnacked));
    DistanceOfSum(t.sendUnacked, |t.retransmitQueue|);
  }

  lemma DistanceOfSum(a: u32, n: nat)
    requires n <= 0xffff
    ensures WrappingSub(WrappingAdd(a, n), a) == n
  {
    WrapSub(a + n, a);
    assert Wrap(a) == a;
  }

  // ---------- the retransmission timer ----------

  /** The timer is set exactly while something is queued. */
  predicate Guarded(s: Sock) { s.sendMss > 0 && (s.retransmitArmed <==> s.retransmitQueue != []) }

  lemma DataGuards(s: Sock, g: Segment)
    requires Guarded(s)
    ensures Guarded(ReceiveData(s, g).0)
  {}

  lemma AckGuards(s: Sock, g: Segment)
    requires Guarded(s) && ProcessAck(s, g).Some?
    ensures Guarded(ProcessAck(s, g).value)
  {}

  lemma MatchGuards(s: Sock, g: Segment)
    requires Guarded(s)
    ensures Guarded(Transition(s, g).0)
  {}

  lemma ArrivalGuards(s: Sock, g: Segment, s': Sock)
    requires Guarded(s) && Happens(s, Arrives(g)) == Some(s')
    ensures Guarded(s')
  {
    if !HasRst(g.flags) {
      DataGuards(Noticed(s, g), g);
      var t := ReceiveData(Noticed(s, g), g).0;
      AckGuards(t, g);
      MatchGuards(ProcessAck(t, g).value, g);
    }
  }

  lemma OthersGuard(s: Sock, e: Event, s': Sock)
    requires Guarded(s) && !e.Arrives? && Happens(s, e) == Some(s')
    ensures Guarded(s')
  {}

  lemma EventGuards(s: Sock, e: Event, s': Sock)
    requires Guarded(s) && Happens(s, e) == Some(s')
    ensures Guarded(s')
  {
    if e.Arrives? {
      ArrivalGuards(s, e.segment, s');
    } else {
      OthersGuard(s, e, s');
    }
  }

  /** RETRANSMISSION TIMER: over every run, whatever arrives, the timer is set exactly while
      unacknowledged bytes are queued. */
  lemma {:induction false} QueueIsGuarded(s: Sock, events: seq<Event>, n: nat, r: Option<Sock>)
    requires n <= |events| && Guarded(s) && r == HappenAll(s, events, n)
    ensures r.Some? ==> Guarded(r.value)
    decreases n
  {
    if n > 0 {
      var before := HappenAll(s, events, n - 1);
      QueueIsGuarded(s, events, n - 1, before);
      EventComesNext(s, events, n, before, r);
      if r.Some? { EventGuards(before.value, events[n - 1], r.value); }
    }
  }

  // ---------- delayed acknowledgements ----------

  predicate DataArrives(e: Event) { e.Arrives? && !HasRst(e.segment.flags) && e.segment.payload != [] }

  /** Data segments since the last acknowledgement sent for its own sake; the fifth is answered. */
  function Unanswered(events: seq<Event>, n: nat): nat
    requires n <= |events|
  {
    if n == 0 then 0
    else if DataArrives(events[n - 1]) then (Unanswered(events, n - 1) + 1) % 5
    else if events[n - 1].DelayedAckFires? then 0
    else Unanswered(events, n - 1)
  }

  /** As long as the connection is open, the socket counts them, and its timer is set if there are any. */
  predicate Counts(s: Sock, unanswered: nat) {
    s.state.Established? ==>
      s.numDelayedAcks == unanswered && unanswered < 5 && (s.delayedAckArmed <==> unanswered > 0)
  }

  /** An open connection answers a data segment at once if it is the fifth or ends the stream; otherwise
      the timer is set, and it is answered when that fires. */
  lemma DataCounted(s: Sock, g: Segment)
    requires s.state.Established? && s.numDelayedAcks < 5 && g.payload != []
    ensures var (t, acks) := ReceiveData(s, g);
            if s.numDelayedAcks == 4 || HasFin(g.flags)
            then |acks| == 1 && acks[0].payload == [] && acks[0].flags == FLAG_ACK && t.numDelayedAcks == 0 && !t.delayedAckArmed
            else acks == [] && t.numDelayedAcks == s.numDelayedAcks + 1 && t.delayedAckArmed
  {}

  lemma AckCounts(s: Sock, g: Segment)
    requires ProcessAck(s, g).Some?
    ensures var u := ProcessAck(s, g).value; u.numDelayedAcks == s.numDelayedAcks && u.delayedAckArmed == s.delayedAckArmed
  {}

  lemma MatchKeepsCount(u: Sock, g: Segment)
    requires u.state.Established?
    ensures var (s', more) := Transition(u, g);
            && s'.numDelayedAcks == u.numDelayedAcks && s'.delayedAckArmed == u.delayedAckArmed && more == []
            && (s'.state.Established? <==> !HasFin(g.flags))
  {}

  lemma InputJoins(s: Sock, g: Segment, t: Sock, acks: seq<Segment>, u: Sock, s': Sock)
    requires !HasRst(g.flags) && ReceiveData(Noticed(s, g), g) == (t, acks)
    requires ProcessAck(t, g) == Some(u) && Transition(u, g) == (s', [])
    ensures Input(s, g) == Some((s', acks))
  {
    assert acks + [] == acks;
  }

  /** DELAYED ACKNOWLEDGEMENT of one segment. */
  lemma DataAnsweredIff(s: Sock, g: Segment)
    requires SenderKeeps(s) && s.state.Established? && s.numDelayedAcks < 5 && g.payload != [] && !HasRst(g.flags)
    ensures Input(s, g).Some?
    ensures var (s', sent) := Input(s, g).value;
            if s.numDelayedAcks == 4 || HasFin(g.flags)
            then |sent| == 1 && sent[0].payload == [] && sent[0].flags == FLAG_ACK && !s'.delayedAckArmed
            else sent == [] && s'.delayedAckArmed
  {
    var n := Noticed(s, g);
    var t, acks := ReceiveData(n, g).0, ReceiveData(n, g).1;
    ReceiveDataLeaves(n, g);
    DataCounted(n, g);
    AckWithinQueue(t, g);
    ProcessAckLeaves(t, g);
    AckCounts(t, g);
    var u := ProcessAck(t, g).value;
    MatchKeepsCount(u, g);
    InputJoins(s, g, t, acks, u, Transition(u, g).0);
  }

  lemma InputKeepsCount(s: Sock, g: Segment, s': Sock)
    requires s.state.Established? && !HasRst(g.flags) && Happens(s, Arrives(g)) == Some(s')
    ensures var t := ReceiveData(Noticed(s, g), g).0;
            s'.numDelayedAcks == t.numDelayedAcks && s'.delayedAckArmed == t.delayedAckArmed
    ensures s'.state.Established? <==> !HasFin(g.flags)
  {
    var t := ReceiveData(Noticed(s, g), g).0;
    ReceiveDataLeaves(Noticed(s, g), g);
    ProcessAckLeaves(t, g);
    AckCounts(t, g);
    MatchKeepsCount(ProcessAck(t, g).value, g);
  }

  lemma NextCount(n: nat)
    requires n < 5
    ensures (n + 1) % 5 == if n == 4 then 0 else n + 1
  {}

  lemma ArrivalCounts(s: Sock, g: Segment, s': Sock, before: nat)
    requires s.state.Established? && Counts(s, before) && Happens(s, Arrives(g)) == Some(s')
    ensures Counts(s', if DataArrives(Arrives(g)) then (before + 1) % 5 else before)
  {
    if !HasRst(g.flags) {
      InputKeepsCount(s, g, s');
      NextCount(before);
      if g.payload != [] { DataCounted(Noticed(s, g), g); }
    }
  }

  lemma EventCountsData(s: Sock, e: Event, s': Sock, before: nat)
    requires s.state.Established? && Counts(s, before) && Happens(s, e) == Some(s')
    ensures Counts(s', if DataArrives(e) then (before + 1) % 5 else if e.DelayedAckFires? then 0 else before)
  {
    if e.Arrives? {
      ArrivalCounts(s, e.segment, s', before);
    }
  }

  lemma WasEstablished(before: Sock, after: Sock)
    requires PastHandshake(before) && Raises(before.state, after.state)
    ensures PastHandshake(after) && (after.state.Established? ==> before.state.Established?)
  {}

  /** Where a run has led, if it has not panicked. */
  ghost predicate Keeps(r: Option<Sock>, unanswered: nat) {
    r.Some? ==> PastHandshake(r.value) && Counts(r.value, unanswered)
  }

  lemma CountGoesOn(before: Option<Sock>, e: Event, r: Option<Sock>, sofar: nat)
    requires Keeps(before, sofar) && r == if before.None? then None else Happens(before.value, e)
    ensures Keeps(r, if DataArrives(e) then (sofar + 1) % 5 else if e.DelayedAckFires? then 0 else sofar)
  {
    if r.Some? {
      EventRaisesRank(before.value, e);
      WasEstablished(before.value, r.value);
      if r.value.state.Established? { EventCountsData(before.value, e, r.value, sofar); }
    }
  }

  /** DELAYED ACKNOWLEDGEMENTS: over every run of an open connection the socket counts the data segments
      not yet answered, never lets five of them wait, and has the timer set exactly if there are any. */
  lemma {:induction false} UnansweredIsCounted(s: Sock, events: seq<Event>, n: nat, r: Option<Sock>, unanswered: nat)
    requires n <= |events| && s.state.Established? && s.numDelayedAcks == 0 && !s.delayedAckArmed
    requires r == HappenAll(s, events, n) && unanswered == Unanswered(events, n)
    ensures Keeps(r, unanswered)
    decreases n
  {
    if n > 0 {
      var before, sofar := HappenAll(s, events, n - 1), Unanswered(events, n - 1);
      UnansweredIsCounted(s, events, n - 1, before, sofar);
      EventComesNext(s, events, n, before, r);
      CountGoesOn(before, events[n - 1], r, sofar);
    }
  }

  // ---------- the segment size ----------

  /** The last size announced in the first `n` events, or else the one before. */
  function Announced(mss: u16, events: seq<Event>, n: nat): u16
    requires n <= |events|
  {
    if n == 0 then mss
    else if events[n - 1].Arrives? && events[n - 1].segment.mss != 0 then events[n - 1].segment.mss
    else Announced(mss, events, n - 1)
  }

  lemma EventAnnounces(s: Sock, e: Event, s': Sock)
    requires Happens(s, e) == Some(s')
    ensures s'.sendMss == if e.Arrives? && e.segment.mss != 0 then e.segment.mss else s.sendMss
  {
    if e.Arrives? && !HasRst(e.segment.flags) {
      var g := e.segment;
      ReceiveDataLeaves(Noticed(s, g), g);
      var t := ReceiveData(Noticed(s, g), g).0;
      ProcessAckLeaves(t, g);
      TransitionLeaves(ProcessAck(t, g).value, g);
    }
  }

  /** SEGMENT SIZE: over every run it is the one the peer announced last. */
  lemma {:induction false} SizeIsAnnounced(s: Sock, events: seq<Event>, n: nat, r: Option<Sock>)
    requires n <= |events| && r == HappenAll(s, events, n)
    ensures r.Some? ==> r.value.sendMss == Announced(s.sendMss, events, n)
    decreases n
  {
    if n > 0 {
      var before := HappenAll(s, events, n - 1);
      SizeIsAnnounced(s, events, n - 1, before);
      EventComesNext(s, events, n, before, r);
      if r.Some? { EventAnnounces(before.value, events[n - 1], r.value); }
    }
  }

  /** A turn of tcp_write's loop gets on if and only if the segment size is not zero; otherwise all but
      the timer is as before, the window is still open, and so the loop never ends. */
  lemma WriteGetsOnIff(s: Sock, data: seq<u8>)
    requires data != [] && WindowOpen(s, data)
    ensures var (s', g) := WritePacket(s, data);
            if s.sendMss > 0 then g.payload != [] && g.payload <= data
            else g.payload == [] && s' == s.(retransmitArmed := true) && WindowOpen(s', data)
  {
    if s.sendMss == 0 { TakesNothing(s, data); }
  }

  lemma AddNothing(n: u32)
    ensures WrappingAdd(n, 0) == n
  {}

  lemma TakesNothing(s: Sock, data: seq<u8>)
    requires PacketLength(s, data) == 0
    ensures WritePacket(s, data).0 == s.(retransmitArmed := true) && WritePacket(s, data).1.payload == []
  {
    AddNothing(s.sendNextSeq);
    assert data[..0] == [] && s.retransmitQueue + [] == s.retransmitQueue;
  }

  /** NO SIZE: on a connection a listener has made the size is zero exactly as long as neither the SYN
      nor a later segment has announced one; a connection that was opened has always one. */
  lemma SizeIsZeroIff(iss: u32, syn: Segment, events: seq<Event>, n: nat)
    requires n <= |events|
    ensures var r := HappenAll(NewConnection(iss, syn).0, events, n);
            r.Some? ==> (r.value.sendMss == 0 <==>
                         syn.mss == 0 && forall k :: 0 <= k < n && events[k].Arrives? ==> events[k].segment.mss == 0)
    ensures var r := HappenAll(Open(iss).0, events, n); r.Some? ==> r.value.sendMss > 0
  {
    SizeIsAnnounced(NewConnection(iss, syn).0, events, n, HappenAll(NewConnection(iss, syn).0, events, n));
    SizeIsAnnounced(Open(iss).0, events, n, HappenAll(Open(iss).0, events, n));
    ZeroIff(syn.mss, events, n);
    ZeroIff(DEFAULT_TCP_MSS, events, n);
  }

  lemma {:induction false} ZeroIff(mss: u16, events: seq<Event>, n: nat)
    requires n <= |events|
    ensures Announced(mss, events, n) == 0 <==>
              mss == 0 && forall k :: 0 <= k < n && events[k].Arrives? ==> events[k].segment.mss == 0
  {
    if n > 0 {
      ZeroIff(mss, events, n - 1);
    }
  }

  // ---------- what is read ----------

  /** What the application gets in an event. */
  function Reads(s: Sock, e: Event): seq<u8> {
    if e.ReadPart? && Socket.Read(s, e.room).1.Got? then Socket.Read(s, e.room).1.data else []
  }

  /** ... and in the first `n`. */
  function ReadBy(s: Sock, events: seq<Event>, n: nat): seq<u8>
    requires n <= |events|
  {
    if n == 0 then []
    else
      match HappenAll(s, events, n - 1)
      case None => ReadBy(s, events, n - 1)
      case Some(s') => ReadBy(s, events, n - 1) + Reads(s', events[n - 1])
  }

  /** What a data segment brings out of the early list. */
  function Brings(r: Reassembly, data: seq<Segment>): seq<u8> {
    if data == [] then []
    else var (_, out) := Add(r, data[0].payload, data[0].seqNum); if out.Some? then out.value else []
  }

  lemma DataQueues(s: Sock, g: Segment)
    ensures ReceiveData(s, g).0.receiveQueue == s.receiveQueue + Brings(s.reassembler, if g.payload == [] then [] else [g])
  {
    assert s.receiveQueue + [] == s.receiveQueue;
  }

  lemma MatchLeavesQueue(u: Sock, g: Segment)
    ensures Transition(u, g).0.receiveQueue == u.receiveQueue
  {}

  lemma ArrivalQueues(s: Sock, g: Segment, s': Sock)
    requires Happens(s, Arrives(g)) == Some(s')
    ensures s'.receiveQueue == s.receiveQueue + Brings(s.reassembler, DataIn(Arrives(g)))
  {
    if HasRst(g.flags) {
      assert s.receiveQueue + [] == s.receiveQueue;
    } else {
      var t := ReceiveData(Noticed(s, g), g).0;
      DataQueues(Noticed(s, g), g);
      ProcessAckLeaves(t, g);
      MatchLeavesQueue(ProcessAck(t, g).value, g);
    }
  }

  lemma ReadTakes(s: Sock, room: nat)
    ensures Reads(s, ReadPart(room)) + Socket.Read(s, room).0.receiveQueue == s.receiveQueue
  {
    assert [] + s.receiveQueue == s.receiveQueue;
  }

  lemma OthersQueue(s: Sock, e: Event, s': Sock)
    requires !e.Arrives? && Happens(s, e) == Some(s')
    ensures Reads(s, e) + s'.receiveQueue == s.receiveQueue
  {
    if e.ReadPart? {
      ReadTakes(s, e.room);
    } else {
      assert s'.receiveQueue == s.receiveQueue;
      assert [] + s.receiveQueue == s.receiveQueue;
    }
  }

  /** Queue and reading together grow by what the event brings. */
  lemma EventQueues(s: Sock, e: Event, s': Sock)
    requires Happens(s, e) == Some(s')
    ensures Reads(s, e) + s'.receiveQueue == s.receiveQueue + Brings(s.reassembler, DataIn(e))
  {
    if e.Arrives? {
      ArrivalQueues(s, e.segment, s');
      assert [] + s'.receiveQueue == s'.receiveQueue;
    } else {
      OthersQueue(s, e, s');
      assert s.receiveQueue + [] == s.receiveQueue;
    }
  }

  /** What came out of the early list in the first `n` events. */
  function CameOut(s: Sock, events: seq<Event>, n: nat): seq<u8>
    requires n <= |events|
  {
    if n == 0 then []
    else
      match HappenAll(s, events, n - 1)
      case None => CameOut(s, events, n - 1)
      case Some(s') => CameOut(s, events, n - 1) + Brings(s'.reassembler, DataIn(events[n - 1]))
  }

  lemma ReadByNext(s: Sock, events: seq<Event>, n: nat, r: Sock)
    requires 0 < n <= |events| && Some(r) == HappenAll(s, events, n - 1)
    ensures ReadBy(s, events, n) == ReadBy(s, events, n - 1) + Reads(r, events[n - 1])
    ensures CameOut(s, events, n) == CameOut(s, events, n - 1) + Brings(r.reassembler, DataIn(events[n - 1]))
  {}

  /** Where a run has led, if it has not panicked: what was read and what is queued are what came out. */
  ghost predicate HasRead(r: Option<Sock>, read: seq<u8>, out: seq<u8>) {
    r.Some? ==> read + r.value.receiveQueue == out
  }

  lemma HasReadNext(s: Sock, e: Event, s': Sock, read: seq<u8>, out: seq<u8>)
    requires HasRead(Some(s), read, out) && Happens(s, e) == Some(s')
    ensures HasRead(Some(s'), read + Reads(s, e), out + Brings(s.reassembler, DataIn(e)))
  {
    EventQueues(s, e, s');
    Regroup(read, Reads(s, e), s'.receiveQueue, s.receiveQueue, Brings(s.reassembler, DataIn(e)));
  }

  lemma Regroup(read: seq<u8>, more: seq<u8>, after: seq<u8>, before: seq<u8>, brings: seq<u8>)
    requires more + after == before + brings
    ensures read + more + after == read + before + brings
  {
    assert read + more + after == read + (more + after);
    assert read + before + brings == read + (before + brings);
  }

  lemma RunReadsNext(s: Sock, events: seq<Event>, n: nat, before: Option<Sock>, r: Option<Sock>)
    requires 0 < n <= |events| && before == HappenAll(s, events, n - 1) && r == HappenAll(s, events, n)
    requires HasRead(before, ReadBy(s, events, n - 1), CameOut(s, events, n - 1))
    ensures HasRead(r, ReadBy(s, events, n), CameOut(s, events, n))
  {
    EventComesNext(s, events, n, before, r);
    if r.Some? {
      ReadByNext(s, events, n, before.value);
      HasReadNext(before.value, events[n - 1], r.value, ReadBy(s, events, n - 1), CameOut(s, events, n - 1));
    }
  }

  lemma {:induction false} RunReads(s: Sock, events: seq<Event>, n: nat, r: Option<Sock>)
    requires n <= |events| && s.receiveQueue == [] && r == HappenAll(s, events, n)
    ensures HasRead(r, ReadBy(s, events, n), CameOut(s, events, n))
    decreases n
  {
    if n > 0 {
      var before := HappenAll(s, events, n - 1);
      RunReads(s, events, n - 1, before);
      RunReadsNext(s, events, n, before, r);
    }
  }

  lemma FeedBrings(run: Run, m: nat, data: seq<Segment>)
    requires m <= |run.arrivals| && |data| <= 1 && CarriesNext(data, run, m)
    ensures m + |data| <= |run.arrivals| && Feed(run, m + |data|).1 == Feed(run, m).1 + Brings(Feed(run, m).0, data)
  {
    assert Feed(run, m).1 + [] == Feed(run, m).1;
  }

  /** What a run of events has brought out of the list is what the run of its arrivals delivers. */
  ghost predicate OutIs(r: Option<Sock>, out: seq<u8>, run: Run, m: nat) {
    r.Some? ==> m <= |run.arrivals| && out == Feed(run, m).1
  }

  ghost predicate Delivers(r: Option<Sock>, out: seq<u8>, run: Run, m: nat) {
    Follows(r, run, m) && OutIs(r, out, run, m)
  }

  lemma OutIsNext(s: Sock, events: seq<Event>, n: nat, run: Run, before: Option<Sock>, r: Option<Sock>, k: nat,
                  more: seq<Segment>)
    requires 0 < n <= |events| && before == HappenAll(s, events, n - 1) && r == HappenAll(s, events, n)
    requires Delivers(before, CameOut(s, events, n - 1), run, k) && more == DataIn(events[n - 1]) && CarriesNext(more, run, k)
    ensures OutIs(r, CameOut(s, events, n), run, k + |more|)
  {
    if r.Some? {
      ReadByNext(s, events, n, before.value);
      FeedBrings(run, k, more);
    }
  }

  lemma DeliversNext(s: Sock, events: seq<Event>, n: nat, run: Run, before: Option<Sock>, r: Option<Sock>, k: nat,
                     more: seq<Segment>)
    requires 0 < n <= |events| && before == HappenAll(s, events, n - 1) && r == HappenAll(s, events, n)
    requires Delivers(before, CameOut(s, events, n - 1), run, k) && more == DataIn(events[n - 1]) && CarriesNext(more, run, k)
    ensures Delivers(r, CameOut(s, events, n), run, k + |more|)
  {
    FollowsRunNext(s, events, n, run, before, r, k, more);
    OutIsNext(s, events, n, run, before, r, k, more);
  }

  lemma {:induction false} RunDelivers(s: Sock, events: seq<Event>, n: nat, run: Run, r: Option<Sock>, m: nat)
    requires n <= |events| && Follows(Some(s), run, 0) && r == HappenAll(s, events, n) && Brought(events, n, run, m)
    ensures Delivers(r, CameOut(s, events, n), run, m)
    decreases n
  {
    if n > 0 {
      var before, more := HappenAll(s, events, n - 1), DataIn(events[n - 1]);
      RunDelivers(s, events, n - 1, run, before, m - |more|);
      DeliversNext(s, events, n, run, before, r, m - |more|, more);
    }
  }

  /** READING: past the handshake and whatever happens, also after a close and after a FIN, what the
      application has read and what is queued for it are exactly what has been delivered. */
  lemma ReadIsDelivered(s: Sock, events: seq<Event>, n: nat, run: Run, r: Sock, data: seq<Segment>)
    requires n <= |events| && PastHandshake(s) && Reflects(s, run, 0) && s.receiveQueue == []
    requires HappenAll(s, events, n) == Some(r) && data == DataOf(events, n) && Carry(data, run)
    ensures ReadBy(s, events, n) + r.receiveQueue == Feed(run, |data|).1
  {
    CarryIsBrought(events, n, run, data);
    RunReads(s, events, n, Some(r));
    RunDelivers(s, events, n, run, Some(r), |data|);
  }
}
