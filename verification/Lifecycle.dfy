/** Whole runs of one socket, against any peer and any network: what every sequence of
    calls, segments and timeouts keeps true of the send side and of the connection state.
  */
module Lifecycle {
  import opened Words
  import opened Socket

  /** Everything that can happen to a socket after it has been opened. */
  datatype Event =
    | Arrives(segment: Segment)
    | WritePart(data: seq<u8>)
    | ReadPart(room: nat)
    | Closes
    | RetransmitFires
    | DelayedAckFires
    | ResponseFires
    | TimeWaitFires

  /** `None` is a panic. */
  function Happens(s: Sock, e: Event): Option<Sock> {
    match e
    case Arrives(g) => (match Input(s, g) case None => None case Some(effect) => Some(effect.0))
    case WritePart(data) =>
      if s.state.Closed? || data == [] || !WindowOpen(s, data) then Some(s) else Some(WritePacket(s, data).0)
    case ReadPart(room) => Some(Socket.Read(s, room).0)
    case Closes => Some(Close(s).0)
    case RetransmitFires => Some(Retransmit(s).0)
    case DelayedAckFires => Some(DelayedAck(s).0)
    case ResponseFires => (match ResponseTimeout(s) case None => None case Some(effect) => Some(effect.0))
    case TimeWaitFires => Some(TimeWaitTimeout(s).0)
  }

  // ---------- the send side ----------

  /** The socket is past its handshake. */
  predicate PastHandshake(s: Sock) {
    !(s.state.SynSent? || s.state.SynReceived? || s.state.Listen?)
  }

  /** The send window is a 16-bit window; SND.NXT is SND.UNA plus the length of the
      retransmit queue, which no window ever exceeded. */
  predicate SenderKeeps(s: Sock) {
    && PastHandshake(s)
    && s.sendWindow <= 0xffff
    && |s.retransmitQueue| <= 0xffff
    && s.sendNextSeq == WrappingAdd(s.sendUnacked, |s.retransmitQueue|)
  }

  /** An acknowledgement that the wrapped comparisons let through never asks to trim more
      than the queue holds: the assertion in trim_head cannot fail. */
  lemma AckWithinQueue(s: Sock, g: Segment)
    requires SenderKeeps(s)
    ensures ProcessAck(s, g).Some?
    ensures SenderKeeps(ProcessAck(s, g).value)
  {
    if SeqLt(s.sendUnacked, g.ackNum) && SeqLe(g.ackNum, s.sendNextSeq) {
      BetweenIsWithin(s.sendUnacked, |s.retransmitQueue|, g.ackNum);
    }
  }

  /** During the handshake it can fail, as SND.UNA is then the peer's number: the first segment on a
      connection a listener has made stops the program if and only if it acknowledges a number after
      the peer's own and not after ours.  The acknowledgement of our SYN does not. */
  lemma FirstSegmentPanicsIff(iss: u32, syn: Segment, g: Segment)
    ensures Input(NewConnection(iss, syn).0, g).None?
            <==> !HasRst(g.flags) && HasAck(g.flags) && SeqLt(syn.seqNum, g.ackNum) && SeqLe(g.ackNum, iss)
  {
    var s := NewConnection(iss, syn).0;
    ReceiveDataLeaves(Noticed(s, g), g);
    FirstAckPanicsIff(ReceiveData(Noticed(s, g), g).0, g);
  }

  lemma FirstAckPanicsIff(s: Sock, g: Segment)
    requires s.state.SynReceived? && s.retransmitQueue == []
    ensures ProcessAck(s, g).None?
            <==> HasAck(g.flags) && SeqLt(s.sendUnacked, g.ackNum) && SeqLe(g.ackNum, s.sendNextSeq)
  {}

  /** A packet goes out only if the whole queue then fits the send window. */
  lemma OpenWindowMeansRoom(s: Sock, data: seq<u8>)
    requires SenderKeeps(s)
    ensures WindowOpen(s, data) <==> |s.retransmitQueue| + PacketLength(s, data) <= s.sendWindow
  {
    RoomByWords(s.sendUnacked, |s.retransmitQueue|, PacketLength(s, data), s.sendWindow);
  }

  lemma RoomByWords(una: u32, queued: nat, n: nat, window: u32)
    requires queued <= 0xffff && n <= 0xffff && window <= 0xffff
    ensures !SeqGt(WrappingAdd(WrappingAdd(una, queued), n), WrappingAdd(una, window)) <==> queued + n <= window
  {
    WrappingAddTwice(una, queued, n);
    SeqCompareIsOrder(una + (queued + n), una + window);
  }

  lemma WritePacketKeeps(s: Sock, data: seq<u8>)
    requires SenderKeeps(s) && WindowOpen(s, data)
    ensures SenderKeeps(WritePacket(s, data).0)
  {
    OpenWindowMeansRoom(s, data);
    WrappingAddTwice(s.sendUnacked, |s.retransmitQueue|, PacketLength(s, data));
  }

  lemma TransitionKeeps(s: Sock, g: Segment)
    requires SenderKeeps(s)
    ensures SenderKeeps(Transition(s, g).0)
  {
    TransitionLeaves(s, g);
  }

  /** A segment never panics a socket that is past its handshake, whatever it carries, and
      only ever removes bytes from the head of the retransmit queue. */
  lemma InputKeeps(s: Sock, g: Segment)
    requires SenderKeeps(s)
    ensures Input(s, g).Some?
    ensures var s' := Input(s, g).value.0;
            SenderKeeps(s') && IsTailOf(s'.retransmitQueue, s.retransmitQueue)
  {
    if !HasRst(g.flags) {
      ReceiveDataLeaves(Noticed(s, g), g);
      var s2 := ReceiveData(Noticed(s, g), g).0;
      AckWithinQueue(s2, g);
      ProcessAckLeaves(s2, g);
      var s3 := ProcessAck(s2, g).value;
      TransitionKeeps(s3, g);
      TransitionLeaves(s3, g);
    }
  }

  // ---------- the handshake ----------

  lemma WrapNegative(m: int)
    requires -0x8000_0000 <= m <= 0
    ensures Wrap(m) == if m == 0 then 0 else m + 0x1_0000_0000
  {}

  /** Two words `t` and `d` beyond `una`. */
  lemma AtDistance(una: u32, t: int, d: int, x: u32, next: u32)
    requires 0 < t < 0x8000_0000 && -0x8000_0000 <= t - d <= 0
    requires x == Wrap(una + t) && next == Wrap(una + d)
    ensures SeqLt(una, x) && SeqLe(x, next) && WrappingSub(x, una) == t
  {
    assert Wrap(una) == una && Wrap(t) == t;
    WrapSub(una + t, una);
    WrapSub(una + t, una + d);
    WrapNegative(t - d);
  }

  lemma DistanceIsPositive(a: u32, b: u32)
    requires a != b
    ensures WrappingSub(b, a) > 0
  {}

  /** A number that both tests let through although nothing is queued. */
  lemma FailingAck(una: u32, next: u32) returns (x: u32)
    requires una != next
    ensures SeqLt(una, x) && SeqLe(x, next) && WrappingSub(x, una) > 0
  {
    var d: int := WrappingSub(next, una);
    WrapDistance(una, next);
    DistanceIsPositive(una, next);
    if d <= 0x8000_0000 {
      x := Wrap(una + 1);
      AtDistance(una, 1, d, x, next);
    } else {
      x := Wrap(una + 0x7fff_ffff);
      AtDistance(una, 0x7fff_ffff, d, x, next);
    }
  }

  /** With an empty queue the assertion in trim_head can fail if and only if SND.UNA is not SND.NXT. */
  lemma TrimFailsIff(s: Sock)
    requires s.retransmitQueue == []
    ensures (exists x: u32 :: TrimAcked(s, x).None?) <==> s.sendUnacked != s.sendNextSeq
  {
    if s.sendUnacked != s.sendNextSeq {
      var x := FailingAck(s.sendUnacked, s.sendNextSeq);
      assert TrimAcked(s, x).None?;
    } else {
      forall x: u32 ensures TrimAcked(s, x).Some? { NothingToTrim(s, x); }
    }
  }

  lemma NothingToTrim(s: Sock, x: u32)
    requires s.sendUnacked == s.sendNextSeq
    ensures TrimAcked(s, x).Some?
  {
    assert SeqLt(s.sendUnacked, x) ==> !SeqLe(x, s.sendNextSeq);
  }

  lemma EmptyAckInput(s: Sock, x: u32)
    requires s.state.Established? && TrimAcked(s, x).None?
    ensures Input(s, Segment(0, x, FLAG_ACK, 0, 0, [])).None?
  {}

  /** ... and then some segment does stop the program, and otherwise none ever. */
  lemma EmptyQueuePanicsIff(s: Sock)
    requires s.state.Established? && s.retransmitQueue == [] && s.sendWindow <= 0xffff
    ensures (exists h: Segment :: Input(s, h).None?) <==> s.sendUnacked != s.sendNextSeq
    ensures s.sendUnacked == s.sendNextSeq ==> SenderKeeps(s)
  {
    if s.sendUnacked != s.sendNextSeq {
      var x := FailingAck(s.sendUnacked, s.sendNextSeq);
      EmptyAckInput(s, x);
    } else {
      forall h: Segment ensures Input(s, h).Some? { InputKeeps(s, h); }
    }
  }

  lemma OpenerBecomes(iss: u32, g: Segment)
    requires HasAck(g.flags) && !HasRst(g.flags)
    ensures Input(Open(iss).0, g).Some?
    ensures var s := Input(Open(iss).0, g).value.0;
            && s.state.Established? && s.retransmitQueue == [] && s.sendWindow == g.window
            && s.sendUnacked == g.ackNum && s.sendNextSeq == WrappingAdd(iss, 1)
            && s.sendLastWinSeq == g.seqNum && s.sendLastWinAck == g.ackNum && s.responseArmed
            && s.receiveNextSeq == s.reassembler.nextSequence == WrappingAdd(g.seqNum, 1)
  {
    ReceiveDataLeaves(Noticed(Open(iss).0, g), g);
  }

  lemma ListenerBecomes(iss: u32, syn: Segment, g: Segment)
    requires HasAck(g.flags) && !HasRst(g.flags) && Input(NewConnection(iss, syn).0, g).Some?
    ensures var s := Input(NewConnection(iss, syn).0, g).value.0;
            && s.state.Established? && s.retransmitQueue == [] && s.sendWindow <= 0xffff
            && s.sendUnacked == g.ackNum && s.sendNextSeq == WrappingAdd(iss, 1)
  {
    var t := ReceiveData(Noticed(NewConnection(iss, syn).0, g), g).0;
    ReceiveDataLeaves(Noticed(NewConnection(iss, syn).0, g), g);
    ListenerAcked(t, g);
  }

  lemma ListenerAcked(t: Sock, g: Segment)
    requires t.state.SynReceived? && t.retransmitQueue == [] && t.sendWindow <= 0xffff && ProcessAck(t, g).Some?
    ensures var s := ProcessAck(t, g).value;
            && s.state.SynReceived? && s.retransmitQueue == [] && s.sendWindow <= 0xffff && s.sendNextSeq == t.sendNextSeq
  {}

  /** HANDSHAKE: the number that establishes a connection is not checked.  After it, some segment
      stops the program if and only if that number was not the initial one plus one. */
  lemma HandshakePanicsIff(iss: u32, syn: Segment, g: Segment, s: Sock)
    requires HasAck(g.flags) && !HasRst(g.flags)
    requires (Input(Open(iss).0, g).Some? && s == Input(Open(iss).0, g).value.0)
          || (Input(NewConnection(iss, syn).0, g).Some? && s == Input(NewConnection(iss, syn).0, g).value.0)
    ensures (exists h: Segment :: Input(s, h).None?) <==> g.ackNum != WrappingAdd(iss, 1)
    ensures g.ackNum == WrappingAdd(iss, 1) ==> SenderKeeps(s)
  {
    OpenerBecomes(iss, g);
    if Input(NewConnection(iss, syn).0, g).Some? { ListenerBecomes(iss, syn, g); }
    EmptyQueuePanicsIff(s);
  }

  /** The bytes accepted by tcp_write end with the retransmit queue. */
  predicate QueueIsTail(s: Sock, written: seq<u8>) { IsTailOf(s.retransmitQueue, written) }

  /** What an event adds to the bytes accepted. */
  function Accepted(s: Sock, e: Event): seq<u8> {
    if e.WritePart? && !s.state.Closed? && e.data != [] && WindowOpen(s, e.data)
    then e.data[..PacketLength(s, e.data)] else []
  }

  lemma ArrivalKeeps(s: Sock, g: Segment, written: seq<u8>)
    requires SenderKeeps(s) && QueueIsTail(s, written)
    ensures Input(s, g).Some?
    ensures SenderKeeps(Input(s, g).value.0) && QueueIsTail(Input(s, g).value.0, written)
  {
    InputKeeps(s, g);
    TailOfTail(Input(s, g).value.0.retransmitQueue, s.retransmitQueue, written);
  }

  lemma WriteKeeps(s: Sock, data: seq<u8>, written: seq<u8>)
    requires SenderKeeps(s) && QueueIsTail(s, written) && WindowOpen(s, data)
    ensures SenderKeeps(WritePacket(s, data).0)
    ensures QueueIsTail(WritePacket(s, data).0, written + data[..PacketLength(s, data)])
  {
    WritePacketKeeps(s, data);
    TailAndMore(s.retransmitQueue, written, data[..PacketLength(s, data)]);
  }

  /** The other events leave the send side as it is. */
  lemma OthersLeave(s: Sock, e: Event)
    requires SenderKeeps(s) && !e.Arrives? && !e.WritePart? && Happens(s, e).Some?
    ensures SendSide(Happens(s, e).value) == SendSide(s) && PastHandshake(Happens(s, e).value)
  {}

  lemma EventKeeps(s: Sock, e: Event, written: seq<u8>)
    requires SenderKeeps(s) && QueueIsTail(s, written)
    ensures Happens(s, e).None? ==> e.ResponseFires?
    ensures Happens(s, e).Some? ==>
              SenderKeeps(Happens(s, e).value) && QueueIsTail(Happens(s, e).value, written + Accepted(s, e))
  {
    assert written + [] == written;
    if e.Arrives? {
      ArrivalKeeps(s, e.segment, written);
    } else if e.WritePart? {
      if !s.state.Closed? && e.data != [] && WindowOpen(s, e.data) { WriteKeeps(s, e.data, written); }
    } else if Happens(s, e).Some? {
      OthersLeave(s, e);
    }
  }

  /** A run of events; it stops at a panic. */
  function HappenAll(s: Sock, events: seq<Event>, n: nat): Option<Sock>
    requires n <= |events|
  {
    if n == 0 then Some(s)
    else
      match HappenAll(s, events, n - 1)
      case None => None
      case Some(s') => Happens(s', events[n - 1])
  }

  function AcceptedBy(s: Sock, events: seq<Event>, n: nat): seq<u8>
    requires n <= |events|
  {
    if n == 0 then []
    else
      match HappenAll(s, events, n - 1)
      case None => AcceptedBy(s, events, n - 1)
      case Some(s') => AcceptedBy(s, events, n - 1) + Accepted(s', events[n - 1])
  }

  /** What a run leaves behind is in order: nothing after a panic, or a sound sender. */
  ghost predicate Stands(r: Option<Sock>, written: seq<u8>) {
    r.Some? ==> SenderKeeps(r.value) && QueueIsTail(r.value, written)
  }

  lemma EventStands(s: Sock, e: Event, written: seq<u8>, r: Option<Sock>, more: seq<u8>)
    requires Stands(Some(s), written) && r == Happens(s, e) && more == written + Accepted(s, e)
    ensures Stands(r, more) && (r.None? ==> e.ResponseFires?)
  {
    EventKeeps(s, e, written);
  }

  /** One event more. */
  lemma HappenAllNext(s: Sock, events: seq<Event>, n: nat, r: Option<Sock>)
    requires 0 < n <= |events| && r == HappenAll(s, events, n - 1)
    ensures HappenAll(s, events, n) == if r.None? then None else Happens(r.value, events[n - 1])
    ensures AcceptedBy(s, events, n)
         == AcceptedBy(s, events, n - 1) + if r.None? then [] else Accepted(r.value, events[n - 1])
  {
    assert AcceptedBy(s, events, n - 1) + [] == AcceptedBy(s, events, n - 1);
  }

  lemma StandsNext(s: Sock, events: seq<Event>, n: nat, before: Option<Sock>, sofar: seq<u8>,
                   r: Option<Sock>, written: seq<u8>)
    requires 0 < n <= |events| && before == HappenAll(s, events, n - 1) && sofar == AcceptedBy(s, events, n - 1)
    requires r == HappenAll(s, events, n) && written == AcceptedBy(s, events, n)
    requires Stands(before, sofar)
    ensures Stands(r, written)
    ensures before.Some? && events[n - 1].Arrives? ==> r.Some?
  {
    HappenAllNext(s, events, n, before);
    if before.Some? {
      EventStands(before.value, events[n - 1], sofar, r, written);
    }
  }

  lemma {:induction false} RunStands(s: Sock, events: seq<Event>, n: nat, r: Option<Sock>, written: seq<u8>)
    requires n <= |events| && Stands(Some(s), []) && s.retransmitQueue == []
    requires r == HappenAll(s, events, n) && written == AcceptedBy(s, events, n)
    ensures Stands(r, written)
    decreases n
  {
    if n > 0 {
      var before, sofar := HappenAll(s, events, n - 1), AcceptedBy(s, events, n - 1);
      RunStands(s, events, n - 1, before, sofar);
      StandsNext(s, events, n, before, sofar, r, written);
    }
  }

  /** SEND SIDE: over every run after the handshake, with any segments at all from the peer,
      the retransmit queue is exactly the unacknowledged end of the bytes accepted, it is as
      long as SND.NXT - SND.UNA, it never exceeds 65535 bytes, and no segment ever fails the
      assertion in trim_head. */
  lemma SendSideInvariant(s: Sock, events: seq<Event>, n: nat)
    requires n <= |events|
    requires SenderKeeps(s) && s.retransmitQueue == []
    ensures Stands(HappenAll(s, events, n), AcceptedBy(s, events, n))
    ensures n > 0 && events[n - 1].Arrives? && HappenAll(s, events, n - 1).Some? ==> HappenAll(s, events, n).Some?
  {
    var r, written := HappenAll(s, events, n), AcceptedBy(s, events, n);
    RunStands(s, events, n, r, written);
    if n > 0 {
      var before, sofar := HappenAll(s, events, n - 1), AcceptedBy(s, events, n - 1);
      RunStands(s, events, n - 1, before, sofar);
      StandsNext(s, events, n, before, sofar, r, written);
    }
  }

  // ---------- the connection state ----------

  /** How far a connection has come since it was opened. */
  function Rank(state: State): nat {
    match state
    case Listen | SynSent | SynReceived => 0
    case Established => 1
    case FinWait1 | CloseWait => 2
    case FinWait2 | Closing | LastAck => 3
    case TimeWait => 4
    case Closed => 5
  }

  predicate Raises(before: State, after: State) { before == after || Rank(before) < Rank(after) }

  lemma TransitionRaisesRank(s: Sock, g: Segment)
    ensures Raises(s.state, Transition(s, g).0.state)
  {}

  /** Every change of state raises the rank. */
  lemma EventRaisesRank(s: Sock, e: Event)
    requires Happens(s, e).Some?
    ensures Raises(s.state, Happens(s, e).value.state)
  {
    if e.Arrives? && !HasRst(e.segment.flags) {
      var g := e.segment;
      ReceiveDataLeaves(Noticed(s, g), g);
      var s2 := ReceiveData(Noticed(s, g), g).0;
      ProcessAckLeaves(s2, g);
      TransitionRaisesRank(ProcessAck(s2, g).value, g);
    }
  }

  function Changes(s: Sock, events: seq<Event>, n: nat): nat
    requires n <= |events| && HappenAll(s, events, n).Some?
  {
    if n == 0 then 0
    else Changes(s, events, n - 1)
         + if HappenAll(s, events, n).value.state == HappenAll(s, events, n - 1).value.state then 0 else 1
  }

  lemma StateRises(s: Sock, events: seq<Event>, n: nat, before: Sock, after: Sock)
    requires 0 < n <= |events| && HappenAll(s, events, n - 1) == Some(before) && HappenAll(s, events, n) == Some(after)
    ensures Raises(before.state, after.state)
  {
    HappenAllNext(s, events, n, Some(before));
    EventRaisesRank(before, events[n - 1]);
  }

  /** PROGRESS: in every run the number of state changes is bounded by the rank gained, so there
      are at most five. */
  lemma {:induction false} AtMostFiveChanges(s: Sock, events: seq<Event>, n: nat)
    requires n <= |events| && HappenAll(s, events, n).Some?
    ensures Rank(s.state) + Changes(s, events, n) <= Rank(HappenAll(s, events, n).value.state) <= 5
  {
    if n > 0 {
      var before, after := HappenAll(s, events, n - 1).value, HappenAll(s, events, n).value;
      AtMostFiveChanges(s, events, n - 1);
      StateRises(s, events, n, before, after);
    }
  }

  /** A closed socket stays closed. */
  lemma ClosedIsFinal(s: Sock, events: seq<Event>, n: nat)
    requires n <= |events| && HappenAll(s, events, n).Some?
    requires s.state.Closed?
    ensures HappenAll(s, events, n).value.state.Closed? && Changes(s, events, n) == 0
  {
    AtMostFiveChanges(s, events, n);
  }
}
