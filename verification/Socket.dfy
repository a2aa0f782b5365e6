/** The socket of tcp.rs.

    `Sock` is the value of a socket's fields and the functions on it specify what one
    locked region of the source does; `TCPSocketState` is the object those regions
    update.  A timer id is modelled by whether a timer is armed.  The packets handed
    to tcp_output are returned in the order they are sent.
  */
module Socket {
  import opened Words
  import opened Reassembler

  datatype State =
    | Closed | SynSent | Established | CloseWait | LastAck | FinWait1 | FinWait2
    | Closing | TimeWait | Listen | SynReceived

  const FLAG_FIN: u8 := 1
  const FLAG_SYN: u8 := 2
  const FLAG_RST: u8 := 4
  const FLAG_PSH: u8 := 8
  const FLAG_ACK: u8 := 16

  const MAX_DELAYED_ACKS := 5
  const MAX_RECEIVE_WINDOW: u16 := 0xffff
  const MAX_RETRIES := 5
  const OUR_MSS: u16 := 0x5dc
  const DEFAULT_TCP_MSS: u16 := 536

  predicate HasFin(flags: u8) { flags % 2 == 1 }
  predicate HasSyn(flags: u8) { (flags / 2) % 2 == 1 }
  predicate HasRst(flags: u8) { (flags / 4) % 2 == 1 }
  predicate HasAck(flags: u8) { (flags / 16) % 2 == 1 }

  /** A segment as the header fields and options give it; `mss` 0 means no such option. */
  datatype Segment = Segment(seqNum: u32, ackNum: u32, flags: u8, window: u16, mss: u16, payload: seq<u8>)

  datatype Sock = Sock(
    state: State,
    receiveNextSeq: u32,
    receiveQueue: seq<u8>,
    reassembler: Reassembly,
    delayedAckArmed: bool,
    numDelayedAcks: nat,
    sendUnacked: u32,
    sendNextSeq: u32,
    sendWindow: u32,
    sendLastWinSeq: u32,
    sendLastWinAck: u32,
    sendMss: u16,
    retransmitQueue: seq<u8>,
    retransmitArmed: bool,
    responseArmed: bool,
    requestRetryCount: nat)

  /** What a locked region leaves behind: the socket and the segments it sent. */
  type Effect = (Sock, seq<Segment>)

  // ---------- specification functions ----------

  function SetState(s: Sock, state: State): Sock {
    s.(state := state, requestRetryCount := 0)
  }

  predicate IsEstablished(s: Sock) {
    !(s.state.Closed? || s.state.SynSent? || s.state.TimeWait?)
  }

  function AckNumber(s: Sock): u32 {
    var next := s.reassembler.nextSequence;
    if (s.state.FinWait1? || s.state.FinWait2? || s.state.Closing? || s.state.CloseWait?)
       && s.receiveNextSeq == next
    then WrappingAdd(next, 1)
    else next
  }

  function ReceiveWindow(s: Sock): u16 {
    MAX_RECEIVE_WINDOW - |s.receiveQueue| % 0x1_0000
  }

  function SendPacket(s: Sock, payload: seq<u8>, flags: u8): Segment {
    Segment(s.sendNextSeq, AckNumber(s), flags, ReceiveWindow(s), if HasSyn(flags) then OUR_MSS else 0, payload)
  }

  /** Data in a segment: reassembly, the receive queue, and the acknowledgement. */
  function ReceiveData(s: Sock, g: Segment): Effect {
    if g.payload == [] then (s, [])
    else
      var (reassembler, got) := Add(s.reassembler, g.payload, g.seqNum);
      var s1 := s.(
        receiveNextSeq := WrappingMax(s.receiveNextSeq, WrappingAdd(g.seqNum, |g.payload|)),
        reassembler := reassembler,
        receiveQueue := if got.Some? then s.receiveQueue + got.value else s.receiveQueue);
      if s.state.Established? then
        var n := s.numDelayedAcks + 1;
        if n >= MAX_DELAYED_ACKS || HasFin(g.flags) then
          var s2 := s1.(numDelayedAcks := 0, delayedAckArmed := false);
          (s2, [SendPacket(s2, [], FLAG_ACK)])
        else
          (s1.(numDelayedAcks := n, delayedAckArmed := true), [])
      else
        var s2 := s1.(delayedAckArmed := false);
        (s2, [SendPacket(s2, [], FLAG_ACK)])
  }

  /** The acknowledgement trims the retransmit queue; `None` is the failed assertion of
      trim_head, "Should not trim more than buffer length". */
  function TrimAcked(s: Sock, ackNum: u32): Option<Sock> {
    if SeqLt(s.sendUnacked, ackNum) && SeqLe(ackNum, s.sendNextSeq) then
      var trim := WrappingSub(ackNum, s.sendUnacked);
      if trim > |s.retransmitQueue| then None
      else
        var rest := s.retransmitQueue[trim..];
        Some(s.(retransmitQueue := rest, sendUnacked := ackNum,
                retransmitArmed := s.retransmitArmed && rest != []))
    else Some(s)
  }

  /** The condition under which a segment may set the send window. */
  predicate SetsWindow(s: Sock, g: Segment) {
    && SeqLe(s.sendUnacked, g.ackNum)
    && SeqLe(g.ackNum, s.sendNextSeq)
    && (|| SeqLt(s.sendLastWinSeq, g.seqNum)
        || (s.sendLastWinSeq == g.seqNum && SeqLe(s.sendLastWinAck, g.ackNum)))
  }

  function UpdateWindow(s: Sock, g: Segment): Sock {
    if SetsWindow(s, g) then
      s.(sendWindow := g.window, sendLastWinSeq := g.seqNum, sendLastWinAck := g.ackNum)
    else s
  }

  function ProcessAck(s: Sock, g: Segment): Option<Sock> {
    if HasAck(g.flags) && IsEstablished(s) then
      match TrimAcked(s, g.ackNum)
      case None => None
      case Some(s1) => Some(UpdateWindow(s1, g))
    else Some(s)
  }

  /** Established by the acknowledgement of our SYN. */
  function Connected(s: Sock, g: Segment): Sock {
    var next := WrappingAdd(g.seqNum, 1);
    SetState(s, Established).(
      receiveNextSeq := next,
      reassembler := s.reassembler.(nextSequence := next),
      sendWindow := g.window, sendLastWinSeq := g.seqNum, sendLastWinAck := g.ackNum,
      sendUnacked := g.ackNum,
      sendNextSeq := WrappingAdd(s.sendNextSeq, 1),
      responseArmed := true)
  }

  function OnSynSent(s: Sock, g: Segment): Effect {
    if HasAck(g.flags) then (Connected(s, g), [SendPacket(Connected(s, g), [], FLAG_ACK)]) else (s, [])
  }

  function OnSynReceived(s: Sock, g: Segment): Sock {
    if HasAck(g.flags)
    then SetState(s, Established).(sendNextSeq := WrappingAdd(s.sendNextSeq, 1), sendUnacked := g.ackNum)
    else s
  }

  function OnFinWait1(s: Sock, g: Segment): Effect {
    var finAcked := g.ackNum == WrappingAdd(s.sendNextSeq, 1);
    if HasAck(g.flags) && HasFin(g.flags) && finAcked then (SetState(s, TimeWait), [])
    else if HasFin(g.flags) then
      var s1 := SetState(s, Closing);
      (s1.(responseArmed := true), [SendPacket(s1, [], FLAG_ACK)])
    else if HasAck(g.flags) && finAcked then (SetState(s, FinWait2), [])
    else (s, [])
  }

  function OnFinWait2(s: Sock, g: Segment): Effect {
    if HasFin(g.flags) then
      (SetState(s, TimeWait).(responseArmed := true), [SendPacket(s, [], FLAG_ACK)])
    else (s, [])
  }

  /** The match on the connection state at the end of tcp_input. */
  function Transition(s: Sock, g: Segment): Effect {
    match s.state
    case SynSent => OnSynSent(s, g)
    case SynReceived => (OnSynReceived(s, g), [])
    case Established => (if HasFin(g.flags) then SetState(s, CloseWait) else s, [])
    case LastAck => (if HasAck(g.flags) then SetState(s, Closed) else s, [])
    case FinWait1 => OnFinWait1(s, g)
    case FinWait2 => OnFinWait2(s, g)
    case Closing => (if HasAck(g.flags) then SetState(s, TimeWait) else s, [])
    case Closed | CloseWait | TimeWait | Listen => (s, [])
  }

  /** A segment for a known socket: tcp_input from the socket lookup on. */
  function Input(s: Sock, g: Segment): Option<Effect> {
    if HasRst(g.flags) then Some((SetState(Noticed(s, g), Closed), []))
    else
      var (s2, acks) := ReceiveData(Noticed(s, g), g);
      match ProcessAck(s2, g)
      case None => None
      case Some(s3) =>
        var (s4, replies) := Transition(s3, g);
        Some((s4, acks + replies))
  }

  datatype ReadResult = EndOfStream | MustWait | Got(data: seq<u8>)

  function Read(s: Sock, room: nat): (Sock, ReadResult) {
    if s.receiveQueue == [] then (s, if s.state.Established? then MustWait else EndOfStream)
    else
      var got := Min(room, |s.receiveQueue|);
      (s.(receiveQueue := s.receiveQueue[got..]), Got(s.receiveQueue[..got]))
  }

  /** The number of bytes of `data` the next packet of tcp_write takes. */
  function PacketLength(s: Sock, data: seq<u8>): (n: nat)
    ensures n <= |data|
  {
    Min(|data|, s.sendMss)
  }

  predicate WindowOpen(s: Sock, data: seq<u8>) {
    !SeqGt(WrappingAdd(s.sendNextSeq, PacketLength(s, data)), WrappingAdd(s.sendUnacked, s.sendWindow))
  }

  /** One packet of tcp_write. */
  function WritePacket(s: Sock, data: seq<u8>): (Sock, Segment) {
    var n := PacketLength(s, data);
    (s.(sendNextSeq := WrappingAdd(s.sendNextSeq, n),
        retransmitQueue := s.retransmitQueue + data[..n],
        retransmitArmed := true),
     SendPacket(s, data[..n], FLAG_ACK + FLAG_PSH))
  }

  /** tcp_write up to its next wait: packets go out while the window is open. */
  function Write(s: Sock, data: seq<u8>): (Effect, nat)
    requires s.sendMss > 0
    decreases |data|
  {
    if s.state.Closed? || data == [] || !WindowOpen(s, data) then ((s, []), 0)
    else
      var n := PacketLength(s, data);
      var (s1, g) := WritePacket(s, data);
      var ((s2, more), taken) := Write(s1, data[n..]);
      ((s2, [g] + more), n + taken)
  }

  /** tcp_write on `data` from `s0` has taken `offset` bytes, sent `sent` and reached `s`. */
  ghost predicate Written(s0: Sock, data: seq<u8>, offset: nat, s: Sock, sent: seq<Segment>)
    requires s0.sendMss > 0
  {
    && s.sendMss > 0 && offset <= |data|
    && var later := Write(s, data[offset..]);
       Write(s0, data) == ((later.0.0, sent + later.0.1), offset + later.1)
  }

  lemma WrittenNothing(s: Sock, data: seq<u8>)
    requires s.sendMss > 0
    ensures Written(s, data, 0, s, [])
  {
    assert data[0..] == data && [] + Write(s, data).0.1 == Write(s, data).0.1;
  }

  lemma WrittenOneMore(s0: Sock, data: seq<u8>, offset: nat, s: Sock, sent: seq<Segment>, n: nat)
    requires s0.sendMss > 0 && Written(s0, data, offset, s, sent)
    requires !s.state.Closed? && offset < |data|
    requires n == PacketLength(s, data[offset..]) && WindowOpen(s, data[offset..])
    ensures var (s1, g) := WritePacket(s, data[offset..offset + n]);
            Written(s0, data, offset + n, s1, sent + [g])
  {
    var rest := data[offset..];
    assert rest[..n] == data[offset..offset + n] == data[offset..offset + n][..n];
    assert rest[n..] == data[offset + n..];
    var (s1, g) := WritePacket(s, rest);
    var later := Write(s1, rest[n..]);
    assert sent + ([g] + later.0.1) == sent + [g] + later.0.1;
  }

  lemma WrittenAll(s0: Sock, data: seq<u8>, offset: nat, s: Sock, sent: seq<Segment>)
    requires s0.sendMss > 0 && Written(s0, data, offset, s, sent)
    requires offset == |data| || !WindowOpen(s, data[offset..])
    ensures Write(s0, data) == ((s, sent), offset)
  {
    assert Write(s, data[offset..]) == ((s, []), 0);
    assert sent + [] == sent;
  }

  /** The payloads of segments, laid end to end. */
  function Payloads(sent: seq<Segment>): seq<u8> {
    if sent == [] then [] else sent[0].payload + Payloads(sent[1..])
  }

  /** Each segment bears the number where the ones before it end. */
  predicate InSequence(sent: seq<Segment>, first: u32) {
    sent == [] || (sent[0].seqNum == first && InSequence(sent[1..], WrappingAdd(first, |sent[0].payload|)))
  }

  /** Data segments of at most that size. */
  predicate DataSegments(sent: seq<Segment>, mss: u16) {
    forall i :: 0 <= i < |sent| ==> sent[i].flags == FLAG_ACK + FLAG_PSH && 0 < |sent[i].payload| <= mss
  }

  /** What tcp_write leaves: the bytes taken went out in order, are queued, and nothing else changed;
      and if it took less than all, it had to wait. */
  predicate TookInOrder(s: Sock, data: seq<u8>, taken: nat, s': Sock, sent: seq<Segment>) {
    && taken <= |data| && Payloads(sent) == data[..taken]
    && InSequence(sent, s.sendNextSeq) && DataSegments(sent, s.sendMss)
    && s' == s.(sendNextSeq := WrappingAdd(s.sendNextSeq, taken), retransmitQueue := s.retransmitQueue + data[..taken],
                retransmitArmed := s.retransmitArmed || taken > 0)
    && (taken < |data| ==> s'.state.Closed? || !WindowOpen(s', data[taken..]))
  }

  lemma TookOneMore(s: Sock, data: seq<u8>, n: nat, s1: Sock, g: Segment, taken: nat, s2: Sock, more: seq<Segment>)
    requires data != [] && s.sendMss > 0 && n == PacketLength(s, data) && WritePacket(s, data) == (s1, g)
    requires TookInOrder(s1, data[n..], taken, s2, more)
    ensures TookInOrder(s, data, n + taken, s2, [g] + more)
  {
    var all := [g] + more;
    assert all[0] == g && all[1..] == more;
    assert data[..n] + data[n..][..taken] == data[..n + taken];
    assert s.retransmitQueue + data[..n] + data[n..][..taken] == s.retransmitQueue + data[..n + taken];
    assert data[n..][taken..] == data[n + taken..];
    WrappingAddTwice(s.sendNextSeq, n, taken);
  }

  lemma TookNothing(s: Sock, data: seq<u8>)
    requires s.state.Closed? || data == [] || !WindowOpen(s, data)
    ensures TookInOrder(s, data, 0, s, [])
  {
    assert data[..0] == [] && data[0..] == data && s.retransmitQueue + [] == s.retransmitQueue;
  }

  /** WRITE: so it is for every socket and all data; and a closed socket takes nothing. */
  lemma {:induction false} WriteTakesInOrder(s: Sock, data: seq<u8>)
    requires s.sendMss > 0
    ensures var ((s', sent), taken) := Write(s, data);
            TookInOrder(s, data, taken, s', sent) && (s.state.Closed? ==> taken == 0 && sent == [] && s' == s)
    decreases |data|
  {
    if s.state.Closed? || data == [] || !WindowOpen(s, data) {
      TookNothing(s, data);
    } else {
      var n := PacketLength(s, data);
      var (s1, g) := WritePacket(s, data);
      WriteTakesInOrder(s1, data[n..]);
      var later := Write(s1, data[n..]);
      TookOneMore(s, data, n, s1, g, later.1, later.0.0, later.0.1);
    }
  }

  function Retransmit(s: Sock): Effect {
    if s.state.Closed? || s.retransmitQueue == [] then (s, [])
    else
      var n := Min(|s.retransmitQueue|, s.sendMss);
      (s.(retransmitArmed := true), [SendPacket(s, s.retransmitQueue[..n], FLAG_ACK + FLAG_PSH)])
  }

  function DelayedAck(s: Sock): Effect {
    if s.state.Closed? then (s, [])
    else (s.(delayedAckArmed := false, numDelayedAcks := 0), [SendPacket(s, [], FLAG_ACK)])
  }

  function Close(s: Sock): Effect {
    match s.state
    case Listen => (SetState(s, Closed), [])
    case Established =>
      (SetState(s, FinWait1).(responseArmed := true), [SendPacket(s, [], FLAG_FIN + FLAG_ACK)])
    case CloseWait =>
      (SetState(s, LastAck).(responseArmed := true), [SendPacket(s, [], FLAG_FIN + FLAG_ACK)])
    case _ => (s, [])
  }

  /** `None` is the panic "unexpected state in response_timeout". */
  function ResponseTimeout(s: Sock): Option<Effect> {
    if s.requestRetryCount >= MAX_RETRIES then Some((SetState(s, Closed), []))
    else
      var s1 := s.(responseArmed := true);
      match s.state
      case Closed | Established => Some((s1, []))
      case SynSent => Some((s1, [SendPacket(s, [], FLAG_SYN)]))
      case FinWait1 | LastAck => Some((s1, [SendPacket(s, [], FLAG_FIN)]))
      case Closing | CloseWait => Some((s1, [SendPacket(s, [], FLAG_ACK)]))
      case FinWait2 | TimeWait | Listen | SynReceived => None
  }

  function TimeWaitTimeout(s: Sock): Effect { (SetState(s, Closed), []) }

  // ---------- what the parts of tcp_input leave alone ----------

  /** The fields that say what has been sent and may be sent. */
  function SendSide(s: Sock): (u32, u32, u32, u32, u32, seq<u8>) {
    (s.sendUnacked, s.sendNextSeq, s.sendWindow, s.sendLastWinSeq, s.sendLastWinAck, s.retransmitQueue)
  }

  lemma ReceiveDataLeaves(s: Sock, g: Segment)
    ensures var s' := ReceiveData(s, g).0;
            SendSide(s') == SendSide(s) && s'.state == s.state && s'.sendMss == s.sendMss
  {}

  /** What is left of a queue is its end. */
  predicate IsTailOf(rest: seq<u8>, queue: seq<u8>) {
    |rest| <= |queue| && rest == queue[|queue| - |rest|..]
  }

  lemma TailOfTail(a: seq<u8>, b: seq<u8>, c: seq<u8>)
    requires IsTailOf(a, b) && IsTailOf(b, c)
    ensures IsTailOf(a, c)
  {}

  lemma TailAndMore(a: seq<u8>, b: seq<u8>, more: seq<u8>)
    requires IsTailOf(a, b)
    ensures IsTailOf(a + more, b + more)
  {}

  lemma TrimAckedLeaves(s: Sock, ackNum: u32)
    requires TrimAcked(s, ackNum).Some?
    ensures var s' := TrimAcked(s, ackNum).value;
            && s' == s.(retransmitQueue := s'.retransmitQueue, sendUnacked := s'.sendUnacked,
                        retransmitArmed := s'.retransmitArmed)
            && IsTailOf(s'.retransmitQueue, s.retransmitQueue)
  {}

  lemma UpdateWindowLeaves(s: Sock, g: Segment)
    ensures var s' := UpdateWindow(s, g);
            s' == s.(sendWindow := s'.sendWindow, sendLastWinSeq := s'.sendLastWinSeq, sendLastWinAck := s'.sendLastWinAck)
  {}

  /** What acknowledging does not touch. */
  predicate SameButForSending(s: Sock, s': Sock) {
    && s'.state == s.state && s'.sendMss == s.sendMss
    && s'.receiveNextSeq == s.receiveNextSeq && s'.receiveQueue == s.receiveQueue
    && s'.reassembler == s.reassembler
  }

  lemma ProcessAckLeaves(s: Sock, g: Segment)
    requires ProcessAck(s, g).Some?
    ensures var s' := ProcessAck(s, g).value;
            SameButForSending(s, s') && IsTailOf(s'.retransmitQueue, s.retransmitQueue)
  {
    if HasAck(g.flags) && IsEstablished(s) {
      TrimAckedLeaves(s, g.ackNum);
      UpdateWindowLeaves(TrimAcked(s, g.ackNum).value, g);
    } else {
      assert IsTailOf(s.retransmitQueue, s.retransmitQueue);
    }
  }

  lemma FinWaitsLeave(s: Sock, g: Segment)
    ensures var s' := OnFinWait1(s, g).0; SendSide(s') == SendSide(s) && s'.sendMss == s.sendMss
    ensures var s' := OnFinWait2(s, g).0; SendSide(s') == SendSide(s) && s'.sendMss == s.sendMss
  {}

  lemma OpeningLeaves(s: Sock, g: Segment)
    ensures OnSynSent(s, g).0.retransmitQueue == s.retransmitQueue && OnSynSent(s, g).0.sendMss == s.sendMss
    ensures OnSynReceived(s, g).retransmitQueue == s.retransmitQueue && OnSynReceived(s, g).sendMss == s.sendMss
  {}

  lemma StateLeaves(s: Sock, state: State)
    ensures SendSide(SetState(s, state)) == SendSide(s) && SetState(s, state).sendMss == s.sendMss
  {}

  lemma TransitionLeaves(s: Sock, g: Segment)
    ensures var s' := Transition(s, g).0;
            && s'.retransmitQueue == s.retransmitQueue && s'.sendMss == s.sendMss
            && (!s.state.SynSent? && !s.state.SynReceived? ==> SendSide(s') == SendSide(s))
  {
    match s.state
    case SynSent | SynReceived => OpeningLeaves(s, g);
    case FinWait1 | FinWait2 => FinWaitsLeave(s, g);
    case Established => StateLeaves(s, CloseWait);
    case LastAck => StateLeaves(s, Closed);
    case Closing => StateLeaves(s, TimeWait);
    case _ =>
  }

  /** The socket as tcp_input first touches it. */
  function Noticed(s: Sock, g: Segment): Sock {
    s.(sendMss := if g.mss != 0 then g.mss else s.sendMss, responseArmed := false)
  }

  // ---------- opening ----------

  function NewSock(iss: u32): Sock {
    Sock(Closed, 0, [], Reassembly(0, []), false, 0, 0, iss, 0, 0, 0, DEFAULT_TCP_MSS, [], false, false, 0)
  }

  /** tcp_open up to its wait. */
  function Open(iss: u32): Effect {
    var s := SetState(NewSock(iss), SynSent);
    (s.(responseArmed := true), [SendPacket(s, [], FLAG_SYN)])
  }

  /** handle_new_connection: the socket a listener makes for the SYN segment `g`. */
  function NewConnection(iss: u32, g: Segment): Effect {
    var next := WrappingAdd(g.seqNum, 1);
    var s := SetState(NewSock(iss), SynReceived).(
      sendMss := g.mss, receiveNextSeq := next, reassembler := Reassembly(next, []));
    (s.(sendUnacked := g.seqNum, sendLastWinAck := g.ackNum, sendLastWinSeq := g.seqNum,
        sendWindow := g.window, responseArmed := true),
     [SendPacket(s, [], FLAG_SYN + FLAG_ACK)])
  }

  /** An established socket that has sent and received nothing, both streams from 1 on. */
  function Idle(): Sock {
    NewSock(1).(state := Established, receiveNextSeq := 1, reassembler := Reassembly(1, []),
                sendUnacked := 1, sendWindow := 0xffff)
  }

  // ---------- the object ----------

  class TCPSocketState {
    var state: State
    var receiveNextSeq: u32
    var receiveQueue: seq<u8>
    const reassembler: TCPReassembler
    var delayedAckArmed: bool
    var numDelayedAcks: nat
    var sendUnacked: u32
    var sendNextSeq: u32
    var sendWindow: u32
    var sendLastWinSeq: u32
    var sendLastWinAck: u32
    var sendMss: u16
    var retransmitQueue: seq<u8>
    var retransmitArmed: bool
    var responseArmed: bool
    var requestRetryCount: nat

    function View(): Sock
      reads this, reassembler
    {
      Sock(state, receiveNextSeq, receiveQueue, reassembler.State(), delayedAckArmed, numDelayedAcks,
           sendUnacked, sendNextSeq, sendWindow, sendLastWinSeq, sendLastWinAck, sendMss,
           retransmitQueue, retransmitArmed, responseArmed, requestRetryCount)
    }

    constructor (iss: u32)
      ensures fresh(reassembler)
      ensures View() == NewSock(iss)
    {
      state := Closed;
      receiveNextSeq := 0;
      receiveQueue := [];
      reassembler := new TCPReassembler();
      delayedAckArmed, numDelayedAcks := false, 0;
      sendUnacked, sendNextSeq, sendWindow := 0, iss, 0;
      sendLastWinSeq, sendLastWinAck := 0, 0;
      sendMss := DEFAULT_TCP_MSS;
      retransmitQueue := [];
      retransmitArmed, responseArmed := false, false;
      requestRetryCount := 0;
    }

    method ChangeState(newState: State)
      modifies this
      ensures View() == SetState(old(View()), newState)
    {
      state := newState;
      requestRetryCount := 0;
    }

    method Send(payload: seq<u8>, flags: u8) returns (g: Segment)
      ensures g == SendPacket(View(), payload, flags)
    {
      var window := MAX_RECEIVE_WINDOW - |receiveQueue| % 0x1_0000;
      var ack := reassembler.nextSequence;
      if (state.FinWait1? || state.FinWait2? || state.Closing? || state.CloseWait?)
         && receiveNextSeq == reassembler.nextSequence {
        ack := WrappingAdd(ack, 1);
      }
      g := Segment(sendNextSeq, ack, flags, window, if HasSyn(flags) then OUR_MSS else 0, payload);
    }

    method Receive(g: Segment) returns (sent: seq<Segment>)
      modifies this, reassembler
      ensures (View(), sent) == ReceiveData(old(View()), g)
    {
      sent := [];
      if g.payload != [] {
        receiveNextSeq := WrappingMax(receiveNextSeq, WrappingAdd(g.seqNum, |g.payload|));
        var got := reassembler.AddPacket(g.payload, g.seqNum);
        if got.Some? {
          receiveQueue := receiveQueue + got.value;
        }
        if state.Established? {
          numDelayedAcks := numDelayedAcks + 1;
          if numDelayedAcks >= MAX_DELAYED_ACKS || HasFin(g.flags) {
            numDelayedAcks := 0;
            delayedAckArmed := false;
            var ack := Send([], FLAG_ACK);
            sent := [ack];
          } else if !delayedAckArmed {
            delayedAckArmed := true;
          }
        } else {
          delayedAckArmed := false;
          var ack := Send([], FLAG_ACK);
          sent := [ack];
        }
      }
    }

    /** `ok` is false when the assertion of trim_head fails. */
    method TrimQueue(ackNum: u32) returns (ok: bool)
      modifies this
      ensures ok == TrimAcked(old(View()), ackNum).Some?
      ensures ok ==> View() == TrimAcked(old(View()), ackNum).value
    {
      if SeqLt(sendUnacked, ackNum) && SeqLe(ackNum, sendNextSeq) {
        var trim := WrappingSub(ackNum, sendUnacked);
        if trim > |retransmitQueue| {
          return false;
        }
        retransmitQueue := retransmitQueue[trim..];
        if retransmitQueue == [] {
          retransmitArmed := false;
        }
        sendUnacked := ackNum;
      }
      ok := true;
    }

    method TakeWindow(g: Segment)
      modifies this
      ensures View() == UpdateWindow(old(View()), g)
    {
      if SeqLe(sendUnacked, g.ackNum) && SeqLe(g.ackNum, sendNextSeq)
         && (SeqLt(sendLastWinSeq, g.seqNum)
             || (sendLastWinSeq == g.seqNum && SeqLe(sendLastWinAck, g.ackNum))) {
        sendWindow := g.window;
        sendLastWinSeq := g.seqNum;
        sendLastWinAck := g.ackNum;
      }
    }

    method Acknowledge(g: Segment) returns (ok: bool)
      modifies this
      ensures ok == ProcessAck(old(View()), g).Some?
      ensures ok ==> View() == ProcessAck(old(View()), g).value
    {
      ok := true;
      if HasAck(g.flags) && !(state.Closed? || state.SynSent? || state.TimeWait?) {
        ok := TrimQueue(g.ackNum);
        if ok {
          TakeWindow(g);
        }
      }
    }

    /** The send window and the number that was acknowledged, from the peer's first segment. */
    method StartSending(g: Segment)
      modifies this
      ensures View() == old(View()).(sendWindow := g.window, sendLastWinSeq := g.seqNum, sendLastWinAck := g.ackNum,
                                     sendUnacked := g.ackNum, sendNextSeq := WrappingAdd(old(sendNextSeq), 1))
    {
      sendWindow := g.window;
      sendLastWinSeq := g.seqNum;
      sendLastWinAck := g.ackNum;
      sendUnacked := g.ackNum;
      sendNextSeq := WrappingAdd(sendNextSeq, 1);
    }

    method InSynSent(g: Segment) returns (sent: seq<Segment>)
      modifies this, reassembler
      ensures (View(), sent) == OnSynSent(old(View()), g)
    {
      sent := [];
      if HasAck(g.flags) {
        ChangeState(Established);
        receiveNextSeq := WrappingAdd(g.seqNum, 1);
        reassembler.SetNextExpect(WrappingAdd(g.seqNum, 1));
        StartSending(g);
        var ack := Send([], FLAG_ACK);
        sent := [ack];
        responseArmed := true;
      }
    }

    method InSynReceived(g: Segment)
      modifies this
      ensures View() == OnSynReceived(old(View()), g)
    {
      if HasAck(g.flags) {
        ChangeState(Established);
        sendNextSeq := WrappingAdd(sendNextSeq, 1);
        sendUnacked := g.ackNum;
      }
    }

    method InFinWait1(g: Segment) returns (sent: seq<Segment>)
      modifies this
      ensures (View(), sent) == OnFinWait1(old(View()), g)
    {
      sent := [];
      if HasAck(g.flags) && HasFin(g.flags) && g.ackNum == WrappingAdd(sendNextSeq, 1) {
        ChangeState(TimeWait);
      } else if HasFin(g.flags) {
        ChangeState(Closing);
        var ack := Send([], FLAG_ACK);
        sent := [ack];
        responseArmed := true;
      } else if HasAck(g.flags) && g.ackNum == WrappingAdd(sendNextSeq, 1) {
        ChangeState(FinWait2);
      }
    }

    method InFinWait2(g: Segment) returns (sent: seq<Segment>)
      modifies this
      ensures (View(), sent) == OnFinWait2(old(View()), g)
    {
      sent := [];
      if HasFin(g.flags) {
        var ack := Send([], FLAG_ACK);
        sent := [ack];
        responseArmed := true;
        ChangeState(TimeWait);
      }
    }

    method ChangeOn(g: Segment) returns (sent: seq<Segment>)
      modifies this, reassembler
      ensures (View(), sent) == Transition(old(View()), g)
    {
      sent := [];
      match state {
        case SynSent =>
          sent := InSynSent(g);
        case SynReceived =>
          InSynReceived(g);
        case Established =>
          if HasFin(g.flags) {
            ChangeState(CloseWait);
          }
        case LastAck =>
          if HasAck(g.flags) {
            ChangeState(Closed);
          }
        case FinWait1 =>
          sent := InFinWait1(g);
        case FinWait2 =>
          sent := InFinWait2(g);
        case Closing =>
          if HasAck(g.flags) {
            ChangeState(TimeWait);
          }
        case _ =>
      }
    }

    /** tcp_input once the socket is found; `ok` is false on the failed assertion. */
    method TcpInput(g: Segment) returns (ok: bool, sent: seq<Segment>)
      modifies this, reassembler
      ensures ok == Input(old(View()), g).Some?
      ensures ok ==> (View(), sent) == Input(old(View()), g).value
      ensures HasRst(g.flags) ==> ok && sent == [] && state.Closed?
      ensures HasRst(g.flags) ==> SendSide(View()) == old(SendSide(View())) && receiveQueue == old(receiveQueue)
    {
      sent := [];
      if g.mss != 0 {
        sendMss := g.mss;
      }
      responseArmed := false;
      if HasRst(g.flags) {
        ChangeState(Closed);
        return true, [];
      }
      var acks := Receive(g);
      ok := Acknowledge(g);
      if ok {
        var replies := ChangeOn(g);
        sent := acks + replies;
      }
    }

    method TcpRead(room: nat) returns (result: ReadResult)
      modifies this
      ensures (View(), result) == Read(old(View()), room)
      ensures result.Got? ==> result.data + receiveQueue == old(receiveQueue) && |result.data| <= room
      ensures result.Got? && room > 0 ==> result.data != []
      ensures !result.Got? ==> old(receiveQueue) == [] && View() == old(View())
      ensures result.EndOfStream? <==> old(receiveQueue) == [] && !state.Established?
      ensures result.MustWait? <==> old(receiveQueue) == [] && state.Established?
    {
      if !state.Established? && receiveQueue == [] {
        return EndOfStream;
      }
      if receiveQueue != [] {
        var got := Min(room, |receiveQueue|);
        result := Got(receiveQueue[..got]);
        receiveQueue := receiveQueue[got..];
      } else {
        result := MustWait;
      }
    }

    /** One packet goes out and is queued for retransmission. */
    method SendData(packet: seq<u8>) returns (g: Segment)
      requires |packet| <= sendMss
      modifies this
      ensures (View(), g) == WritePacket(old(View()), packet)
      ensures sendMss == old(sendMss) && state == old(state)
    {
      g := Send(packet, FLAG_ACK + FLAG_PSH);
      sendNextSeq := WrappingAdd(sendNextSeq, |packet|);
      retransmitQueue := retransmitQueue + packet;
      retransmitArmed := true;
      assert packet[..|packet|] == packet;
    }

    /** The loop of tcp_write: packets go out until all of `data` is taken or the window closes. */
    method SendAll(data: seq<u8>) returns (offset: nat, sent: seq<Segment>)
      requires sendMss > 0 && !state.Closed?
      modifies this
      ensures ((View(), sent), offset) == Write(old(View()), data)
    {
      offset, sent := 0, [];
      WrittenNothing(View(), data);
      while offset < |data|
        invariant sendMss > 0 && !state.Closed?
        invariant Written(old(View()), data, offset, View(), sent)
      {
        var packetLength := Min(|data| - offset, sendMss);
        var maxSegment := WrappingAdd(sendUnacked, sendWindow);
        if SeqGt(WrappingAdd(sendNextSeq, packetLength), maxSegment) {
          break;
        }
        WrittenOneMore(old(View()), data, offset, View(), sent, packetLength);
        var g := SendData(data[offset..offset + packetLength]);
        sent := sent + [g];
        offset := offset + packetLength;
      }
      WrittenAll(old(View()), data, offset, View(), sent);
    }

    /** tcp_write up to its next wait. */
    method TcpWrite(data: seq<u8>) returns (offset: nat, sent: seq<Segment>)
      requires sendMss > 0
      modifies this
      ensures offset <= |data| && ((View(), sent), offset) == Write(old(View()), data)
      ensures old(state).Closed? ==> offset == 0 && sent == [] && View() == old(View())
      ensures Payloads(sent) == data[..offset] && retransmitQueue == old(retransmitQueue) + data[..offset]
      ensures InSequence(sent, old(sendNextSeq)) && DataSegments(sent, sendMss)
      ensures View() == old(View()).(sendNextSeq := WrappingAdd(old(sendNextSeq), offset),
                                     retransmitQueue := retransmitQueue, retransmitArmed := old(retransmitArmed) || offset > 0)
      ensures offset < |data| ==> state.Closed? || !WindowOpen(View(), data[offset..])
    {
      WriteTakesInOrder(View(), data);
      if state.Closed? {
        return 0, [];
      }
      offset, sent := SendAll(data);
    }

    method RetransmitTimeout() returns (sent: seq<Segment>)
      modifies this
      ensures (View(), sent) == Retransmit(old(View()))
      ensures SendSide(View()) == old(SendSide(View()))
      ensures |sent| == if state.Closed? || retransmitQueue == [] then 0 else 1
      ensures sent != [] ==> sent[0].payload <= retransmitQueue && |sent[0].payload| == Min(|retransmitQueue|, sendMss)
      ensures sent != [] ==> retransmitArmed && sent[0].flags == FLAG_ACK + FLAG_PSH
    {
      sent := [];
      if state.Closed? {
        return;
      }
      if retransmitQueue != [] {
        var g := Send(retransmitQueue[..Min(|retransmitQueue|, sendMss)], FLAG_ACK + FLAG_PSH);
        sent := [g];
        retransmitArmed := true;
      }
    }

    method DelayedAckTimeout() returns (sent: seq<Segment>)
      modifies this
      ensures (View(), sent) == DelayedAck(old(View()))
      ensures SendSide(View()) == old(SendSide(View()))
      ensures |sent| == if state.Closed? then 0 else 1
      ensures sent != [] ==> sent[0].payload == [] && sent[0].flags == FLAG_ACK && sent[0].ackNum == AckNumber(View())
      ensures sent != [] ==> !delayedAckArmed && numDelayedAcks == 0
    {
      sent := [];
      if state.Closed? {
        return;
      }
      var g := Send([], FLAG_ACK);
      sent := [g];
      delayedAckArmed := false;
      numDelayedAcks := 0;
    }

    method TcpClose() returns (sent: seq<Segment>)
      modifies this
      ensures (View(), sent) == Close(old(View()))
      ensures SendSide(View()) == old(SendSide(View())) && receiveQueue == old(receiveQueue)
      ensures old(state).Established? ==> state.FinWait1? && |sent| == 1 && responseArmed
      ensures old(state).CloseWait? ==> state.LastAck? && |sent| == 1 && responseArmed
      ensures old(state).Listen? ==> state.Closed? && sent == []
      ensures !old(state).Established? && !old(state).CloseWait? && !old(state).Listen? ==> sent == [] && View() == old(View())
      ensures sent != [] ==> sent[0] == Segment(sendNextSeq, old(AckNumber(View())), FLAG_FIN + FLAG_ACK, old(ReceiveWindow(View())), 0, [])
    {
      sent := [];
      match state {
        case Listen =>
          ChangeState(Closed);
        case Established =>
          var g := Send([], FLAG_FIN + FLAG_ACK);
          sent := [g];
          responseArmed := true;
          ChangeState(FinWait1);
        case CloseWait =>
          var g := Send([], FLAG_FIN + FLAG_ACK);
          sent := [g];
          responseArmed := true;
          ChangeState(LastAck);
        case _ =>
      }
    }

    /** `ok` is false on the panic "unexpected state in response_timeout". */
    method ResponseTimeoutFires() returns (ok: bool, sent: seq<Segment>)
      modifies this
      ensures ok == ResponseTimeout(old(View())).Some?
      ensures ok ==> (View(), sent) == ResponseTimeout(old(View())).value
    {
      ok, sent := true, [];
      if requestRetryCount >= MAX_RETRIES {
        ChangeState(Closed);
        return;
      }
      match state {
        case Closed | Established =>
        case SynSent =>
          var g := Send([], FLAG_SYN);
          sent := [g];
        case FinWait1 | LastAck =>
          var g := Send([], FLAG_FIN);
          sent := [g];
        case Closing | CloseWait =>
          var g := Send([], FLAG_ACK);
          sent := [g];
        case _ =>
          return false, [];
      }
      responseArmed := true;
    }

    method TimeWaitTimeoutFires()
      modifies this
      ensures View() == TimeWaitTimeout(old(View())).0 && state.Closed?
    {
      ChangeState(Closed);
    }
  }
}
