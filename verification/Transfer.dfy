/** Two established endpoints and the network between them.

    Each endpoint is a socket together with what its application has written and read.
    A wire is the list of everything ever sent in one direction; delivering an element
    leaves it there, so packets may be lost, duplicated and reordered at will.  Packets
    carry their true stream positions beside the wrapped header fields, which is what a
    socket sees; the positions are used only to say how old a packet is.

    Both directions carry data.  A direction is described by one invariant, `Half`, and
    every step of one endpoint is shown to keep the halves in which it sends and in which
    it receives.
  */
module Transfer {
  import opened Words
  import opened Reassembler
  import opened Socket

  const WINDOW := 0xffff

  /** How far behind a delivered copy may be, in sequence numbers. */
  const MAX_AGE := 0x8000_0000 - WINDOW

  /** A segment with its true positions; `resent` marks what a retransmission timeout sent. */
  datatype Packet = Packet(position: int, ack: int, segment: Segment, resent: bool)

  /** `base` is the position of the first byte this endpoint sends; `windowFrom` is the
      index of the incoming packet that last set its send window. */
  datatype Node = Node(sock: Sock, base: int, written: seq<u8>, read: seq<u8>, windowFrom: Option<nat>)

  datatype Link = Link(a: Node, b: Node, toB: seq<Packet>, toA: seq<Packet>)

  // ---------- positions ----------

  /** SND.NXT. */
  function Next(x: Node): int { x.base + |x.written| }

  /** SND.UNA. */
  function Unacked(x: Node): int { Next(x) - |x.sock.retransmitQueue| }

  /** How many bytes have come in, read by the application or not. */
  function Received(x: Node): nat { |x.read| + |x.sock.receiveQueue| }

  /** The next position awaited from a peer whose data starts at `peerBase`. */
  function Expected(x: Node, peerBase: int): int { peerBase + Received(x) }

  // ---------- steps of one endpoint ----------

  datatype Step =
    | Write(data: seq<u8>)   // tcp_write gets to send its next packet
    | Read(room: nat)        // tcp_read
    | Ack                    // the delayed acknowledgement timer fires
    | Deliver(k: nat)        // the network hands over packet k
    | Retransmit             // the retransmission timer fires

  function Stamp(x: Node, peerBase: int, sent: seq<Segment>, resent: bool): (r: seq<Packet>)
    ensures |r| == |sent|
    ensures forall i :: 0 <= i < |r| ==> r[i] == Packet(Next(x), Expected(x, peerBase), sent[i], resent)
  {
    seq(|sent|, i requires 0 <= i < |sent| => Packet(Next(x), Expected(x, peerBase), sent[i], resent))
  }

  /** The node after a step, and the packets it sent. */
  type Outcome = (Node, seq<Packet>)

  function NodeWrite(x: Node, peerBase: int, data: seq<u8>): Outcome {
    if data == [] || !WindowOpen(x.sock, data) then (x, [])
    else
      var (sock, g) := WritePacket(x.sock, data);
      (x.(sock := sock, written := x.written + data[..PacketLength(x.sock, data)]), Stamp(x, peerBase, [g], false))
  }

  function NodeRead(x: Node, room: nat): Outcome {
    var (sock, result) := Socket.Read(x.sock, room);
    (x.(sock := sock, read := if result.Got? then x.read + result.data else x.read), [])
  }

  function NodeAck(x: Node, peerBase: int): Outcome {
    var (sock, sent) := DelayedAck(x.sock);
    (x.(sock := sock), Stamp(x, peerBase, sent, false))
  }

  /** `None` is a panic of the socket. */
  function NodeDeliver(x: Node, peerBase: int, inbox: seq<Packet>, k: nat): Option<Outcome>
    requires k < |inbox|
  {
    var g := inbox[k].segment;
    match Input(x.sock, g)
    case None => None
    case Some((sock, sent)) =>
      var trimmed := TrimAcked(x.sock, g.ackNum);
      var x' := x.(sock := sock, windowFrom :=
        if trimmed.Some? && SetsWindow(trimmed.value, g) then Some(k) else x.windowFrom);
      Some((x', Stamp(x', peerBase, sent, false)))
  }

  function NodeRetransmit(x: Node, peerBase: int): Outcome {
    var (sock, sent) := Socket.Retransmit(x.sock);
    (x.(sock := sock), Stamp(x, peerBase, sent, true))
  }

  function NodeStep(x: Node, peerBase: int, inbox: seq<Packet>, step: Step): Option<Outcome>
    requires step.Deliver? ==> step.k < |inbox|
  {
    match step
    case Write(data) => Some(NodeWrite(x, peerBase, data))
    case Read(room) => Some(NodeRead(x, room))
    case Ack => Some(NodeAck(x, peerBase))
    case Deliver(k) => NodeDeliver(x, peerBase, inbox, k)
    case Retransmit => Some(NodeRetransmit(x, peerBase))
  }

  // ---------- the invariant of one direction, from x to y ----------

  ghost predicate SendOk(x: Node) {
    var q := x.sock.retransmitQueue;
    && x.sock.state.Established?
    && x.sock.sendNextSeq == Wrap(Next(x)) && x.sock.sendUnacked == Wrap(Unacked(x))
    && IsTailOf(q, x.written)
    && |q| <= WINDOW && x.sock.sendWindow <= WINDOW
  }

  ghost predicate ReceiveOk(y: Node, x: Node) {
    && Tracks(y.sock.reassembler, x.written, x.base, Expected(y, x.base), WINDOW, WINDOW)
    && y.read + y.sock.receiveQueue == x.written[..Received(y)]
  }

  /** SND.UNA <= received <= SND.NXT <= the right edge of the window the receiver offers. */
  ghost predicate FlowOk(x: Node, y: Node) {
    Unacked(x) <= Expected(y, x.base) <= Next(x) <= x.base + WINDOW + |y.read|
  }

  /** What the header of a packet from x says is true: a position x has reached, an
      acknowledgement of what x has received, and a window whose right edge is no further
      than what x offers now. */
  ghost predicate LabelOk(p: Packet, x: Node, y: Node) {
    && p.segment.seqNum == Wrap(p.position) && p.segment.ackNum == Wrap(p.ack)
    && (p.segment.flags == FLAG_ACK || p.segment.flags == FLAG_ACK + FLAG_PSH) && p.segment.mss == 0
    && x.base <= p.position <= Next(x) && |p.segment.payload| <= WINDOW
    && y.base <= p.ack <= Expected(x, y.base)
    && Edge(p) <= y.base + WINDOW + |x.read|
  }

  /** The payload is what x has written at the position the header gives. */
  ghost predicate Faithful(p: Packet, x: Node) {
    IsPiece(x.written, x.base, p.position, p.segment.payload)
  }

  ghost predicate PacketOk(p: Packet, x: Node, y: Node) { LabelOk(p, x, y) && Faithful(p, x) }

  ghost predicate OnWire(p: Packet, x: Node, y: Node) {
    LabelOk(p, x, y) && (!p.resent ==> Faithful(p, x))
  }

  ghost predicate WireOk(wire: seq<Packet>, x: Node, y: Node) {
    forall k :: 0 <= k < |wire| ==> OnWire(wire[k], x, y)
  }

  /** The right edge of the window a packet offers. */
  function Edge(p: Packet): int { p.ack + p.segment.window }

  ghost predicate NotAfter(p: Packet, q: Packet) {
    p.position <= q.position && p.ack <= q.ack && Edge(p) <= Edge(q)
  }

  ghost predicate SentInOrder(wire: seq<Packet>) {
    forall i, j :: 0 <= i <= j < |wire| ==> NotAfter(wire[i], wire[j])
  }

  /** The position of the segment that last set x's window: the peer's SYN at first. */
  ghost function WindowPosition(x: Node, y: Node, inbox: seq<Packet>): int {
    if x.windowFrom.Some? && x.windowFrom.value < |inbox| then inbox[x.windowFrom.value].position else y.base - 1
  }

  /** x's window fields are those of the segment that last set them, and that segment
      acknowledged exactly what x now holds as acknowledged. */
  ghost predicate WindowOk(x: Node, y: Node, inbox: seq<Packet>) {
    && x.sock.sendLastWinSeq == Wrap(WindowPosition(x, y, inbox))
    && match x.windowFrom
       case None => Unacked(x) == x.base
       case Some(k) =>
         && k < |inbox| && inbox[k].ack == Unacked(x)
         && x.sock.sendLastWinAck == Wrap(inbox[k].ack)
         && x.sock.sendWindow == inbox[k].segment.window
  }

  /** Nothing x has received or stored starts after `position`. */
  ghost predicate Covers(x: Node, peerBase: int, position: int) {
    && Expected(x, peerBase) <= position + WINDOW
    && StartBy(x.sock.reassembler.outOfOrder, Expected(x, peerBase), position)
  }

  ghost predicate StartBy(q: seq<Entry>, next: int, position: int) {
    forall e :: e in q ==> Nearest(next, e.seqNum) <= position
  }

  ghost predicate Half(x: Node, y: Node, outbox: seq<Packet>, inbox: seq<Packet>) {
    && SendOk(x) && ReceiveOk(y, x) && FlowOk(x, y)
    && WireOk(outbox, x, y) && SentInOrder(outbox)
    && WindowOk(x, y, inbox) && Covers(x, y.base, WindowPosition(x, y, inbox))
  }

  ghost predicate Inv(l: Link) {
    Half(l.a, l.b, l.toB, l.toA) && Half(l.b, l.a, l.toA, l.toB)
  }

  // ---------- sending ----------

  lemma StampOne(x: Node, peerBase: int, g: Segment, resent: bool)
    ensures Stamp(x, peerBase, [g], resent) == [Packet(Next(x), Expected(x, peerBase), g, resent)]
  {}

  /** The newest packet may join the wire. */
  lemma WireGrows(wire: seq<Packet>, p: Packet, x: Node, y: Node)
    requires WireOk(wire, x, y) && SentInOrder(wire) && OnWire(p, x, y)
    requires p.ack == Expected(x, y.base) && Edge(p) == y.base + WINDOW + |x.read|
    requires forall k :: 0 <= k < |wire| ==> wire[k].position <= p.position
    ensures WireOk(wire + [p], x, y) && SentInOrder(wire + [p])
  {
    forall i, j | 0 <= i <= j < |wire| + 1 ensures NotAfter((wire + [p])[i], (wire + [p])[j]) {
      if j < |wire| {
        assert NotAfter(wire[i], wire[j]);
      } else if i < |wire| {
        assert OnWire(wire[i], x, y);
      }
    }
  }

  /** A longer incoming wire does not disturb the window record. */
  lemma WindowOkGrows(x: Node, y: Node, inbox: seq<Packet>, more: seq<Packet>)
    requires WindowOk(x, y, inbox)
    ensures WindowOk(x, y, inbox + more)
    ensures WindowPosition(x, y, inbox + more) == WindowPosition(x, y, inbox)
  {}

  /** The acknowledgement and window that any packet from x carries: exactly the data
      received, and together the right edge, which only reading moves. */
  lemma RightEdge(x: Node, y: Node, payload: seq<u8>, flags: u8)
    requires SendOk(x) && ReceiveOk(x, y) && FlowOk(y, x)
    ensures var g := SendPacket(x.sock, payload, flags);
            && |x.sock.receiveQueue| <= WINDOW
            && g.ackNum == Wrap(Expected(x, y.base))
            && Expected(x, y.base) + g.window == y.base + WINDOW + |x.read|
  {}

  lemma OnWireMore(p: Packet, x: Node, x': Node, y: Node, more: seq<u8>)
    requires OnWire(p, x, y)
    requires x'.base == x.base && x'.written == x.written + more && x.read <= x'.read && Received(x) <= Received(x')
    ensures OnWire(p, x', y)
  {}

  /** What was fine on the wire stays so when x writes and reads more. */
  lemma WireOkMore(wire: seq<Packet>, x: Node, x': Node, y: Node, more: seq<u8>)
    requires WireOk(wire, x, y)
    requires x'.base == x.base && x'.written == x.written + more && x.read <= x'.read && Received(x) <= Received(x')
    ensures WireOk(wire, x', y)
  {
    forall k | 0 <= k < |wire| ensures OnWire(wire[k], x', y) {
      OnWireMore(wire[k], x, x', y, more);
    }
  }

  /** What is on the wire does not depend on the send side's bookkeeping. */
  lemma WireSame(wire: seq<Packet>, x: Node, x': Node, y: Node)
    requires WireOk(wire, x, y)
    requires x'.base == x.base && x'.written == x.written && x'.read == x.read && Received(x) == Received(x')
    ensures WireOk(wire, x', y)
  {
    assert x.written + [] == x.written;
    WireOkMore(wire, x, x', y, []);
  }

  /** The half in which y sends sees of x only what x has received and offers. */
  lemma PeerHalf(y: Node, x: Node, x': Node, inbox: seq<Packet>, outbox: seq<Packet>, sent: seq<Packet>)
    requires Half(y, x, inbox, outbox)
    requires x'.base == x.base && ReceiveOk(x', y) && FlowOk(y, x')
    ensures Half(y, x', inbox, outbox + sent)
  {
    WindowOkGrows(y, x, outbox, sent);
    forall k | 0 <= k < |inbox| ensures OnWire(inbox[k], y, x') {
      assert OnWire(inbox[k], y, x);
    }
  }

  lemma SameReceived(x: Node, x': Node, y: Node)
    requires x'.base == x.base && x'.written == x.written && x'.read == x.read
    requires x'.sock.receiveQueue == x.sock.receiveQueue && x'.sock.reassembler == x.sock.reassembler
    ensures ReceiveOk(x, y) ==> ReceiveOk(x', y)
    ensures FlowOk(y, x) ==> FlowOk(y, x')
    ensures ReceiveOk(y, x) ==> ReceiveOk(y, x')
    ensures forall position :: Covers(x, y.base, position) ==> Covers(x', y.base, position)
  {}

  // ---------- write ----------

  /** The window that lets a packet out was offered by the peer. */
  lemma WindowWasOffered(x: Node, y: Node, outbox: seq<Packet>, inbox: seq<Packet>)
    requires Half(x, y, outbox, inbox) && Half(y, x, inbox, outbox)
    ensures Unacked(x) + x.sock.sendWindow <= x.base + WINDOW + |y.read|
  {
    if x.windowFrom.Some? {
      assert OnWire(inbox[x.windowFrom.value], y, x);
    }
  }

  lemma OpenMeansRoom(x: Node, data: seq<u8>)
    requires SendOk(x)
    ensures WindowOpen(x.sock, data) <==>
              |x.sock.retransmitQueue| + PacketLength(x.sock, data) <= x.sock.sendWindow
  {
    var n := PacketLength(x.sock, data);
    WrapAdd(Next(x), n);
    WrapAdd(Unacked(x), x.sock.sendWindow);
    SeqCompareIsOrder(Next(x) + n, Unacked(x) + x.sock.sendWindow);
  }

  lemma TracksMore(r: Reassembly, s: seq<u8>, more: seq<u8>, base: int, next: int)
    requires Tracks(r, s, base, next, WINDOW, WINDOW)
    ensures Tracks(r, s + more, base, next, WINDOW, WINDOW)
  {
    forall e | e in r.outOfOrder ensures GoodEntry(e, s + more, base, next, WINDOW, WINDOW) {
      assert GoodEntry(e, s, base, next, WINDOW, WINDOW);
    }
  }

  lemma WriteKeepsSend(x: Node, peerBase: int, data: seq<u8>, edge: int)
    requires SendOk(x) && Unacked(x) + x.sock.sendWindow <= edge
    requires data != [] && WindowOpen(x.sock, data)
    ensures var x' := NodeWrite(x, peerBase, data).0;
            && SendOk(x') && Unacked(x') == Unacked(x)
            && Next(x') == Next(x) + PacketLength(x.sock, data) <= edge
  {
    var n := PacketLength(x.sock, data);
    OpenMeansRoom(x, data);
    WrapAdd(Next(x), n);
    TailAndMore(x.sock.retransmitQueue, x.written, data[..n]);
  }

  lemma WrittenMore(x: Node, y: Node, more: seq<u8>, x': Node)
    requires ReceiveOk(y, x) && x'.base == x.base && x'.written == x.written + more
    ensures ReceiveOk(y, x')
  {
    TracksMore(y.sock.reassembler, x.written, more, x.base, Expected(y, x.base));
    assert (x.written + more)[..Received(y)] == x.written[..Received(y)];
  }

  /** The packet tcp_write sends is a new piece of what has been written. */
  lemma WrittenPacketOk(x: Node, y: Node, data: seq<u8>)
    requires SendOk(x) && ReceiveOk(x, y) && FlowOk(y, x)
    requires data != [] && WindowOpen(x.sock, data)
    ensures var (x', sent) := NodeWrite(x, y.base, data);
            && |sent| == 1 && PacketOk(sent[0], x', y)
            && sent[0].position == Next(x) == Next(x') - |sent[0].segment.payload|
            && sent[0].ack == Expected(x', y.base) && Edge(sent[0]) == y.base + WINDOW + |x'.read|
  {
    var n := PacketLength(x.sock, data);
    OpenMeansRoom(x, data);
    RightEdge(x, y, data[..n], FLAG_ACK + FLAG_PSH);
    assert Piece(x.written + data[..n], x.base, Next(x), Next(x) + n) == data[..n];
  }

  lemma PositionsBound(wire: seq<Packet>, x: Node, y: Node)
    requires WireOk(wire, x, y)
    ensures forall k :: 0 <= k < |wire| ==> wire[k].position <= Next(x)
  {
    forall k | 0 <= k < |wire| ensures wire[k].position <= Next(x) {
      assert OnWire(wire[k], x, y);
    }
  }

  lemma WriteKeepsWire(x: Node, y: Node, outbox: seq<Packet>, inbox: seq<Packet>, data: seq<u8>)
    requires Half(x, y, outbox, inbox) && Half(y, x, inbox, outbox)
    requires data != [] && WindowOpen(x.sock, data)
    ensures var (x', sent) := NodeWrite(x, y.base, data);
            |sent| == 1 && WireOk(outbox + sent, x', y) && SentInOrder(outbox + sent)
  {
    var (x', sent) := NodeWrite(x, y.base, data);
    WrittenPacketOk(x, y, data);
    WireOkMore(outbox, x, x', y, data[..PacketLength(x.sock, data)]);
    PositionsBound(outbox, x, y);
    WireGrows(outbox, sent[0], x', y);
    assert sent == [sent[0]];
  }

  lemma WriteKeeps(x: Node, y: Node, outbox: seq<Packet>, inbox: seq<Packet>, data: seq<u8>)
    requires Half(x, y, outbox, inbox) && Half(y, x, inbox, outbox)
    requires data != [] && WindowOpen(x.sock, data)
    ensures var (x', sent) := NodeWrite(x, y.base, data);
            Half(x', y, outbox + sent, inbox) && Half(y, x', inbox, outbox + sent)
  {
    var (x', sent) := NodeWrite(x, y.base, data);
    WindowWasOffered(x, y, outbox, inbox);
    WriteKeepsSend(x, y.base, data, x.base + WINDOW + |y.read|);
    WrittenMore(x, y, data[..PacketLength(x.sock, data)], x');
    WriteKeepsWire(x, y, outbox, inbox, data);
    PeerHalf(y, x, x', inbox, outbox, sent);
  }

  // ---------- read ----------

  lemma ReadKeeps(x: Node, y: Node, outbox: seq<Packet>, inbox: seq<Packet>, room: nat)
    requires Half(x, y, outbox, inbox) && Half(y, x, inbox, outbox)
    ensures var (x', sent) := NodeRead(x, room);
            && sent == [] && Half(x', y, outbox, inbox) && Half(y, x', inbox, outbox)
            && Received(x') == Received(x)
  {
    var x' := NodeRead(x, room).0;
    ReadMoves(x, room);
    WireWhenRead(outbox, x, x', y);
    PeerHalfQuiet(y, x, x', inbox, outbox);
  }

  lemma WireWhenRead(wire: seq<Packet>, x: Node, x': Node, y: Node)
    requires WireOk(wire, x, y)
    requires x'.base == x.base && x'.written == x.written && x.read <= x'.read && Received(x) <= Received(x')
    ensures WireOk(wire, x', y)
  {
    assert x.written + [] == x.written;
    WireOkMore(wire, x, x', y, []);
  }

  lemma PeerHalfQuiet(y: Node, x: Node, x': Node, inbox: seq<Packet>, outbox: seq<Packet>)
    requires Half(y, x, inbox, outbox)
    requires x'.base == x.base && ReceiveOk(x', y) && FlowOk(y, x')
    ensures Half(y, x', inbox, outbox)
  {
    PeerHalf(y, x, x', inbox, outbox, []);
    assert outbox + [] == outbox;
  }

  /** Reading only moves bytes from the receive queue to the application. */
  lemma ReadMoves(x: Node, room: nat)
    ensures var (x', sent) := NodeRead(x, room);
            && sent == [] && x.read <= x'.read && Received(x') == Received(x)
            && x'.read + x'.sock.receiveQueue == x.read + x.sock.receiveQueue
            && x' == x.(sock := x.sock.(receiveQueue := x'.sock.receiveQueue), read := x'.read)
  {}

  // ---------- a pure acknowledgement ----------

  /** An empty segment from x, sent now, may join the wire. */
  lemma AckJoinsWire(x: Node, y: Node, outbox: seq<Packet>)
    requires SendOk(x) && ReceiveOk(x, y) && FlowOk(y, x) && WireOk(outbox, x, y) && SentInOrder(outbox)
    ensures var p := Packet(Next(x), Expected(x, y.base), SendPacket(x.sock, [], FLAG_ACK), false);
            WireOk(outbox + [p], x, y) && SentInOrder(outbox + [p])
  {
    var p := Packet(Next(x), Expected(x, y.base), SendPacket(x.sock, [], FLAG_ACK), false);
    RightEdge(x, y, [], FLAG_ACK);
    PositionsBound(outbox, x, y);
    WireGrows(outbox, p, x, y);
  }

  /** Nothing but timers is different. */
  ghost predicate SameButTimers(x: Node, x': Node) {
    && x' == x.(sock := x'.sock) && SendSide(x'.sock) == SendSide(x.sock) && x'.sock.state == x.sock.state
    && x'.sock.receiveQueue == x.sock.receiveQueue && x'.sock.reassembler == x.sock.reassembler
  }

  lemma TimersOfSender(x: Node, x': Node, y: Node, outbox: seq<Packet>, inbox: seq<Packet>)
    requires SameButTimers(x, x') && Half(x, y, outbox, inbox)
    ensures Half(x', y, outbox, inbox)
  {
    SameReceived(x, x', y);
    WireSame(outbox, x, x', y);
  }

  lemma TimersOfReceiver(x: Node, x': Node, y: Node, outbox: seq<Packet>, inbox: seq<Packet>)
    requires SameButTimers(x, x') && Half(y, x, inbox, outbox)
    ensures Half(y, x', inbox, outbox)
  {
    SameReceived(x, x', y);
    assert outbox + [] == outbox;
    PeerHalf(y, x, x', inbox, outbox, []);
  }

  /** Arming or clearing timers does not matter to a direction. */
  lemma TimersDoNotMatter(x: Node, x': Node, y: Node, outbox: seq<Packet>, inbox: seq<Packet>)
    requires SameButTimers(x, x')
    ensures Half(x, y, outbox, inbox) ==> Half(x', y, outbox, inbox)
    ensures Half(y, x, inbox, outbox) ==> Half(y, x', inbox, outbox)
  {
    if Half(x, y, outbox, inbox) { TimersOfSender(x, x', y, outbox, inbox); }
    if Half(y, x, inbox, outbox) { TimersOfReceiver(x, x', y, outbox, inbox); }
  }

  lemma WireGrowsHalf(x: Node, y: Node, outbox: seq<Packet>, inbox: seq<Packet>, p: Packet)
    requires Half(x, y, outbox, inbox) && Half(y, x, inbox, outbox)
    requires WireOk(outbox + [p], x, y) && SentInOrder(outbox + [p])
    ensures Half(x, y, outbox + [p], inbox) && Half(y, x, inbox, outbox + [p])
  {
    PeerHalf(y, x, x, inbox, outbox, [p]);
  }

  lemma NodeAckIs(x: Node, peerBase: int)
    requires x.sock.state.Established?
    ensures NodeAck(x, peerBase) ==
              (x.(sock := x.sock.(delayedAckArmed := false, numDelayedAcks := 0)),
               [Packet(Next(x), Expected(x, peerBase), SendPacket(x.sock, [], FLAG_ACK), false)])
  {
    StampOne(x, peerBase, SendPacket(x.sock, [], FLAG_ACK), false);
  }

  lemma AckKeeps(x: Node, y: Node, outbox: seq<Packet>, inbox: seq<Packet>)
    requires Half(x, y, outbox, inbox) && Half(y, x, inbox, outbox)
    ensures var (x', sent) := NodeAck(x, y.base);
            && Half(x', y, outbox + sent, inbox) && Half(y, x', inbox, outbox + sent)
            && Received(x') == Received(x)
  {
    NodeAckIs(x, y.base);
    var (x', sent) := NodeAck(x, y.base);
    AckJoinsWire(x, y, outbox);
    WireGrowsHalf(x, y, outbox, inbox, sent[0]);
    TimersDoNotMatter(x, x', y, outbox + sent, inbox);
  }

  // ---------- a retransmission timeout ----------

  lemma NodeRetransmitIs(x: Node, peerBase: int)
    requires x.sock.state.Established? && x.sock.retransmitQueue != []
    ensures var q := x.sock.retransmitQueue;
            var g := SendPacket(x.sock, q[..Min(|q|, x.sock.sendMss)], FLAG_ACK + FLAG_PSH);
            NodeRetransmit(x, peerBase) ==
              (x.(sock := x.sock.(retransmitArmed := true)), [Packet(Next(x), Expected(x, peerBase), g, true)])
  {
    var q := x.sock.retransmitQueue;
    StampOne(x, peerBase, SendPacket(x.sock, q[..Min(|q|, x.sock.sendMss)], FLAG_ACK + FLAG_PSH), true);
  }

  /** What the code sends again may join the wire: its header is true, whatever its payload. */
  lemma ResentJoinsWire(x: Node, y: Node, outbox: seq<Packet>, payload: seq<u8>)
    requires SendOk(x) && ReceiveOk(x, y) && FlowOk(y, x) && WireOk(outbox, x, y) && SentInOrder(outbox)
    requires |payload| <= WINDOW
    ensures var p := Packet(Next(x), Expected(x, y.base), SendPacket(x.sock, payload, FLAG_ACK + FLAG_PSH), true);
            WireOk(outbox + [p], x, y) && SentInOrder(outbox + [p])
  {
    var p := Packet(Next(x), Expected(x, y.base), SendPacket(x.sock, payload, FLAG_ACK + FLAG_PSH), true);
    RightEdge(x, y, payload, FLAG_ACK + FLAG_PSH);
    PositionsBound(outbox, x, y);
    WireGrows(outbox, p, x, y);
  }

  lemma RetransmitKeeps(x: Node, y: Node, outbox: seq<Packet>, inbox: seq<Packet>)
    requires Half(x, y, outbox, inbox) && Half(y, x, inbox, outbox)
    ensures var (x', sent) := NodeRetransmit(x, y.base);
            && Half(x', y, outbox + sent, inbox) && Half(y, x', inbox, outbox + sent)
            && Received(x') == Received(x)
  {
    var (x', sent) := NodeRetransmit(x, y.base);
    var q := x.sock.retransmitQueue;
    if q == [] {
      assert sent == [] && outbox + [] == outbox;
    } else {
      NodeRetransmitIs(x, y.base);
      ResentJoinsWire(x, y, outbox, q[..Min(|q|, x.sock.sendMss)]);
      WireGrowsHalf(x, y, outbox, inbox, sent[0]);
      TimersDoNotMatter(x, x', y, outbox + sent, inbox);
    }
  }

  // ---------- delivery ----------

  /** A copy the network may hand to x now: not too old, and not a retransmission whose bytes
      differ from what y has written at the position on its label. */
  ghost predicate Fresh(p: Packet, x: Node, y: Node) {
    && p.position > Expected(x, y.base) - MAX_AGE && p.ack > Unacked(x) - MAX_AGE
    && (p.resent ==> Faithful(p, y))
  }

  /** x after the data of a segment has been taken in, before its acknowledgement is looked at. */
  function TookData(x: Node, g: Segment): Node {
    x.(sock := ReceiveData(Noticed(x.sock, g), g).0)
  }

  function DataAcks(x: Node, peerBase: int, g: Segment): seq<Packet> {
    Stamp(TookData(x, g), peerBase, ReceiveData(Noticed(x.sock, g), g).1, false)
  }

  /** The data of a packet extends what x has received by a piece of what y has written. */
  lemma DataExtends(x: Node, y: Node, p: Packet)
    requires ReceiveOk(x, y) && FlowOk(y, x) && PacketOk(p, y, x) && Fresh(p, x, y)
    requires x.sock.state.Established?
    ensures var x' := TookData(x, p.segment);
            && ReceiveOk(x', y) && FlowOk(y, x') && Received(x) <= Received(x')
  {
    if p.segment.payload != [] {
      var x', a, next := TookData(x, p.segment), Arrival(p.position, p.segment.payload), Expected(x, y.base);
      var r := x.sock.reassembler;
      AddPacketDelivers(r, y.written, y.base, next, a, WINDOW, WINDOW);
      var (r', out) := Add(r, a.data, Wrap(a.position));
      assert x'.sock.reassembler == r' && x'.read == x.read;
      if out.Some? {
        assert x'.sock.receiveQueue == x.sock.receiveQueue + out.value;
        PrefixGrows(y.written, y.base, x.read, x.sock.receiveQueue, out.value);
      }
    }
  }

  lemma PrefixGrows(w: seq<u8>, base: int, read: seq<u8>, waiting: seq<u8>, more: seq<u8>)
    requires |read| + |waiting| + |more| <= |w| && read + waiting == w[..|read| + |waiting|]
    requires var n := base + |read| + |waiting|; more == Piece(w, base, n, n + |more|)
    ensures read + (waiting + more) == w[..|read| + |waiting + more|]
  {
    var n := |read| + |waiting|;
    assert read + (waiting + more) == (read + waiting) + more;
    assert w[..n] + w[n..n + |more|] == w[..n + |more|];
  }

  /** ... and nothing x now holds starts after both the old cover and the packet. */
  lemma DataCovered(x: Node, y: Node, p: Packet, position: int)
    requires ReceiveOk(x, y) && FlowOk(y, x) && PacketOk(p, y, x) && Fresh(p, x, y)
    requires x.sock.state.Established? && Covers(x, y.base, position)
    ensures Covers(TookData(x, p.segment), y.base, Max(position, p.position))
  {
    if p.segment.payload != [] {
      AddPacketCovered(x.sock.reassembler, y.written, y.base, Expected(x, y.base),
                       Arrival(p.position, p.segment.payload), position);
    }
  }

  lemma AddPacketCovered(r: Reassembly, s: seq<u8>, base: int, next: int, a: Arrival, position: int)
    requires Tracks(r, s, base, next, WINDOW, WINDOW) && Admissible(a, s, base, next, WINDOW, WINDOW)
    requires next <= position + WINDOW && StartBy(r.outOfOrder, next, position)
    ensures var (r', out) := Add(r, a.data, Wrap(a.position));
            var next' := next + (if out.Some? then |out.value| else 0);
            && next' <= Max(position, a.position) + WINDOW
            && StartBy(r'.outOfOrder, next', Max(position, a.position))
  {
    if a.position == next {
      var r', next' := InOrderPacket(r, s, base, next, a, WINDOW, WINDOW);
      ChainReach(r.outOfOrder, next, next + |a.data|, next', position, WINDOW);
    } else {
      var r' := EarlyPacket(r, s, base, next, a, WINDOW, WINDOW);
    }
  }

  /** A chain of stored segments that start at or before `position` ends within one window of it. */
  lemma {:induction false} ChainReach(q: seq<Entry>, first: int, from: int, upto: int, position: int, maxLen: nat)
    requires from <= upto && Chained(q, first, from, upto)
    requires forall e :: e in q ==> Nearest(first, e.seqNum) <= position && |e.data| <= maxLen
    ensures upto == from || upto <= position + maxLen
    decreases upto - from
  {
    if from != upto {
      var e :| e in q && |e.data| > 0 && Nearest(first, e.seqNum) == from
             && from + |e.data| <= upto && Chained(q, first, from + |e.data|, upto);
      ChainReach(q, first, from + |e.data|, upto, position, maxLen);
    }
  }

  lemma TookDataLeaves(x: Node, g: Segment)
    ensures var x' := TookData(x, g);
            && x' == x.(sock := x'.sock) && SendSide(x'.sock) == SendSide(x.sock) && x'.sock.state == x.sock.state
  {
    ReceiveDataLeaves(Noticed(x.sock, g), g);
  }

  /** Receiving changes nothing in the direction in which x sends. */
  lemma SameSending(x: Node, x': Node, y: Node, inbox: seq<Packet>)
    requires x' == x.(sock := x'.sock) && SendSide(x'.sock) == SendSide(x.sock) && x'.sock.state == x.sock.state
    ensures SendOk(x) ==> SendOk(x')
    ensures FlowOk(x, y) ==> FlowOk(x', y)
    ensures ReceiveOk(y, x) ==> ReceiveOk(y, x')
    ensures WindowOk(x, y, inbox) ==> WindowOk(x', y, inbox)
    ensures WindowPosition(x', y, inbox) == WindowPosition(x, y, inbox) && Unacked(x') == Unacked(x)
  {}

  /** The immediate acknowledgement of the data may go out. */
  lemma DataKeepsWire(x: Node, y: Node, outbox: seq<Packet>, g: Segment)
    requires var x' := TookData(x, g);
             SendOk(x') && ReceiveOk(x', y) && FlowOk(y, x') && Received(x) <= Received(x')
    requires WireOk(outbox, x, y) && SentInOrder(outbox) && x.sock.state.Established?
    ensures WireOk(outbox + DataAcks(x, y.base, g), TookData(x, g), y)
    ensures SentInOrder(outbox + DataAcks(x, y.base, g))
  {
    var x' := TookData(x, g);
    TookDataLeaves(x, g);
    assert x.written + [] == x.written && outbox + [] == outbox;
    WireOkMore(outbox, x, x', y, []);
    AckJoinsWire(x', y, outbox);
    DataAcksAre(x, y.base, g);
  }

  lemma DataAcksAre(x: Node, peerBase: int, g: Segment)
    requires x.sock.state.Established?
    ensures var x' := TookData(x, g);
            || DataAcks(x, peerBase, g) == []
            || DataAcks(x, peerBase, g) == [Packet(Next(x'), Expected(x', peerBase), SendPacket(x'.sock, [], FLAG_ACK), false)]
  {}

  /** x after the acknowledgement field has been looked at as well. */
  function TookAck(x: Node, k: nat, g: Segment): Option<Node> {
    match ProcessAck(x.sock, g)
    case None => None
    case Some(sock) =>
      var trimmed := TrimAcked(x.sock, g.ackNum);
      Some(x.(sock := sock, windowFrom :=
        if trimmed.Some? && SetsWindow(trimmed.value, g) then Some(k) else x.windowFrom))
  }

  /** The flags of a segment of the data transfer. */
  ghost predicate IsTransfer(g: Segment) {
    (g.flags == FLAG_ACK || g.flags == FLAG_ACK + FLAG_PSH) && g.mss == 0
  }

  lemma TransferFlags(g: Segment)
    requires IsTransfer(g)
    ensures HasAck(g.flags) && !HasRst(g.flags) && !HasFin(g.flags) && !HasSyn(g.flags)
  {}

  /** In the established state such a segment is taken in two steps, its data first. */
  lemma InputInTwo(s: Sock, g: Segment, s2: Sock, acks: seq<Segment>)
    requires s.state.Established? && !HasRst(g.flags) && !HasFin(g.flags)
    requires ReceiveData(Noticed(s, g), g) == (s2, acks) && s2.state.Established?
    requires ProcessAck(s2, g).Some? ==> ProcessAck(s2, g).value.state.Established?
    ensures match ProcessAck(s2, g)
            case None => Input(s, g) == None
            case Some(s3) => Input(s, g) == Some((s3, acks))
  {
    assert acks + [] == acks;
  }

  /** In the established state, with the flags of a data transfer, tcp_input is the data step
      followed by the acknowledgement step. */
  lemma DeliverInTwo(x: Node, peerBase: int, inbox: seq<Packet>, k: nat)
    requires k < |inbox| && x.sock.state.Established? && IsTransfer(inbox[k].segment)
    ensures var g := inbox[k].segment;
            match TookAck(TookData(x, g), k, g)
            case None => NodeDeliver(x, peerBase, inbox, k) == None
            case Some(x') => NodeDeliver(x, peerBase, inbox, k) == Some((x', DataAcks(x, peerBase, g)))
  {
    var g := inbox[k].segment;
    TransferFlags(g);
    ReceiveDataLeaves(Noticed(x.sock, g), g);
    var (s2, acks) := ReceiveData(Noticed(x.sock, g), g);
    TrimSees(x.sock, s2, g);
    if ProcessAck(s2, g).Some? {
      ProcessAckLeaves(s2, g);
      StampSame(TookData(x, g), TookAck(TookData(x, g), k, g).value, peerBase, acks);
    }
    InputInTwo(x.sock, g, s2, acks);
  }

  lemma StampSame(x: Node, x': Node, peerBase: int, sent: seq<Segment>)
    requires Next(x) == Next(x') && Received(x) == Received(x')
    ensures Stamp(x, peerBase, sent, false) == Stamp(x', peerBase, sent, false)
  {
    var r, r' := Stamp(x, peerBase, sent, false), Stamp(x', peerBase, sent, false);
    assert forall i :: 0 <= i < |r| ==> r[i] == r'[i];
  }

  /** Trimming and the window test depend on the send side only. */
  lemma TrimSees(s: Sock, s': Sock, g: Segment)
    requires SendSide(s) == SendSide(s')
    ensures var t, t' := TrimAcked(s, g.ackNum), TrimAcked(s', g.ackNum);
            && t.Some? == t'.Some?
            && (t.Some? ==> SetsWindow(t.value, g) == SetsWindow(t'.value, g))
  {}

  /** The acknowledgement tests of the code, by position. */
  lemma AckByPosition(una: int, ack: int, next: int)
    requires una - MAX_AGE < ack <= next && una <= next <= una + WINDOW
    ensures SeqLt(Wrap(una), Wrap(ack)) <==> una < ack
    ensures SeqLe(Wrap(ack), Wrap(next))
    ensures una <= ack ==> WrappingSub(Wrap(ack), Wrap(una)) == ack - una
  {
    SeqCompareIsOrder(una, ack);
    SeqCompareIsOrder(ack, next);
    WrapSub(ack, una);
  }

  /** The acknowledgement raises SND.UNA to what it acknowledges, if that is news. */
  lemma AckRaisesUnacked(x: Node, ack: int)
    requires SendOk(x) && Unacked(x) - MAX_AGE < ack <= Next(x)
    ensures TrimAcked(x.sock, Wrap(ack)).Some?
    ensures var x' := x.(sock := TrimAcked(x.sock, Wrap(ack)).value);
            SendOk(x') && Unacked(x') == Max(Unacked(x), ack)
  {
    AckByPosition(Unacked(x), ack, Next(x));
    if Unacked(x) < ack {
      TailOfTail(x.sock.retransmitQueue[ack - Unacked(x)..], x.sock.retransmitQueue, x.written);
    }
  }

  /** Which packets set the window, by position: those that acknowledge no less than what is
      acknowledged, and were not sent before the last one that did. */
  lemma SetsWindowByPosition(x: Node, y: Node, inbox: seq<Packet>, p: Packet)
    requires SendOk(x) && WindowOk(x, y, inbox) && LabelOk(p, y, x)
    requires Unacked(x) - MAX_AGE < p.ack <= Next(x)
    requires -0x8000_0000 < WindowPosition(x, y, inbox) - p.position < 0x8000_0000
    ensures TrimAcked(x.sock, p.segment.ackNum).Some?
    ensures SetsWindow(TrimAcked(x.sock, p.segment.ackNum).value, p.segment)
            <==> Unacked(x) <= p.ack && WindowPosition(x, y, inbox) <= p.position
  {
    AckRaisesUnacked(x, p.ack);
    var una := Max(Unacked(x), p.ack);
    SeqCompareIsOrder(una, p.ack);
    SeqCompareIsOrder(p.ack, Next(x));
    SeqCompareIsOrder(WindowPosition(x, y, inbox), p.position);
    WrapIsInjectiveNearby(WindowPosition(x, y, inbox), p.position);
    if x.windowFrom.Some? {
      SeqCompareIsOrder(Unacked(x), p.ack);
    }
  }

  /** The packet and the one that last set the window, in the order in which they were sent. */
  lemma NewerAckNewerPosition(x: Node, y: Node, inbox: seq<Packet>, k: nat)
    requires WindowOk(x, y, inbox) && WireOk(inbox, y, x) && SentInOrder(inbox) && k < |inbox|
    ensures Unacked(x) < inbox[k].ack ==> WindowPosition(x, y, inbox) <= inbox[k].position
    ensures inbox[k].ack < Unacked(x) ==> inbox[k].position <= WindowPosition(x, y, inbox)
  {
    assert OnWire(inbox[k], y, x);
    if x.windowFrom.Some? {
      var j := x.windowFrom.value;
      assert j <= k ==> NotAfter(inbox[j], inbox[k]);
      assert k <= j ==> NotAfter(inbox[k], inbox[j]);
    }
  }

  lemma TookAckIs(x: Node, k: nat, g: Segment)
    requires x.sock.state.Established? && HasAck(g.flags) && TrimAcked(x.sock, g.ackNum).Some?
    ensures TookAck(x, k, g).Some?
    ensures var x', t := TookAck(x, k, g).value, TrimAcked(x.sock, g.ackNum).value;
            && x' == x.(sock := x'.sock, windowFrom := if SetsWindow(t, g) then Some(k) else x.windowFrom)
            && x'.sock == UpdateWindow(t, g)
  {}

  /** The acknowledgement step keeps the send side, never panics, and leaves the window set by
      the latest packet seen so far. */
  lemma AckKeepsSending(x: Node, y: Node, inbox: seq<Packet>, k: nat)
    requires k < |inbox| && SendOk(x) && FlowOk(x, y)
    requires WindowOk(x, y, inbox) && WireOk(inbox, y, x) && SentInOrder(inbox)
    requires Unacked(x) - MAX_AGE < inbox[k].ack
    requires -0x8000_0000 < WindowPosition(x, y, inbox) - inbox[k].position < 0x8000_0000
    ensures TookAck(x, k, inbox[k].segment).Some?
    ensures var x' := TookAck(x, k, inbox[k].segment).value;
            && SendOk(x') && FlowOk(x', y) && WindowOk(x', y, inbox)
            && WindowPosition(x', y, inbox) == Max(WindowPosition(x, y, inbox), inbox[k].position)
            && Unacked(x') == Max(Unacked(x), inbox[k].ack)
  {
    var p := inbox[k];
    assert OnWire(p, y, x);
    AckRaisesUnacked(x, p.ack);
    SetsWindowByPosition(x, y, inbox, p);
    NewerAckNewerPosition(x, y, inbox, k);
    TookAckIs(x, k, p.segment);
  }

  /** Everything a fresh packet is compared with is less than 2^31 away from it. */
  lemma FreshIsNear(x: Node, y: Node, outbox: seq<Packet>, inbox: seq<Packet>, k: nat)
    requires Half(x, y, outbox, inbox) && Half(y, x, inbox, outbox)
    requires k < |inbox| && Fresh(inbox[k], x, y)
    ensures -0x8000_0000 < WindowPosition(x, y, inbox) - inbox[k].position < 0x8000_0000
  {
    assert OnWire(inbox[k], y, x);
    PositionsBound(inbox, y, x);
  }

  /** `Half` between the two steps of a delivery: everything x holds starts at or before `position`. */
  ghost predicate MidHalf(x: Node, y: Node, outbox: seq<Packet>, inbox: seq<Packet>, position: int) {
    && SendOk(x) && ReceiveOk(y, x) && FlowOk(x, y)
    && WireOk(outbox, x, y) && SentInOrder(outbox)
    && WindowOk(x, y, inbox) && Covers(x, y.base, position)
  }

  lemma DataStep(x: Node, y: Node, outbox: seq<Packet>, inbox: seq<Packet>, p: Packet)
    requires Half(x, y, outbox, inbox) && Half(y, x, inbox, outbox)
    requires PacketOk(p, y, x) && Fresh(p, x, y)
    ensures var x', sent := TookData(x, p.segment), DataAcks(x, y.base, p.segment);
            && MidHalf(x', y, outbox + sent, inbox, Max(WindowPosition(x, y, inbox), p.position))
            && Half(y, x', inbox, outbox + sent)
            && Received(x) <= Received(x')
  {
    var x', sent := TookData(x, p.segment), DataAcks(x, y.base, p.segment);
    DataExtends(x, y, p);
    DataCovered(x, y, p, WindowPosition(x, y, inbox));
    TookDataLeaves(x, p.segment);
    SameSending(x, x', y, inbox);
    DataKeepsWire(x, y, outbox, p.segment);
    PeerHalf(y, x, x', inbox, outbox, sent);
  }

  lemma TookAckLeaves(x: Node, k: nat, g: Segment)
    requires TookAck(x, k, g).Some?
    ensures var x' := TookAck(x, k, g).value;
            && x'.base == x.base && x'.written == x.written && x'.read == x.read
            && x'.sock.receiveQueue == x.sock.receiveQueue && x'.sock.reassembler == x.sock.reassembler
  {
    ProcessAckLeaves(x.sock, g);
  }

  lemma AckStep(x: Node, y: Node, outbox: seq<Packet>, inbox: seq<Packet>, k: nat)
    requires k < |inbox| && Half(y, x, inbox, outbox)
    requires MidHalf(x, y, outbox, inbox, Max(WindowPosition(x, y, inbox), inbox[k].position))
    requires Unacked(x) - MAX_AGE < inbox[k].ack
    requires -0x8000_0000 < WindowPosition(x, y, inbox) - inbox[k].position < 0x8000_0000
    ensures TookAck(x, k, inbox[k].segment).Some?
    ensures var x' := TookAck(x, k, inbox[k].segment).value;
            Half(x', y, outbox, inbox) && Half(y, x', inbox, outbox) && Received(x') == Received(x)
  {
    AckKeepsSending(x, y, inbox, k);
    var x' := TookAck(x, k, inbox[k].segment).value;
    TookAckLeaves(x, k, inbox[k].segment);
    SameReceived(x, x', y);
    WireSame(outbox, x, x', y);
    assert outbox + [] == outbox;
    PeerHalf(y, x, x', inbox, outbox, []);
  }

  lemma DeliverKeeps(x: Node, y: Node, outbox: seq<Packet>, inbox: seq<Packet>, k: nat)
    requires Half(x, y, outbox, inbox) && Half(y, x, inbox, outbox)
    requires k < |inbox| && Fresh(inbox[k], x, y)
    ensures NodeDeliver(x, y.base, inbox, k).Some?
    ensures var (x', sent) := NodeDeliver(x, y.base, inbox, k).value;
            && Half(x', y, outbox + sent, inbox) && Half(y, x', inbox, outbox + sent)
            && Received(x) <= Received(x')
  {
    var p := inbox[k];
    assert OnWire(p, y, x);
    FreshIsNear(x, y, outbox, inbox, k);
    DataStep(x, y, outbox, inbox, p);
    DataLeavesPositions(x, y, inbox, p.segment);
    AckStep(TookData(x, p.segment), y, outbox + DataAcks(x, y.base, p.segment), inbox, k);
    DeliverInTwo(x, y.base, inbox, k);
  }

  lemma DataLeavesPositions(x: Node, y: Node, inbox: seq<Packet>, g: Segment)
    ensures var x' := TookData(x, g);
            Unacked(x') == Unacked(x) && WindowPosition(x', y, inbox) == WindowPosition(x, y, inbox)
  {
    ReceiveDataLeaves(Noticed(x.sock, g), g);
  }

  // ---------- steps and runs of the whole link ----------

  /** A step of endpoint a or of endpoint b. */
  datatype Turn = Turn(ofA: bool, step: Step)

  /** The network's part: deliveries are of packets that exist and are fresh. */
  ghost predicate StepAllowed(x: Node, y: Node, inbox: seq<Packet>, step: Step) {
    step.Deliver? ==> step.k < |inbox| && Fresh(inbox[step.k], x, y)
  }

  ghost predicate TurnAllowed(l: Link, t: Turn) {
    if t.ofA then StepAllowed(l.a, l.b, l.toA, t.step) else StepAllowed(l.b, l.a, l.toB, t.step)
  }

  predicate TurnPossible(l: Link, t: Turn) {
    t.step.Deliver? ==> t.step.k < if t.ofA then |l.toA| else |l.toB|
  }

  /** `None` is a panic. */
  function TakeTurn(l: Link, t: Turn): Option<Link>
    requires TurnPossible(l, t)
  {
    if t.ofA then
      match NodeStep(l.a, l.b.base, l.toA, t.step)
      case None => None
      case Some((a, sent)) => Some(l.(a := a, toB := l.toB + sent))
    else
      match NodeStep(l.b, l.a.base, l.toB, t.step)
      case None => None
      case Some((b, sent)) => Some(l.(b := b, toA := l.toA + sent))
  }

  lemma NodeStepKeeps(x: Node, y: Node, outbox: seq<Packet>, inbox: seq<Packet>, step: Step)
    requires Half(x, y, outbox, inbox) && Half(y, x, inbox, outbox)
    requires StepAllowed(x, y, inbox, step)
    ensures NodeStep(x, y.base, inbox, step).Some?
    ensures var (x', sent) := NodeStep(x, y.base, inbox, step).value;
            && Half(x', y, outbox + sent, inbox) && Half(y, x', inbox, outbox + sent)
            && Received(x) <= Received(x')
  {
    assert outbox + [] == outbox;
    match step {
      case Write(data) =>
        if data != [] && WindowOpen(x.sock, data) { WriteKeeps(x, y, outbox, inbox, data); }
      case Read(room) => ReadKeeps(x, y, outbox, inbox, room);
      case Ack => AckKeeps(x, y, outbox, inbox);
      case Deliver(k) => DeliverKeeps(x, y, outbox, inbox, k);
      case Retransmit => RetransmitKeeps(x, y, outbox, inbox);
    }
  }

  /** Every step of either endpoint succeeds and keeps the invariant. */
  lemma TurnKeeps(l: Link, t: Turn)
    requires Inv(l) && TurnAllowed(l, t)
    ensures TakeTurn(l, t).Some? && Inv(TakeTurn(l, t).value)
  {
    if t.ofA {
      NodeStepKeeps(l.a, l.b, l.toB, l.toA, t.step);
    } else {
      NodeStepKeeps(l.b, l.a, l.toA, l.toB, t.step);
    }
  }

  /** `upto` is reached from `from` by allowed turns. */
  ghost predicate Reaches(from: Link, turns: seq<Turn>, upto: Link)
    decreases |turns|
  {
    if turns == [] then upto == from
    else TurnAllowed(from, turns[0]) && TakeTurn(from, turns[0]).Some?
         && Reaches(TakeTurn(from, turns[0]).value, turns[1..], upto)
  }

  lemma {:induction false} ReachableKeeps(l: Link, turns: seq<Turn>, l': Link)
    requires Inv(l) && Reaches(l, turns, l')
    ensures Inv(l')
    decreases |turns|
  {
    if turns != [] {
      TurnKeeps(l, turns[0]);
      ReachableKeeps(TakeTurn(l, turns[0]).value, turns[1..], l');
    }
  }

  lemma ReachesBy(l: Link, turns: seq<Turn>, t: Turn, rest: seq<Turn>, l1: Link, l': Link)
    requires turns == [t] + rest && TurnAllowed(l, t) && TakeTurn(l, t) == Some(l1) && Reaches(l1, rest, l')
    ensures Reaches(l, turns, l')
  {
    assert turns[0] == t && turns[1..] == rest;
  }

  lemma ReachesFirst(l: Link, turns: seq<Turn>, l': Link) returns (l1: Link)
    requires turns != [] && Reaches(l, turns, l')
    ensures TurnAllowed(l, turns[0]) && TakeTurn(l, turns[0]) == Some(l1) && Reaches(l1, turns[1..], l')
  {
    l1 := TakeTurn(l, turns[0]).value;
  }

  /** One turn further. */
  lemma {:induction false} ReachesOn(l: Link, turns: seq<Turn>, l1: Link, t: Turn, l': Link, on: seq<Turn>)
    requires Reaches(l, turns, l1) && TurnAllowed(l1, t) && TakeTurn(l1, t) == Some(l') && on == turns + [t]
    ensures Reaches(l, on, l')
    decreases |turns|
  {
    if turns == [] {
      ReachesBy(l, on, t, [], l', l');
    } else {
      var l2 := ReachesFirst(l, turns, l1);
      ReachesOn(l2, turns[1..], l1, t, l', turns[1..] + [t]);
      assert on == [turns[0]] + (turns[1..] + [t]);
      ReachesBy(l, on, turns[0], turns[1..] + [t], l2, l');
    }
  }

  // ---------- a call of tcp_write ----------

  /** The endpoint has accepted these bytes, sent these segments and come to that socket. */
  ghost predicate HasWritten(x: Node, outbox: seq<Packet>, x': Node, outbox': seq<Packet>,
                             s: Sock, bytes: seq<u8>, sent: seq<Segment>) {
    && x' == x.(sock := s, written := x.written + bytes)
    && |outbox'| == |outbox| + |sent| && outbox <= outbox'
    && forall i :: |outbox| <= i < |outbox'| ==> outbox'[i].segment == sent[i - |outbox|] && !outbox'[i].resent
  }

  /** ... one endpoint, and the other has done nothing. */
  ghost predicate EndHasWritten(l: Link, ofA: bool, l': Link, s: Sock, bytes: seq<u8>, sent: seq<Segment>) {
    if ofA then HasWritten(l.a, l.toB, l'.a, l'.toB, s, bytes, sent) && l'.b == l.b && l'.toA == l.toA
    else HasWritten(l.b, l.toA, l'.b, l'.toA, s, bytes, sent) && l'.a == l.a && l'.toB == l.toB
  }

  function EndOf(l: Link, ofA: bool): Node { if ofA then l.a else l.b }

  lemma HasWrittenNothing(x: Node, outbox: seq<Packet>)
    ensures HasWritten(x, outbox, x, outbox, x.sock, [], [])
  {
    assert x.written + [] == x.written;
  }

  lemma HasWrittenMore(x: Node, outbox: seq<Packet>, x1: Node, outbox1: seq<Packet>, s1: Sock, bytes: seq<u8>, g: Segment,
                       x2: Node, outbox2: seq<Packet>, s2: Sock, more: seq<u8>, sent: seq<Segment>)
    requires HasWritten(x, outbox, x1, outbox1, s1, bytes, [g]) && HasWritten(x1, outbox1, x2, outbox2, s2, more, sent)
    ensures HasWritten(x, outbox, x2, outbox2, s2, bytes + more, [g] + sent)
  {
    assert x.written + bytes + more == x.written + (bytes + more);
    forall i | |outbox| <= i < |outbox2|
      ensures outbox2[i].segment == ([g] + sent)[i - |outbox|] && !outbox2[i].resent {
      if i == |outbox| { assert outbox2[i] == outbox1[i]; }
    }
  }

  lemma WritesPacket(x: Node, peerBase: int, outbox: seq<Packet>, data: seq<u8>)
    requires data != [] && WindowOpen(x.sock, data)
    ensures var (x', sent) := NodeWrite(x, peerBase, data);
            HasWritten(x, outbox, x', outbox + sent, WritePacket(x.sock, data).0, data[..PacketLength(x.sock, data)],
                       [WritePacket(x.sock, data).1])
  {}

  lemma WriteTurnOf(l: Link, ofA: bool, data: seq<u8>) returns (l': Link)
    requires data != [] && WindowOpen(EndOf(l, ofA).sock, data)
    ensures TurnAllowed(l, Turn(ofA, Write(data))) && TakeTurn(l, Turn(ofA, Write(data))) == Some(l')
    ensures var s := EndOf(l, ofA).sock;
            EndHasWritten(l, ofA, l', WritePacket(s, data).0, data[..PacketLength(s, data)], [WritePacket(s, data).1])
  {
    l' := TakeTurn(l, Turn(ofA, Write(data))).value;
    if ofA {
      WritesPacket(l.a, l.b.base, l.toB, data);
    } else {
      WritesPacket(l.b, l.a.base, l.toA, data);
    }
  }

  /** WRITE IS TURNS: a whole call of tcp_write, up to its next wait, by an established endpoint is a
      sequence of allowed turns of that endpoint. */
  lemma {:induction false} CallIsTurns(l0: Link, turns: seq<Turn>, l: Link, ofA: bool, data: seq<u8>)
    returns (on: seq<Turn>, l': Link)
    requires Reaches(l0, turns, l) && EndOf(l, ofA).sock.state.Established? && EndOf(l, ofA).sock.sendMss > 0
    ensures var ((s, sent), taken) := Socket.Write(EndOf(l, ofA).sock, data);
            && taken <= |data| && Reaches(l0, on, l')
            && EndHasWritten(l, ofA, l', s, data[..taken], sent)
    decreases |data|
  {
    var s := EndOf(l, ofA).sock;
    WriteTakesInOrder(s, data);
    if data == [] || !WindowOpen(s, data) {
      on, l' := turns, l;
      HasWrittenNothing(EndOf(l, ofA), if ofA then l.toB else l.toA);
    } else {
      var t, n := Turn(ofA, Write(data)), PacketLength(s, data);
      var l1 := WriteTurnOf(l, ofA, data);
      ReachesOn(l0, turns, l, t, l1, turns + [t]);
      var (s1, g) := WritePacket(s, data);
      on, l' := CallIsTurns(l0, turns + [t], l1, ofA, data[n..]);
      WriteTakesInOrder(s1, data[n..]);
      var later := Socket.Write(s1, data[n..]);
      CallGoesOn(l, ofA, l1, s1, data, n, g, l', later.0.0, later.1, later.0.1);
    }
  }

  lemma CallGoesOn(l: Link, ofA: bool, l1: Link, s1: Sock, data: seq<u8>, n: nat, g: Segment,
                   l2: Link, s2: Sock, taken: nat, sent: seq<Segment>)
    requires n + taken <= |data|
    requires EndHasWritten(l, ofA, l1, s1, data[..n], [g]) && EndHasWritten(l1, ofA, l2, s2, data[n..][..taken], sent)
    ensures EndHasWritten(l, ofA, l2, s2, data[..n + taken], [g] + sent)
  {
    assert data[..n] + data[n..][..taken] == data[..n + taken];
    if ofA {
      HasWrittenMore(l.a, l.toB, l1.a, l1.toB, s1, data[..n], g, l2.a, l2.toB, s2, data[n..][..taken], sent);
    } else {
      HasWrittenMore(l.b, l.toA, l1.b, l1.toA, s1, data[..n], g, l2.b, l2.toA, s2, data[n..][..taken], sent);
    }
  }

  // ---------- the start ----------

  /** A socket that has just completed its handshake, with the peer's SYN at `peerBase` - 1. */
  ghost predicate JustEstablished(x: Node, peerBase: int) {
    var s := x.sock;
    && s.state.Established? && x.written == [] && x.read == [] && x.windowFrom == None
    && s.receiveQueue == [] && s.retransmitQueue == [] && s.reassembler == Reassembly(Wrap(peerBase), [])
    && s.sendNextSeq == Wrap(x.base) && s.sendUnacked == Wrap(x.base)
    && s.sendWindow <= WINDOW && s.sendLastWinSeq == Wrap(peerBase - 1)
  }

  /** Both ends are established and at most empty acknowledgements have been sent. */
  ghost predicate Start(l: Link) {
    && JustEstablished(l.a, l.b.base) && JustEstablished(l.b, l.a.base)
    && (forall p :: p in l.toB ==> IsHandshakeAck(p, l.a.base, l.b.base))
    && (forall p :: p in l.toA ==> IsHandshakeAck(p, l.b.base, l.a.base))
  }

  ghost predicate IsHandshakeAck(p: Packet, base: int, peerBase: int) {
    p == Packet(base, peerBase, AckSegment(base, peerBase), false)
  }

  lemma StartWire(x: Node, y: Node, wire: seq<Packet>)
    requires x.written == [] && x.read == [] && x.sock.receiveQueue == []
    requires forall p :: p in wire ==> IsHandshakeAck(p, x.base, y.base)
    ensures WireOk(wire, x, y) && SentInOrder(wire)
  {
    forall k | 0 <= k < |wire| ensures OnWire(wire[k], x, y) {
      assert IsHandshakeAck(wire[k], x.base, y.base);
    }
    forall i, j | 0 <= i <= j < |wire| ensures NotAfter(wire[i], wire[j]) {
      assert IsHandshakeAck(wire[i], x.base, y.base) && IsHandshakeAck(wire[j], x.base, y.base);
    }
  }

  lemma StartHalf(x: Node, y: Node, outbox: seq<Packet>, inbox: seq<Packet>)
    requires JustEstablished(x, y.base) && JustEstablished(y, x.base)
    requires forall p :: p in outbox ==> IsHandshakeAck(p, x.base, y.base)
    ensures Half(x, y, outbox, inbox)
  {
    StartWire(x, y, outbox);
    assert Tracks(y.sock.reassembler, [], x.base, x.base, WINDOW, WINDOW);
  }

  lemma StartInv(l: Link)
    requires Start(l)
    ensures Inv(l)
  {
    StartHalf(l.a, l.b, l.toB, l.toA);
    StartHalf(l.b, l.a, l.toA, l.toB);
  }

  function SynSegment(iss: u32): Segment { Segment(iss, 0, FLAG_SYN, 0xffff, OUR_MSS, []) }

  function SynAckSegment(iss: u32, peerIss: u32): Segment {
    Segment(iss, Wrap(peerIss + 1), FLAG_SYN + FLAG_ACK, 0xffff, OUR_MSS, [])
  }

  function AckSegment(base: int, peerBase: int): Segment {
    Segment(Wrap(base), Wrap(peerBase), FLAG_ACK, 0xffff, 0, [])
  }

  /** Nothing has been received beyond what is awaited, no retry has been counted, and segments may be
      as long as the peer has announced. */
  predicate InStep(s: Sock) {
    s.receiveNextSeq == s.reassembler.nextSequence && s.requestRetryCount == 0 && s.sendMss == OUR_MSS
  }

  lemma OpenSends(iss: u32)
    ensures Open(iss) == (SetState(NewSock(iss), SynSent).(responseArmed := true), [SynSegment(iss)])
  {}

  lemma ListenerSends(iss: u32, peerIss: u32)
    ensures var (s, sent) := NewConnection(iss, SynSegment(peerIss));
            && sent == [SynAckSegment(iss, peerIss)]
            && s.state.SynReceived? && s.sendNextSeq == iss && s.receiveQueue == [] && s.retransmitQueue == []
            && s.reassembler == Reassembly(Wrap(peerIss + 1), [])
            && s.sendWindow == 0xffff && s.sendLastWinSeq == peerIss && s.sendLastWinAck == 0 && InStep(s)
  {}

  /** Without payload and acknowledgement processing, tcp_input is the state match. */
  lemma InputIsTransition(s: Sock, g: Segment)
    requires !HasRst(g.flags) && g.payload == [] && ProcessAck(Noticed(s, g), g) == Some(Noticed(s, g))
    ensures Input(s, g) == Some(Transition(Noticed(s, g), g))
  {
    var s1 := Noticed(s, g);
    assert ReceiveData(s1, g) == (s1, []);
    assert [] + Transition(s1, g).1 == Transition(s1, g).1;
  }

  lemma OpenerEstablishes(iss: u32, peerIss: u32) returns (a: Sock)
    ensures Input(Open(iss).0, SynAckSegment(peerIss, iss)) == Some((a, [AckSegment(iss + 1, peerIss + 1)]))
    ensures JustEstablished(Node(a, iss + 1, [], [], None), peerIss + 1) && InStep(a) && a.sendWindow == 0xffff
  {
    OpenSends(iss);
    var g, s := SynAckSegment(peerIss, iss), Open(iss).0;
    InputIsTransition(s, g);
    a := Transition(Noticed(s, g), g).0;
    assert Transition(Noticed(s, g), g).1 == [AckSegment(iss + 1, peerIss + 1)];
  }

  /** An acknowledgement beyond SND.NXT neither trims nor sets the window. */
  lemma AckBeyondNextIgnored(s: Sock, g: Segment)
    requires SeqGt(g.ackNum, s.sendNextSeq)
    ensures ProcessAck(s, g) == Some(s)
  {}

  /** The socket a listener made is established by the acknowledgement of its SYN. */
  lemma SynReceivedEstablishes(s: Sock, iss: u32, peerIss: u32) returns (b: Sock)
    requires s.state.SynReceived? && s.sendNextSeq == iss && s.receiveQueue == [] && s.retransmitQueue == []
    requires s.reassembler == Reassembly(Wrap(peerIss + 1), [])
    requires s.sendWindow == 0xffff && s.sendLastWinSeq == peerIss && InStep(s)
    ensures Input(s, AckSegment(peerIss + 1, iss + 1)) == Some((b, []))
    ensures JustEstablished(Node(b, iss + 1, [], [], None), peerIss + 1) && InStep(b) && b.sendWindow == 0xffff
  {
    var g := AckSegment(peerIss + 1, iss + 1);
    SynTakesOne(iss);
    b := SynReceivedBecomes(s, g);
    SynTakesOne(peerIss);
  }

  /** A SYN takes one sequence number. */
  lemma SynTakesOne(iss: u32)
    ensures Wrap(iss) == iss && WrappingAdd(iss, 1) == Wrap(iss + 1) && SeqGt(Wrap(iss + 1), iss)
  {
    SeqCompareIsOrder(iss + 1, iss);
  }

  lemma SynReceivedBecomes(s: Sock, g: Segment) returns (b: Sock)
    requires s.state.SynReceived? && g.flags == FLAG_ACK && g.payload == [] && SeqGt(g.ackNum, s.sendNextSeq)
    ensures Input(s, g) == Some((b, []))
    ensures b == SetState(Noticed(s, g), Established).(
                   sendNextSeq := WrappingAdd(s.sendNextSeq, 1), sendUnacked := g.ackNum)
  {
    AckBeyondNextIgnored(Noticed(s, g), g);
    InputIsTransition(s, g);
    b := Transition(Noticed(s, g), g).0;
  }

  lemma ListenerEstablishes(iss: u32, peerIss: u32) returns (b: Sock)
    ensures Input(NewConnection(iss, SynSegment(peerIss)).0, AckSegment(peerIss + 1, iss + 1)) == Some((b, []))
    ensures JustEstablished(Node(b, iss + 1, [], [], None), peerIss + 1) && InStep(b) && b.sendWindow == 0xffff
  {
    ListenerSends(iss, peerIss);
    b := SynReceivedEstablishes(NewConnection(iss, SynSegment(peerIss)).0, iss, peerIss);
  }

  /** The handshake of the code itself leads to such a start: the active opener, the socket a
      listener makes for its SYN, and the three segments between them. */
  lemma HandshakeStarts(issA: u32, issB: u32) returns (a: Sock, b: Sock)
    ensures Open(issA).1 == [SynSegment(issA)]
    ensures NewConnection(issB, SynSegment(issA)).1 == [SynAckSegment(issB, issA)]
    ensures Input(Open(issA).0, SynAckSegment(issB, issA)) == Some((a, [AckSegment(issA + 1, issB + 1)]))
    ensures Input(NewConnection(issB, SynSegment(issA)).0, AckSegment(issA + 1, issB + 1)) == Some((b, []))
    ensures Start(Link(Node(a, issA + 1, [], [], None), Node(b, issB + 1, [], [], None),
                       [Packet(issA + 1, issB + 1, AckSegment(issA + 1, issB + 1), false)], []))
    ensures InStep(a) && InStep(b) && a.sendWindow == 0xffff && b.sendWindow == 0xffff
  {
    OpenSends(issA);
    ListenerSends(issB, issA);
    a := OpenerEstablishes(issA, issB);
    b := ListenerEstablishes(issB, issA);
  }

  // ---------- what every reachable state has ----------

  /** What holds of the stream from x to y. */
  ghost predicate DirectionSafe(x: Node, y: Node) {
    && y.read + y.sock.receiveQueue <= x.written
    && Unacked(x) <= Expected(y, x.base) <= Next(x)
    && IsTailOf(x.written[Received(y)..], x.sock.retransmitQueue)
    && |x.sock.retransmitQueue| <= WINDOW && |y.sock.receiveQueue| <= WINDOW
  }

  lemma HalfIsSafe(x: Node, y: Node, outbox: seq<Packet>, inbox: seq<Packet>)
    requires Half(x, y, outbox, inbox)
    ensures DirectionSafe(x, y)
  {
    TailOfBoth(x.written, x.sock.retransmitQueue, y.read + y.sock.receiveQueue, Received(y));
  }

  lemma TailOfBoth(w: seq<u8>, q: seq<u8>, got: seq<u8>, n: nat)
    requires IsTailOf(q, w) && |w| - |q| <= n <= |w| && got == w[..n]
    ensures got <= w && IsTailOf(w[n..], q)
  {
    assert q[|q| - (|w| - n)..] == w[n..];
  }

  /** END TO END: in every state reachable from a start, in each direction, the bytes read and
      waiting to be read are a prefix of the bytes written; SND.UNA <= received <= SND.NXT; the
      bytes not yet received are all still in the retransmit queue; and neither queue exceeds
      the largest window. */
  lemma EndToEnd(l: Link, turns: seq<Turn>, l': Link)
    requires Start(l) && Reaches(l, turns, l')
    ensures DirectionSafe(l'.a, l'.b) && DirectionSafe(l'.b, l'.a)
  {
    StartInv(l);
    ReachableKeeps(l, turns, l');
    HalfIsSafe(l'.a, l'.b, l'.toB, l'.toA);
    HalfIsSafe(l'.b, l'.a, l'.toA, l'.toB);
  }

  /** ... and from every such state every allowed step succeeds: no socket panics. */
  lemma NeverStuck(l: Link, turns: seq<Turn>, l': Link, t: Turn)
    requires Start(l) && Reaches(l, turns, l') && TurnAllowed(l', t)
    ensures TakeTurn(l', t).Some?
  {
    StartInv(l);
    ReachableKeeps(l, turns, l');
    TurnKeeps(l', t);
  }

  /** RIGHT EDGE: in every reachable state, acknowledgement plus window of whatever x sends is a
      constant plus the bytes its application has read; of two packets ever sent, the later
      one's edge is not to the left of the earlier one's; and the peer has never written beyond
      the edge, so the window field is exact. */
  lemma RightEdgeIsMonotone(l: Link, turns: seq<Turn>, l': Link, payload: seq<u8>, flags: u8, i: nat, j: nat)
    requires Start(l) && Reaches(l, turns, l')
    ensures var g := SendPacket(l'.b.sock, payload, flags);
            && Expected(l'.b, l'.a.base) + g.window == l'.a.base + WINDOW + |l'.b.read|
            && g.ackNum == Wrap(Expected(l'.b, l'.a.base))
            && g.window == WINDOW - |l'.b.sock.receiveQueue|
    ensures Next(l'.a) <= l'.a.base + WINDOW + |l'.b.read|
    ensures i <= j < |l'.toA| ==> Edge(l'.toA[i]) <= Edge(l'.toA[j]) <= l'.a.base + WINDOW + |l'.b.read|
  {
    StartInv(l);
    ReachableKeeps(l, turns, l');
    RightEdge(l'.b, l'.a, payload, flags);
    if i <= j < |l'.toA| {
      assert NotAfter(l'.toA[i], l'.toA[j]);
      assert OnWire(l'.toA[j], l'.b, l'.a);
    }
  }

  // ---------- the window record ----------

  /** Packet `k` may set the window if `from` is the last that did: it is the first ever to, or was
      not sent before that one, or carries the same numbers. */
  ghost predicate MaySet(inbox: seq<Packet>, k: nat, from: Option<nat>)
    requires k < |inbox|
  {
    match from
    case None => true
    case Some(j) => j <= k || (j < |inbox| && inbox[k].position == inbox[j].position && inbox[k].ack == inbox[j].ack)
  }

  /** WINDOW UPDATES: a fresh packet sets the window if and only if it is the first to do so, was not
      sent before the one that last did, or carries the same sequence and acknowledgement numbers;
      the recorded pair of positions never decreases. */
  lemma WindowUpdateIffNotOlder(x: Node, y: Node, outbox: seq<Packet>, inbox: seq<Packet>, k: nat)
    requires Half(x, y, outbox, inbox) && Half(y, x, inbox, outbox)
    requires k < |inbox| && Fresh(inbox[k], x, y)
    ensures NodeDeliver(x, y.base, inbox, k).Some?
    ensures var x' := NodeDeliver(x, y.base, inbox, k).value.0;
            && x'.windowFrom == (if MaySet(inbox, k, x.windowFrom) then Some(k) else x.windowFrom)
            && x'.windowFrom.Some? && x'.windowFrom.value < |inbox|
            && x'.sock.sendWindow == inbox[x'.windowFrom.value].segment.window
            && WindowPosition(x, y, inbox) <= WindowPosition(x', y, inbox)
            && Unacked(x) <= Unacked(x')
  {
    var p := inbox[k];
    assert OnWire(p, y, x);
    DeliverKeeps(x, y, outbox, inbox, k);
    DeliverInTwo(x, y.base, inbox, k);
    DataLeavesPositions(x, y, inbox, p.segment);
    FreshIsNear(x, y, outbox, inbox, k);
    SetsWindowByPosition(x, y, inbox, p);
    MaySetIffNewer(x, y, inbox, k);
    ReceiveDataLeaves(Noticed(x.sock, p.segment), p.segment);
    TrimSees(x.sock, TookData(x, p.segment).sock, p.segment);
    NewerWindowPosition(x, y, inbox, k);
  }

  /** The condition, by positions. */
  lemma MaySetIffNewer(x: Node, y: Node, inbox: seq<Packet>, k: nat)
    requires WindowOk(x, y, inbox) && SentInOrder(inbox) && k < |inbox| && LabelOk(inbox[k], y, x)
    ensures MaySet(inbox, k, x.windowFrom)
            <==> Unacked(x) <= inbox[k].ack && WindowPosition(x, y, inbox) <= inbox[k].position
  {
    if x.windowFrom.Some? {
      var j := x.windowFrom.value;
      assert NotAfter(inbox[Min(j, k)], inbox[Max(j, k)]);
    }
  }

  lemma NewerWindowPosition(x: Node, y: Node, inbox: seq<Packet>, k: nat)
    requires k < |inbox| && NodeDeliver(x, y.base, inbox, k).Some?
    ensures var x' := NodeDeliver(x, y.base, inbox, k).value.0;
            x'.windowFrom == x.windowFrom || x'.windowFrom == Some(k)
  {}

  // ---------- retransmission ----------

  /** RETRANSMISSION: the code labels a retransmitted packet with SND.NXT although its payload
      starts at SND.UNA.  The packet is a piece of the stream at its own label if and only if
      there was nothing to retransmit. */
  lemma RetransmitFaithfulIffQueueEmpty(x: Node, y: Node, outbox: seq<Packet>, inbox: seq<Packet>)
    requires Half(x, y, outbox, inbox) && Half(y, x, inbox, outbox) && x.sock.sendMss > 0
    ensures var (x', sent) := NodeRetransmit(x, y.base);
            (forall i :: 0 <= i < |sent| ==> PacketOk(sent[i], x', y)) <==> x.sock.retransmitQueue == []
  {
    var (x', sent) := NodeRetransmit(x, y.base);
    if x.sock.retransmitQueue != [] {
      assert |sent| == 1 && |sent[0].segment.payload| > 0 && sent[0].position == Next(x');
      assert !PacketOk(sent[0], x', y);
    }
  }

  /** What the code sends again is nevertheless the head of what is unacknowledged. */
  lemma RetransmitPayload(x: Node, y: Node)
    requires SendOk(x) && x.sock.retransmitQueue != []
    ensures var sent := NodeRetransmit(x, y.base).1;
            && |sent| == 1
            && IsPiece(x.written, x.base, Unacked(x), sent[0].segment.payload)
            && |sent[0].segment.payload| == Min(|x.sock.retransmitQueue|, x.sock.sendMss)
  {
    var q := x.sock.retransmitQueue;
    var n := Min(|q|, x.sock.sendMss);
    assert q[..n] == Piece(x.written, x.base, Unacked(x), Unacked(x) + n);
  }

  lemma PrefixHasPiece(w: seq<u8>, base: int, got: seq<u8>, out: seq<u8>, payload: seq<u8>)
    requires got + out <= w && payload <= out
    ensures IsPiece(w, base, base + |got|, payload)
  {
    assert forall i :: 0 <= i < |payload| ==> w[|got| + i] == (got + out)[|got| + i] == payload[i];
  }

  /** Data at the position awaited comes out at once, and first. */
  lemma AwaitedComesOut(s: Sock, g: Segment) returns (out: seq<u8>)
    requires g.payload != [] && g.seqNum == s.reassembler.nextSequence
    ensures ReceiveData(s, g).0.receiveQueue == s.receiveQueue + out && g.payload <= out
  {
    var r := s.reassembler.(nextSequence := WrappingAdd(g.seqNum, |g.payload|));
    DrainExtends(r, g.seqNum, g.payload, 0);
    out := Drain(r, g.seqNum, g.payload, 0).1;
  }

  lemma AckTaken(x: Node, y: Node, outbox: seq<Packet>, inbox: seq<Packet>, k: nat)
    requires Half(x, y, outbox, inbox) && Half(y, x, inbox, outbox)
    requires k < |inbox| && inbox[k].ack > Unacked(x) - MAX_AGE
    ensures var g := inbox[k].segment;
            && IsTransfer(g) && NodeDeliver(x, y.base, inbox, k).Some?
            && var x', t := NodeDeliver(x, y.base, inbox, k).value.0, TookData(x, g);
               x'.read == t.read && x'.sock.receiveQueue == t.sock.receiveQueue
  {
    var p := inbox[k];
    var t := TookData(x, p.segment);
    assert OnWire(p, y, x);
    TookDataLeaves(x, p.segment);
    SameSending(x, t, y, inbox);
    AckRaisesUnacked(t, p.ack);
    TransferFlags(p.segment);
    TookAckIs(t, k, p.segment);
    TookAckLeaves(t, k, p.segment);
    DeliverInTwo(x, y.base, inbox, k);
  }

  lemma AwaitedIsFaithful(x: Node, y: Node, p: Packet, got: seq<u8>)
    requires p.segment.payload != [] && p.segment.seqNum == x.sock.reassembler.nextSequence
    requires p.position == Expected(x, y.base)
    requires got == TookData(x, p.segment).read + TookData(x, p.segment).sock.receiveQueue && got <= y.written
    ensures Faithful(p, y)
  {
    var out := AwaitedComesOut(Noticed(x.sock, p.segment), p.segment);
    assert x.read + (x.sock.receiveQueue + out) == x.read + x.sock.receiveQueue + out;
    PrefixHasPiece(y.written, y.base, x.read + x.sock.receiveQueue, out, p.segment.payload);
  }

  lemma DeliverPrefix(x: Node, y: Node, outbox: seq<Packet>, inbox: seq<Packet>, k: nat, x': Node)
    requires Half(x, y, outbox, inbox) && Half(y, x, inbox, outbox) && k < |inbox| && Fresh(inbox[k], x, y)
    requires NodeDeliver(x, y.base, inbox, k).Some? && x' == NodeDeliver(x, y.base, inbox, k).value.0
    ensures x'.read + x'.sock.receiveQueue <= y.written
  {
    DeliverKeeps(x, y, outbox, inbox, k);
  }

  /** ... AND ONLY THEN: data at the position awaited keeps what has been received a prefix of what
      has been written if and only if its payload is what was written there. */
  lemma AwaitedSafeIff(x: Node, y: Node, outbox: seq<Packet>, inbox: seq<Packet>, k: nat)
    requires Half(x, y, outbox, inbox) && Half(y, x, inbox, outbox)
    requires k < |inbox| && inbox[k].segment.payload != []
    requires inbox[k].position == Expected(x, y.base) && inbox[k].ack > Unacked(x) - MAX_AGE
    ensures NodeDeliver(x, y.base, inbox, k).Some?
    ensures var x' := NodeDeliver(x, y.base, inbox, k).value.0;
            x'.read + x'.sock.receiveQueue <= y.written <==> Faithful(inbox[k], y)
  {
    var p := inbox[k];
    assert OnWire(p, y, x);
    AckTaken(x, y, outbox, inbox, k);
    var x' := NodeDeliver(x, y.base, inbox, k).value.0;
    if Faithful(p, y) { DeliverPrefix(x, y, outbox, inbox, k, x'); }
    if x'.read + x'.sock.receiveQueue <= y.written { AwaitedIsFaithful(x, y, p, x'.read + x'.sock.receiveQueue); }
  }

  lemma QuietData(s: Sock, g: Segment, r: Reassembly, got: Option<seq<u8>>)
    requires s.state.Established? && s.numDelayedAcks + 1 < MAX_DELAYED_ACKS && !HasFin(g.flags)
    requires g.payload != [] && Add(s.reassembler, g.payload, g.seqNum) == (r, got)
    ensures var (s', sent) := ReceiveData(s, g);
            && sent == [] && s'.numDelayedAcks == s.numDelayedAcks + 1 && s'.reassembler == r
            && s'.receiveQueue == (if got.Some? then s.receiveQueue + got.value else s.receiveQueue)
  {}

  /** An acknowledgement of nothing new changes at most the window. */
  lemma QuietAck(s: Sock, g: Segment)
    requires s.state.Established? && g.ackNum == s.sendUnacked
    ensures ProcessAck(s, g).Some?
    ensures var s' := ProcessAck(s, g).value;
            s' == s.(sendWindow := s'.sendWindow, sendLastWinSeq := s'.sendLastWinSeq, sendLastWinAck := s'.sendLastWinAck)
  {
    assert !SeqLt(s.sendUnacked, g.ackNum);
    UpdateWindowLeaves(s, g);
  }

  /** Data delivered to an established socket that owes no immediate acknowledgement. */
  lemma QuietDelivery(x: Node, peerBase: int, inbox: seq<Packet>, k: nat, r: Reassembly, got: Option<seq<u8>>)
    requires k < |inbox| && x.sock.state.Established? && x.sock.numDelayedAcks + 1 < MAX_DELAYED_ACKS
    requires var g := inbox[k].segment;
             && IsTransfer(g) && g.payload != [] && g.ackNum == x.sock.sendUnacked
             && Add(x.sock.reassembler, g.payload, g.seqNum) == (r, got)
    ensures NodeDeliver(x, peerBase, inbox, k).Some?
    ensures var (x', sent) := NodeDeliver(x, peerBase, inbox, k).value;
            && sent == []
            && x'.sock.state.Established? && x'.sock.numDelayedAcks == x.sock.numDelayedAcks + 1
            && x'.sock.sendUnacked == x.sock.sendUnacked && x'.sock.reassembler == r
            && x'.sock.receiveQueue == (if got.Some? then x.sock.receiveQueue + got.value else x.sock.receiveQueue)
  {
    var g := inbox[k].segment;
    TransferFlags(g);
    ReceiveDataLeaves(Noticed(x.sock, g), g);
    QuietData(Noticed(x.sock, g), g, r, got);
    QuietAck(TookData(x, g).sock, g);
    DeliverInTwo(x, peerBase, inbox, k);
  }

  /** A node that has just connected, both streams starting at position 1. */
  function IdleNode(): Node { Node(Idle(), 1, [], [], None) }

  /** Byte 7 at position 1, and the same byte as the code sends it again. */
  function OriginalPacket(): Packet { Packet(1, 1, Segment(1, 1, FLAG_ACK + FLAG_PSH, 0xffff, 0, [7]), false) }

  function MislabelledPacket(): Packet { Packet(2, 1, Segment(2, 1, FLAG_ACK + FLAG_PSH, 0xffff, 0, [7]), true) }

  /** A single byte goes out as it is. */
  lemma WriteOne(s: Sock, b: u8)
    requires s.sendMss > 0
    ensures PacketLength(s, [b]) == 1
    ensures WritePacket(s, [b]) ==
              (s.(sendNextSeq := WrappingAdd(s.sendNextSeq, 1), retransmitQueue := s.retransmitQueue + [b],
                  retransmitArmed := true),
               SendPacket(s, [b], FLAG_ACK + FLAG_PSH))
  {
    assert [b][..1] == [b];
  }

  lemma WritesByte()
    ensures var (x, sent) := NodeWrite(IdleNode(), 1, [7]);
            && sent == [OriginalPacket()] && x.written == [7] && x.base == 1
            && x.sock == Idle().(sendNextSeq := 2, retransmitQueue := [7], retransmitArmed := true)
  {
    var x := IdleNode();
    WriteOne(x.sock, 7);
    OpenAtStart(x.sock);
    SendPacketAtStart(x.sock);
    assert [7][..1] == [7] && [] + [7] == [7];
    StampOne(x, 1, OriginalPacket().segment, false);
  }

  lemma OpenAtStart(s: Sock)
    requires s == Idle()
    ensures WindowOpen(s, [7]) && WrappingAdd(s.sendNextSeq, 1) == 2
  {}

  lemma SendPacketAtStart(s: Sock)
    requires s == Idle()
    ensures SendPacket(s, [7], FLAG_ACK + FLAG_PSH) == OriginalPacket().segment
  {}

  lemma SendsByteAgain(x: Node)
    requires x.base == 1 && x.written == [7] && x.read == []
    requires x.sock == Idle().(sendNextSeq := 2, retransmitQueue := [7], retransmitArmed := true)
    ensures NodeRetransmit(x, 1) == (x, [MislabelledPacket()])
  {
    assert [7][..1] == [7];
    assert SendPacket(x.sock, [7], FLAG_ACK + FLAG_PSH) == MislabelledPacket().segment;
    StampOne(x, 1, MislabelledPacket().segment, true);
  }

  lemma StoresMislabelled(inbox: seq<Packet>)
    requires inbox == [OriginalPacket(), MislabelledPacket()]
    ensures NodeDeliver(IdleNode(), 1, inbox, 1).Some?
    ensures var (x, sent) := NodeDeliver(IdleNode(), 1, inbox, 1).value;
            && sent == [] && x.sock.state.Established? && x.sock.numDelayedAcks == 1 && x.sock.sendUnacked == 1
            && x.sock.receiveQueue == [] && x.sock.reassembler == Reassembly(1, [Entry(2, [7])])
  {
    assert [] + [Entry(2, [7])] == [Entry(2, [7])];
    assert Add(Reassembly(1, []), [7], 2) == (Reassembly(1, [] + [Entry(2, [7])]), None);
    QuietDelivery(IdleNode(), 1, inbox, 1, Reassembly(1, [Entry(2, [7])]), None);
  }

  /** One stored segment that is due comes out behind the one that was in order. */
  lemma DrainsOne(n: u32, due: u32, data: seq<u8>, early: seq<u8>)
    requires due == WrappingAdd(n, |data|) && !SeqGt(n, due)
    ensures Add(Reassembly(n, [Entry(due, early)]), data, n)
            == (Reassembly(WrappingAdd(due, |early|), []), Some(data + early))
  {
    DrainsDue(n, due, data, early);
    DrainsNothing(Reassembly(WrappingAdd(due, |early|), []), n, data + early);
  }

  lemma DrainsDue(n: u32, due: u32, data: seq<u8>, early: seq<u8>)
    requires !SeqGt(n, due)
    ensures Drain(Reassembly(due, [Entry(due, early)]), n, data, 0)
            == Drain(Reassembly(WrappingAdd(due, |early|), []), n, data + early, 0)
  {
    assert Without([Entry(due, early)], 0) == [];
  }

  lemma DrainsNothing(r: Reassembly, n: u32, data: seq<u8>)
    requires r.outOfOrder == []
    ensures Drain(r, n, data, 0) == (r, data)
  {}

  lemma DeliversTwice(x: Node, inbox: seq<Packet>)
    requires inbox == [OriginalPacket(), MislabelledPacket()]
    requires x.sock.state.Established? && x.sock.numDelayedAcks == 1 && x.sock.sendUnacked == 1
    requires x.sock.receiveQueue == [] && x.sock.reassembler == Reassembly(1, [Entry(2, [7])])
    ensures NodeDeliver(x, 1, inbox, 0).Some?
    ensures var (x', sent) := NodeDeliver(x, 1, inbox, 0).value; x'.sock.receiveQueue == [7, 7]
  {
    DrainsOne(1, 2, [7], [7]);
    QuietDelivery(x, 1, inbox, 0, Reassembly(3, []), Some([7] + [7]));
    assert [] + ([7] + [7]) == [7, 7];
  }

  lemma StartsConnected()
    ensures Start(Link(IdleNode(), IdleNode(), [], []))
  {}

  lemma TurnOfB(l: Link, k: nat)
    requires k < |l.toB| && NodeDeliver(l.b, l.a.base, l.toB, k).Some?
    ensures var (b, sent) := NodeDeliver(l.b, l.a.base, l.toB, k).value;
            TakeTurn(l, Turn(false, Deliver(k))) == Some(l.(b := b, toA := l.toA + sent))
  {}

  lemma SenderTurns() returns (l0: Link, l1: Link, l2: Link)
    ensures Start(l0)
    ensures TakeTurn(l0, Turn(true, Write([7]))) == Some(l1)
    ensures TakeTurn(l1, Turn(true, Retransmit)) == Some(l2)
    ensures l2.toB == [OriginalPacket(), MislabelledPacket()]
    ensures l2.b == IdleNode() && l2.a.base == 1 && l2.a.written == [7]
  {
    var n := IdleNode();
    l0 := Link(n, n, [], []);
    StartsConnected();
    WritesByte();
    l1 := l0.(a := NodeWrite(n, 1, [7]).0, toB := [] + [OriginalPacket()]);
    SendsByteAgain(l1.a);
    l2 := l1.(toB := l1.toB + [MislabelledPacket()]);
  }

  lemma ReceiverTurns(l2: Link) returns (l3: Link, l4: Link)
    requires l2.toB == [OriginalPacket(), MislabelledPacket()]
    requires l2.b == IdleNode() && l2.a.base == 1
    ensures TakeTurn(l2, Turn(false, Deliver(1))) == Some(l3) && |l3.toB| == 2
    ensures TakeTurn(l3, Turn(false, Deliver(0))) == Some(l4)
    ensures l4.a == l2.a && l4.b.sock.receiveQueue == [7, 7]
  {
    StoresMislabelled(l2.toB);
    TurnOfB(l2, 1);
    l3 := l2.(b := NodeDeliver(l2.b, 1, l2.toB, 1).value.0, toA := l2.toA + []);
    DeliversTwice(l3.b, l3.toB);
    TurnOfB(l3, 0);
    var (b, sent) := NodeDeliver(l3.b, 1, l3.toB, 0).value;
    l4 := l3.(b := b, toA := l3.toA + sent);
  }

  /** Without that condition the end-to-end property is false: one byte is written, its packet is
      delayed, the timer fires, and the two packets arrive in the opposite order.  The peer then
      holds two bytes where one was written. */
  lemma RetransmitCanCorrupt() returns (l0: Link, l1: Link, l2: Link, l3: Link, l4: Link)
    ensures Start(l0)
    ensures TakeTurn(l0, Turn(true, Write([7]))) == Some(l1)
    ensures TakeTurn(l1, Turn(true, Retransmit)) == Some(l2) && |l2.toB| == 2
    ensures TakeTurn(l2, Turn(false, Deliver(1))) == Some(l3) && |l3.toB| == 2
    ensures TakeTurn(l3, Turn(false, Deliver(0))) == Some(l4)
    ensures l4.a.written == [7] && l4.b.sock.receiveQueue == [7, 7]
  {
    l0, l1, l2 := SenderTurns();
    l3, l4 := ReceiverTurns(l2);
  }

  // ---------- equal numbers ----------

  lemma TurnOfA(l: Link, k: nat)
    requires k < |l.toA| && NodeDeliver(l.a, l.b.base, l.toA, k).Some?
    ensures var (a, sent) := NodeDeliver(l.a, l.b.base, l.toA, k).value;
            TakeTurn(l, Turn(true, Deliver(k))) == Some(l.(a := a, toB := l.toB + sent))
  {}

  /** The receiver takes the byte in ... */
  lemma TakesByte(inbox: seq<Packet>)
    requires inbox == [OriginalPacket()]
    ensures NodeDeliver(IdleNode(), 1, inbox, 0).Some?
    ensures var (x, sent) := NodeDeliver(IdleNode(), 1, inbox, 0).value;
            && sent == [] && x.sock.state.Established? && x.sock.receiveQueue == [7] && x.sock.reassembler == Reassembly(2, [])
            && x.base == 1 && x.written == [] && x.read == [] && x.sock.sendNextSeq == 1
  {
    DrainsNothing(Reassembly(2, []), 1, [7]);
    assert Add(Reassembly(1, []), [7], 1) == (Reassembly(2, []), Some([7]));
    QuietDelivery(IdleNode(), 1, inbox, 0, Reassembly(2, []), Some([7]));
    DeliverInTwo(IdleNode(), 1, inbox, 0);
    assert [] + [7] == [7];
    SameNext(inbox);
  }

  lemma SameNext(inbox: seq<Packet>)
    requires inbox == [OriginalPacket()] && TookAck(TookData(IdleNode(), inbox[0].segment), 0, inbox[0].segment).Some?
    ensures var x := TookAck(TookData(IdleNode(), inbox[0].segment), 0, inbox[0].segment).value;
            x.base == 1 && x.written == [] && x.read == [] && x.sock.sendNextSeq == 1
  {
    ReceiveDataLeaves(Noticed(Idle(), inbox[0].segment), inbox[0].segment);
    QuietAck(TookData(IdleNode(), inbox[0].segment).sock, inbox[0].segment);
  }

  /** An acknowledgement that offers `window`. */
  function AckOffering(window: u16): Packet { Packet(1, 2, Segment(1, 2, FLAG_ACK, window, 0, []), false) }

  /** A receiver of one byte, read or not. */
  ghost predicate HasByte(x: Node, read: seq<u8>, waiting: seq<u8>) {
    && x.sock.state.Established? && x.base == 1 && x.written == [] && x.read == read && x.sock.sendNextSeq == 1
    && x.sock.receiveQueue == waiting && x.sock.reassembler == Reassembly(2, [])
  }

  /** ... acknowledges it, reads it, and acknowledges it again. */
  lemma AcksByte(x: Node, read: seq<u8>, waiting: seq<u8>)
    requires HasByte(x, read, waiting) && |read| + |waiting| == 1
    ensures var (x', sent) := NodeAck(x, 1);
            sent == [AckOffering(0xffff - |waiting|)] && HasByte(x', read, waiting)
  {
    NodeAckIs(x, 1);
  }

  lemma ReadsByte(x: Node)
    requires HasByte(x, [], [7])
    ensures var (x', sent) := NodeRead(x, 1); sent == [] && HasByte(x', [7], [])
  {
    assert [7][1..] == [] && [7][..1] == [7] && [] + [7] == [7];
  }

  lemma WriteTurn() returns (l0: Link, l1: Link)
    ensures Start(l0) && Reaches(l0, [Turn(true, Write([7]))], l1)
    ensures l1.toB == [OriginalPacket()] && l1.b == IdleNode() && l1.toA == [] && l1.a.base == 1 && l1.a.windowFrom == None
  {
    var n := IdleNode();
    l0 := Link(n, n, [], []);
    StartsConnected();
    WritesByte();
    l1 := l0.(a := NodeWrite(n, 1, [7]).0, toB := [] + [OriginalPacket()]);
    ReachesOn(l0, [], l0, Turn(true, Write([7])), l1, [Turn(true, Write([7]))]);
  }

  lemma DeliverTurn(l0: Link, turns: seq<Turn>, l: Link) returns (l': Link)
    requires Reaches(l0, turns, l)
    requires l.toB == [OriginalPacket()] && l.b == IdleNode() && l.a.base == 1 && l.toA == []
    ensures Reaches(l0, turns + [Turn(false, Deliver(0))], l')
    ensures l' == l.(b := l'.b) && HasByte(l'.b, [], [7])
  {
    l' := DeliverByte(l);
    FirstCopyIsFresh(l);
    ReachesOn(l0, turns, l, Turn(false, Deliver(0)), l', turns + [Turn(false, Deliver(0))]);
  }

  lemma DeliverByte(l: Link) returns (l': Link)
    requires l.toB == [OriginalPacket()] && l.b == IdleNode() && l.a.base == 1 && l.toA == []
    ensures TakeTurn(l, Turn(false, Deliver(0))) == Some(l')
    ensures l' == l.(b := l'.b) && HasByte(l'.b, [], [7])
  {
    TakesByte(l.toB);
    TurnOfB(l, 0);
    l' := l.(b := NodeDeliver(l.b, 1, l.toB, 0).value.0, toA := [] + []);
  }

  lemma FirstCopyIsFresh(l: Link)
    requires l.toB == [OriginalPacket()] && l.b == IdleNode() && l.a.base == 1
    ensures TurnAllowed(l, Turn(false, Deliver(0)))
  {}

  lemma AckTurn(l0: Link, turns: seq<Turn>, l: Link, read: seq<u8>, waiting: seq<u8>) returns (l': Link)
    requires Reaches(l0, turns, l)
    requires l.a.base == 1 && HasByte(l.b, read, waiting) && |read| + |waiting| == 1
    ensures Reaches(l0, turns + [Turn(false, Ack)], l')
    ensures l' == l.(b := l'.b, toA := l.toA + [AckOffering(0xffff - |waiting|)]) && HasByte(l'.b, read, waiting)
  {
    AcksByte(l.b, read, waiting);
    l' := l.(b := NodeAck(l.b, 1).0, toA := l.toA + [AckOffering(0xffff - |waiting|)]);
    ReachesOn(l0, turns, l, Turn(false, Ack), l', turns + [Turn(false, Ack)]);
  }

  lemma ReadTurn(l0: Link, turns: seq<Turn>, l: Link) returns (l': Link)
    requires Reaches(l0, turns, l) && HasByte(l.b, [], [7])
    ensures Reaches(l0, turns + [Turn(false, Read(1))], l')
    ensures l' == l.(b := l'.b) && HasByte(l'.b, [7], [])
  {
    ReadsByte(l.b);
    l' := l.(b := NodeRead(l.b, 1).0);
    assert l.toA + [] == l.toA;
    ReachesOn(l0, turns, l, Turn(false, Read(1)), l', turns + [Turn(false, Read(1))]);
  }

  /** An acknowledgement arrives, and may set the window. */
  lemma AckArrives(l0: Link, turns: seq<Turn>, l: Link, k: nat) returns (l': Link)
    requires Inv(l) && k < |l.toA| && Fresh(l.toA[k], l.a, l.b) && MaySet(l.toA, k, l.a.windowFrom)
    requires Reaches(l0, turns, l)
    ensures Reaches(l0, turns + [Turn(true, Deliver(k))], l') && Inv(l')
    ensures l'.toA == l.toA && l'.b == l.b && l'.a.base == l.a.base
    ensures l'.a.windowFrom == Some(k) && l'.a.sock.sendWindow == l.toA[k].segment.window
  {
    WindowUpdateIffNotOlder(l.a, l.b, l.toB, l.toA, k);
    TurnOfA(l, k);
    TurnKeeps(l, Turn(true, Deliver(k)));
    l' := TakeTurn(l, Turn(true, Deliver(k))).value;
    BaseStays(l.a, l.b.base, l.toA, k);
    ReachesOn(l0, turns, l, Turn(true, Deliver(k)), l', turns + [Turn(true, Deliver(k))]);
  }

  lemma BaseStays(x: Node, peerBase: int, inbox: seq<Packet>, k: nat)
    requires k < |inbox| && NodeDeliver(x, peerBase, inbox, k).Some?
    ensures NodeDeliver(x, peerBase, inbox, k).value.0.base == x.base
  {}

  lemma AcksAreFresh(l: Link, p: Packet)
    requires Inv(l) && HasByte(l.b, [7], []) && l.a.base == 1 && !p.resent && p.position == 1 && p.ack == 2
    ensures Fresh(p, l.a, l.b)
  {}

  /** The turns of the receiver that has the byte. */
  lemma TwoAcks(l0: Link, turns: seq<Turn>, l2: Link) returns (l5: Link)
    requires Reaches(l0, turns, l2) && HasByte(l2.b, [], [7]) && l2.toA == [] && l2.a.base == 1
    ensures Reaches(l0, turns + [Turn(false, Ack)] + [Turn(false, Read(1))] + [Turn(false, Ack)], l5)
    ensures l5.toA == [AckOffering(0xfffe), AckOffering(0xffff)] && HasByte(l5.b, [7], []) && l5.a == l2.a
  {
    var l3 := AckTurn(l0, turns, l2, [], [7]);
    var l4 := ReadTurn(l0, turns + [Turn(false, Ack)], l3);
    l5 := AckTurn(l0, turns + [Turn(false, Ack)] + [Turn(false, Read(1))], l4, [7], []);
    assert [] + [AckOffering(0xfffe)] + [AckOffering(0xffff)] == [AckOffering(0xfffe), AckOffering(0xffff)];
  }

  /** The older one arrives last. */
  lemma OlderWins(l0: Link, turns: seq<Turn>, l5: Link) returns (l6: Link, l7: Link)
    requires Inv(l5) && HasByte(l5.b, [7], []) && l5.a.base == 1 && l5.a.windowFrom == None
    requires l5.toA == [AckOffering(0xfffe), AckOffering(0xffff)] && Reaches(l0, turns, l5)
    ensures Reaches(l0, turns + [Turn(true, Deliver(1))], l6) && l6.a.sock.sendWindow == 0xffff
    ensures Reaches(l0, turns + [Turn(true, Deliver(1))] + [Turn(true, Deliver(0))], l7) && l7.a.sock.sendWindow == 0xfffe
  {
    AcksAreFresh(l5, l5.toA[1]);
    l6 := AckArrives(l0, turns, l5, 1);
    AcksAreFresh(l6, l6.toA[0]);
    l7 := AckArrives(l0, turns + [Turn(true, Deliver(1))], l6, 0);
  }

  /** What leads to the two acknowledgements. */
  function TurnsToAcks(): seq<Turn> {
    [Turn(true, Write([7]))] + [Turn(false, Deliver(0))]
    + [Turn(false, Ack)] + [Turn(false, Read(1))] + [Turn(false, Ack)]
  }

  /** EQUAL NUMBERS: the exception for equal numbers is reached.  A byte is acknowledged, read, and
      acknowledged again, so that two acknowledgements differ in the window alone.  They arrive in
      the opposite order, and the one that was sent first wins. */
  lemma EqualNumbersLastArrivalWins() returns (l0: Link, l5: Link, l6: Link, l7: Link)
    ensures Start(l0) && Reaches(l0, TurnsToAcks(), l5) && l5.toA == [AckOffering(0xfffe), AckOffering(0xffff)]
    ensures Reaches(l0, TurnsToAcks() + [Turn(true, Deliver(1))], l6) && l6.a.sock.sendWindow == 0xffff
    ensures Reaches(l0, TurnsToAcks() + [Turn(true, Deliver(1))] + [Turn(true, Deliver(0))], l7)
    ensures l7.a.sock.sendWindow == 0xfffe
  {
    var l1;
    l0, l1 := WriteTurn();
    var l2 := DeliverTurn(l0, [Turn(true, Write([7]))], l1);
    l5 := TwoAcks(l0, [Turn(true, Write([7]))] + [Turn(false, Deliver(0))], l2);
    StartInv(l0);
    ReachableKeeps(l0, TurnsToAcks(), l5);
    l6, l7 := OlderWins(l0, TurnsToAcks(), l5);
  }
}
