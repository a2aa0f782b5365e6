/** When everything written has been received.

    The packets that carry data, as tcp_write sent them, divide the stream; the receiver's
    reassembler has been fed those that were delivered.  So what has been received can be read off
    from which of them have been.
  */
module Completeness {
  import opened Words
  import opened Reassembler
  import opened Socket
  import opened Transfer
  import O = Overlaps

  // ---------- what has been delivered ----------

  /** The data a packet carries, if any. */
  function PayloadOf(p: Packet): seq<Arrival> {
    if p.segment.payload == [] then [] else [Arrival(p.position, p.segment.payload)]
  }

  /** The data among the packets of the wire numbered in `ks`. */
  function Data(wire: seq<Packet>, ks: seq<nat>): (r: seq<Arrival>)
    requires forall i :: 0 <= i < |ks| ==> ks[i] < |wire|
    ensures O.NonEmptyArrivals(r)
    decreases |ks|
  {
    if ks == [] then []
    else
      var n := |ks| - 1;
      Data(wire, ks[..n]) + PayloadOf(wire[ks[n]])
  }

  ghost predicate OnThe(wire: seq<Packet>, ks: seq<nat>) {
    forall i :: 0 <= i < |ks| ==> ks[i] < |wire|
  }

  function Feeding(x: Node, arrivals: seq<Arrival>): Run { Run(x.written, x.base, arrivals, WINDOW, WINDOW) }

  /** The receiver's reassembler stands where the run of `arrivals` leads. */
  ghost predicate FedBy(x: Node, y: Node, arrivals: seq<Arrival>) {
    var run, n := Feeding(x, arrivals), |arrivals|;
    && AdmissibleRun(run, n) && Feed(run, n).0 == y.sock.reassembler && Delivered(run, n) == Expected(y, x.base)
  }

  /** The same arrivals feed the same into a longer stream. */
  lemma {:induction false} FeedSame(run: Run, run': Run, n: nat)
    requires n <= |run.arrivals| && n <= |run'.arrivals| && run.base == run'.base
    requires forall i :: 0 <= i < n ==> run.arrivals[i] == run'.arrivals[i]
    ensures Feed(run, n) == Feed(run', n)
    decreases n
  {
    if n > 0 {
      FeedSame(run, run', n - 1);
    }
  }

  lemma PieceOfMore(s: seq<u8>, more: seq<u8>, base: int, from: int, data: seq<u8>)
    requires IsPiece(s, base, from, data)
    ensures IsPiece(s + more, base, from, data)
  {}

  lemma {:induction false} AdmissibleMore(run: Run, run': Run, more: seq<u8>, n: nat)
    requires n <= |run.arrivals| && n <= |run'.arrivals|
    requires forall i :: 0 <= i < n ==> run.arrivals[i] == run'.arrivals[i]
    requires run' == run.(s := run.s + more, arrivals := run'.arrivals) && AdmissibleRun(run, n)
    ensures AdmissibleRun(run', n)
    decreases n
  {
    if n > 0 {
      AdmissibleMore(run, run', more, n - 1);
      FeedSame(run, run', n - 1);
      PieceOfMore(run.s, more, run.base, run.arrivals[n - 1].position, run.arrivals[n - 1].data);
    }
  }

  /** The sender writes more. */
  lemma FedWhenWritten(x: Node, x': Node, y: Node, arrivals: seq<Arrival>)
    requires FedBy(x, y, arrivals) && x'.base == x.base && x.written <= x'.written
    ensures FedBy(x', y, arrivals)
  {
    var run, run', n := Feeding(x, arrivals), Feeding(x', arrivals), |arrivals|;
    var more := x'.written[|x.written|..];
    assert x'.written == x.written + more;
    AdmissibleMore(run, run', more, n);
    FeedSame(run, run', n);
  }

  /** One more arrival. */
  lemma FedOneMore(x: Node, y: Node, arrivals: seq<Arrival>, a: Arrival, y': Node, out: Option<seq<u8>>)
    requires FedBy(x, y, arrivals) && Admissible(a, x.written, x.base, Expected(y, x.base), WINDOW, WINDOW)
    requires Add(y.sock.reassembler, a.data, Wrap(a.position)) == (y'.sock.reassembler, out)
    requires Received(y') == Received(y) + OutLength(out)
    ensures FedBy(x, y', arrivals + [a])
  {
    var run, run', n := Feeding(x, arrivals), Feeding(x, arrivals + [a]), |arrivals|;
    assert x.written + [] == x.written;
    AdmissibleMore(run, run', [], n);
    FeedSame(run, run', n);
  }

  // ---------- what the steps of an endpoint send ----------

  /** Data as tcp_write sent it. */
  predicate IsData(p: Packet) { !p.resent && p.segment.payload != [] }

  ghost predicate NoData(sent: seq<Packet>) {
    forall i :: 0 <= i < |sent| ==> !IsData(sent[i])
  }

  /** From `x` to `x'` either nothing is written and no data is sent, or the one packet sent holds what
      is written. */
  ghost predicate SendsWritten(x: Node, x': Node, sent: seq<Packet>) {
    x'.base == x.base &&
    (|| (x'.written == x.written && NoData(sent))
     || (&& |sent| == 1 && IsData(sent[0]) && sent[0].position == Next(x)
         && x'.written == x.written + sent[0].segment.payload))
  }

  lemma WriteSends(x: Node, peerBase: int, data: seq<u8>)
    ensures var (x', sent) := NodeWrite(x, peerBase, data); SendsWritten(x, x', sent)
  {
    if data != [] && WindowOpen(x.sock, data) && PacketLength(x.sock, data) == 0 {
      assert x.written + [] == x.written;
    }
  }

  lemma DeliverSends(x: Node, peerBase: int, inbox: seq<Packet>, k: nat, x': Node, sent: seq<Packet>)
    requires k < |inbox| && x.sock.state.Established? && IsTransfer(inbox[k].segment)
    requires NodeDeliver(x, peerBase, inbox, k) == Some((x', sent))
    ensures SendsWritten(x, x', sent)
  {
    DeliverInTwo(x, peerBase, inbox, k);
    DataAcksAre(x, peerBase, inbox[k].segment);
    TookDataLeaves(x, inbox[k].segment);
    TookAckLeaves(TookData(x, inbox[k].segment), k, inbox[k].segment);
  }

  lemma StepSends(x: Node, y: Node, outbox: seq<Packet>, inbox: seq<Packet>, step: Step, x': Node, sent: seq<Packet>)
    requires Half(x, y, outbox, inbox) && Half(y, x, inbox, outbox) && StepAllowed(x, y, inbox, step)
    requires NodeStep(x, y.base, inbox, step) == Some((x', sent))
    ensures SendsWritten(x, x', sent)
  {
    match step
    case Write(data) => WriteSends(x, y.base, data);
    case Deliver(k) =>
      assert OnWire(inbox[k], y, x);
      DeliverSends(x, y.base, inbox, k, x', sent);
    case Read(_) | Ack | Retransmit =>
  }

  // ---------- what they receive ----------

  /** From `y` to `y'` the receiver takes in this data, or none. */
  ghost predicate TakesIn(y: Node, y': Node, data: seq<Arrival>) {
    if data == [] then y'.sock.reassembler == y.sock.reassembler && Received(y') == Received(y)
    else
      && |data| == 1
      && var (r, out) := Add(y.sock.reassembler, data[0].data, Wrap(data[0].position));
         y'.sock.reassembler == r && Received(y') == Received(y) + OutLength(out)
  }

  function DeliveredBy(step: Step): seq<nat> { if step.Deliver? then [step.k] else [] }

  lemma DeliverTakesIn(y: Node, peerBase: int, inbox: seq<Packet>, k: nat, y': Node, sent: seq<Packet>)
    requires k < |inbox| && y.sock.state.Established? && IsTransfer(inbox[k].segment)
    requires inbox[k].segment.seqNum == Wrap(inbox[k].position)
    requires NodeDeliver(y, peerBase, inbox, k) == Some((y', sent))
    ensures TakesIn(y, y', PayloadOf(inbox[k]))
  {
    DeliverInTwo(y, peerBase, inbox, k);
    TookAckLeaves(TookData(y, inbox[k].segment), k, inbox[k].segment);
    DataTakesIn(y, inbox[k]);
  }

  lemma DataTakesIn(y: Node, p: Packet)
    requires p.segment.seqNum == Wrap(p.position)
    ensures TakesIn(y, TookData(y, p.segment), PayloadOf(p))
  {}

  lemma OthersTakeIn(y: Node, peerBase: int, inbox: seq<Packet>, step: Step, y': Node, sent: seq<Packet>)
    requires !step.Deliver? && NodeStep(y, peerBase, inbox, step) == Some((y', sent))
    ensures TakesIn(y, y', [])
  {}

  // ---------- the data packets divide the stream ----------

  function PacketEnd(p: Packet): int { p.position + |p.segment.payload| }

  ghost predicate DataStarts(wire: seq<Packet>, position: int) {
    exists k :: 0 <= k < |wire| && IsData(wire[k]) && wire[k].position == position
  }

  ghost predicate Joined(wire: seq<Packet>, x: Node, k: nat)
    requires k < |wire|
  {
    IsData(wire[k]) ==>
      && x.base <= wire[k].position && PacketEnd(wire[k]) <= Next(x)
      && (PacketEnd(wire[k]) == Next(x) || DataStarts(wire, PacketEnd(wire[k])))
  }

  ghost predicate Apart(wire: seq<Packet>, i: nat, j: nat)
    requires i < |wire| && j < |wire|
  {
    IsData(wire[i]) && IsData(wire[j]) ==> PacketEnd(wire[i]) <= wire[j].position
  }

  /** The first starts at the base, each next one where one ends, and they do not overlap. */
  ghost predicate Divides(wire: seq<Packet>, x: Node) {
    && (x.written == [] || DataStarts(wire, x.base))
    && (forall k :: 0 <= k < |wire| ==> Joined(wire, x, k))
    && (forall i, j :: 0 <= i < j < |wire| ==> Apart(wire, i, j))
  }

  lemma StartsStay(wire: seq<Packet>, sent: seq<Packet>, position: int)
    requires DataStarts(wire, position)
    ensures DataStarts(wire + sent, position)
  {
    var k :| 0 <= k < |wire| && IsData(wire[k]) && wire[k].position == position;
    assert (wire + sent)[k] == wire[k];
  }

  lemma DividesWithout(wire: seq<Packet>, x: Node, x': Node, sent: seq<Packet>)
    requires Divides(wire, x) && x'.base == x.base && x'.written == x.written && NoData(sent)
    ensures Divides(wire + sent, x')
  {
    var w := wire + sent;
    if x.written != [] { StartsStay(wire, sent, x.base); }
    forall k | 0 <= k < |w| ensures Joined(w, x', k) {
      if k < |wire| {
        assert Joined(wire, x, k);
        if DataStarts(wire, PacketEnd(wire[k])) { StartsStay(wire, sent, PacketEnd(wire[k])); }
      } else {
        assert w[k] == sent[k - |wire|];
      }
    }
    forall i, j | 0 <= i < j < |w| ensures Apart(w, i, j) {
      if j < |wire| { assert Apart(wire, i, j); } else { assert w[j] == sent[j - |wire|]; }
    }
  }

  lemma DividesOneMore(wire: seq<Packet>, x: Node, x': Node, p: Packet)
    requires Divides(wire, x) && IsData(p) && p.position == Next(x)
    requires x'.base == x.base && x'.written == x.written + p.segment.payload
    ensures Divides(wire + [p], x')
  {
    var w := wire + [p];
    assert w[|wire|] == p;
    assert DataStarts(w, Next(x));
    if x.written != [] { StartsStay(wire, [p], x.base); }
    forall k | 0 <= k < |w| ensures Joined(w, x', k) {
      if k < |wire| {
        assert Joined(wire, x, k);
        if DataStarts(wire, PacketEnd(wire[k])) { StartsStay(wire, [p], PacketEnd(wire[k])); }
      }
    }
    forall i, j | 0 <= i < j < |w| ensures Apart(w, i, j) {
      if j < |wire| { assert Apart(wire, i, j); } else { assert Joined(wire, x, i); }
    }
  }

  lemma DividesMore(wire: seq<Packet>, x: Node, x': Node, sent: seq<Packet>)
    requires Divides(wire, x) && SendsWritten(x, x', sent)
    ensures Divides(wire + sent, x')
  {
    if x'.written == x.written && NoData(sent) {
      DividesWithout(wire, x, x', sent);
    } else {
      DividesOneMore(wire, x, x', sent[0]);
      assert sent == [sent[0]];
    }
  }

  // ---------- histories ----------

  /** The packets `ks` of the wire have been delivered. */
  ghost predicate History(x: Node, y: Node, wire: seq<Packet>, ks: seq<nat>) {
    OnThe(wire, ks) && FedBy(x, y, Data(wire, ks)) && Divides(wire, x)
  }

  lemma {:induction false} DataOnLonger(wire: seq<Packet>, sent: seq<Packet>, ks: seq<nat>)
    requires OnThe(wire, ks)
    ensures OnThe(wire + sent, ks) && Data(wire + sent, ks) == Data(wire, ks)
    decreases |ks|
  {
    if ks != [] {
      DataOnLonger(wire, sent, ks[..|ks| - 1]);
    }
  }

  lemma SenderTurn(x: Node, y: Node, wire: seq<Packet>, ks: seq<nat>, x': Node, sent: seq<Packet>)
    requires History(x, y, wire, ks) && SendsWritten(x, x', sent)
    ensures History(x', y, wire + sent, ks)
  {
    DataOnLonger(wire, sent, ks);
    FedWhenWritten(x, x', y, Data(wire, ks));
    DividesMore(wire, x, x', sent);
  }

  lemma DataOneMore(wire: seq<Packet>, ks: seq<nat>, k: nat)
    requires OnThe(wire, ks) && k < |wire|
    ensures OnThe(wire, ks + [k]) && Data(wire, ks + [k]) == Data(wire, ks) + PayloadOf(wire[k])
  {
    assert (ks + [k])[..|ks|] == ks;
  }

  lemma FedTakesIn(x: Node, y: Node, y': Node, arrivals: seq<Arrival>, data: seq<Arrival>)
    requires FedBy(x, y, arrivals) && TakesIn(y, y', data)
    requires data != [] ==> Admissible(data[0], x.written, x.base, Expected(y, x.base), WINDOW, WINDOW)
    ensures FedBy(x, y', arrivals + data)
  {
    if data == [] {
      assert arrivals + [] == arrivals;
    } else {
      FedOneMore(x, y, arrivals, data[0], y', Add(y.sock.reassembler, data[0].data, Wrap(data[0].position)).1);
      assert data == [data[0]];
    }
  }

  lemma ReceiverDelivers(x: Node, y: Node, wire: seq<Packet>, ks: seq<nat>, k: nat, y': Node)
    requires History(x, y, wire, ks) && k < |wire| && TakesIn(y, y', PayloadOf(wire[k]))
    requires OnWire(wire[k], x, y) && Fresh(wire[k], y, x) && FlowOk(x, y)
    ensures History(x, y', wire, ks + [k])
  {
    DataOneMore(wire, ks, k);
    FedTakesIn(x, y, y', Data(wire, ks), PayloadOf(wire[k]));
  }

  lemma ReceiverWaits(x: Node, y: Node, wire: seq<Packet>, ks: seq<nat>, y': Node)
    requires History(x, y, wire, ks) && TakesIn(y, y', [])
    ensures History(x, y', wire, ks)
  {
    FedTakesIn(x, y, y', Data(wire, ks), []);
    assert Data(wire, ks) + [] == Data(wire, ks);
  }

  /** A step of x, seen by both directions. */
  lemma StepHistory(x: Node, y: Node, outbox: seq<Packet>, inbox: seq<Packet>, step: Step, x': Node, sent: seq<Packet>,
                    ks: seq<nat>, js: seq<nat>)
    requires Half(x, y, outbox, inbox) && Half(y, x, inbox, outbox) && StepAllowed(x, y, inbox, step)
    requires NodeStep(x, y.base, inbox, step) == Some((x', sent))
    requires History(x, y, outbox, ks) && History(y, x, inbox, js)
    ensures History(x', y, outbox + sent, ks) && History(y, x', inbox, js + DeliveredBy(step))
  {
    StepSends(x, y, outbox, inbox, step, x', sent);
    SenderTurn(x, y, outbox, ks, x', sent);
    StepReceived(x, y, outbox, inbox, step, x', sent, js);
  }

  lemma StepReceived(x: Node, y: Node, outbox: seq<Packet>, inbox: seq<Packet>, step: Step, x': Node, sent: seq<Packet>,
                     js: seq<nat>)
    requires Half(x, y, outbox, inbox) && Half(y, x, inbox, outbox) && StepAllowed(x, y, inbox, step)
    requires NodeStep(x, y.base, inbox, step) == Some((x', sent)) && History(y, x, inbox, js)
    ensures History(y, x', inbox, js + DeliveredBy(step))
  {
    if step.Deliver? {
      assert OnWire(inbox[step.k], y, x);
      DeliverTakesIn(x, y.base, inbox, step.k, x', sent);
      ReceiverDelivers(y, x, inbox, js, step.k, x');
    } else {
      OthersTakeIn(x, y.base, inbox, step, x', sent);
      ReceiverWaits(y, x, inbox, js, x');
      assert js + [] == js;
    }
  }

  // ---------- whole runs ----------

  /** What a turn delivers to endpoint a, or to b. */
  function DeliveredIn(t: Turn, a: bool): seq<nat> { if t.ofA == a then DeliveredBy(t.step) else [] }

  /** The packets delivered to endpoint a, or to b, in that order. */
  function DeliveredTo(turns: seq<Turn>, a: bool): seq<nat>
    decreases |turns|
  {
    if turns == [] then [] else DeliveredIn(turns[0], a) + DeliveredTo(turns[1..], a)
  }

  ghost predicate Histories(l: Link, ks: seq<nat>, js: seq<nat>) {
    History(l.a, l.b, l.toB, ks) && History(l.b, l.a, l.toA, js)
  }

  lemma TurnOfAHistory(l: Link, step: Step, l': Link, ks: seq<nat>, js: seq<nat>)
    requires Inv(l) && TurnAllowed(l, Turn(true, step)) && TakeTurn(l, Turn(true, step)) == Some(l') && Histories(l, ks, js)
    ensures Histories(l', ks, js + DeliveredBy(step))
  {
    var outcome := NodeStep(l.a, l.b.base, l.toA, step).value;
    StepHistory(l.a, l.b, l.toB, l.toA, step, outcome.0, outcome.1, ks, js);
  }

  lemma TurnOfBHistory(l: Link, step: Step, l': Link, ks: seq<nat>, js: seq<nat>)
    requires Inv(l) && TurnAllowed(l, Turn(false, step)) && TakeTurn(l, Turn(false, step)) == Some(l') && Histories(l, ks, js)
    ensures Histories(l', ks + DeliveredBy(step), js)
  {
    var outcome := NodeStep(l.b, l.a.base, l.toB, step).value;
    StepHistory(l.b, l.a, l.toA, l.toB, step, outcome.0, outcome.1, js, ks);
  }

  lemma TurnHistory(l: Link, t: Turn, l': Link, ks: seq<nat>, js: seq<nat>)
    requires Inv(l) && TurnAllowed(l, t) && TakeTurn(l, t) == Some(l') && Histories(l, ks, js)
    ensures Inv(l') && Histories(l', ks + DeliveredIn(t, false), js + DeliveredIn(t, true))
  {
    TurnKeeps(l, t);
    assert ks + [] == ks && js + [] == js;
    match t {
      case Turn(true, step) => TurnOfAHistory(l, step, l', ks, js);
      case Turn(false, step) => TurnOfBHistory(l, step, l', ks, js);
    }
  }

  lemma ConcatAssociates(a: seq<nat>, b: seq<nat>, c: seq<nat>)
    ensures a + b + c == a + (b + c)
  {}

  lemma DeliveredFirst(turns: seq<Turn>, a: bool, ks: seq<nat>)
    requires turns != []
    ensures ks + DeliveredIn(turns[0], a) + DeliveredTo(turns[1..], a) == ks + DeliveredTo(turns, a)
  {
    ConcatAssociates(ks, DeliveredIn(turns[0], a), DeliveredTo(turns[1..], a));
  }

  lemma {:induction false} RunHistory(l: Link, turns: seq<Turn>, l': Link, ks: seq<nat>, js: seq<nat>,
                                      ks': seq<nat>, js': seq<nat>)
    requires Inv(l) && Reaches(l, turns, l') && Histories(l, ks, js)
    requires ks' == ks + DeliveredTo(turns, false) && js' == js + DeliveredTo(turns, true)
    ensures Inv(l') && Histories(l', ks', js')
    decreases |turns|
  {
    if turns == [] {
      assert ks' == ks && js' == js;
    } else {
      var l1 := ReachesFirst(l, turns, l');
      var ks1, js1 := ks + DeliveredIn(turns[0], false), js + DeliveredIn(turns[0], true);
      TurnHistory(l, turns[0], l1, ks, js);
      DeliveredFirst(turns, false, ks);
      DeliveredFirst(turns, true, js);
      RunHistory(l1, turns[1..], l', ks1, js1, ks', js');
    }
  }

  lemma StartHistory(l: Link)
    requires Start(l)
    ensures Histories(l, [], [])
  {
    forall k | 0 <= k < |l.toB| ensures !IsData(l.toB[k]) { assert l.toB[k] in l.toB; }
    forall k | 0 <= k < |l.toA| ensures !IsData(l.toA[k]) { assert l.toA[k] in l.toA; }
  }

  // ---------- what has been received ----------

  /** Where a data packet starts, or the end of what is written. */
  ghost predicate Boundary(wire: seq<Packet>, x: Node, p: int) { p == Next(x) || DataStarts(wire, p) }

  /** Of the packets delivered, those sent again carry no data. */
  ghost predicate NoneResent(wire: seq<Packet>, ks: seq<nat>)
    requires OnThe(wire, ks)
  {
    forall i :: 0 <= i < |ks| ==> wire[ks[i]].resent ==> wire[ks[i]].segment.payload == []
  }

  /** The packet an arrival came from. */
  lemma {:induction false} ArrivalFrom(wire: seq<Packet>, ks: seq<nat>, j: nat) returns (i: nat)
    requires OnThe(wire, ks) && j < |Data(wire, ks)|
    ensures i < |ks| && PayloadOf(wire[ks[i]]) == [Data(wire, ks)[j]]
    decreases |ks|
  {
    var n := |ks| - 1;
    if j < |Data(wire, ks[..n])| {
      i := ArrivalFrom(wire, ks[..n], j);
    } else {
      i := n;
    }
  }

  /** ... and the arrival a packet became. */
  lemma {:induction false} ArrivalOf(wire: seq<Packet>, ks: seq<nat>, i: nat) returns (j: nat)
    requires OnThe(wire, ks) && i < |ks| && wire[ks[i]].segment.payload != []
    ensures j < |Data(wire, ks)| && [Data(wire, ks)[j]] == PayloadOf(wire[ks[i]])
    decreases |ks|
  {
    var n := |ks| - 1;
    if i < n {
      j := ArrivalOf(wire, ks[..n], i);
    } else {
      j := |Data(wire, ks[..n])|;
    }
  }

  /** Laying delivered data end to end leads from boundary to boundary. */
  lemma {:induction false} PathMeetsBoundaries(wire: seq<Packet>, x: Node, ks: seq<nat>, path: seq<nat>, from: int, upto: int)
    requires OnThe(wire, ks) && Divides(wire, x) && NoneResent(wire, ks) && Boundary(wire, x, from)
    requires O.IsPath(Data(wire, ks), path, from, upto)
    ensures Boundary(wire, x, upto)
    decreases |path|
  {
    if path != [] {
      var i := ArrivalFrom(wire, ks, path[0]);
      assert Joined(wire, x, ks[i]);
      PathMeetsBoundaries(wire, x, ks, path[1..], End(Data(wire, ks)[path[0]]), upto);
    }
  }

  ghost predicate AllDelivered(wire: seq<Packet>, ks: seq<nat>) {
    forall k :: 0 <= k < |wire| && IsData(wire[k]) ==> k in ks
  }

  lemma StartHasArrived(wire: seq<Packet>, ks: seq<nat>, p: int)
    requires OnThe(wire, ks) && AllDelivered(wire, ks) && DataStarts(wire, p)
    ensures O.StartsAt(Data(wire, ks), p)
  {
    var k :| 0 <= k < |wire| && IsData(wire[k]) && wire[k].position == p;
    assert k in ks;
    var i :| 0 <= i < |ks| && ks[i] == k;
    var j := ArrivalOf(wire, ks, i);
  }

  lemma AllInNoDeadEnd(wire: seq<Packet>, x: Node, ks: seq<nat>)
    requires OnThe(wire, ks) && Divides(wire, x) && NoneResent(wire, ks) && AllDelivered(wire, ks)
    ensures O.NoDeadEnd(Data(wire, ks), x.base, Next(x))
  {
    forall p ensures !O.DeadEnd(Data(wire, ks), x.base, Next(x), p) {
      if O.Reachable(Data(wire, ks), x.base, p) && p != Next(x) {
        var path :| O.IsPath(Data(wire, ks), path, x.base, p);
        PathMeetsBoundaries(wire, x, ks, path, x.base, p);
        StartHasArrived(wire, ks, p);
      }
    }
  }

  // ---------- completeness ----------

  /** Everything written has been received, read or not. */
  ghost predicate AllReceived(x: Node, y: Node) { y.read + y.sock.receiveQueue == x.written }

  lemma CompleteIffAtEnd(x: Node, y: Node)
    requires ReceiveOk(y, x) && Expected(y, x.base) <= Next(x)
    ensures AllReceived(x, y) <==> Expected(y, x.base) == Next(x)
  {
    assert x.written[..|x.written|] == x.written;
  }

  lemma NoDeadEndCompletes(x: Node, y: Node, wire: seq<Packet>, ks: seq<nat>)
    requires History(x, y, wire, ks) && O.NoDeadEnd(Data(wire, ks), x.base, Next(x))
    ensures Expected(y, x.base) == Next(x)
  {
    var run, n := Feeding(x, Data(wire, ks)), |Data(wire, ks)|;
    assert run.arrivals[..n] == run.arrivals;
    O.CompleteIfNoDeadEnd(run, n);
  }

  /** A position that a path passes over lies in one of its segments. */
  lemma {:induction false} PathPasses(a: seq<Arrival>, path: seq<nat>, from: int, upto: int, q: int) returns (j: nat)
    requires O.IsPath(a, path, from, upto) && from <= q < upto
    ensures j < |a| && a[j].position <= q < End(a[j])
    decreases |path|
  {
    j := path[0];
    if End(a[j]) <= q {
      j := PathPasses(a, path[1..], End(a[j]), upto, q);
    }
  }

  /** No other data packet holds the position where one starts. */
  lemma OtherHoldsNot(wire: seq<Packet>, x: Node, i: nat, k: nat)
    requires Divides(wire, x) && i < |wire| && k < |wire| && IsData(wire[i]) && IsData(wire[k]) && i != k
    ensures !(wire[i].position <= wire[k].position < PacketEnd(wire[i]))
  {
    if i < k {
      assert Apart(wire, i, k);
    } else {
      assert Apart(wire, k, i);
    }
  }

  /** Whatever was passed over has arrived. */
  lemma CompleteMeansArrived(x: Node, y: Node, wire: seq<Packet>, ks: seq<nat>, k: nat)
    requires History(x, y, wire, ks) && NoneResent(wire, ks) && Expected(y, x.base) == Next(x)
    requires k < |wire| && IsData(wire[k])
    ensures k in ks
  {
    var a, n := Data(wire, ks), |Data(wire, ks)|;
    var run := Feeding(x, a);
    assert run.arrivals[..n] == a;
    O.DeliveredIsReachable(run, n);
    var path :| O.IsPath(a, path, x.base, Next(x));
    assert Joined(wire, x, k);
    var j := PathPasses(a, path, x.base, Next(x), wire[k].position);
    var i := ArrivalFrom(wire, ks, j);
    if ks[i] != k { OtherHoldsNot(wire, x, ks[i], k); }
  }

  lemma CompleteIffAllIn(x: Node, y: Node, wire: seq<Packet>, ks: seq<nat>)
    requires History(x, y, wire, ks) && NoneResent(wire, ks)
    requires ReceiveOk(y, x) && Expected(y, x.base) <= Next(x)
    ensures AllReceived(x, y) <==> AllDelivered(wire, ks)
  {
    CompleteIffAtEnd(x, y);
    if AllDelivered(wire, ks) {
      AllInNoDeadEnd(wire, x, ks);
      NoDeadEndCompletes(x, y, wire, ks);
    }
    if Expected(y, x.base) == Next(x) {
      forall k | 0 <= k < |wire| && IsData(wire[k]) ensures k in ks {
        CompleteMeansArrived(x, y, wire, ks, k);
      }
    }
  }

  lemma NothingBefore(ks: seq<nat>)
    ensures [] + ks == ks
  {}

  lemma ReachedHistory(l: Link, turns: seq<Turn>, l': Link)
    requires Start(l) && Reaches(l, turns, l')
    ensures Inv(l') && Histories(l', DeliveredTo(turns, false), DeliveredTo(turns, true))
  {
    StartInv(l);
    StartHistory(l);
    NothingBefore(DeliveredTo(turns, false));
    NothingBefore(DeliveredTo(turns, true));
    RunHistory(l, turns, l', [], [], DeliveredTo(turns, false), DeliveredTo(turns, true));
  }

  /** COMPLETENESS: in every reachable state, in each direction, if no copy sent by a retransmission
      timeout has been delivered with data: everything written has been received if and only if
      every packet of tcp_write has been delivered, however often and in whatever order. */
  lemma ReceivedIffDelivered(l: Link, turns: seq<Turn>, l': Link)
    requires Start(l) && Reaches(l, turns, l')
    ensures OnThe(l'.toB, DeliveredTo(turns, false)) && OnThe(l'.toA, DeliveredTo(turns, true))
    ensures NoneResent(l'.toB, DeliveredTo(turns, false)) ==>
              (AllReceived(l'.a, l'.b) <==> AllDelivered(l'.toB, DeliveredTo(turns, false)))
    ensures NoneResent(l'.toA, DeliveredTo(turns, true)) ==>
              (AllReceived(l'.b, l'.a) <==> AllDelivered(l'.toA, DeliveredTo(turns, true)))
  {
    ReachedHistory(l, turns, l');
    var ks, js := DeliveredTo(turns, false), DeliveredTo(turns, true);
    if NoneResent(l'.toB, ks) { CompleteIffAllIn(l'.a, l'.b, l'.toB, ks); }
    if NoneResent(l'.toA, js) { CompleteIffAllIn(l'.b, l'.a, l'.toA, js); }
  }

  /** ... and with such copies it has if what was delivered has no dead end. */
  lemma ReceivedIfNoDeadEnd(l: Link, turns: seq<Turn>, l': Link)
    requires Start(l) && Reaches(l, turns, l')
    ensures OnThe(l'.toB, DeliveredTo(turns, false)) && OnThe(l'.toA, DeliveredTo(turns, true))
    ensures O.NoDeadEnd(Data(l'.toB, DeliveredTo(turns, false)), l'.a.base, Next(l'.a)) ==> AllReceived(l'.a, l'.b)
    ensures O.NoDeadEnd(Data(l'.toA, DeliveredTo(turns, true)), l'.b.base, Next(l'.b)) ==> AllReceived(l'.b, l'.a)
  {
    ReachedHistory(l, turns, l');
    var ks, js := DeliveredTo(turns, false), DeliveredTo(turns, true);
    CompleteIffAtEnd(l'.a, l'.b);
    CompleteIffAtEnd(l'.b, l'.a);
    if O.NoDeadEnd(Data(l'.toB, ks), l'.a.base, Next(l'.a)) { NoDeadEndCompletes(l'.a, l'.b, l'.toB, ks); }
    if O.NoDeadEnd(Data(l'.toA, js), l'.b.base, Next(l'.b)) { NoDeadEndCompletes(l'.b, l'.a, l'.toA, js); }
  }
}
