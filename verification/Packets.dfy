/** Segments and packets in network buffers: the checksum over fragments, and what tcp_output,
    ip_output, ip_input and tcp_input do to a buffer.
  */
module Packets {
  import opened Words
  import opened Parts
  import opened Pool
  import opened Buffer
  import opened Checksum
  import opened Codec
  import opened Ip
  import opened Heap

  // ---------- compute_buffer_ones_comp ----------

  lemma PartsSumNext(sum: u16, parts: seq<seq<u8>>, i: nat)
    requires i < |parts|
    ensures PartsOnesComp(sum, parts[i..]) == PartsOnesComp(OnesComp(sum, parts[i]), parts[i + 1..])
  {
    assert parts[i..][1..] == parts[i + 1..];
  }

  method ComputeBufferOnesComp(initialSum: u16, buffer: NetBuffer) returns (sum: u16)
    requires buffer.Valid() && buffer.length <= USIZE_MAX
    ensures sum == PartsOnesComp(initialSum, buffer.parts)
    ensures EvenButLast(buffer.parts) ==> sum == OnesComp(initialSum, buffer.Bytes())
  {
    sum := initialSum;
    var iter := buffer.Iter(USIZE_MAX);
    assert buffer.parts[0..] == buffer.parts;
    var more := true;
    while more
      invariant iter.Valid() && iter.buffer == buffer && fresh(iter) && iter.index <= |buffer.parts|
      invariant buffer.length <= iter.remaining + Offset(buffer.parts, iter.index)
      invariant PartsOnesComp(sum, buffer.parts[iter.index..]) == PartsOnesComp(initialSum, buffer.parts)
      invariant !more ==> iter.index == |buffer.parts|
      decreases |buffer.parts| - iter.index, more
    {
      more, sum := SumNext(sum, buffer, iter);
    }
    assert buffer.parts[|buffer.parts|..] == [];
    if EvenButLast(buffer.parts) {
      PartsSumFlat(initialSum, buffer.parts);
    }
  }

  /** One turn of that loop. */
  method SumNext(sum: u16, buffer: NetBuffer, iter: BufferIterator) returns (more: bool, newSum: u16)
    requires buffer.Valid() && iter.Valid() && iter.buffer == buffer && iter.index <= |buffer.parts|
    requires buffer.length <= iter.remaining + Offset(buffer.parts, iter.index)
    modifies iter
    ensures iter.Valid() && iter.index <= |buffer.parts|
    ensures buffer.length <= iter.remaining + Offset(buffer.parts, iter.index)
    ensures more == (old(iter.index) < |buffer.parts|) && iter.index == old(iter.index) + if more then 1 else 0
    ensures PartsOnesComp(newSum, buffer.parts[iter.index..]) == PartsOnesComp(sum, buffer.parts[old(iter.index)..])
  {
    ghost var i, parts := iter.index, buffer.parts;
    PieceFits(parts, i);
    if i < |parts| {
      buffer.FragmentAt(i);
      PartsSumNext(sum, parts, i);
    }
    var slice := iter.Next();
    more := slice.Some?;
    newSum := sum;
    if more {
      assert slice.value == parts[i];
      newSum := ComputeOnesComp(sum, slice.value);
    }
  }

  /** A part that is left is not empty and fits into what is left. */
  lemma PieceFits(parts: seq<seq<u8>>, i: nat)
    requires i <= |parts| && NonEmptyParts(parts)
    ensures i < |parts| ==> parts[i] != [] && |parts[i]| + Offset(parts, i) <= |Flatten(parts)|
  {
    if i < |parts| {
      assert Offset(parts, i + 1) == Offset(parts, i) + |parts[i]|;
      OffsetIsLength(parts, i + 1);
    }
  }

  // ---------- writing headers ----------

  /** The next bytes of a header that is written from front to back over zeros. */
  method Put(h: array<u8>, ghost done: seq<u8>, offset: nat, bytes: seq<u8>)
    requires offset == |done| && offset + |bytes| <= h.Length && h[..] == done + Zeros(h.Length - |done|)
    modifies h
    ensures h[..] == done + bytes + Zeros(h.Length - |done| - |bytes|)
  {
    CopyIn(h, offset, bytes);
    SpliceOverZeros(done, h.Length - |done|, bytes);
  }

  lemma SpliceOverZeros(done: seq<u8>, n: nat, bytes: seq<u8>)
    requires |bytes| <= n
    ensures Splice(done + Zeros(n), |done|, bytes) == done + bytes + Zeros(n - |bytes|)
  {}

  method NewHeader(n: nat) returns (h: array<u8>)
    ensures fresh(h) && h.Length == n && h[..] == Zeros(n)
  {
    h := new u8[n](_ => 0);
  }

  method FillTcpHeader(p: SendParams) returns (h: array<u8>)
    ensures fresh(h) && h[..] == TcpHeader(p, 0)
  {
    h := NewHeader(HeaderLength(p));
    assert h[..] == [] + Zeros(h.Length);
    Put(h, [], 0, Be16(p.sourcePort));
    ghost var s := [] + Be16(p.sourcePort);
    Put(h, s, 2, Be16(p.destPort));
    s := s + Be16(p.destPort);
    Put(h, s, 4, Be32(p.seqNum));
    s := s + Be32(p.seqNum);
    Put(h, s, 8, Be32(p.ackNum));
    s := s + Be32(p.ackNum);
    Put(h, s, 12, [HeaderLength(p) / 4 * 16 % 0x100, p.flags]);
    s := s + [HeaderLength(p) / 4 * 16 % 0x100, p.flags];
    Put(h, s, 14, Be16(p.window));
    s := s + Be16(p.window);
    assert s == FixedFields(p);
    CopyIn(h, TCP_HEADER_LEN, p.options);
    HeaderComplete(s, p.options);
  }

  lemma HeaderComplete(s: seq<u8>, options: seq<u8>)
    requires |s| == 16
    ensures Splice(s + Zeros(4 + |options|), 20, options) == s + (Be16(0) + [0, 0]) + options
  {}

  // ---------- the pseudo header ----------

  method ComputePseudoHeaderChecksum(source: IPAddr, dest: IPAddr, length: nat, protocol: u8) returns (r: u16)
    requires SameFamily(source, dest)
    ensures r == OnesComp(0, PseudoHeader(source, dest, length, protocol))
  {
    match dest
    case V4(d) =>
      var h := NewHeader(12);
      assert h[..] == [] + Zeros(12);
      Put(h, [], 0, source.a4);
      Put(h, [] + source.a4, 4, d);
      ghost var s := source.a4 + d;
      assert [] + source.a4 + d == s;
      CopyIn(h, 9, [protocol]);
      CopyIn(h, 10, Be16(length % 0x1_0000));
      PseudoComplete4(s, protocol, Be16(length % 0x1_0000));
      r := ComputeOnesComp(0, h[..]);
    case V6(d) =>
      var h := NewHeader(40);
      assert h[..] == [] + Zeros(40);
      Put(h, [], 0, source.a6);
      Put(h, [] + source.a6, 16, d);
      ghost var s := source.a6 + d;
      assert [] + source.a6 + d == s;
      Put(h, s, 32, Be32(length % 0x1_0000_0000));
      CopyIn(h, 39, [protocol]);
      PseudoComplete6(s + Be32(length % 0x1_0000_0000), protocol);
      r := ComputeOnesComp(0, h[..]);
  }

  lemma PseudoComplete4(s: seq<u8>, protocol: u8, length: seq<u8>)
    requires |s| == 8 && |length| == 2
    ensures Splice(Splice(s + Zeros(4), 9, [protocol]), 10, length) == s + [0, protocol] + length
  {}

  lemma PseudoComplete6(s: seq<u8>, protocol: u8)
    requires |s| == 36
    ensures Splice(s + Zeros(4), 39, [protocol]) == s + [0, 0, 0, protocol]
  {}

  method PseudoHeaderSum(source: IPAddr, dest: IPAddr, length: nat) returns (r: u16)
    requires SameFamily(source, dest)
    ensures r == PseudoSum(source, dest, length)
  {
    r := ComputePseudoHeaderChecksum(source, dest, length, PROTO_TCP);
  }

  // ---------- tcp_output ----------

  lemma ShapeEven(a: seq<seq<u8>>, b: seq<seq<u8>>)
    requires SameShape(a, b) && EvenButLast(a)
    ensures EvenButLast(b)
  {}

  /** A header built beforehand is put in front of the payload; an even one keeps the fragments even. */
  method PrependHeader(packet: NetBuffer, header: seq<u8>)
    requires packet.Valid() && 1 <= |header| <= FRAGMENT_SIZE && |header| % 2 == 0
    modifies packet.Footprint()
    ensures packet.Valid() && packet.Others() == old(packet.Others())
    ensures fresh(packet.Footprint() - old(packet.Footprint()))
    ensures packet.Bytes() == header + old(packet.Bytes())
    ensures packet.parts != [] && |header| <= |packet.parts[0]|
    ensures old(EvenButLast(packet.parts)) ==> EvenButLast(packet.parts)
  {
    packet.PushHeader(header);
  }

  /** The checksum is written into the segment. */
  method WriteChecksum(packet: NetBuffer, checksum: u16, ghost p: SendParams, ghost payload: seq<u8>)
    requires packet.Valid() && packet.Bytes() == TcpHeader(p, 0) + payload
    requires packet.parts != [] && HeaderLength(p) <= |packet.parts[0]|
    modifies packet, First(packet.chain)`data
    ensures packet.Valid() && packet.Bytes() == TcpHeader(p, checksum) + payload
    ensures packet.chain == old(packet.chain) && SameShape(old(packet.parts), packet.parts)
  {
    packet.WriteValid(16, Be16(checksum));
    ChecksumWritten(p, checksum, payload);
  }

  lemma ChecksumWritten(p: SendParams, checksum: u16, payload: seq<u8>)
    ensures Splice(TcpHeader(p, 0) + payload, 16, Be16(checksum)) == TcpHeader(p, checksum) + payload
  {
    var s := FixedFields(p);
    assert TcpHeader(p, 0) + payload == s + Be16(0) + ([0, 0] + p.options + payload);
    assert TcpHeader(p, checksum) + payload == s + Be16(checksum) + ([0, 0] + p.options + payload);
  }

  /** The second half of tcp_output: the checksum over the segment goes into its header. */
  method FinishSegment(host: Host, packet: NetBuffer, p: SendParams, ghost payload: seq<u8>)
    requires packet.Valid() && packet.length <= USIZE_MAX && packet.Bytes() == TcpHeader(p, 0) + payload
    requires packet.parts != [] && HeaderLength(p) <= |packet.parts[0]|
    modifies packet, First(packet.chain)`data
    ensures packet.Valid() && packet.chain == old(packet.chain)
    ensures old(EvenButLast(packet.parts)) ==> EvenButLast(packet.parts) && packet.Bytes() == TcpEncode(host, p, payload)
  {
    var phSum := PseudoHeaderSum(LocalFor(host, p.destIp), p.destIp, packet.length % 0x1_0000);
    var sum := ComputeBufferOnesComp(phSum, packet);
    ghost var shape := packet.parts;
    ghost var even := EvenButLast(shape);
    assert even ==> 0xffff - sum == TcpChecksum(host, p, payload);
    WriteChecksum(packet, 0xffff - sum, p, payload);
    if even { ShapeEven(shape, packet.parts); }
  }

  /** tcp_output up to the call of ip_output. */
  method TcpOutput(host: Host, packet: NetBuffer, p: SendParams)
    requires packet.Valid() && |p.options| % 4 == 0 && HeaderLength(p) <= FRAGMENT_SIZE
    requires packet.length + HeaderLength(p) <= USIZE_MAX
    modifies packet.Footprint()
    ensures packet.Valid() && packet.Others() == old(packet.Others())
    ensures fresh(packet.Footprint() - old(packet.Footprint()))
    ensures old(EvenButLast(packet.parts)) ==> EvenButLast(packet.parts)
    ensures old(EvenButLast(packet.parts)) ==> packet.Bytes() == TcpEncode(host, p, old(packet.Bytes()))
  {
    ghost var payload := packet.Bytes();
    var header := FillTcpHeader(p);
    PrependHeader(packet, header[..]);
    FinishSegment(host, packet, p, payload);
  }

  // ---------- tcp_input ----------

  method ValidateChecksum(host: Host, packet: NetBuffer, source: IPAddr) returns (ok: bool)
    requires packet.Valid() && packet.length <= USIZE_MAX && EvenButLast(packet.parts)
    ensures ok == Validates(host, source, packet.Bytes())
  {
    var phSum := PseudoHeaderSum(source, LocalFor(host, source), packet.length);
    var sum := ComputeBufferOnesComp(phSum, packet);
    ok := 0xffff - sum == 0;
  }

  /** tcp_input up to the lookup of the socket: what it reads, and the payload that remains.  Where
      the source would stop at a slice out of range, or loop for ever in the options, so says the
      result. */
  method TcpInput(host: Host, packet: NetBuffer, source: IPAddr) returns (r: Option<TcpFields>)
    requires packet.Valid() && packet.length <= USIZE_MAX && packet.parts != [] && EvenButLast(packet.parts)
    modifies packet.Footprint()
    ensures packet.Valid() && packet.Others() == old(packet.Others()) && packet.Footprint() == old(packet.Footprint())
    ensures match TcpDecode(host, source, old(packet.parts[0]), old(packet.Bytes()))
            case Decoded(fields, payload) => r == Some(fields) && packet.Bytes() == payload
            case _ => r == None && packet.Bytes() == old(packet.Bytes())
    ensures r.Some? ==> Accepts(PseudoSum(source, LocalFor(host, source), |old(packet.Bytes())|), old(packet.Bytes()))
    ensures r.None? ==> packet.Bytes() == old(packet.Bytes())
  {
    DecodedIff(host, source, packet.parts[0], packet.Bytes());
    r := None;
    var ok := ValidateChecksum(host, packet, source);
    if !ok {
      return;
    }
    var header := packet.Header();
    if |header| < 16 {
      return;
    }
    var length := (header[12] / 16) as nat * 4;
    if length < TCP_HEADER_LEN || length > |header| || !ParseOptions(header[TCP_HEADER_LEN..length], 0).Parsed? {
      return;
    }
    var mss := ParseOptionsLoop(header[TCP_HEADER_LEN..length]);
    r := Some(ReadFields(header, mss));
    packet.TrimHead(length);
  }

  // ---------- ip_output and ip_input ----------

  /** The header up to the addresses, its checksum still zero. */
  method FillFields4(h: array<u8>, length: seq<u8>, id: seq<u8>, protocol: u8) returns (ghost s: seq<u8>)
    requires h.Length == 20 && h[..] == Zeros(20) && |length| == 2 && |id| == 2
    modifies h
    ensures s == [0x45, 0] + length + id + [0, 0] + [DEFAULT_TTL, protocol] + [0, 0]
    ensures h[..] == s + Zeros(8)
  {
    assert h[..] == [] + Zeros(20);
    Put(h, [], 0, [0x45]);
    assert [] + [0x45] + Zeros(19) == [0x45, 0] + Zeros(18);
    Put(h, [0x45, 0], 2, length);
    s := [0x45, 0] + length;
    Put(h, s, 4, id);
    s := s + id;
    ZeroPair(s, 14);
    s := s + [0, 0];
    Put(h, s, 8, [DEFAULT_TTL, protocol]);
    s := s + [DEFAULT_TTL, protocol];
    ZeroPair(s, 10);
    s := s + [0, 0];
  }

  lemma ZeroPair(s: seq<u8>, n: nat)
    requires n >= 2
    ensures s + Zeros(n) == s + [0, 0] + Zeros(n - 2)
  {}

  method FillHeader4(length: nat, id: u16, protocol: u8, source: Addr4, dest: Addr4) returns (h: array<u8>)
    ensures fresh(h) && h[..] == Header4(length, id, protocol, source, dest, Checksum4(length, id, protocol, source, dest))
  {
    h := NewHeader(IPV4_BASE_HEADER_LEN);
    ghost var s := FillFields4(h, Be16(length % 0x1_0000), Be16(id), protocol);
    Put(h, s, 12, source);
    s := s + source;
    Put(h, s, 16, dest);
    s := s + dest;
    assert h[..] == s == Header4(length, id, protocol, source, dest, 0);
    var checksum := ComputeChecksum(h[..]);
    CopyIn(h, 10, Be16(checksum));
    Header4Complete(length, id, protocol, source, dest, checksum);
  }

  lemma Header4Complete(length: nat, id: u16, protocol: u8, source: Addr4, dest: Addr4, c: u16)
    ensures Splice(Header4(length, id, protocol, source, dest, 0), 10, Be16(c)) == Header4(length, id, protocol, source, dest, c)
  {
    var a := [0x45, 0] + Be16(length % 0x1_0000) + Be16(id) + [0, 0] + [DEFAULT_TTL, protocol];
    assert Header4(length, id, protocol, source, dest, 0) == a + Be16(0) + (source + dest);
    assert Header4(length, id, protocol, source, dest, c) == a + Be16(c) + (source + dest);
  }

  method FillHeader6(length: nat, protocol: u8, source: Addr16, dest: Addr16) returns (h: array<u8>)
    ensures fresh(h) && h[..] == Header6(length, protocol, source, dest)
  {
    h := NewHeader(IPV6_HEADER_LEN);
    assert h[..] == [] + Zeros(40);
    Put(h, [], 0, [0x60]);
    ghost var s := [0x60, 0, 0, 0];
    assert [] + [0x60] + Zeros(39) == s + Zeros(36);
    Put(h, s, 4, Be16(length % 0x1_0000));
    s := s + Be16(length % 0x1_0000);
    Put(h, s, 6, [protocol, DEFAULT_TTL]);
    s := s + [protocol, DEFAULT_TTL];
    Put(h, s, 8, source);
    s := s + source;
    Put(h, s, 24, dest);
    s := s + dest;
    assert h[..] == s;
  }

  /** The header for `length` bytes of payload. */
  method BuildHeader(host: Host, id: u16, length: nat, protocol: u8, dest: IPAddr, ghost payload: seq<u8>)
    returns (header: seq<u8>)
    requires length == |payload|
    ensures header + payload == IpEncode(host, id, protocol, dest, payload)
    ensures 1 <= |header| <= FRAGMENT_SIZE && |header| % 2 == 0
  {
    var h;
    match dest {
      case V4(d) => h := FillHeader4(length + IPV4_BASE_HEADER_LEN, id, protocol, host.v4, d);
      case V6(d) => h := FillHeader6(length, protocol, host.v6, d);
    }
    header := h[..];
  }

  /** ip_output up to the device; `id` is the next packet number. */
  method IpOutput(host: Host, id: u16, packet: NetBuffer, protocol: u8, dest: IPAddr)
    requires packet.Valid()
    modifies packet.Footprint()
    ensures packet.Valid() && packet.Others() == old(packet.Others())
    ensures fresh(packet.Footprint() - old(packet.Footprint()))
    ensures packet.Bytes() == IpEncode(host, id, protocol, dest, old(packet.Bytes()))
    ensures IsPacket(packet.Bytes(), host, id, protocol, dest, old(packet.Bytes()))
  {
    IpOnWire(host, id, protocol, dest, packet.Bytes());
    var header := BuildHeader(host, id, packet.length, protocol, dest, packet.Bytes());
    PrependHeader(packet, header);
  }

  /** ip_input up to the protocol: the protocol and source found, and the payload that remains. */
  method IpInput(packet: NetBuffer) returns (r: Option<(u8, IPAddr)>)
    requires packet.Valid() && packet.parts != []
    modifies packet.Footprint()
    ensures packet.Valid() && packet.Others() == old(packet.Others()) && packet.Footprint() == old(packet.Footprint())
    ensures match IpDecode(old(packet.parts[0]), old(packet.Bytes()))
            case Delivered(protocol, source, payload) => r == Some((protocol, source)) && packet.Bytes() == payload
            case _ => r == None && packet.Bytes() == old(packet.Bytes())
    ensures r.Some? ==> packet.parts == DropBytes(old(packet.parts), IpHeaderRead(old(packet.parts[0])))
    ensures old(EvenButLast(packet.parts)) ==> EvenButLast(packet.parts)
  {
    r := None;
    var header := packet.Header();
    if header == [] {
      return;
    }
    if header[0] / 16 == 4 {
      var length := (header[0] % 16) as nat * 4;
      if length == 0 || length > |header| {
        return;
      }
      var checksum := ComputeChecksum(header[..length]);
      if checksum != 0 || |header| < 8 || GetBe16(header, 6) % 0x4000 != 0 || |header| < 16 {
        return;
      }
      r := Some((header[9], V4(header[12..16])));
      TrimEven(packet, length);
    } else if header[0] / 16 == 6 {
      if |header| < 24 || packet.length < IPV6_HEADER_LEN {
        return;
      }
      r := Some((header[6], V6(header[8..24])));
      TrimEven(packet, IPV6_HEADER_LEN);
    }
  }

  method TrimEven(packet: NetBuffer, size: nat)
    requires packet.Valid() && size <= packet.length && size % 2 == 0
    modifies packet.Footprint()
    ensures packet.Valid() && packet.Others() == old(packet.Others()) && packet.Footprint() == old(packet.Footprint())
    ensures packet.Bytes() == old(packet.Bytes())[size..] && packet.parts == DropBytes(old(packet.parts), size)
    ensures old(EvenButLast(packet.parts)) ==> EvenButLast(packet.parts)
  {
    packet.TrimHead(size);
    if old(EvenButLast(packet.parts)) {
      DropBytesEven(old(packet.parts), size);
    }
  }

  // ---------- the three ways to a checksum ----------

  /** A fresh packet takes a slice. */
  method TakeSlice(packet: NetBuffer, slice: seq<u8>)
    requires packet.Valid() && packet.parts == [] && packet.chain == []
    modifies packet.Footprint()
    ensures packet.Valid() && packet.Bytes() == slice && EvenButLast(packet.parts)
  {
    packet.AppendFromSlice(slice);
    FullIsEven(packet.parts, FRAGMENT_SIZE);
  }

  /** SEND: the packet tcp_write builds from a slice of the caller's data. */
  method DataPacket(pool: FragmentPool, slice: seq<u8>) returns (packet: NetBuffer)
    requires pool.Valid()
    modifies pool, pool.free
    ensures fresh(packet) && packet.Valid() && packet.pool == pool && packet.Bytes() == slice
    ensures EvenButLast(packet.parts)
  {
    packet := new NetBuffer(pool);
    TakeSlice(packet, slice);
  }

  /** A fresh packet takes the front of another buffer. */
  method TakeFront(packet: NetBuffer, queue: NetBuffer, mss: nat)
    requires packet.Beside(queue) && packet.parts == [] && packet.chain == []
    modifies packet.Footprint()
    ensures packet.Valid() && queue.Valid() && EvenButLast(packet.parts)
    ensures packet.Bytes() == Prefix(old(queue.Bytes()), mss)
  {
    packet.AppendFromBuffer(queue, mss);
    FullIsEven(packet.parts, FRAGMENT_SIZE);
  }

  /** RETRANSMIT: the packet copied from the front of the retransmit queue, however that is
      fragmented after acknowledgements of any length. */
  method RetransmitPacket(pool: FragmentPool, queue: NetBuffer, mss: nat) returns (packet: NetBuffer)
    requires queue.Valid() && queue.pool == pool
    modifies pool, pool.free
    ensures fresh(packet) && packet.Valid() && packet.pool == pool && queue.Valid()
    ensures packet.Bytes() == Prefix(old(queue.Bytes()), mss) && EvenButLast(packet.parts)
  {
    packet := new NetBuffer(pool);
    TakeFront(packet, queue, mss);
  }

  /** ip_input on a packet as the device left it. */
  method TakeIn(packet: NetBuffer, ghost wire: seq<u8>) returns (r: Option<(u8, IPAddr)>)
    requires packet.Valid() && packet.Bytes() == wire && EvenButLast(packet.parts)
    requires packet.parts != [] && packet.parts[0] == FirstFragment(wire)
    modifies packet.Footprint()
    ensures packet.Valid() && packet.Footprint() == old(packet.Footprint()) && EvenButLast(packet.parts)
    ensures match IpDecode(FirstFragment(wire), wire)
            case Delivered(protocol, source, payload) =>
              && r == Some((protocol, source)) && packet.Bytes() == payload
              && (IpHeaderRead(FirstFragment(wire)) < |FirstFragment(wire)| ==>
                  packet.parts != [] && packet.parts[0] == FirstFragment(wire)[IpHeaderRead(FirstFragment(wire))..])
            case _ => r == None && packet.Bytes() == wire
  {
    r := IpInput(packet);
  }

  /** RECEIVE: a packet from the device, through ip_input. */
  method Arrival(pool: FragmentPool, wire: seq<u8>) returns (packet: NetBuffer, r: Option<(u8, IPAddr)>)
    requires pool.Valid() && 0 < |wire| <= MRU
    modifies pool, pool.free
    ensures fresh(packet) && packet.Valid() && packet.pool == pool && EvenButLast(packet.parts)
    ensures fresh(packet.Footprint() - {pool} - old(Set(pool.free)))
    ensures match IpDecode(FirstFragment(wire), wire)
            case Delivered(protocol, source, payload) =>
              && r == Some((protocol, source)) && packet.Bytes() == payload
              && (IpHeaderRead(FirstFragment(wire)) < |FirstFragment(wire)| ==>
                  packet.parts != [] && packet.parts[0] == FirstFragment(wire)[IpHeaderRead(FirstFragment(wire))..])
            case _ => r == None && packet.Bytes() == wire
  {
    packet := RecvPacket(pool, wire);
    FullIsEven(packet.parts, FRAGMENT_SIZE);
    FirstPart(packet.parts, wire);
    r := TakeIn(packet, wire);
  }

  lemma FirstPart(parts: seq<seq<u8>>, bytes: seq<u8>)
    requires parts != [] && Flatten(parts) == bytes
    ensures parts[0] == bytes[..|parts[0]|]
  {}

  /** A device's packet is stored from the start of a fragment. */
  function FirstFragment(wire: seq<u8>): seq<u8> { Prefix(wire, FRAGMENT_SIZE) }

  /** THE WHOLE RECEIVE PATH: of a packet built by the peer's tcp_output and ip_output, the heap of
      fragments yields every field, the options and the payload. */
  method Deliver(pool: FragmentPool, receiver: Host, wire: seq<u8>, ghost sender: Host, ghost id: u16, ghost p: SendParams,
                 ghost list: seq<TcpOption>, ghost padding: seq<u8>, ghost payload: seq<u8>)
    returns (packet: NetBuffer, r: Option<TcpFields>)
    requires pool.Valid() && |wire| <= MRU && Addressed(receiver, p.destIp)
    requires forall i :: 0 <= i < |list| ==> GoodOption(list[i])
    requires padding == [] || padding[0] == 0
    requires p.options == EncodeOptions(list) + padding && |p.options| % 4 == 0 && HeaderLength(p) <= 60
    requires wire == IpEncode(sender, id, PROTO_TCP, p.destIp, TcpEncode(sender, p, payload))
    modifies pool, pool.free
    ensures fresh(packet) && packet.Valid() && packet.pool == pool
    ensures r == Some(SentFields(p, LastMss(list, 0))) && packet.Bytes() == payload
  {
    ghost var header, n := FirstFragment(wire), IpHeaderLength(p.destIp);
    ghost var segment := TcpEncode(sender, p, payload);
    WireFits(sender, id, p, payload);
    Encapsulation(sender, receiver, id, p, list, padding, payload, header);
    var ip;
    packet, ip := Arrival(pool, wire);
    r := TcpInput(receiver, packet, ip.value.1);
  }

  /** The headers of a packet lie in its first fragment, and IP says where its own ends. */
  lemma WireFits(sender: Host, id: u16, p: SendParams, payload: seq<u8>)
    requires HeaderLength(p) <= 60
    ensures var wire := IpEncode(sender, id, PROTO_TCP, p.destIp, TcpEncode(sender, p, payload));
            && FirstFragment(wire) <= wire && IpHeaderLength(p.destIp) + HeaderLength(p) <= |FirstFragment(wire)|
            && IpHeaderRead(FirstFragment(wire)) == IpHeaderLength(p.destIp)
            && |wire| == IpHeaderLength(p.destIp) + HeaderLength(p) + |payload|
  {}
}
