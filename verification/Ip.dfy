/** The IP headers of ip.rs as bytes, and the whole way of a segment through both layers. */
module Ip {
  import opened Words
  import opened Checksum
  import opened Codec

  const IPV4_BASE_HEADER_LEN := 20
  const IPV6_HEADER_LEN := 40
  const DEFAULT_TTL: u8 := 64

  function Header4(length: nat, id: u16, protocol: u8, source: Addr4, dest: Addr4, checksum: u16): (s: seq<u8>)
    ensures |s| == IPV4_BASE_HEADER_LEN
  {
    [0x45, 0] + Be16(length % 0x1_0000) + Be16(id) + [0, 0] + [DEFAULT_TTL, protocol] + Be16(checksum) + source + dest
  }

  function Checksum4(length: nat, id: u16, protocol: u8, source: Addr4, dest: Addr4): u16 {
    0xffff - OnesComp(0, Header4(length, id, protocol, source, dest, 0))
  }

  function Header6(length: nat, protocol: u8, source: Addr16, dest: Addr16): (s: seq<u8>)
    ensures |s| == IPV6_HEADER_LEN
  {
    [0x60, 0, 0, 0] + Be16(length % 0x1_0000) + [protocol, DEFAULT_TTL] + source + dest
  }

  /** ip_output */
  function IpHeader(host: Host, id: u16, protocol: u8, dest: IPAddr, payloadLength: nat): seq<u8> {
    match dest
    case V4(d) =>
      var n := payloadLength + IPV4_BASE_HEADER_LEN;
      Header4(n, id, protocol, host.v4, d, Checksum4(n, id, protocol, host.v4, d))
    case V6(d) => Header6(payloadLength, protocol, host.v6, d)
  }

  function IpHeaderLength(dest: IPAddr): nat { if dest.V4? then IPV4_BASE_HEADER_LEN else IPV6_HEADER_LEN }

  function IpEncode(host: Host, id: u16, protocol: u8, dest: IPAddr, payload: seq<u8>): seq<u8> {
    IpHeader(host, id, protocol, dest, |payload|) + payload
  }

  datatype IpResult =
    | BadVersion
    | BadHeader
    | Fragmented
    | TooShort
    | Delivered(protocol: u8, source: IPAddr, payload: seq<u8>)

  /** ip_input_v4; `header` is the first fragment.  Options are skipped. */
  function IpDecode4(header: seq<u8>, packet: seq<u8>): IpResult
    requires header != [] && header <= packet
  {
    var length := (header[0] % 16) as nat * 4;
    if length == 0 || length > |header| then TooShort
    else if OnesComp(0, header[..length]) != 0xffff then BadHeader
    else if |header| < 8 then TooShort
    else if GetBe16(header, 6) % 0x4000 != 0 then Fragmented
    else if |header| < 16 then TooShort
    else Delivered(header[9], V4(header[12..16]), packet[length..])
  }

  function IpDecode6(header: seq<u8>, packet: seq<u8>): IpResult
    requires header <= packet
  {
    if |header| < 24 || |packet| < IPV6_HEADER_LEN then TooShort
    else Delivered(header[6], V6(header[8..24]), packet[IPV6_HEADER_LEN..])
  }

  /** How many bytes ip_input trims off a packet it delivers. */
  function IpHeaderRead(header: seq<u8>): nat {
    if header != [] && header[0] / 16 == 4 then (header[0] % 16) as nat * 4 else IPV6_HEADER_LEN
  }

  /** ip_input */
  function IpDecode(header: seq<u8>, packet: seq<u8>): IpResult
    requires header <= packet
  {
    if header == [] then TooShort
    else if header[0] / 16 == 4 then IpDecode4(header, packet)
    else if header[0] / 16 == 6 then IpDecode6(header, packet)
    else BadVersion
  }

  /** Every V4 header that ip_output builds sums to zero at the receiver. */
  lemma Header4Accepted(length: nat, id: u16, protocol: u8, source: Addr4, dest: Addr4)
    ensures Accepts(0, Header4(length, id, protocol, source, dest, Checksum4(length, id, protocol, source, dest)))
  {
    var h := Header4(length, id, protocol, source, dest, 0);
    var c := Checksum4(length, id, protocol, source, dest);
    assert WordAt(h, 10) == 0;
    ChecksumMakesAccepted(0, h, 10);
    var r := ReplaceWord(h, 10, c);
    forall i | 0 <= i < 20 ensures Header4(length, id, protocol, source, dest, c)[i] == r[i] {}
    assert Header4(length, id, protocol, source, dest, c) == r;
  }

  lemma Header4Read(length: nat, id: u16, protocol: u8, source: Addr4, dest: Addr4, checksum: u16)
    ensures var h := Header4(length, id, protocol, source, dest, checksum);
            h[0] == 0x45 && h[9] == protocol && GetBe16(h, 6) == 0 && h[12..16] == source
  {}

  lemma Header6Read(length: nat, protocol: u8, source: Addr16, dest: Addr16)
    ensures var h := Header6(length, protocol, source, dest); h[0] == 0x60 && h[6] == protocol && h[8..24] == source
  {}

  lemma PrefixReads(h: seq<u8>, header: seq<u8>, payload: seq<u8>)
    requires header <= h + payload && |h| <= |header|
    ensures header[..|h|] == h && (h + payload)[|h|..] == payload
    ensures forall i, j :: 0 <= i <= j <= |h| ==> header[i..j] == h[i..j]
    ensures forall i :: 0 <= i < |h| ==> header[i] == h[i]
  {
    assert header[..|h|] == (h + payload)[..|h|] == h;
    forall i, j | 0 <= i <= j <= |h| ensures header[i..j] == h[i..j] {
      assert header[i..j] == header[..|h|][i..j];
    }
  }

  /** IP ROUND TRIP: the receiver finds the protocol, the sender's address and the payload. */
  lemma IpRoundTrip(host: Host, id: u16, protocol: u8, dest: IPAddr, payload: seq<u8>, header: seq<u8>)
    requires header <= IpEncode(host, id, protocol, dest, payload) && |IpHeader(host, id, protocol, dest, |payload|)| <= |header|
    ensures IpDecode(header, IpEncode(host, id, protocol, dest, payload)) == Delivered(protocol, LocalFor(host, dest), payload)
  {
    match dest
    case V4(d) =>
      var n := |payload| + IPV4_BASE_HEADER_LEN;
      var c := Checksum4(n, id, protocol, host.v4, d);
      var h := Header4(n, id, protocol, host.v4, d, c);
      Header4Accepted(n, id, protocol, host.v4, d);
      Header4Read(n, id, protocol, host.v4, d, c);
      PrefixReads(h, header, payload);
      assert header[12..16] == h[12..16];
    case V6(d) =>
      var h := Header6(|payload|, protocol, host.v6, d);
      Header6Read(|payload|, protocol, host.v6, d);
      PrefixReads(h, header, payload);
      assert header[8..24] == h[8..24];
  }

  /** ENCAPSULATION: ip_input and then tcp_input read back from a packet of tcp_output and ip_output
      the protocol, the sender's address, every TCP field, the options and exactly the payload. */
  lemma Encapsulation(sender: Host, receiver: Host, id: u16, p: SendParams, list: seq<TcpOption>, padding: seq<u8>,
                      payload: seq<u8>, header: seq<u8>)
    requires Addressed(receiver, p.destIp)
    requires forall i :: 0 <= i < |list| ==> GoodOption(list[i])
    requires padding == [] || padding[0] == 0
    requires p.options == EncodeOptions(list) + padding && |p.options| % 4 == 0 && HeaderLength(p) <= 60
    requires p.destIp.V4? || HeaderLength(p) + |payload| < 0x1_0000
    requires header <= IpEncode(sender, id, PROTO_TCP, p.destIp, TcpEncode(sender, p, payload))
    requires IpHeaderLength(p.destIp) + HeaderLength(p) <= |header|
    ensures var segment := TcpEncode(sender, p, payload);
            var source := LocalFor(sender, p.destIp);
            && IpDecode(header, IpEncode(sender, id, PROTO_TCP, p.destIp, segment)) == Delivered(PROTO_TCP, source, segment)
            && header[IpHeaderLength(p.destIp)..] <= segment
            && TcpDecode(receiver, source, header[IpHeaderLength(p.destIp)..], segment)
               == Decoded(SentFields(p, LastMss(list, 0)), payload)
  {
    var segment := TcpEncode(sender, p, payload);
    var h := IpHeader(sender, id, PROTO_TCP, p.destIp, |segment|);
    IpRoundTrip(sender, id, PROTO_TCP, p.destIp, segment, header);
    BehindHeader(h, header, segment);
    ShortSegment(|segment|);
    TcpRoundTrip(sender, receiver, p, list, padding, payload, header[|h|..]);
  }

  lemma BehindHeader(h: seq<u8>, header: seq<u8>, payload: seq<u8>)
    requires header <= h + payload && |h| <= |header|
    ensures header[|h|..] <= payload
  {}

  lemma ShortSegment(n: nat)
    ensures n < 0x1_0000 ==> n % 0x1_0000_0000 / 0x1_0000 % 0xffff == 0
  {}

  // ---------- what is on the wire, and what is refused ----------

  /** A packet without options as RFC 791, section 3.1, lays it out. */
  predicate IsPacket4(b: seq<u8>, id: u16, protocol: u8, source: Addr4, dest: Addr4, payload: seq<u8>) {
    && |b| == 20 + |payload|
    && b[0] == 0x45 && b[1] == 0 && (|b| < 0x1_0000 ==> GetBe16(b, 2) as int == |b|)
    && GetBe16(b, 4) == id && GetBe16(b, 6) == 0 && b[8] == 64 && b[9] == protocol
    && Accepts(0, b[..20]) && b[12..16] == source && b[16..20] == dest && b[20..] == payload
  }

  /** A packet as RFC 8200, section 3, lays it out. */
  predicate IsPacket6(b: seq<u8>, protocol: u8, source: Addr16, dest: Addr16, payload: seq<u8>) {
    && |b| == 40 + |payload|
    && b[0] == 0x60 && b[1] == 0 && b[2] == 0 && b[3] == 0
    && (|payload| < 0x1_0000 ==> GetBe16(b, 4) as int == |payload|)
    && b[6] == protocol && b[7] == 64 && b[8..24] == source && b[24..40] == dest && b[40..] == payload
  }

  predicate IsPacket(b: seq<u8>, host: Host, id: u16, protocol: u8, dest: IPAddr, payload: seq<u8>) {
    match dest
    case V4(d) => IsPacket4(b, id, protocol, host.v4, d, payload)
    case V6(d) => IsPacket6(b, protocol, host.v6, d, payload)
  }

  lemma ShortWord(n: nat)
    ensures n < 0x1_0000 ==> n % 0x1_0000 == n
  {}

  lemma Header4Places(length: nat, id: u16, protocol: u8, source: Addr4, dest: Addr4, checksum: u16)
    ensures var h := Header4(length, id, protocol, source, dest, checksum);
            && h[0] == 0x45 && h[1] == 0 && h[2..4] == Be16(length % 0x1_0000) && h[4..6] == Be16(id)
            && h[6] == 0 && h[7] == 0 && h[8] == 64 && h[9] == protocol && h[12..16] == source && h[16..20] == dest
  {}

  lemma Header6Places(length: nat, protocol: u8, source: Addr16, dest: Addr16)
    ensures var h := Header6(length, protocol, source, dest);
            && h[0] == 0x60 && h[1] == 0 && h[2] == 0 && h[3] == 0 && h[4..6] == Be16(length % 0x1_0000)
            && h[6] == protocol && h[7] == 64 && h[8..24] == source && h[24..40] == dest
  {}

  lemma Packet4Laid(h: seq<u8>, id: u16, protocol: u8, source: Addr4, dest: Addr4, payload: seq<u8>, length: u16)
    requires |h| == 20 && Accepts(0, h) && (20 + |payload| < 0x1_0000 ==> length as int == 20 + |payload|)
    requires h[0] == 0x45 && h[1] == 0 && h[2..4] == Be16(length) && h[4..6] == Be16(id) && h[6] == 0 && h[7] == 0
    requires h[8] == 64 && h[9] == protocol && h[12..16] == source && h[16..20] == dest
    ensures IsPacket4(h + payload, id, protocol, source, dest, payload)
  {
    var b := h + payload;
    PrefixReads(h, b, payload);
    assert b[2..4] == h[2..4] && b[4..6] == h[4..6] && b[12..16] == h[12..16] && b[16..20] == h[16..20];
    ReadBe16(b, 2, length);
    ReadBe16(b, 4, id);
    assert b[..20] == h;
  }

  lemma Packet6Laid(h: seq<u8>, protocol: u8, source: Addr16, dest: Addr16, payload: seq<u8>, length: u16)
    requires |h| == 40 && (|payload| < 0x1_0000 ==> length as int == |payload|)
    requires h[0] == 0x60 && h[1] == 0 && h[2] == 0 && h[3] == 0 && h[4..6] == Be16(length)
    requires h[6] == protocol && h[7] == 64 && h[8..24] == source && h[24..40] == dest
    ensures IsPacket6(h + payload, protocol, source, dest, payload)
  {
    var b := h + payload;
    PrefixReads(h, b, payload);
    assert b[4..6] == h[4..6] && b[8..24] == h[8..24] && b[24..40] == h[24..40];
    ReadBe16(b, 4, length);
  }

  /** ON THE WIRE: what ip_output builds has every field at its place. */
  lemma IpOnWire(host: Host, id: u16, protocol: u8, dest: IPAddr, payload: seq<u8>)
    ensures IsPacket(IpEncode(host, id, protocol, dest, payload), host, id, protocol, dest, payload)
  {
    match dest
    case V4(d) =>
      var n := |payload| + IPV4_BASE_HEADER_LEN;
      var c := Checksum4(n, id, protocol, host.v4, d);
      Header4Accepted(n, id, protocol, host.v4, d);
      Header4Places(n, id, protocol, host.v4, d, c);
      ShortWord(n);
      Packet4Laid(Header4(n, id, protocol, host.v4, d, c), id, protocol, host.v4, d, payload, n % 0x1_0000);
    case V6(d) =>
      Header6Places(|payload|, protocol, host.v6, d);
      ShortWord(|payload|);
      Packet6Laid(Header6(|payload|, protocol, host.v6, d), protocol, host.v6, d, payload, |payload| % 0x1_0000);
  }

  /** DELIVERED: of version 4, if and only if the header sums right, is no fragment, and lies within the
      first fragment of the buffer with its source address; of version 6, if the addresses and the packet
      are long enough; and no other version. */
  lemma DeliveredIff(header: seq<u8>, packet: seq<u8>)
    requires header <= packet && header != []
    ensures var n := header[0] % 16 * 4;
            header[0] / 16 == 4 ==>
              (IpDecode(header, packet).Delivered? <==>
                 0 < n <= |header| && |header| >= 16 && Accepts(0, header[..n]) && GetBe16(header, 6) % 0x4000 == 0)
    ensures header[0] / 16 == 6 ==> (IpDecode(header, packet).Delivered? <==> |header| >= 24 && |packet| >= 40)
    ensures header[0] / 16 != 4 && header[0] / 16 != 6 ==> IpDecode(header, packet).BadVersion?
  {}

  /** DAMAGE: of a V4 packet that ip_output built, with one word of the header after the first replaced on
      the way, the receiver takes exactly those whose new word is congruent to the old one, unless that
      makes it a fragment. */
  lemma DamagedHeaderIff(host: Host, id: u16, protocol: u8, d: Addr4, payload: seq<u8>, packet: seq<u8>,
                         i: nat, w: u16, header: seq<u8>)
    requires packet == IpEncode(host, id, protocol, V4(d), payload)
    requires i % 2 == 0 && 2 <= i < 20 && header <= ReplaceWord(packet, i, w) && 20 <= |header|
    ensures IpDecode(header, ReplaceWord(packet, i, w)).Delivered?
            <==> (w - WordAt(packet, i)) % 0xffff == 0 && (i == 6 ==> w % 0x4000 == 0)
  {
    IpOnWire(host, id, protocol, V4(d), payload);
    var damaged, h := ReplaceWord(packet, i, w), packet[..20];
    assert header[..20] == damaged[..20] == ReplaceWord(h, i, w);
    assert WordAt(h, i) == WordAt(packet, i);
    DamageDetectedIff(0, h, i, w);
    NotAllZero(ReplaceWord(h, i, w));
    DamagedFragmentField(packet, i, w, header);
    DeliveredIff(header, damaged);
  }

  lemma NotAllZero(h: seq<u8>)
    requires |h| >= 2 && h[0] > 0
    ensures WordSum(h) > 0
  {}

  lemma DamagedFragmentField(packet: seq<u8>, i: nat, w: u16, header: seq<u8>)
    requires i % 2 == 0 && 2 <= i < 20 <= |packet| && GetBe16(packet, 6) == 0
    requires header <= ReplaceWord(packet, i, w) && 20 <= |header|
    ensures header[0] == packet[0] && GetBe16(header, 6) == if i == 6 then w else 0
  {
    var damaged := ReplaceWord(packet, i, w);
    assert header[0] == damaged[0] && header[6] == damaged[6] && header[7] == damaged[7];
  }
}
