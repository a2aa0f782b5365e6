/** The TCP and IP headers as bytes: tcp_output and tcp_input of tcp.rs, ip.rs, and the byte
    accessors and the pseudo header of util.rs.
  */
module Codec {
  import opened Words
  import opened Checksum

  // ---------- big-endian words ----------

  function Be16(n: u16): (s: seq<u8>)
    ensures |s| == 2
  {
    [n / 0x100, n % 0x100]
  }

  function Be32(n: u32): (s: seq<u8>)
    ensures |s| == 4
  {
    Be16(n / 0x1_0000) + Be16(n % 0x1_0000)
  }

  function GetBe16(s: seq<u8>, i: nat): u16
    requires i + 2 <= |s|
  {
    0x100 * (s[i] as int) + s[i + 1]
  }

  function GetBe32(s: seq<u8>, i: nat): u32
    requires i + 4 <= |s|
  {
    0x1_0000 * (GetBe16(s, i) as int) + GetBe16(s, i + 2)
  }

  lemma ReadBe16(s: seq<u8>, i: nat, n: u16)
    requires i + 2 <= |s| && s[i..i + 2] == Be16(n)
    ensures GetBe16(s, i) == n
  {
    assert s[i] == s[i..i + 2][0] && s[i + 1] == s[i..i + 2][1];
  }

  lemma ReadBe32(s: seq<u8>, i: nat, n: u32)
    requires i + 4 <= |s| && s[i..i + 4] == Be32(n)
    ensures GetBe32(s, i) == n
  {
    assert s[i..i + 2] == s[i..i + 4][..2] && s[i + 2..i + 4] == s[i..i + 4][2..];
    ReadBe16(s, i, n / 0x1_0000);
    ReadBe16(s, i + 2, n % 0x1_0000);
  }

  // ---------- addresses and the pseudo header ----------

  type Addr4 = s: seq<u8> | |s| == 4 witness [0, 0, 0, 0]
  type Addr16 = s: seq<u8> | |s| == 16 witness [0, 0, 0, 0, 0, 0, 0, 0, 0, 0, 0, 0, 0, 0, 0, 0]

  datatype IPAddr = V4(a4: Addr4) | V6(a6: Addr16)

  /** What netif::get_ipaddr returns. */
  datatype Host = Host(v4: Addr4, v6: Addr16)

  /** The own address in the family of a remote one. */
  function LocalFor(host: Host, remote: IPAddr): IPAddr {
    if remote.V4? then V4(host.v4) else V6(host.v6)
  }

  predicate SameFamily(a: IPAddr, b: IPAddr) { a.V4? == b.V4? }

  const PROTO_TCP: u8 := 6

  /** `length` is cut to 16 bits for V4 and to 32 bits for V6. */
  function PseudoHeader(source: IPAddr, dest: IPAddr, length: nat, protocol: u8): seq<u8>
    requires SameFamily(source, dest)
  {
    match dest
    case V4(d) => source.a4 + d + [0, protocol] + Be16(length % 0x1_0000)
    case V6(d) => source.a6 + d + Be32(length % 0x1_0000_0000) + [0, 0, 0, protocol]
  }

  function PseudoSum(source: IPAddr, dest: IPAddr, length: nat): u16
    requires SameFamily(source, dest)
  {
    OnesComp(0, PseudoHeader(source, dest, length, PROTO_TCP))
  }

  function AddressSum(a: IPAddr): nat { if a.V4? then WordSum(a.a4) else WordSum(a.a6) }

  /** Two addresses and what follows them. */
  lemma AddressesFirst(source: seq<u8>, dest: seq<u8>, tail: seq<u8>)
    requires |source| % 2 == 0 && |dest| % 2 == 0
    ensures WordSum(source + dest + tail) == WordSum(source) + WordSum(dest) + WordSum(tail)
  {
    WordSumConcat(source + dest, tail);
    WordSumConcat(source, dest);
  }

  lemma TailWords4(length: u16, protocol: u8)
    ensures WordSum([0, protocol] + Be16(length)) == protocol as int + length
  {
    WordSumConcat(Be16(protocol), Be16(length));
    WordSumOne(protocol);
    WordSumOne(length);
    assert Be16(protocol) == [0, protocol];
  }

  lemma TailWords6(length: u32, protocol: u8)
    ensures WordSum(Be32(length) + [0, 0, 0, protocol]) == length / 0x1_0000 + length % 0x1_0000 + protocol
  {
    var hi, lo := Be16(length / 0x1_0000), Be16(length % 0x1_0000);
    var zero, last := Be16(0), Be16(protocol);
    assert Be32(length) + [0, 0, 0, protocol] == (hi + lo) + (zero + last);
    WordSumConcat(hi + lo, zero + last);
    WordSumConcat(hi, lo);
    WordSumConcat(zero, last);
    WordSumOne(length / 0x1_0000);
    WordSumOne(length % 0x1_0000);
    WordSumOne(0);
    WordSumOne(protocol);
  }

  lemma LowBits(n: nat)
    ensures n % 0x1_0000_0000 % 0x1_0000 == n % 0x1_0000
  {
    var k := n / 0x1_0000_0000;
    assert n == n % 0x1_0000_0000 + 0x1_0000 * (0x1_0000 * k);
    AddMultiple(n % 0x1_0000_0000, 0x1_0000 * k);
  }

  lemma AddMultiple(x: nat, k: int)
    ensures (x + 0x1_0000 * k) % 0x1_0000 == x % 0x1_0000
  {}

  lemma PseudoWords(source: IPAddr, dest: IPAddr, length: nat)
    requires SameFamily(source, dest)
    ensures WordSum(PseudoHeader(source, dest, length, PROTO_TCP)) == AddressSum(source) + AddressSum(dest) + 6 +
              if dest.V4? then length % 0x1_0000 else length % 0x1_0000_0000 / 0x1_0000 + length % 0x1_0000
  {
    LowBits(length);
    if dest.V4? {
      var tail: seq<u8> := [0, PROTO_TCP] + Be16(length % 0x1_0000);
      AddressesFirst(source.a4, dest.a4, tail);
      TailWords4(length % 0x1_0000, PROTO_TCP);
      assert PseudoHeader(source, dest, length, PROTO_TCP) == source.a4 + dest.a4 + tail;
    } else {
      var tail: seq<u8> := Be32(length % 0x1_0000_0000) + [0, 0, 0, PROTO_TCP];
      AddressesFirst(source.a6, dest.a6, tail);
      TailWords6(length % 0x1_0000_0000, PROTO_TCP);
      assert PseudoHeader(source, dest, length, PROTO_TCP) == source.a6 + dest.a6 + tail;
    }
  }

  /** Cutting the length to 16 bits first takes the high half out of the sum, for V6. */
  lemma PseudoDifference(source: IPAddr, dest: IPAddr, n: nat)
    requires SameFamily(source, dest)
    ensures var w := WordSum(PseudoHeader(source, dest, n % 0x1_0000, PROTO_TCP));
            var v := WordSum(PseudoHeader(source, dest, n, PROTO_TCP));
            w > 0 && v - w == if dest.V4? then 0 else n % 0x1_0000_0000 / 0x1_0000
  {
    PseudoWords(source, dest, n % 0x1_0000);
    PseudoWords(source, dest, n);
  }

  lemma WordSumOne(n: u16)
    ensures WordSum(Be16(n)) == n
  {
    assert Be16(n)[2..] == [];
  }

  // ---------- options ----------

  datatype Parsed = Parsed(mss: nat) | OutOfBounds | Endless

  /** parse_options from some offset on, `o` being what is left and `mss` the value so far.  A zero
      length byte would keep the loop where it is for ever. */
  function ParseOptions(o: seq<u8>, mss: nat): Parsed
    decreases |o|
  {
    if o == [] || o[0] == 0 then Parsed(mss)
    else if o[0] == 1 then ParseOptions(o[1..], mss)
    else if |o| < 2 || (o[0] == 2 && |o| < 4) then OutOfBounds
    else
      var next := if o[0] == 2 then GetBe16(o, 2) as nat else mss;
      if o[1] == 0 then Endless
      else if o[1] as int >= |o| then Parsed(next)
      else ParseOptions(o[o[1]..], next)
  }

  /** What RFC 9293, section 3.1, lets a sender put into the options field. */
  datatype TcpOption = NoOp | Mss(value: u16) | Other(kind: u8, data: seq<u8>)

  predicate GoodOption(o: TcpOption) { o.Other? ==> o.kind > 2 && |o.data| + 2 <= 0xff }

  function EncodeOption(o: TcpOption): seq<u8>
    requires GoodOption(o)
  {
    match o
    case NoOp => [1]
    case Mss(value) => [2, 4] + Be16(value)
    case Other(kind, data) => [kind, |data| + 2] + data
  }

  function EncodeOptions(list: seq<TcpOption>): seq<u8>
    requires forall i :: 0 <= i < |list| ==> GoodOption(list[i])
  {
    if list == [] then [] else EncodeOption(list[0]) + EncodeOptions(list[1..])
  }

  /** The last maximum segment size option counts. */
  function LastMss(list: seq<TcpOption>, mss: nat): nat {
    if list == [] then mss
    else LastMss(list[1..], if list[0].Mss? then list[0].value else mss)
  }

  lemma ParseOne(o: TcpOption, rest: seq<u8>, mss: nat)
    requires GoodOption(o)
    ensures ParseOptions(EncodeOption(o) + rest, mss) == ParseOptions(rest, if o.Mss? then o.value else mss)
  {
    var all := EncodeOption(o) + rest;
    var n := |EncodeOption(o)|;
    assert all[n..] == rest;
    if o.Mss? {
      assert all[2..4] == Be16(o.value);
      ReadBe16(all, 2, o.value);
    }
  }

  /** Parsing gives back what a list of options says, whatever follows an end-of-list byte. */
  lemma {:induction false} OptionsRoundTrip(list: seq<TcpOption>, padding: seq<u8>, mss: nat)
    requires forall i :: 0 <= i < |list| ==> GoodOption(list[i])
    requires padding == [] || padding[0] == 0
    ensures ParseOptions(EncodeOptions(list) + padding, mss) == Parsed(LastMss(list, mss))
    decreases |list|
  {
    if list == [] {
      assert EncodeOptions(list) + padding == padding;
    } else {
      var rest := EncodeOptions(list[1..]) + padding;
      assert EncodeOptions(list) + padding == EncodeOption(list[0]) + rest;
      ParseOne(list[0], rest, mss);
      OptionsRoundTrip(list[1..], padding, if list[0].Mss? then list[0].value else mss);
    }
  }

  /** The loop of parse_options, where it neither runs out of the header nor for ever. */
  method ParseOptionsLoop(header: seq<u8>) returns (mss: nat)
    requires ParseOptions(header, 0).Parsed?
    ensures ParseOptions(header, 0) == Parsed(mss)
  {
    mss := 0;
    var offset := 0;
    assert header[0..] == header;
    while offset < |header|
      invariant 0 <= offset
      invariant if offset < |header| then ParseOptions(header[offset..], mss) == ParseOptions(header, 0)
                else ParseOptions(header, 0) == Parsed(mss)
      decreases |header| - offset
    {
      ghost var o := header[offset..];
      var optionType := header[offset];
      if optionType == 0 {
        break;
      }
      if optionType == 1 {
        offset := offset + 1;
        assert header[offset..] == o[1..];
        continue;
      }
      var optionLength := header[offset + 1];
      if optionType == 2 {
        mss := GetBe16(header, offset + 2);
      }
      assert optionLength as int < |o| ==> o[optionLength..] == header[offset + optionLength..];
      offset := offset + optionLength;
    }
  }

  // ---------- the TCP header ----------

  const TCP_HEADER_LEN := 20

  datatype SendParams = SendParams(
    sourcePort: u16, destIp: IPAddr, destPort: u16, seqNum: u32, ackNum: u32, flags: u8, window: u16, options: seq<u8>)

  function HeaderLength(p: SendParams): nat { TCP_HEADER_LEN + |p.options| }

  /** The first 16 bytes; the data offset is cut to a byte. */
  function FixedFields(p: SendParams): (s: seq<u8>)
    ensures |s| == 16
  {
    Be16(p.sourcePort) + Be16(p.destPort) + Be32(p.seqNum) + Be32(p.ackNum)
      + [HeaderLength(p) / 4 * 16 % 0x100, p.flags] + Be16(p.window)
  }

  function TcpHeader(p: SendParams, checksum: u16): (s: seq<u8>)
    ensures |s| == HeaderLength(p)
  {
    FixedFields(p) + (Be16(checksum) + [0, 0]) + p.options
  }

  /** The checksum tcp_output computes; its pseudo header has the length cut to 16 bits. */
  function TcpChecksum(host: Host, p: SendParams, payload: seq<u8>): u16 {
    var seed := PseudoSum(LocalFor(host, p.destIp), p.destIp, (HeaderLength(p) + |payload|) % 0x1_0000);
    0xffff - OnesComp(seed, TcpHeader(p, 0) + payload)
  }

  function TcpEncode(host: Host, p: SendParams, payload: seq<u8>): seq<u8> {
    TcpHeader(p, TcpChecksum(host, p, payload)) + payload
  }

  /** validate_checksum */
  predicate Validates(host: Host, source: IPAddr, segment: seq<u8>) {
    Accepts(PseudoSum(source, LocalFor(host, source), |segment|), segment)
  }

  lemma TcpChecksumPlace(p: SendParams, checksum: u16, payload: seq<u8>)
    ensures WordAt(TcpHeader(p, 0) + payload, 16) == 0
    ensures TcpHeader(p, checksum) + payload == ReplaceWord(TcpHeader(p, 0) + payload, 16, checksum)
  {
    var s := TcpHeader(p, 0) + payload;
    var r := ReplaceWord(s, 16, checksum);
    assert s[16] == 0 && s[17] == 0;
    forall i | 0 <= i < |s| ensures (TcpHeader(p, checksum) + payload)[i] == r[i] {}
  }

  /** `dest` is the receiver's own address. */
  predicate Addressed(receiver: Host, dest: IPAddr) {
    dest == LocalFor(receiver, dest)
  }

  /** GENERATE AND VALIDATE: a segment built by tcp_output is accepted by its addressee exactly if
      the length the sender cut to 16 bits and the length the receiver uses agree in the sum: always
      for V4, and for V6 below 65536 bytes and on the few lengths that are congruent anyway. */
  lemma AcceptedIff(sender: Host, receiver: Host, p: SendParams, payload: seq<u8>)
    requires Addressed(receiver, p.destIp)
    ensures var segment := TcpEncode(sender, p, payload);
            Validates(receiver, LocalFor(sender, p.destIp), segment)
            <==> p.destIp.V4? || |segment| % 0x1_0000_0000 / 0x1_0000 % 0xffff == 0
  {
    var source := LocalFor(sender, p.destIp);
    var n := HeaderLength(p) + |payload|;
    var w := WordSum(PseudoHeader(source, p.destIp, n % 0x1_0000, PROTO_TCP));
    var v := WordSum(PseudoHeader(source, p.destIp, n, PROTO_TCP));
    PseudoDifference(source, p.destIp, n);
    TcpChecksumPlace(p, TcpChecksum(sender, p, payload), payload);
    AcceptedWithSeed(w, v, TcpHeader(p, 0) + payload, 16);
  }

  datatype TcpFields = TcpFields(
    sourcePort: u16, destPort: u16, seqNum: u32, ackNum: u32, flags: u8, window: u16, mss: nat)

  /** What tcp_input does with a segment: what the checks of the slices refuse, and what it reads. */
  datatype TcpResult =
    | BadChecksum
    | Fault
    | Decoded(fields: TcpFields, payload: seq<u8>)

  /** `header` is the first fragment of the segment. */
  function TcpDecode(host: Host, source: IPAddr, header: seq<u8>, segment: seq<u8>): TcpResult
    requires header <= segment
  {
    if Validates(host, source, segment) then TcpRead(header, segment) else BadChecksum
  }

  function ReadFields(header: seq<u8>, mss: nat): TcpFields
    requires |header| >= 16
  {
    TcpFields(GetBe16(header, 0), GetBe16(header, 2), GetBe32(header, 4), GetBe32(header, 8),
              header[13], GetBe16(header, 14), mss)
  }

  function TcpRead(header: seq<u8>, segment: seq<u8>): TcpResult
    requires header <= segment
  {
    if |header| < 16 then Fault
    else
      var length := (header[12] / 16) as nat * 4;
      if length < TCP_HEADER_LEN || length > |header| then Fault
      else
        var options := ParseOptions(header[TCP_HEADER_LEN..length], 0);
        if !options.Parsed? then Fault
        else Decoded(ReadFields(header, options.mss), segment[length..])
  }

  lemma FixedFieldsRead(p: SendParams, h: seq<u8>)
    requires FixedFields(p) <= h
    ensures GetBe16(h, 0) == p.sourcePort && GetBe16(h, 2) == p.destPort
    ensures GetBe32(h, 4) == p.seqNum && GetBe32(h, 8) == p.ackNum
    ensures h[12] == HeaderLength(p) / 4 * 16 % 0x100 && h[13] == p.flags && GetBe16(h, 14) == p.window
  {
    var f := FixedFields(p);
    assert forall i, j :: 0 <= i <= j <= 16 ==> h[i..j] == f[i..j];
    assert f[0..2] == Be16(p.sourcePort) && f[2..4] == Be16(p.destPort);
    assert f[4..8] == Be32(p.seqNum) && f[8..12] == Be32(p.ackNum) && f[14..16] == Be16(p.window);
    ReadBe16(h, 0, p.sourcePort);
    ReadBe16(h, 2, p.destPort);
    ReadBe32(h, 4, p.seqNum);
    ReadBe32(h, 8, p.ackNum);
    ReadBe16(h, 14, p.window);
    assert h[12] == f[12] && h[13] == f[13];
  }

  /** The fields, the options and the payload lie one behind the other. */
  lemma HeaderParts(p: SendParams, checksum: u16, payload: seq<u8>, header: seq<u8>)
    requires header <= TcpHeader(p, checksum) + payload && HeaderLength(p) <= |header|
    ensures FixedFields(p) <= header
    ensures header[TCP_HEADER_LEN..HeaderLength(p)] == p.options
    ensures (TcpHeader(p, checksum) + payload)[HeaderLength(p)..] == payload
  {
    var h, length := TcpHeader(p, checksum), HeaderLength(p);
    assert header[..length] == (h + payload)[..length] == h;
    assert h[TCP_HEADER_LEN..] == p.options && h[..16] == FixedFields(p);
    assert header[TCP_HEADER_LEN..length] == header[..length][TCP_HEADER_LEN..];
    assert header[..16] == header[..length][..16];
  }

  lemma DataOffset(length: nat, b: u8)
    requires length % 4 == 0 && length <= 60 && b == length / 4 * 16 % 0x100
    ensures (b / 16) as nat * 4 == length
  {
    assert length / 4 * 16 < 0x100;
  }

  function SentFields(p: SendParams, mss: nat): TcpFields {
    TcpFields(p.sourcePort, p.destPort, p.seqNum, p.ackNum, p.flags, p.window, mss)
  }

  /** What TcpRead makes of a header, given where the header ends. */
  lemma TcpReadIs(header: seq<u8>, segment: seq<u8>, length: nat, options: seq<u8>, mss: nat)
    requires header <= segment && 20 <= length <= |header| && (header[12] / 16) as nat * 4 == length
    requires header[TCP_HEADER_LEN..length] == options && ParseOptions(options, 0) == Parsed(mss)
    ensures TcpRead(header, segment)
         == Decoded(ReadFields(header, mss), segment[length..])
  {}

  /** Reading a segment back, once its checksum is accepted. */
  lemma HeaderRoundTrip(p: SendParams, checksum: u16, mss: nat, payload: seq<u8>, header: seq<u8>)
    requires |p.options| % 4 == 0 && HeaderLength(p) <= 60 && ParseOptions(p.options, 0) == Parsed(mss)
    requires header <= TcpHeader(p, checksum) + payload && HeaderLength(p) <= |header|
    ensures TcpRead(header, TcpHeader(p, checksum) + payload)
         == Decoded(SentFields(p, mss), payload)
  {
    var length := HeaderLength(p);
    HeaderParts(p, checksum, payload, header);
    FixedFieldsRead(p, header);
    DataOffset(length, header[12]);
    TcpReadIs(header, TcpHeader(p, checksum) + payload, length, p.options, mss);
  }

  /** TCP ROUND TRIP: the addressee of an accepted segment reads every field that was sent, the
      options and exactly the payload. */
  lemma TcpRoundTrip(sender: Host, receiver: Host, p: SendParams, list: seq<TcpOption>, padding: seq<u8>,
                     payload: seq<u8>, header: seq<u8>)
    requires Addressed(receiver, p.destIp)
    requires forall i :: 0 <= i < |list| ==> GoodOption(list[i])
    requires padding == [] || padding[0] == 0
    requires p.options == EncodeOptions(list) + padding && |p.options| % 4 == 0 && HeaderLength(p) <= 60
    requires header <= TcpEncode(sender, p, payload) && HeaderLength(p) <= |header|
    ensures var segment := TcpEncode(sender, p, payload);
            TcpDecode(receiver, LocalFor(sender, p.destIp), header, segment)
            == if p.destIp.V4? || |segment| % 0x1_0000_0000 / 0x1_0000 % 0xffff == 0
               then Decoded(SentFields(p, LastMss(list, 0)), payload)
               else BadChecksum
  {
    AcceptedIff(sender, receiver, p, payload);
    OptionsRoundTrip(list, padding, 0);
    HeaderRoundTrip(p, TcpChecksum(sender, p, payload), LastMss(list, 0), payload, header);
  }

  // ---------- what is on the wire, and what is dropped ----------

  /** A segment as RFC 9293, section 3.1, lays it out. */
  lemma TcpOnWire(host: Host, p: SendParams, payload: seq<u8>)
    ensures var b := TcpEncode(host, p, payload);
            && |b| == HeaderLength(p) + |payload|
            && GetBe16(b, 0) == p.sourcePort && GetBe16(b, 2) == p.destPort
            && GetBe32(b, 4) == p.seqNum && GetBe32(b, 8) == p.ackNum
            && (|p.options| % 4 == 0 && HeaderLength(p) <= 60 ==> b[12] as int == HeaderLength(p) / 4 * 16)
            && b[13] == p.flags && GetBe16(b, 14) == p.window && GetBe16(b, 18) == 0
            && b[20..HeaderLength(p)] == p.options && b[HeaderLength(p)..] == payload
  {
    var c := TcpChecksum(host, p, payload);
    var b := TcpHeader(p, c) + payload;
    HeaderParts(p, c, payload, b);
    FixedFieldsRead(p, b);
    assert b[18] == 0 && b[19] == 0;
  }

  /** The option of a SYN. */
  lemma SynOption()
    ensures EncodeOptions([Mss(0x5dc)]) == [2, 4, 0x5, 0xdc] && ParseOptions([2, 4, 0x5, 0xdc], 0) == Parsed(1500)
  {
    assert EncodeOptions([Mss(0x5dc)]) == EncodeOption(Mss(0x5dc)) + EncodeOptions([]);
    OptionsRoundTrip([Mss(0x5dc)], [], 0);
    assert EncodeOptions([Mss(0x5dc)]) + [] == [2, 4, 0x5, 0xdc];
  }

  lemma {:induction false} ParsePrefix(list: seq<TcpOption>, rest: seq<u8>, mss: nat)
    requires forall i :: 0 <= i < |list| ==> GoodOption(list[i])
    ensures ParseOptions(EncodeOptions(list) + rest, mss) == ParseOptions(rest, LastMss(list, mss))
    decreases |list|
  {
    if list == [] {
      assert EncodeOptions(list) + rest == rest;
    } else {
      var next := if list[0].Mss? then list[0].value else mss;
      assert EncodeOptions(list) + rest == EncodeOption(list[0]) + (EncodeOptions(list[1..]) + rest);
      ParseOne(list[0], EncodeOptions(list[1..]) + rest, mss);
      ParsePrefix(list[1..], rest, next);
    }
  }

  /** MALFORMED OPTIONS, after any good ones: without a length byte, or with a segment size cut short,
      the slice is out of range; with a length of zero the loop never ends; with a length beyond the
      header it ends, and that option does not count. */
  lemma MalformedOptions(list: seq<TcpOption>, kind: u8, length: u8, data: seq<u8>, mss: nat)
    requires forall i :: 0 <= i < |list| ==> GoodOption(list[i])
    requires kind > 1
    ensures ParseOptions(EncodeOptions(list) + [kind], mss) == OutOfBounds
    ensures |data| < 2 ==> ParseOptions(EncodeOptions(list) + ([2, length] + data), mss) == OutOfBounds
    ensures kind != 2 || |data| >= 2 ==> (ParseOptions(EncodeOptions(list) + ([kind, 0] + data), mss) == Endless)
    ensures kind != 2 && length as int >= |data| + 2 ==>
              ParseOptions(EncodeOptions(list) + ([kind, length] + data), mss) == Parsed(LastMss(list, mss))
  {
    ParsePrefix(list, [kind], mss);
    ParsePrefix(list, [2, length] + data, mss);
    ParsePrefix(list, [kind, 0] + data, mss);
    ParsePrefix(list, [kind, length] + data, mss);
  }

  /** DROPPED: a segment is decoded if and only if the sum over the pseudo header and over all its bytes
      is accepted, and its header and options lie within the first fragment and can be read. */
  lemma DecodedIff(host: Host, source: IPAddr, header: seq<u8>, segment: seq<u8>)
    requires header <= segment
    ensures TcpDecode(host, source, header, segment).BadChecksum?
            <==> !Accepts(PseudoSum(source, LocalFor(host, source), |segment|), segment)
    ensures TcpDecode(host, source, header, segment).Decoded?
            <==> && Accepts(PseudoSum(source, LocalFor(host, source), |segment|), segment)
                 && |header| >= 16 && 20 <= header[12] / 16 * 4 <= |header|
                 && ParseOptions(header[20..header[12] / 16 * 4], 0).Parsed?
  {}

  lemma PseudoSumPositive(source: IPAddr, dest: IPAddr, n: nat)
    requires SameFamily(source, dest)
    ensures PseudoSum(source, dest, n) > 0
  {
    PseudoWords(source, dest, n);
  }

  /** DAMAGE: of a segment that would be accepted, with any one aligned word replaced, the checksum lets
      through exactly those whose new word is congruent to the old one modulo 0xffff. */
  lemma DamageDropped(host: Host, source: IPAddr, segment: seq<u8>, i: nat, w: u16, header: seq<u8>)
    requires Validates(host, source, segment) && i % 2 == 0 && i + 1 < |segment|
    requires header <= ReplaceWord(segment, i, w)
    ensures TcpDecode(host, source, header, ReplaceWord(segment, i, w)).BadChecksum?
            <==> (w - WordAt(segment, i)) % 0xffff != 0
  {
    var seed := PseudoSum(source, LocalFor(host, source), |segment|);
    PseudoSumPositive(source, LocalFor(host, source), |segment|);
    DamageDetectedIff(seed, segment, i, w);
    DecodedIff(host, source, header, ReplaceWord(segment, i, w));
  }

  lemma BodyReplaced(p: SendParams, checksum: u16, payload: seq<u8>, i: nat, w: u16)
    requires HeaderLength(p) <= i && i + 1 < HeaderLength(p) + |payload|
    ensures ReplaceWord(TcpHeader(p, checksum) + payload, i, w)
         == TcpHeader(p, checksum) + ReplaceWord(payload, i - HeaderLength(p), w)
  {}

  lemma DamagedRead(p: SendParams, checksum: u16, mss: nat, payload: seq<u8>, i: nat, w: u16, header: seq<u8>)
    requires |p.options| % 4 == 0 && HeaderLength(p) <= 60 && ParseOptions(p.options, 0) == Parsed(mss)
    requires HeaderLength(p) <= i && i + 1 < HeaderLength(p) + |payload|
    requires header <= ReplaceWord(TcpHeader(p, checksum) + payload, i, w) && HeaderLength(p) <= |header|
    ensures TcpRead(header, ReplaceWord(TcpHeader(p, checksum) + payload, i, w))
         == Decoded(SentFields(p, mss), ReplaceWord(payload, i - HeaderLength(p), w))
  {
    BodyReplaced(p, checksum, payload, i, w);
    HeaderRoundTrip(p, checksum, mss, ReplaceWord(payload, i - HeaderLength(p), w), header);
  }

  lemma DecodeIs(host: Host, source: IPAddr, header: seq<u8>, segment: seq<u8>)
    requires header <= segment
    ensures TcpDecode(host, source, header, segment)
         == if TcpDecode(host, source, header, segment).BadChecksum? then BadChecksum else TcpRead(header, segment)
  {}

  /** A SENT SEGMENT DAMAGED: with one aligned word of the payload replaced on the way, its addressee
      reads the fields that were sent and the damaged payload if and only if the new word is congruent
      to the old one, and otherwise drops the segment. */
  lemma DamagedSegment(sender: Host, receiver: Host, p: SendParams, list: seq<TcpOption>, padding: seq<u8>,
                       payload: seq<u8>, segment: seq<u8>, i: nat, w: u16, header: seq<u8>)
    requires Addressed(receiver, p.destIp)
    requires forall k :: 0 <= k < |list| ==> GoodOption(list[k])
    requires padding == [] || padding[0] == 0
    requires p.options == EncodeOptions(list) + padding && |p.options| % 4 == 0 && HeaderLength(p) <= 60
    requires segment == TcpEncode(sender, p, payload) && Validates(receiver, LocalFor(sender, p.destIp), segment)
    requires i % 2 == 0 && HeaderLength(p) <= i && i + 1 < |segment|
    requires header <= ReplaceWord(segment, i, w) && HeaderLength(p) <= |header|
    ensures TcpDecode(receiver, LocalFor(sender, p.destIp), header, ReplaceWord(segment, i, w))
         == if (w - WordAt(segment, i)) % 0xffff == 0
            then Decoded(SentFields(p, LastMss(list, 0)), ReplaceWord(payload, i - HeaderLength(p), w))
            else BadChecksum
  {
    DamageDropped(receiver, LocalFor(sender, p.destIp), segment, i, w, header);
    DecodeIs(receiver, LocalFor(sender, p.destIp), header, ReplaceWord(segment, i, w));
    OptionsRoundTrip(list, padding, 0);
    DamagedRead(p, TcpChecksum(sender, p, payload), LastMss(list, 0), payload, i, w, header);
  }
}
