# A verified model of a small TCP/IP stack

The stack moves byte streams between two hosts. Data lives in `NetBuffer`s, linked
chains of 512-byte fragments drawn from one pool; TCP cuts streams into segments,
numbers them with 32-bit words that wrap, puts them together again at the other end and
trims what has been acknowledged; checksums and headers go around the segments; timers
drive retransmission and delayed acknowledgements. The model has four layers.

* **Words, streams, sockets.** `Words` relates wrapped sequence numbers to unbounded
  stream positions. `Reassembler` is the list of early segments, and `Overlaps` what it
  does with segments that overlap in any way. `Socket` is the connection state, as an
  object whose methods are proved equal to functions on its fields. `Lifecycle` proves
  what one socket keeps over every run against any peer, `Fin` when its acknowledgement
  of a FIN is right, `Upkeep` what its timers, acknowledgements and queues do while the
  connection lasts, and `Teardown` how it ends. `Transfer` puts two established sockets and a
  network that loses, duplicates and reorders between them and proves the stream safe in
  every reachable state; `Completeness` says when all of it has been received.
* **Buffers.** `Pool` is the free list, `Buffer` the linked chains with all their
  operations, each proved against the byte string the chain stands for (`Parts` holds
  the lemmas on strings kept in parts). `Heap` runs arbitrary programs over any number
  of buffers on one pool: the heap does what a list of strings does, and every fragment
  is free or in exactly one buffer.
* **Headers and checksums.** `Checksum` is the one's-complement sum (RFC 1071), `Codec`
  the TCP header and options (sections 3.1 and 3.2 of RFC 9293), `Ip` the IP headers,
  `Packets` what tcp_output, ip_output, ip_input and tcp_input do to a `NetBuffer`.
* **Timers.** `Timers` is the timer list, with the scan's unlocked gap as a step of its
  own.

A locked region of the source is one atomic step; the timer scan is split where its
guard is dropped. Random numbers, clock readings, packet numbers and own addresses are
parameters. Fixed words are subset types of the integers with every wrap and truncation
written out; lengths are unbounded unless the source cuts them.

Where a documented promise is not kept by the code, the code is modelled as it is, an
input that shows the difference is given, and it is proved when exactly the promise is
kept:

* segments that overlap: the stream is complete in every order if and only if there is
  no dead end (`Overlaps.SettlesCompleteIff`, `OverlapOrderMatters`);
* due timers passed over when another is cancelled in the gap: a due timer fires if and
  only if no cancel takes it out or swaps it in front of the index
  (`Timers.PassFiresIff`, `CancelMaySkip`);
* the acknowledgement number of a closing connection, which counts a FIN on the state
  alone: before a FIN has come (FIN-WAIT-1, FIN-WAIT-2) it is right if and only if a
  segment beyond a hole has arrived; in CLOSE-WAIT and CLOSING also if every byte is in;
  in LAST-ACK and TIME-WAIT, where the FIN is never counted, unless every byte is in
  (`Fin.FinAcknowledgedIff`, `Fin.SentExactIff`; inputs `AcknowledgesFinBeforeIt`,
  `AcknowledgesLostByte`);
* a FIN that brings no data, for which a comment promises an acknowledgement: it is
  answered only in FIN-WAIT-2, or in FIN-WAIT-1 when it does not acknowledge the own FIN
  (`Teardown.AnsweredIff`), so a peer that closes at once is closed by a reset
  (`HastyTeardown`);
* the response timer, which would give up after five retries but never counts one
  (`Teardown.NeverGivesUp`), and which stops the program if and only if it fires after a
  FIN taken in FIN-WAIT-2, as in every orderly close, or before anything has come to a
  connection that a listener has made (`TrappedIff`, `OrderlyTeardown`,
  `ListenerIsTrapped`);
* tcp_write to a peer whose SYN announced no segment size: its loop gets on if and only
  if some segment has (`Upkeep.WriteGetsOnIff`, `SizeIsZeroIff`);
* the assertion in trim_head: during the handshake (`Lifecycle.FirstSegmentPanicsIff`),
  and after one whose acknowledgement was not checked (`HandshakePanicsIff`);
* retransmission labels (`RetransmitFaithfulIffQueueEmpty`, `RetransmitCanCorrupt`,
  `AwaitedSafeIff`);
* window updates with equal numbers (`WindowUpdateIffNotOlder`,
  `EqualNumbersLastArrivalWins`);
* V6 segments of 65536 bytes and more (`AcceptedIff`);
* timer identifiers after 2^31 - 1 timers (`GoodIdsIff`).

## Model

| member | source | states |
|---|---|---|
| Words.SeqCompareIsOrder | src/stack/util.rs:155-178 | every wrapped comparison, and wrapping_max, agrees with the order of unbounded positions that are less than 2^31 apart |
| Words.SeqCompareReach | src/stack/util.rs:155-158 | and 2^31 is exactly how far that reaches |
| Words.BetweenIsWithin | src/stack/tcp.rs:701-702 | an acknowledgement that passes both wrapped tests is at most the queue's length beyond SND.UNA |
| Reassembler.TCPReassembler.AddPacket | src/stack/tcp.rs:488-516 | the rescanning loop computes `Add`; it ends by (entries left, entries after the index) |
| Reassembler.DrainAssembles | src/stack/tcp.rs:492-506 | what one rescan returns is contiguous stream from the old to the new expected position, laid end to end from stored entries; what is kept is still ahead |
| Reassembler.AddPacketDelivers | src/stack/tcp.rs:488-516 | one call with a piece of the stream, however old, overlapping or early: what comes out continues the stream exactly at the expected position, and the bound on stale entries is kept |
| Reassembler.DeliversAPrefix | src/stack/tcp.rs:488-516 | over every run of arrivals: everything delivered is a prefix of the stream and ends at next_sequence, across any number of wraps |
| Reassembler.DeliveredUpToFirstMissing | src/stack/tcp.rs:488-516 | confluence: of a stream cut into segments, what is delivered is the stream up to the first segment that has not arrived, whatever the order and the repetitions |
| Reassembler.CompleteIffAllArrived | src/stack/tcp.rs:488-516 | of such a cut, the whole stream comes out if and only if every segment has arrived |
| Reassembler.OverlapOrderMatters | src/stack/tcp.rs:495-505 | a run in which all bytes arrive, cut differently in overlapping segments, and the last one stays behind; the other order delivers all |
| Overlaps.NoneStartsAtDelivered | src/stack/tcp.rs:488-516 | however segments overlap: none that has ever arrived starts at the position awaited |
| Overlaps.DeliveredIsReachable | src/stack/tcp.rs:488-516 | and that position is reached from the start by laying segments that have arrived end to end |
| Overlaps.CompleteIfNoDeadEnd | src/stack/tcp.rs:488-516 | if every position so reached, short of the end, is the start of a segment that has arrived, the whole stream has been delivered |
| Overlaps.SettlesCompleteIff | src/stack/tcp.rs:488-516 | of any set of overlapping segments of a stream: every admissible order, with any repetitions, after which nothing within reach is still to come, ends with the whole stream delivered if and only if they have no such dead end |
| Overlaps.DeliversInEveryOrderIff | src/stack/tcp.rs:488-516 | in particular, of a stream no longer than the network's reach, every order of all the segments does if and only if that is so |
| Reassembler.HighWaterIsTop | src/stack/tcp.rs:644-647 | receive_next_seq is the largest end of any segment received |
| Reassembler.TopBoundsDelivered | src/stack/tcp.rs:644-652 | next_sequence never passes it |
| Reassembler.NoHoleIffAllDelivered | src/stack/tcp.rs:405-417 | the test receive_next_seq == next_sequence is true exactly if no received segment ends beyond what was delivered |
| Socket.TCPSocketState.TcpInput | src/stack/tcp.rs:620-836 | the object's update is `Input`: reset, data, acknowledgement, window, state match, and the failed trim assertion as its own outcome; a reset closes the socket, sends nothing and leaves what was received and queued |
| Socket.TCPSocketState.TcpWrite | src/stack/tcp.rs:249-297 | up to its next wait: a closed socket takes and sends nothing; otherwise the payloads sent, end to end and numbered in sequence from SND.NXT, are the bytes taken, which are exactly what is added to the queue; nothing else changes; and it takes less than all only if the window is shut |
| Socket.TCPSocketState.TcpRead | src/stack/tcp.rs:230-246 | what the caller gets and what stays are the queue before; it gets nothing exactly from an empty queue, and is then told to wait if the connection is open and that the stream has ended if not |
| Socket.TCPSocketState.RetransmitTimeout | src/stack/tcp.rs:329-348 | the head of the queue is sent again, under the label the code gives it, and stays queued; the send side is as before |
| Socket.TCPSocketState.DelayedAckTimeout | src/stack/tcp.rs:671-681 | one empty acknowledgement of what has come in, and the count starts again; the send side is as before |
| Socket.TCPSocketState.TcpClose | src/stack/tcp.rs:195-224 | close in every state: exactly from ESTABLISHED and CLOSE-WAIT one FIN with ACK goes out, to FIN-WAIT-1 and LAST-ACK, with the response timer set; LISTEN closes; elsewhere nothing happens; no queue is touched |
| Socket.WriteTakesInOrder | src/stack/tcp.rs:249-297 | the same of the specification, for every socket and all data |
| Socket.TCPSocketState.ResponseTimeoutFires | src/stack/tcp.rs:989-1034 | the object's update is `ResponseTimeout`, its panic an outcome of its own |
| Socket.TCPSocketState.TimeWaitTimeoutFires | src/stack/tcp.rs:1036-1048 | the socket is closed |
| Lifecycle.AckWithinQueue | src/stack/tcp.rs:698-740 | no acknowledgement number trims more than the queue holds, and SND.NXT - SND.UNA stays the queue's length |
| Lifecycle.OpenWindowMeansRoom | src/stack/tcp.rs:258-276 | the wrapped window test lets a packet out only if the whole queue then fits the send window |
| Lifecycle.SendSideInvariant | src/stack/tcp.rs:257-284 | over every run after the handshake, with arbitrary segments arriving: the retransmit queue is exactly the unacknowledged end of the bytes written, has length SND.NXT - SND.UNA, never exceeds 65535, and trim_head's assertion never fails |
| Lifecycle.EventRaisesRank | src/stack/tcp.rs:742-835 | every change of state raises the rank of the connection |
| Lifecycle.AtMostFiveChanges | src/stack/tcp.rs:742-835 | so every run has at most five, whatever is interleaved |
| Lifecycle.ClosedIsFinal | src/stack/tcp.rs:634-640 | and a closed socket stays closed |
| Lifecycle.FirstSegmentPanicsIff | src/stack/tcp.rs:698-707 | on a connection a listener has just made, the assertion in trim_head fails if and only if the first segment acknowledges a number after the peer's own and not after ours |
| Lifecycle.TrimFailsIff | src/stack/tcp.rs:701-709 | with an empty retransmit queue some acknowledgement number fails that assertion if and only if SND.UNA is not SND.NXT |
| Lifecycle.HandshakePanicsIff | src/stack/tcp.rs:742-774 | after the handshake of an opener or a listener some segment fails that assertion if and only if the number that completed it was not the initial one plus one; if it was, the send side is in the order in which no segment ever does |
| Upkeep.WriteIsRun | src/stack/tcp.rs:257-284 | a call of tcp_write is a run of one-packet events that accept the same bytes, send the same segments and end in the same socket, so that what every run keeps holds across calls |
| Upkeep.WriteRunsOn | src/stack/tcp.rs:257-284 | and so it is after any such events |
| Upkeep.WriteGetsOnIff | src/stack/tcp.rs:257-284 | a turn of its loop takes something if and only if the segment size is not zero; otherwise the next turn finds everything as this one did |
| Upkeep.SizeIsAnnounced | src/stack/tcp.rs:622-625 | over every run the segment size is the last one announced |
| Upkeep.SizeIsZeroIff | src/stack/tcp.rs:914 | on a listener's connection it is zero exactly until a segment announces one |
| Upkeep.AckRemoves | src/stack/tcp.rs:698-723 | past the handshake a segment takes out of the queue exactly the bytes it acknowledges, and none if it acknowledges more than is queued, bears no ACK, or the connection is closed or in TIME-WAIT |
| Upkeep.AckSetsWindow | src/stack/tcp.rs:729-739 | in every other state a newer segment that acknowledges everything sets the window |
| Upkeep.QueueIsGuarded | src/stack/tcp.rs:286-291 | over every run the retransmission timer is set exactly while bytes are queued |
| Upkeep.DataAnsweredIff | src/stack/tcp.rs:654-687 | on an open connection data is answered at once if and only if it is the fifth segment or ends the stream; otherwise the timer is set |
| Upkeep.UnansweredIsCounted | src/stack/tcp.rs:654-695 | over every run of an open connection the socket counts the data segments not yet answered, never lets five wait, and has the timer set exactly if there are any |
| Upkeep.ReadIsDelivered | src/stack/tcp.rs:230-246 | over every run past the handshake, also after a close and after a FIN: what was read and what is queued are exactly what reassembly has delivered |
| Fin.ReceiveSideFollows | src/stack/tcp.rs:642-652 | over every run of events past the handshake, next_sequence, the early list and receive_next_seq are those of the run of the data segments that have arrived |
| Fin.StateTellsFin | src/stack/tcp.rs:776-829 | over every run from the established state: in ESTABLISHED, FIN-WAIT-1 and FIN-WAIT-2 no FIN has arrived, in CLOSE-WAIT, CLOSING, LAST-ACK and TIME-WAIT one has |
| Fin.FinAcknowledgedIff | src/stack/tcp.rs:405-417 | over every run from the established state, state by state: when exactly the acknowledgement number is that of what has been received, a FIN that has arrived included; and the number of the FIN is acknowledged exactly in four states, once every byte is in |
| Fin.SentExactIff | src/stack/tcp.rs:402-445 | the same of every segment sent by any event: it acknowledges exactly what has been received by then if and only if the condition holds for the state before the event |
| Fin.AcknowledgesFinBeforeIt | src/stack/tcp.rs:408-417 | a closing socket to which one byte and no FIN has come acknowledges one number too many |
| Fin.BeyondNextIsIgnored | src/stack/tcp.rs:698-739 | and a sender takes no notice of an acknowledgement one beyond its SND.NXT, so that byte stays queued |
| Fin.AcknowledgesLostByte | src/stack/tcp.rs:408-417 | a byte is lost, a FIN without data arrives, and the lost byte is acknowledged |
| Fin.BareFin | src/stack/tcp.rs:776-781 | a FIN without data closes the receive side whatever its own number is, and one beyond the position awaited is then acknowledged unless something beyond it has arrived |
| Teardown.StateIsHistory | src/stack/tcp.rs:742-836 | over every run from the established state, the state is the one that belongs to what has happened: closes, FINs and their order, whether the own FIN was acknowledged, resets and the end of TIME-WAIT |
| Teardown.ClosedIff | src/stack/tcp.rs:634-640 | the connection is closed if and only if a reset has come, TIME-WAIT has run out, or any acknowledgement at all has come after a close in answer to a FIN |
| Teardown.ResetCloses | src/stack/tcp.rs:634-640 | in particular a reset among the events closes it for good |
| Teardown.OpensIff | src/stack/tcp.rs:742-774 | a socket being opened stays in its state until the first acknowledgement or reset, and the first acknowledgement establishes it |
| Teardown.NeverGivesUp | src/stack/tcp.rs:989-1000 | over every run no retry is counted and the response timer changes no state, however often it fires |
| Teardown.GivesUpIff | src/stack/tcp.rs:992-1000 | it would close the socket if and only if five were counted |
| Teardown.CountIsReset | src/stack/tcp.rs:449-456 | every change of state starts the count again |
| Teardown.SendsAgain | src/stack/tcp.rs:1003-1022 | what goes out again: the very SYN that opened, a FIN without ACK while the own one is not acknowledged, an ACK after the peer's; the socket stays as it was |
| Teardown.TrappedIff | src/stack/tcp.rs:1024-1031 | over every run the response timer is set in a state in which it stops the program if and only if the last segment to arrive was a FIN taken in FIN-WAIT-2, or it was so from the start |
| Teardown.ListenerIsTrapped | src/stack/tcp.rs:911-926 | as it is on a connection that a listener has just made |
| Teardown.HandshakeInSync | src/stack/tcp.rs:742-774 | the code's own handshake, for all initial numbers, ends in two sockets in step, each with the segment size the other announced |
| Teardown.OrderlyTeardown | src/stack/tcp.rs:195-224 | of any two sockets in step: close, acknowledgement, close, with the code's own segments, take both to CLOSED; the first closer waits with the response timer set |
| Teardown.SimultaneousTeardown | src/stack/tcp.rs:800-829 | when both close and the FINs cross, both pass CLOSING and TIME-WAIT to CLOSED |
| Teardown.HastyTeardown | src/stack/tcp.rs:582-597 | when the second closes at once, its FIN is not answered and sent again without end and without effect, until it finds no socket and the reset for it closes the second |
| Teardown.AnsweredIff | src/stack/tcp.rs:642-696 | past the handshake, exactly which segments are answered at once; a bare FIN only in FIN-WAIT-2, or in FIN-WAIT-1 if it does not acknowledge the own FIN |
| Transfer.HandshakeStarts | src/stack/tcp.rs:742-774 | the code's own three-way handshake, for all initial sequence numbers, ends in a start of the transfer |
| Transfer.CallIsTurns | src/stack/tcp.rs:249-297 | a whole call of tcp_write by an established endpoint is a sequence of allowed turns, so the following holds of calls |
| Transfer.EndToEnd | src/stack/tcp.rs:230-297 | in every reachable state, in both directions: read ++ queued is a prefix of written, SND.UNA <= received <= SND.NXT, every undelivered byte is still in the retransmit queue, no queue exceeds 65535 |
| Transfer.NeverStuck | src/stack/tcp.rs:642-723 | in every reachable state every step succeeds: no assertion fails |
| Transfer.RightEdgeIsMonotone | src/stack/tcp.rs:402-417 | advertised ack + window is a constant plus the bytes read, so it never moves left, and the 16-bit truncation is exact |
| Transfer.WindowUpdateIffNotOlder | src/stack/tcp.rs:729-739 | a packet sets the window if and only if it is the first to, was not sent before the one that last set it, or bears the same numbers; the window is always that of the packet that last set it, and its position never goes back |
| Transfer.EqualNumbersLastArrivalWins | src/stack/tcp.rs:729-735 | a state reached from a start by seven allowed turns in which two acknowledgements bear equal numbers and the one sent first, arriving last, has set the window back |
| Transfer.RetransmitFaithfulIffQueueEmpty | src/stack/tcp.rs:338-342 | a retransmission is labelled with the position of its bytes if and only if there was nothing to retransmit |
| Transfer.RetransmitPayload | src/stack/tcp.rs:340-341 | its payload is nevertheless the head of what is unacknowledged |
| Transfer.RetransmitCanCorrupt | src/stack/tcp.rs:329-348 | a run of four steps in which one byte written is received twice |
| Transfer.AwaitedSafeIff | src/stack/tcp.rs:642-652 | a copy with data at the position awaited keeps what is received a prefix of what is written if and only if its payload is what was written there |
| Completeness.ReceivedIffDelivered | src/stack/tcp.rs:249-297 | in every reachable state and each direction, if no retransmitted copy with data was delivered: everything written has been received if and only if every packet of tcp_write has been delivered |
| Completeness.ReceivedIfNoDeadEnd | src/stack/tcp.rs:488-516 | and with such copies it has if the data delivered has no dead end |
| Pool.FragmentPool.Grow | src/stack/buf.rs:91-105 | sixteen new fragments on the free list, the list and the counters in order |
| Pool.FragmentPool.Alloc | src/stack/buf.rs:108-122 | one fragment goes from free (or new) to live, unlinked and empty |
| Pool.FragmentPool.Free | src/stack/buf.rs:130-134 | one fragment goes from live to free |
| Pool.FragmentPool.FreeChain | src/stack/buf.rs:376-380 | every fragment of a chain goes back, once |
| Buffer.NetBuffer.Prealloc | src/stack/buf.rs:193-211 | a buffer of the asked length, all fragments but the first full |
| Buffer.NetBuffer.AllocHeader | src/stack/buf.rs:262-291 | prepends zeros, contiguous in the head fragment; an even header keeps the fragments even |
| Buffer.NetBuffer.TrimHead | src/stack/buf.rs:294-329 | drops a prefix; fragments dropped return to the pool |
| Buffer.NetBuffer.TrimTail | src/stack/buf.rs:332-381 | drops a suffix; fragments dropped return to the pool |
| Buffer.NetBuffer.AppendFromSlice | src/stack/buf.rs:385-420 | appends; ends although a turn may copy nothing; a chain of full fragments stays one |
| Buffer.NetBuffer.AppendFromBuffer | src/stack/buf.rs:443-447 | appends a prefix of another buffer, which is untouched |
| Buffer.NetBuffer.AppendBuffer | src/stack/buf.rs:451-463 | concatenates, the other buffer keeping no fragment |
| Buffer.NetBuffer.CopyToSlice | src/stack/buf.rs:424-439 | copies a prefix into the slice and nothing else; both final assertions hold |
| Buffer.NetBuffer.Drop | src/stack/buf.rs:163-171 | every fragment returns to the pool |
| Buffer.BufferIterator.Next | src/stack/buf.rs:469-486 | the next fragment's bytes, or as many as remain |
| Parts.DropBytesIsDrop | src/stack/buf.rs:302-322 | dropping fragment by fragment is dropping from the string |
| Parts.TakeBytesIsTake | src/stack/buf.rs:352-371 | cutting at a fragment is taking from the string |
| Parts.FillPartsAppends | src/stack/buf.rs:404-417 | filling fragment after fragment is appending to the string |
| Parts.FillPartsFull | src/stack/buf.rs:404-417 | and leaves every fragment but the last full |
| Parts.GivenAll | src/stack/buf.rs:443-446 | what a limited iterator gives until it ends is the prefix of that length |
| Heap.Buffers.Do | src/stack/buf.rs:181-464 | one operation on one of many buffers changes the list of strings as `Apply` says and no other string |
| Heap.Buffers.Run | src/stack/buf.rs:181-464 | any program of operations over any number of buffers does to the heap what `ApplyAll` does to the strings |
| Heap.Buffers.Conservation | src/stack/buf.rs:91-134 | created = free + live, allocated - freed = live; no fragment is both, and every live one is in exactly one buffer; when all buffers are gone everything allocated has been freed |
| Heap.InOne | src/stack/buf.rs:151-158 | a fragment is live if and only if some buffer holds it, and then one only |
| Heap.RecvPacket | src/stack/netif.rs:65-83 | the preallocated buffer cut to what arrived holds it, from the start of full fragments |
| Checksum.ComputeOnesComp | src/stack/util.rs:88-106 | the sum, in a 32-bit accumulator that does not overflow, and the folding loop, which ends |
| Checksum.CanonicalIsUnique | src/stack/util.rs:101-105 | the result is 0 only for 0, otherwise the one congruent value in 1..0xffff |
| Checksum.AccumulatorFitsIff | src/stack/util.rs:89-99 | no seed and no contents of length n overflow the accumulator if and only if n <= 0x20000 |
| Checksum.OnesCompChains | src/stack/util.rs:112-119 | continuing from the folded sum of an even part is exact |
| Checksum.PartsSumFlat | src/stack/util.rs:112-119 | with even fragments before the last, the sum over fragments is the sum over the bytes |
| Checksum.OddPartsDiffer | src/stack/util.rs:112-119 | without that they differ |
| Checksum.DamageDetectedIff | src/stack/tcp.rs:848-849 | of an accepted segment with one aligned word replaced, exactly those are accepted whose word is congruent modulo 0xffff |
| Checksum.AcceptedWithSeed | src/stack/tcp.rs:957-973 | a checksum made with one pseudo header is accepted under another exactly if their sums are congruent |
| Codec.OptionsRoundTrip | src/stack/tcp.rs:856-892 | parsing the encoding of any list of options, padded, gives its last maximum segment size |
| Codec.ParseOptionsLoop | src/stack/tcp.rs:856-892 | the loop computes `ParseOptions` wherever it neither leaves the header nor runs for ever |
| Codec.PseudoDifference | src/stack/util.rs:180-207 | cutting the length to 16 bits first takes its high half out of the V6 sum and nothing out of the V4 sum |
| Codec.AcceptedIff | src/stack/tcp.rs:957-973 | a segment of tcp_output passes validate_checksum at its addressee if and only if it is V4, or the high half of its length is congruent to 0: in particular below 65536 bytes |
| Codec.TcpRoundTrip | src/stack/tcp.rs:549-574 | tcp_input reads back every field, the options and the payload of an accepted segment, and refuses the others |
| Codec.TcpOnWire | src/stack/tcp.rs:938-973 | every field, the options and the payload are at the positions of section 3.1 of RFC 9293 |
| Codec.SynOption | src/stack/tcp.rs:429-433 | the option bytes of a SYN announce 1500 |
| Codec.MalformedOptions | src/stack/tcp.rs:856-892 | after any good options: what is cut short, what has length zero, and what runs beyond the header |
| Codec.DecodedIff | src/stack/tcp.rs:543-574 | a segment is dropped for its checksum if and only if the sum over pseudo header and bytes is not accepted, and decoded if and only if it is and header and options can be read |
| Codec.DamageDropped | src/stack/tcp.rs:543-547 | of a segment that would be accepted, with any one aligned word replaced, exactly those are dropped for the checksum whose new word is not congruent to the old one |
| Codec.DamagedSegment | src/stack/tcp.rs:543-574 | of a segment built by tcp_output, with an aligned word of the payload replaced on the way: it is read, with the damage, if and only if the words are congruent |
| Ip.Header4Accepted | src/stack/ip.rs:158-159 | every V4 header built sums to zero at the receiver |
| Ip.IpRoundTrip | src/stack/ip.rs:65-94 | ip_input finds the protocol, the sender's address and the payload, V4 and V6 |
| Ip.IpOnWire | src/stack/ip.rs:140-174 | every field of a packet, both addresses, lengths, identification and lifetime are at the positions of RFC 791 and RFC 8200, and the V4 header sums right |
| Ip.DeliveredIff | src/stack/ip.rs:38-94 | a V4 packet is delivered if and only if its header sums right, is no fragment and lies within the first fragment of the buffer; a V6 packet if it is long enough; no other version |
| Ip.DamagedHeaderIff | src/stack/ip.rs:72-83 | of a V4 packet built by ip_output, with one header word replaced on the way, exactly those are delivered whose new word is congruent and makes no fragment |
| Ip.Encapsulation | src/stack/ip.rs:140-162 | ip_input and tcp_input after tcp_output and ip_output recover protocol, source, ports, numbers, flags, window, options and exactly the payload |
| Packets.ComputeBufferOnesComp | src/stack/util.rs:112-119 | the sum over a fragmented buffer, equal to that of its bytes when all fragments but the last are even |
| Packets.ComputePseudoHeaderChecksum | src/stack/util.rs:180-207 | the sum over the pseudo header of either family |
| Packets.TcpOutput | src/stack/tcp.rs:938-973 | a buffer with even fragments becomes `TcpEncode` of its bytes, and keeps even fragments |
| Packets.ValidateChecksum | src/stack/tcp.rs:838-850 | the receiver's test over a fragmented buffer is the one over its bytes |
| Packets.TcpInput | src/stack/tcp.rs:543-574 | the buffer's first fragment and bytes are read as `TcpDecode` says, and the payload remains; nothing is read unless the pseudo header and the old bytes sum right, and otherwise the bytes stay |
| Packets.IpOutput | src/stack/ip.rs:140-174 | the buffer becomes `IpEncode` of its bytes, every field at its position |
| Packets.IpInput | src/stack/ip.rs:38-94 | the buffer is read as `IpDecode` says, and fragments stay even |
| Packets.DataPacket | src/stack/tcp.rs:278-281 | the send path hands even fragments to the checksum |
| Packets.RetransmitPacket | src/stack/tcp.rs:340-342 | so does the retransmit path, however the queue is fragmented |
| Packets.Arrival | src/stack/ip.rs:38-94 | so does the receive path |
| Packets.Deliver | src/stack/tcp.rs:543-574 | a packet of the peer, taken in by the device buffer, ip_input and tcp_input, yields its fields, options and payload on the heap |
| Timers.TimerList.SetTimer | src/stack/timer.rs:66-80 | the new timer is pushed with the next identifier, and a cancel with it would find a timer |
| Timers.TimerList.CancelTimer | src/stack/timer.rs:85-96 | the first timer with the identifier is swapped out, and the answer says whether there was one |
| Timers.TimerList.LookAt | src/stack/timer.rs:105-121 | one turn of the scan: a due timer comes out and no other |
| Timers.EachTimerOnce | src/stack/timer.rs:66-123 | over every interleaving with the scan: each timer ever set is pending, fired or cancelled, exactly one of these, once; and none fires before its deadline |
| Timers.CancelledNeverFires | src/stack/timer.rs:85-96 | after cancel_timer answered true, the closure has not run and never will, in any continuation |
| Timers.CancelIffPending | src/stack/timer.rs:82-96 | with fewer than 2^31 timers set, cancel_timer answers true exactly if the timer of that identifier is pending, and takes that one out |
| Timers.GoodIdsIff | src/stack/timer.rs:63-72 | identifiers are positive and distinct if and only if fewer than 2^31 timers have been set |
| Timers.PassFiresIff | src/stack/timer.rs:85-122 | a timer that was pending and due when a pass began has fired when it ends if and only if no cancel_timer in between found that timer, or, in a gap, found one before the index while that timer was the last of the list |
| Timers.PassFiresAllDue | src/stack/timer.rs:102-122 | in particular all of them have when nothing is cancelled |
| Timers.CancelMaySkip | src/stack/timer.rs:105-121 | a pass in which a cancellation moves a due timer past the index: it does not fire, and stays pending |
| Timers.TurnDescends | src/stack/timer.rs:105-122 | if closures set only later deadlines, every turn lowers (due timers, distance to the end of the list) |

## Left out

- The device, its iovecs and C functions, printing, metrics display, applications and scripts: input and output only.
- icmp.rs and udp.rs: thin callers of the buffer operations; they would add easy members.
- Mutexes, condition variables and threads: a locked region is one atomic step, and a wait ends the step. A blocked tcp_write is modelled up to its next wait.
- The port map, the listener's queue and the choice of ports: the model starts where a socket has been found.
- Buffer.BufferFragment: its 512 bytes are a field that holds a sequence of fixed length, replaced as a whole, rather than an array shared by reference; the source has them inline, so no aliasing is lost.
- Pool counters: unbounded instead of 32-bit wrapping counters.
- Packets.TcpOutput: the header fields are written, in the source's order, into a local header that is then stored into the zeroed head of the buffer, where the source writes through a borrowed slice.
- Packets.TcpInput: where the source stops at a slice out of range, or loops for ever on a zero option length, the model returns None.
- Heap.Buffers.Do: header bytes are written together with their allocation, as every caller in the source does.
- Transfer.EndToEnd: a copy may be delivered while it is less than 2^31 - 65535 behind, one window short of where the comparisons turn over; a mislabelled retransmission is delivered only if its bytes happen to be those at its label, because without that the property is false (RetransmitCanCorrupt). Late duplicates of the SYN and the SYN-ACK, and closing segments, are not part of that run.
- Transfer.RightEdgeIsMonotone: stated for established sockets; what a closing socket acknowledges is in Fin.
- Overlaps.SettlesCompleteIff: segments are not empty, as tcp_input hands none of those on.
- Fin.FinAcknowledgedIff: arrivals are as young as for Reassembler.NoHoleIffAllDelivered.
- Completeness.ReceivedIffDelivered: whether the network ever delivers, and whether the timers make the sockets try again, is not part of it.
- Socket.AckNumber: the plain addition of one to a 32-bit word wraps, as in a release build.
- Reassembler.NoHoleIffAllDelivered: arrivals are less than 2^31 behind the newest position seen, which the comparison in receive_next_seq needs as well.
- Socket: a timer is modelled by whether it is armed; that identifiers name timers is proved in Timers. The receive and retransmit queues are byte strings there; that buffers behave as such strings is proved in Heap.
- Handshakes with an acknowledgement other than the initial number plus one: the code checks it nowhere, so beyond Lifecycle.FirstSegmentPanicsIff, Lifecycle.HandshakePanicsIff and Teardown.OpensIff nothing is claimed about them.
- Socket.TCPSocketState.TcpWrite: a segment size of zero is excluded, because the loop then never ends; Upkeep.SizeIsZeroIff says when that is.
- Teardown.TrappedIff: time is not modelled; that the response timer (3000 ms) is shorter than TIME-WAIT (5000 ms) is read off the constants.
- Teardown.HastyTeardown: the reset that answers a segment without a socket is a function; the port map that finds none is not modelled.
- Teardown.StateIsHistory: TIME-WAIT may run out at any time in the model, also in other states, where it closes the socket as the code would.
- Ip.DamagedHeaderIff: the first word is excepted, as it says how long the header is.
- Timers: the thread that repeats passes, and what closures do apart from setting and cancelling timers.
