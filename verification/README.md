# Verified model of the user-space TCP/IP, TLS 1.3 and HTTP stack

The project models the stack's own logic and proves what it is for: bytes
written at one end come out at the other, in order and once, through a 32-bit
window, a retransmission queue, a lossy network, records, keys and parsers.

Everything verifies with `dafny verify dfyconfig.toml` (Dafny 4.11).

## How it is built

Code that changes things in place is modelled in place: a class or a loop whose
`ensures` equates the new state, or the result, with a function of the old one.
The theorems are about those functions, over all inputs and all runs.

- **TCP** (`TcpModel`, `TcpConnections`, `TcpSender`, `TcpRun`, `TcpStream`,
  `TcpMss`, `TcpWindow`, `TcpLifecycle`, `TcpAfterClose`, `TcpNet`, `TcpEndToEnd`).
  One function per lock-held step of the connection; one class whose methods refine
  them. Next to the 32-bit fields a connection carries history (unbounded stream positions, the bytes written and delivered) that no
  branch reads. An event of a run is a call of the application, a segment that
  arrives (any segment) or a timer that fires (stale firings included). Two
  endpoints, each of which may call Close at any time, and a network that drops,
  duplicates and reorders stand on top.
- **Packets** (`Wire`, `Checksum`, `Packets`, `PacketLayout`, `PacketFlush`,
  `TcpOptions`, `TcpFrames`). The Internet checksum of RFC 1071, Ethernet, IPv4 and TCP
  serialization and parsing, the MSS option, the packet of `sendSegmentAt`.
- **X25519** (`Bits`, `Modular`, `Montgomery`, `Projective`, `Ladder`,
  `OrderEight`, `X25519`). `big.Int` is `int`; the loop with deferred swaps refines the
  ladder's recursion. Fermat's little theorem is proved; that 2^255 - 19 is
  prime is a hypothesis where a statement needs inverses.
- **TLS** (`TlsRecord`, `TlsLayout`, `TlsModel`, `TlsFraming`, `TlsConnections`,
  `HelloModel`, `HelloGrammar`, `HelloParser`, `TlsMessages`,
  `TlsHandshakeModel`, `TlsHandshake`, `TlsClient`, `TlsNonces`). The AEAD is a pair of
  functions with one law, that Open undoes Seal under equal nonce and header
  (and a 16-byte tag). Hash, key schedule and signature are function parameters.
- **HTTP** (`HttpModel`, `HttpText`, `HttpNumber`, `HttpGrammar`, `HttpReader`).
  The request reader, and the grammar of what it accepts in terms of rendered
  lines and written numbers.

A function that a method refines is not its own specification: what it computes
is pinned by a statement in other terms: positions, a renderer or a parser of the
other side, big-endian values of bytes, an index, a run.

## Where the code and its comments differ

The model follows the code; each difference is stated exactly.

- tcp/seq.go:3-7 says the comparisons are right within 2^31. At 2^31 itself they
  are right in one direction only (`Seq32.OrderAgrees`).
- tcp/stack.go:278-285 takes SND.UNA from the handshake ACK unchecked; the send
  half is sound exactly when that ACK is ISS + 1 (`TcpStream.HandshakeIff`), and
  sends nothing after a number ahead of it (`TcpStream.WrongAckStalls`).
- tcp/stack.go:154 says that WL2 is overwritten on the first real ACK; the handshake's
  ACK sets the window alone (tcp/stack.go:283-285), and WL1 and WL2 wait for an ACK
  that advances SND.UNA (`TcpWindow.StepView`).
- tcp/stack.go:219-231 updates the window only when SND.UNA advances, where section
  3.10.7.4 of RFC 9293 also does so at SND.UNA: with nothing in flight a closed window
  never opens again (`TcpWindow.ReopenIff`, `TcpWindow.StuckForever`).
- tcp/connection.go:116-129 sends the FIN at SND.NXT even with bytes unsent; it
  ends the stream exactly when there are none (`TcpStream.CloseIff`). What is sent
  later stands one position too far (`TcpStream.CloseMisplaces`,
  `TcpStream.MisplacedRun`) and is never delivered (`TcpEndToEnd.CloseCuts`).
- tcp/stack.go:328-336 takes a FIN at any sequence number (`TcpStream.FinIff`); the
  reader has the whole stream exactly when the FIN had RCV.NXT when it was taken
  (`TcpEndToEnd.EndOfStreamIff`, `TcpEndToEnd.OvertakenRun`).
- tls/handshake.go:103-112 switches keys without looking at the handshake buffer,
  where section 5.1 of RFC 8446 forbids a message to span a key change: bytes
  behind the ClientHello begin the client's next message, so a Finished may be
  sent in the clear, in part or whole (`TlsHandshake.KeySwitchIff`,
  `TlsHandshake.AnyCutCompletes`).
- tls/handshake.go:190-194 refuses bytes behind the Finished after it has already
  installed the application keys (`TlsHandshake.CompletesIff`).
- tls/record.go:123-125 says every (key, nonce) pair is used once; that holds
  exactly up to 2^64 records per key (`TlsNonces.NoReuseIff`).
- tls/record.go:221-225 relies on non-zero content types; a record of type 0,
  and no other, does not come back (`TlsRecord.SealOpen`).
- http/parse.go:12-14 names limits of 8192 bytes and 100 headers; a line must be
  shorter than 8192 bytes before its LF, and 99 headers pass
  (`HttpGrammar.LineForward`, `HttpGrammar.HeadersForward`).

## Model

| member | source | states |
|---|---|---|
| Seq32.OrderAgrees | tcp/seq.go:9-12 | the four comparisons order unbounded positions up to a distance of 2^31, and at that distance exactly when the first is not the larger |
| Seq32.WrapInjective | tcp/seq.go:3-12 | positions less than a lap apart with the same 32-bit number are equal |
| TcpConnections.TcpConnection.HandleSyn | tcp/stack.go:125-173 | the connection of a SYN is the one of which TcpMss.SynAnswered, TcpMss.LimitIs and the theorems over runs speak |
| TcpMss.SynAnswered | tcp/stack.go:141-171 | one SYN+ACK with sequence number ISN, acknowledging the SYN, with the option bytes of MSS 1460; RCV.NXT and SND.NXT one past the two SYNs |
| TcpMss.LimitIs | tcp/stack.go:129-139 | a segment may carry min(m, 1460) bytes when the options are well-formed others and then MSS m, 536 when m is 0 or there is no such option |
| TcpMss.PayloadsBounded | tcp/stack.go:129-139 | over every run from a SYN every payload, sent for the first time or again, has at most 1460 bytes and at most the announced MSS, 536 without one; every segment offers window 65535 |
| TcpMss.BoundReached | tcp/connection.go:165-204 | with nothing unsent and an MSS of room in the window, a Write of at least an MSS first sends exactly an MSS |
| TcpConnections.TcpConnection.SendSegmentAt | tcp/send.go:70-81 | the segment carries the connection's current ACK number and window and is appended to what was sent |
| TcpConnections.TcpConnection.SendChunkLocked | tcp/connection.go:165-204 | one round of the pump: chunk size, PSH, queue entry, SND.NXT |
| TcpConnections.TcpConnection.PumpSendLocked | tcp/connection.go:153-211 | the loop computes the pump's recursion and terminates |
| TcpConnections.TcpConnection.Write | tcp/connection.go:131-144 | the data is appended to the unsent bytes, then pumped |
| TcpConnections.TcpConnection.OnRto | tcp/connection.go:263-288 | nothing on an empty queue; else the head is sent again, the timeout doubles up to 60 s, the timer is reset |
| TcpConnections.TcpConnection.StartRtoIfIdleLocked | tcp/connection.go:215-223 | starts the timer only if there is none, with 1 s when no timeout is set |
| TcpConnections.TcpConnection.RestartRtoLocked | tcp/connection.go:228-237 | the timer runs for the current timeout |
| TcpConnections.TcpConnection.StopRtoLocked | tcp/connection.go:251-257 | no timer, timeout back to 1 s |
| TcpConnections.TcpConnection.CloseReadChLocked | tcp/connection.go:241-247 | the channel is closed at most once |
| TcpConnections.TcpConnection.TakeAck | tcp/stack.go:197-225 | the drain loop, the timer and the window update compute the function that TcpSender.DrainKeeps, TcpRun.RunKeeps and TcpWindow.UpdateIff pin |
| TcpWindow.UpdateIff | tcp/stack.go:219-225 | in unbounded positions: an advancing ACK sets SND.WND, WL1 and WL2 to its own exactly when it is not older, by (SEQ, ACK), than the one they were last taken from |
| TcpWindow.StepView | tcp/stack.go:266-388 | the handshake takes the window and leaves WL1 and WL2, an advancing ACK goes by the rule, no other step of a run touches the window |
| TcpWindow.WindowIsNewest | tcp/stack.go:197-225 | over every run from a SYN, SND.WND, WL1 and WL2 are those of the greatest place (SEQ, ACK) among all ACKs that advanced UNA, the last such; with none, the window is the handshake's, or before it the SYN's |
| TcpWindow.ReopenIff | tcp/stack.go:197-231 | some segment can open a closed window iff something is in flight |
| TcpWindow.StuckForever | tcp/stack.go:185-234 | from a state with everything acknowledged and the window closed, no run without Close ever sends a byte, whatever is written and whatever arrives |
| TcpWindow.OpensStuck | tcp/stack.go:278-285 | a handshake ACK of ISS + 1 with window 0 leads to that state |
| TcpConnections.TcpConnection.ProcessAck | tcp/stack.go:185-234 | all four outcomes of an ACK, and whether the segment goes on |
| TcpConnections.TcpConnection.AbortConnection | tcp/stack.go:239-264 | closed, send state dropped, channel closed, out of the map; nothing if already closed |
| TcpConnections.TcpConnection.RemoveConnection | tcp/stack.go:390-406 | send state dropped and out of the map |
| TcpConnections.TcpConnection.TimeWaitCleanup | tcp/stack.go:408-413 | closed and removed |
| TcpConnections.TcpConnection.ReceivePayload | tcp/stack.go:309-326 | only the segment at RCV.NXT is taken, delivered and acknowledged (the send on the channel never blocks here) |
| TcpConnections.TcpConnection.HandleEstablished | tcp/stack.go:304-337 | ACK, payload, FIN in this order |
| TcpConnections.TcpConnection.HandleFinWait1 | tcp/stack.go:338-361 | ACK processing, then FIN or any accepted ACK |
| TcpConnections.TcpConnection.Establish | tcp/stack.go:278-302 | SYN_RECEIVED to ESTABLISHED, UNA and window from the segment, handed to the listener |
| TcpConnections.TcpConnection.HandleSegment | tcp/stack.go:266-388 | the whole dispatch on RST and state |
| TcpConnections.TcpConnection.Read | tcp/connection.go:97-114 | leftover first, then a channel item, then end of stream |
| TcpConnections.TcpConnection.Close | tcp/connection.go:116-129 | FIN at SND.NXT, which moves by one, and the state change |
| TcpSender.Conservation | tcp/connection.go:131-211 | written = acknowledged + queued from UNA + unsent; the queue is empty iff UNA = NXT; NXT - UNA on the wrapped fields is the bytes in flight |
| TcpSender.PumpIsMaximal | tcp/connection.go:153-211 | consecutive chunks, each exactly as long as the MSS, UNA + WND and the stream allow, PSH exactly on one that empties the buffer; stops only with nothing unsent or the window full |
| TcpSender.PumpLoopSends | tcp/connection.go:165-204 | the same for the loop itself, by induction over its rounds |
| TcpSender.WriteKeeps | tcp/connection.go:131-144 | Write keeps the send invariant: contiguous queue up to NXT, UNA in its head, at most 65535 in flight |
| TcpSender.AckRange | tcp/stack.go:191-199 | for all 2^32 ACK numbers, UNA moves iff the number lies in (UNA, NXT] |
| TcpSender.AckEffect | tcp/stack.go:185-234 | a number x ahead of UNA moves UNA by x when x is in flight, else not at all |
| TcpSender.AckOutcomes | tcp/stack.go:185-234 | an ACK for a position less than half a lap away: ahead of NXT it draws one bare ACK and is dropped, in (UNA, NXT] it moves UNA there, else it changes nothing |
| TcpSender.DrainKeeps | tcp/stack.go:201-210 | exactly the segments that end at or before the acknowledged position leave, across wraparound |
| TcpSender.TakeAckKeeps | tcp/stack.go:197-225 | a partial ACK leaves UNA inside the head |
| TcpSender.ProcessAckKeeps | tcp/stack.go:185-234 | any segment whatever keeps the send invariant; new frames carry written bytes at their own positions |
| TcpSender.OnRtoKeeps | tcp/connection.go:263-288 | an expiry, stale or not, keeps the send invariant |
| TcpSender.OnRtoFrame | tcp/connection.go:263-288 | what is sent again is the segment that contains UNA, at its own position |
| TcpSender.BareAckOk | tcp/stack.go:191-196 | a bare ACK stands at SND.NXT and carries no stream bytes |
| TcpAfterClose.CloseLate | tcp/connection.go:116-129 | Close turns the send invariant into the one after it: queue in order, chunks before the FIN in place, later ones shifted by one, at most 65536 in flight |
| TcpAfterClose.AckLate | tcp/stack.go:338-361 | any segment in FIN_WAIT_1 keeps that invariant, and what it sends stands behind the FIN |
| TcpAfterClose.WriteLate | tcp/connection.go:131-144 | so does a Write after Close |
| TcpAfterClose.OnRtoLate | tcp/connection.go:263-288 | so does an expiry, which sends the head again where its number stands |
| TcpRun.BackoffClosedForm | tcp/connection.go:263-288 | after k expiries the timeout is min(2^k, 60) seconds |
| TcpRun.ExpiriesInARow | tcp/connection.go:263-288 | k expiries in a row send the head k times more and leave the timer at min(2^(e+k), 60) seconds, where e came before |
| TcpRun.StepKeeps | tcp/stack.go:266-388 | every step of application, network or timer keeps the receive accounting, the state and the timer invariants, and never lowers the state's rank |
| TcpRun.RunKeeps | tcp/stack.go:239-388 | over every run from a SYN: timer nil iff queue empty and never reset while nil; RCV.NXT = IRS + 1 + delivered + FIN with at most one FIN; returned + overflow + channel = delivered; no empty chunk in the channel; no send on and no second close of a closed channel; accepted once when established; a cleanup pending in TIME_WAIT; out of the map exactly when closed; CLOSING unreachable; state rank monotone |
| TcpRun.ReadKeeps | tcp/connection.go:97-114 | Read returns data iff any is left: the next bytes of the stream, at most n, at least one when n > 0, fewer than n only at the end of a chunk; else the end if the channel is closed |
| TcpLifecycle.HasIff | tcp/stack.go:186 | a flag is set iff its bit is |
| TcpLifecycle.PayloadAnswered | tcp/stack.go:314-326 | a payload is taken iff the segment starts at RCV.NXT: delivered as one chunk and answered by exactly one ACK for the number behind it; else nothing changes |
| TcpLifecycle.SegmentAnswered | tcp/stack.go:304-337 | what an accepted segment in ESTABLISHED is answered with: an ACK for the payload taken and one for the FIN, which ends channel and state |
| TcpLifecycle.ResetIff | tcp/stack.go:270-275 | a reset at RCV.NXT ends the connection, drops what was to be sent, closes the channel and leaves what was received to be read; any other changes nothing |
| TcpLifecycle.CloseStates | tcp/connection.go:116-129 | Close sends one segment FIN, ACK at SND.NXT, which moves past it; ESTABLISHED becomes FIN_WAIT_1, CLOSE_WAIT becomes LAST_ACK |
| TcpLifecycle.ActiveClose | tcp/stack.go:338-370 | FIN_WAIT_1 by ACK then FIN, or by FIN with ACK, to TIME_WAIT with the FIN acknowledged and one more cleanup pending, which ends the connection |
| TcpLifecycle.PassiveClose | tcp/stack.go:380-388 | a FIN, Close and an ACK take ESTABLISHED through CLOSE_WAIT and LAST_ACK to the end |
| TcpStream.HandshakeIff | tcp/stack.go:278-302 | after the handshake segment the send invariant holds iff its ACK number is ISS + 1 |
| TcpStream.WrongAckStalls | tcp/stack.go:278-302 | after a handshake ACK ahead of ISS + 1 by up to 2^32 - 65536, the send invariant fails and Write sends nothing |
| TcpStream.RunOpen | tcp/connection.go:131-211 | over every run whose handshake ACK is ISS + 1, until Close or abort, the send invariant holds and nothing waits unsent but for the window |
| TcpStream.CloseIff | tcp/connection.go:116-129 | the FIN stands at the end of the written stream iff nothing is unsent |
| TcpStream.CloseMisplaces | tcp/connection.go:116-129 | after Close, whatever segment arrives and whatever is written next, every frame then appended stands behind the FIN, one position after the bytes it carries |
| TcpStream.MisplacedRun | tcp/connection.go:116-129 | a run that does it: window 1, two bytes written, Close, and the ACK that opens the window; the second byte goes out at position 2 |
| TcpStream.FinIff | tcp/stack.go:327-336 | after a FIN, RCV.NXT is right behind it iff the segment, or its end, was the expected one |
| TcpSender.FreshAck | tcp/stack.go:191-210 | a fresh ACK moves UNA to its own position or nowhere, before Close and after it |
| TcpSender.StaleAckIff | tcp/stack.go:191-210 | an ACK behind UNA is harmless iff the stream has not come within reach of the next lap |
| TcpNet.TakePayload | tcp/stack.go:309-326 | the fresh frame that RCV.NXT admits continues the prefix of the written stream, up to the FIN and not past it, whatever was sent behind the FIN |
| TcpEndToEnd.StaleDataIff | tcp/stack.go:309-326 | the receiver takes a frame iff it stands whole laps from the end of its prefix; a frame it takes continues the prefix iff it is less than a lap away |
| TcpNet.RunNetKeeps | tcp/stack.go:266-388 | the invariant of both directions over every interleaving of writes, reads, expiries, deliveries, TIME_WAIT and one Close at each end at any time |
| TcpEndToEnd.EndToEnd | tcp/connection.go:97-288 | over all these runs, both directions: returned is a prefix of delivered, delivered of written; before Close every undelivered byte is still in the sender's queue or buffer and UNA is not past the receiver; after it nothing past the FIN is delivered |
| TcpEndToEnd.FramesPlaced | tcp/connection.go:116-211 | over all these runs, until CLOSED, every payload an end sent stands in its own place before the FIN, or behind the FIN one position too far |
| TcpEndToEnd.CloseCuts | tcp/connection.go:116-129 | Close at any time in any run: the FIN stands at what was sent by then, no byte past it is ever delivered, and all that was written is delivered only if nothing was unsent at Close and nothing written later |
| TcpEndToEnd.EndOfStreamIff | tcp/stack.go:327-336 | over every run at whose end the reader is told the end: everything delivered was read, the FIN was taken at some step, and the stream up to the FIN was delivered iff the FIN then had RCV.NXT; all that was written, iff moreover the FIN stands at its end |
| TcpEndToEnd.OvertakenRun | tcp/stack.go:327-336 | a run in which the FIN overtakes the only byte written: the reader is told the end and has read nothing |
| Checksum.FoldIs | tcp/send.go:44-47 | the fold loop terminates with the residue mod 65535, never 0 for a positive sum |
| Checksum.NoOverflow | tcp/send.go:33-43 | the uint32 sum does not overflow for any segment of up to 65535 bytes |
| Checksum.TcpChecksumIff | tcp/send.go:24-48 | with the computed checksum in place pseudo-header and segment sum to all ones, odd lengths included, and with no other value except the second form of zero |
| PacketLayout.SumIsResidue | tcp/send.go:33-43 | the word sum is the big-endian number the bytes make up, modulo 65535, an odd string as if a zero byte followed |
| PacketLayout.PseudoHeaderIs | tcp/send.go:26-31 | addresses, zero, protocol 6 and the length |
| Checksum.CalculateTcpChecksum | tcp/send.go:24-48 | the loops compute it for segments of every length |
| Checksum.AddWords | tcp/send.go:33-43 | the word loop and the odd byte add the word sum modulo 2^32 |
| Packets.IPv4ChecksumIff | model/serialize.go:29-38 | with the computed checksum in place the IPv4 header sums to all ones, and with no other value except the second form of zero |
| Packets.EthernetRoundTrip | model/parse.go:15-27 | a flushed frame with padding, in a longer read buffer, parses to its fields and payload with the padding |
| Packets.IPv4RoundTrip | model/parse.go:41-71 | every field back, and exactly the payload under any padding iff the total length fits 16 bits (or wrapped below the header without padding) |
| Packets.TcpRoundTrip | model/parse.go:87-114 | every field back, the options padded or cut to the header |
| PacketLayout.EthernetFields | model/parse.go:15-27 | for every buffer: accepted iff it has 14 bytes, and where each field stands |
| PacketLayout.IPv4Fields | model/parse.go:41-71 | likewise, every number the big-endian value of its bytes; the payload ends where the length says, if it can |
| PacketLayout.TcpFieldsAt | model/parse.go:87-114 | likewise for TCP, options and payload split at the header length |
| PacketLayout.OptionBytes | model/serialize.go:56-58 | the option area byte by byte: the options, then zeros |
| Packets.ThreeLayers | model/serialize.go:7-61 | Ethernet, IPv4 and TCP parsing undo the three serializations under any padding |
| PacketFlush.FlushEthernet | model/serialize.go:7-14 | the buffer filled field by field is the frame |
| PacketFlush.FlushIPv4 | model/serialize.go:16-42 | the buffer is the header with its checksum, then the payload, for every header length with which the source does not panic |
| PacketFlush.FlushTcp | model/serialize.go:44-61 | the buffer is the header, the option area, then the payload, for every header length with which the source does not panic |
| TcpOptions.ParseMssOption | tcp/options.go:15-38 | the scanner loop computes the recursion over options |
| TcpOptions.MssIff | tcp/options.go:15-44 | an MSS is found iff the block is well-formed other options, then a four-byte MSS option, then anything; its value is returned |
| TcpFrames.BuildFrame | tcp/send.go:70-110 | the packet of sendSegmentAt, for every options block whose 8-bit header length does not wrap below five words, where the source panics |
| TcpFrames.FrameCarries | tcp/send.go:70-110 | a segment put on the wire parses to itself, from the local to the remote MAC, address and port, as IPv4 with TTL 64, and both checksums pass |
| TcpFrames.RunFramesFit | tcp/connection.go:165-204 | over every run, whatever MSS the peer asks for, each frame has at most 1514 bytes and arrives as it was sent |
| X25519.ClampValue | tls/x25519.go:130-136 | clamping clears the low three bits and sets the leading 1 at bit 254 |
| X25519.ScalarShape | tls/x25519.go:130-136 | 2^254 <= k < 2^255 and 8 divides k |
| X25519.DecodeUCoordinate | tls/x25519.go:89-99 | the top bit is masked, the rest read little-endian |
| X25519.EncodeUCoordinate | tls/x25519.go:104-116 | the value mod p, little-endian in 32 bytes |
| X25519.CodecRoundTrip | tls/x25519.go:89-116 | decoding then encoding is the identity iff the bytes are canonical |
| X25519.ScalarMult | tls/x25519.go:149-201 | the deferred-swap loop over bits 254..0 with its chain of field operations computes the ladder's recursion on the clamped scalar |
| X25519.LadderRound | tls/x25519.go:158-194 | one round of swap, doubling and addition takes the state from one digit to the next |
| X25519.BasePointIsNine | tls/x25519.go:205-213 | the base point's bytes decode to 9 |
| X25519.SharedSecret | tls/x25519.go:222-229 | the product, or an error when it is all zero |
| X25519.LadderMultiplies | tls/x25519.go:149-201 | the output is the affine coordinate of the multiple by plain recursion on the scalar |
| X25519.StartIrrelevant | tls/x25519.go:149-201 | scaling the starting points by nonzero factors leaves the output bytes unchanged |
| X25519.LowOrderRejected | tls/x25519.go:222-229 | for every scalar the check fires on the points of order 2, 4 and 8 of the curve, and 2 and 4 of its twist, in every encoding of their coordinates |
| X25519.RejectedIff | tls/x25519.go:222-229 | it fires iff the ladder ends at infinity or at x = 0 |
| Montgomery.ChainDoubles | tls/x25519.go:177-195 | the chain for x2, z2 equals (x^2-z^2)^2 and 4xz(x^2+486662xz+z^2) |
| Montgomery.ChainAdds | tls/x25519.go:177-195 | the chain for x3, z3 equals 4(x2x3-z2z3)^2 and 4x1(x3z2-x2z3)^2 |
| Ladder.PrefixStep | tls/x25519.go:160-195 | one more digit b takes the pair for m, m+1 to the pair for 2m+b, 2m+b+1 |
| Ladder.BaseScaled | tls/x25519.go:160-195 | the first step yields (4 x1^2, 4 x1), the base up to the factor 4 x1 |
| Ladder.AffineAgrees | tls/x25519.go:149-201 | the digit recursion and the recursion on the number have the same affine coordinate for every point |
| Ladder.MultipleOfFour | tls/x25519.go:130-136 | multiples of 4 of a small-order point are infinity on either recursion |
| OrderEight.MultipleOfEight | tls/x25519.go:130-136 | the ladder takes every coordinate that doubles to 1 or -1, those of the points of order 8, to infinity on every multiple of 8: all three cleared bits are used |
| Projective.AffineDivides | tls/x25519.go:196-200 | multiplying by the inverse divides |
| Modular.Fermat | tls/x25519.go:75-81 | a times a^(p-2) is 1 mod p for prime p, so feInverse inverts |
| TlsRecord.FramingRoundTrip | tls/record.go:76-116 | reading a written record gives it back and leaves what followed |
| TlsRecord.NonceInjective | tls/record.go:126-133 | for a fixed IV distinct sequence numbers give distinct nonces |
| TlsLayout.NonceLayout | tls/record.go:118-133 | the first four bytes of the nonce are the IV's; the trailing eight, XOR the IV's, are the sequence number, big-endian |
| TlsRecord.NonceLoop | tls/record.go:126-133 | the loops compute the nonce of which TlsLayout.NonceLayout and TlsRecord.NonceInjective speak |
| TlsLayout.FramingIff | tls/record.go:76-91 | a record is read iff the stream begins with five bytes and as many more as the last two of them say, within the limit |
| TlsLayout.WrittenLayout | tls/record.go:96-116 | type, version 0x0303 and length stand before the fragment; refused iff it is over the limit |
| TlsLayout.SealedLayout | tls/record.go:186-213 | plaintext and type are sealed under the counter's nonce with the header as additional data, in an application data record; the counter moves by one; refused iff too long |
| TlsLayout.OpenIff | tls/record.go:229-249 | a type and plaintext come out iff the AEAD opens to the plaintext, the nonzero type and any number of zeros |
| TlsLayout.OpenRefused | tls/record.go:229-243 | exactly what does not open, and what opens to zeros alone, is refused, each with its own error |
| TlsLayout.MessageLength | tls/messages.go:95-122 | the length of a message is the big-endian number in its bytes 1 to 3 |
| TlsRecord.SealOpen | tls/record.go:186-249 | a sealed record passes the reader's limit and opens to its type and plaintext with both counters in step, iff the type is not 0 |
| TlsRecord.RecordKeys.Seal | tls/record.go:186-213 | the wire record, and the counter moves only on success |
| TlsRecord.RecordKeys.Open | tls/record.go:229-249 | padding stripped by the loop, type and plaintext, and the counter moves only on success |
| TlsConnections.TlsConn.ReadRecord | tls/conn.go:125-149 | plaintext before keys, ChangeCipherSpec through, other types refused, the rest opened |
| TlsConnections.TlsConn.TakeBufferedHandshake | tls/conn.go:186-198 | the first complete message, or nothing |
| TlsConnections.TlsConn.ReadHandshakeMessage | tls/conn.go:160-181 | the reassembly loop |
| TlsConnections.TlsConn.ReadAppData | tls/conn.go:55-79 | the reading loop, with the rest of a record kept |
| TlsConnections.TlsConn.WriteAppData | tls/conn.go:91-106 | chunks of at most 16384 bytes, each sealed; no chunk fails its size check |
| TlsConnections.TlsConn.Greet | tls/handshake.go:55-112 | ClientHello to handshake keys, every error in its place |
| TlsConnections.TlsConn.SendFlight | tls/handshake.go:114-156 | ChangeCipherSpec and the four encrypted messages with their transcripts |
| TlsConnections.TlsConn.Finish | tls/handshake.go:158-195 | the client's Finished, the second key switch, the check for leftover bytes |
| TlsConnections.TlsConn.RunHandshake | tls/handshake.go:48-196 | the three stages in a row |
| TlsConnections.TlsConn.Handshake | tls/handshake.go:33-46 | runs once; success and failure are remembered |
| TlsConnections.TlsConn.SwitchKeys | tls/handshake.go:178-188 | both key objects are replaced by fresh ones with sequence number 0 |
| TlsConnections.TlsConn.Read | tls/conn.go:49-80 | the handshake if it is due, then application data |
| TlsConnections.TlsConn.Write | tls/conn.go:85-107 | the handshake if it is due, then all of the data |
| TlsFraming.TakeIff | tls/conn.go:186-198 | a message comes out of the buffer iff its last byte is there |
| TlsFraming.NextMessage | tls/conn.go:160-198 | only the records a message needs are read, and exactly the undelivered bytes stay in the buffer |
| TlsFraming.FramingIndependence | tls/conn.go:160-198 | for any messages, any cut into records, empty ones too, and ChangeCipherSpec anywhere, in either epoch, exactly those messages come out in order and the buffer is empty |
| TlsFraming.ReadAppStep | tls/conn.go:49-80 | a read with room returns at least one byte while any are pending, fewer than asked only at the end of a record, and the end only when none are |
| TlsFraming.ReadAppStops | tls/conn.go:62-77 | a record of another kind before any data ends the read with its error |
| TlsFraming.ReadMessageStops | tls/conn.go:160-181 | a record of another kind before a message is complete ends it with its error, and what was received stays buffered |
| TlsFraming.OuterTypes | tls/conn.go:125-149 | under keys ChangeCipherSpec passes, any other outer type but application data is refused and the keys stay |
| TlsFraming.ChunkSizes | tls/conn.go:91-106 | every chunk of a write has 16384 bytes but the last |
| TlsFraming.StreamRoundTrip | tls/conn.go:49-107 | for any writes and any nonzero buffer sizes the bytes read are a prefix of those written, all of them once drained, with the counters equal |
| HelloGrammar.HelloIff | tls/messages.go:201-260 | the parser accepts exactly the serializations of well-formed hellos and returns their fields |
| HelloGrammar.AcceptIff | tls/messages.go:201-317 | a hello that fits its length prefixes is accepted iff no extension type repeats and each known extension parses |
| HelloGrammar.AcceptedShape | tls/messages.go:201-317 | every length-prefixed block of an accepted hello is consumed exactly |
| HelloGrammar.BlockIff | tls/messages.go:265-317 | the extension loop's verdict and result for any list of extensions |
| HelloGrammar.OrderIrrelevant | tls/messages.go:265-317 | permuting the extensions changes neither acceptance nor a field |
| HelloGrammar.UnknownIgnored | tls/messages.go:262-264 | inserting a fresh unknown extension anywhere changes neither |
| HelloGrammar.Vec16U16sIff | tls/messages.go:365-386 | supported_groups and signature_algorithms: exactly one prefixed list of numbers |
| HelloGrammar.VersionsIff | tls/messages.go:350-360 | supported_versions: exactly one prefixed list of numbers |
| HelloGrammar.KeySharesIff | tls/messages.go:395-418 | key_share: exactly one prefixed list of entries |
| HelloGrammar.ServerNameIff | tls/messages.go:322-346 | server_name: one prefixed list, read up to its first host name |
| HelloParser.Cursor.ReadU8 | tls/messages.go:135-142 | one byte and the cursor past it, or the cursor unmoved |
| HelloParser.Cursor.ReadU16 | tls/messages.go:144-151 | likewise for two bytes |
| HelloParser.Cursor.ReadBytes | tls/messages.go:153-160 | likewise for n bytes |
| HelloParser.Cursor.ReadVector | tls/messages.go:164-183 | the body of a prefixed vector |
| HelloParser.ReadU16s | tls/messages.go:233-236 | the conversion loop |
| HelloParser.ParseU16Vector | tls/messages.go:365-386 | wrapped or unwrapped list of numbers |
| HelloParser.ParseServerNameExtension | tls/messages.go:322-346 | the name loop |
| HelloParser.ParseClientKeyShare | tls/messages.go:395-418 | the share loop |
| HelloParser.ParseClientHelloExtensions | tls/messages.go:265-317 | the extension loop with its set of seen types |
| HelloParser.ParseHello | tls/messages.go:201-260 | the whole parser, errors included |
| TlsMessages.HandshakeIff | tls/messages.go:95-122 | parseHandshake undoes marshalHandshake and accepts nothing else |
| TlsMessages.ServerHelloRoundTrip | tls/messages.go:435-466 | a client's parser reads random, session id and key share back, every block consumed |
| TlsMessages.ValidateClientHello | tls/handshake.go:201-225 | computes the verdict of which TlsMessages.PolicyIff speaks |
| TlsMessages.PolicyIff | tls/handshake.go:201-225 | the complaint is about the first thing missing; none iff version, suite, group and scheme are offered and the first x25519 share, by its index, has 32 bytes |
| TlsMessages.FindIff | tls/messages.go:83-90 | the share found is that of an index with the group and none before it, and empty when no share has the group |
| TlsMessages.ContainsU16 | tls/handshake.go:227-234 | membership |
| TlsMessages.KeyShareLoop | tls/messages.go:83-90 | the loop returns the share at the first index with the group, or nothing |
| TlsHandshakeModel.SessionIdFits | tls/messages.go:217-224 | an accepted session id has at most 32 bytes, all that the length prefix of the echo needs |
| TlsHandshake.ReceiveAll | tls/conn.go:160-198 | messages in records of their own leave transport and keys exactly behind them |
| TlsHandshake.ReceiveWith | tls/conn.go:160-198 | a message is received without reading past the record that completes it, and exactly that record's remaining bytes stay buffered |
| TlsHandshake.CompletesIff | tls/handshake.go:48-196 | for any records, with any bytes behind the hello and behind the client's message in the records that complete them: the handshake completes iff the hello can be answered, the flight sent and signed, the message is the Finished over the transcript, and nothing stands behind it; then exactly the client's flights were read, the server's bytes are its five messages and both directions have fresh application keys; with bytes behind the Finished it fails with those keys installed |
| TlsHandshake.CompletedAgrees | tls/handshake.go:48-196 | on any wire whatever, a completed handshake had an answerable hello and the right Finished, wrote exactly the five messages, has fresh application keys and an empty buffer |
| TlsHandshake.KeySwitchIff | tls/handshake.go:103-112 | the bytes behind the hello, read in the clear, are still buffered under the new keys and begin the client's message; the records opened under the handshake keys bring all of it iff no byte stood behind the hello |
| TlsHandshake.ClientReads | tls/handshake.go:87-156 | a client with the same keys reads the ServerHello, then exactly the four messages |
| TlsClient.CertificateRoundTrip | tls/messages.go:479-501 | a client parses the certificate out of the message, every block consumed |
| TlsClient.CertificateVerifyRoundTrip | tls/messages.go:503-514 | likewise scheme and signature |
| TlsClient.CompatibilityRecord | tls/handshake.go:114-121 | the ChangeCipherSpec record before the flight is 20 3 3 0 1 1 and seals nothing |
| TlsClient.ClientChecks | tls/handshake.go:55-188 | all a client checks: the secret is of the first x25519 share, the handshake secrets of the two hellos, the signature of the transcript through Certificate, the server's Finished of that through CertificateVerify, the client's Finished and the application secrets of that through the server's Finished |
| TlsHandshake.AnyCutCompletes | tls/handshake.go:48-196 | a client with the right Finished completes, and no less when it sends the first n bytes of it, or all, in the clear behind its hello, in the same record |
| TlsHandshake.ThenStream | tls/handshake.go:179-195 | after the handshake the server reads a prefix of what the client writes, and all of it once drained |
| TlsHandshake.ThenStreamBack | tls/conn.go:85-107 | whatever the client sent, from what a completed server puts on the wire a client with the same secrets reads the five messages and then exactly what the server writes |
| TlsNonces.NoReuseIff | tls/record.go:118-143 | over any run of seals and key switches no key and nonce come together twice iff no key sealed more than 2^64 records |
| TlsNonces.ConnectionNonces | tls/handshake.go:103-188 | over a whole completed connection, whatever the client sent, the wire is the handshake's and the writes' bytes, and no pair repeats iff the writes took at most 2^64 records |
| HttpReader.BufReader.ReadLine | http/parse.go:111-133 | the line loop, CR stripped, limit and end of input |
| HttpReader.ReadHeaderBlock | http/parse.go:55-81 | the header loop and its map |
| HttpReader.ReadOne | http/parse.go:33-107 | the whole reader computes the result of which HttpGrammar.RequestIff and HttpGrammar.HeadVerdict speak |
| HttpText.TokenIff | http/parse.go:178-208 | a token is a nonempty string of visible characters other than the delimiters of RFC 9110 |
| HttpText.OwsIff | http/parse.go:174 | what is trimmed off a field value: spaces and tabs |
| HttpText.LowerLetters | http/parse.go:74 | each capital becomes its small letter, nothing else changes |
| HttpText.SpaceIff | http/parse.go:88 | what counts as white space round a length: the UTF-8 encodings of the characters with the White_Space property, and nothing else |
| HttpText.Words | http/parse.go:40-107 | the words and separators the reader compares with, by their text |
| HttpNumber.NumberRoundTrip | http/parse.go:87-94 | a number written in decimal, with leading zeros, a sign and white space, is read as its value, and refused beyond 64 bits |
| HttpNumber.LengthIff | http/parse.go:87-94 | a Content-Length is read as n iff it is n in decimal with any leading zeros, a plus (or, for 0, a minus) and white space round it |
| HttpReader.RequestLineParts | http/parse.go:135-162 | method, path and version between the first and the last space |
| HttpReader.HeaderParts | http/parse.go:164-176 | name and trimmed value |
| HttpReader.IsValidToken | http/parse.go:180-190 | a nonempty string of token characters |
| HttpGrammar.LineForward | http/parse.go:111-133 | a line is read back iff it is shorter than 8192 bytes before LF |
| HttpGrammar.HeadersForward | http/parse.go:55-81 | any block of good fields is read through its blank line iff it has at most 99, else too many headers |
| HttpGrammar.FoldIsMap | http/parse.go:74-80 | the loop's map is each lower-cased name with its values joined in order |
| HttpGrammar.RequestIff | http/parse.go:33-107 | success exactly on a rendering of a well-formed request, its Content-Length the digits of the body's length, followed by anything, with that request as result |
| HttpGrammar.HeadVerdict | http/parse.go:83-107 | behind every good head: no Host or an unwritten length malformed, POST, PUT and PATCH need a length, a length over the limit or past the input refused, else exactly the announced bytes |
| HttpGrammar.VersionRefused | http/parse.go:44-49 | a well-formed request line of any other HTTP version is refused as such |
| HttpGrammar.RestIrrelevant | http/parse.go:28-32 | bytes behind the body never change the result |

## Left out

- Raw sockets, the receive loop, the listener table and demultiplexing (tcp/stack.go:26-123): a segment arrives at its connection; `registered` is the entry in the connection map, `accepted` the hand-over to the listener.
- Data races and lock order: every lock-held step is atomic, and Close and handleSegment are atomic as a whole.
- Blocking: Read reports that it would block on an empty open channel.
- Real clocks and logging: a timer is the duration it was last set to and may fire at any time.
- Liveness of TCP, retransmission of FIN and SYN+ACK, zero-window probes, out-of-order reassembly and congestion control are not in the code.
- TcpEndToEnd.EndToEnd: assumes that no segment is delivered 2^32 bytes of stream after it was sent (the bounds are exact, see TcpSender.StaleAckIff and TcpEndToEnd.StaleDataIff), no RST, and at most one Close at each end, which the source does not enforce.
- TcpEndToEnd.CloseCuts: says what can at most be delivered; that it is delivered needs the network to deliver it, and the source retransmits no FIN.
- TcpConnections.TcpConnection.ReceivePayload: does not model the blocking send on a channel of 16 items; the channel is unbounded.
- TcpRun.RunKeeps: claims none of the close semantics of RFC 9293 beyond the ranks: FIN_WAIT_1 advances on any accepted ACK and CLOSE_WAIT has no case.
- TcpWindow.WindowIsNewest: speaks of runs in which each advancing ACK stands less than half a lap from the newest one before it, the bound within which the 32-bit comparisons mean anything (Seq32.OrderAgrees).
- TCP options other than MSS, IPv4 options, fragments and incoming checksums: the code does not look at them.
- AES-GCM, SHA-256, HMAC, HKDF, ECDSA, X.509 and randomness: function parameters with only the law of Open and Seal; no secrecy or authenticity is claimed.
- Primality of 2^255 - 19, the group law of the curve and timing of the ladder.
- TlsHandshake.CompletesIff: speaks of a client that sends handshake and ChangeCipherSpec records; for any other wire TlsHandshake.CompletedAgrees gives one direction.
- TlsHandshakeModel.SessionIdFits: bounds the session id alone; the marshaler's other panics are excluded by the types of what it is given.
- Failing writes of the transport, and certificates beyond the 24-bit length field, on which the marshaler panics (a type bound in the model).
- Which error an ill-formed hello draws is modelled by HelloParser.ParseHello, but HelloGrammar.OrderIrrelevant claims only acceptance and fields: the first failing extension decides the error, and its position changes.
- HelloGrammar.ServerNameIff: does not constrain the bytes of the list behind its first host name, because the parser does not look at them.
- I/O errors other than the end of input, in HTTP and TLS.
- http/response.go, the request router, icmp/ and orders/: they would add only easy members.
