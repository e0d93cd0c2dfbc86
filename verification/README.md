# ProtoQ in Dafny

ProtoQ is a binary request/response protocol over a byte stream. This project models its
behaviour and proves what it relies on:

* **The frame codec.** A frame is Magic, Flags, an optional Length, Opcode, Seq, Body, CRC and
  padding to a multiple of four. `Encoder` writes it into a buffer field by field. `StreamParser`
  is the reference: a pure one-shot parser of a whole byte string. `Decoding` is the streaming
  decoder, an eight-state machine over a growing buffer with absolute indices; it is proved to
  return the packets of the one-shot parser however the bytes arrive. `RoundTrip` joins encoder
  and parser in both directions and shows that a frame whose CRC check fails costs exactly itself.
* **The checksum.** `Crc` specifies CRC-16/ARC one bit at a time and proves the table-driven code
  equal to it; `CrcDivision` proves that to be schoolbook division by the catalogued polynomial,
  with the catalogued check value. `CrcErrors` and `CrcPeriod` prove which errors in the covered bytes the check
  detects; `CrcBoundary` takes in the CRC field, where byte order matters. Detected are: every odd
  number of flipped bits; every burst within sixteen bits on one side of the boundary between
  covered bytes and field; every burst within eight bits across it, while a nine-bit one can pass;
  and two flipped bits unless they cancel, which takes at least 4094 covered bytes.
* **Matching requests and responses.** `Client` is one caller with its read loop and retry timer,
  `Server` the serve loop of one connection with a handler running for each request.
  `Sequencing` holds sequence allocation with wrap-around, the table of pending requests and the
  retry schedule. `Protocol` is client, network and server as one transition system over encoded
  frames; its main theorem says that a response returned to a caller was computed from that
  caller's own request, and `StaleReply` builds a run showing that the window of 65534
  allocations it needs (for two-byte numbers) cannot be one wider. `Exchanges` says what runs do
  achieve: up to three lost requests are made up for, and every wait can end.
  `RetryRace` takes the give-up path apart at the granularity of single lock sections and says
  exactly when `done` is closed twice.
* **The acknowledgement queue.** `MessageQueue` is the queue, `Connection` the race of `Send`,
  completion and `Close` on it, one atomic operation at a time; `SendRuns` says exactly which
  runs deliver, fail or refuse a send, and what its channel gets.
* **Layers above and below.** `WebSocket` and `WebSocketWire` are the framing of RFC 6455 as a
  layer that preserves the byte stream; `FilterChain` is the filter continuation with its negotiation gate.

Bytes are 8-bit vectors and the fields of a packet 32-bit vectors. A channel with room for one
value is a mailbox, a channel that is only ever closed a flag. Sequential objects are classes whose
methods are proved against functions of their old state; concurrent ones are transition systems
whose events are critical sections, atomic operations or channel operations.

Where the code and its documentation differ, the model follows the code:

* `DESIGN.md` lines 201-207 let the third timeout end the request; the code retransmits at 1, 3
  and 7 initial timeouts and gives up at 15 (`Sequencing.RetryLoop`).
* `constants.go` lines 18-20 reserve eight bytes of the Length field. With four-byte opcode and
  sequence number and a CRC ten are needed, and `Encode` does not check
  (`RoundTrip.MaxBodyLenSafeExactly`).
* `DESIGN.md` section 6.4 says closing `done` coordinates the retry loop with everyone else; the
  give-up path can still close it a second time (`RetryRace.ClosedTwiceExactly`).
* `BeanRegister.Register` is documented to route a filter to the filter chain; it is a chain that
  the dispatcher never runs (`FilterChain.RegisteredGateIsUnused`).
* `DESIGN.md` line 48 allows bodies of 65527 bytes; over WebSocket a frame of more than 4096 bytes
  sent as the first message is reported longer than the decoder's buffer, or panics
  (`WebSocket.FirstPacketFitsExactly`).
* After a Length that is too small the decoder is said to resynchronise behind Magic
  (conn/decoder.go line 121) but has already passed four bytes. This one makes no difference
  (`RoundTrip.BadLengthResynchronises`).

## Model

| member | source | states |
|---|---|---|
| Flags.SetDir | flags.go:66-72 | changes the direction and no other field, and introduces no reserved width |
| Flags.SetRequiresAck | flags.go:74-80 | changes the acknowledgement bit and no other field |
| Flags.SetBodyLen | flags.go:82-88 | changes the Length-present bit and no other field |
| Flags.SetOpcodeLen | flags.go:90-101 | changes the opcode width and no other field; any argument but 2 and 4 means none |
| Flags.SetSeqLen | flags.go:103-114 | changes the sequence width and no other field |
| Flags.SetCrcLen | flags.go:116-123 | changes the CRC width and no other field |
| Flags.FieldsDetermineFlags | flags.go:20-64 | two bytes without reserved widths that say the same are the same |
| Flags.BitLayout | flags.go:6-12 | what each bit of Flags means by its position: direction, acknowledgement and Length in bits 7 to 5, the width codes in bits 4-3 and 2-1, the CRC in bit 0 |
| Flags.RefusedExactly | flags.go:131-142 | flags are refused if and only if they ask for an acknowledgement without a sequence number or in a response, or there is a body without a Length, and with which error |
| Packet.FieldLenNarrowest | packet.go:125-133 | a value gets the narrowest width that holds it |
| Packet.NewRequestPacket | packet.go:22-50 | the step-by-step construction yields a request with the acknowledgement and CRC asked for, a Length exactly for a body, the narrowest widths, and two bytes at least for a number that must be acknowledged |
| Packet.NewResponsePacket | packet.go:54-76 | a response without acknowledgement, a Length exactly for a body, the narrowest opcode width, and the sequence and CRC widths of the request |
| Packet.NewNotificationPacket | packet.go:79-99 | a request direction without acknowledgement or sequence number, the narrowest opcode width and the CRC asked for |
| Packet.RequestConsistent | packet.go:22-50 | every request passes `Validate` and its values fit their fields |
| Packet.ResponseConsistentExactly | packet.go:54-76 | a response is consistent if and only if its number fits the width of the request |
| Packet.NotificationConsistent | packet.go:79-99 | every notification passes `Validate` and its values fit |
| Packet.ReadAfterWrite | packet.go:162-182 | an integer field reads back as written if and only if the value fits its width |
| Packet.WriteAfterRead | packet.go:162-182 | writing back what was read reproduces the bytes |
| Packet.ReadUintValue | packet.go:173-182 | an integer field read from the wire is the number its bytes spell, the high byte first |
| Packet.UintBytesValue | packet.go:162-170 | the bytes of an integer field spell its value, the high byte first, modulo the width |
| Packet.PutUintN | packet.go:162-170 | only the field's bytes of the buffer change, and they spell the value, the high byte first |
| Bytes.LengthOnWire | conn/encoder.go:44-49 | the Length field spells the payload length, the high byte first, modulo 65536 |
| Bytes.LengthTruncates | conn/encoder.go:44-49 | the Length field keeps the payload length modulo 65536 |
| Crc.InitTable | conn/crc.go:9-21 | every table entry is eight shifts of its index |
| Crc.EightShifts | conn/crc.go:11-19 | the inner loop computes eight register shifts |
| Crc.ShiftsFeedBits | conn/crc.go:9-21 | shifting with the input folded in is feeding the input bit by bit |
| Crc.TableStep | conn/crc.go:25-31 | one table step is eight bit steps, for every register and byte |
| Crc.Crc16Ibm | conn/crc.go:25-31 | the table-driven loop equals the bitwise register for every message |
| Crc.ComputeCrc | conn/crc.go:41-52 | the CRC field is the checksum, high byte first, or empty |
| Crc.VerifyCrc | conn/crc.go:55-66 | accepts a field if and only if it is the CRC field of the data |
| CrcDivision.DividesExactly | conn/crc.go:9-31 | the register ends at zero if and only if schoolbook division of the bits by x^16 + x^15 + x^2 + 1 leaves nothing |
| CrcDivision.UndetectedDivides | conn/crc.go:55-66 | an error in the covered bytes alone passes the check if and only if that polynomial divides it |
| CrcDivision.CheckValue | conn/crc.go:23-31 | the checksum of the digits 1 to 9 is 0xBB3D, the catalogued check value of CRC-16/ARC |
| CrcErrors.ChecksumLinear | conn/crc.go:25-31 | the checksum of an xor is the xor of the checksums |
| CrcErrors.UndetectedExactly | conn/crc.go:55-66 | an error passes the check if and only if its own checksum is the error in the field |
| CrcErrors.ShiftInjective | conn/crc.go:13-17 | the zero-bit register step is injective |
| CrcErrors.BurstDetected | conn/crc.go:55-66 | every nonempty error within sixteen consecutive bits of the covered bytes, the field being intact, is detected at any length |
| CrcErrors.TwoBytesDetected | conn/crc.go:55-66 | every change confined to two consecutive covered bytes is detected |
| CrcErrors.ChecksumParity | conn/crc.go:25-31 | the checksum has the parity of the message |
| CrcErrors.OddErrorDetected | conn/crc.go:41-66 | every odd number of flipped bits, over data and CRC field together, is detected |
| CrcPeriod.PeriodExactly | conn/crc.go:13-17 | the register returns to itself after exactly the multiples of 32767 shifts |
| CrcPeriod.TwoBitsDetectedExactly | conn/crc.go:55-66 | two flipped bits of the covered bytes are detected if and only if their distance is not a multiple of 32767 |
| CrcBoundary.UndetectedIs | conn/crc.go:41-66 | whatever the data, an error passes if and only if its checksum, as the field carries it, is the error in the field |
| CrcBoundary.BurstDetectedAcross | conn/crc.go:41-66 | a burst within sixteen bits over data and field is detected on one side of the boundary or within eight bits; a longer one across passes if and only if its part in the field is the checksum of the rest |
| CrcBoundary.ShortBurstAcross | conn/crc.go:44-45 | eight bits across the boundary never match, because of the field's byte order |
| CrcBoundary.NineBitBurstUndetected | conn/crc.go:44-45 | for every data a nine-bit burst across the boundary that passes |
| CrcBoundary.TwoBitsUndetectedExactly | conn/crc.go:41-66 | two flipped bits anywhere in data and field pass if and only if they cancel: their distance, plus 8 for a second bit in the first field byte and minus 8 in the second, is a multiple of 32767, and the first is covered |
| CrcBoundary.TwoBitsDetectedBelow | conn/crc.go:41-66 | below 4094 covered bytes no two flipped bits pass |
| CrcBoundary.TwoBitsReachField | conn/crc.go:41-66 | at 4094 there is an error of two flipped bits, the first of the data and the eighth of the field, that passes whatever the data |
| Encoder.FrameSize | packet.go:136-149 | the announced size is the length of the encoding, a multiple of four |
| Encoder.WriteCovered | conn/encoder.go:32-65 | the moving offset writes Magic and exactly the covered bytes into the zeroed buffer |
| Encoder.WriteCrc | conn/encoder.go:63-73 | the CRC covers everything after Magic and lands behind it |
| Encoder.Encode | conn/encoder.go:10-80 | refuses exactly an acknowledgement without a sequence number or in a response and a body without a Length, with the error of `Validate`, and otherwise fills the buffer with the frame |
| RoundTrip.FrameOnWire | conn/encoder.go:31-77 | the frame byte by byte, for every packet: Magic, Flags, the length of what follows up to the padding, opcode, number, body, the checksum of everything between Magic and itself, zeros up to a multiple of four; all numbers with the high byte first |
| StreamParser.ScanStable | conn/decoder.go:63-191 | what the front of a stream was found to be never changes when more bytes arrive |
| StreamParser.PacketsExtend | conn/decoder.go:63-191 | parsing a longer stream is parsing the shorter one and going on from what it left |
| StreamParser.PendingIsStuck | conn/decoder.go:63-191 | what is left over really is an incomplete front |
| StreamParser.NextPackets | conn/decoder.go:63-191 | the first packet found is the first of all packets |
| Reading.Reader.Read | conn/decoder.go:206-210 | an arbitrary reader: any chunking, short reads, transient faults, early end of stream |
| Decoding.Decoder.Grow | conn/decoder.go:196-205 | growing leaves room for a whole read buffer, exactly one at the start, and keeps the bytes |
| Decoding.Decoder.EnsureBytes | conn/decoder.go:194-222 | succeeds only with enough bytes, appends what was read, and loses nothing on failure |
| Decoding.Decoder.Compact | conn/decoder.go:225-235 | moves the unconsumed bytes to the front unchanged |
| Decoding.Decoder.BuildFrame | conn/decoder.go:238-291 | computes the one-shot parser's verdict on the frame by positions in the buffer |
| Decoding.Decoder.TakeTurn | conn/decoder.go:63-191 | each turn of the machine keeps the buffer bookkeeping, moves the parse by what the one-shot parser says, and gets closer to an end |
| Decoding.Decoder.Decode | conn/decoder.go:63-191 | returns the first packet of the bytes at hand and keeps exactly what follows; a failure loses nothing; it terminates; consumed plus unconsumed is what was read |
| Decoding.ReadLoop | client/client.go:139-155 | repeated decoding yields exactly the packets of the whole stream, for every chunking and with transient faults between chunks |
| RoundTrip.ScanEncoded | conn/encoder.go:10-80 | an encoded well-formed packet parses to itself and nothing more |
| RoundTrip.RoundTripExactly | conn/encoder.go:10-80 | an encodable packet decodes to itself if and only if its values fit their fields and its payload fits Length |
| RoundTrip.AcceptedReencodes | conn/decoder.go:238-291 | every accepted frame re-encodes to the bytes it was read from, up to padding |
| RoundTrip.PacketsWellFormed | conn/decoder.go:238-291 | the decoder only returns packets that would survive encoding |
| RoundTrip.DecodedLegal | conn/decoder.go:280-290 | no packet that `Encode` refuses is ever delivered |
| RoundTrip.RefusedFrameDropped | conn/decoder.go:280-284 | an intact frame with refused flags costs exactly itself |
| RoundTrip.PaddingIgnored | conn/decoder.go:156-189 | a frame is delivered whatever its padding holds |
| RoundTrip.MaxBodyLenSafeExactly | constants.go:18-20 | a body of the documented maximum survives if and only if the other fields take at most eight bytes |
| RoundTrip.MaxBodyLenTooLarge | constants.go:18-20 | a consistent packet with a body of the documented maximum that does not survive |
| RoundTrip.TransmitDecodes | conn/decoder.go:63-191 | frames with noise free of Magic before and between them decode to exactly the list sent |
| RoundTrip.DamagedFrameDropped | conn/decoder.go:268-278 | a frame with an intact header and a failing CRC is dropped whole and nothing after it is affected |
| RoundTrip.FaultIsolated | conn/decoder.go:156-189 | one such frame among intact ones costs only itself |
| RoundTrip.DetectedErrorCostsOneFrame | conn/decoder.go:268-278 | any error behind the header that the check sees costs exactly its frame |
| RoundTrip.UndetectedErrorDelivered | conn/decoder.go:268-290 | any other error in the covered bytes delivers exactly one wrong packet in its place |
| RoundTrip.BurstCostsOneFrame | conn/decoder.go:268-278 | a burst within sixteen bits behind the header, over covered bytes and field, costs exactly one frame if it lies on one side of the boundary or within eight bits |
| RoundTrip.NineBitBurstDelivered | conn/decoder.go:268-290 | in every checked frame with anything behind its header the same nine-bit burst across the boundary delivers a wrong packet |
| RoundTrip.NineBitBurstMisroutes | conn/decoder.go:268-290 | in one with a sequence number and no body it delivers a packet with another number and the same flags, opcode and body |
| RoundTrip.TwoBitsCostOneFrame | conn/decoder.go:268-278 | two flipped bits behind the header, over covered bytes and field, cost exactly one frame unless they cancel |
| RoundTrip.OddErrorCostsOneFrame | conn/decoder.go:268-278 | any odd number of flipped bits, over covered bytes and field, costs exactly one frame |
| RoundTrip.BadLengthResynchronises | conn/decoder.go:118-124 | dropping four bytes after a bad Length finds what dropping Magic alone would find |
| Sequencing.AdvanceIs | conn/seq.go:72-81 | the counter steps by one and wraps to 1 one step before 65535 or 4294967295 |
| Sequencing.AllocateInRange | conn/seq.go:64-91 | an allocated number is nonzero and fits its field |
| Sequencing.AllocateCollidesExactly | conn/seq.go:83-88 | the result is already pending if and only if the counter and its successor both are |
| Sequencing.AllocationsDistinct | conn/seq.go:64-91 | any 32767 consecutive allocations (2147483647 for four bytes) are pairwise distinct, whatever collisions are skipped |
| Sequencing.NthDistinct | conn/seq.go:72-81 | without skips numbers differ over any 65534 allocations |
| Sequencing.NthRepeats | conn/seq.go:72-81 | and repeat after exactly that many |
| Sequencing.RecentAllocationsFresh | conn/seq.go:64-91 | if nothing stays pending across a whole cycle, no allocation collides and no skip is taken |
| Sequencing.LiveWindowFresh | conn/seq.go:64-91 | the same from the start, with pending numbers described by the run itself |
| Sequencing.DueAtIs | conn/seq.go:198-204 | the k-th expiry is due at 2^k - 1 initial timeouts |
| Sequencing.RetryLoop | conn/seq.go:140-196 | retransmission k leaves at 2^k - 1 timeouts; the loop gives up at 15 if and only if nobody settles the request and all writes succeed; it fails early if and only if a write fails first |
| Sequencing.SurvivesExactly | conn/seq.go:147-188 | a request survives expiries if and only if there were at most three and each was written |
| Sequencing.SeqManager.constructor | conn/seq.go:43-53 | starts at 1 with an empty table; any width but 2 and 4 becomes 2 |
| Sequencing.SeqManager.Allocate | conn/seq.go:64-91 | 0 on a closed manager, otherwise the specified allocation, in range |
| Sequencing.SeqManager.Enqueue | conn/seq.go:94-113 | files a new open request, overwriting what the number had |
| Sequencing.SeqManager.Resolve | conn/seq.go:117-137 | delivers to the request filed under the number, closes it once, and touches no other |
| Sequencing.SeqManager.Expire | conn/seq.go:146-188 | one expiry as one step: retransmit or end the request, keeping every other; it panics if and only if it gives up a request already done whose number another one has |
| Sequencing.SeqManager.Remove | conn/seq.go:207-214 | closes and forgets the request, if it is pending |
| Sequencing.SeqManager.Close | conn/seq.go:224-238 | every pending request fails with the close error, each closed once, and the table empties |
| RetryRace.RunConsistent | conn/seq.go:140-196 | what links the loop, the table and the closes in every interleaving |
| RetryRace.ClosedTwiceExactly | conn/seq.go:148-188 | once the loop has stopped, `done` was closed twice if and only if another party took the entry while the loop had decided to give up, or during a retransmission that then failed; before, at most once |
| RetryRace.ClosedTwice | conn/seq.go:160-165 | a run in which that happens |
| RetryRace.LoopStops | conn/seq.go:148-193 | a waiting loop stops on `done` or at the next expiry once the request has left the table, and before that retransmits three times and gives up at the fourth |
| RetryRace.AtomicExpiryClosesOnce | conn/seq.go:140-196 | with undivided expiries `done` is closed exactly once, when the request leaves the table, from any state the loop waits or has stopped in |
| RetryRace.AtomicRunsCloseOnce | conn/seq.go:140-196 | and so from the start |
| Wire.BuildRequest | client/client.go:93-95 | the request of `SendRequest`, whose widths are the client's whatever the constructor chose |
| Wire.BuildResponse | server/server.go:245-262 | the response of a handler or of an error, whose sequence and CRC widths are the request's |
| Wire.SeqRoundTrip | client/client.go:88-93 | a sequence number survives the 32-bit field |
| Wire.RequestDecodes | server/server.go:203-218 | an encoded request reaches the server's loop as the request it was |
| Wire.ResponseDecodes | client/client.go:143-153 | an encoded response reaches the client's loop as itself, under the request's number |
| Wire.RequestSays | client/client.go:88-95 | direction, acknowledgement, the client's widths and CRC option, number, opcode and body of a request, all as asked |
| Wire.ResponseSays | server/server.go:245-270 | a response has the server's opcode width and everything else as in its request |
| Client.Client.OnFrame | client/client.go:143-153 | a response resolves the request under its number and no other; other frames change nothing |
| Client.Client.OnTimer | conn/seq.go:146-188 | up to three expiries write the frame once more; a failed write or a fourth expiry ends the request |
| Client.Client.SendRequest | client/client.go:83-115 | writes the one request of its allocated number and, within the wait, its retransmissions; answers with what ends the wait, and leaves nothing of its own in the table |
| Client.Client.Wait | conn/seq.go:241-250 | under any sequence of arriving frames, timer expiries and a close, the first that ends the wait ends it: a response under the number, a fourth expiry, a failed retransmission or the close; if none does, the context |
| Client.AnswersExactly | client/client.go:83-115 | a wait brings a response if and only if one arrives before a close, a failed retransmission and the fourth expiry, and then that one; the frame is written at most four times |
| Client.Client.Close | client/client.go:159-171 | fails every pending request; a second close changes nothing |
| Server.ConnContext.ServeFrame | server/server.go:216-232 | answers an unknown opcode at once, leaves a known one to a handler of its own, and ignores the rest |
| Server.ConnContext.HandleRequest | server/server.go:245-262 | ends any one of the running handlers and writes the one response to its request: the handler's body if there is one, else its error text, else nothing |
| Server.ConnContext.Serve | server/server.go:199-234 | under any schedule of the loop and the handlers writes the responses in the order in which the requests were answered; nothing on a closed connection |
| Server.AnsweredOnce | server/server.go:216-232 | over any frames, in every schedule that runs to its end, each is answered once if it is a request that asks for an acknowledgement and never otherwise |
| Server.ResponseValid | server/server.go:253-262 | no response is ever refused by `Encode` |
| Server.PipelineAnswered | server/server.go:199-270 | in every schedule that runs to its end, requests sent back to back are answered one for one, in some order, each response decoding to the request's number and opcode and carrying the handler's body, its error text if the body is empty, or the text for an unknown opcode |
| Server.OrderKeptExactly | server/server.go:220-232 | the responses to requests with different numbers come in request order under every schedule if and only if no request but the last has a handler |
| Server.OrderBroken | server/server.go:227-231 | otherwise a schedule that answers them out of order |
| Protocol.AllocateKeeps | client/client.go:88-95 | allocating and building a request keeps the invariant when nothing of the number's last owner is left |
| Protocol.EnqueueKeeps | conn/seq.go:94-113 | filing a request keeps the invariant |
| Protocol.WriteKeeps | client/client.go:101-105 | writing keeps it, whether or not the frame arrives or the write succeeds |
| Protocol.ExpireKeeps | conn/seq.go:146-188 | an expiry keeps it, though the loop looks up only the number |
| Protocol.SeeDoneKeeps | conn/seq.go:190-193 | leaving the retry loop keeps it |
| Protocol.WaitKeeps | conn/seq.go:241-250 | each arm of the wait keeps it |
| Protocol.CleanupKeeps | client/client.go:109-111 | `Remove` after a failure keeps it, though it names only the number |
| Protocol.CloseKeeps | conn/seq.go:224-238 | closing the manager keeps it |
| Protocol.ServerReceiveKeeps | server/server.go:202-233 | the server's dispatch of a frame keeps it, known opcode or not |
| Protocol.AnswerKeeps | server/server.go:245-262 | a handler's reply keeps it |
| Protocol.ClientReceiveKeeps | client/client.go:143-153 | a response, however old or repeated, finds its own call or nobody |
| Protocol.NetworkKeeps | client/client.go:139-155 | loss, duplication and reordering keep it |
| Protocol.ResponsesAreOwn | client/client.go:83-115 | in every run a returned response was computed by the server from that request's own opcode and body |
| Protocol.UndisturbedCallReturns | client/client.go:83-115 | from any such state a new call whose frames get through returns what the handler's end was: its body, else its error text, else nothing |
| Protocol.ClosedExactlyOnce | conn/seq.go:117-250 | in every reachable state a pending request is open and empty, and one that left was closed once and holds at most one outcome, exactly one until its call returns, so that no waiter hangs |
| Protocol.RetriesBounded | conn/seq.go:140-196 | under any events a pending request outlived at most three expiries and its client wrote its frame at most four times; it fails for too many retries exactly at a fourth |
| Protocol.NumbersAreFresh | conn/seq.go:83-88 | within the window every number allocated is free and the collision skip is never taken |
| Protocol.StaleReplyMisdelivered | conn/seq.go:117-137 | from any invariant state with a response in flight one allocation beyond the window, the next call can return it though the server never saw that call |
| Exchanges.LostRequestsRecovered | conn/seq.go:139-196 | from any invariant state within the window, a call whose first frames are lost, up to three, returns the handler's answer through a retransmission |
| Exchanges.FourLossesGiveUp | conn/seq.go:160-170 | one that loses four fails for too many retries at the next expiry, with its number free again |
| Exchanges.UnknownOpcodeAnswered | server/server.go:220-226 | a request for an opcode without a handler returns the server's error text to its caller |
| Exchanges.WaitEnds | conn/seq.go:241-250 | in every reachable state a waiting call can return at once with its response, or fail on its error or its context, and leaves nothing of its own in the table |
| Exchanges.CloseFailsAll | conn/seq.go:224-238 | in every reachable state closing fails exactly the requests in the table, with the close error |
| Exchanges.NoCallAfterClose | conn/seq.go:64-70 | and no call is added afterwards |
| StaleReply.CallFails | client/client.go:88-105 | a call whose write fails uses up a number and leaves nothing behind |
| StaleReply.CycleReached | conn/seq.go:72-81 | an allowed run reaches a whole cycle of allocations with a response still in flight |
| StaleReply.StaleReplyReachable | client/client.go:83-155 | for every configuration and all requests and replies that fit, an allowed run from the start after which only the window is short by one, and the later call returns the reply to the earlier one |
| MessageQueue.RegisteredCountsExactly | message_queue.go:48-59 | `count` stays the number pending if and only if the number registered was free |
| MessageQueue.CompleteUndoesPut | message_queue.go:48-75 | completing a fresh registration restores the queue |
| MessageQueue.MessageQueue.Put | message_queue.go:48-59 | refuses exactly when a positive capacity is reached, otherwise files the channel under the number and counts one more; a vacant channel not filed yet keeps the queue valid |
| MessageQueue.MessageQueue.Complete | message_queue.go:63-75 | the waiting channel gets the frame, once, and leaves the queue |
| MessageQueue.MessageQueue.CompleteError | message_queue.go:78-90 | the waiting channel is closed, once, and leaves the queue |
| MessageQueue.MessageQueue.Clear | message_queue.go:93-102 | every waiting channel is closed, once, and the queue is empty |
| Connection.NumbersDistinct | conn/connection.go:228-231 | the next number drawn is one that a send is using if and only if that send drew a multiple of 2^32 draws ago |
| Connection.FailureTakesOwn | conn/connection.go:245-248 | a send whose write fails completes its own channel, never another's |
| Connection.PutKeeps | conn/connection.go:240-242 | registering a channel keeps the invariant of the race |
| Connection.TakeKeeps | message_queue.go:63-90 | taking a channel out of the queue keeps it |
| Connection.ActKeeps | message_queue.go:72-89 | acting on a taken channel after the lock is released keeps it |
| Connection.WriteStepKeeps | conn/connection.go:83-98 | each check and the write of `WritePacket` keep it |
| Connection.ClearKeeps | conn/connection.go:103-110 | clearing the queue some time after setting the flag keeps it |
| Connection.ChannelsUsedOnce | conn/connection.go:222-251 | under every interleaving a channel gets at most one event, the count is the number pending, and one `Send` writes at a time, however many numbers are drawn, as long as none is drawn while a send is still using it |
| Connection.NothingLeftBehind | conn/connection.go:103-110 | once `Close` and all sends have returned nothing is pending, and once completions have acted every registered channel got exactly one event |
| SendRuns.DeliveredExactly | conn/connection.go:244-250 | over all runs a send returns its channel if and only if its write took place and succeeded |
| SendRuns.FailingExactly | conn/connection.go:83-98 | it fails if and only if its write failed or one of the two checks found the connection closed |
| SendRuns.RejectedExactly | conn/connection.go:223-225 | it is refused if and only if it began on a closed connection |
| SendRuns.ClosedExactly | conn/connection.go:103-106 | which is closed if and only if someone called `Close` |
| SendRuns.ResponsesAreOwn | message_queue.go:63-75 | under every interleaving a response on a send's channel came in under that send's number |
| SendRuns.ResponseDelivered | conn/connection.go:222-251 | from any open state, a send whose write succeeds and whose response comes in is delivered with exactly that response, under the number after the last one drawn, zero left out |
| SendRuns.FailedWriteCloses | conn/connection.go:245-248 | one whose write fails closes its own channel, fails, and leaves nothing in the queue |
| SendRuns.CloseDelivers | conn/connection.go:103-110 | one still waiting when the connection is closed gets its channel closed |
| WebSocket.MaskBytes | conn/ws.go:220-224 | in place, every byte is xored with the key byte of its position modulo four |
| WebSocket.KeyStream | conn/ws.go:220-224 | masked zeros are the key over and over, and a byte xored with its masking is its key byte (section 5.3 of RFC 6455) |
| WebSocket.MaskTwice | conn/ws.go:220-224 | unmasking undoes masking |
| WebSocket.MaskPieces | conn/ws.go:107-125 | masking in pieces of a multiple of four bytes, each with the key started over, equals masking the whole |
| WebSocket.ReadPiecesMaskWhole | conn/ws.go:107-125 | so the 4096-byte pieces mask like one |
| WebSocket.BigRoundTrip | conn/ws.go:54-67 | an extended length reads back as written |
| WebSocketWire.FrameOnWire | conn/ws.go:42-75 | a frame byte by byte: first byte, mask bit and shortest length code, extended length with the high byte first, key, payload xored with the key byte of each position modulo four |
| WebSocketWire.OwnFramesOnWire | conn/ws.go:150-187 | messages leave as 0x82 and answers to pings as 0x8A, unmasked, with the payload as it is |
| WebSocket.WsConn.WriteFrame | conn/ws.go:158-187 | sends the frame with FIN set and the shortest of the three length encodings |
| WebSocket.HeadOfFrame | conn/ws.go:42-75 | the header of any frame reads back as what it was made from |
| WebSocket.WsConn.ReadHead | conn/ws.go:42-75 | reads header, extended length and key, and fails exactly when they are incomplete |
| WebSocket.WsConn.Read | conn/ws.go:40-147 | computes the specified read: pings answered with their payload, pongs and unknown frames skipped, one message delivered or, if it is larger than the buffer, spread over it in pieces, nothing else of the buffer touched |
| WebSocket.WsConn.ReadPieces | conn/ws.go:103-127 | the piecewise read of a message larger than the buffer, with its count, its early end and its panic |
| WebSocket.SpillIs | conn/ws.go:103-127 | a complete message larger than the buffer panics if and only if the buffer ends before the last piece begins; otherwise it fills the buffer and reports the whole length |
| WebSocket.ReadFrame | conn/ws.go:77-145 | opcodes 1 and 2 are delivered if and only if they fit the buffer, 9 is answered with its payload, 8 ends the stream, anything else leaves no trace |
| WebSocketWire.CutFrameEnds | conn/ws.go:40-147 | a stream cut anywhere inside a frame that fits the buffer ends the read with nothing delivered or answered |
| WebSocketWire.CutMessageEnds | conn/ws.go:103-127 | a message larger than the buffer in a stream that ends inside it is cut off at its last whole piece, or the copy panics, with the exact condition |
| WebSocket.WrittenReadsBack | conn/ws.go:150-155 | what `Write` sends reads back as one message if and only if it fits the reader's buffer |
| WebSocket.StreamReads | conn/ws.go:40-147 | over any mix of frames, masked or not, and reads of any sizes no smaller than the payloads, reads deliver exactly the data payloads and answer exactly the pings |
| WebSocket.FramesOverWebSocket | conn/ws.go:150-155 | with the decoder's own room for every read, messages of at most one read buffer are delivered whole, and however protocol frames are cut into them, the packets sent are the packets found |
| WebSocket.ReadMessages | conn/ws.go:40-147 | reads the connection to its end with one read buffer, collecting the messages the specified reads deliver |
| WebSocket.DecodeConnection | conn/decoder.go:206-210 | the streaming decoder over the connection returns the packets in the messages its reads deliver |
| WebSocket.FirstPacketFitsExactly | conn/decoder.go:197-210 | a packet written as one message reaches a new decoder if and only if its frame fits one read buffer; otherwise the read reports too many bytes or panics |
| WebSocket.ContinuationsLostExactly | conn/ws.go:138-144 | over any frames that fit the reads, nothing of fragmented messages is lost if and only if every continuation is empty |
| WebSocket.ContinuationDropped | conn/ws.go:138-144 | the smallest case: what follows the first of two fragments is lost |
| FilterChain.Continuation.DoFilter | basic/register/filter_chain.go:80-94 | the object with its moving index computes the specified walk through the chain |
| FilterChain.Continuation.Gate | basic/filter/negotiate.go:44-69 | lets through negotiation requests and negotiated connections, refuses the rest |
| FilterChain.Continuation.Negotiate | basic/message/handler/negotiate.go:63-117 | marks the connection, and logs the negotiation as accepted, if and only if the request has a body, parses and is accepted by the negotiator |
| FilterChain.FiltersInOrder | basic/register/filter_chain.go:48-94 | the filters entered are an in-order prefix, each once, however often filters call the chain; handlers come only after all of them |
| FilterChain.GateRefuses | basic/filter/negotiate.go:58-66 | a gated dispatch on a connection not negotiated runs no other handler |
| FilterChain.MarkedExactly | basic/message/handler/negotiate.go:75-101 | in every dispatch, whatever the filters do: handlers run only for the request's own registered message; a negotiation counts as accepted, and an unmarked connection becomes marked, if and only if it ran with a body that parses and was accepted |
| FilterChain.NoHandlerBeforeNegotiation | basic/register/message_dispatcher.go:86-133 | with the gate first, in every run a handler for anything but negotiation runs only after an accepted negotiation |
| FilterChain.HandlersNeedNegotiation | basic/filter/negotiate.go:44-69 | with the gate first, in every run over a new connection a handler for anything but negotiation runs only after an earlier request that was a negotiation, had a body, parsed and was accepted |
| FilterChain.PlainChainExactly | basic/register/filter_chain.go:80-94 | if every filter passes its message on once, the handler of a registered message runs if and only if the connection has negotiated, the message is a negotiation, or there is no gate |
| FilterChain.NothingAfterClose | basic/register/filter_chain.go:81-84 | on a closed connection nothing happens, whatever filters still call |
| FilterChain.ClosingFilterStops | basic/register/filter_chain.go:81-84 | a filter that closes the connection keeps every later filter and the handler from running |
| FilterChain.GateBypassedUnlessFirst | basic/register/filter_chain.go:86-93 | at every other position some filters before the gate let a message past it |
| FilterChain.BeanRegister.Register | basic/register/bean.go:125-135 | a filter goes to the registry's chain and leaves the dispatcher's alone |
| FilterChain.RegisteredGateIsUnused | basic/register/bean.go:105-135 | so a gate registered that way guards nothing |

## Left out

- TCP, QUIC, listeners, deadlines and the WebSocket upgrade handshake: foreign calls and I/O.
- Encoding and decoding of negotiation payloads and session identifiers: what the handler found and what the negotiator decided are inputs.
- CRC-32: no Flags byte selects it.
- Heartbeats, logging, the connection registry, event dispatch, codecs and `ConnectionBridge`: map plumbing with easy claims.
- Statistics counters are unbounded where the source has 64 bits.
- The second `ensureBytes` in the Flags state (conn/decoder.go lines 86-91) cannot run, because the first one has already provided the byte; it is not modelled, and neither are the decoder fields that nothing reads.
- `Conn.Send` and `Conn.Close` are modelled as events of a transition system, not as methods of an object; Go's scheduler and memory model are interleavings of events.
- Client.Client.SendRequest: what happens during the wait is its input, one happening at a time; what other callers write meanwhile is not in its `written`, and overlapping calls are in `Protocol`. If the context ends when a mailbox is already full, the select of conn/seq.go line 242 may take either arm; here the mailbox comes first.
- Server.ConnContext.Serve: what a handler answers is a function of the opcode and body, and the connection is open for the whole run or closed for all of it; in `Protocol` answers are arbitrary and any write may fail.
- Protocol.ResponsesAreOwn: frames are lost, duplicated and reordered whole but never altered, and a failed write either delivers the frame or does not; what corruption does to a stream is stated by the theorems about damaged frames.
- Protocol.ResponsesAreOwn: holds for runs in which opcodes and lengths fit their fields and no call, retry loop, frame or handler outlives the window; that it fails one allocation beyond is shown by StaleReply.StaleReplyReachable.
- Protocol.ClientReceiveKeeps: `Resolve` deletes the entry under the lock and closes `done` and sends after releasing it (conn/seq.go lines 118-135); here the three are one event, so a waiter is never seen between them.
- Protocol.ExpireKeeps: an expiry is one event; the finer steps of its give-up path are those of `RetryRace`.
- Sequencing.RetryLoop: time is a sum of waits; a request settled exactly when the timer fires counts as settled.
- Connection.ChannelsUsedOnce: holds for runs in which no number is drawn 2^32 draws after one that is still in use; the two owners would share one entry of the queue (`Connection.NumbersDistinct`).
- MessageQueue.MessageQueue.Put: waiting channels are vacant and filed once in a valid queue, which is what completing them asks for; channels are never nil; `Clear` would panic on a nil channel where `Complete` tests for it, and no caller registers one.
- WebSocket.WsConn.Read: a stream cut inside a frame ends like one cut between frames. A ping, pong or unknown frame that announces more than Go can allocate makes conn/ws.go lines 82, 94 and 141 panic before anything is read; here the stream ends, as it does when the announced bytes do not come.
- WebSocket.WsConn.WriteFrame: the write itself cannot fail.
- FilterChain.FiltersInOrder: a filter is the finite list of its calls of the chain and closings of the connection in one run; the errors it passes on are not modelled, only the negotiation handler sets properties, and there is always a connection and a frame.
