# CAN bridge daemon: the CBD1 protocol and its sessions, in Dafny

The daemon bridges CAN interfaces to network clients. This project models its binary protocol (CBD1) from bytes to
concurrent sessions and proves what the protocol is for:

- **Wire codec** (`BinaryMessage`, `PayloadCodec`, `WireLayout`, `DecoderVerdict`, `CodecTheorems`, `Utf8`, `Bytes`).
  What decoding an encoding gives is characterised for *every* message, truncation and wrap-around included; what
  re-encoding a decoded packet gives is characterised for every packet. Where each byte of each packet stands, and what
  the decoders answer on every buffer whatsoever, is stated by offsets and byte values. The routines that push bytes and
  advance a cursor are proved to compute these functions.
- **Streams** (`PacketStream`, `TcpBinaryReader`, `WsBinaryReader`). The reading loops, fed arbitrary bytes cut in
  arbitrary places, do what decoding the whole stream at once says; the WebSocket loop does so with a lag of one
  message after the handshake.
- **Service and dispatch** (`Hex`, `Service`, `SocketCanTx`, `Dispatch`, `TcpJsonl`). One TX-port call per frame, an
  event on the bus only for an accepted frame, and binary and JSON sessions that do the same things when asked for the
  same things.
- **Concurrent sessions** (`SessionProtocol`, `BusAccount`, `SessionInvariants`, `SessionTheorems`, `FrameTiming`,
  `SharedBus`). A TCP binary
  session is two interleaved tasks over a mutex-guarded set, a reply queue and a broadcast bus, one step per lock
  section, queue operation, bus operation and write. Theorems hold for every interleaving, and for any number of
  sessions on one bus. When a frame event can be on the wire, relative to the replies, is characterised exactly.
- **Two locks** (`FrameFilters`, `WsJsonl`). What a list of filters lets through is characterised field by field. A
  WebSocket JSON session guards its interface set and its filters by separate locks; the
  skew this allows is bounded, and the bound is proved exact.

## How to read the model

- Rust strings are byte sequences; that they are UTF-8 (section 4 of RFC 3629) is the predicate `WellFormed`. The two
  message enums of the source are constructors of one datatype with the subset types `Request` and `Response`.
- Ports, clock and discovery are parameters (`Oracle`, `Driver`). Reads are byte chunks, a chunk of zero bytes is the
  end of input, and a handshake timeout or a read error is a step that may end the reader (`Stop`).
- The reply queue is assumed to be first-in first-out and to report its end only when it is empty and its sender is
  gone. The bus is assumed to be a log with one read position per receiver, capacity 1024, that moves a receiver which
  is further behind forward and tells it how many frames it lost. Lock sections are atomic. A failing write may leave
  any proper part of one packet on the wire.
- Texts that print a rejected request in debug form are parameters (`shown`).
- `DecodeAll` (decode everything at once) is the reference for all incremental reading; `Controls` (the sets installed
  by a list of requests) and `Acked` (the sets acknowledged by a list of replies) are the references for subscriptions.

Where the design documents and the code disagree the model follows the code: the header is 12 bytes *including* the
magic, integers are little-endian, there is no scan for the next magic after an error, bad magic is reported only once
12 bytes are there and an unknown type only once the whole payload is there.

Several plausible readings are false of the code, and the exact conditions are proved instead. HelloAck need not be the
first thing written: it is sure to be if and only if no Subscribe request names an interface (`HelloAckFirstIff`). An
acknowledgement need not precede the frames it lets through: that is sure only for an interface nobody subscribes to
(`AckFirstIff`); how early a frame can be is the exact bound `FrameTimingIsExact`. A string list of at most
65535 entries does not always get an exact length field: it does unless there are 65535 entries whose stored bytes are
at most one short of the maximum (`LengthFieldBound`), and then the packet does not decode (`OverlongListFails`). On a
WebSocket JSON session a frame need not match the set and the filters of one and the same subscription: it is
guaranteed to exactly when no subscribe or unsubscribe request is unacknowledged (`OnePairFails`,
`OnePairIffNothingPending`).

## Model

| member | source | states |
|---|---|---|
| `Utf8.CutIsValid` | src/domain/binary_message.rs:486-491 | Cutting a valid string at a byte offset, as storing an over-long string does, leaves valid UTF-8 if and only if the offset is a character boundary. |
| `Utf8.ValidIffEncoded` | src/domain/binary_message.rs:536-538 | A byte string passes the UTF-8 test if and only if it is the image of some text. |
| `Utf8.CharBytesSpell` | src/domain/binary_message.rs:486-491 | The bytes of a character spell its scalar value, in as few bytes as can hold it (section 3 of RFC 3629). |
| `Bytes.LeByte` | src/domain/binary_message.rs:481-484 | Byte k of an integer field is the digit of weight 256^k: least significant first. |
| `Bytes.FromLeIsWeighted` | src/domain/binary_message.rs:502-529 | Reading a field sums its bytes, byte k with weight 256^k. |
| `BinaryMessage.TypeFromU16` | src/domain/binary_message.rs:40-59 | A raw type is accepted exactly if it is the code of a message type, and then as that type. |
| `BinaryMessage.DecodePacket` | src/domain/binary_message.rs:174-195 | A whole packet spans between 12 bytes and the buffer, and its payload is exactly the bytes after the header (the exact answer is `PacketVerdict`). |
| `DecoderVerdict.PacketVerdict` | src/domain/binary_message.rs:174-195 | For every buffer: incomplete iff under 12 bytes or, with the magic, under 12 plus the length field; bad magic iff 12 bytes are there and the first four are not 43 42 44 31; unknown type iff all is there and the code is none of the 14; whole otherwise, with the type of that code. |
| `DecoderVerdict.PayloadVerdict` | src/domain/binary_message.rs:277-478 | For every payload and type, the cursor decoder answers what stands at the offsets: fields, any non-zero byte as true, an empty text as none, and the error of the first fault. |
| `DecoderVerdict.DecodeVerdict` | src/domain/binary_message.rs:134-154 | For every buffer and side, which bytes lead to which message, to an incomplete result and to each error, the other side's types included. |
| `BinaryMessage.DecodeFrom` | src/domain/binary_message.rs:134-154 | Every successful decode consumes between 12 bytes and the whole buffer, and yields a message of the side being read. |
| `CodecTheorems.PacketReads` | src/domain/binary_message.rs:158-195 | For every payload of any length and whatever follows, the decoder sees exactly the first (length mod 2^32) payload bytes. |
| `CodecTheorems.PayloadReads` | src/domain/binary_message.rs:199-478 | Decoding any message's payload gives its canonical form, or a UTF-8 error exactly when a kept string was cut inside a character. |
| `CodecTheorems.EncodingCharacterised` | src/domain/binary_message.rs:123-195 | Decoding the encoding of any message with a payload under 2^32 bytes gives the canonical form and consumes the whole packet, or a UTF-8 error exactly when a kept cut falls inside a character; following bytes do not matter. |
| `CodecTheorems.IdentityIffInRange` | src/domain/binary_message.rs:486-491 | A message is its own canonical form if and only if all its lengths fit 16 bits and no error text is an empty `Some`. |
| `CodecTheorems.ReencodingIsRetraction` | src/domain/binary_message.rs:277-478 | Any decoded message re-encodes without truncation or wrap-around, to no more bytes than were consumed, and decodes to the same message again. |
| `CodecTheorems.DecodeIsPrefixStable` | src/domain/binary_message.rs:136-195 | A decoded message or an error stays the same whatever bytes arrive later. |
| `CodecTheorems.PacketPrefixIsIncomplete` | src/domain/binary_message.rs:174-190 | Every proper prefix of a packet is incomplete: neither an error nor a message. |
| `CodecTheorems.LengthFieldBound` | src/domain/binary_message.rs:158-165 | Lists of at most 65535 strings make payloads of at most 2^32+1 bytes, and the length field is exact if and only if the list is not one of 65535 entries at most one byte short of the maximum. |
| `CodecTheorems.OverlongListFails` | src/domain/binary_message.rs:389-395 | Such a list does not decode: the decoder reports end of payload. |
| `CodecTheorems.BoundIsAttained` | src/domain/binary_message.rs:486-491 | 65535 strings of 65535 bytes reach the bound of 2^32+1 bytes. |
| `WireLayout.HeaderLayout` | src/domain/binary_message.rs:158-169 | The 12 header bytes of every packet one by one: magic, the number of the message, zero flags, the length least significant byte first; the payload follows. |
| `WireLayout.PayloadLayout` | src/domain/binary_message.rs:199-417 | The payload of every message byte by byte: order and offset of the fields, length prefixes, wrapped counts, flags as 0 or 1, nothing after the last field. |
| `PayloadCodec.PayloadWriter.PutString` | src/domain/binary_message.rs:486-491 | Appends the saturated 16-bit length and that many bytes. |
| `PayloadCodec.PayloadWriter.PutList` | src/domain/binary_message.rs:389-395 | The loop appends the wrapped count and then every string. |
| `PayloadCodec.PayloadCursor.GetString` | src/domain/binary_message.rs:531-541 | Returns what the parsing function gives and leaves the cursor where it leaves off. |
| `PayloadCodec.PayloadCursor.GetList` | src/domain/binary_message.rs:434-441 | The counting loop reads what the list parser gives, stopping at the first error. |
| `PayloadCodec.EncodeClientPayload` | src/domain/binary_message.rs:372-417 | The byte-pushing routine computes the payload whose decoding is characterised above. |
| `PayloadCodec.EncodeDaemonPayload` | src/domain/binary_message.rs:199-273 | Likewise for daemon responses. |
| `PayloadCodec.EncodePacket` | src/domain/binary_message.rs:158-169 | Assembles exactly the packet of the type and payload. |
| `PayloadCodec.EncodeMessage` | src/domain/binary_message.rs:123-132 | Encodes any message to the packet the theorems speak of. |
| `PayloadCodec.DecodeClientPayload` | src/domain/binary_message.rs:421-478 | The cursor routine decodes what the client-side function gives, refusing daemon types. |
| `PayloadCodec.DecodeDaemonPayload` | src/domain/binary_message.rs:277-368 | The cursor routine decodes what the daemon-side function gives, refusing client types. |
| `PayloadCodec.DecodeClientFrom` | src/domain/binary_message.rs:136-143 | Decodes one client request from a buffer as the reference function does. |
| `PayloadCodec.DecodeDaemonFrom` | src/domain/binary_message.rs:147-154 | Decodes one daemon response from a buffer as the reference function does. |
| `PacketStream.ConsumesBytes` | src/infra/transport_tcp/tcp_binary.rs:130-131 | Received bytes are the drained ones followed by the buffer, and each message cost at least 12 bytes. |
| `PacketStream.ConsumesMore` | src/infra/transport_tcp/tcp_binary.rs:217-222 | Appending read bytes to the buffer changes nothing already decoded. |
| `PacketStream.ConsumesIsDecodeAll` | src/infra/transport_tcp/tcp_binary.rs:128-131 | What was decoded and drained so far is the start of the whole-stream decoding, and the buffer holds the rest of it. |
| `PacketStream.DecodeAllConsumes` | src/infra/transport_tcp/tcp_binary.rs:128-131 | Whole-stream decoding stops only where nothing more can be decoded. |
| `PacketStream.EncodedStreamReads` | src/domain/binary_message.rs:123-154 | Concatenated encodings decode to the canonical forms in order, whatever follows. |
| `Hex.BytesToHexLower` | src/infra/transport_tcp/tcp_binary.rs:264-272 | The loop computes the lower-case hex text. |
| `Hex.ParseHex` | src/app/service.rs:146-173 | The step-two loop computes the hex decoding, with the error of the first bad digit. |
| `Hex.HexRoundTrip` | src/app/service.rs:146-173 | Decoding the hex text of any bytes gives the bytes back. |
| `Hex.HexAccepts` | src/app/service.rs:146-173 | Decoding succeeds if and only if the text without whitespace is an even number of hex digits, and re-encoding the result gives that text in lower case. |
| `Hex.HexRefuses` | src/app/service.rs:149-171 | Why a text is refused: an odd number of bytes, or else the first byte that is no hex digit. |
| `Hex.WhitespaceIsIgnored` | src/app/service.rs:149 | Whitespace makes no difference wherever it stands, and everything else stays. |
| `Service.BridgeService.HandleRequest` | src/app/service.rs:71-142 | The response, the port calls and the published frames are those of the specification, appended to what was there (what they say is `RepliesSay` and `JsonRepliesSay`). |
| `Service.ServiceRefuses` | src/app/service.rs:81-87 | Hello, subscribe and unsubscribe are refused with their texts, without a call or an event. |
| `Service.BridgeService.PublishFrame` | src/app/service.rs:63-66 | Appends one frame to the bus. |
| `SocketCanTx.MakeId` | src/infra/socketcan_tx.rs:171-185 | Ids up to 0x7FF are standard, up to 0x1FFFFFFF extended, larger ones refused; the number is kept. |
| `SocketCanTx.SendBlocking` | src/infra/socketcan_tx.rs:73-120 | A frame reaches the driver if and only if it is sendable and can be built, with the request's id, data and flags; `Sent` if and only if the driver took it. |
| `SocketCanTx.PortAcceptsSendable` | src/infra/socketcan_tx.rs:84-98 | An accepted frame has at most 64 bytes (FD), or at most 8 and no flags (classic), and a 29-bit id. |
| `SocketCanTx.RefusalSaysWhy` | src/infra/socketcan_tx.rs:84-98 | A refusal names the first fault: the length, then the flags, then the id; otherwise the driver answers. |
| `SocketCanTx.DecimalReads` | src/infra/socketcan_tx.rs:86-91 | Numbers in refusals are in plain decimal notation. |
| `Dispatch.TransportsAgree` | src/infra/transport_tcp/tcp_binary.rs:135-214 | Binary and JSON dispatch of the same request have the same subscription set, port calls and events, and replies that say the same, if and only if it is not a hello repeated on the WebSocket transport. |
| `Dispatch.SessionsAgree` | src/infra/transport_tcp/tcp_jsonl.rs:130-148 | The same over whole sessions of any length, from any states that agree, as the states after the two greetings do. |
| `Dispatch.FramesAgree` | src/infra/transport_tcp/tcp_binary.rs:250-262 | The binary and the JSON form of a bus frame say the same, the hex text included. |
| `Dispatch.FrameSays` | src/infra/transport_tcp/tcp_binary.rs:250-262 | A frame event carries the time, interface, id, kind and data of the bus frame, and its direction as the bytes of "rx" or "tx". |
| `Dispatch.SendFrameIsOneCall` | src/infra/transport_tcp/tcp_binary.rs:167-206 | The hex detour loses nothing: one port call with the request's fields, the port's answer in the ack, an event exactly on acceptance. |
| `Dispatch.RepliesAnswer` | src/infra/transport_tcp/tcp_binary.rs:135-214 | Every request gets a reply of its own kind, and only SendFrame touches the port or the bus. |
| `Dispatch.RepliesSay` | src/infra/transport_tcp/tcp_binary.rs:135-214 | What each reply says: the interfaces discovery found or its error text, the port's answer to a frame, the echoed id or list, the text for a repeated hello of the transport. |
| `Dispatch.JsonRepliesSay` | src/app/service.rs:71-142 | The same for JSON requests, with the reason when the hex text is bad; only subscription requests change the set. |
| `TcpJsonl.Session.HandleLine` | src/infra/transport_tcp/tcp_jsonl.rs:112-148 | One line changes the set, the queue, the port and the bus as specified; blank lines change nothing, bad JSON is answered with an error. |
| `TcpJsonl.Session.ServeLines` | src/infra/transport_tcp/tcp_jsonl.rs:112-149 | The line loop is the fold of that over the lines. |
| `TcpJsonl.AcksAreTruthful` | src/app/service.rs:89-140 | Over any lines, blank, bad or good, the ok acknowledgements of a JSON-lines session, the calls the port accepted and the frames published correspond one to one, in order. |
| `TcpJsonl.LinesAreAnswered` | src/infra/transport_tcp/tcp_jsonl.rs:112-148 | Every line that is not blank gets exactly one reply, in order: an error naming the fault if it is no request, otherwise what the ports answered. |
| `TcpJsonl.GreetingsAgree` | src/infra/transport_tcp/tcp_jsonl.rs:80-84 | The greetings of the two TCP transports have the same version, name and features, listed in a different order. |
| `TcpJsonl.ServesLikeBinary` | src/infra/transport_tcp/tcp_jsonl.rs:112-149 | From their real starts, a JSON-lines session and a TCP binary session asked for the same end with the same subscriptions, calls and frames and equivalent replies, the greeting included. |
| `TcpJsonl.BytesServeLikeLines` | src/infra/transport_tcp/tcp_binary.rs:90-214 | The same from bytes: a hello and in-range requests, encoded and cut into reads in any way, have the effect of the corresponding JSON lines. |
| `TcpBinaryReader.Session.UpdateSubscriptionSet` | src/infra/transport_tcp/tcp_binary.rs:238-244 | The clear-and-insert loop makes the set exactly the listed interfaces. |
| `TcpBinaryReader.Session.DispatchRequest` | src/infra/transport_tcp/tcp_binary.rs:135-214 | The match arms have the specified effect on set, queue, port and bus. |
| `TcpBinaryReader.Session.Drain` | src/infra/transport_tcp/tcp_binary.rs:130-215 | The inner loop dispatches exactly the requests in the buffer, in order, leaves the undecodable rest, and stops only at an error or an incomplete packet. |
| `TcpBinaryReader.Session.Handshake` | src/infra/transport_tcp/tcp_binary.rs:94-109 | Reads until one request is complete; otherwise ends as the whole stream demands. |
| `TcpBinaryReader.Session.ReadLoop` | src/infra/transport_tcp/tcp_binary.rs:128-223 | The main loop, on any reads, ends and dispatches as the whole stream demands. |
| `TcpBinaryReader.Session.Run` | src/infra/transport_tcp/tcp_binary.rs:90-227 | On any bytes cut anywhere, how the session ends, whether the handshake completed and everything it did depend only on the bytes and whether input ended; while it waits, no whole packet is buffered. |
| `TcpBinaryReader.EndToEndDelivery` | src/infra/transport_tcp/tcp_binary.rs:90-131 | A hello and any encodable requests, concatenated and cut into non-empty reads in any way, complete the handshake and are dispatched in order, once each; in-range requests unchanged, with the effect of running through them one by one. |
| `TcpBinaryReader.SessionEnds` | src/infra/transport_tcp/tcp_binary.rs:128-223 | What follows a hello and encodable requests decides the end: undecodable bytes break the session, else it reads until the peer closes; the requests are dispatched in every case. |
| `TcpBinaryReader.HandshakeEnds` | src/infra/transport_tcp/tcp_binary.rs:94-109 | The same while no request is complete. |
| `TcpBinaryReader.BadMagicBreaks` | src/domain/binary_message.rs:179-181 | Twelve bytes without the magic where a packet should begin end the session with that error, at once or after dispatching the requests before. |
| `TcpBinaryReader.StrangersAreRefused` | src/infra/transport_tcp/tcp_binary.rs:117-125 | A first request that is no hello gets one error naming it; nothing is dispatched, whatever follows. |
| `TcpBinaryReader.NothingAfterEof` | src/infra/transport_tcp/tcp_binary.rs:218-221 | Only what arrives before the peer closes counts. |
| `TcpBinaryReader.GreetingSays` | src/infra/transport_tcp/tcp_binary.rs:82-88 | Version and features of the greeting, in ASCII. |
| `TcpBinaryReader.RunFromAnswers` | src/infra/transport_tcp/tcp_binary.rs:128-215 | Running through requests gives the greeting and then one reply per request, each saying what the ports answered. |
| `TcpBinaryReader.RequestsCost` | src/infra/transport_tcp/tcp_binary.rs:128-223 | Twelve bytes per decoded request, plus the leftover, never exceed the bytes received. |
| `WsBinaryReader.Session.DispatchRequest` | src/infra/transport_ws/ws_binary.rs:180-257 | The match arms have the specified effect on set, queue, port and bus. |
| `WsBinaryReader.Session.OnHandshakeMessage` | src/infra/transport_ws/ws_binary.rs:110-161 | One message during the handshake has the specified effect, HelloAck or the refusal included; bytes after the first request stay buffered. |
| `WsBinaryReader.Session.OnBinary` | src/infra/transport_ws/ws_binary.rs:170-259 | The drain loop dispatches the buffered requests in order, with their effects on set, queue, port and bus. |
| `WsBinaryReader.Session.OnMainMessage` | src/infra/transport_ws/ws_binary.rs:164-279 | A Binary message drains the buffer; Text is answered with an error; Close ends the session; the effects are those of the tasks done. |
| `WsBinaryReader.Session.OnMessages` | src/infra/transport_ws/ws_binary.rs:108-279 | The session over any messages is the fold of these steps, and its set, queue, port calls and events are what the tasks make of them. |
| `WsBinaryReader.RefinesWithLag` | src/infra/transport_ws/ws_binary.rs:108-178 | Once a Binary message follows the handshake, the session has dispatched exactly what whole-stream decoding gives and failed exactly if that fails; before, it has dispatched nothing, whatever is buffered. |
| `WsBinaryReader.TasksRunAsDispatched` | src/infra/transport_ws/ws_binary.rs:164-279 | Greeting and text errors aside, a session's set, calls, events and replies are those of running through the dispatched requests one by one. |
| `WsBinaryReader.ServesWholeStream` | src/infra/transport_ws/ws_binary.rs:108-279 | A caught-up session has had that effect for exactly the requests whole-stream decoding gives after the hello. |
| `WsBinaryReader.ClosingIsFinal` | src/infra/transport_ws/ws_binary.rs:127-132 | Close, the end of the stream, or Text in the handshake ends the session; nothing later is looked at and nothing buffered is dispatched. |
| `WsBinaryReader.ControlIsIgnored` | src/infra/transport_ws/ws_binary.rs:277 | Ping and Pong messages make no difference wherever they stand. |
| `WsBinaryReader.TextIsRejected` | src/infra/transport_ws/ws_binary.rs:269-274 | Text after the handshake is refused and changes nothing else. |
| `WsBinaryReader.StrangerIsRefused` | src/infra/transport_ws/ws_binary.rs:144-151 | A first request that is no hello is refused; nothing is dispatched, then or later. |
| `WsBinaryReader.RefusalsOnlyReply` | src/infra/transport_ws/ws_binary.rs:144-161 | Greeting and refusals put one reply on the queue and touch nothing else. |
| `WsBinaryReader.RefusalSays` | src/infra/transport_ws/ws_binary.rs:144-147 | The text of a refused first request. |
| `WsBinaryReader.TextRejectionSays` | src/infra/transport_ws/ws_binary.rs:269-274 | The text for a Text message. |
| `WsBinaryReader.WsGreetingSays` | src/infra/transport_ws/ws_binary.rs:155-161 | Version and features of the greeting, in ASCII. |
| `SessionInvariants.StreamStep` | src/infra/transport_tcp/tcp_binary.rs:90-223 | Every step keeps: hello and dispatched requests are what was decoded from the bytes received, and no wait happens over a whole packet. |
| `SessionInvariants.ReplyStep` | src/infra/transport_tcp/tcp_binary.rs:82-215 | Every step keeps: HelloAck, then one reply of the right kind per dispatched request in order (what each says is `TotalsStep`). |
| `SessionInvariants.QueueReaderStep` | src/infra/transport_tcp/tcp_binary.rs:82-215 | Reader steps keep: written, held and queued replies together are all replies, in order. |
| `SessionInvariants.QueueWriterStep` | src/infra/transport_tcp/tcp_binary.rs:51-75 | Taking, writing, failing and ending keep the same; ending on a closed queue means everything was written. |
| `SessionInvariants.SetStep` | src/infra/transport_tcp/tcp_binary.rs:157-165 | Every step keeps: the shared set is the one installed by the last control request handled. |
| `SessionInvariants.FreshStep` | src/infra/transport_tcp/tcp_binary.rs:58-66 | Every step keeps: each frame written, or about to be, passed a set at least as new as the last one acknowledged before it. |
| `SessionInvariants.DropStep` | src/infra/transport_tcp/tcp_binary.rs:230-236 | Every step keeps: each frame filtered out was missing from a set at least as new as the last one acknowledged before. |
| `SessionInvariants.BusStep` | src/infra/transport_tcp/tcp_binary.rs:58-71 | Every step keeps: written and filtered frames are each taken in bus order, none is both, written, held, filtered and lost frames add up, and only frames with 1024 newer ones are lost. |
| `BusAccount.LostAreLagged` | src/infra/transport_tcp/tcp_binary.rs:68-70 | The positions passed that are neither written, held nor filtered are exactly as many as were reported lost. |
| `SessionInvariants.WireStep` | src/infra/transport_tcp/tcp_binary.rs:52-65 | Every step keeps: the wire is whole packets, one per written item, and after a failed write the start of one more. |
| `SessionInvariants.SendStep` | src/infra/transport_tcp/tcp_binary.rs:167-206 | Every step keeps: calls match SendFrame requests one to one, acks report their outcomes, accepted calls have their events on the bus. |
| `SessionTheorems.RunInv` | src/infra/transport_tcp/tcp_binary.rs:32-228 | All invariants hold after every legal run. |
| `SessionTheorems.TotalsStep` | src/infra/transport_tcp/tcp_binary.rs:82-215 | Every step keeps: set, replies, port calls and events are exactly those of running through the handled requests one by one with the answers the ports gave, or of a refused first request. |
| `SessionTheorems.ReaderIsSequential` | src/infra/transport_tcp/tcp_binary.rs:128-227 | The same after every legal run, whatever the interleaving. |
| `SessionTheorems.NoStaleFrames` | src/infra/transport_tcp/tcp_binary.rs:47-77 | In every interleaving, after the ack of control request k is on the wire each later frame event has its interface in the set of request k or a later one already handled. |
| `SessionTheorems.NothingAfterUnsubscribed` | src/infra/transport_tcp/tcp_binary.rs:162-165 | A frame event after `Unsubscribed` implies a later Subscribe naming its interface was handled. |
| `SessionTheorems.NoFrameWithheld` | src/infra/transport_tcp/tcp_binary.rs:58-66 | If every set from control request k on names an interface, no frame of it is filtered out once the ack of request k is on the wire. |
| `FrameTiming.FrameTimingIsExact` | src/infra/transport_tcp/tcp_binary.rs:47-77 | Some run that handles exactly given requests writes a given frame after exactly r replies if and only if the requests are decodable and the frame passes the set of a control request not older than the last one those r replies acknowledge. |
| `FrameTiming.FrameMayComeFirst` | src/infra/transport_tcp/tcp_binary.rs:47-88 | A frame can be written before any reply, HelloAck included, if and only if some Subscribe names its interface. |
| `FrameTiming.HelloAckFirstIff` | src/infra/transport_tcp/tcp_binary.rs:79-88 | Over the runs that handle given decodable requests, HelloAck is sure to be written first if and only if no Subscribe names any interface. |
| `FrameTiming.AckFirstIff` | src/infra/transport_tcp/tcp_binary.rs:157-160 | Over the same runs, an acknowledgement naming an interface is sure to precede its frames if and only if no Subscribe names that interface. |
| `SessionTheorems.DispatchedAreReceived` | src/infra/transport_tcp/tcp_binary.rs:128-223 | Handled requests are a prefix of those in the received bytes, and all of them whenever the reader waits for input. |
| `SessionTheorems.RepliesExactlyOnce` | src/infra/transport_tcp/tcp_binary.rs:51-56 | Replies on the wire are a prefix of HelloAck plus the very replies the sequential program gives, one per request in order, each saying what the ports answered; all of it when the writer ends on the closed queue, and while the reader lives the writer ends only because a write failed. |
| `SessionTheorems.FramesConserved` | src/infra/transport_tcp/tcp_binary.rs:58-71 | Written and held frames, and filtered frames, have strictly increasing bus positions with none in common; the other positions passed are as many as were reported lost, each with 1024 newer frames; the rest is still to come. |
| `SessionTheorems.WireReadsBack` | src/infra/transport_tcp/tcp_binary.rs:52-65 | Decoding the wire gives exactly the canonical forms of the replies and frame events written, in order, and leaves at most the start of a failed packet. |
| `SessionTheorems.WireShowsFrames` | src/infra/transport_tcp/tcp_binary.rs:58-66 | The frame events a client decodes are, one by one in bus order, the frames let through: time, direction, id and kind unchanged, interface and data as far as the format holds them. |
| `SessionTheorems.SendFrameIntegrity` | src/infra/transport_tcp/tcp_binary.rs:167-206 | Over any run the i-th SendAck answers the i-th SendFrame: one call with its fields, the ack its outcome, one Tx event per accepted call; with SocketCAN, ok implies a sendable frame. |
| `SessionTheorems.BytesInBytesOut` | src/infra/transport_tcp/tcp_binary.rs:32-228 | With the session at rest, the client decodes, frame events aside, the canonical forms of HelloAck and one reply for each request in the bytes it sent, in order, each saying what the ports answered. |
| `SharedBus.SessionsAreIsolated` | src/app/service.rs:55-66 | Every interleaving of any number of sessions projects, for each, to a legal run of that session alone whose only input from the others is the bus. |
| `SharedBus.EverySessionIsSafe` | src/app/service.rs:55-66 | All session invariants hold for every session of every daemon run. |
| `FrameFilters.UnmaskedIdIsExact` | src/infra/transport_ws/ws_jsonl.rs:292-297 | An id filter without a mask lets through exactly that id. |
| `FrameFilters.FieldsAreIndependent` | src/infra/transport_ws/ws_jsonl.rs:271-299 | A filter asks for what its fields ask for, each by itself; without fields it matches everything. |
| `FrameFilters.FilterByKind` | src/infra/transport_ws/ws_jsonl.rs:272-281 | A filter for an interface, or for a kind of frame, lets through exactly those frames. |
| `FrameFilters.FilterByLength` | src/infra/transport_ws/ws_jsonl.rs:282-291 | Length bounds are inclusive, and a missing bound is none. |
| `FrameFilters.FilterById` | src/infra/transport_ws/ws_jsonl.rs:292-297 | A masked id lets through exactly the ids that agree with it on every bit of the mask; a mask alone asks for nothing. |
| `FrameFilters.NarrowerPassesLess` | src/infra/transport_ws/ws_jsonl.rs:271-299 | Raising the lower bound, lowering the upper one or setting an unset field lets no more through. |
| `FrameFilters.OneMoreFilter` | src/infra/transport_ws/ws_jsonl.rs:267-268 | One more filter in a non-empty list blocks nothing and adds just what it matches; order does not matter. |
| `WsJsonl.Subscriptions.InstallIfaces` | src/infra/transport_ws/ws_jsonl.rs:221-227 | The lock section makes the set exactly the listed interfaces, or empty. |
| `WsJsonl.Subscriptions.InstallFilters` | src/infra/transport_ws/ws_jsonl.rs:228-231 | The lock section replaces the filters. |
| `WsJsonl.Subscriptions.ShouldSendFrame` | src/infra/transport_ws/ws_jsonl.rs:256-269 | Without interference: true if and only if the interface is in the set and the filters let the frame through, as the filter laws say. |
| `WsJsonl.BoundedSkew` | src/infra/transport_ws/ws_jsonl.rs:220-269 | Every frame written passed set version a and filter version b, both at least the last control request acknowledged before it, with b >= a-1. |
| `WsJsonl.SettledFramesMatch` | src/infra/transport_ws/ws_jsonl.rs:220-243 | With every control request acknowledged, a frame matches the set and the filters of the last one. |
| `WsJsonl.SkewBoundIsExact` | src/infra/transport_ws/ws_jsonl.rs:220-269 | Some run writes a given frame after k acknowledgements if and only if the frame passes some pair of versions within that bound. |
| `WsJsonl.OnePairFails` | src/infra/transport_ws/ws_jsonl.rs:256-269 | With a control request unacknowledged, a frame can go out that matches no single subscription's set and filters. |
| `WsJsonl.OnePairIffNothingPending` | src/infra/transport_ws/ws_jsonl.rs:220-269 | Frames are guaranteed to match one subscription's pair if and only if no control request is unacknowledged. |

## Left out

- Sockets, WebSocket upgrade, HTTP, gRPC adapter, listeners, Ctrl+C and command line: plumbing over libraries; reads are chunks and writes are appends to a wire.
- JSON text: lines are already parsed, or known not to parse.
- tokio channels and mutexes: their contracts are the assumptions listed above, not verified implementations.
- Time: the handshake timeout is a step that may happen at any time; timestamps are arbitrary.
- SocketCAN sockets, frame constructors and netlink discovery: arbitrary answers of `Driver` and `Oracle`; the unused socket cache is not modelled.
- DispatchBinary: the error texts for service answers that cannot occur leave out the debug form of the answer and are those of the TCP transport.
- WsBinaryReader: the reader of the WebSocket binary session is not interleaved with its writer; the step model is that of the TCP binary session, whose writer is the same.
- TcpJsonl: the first line (the handshake) and the writer are not modelled; the loop after it is.
- WsJsonl: handshake, other requests and message kinds are reduced to queueing a reply; frames come from anywhere instead of from a bus with a position.
- The RX adapter, the fake generator and interface-name sorting: only easy members.
- Client examples and the authentication notes: they describe things the daemon does not do.
