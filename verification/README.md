# Verified model of the Flipper Zero bridge and RPC client

This project models the parts of the Flipper Zero MCP server and of its ESP32
WiFi bridge that have to get a protocol right, and proves what they promise:

- the **expansion-module link** of the bridge firmware: frame parser over a
  256-byte buffer, checksum, handshake, fragmenting sender, heartbeat and
  watchdog timers, as a state machine whose runs are all interleavings of the
  receive task, the connect task, the HTTP reconnect and the TCP forwarder;
- the **nanopb-delimited RPC layer** of the host: varints, exact reads, message
  framing, fragmented writes with pacing, streamed listings, and the one lock
  that RPC and CLI share;
- both together, **end to end** in both directions;
- the **firmware installer** against a device that refuses, corrupts or stops
  answering;
- the **TCP client hand-over** and the **captive portal's form decoder**.

## How it is organised

| file | what it holds |
|---|---|
| `Streams.dfy` | bytes, concatenation, XOR |
| `ExpansionFrames.dfy` | checksum, frame encoders, size rule, one-shot stream parser |
| `ExpansionLink.dfy` | the link as a state machine; runs; the trace of actions |
| `ExpansionHandshake.dfy` | which traces lead to which state and baud rate |
| `ExpansionStream.dfy` | conservation, chunking, what is delivered and sent, corruption |
| `ExpansionSession.dfy` | from a connect to delivered data |
| `ExpansionSender.dfy` | which frames a run writes, and the data they carry |
| `ExpansionTimers.dfy` | watchdog and heartbeat in true time across tick wrap |
| `ExpansionModule.dfy` | the firmware's own form: a class with the buffer worked on in place |
| `Varint.dfy`, `Transport.dfy`, `Rpc.dfy` | the host's receive path |
| `StorageWrite.dfy`, `StorageList.dfy` | fragmented write and streamed listing |
| `EndToEnd.dfy` | link and RPC layer composed |
| `IoLock.dfy` | lock discipline and interleavings of client operations |
| `Bundles.dfy` | which archives make a bundle, and where its files may go |
| `Installer.dfy` | verify, reconnect, retry, reboot |
| `TcpServer.dfy` | client generations and descriptors that are given out again |
| `FormDecoder.dfy` | field extraction, URL decoding, the radio's fields |

A step of the link yields a new link and a list of actions (frames processed,
bytes skipped, frames written, bytes delivered, resets). Theorems about runs
are stated over that trace, so that they do not mention how the code stores its
state. `Module.Execute` runs any list of events on the class with the in-place
buffer and is proved to end in the state and the trace of that run;
`Server.Execute` does the same for the TCP server.

## Assumptions

- Connect, disconnect, a timer check, and a read together with all frames it
  completes, at one tick, are one step each. The firmware writes `s_state` and
  `s_rx_len` from several tasks without a lock, so in the code a connect or
  disconnect can also come between two frames of one read.
- `expansion_send_rpc` looks at the state only on entry and sleeps between its
  frames. Its call and each pass of its loop are steps of their own, for any
  number of callers at once; so DATA can follow a disconnect in the model as it
  can in the code. A failed pass gives up the rest of the call.
- `accept()` never returns a descriptor that is open; the step in which it
  returns is separate from the one in which the client is registered.
- `uart_set_baudrate` succeeds; a write to the UART takes a whole frame or
  nothing of it, and for frames other than DATA it succeeds; `send` on the TCP
  socket is complete.
- The receive task makes its timer checks at most a given number of ticks apart,
  from its start on, whenever that is.
- The protobuf serializer is a pair of functions of which only the round trip
  is assumed (`Rpc.Faithful`); md5 is an arbitrary function.
- `receive` of the transport is a script of polls: bytes arrive, the deadline
  has passed, or it raises. Nothing is assumed about the script.
- Of the device that firmware is installed on, only the contracts of
  `Installer.Device` are assumed: a path names a place, and several paths may
  name the same one; a write changes at most its own place, in whatever way; and
  an answer that a file matches is true.
- Bits of a varint that are OR-ed in at disjoint places are added.

## Findings

- The watchdog takes a stored tick of zero for "never": it stays silent after a
  frame or connect at a tick value of zero. `WatchdogFiresExactly` has this as
  its exact condition, `WatchdogBlindAtTickZero` a run that shows it.
- A receive that times out after a length byte has arrived loses the framing;
  the next receive may return a message that was never sent
  (`TimeoutLosesFraming`). On a stream of messages that can be delivered, a
  failed receive leaves the stream at a message boundary if and only if no byte
  came before its deadline (`FailureKeepsFramingIff`). A length of zero or above
  the limit is another matter: only the length is consumed, so an empty message
  is skipped and the bytes of an oversize one are taken for messages
  (`BadLengthIsSkipped`).
- A stale TCP receive task never unregisters the current client within 2^32
  clients, but its defensive `close` shuts the current client's open socket if
  and only if that has the task's descriptor number, that is, if the number was
  closed and the latest `accept` gave it out again (`StaleTaskClosesClientIff`;
  a run in `StaleTaskClosesReusedDescriptor`, where the next client on that
  number is then closed by its own registration). Only such an end can leave a
  registered client with a closed socket (`ClientSocketOpen`).
- Until it ends, such a stale task also reads the current client's socket, so
  that two tasks forward one client's bytes; `OnlyOwnTaskReadsIff` says when the
  client's own task is the only one. Two callers of `expansion_send_rpc` at once
  put their frames between each other's (`OverlappingSendsMix`): no byte is lost
  (`NothingIsLostIff`), but the order is.
- A 32-byte SSID or a 64-byte password is decoded and saved whole, but reaches
  the radio configuration without its last byte (`CredentialsReachRadioIff`,
  `LongSsidIsCut`).
- The comments of `_send_rpc_message` (src/flipperzero_mcp/rpc/protobuf_rpc.py:362-364)
  and of the receive buffer (src/flipperzero_mcp/transport/base.py:66-67) speak
  of a 4-byte length prefix; the code writes and reads a varint, and so does the
  model.

## Model

| member | source | states |
|---|---|---|
| ExpansionFrames.CalcChecksum | firmware/tcp_uart_bridge/main/expansion_module.c:42-48 | a bit of the result is set if and only if an odd number of bytes have it |
| ExpansionFrames.ChecksumJoins | firmware/tcp_uart_bridge/main/expansion_module.c:42-48 | the checksum of two pieces is the XOR of their checksums, where XOR is associative, commutative, has zero as its unit and every byte as its own inverse |
| ExpansionFrames.GoodFrameXorsToZero | firmware/tcp_uart_bridge/main/expansion_module.c:215-223 | the checksum test accepts a frame if and only if all its bytes, the checksum included, XOR to zero |
| ExpansionFrames.CorruptionBreaksChecksum | firmware/tcp_uart_bridge/main/expansion_module.c:215-223 | no frame with a good checksum is one byte away from another with a good checksum |
| ExpansionFrames.EncodeIntact | firmware/tcp_uart_bridge/main/expansion_module.c:50-113 | every frame the send functions produce has the size its header announces and a good checksum, and a DATA frame carries its payload |
| ExpansionFrames.EncodeRoundTrip | firmware/tcp_uart_bridge/main/expansion_module.c:66-113 | a decoder that looks at the type byte and the argument bytes gets back every message the send functions can be given |
| ExpansionFrames.EncodeInjective | firmware/tcp_uart_bridge/main/expansion_module.c:66-113 | the wire determines the message: different messages have different frames |
| ExpansionFrames.CommandBytes | firmware/tcp_uart_bridge/main/expansion_module.c:91-94 | the bytes that start and stop a session, of a heartbeat and of an acknowledgement |
| ExpansionFrames.BaudRateRoundTrip | firmware/tcp_uart_bridge/main/expansion_module.c:79-88 | the four bytes of a BAUD_RATE frame are the 32-bit rate, least significant first |
| ExpansionFrames.FrameSize | firmware/tcp_uart_bridge/main/expansion_module.c:181-205 | a known size lies between 2 and 67, and more data is asked for only when a single byte is there |
| ExpansionFrames.SizedIffDecodes | firmware/tcp_uart_bridge/main/expansion_module.c:181-205 | the size rule admits exactly the encoded messages, up to their checksums |
| ExpansionFrames.ParseConserves | firmware/tcp_uart_bridge/main/expansion_module.c:320-340 | frames, skipped bytes and remainder in order are the stream |
| ExpansionFrames.ParseRestShort | firmware/tcp_uart_bridge/main/expansion_module.c:320-340 | at most 66 bytes are kept back |
| ExpansionFrames.ParseSized | firmware/tcp_uart_bridge/main/expansion_module.c:331-335 | every frame handed on has the size its own header announces |
| ExpansionFrames.ParseResumes | firmware/tcp_uart_bridge/main/expansion_module.c:309-340 | parsing can stop at any byte and resume on the remainder plus what follows with the same result |
| ExpansionFrames.ParseFrames | firmware/tcp_uart_bridge/main/expansion_module.c:320-340 | a stream of complete frames is cut back into exactly those frames |
| ExpansionLink.ElapsedIsTrueTime | firmware/tcp_uart_bridge/main/expansion_module.c:346 | wrapped 32-bit subtraction is true time modulo 2^32 |
| ExpansionLink.StepParks | firmware/tcp_uart_bridge/main/expansion_module.c:313-340 | after every event at most 66 bytes are buffered, they hold no complete frame, and a read of up to 128 bytes is never truncated |
| ExpansionLink.RunState | firmware/tcp_uart_bridge/main/expansion_module.c:208-301 | in every run the state is a function of the actions taken |
| ExpansionHandshake.ActiveIffEstablished | firmware/tcp_uart_bridge/main/expansion_module.c:228-275 | in every run the session is active if and only if, since a connect not followed by a disconnect, checksum failure or watchdog firing, the first HEARTBEAT was followed by a first STATUS of OK or ERROR_BAUD_RATE and that by a first STATUS of OK |
| ExpansionHandshake.ErrorIsSticky | firmware/tcp_uart_bridge/main/expansion_module.c:401-412 | a run leaves ERROR only through a connect or a disconnect |
| ExpansionHandshake.BaudIsNegotiated | firmware/tcp_uart_bridge/main/expansion_module.c:238-261 | in every run the rate is the configured one if and only if an accepted negotiation is in force since the last connect or disconnect, and 9600 otherwise |
| ExpansionStream.BytesConserved | firmware/tcp_uart_bridge/main/expansion_module.c:304-352 | over any run the bytes received are, in order, those skipped, processed or dropped at resets, then those buffered |
| ExpansionStream.StreamDecides | firmware/tcp_uart_bridge/main/expansion_module.c:309-340 | between buffer resets the frames processed are those of the one-shot parser on the concatenated stream, whatever else runs in between |
| ExpansionStream.ChunkingIsIrrelevant | firmware/tcp_uart_bridge/main/expansion_module.c:308-340 | the same stream read in other pieces at other times gives the same frames and remainder |
| ExpansionStream.ProtocolIsFollowed | firmware/tcp_uart_bridge/main/expansion_module.c:228-300 | in every run the payloads of intact DATA frames of active sessions are delivered in order with exactly one STATUS OK each and no other STATUS; all other frames but DATA and all rate changes are exactly those the protocol asks for, in order |
| ExpansionStream.DeliveryIsAckedNext | firmware/tcp_uart_bridge/main/expansion_module.c:277-290 | in every run a delivery comes right before its acknowledgement |
| ExpansionStream.SessionCarries | firmware/tcp_uart_bridge/main/expansion_module.c:277-296 | an active link fed intact frames in any pieces stays active, delivers their payloads and acknowledges each DATA frame once |
| ExpansionStream.FragmentsCarry | firmware/tcp_uart_bridge/main/expansion_module.c:419-445 | the fragments of any data are intact DATA frames whose payloads concatenate to it, as few as 64 bytes each allow |
| ExpansionStream.CorruptFrameRejected | firmware/tcp_uart_bridge/main/expansion_module.c:215-223 | a frame with one byte changed and its size unchanged puts the link into ERROR from any state, with no delivery and no frame sent |
| ExpansionStream.CorruptionEndsSession | firmware/tcp_uart_bridge/main/expansion_module.c:215-223 | a stream of intact frames, one with a byte changed and its size unchanged, then anything, read in any pieces without a reset: the active link ends in ERROR and exactly the payloads before the corrupted frame are delivered and acknowledged |
| ExpansionSession.FramesDecideState | firmware/tcp_uart_bridge/main/expansion_module.c:228-300 | between resets the state depends on the processed frames alone, not on when they came or what was sent |
| ExpansionSession.ConnectToDelivery | firmware/tcp_uart_bridge/main/expansion_module.c:228-296 | after a connect, a heartbeat, a rate answer and an OK, followed by any intact frames, give an active session that delivers their payloads and acknowledges each DATA frame once, however the bytes are cut into reads |
| ExpansionSession.OneReadHandshake | firmware/tcp_uart_bridge/main/expansion_module.c:401-417 | from any idle or failed link, a connect and one read of the whole handshake start the session |
| ExpansionSender.WireCarries | firmware/tcp_uart_bridge/main/expansion_module.c:50-113 | any list of messages is a list of intact frames on the wire whose payloads are those of the DATA messages among them |
| ExpansionSender.DataIsForwardedIff | firmware/tcp_uart_bridge/main/expansion_module.c:419-445 | in every run with one caller at a time, whatever acknowledgements, heartbeats and other events come in between, also between two passes, the DATA frames that the UART took followed by what is still to be sent are exactly what expansion_send_rpc was called with, in order, if and only if every non-empty call found an active session and every pass succeeded |
| ExpansionSender.DataConserved | firmware/tcp_uart_bridge/main/expansion_module.c:419-445 | in every run, with any number of callers, every byte handed over is written in a DATA frame, given up or still to be sent, exactly once |
| ExpansionSender.NothingIsLostIff | firmware/tcp_uart_bridge/main/expansion_module.c:419-445 | in every run, with any number of callers, no byte handed over is missing if and only if every non-empty call found an active session and every pass succeeded |
| ExpansionSender.OverlappingSendsMix | firmware/tcp_uart_bridge/main/expansion_module.c:424-442 | a run of two callers at once in which one call is written between two frames of the other |
| ExpansionSender.CalmSessionForwards | firmware/tcp_uart_bridge/main/expansion_module.c:419-445 | in a run from an active session without reset or corrupted frame that condition holds of every call, if the UART takes every frame |
| ExpansionSender.SendIsItsPasses | firmware/tcp_uart_bridge/main/expansion_module.c:424-442 | an undisturbed call, with a failed write or without, is the run of its entry and its passes |
| ExpansionSender.CallWritesFragments | firmware/tcp_uart_bridge/main/expansion_module.c:424-442 | an undisturbed call writes the first fragments of its data, as many as the UART takes |
| ExpansionSender.CallAccountsForData | firmware/tcp_uart_bridge/main/expansion_module.c:424-442 | what an undisturbed call writes and gives up is its data, and it gives up nothing if and only if the UART takes every fragment |
| ExpansionTimers.WatchdogFiresExactly | firmware/tcp_uart_bridge/main/expansion_module.c:343-352 | whenever the receive task starts and at any tick rate, a check outside DISCONNECTED fires if and only if more than 1500 ms have passed since the last frame, connect or firing, at most the check interval more, across tick wrap, unless the stored tick is zero |
| ExpansionTimers.WatchdogBlindAtTickZero | firmware/tcp_uart_bridge/main/expansion_module.c:346 | after a connect at tick zero no check ever fires |
| ExpansionTimers.HeartbeatsOnTime | firmware/tcp_uart_bridge/main/expansion_module.c:354-362 | whenever the receive task starts and at any tick rate, within an active period a heartbeat is sent if and only if more than 200 ms have passed since the last one, and at most the check interval more |
| ExpansionTimers.HeartbeatSentIff | firmware/tcp_uart_bridge/main/expansion_module.c:355-362 | in every run a check of an active session sends if and only if more than 200 ms have passed since the last heartbeat of any session or since time zero, modulo 2^32 ticks |
| ExpansionTimers.FirstHeartbeatOnTime | firmware/tcp_uart_bridge/main/expansion_module.c:355-362 | a session that has not sent a heartbeat sends its first one at a check more than 200 ms after its first check at the latest, and no check comes later than the check interval after that |
| ExpansionModule.Module.ProcessFrame | firmware/tcp_uart_bridge/main/expansion_module.c:207-301 | the switch on the static state does what the state machine's step says, in state and in actions |
| ExpansionModule.Module.Append | firmware/tcp_uart_bridge/main/expansion_module.c:312-318 | the copy behind the buffered bytes takes what fits |
| ExpansionModule.Module.UartRead | firmware/tcp_uart_bridge/main/expansion_module.c:309-341 | the in-place extraction loop terminates and refines the one-shot parser, for any fill of the buffer |
| ExpansionModule.Module.SendRpc | firmware/tcp_uart_bridge/main/expansion_module.c:419-445 | the chunking loop writes the fragments up to the first failed write and gives up the rest, in an active session only, and reports which case it was |
| ExpansionModule.Module.Execute | firmware/tcp_uart_bridge/main/expansion_module.c:304-469 | any interleaving of reads, timer checks, connects, disconnects and sends, on the class with its in-place buffer, ends in the state and with all the actions of the state machine's run, so every theorem about runs holds of it |
| Varint.EncodeLoop | src/flipperzero_mcp/rpc/protobuf_rpc.py:103-114 | the encoder's loop terminates with the encoding |
| Varint.EncodeValue | src/flipperzero_mcp/rpc/protobuf_rpc.py:103-114 | the encoding is a terminated group sequence that stands for the number |
| Varint.EncodeShortest | src/flipperzero_mcp/rpc/protobuf_rpc.py:103-114 | no terminated group sequence for the same number is shorter |
| Varint.EncodePrefixFree | src/flipperzero_mcp/rpc/protobuf_rpc.py:103-114 | no encoding is a proper prefix of another |
| Transport.FlipperTransport.ReceiveExact | src/flipperzero_mcp/transport/base.py:63-104 | the buffering loop is the exact read on buffer and script, and terminates when the script does |
| Transport.ReadExactConserves | src/flipperzero_mcp/transport/base.py:76-104 | a call returns exactly n bytes or nothing, takes out nothing in the latter case, and loses no byte |
| Transport.ReadEachConserves | src/flipperzero_mcp/transport/base.py:63-104 | over any sequence of calls with any chunking, timeouts and failures, the bytes returned followed by the buffer are the bytes received |
| Transport.ReadExactReady | src/flipperzero_mcp/transport/base.py:83-104 | a call succeeds if and only if enough bytes come before the deadline, whatever their chunking; otherwise it raises if and only if an exception of the link ends the wait |
| Rpc.VarintRoundTrip | src/flipperzero_mcp/rpc/protobuf_rpc.py:116-139 | the reader returns n and consumes just its encoding if n is below 2^35, and fails otherwise |
| Rpc.MessageRoundTrip | src/flipperzero_mcp/rpc/protobuf_rpc.py:141-159 | a delimited message of 1 to 1,000,000 bytes is returned exactly, and what follows it stays |
| Rpc.MessagesRoundTrip | src/flipperzero_mcp/rpc/protobuf_rpc.py:141-159 | any list of messages is returned in order with nothing left over |
| Rpc.TimeoutLosesFraming | src/flipperzero_mcp/rpc/protobuf_rpc.py:147-153 | a concrete timeout after which a message is returned that was never sent |
| Rpc.FailureKeepsFramingIff | src/flipperzero_mcp/rpc/protobuf_rpc.py:147-153 | after a failed receive from any stream of messages of 1 to 1,000,000 bytes, the next one starts at a message boundary if and only if no byte came before the deadline |
| Rpc.BadLengthIsSkipped | src/flipperzero_mcp/rpc/protobuf_rpc.py:147-149 | a zero or oversize length is refused and exactly the length is consumed |
| Rpc.CommandIdsDiffer | src/flipperzero_mcp/rpc/protobuf_rpc.py:98-101 | any 2^32 - 1 successive commands have different ids |
| Rpc.ProtobufRpc.ReadVarint | src/flipperzero_mcp/rpc/protobuf_rpc.py:116-139 | the five-byte loop with its shift reads what the recursive reader reads |
| Rpc.ProtobufRpc.ReceivePayload | src/flipperzero_mcp/rpc/protobuf_rpc.py:141-159 | length check and payload read, with the transport state they leave |
| StorageWrite.ChunksCover | src/flipperzero_mcp/rpc/protobuf_rpc.py:1297-1301 | the chunks concatenate to the content, are at most 1024 bytes, and number max(1, ceil(len/1024)) |
| StorageWrite.WriteRoundTrip | src/flipperzero_mcp/rpc/protobuf_rpc.py:1267-1301 | a receiver that unframes the stream and collects until has_next is false recovers command id, path and content, including empty content |
| StorageWrite.Write | src/flipperzero_mcp/rpc/protobuf_rpc.py:1267-1295 | the loop sends exactly the fragments, or those before a failed send; reads one answer after the last and is true only if that says OK; and sleeps the pacing time |
| StorageWrite.AckedIff | src/flipperzero_mcp/rpc/protobuf_rpc.py:1285-1287 | if the device's answer comes in time, the write is reported as done if and only if its status is OK; if nothing comes, it has failed |
| StorageWrite.CutAnswerFails | src/flipperzero_mcp/rpc/protobuf_rpc.py:1285-1287 | an answer of which the end does not come in time is no answer |
| StorageWrite.PacingIsThroughput | src/flipperzero_mcp/rpc/protobuf_rpc.py:1289-1291 | the sleeps spread the bytes of all fragments but the last at 80,000 bytes per second |
| StorageWrite.PacingWithinBudget | src/flipperzero_mcp/rpc/protobuf_rpc.py:1251-1291 | the sleeps alone never exceed the write's deadline of max(15, len/40000) seconds, if a non-final fragment adds at most 1024 bytes |
| StorageList.Frames | src/flipperzero_mcp/rpc/protobuf_rpc.py:896-948 | the generator finishes if and only if the frames are all OK, end without a successor and number at most 101; it times out if and only if an awaited frame is missing |
| StorageList.StorageList | src/flipperzero_mcp/rpc/protobuf_rpc.py:950-957 | a listing returns if and only if it is complete, and then every non-empty name in order |
| StorageList.StorageListDetailed | src/flipperzero_mcp/rpc/protobuf_rpc.py:959-974 | the same for the detailed listing |
| StorageList.ListIsProjection | src/flipperzero_mcp/rpc/protobuf_rpc.py:950-974 | on the same frames the plain listing is the list of names of the detailed one |
| StorageList.DetailsTell | src/flipperzero_mcp/rpc/protobuf_rpc.py:959-974 | the detailed listing has one item for every named file of the frames, in order, with its type and size, and its digest if and only if asked for and known |
| EndToEnd.MessagesReachHost | firmware/tcp_uart_bridge/main/main.c:44-51 | messages delimited by the device, cut into DATA frames anywhere, read off the UART in any pieces and re-cut by TCP are returned by the host exactly, in order, with nothing left over, and every DATA frame is acknowledged once |
| EndToEnd.MessagesReachHostFromConnect | firmware/tcp_uart_bridge/main/main.c:103-139 | the same from a connect on, with the peer's handshake frames and the messages in one stream of bytes; the session ends up active with an empty buffer and every DATA frame acknowledged once |
| EndToEnd.WriteReachesDevice | firmware/tcp_uart_bridge/main/main.c:56-63 | a host write, cut into TCP packets anywhere and handed to the bridge one after the other in any run that loses nothing, reassembles to its command id, path and content at a peer that reads everything the UART took, heartbeats and acknowledgements included, in any pieces |
| IoLock.OperationsDisciplined | src/flipperzero_mcp/rpc/client.py:141-172 | every public operation takes the lock once, touches the link only while holding it, never takes it again and gives it back, however its loops, branches and exceptions play out |
| IoLock.OperationsReachDevice | src/flipperzero_mcp/rpc/client.py:141-172 | each of these operations has an execution that sends to the device and receives from it |
| IoLock.ClientExchangesStayWhole | src/flipperzero_mcp/rpc/client.py:107-109 | under any schedule of any client operations the link's trace is one contiguous block per operation in lock order |
| IoLock.ExchangesStayWhole | src/flipperzero_mcp/rpc/protobuf_rpc.py:395-419 | the same for any programs with that lock discipline |
| IoLock.NothingInBetween | src/flipperzero_mcp/rpc/client.py:278-279 | between two link operations of one client operation there is never one of another |
| IoLock.NoDeadlock | src/flipperzero_mcp/rpc/protobuf_rpc.py:723-730 | while an operation is unfinished, some operation can move |
| Bundles.SafeStaysBelow | src/flipperzero_mcp/firmware/bundles.py:49-50 | a path that passes the check resolves to a place at or below the directory it is put into |
| Bundles.MembersFromTar | src/flipperzero_mcp/firmware/bundles.py:41-55 | an archive is read if and only if it has files and every relative name is safe, and then to its readable files in order |
| Bundles.MembersAreFiles | src/flipperzero_mcp/firmware/bundles.py:42 | the members are exactly the regular files |
| Bundles.ArchiveRoundTrip | src/flipperzero_mcp/firmware/bundles.py:45-55 | an archive of readable files in one top directory gives back exactly these files under their names below it |
| Bundles.ArchiveSafeIff | src/flipperzero_mcp/firmware/bundles.py:48-50 | and it is refused if and only if one of these names is not safe |
| Bundles.BuildBundle | src/flipperzero_mcp/firmware/bundles.py:58-61 | the search finds the manifest if and only if it is among the files |
| Bundles.LoadBundle | src/flipperzero_mcp/firmware/bundles.py:134-137 | any bundle that comes out of an archive has its manifest and safe names only; exactly when there is one |
| Installer.CheckSize | src/flipperzero_mcp/firmware/installer.py:74-90 | a match if and only if the answer is the expected size, a mismatch if and only if it is another one, unreadable otherwise; a match means the stored file has that size |
| Installer.CheckMd5 | src/flipperzero_mcp/firmware/installer.py:104-132 | up to five questions while there is no digest; a match if and only if the last answer is the expected digest, a mismatch if and only if it is another one, unreadable otherwise; a match means the stored file has the digest |
| Installer.VerifyWritten | src/flipperzero_mcp/firmware/installer.py:93-101 | the verdict is the one the device's last answer calls for: its digest up to 2 MiB, its size above; a match means equal md5 or size on the card |
| Installer.PushFile | src/flipperzero_mcp/firmware/installer.py:135-207 | the rounds of writes, checks and reconnects are legal, every verdict is the one the device's answer calls for, and the result is the one the rounds call for; success means the file landed; no other file changes |
| Installer.GoodAnswerEnds | src/flipperzero_mcp/firmware/installer.py:178-185 | the first check answered as expected ends the push successfully |
| Installer.PushIsBounded | src/flipperzero_mcp/firmware/installer.py:166-189 | at most three writes and two reconnects; a rewrite follows only a refused write or a mismatch, never an unreadable check |
| Installer.TriggerUpdate | src/flipperzero_mcp/firmware/installer.py:210-244 | an unspecified error is tried again until there were three updates, anything else is not; which result is reported for which last answer; what the device sees |
| Installer.PushAll | src/flipperzero_mcp/firmware/installer.py:278-283 | all files are pushed if and only if every one was confirmed by the device, else the first that was not says why; on success the last entry for every place on the card has landed, whichever paths name the same place; in any case nothing changes except where the files go |
| Installer.InstallBundle | src/flipperzero_mcp/firmware/installer.py:247-287 | everything asked of the device and the result follow from its answers; on success for every place the last bundle entry is on the card with equal md5 or, above 2 MiB, equal size; however it ends, nothing changes on the card except where the bundle's files go |
| Installer.InstalledIff | src/flipperzero_mcp/firmware/installer.py:262-287 | an installation succeeds if and only if the reported target is the bundle's, every file was confirmed by the device and its last answer to the update was OK |
| Installer.RebootsIffInstalled | src/flipperzero_mcp/firmware/installer.py:285-287 | the device is rebooted if and only if the installation succeeds, once and as the last step |
| Installer.StripPadding | src/flipperzero_mcp/firmware/installer.py:264 | exactly the white space at both ends of the reported target is taken off |
| Installer.StripBlank | src/flipperzero_mcp/firmware/installer.py:264-268 | a blank target counts as none |
| Installer.ParentOfFile | src/flipperzero_mcp/firmware/installer.py:280 | the directory made for a file is the one it is in |
| Installer.ManifestLanded | src/flipperzero_mcp/firmware/bundles.py:58-61 | for a built bundle the last file that goes to the manifest's place has landed there |
| Installer.ChangesStayBelow | src/flipperzero_mcp/firmware/installer.py:278-283 | for a bundle from an archive every place an installation can change is named by a path at or below the package directory |
| TcpServer.Server.Execute | firmware/tcp_uart_bridge/main/tcp_server.c:106-287 | any possible interleaving of the accept task, the receive tasks and the stop call, on the class, ends with the shared fields, the closed descriptors in order and the live tasks of the run |
| TcpServer.ClientIsLatestAccept | firmware/tcp_uart_bridge/main/tcp_server.c:126-181 | in every interleaving the client is none or the latest one registered, whose number is the generation, and live tasks = registered clients - failed starts - exits - the one being started |
| TcpServer.EndedTaskClearsIff | firmware/tcp_uart_bridge/main/tcp_server.c:223-231 | an ending task unregisters the client if and only if that has its descriptor and a multiple of 2^32 clients were registered since its own; so a stale one never does within 2^32 clients |
| TcpServer.FailedStartLeavesNoClient | firmware/tcp_uart_bridge/main/tcp_server.c:148-177 | after a failed start there is no client, although the code compares descriptors only |
| TcpServer.StopClosesClient | firmware/tcp_uart_bridge/main/tcp_server.c:275-287 | in every interleaving the first stop leaves no client, closes its socket and nothing else, and ends the server; a later one does nothing |
| TcpServer.RunsUntilStopped | firmware/tcp_uart_bridge/main/tcp_server.c:275-279 | in every interleaving the server runs until the first stop |
| TcpServer.NoDescriptorLeaks | firmware/tcp_uart_bridge/main/tcp_server.c:126-287 | in every interleaving no descriptor stays open but that of the client and the one that accept has just returned |
| TcpServer.StaleTaskClosesClientIff | firmware/tcp_uart_bridge/main/tcp_server.c:223-231 | in every interleaving a stale task's end leaves the registration alone and closes the client's open socket if and only if that has the task's number; the number is the client's if and only if there is a client and the number was closed by something else and given out again by the latest accept |
| TcpServer.ClientSocketOpen | firmware/tcp_uart_bridge/main/tcp_server.c:126-235 | in every interleaving in which no task ends after its number has passed to a later client, the registered client's socket is open |
| TcpServer.StepKeepsSocketsOpen | firmware/tcp_uart_bridge/main/tcp_server.c:126-235 | of all steps, exactly the end of a task whose number has passed to a later client breaks this |
| TcpServer.OnlyOwnTaskReadsIff | firmware/tcp_uart_bridge/main/tcp_server.c:198-221 | in every interleaving with a client, its own task is the only one reading its socket if and only if no live task of an earlier client has a number that was closed and given out again |
| TcpServer.StaleTaskClosesReusedDescriptor | firmware/tcp_uart_bridge/main/tcp_server.c:223-231 | a possible run in which a stale task closes the current client's open socket, and the next client on that number is closed by its own registration |
| FormDecoder.UrlDecode | firmware/tcp_uart_bridge/main/wifi_manager.c:133-150 | for any source the loop terminates, stays inside the destination, and leaves the decoded text with its terminator and the rest untouched |
| FormDecoder.DecodeField | firmware/tcp_uart_bridge/main/wifi_manager.c:275-293 | what one field leaves in its zeroed buffer |
| FormDecoder.HandleConnect | firmware/tcp_uart_bridge/main/wifi_manager.c:258-298 | the handler's outcome for any posted body, error cases included |
| FormDecoder.DecodeEncoded | firmware/tcp_uart_bridge/main/wifi_manager.c:133-150 | decoding inverts application/x-www-form-urlencoded for every text that fits |
| FormDecoder.AnyEncodingDecodes | firmware/tcp_uart_bridge/main/wifi_manager.c:133-150 | decoding inverts every way of encoding a text character by character: as itself, as a plus or with two hexadecimal digits of either case |
| FormDecoder.CutEscapeStays | firmware/tcp_uart_bridge/main/wifi_manager.c:137 | a percent sign without two characters behind it stands for itself |
| FormDecoder.FormRoundTrip | firmware/tcp_uart_bridge/main/wifi_manager.c:267-298 | every NUL-free SSID and password within the limits is recovered exactly from its encoded form; an empty SSID is refused |
| FormDecoder.SsidAlone | firmware/tcp_uart_bridge/main/wifi_manager.c:285-298 | a form without a password gives an empty one |
| FormDecoder.WithoutSsid | firmware/tcp_uart_bridge/main/wifi_manager.c:260-298 | a body without an SSID field is refused, and an empty one is a receive error |
| FormDecoder.CredentialsReachRadioIff | firmware/tcp_uart_bridge/main/wifi_manager.c:306-309 | credentials that the decoder recovers reach the radio's 32- and 64-byte fields unchanged if and only if they have at most 31 and 63 bytes |
| FormDecoder.LongSsidIsCut | firmware/tcp_uart_bridge/main/wifi_manager.c:306-309 | a 32-byte SSID that is decoded and saved whole reaches the radio with 31 bytes |

## Left out

- USB, WiFi and auto transports, sockets, UART and GPIO drivers, `signal_presence`, LED task and HTTP status handlers: I/O plumbing around the modelled steps.
- `tcp_server_send`, `tcp_server_init` and the task handle `s_rx_task`: a socket snapshot, set-up code, and a handle that is only compared in order to clear it.
- Generated protobuf code, md5, sha256, archives and downloads: library code; a serializer with a round trip and an arbitrary digest function stand for it.
- The bundle's hardware target (`_target_from_name`) and the choice of a download: a regular expression and lookups in JSON.
- Session negotiation (`_ensure_rpc_session_started`), cooldown and the mode field: only their link operations appear, in the lock model.
- The timeouts of `asyncio.wait_for`: a cancelled exchange is one that ended early.
- CLI output parsing, MCP tools, prompts, resources, configuration, statistics counters: thin wrappers.
- `_reconnect_and_classify`: composed with the client it does not deliver its documented meaning.
- Installer.Device.StorageMd5sum: a digest answer that equals the expected one is assumed to be true; the code relies on it and cannot check it.
- EndToEnd.WriteReachesDevice: the receiving end is a peer that follows the same link protocol, because the device's own firmware is not part of the repository.
