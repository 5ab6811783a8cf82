# Gnash base library: verified models

A Dafny model of the engines of Gnash's `libbase` that keep state, edit buffers in place or
promise a round trip, with proofs of what they are for. `dafny verify dfyconfig.toml` checks it all.

| modules | part of Gnash |
|---|---|
| `RtmpWire`, `RtmpLayout`, `RtmpSender`, `RtmpReceiver`, `RtmpReassembly`, `RtmpLiveness`, `RtmpRoundTrip`, `RtmpResize`, `RtmpDemux`, `RtmpDispatch`, `RtmpSession` | the RTMP session (Adobe's RTMP 1.0 specification, sections 5.3.1 and 5.4): compressed headers, chunking over a buffer that is overwritten, reassembly, dispatch and queues, acknowledgements |
| `Handshake` | its handshake (section 5.2) |
| `GarbageCollector` | the mark-and-sweep collector |
| `SocketCache` | the circular receive cache of a socket |
| `SharedMem` | the race to create, initialise and use a System V semaphore and its segment |
| `UrlPath`, `Url`, `UrlParts`, `UrlEscape`, `UrlSpelling` | URLs: parsing, printing, normalising, resolving, percent escapes, query strings |
| `BitsReader` | bit-packed reads with wrap-around |
| `Amf` | AMF0 values over a growable buffer (AMF0 specification, sections 2.2, 2.3, 2.4 and 2.14) |
| `ArgParser`, `ArgLines` | the command-line parser, and command lines in every way they may be written |
| `GifInterlace` | the interlace schedule (appendix E of the GIF89a specification) |
| `Bytes` | codecs and small helpers shared by the others |

## How it is built

Code that changes fields, buffers or lists in place is a class with those fields, and each method
is proved against a specification function on values (`Tick`, `AfterSend`, `Dispatched`, `AfterCall`, `Live`,
`Ring`, `Parse`, `Value`, `InOrder`, ...). What the code is for is then proved about those functions.
What they compute is also stated without them: formats byte by byte in numbers (`RtmpLayout`,
`Amf.EncodedBytes`, `Amf.ParsedBytes`), normal paths as the only function that obeys a few laws
(`UrlPath.NormalizeIsTheOne`), URLs, query strings and command lines from the parts that they were put
together from (`UrlParts`, `UrlSpelling`, `ArgLines`), protocols by when they succeed
(`Handshake.CallCompletesIff`, `SharedMem.Attaches`).
Whatever the environment decides is a parameter or an arbitrary sequence of events: how many of the
peer's bytes are visible at each read, how much a socket takes, the clock, the interleaving and the
crashes of processes. Machine widths are written out where they matter (24-bit and 32-bit header
fields, the signed chunk size, the 32-bit comparison of long strings).

Where the code falls short of what it is for, the model follows the code, and the exact condition
under which it meets its purpose is proved:

- `RtmpRoundTrip.HeaderReadBack`: a header is read back iff the message is `Sendable`. The sender
  announces an absolute time of 0xffffff or more and writes it least significant byte first
  (RTMP.cpp:692-717); the reader starts a large header from time 0, so it never looks for it
  (RTMP.cpp:498-531), while a compressed header whose time *sums up* to 0xffffff makes it read four
  bytes that were not written. Sizes are cut to 24 bits, and channels 0 and 1 collide with the codes
  of longer channel numbers.
- `RtmpRoundTrip.SteadyIff`: compressed headers carry no stream id, so messages arrive as they were
  sent iff none of them has, under a compressed header, another id than the message before it on its
  channel.
- `RtmpReassembly.InStepIff`: a pass that finds a part of the header it is about to read loses that
  part (RTMP.cpp:433-494), so a pass leaves the read loop in step iff it does not. What is visible of
  later headers does not matter. `RtmpReassembly.PartialHeadLosesMessage` gives a stream whose message is
  then lost whatever follows.
- `RtmpLiveness.CacheCompletesIff`: a part of a payload is asked for in one read (RTMP.cpp:558-579), and
  a read of more than the 16384 bytes of the socket's cache returns nothing while what arrives fits
  there (Socket.cpp:300-314). The peer sets the chunk size, so a stream can be read to its end iff no
  chunk of it carries more; `RtmpLiveness.BigMessageBlocks` gives a message of 20000 bytes that never
  comes out. What this program sends is in small chunks and always can be (`RtmpRoundTrip.SessionFitsCache`).
- `RtmpRoundTrip.SmallestHeaderIff`: the sender's header is the smallest from which its receiver can take the
  message's time, size and type, unless the time has wrapped around by less than 0xffffff since the
  channel's last message: it then sends a large one (RTMP.cpp:606-640), although the receiver adds
  times modulo 2^32, and a smaller one exists.
- `RtmpSender.SendKeepsStepIff`: a message whose method name cannot be read back
  (RTMP.cpp:768-774) has gone out when the exception leaves the channel memory behind, so a send
  keeps the wire in step with that memory iff this does not happen or the socket took less than all.
- `RtmpReceiver.ChunkSizeBreaksIff`: a chunk-size message stops the program on the assertion at
  RTMP.cpp:568 iff it has four bytes or more and the first is 0x80 or more.
- `RtmpResize.ZeroSizeStalls`: after a chunk-size message of zero no payload comes out any more, since
  reads of it ask for nothing (RTMP.cpp:558-579); with any positive sizes, changed as often as the
  peer likes, everything comes out in order (`RtmpResize.ReceiveResizing`).
- `Handshake.SuccessOfSession`: `connect` calls the handshake directly (RTMP.cpp:225) and `update`
  calls it again (RTMP.cpp:234); if the first call already succeeded, the last stage is repeated and
  takes another 1536 bytes iff that many are there. Besides, the handshaker reads through a copy of
  the socket with a cache of its own (RTMP.cpp:113, 804-806), which draws in all that has arrived:
  the session's socket finds all of the session iff no read of the handshake came when more than the
  handshake's 3073 bytes had arrived.
- `SharedMem.LockedOutIff`: all processes are locked out for good iff nothing has been done on the
  semaphore and no process is left between creating it and its first operation. The creator dying
  before SETVAL, or behind it and before its first lock, does that (`SharedMem.CreatorDies`).
- `SocketCache.Socket.FillCache`: a failure of the kernel is noticed iff the reads before it got all they
  asked for (Socket.cpp:261-295). The loop has no stop for a full cache, so the cache stays intact
  iff what arrives fits; an overfull one can stand for what was received iff that repeats with the
  cache's period (`SocketCache.OverfullIff`).
- `Amf.ParseEncoded`: a long string is read back iff its length fits 32 bits and so does the
  comparison with the rest of the buffer.
- `GifInterlace.RowsCoverImage`: the non-interlaced loop starts at the image's top but ends at its
  height (GnashImageGif.cpp:243), so it fills the image iff the top is 0 or the image is empty.
- `Url.SurvivesIffPrintable`: the URLs that survive printing and parsing are exactly those whose
  parts do not run into each other; every parsed or resolved URL is one.
- The plus sign for a space in `URL::encode` (URL.cpp:403-405) can never be written, since the space
  is among the characters that are escaped before; decoding still undoes encoding.

## Model

| member | source | states |
|---|---|---|
| Bytes.RoundTrip24 | libbase/RTMP.cpp:1138-1155 | a 24-bit field read back yields the value modulo 2^24, whatever follows it, so it round-trips exactly when the value fits |
| RtmpWire.PiecesCarryPayload | libbase/RTMP.cpp:719-765 | splitting loses nothing: the chunk bodies joined are the payload, each is within the chunk size and all but the last are full |
| RtmpWire.PiecesLength | libbase/RTMP.cpp:719-765 | the wire is longer than the payload by exactly one continuation header a piece |
| RtmpLayout.HeadBytes | libbase/RTMP.cpp:642-717 | every byte of a header that is sent, in numbers: 0x00, 0x40, 0x80 or 0xc0 and the channel, three bytes of time, three of size, the type, the stream id backwards, and an escaped time backwards |
| RtmpLayout.LargeRead | libbase/RTMP.cpp:424-556 | what any eleven bytes behind a large header's channel, in one to three bytes, are read as, whatever follows |
| RtmpLayout.CompressedRead | libbase/RTMP.cpp:424-556 | what the bytes of a medium, small or minimal header make of the last packet of its channel, with four more bytes where the time comes to 0xffffff, and failure without such a packet |
| RtmpLayout.ShortRead | libbase/RTMP.cpp:433-494 | how many bytes a header of any kind loses when it ends early: none, one, its channel's bytes |
| RtmpReceiver.RunConcat | libbase/RTMP.cpp:230-282 | reading one chunk stream and then another is reading both joined: same messages in order, same channel memory |
| RtmpReceiver.ChunkSizeBreaksIff | libbase/RTMP.cpp:1018-1025 | a pass leaves the chunk size negative, which stops the program, iff it completes a chunk-size message of four bytes or more whose first byte is 0x80 or more |
| RtmpReceiver.UpdatePasses | libbase/RTMP.cpp:242-282 | a call goes on pass by pass until one has completed a message or raised the error flag, so it completes one message at most |
| RtmpResize.PassSetsSize | libbase/RTMP.cpp:1018-1025 | a pass that completes a message of type 1 with four bytes or more leaves the chunk size that they say, most significant first and signed; any other pass leaves the size |
| RtmpResize.ReceiveResizing | libbase/RTMP.cpp:230-282 | a run of sendable messages with any number of changes of the chunk size among them, each message in chunks of the size then valid, comes out in order, and both ends agree on memory and size |
| RtmpResize.ResizingSession | libbase/RTMP.cpp:230-282 | a server's session with such changes is delivered by calls that each see the next chunk, as sent iff stream ids are steady |
| RtmpResize.ZeroSizeStalls | libbase/RTMP.cpp:558-579 | once the size is zero every message that is still delivered is empty, whatever follows in whatever timing |
| RtmpReassembly.ReadHeadMore | libbase/RTMP.cpp:424-556 | headers are self-delimiting: bytes behind a whole header change neither what is read nor how much |
| RtmpReassembly.TickStep | libbase/RTMP.cpp:244-281 | one pass of the read loop, at any visibility of bytes or socket failure that does not show it a part of the header it is about to read, consumes nothing, a header, a payload or a chunk, and conserves delivered plus outstanding messages; it finishes the next chunk iff it sees all that is left of it |
| RtmpReassembly.InStepIff | libbase/RTMP.cpp:433-494 | a pass leaves the loop in step with the stream, at whatever chunk, iff the header it is about to read is visible whole or not at all; later headers may be seen in part |
| RtmpReassembly.PartialHeadLosesMessage | libbase/RTMP.cpp:433-494 | a stream of one message whose header the first pass sees in part never delivers it, whatever becomes visible later |
| RtmpReassembly.DeliversPrefix | libbase/RTMP.cpp:230-282 | safety over every history of `update` calls in which no pass sees a part of the header it is then about to read: what has been delivered are the messages of the chunks up to some point of the stream, and the memory is what those leave |
| RtmpReassembly.DeliversOfPrefix | libbase/RTMP.cpp:230-282 | of a stream whose last chunk completes its message, whatever is left open on other channels, cut off at any byte: any such history delivers a prefix of the messages, and all of them only if the stream was there in full and has been read to its end |
| RtmpReassembly.OneMoreCall | libbase/RTMP.cpp:230-282 | a history with one more call is that call made where the history has left the loop |
| RtmpReassembly.MoreCalls | libbase/RTMP.cpp:230-282 | a history with more calls is those calls made where the history has left the loop |
| RtmpReassembly.ErrorFree | libbase/RTMP.cpp:358-382 | reading alone never raises the error flag; only a failing socket does |
| RtmpLiveness.Completes | libbase/RTMP.cpp:230-282 | liveness: after any history that left the socket sound, one call per chunk that sees this chunk to its end, and nothing that need be behind it, delivers all, consumes the wire exactly and reaches the memory of the stream, also out of a payload read in part |
| RtmpLiveness.SocketShows | libbase/Socket.cpp:300-352 | a read through the socket's cache gives the reader all of its bytes or none exactly as visibility has it, keeps the cache the bytes of the stream from the read position on, and shows nothing beyond the size of the cache while what arrives fits |
| RtmpLiveness.BigReadFails | libbase/Socket.cpp:300-314 | a read of more than the size of the cache returns nothing as long as what arrives fits |
| RtmpLiveness.BigPartBlocks | libbase/RTMP.cpp:558-579 | through such a cache no history of calls gets past a chunk with a larger body: nothing of its message or of what follows is delivered |
| RtmpLiveness.CacheCompletesIff | libbase/RTMP.cpp:230-282 | some history of calls of ten passes through the cache delivers the whole stream iff no chunk carries more than 16384 bytes |
| RtmpLiveness.BigMessageBlocks | libbase/RTMP.cpp:1018-1025 | a message of 20000 bytes under a chunk size of 65536 is a well-formed stream of which no history through the cache delivers anything |
| RtmpRoundTrip.HeaderReadBack | libbase/RTMP.cpp:424-556 | the reader takes the sender's header as the same message opening, and not a byte more or less, iff the message is sendable, for every pair of agreeing memories and whatever bytes follow |
| RtmpRoundTrip.LowChannelLost | libbase/RTMP.cpp:450-468 | channels 0 and 1 are never read back as sent |
| RtmpRoundTrip.ReceivePieces | libbase/RTMP.cpp:558-579 | continuation chunks complete the packet under construction on their channel, deliver exactly one message with all its payload, and leave the header alone in the memory |
| RtmpRoundTrip.ReceiveMessage | libbase/RTMP.cpp:581-782 | the chunks of one message deliver that message under its channel's stream id, and leave the receiver with the header that the sender remembers |
| RtmpRoundTrip.ReceiveRun | libbase/RTMP.cpp:581-782 | over any sendable run the chunks are well formed, the messages come out in order, and the two channel memories agree again afterwards |
| RtmpRoundTrip.SteadyIff | libbase/RTMP.cpp:606-640 | the receiver sees the run as it was sent iff no message under a compressed header has another stream id than the one before it in the sender's memory of its channel |
| RtmpRoundTrip.SmallestHeaderIff | libbase/RTMP.cpp:606-640 | on a channel with a memory some smaller header would carry the message's time, size and type to the receiver iff the time has wrapped around by less than 0xffffff since the last one; otherwise the sender's choice is the smallest |
| RtmpRoundTrip.SessionRoundTrip | libbase/RTMP.cpp:424-782 | a new sender read by a new receiver, no pass seeing a part of the header it is about to read: a prefix is delivered at any time, everything after one further call per chunk that sees this chunk, memories agreeing, and the messages are those sent iff stream ids are steady |
| RtmpRoundTrip.SessionFitsCache | libbase/RTMP.cpp:719-765 | what a sender sends can be read to its end through the receiver's cache, since its chunks carry 128 bytes at most |
| RtmpRoundTrip.PlainIsSendable | libbase/RTMP.cpp:606-717 | every run on channels 2 to 319 with payloads below 2^24 bytes, times below 0xffffff and no chunk-size message is sendable |
| RtmpRoundTrip.OneIdPerChannel | libbase/RTMP.cpp:606-640 | one stream id per channel is enough for all messages to arrive as sent |
| RtmpRoundTrip.UnsendableStopsRun | libbase/RTMP.cpp:424-717 | behind any sendable run the header of a message that is not sendable is not read for what it is, whatever follows |
| RtmpDemux.ReceiveLocal | libbase/RTMP.cpp:270-281 | a chunk changes no channel but its own and completes messages of that channel only |
| RtmpDemux.SameRun | libbase/RTMP.cpp:424-579 | receivers that agree on one channel read that channel's chunks alike, whatever the other channels hold |
| RtmpDemux.Demultiplex | libbase/RTMP.cpp:230-282 | for any interleaving of streams that are well formed channel by channel, the whole is well formed and each channel completes what it completes alone |
| RtmpDemux.DemultiplexBytes | libbase/RTMP.cpp:244-281 | the same for the bytes in any timing in which no pass sees a part of the header it is about to read, with payload reads failing and being retried from the incomplete packet; all is complete after one further call per chunk that sees this chunk |
| RtmpSender.OneMoreFrom | libbase/RTMP.cpp:776-781 | a run with one more message is the run's bytes followed by that message's, chosen against the memory that the run leaves |
| RtmpSender.SendKeepsStep | libbase/RTMP.cpp:719-781 | a send on a socket with any room keeps the wire and the memory those of the run of messages sent, or ends the wire inside that run's next message |
| RtmpSender.SendKeepsStepIff | libbase/RTMP.cpp:767-781 | a send keeps that iff the message is remembered or was cut short |
| RtmpSender.SendsKeepStep | libbase/RTMP.cpp:581-782 | over any run of sends what is on the wire is a prefix of the run's chunks, offered in order, and all of the run unless one message was cut short |
| RtmpSender.SendsWrite | libbase/RTMP.cpp:719-765 | over any run of sends exactly as many bytes of the run's chunks go out as there is room for |
| RtmpDispatch.DispatchKeepsQueues | libbase/RTMP.cpp:284-356 | dispatching one more message of any type keeps what was taken from the queues and what is in them, in order, the payloads of the dispatched messages of their kinds |
| RtmpDispatch.DispatchedByType | libbase/RTMP.cpp:284-356 | which queue or setting each type of message changes, and to which number, and that the others change nothing |
| RtmpDispatch.PongBytes | libbase/RTMP.cpp:1027-1084 | a ping begins with 0 and 6 and has six bytes at least; its answer, on channel 2, has 7 in place of 6 and the same four bytes behind it |
| RtmpSession.AckBytes | libbase/RTMP.cpp:993-1008 | an acknowledgement is a message of type 3 on channel 2 with the low 32 bits of the bytes read |
| RtmpSession.NamesMethodIff | libbase/RTMP.cpp:767-774 | an invocation's name can be read back iff the payload starts with a whole string |
| RtmpSession.Rtmp.PutHead | libbase/RTMP.cpp:642-717 | the header written backwards from the payload ends exactly where the payload begins, and no byte of the payload changes |
| RtmpSession.Rtmp.WritePart | libbase/RTMP.cpp:727-745 | one write of the loop keeps "written plus still to come" equal to the whole message; a short write leaves a prefix |
| RtmpSession.Rtmp.WriteChunks | libbase/RTMP.cpp:719-765 | although continuation headers overwrite the buffer, what goes out is the first header and the original payload split by continuation headers; nothing is overwritten before it is sent, the loop ends, and a full socket leaves a prefix |
| RtmpSession.Rtmp.PickHeader | libbase/RTMP.cpp:587-640 | the fields are changed in place, from the channel's last message and the clock, into the header of which HeaderReadBack and SmallestHeaderIff speak: with a channel's memory the smallest but after a wrap of the time |
| RtmpSession.Rtmp.SendChunks | libbase/RTMP.cpp:642-765 | exactly as many bytes of the message's chunks go out as there is room for, and the start of the payload survives in the buffer |
| RtmpSession.Rtmp.SendPacket | libbase/RTMP.cpp:581-782 | sends exactly the chunks of the message as far as there is room; the memory moves on iff all went out and an invocation's method name can be read back from the overwritten buffer; the output stays in step with the run of messages iff that reading back does not fail |
| RtmpSession.Rtmp.SendControl | libbase/RTMP.cpp:963-1008 | a control message of the session's own joins the run of messages sent, as far as there is room |
| RtmpSession.Rtmp.SendBytesReceived | libbase/RTMP.cpp:993-1008 | acknowledges the bytes read so far, and the window starts anew from them |
| RtmpSession.Rtmp.ReadSocket | libbase/RTMP.cpp:358-382 | all bytes asked for or none; an acknowledgement of exactly what has been read is sent iff the window demands it, and nothing else; after a successful read at most half the bandwidth is unacknowledged |
| RtmpSession.Rtmp.ReadPart | libbase/RTMP.cpp:434-494 | one part of a header, all of it or nothing; a missing part raises the error iff the socket has failed, be it now or in an earlier write |
| RtmpSession.Rtmp.ReadChannelBytes | libbase/RTMP.cpp:450-468 | the one, two or three byte codes of a channel, or what a missing byte loses |
| RtmpSession.Rtmp.ReadPacketHeader | libbase/RTMP.cpp:424-556 | reading a header part by part from the socket yields what the header reader on values yields, including what a missing part loses and the error when the socket fails between two parts, while only acknowledgements are sent and they keep the wire in step |
| RtmpSession.Rtmp.ReadPacketPayload | libbase/RTMP.cpp:558-579 | the next part of the payload is appended in full, or the packet stays as it is and nothing is consumed; only acknowledgements are sent and they keep the wire in step |
| RtmpSession.Rtmp.HandlePacket | libbase/RTMP.cpp:284-356 | a completed message is dispatched once: to its queue, to its setting or the chunk size, or, a ping, to a pong that joins the run of messages sent; nothing else is sent |
| RtmpSession.Rtmp.HandleControl | libbase/RTMP.cpp:1027-1084 | a ping of six bytes or more is answered with its own four bytes; no other control message has an effect |
| RtmpSession.Rtmp.HandleOther | libbase/RTMP.cpp:304-349 | each remaining type goes to its queue or setting (libbase/RTMP.cpp:1086-1105) and nothing is sent |
| RtmpSession.Rtmp.GetMessage | libbase/RTMP.h:410-420 | takes the oldest message of the queue, and nothing from an empty one; the queues stay the dispatched payloads in order |
| RtmpSession.Rtmp.GetFLVFrame | libbase/RTMP.h:422-432 | the same for frames |
| RtmpSession.Rtmp.StoreRead | libbase/RTMP.cpp:270-280 | a packet whose read has ended is stored with its payload, or complete, dispatched and only its header kept |
| RtmpSession.Rtmp.FinishPass | libbase/RTMP.cpp:262-280 | payload, storing and dispatch together are the specification's step, end the call iff a message was completed, and keep the sending side in step |
| RtmpSession.Rtmp.ReadPass | libbase/RTMP.cpp:244-281 | one pass of the loop refines the specification's pass on what the socket showed it, which is what had arrived unless a write has failed; it dispatches the message it completes and keeps the sending side in step |
| RtmpSession.Rtmp.ReadLoop | libbase/RTMP.cpp:242-282 | at most ten passes, ended early by a message or an error, refine the specification's call on what the socket showed; the sending side stays in step |
| RtmpSession.Rtmp.ReadOn | libbase/RTMP.cpp:242-282 | the receiver stays where the history of calls leaves the read loop |
| RtmpSession.Rtmp.Shake | libbase/RTMP.cpp:233-240 | the session is connected iff the handshake has succeeded, and in error if it has failed, a connection test that fails the socket included |
| RtmpSession.Rtmp.Update | libbase/RTMP.cpp:230-282 | the handshake goes first and reading starts only after its success; the receiver stays where the history of calls leaves it, the wire in step with the messages sent, to which only the session's own are added, and the window is kept |
| RtmpSession.EndToEnd | libbase/RTMP.cpp:230-782 | two session objects after any calls of their methods, one reading what the other wrote: the reader has delivered a prefix of the messages sent, nothing of one cut short, all of them as sent iff stream ids are steady, and then the memories of the two ends agree |
| RtmpSession.EndToEndCompletes | libbase/RTMP.cpp:230-782 | two session objects: once all that one has sent is there, and the other has since been called once per chunk, each call seeing the next chunk, it has delivered every message, as sent iff stream ids are steady, and the memories of the two ends agree |
| RtmpSession.ReadKeepsWindow | libbase/RTMP.cpp:373-380 | each read keeps at most half the bandwidth unacknowledged and every acknowledgement worth more than that |
| RtmpSession.AcksBounded | libbase/RTMP.cpp:373-380 | over any run of reads at bandwidth B, bytesIn - bytesInSent <= B/2 and acknowledgements * (B/2 + 1) <= bytesIn |
| Handshake.StagesOnTrack | libbase/RTMP.cpp:829-854 | every call keeps the traffic that belongs to the stage: nothing, C0 and C1, then S1 echoed, and what has been consumed of the peer's bytes |
| Handshake.StageNeverFalls | libbase/RTMP.cpp:829-854 | over any run of calls the stage never decreases and stays below 4, and after a failure nothing changes at all |
| Handshake.SuccessMeansExchanged | libbase/RTMP.cpp:829-949 | success under `update` means exactly C0, C1 and the server's S1 were written and exactly 3073 bytes used; the kernel still has all that follows iff no read came when more had arrived |
| Handshake.SuccessOfSession | libbase/RTMP.cpp:222-240 | for a whole connection the same is written; nothing beyond the 3073 bytes is used iff `update` does not repeat the last stage of a handshake that `connect` completed; and the session's socket finds the session from its first byte iff no read of the handshake came when more had arrived |
| Handshake.CallCompletesIff | libbase/RTMP.cpp:829-949 | from any stage, a call completes the handshake iff the connection is up, what is left to write is taken whole, and 1537 and then 3073 bytes of the server have arrived or are in the cache |
| Handshake.Succeeds | libbase/RTMP.cpp:829-854 | over a socket that neither fails nor takes a part of a greeting the handshake never fails, and it has succeeded after any calls of which one found everything there |
| Handshake.SessionSucceeds | libbase/RTMP.cpp:222-240 | the same for a connection with the call that opens it |
| Handshake.WriteOutcome | libbase/RTMP.cpp:856-875 | none, a part or all of the 1537 bytes taken: retry, error, next stage |
| Handshake.EchoOutcome | libbase/RTMP.cpp:910-926 | the same for the 1536 bytes echoed |
| Handshake.ReadOutcome | libbase/Socket.cpp:300-314 | a read makes the socket bad iff it has to turn to one that fails, takes its bytes to the start of the buffer iff they are there, and otherwise waits |
| Handshake.CallOutcome | libbase/RTMP.cpp:829-832 | a pending connection or an earlier failure leaves everything as it is; a refused one makes the socket bad (libbase/Socket.cpp:50-110) |
| Handshake.HandShaker.ReadSocket | libbase/Socket.cpp:300-314 | all bytes asked for or none, through a cache that is filled only when it holds less, and then with all that has arrived |
| Handshake.HandShaker.Stage0 | libbase/RTMP.cpp:856-875 | passes iff all 1537 bytes went out; a part of them is an error, none a retry |
| Handshake.HandShaker.Stage1 | libbase/RTMP.cpp:877-908 | takes S0 and S1 whole into the receive buffer or waits |
| Handshake.HandShaker.Stage2 | libbase/RTMP.cpp:910-926 | echoes exactly the signature received, without the version byte |
| Handshake.HandShaker.Stage3 | libbase/RTMP.cpp:928-949 | takes the last signature whole or waits; a mismatch does not matter |
| Handshake.HandShaker.Call | libbase/RTMP.cpp:829-854 | the fall-through switch runs stages on as long as they pass, from the one reached before; a pending connection leaves it where it is and a refused one fails the socket for good |
| GarbageCollector.GcResource.SetReachable | libbase/GC.h:92-112 | recursive marking terminates on every finite graph, cyclic or not; it unmarks nothing, marks only what is reachable from here, and what it marks refers to marked resources only |
| GarbageCollector.GcResource.MarkReachableResources | libbase/GC.h:120-142 | everything referred to ends up marked, with the same closure |
| GarbageCollector.MarkedIffReachable | libbase/GC.cpp:120-121 | a marking closed under references that contains the root's references and only reachable resources is exactly reachability |
| GarbageCollector.SurvivorsClosed | libbase/GC.cpp:102-128 | nothing reachable refers to anything unreachable, so no survivor refers to a deleted resource |
| GarbageCollector.LiveContained | libbase/GC.cpp:102-128 | after a cycle the list is again one that neither its resources nor the root refer out of |
| GarbageCollector.KeptInOrder | libbase/GC.cpp:66-100 | the sweep keeps the survivors in the order of the list |
| GarbageCollector.CyclesBounded | libbase/GC.h:210-252 | over every history of allocations and considered collections, cycles * threshold <= allocations |
| GarbageCollector.GC.AddCollectable | libbase/GC.h:194-207 | a new resource is listed first and counted, and keeps the collector's invariant |
| GarbageCollector.GC.MarkReachable | libbase/GC.cpp:120-121 | with no flag set before, a flag is set afterwards iff a path of references leads there from the root |
| GarbageCollector.GC.CleanUnreachable | libbase/GC.cpp:66-100 | the list keeps exactly its marked resources in order, their flags are cleared, and size and number deleted match |
| GarbageCollector.GC.RunCycle | libbase/GC.cpp:102-128 | after a cycle the list is exactly the previously listed resources reachable from the root, in order, every flag is clear and the size is right |
| GarbageCollector.GC.FuzzyCollect | libbase/GC.h:210-252 | a cycle runs iff enough was allocated since the last one, otherwise nothing changes; the bound on cycles is kept |
| SocketCache.RingGrows | libbase/Socket.cpp:255-294 | bytes written behind the unread ones, short of the read position, extend the queue even across the end of the cache |
| SocketCache.CallsConserve | libbase/Socket.cpp:300-352 | over any run of reads what was returned and what is left are, in order, what was there and what was received |
| SocketCache.PartialRead | libbase/Socket.cpp:316-352 | a read that need not be exact returns what there is up to what was asked for, and turns to the kernel only when there is nothing |
| SocketCache.ExactRead | libbase/Socket.cpp:300-314 | an exact read returns its bytes iff they are there or come in without a failure, turns to the kernel only if they are not there, and keeps what comes in |
| SocketCache.EmptyRead | libbase/Socket.cpp:300-329 | a read of no bytes only fills an empty cache, a negative one does nothing |
| SocketCache.OverfullIff | libbase/Socket.cpp:261-295 | a cache filled beyond its size can stand for the bytes received iff they repeat with the cache's period |
| SocketCache.Socket.FillCache | libbase/Socket.cpp:252-297 | what the kernel holds joins the queue in order, the cache is intact afterwards iff it fitted, and a failure behind it is noticed iff the reads got all they asked for |
| SocketCache.Socket.TakePiece | libbase/Socket.cpp:336-347 | a piece copied from the cache is the front of the queue, from position 16384 too |
| SocketCache.Socket.TakeFront | libbase/Socket.cpp:331-349 | one or two copies return the front of the queue across the wrap |
| SocketCache.Socket.ReadNonBlocking | libbase/Socket.cpp:316-352 | returns what a plain queue would, at most what was asked for, and leaves the rest of the destination alone |
| SocketCache.Socket.Read | libbase/Socket.cpp:300-314 | returns all bytes asked for or none, as a plain queue would |
| SharedMem.NextIsSafe | libbase/SharedMem.cpp:92-176 | every system call, joining and death of every process keeps the whole invariant |
| SharedMem.RunIsSafe | libbase/SharedMem.cpp:92-232 | so does every interleaving, and a segment once made stays the segment |
| SharedMem.ProtocolIsSafe | libbase/SharedMem.cpp:92-232 | in every interleaving with crashes no process is inside the lock before the creator's SETVAL, at most one ever is, the segment is created at most once, and all who have it have the same |
| SharedMem.TokenStaysWhole | libbase/SharedMem.cpp:92-106 | no call of any process duplicates or loses the semaphore's token |
| SharedMem.SegmentsStayOk | libbase/SharedMem.cpp:203-232 | looking for, making and attaching the segment under the lock keeps one segment for all |
| SharedMem.CrashIsSafe | libbase/SharedMem.cpp:92-106 | undoing the operations of a process that dies restores the token iff that process held it |
| SharedMem.PollingEnds | libbase/SharedMem.cpp:149-169 | whatever the others do, a process that polls is past it within ten looks of its own: it goes on to lock iff the semaphore has been operated on, and otherwise gives up |
| SharedMem.StuckForGood | libbase/SharedMem.cpp:130-169 | with nothing done on the semaphore and nobody between its creation and its first operation, nobody ever gets into the lock |
| SharedMem.CreatorDies | libbase/SharedMem.cpp:130-140 | two runs that end so: the creator dies before SETVAL, or behind it and before its first lock |
| SharedMem.LockReachable | libbase/SharedMem.cpp:130-169 | in every other reachable state some continuation gets a process into the lock |
| SharedMem.LockedOutIff | libbase/SharedMem.cpp:130-169 | everybody is locked out for good exactly in those states |
| SharedMem.Attaches | libbase/SharedMem.cpp:92-232 | a process that nothing keeps waiting, at whatever call it is, is attached and out of the lock after at most nine calls of its own, whatever ids the kernel gives; there is exactly one segment then, the old one if there was one, else the one it made |
| SharedMem.HolderAttaches | libbase/SharedMem.cpp:203-232 | from looking for, making or attaching the segment it takes at most four |
| SharedMem.LoneProcessAttaches | libbase/SharedMem.cpp:130-232 | a process alone makes the semaphore and the segment and attaches it, in at most eight calls |
| SharedMem.LocksAgain | libbase/SharedMem.cpp:92-106 | a later lock is taken if it is free and then given back, and otherwise waits |
| UrlPath.PushAllNormal | libbase/URL.cpp:62-78 | whatever the components, ".." survives on the stack only at its bottom, and no empty or "." component does |
| UrlPath.PushAllKeeps | libbase/URL.cpp:62-78 | normal directories pass through the stack unchanged |
| UrlPath.SplitJoin | libbase/URL.cpp:79-87 | a path printed from components is split into the same components |
| UrlPath.NormalizeIsNormal | libbase/URL.cpp:50-88 | the normal paths are exactly the fixed points of normalisation, and it always yields one, so it is idempotent |
| UrlPath.NormalizeFree | libbase/URL.cpp:50-88 | normalising brings in no new character |
| UrlPath.Cancellation | libbase/URL.cpp:62-78 | a directory and the ".." behind it, an empty component or a "." can be left out anywhere before the last component |
| UrlPath.CancellationAtRoot | libbase/URL.cpp:62-78 | at the root, where there is nothing to go up to, a second ".." takes back the first |
| UrlPath.NormalizeIsTheOne | libbase/URL.cpp:50-88 | normalising obeys these laws and leaves normal paths alone, and any function that does so is normalising, on every absolute path |
| UrlPath.NormalizePath | libbase/URL.cpp:50-88 | the loop with its component stack computes the normal form, or fails iff the path is not absolute |
| Url.Cut | libbase/URL.cpp:292-303 | the parts with the separator between them are the whole, the first part has no separator, and without one nothing is cut |
| Url.CutPort | libbase/URL.cpp:305-331 | host and port joined by a colon are the whole; without brackets the host has no colon, and a bracket is never split from its host |
| Url.CutPortPrinted | libbase/URL.cpp:305-331 | a host and port cut apart and printed are cut apart alike, brackets included |
| Url.PrintedParses | libbase/URL.cpp:271-290 | every printable URL is parsed back from its printed form, all six parts |
| Url.ParsedIsPrintable | libbase/URL.cpp:90-138 | whatever has been parsed is printable |
| Url.ParsePrintParse | libbase/URL.cpp:90-138 | printing and parsing again is the identity on every URL that parsing yields |
| Url.SurvivesIffPrintable | libbase/URL.cpp:271-290 | a URL survives printing and parsing iff it is printable |
| Url.ResolvedFrom | libbase/URL.cpp:208-266 | resolving a path with k leading "../" against a base with d directories keeps the first d - min(k, d) of them, walks the remainder up to its query and anchor from there, keeps its last component as it is, and takes its query and anchor |
| Url.ResolvedIsPrintable | libbase/URL.cpp:183-269 | resolving against a printable base yields printable URLs |
| UrlParts.PartsOfHost | libbase/URL.cpp:305-331 | the host and port that a string was put together from, with or without brackets and port, are cut apart again |
| UrlParts.PartsParse | libbase/URL.cpp:90-138 | any protocol, host, port, path, query and anchor put together are parsed into these parts, the path normalised; nothing behind "://" fails |
| UrlParts.FileParse | libbase/URL.cpp:126-137 | without "://" the protocol is "file" and the string a path with its query and anchor, or it fails if that is not absolute |
| UrlParts.EveryPathHasParts | libbase/URL.cpp:292-351 | every string has a path, a query and an anchor to be put together from |
| UrlParts.PrintedForm | libbase/URL.cpp:271-290 | parts that are empty are printed without their marks |
| UrlParts.ClimbCounted | libbase/URL.cpp:212-225 | the leading "../" of a string are counted and stripped, whatever slashes are behind each |
| UrlParts.ClimbResolved | libbase/URL.cpp:208-266 | k leading "../" and a path resolve to the base's directories without its last k, followed by the path, all normalised, with the relative query and anchor |
| UrlParts.OtherForms | libbase/URL.cpp:183-206 | an anchor alone, a URL of its own, and a path from the root |
| Url.CountUps | libbase/URL.cpp:212-225 | counts and strips the leading "../" with the slashes behind each |
| Url.StepBack | libbase/URL.cpp:227-255 | searching slashes backwards yields the path of exactly the directories that are left |
| Url.URL.InitAbsolute | libbase/URL.cpp:90-138 | fills the fields in place as the parser does, and fails iff it does |
| Url.URL.InitRelative | libbase/URL.cpp:183-269 | fills the fields in place as resolution against the base does, and fails iff it does |
| Url.URL.SplitAnchorFromPath | libbase/URL.cpp:292-303 | cuts at the first hash, or leaves both parts |
| Url.URL.SplitPortFromHost | libbase/URL.cpp:305-331 | cuts at the first colon that is not inside brackets |
| Url.URL.SplitQuerystringFromPath | libbase/URL.cpp:333-351 | cuts at the first question mark, or leaves both parts |
| Url.URL.Print | libbase/URL.cpp:271-290 | appending part by part prints the URL |
| UrlEscape.Encode | libbase/URL.cpp:390-407 | escaping in place with an index that moves over its insertions escapes each byte of the input once |
| UrlEscape.Decode | libbase/URL.cpp:417-444 | unescaping in place never looks at what it has put there again |
| UrlEscape.EncodedIsSafe | libbase/URL.cpp:390-407 | an encoded string holds nothing but the percent signs of its escapes and characters that need none, so no separator |
| UrlEscape.DecodeEncoded | libbase/URL.cpp:390-444 | decoding an encoded string yields it, whatever follows |
| UrlEscape.DecodeEncode | libbase/URL.cpp:390-444 | decoding undoes encoding on every byte string |
| UrlEscape.PairIsToken | libbase/URL.cpp:369-385 | an encoded pair is one token and enters exactly that name and value |
| UrlEscape.ParseQuerystring | libbase/URL.cpp:353-388 | the loop over the tokens enters their decoded names and values, later ones replacing earlier ones |
| UrlEscape.ParseQuery | libbase/URL.cpp:353-388 | parsing the query string of any list of pairs, with or without its question mark, enters exactly those pairs |
| UrlEscape.QueryRebuildsMap | libbase/URL.cpp:353-388 | any map written as encoded pairs in any order is rebuilt |
| UrlSpelling.PlainCharacters | libbase/URL.cpp:390-407 | exactly digits, letters and the asterisk are not escaped |
| UrlSpelling.EncodedAs | libbase/URL.cpp:390-407 | an escape is a percent sign and two upper-case hexadecimal digits of the byte |
| UrlSpelling.DecodeSpelled | libbase/URL.cpp:417-444 | however each byte is spelled, as itself, a space as a plus sign, or in digits of either case, decoding gives it back, whatever follows |
| UrlSpelling.StrayPercent | libbase/URL.cpp:417-444 | a percent sign that no two hexadecimal digits follow stays |
| UrlSpelling.TokensOfPieces | libbase/URL.cpp:362-368 | the tokens are the pieces between separators that are not empty |
| UrlSpelling.TokenEnters | libbase/URL.cpp:369-385 | the first equals sign of a token divides name and value |
| UrlSpelling.NameEnters | libbase/URL.cpp:369-385 | a token without one is a name with an empty value |
| BitsReader.ValueConcat | libbase/BitsReader.cpp:34-85 | the number of a + b bits is that of the first a bits shifted by b plus that of the next b |
| BitsReader.ValueAround | libbase/BitsReader.h:167-175 | a cursor modulo the buffer reads what the endless repetition of the buffer holds |
| BitsReader.ReadsCompose | libbase/BitsReader.cpp:34-85 | reading a bits and then b bits is one read of a + b bits, also around the end |
| BitsReader.FieldIsValue | libbase/BitsReader.cpp:43-71 | masking and shifting a byte yields exactly the bits between two positions |
| BitsReader.WholeBytes | libbase/BitsReader.cpp:34-85 | from the start of a byte, eight more bits are the byte, and longer reads take bytes most significant first, around the end |
| BitsReader.TwosComplementUnique | libbase/BitsReader.cpp:88-97 | only one number of a width has given bits in two's complement |
| BitsReader.BitsReader.ReadUint | libbase/BitsReader.cpp:34-85 | the next n bits of the repeated buffer, most significant first, and the cursor n further modulo its length in bits |
| BitsReader.BitsReader.ReadSint | libbase/BitsReader.cpp:88-97 | the two's-complement number of the same bits, at 32 bits as long as the sign is clear |
| BitsReader.BitsReader.ReadBit | libbase/BitsReader.cpp:27-32 | the next bit |
| BitsReader.BitsReader.Align | libbase/BitsReader.h:152-155 | skips the rest of a byte that has been begun, and nothing otherwise |
| BitsReader.BitsReader.AdvanceToNextByte | libbase/BitsReader.h:167-175 | goes to the start of the next byte, around the end |
| Amf.SimpleBuffer.Reserve | libbase/SimpleBuffer.h:94-110 | growing keeps the contents, and at least doubles the capacity when it grows |
| Amf.SimpleBuffer.Resize | libbase/SimpleBuffer.h:87-91 | keeps the contents up to the new size |
| Amf.SimpleBuffer.Append | libbase/SimpleBuffer.h:123-131 | the contents grow by exactly the data, through any reallocation |
| Amf.SimpleBuffer.AppendByte | libbase/SimpleBuffer.h:140-144 | the contents grow by the byte |
| Amf.SimpleBuffer.AppendNetworkShort | libbase/SimpleBuffer.h:154-159 | the contents grow by the low 16 bits, most significant byte first |
| Amf.SimpleBuffer.AppendNetworkLong | libbase/SimpleBuffer.h:169-176 | the contents grow by the low 32 bits, most significant byte first |
| Amf.SwapBytes | libbase/AMF.cpp:184-207 | the word is reversed in place |
| Amf.WritePlainString | libbase/AMF.cpp:132-151 | length and bytes are appended, or nothing for a type that is not a string |
| Amf.Write | libbase/AMF.cpp:160-180 | type byte and value are appended, short or long by the 65536 switch |
| Amf.WriteAll | libbase/AMF.cpp:160-180 | a list of values is appended in order, through any reallocation |
| Amf.Reader.ReadBoolean | libbase/AMF.cpp:49-62 | the byte at the position, or nothing consumed at the end of the buffer |
| Amf.Reader.ReadNumber | libbase/AMF.cpp:64-84 | eight bytes in host order, or an error |
| Amf.Reader.ReadString | libbase/AMF.cpp:86-106 | as many bytes as the length says, or an error when they are not there |
| Amf.Reader.ReadLongString | libbase/AMF.cpp:108-130 | the same with a 32-bit length and a 32-bit comparison |
| Amf.Reader.ReadValue | libcore/AMFConverter.cpp:298-346 | the value that the type byte announces, null and undefined included, and the position behind it |
| Amf.ParseEncoded | libbase/AMF.cpp:49-180 | a value is read back with nothing else consumed iff it fits, and otherwise never comes out as written |
| Amf.ParseEncodedAll | libbase/AMF.cpp:49-180 | a list of values is read back and the buffer consumed exactly, iff all of them fit |
| Amf.SmallBuffersFit | libbase/AMF.cpp:108-117 | every list whose encoding is below 4 GiB fits |
| Amf.EncodedBytes | libbase/AMF.cpp:132-207 | every byte of a value that is written: type, and number backwards, boolean, or length and string |
| Amf.ParsedBytes | libbase/AMF.cpp:49-130 | what any bytes behind any type byte are read as (libcore/AMFConverter.cpp:298-346), with what is missing, unknown types and the 32-bit comparison |
| ArgParser.FindLong | libbase/arg_parser.cpp:35-55 | one loop finds the first exact name, else the first abbreviated one, unless it abbreviates options that differ |
| ArgLines.ChooseMeans | libbase/arg_parser.cpp:35-55 | the option meant by a name is the first of exactly that name, else the first abbreviated; it is ambiguous iff no exact one exists and two abbreviated ones differ, and unknown iff none is abbreviated |
| ArgLines.LongForms | libbase/arg_parser.cpp:25-86 | what a long option means with a joined argument, a next element or neither, with the errors |
| ArgParser.OptionStepTakes | libbase/arg_parser.cpp:138-144 | every successful option step takes one or two elements, never beyond the line, and adds option records only, so the loop ends |
| ArgParser.ShortStepsTake | libbase/arg_parser.cpp:92-123 | the letters of one element, however many, end with one or two elements taken |
| ArgLines.UnknownLetter | libbase/arg_parser.cpp:94-109 | a letter that no option has is an error |
| ArgLines.ShortLetters | libbase/arg_parser.cpp:92-123 | letters without arguments and a last one with or without its own yield their records |
| ArgParser.ArgParser.constructor | libbase/arg_parser.cpp:126-165 | the permuting parse is the stable partition, options first, of the in-order parse of the same line; an error leaves no records |
| ArgLines.LineMeans | libbase/arg_parser.cpp:126-165 | a whole line, written from any options and arguments in any of the ways allowed, yields exactly their records in order; behind "--" every element is an argument |
| ArgLines.LinePermuted | libbase/arg_parser.cpp:126-165 | permuted, the options of such a line come first and the arguments behind them, each in their order |
| ArgLines.FirstErrorStops | libbase/arg_parser.cpp:134-147 | the first option that fails behind such items is the outcome of the line |
| ArgParser.ArgParser.ParseLine | libbase/arg_parser.cpp:131-164 | the same for the loop over the elements, which terminates |
| ArgParser.ArgParser.ParseElement | libbase/arg_parser.cpp:134-153 | each element moves on by at least one and keeps what has been parsed, joined with the in-order parse of the rest, the result |
| ArgParser.ArgParser.ParseLongOption | libbase/arg_parser.cpp:25-86 | adds one record with its argument and takes one or two elements, or fails with the right error |
| ArgParser.ArgParser.ParseShortOption | libbase/arg_parser.cpp:88-124 | adds the records of all letters of an element, or fails with the right error |
| ArgParser.ArgParser.ParseLetter | libbase/arg_parser.cpp:94-121 | one letter adds its record, with the rest of the element or the next one as its argument |
| GifInterlace.PassCounts | libbase/GnashImageGif.cpp:222-233 | a pass visits each row on its grid inside the image once and no other |
| GifInterlace.OnePass | libbase/GnashImageGif.cpp:216-218 | every row number is on the grid of exactly one pass |
| GifInterlace.PassesOnce | libbase/GnashImageGif.cpp:216-234 | the four passes visit each row of the image exactly once, and none outside it |
| GifInterlace.RowsReadOnce | libbase/GnashImageGif.cpp:211-250 | no row is filled twice, interlaced or not |
| GifInterlace.LineGoesTo | libbase/GnashImageGif.cpp:211-234 | the row of each line of an interlaced image, in numbers |
| GifInterlace.PlainLineGoesTo | libbase/GnashImageGif.cpp:239-250 | the lines of a plain image go to its rows from the top, as many as its height exceeds its top |
| GifInterlace.LineShown | libbase/GnashImageGif.cpp:211-250 | a line is seen in the row it goes to, and all else is background |
| GifInterlace.RowsCoverImage | libbase/GnashImageGif.cpp:239-250 | all rows of the image are filled iff it is interlaced, starts at the top of the screen or is empty |
| GifInterlace.GifInput.ReadRow | libbase/GnashImageGif.cpp:226-232 | a line read into a new row keeps the picture right |
| GifInterlace.GifInput.ReadPass | libbase/GnashImageGif.cpp:222-233 | a pass fills its rows from the next lines of the file, or runs out of lines |
| GifInterlace.GifInput.ProcessImage | libbase/GnashImageGif.cpp:174-253 | each pixel is the line's for its row inside the image and the background everywhere else; it fails iff the image leaves the screen or lines are missing |

## Left out

RTMP
- RtmpSession.Rtmp.PutHead: requires a channel of at most 319; the size computed at RTMP.cpp:662 has no matching case at RTMP.cpp:674-683 for the others.
- RtmpSession.Rtmp.WriteChunks: the same.
- RtmpSession.Rtmp.SendChunks: the same.
- RtmpSession.Rtmp.SendPacket: the same; besides, the payload of an invocation has to start with the string tag, which the code asserts at RTMP.cpp:769.
- RtmpSession.Rtmp.HandleOther: a bandwidth message of less than four bytes is decoded with arbitrary bytes behind it, where the code reads on in memory.
- Packet buffers are the bytes received so far; stored and incomplete packets sharing one buffer, and the memory beyond what has been read, are not modelled.
- RtmpSession.EndToEnd: speaks of sessions that have not sent an invocation whose method name cannot be read back; SendKeepsStepIff shows that the wire is out of step then.
- A socket that has failed at a read takes no more bytes; in the model that is a socket whose room ends there, as `room` is arbitrary.
- Byte counters are unbounded; the acknowledgement carries their low 32 bits, as in the code. All messages that one pass sends have one time.
- RtmpSession.AcksBounded: is for a fixed bandwidth; what holds after every read at any bandwidth is in ReadSocket.
- `connect` but for its call of the handshake, `close`, `call`, `play`, the other control messages that a program can ask for, name resolution, logging; the random bytes of C1 are a parameter.

Handshake
- The version byte and the returned signature are compared only for the log, so the model does not compare them.
- Handshake.HandShaker.ReadSocket: takes every fill to fit the cache; SocketCache.Socket.FillCache says when it does.
- The session's wire is the peer's stream from where the handshaker's socket has left it; SuccessOfSession says when that is the session's first byte.

Garbage collector
- Resources are objects with a list of references; what other overrides of `markReachableResources` do, destructors, several collectors and the environment variable for the threshold are not modelled.
- GarbageCollector.GC.AddCollectable: the class comment's preconditions are required, and that a new resource refers to listed ones only.

Socket
- SocketCache.Socket.Read: a fill beyond the free space is excluded; FillCache states when that is.
- SocketCache.Socket.ReadNonBlocking: the same.
- Connecting, writing, time-outs and blocking.

Shared memory
- Failures of `semop`, `semctl` and `shmat`, removal of segment and semaphore in the destructor, and other platforms. The ten sleeps are steps without time.

URLs
- The constructor's choice between absolute and relative, `getcwd`, the Windows, OS/2 and Amiga branches, `set_querystring` and the texts of exceptions.
- Library searches (`find`, `rfind`, the tokenizer) are functions with their contracts.

Bit reader
- BitsReader.BitsReader.ReadSint: at width 32 the sign bit must be clear, since the shift of the sign is undefined in the code; so is the shift at width 0.
- Byte and word reads, `gotBits`, sub-readers. The test at BitsReader.cpp:74 can never hold and is left out; masks, shifts and the disjunction of numbers are written as arithmetic.

AMF
- What a double means: numbers are eight opaque bytes of a little-endian host.
- Amf.Reader.ReadValue: objects, arrays, dates, references and XML, which need the player's objects, are failures.
- The writer of properties.
- Buffers without memory and moved-from buffers.

Argument parser
- The constructor for a single element; error messages are values instead of text. Arguments are sequences of characters without C's terminating zero.

GIF
- Decoding, colour maps, extension records and the partly filled screen after a failure.
