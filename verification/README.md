# Media relay: a Dafny model

The relay takes H.264 and PCM over WebSocket, re-encrypts it in firmware, pushes it over USB bulk and
plays it on a host. This project models the parts that hold protocol state and the codecs they lean on,
in the form the program has them (classes whose methods update fields and arrays, loops with invariants),
and proves what the whole has to keep.

How the files fit together:

- `Bytes` bytes and fixed-width words. `GatewayProto`, `CryptoStream`, `Frames` packet formats.
- `TxRing` the firmware's ring array. `UsbProtocol` the USB session as a machine over atomic steps with
  its invariant; `UsbSession` the class that carries out each step on the ring and the request buffer;
  `UsbRuns` what whole runs bring to the host; `UsbProgress` that they do bring it there.
- `HostReader`, `HostStartup`, `Player` the host's stream reader, startup handshake and reading loop;
  `PlayerVideo` what its video path holds and queues.
- `VideoFragments`, `VideoAssembly`, `VideoQueue` fragmentation, reassembly and the keyframe-gated queue.
- `Pipeline` sender, firmware and player over one session; `VideoStream` a whole list of NAL units through it.
- `MediaSender` the audio and video threads of the sender under their locks.
- `WsFrames`, `WsReceive`, `WsClose`, `WsSession`, `WsUpstream` WebSocket frames, the server's receive machine,
  the ways it ends without a message, its class, the gateway's client.
- `Utf8`, `Sha1`, `Base64`, `AnnexB`, `JsonStrings`, `Json`, `JsonGrammar`, `JsonReader`, `JsonWriter`,
  `JsonRoundTrip` the codecs.

A method that the program runs in place is proved against a function (of the old state, or of the bytes
still to be read), and the promises are proved about that function.

## What is assumed

- Each task call and each callback of the firmware is one atomic step; the code does not guard `in_busy`.
- At most one IN request is outstanding. A completion with status 0 has sent the first `actual` bytes, or
  all of them when `actual` is 0, which is how `gateway_usb_in_complete` reads it. A request taken back,
  and a disabled, disconnected or suspended device, leave nothing outstanding. A suspend leaves the
  in-flight length as it was, as the code does.
- One IN request reaches the host as one bulk transfer of at most 512 bytes.
- ChaCha20 is exclusive or with a keystream given as a function of nonce and position.
- The bytes of a WebSocket length are read left to right, an order C leaves open. Memory does not run out,
  except in `gateway_usb_enqueue_media_packet` and `send_encrypted_media`, where it is an input.
- While `next_frame` runs, the connection's closing state and newest PING id do not change. A failed recv
  is an empty piece of input; a failed send is a budget of sends that has run out.
- `size_t` has 64 bits in the codecs.

## What was found false, and where it is exact

- A video payload survives fragmentation if and only if it is `VideoAssembly.Sendable`: the 16-bit fragment
  count wraps at 65536 fragments, and an unfragmented payload that begins like a fragment is taken for one
  (`VideoAssembly.DeliveredIffSendable`).
- The player's startup is in step with the session if and only if no init of an earlier session follows a
  PONG of the same sequence number among the stale transfers beyond the sixteen that the flush takes (the
  number is a constant of the player, so old PONGs match), a PONG of that number is seen whole, and the first
  chunk holds the sixteen bytes of the init (`HostStartup.StartupAfterFlush`). The firmware always queues the
  init whole in the first chunk, so the last two come down to what the first two completions report
  (`Pipeline.SessionEndToEnd`).
- As long as the endpoint takes what it is given, a ring that holds anything has a request outstanding, after
  every event but one: an upstream packet that is dropped just after the init was put into an empty ring
  leaves that init lying until the next retry tick (`UsbProgress.StepFlows`, `UsbProgress.TickFlows`).
- A packet for the decoder comes apart into its parameter sets and unit if and only if none of them holds a
  start code (`PlayerVideo.PacketComesApart`); what the sender cuts never does (`VideoStream.CutsAreClean`).
- Base64 of the empty input is refused by the decoder (`Base64.DecodeEncodeExactly`).
- A JSON tree survives print and parse if and only if it is at most 1000 deep, which only the parser
  checks, and its text and two bytes more fit an `int`, which only the writer checks
  (`JsonRoundTrip.PrintThenParse`). The digits of a `\u` escape are not checked
  (`JsonStrings.DigitsNotChecked`).
- The 16 MiB cap on a WebSocket message is on the 64-bit sum of the lengths announced. It is exceeded
  exactly when that sum wraps (`WsReceive.CapOnAnnounced`), which fourteen bytes can bring about
  (`WsReceive.CapWraps`); and the buffer for a frame is large enough exactly when the sum of its sizes does
  not wrap (`WsReceive.RequestCovers`). Below 2^64 announced bytes both hold (`WsReceive.CapOnTotal`,
  `WsReceive.PassedThenCovered`).
- Packet nonces coincide exactly for calls a multiple of 2^32 apart (`MediaSender.EveryInterleaving`).

## Model

| member | source | states |
|---|---|---|
| Bytes.XorExactly | wsh264/src/ws.c:1128 | exclusive or sets exactly the bits in which its operands differ, and is the only byte that does |
| TxRing.WriteAppends | ameba_gateway/example_gateway_ameba.c:887-939 | writing at the head, wrap-around included, appends to what the ring holds, oldest first |
| TxRing.AdvanceDrops | ameba_gateway/example_gateway_ameba.c:972-985 | moving the tail drops exactly the oldest bytes |
| TxRing.OldestInTwoRuns | ameba_gateway/example_gateway_ameba.c:941-970 | the two copies of a peek are the oldest bytes in order |
| TxRing.Ring.Reset | ameba_gateway/example_gateway_ameba.c:870-880 | the ring holds nothing and head, tail and count agree |
| TxRing.Ring.EnqueuePacket | ameba_gateway/example_gateway_ameba.c:905-939 | prefix and payload are appended whole exactly when both fit; otherwise the queue is unchanged |
| TxRing.Ring.PeekChunk | ameba_gateway/example_gateway_ameba.c:941-970 | copies the oldest bytes, at most the limit, and consumes nothing |
| TxRing.Ring.ConsumeChunk | ameba_gateway/example_gateway_ameba.c:972-985 | drops exactly that many of the oldest bytes, never more than there are |
| GatewayProto.InitRoundTrip | wsh264/src/gateway_proto.c:44-74 | an init read back from what was written is the same init |
| GatewayProto.InitLayout | wsh264/src/gateway_proto.c:44-58 | which byte of an init holds what |
| GatewayProto.MediaHeaderRoundTrip | wsh264/src/gateway_proto.c:76-103 | a media header read back from what was written is the same header |
| GatewayProto.MediaHeaderLayout | wsh264/src/gateway_proto.c:76-89 | which byte of a media header holds what |
| GatewayProto.WriteInit | wsh264/src/gateway_proto.c:44-58 | the sixteen bytes are written in place and nothing behind them is touched |
| GatewayProto.WriteMediaHeader | wsh264/src/gateway_proto.c:76-89 | the sixteen header bytes are written in place and nothing behind them is touched |
| CryptoStream.DecryptEncrypt | wsh264/src/crypto_stream.c:95-157 | decrypting an encrypted packet gives stream, sequence number and data back |
| CryptoStream.EncryptDecrypt | wsh264/src/crypto_stream.c:95-157 | a packet that decrypts is the encryption of what came out |
| CryptoStream.PacketLayout | wsh264/src/crypto_stream.c:95-121 | which byte of a packet holds what, each data byte under its own byte of the keystream |
| CryptoStream.CryptFlips | wsh264/src/crypto_stream.c:118-119 | each byte has exactly the bits of its keystream byte flipped |
| CryptoStream.PacketNoncesEqual | wsh264/src/crypto_stream.c:78-88 | packets of any two sessions share a nonce exactly when the first eight bytes and the advanced last words agree |
| CryptoStream.PacketNonceInjective | wsh264/src/crypto_stream.c:78-88 | packets of one session share a nonce exactly when they share a sequence number |
| CryptoStream.SessionNonceUsed | wsh264/src/crypto_stream.c:78-88 | one sequence number gives two sessions the same nonce exactly when their session nonces are the same |
| CryptoStream.EncryptPacket | wsh264/src/crypto_stream.c:95-121 | writes exactly the packet, each data byte with the keystream's bits flipped, or fails on a buffer too small; the length comes back as an int |
| CryptoStream.DecryptPacket | wsh264/src/crypto_stream.c:123-157 | gives exactly what the packet decrypts to, or fails |
| UsbProtocol.EnqueueInitKeepsInv | ameba_gateway/example_gateway_ameba.c:987-1002 | in a reachable state the init is always accepted when it is due, and the log then starts with it |
| UsbProtocol.ConsumeKeepsInv | ameba_gateway/example_gateway_ameba.c:1110-1116 | a completion, partial or not, moves exactly the transmitted bytes from ring to host |
| UsbProtocol.RelayKeepsInv | ameba_gateway/example_gateway_ameba.c:684-687 | relaying a packet, dropped or not, keeps the accepted packets a subsequence of those that decrypted |
| UsbProtocol.SubsequencePicks | ameba_gateway/example_gateway_ameba.c:684-687 | being a subsequence means standing at increasing places among the packets that decrypted |
| UsbProtocol.PongCarries | ameba_gateway/example_gateway_ameba.c:1131-1136 | magic, sequence number, length and text stand where the host's packet has them, and zeros behind |
| UsbProtocol.StepKeepsInv | ameba_gateway/example_gateway_ameba.c:870-1314 | every step keeps: acknowledged bytes then ring equal the accepted packets' bytes; empty or one init then whole media; the flag says which; the in-flight buffer is a prefix of the ring; a PONG consumes nothing |
| UsbProtocol.EveryReachableState | ameba_gateway/example_gateway_ameba.c:870-1314 | all of that in every state reached from power-on, whatever the events |
| UsbSession.Session.TxReset | ameba_gateway/example_gateway_ameba.c:870-880 | is the reset step on the ring array |
| UsbSession.Session.EnqueueInitPacket | ameba_gateway/example_gateway_ameba.c:987-1002 | is the init step on the ring array |
| UsbSession.Session.EncryptForUsb | ameba_gateway/example_gateway_ameba.c:1004-1031 | gives the payload the relay frame carries, or fails on a length that is no positive int |
| UsbSession.Session.EnqueueMediaPacket | ameba_gateway/example_gateway_ameba.c:1004-1046 | is the media step: header and re-encrypted payload appended whole, or nothing |
| UsbSession.Session.KickTx | ameba_gateway/example_gateway_ameba.c:1186-1222 | is the kick step, failed queueing included |
| UsbSession.Session.WritePong | ameba_gateway/example_gateway_ameba.c:1131-1136 | the first 64 bytes of the buffer are the PONG |
| UsbSession.Session.SendPong | ameba_gateway/example_gateway_ameba.c:1120-1160 | is the PONG step on the shared endpoint |
| UsbSession.Session.ResetStreamSession | ameba_gateway/example_gateway_ameba.c:1162-1184 | is the session reset, whether the dequeue succeeds or not |
| UsbSession.Session.InComplete | ameba_gateway/example_gateway_ameba.c:1088-1118 | is the completion step: failure resets, success consumes and kicks |
| UsbSession.Session.RetryInitIfNeeded | ameba_gateway/example_gateway_ameba.c:1224-1233 | is the retry step |
| UsbSession.Session.OutComplete | ameba_gateway/example_gateway_ameba.c:1235-1314 | is the step of a packet from the host: configuration, PING or other |
| UsbSession.Session.UpstreamBinaryFrame | ameba_gateway/example_gateway_ameba.c:666-690 | is the decrypt-and-relay step |
| UsbSession.Session.Disable | ameba_gateway/example_gateway_ameba.c:1375-1390 | is the teardown step |
| UsbSession.Session.SetAltSetting | ameba_gateway/example_gateway_ameba.c:1401-1466 | is the configuration step, each failure included |
| UsbRuns.PingBegins | ameba_gateway/example_gateway_ameba.c:1302-1311 | after a PING the stream is just the init, nothing is on the wire, and the PONG is outstanding exactly when it was queued |
| UsbRuns.QuietRun | ameba_gateway/example_gateway_ameba.c:1088-1314 | while nothing resets the stream, log and wire only grow and the PONG stays first |
| UsbRuns.StepKeepsFirstChunk | ameba_gateway/example_gateway_ameba.c:1186-1222 | while nothing of the stream is consumed, an outstanding chunk starts with the whole init, after any event |
| UsbRuns.EveryFirstChunk | ameba_gateway/example_gateway_ameba.c:870-1314 | the same in every state reached from power-on |
| UsbRuns.SessionTransfers | ameba_gateway/example_gateway_ameba.c:1088-1314 | the host receives the PONG, then stream chunks whose concatenation, with the ring, is one init and whole media packets; the PONG is whole and the first chunk carries the whole init exactly when their completions did not report fewer bytes |
| UsbProgress.UpstreamAccepted | ameba_gateway/example_gateway_ameba.c:666-690 | in a session that is ready a packet is accepted exactly when there is memory and room for it, behind an init if there is none yet; the log grows by nothing else |
| UsbProgress.ComesUp | ameba_gateway/example_gateway_ameba.c:1401-1466 | starting USB, a configuration and any packet from the host make a session ready, from any state |
| UsbProgress.StaysReady | ameba_gateway/example_gateway_ameba.c:870-1314 | and nothing but a teardown or a configuration ends that |
| UsbProgress.KickFlows | ameba_gateway/example_gateway_ameba.c:1186-1222 | a kick on a free endpoint sends the oldest bytes, as many as one request takes |
| UsbProgress.StepFlows | ameba_gateway/example_gateway_ameba.c:1186-1314 | while the endpoint takes what it is given, every event leaves a request outstanding for a ring that holds anything, unless it strands an init; a new request holds the oldest bytes up to 512 |
| UsbProgress.TickFlows | ameba_gateway/example_gateway_ameba.c:1224-1233 | from any reachable state of a ready session a retry tick puts the missing init into the ring and sends what lies there |
| UsbProgress.StartsOver | ameba_gateway/example_gateway_ameba.c:1088-1466 | a reset of the session leaves nothing of the one before |
| UsbProgress.PacketAnswered | ameba_gateway/example_gateway_ameba.c:1235-1314 | on a free endpoint, which a PING makes it, a packet from the host is answered with a PONG of its number, and the init is in the ring |
| UsbProgress.DrainsAnyway | ameba_gateway/example_gateway_ameba.c:1088-1118 | however little each completion reports, after as many as there are bytes left the ring is empty and the host has received exactly the accepted packets' bytes |
| UsbProgress.DrainsExactly | ameba_gateway/example_gateway_ameba.c:1088-1118 | with requests transmitted whole it takes exactly one completion for the request outstanding and one for every 512 bytes more |
| UsbProgress.SessionDrains | ameba_gateway/example_gateway_ameba.c:1088-1314 | so after a PING that is answered and any quiet events, completions bring the host the whole session |
| HostReader.FindHeader | gateway_client/gateway_client.cpp:1111-1154 | the least offset where a magic starts a 16-byte window, if there is one |
| HostReader.NoiseSkipped | gateway_client/gateway_client.cpp:1111-1154 | bytes in which no header starts, ahead of written frames, are skipped and the frames are read |
| HostReader.Reader.ReadExactPrefetched | gateway_client/gateway_client.cpp:1045-1071 | takes exactly n bytes off prefetch and transport as one stream, or ends it |
| HostReader.Reader.PrependPrefetch | gateway_client/gateway_client.cpp:1092-1109 | puts bytes back in front of the stream |
| HostReader.Reader.ReadNextGatewayHeader | gateway_client/gateway_client.cpp:1111-1154 | on any bytes stops at the first header, reports its offset as skipped and leaves the stream behind it |
| HostReader.Reader.ReadGatewayPayloadResync | gateway_client/gateway_client.cpp:1156-1191 | returns the payload, or finds a header in its place and leaves the stream unchanged, or meets the end |
| HostReader.ReadBackPrefix | gateway_client/gateway_client.cpp:1081-1191 | any prefix of a written list of unambiguous frames reads back as the frames whole in it, nothing skipped |
| HostReader.ReadBack | gateway_client/gateway_client.cpp:1081-1191 | a written list of unambiguous frames reads back as that list, nothing skipped |
| HostReader.LostPayloadResync | gateway_client/gateway_client.cpp:1092-1191 | when a payload is lost whole, one desync is reported and the following frame is read with nothing skipped |
| HostStartup.PrepareUsbStreamStartup | gateway_client/gateway_client.cpp:930-1043 | ends with the outcome of the handshake on the reads that the flush leaves, or with a failure to send |
| HostStartup.Flush | gateway_client/gateway_client.cpp:951-965 | throws transfers away up to the first silent or failed read, and sixteen at most |
| HostStartup.FlushSkips | gateway_client/gateway_client.cpp:951-965 | of transfers waiting it leaves those beyond the sixteenth |
| HostStartup.AcceptedAfterPong | gateway_client/gateway_client.cpp:980-1038 | an accepted init is the first after the first matching PONG, in a later transfer, and everything behind it is kept |
| HostStartup.PastStale | gateway_client/gateway_client.cpp:980-1038 | stale transfers either hand over an init of their own or are passed over, leaving only whether a matching PONG was among them |
| HostStartup.StartupInStep | gateway_client/gateway_client.cpp:980-1038 | behind any stale transfers, leftover and later reads are the session without its init exactly when no stale init follows a stale PONG of the same number, a PONG was seen whole, and the first chunk holds the init |
| HostStartup.StartupAfterFlush | gateway_client/gateway_client.cpp:951-1043 | the same for the whole startup, where only the stale transfers that the flush leaves count |
| HostStartup.NothingStaleLeft | gateway_client/gateway_client.cpp:951-965 | sixteen stale transfers or fewer do no harm |
| Player.DecryptUsbMediaPayload | gateway_client/gateway_client.cpp:717-757 | passes exactly the payloads that decrypt with the header's stream and sequence number |
| Player.PassesExactly | gateway_client/gateway_client.cpp:717-757 | an empty payload passes as it is; any other passes exactly when it is the encryption of a packet that agrees with its header |
| Player.ReadOne | gateway_client/gateway_client.cpp:1552-1610 | one turn of the loop hands on the first delivery of the stream or none, and shortens the stream |
| Player.NetworkReader | gateway_client/gateway_client.cpp:1540-1652 | for every split between prefetch and transport hands on all deliveries of the stream in order, and the video path has handled them |
| Player.VideoPath.Handle | gateway_client/gateway_client.cpp:1612-1635 | reassembly, parameter sets, Annex B packet, enqueue and trim on the shared state |
| Player.HandleAllAppend | gateway_client/gateway_client.cpp:1612-1635 | handling deliveries in two goes is handling them in one |
| PlayerVideo.NalFlagsSay | wsh264/app/wsh264.cpp:82-95 | the flags of a unit say keyframe exactly for NAL type 5 and configuration exactly for types 7 and 8 |
| Frames.RelaySize | ameba_gateway/example_gateway_ameba.c:1004-1031 | a packet without data is relayed as its header alone, any other eight bytes longer than its data |
| PlayerVideo.RelayFlagsSay | ameba_gateway/example_gateway_ameba.c:801-816 | the relay takes the flags of a fragment over, derives those of an unfragmented unit from its type, and sets none for audio |
| PlayerVideo.LastSetIs | gateway_client/gateway_client.cpp:1620-1623 | a parameter set held is that of the last configuration unit of its type |
| PlayerVideo.DecoderPacketIs | gateway_client/gateway_client.cpp:1625-1632 | a packet is its unit, behind the SPS and the PPS if it is a keyframe, each that is not empty behind a start code |
| PlayerVideo.PacketComesApart | gateway_client/gateway_client.cpp:276-284 | cut as the sender cuts a bitstream, a packet gives back exactly those, if and only if none holds a start code |
| PlayerVideo.PathExactly | gateway_client/gateway_client.cpp:1612-1635 | over any deliveries the path holds the last SPS and PPS handed over, and the gate has seen, in order, one packet for each other unit and nothing else |
| Pipeline.RelayNeverDesyncs | ameba_gateway/example_gateway_ameba.c:1004-1046 | a re-encrypted payload never looks like a header to the player |
| Pipeline.RelayDecrypts | ameba_gateway/example_gateway_ameba.c:1004-1046 | a relay frame passes the player's decryption with the packet's own data |
| Pipeline.DeliveredIsPrefix | gateway_client/gateway_client.cpp:717-757 | between two resets what passes decryption is, byte for byte and in order, the accepted packets transmitted whole: a prefix of those accepted, a subsequence of those decrypted upstream |
| Pipeline.SessionEndToEnd | gateway_client/gateway_client.cpp:951-1043 | the same through stale transfers, PING, PONG, startup and any events without a reset; the player is in step exactly when no stale init is taken and the first two completions report at least the PONG and the init, or all |
| Pipeline.EverythingArrives | gateway_client/gateway_client.cpp:1552-1610 | with the ring drained every accepted packet is delivered |
| Pipeline.NothingIsLost | ameba_gateway/example_gateway_ameba.c:1088-1314 | through flush, PING, PONG, startup, any quiet events and completions up to the empty ring, a player in step delivers every packet that the ring accepted |
| Pipeline.UpstreamSeesPlain | ameba_gateway/example_gateway_ameba.c:666-690 | the relay of a frame the sender encrypted sees exactly its plaintext |
| Pipeline.PathFeeds | gateway_client/gateway_client.cpp:1612-1617 | the video path assembles from the video payloads alone, whatever lies between them |
| Pipeline.ReceivedIsRead | gateway_client/gateway_client.cpp:1552-1617 | what the player reads are the packets transmitted whole, with the flags the relay gives |
| Pipeline.VideoEndToEnd | wsh264/app/wsh264.cpp:216-264 | one video payload in any session, with any packets before, after and (audio) between: the player stays quiet over its packets and then hands over the payload with its flags, exactly when it is sendable |
| VideoStream.UnitsComeWhole | wsh264/app/wsh264.cpp:216-264 | a list of sendable units, each fragmented under its frame id, is handed over whole and in order with its flags |
| VideoStream.DecoderSees | gateway_client/gateway_client.cpp:1612-1635 | in any session that transmitted them, the player then holds the last SPS and PPS by NAL type, and its gate has seen exactly one packet for each other unit, in order, type 5 as keyframe |
| VideoStream.CutsAreClean | wsh264/app/wsh264.cpp:266-292 | no unit that the sender cuts holds a start code |
| VideoFragments.SplitConcat | wsh264/app/wsh264.cpp:216-264 | the fragments' data in order are the payload, none of them empty |
| VideoFragments.VideoSender.SendVideoMedia | wsh264/app/wsh264.cpp:216-264 | sends exactly the packets of the payload, up to the first send that fails, and moves the frame id once |
| VideoFragments.ParseFragmentPacket | gateway_client/gateway_client.cpp:418-446 | a fragment packet is recognised and its fields are read back |
| VideoFragments.Reassembler.AssembleParts | gateway_client/gateway_client.cpp:466-479 | the parts in order, unless one is missing |
| VideoFragments.Reassembler.StorePart | gateway_client/gateway_client.cpp:446-462 | starts over for another frame, and stores the part unless its place is filled |
| VideoFragments.Reassembler.Reassemble | gateway_client/gateway_client.cpp:418-483 | is one step of the reassembly machine on the receiver's fields |
| VideoAssembly.AnyOrder | gateway_client/gateway_client.cpp:418-483 | fragments in any order and with duplicates: not ready until the last missing one, then exactly the payload and flags |
| VideoAssembly.DeliveredIffSendable | wsh264/app/wsh264.cpp:216-264 | a receiver that is idle or busy with another frame gets the payload back exactly when it is sendable |
| VideoAssembly.RestsAfter | gateway_client/gateway_client.cpp:466-483 | and is then ready for any other frame |
| VideoAssembly.FeedAllAppend | gateway_client/gateway_client.cpp:418-483 | feeding in two goes is feeding in one |
| VideoAssembly.FalseFragment | gateway_client/gateway_client.cpp:418-483 | an unfragmented payload taken for a fragment never comes out whole |
| VideoAssembly.FeedTracks | gateway_client/gateway_client.cpp:406-483 | after any fragment the receiver holds the first non-empty data of each part since assembly began; count and total size agree with them |
| VideoAssembly.EmittedFrame | gateway_client/gateway_client.cpp:406-483 | an emitted frame is the in-order concatenation of the non-empty parts of one frame id and count |
| VideoAssembly.RunTracks | gateway_client/gateway_client.cpp:406-483 | the receiver's invariant over any sequence of packets |
| VideoQueue.SharedQueue.EnqueueVideoPacket | gateway_client/gateway_client.cpp:376-401 | is the gate's enqueue: refuse, drop all and wait, or append |
| VideoQueue.SharedQueue.TrimVideoQueueForLatency | gateway_client/gateway_client.cpp:485-515 | is the gate's trim to the last keyframe |
| VideoQueue.SharedQueue.PopFront | gateway_client/gateway_client.cpp:1899-1908 | takes the front packet, as the machine does |
| VideoQueue.SharedQueue.ClearAfterDecodeFailure | gateway_client/gateway_client.cpp:1913-1921 | empties the queue and waits for a keyframe |
| VideoQueue.TrimKeepsSuffix | gateway_client/gateway_client.cpp:485-515 | a trim keeps a suffix that is everything, nothing or starts with a keyframe, and counts what it drops |
| VideoQueue.TrimExactly | gateway_client/gateway_client.cpp:485-515 | up to six packets stay as they are; of more, those from the last keyframe on, or none and a keyframe is awaited |
| VideoQueue.ArrivalQueued | gateway_client/gateway_client.cpp:376-401 | an arrival is queued last exactly when it is a keyframe, or the gate is open and holds fewer than six, or fewer than eight with a keyframe among them |
| VideoQueue.LastKeyframeIs | gateway_client/gateway_client.cpp:490-497 | the backward search finds the last keyframe, if there is one |
| VideoQueue.EnqueueKeepsInv | gateway_client/gateway_client.cpp:376-401 | an arrival keeps the queue a run of latest arrivals, within eight, and is counted once |
| VideoQueue.EveryPlayback | gateway_client/gateway_client.cpp:1894-1925 | over any interleaving from the start the decoder gets runs that start with a keyframe, miss nothing and end where a decoding fails; at most eight queued; empty while waiting; every arrival accounted for |
| VideoQueue.InSyncDrains | gateway_client/gateway_client.cpp:1894-1925 | a decoder in sync is handed everything queued, in order |
| VideoQueue.KeyframeReachesDecoder | gateway_client/gateway_client.cpp:1894-1925 | from any reachable state with an idle decoder a keyframe that arrives is handed over within as many rounds as packets are queued, and the gate is open |
| MediaSender.App.SendCryptoInitLocked | wsh264/app/wsh264.cpp:122-157 | the init goes out at most once, and the flag is set exactly when it has |
| MediaSender.App.CryptoSectionLocked | wsh264/app/wsh264.cpp:184-188 | the number returned is the counter's, which then is one more modulo 2^32, also when the init could not be sent |
| MediaSender.App.BeginAudioPriority | wsh264/app/wsh264.cpp:97-103 | counts one audio send more |
| MediaSender.App.EndAudioPriority | wsh264/app/wsh264.cpp:105-112 | counts one audio send fewer, never below none |
| MediaSender.RunKeepsInv | wsh264/app/wsh264.cpp:97-214 | over any interleaving only the owner is inside tx_lock, the wire is one init then media in order each under its number, every number taken is on the wire, failed or on its way, and the counter counts |
| MediaSender.WireNonces | wsh264/src/crypto_stream.c:78-88 | nonces of the numbers on the wire coincide exactly 2^32 calls or a multiple apart; below that the numbers strictly increase |
| MediaSender.EveryInterleaving | wsh264/app/wsh264.cpp:97-214 | crypto_init once and before any media; the counter is the number of audio sends in progress; nonces apart, for every interleaving from the start |
| MediaSender.SuccessiveNumbers | wsh264/app/wsh264.cpp:184-188 | two runs of the section hand out successive numbers modulo 2^32 |
| MediaSender.SendReachesWire | wsh264/app/wsh264.cpp:196-210 | a send that succeeds puts the thread's packet on the wire under the number it holds |
| MediaSender.VideoWaits | wsh264/app/wsh264.cpp:97-120 | video gets past its wait exactly when no audio send is in progress; audio never waits |
| MediaSender.SomeoneMoves | wsh264/app/wsh264.cpp:97-214 | no deadlock: while a send is in progress some thread can move on |
| MediaSender.EveryoneLeaves | wsh264/app/wsh264.cpp:97-214 | from every reachable state all sends in progress can run to their end |
| WsFrames.WireThenParse | wsh264/src/ws.c:1035-1153 | a frame on the wire, in any length form, is read back and what follows is left |
| WsFrames.ParseThenWire | wsh264/src/ws.c:1023-1153 | whatever is taken for a frame is the wire form of one |
| WsFrames.MaskFlips | wsh264/src/ws.c:1120-1130 | masking flips in byte i the bits of mask byte i modulo 4 |
| WsFrames.ShortestForm | wsh264/src/ws.c:486-520 | no other length form that can carry the length is as short as the one sent |
| WsFrames.HeadOfTwo | wsh264/src/ws.c:486-520 | a frame sent has a head of two bytes exactly up to 125 bytes of payload |
| WsFrames.HelloOnWire | wsh264/src/ws.c:472-542 | the examples of section 5.7 of RFC 6455 that a server can send |
| WsFrames.LongOnWire | wsh264/src/ws.c:472-542 | and those with 16-bit and 64-bit lengths |
| WsFrames.SendFrame | wsh264/src/ws.c:472-542 | the bytes of a final unmasked frame with the shortest length form |
| WsFrames.SendMaskedFrame | gateway/ws_upstream_client.c:23-66 | the wire form of a final masked frame, its payload with the mask's bits flipped, for any mask |
| WsReceive.DeliversExactly | wsh264/src/ws.c:1167-1439 | a message is delivered if and only if the stream starts with an acceptable conversation |
| WsReceive.DeliversAssembled | wsh264/src/ws.c:1167-1439 | and it is what those frames carry, the stream left where they end |
| WsReceive.WholeMessage | wsh264/src/ws.c:1167-1439 | a well-formed message within the cap is delivered as its unmasked fragments, each PING answered by an equal PONG in order |
| WsReceive.NothingPartial | wsh264/src/ws.c:1167-1439 | success means a whole message, within the cap below 2^64 bytes, and well-formed when text is validated |
| WsReceive.CapOnAnnounced | wsh264/src/ws.c:1055-1073 | the check on an announced length lets a message past the cap exactly when the 64-bit sum wraps |
| WsReceive.CapOnTotal | wsh264/src/ws.c:1055-1073 | with fewer than 2^64 bytes announced the cap is on the whole message |
| WsReceive.CapWraps | wsh264/src/ws.c:1055-1073 | after a fragment of one byte, fourteen bytes that announce 2^64 - 1 more pass the check |
| WsReceive.CapKeptMeans | wsh264/src/ws.c:1055-1073 | a message whose fragments all passed is within the cap exactly when no sum wrapped |
| WsReceive.RequestCovers | wsh264/src/ws.c:1093-1130 | the buffer asked for holds what is copied into it exactly when the sum of the sizes does not wrap |
| WsReceive.PassedThenCovered | wsh264/src/ws.c:1055-1130 | below 2^64 announced bytes every frame that passes the check gets a buffer that holds it |
| WsReceive.MaskedMessage | gateway/ws_upstream_client.c:23-66 | what the gateway's client sends is delivered with its type and bytes |
| WsReceive.EveryMessage | wsh264/src/ws.c:1473-1481 | all messages of a connection reach the application in order |
| WsReceive.PongIdOf | wsh264/src/ws.c:579-601 | the four bytes in which a PING carries an id are read as that id |
| WsReceive.TypeRecorded | wsh264/src/ws.c:1276-1278 | recording the type before the body is read makes no difference |
| WsClose.UnderwayExactly | wsh264/src/ws.c:1167-1439 | which frames are read over without an end: PINGs that can be answered, PONGs, and fragments that keep within the cap and leave a text open |
| WsClose.ReadingSoFar | wsh264/src/ws.c:1167-1439 | and the state they leave, their PINGs answered |
| WsClose.ClosesExactly | wsh264/src/ws.c:1392-1415 | a call ends with CLOSE if and only if such frames come and then a final short CLOSE whose reason, if checked, is UTF-8 |
| WsClose.ClosesWith | wsh264/src/ws.c:1392-1415 | with that payload as the reason, the stream left behind it and the PINGs before it answered |
| WsClose.FailsExactly | wsh264/src/ws.c:1305-1337 | a call that fails has sent those answers, a CLOSE 1007 exactly when the next frame breaks a text and one more frame can be sent, and nothing else |
| WsClose.BrokenTextRejected | wsh264/src/ws.c:1305-1337 | a text that is not, or can no longer be, UTF-8 fails the call and is answered so |
| WsSession.Client.Recv | wsh264/src/ws.c:964-973 | some of the bytes still to come, or a failure |
| WsSession.Reader.NextByte | wsh264/src/ws.c:959-976 | the next byte of buffer and socket as one stream, or the error flag |
| WsSession.Reader.ReadFrame | wsh264/src/ws.c:1023-1153 | succeeds exactly when the frame is there and the sum is within the cap, and appends its unmasked body |
| WsSession.Reader.ReadMasked | wsh264/src/ws.c:1075-1130 | mask and body: succeeds exactly when they are there, and appends the body with the mask's bits flipped |
| WsSession.Reader.DoPong | wsh264/src/ws.c:936-946 | sends a PONG of equal payload or sets the error flag |
| WsSession.Reader.Admit | wsh264/src/ws.c:1213-1278 | which first bytes are welcome in which state |
| WsSession.Reader.DataFrame | wsh264/src/ws.c:1297-1339 | a data frame: body, cap, UTF-8 state carried over, CLOSE 1007 on an invalid text |
| WsSession.Reader.PongFrame | wsh264/src/ws.c:1346-1376 | a PONG moves the acknowledged id only within the ids sent |
| WsSession.Reader.PingFrame | wsh264/src/ws.c:1378-1390 | a PING is answered or fails the call |
| WsSession.Reader.CloseFrame | wsh264/src/ws.c:1392-1415 | a CLOSE ends the call with its reason, unless that is not UTF-8 |
| WsSession.Reader.NextFrame | wsh264/src/ws.c:1167-1439 | for any chunking by recv the call is the receive machine on the bytes that come |
| WsUpstream.PeerWireThenParse | gateway/ws_upstream_client.c:230-290 | a frame, masked or not, is read back with opcode and payload |
| WsUpstream.ParseThenPeerWire | gateway/ws_upstream_client.c:230-290 | what is taken for a frame is one in full |
| WsUpstream.SentThenRead | wsh264/src/ws.c:472-568 | frames the server sends are read by the client with the same opcodes and payloads, in order |
| WsUpstream.AnswersReadBack | wsh264/src/ws.c:936-946 | the server's answers to a conversation are read as one PONG per PING, payloads equal, in order |
| WsUpstream.Client.ReadSome | gateway/ws_upstream_client.c:68-113 | exactly the bytes asked for off prebuffer and socket, across interrupted calls, or not 1 |
| WsUpstream.Client.RecvFrame | gateway/ws_upstream_client.c:230-290 | succeeds exactly when a whole frame is there, and leaves the stream behind it |
| Utf8.AcceptsExactly | wsh264/src/utf8.c:32-59 | the table's automaton accepts exactly the strings of RFC 3629, section 4 |
| Utf8.RejectForGood | wsh264/src/utf8.c:32-59 | reject is never left |
| Utf8.RejectsWhenHopeless | wsh264/src/utf8.c:32-59 | it is entered as soon as no continuation is well-formed, and no sooner |
| Utf8.FragmentwiseExactly | wsh264/src/ws.c:1305-1337 | validating fragment by fragment with the state carried over is validating the whole |
| Utf8.IsUtf8LenState | wsh264/src/utf8.c:80-88 | the state after the bytes |
| Utf8.IsUtf8Len | wsh264/src/utf8.c:70-78 | true exactly for well-formed bytes |
| Base64.DecodeEncode | wsh264/src/base64.c:29-155 | decoding the encoding of a non-empty input gives it back |
| Base64.DecodeEncodeExactly | wsh264/src/base64.c:29-155 | and exactly the non-empty inputs come back |
| Base64.AlphabetIs | wsh264/src/base64.c:15-16 | the letters are those of Table 1 of RFC 4648, and no other byte but the padding has a value |
| Base64.QuadSpells | wsh264/src/base64.c:50-78 | four letters spell the bits of three bytes, first byte first, with padding for each byte missing |
| Base64.RefusedExactly | wsh264/src/base64.c:97-155 | refused are texts without significant characters, in unfinished groups, or whose first padded group has three pads or four, and no others |
| Base64.FeedsAt | wsh264/src/base64.c:50-78 | a line feed stands after every 72 letters and at the end, and nowhere else |
| Base64.TextLength | wsh264/src/base64.c:50-78 | the length of the text with its line feeds |
| Base64.BufferFits | wsh264/src/base64.c:37-39 | text and terminator fit the computed size when it does not wrap |
| Base64.WrapIsCaught | wsh264/src/base64.c:37-41 | the comparison with the input length catches exactly the inputs whose size wraps |
| Base64.Encode | wsh264/src/base64.c:29-84 | NULL exactly on a wrapping size, else the text, written within olen |
| Base64.Decode | wsh264/src/base64.c:97-155 | is the decoding of the significant characters, refusals included |
| Sha1.Context.Reset | wsh264/src/sha1.c:59-80 | an empty message, whatever came before |
| Sha1.Context.ProcessMessageBlock | wsh264/src/sha1.c:232-317 | schedule and eighty rounds are the compression function of RFC 3174, section 6.1 |
| Sha1.Context.CountByte | wsh264/src/sha1.c:189-198 | the two-word length of n bytes becomes that of n + 1 across the carry, and the message is marked too long exactly at 2^61 |
| Sha1.Context.Input | wsh264/src/sha1.c:159-209 | the message grows by the data and hash, partial block and length keep agreeing with it; too long or too late is recorded |
| Sha1.Context.PadMessage | wsh264/src/sha1.c:343-390 | padding in one block or two ends in the hash of the padded message |
| Sha1.Context.Result | wsh264/src/sha1.c:101-138 | the digest of the whole message, the same when asked again, or the recorded error and nothing written |
| Sha1.OneBlock | wsh264/src/sha1.c:366-389 | padding that fits the last block |
| Sha1.TwoBlocks | wsh264/src/sha1.c:351-389 | padding that spills into a second block |
| Sha1.RunRounds | wsh264/src/sha1.c:261-308 | the four loops are the eighty rounds of the definition |
| Sha1.DigestOfPieces | wsh264/src/sha1.c:59-209 | for every split of a message under 2^61 bytes the digest is that of the whole |
| Sha1.ChChooses | wsh264/src/sha1.c:267-277 | the first function chooses between its second and third argument by its first |
| Sha1.ParityCounts | wsh264/src/sha1.c:279-287 | the second is the parity of three |
| Sha1.MajDecides | wsh264/src/sha1.c:289-298 | the third is the majority of three |
| Sha1.ShiftByOne | wsh264/src/sha1.c:37-38 | a circular shift by one moves every bit up and the top bit to the bottom |
| Sha1.ShiftsByMore | wsh264/src/sha1.c:37-38 | the shifts by five and thirty are made of it |
| Sha1.ScheduleParity | wsh264/src/sha1.c:256-259 | a later word of the schedule, turned back by one, is the parity of the words 3, 8, 14 and 16 places before it |
| Sha1.FunctionOfRound | wsh264/src/sha1.c:261-308 | of four times twenty rounds the first twenty choose, the third twenty take the majority, the others the parity |
| Sha1.RoundsOfAbc | wsh264/src/sha1.c:261-316 | four rounds and the sum from the hash of "abc", the first example of section 7.3 of RFC 3174 |
| Sha1.PaddingIs | wsh264/src/sha1.c:343-390 | a one bit, as few zeros as complete a block, the bit length |
| Sha1.MostSignificantFirst | wsh264/src/sha1.c:246-253 | words are spelled with their most significant byte first |
| Sha1.StepMoves | wsh264/src/sha1.c:267-277 | where the registers go in a round |
| Sha1.InitialPattern | wsh264/src/sha1.c:70-74 | the initial registers, low byte first, count the hexadecimal digits up, down, and down doubled |
| Sha1.ConstantsAreRoots | wsh264/src/sha1.c:234-239 | the four constants are square roots of 2, 3, 5 and 10, times 2^30 and rounded down |
| AnnexB.AnnexbAppend | gateway_client/gateway_client.cpp:276-284 | a start code and the unit, or nothing for an empty unit |
| AnnexB.CheckSize | wsh264/app/wsh264.cpp:266-279 | the size up to the next start code, of three bytes or four, or to the end |
| AnnexB.NextChunkOf | wsh264/app/wsh264.cpp:281-292 | the next chunk, if there is one |
| AnnexB.SplitBitstream | wsh264/app/wsh264.cpp:513-524 | the loop finds all chunks in order and ends |
| AnnexB.ChunksOrderedAndClean | wsh264/app/wsh264.cpp:266-292 | on any bytes the chunks are ordered, disjoint and free of start codes |
| AnnexB.ChunksCover | wsh264/app/wsh264.cpp:266-292 | between two chunks there is exactly a start code of four bytes, or of three where no zero precedes it, and the last chunk goes to the end |
| AnnexB.FirstChunkStart | wsh264/app/wsh264.cpp:281-292 | the first chunk starts behind the first start code, and there is none exactly without one |
| AnnexB.JoinThenChunks | gateway_client/gateway_client.cpp:276-284 | joining units and cutting gives the same units |
| AnnexB.JoinedComesApart | gateway_client/gateway_client.cpp:276-284 | joined units come apart again if and only if none holds a start code |
| JsonStrings.EscapeLength | wsh264/cJSON/cJSON.c:929-953 | the escapes counted are the bytes written |
| JsonStrings.NoControls | wsh264/cJSON/cJSON.c:955-1021 | what is written holds no control character |
| JsonStrings.LiteralReadBack | wsh264/cJSON/cJSON.c:773-899 | a printed string is parsed back wherever it stands |
| JsonStrings.Utf16WellFormed | wsh264/cJSON/cJSON.c:652-770 | an accepted escape, surrogate pair or not, gives one character of RFC 3629 |
| JsonStrings.HexValueIs | wsh264/cJSON/cJSON.c:615-648 | exactly the hexadecimal digits count, in either case |
| JsonStrings.SimpleEscapeIs | wsh264/cJSON/cJSON.c:830-858 | the eight short escapes of RFC 8259 and no other |
| JsonStrings.EncodeExactly | wsh264/cJSON/cJSON.c:705-760 | a code point is written as the one character of RFC 3629 that spells it |
| JsonStrings.EscapeMeans | wsh264/cJSON/cJSON.c:652-770 | an escape gives the character that its four digits name |
| JsonStrings.PairMeans | wsh264/cJSON/cJSON.c:652-770 | a surrogate pair gives the character beyond the first plane that its halves name |
| JsonStrings.EstimateHolds | wsh264/cJSON/cJSON.c:786-873 | the size estimated in the first pass bounds what the second writes, for every input |
| JsonStrings.DigitsNotChecked | wsh264/cJSON/cJSON.c:615-648 | an escape with a character that is no digit is read as U+0000; in the second half of a surrogate pair it is refused |
| Json.PrintParse | wsh264/cJSON/cJSON.c:1312-1825 | the parser gives the tree of a printed text back exactly when it is at most 1000 deep |
| Json.TokensAre | wsh264/cJSON/cJSON.c:1367-1437 | how null, true, false, empty lists and separators are spelled |
| JsonGrammar.ParsesExactly | wsh264/cJSON/cJSON.c:1312-1825 | at any position the parser accepts exactly the renderings of a value, with any whitespace around their tokens, that are at most 1000 deep |
| JsonGrammar.ValueParsed | wsh264/cJSON/cJSON.c:1312-1825 | a rendering is parsed to its value and end, or refused for its depth alone |
| JsonGrammar.ValueRendered | wsh264/cJSON/cJSON.c:1312-1825 | what is parsed is a rendering of the value returned |
| JsonGrammar.ParseExactly | wsh264/cJSON/cJSON.c:1079-1142 | and for a whole text, behind a byte order mark and whitespace |
| JsonRoundTrip.PrintThenParse | wsh264/cJSON/cJSON.c:1079-1260 | writer then parser: the tree comes back exactly when it is at most 1000 deep and its text leaves two bytes of an int |
| JsonRoundTrip.BothLimitsBite | wsh264/cJSON/cJSON.c:439-480 | each limit refuses trees the other accepts |
| Json.ValueReadBack | wsh264/cJSON/cJSON.c:1312-1362 | the same for a value anywhere in a text |
| JsonReader.Utf16Literal | wsh264/cJSON/cJSON.c:652-770 | writes the bytes of the code point from last to first and reports what it used |
| JsonReader.ParseBuffer.SkipWhitespace | wsh264/cJSON/cJSON.c:1038-1061 | moves over whitespace but never past the last byte |
| JsonReader.ParseBuffer.FillOutput | wsh264/cJSON/cJSON.c:819-873 | the second pass stays within the estimated output, on failing inputs as well |
| JsonReader.ParseBuffer.ParseString | wsh264/cJSON/cJSON.c:773-899 | the value of the literal and the offset behind it, or failure |
| JsonReader.ParseBuffer.ParseValue | wsh264/cJSON/cJSON.c:1312-1362 | the value at the offset, the offset behind it and the depth as before, or failure |
| JsonReader.ParseBuffer.ParseItems | wsh264/cJSON/cJSON.c:1475-1513 | the list built by appending is the list of items in order |
| JsonReader.ParseText | wsh264/cJSON/cJSON.c:1079-1142 | is the parse of a zero-terminated text |
| JsonWriter.PrintBuffer.Ensure | wsh264/cJSON/cJSON.c:439-522 | room for what is needed with everything written kept, refused exactly beyond INT_MAX |
| JsonWriter.PrintBuffer.UpdateOffset | wsh264/cJSON/cJSON.c:525-535 | moves behind the text that was written |
| JsonWriter.PrintBuffer.PrintString | wsh264/cJSON/cJSON.c:902-1021 | writes the quoted escape and a zero, everything before it kept |
| JsonWriter.PrintBuffer.PrintValue | wsh264/cJSON/cJSON.c:1367-1437 | writes the text of the value, everything before it kept, exactly when it leaves two bytes of an int |
| JsonWriter.PrintBuffer.PrintList | wsh264/cJSON/cJSON.c:1562-1586 | the loop over the linked items writes them with commas between |
| JsonWriter.PrintUnformatted | wsh264/cJSON/cJSON.c:1187-1260 | gives the text exactly when it leaves two bytes of an int |

## Left out

- The TCP relay leg (`gateway/gateway.c`) as an end-to-end claim: it forwards plaintext to a player that decrypts every payload.
- Sockets, libusb, select loops and transports: abstract byte streams with an end. A transfer longer than the host asked for is not modelled.
- ChaCha20 itself; it is an uninterpreted keystream.
- Audio playback, the audio debug wrapper, SDL, FFmpeg, Wi-Fi, FreeRTOS, USB descriptors, logs and counters that only feed them.
- The stop flag of the player and the bound of four decodes per round: any interleaving of pops covers them.
- The time-out of the startup handshake is the end of its list of reads.
- UsbRuns.SessionTransfers: excludes packets from the host that are not configuration, because each of those is answered by another PONG.
- WsSession.Reader.ReadFrame: goes on reading into a sequence where `WsReceive.RequestCovers` says the buffer asked for is too small; what happens in memory then is not modelled.
- WsSession.Reader.NextFrame: does not model a closing state or PING id that other threads change while it runs; they are read once.
- Threads beside `next_frame` (`ws_ping`, the closing time-out) and the broadcast of `ws_sendframe`; the reply to a CLOSE (`do_close` without a code); the handshake's request parsing.
- NUL terminators the WebSocket reader writes behind a message: buffers are sequences.
- Allocation failure, except where it is listed above.
- UTF-8 code points (the second result of `decode`).
- JsonReader.ParseBuffer.ParseValue: refuses a number where a value is expected, because numbers go through the C library's `strtod` and `sprintf`.
- JsonReader.ParseText: refuses texts with numbers, as ParseValue does, and keeps a string with a zero byte whole, which C cuts there.
- cJSON raw items, formatted printing, references, hooks and `cJSON_ParseWithLength`.
- JsonReader.ParseBuffer.ParseItems: the linked list is a value built at the end, not cells changed in place.
- Base64, JSON and WebSocket lengths on a 32-bit `size_t`.
- `bitrate_ctrl.c`, `char_queue.cpp`, `osd.cpp`, `myvector.hpp`, `hexdump.cpp`: not on the pipeline, or only clamps.
