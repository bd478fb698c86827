/**
  The firmware's USB stream session as a protocol (ameba_gateway/example_gateway_ameba.c).

  `Usb` is the session with its ring abstracted to the queue of bytes it holds, together with the
  history since the last reset. Every task call and every callback is one atomic `Event`; `Step` is
  what each does. The class in UsbSession.dfy implements each step on the ring array.

  What the model takes from the USB stack: at most one IN request is outstanding; a completion with
  status 0 has transmitted the first `actual` bytes of the request, or all of them when it reports 0;
  taking the IN request back, whether `usb_ep_dequeue` succeeds (its failing completion runs before it
  returns) or reports that the endpoint no longer holds it, leaves nothing outstanding, and so does
  disabling, disconnecting or suspending the device.
 */
module UsbProtocol {
  import opened Bytes
  import opened Frames
  import GP = GatewayProto
  import CS = CryptoStream
  import TxRing

  const RING_SIZE: nat := TxRing.RING_SIZE
  const IN_CHUNK_SIZE: nat := 512
  const PING_PACKET_SIZE: nat := 64

  const PING: seq<byte> := [0x50, 0x49, 0x4E, 0x47]
  const PONG: seq<byte> := [0x50, 0x4F, 0x4E, 0x47]
  const CFG1: seq<byte> := [0x43, 0x46, 0x47, 0x31]

  /** "gateway-usb-pong" */
  const PONG_TEXT: seq<byte> :=
    [0x67, 0x61, 0x74, 0x65, 0x77, 0x61, 0x79, 0x2D, 0x75, 0x73, 0x62, 0x2D, 0x70, 0x6F, 0x6E, 0x67]

  function PongBytes(seqNo: u32): (b: seq<byte>)
    ensures |b| == PING_PACKET_SIZE
  {
    PONG + Le32(seqNo) + Le32(16) + PONG_TEXT + seq<byte>(36, _ => 0)
  }

  /** The fields of a PONG as the host's `UsbPingPacket` lays them out. */
  lemma {:induction false} PongCarries(seqNo: u32)
    ensures var b := PongBytes(seqNo);
            && b[..4] == PONG && ReadLe32(b[4..]) == seqNo && ReadLe32(b[8..]) == |PONG_TEXT|
            && b[12..12 + |PONG_TEXT|] == PONG_TEXT && forall i | 12 + |PONG_TEXT| <= i < |b| :: b[i] == 0
  {
    var b := PongBytes(seqNo);
    Le32ThenRead(seqNo, b[8..]);
    assert b[4..] == Le32(seqNo) + b[8..];
    Le32ThenRead(16, b[12..]);
    assert b[8..] == Le32(16) + b[12..];
  }

  /** A packet the ring accepted. */
  datatype Packet = Init | Media(plain: CS.Plain)

  /** The IN request the endpoint holds. */
  datatype Request = NoRequest | PongRequest(bytes: seq<byte>) | StreamRequest(bytes: seq<byte>)

  /** What one completed IN request brought to the host. */
  datatype Transfer = PongTransfer(bytes: seq<byte>) | StreamTransfer(bytes: seq<byte>)

  datatype Usb = Usb(
    started: bool,         // gateway_usb_started
    bound: bool,           // the IN endpoint and its request exist
    configured: bool,      // ctx->configured and gateway_usb_configured
    hostReady: bool,       // gateway_usb_host_ready
    initSent: bool,        // gateway_usb_proto_init_sent
    resetting: bool,       // gateway_usb_stream_resetting
    inBusy: bool,          // ctx->in_busy
    inFlight: nat,         // ctx->in_flight_len
    queue: seq<byte>,      // what the ring holds
    pending: Request,
    // history since the last reset of the ring
    log: seq<Packet>,      // packets accepted by the ring
    offered: seq<CS.Plain>,// upstream packets that decrypted
    acked: seq<byte>,      // bytes consumed from the ring
    wire: seq<Transfer>)   // transfers the host received

  // Bytes of the accepted packets

  predicate Sendable(p: CS.Plain) {
    |p.data| + CS.HEADER_SIZE < 0x8000_0000
  }

  predicate GoodPacket(p: Packet) {
    p.Media? ==> Sendable(p.plain)
  }

  function FrameOf(ks: CS.Keystream, p: Packet): Frame
    requires GoodPacket(p)
  {
    match p
    case Init => InitFrame(GP.DefaultInit())
    case Media(plain) => RelayFrame(ks, plain)
  }

  function FramesOf(ks: CS.Keystream, log: seq<Packet>): (frames: seq<Frame>)
    requires forall p | p in log :: GoodPacket(p)
    ensures |frames| == |log|
  {
    seq(|log|, i requires 0 <= i < |log| => FrameOf(ks, log[i]))
  }

  // The steps

  function TxReset(s: Usb): Usb {
    s.(queue := [], initSent := false, log := [], offered := [], acked := [], wire := [])
  }

  /** Queue the next chunk unless the endpoint is busy; `queued` is whether `usb_ep_queue` succeeds. */
  function Kick(s: Usb, queued: bool): Usb {
    if !s.bound || !s.configured || s.inBusy then s
    else
      var chunk := s.queue[..Min(|s.queue|, IN_CHUNK_SIZE)];
      if chunk == [] then s
      else if queued then s.(inBusy := true, inFlight := |chunk|, pending := StreamRequest(chunk))
      else s.(inFlight := 0)
  }

  function SendPong(s: Usb, seqNo: u32, queued: bool): Usb {
    if !s.bound || s.inBusy then s
    else if queued then s.(inBusy := true, inFlight := 0, pending := PongRequest(PongBytes(seqNo)))
    else s.(inFlight := 0)
  }

  function ResetSession(s: Usb): Usb {
    if !s.bound then s
    else TxReset(s.(resetting := false, inBusy := false, inFlight := 0, pending := NoRequest))
  }

  /** Append whole packets only: a packet that does not fit is dropped. */
  function Fits(s: Usb, n: nat): bool {
    n + |s.queue| <= RING_SIZE
  }

  function EnqueueInit(s: Usb): (r: (bool, Usb)) {
    if s.initSent then (true, s)
    else if !Fits(s, GP.INIT_SIZE) then (false, s)
    else (true, s.(queue := s.queue + GP.InitBytes(GP.DefaultInit()), initSent := true, log := s.log + [Init]))
  }

  function EnqueueMedia(ks: CS.Keystream, s: Usb, p: CS.Plain, haveMemory: bool): (r: (bool, Usb))
  {
    if (!haveMemory && p.data != []) || !Sendable(p) then (false, s)
    else
      var bytes := FrameBytes(RelayFrame(ks, p));
      if !Fits(s, |bytes|) then (false, s)
      else (true, s.(queue := s.queue + bytes, log := s.log + [Media(p)]))
  }

  function Consume(s: Usb, n: nat): Usb {
    var k := Min(n, |s.queue|);
    s.(queue := s.queue[k..], acked := s.acked + s.queue[..k])
  }

  /** The bytes a completion with status 0 has transmitted. */
  function Transmitted(bytes: seq<byte>, actual: nat): seq<byte> {
    if 0 < actual < |bytes| then bytes[..actual] else bytes
  }

  function TransferOf(r: Request, actual: nat): Transfer
    requires r != NoRequest
  {
    match r
    case PongRequest(bytes) => PongTransfer(Transmitted(bytes, actual))
    case StreamRequest(bytes) => StreamTransfer(Transmitted(bytes, actual))
  }

  function InComplete(s: Usb, ok: bool, actual: nat, queued: bool): Usb
    requires s.pending != NoRequest
  {
    var idle := s.(inBusy := false, pending := NoRequest);
    if !ok then
      if s.resetting then idle.(inFlight := 0, resetting := false)
      else ResetSession(idle.(inFlight := 0))
    else
      var seen := idle.(wire := s.wire + [TransferOf(s.pending, actual)]);
      var n := if 0 < actual < s.inFlight then actual else s.inFlight;
      Kick(if s.inFlight > 0 then Consume(seen, n).(inFlight := 0) else seen, queued)
  }

  function RetryInit(s: Usb, queued: bool): Usb {
    if !s.started || !s.configured || !s.hostReady then s
    else
      var (ok, s') := EnqueueInit(s);
      if ok then Kick(s', queued) else s'
  }

  /**
    The decrypt-and-relay part of `gateway_upstream_poll`, for one binary frame. A plaintext length is
    used only when it is a positive `int`.
   */
  function Upstream(ks: CS.Keystream, s: Usb, nonce: Option<CS.Nonce>, payload: Payload,
                    haveMemory: bool, queued: bool): Usb
  {
    if nonce.None? then s
    else
      var plain := CS.Decrypt(ks, nonce.value, payload);
      if plain.None? || ToInt32(|plain.value.data|) <= 0 then s
      else Relay(ks, s.(offered := s.offered + [plain.value]), plain.value, haveMemory, queued)
  }

  function Relay(ks: CS.Keystream, s: Usb, p: CS.Plain, haveMemory: bool, queued: bool): Usb
  {
    if !s.started || !s.configured || !s.hostReady then s
    else
      var (initOk, s1) := EnqueueInit(s);
      if !initOk then s1
      else
        var (mediaOk, s2) := EnqueueMedia(ks, s1, p, haveMemory);
        if mediaOk then Kick(s2, queued) else s2
  }

  predicate IsConfig(raw: seq<byte>) {
    |raw| >= 12 && raw[..4] == CFG1
  }

  predicate IsPing(raw: seq<byte>) {
    |raw| >= 12 && raw[..4] == PING
  }

  function OutPacket(s: Usb, raw: seq<byte>, pongQueued: bool, queued: bool): Usb {
    var s0 := s.(hostReady := true);
    if |raw| < 12 || IsConfig(raw) then s0
    else
      var s1 := if IsPing(raw) then ResetSession(s0) else s0;
      var (ok, s3) := EnqueueInit(SendPong(s1, ReadLe32(raw[4..]), pongQueued));
      if ok then Kick(s3, queued) else s3
  }

  /** Disable, disconnect and suspend. The in-flight length is left as it was. */
  function Teardown(s: Usb): Usb {
    TxReset(s.(configured := false, inBusy := false, pending := NoRequest))
  }

  datatype AltResult = Enabled | EndpointFailed | RequestFailed(inAllocated: bool)

  function SetAlt(s: Usb, result: AltResult): Usb {
    var s0 := if s.configured then Teardown(s) else s;
    match result
    case Enabled =>
      TxReset(s0.(bound := true, configured := true, inBusy := false, hostReady := false, pending := NoRequest))
    case EndpointFailed => s0
    case RequestFailed(inAllocated) => Teardown(s0.(bound := s0.bound || inAllocated))
  }

  datatype Event =
    | StartUsb
    | SelectAlt(result: AltResult)
    | TearDown
    | UpstreamFrame(nonce: Option<CS.Nonce>, payload: Payload, haveMemory: bool, queued: bool)
    | RetryInitTick(queued: bool)
    | Completion(ok: bool, actual: nat, queued: bool)
    | Out(raw: seq<byte>, pongQueued: bool, queued: bool)
    | StallWatchdog

  function Step(ks: CS.Keystream, s: Usb, e: Event): Usb {
    match e
    case StartUsb => s.(started := true)
    case SelectAlt(result) => SetAlt(s, result)
    case TearDown => Teardown(s)
    case UpstreamFrame(nonce, payload, haveMemory, queued) => Upstream(ks, s, nonce, payload, haveMemory, queued)
    case RetryInitTick(queued) => RetryInit(s, queued)
    case Completion(ok, actual, queued) =>
      if s.pending == NoRequest then s else InComplete(s, ok, actual, queued)
    case Out(raw, pongQueued, queued) => OutPacket(s, raw, pongQueued, queued)
    case StallWatchdog => if s.inBusy then ResetSession(s) else s
  }

  function Run(ks: CS.Keystream, s: Usb, events: seq<Event>): Usb
    decreases |events|
  {
    if events == [] then s else Run(ks, Step(ks, s, events[0]), events[1..])
  }

  const POWER_ON: Usb :=
    Usb(false, false, false, false, false, false, false, 0, [], NoRequest, [], [], [], [])

  // What holds in every reachable state

  predicate IsSubsequence<T(==)>(xs: seq<T>, ys: seq<T>)
    decreases |ys|
  {
    xs == [] || (ys != [] &&
                 (IsSubsequence(xs, ys[..|ys| - 1]) ||
                  (xs[|xs| - 1] == ys[|ys| - 1] && IsSubsequence(xs[..|xs| - 1], ys[..|ys| - 1]))))
  }

  /** These places of ys hold xs, in order. */
  predicate Picks(places: seq<nat>, xs: seq<CS.Plain>, ys: seq<CS.Plain>) {
    && |places| == |xs|
    && (forall i | 0 <= i < |xs| :: places[i] < |ys| && xs[i] == ys[places[i]])
    && forall i, j | 0 <= i < j < |xs| :: places[i] < places[j]
  }

  lemma {:induction false} SubsequencePicks(xs: seq<CS.Plain>, ys: seq<CS.Plain>) returns (places: seq<nat>)
    requires IsSubsequence(xs, ys)
    ensures Picks(places, xs, ys)
    decreases |ys|
  {
    if xs == [] {
      places := [];
    } else if IsSubsequence(xs, ys[..|ys| - 1]) {
      places := SubsequencePicks(xs, ys[..|ys| - 1]);
    } else {
      var front := SubsequencePicks(xs[..|xs| - 1], ys[..|ys| - 1]);
      places := front + [|ys| - 1];
    }
  }

  function MediaOf(log: seq<Packet>): seq<CS.Plain> {
    if log == [] then []
    else if log[|log| - 1].Media? then MediaOf(log[..|log| - 1]) + [log[|log| - 1].plain]
    else MediaOf(log[..|log| - 1])
  }

  /** The stream transfers among those the host received. */
  function Chunks(wire: seq<Transfer>): seq<seq<byte>> {
    if wire == [] then []
    else if wire[|wire| - 1].StreamTransfer? then Chunks(wire[..|wire| - 1]) + [wire[|wire| - 1].bytes]
    else Chunks(wire[..|wire| - 1])
  }

  /** The log is empty, or one init followed by whole media packets; the flag says which. */
  ghost predicate LogInv(s: Usb) {
    && (forall p | p in s.log :: GoodPacket(p))
    && (s.initSent <==> s.log != [])
    && (s.log != [] ==> s.log[0] == Init)
    && (forall i | 0 < i < |s.log| :: s.log[i].Media?)
  }

  /** What the in-flight fields say about the request the endpoint holds. */
  ghost predicate RequestInv(s: Usb) {
    && (s.inBusy <==> s.pending != NoRequest)
    && (s.pending.PongRequest? ==> s.inFlight == 0 && |s.pending.bytes| == PING_PACKET_SIZE)
    && (s.pending.StreamRequest? ==>
          && s.configured && s.pending.bytes <= s.queue
          && 0 < |s.pending.bytes| == s.inFlight <= IN_CHUNK_SIZE)
    && (s.pending != NoRequest ==> s.bound)
    && (s.configured ==> s.bound)
    && !s.resetting
  }

  /** Nothing accepted is lost, duplicated or reordered, and the host has received what was consumed. */
  ghost predicate ByteInv(ks: CS.Keystream, s: Usb)
    requires LogInv(s)
  {
    && s.acked + s.queue == StreamBytes(FramesOf(ks, s.log))
    && s.acked == Concat(Chunks(s.wire))
    && (forall t | t in s.wire :: t.bytes != [])
    && |s.queue| <= RING_SIZE
    && IsSubsequence(MediaOf(s.log), s.offered)
  }

  ghost predicate Inv(ks: CS.Keystream, s: Usb) {
    LogInv(s) && RequestInv(s) && ByteInv(ks, s)
  }

  // Each step keeps the invariant

  lemma KickKeepsInv(ks: CS.Keystream, s: Usb, queued: bool)
    requires Inv(ks, s)
    ensures Inv(ks, Kick(s, queued))
  {}

  lemma {:induction false} BytesAppend(acked: seq<byte>, queue: seq<byte>, frames: seq<Frame>, f: Frame, b: seq<byte>)
    requires acked + queue == StreamBytes(frames) && b == FrameBytes(f)
    ensures acked + (queue + b) == StreamBytes(frames + [f])
  {
    StreamBytesSnoc(frames, f);
    Associative(acked, queue, b);
  }

  lemma FramesOfSnoc(ks: CS.Keystream, log: seq<Packet>, p: Packet)
    requires GoodPacket(p) && forall q | q in log :: GoodPacket(q)
    ensures FramesOf(ks, log + [p]) == FramesOf(ks, log) + [FrameOf(ks, p)]
  {}

  lemma {:induction false} MediaOfSnoc(log: seq<Packet>, p: Packet)
    ensures MediaOf(log + [p]) == if p.Media? then MediaOf(log) + [p.plain] else MediaOf(log)
  {
    assert (log + [p])[..|log|] == log;
  }

  /** Appending a packet to the log and its bytes to the ring keeps the two in step. */
  lemma {:induction false} AcceptKeepsInv(ks: CS.Keystream, s: Usb, p: Packet, s': Usb, b: seq<byte>)
    requires Inv(ks, s) && GoodPacket(p)
    requires p.Init? <==> s.log == []
    requires b == FrameBytes(FrameOf(ks, p)) && |b| + |s.queue| <= RING_SIZE
    requires IsSubsequence(MediaOf(s.log + [p]), s'.offered)
    requires s' == s.(queue := s.queue + b, initSent := true, log := s.log + [p], offered := s'.offered)
    ensures Inv(ks, s')
  {
    hide FrameBytes, StreamBytes, MediaOf, IsSubsequence, Chunks;
    FramesOfSnoc(ks, s.log, p);
    BytesAppend(s.acked, s.queue, FramesOf(ks, s.log), FrameOf(ks, p), b);
    assert LogInv(s');
  }

  /** After a reset the ring is empty, so the init always fits. */
  lemma {:induction false} EnqueueInitKeepsInv(ks: CS.Keystream, s: Usb)
    requires Inv(ks, s)
    ensures EnqueueInit(s).0 && Inv(ks, EnqueueInit(s).1)
    ensures EnqueueInit(s).1.log != []
    ensures s.pending == EnqueueInit(s).1.pending && s.offered == EnqueueInit(s).1.offered
    ensures s.wire == EnqueueInit(s).1.wire && s.log <= EnqueueInit(s).1.log
  {
    if !s.initSent {
      assert FramesOf(ks, []) == [];
      assert s.queue == [];
      MediaOfSnoc(s.log, Init);
      AcceptKeepsInv(ks, s, Init, EnqueueInit(s).1, GP.InitBytes(GP.DefaultInit()));
    }
  }

  /** Adding an element to the right of the longer sequence keeps a subsequence one. */
  lemma {:induction false} SubsequenceGrows<T>(xs: seq<T>, ys: seq<T>, y: T)
    requires IsSubsequence(xs, ys)
    ensures IsSubsequence(xs, ys + [y])
    ensures IsSubsequence(xs + [y], ys + [y])
  {
    assert (ys + [y])[..|ys|] == ys;
    assert (xs + [y])[..|xs|] == xs;
  }

  lemma {:induction false} OfferKeepsInv(ks: CS.Keystream, s: Usb, p: CS.Plain)
    requires Inv(ks, s)
    ensures Inv(ks, s.(offered := s.offered + [p]))
    ensures IsSubsequence(MediaOf(s.log) + [p], s.offered + [p])
  {
    SubsequenceGrows(MediaOf(s.log), s.offered, p);
  }

  lemma {:induction false} RelayKeepsInv(ks: CS.Keystream, s: Usb, p: CS.Plain, haveMemory: bool, queued: bool)
    requires Inv(ks, s)
    ensures Inv(ks, Relay(ks, s.(offered := s.offered + [p]), p, haveMemory, queued))
  {
    hide Inv, Kick, MediaOf, IsSubsequence, FrameBytes;
    var s0 := s.(offered := s.offered + [p]);
    OfferKeepsInv(ks, s, p);
    if s0.started && s0.configured && s0.hostReady {
      EnqueueInitKeepsInv(ks, s);
      EnqueueInitKeepsInv(ks, s0);
      var u := EnqueueInit(s).1;
      var s1 := EnqueueInit(s0).1;
      OfferKeepsInv(ks, u, p);
      assert s1 == u.(offered := u.offered + [p]);
      var (mediaOk, s2) := EnqueueMedia(ks, s1, p, haveMemory);
      if mediaOk {
        MediaOfSnoc(s1.log, Media(p));
        AcceptKeepsInv(ks, s1, Media(p), s2, FrameBytes(RelayFrame(ks, p)));
        KickKeepsInv(ks, s2, queued);
      }
    }
  }

  lemma {:induction false} ResetKeepsInv(ks: CS.Keystream, s: Usb)
    requires s.bound
    ensures Inv(ks, ResetSession(s))
    ensures ResetSession(s).log == [] && ResetSession(s).wire == [] && ResetSession(s).pending == NoRequest
  {
    assert FramesOf(ks, []) == [];
  }

  lemma {:induction false} ChunksSnoc(wire: seq<Transfer>, t: Transfer)
    ensures Chunks(wire + [t]) == if t.StreamTransfer? then Chunks(wire) + [t.bytes] else Chunks(wire)
    ensures Concat(Chunks(wire + [t])) == Concat(Chunks(wire)) + if t.StreamTransfer? then t.bytes else []
  {
    assert (wire + [t])[..|wire|] == wire;
    if t.StreamTransfer? {
      ConcatSnoc(Chunks(wire), t.bytes);
    }
  }

  /** A completion moves exactly the transmitted bytes from the ring to what the host has received. */
  lemma {:induction false} ConsumeKeepsInv(ks: CS.Keystream, s: Usb, actual: nat)
    requires Inv(ks, s) && s.pending.StreamRequest?
    ensures var seen := s.(inBusy := false, pending := NoRequest, wire := s.wire + [TransferOf(s.pending, actual)]);
            var n := if 0 < actual < s.inFlight then actual else s.inFlight;
            Inv(ks, Consume(seen, n).(inFlight := 0))
  {
    var bytes := Transmitted(s.pending.bytes, actual);
    ChunksSnoc(s.wire, StreamTransfer(bytes));
    assert bytes == s.queue[..|bytes|];
    Associative(s.acked, s.queue[..|bytes|], s.queue[|bytes|..]);
    SplitAt(s.queue, |bytes|);
  }

  lemma {:induction false} PongDoneKeepsInv(ks: CS.Keystream, s: Usb, actual: nat)
    requires Inv(ks, s) && s.pending.PongRequest?
    ensures s.inFlight == 0
    ensures Inv(ks, s.(inBusy := false, pending := NoRequest, wire := s.wire + [TransferOf(s.pending, actual)]))
  {
    hide FramesOf, StreamBytes, MediaOf, IsSubsequence, Chunks, Concat, FrameBytes;
    ChunksSnoc(s.wire, TransferOf(s.pending, actual));
  }

  lemma {:induction false} CompletionKeepsInv(ks: CS.Keystream, s: Usb, ok: bool, actual: nat, queued: bool)
    requires Inv(ks, s) && s.pending != NoRequest
    ensures Inv(ks, InComplete(s, ok, actual, queued))
  {
    assert s.bound && !s.resetting && (s.pending.StreamRequest? ==> s.inFlight > 0);
    hide Inv, Kick, Consume, ResetSession, TransferOf;
    if !ok {
      ResetKeepsInv(ks, s.(inBusy := false, pending := NoRequest, inFlight := 0));
    } else {
      var seen := s.(inBusy := false, pending := NoRequest, wire := s.wire + [TransferOf(s.pending, actual)]);
      if s.pending.StreamRequest? {
        var n := if 0 < actual < s.inFlight then actual else s.inFlight;
        ConsumeKeepsInv(ks, s, actual);
        KickKeepsInv(ks, Consume(seen, n).(inFlight := 0), queued);
      } else {
        PongDoneKeepsInv(ks, s, actual);
        KickKeepsInv(ks, seen, queued);
      }
    }
  }

  lemma PongKeepsInv(ks: CS.Keystream, s: Usb, seqNo: u32, queued: bool)
    requires Inv(ks, s)
    ensures Inv(ks, SendPong(s, seqNo, queued))
  {}

  lemma {:induction false} OutKeepsInv(ks: CS.Keystream, s: Usb, raw: seq<byte>, pongQueued: bool, queued: bool)
    requires Inv(ks, s)
    ensures Inv(ks, OutPacket(s, raw, pongQueued, queued))
  {
    var s0 := s.(hostReady := true);
    if |raw| >= 12 && !IsConfig(raw) {
      if s0.bound {
        ResetKeepsInv(ks, s0);
      }
      var s1 := if IsPing(raw) then ResetSession(s0) else s0;
      PongKeepsInv(ks, s1, ReadLe32(raw[4..]), pongQueued);
      EnqueueInitKeepsInv(ks, SendPong(s1, ReadLe32(raw[4..]), pongQueued));
      KickKeepsInv(ks, EnqueueInit(SendPong(s1, ReadLe32(raw[4..]), pongQueued)).1, queued);
    }
  }

  /** An empty ring with nothing outstanding, whatever came before. */
  lemma {:induction false} TxResetKeepsInv(ks: CS.Keystream, s: Usb)
    requires RequestInv(s) && s.pending == NoRequest
    ensures Inv(ks, TxReset(s))
  {
    assert FramesOf(ks, []) == [];
  }

  lemma {:induction false} ConfigurationKeepsInv(ks: CS.Keystream, s: Usb, result: AltResult)
    requires Inv(ks, s)
    ensures Inv(ks, Teardown(s)) && Inv(ks, SetAlt(s, result))
  {
    TxResetKeepsInv(ks, s.(configured := false, inBusy := false, pending := NoRequest));
    var s0 := if s.configured then Teardown(s) else s;
    TxResetKeepsInv(ks, s0.(bound := true, configured := true, inBusy := false, hostReady := false, pending := NoRequest));
    hide LogInv, ByteInv, TxReset;
    var failed := s0.(bound := s0.bound || (result.RequestFailed? && result.inAllocated));
    TxResetKeepsInv(ks, failed.(configured := false, inBusy := false, pending := NoRequest));
  }

  lemma {:induction false} UpstreamKeepsInv(ks: CS.Keystream, s: Usb, nonce: Option<CS.Nonce>, payload: Payload,
                         haveMemory: bool, queued: bool)
    requires Inv(ks, s)
    ensures Inv(ks, Upstream(ks, s, nonce, payload, haveMemory, queued))
  {
    hide Inv, Relay, CS.Decrypt;
    if nonce.Some? {
      var plain := CS.Decrypt(ks, nonce.value, payload);
      if plain.Some? && ToInt32(|plain.value.data|) > 0 {
        RelayKeepsInv(ks, s, plain.value, haveMemory, queued);
      }
    }
  }

  lemma {:induction false} RetryInitKeepsInv(ks: CS.Keystream, s: Usb, queued: bool)
    requires Inv(ks, s)
    ensures Inv(ks, RetryInit(s, queued))
  {
    hide Inv, Kick, EnqueueInit;
    EnqueueInitKeepsInv(ks, s);
    KickKeepsInv(ks, EnqueueInit(s).1, queued);
  }

  lemma {:induction false} WatchdogKeepsInv(ks: CS.Keystream, s: Usb)
    requires Inv(ks, s) && s.inBusy
    ensures Inv(ks, ResetSession(s))
  {
    ResetKeepsInv(ks, s);
  }

  lemma {:induction false} StepKeepsInv(ks: CS.Keystream, s: Usb, e: Event)
    requires Inv(ks, s)
    ensures Inv(ks, Step(ks, s, e))
  {
    if e.StartUsb? {
      assert Inv(ks, s.(started := true));
    } else {
      hide Inv, Kick, SetAlt, Teardown, Upstream, RetryInit, InComplete, OutPacket, ResetSession;
      match e {
        case SelectAlt(result) => ConfigurationKeepsInv(ks, s, result);
        case TearDown => ConfigurationKeepsInv(ks, s, EndpointFailed);
        case UpstreamFrame(nonce, payload, haveMemory, queued) =>
          UpstreamKeepsInv(ks, s, nonce, payload, haveMemory, queued);
        case RetryInitTick(queued) => RetryInitKeepsInv(ks, s, queued);
        case Completion(ok, actual, queued) =>
          if s.pending != NoRequest {
            CompletionKeepsInv(ks, s, ok, actual, queued);
          }
        case Out(raw, pongQueued, queued) => OutKeepsInv(ks, s, raw, pongQueued, queued);
        case StallWatchdog =>
          if s.inBusy {
            WatchdogKeepsInv(ks, s);
          }
      }
    }
  }

  lemma {:induction false} RunKeepsInv(ks: CS.Keystream, s: Usb, events: seq<Event>)
    requires Inv(ks, s)
    ensures Inv(ks, Run(ks, s, events))
    decreases |events|
  {
    if events != [] {
      StepKeepsInv(ks, s, events[0]);
      RunKeepsInv(ks, Step(ks, s, events[0]), events[1..]);
    }
  }

  /** Every state reached from power-on satisfies the invariant, whatever the events. */
  lemma {:induction false} EveryReachableState(ks: CS.Keystream, events: seq<Event>)
    ensures Inv(ks, Run(ks, POWER_ON, events))
  {
    assert FramesOf(ks, []) == [];
    RunKeepsInv(ks, POWER_ON, events);
  }
}
