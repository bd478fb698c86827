/**
  The USB session gets on: what is offered and fits is accepted, what is accepted is on its way to the host
  as soon as the endpoint is free, and completions bring all of it there.
 */
module UsbProgress {
  import opened Bytes
  import opened Frames
  import opened UsbProtocol
  import opened UsbRuns
  import GP = GatewayProto
  import CS = CryptoStream

  // Packets are accepted

  /** The relay passes packets on: USB is up, the device is configured, and the host has been heard. */
  predicate Ready(s: Usb) {
    s.started && s.configured && s.hostReady
  }

  /** The packet that a binary frame from upstream brings to the relay. */
  function Brought(ks: CS.Keystream, e: Event): Option<CS.Plain>
    requires e.UpstreamFrame?
  {
    if e.nonce.None? then None
    else
      var plain := CS.Decrypt(ks, e.nonce.value, e.payload);
      if plain.Some? && 0 < |plain.value.data| < 0x8000_0000 then plain else None
  }

  /** Header and re-encrypted payload, behind an init when none has been sent, find room in the ring. */
  predicate HasRoom(s: Usb, p: CS.Plain) {
    |s.queue| + (if s.initSent then 0 else GP.INIT_SIZE)
    + GP.PACKET_HEADER_SIZE + CS.HEADER_SIZE + |p.data| <= RING_SIZE
  }

  lemma {:induction false} RelayFrameSize(ks: CS.Keystream, p: CS.Plain)
    requires p.data != [] && Sendable(p)
    ensures |FrameBytes(RelayFrame(ks, p))| == GP.PACKET_HEADER_SIZE + CS.HEADER_SIZE + |p.data|
  {
    hide GP.MediaHeaderBytes, CS.Encrypt;
  }

  lemma {:induction false} PositiveInt(n: nat)
    requires n < TWO_TO_32
    ensures ToInt32(n) > 0 <==> 0 < n < 0x8000_0000
  {}

  lemma InitFits(ks: CS.Keystream, s: Usb)
    requires Inv(ks, s)
    ensures !s.initSent ==> s.log == [] && s.queue == []
  {
    assert FramesOf(ks, []) == [];
  }

  /**
    What one binary frame does to the log of a session that is ready: the init goes first if it is not there
    yet, and then exactly the packet brought, if there is memory and room for it.
   */
  lemma {:induction false} UpstreamAccepted(ks: CS.Keystream, s: Usb, e: Event)
    requires Inv(ks, s) && Ready(s) && e.UpstreamFrame?
    ensures match Brought(ks, e)
            case None => Step(ks, s, e) == s
            case Some(p) =>
              var log := if s.initSent then s.log else [Init];
              && Step(ks, s, e).log == log + (if e.haveMemory && HasRoom(s, p) then [Media(p)] else [])
              && Step(ks, s, e).offered == s.offered + [p]
  {
    hide CS.Decrypt, ToInt32, FrameBytes, RelayFrame;
    InitFits(ks, s);
    if e.nonce.Some? && CS.Decrypt(ks, e.nonce.value, e.payload).Some? {
      var p := CS.Decrypt(ks, e.nonce.value, e.payload).value;
      DecryptedSize(ks, e.nonce.value, e.payload);
      PositiveInt(|p.data|);
      if Brought(ks, e) == Some(p) {
        RelayAccepts(ks, s.(offered := s.offered + [p]), p, e.haveMemory, e.queued);
      }
    }
  }

  lemma DecryptedSize(ks: CS.Keystream, nonce: CS.Nonce, payload: Payload)
    requires CS.Decrypt(ks, nonce, payload).Some?
    ensures |CS.Decrypt(ks, nonce, payload).value.data| == |payload| - CS.HEADER_SIZE
  {}

  lemma {:induction false} MediaAccepted(ks: CS.Keystream, s: Usb, p: CS.Plain, haveMemory: bool)
    requires s.initSent && p.data != []
    ensures EnqueueMedia(ks, s, p, haveMemory).0 <==> haveMemory && HasRoom(s, p)
    ensures EnqueueMedia(ks, s, p, haveMemory).1.log == s.log + if haveMemory && HasRoom(s, p) then [Media(p)] else []
    ensures EnqueueMedia(ks, s, p, haveMemory).1.offered == s.offered
  {
    hide FrameBytes, RelayFrame;
    if Sendable(p) {
      RelayFrameSize(ks, p);
    }
  }

  lemma {:induction false} InitAccepted(s: Usb)
    requires !s.initSent ==> s.log == [] && s.queue == []
    ensures var (ok, s1) := EnqueueInit(s);
            && ok && s1.initSent && s1.log == (if s.initSent then s.log else [Init])
            && |s1.queue| == |s.queue| + (if s.initSent then 0 else GP.INIT_SIZE)
            && s1.configured == s.configured && s1.bound == s.bound && s1.offered == s.offered
            && s1.pending == s.pending && s1.inBusy == s.inBusy && (s.initSent ==> s1 == s)
  {
    hide GP.InitBytes;
  }

  lemma {:induction false} RelayAccepts(ks: CS.Keystream, s: Usb, p: CS.Plain, haveMemory: bool, queued: bool)
    requires Ready(s) && 0 < |p.data| < 0x8000_0000 && (!s.initSent ==> s.log == [] && s.queue == [])
    ensures var log := if s.initSent then s.log else [Init];
            Relay(ks, s, p, haveMemory, queued).log == log + if haveMemory && HasRoom(s, p) then [Media(p)] else []
    ensures Relay(ks, s, p, haveMemory, queued).offered == s.offered
  {
    hide EnqueueInit, EnqueueMedia, Kick;
    InitAccepted(s);
    var s1 := EnqueueInit(s).1;
    MediaAccepted(ks, s1, p, haveMemory);
    KickKeepsLog(EnqueueMedia(ks, s1, p, haveMemory).1, queued);
  }

  lemma KickKeepsLog(s: Usb, queued: bool)
    ensures Kick(s, queued).log == s.log && Kick(s, queued).offered == s.offered
  {}

  /** A packet as the sender encrypts it is brought. */
  lemma {:induction false} EncryptedIsBrought(
      ks: CS.Keystream, nonce: CS.Nonce, p: CS.Plain, haveMemory: bool, queued: bool)
    requires p.data != [] && Sendable(p)
    ensures Brought(ks, UpstreamFrame(Some(nonce), CS.Encrypt(ks, nonce, p), haveMemory, queued)) == Some(p)
  {
    CS.DecryptEncrypt(ks, nonce, p);
  }

  /** Starting USB, a configuration and any packet from the host make a session ready, whatever came before. */
  lemma {:induction false} ComesUp(ks: CS.Keystream, s: Usb, raw: seq<byte>, pongQueued: bool, queued: bool)
    ensures var s' := Step(ks, Step(ks, Step(ks, s, StartUsb), SelectAlt(Enabled)), Out(raw, pongQueued, queued));
            Ready(s') && s'.bound
  {
    hide Kick, FrameBytes, PongBytes, GP.InitBytes, IsConfig, IsPing, ReadLe32;
    var s2 := Step(ks, Step(ks, s, StartUsb), SelectAlt(Enabled));
    assert s2.started && s2.configured && s2.bound;
    OutKeepsUp(s2, raw, pongQueued, queued);
  }

  ghost predicate SameUp(s: Usb, s': Usb) {
    s'.started == s.started && s'.configured == s.configured && s'.bound == s.bound && s'.hostReady == s.hostReady
  }

  lemma {:induction false} PartsKeepUp(s: Usb, seqNo: u32, queued: bool)
    ensures SameUp(s, ResetSession(s)) && SameUp(s, SendPong(s, seqNo, queued))
    ensures SameUp(s, EnqueueInit(s).1) && SameUp(s, Kick(s, queued))
  {
    hide PongBytes, GP.InitBytes, Min;
  }

  lemma {:induction false} OutKeepsUp(s: Usb, raw: seq<byte>, pongQueued: bool, queued: bool)
    ensures SameUp(s.(hostReady := true), OutPacket(s, raw, pongQueued, queued))
  {
    hide ResetSession, SendPong, EnqueueInit, Kick, IsConfig, IsPing, ReadLe32;
    if |raw| >= 12 && !IsConfig(raw) {
      var s0 := s.(hostReady := true);
      PartsKeepUp(s0, 0, true);
      var s1 := if IsPing(raw) then ResetSession(s0) else s0;
      var seqNo := ReadLe32(raw[4..]);
      PartsKeepUp(s1, seqNo, pongQueued);
      var s2 := SendPong(s1, seqNo, pongQueued);
      PartsKeepUp(s2, 0, true);
      PartsKeepUp(EnqueueInit(s2).1, 0, queued);
    }
  }

  /** And it stays ready until the device is torn down or configured anew. */
  lemma {:induction false} StaysReady(ks: CS.Keystream, s: Usb, e: Event)
    requires Inv(ks, s) && Ready(s) && !e.TearDown? && !e.SelectAlt?
    ensures Ready(Step(ks, s, e))
  {
    hide LogInv, ByteInv, FrameBytes, RelayFrame, PongBytes, GP.InitBytes, CS.Decrypt, ToInt32, TransferOf, IsConfig, IsPing, ReadLe32;
    assert s.bound;
    match e {
      case Out(raw, pongQueued, queued) => OutKeepsUp(s, raw, pongQueued, queued);
      case UpstreamFrame(nonce, payload, haveMemory, queued) =>
      case _ =>
    }
  }

  // Nothing lies in the ring while the endpoint is free

  /** On a configured device a ring that holds anything has a request outstanding. */
  predicate Flowing(s: Usb) {
    s.configured && s.queue != [] ==> s.pending != NoRequest
  }

  /** Whatever the event queues from the ring on the IN endpoint, `usb_ep_queue` takes. */
  predicate EndpointTakes(e: Event) {
    match e
    case UpstreamFrame(_, _, _, queued) => queued
    case RetryInitTick(queued) => queued
    case Completion(_, _, queued) => queued
    case Out(_, _, queued) => queued
    case _ => true
  }

  /**
    The one way to leave bytes lying: the init is put into an empty ring for a packet that is then dropped, and
    `gateway_usb_enqueue_media_packet` fails before the kick.
   */
  predicate StrandsInit(ks: CS.Keystream, s: Usb, e: Event) {
    && e.UpstreamFrame? && Ready(s) && !s.initSent && s.pending == NoRequest
    && Brought(ks, e).Some? && !(e.haveMemory && HasRoom(s, Brought(ks, e).value))
  }

  /** A kick on a free endpoint sends the oldest bytes, as many as one request takes. */
  lemma KickFlows(s: Usb)
    requires (s.inBusy <==> s.pending != NoRequest) && (s.configured ==> s.bound)
    ensures Flowing(Kick(s, true))
    ensures s.configured && s.pending == NoRequest && s.queue != [] ==>
              Kick(s, true).pending == StreamRequest(s.queue[..Min(|s.queue|, IN_CHUNK_SIZE)])
  {}

  lemma {:induction false} MediaKeepsRequest(ks: CS.Keystream, s: Usb, p: CS.Plain, haveMemory: bool)
    ensures var (ok, s') := EnqueueMedia(ks, s, p, haveMemory);
            && s'.configured == s.configured && s'.bound == s.bound
            && s'.pending == s.pending && s'.inBusy == s.inBusy && (!ok ==> s' == s)
  {
    hide FrameBytes, RelayFrame;
  }

  lemma {:induction false} RelayFlows(ks: CS.Keystream, s: Usb, p: CS.Plain, haveMemory: bool)
    requires Inv(ks, s) && Flowing(s) && Ready(s) && 0 < |p.data| < 0x8000_0000
    ensures Flowing(Relay(ks, s, p, haveMemory, true)) <==>
            s.initSent || s.pending != NoRequest || (haveMemory && HasRoom(s, p))
  {
    hide Kick, EnqueueInit, EnqueueMedia, ByteInv, LogInv;
    InitFits(ks, s);
    InitAccepted(s);
    var s1 := EnqueueInit(s).1;
    MediaAccepted(ks, s1, p, haveMemory);
    MediaKeepsRequest(ks, s1, p, haveMemory);
    KickFlows(EnqueueMedia(ks, s1, p, haveMemory).1);
    assert HasRoom(s1, p) <==> HasRoom(s, p);
  }

  lemma {:induction false} UpstreamFlows(ks: CS.Keystream, s: Usb, e: Event)
    requires Inv(ks, s) && Flowing(s) && e.UpstreamFrame? && e.queued
    ensures Flowing(Step(ks, s, e)) <==> !StrandsInit(ks, s, e)
  {
    hide CS.Decrypt, ToInt32, Relay, Inv;
    if e.nonce.Some? && CS.Decrypt(ks, e.nonce.value, e.payload).Some? {
      var p := CS.Decrypt(ks, e.nonce.value, e.payload).value;
      DecryptedSize(ks, e.nonce.value, e.payload);
      PositiveInt(|p.data|);
      if Brought(ks, e) == Some(p) {
        var s0 := s.(offered := s.offered + [p]);
        OfferKeepsInv(ks, s, p);
        if Ready(s) {
          RelayFlows(ks, s0, p, e.haveMemory);
        } else {
          assert Relay(ks, s0, p, e.haveMemory, true) == s0 by {
            NotReady(ks, s0, p, e.haveMemory);
          }
        }
      }
    }
  }

  lemma NotReady(ks: CS.Keystream, s: Usb, p: CS.Plain, haveMemory: bool)
    requires !Ready(s)
    ensures Relay(ks, s, p, haveMemory, true) == s
  {}

  lemma {:induction false} RetryFlows(ks: CS.Keystream, s: Usb)
    requires Inv(ks, s)
    ensures Flowing(s) || Ready(s) ==> Flowing(RetryInit(s, true))
  {
    hide Kick, EnqueueInit, ByteInv, LogInv;
    InitFits(ks, s);
    InitAccepted(s);
    KickFlows(EnqueueInit(s).1);
  }

  lemma {:induction false} CompletionFlows(ks: CS.Keystream, s: Usb, ok: bool, actual: nat)
    requires Inv(ks, s) && s.pending != NoRequest
    ensures Flowing(InComplete(s, ok, actual, true))
  {
    hide Kick, ByteInv, LogInv, TransferOf;
    var seen := s.(inBusy := false, pending := NoRequest, wire := s.wire + [TransferOf(s.pending, actual)]);
    var n := if 0 < actual < s.inFlight then actual else s.inFlight;
    KickFlows(if s.inFlight > 0 then Consume(seen, n).(inFlight := 0) else seen);
  }

  lemma {:induction false} OutFlows(ks: CS.Keystream, s: Usb, raw: seq<byte>, pongQueued: bool)
    requires Inv(ks, s) && Flowing(s)
    ensures Flowing(OutPacket(s, raw, pongQueued, true))
  {
    hide Kick, EnqueueInit, SendPong, ResetSession, IsConfig, IsPing, ReadLe32;
    if |raw| >= 12 && !IsConfig(raw) {
      var s0 := s.(hostReady := true);
      var s1 := if IsPing(raw) then ResetSession(s0) else s0;
      if s0.bound {
        ResetKeepsInv(ks, s0);
      } else {
        Unbound(s0);
      }
      var seqNo := ReadLe32(raw[4..]);
      PongKeepsInv(ks, s1, seqNo, pongQueued);
      var s2 := SendPong(s1, seqNo, pongQueued);
      InitFits(ks, s2);
      InitAccepted(s2);
      KickFlows(EnqueueInit(s2).1);
    }
  }

  lemma Unbound(s: Usb)
    requires !s.bound
    ensures ResetSession(s) == s
  {}

  lemma {:induction false} ResetFlows(ks: CS.Keystream, s: Usb, result: AltResult)
    requires Inv(ks, s) && Flowing(s)
    ensures Flowing(Teardown(s)) && Flowing(SetAlt(s, result)) && (s.inBusy ==> Flowing(ResetSession(s)))
  {
    hide ByteInv, LogInv;
  }

  /**
    As long as the endpoint takes what it is given, every event leaves the session flowing, except one that
    strands an init; and a request that is new holds the oldest bytes, as many as one request takes.
   */
  lemma {:induction false} StepFlows(ks: CS.Keystream, s: Usb, e: Event)
    requires Inv(ks, s) && Flowing(s) && EndpointTakes(e)
    ensures Flowing(Step(ks, s, e)) <==> !StrandsInit(ks, s, e)
    ensures var s' := Step(ks, s, e);
            s'.pending.StreamRequest? ==>
              || (s'.pending == s.pending && s'.acked == s.acked)
              || s'.pending.bytes == s'.queue[..Min(|s'.queue|, IN_CHUNK_SIZE)]
  {
    hide Inv, Kick, Upstream, RetryInit, InComplete, OutPacket, SetAlt, Teardown, ResetSession, Min;
    StepKeepsOrCuts(ks, s, e);
    match e {
      case UpstreamFrame(_, _, _, _) => UpstreamFlows(ks, s, e);
      case RetryInitTick(_) => RetryFlows(ks, s);
      case Completion(ok, actual, _) =>
        if s.pending != NoRequest {
          CompletionFlows(ks, s, ok, actual);
        }
      case Out(raw, pongQueued, _) => OutFlows(ks, s, raw, pongQueued);
      case SelectAlt(result) => ResetFlows(ks, s, result);
      case _ => ResetFlows(ks, s, EndpointFailed);
    }
  }

  /** And a retry tick puts the init that is missing into the ring, and sends what lies there, from any reachable state. */
  lemma {:induction false} TickFlows(ks: CS.Keystream, s: Usb)
    requires Inv(ks, s) && Ready(s)
    ensures Flowing(Step(ks, s, RetryInitTick(true)))
    ensures Step(ks, s, RetryInitTick(true)).log == if s.initSent then s.log else [Init]
  {
    hide Kick, EnqueueInit, ByteInv, LogInv, Flowing;
    RetryFlows(ks, s);
    InitFits(ks, s);
    InitAccepted(s);
    KickKeepsLog(EnqueueInit(s).1, true);
  }

  // What ends a stream, and what answers the host

  /** Nothing of a stream is left: an empty ring, no request, no history. */
  predicate Blank(s: Usb) {
    && s.queue == [] && s.pending == NoRequest && !s.inBusy && !s.initSent
    && s.log == [] && s.offered == [] && s.acked == [] && s.wire == []
  }

  /**
    Teardown, a configuration that succeeds, a request that fails and the stall watchdog end the stream at once;
    only a configuration that succeeds leaves the device configured, and then the host has to be heard anew.
   */
  lemma {:induction false} StartsOver(ks: CS.Keystream, s: Usb, actual: nat, queued: bool, result: AltResult)
    requires Inv(ks, s)
    ensures Blank(Step(ks, s, TearDown)) && !Step(ks, s, TearDown).configured
    ensures var s' := Step(ks, s, SelectAlt(result));
            && (s'.configured <==> result == Enabled)
            && (result == Enabled ==> Blank(s') && s'.bound && !s'.hostReady)
            && (result != Enabled && s.configured ==> Blank(s'))
            && (result.RequestFailed? ==> Blank(s') && (s'.bound <==> s.bound || result.inAllocated))
    ensures s.pending != NoRequest ==> Blank(Step(ks, s, Completion(false, actual, queued)))
    ensures s.pending != NoRequest ==> Blank(Step(ks, s, StallWatchdog))
    ensures s.pending == NoRequest ==> Step(ks, s, StallWatchdog) == s
  {
    hide ByteInv, LogInv;
  }

  /**
    Any packet from the host of at least twelve bytes that is no configuration is answered with a PONG of its
    number when the endpoint is free; and a PING frees it.
   */
  lemma {:induction false} PacketAnswered(ks: CS.Keystream, s: Usb, raw: seq<byte>, queued: bool)
    requires Inv(ks, s) && s.bound && |raw| >= 12 && !IsConfig(raw) && (IsPing(raw) || s.pending == NoRequest)
    ensures var s' := Step(ks, s, Out(raw, true, queued));
            && s'.pending == PongRequest(PongBytes(ReadLe32(raw[4..]))) && s'.hostReady
            && s'.log == if IsPing(raw) || s.log == [] then [Init] else s.log
  {
    hide Inv, SendPong, EnqueueInit, Kick, ResetSession, IsConfig, IsPing, ReadLe32, PongBytes, GP.InitBytes;
    var s0 := s.(hostReady := true);
    HostReadyKeepsInv(ks, s);
    ResetKeepsInv(ks, s0);
    ResetKeepsReady(s0);
    AnswerGoesOut(ks, if IsPing(raw) then ResetSession(s0) else s0, ReadLe32(raw[4..]), queued);
    assert Step(ks, s, Out(raw, true, queued)) == OutPacket(s, raw, true, queued);
  }

  lemma {:induction false} AnswerGoesOut(ks: CS.Keystream, s: Usb, seqNo: u32, queued: bool)
    requires Inv(ks, s) && s.bound && s.pending == NoRequest
    ensures var (ok, s') := EnqueueInit(SendPong(s, seqNo, true));
            && ok && Kick(s', queued) == s' && s'.pending == PongRequest(PongBytes(seqNo))
            && s'.hostReady == s.hostReady && s'.log == if s.log == [] then [Init] else s.log
  {
    hide PongBytes, GP.InitBytes, ByteInv, Min;
    PongKeepsInv(ks, s, seqNo, true);
    var s1 := SendPong(s, seqNo, true);
    InitFits(ks, s1);
    InitAccepted(s1);
    hide Kick;
    KickBusy(EnqueueInit(s1).1, queued);
  }

  lemma ResetKeepsReady(s: Usb)
    ensures ResetSession(s).bound == s.bound && ResetSession(s).hostReady == s.hostReady
  {}

  lemma HostReadyKeepsInv(ks: CS.Keystream, s: Usb)
    requires Inv(ks, s)
    ensures Inv(ks, s.(hostReady := true))
  {}

  lemma KickBusy(s: Usb, queued: bool)
    requires s.inBusy
    ensures Kick(s, queued) == s
  {}

  // Draining

  /** Completions without error; each reports one of these numbers. */
  function Completions(actuals: seq<nat>): (events: seq<Event>)
    ensures |events| == |actuals| && forall e | e in events :: e.Completion? && Quiet(e) && EndpointTakes(e)
  {
    seq(|actuals|, i requires 0 <= i < |actuals| => Completion(true, actuals[i], true))
  }

  /** What is left to transmit: the bytes in the ring, and a PONG. */
  function Left(s: Usb): nat {
    |s.queue| + if s.pending.PongRequest? then 1 else 0
  }

  /** Requests until nothing is left, when each is transmitted whole. */
  function Requests(s: Usb): nat {
    match s.pending
    case NoRequest => 0
    case PongRequest(_) => 1 + (|s.queue| + IN_CHUNK_SIZE - 1) / IN_CHUNK_SIZE
    case StreamRequest(b) =>
      if |b| <= |s.queue| then 1 + (|s.queue| - |b| + IN_CHUNK_SIZE - 1) / IN_CHUNK_SIZE else 0
  }

  /** What a completion leaves: the bytes it transmitted are gone, and the next request is out if there are more. */
  ghost predicate Completed(s: Usb, s': Usb, actual: nat) {
    var n := if s.pending.StreamRequest? then |Transmitted(s.pending.bytes, actual)| else 0;
    && n <= |s.queue| && s'.queue == s.queue[n..] && s'.log == s.log && s'.configured
    && s'.pending == if s'.queue == [] then NoRequest else StreamRequest(s'.queue[..Min(|s'.queue|, IN_CHUNK_SIZE)])
  }

  lemma {:induction false} KickAfter(u: Usb)
    requires u.bound && u.configured && !u.inBusy && u.pending == NoRequest
    ensures var s' := Kick(u, true);
            && s'.queue == u.queue && s'.log == u.log && s'.configured
            && s'.pending == if u.queue == [] then NoRequest else StreamRequest(u.queue[..Min(|u.queue|, IN_CHUNK_SIZE)])
  {}

  lemma {:induction false} CompletionLeaves(ks: CS.Keystream, s: Usb, actual: nat)
    requires Inv(ks, s) && s.configured && s.pending != NoRequest
    ensures Completed(s, Step(ks, s, Completion(true, actual, true)), actual)
  {
    hide ByteInv, LogInv, TransferOf, Kick;
    var seen := s.(inBusy := false, pending := NoRequest, wire := s.wire + [TransferOf(s.pending, actual)]);
    var n := if 0 < actual < s.inFlight then actual else s.inFlight;
    KickAfter(if s.inFlight > 0 then Consume(seen, n).(inFlight := 0) else seen);
  }

  lemma {:induction false} FewerLeft(s: Usb, s': Usb, actual: nat)
    requires RequestInv(s) && s.pending != NoRequest && Completed(s, s', actual)
    ensures Flowing(s') && Left(s') < Left(s)
    ensures actual == 0 ==> Requests(s') == Requests(s) - 1
  {
    CutSize(|s'.queue|);
  }

  lemma {:induction false} OneCompletion(ks: CS.Keystream, s: Usb, actual: nat)
    requires Inv(ks, s) && s.configured && Flowing(s)
    ensures var s' := Step(ks, s, Completion(true, actual, true));
            && Inv(ks, s') && s'.configured && Flowing(s') && s'.log == s.log
            && (s.pending == NoRequest ==> s' == s && s.queue == [])
            && (s.pending != NoRequest ==> Left(s') < Left(s))
            && (s.pending != NoRequest && actual == 0 ==> Requests(s') == Requests(s) - 1)
  {
    hide LogInv, ByteInv, InComplete, Left, Requests;
    StepKeepsInv(ks, s, Completion(true, actual, true));
    if s.pending != NoRequest {
      CompletionLeaves(ks, s, actual);
      FewerLeft(s, Step(ks, s, Completion(true, actual, true)), actual);
    }
  }

  lemma CutSize(n: nat)
    ensures n > 0 ==> (n + IN_CHUNK_SIZE - 1) / IN_CHUNK_SIZE == 1 + (n - Min(n, IN_CHUNK_SIZE) + IN_CHUNK_SIZE - 1) / IN_CHUNK_SIZE
  {}

  /** Everything accepted has reached the host, and nothing else. */
  ghost predicate Drained(ks: CS.Keystream, s: Usb) {
    && Inv(ks, s) && s.pending == NoRequest && s.queue == []
    && Concat(Chunks(s.wire)) == StreamBytes(FramesOf(ks, s.log))
  }

  lemma DrainedHere(ks: CS.Keystream, s: Usb)
    requires Inv(ks, s) && s.configured && Flowing(s) && s.pending == NoRequest
    ensures Drained(ks, s)
  {}

  /** However little each completion reports, there is an end: as many completions as there are bytes suffice. */
  lemma {:induction false} DrainsAnyway(ks: CS.Keystream, s: Usb, actuals: seq<nat>)
    requires Inv(ks, s) && s.configured && Flowing(s) && |actuals| >= Left(s)
    ensures var s' := Run(ks, s, Completions(actuals)); Drained(ks, s') && s'.log == s.log
    decreases |actuals|
  {
    hide Inv, Step, Drained;
    if |actuals| == 0 {
      NothingLeft(ks, s);
      DrainedHere(ks, s);
    } else {
      OneCompletion(ks, s, actuals[0]);
      var s1 := Step(ks, s, Completion(true, actuals[0], true));
      assert Completions(actuals)[1..] == Completions(actuals[1..]);
      DrainsAnyway(ks, s1, actuals[1..]);
    }
  }

  lemma NothingLeft(ks: CS.Keystream, s: Usb)
    requires Inv(ks, s) && Left(s) == 0
    ensures s.pending == NoRequest
  {}

  /** When every request is transmitted whole, the ring is drained after exactly `Requests` completions, not before. */
  lemma {:induction false} DrainsExactly(ks: CS.Keystream, s: Usb, n: nat)
    requires Inv(ks, s) && s.configured && Flowing(s)
    ensures var s' := Run(ks, s, Completions(seq(n, _ => 0)));
            && s'.log == s.log
            && (s'.pending == NoRequest <==> n >= Requests(s))
            && (n >= Requests(s) ==> Drained(ks, s'))
    decreases n
  {
    hide Inv, Step, Drained, Flowing;
    if s.pending == NoRequest || n == 0 {
      IdleWhen(ks, s);
      IdleStays(ks, s, Completions(seq(n, _ => 0)));
      if s.pending == NoRequest {
        DrainedHere(ks, s);
      }
    } else {
      OneCompletion(ks, s, 0);
      var zeros := seq(n, _ => 0);
      assert Completions(zeros)[1..] == Completions(seq(n - 1, _ => 0));
      DrainsExactly(ks, Step(ks, s, Completion(true, 0, true)), n - 1);
    }
  }

  lemma IdleWhen(ks: CS.Keystream, s: Usb)
    requires Inv(ks, s)
    ensures Requests(s) == 0 <==> s.pending == NoRequest
  {}

  lemma {:induction false} IdleStays(ks: CS.Keystream, s: Usb, events: seq<Event>)
    requires forall e | e in events :: e.Completion?
    ensures s.pending == NoRequest || events == [] ==> Run(ks, s, events) == s
    decreases |events|
  {
    if events != [] {
      assert events[0].Completion?;
      IdleStays(ks, s, events[1..]);
    }
  }

  // A whole session

  lemma {:induction false} RelayKeepsUp(ks: CS.Keystream, s: Usb, p: CS.Plain, haveMemory: bool, queued: bool)
    ensures Relay(ks, s, p, haveMemory, queued).configured == s.configured
  {
    hide EnqueueInit, EnqueueMedia, Kick;
    PartsKeepUp(s, 0, true);
    var s1 := EnqueueInit(s).1;
    MediaKeepsRequest(ks, s1, p, haveMemory);
    PartsKeepUp(EnqueueMedia(ks, s1, p, haveMemory).1, 0, queued);
  }

  lemma {:induction false} RetryKeepsUp(s: Usb, queued: bool)
    ensures RetryInit(s, queued).configured == s.configured
  {
    hide EnqueueInit, Kick;
    PartsKeepUp(s, 0, true);
    PartsKeepUp(EnqueueInit(s).1, 0, queued);
  }

  lemma {:induction false} QuietKeepsUp(ks: CS.Keystream, s: Usb, e: Event)
    requires Quiet(e)
    ensures Step(ks, s, e).configured == s.configured
  {
    hide Upstream, RetryInit, InComplete, OutPacket, SetAlt, Teardown, ResetSession;
    match e {
      case UpstreamFrame(nonce, payload, haveMemory, queued) =>
        UpstreamKeepsUp(ks, s, nonce, payload, haveMemory, queued);
      case RetryInitTick(queued) => RetryKeepsUp(s, queued);
      case Completion(_, actual, queued) =>
        if s.pending != NoRequest {
          CompletionKeepsUp(s, actual, queued);
        }
      case Out(raw, pongQueued, queued) => OutKeepsUp(s, raw, pongQueued, queued);
      case _ =>
    }
  }

  lemma {:induction false} UpstreamKeepsUp(
      ks: CS.Keystream, s: Usb, nonce: Option<CS.Nonce>, payload: Payload, haveMemory: bool, queued: bool)
    ensures Upstream(ks, s, nonce, payload, haveMemory, queued).configured == s.configured
  {
    hide CS.Decrypt, ToInt32, Relay;
    if nonce.Some? && CS.Decrypt(ks, nonce.value, payload).Some? {
      var p := CS.Decrypt(ks, nonce.value, payload).value;
      RelayKeepsUp(ks, s.(offered := s.offered + [p]), p, haveMemory, queued);
    }
  }

  lemma ConsumeKeepsUp(s: Usb, n: nat)
    ensures Consume(s, n).configured == s.configured
  {}

  lemma {:induction false} CompletionKeepsUp(s: Usb, actual: nat, queued: bool)
    requires s.pending != NoRequest
    ensures InComplete(s, true, actual, queued).configured == s.configured
  {
    hide Kick, TransferOf, Consume, ResetSession;
    var seen := s.(inBusy := false, pending := NoRequest, wire := s.wire + [TransferOf(s.pending, actual)]);
    var n := if 0 < actual < s.inFlight then actual else s.inFlight;
    ConsumeKeepsUp(seen, n);
    PartsKeepUp(if s.inFlight > 0 then Consume(seen, n).(inFlight := 0) else seen, 0, queued);
  }

  /** While nothing resets a session that has its init, it goes on flowing. */
  lemma {:induction false} QuietFlows(ks: CS.Keystream, s: Usb, events: seq<Event>)
    requires Inv(ks, s) && s.configured && Flowing(s) && s.log != []
    requires forall e | e in events :: Quiet(e) && EndpointTakes(e)
    ensures var s' := Run(ks, s, events);
            Inv(ks, s') && s'.configured && Flowing(s') && s.log <= s'.log
    decreases |events|
  {
    hide Step, RequestInv, ByteInv, Flowing, Quiet, EndpointTakes;
    if events != [] {
      var e := events[0];
      assert Quiet(e) && EndpointTakes(e) by {
        assert e in events;
      }
      StepKeepsInv(ks, s, e);
      StepFlows(ks, s, e);
      QuietKeepsUp(ks, s, e);
      QuietRun(ks, s, [e], 0);
      assert Run(ks, s, [e]) == Step(ks, s, e) by {
        assert [e][1..] == [];
      }
      QuietFlows(ks, Step(ks, s, e), events[1..]);
    }
  }

  lemma {:induction false} RunAppend(ks: CS.Keystream, s: Usb, xs: seq<Event>, ys: seq<Event>)
    ensures Run(ks, s, xs + ys) == Run(ks, Run(ks, s, xs), ys)
    decreases |xs|
  {
    hide Step;
    if xs == [] {
      assert xs + ys == ys;
    } else {
      assert (xs + ys)[0] == xs[0] && (xs + ys)[1..] == xs[1..] + ys;
      RunAppend(ks, Step(ks, s, xs[0]), xs[1..], ys);
    }
  }

  /** A PING that is answered starts a session that flows. */
  lemma {:induction false} PingFlows(ks: CS.Keystream, s: Usb, raw: seq<byte>)
    requires Inv(ks, s) && s.bound && s.configured && IsPing(raw)
    ensures var s0 := Step(ks, s, Out(raw, true, true));
            Inv(ks, s0) && s0.configured && Flowing(s0) && s0.log == [Init] && PongFirst(s0, ReadLe32(raw[4..])) && s0.wire == []
  {
    hide Inv, Step, PongFirst;
    PingBegins(ks, s, raw, true, true);
    PingState(ks, s, raw);
  }

  lemma {:induction false} PingState(ks: CS.Keystream, s: Usb, raw: seq<byte>)
    requires Inv(ks, s) && s.bound && s.configured && IsPing(raw)
    ensures var s0 := Step(ks, s, Out(raw, true, true)); s0.configured && Flowing(s0)
  {
    hide Step, OutPacket, Inv, PongBytes, ReadLe32;
    PingNotConfig(raw);
    hide IsConfig;
    PacketAnswered(ks, s, raw, true);
    OutStep(ks, s, raw);
    OutKeepsUp(s, raw, true, true);
  }

  lemma PingNotConfig(raw: seq<byte>)
    requires IsPing(raw)
    ensures !IsConfig(raw)
  {}

  lemma {:induction false} OutStep(ks: CS.Keystream, s: Usb, raw: seq<byte>)
    ensures Step(ks, s, Out(raw, true, true)) == OutPacket(s, raw, true, true)
  {
    hide OutPacket, Upstream, RetryInit, InComplete, SetAlt, Teardown, ResetSession;
  }

  /** And once the device goes on completing requests, all of it has reached the host: the PONG, and every packet accepted. */
  lemma {:induction false} SessionDrains(ks: CS.Keystream, s: Usb, raw: seq<byte>, events: seq<Event>, actuals: seq<nat>)
    requires Inv(ks, s) && s.bound && s.configured && IsPing(raw)
    requires forall e | e in events :: Quiet(e) && EndpointTakes(e)
    requires |actuals| >= Left(Run(ks, Step(ks, s, Out(raw, true, true)), events))
    ensures var s0 := Step(ks, s, Out(raw, true, true));
            var s1, s' := Run(ks, s0, events), Run(ks, s0, events + Completions(actuals));
            && Drained(ks, s') && s'.log == s1.log && s'.log != [] && s'.wire != []
  {
    hide Step, Inv, Drained, Quiet, EndpointTakes, Left, Flowing;
    PingFlows(ks, s, raw);
    var s0 := Step(ks, s, Out(raw, true, true));
    QuietFlows(ks, s0, events);
    DrainsAnyway(ks, Run(ks, s0, events), actuals);
    RunAppend(ks, s0, events, Completions(actuals));
    QuietRun(ks, s0, events + Completions(actuals), ReadLe32(raw[4..]));
    assert Run(ks, s0, events + Completions(actuals)).wire != [] by {
      NotIdleBefore(ks, Run(ks, s0, events + Completions(actuals)), ReadLe32(raw[4..]));
    }
  }

  lemma NotIdleBefore(ks: CS.Keystream, s: Usb, seqNo: u32)
    requires Drained(ks, s) && PongFirst(s, seqNo)
    ensures s.wire != []
  {}
}
