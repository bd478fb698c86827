/** The transfers of one stream session: from a startup PING until something resets the stream. */
module UsbRuns {
  import opened Bytes
  import opened Frames
  import opened UsbProtocol
  import GP = GatewayProto
  import CS = CryptoStream

  /** Events that neither reset the stream nor put a PONG into it. */
  predicate Quiet(e: Event) {
    match e
    case StartUsb => true
    case UpstreamFrame(_, _, _, _) => true
    case RetryInitTick(_) => true
    case Completion(ok, _, _) => ok
    case Out(raw, _, _) => |raw| < 12 || IsConfig(raw)
    case _ => false
  }

  /** The PONG is the first transfer, or is about to be; everything after it is stream. */
  ghost predicate PongFirst(s: Usb, seqNo: u32) {
    if s.wire == [] then s.pending == PongRequest(PongBytes(seqNo))
    else
      && s.wire[0].PongTransfer? && s.wire[0].bytes <= PongBytes(seqNo)
      && (forall i | 0 < i < |s.wire| :: s.wire[i].StreamTransfer?)
      && !s.pending.PongRequest?
  }

  /** No PONG: every transfer is stream. */
  ghost predicate StreamOnly(s: Usb) {
    && (forall t | t in s.wire :: t.StreamTransfer?)
    && !s.pending.PongRequest?
  }

  /** Nothing completed, and no PONG was queued. */
  ghost predicate NoTransfer(s: Usb, s': Usb) {
    && s'.wire == s.wire && s.log <= s'.log
    && (s'.inBusy <==> s'.pending != NoRequest)
    && if s.pending != NoRequest then s'.pending == s.pending else !s'.pending.PongRequest?
  }

  /** The outstanding request completed with `actual`, and no PONG was queued after it. */
  ghost predicate OneTransfer(s: Usb, s': Usb, actual: nat) {
    && s.pending != NoRequest && !s'.pending.PongRequest? && s'.log == s.log
    && s'.wire == s.wire + [TransferOf(s.pending, actual)]
  }

  /** What the completions report that the events bring, in order. */
  function Actuals(ks: CS.Keystream, s: Usb, events: seq<Event>): seq<nat>
    decreases |events|
  {
    if events == [] then []
    else StepActuals(s, events[0]) + Actuals(ks, Step(ks, s, events[0]), events[1..])
  }

  function StepActuals(s: Usb, e: Event): seq<nat> {
    if e.Completion? && s.pending != NoRequest then [e.actual] else []
  }

  /** A completion that reports `actual` has sent at least the first n bytes of a request that long. */
  predicate Sent(actual: nat, n: nat) {
    actual == 0 || actual >= n
  }

  // The first chunk

  /** While nothing of the stream is consumed, an outstanding chunk starts with the whole init. */
  ghost predicate FirstChunk(s: Usb) {
    s.acked == [] && s.pending.StreamRequest? ==> GP.InitBytes(GP.DefaultInit()) <= s.pending.bytes
  }

  /** A chunk that is outstanding was so before, with as much consumed, or has just been cut from the ring. */
  ghost predicate ChunkKeptOrCut(s: Usb, s': Usb) {
    s'.pending.StreamRequest? ==>
      || (s'.pending == s.pending && s'.acked == s.acked)
      || s'.pending.bytes == s'.queue[..Min(|s'.queue|, IN_CHUNK_SIZE)]
  }

  lemma KickCuts(s: Usb, queued: bool)
    ensures ChunkKeptOrCut(s, Kick(s, queued)) && Kick(s, queued).queue == s.queue && Kick(s, queued).acked == s.acked
  {}

  lemma {:induction false} EnqueueKeepsChunk(ks: CS.Keystream, s: Usb, p: CS.Plain, haveMemory: bool)
    ensures EnqueueInit(s).1.pending == s.pending && EnqueueInit(s).1.acked == s.acked
    ensures EnqueueMedia(ks, s, p, haveMemory).1.pending == s.pending
    ensures EnqueueMedia(ks, s, p, haveMemory).1.acked == s.acked
  {
    hide FrameBytes, GP.InitBytes;
  }

  lemma {:induction false} RelayKeepsOrCuts(ks: CS.Keystream, s: Usb, p: CS.Plain, haveMemory: bool, queued: bool)
    ensures ChunkKeptOrCut(s, Relay(ks, s, p, haveMemory, queued))
  {
    hide EnqueueInit, EnqueueMedia, Kick;
    EnqueueKeepsChunk(ks, s, p, haveMemory);
    var s1 := EnqueueInit(s).1;
    EnqueueKeepsChunk(ks, s1, p, haveMemory);
    KickCuts(EnqueueMedia(ks, s1, p, haveMemory).1, queued);
  }

  lemma {:induction false} PendingAfter(s: Usb, seqNo: u32, queued: bool, n: nat)
    ensures ResetSession(s) == s || ResetSession(s).pending == NoRequest
    ensures SendPong(s, seqNo, queued).acked == s.acked
    ensures SendPong(s, seqNo, queued).pending == s.pending || SendPong(s, seqNo, queued).pending.PongRequest?
    ensures Consume(s, n).pending == s.pending
  {
    hide PongBytes;
  }

  lemma {:induction false} CompletionCuts(s: Usb, ok: bool, actual: nat, queued: bool)
    requires s.pending != NoRequest
    ensures ChunkKeptOrCut(s, InComplete(s, ok, actual, queued))
  {
    hide Kick, ResetSession, Consume, TransferOf, Min;
    var idle := s.(inBusy := false, pending := NoRequest);
    PendingAfter(idle.(inFlight := 0), 0, false, 0);
    var seen := idle.(wire := s.wire + [TransferOf(s.pending, actual)]);
    var n := if 0 < actual < s.inFlight then actual else s.inFlight;
    PendingAfter(seen, 0, false, n);
    KickCuts(if s.inFlight > 0 then Consume(seen, n).(inFlight := 0) else seen, queued);
  }

  lemma {:induction false} OutCuts(ks: CS.Keystream, s: Usb, raw: seq<byte>, pongQueued: bool, queued: bool)
    ensures ChunkKeptOrCut(s, OutPacket(s, raw, pongQueued, queued))
  {
    hide EnqueueInit, Kick, ResetSession, SendPong, Min, ReadLe32;
    if |raw| >= 12 && !IsConfig(raw) {
      var s0 := s.(hostReady := true);
      var s1 := if IsPing(raw) then ResetSession(s0) else s0;
      PendingAfter(s0, 0, false, 0);
      var seqNo := ReadLe32(raw[4..]);
      PendingAfter(s1, seqNo, pongQueued, 0);
      var s2 := SendPong(s1, seqNo, pongQueued);
      EnqueueKeepsChunk(ks, s2, CS.Plain(0, 0, []), true);
      KickCuts(EnqueueInit(s2).1, queued);
    }
  }

  lemma {:induction false} UpstreamCuts(
      ks: CS.Keystream, s: Usb, nonce: Option<CS.Nonce>, payload: Payload, haveMemory: bool, queued: bool)
    ensures ChunkKeptOrCut(s, Upstream(ks, s, nonce, payload, haveMemory, queued))
  {
    hide Relay, CS.Decrypt, Min;
    if nonce.Some? {
      var plain := CS.Decrypt(ks, nonce.value, payload);
      if plain.Some? {
        RelayKeepsOrCuts(ks, s.(offered := s.offered + [plain.value]), plain.value, haveMemory, queued);
      }
    }
  }

  lemma {:induction false} RetryCuts(ks: CS.Keystream, s: Usb, queued: bool)
    ensures ChunkKeptOrCut(s, RetryInit(s, queued))
  {
    hide EnqueueInit, Kick, Min;
    EnqueueKeepsChunk(ks, s, CS.Plain(0, 0, []), true);
    KickCuts(EnqueueInit(s).1, queued);
  }

  lemma {:induction false} ConfigurationCuts(s: Usb, result: AltResult)
    ensures ChunkKeptOrCut(s, Teardown(s)) && ChunkKeptOrCut(s, SetAlt(s, result)) && ChunkKeptOrCut(s, ResetSession(s))
  {
    hide Min;
  }

  lemma {:induction false} StepKeepsOrCuts(ks: CS.Keystream, s: Usb, e: Event)
    ensures ChunkKeptOrCut(s, Step(ks, s, e))
  {
    hide Upstream, RetryInit, InComplete, OutPacket, SetAlt, Teardown, ResetSession, Min;
    match e {
      case UpstreamFrame(nonce, payload, haveMemory, queued) => UpstreamCuts(ks, s, nonce, payload, haveMemory, queued);
      case RetryInitTick(queued) => RetryCuts(ks, s, queued);
      case Completion(ok, actual, queued) =>
        if s.pending != NoRequest {
          CompletionCuts(s, ok, actual, queued);
        }
      case Out(raw, pongQueued, queued) => OutCuts(ks, s, raw, pongQueued, queued);
      case SelectAlt(result) => ConfigurationCuts(s, result);
      case _ => ConfigurationCuts(s, EndpointFailed);
    }
  }

  /** A chunk cut from an untouched stream starts with the init, because the ring does. */
  lemma {:induction false} CutStartsWithInit(ks: CS.Keystream, s: Usb)
    requires Inv(ks, s) && s.acked == [] && s.pending.StreamRequest?
    requires s.pending.bytes == s.queue[..Min(|s.queue|, IN_CHUNK_SIZE)]
    ensures GP.InitBytes(GP.DefaultInit()) <= s.pending.bytes
  {
    hide FrameBytes, GP.InitBytes;
    assert [] + s.queue == s.queue;
    assert FramesOf(ks, []) == [];
    StartsWithInit(ks, s.log);
  }

  lemma {:induction false} StepKeepsFirstChunk(ks: CS.Keystream, s: Usb, e: Event)
    requires Inv(ks, s) && FirstChunk(s)
    ensures FirstChunk(Step(ks, s, e))
  {
    hide Step, Inv, GP.InitBytes;
    StepKeepsInv(ks, s, e);
    StepKeepsOrCuts(ks, s, e);
    var s' := Step(ks, s, e);
    if s'.acked == [] && s'.pending.StreamRequest? && s'.pending.bytes == s'.queue[..Min(|s'.queue|, IN_CHUNK_SIZE)] {
      CutStartsWithInit(ks, s');
    }
  }

  lemma {:induction false} RunKeepsFirstChunk(ks: CS.Keystream, s: Usb, events: seq<Event>)
    requires Inv(ks, s) && FirstChunk(s)
    ensures FirstChunk(Run(ks, s, events))
    decreases |events|
  {
    hide Step, Inv, FirstChunk;
    if events != [] {
      StepKeepsInv(ks, s, events[0]);
      StepKeepsFirstChunk(ks, s, events[0]);
      RunKeepsFirstChunk(ks, Step(ks, s, events[0]), events[1..]);
    }
  }

  /** In every state reached from power-on the first chunk of a stream carries the whole init. */
  lemma {:induction false} EveryFirstChunk(ks: CS.Keystream, events: seq<Event>)
    ensures FirstChunk(Run(ks, POWER_ON, events))
  {
    EveryReachableState(ks, []);
    RunKeepsFirstChunk(ks, POWER_ON, events);
  }

  lemma KickQuiet(s: Usb, queued: bool)
    requires s.inBusy <==> s.pending != NoRequest
    ensures NoTransfer(s, Kick(s, queued))
  {}

  lemma {:induction false} EnqueueQuiet(ks: CS.Keystream, s: Usb, p: CS.Plain, haveMemory: bool)
    requires s.inBusy <==> s.pending != NoRequest
    ensures NoTransfer(s, EnqueueInit(s).1)
    ensures NoTransfer(s, EnqueueMedia(ks, s, p, haveMemory).1)
  {
    hide FrameBytes, GP.InitBytes;
  }

  lemma {:induction false} RelayQuiet(ks: CS.Keystream, s: Usb, p: CS.Plain, haveMemory: bool, queued: bool)
    requires s.inBusy <==> s.pending != NoRequest
    ensures NoTransfer(s, Relay(ks, s, p, haveMemory, queued))
  {
    hide EnqueueInit, EnqueueMedia, Kick;
    EnqueueQuiet(ks, s, p, haveMemory);
    var s1 := EnqueueInit(s).1;
    EnqueueQuiet(ks, s1, p, haveMemory);
    KickQuiet(EnqueueMedia(ks, s1, p, haveMemory).1, queued);
  }

  lemma {:induction false} UpstreamQuiet(
      ks: CS.Keystream, s: Usb, nonce: Option<CS.Nonce>, payload: Payload, haveMemory: bool, queued: bool)
    requires s.inBusy <==> s.pending != NoRequest
    ensures NoTransfer(s, Upstream(ks, s, nonce, payload, haveMemory, queued))
  {
    hide Relay, CS.Decrypt;
    if nonce.Some? {
      var plain := CS.Decrypt(ks, nonce.value, payload);
      if plain.Some? {
        RelayQuiet(ks, s.(offered := s.offered + [plain.value]), plain.value, haveMemory, queued);
      }
    }
  }

  lemma {:induction false} RetryQuiet(ks: CS.Keystream, s: Usb, queued: bool)
    requires s.inBusy <==> s.pending != NoRequest
    ensures NoTransfer(s, RetryInit(s, queued))
  {
    hide EnqueueInit, Kick;
    EnqueueQuiet(ks, s, CS.Plain(0, 0, []), true);
    KickQuiet(EnqueueInit(s).1, queued);
  }

  lemma {:induction false} QuietStep(ks: CS.Keystream, s: Usb, e: Event)
    requires Inv(ks, s) && Quiet(e)
    ensures if StepActuals(s, e) == [] then NoTransfer(s, Step(ks, s, e)) else OneTransfer(s, Step(ks, s, e), e.actual)
  {
    hide Upstream, RetryInit, InComplete, LogInv, ByteInv;
    match e {
      case UpstreamFrame(nonce, payload, haveMemory, queued) => UpstreamQuiet(ks, s, nonce, payload, haveMemory, queued);
      case RetryInitTick(queued) => RetryQuiet(ks, s, queued);
      case Completion(ok, actual, queued) =>
        if s.pending != NoRequest {
          CompletionQuiet(ks, s, actual, queued);
        }
      case _ =>
    }
  }

  lemma CompletionQuiet(ks: CS.Keystream, s: Usb, actual: nat, queued: bool)
    requires Inv(ks, s) && s.pending != NoRequest
    ensures OneTransfer(s, InComplete(s, true, actual, queued), actual)
  {}

  lemma {:induction false} QuietStepKeepsOrder(ks: CS.Keystream, s: Usb, e: Event, seqNo: u32)
    requires Inv(ks, s) && Quiet(e)
    ensures PongFirst(s, seqNo) ==> PongFirst(Step(ks, s, e), seqNo)
    ensures StreamOnly(s) ==> StreamOnly(Step(ks, s, e))
  {
    hide Step, Inv;
    QuietStep(ks, s, e);
  }

  /** The first two transfers against what their completions reported. */
  ghost predicate HeadsFit(s: Usb, actuals: seq<nat>) {
    && |actuals| == |s.wire|
    && (|s.wire| > 0 ==> (|s.wire[0].bytes| == PING_PACKET_SIZE <==> Sent(actuals[0], PING_PACKET_SIZE)))
    && (|s.wire| > 1 ==> (|s.wire[1].bytes| >= GP.INIT_SIZE <==> Sent(actuals[1], GP.INIT_SIZE)))
  }

  lemma {:induction false} QuietStepKeepsHeads(ks: CS.Keystream, s: Usb, e: Event, seqNo: u32, actuals: seq<nat>)
    requires Inv(ks, s) && Quiet(e) && PongFirst(s, seqNo) && FirstChunk(s) && HeadsFit(s, actuals)
    ensures HeadsFit(Step(ks, s, e), actuals + StepActuals(s, e))
  {
    hide Step, LogInv, GP.InitBytes, PongBytes;
    QuietStep(ks, s, e);
    if StepActuals(s, e) != [] && |s.wire| == 1 {
      NothingAckedYet(ks, s);
    }
  }

  /** The PONG took nothing from the stream. */
  lemma {:induction false} NothingAckedYet(ks: CS.Keystream, s: Usb)
    requires Inv(ks, s) && |s.wire| == 1 && s.wire[0].PongTransfer?
    ensures s.acked == []
  {
    assert s.wire[..0] == [];
    assert Chunks(s.wire) == [];
  }

  lemma {:induction false} QuietRunKeepsHeads(ks: CS.Keystream, s: Usb, events: seq<Event>, seqNo: u32, actuals: seq<nat>)
    requires Inv(ks, s) && forall e | e in events :: Quiet(e)
    requires PongFirst(s, seqNo) && FirstChunk(s) && HeadsFit(s, actuals)
    ensures HeadsFit(Run(ks, s, events), actuals + Actuals(ks, s, events))
    decreases |events|
  {
    hide Inv, Step, PongFirst, FirstChunk, HeadsFit, Quiet;
    if events == [] {
      assert actuals + [] == actuals;
    } else {
      var s1 := Step(ks, s, events[0]);
      StepKeepsInv(ks, s, events[0]);
      StepKeepsFirstChunk(ks, s, events[0]);
      QuietStepKeepsOrder(ks, s, events[0], seqNo);
      QuietStepKeepsHeads(ks, s, events[0], seqNo, actuals);
      QuietRunKeepsHeads(ks, s1, events[1..], seqNo, actuals + StepActuals(s, events[0]));
      Associative(actuals, StepActuals(s, events[0]), Actuals(ks, s1, events[1..]));
    }
  }

  lemma {:induction false} QuietRun(ks: CS.Keystream, s: Usb, events: seq<Event>, seqNo: u32)
    requires Inv(ks, s) && forall e | e in events :: Quiet(e)
    ensures var s' := Run(ks, s, events);
            && Inv(ks, s') && s.log <= s'.log && s.wire <= s'.wire
            && (PongFirst(s, seqNo) ==> PongFirst(s', seqNo))
            && (StreamOnly(s) ==> StreamOnly(s'))
    decreases |events|
  {
    hide Inv, Step;
    if events != [] {
      StepKeepsInv(ks, s, events[0]);
      QuietStep(ks, s, events[0]);
      QuietStepKeepsOrder(ks, s, events[0], seqNo);
      QuietRun(ks, Step(ks, s, events[0]), events[1..], seqNo);
    }
  }

  /** A startup PING begins a session: empty stream but for the init, and the PONG outstanding if it was queued. */
  lemma {:induction false} PingBegins(ks: CS.Keystream, s: Usb, raw: seq<byte>, pongQueued: bool, queued: bool)
    requires Inv(ks, s) && s.bound && IsPing(raw)
    ensures var s' := Step(ks, s, Out(raw, pongQueued, queued));
            && Inv(ks, s') && s'.log == [Init] && s'.wire == []
            && (pongQueued ==> PongFirst(s', ReadLe32(raw[4..])))
            && (!pongQueued ==> StreamOnly(s'))
  {
    hide ByteInv, PongBytes, GP.InitBytes;
    StepKeepsInv(ks, s, Out(raw, pongQueued, queued));
  }

  /** The bytes of the transfers after the first. */
  function AfterFirst(wire: seq<Transfer>): (parts: seq<seq<byte>>)
    requires wire != []
    ensures |parts| == |wire| - 1 && forall i | 0 <= i < |parts| :: parts[i] == wire[i + 1].bytes
  {
    seq(|wire| - 1, i requires 0 <= i < |wire| - 1 => wire[i + 1].bytes)
  }

  lemma {:induction false} ChunksAfterPong(wire: seq<Transfer>)
    requires wire != [] && wire[0].PongTransfer? && forall i | 0 < i < |wire| :: wire[i].StreamTransfer?
    ensures Chunks(wire) == AfterFirst(wire)
    decreases |wire|
  {
    var init := wire[..|wire| - 1];
    if |wire| > 1 {
      ChunksAfterPong(init);
      assert AfterFirst(wire) == AfterFirst(init) + [wire[|wire| - 1].bytes];
    } else {
      assert init == [] && AfterFirst(wire) == [];
    }
  }

  /** The stream bytes of a log that begins with the init begin with its sixteen bytes. */
  lemma {:induction false} StartsWithInit(ks: CS.Keystream, log: seq<Packet>)
    requires log != [] && log[0] == Init && forall p | p in log :: GoodPacket(p)
    ensures GP.InitBytes(GP.DefaultInit()) <= StreamBytes(FramesOf(ks, log))
  {
    assert FramesOf(ks, log)[0] == InitFrame(GP.DefaultInit());
  }

  /**
    After a PING whose PONG was queued, and for as long as nothing resets the stream: the host receives
    that PONG first and then only stream chunks; put together these are a prefix of the session's bytes,
    which are one init followed by whole media packets; what is missing is still in the ring. The PONG is
    whole and the first chunk holds the init exactly when their completions did not report less.
   */
  lemma {:induction false} SessionTransfers(ks: CS.Keystream, s: Usb, raw: seq<byte>, queued: bool, events: seq<Event>)
    requires Inv(ks, s) && s.bound && IsPing(raw) && forall e | e in events :: Quiet(e)
    ensures var s0 := Step(ks, s, Out(raw, true, queued));
            && SessionBytes(ks, Run(ks, s0, events), ReadLe32(raw[4..]))
            && HeadsFit(Run(ks, s0, events), Actuals(ks, s0, events))
  {
    hide Step, Inv, Run, HeadsFit;
    PingBegins(ks, s, raw, true, queued);
    var s0 := Step(ks, s, Out(raw, true, queued));
    NothingSentYet(s0, ReadLe32(raw[4..]));
    QuietRun(ks, s0, events, ReadLe32(raw[4..]));
    QuietRunKeepsHeads(ks, s0, events, ReadLe32(raw[4..]), []);
    assert [] + Actuals(ks, s0, events) == Actuals(ks, s0, events);
    SessionBytesHere(ks, Run(ks, s0, events), ReadLe32(raw[4..]));
  }

  lemma NothingSentYet(s: Usb, seqNo: u32)
    requires s.wire == [] && PongFirst(s, seqNo)
    ensures HeadsFit(s, []) && FirstChunk(s)
  {}

  ghost predicate SessionBytes(ks: CS.Keystream, s: Usb, seqNo: u32) {
    && Inv(ks, s) && PongFirst(s, seqNo)
    && s.log != [] && s.log[0] == Init
    && (s.wire != [] ==> Chunks(s.wire) == AfterFirst(s.wire))
    && Concat(Chunks(s.wire)) + s.queue == StreamBytes(FramesOf(ks, s.log))
    && GP.InitBytes(GP.DefaultInit()) <= StreamBytes(FramesOf(ks, s.log))
  }

  lemma {:induction false} SessionBytesHere(ks: CS.Keystream, s: Usb, seqNo: u32)
    requires Inv(ks, s) && PongFirst(s, seqNo) && s.log != [] && s.log[0] == Init
    ensures SessionBytes(ks, s, seqNo)
  {
    hide StreamBytes, GP.InitBytes, PongBytes, FramesOf;
    StartsWithInit(ks, s.log);
    if s.wire != [] {
      ChunksAfterPong(s.wire);
    }
  }
}
