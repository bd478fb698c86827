/**
  Sender, firmware and player put together over one stream session of the USB path: what the player
  hands on is, byte for byte and in order, what the firmware's ring accepted.
 */
module Pipeline {
  import opened Bytes
  import opened Frames
  import opened UsbProtocol
  import opened UsbRuns
  import opened HostReader
  import opened HostStartup
  import P = Player
  import Progress = UsbProgress
  import GP = GatewayProto
  import CS = CryptoStream
  import VF = VideoFragments
  import VA = VideoAssembly

  function DeliveryOf(p: CS.Plain): P.Delivery {
    P.Delivery(p.streamId, FlagsOf(p), p.seqNo, p.data)
  }

  function AllDeliveries(ps: seq<CS.Plain>): (ds: seq<P.Delivery>)
    ensures |ds| == |ps|
  {
    seq(|ps|, i requires 0 <= i < |ps| => DeliveryOf(ps[i]))
  }

  /** A re-encrypted payload begins "CH", so the player never takes it for a header. */
  lemma {:induction false} RelayNeverDesyncs(ks: CS.Keystream, p: CS.Plain)
    requires Sendable(p)
    ensures Unambiguous(RelayFrame(ks, p))
  {
    if p.data != [] {
      var b := CS.Encrypt(ks, USB_NONCE, p);
      assert b[0] == CS.MAGIC0;
      assert ReadBe32(b) / 0x100_0000 == b[0];
    }
  }

  lemma {:induction false} RelayDecrypts(ks: CS.Keystream, p: CS.Plain)
    requires Sendable(p)
    ensures P.DecryptMedia(ks, RelayFrame(ks, p)) == Some(DeliveryOf(p))
  {
    CS.DecryptEncrypt(ks, USB_NONCE, p);
  }

  predicate AllSendable(ps: seq<CS.Plain>) {
    forall i | 0 <= i < |ps| :: Sendable(ps[i])
  }

  /** The relay's frames for a list of packets. */
  function RelayFrames(ks: CS.Keystream, ps: seq<CS.Plain>): (frames: seq<Frame>)
    requires AllSendable(ps)
    ensures |frames| == |ps|
  {
    seq(|ps|, i requires 0 <= i < |ps| => RelayFrame(ks, ps[i]))
  }

  lemma {:induction false} DeliveriesOfClean(ks: CS.Keystream, ps: seq<CS.Plain>)
    requires AllSendable(ps)
    ensures P.Deliveries(ks, Clean(RelayFrames(ks, ps))) == AllDeliveries(ps)
  {
    hide RelayFrame, P.DecryptMedia;
    var rs := Clean(RelayFrames(ks, ps));
    if ps != [] {
      RelayDecrypts(ks, ps[0]);
      RelayIsMedia(ks, ps[0]);
      assert rs[1..] == Clean(RelayFrames(ks, ps[1..]));
      DeliveriesOfClean(ks, ps[1..]);
      assert AllDeliveries(ps) == [DeliveryOf(ps[0])] + AllDeliveries(ps[1..]);
    }
  }

  lemma RelayIsMedia(ks: CS.Keystream, p: CS.Plain)
    requires Sendable(p)
    ensures RelayFrame(ks, p).MediaFrame?
  {}

  lemma {:induction false} MediaOfLog(log: seq<Packet>)
    requires log != [] && log[0] == Init && forall i | 0 < i < |log| :: log[i].Media?
    ensures |MediaOf(log)| == |log| - 1
    ensures forall i | 0 <= i < |log| - 1 :: log[i + 1] == Media(MediaOf(log)[i])
    decreases |log|
  {
    if |log| == 1 {
      assert log[..0] == [];
    } else {
      MediaOfLog(log[..|log| - 1]);
    }
  }

  /** The session's bytes after the init are the relay's frames. */
  lemma {:induction false} AfterInit(ks: CS.Keystream, log: seq<Packet>)
    requires log != [] && log[0] == Init && forall i | 0 < i < |log| :: log[i].Media?
    requires forall p | p in log :: GoodPacket(p)
    ensures AllSendable(MediaOf(log))
    ensures StreamBytes(FramesOf(ks, log)) == GP.InitBytes(GP.DefaultInit()) + StreamBytes(RelayFrames(ks, MediaOf(log)))
  {
    hide RelayFrame, FrameBytes;
    MediaOfLog(log);
    var ms := MediaOf(log);
    forall i | 0 <= i < |ms|
      ensures Sendable(ms[i])
    {
      assert log[i + 1] in log && GoodPacket(log[i + 1]);
    }
    var frames := FramesOf(ks, log);
    assert frames[1..] == RelayFrames(ks, ms);
    assert frames[0] == InitFrame(GP.DefaultInit());
    InitFrameBytes();
  }

  lemma InitFrameBytes()
    ensures FrameBytes(InitFrame(GP.DefaultInit())) == GP.InitBytes(GP.DefaultInit())
  {}

  /** How many of the accepted media packets have been consumed whole after n bytes past the init. */
  function WholePackets(ks: CS.Keystream, ps: seq<CS.Plain>, n: nat): (k: nat)
    requires AllSendable(ps)
    ensures k <= |ps|
  {
    WholeFrames(RelayFrames(ks, ps), n)
  }

  /**
    Reading what a session has transmitted past its init: exactly the accepted media packets that were
    transmitted whole, in order and byte for byte, which are a prefix of those the ring accepted, which
    are a subsequence of those that decrypted upstream.
   */
  lemma {:induction false} DeliveredIsPrefix(ks: CS.Keystream, s: Usb)
    requires Inv(ks, s) && s.log != [] && |s.acked| >= GP.INIT_SIZE
    ensures AllSendable(MediaOf(s.log))
    ensures var k := WholePackets(ks, MediaOf(s.log), |s.acked| - GP.INIT_SIZE);
            P.Deliveries(ks, ReadAll(s.acked[GP.INIT_SIZE..])) == AllDeliveries(MediaOf(s.log)[..k])
    ensures IsSubsequence(MediaOf(s.log), s.offered)
  {
    hide RelayFrame, GP.InitBytes, StreamBytes, FramesOf, ReadAll, WholeFrames, IsSubsequence;
    AfterInit(ks, s.log);
    var ms := MediaOf(s.log);
    var frames := RelayFrames(ks, ms);
    var init, rest := GP.InitBytes(GP.DefaultInit()), StreamBytes(frames);
    var n := |s.acked| - GP.INIT_SIZE;
    AckedPastInit(s.acked, s.queue, init, rest);
    forall f | f in frames
      ensures Unambiguous(f)
    {
      var i :| 0 <= i < |frames| && frames[i] == f;
      RelayNeverDesyncs(ks, ms[i]);
    }
    ReadBackPrefix(frames, n);
    var k := WholeFrames(frames, n);
    assert frames[..k] == RelayFrames(ks, ms[..k]);
    DeliveriesOfClean(ks, ms[..k]);
  }

  lemma {:induction false} AckedPastInit(acked: seq<byte>, queue: seq<byte>, init: seq<byte>, rest: seq<byte>)
    requires acked + queue == init + rest && |acked| >= |init|
    ensures |acked| - |init| <= |rest| && acked[|init|..] == rest[..|acked| - |init|]
    ensures acked[..|init|] == init
  {
    var all := init + rest;
    assert acked == all[..|acked|];
    assert all[..|acked|][|init|..] == rest[..|acked| - |init|];
    assert all[..|init|] == init;
  }

  /**
    What startup comes down to: among the stale transfers that the flush leaves no init behind a PONG, a PONG
    seen whole, and a first chunk whose completion did not report less than the init.
   */
  predicate StartupHolds(stale: seq<seq<byte>>, seqNo: u32, actuals: seq<nat>)
    requires |actuals| > 0
  {
    && !StaleInit(Unflushed(stale), seqNo)
    && (StalePong(Unflushed(stale), seqNo) || Sent(actuals[0], PING_PACKET_SIZE))
    && |actuals| > 1 && Sent(actuals[1], GP.INIT_SIZE)
  }

  /**
    A whole session, startup included. The firmware answers a PING, queues the PONG and runs any events
    that do not reset it; the player flushes, and then reads the stale transfers left over, that PONG, and the
    chunks. With `actuals` what the IN completions report, the player ends up in step exactly when
    `StartupHolds`; and then it delivers the accepted packets that were transmitted whole.
   */
  lemma {:induction false} SessionEndToEnd(
      ks: CS.Keystream, s: Usb, raw: seq<byte>, queued: bool, events: seq<Event>, stale: seq<seq<byte>>)
    requires Inv(ks, s) && s.bound && IsPing(raw) && (forall e | e in events :: Quiet(e)) && [] !in stale
    ensures var seqNo := ReadLe32(raw[4..]);
            var s0 := Step(ks, s, Out(raw, true, queued));
            var s', actuals := Run(ks, s0, events), Actuals(ks, s0, events);
            && |actuals| == |s'.wire|
            && (s'.wire != [] ==>
                  var chunks := AfterFirst(s'.wire);
                  var o := Startup(stale, [s'.wire[0].bytes] + chunks, seqNo);
                  var inStep := InStep(o, GP.InitBytes(GP.DefaultInit()), Concat(chunks));
                  && (inStep <==> StartupHolds(stale, seqNo, actuals))
                  && (inStep ==> Delivers(ks, s', P.Deliveries(ks, ReadAll(o.leftover + DataOf(o.rest))))))
  {
    hide Step, Run, Inv, PongFirst, Startup, ReadAll, StartupHolds, Actuals, AfterFirst, GP.InitBytes;
    SessionTransfers(ks, s, raw, queued, events);
    var s0 := Step(ks, s, Out(raw, true, queued));
    var s' := Run(ks, s0, events);
    if s'.wire != [] {
      var chunks := AfterFirst(s'.wire);
      SessionStartup(ks, s', ReadLe32(raw[4..]), stale, Actuals(ks, s0, events));
      var o := Startup(stale, [s'.wire[0].bytes] + chunks, ReadLe32(raw[4..]));
      if InStep(o, GP.InitBytes(GP.DefaultInit()), Concat(chunks)) {
        DeliversHere(ks, s');
      }
    }
  }

  /** These deliveries are the accepted packets that were transmitted whole. */
  ghost predicate Delivers(ks: CS.Keystream, s: Usb, ds: seq<P.Delivery>) {
    && |s.acked| >= GP.INIT_SIZE
    && AllSendable(MediaOf(s.log))
    && ds == AllDeliveries(MediaOf(s.log)[..WholePackets(ks, MediaOf(s.log), |s.acked| - GP.INIT_SIZE)])
    && IsSubsequence(MediaOf(s.log), s.offered)
  }

  lemma {:induction false} DeliversHere(ks: CS.Keystream, s: Usb)
    requires Inv(ks, s) && s.log != [] && |Concat(Chunks(s.wire))| >= GP.INIT_SIZE
    ensures Delivers(ks, s, P.Deliveries(ks, ReadAll(Concat(Chunks(s.wire))[GP.INIT_SIZE..])))
  {
    DeliveredIsPrefix(ks, s);
  }

  lemma {:induction false} SessionStartup(ks: CS.Keystream, s: Usb, seqNo: u32, stale: seq<seq<byte>>, actuals: seq<nat>)
    requires SessionBytes(ks, s, seqNo) && HeadsFit(s, actuals) && s.wire != [] && [] !in stale
    ensures var chunks := AfterFirst(s.wire);
            var o := Startup(stale, [s.wire[0].bytes] + chunks, seqNo);
            InStep(o, GP.InitBytes(GP.DefaultInit()), Concat(chunks)) <==> StartupHolds(stale, seqNo, actuals)
  {
    hide Startup, StaleInit, StalePong, GP.InitBytes, PongBytes, StreamBytes, FramesOf;
    var chunks := AfterFirst(s.wire);
    var init := GP.InitBytes(GP.DefaultInit());
    assert s.wire[0] in s.wire;
    assert [] !in chunks by {
      forall i | 0 <= i < |chunks|
        ensures chunks[i] != []
      {
        assert s.wire[i + 1] in s.wire;
      }
    }
    PrefixesAgree(Concat(chunks), s.queue, init, StreamBytes(FramesOf(ks, s.log)));
    StartupAfterFlush(stale, s.wire[0].bytes, chunks, seqNo, GP.DefaultInit());
  }

  lemma {:induction false} PrefixesAgree(acked: seq<byte>, queue: seq<byte>, init: seq<byte>, all: seq<byte>)
    requires acked + queue == all && init <= all
    ensures forall k | 0 <= k <= Min(|acked|, |init|) :: acked[..k] == init[..k]
  {
    forall k | 0 <= k <= Min(|acked|, |init|)
      ensures acked[..k] == init[..k]
    {
      assert all[..k] == acked[..k] && all[..k] == init[..k];
    }
  }

  /** With the ring drained, everything the ring accepted is delivered. */
  lemma {:induction false} EverythingArrives(ks: CS.Keystream, s: Usb)
    requires Inv(ks, s) && s.log != [] && s.queue == [] && |s.acked| >= GP.INIT_SIZE
    ensures P.Deliveries(ks, ReadAll(s.acked[GP.INIT_SIZE..])) == AllDeliveries(MediaOf(s.log))
  {
    hide RelayFrame, GP.InitBytes, StreamBytes, FramesOf, ReadAll, WholeFrames, IsSubsequence;
    DeliveredIsPrefix(ks, s);
    AfterInit(ks, s.log);
    var ms := MediaOf(s.log);
    AckedPastInit(s.acked, s.queue, GP.InitBytes(GP.DefaultInit()), StreamBytes(RelayFrames(ks, ms)));
    assert s.acked + s.queue == s.acked;
    AllWhole(RelayFrames(ks, ms));
    assert ms[..|ms|] == ms;
  }

  /**
    Nothing is lost. The firmware answers a PING and runs any events that do not reset the session, while its
    endpoint takes what it is given; then requests go on completing until the ring is empty, and at the latest
    when there have been as many completions as bytes are left. The player, in step exactly when
    `StartupHolds`, then delivers every packet that the ring accepted.
   */
  lemma {:induction false} NothingIsLost(
      ks: CS.Keystream, s: Usb, raw: seq<byte>, events: seq<Event>, actuals: seq<nat>, stale: seq<seq<byte>>)
    requires Inv(ks, s) && s.bound && s.configured && IsPing(raw)
    requires forall e | e in events :: Quiet(e) && Progress.EndpointTakes(e)
    requires |actuals| >= Progress.Left(Run(ks, Step(ks, s, Out(raw, true, true)), events)) && [] !in stale
    ensures var seqNo := ReadLe32(raw[4..]);
            var s0 := Step(ks, s, Out(raw, true, true));
            var all := events + Progress.Completions(actuals);
            var s' := Run(ks, s0, all);
            && s'.log == Run(ks, s0, events).log && s'.queue == [] && s'.wire != []
            && |Actuals(ks, s0, all)| == |s'.wire|
            && var o := Startup(stale, [s'.wire[0].bytes] + AfterFirst(s'.wire), seqNo);
               var inStep := InStep(o, GP.InitBytes(GP.DefaultInit()), Concat(AfterFirst(s'.wire)));
               && (inStep <==> StartupHolds(stale, seqNo, Actuals(ks, s0, all)))
               && (inStep ==> P.Deliveries(ks, ReadAll(o.leftover + DataOf(o.rest))) == AllDeliveries(MediaOf(s'.log)))
  {
    hide Step, Run, Inv, Startup, ReadAll, StartupHolds, Actuals, AfterFirst, GP.InitBytes, Progress.Left, MediaOf;
    var s0 := Step(ks, s, Out(raw, true, true));
    var all := events + Progress.Completions(actuals);
    var s' := Run(ks, s0, all);
    Progress.SessionDrains(ks, s, raw, events, actuals);
    SessionEndToEnd(ks, s, raw, true, all, stale);
    var o := Startup(stale, [s'.wire[0].bytes] + AfterFirst(s'.wire), ReadLe32(raw[4..]));
    if InStep(o, GP.InitBytes(GP.DefaultInit()), Concat(AfterFirst(s'.wire))) {
      EverythingArrives(ks, s');
      SameDeliveries(ks, s', P.Deliveries(ks, ReadAll(o.leftover + DataOf(o.rest))));
    }
  }

  /** What is delivered of a drained session is one thing, however it was read. */
  lemma {:induction false} SameDeliveries(ks: CS.Keystream, s: Usb, ds: seq<P.Delivery>)
    requires Inv(ks, s) && s.log != [] && Delivers(ks, s, ds)
    ensures ds == P.Deliveries(ks, ReadAll(s.acked[GP.INIT_SIZE..]))
  {
    hide Inv, ReadAll, MediaOf;
    DeliveredIsPrefix(ks, s);
  }

  // One video payload from the sender to the player's packet, among everything else

  /** The relay sees a packet again exactly as the sender encrypted it. */
  lemma {:induction false} UpstreamSeesPlain(
      ks: CS.Keystream, s: Usb, nonce: CS.Nonce, p: CS.Plain, haveMemory: bool, queued: bool)
    requires p.data != [] && Sendable(p)
    ensures Step(ks, s, UpstreamFrame(Some(nonce), CS.Encrypt(ks, nonce, p), haveMemory, queued))
         == Relay(ks, s.(offered := s.offered + [p]), p, haveMemory, queued)
  {
    hide Relay;
    CS.DecryptEncrypt(ks, nonce, p);
  }

  /** The data of the video packets among these. */
  function VideoData(ps: seq<CS.Plain>): seq<seq<byte>> {
    if ps == [] then []
    else (if ps[0].streamId == GP.STREAM_VIDEO then [ps[0].data] else []) + VideoData(ps[1..])
  }

  /** The payloads of the video deliveries among these. */
  function VideoPayloads(ds: seq<P.Delivery>): seq<seq<byte>> {
    if ds == [] then []
    else (if ds[0].streamId == GP.STREAM_VIDEO then [ds[0].payload] else []) + VideoPayloads(ds[1..])
  }

  lemma {:induction false} VideoDataAppend(xs: seq<CS.Plain>, ys: seq<CS.Plain>)
    ensures VideoData(xs + ys) == VideoData(xs) + VideoData(ys)
  {
    if xs == [] {
      assert xs + ys == ys;
    } else {
      assert (xs + ys)[0] == xs[0] && (xs + ys)[1..] == xs[1..] + ys;
      VideoDataAppend(xs[1..], ys);
      Associative(if xs[0].streamId == GP.STREAM_VIDEO then [xs[0].data] else [], VideoData(xs[1..]), VideoData(ys));
    }
  }

  lemma {:induction false} VideoOfDeliveries(ps: seq<CS.Plain>)
    ensures VideoPayloads(AllDeliveries(ps)) == VideoData(ps)
  {
    hide FlagsOf;
    if ps != [] {
      assert AllDeliveries(ps)[1..] == AllDeliveries(ps[1..]);
      VideoOfDeliveries(ps[1..]);
    }
  }

  /** The video path's assembly is that of the video payloads alone, when each comes with the flags the relay gives. */
  lemma {:induction false} PathFeeds(v: P.Video, ds: seq<P.Delivery>)
    requires VF.Sized(v.assembly)
    requires forall i | 0 <= i < |ds| :: ds[i].streamId == GP.STREAM_VIDEO ==> ds[i].flags == VideoFlags(ds[i].payload)
    ensures P.HandleAll(v, ds).assembly == VA.FeedAll(v.assembly, VideoPayloads(ds)).0
    decreases |ds|
  {
    hide VF.Feed, VideoFlags;
    if ds != [] {
      var v1 := if ds[0].streamId == GP.STREAM_VIDEO then P.HandleVideo(v, ds[0]) else v;
      PathFeeds(v1, ds[1..]);
      if ds[0].streamId == GP.STREAM_VIDEO {
        assert VideoPayloads(ds) == [ds[0].payload] + VideoPayloads(ds[1..]);
        assert VideoPayloads(ds)[1..] == VideoPayloads(ds[1..]);
      } else {
        assert VideoPayloads(ds) == [] + VideoPayloads(ds[1..]) == VideoPayloads(ds[1..]);
      }
    }
  }

  /** The accepted packets that a session has transmitted whole. */
  ghost function Received(ks: CS.Keystream, s: Usb): seq<CS.Plain>
    requires Inv(ks, s) && s.log != [] && |s.acked| >= GP.INIT_SIZE
  {
    DeliveredIsPrefix(ks, s);
    MediaOf(s.log)[..WholePackets(ks, MediaOf(s.log), |s.acked| - GP.INIT_SIZE)]
  }

  lemma {:induction false} ReceivedIsRead(ks: CS.Keystream, s: Usb)
    requires Inv(ks, s) && s.log != [] && |s.acked| >= GP.INIT_SIZE
    ensures var ds := P.Deliveries(ks, ReadAll(s.acked[GP.INIT_SIZE..]));
            && ds == AllDeliveries(Received(ks, s))
            && VideoPayloads(ds) == VideoData(Received(ks, s))
            && forall i | 0 <= i < |ds| :: ds[i].streamId == GP.STREAM_VIDEO ==> ds[i].flags == VideoFlags(ds[i].payload)
  {
    hide Inv, ReadAll, WholePackets, MediaOf, VideoFlags;
    DeliveredIsPrefix(ks, s);
    VideoOfDeliveries(Received(ks, s));
  }

  /**
    One video payload in any session: whatever packets came before and after it, whatever audio between its
    fragments, and whatever the player was assembling, as long as it was not a frame of the same id and
    count. If the session has transmitted all its packets, then the player stays quiet over them until the
    last and hands over exactly that payload with its flags, and it does so exactly when the payload is
    `Sendable`.
   */
  lemma {:induction false} VideoEndToEnd(
      ks: CS.Keystream, s: Usb, v: P.Video,
      before: seq<CS.Plain>, mid: seq<CS.Plain>, after: seq<CS.Plain>, payload: seq<byte>, frameId: u32)
    requires Inv(ks, s) && s.log != [] && |s.acked| >= GP.INIT_SIZE && VF.Sized(v.assembly)
    requires Received(ks, s) == before + mid + after
    requires payload != [] && VideoData(mid) == VF.MediaPackets(payload, frameId)
    requires VA.Unrelated(VA.FeedAll(v.assembly, VideoData(before)).0, payload, frameId)
    ensures var ds := P.Deliveries(ks, ReadAll(s.acked[GP.INIT_SIZE..]));
            var (end, outs) := VA.FeedAll(v.assembly, VideoPayloads(ds));
            var b, n := |VideoData(before)|, |VideoData(mid)|;
            && end == P.HandleAll(v, ds).assembly
            && b + n <= |outs|
            && (VA.Delivers(outs[b..b + n], payload) <==> VA.Sendable(payload))
  {
    hide Inv, ReadAll, Received, VideoFlags, P.HandleAll;
    hide VF.Feed, VF.MediaPackets, VA.FeedAll, VA.Delivers, VA.Sendable, VA.Unrelated;
    var ds := P.Deliveries(ks, ReadAll(s.acked[GP.INIT_SIZE..]));
    ReceivedIsRead(ks, s);
    PathFeeds(v, ds);
    VideoDataAppend(before + mid, after);
    VideoDataAppend(before, mid);
    VA.FeedAllAppend(v.assembly, VideoData(before) + VideoData(mid), VideoData(after));
    VA.FeedAllAppend(v.assembly, VideoData(before), VideoData(mid));
    var a := VA.FeedAll(v.assembly, VideoData(before)).0;
    VA.DeliveredIffSendable(a, payload, frameId);
    MiddleOf(VA.FeedAll(v.assembly, VideoData(before)).1, VA.FeedAll(a, VideoData(mid)).1,
             VA.FeedAll(VA.FeedAll(a, VideoData(mid)).0, VideoData(after)).1);
  }

  lemma MiddleOf<T>(x: seq<T>, y: seq<T>, z: seq<T>)
    ensures (x + y + z)[|x|..|x| + |y|] == y
  {}
}
