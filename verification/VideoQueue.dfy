/** The player's keyframe-gated packet queue and decode loop (gateway_client/gateway_client.cpp). */
module VideoQueue {
  import opened Bytes

  const MAX_QUEUED: nat := 8
  const CATCHUP_THRESHOLD: nat := 6

  datatype Packet = Packet(bytes: seq<byte>, keyframe: bool, seqNo: u32)

  datatype Gate = Gate(queue: seq<Packet>, waiting: bool, dropped: nat)

  function Enqueue(g: Gate, p: Packet): Gate {
    if g.waiting && !p.keyframe then g
    else if |g.queue| >= MAX_QUEUED then
      if p.keyframe then Gate([p], false, g.dropped + |g.queue|)
      else Gate([], true, g.dropped + |g.queue|)
    else Gate(g.queue + [p], false, g.dropped)
  }

  /** The last keyframe among the first n packets, or n when there is none. */
  function LastKeyframe(queue: seq<Packet>, n: nat, none: nat): nat
    requires n <= |queue|
  {
    if n == 0 then none
    else if queue[n - 1].keyframe then n - 1
    else LastKeyframe(queue, n - 1, none)
  }

  function Trim(g: Gate): Gate {
    if |g.queue| <= CATCHUP_THRESHOLD then g
    else
      var keepFrom := LastKeyframe(g.queue, |g.queue|, |g.queue|);
      if keepFrom >= |g.queue| then Gate([], true, g.dropped + |g.queue|)
      else Gate(g.queue[keepFrom..], g.waiting, g.dropped + keepFrom)
  }

  /** The front packet is gone. */
  function Popped(g: Gate): Gate
    requires g.queue != []
  {
    g.(queue := g.queue[1..])
  }

  /** After a decode failure: nothing queued, and a keyframe awaited. */
  function Cleared(g: Gate): Gate {
    Gate([], true, g.dropped)
  }

  class SharedQueue {
    var queue: seq<Packet>
    var waitingForKeyframe: bool
    var droppedPackets: nat

    ghost function View(): Gate
      reads this
    {
      Gate(queue, waitingForKeyframe, droppedPackets)
    }

    constructor ()
      ensures View() == Gate([], true, 0)
    {
      queue, waitingForKeyframe, droppedPackets := [], true, 0;
    }

    method EnqueueVideoPacket(bytes: seq<byte>, keyframe: bool, seqNo: u32)
      modifies this
      ensures View() == Enqueue(old(View()), Packet(bytes, keyframe, seqNo))
    {
      if waitingForKeyframe && !keyframe {
        return;
      }
      if keyframe {
        waitingForKeyframe := false;
      }
      if |queue| >= MAX_QUEUED {
        droppedPackets := droppedPackets + |queue|;
        queue := [];
        waitingForKeyframe := true;
        if !keyframe {
          return;
        }
        waitingForKeyframe := false;
      }
      queue := queue + [Packet(bytes, keyframe, seqNo)];
    }

    method TrimVideoQueueForLatency()
      modifies this
      ensures View() == Trim(old(View()))
    {
      if |queue| <= CATCHUP_THRESHOLD {
        return;
      }
      var keepFrom := |queue|;
      var i := |queue|;
      while i > 0
        invariant 0 <= i <= |queue| && keepFrom == |queue|
        invariant LastKeyframe(queue, |queue|, |queue|) == LastKeyframe(queue, i, |queue|)
      {
        if queue[i - 1].keyframe {
          keepFrom := i - 1;
          break;
        }
        i := i - 1;
      }
      if keepFrom >= |queue| {
        droppedPackets := droppedPackets + |queue|;
        queue := [];
        waitingForKeyframe := true;
        return;
      }
      if keepFrom > 0 {
        droppedPackets := droppedPackets + keepFrom;
        queue := queue[keepFrom..];
      }
    }

    method PopFront() returns (p: Packet)
      requires queue != []
      modifies this`queue
      ensures p == old(queue)[0] && View() == Popped(old(View()))
    {
      p := queue[0];
      queue := queue[1..];
    }

    method ClearAfterDecodeFailure()
      modifies this`queue, this`waitingForKeyframe
      ensures View() == Cleared(old(View()))
    {
      queue := [];
      waitingForKeyframe := true;
    }
  }

  // Reader and decoder threads, interleaved

  datatype DecoderPc = Idle | Decoding(packet: Packet) | Failing

  /**
    `arrivals` are the packets the reader brought, in order. `popped` is the arrival last taken from the
    queue, -1 before the first; `handed` are the arrivals passed to the decoder, and `outcomes` whether their
    decoding succeeded, in the same order. The three counters say where the others went.
   */
  datatype Playback = Playback(gate: Gate, haveSync: bool, pc: DecoderPc, arrivals: seq<Packet>,
                               popped: int, handed: seq<nat>, outcomes: seq<bool>,
                               pops: nat, refused: nat, cleared: nat)

  datatype Event =
    | Arrive(packet: Packet)                 // enqueue and trim, under the lock
    | Pop                                    // take the front packet, under the lock
    | DecodeReturns(ok: bool, rendered: bool)
    | FailureClear                           // clear the queue, under the lock

  /** How many arrivals are no longer, or never were, in the queue. */
  function Gone(s: Playback): nat
    requires |s.gate.queue| <= |s.arrivals|
  {
    |s.arrivals| - |s.gate.queue|
  }

  function Step(s: Playback, e: Event): Playback
    requires |s.gate.queue| <= |s.arrivals|
  {
    match e
    case Arrive(p) =>
      var kept := p.keyframe || (!s.gate.waiting && |s.gate.queue| < MAX_QUEUED);
      s.(gate := Trim(Enqueue(s.gate, p)), arrivals := s.arrivals + [p],
         refused := s.refused + if kept then 0 else 1)
    case Pop =>
      if s.pc != Idle || s.gate.queue == [] then s
      else
        var p := s.gate.queue[0];
        var s' := s.(gate := Popped(s.gate), popped := Gone(s), pops := s.pops + 1);
        if !p.keyframe && !s.haveSync then s'
        else s'.(pc := Decoding(p), handed := s.handed + [Gone(s)])
    case DecodeReturns(ok, rendered) =>
      if !s.pc.Decoding? then s
      else
        var s' := s.(outcomes := s.outcomes + [ok]);
        if !ok then s'.(pc := Failing, haveSync := false)
        else s'.(pc := Idle, haveSync := s.haveSync || (s.pc.packet.bytes != [] && (rendered || s.pc.packet.keyframe)))
    case FailureClear =>
      if s.pc != Failing then s
      else s.(pc := Idle, gate := Cleared(s.gate), cleared := s.cleared + |s.gate.queue|)
  }

  /**
    Packets reach the decoder in runs: each run starts with a keyframe, misses no arrival, and ends at the first
    packet that does not decode.
   */
  ghost predicate InRuns(handed: seq<nat>, arrivals: seq<Packet>, outcomes: seq<bool>) {
    forall j | 0 <= j < |handed| :: InRunAt(handed, arrivals, outcomes, j)
  }

  predicate InRunAt(handed: seq<nat>, arrivals: seq<Packet>, outcomes: seq<bool>, j: nat)
    requires j < |handed|
  {
    && handed[j] < |arrivals|
    && (arrivals[handed[j]].keyframe || (0 < j <= |outcomes| && handed[j] == handed[j - 1] + 1 && outcomes[j - 1]))
    && (j > 0 ==> handed[j - 1] < handed[j])
  }

  /** The queue is the latest arrivals, and continues the last one popped unless it starts afresh with a keyframe. */
  ghost predicate GateInv(g: Gate, arrivals: seq<Packet>, popped: int) {
    && |g.queue| <= MAX_QUEUED
    && (g.waiting ==> g.queue == [])
    && |g.queue| <= |arrivals|
    && g.queue == arrivals[|arrivals| - |g.queue|..]
    && -1 <= popped < |arrivals| - |g.queue|
    && (!g.waiting && g.queue == [] ==> popped == |arrivals| - 1)
    && (g.queue != [] ==> g.queue[0].keyframe || popped == |arrivals| - |g.queue| - 1)
  }

  ghost predicate Inv(s: Playback) {
    && GateInv(s.gate, s.arrivals, s.popped)
    && InRuns(s.handed, s.arrivals, s.outcomes)
    && |s.handed| == |s.outcomes| + (if s.pc.Decoding? then 1 else 0)
    && (s.haveSync && s.outcomes != [] && !s.pc.Decoding? ==> s.outcomes[|s.outcomes| - 1])
    && (s.handed != [] ==> s.handed[|s.handed| - 1] <= s.popped)
    && (s.haveSync || s.pc.Decoding? ==> s.handed != [] && s.handed[|s.handed| - 1] == s.popped)
    && (s.pc == Failing ==> !s.haveSync)
    && |s.arrivals| == s.pops + |s.gate.queue| + s.gate.dropped + s.refused + s.cleared
  }

  lemma {:induction false} TrimKeepsSuffix(g: Gate)
    ensures var t := Trim(g);
            && |t.queue| <= |g.queue| && t.queue == g.queue[|g.queue| - |t.queue|..]
            && t.dropped + |t.queue| == g.dropped + |g.queue|
            && (t == g || t == Gate([], true, t.dropped) || (t.queue != [] && t.queue[0].keyframe && t.waiting == g.waiting))
  {
    LastKeyframeIs(g.queue, |g.queue|);
  }

  lemma {:induction false} LastKeyframeIs(queue: seq<Packet>, n: nat)
    requires n <= |queue|
    ensures var k := LastKeyframe(queue, n, |queue|);
            && k <= |queue|
            && (k < |queue| ==> k < n && queue[k].keyframe && forall i | k < i < n :: !queue[i].keyframe)
            && (k == |queue| ==> forall i | 0 <= i < n :: !queue[i].keyframe)
  {
    if n > 0 && !queue[n - 1].keyframe {
      LastKeyframeIs(queue, n - 1);
    }
  }

  /**
    A trim leaves up to six packets alone; of more it keeps those from the last keyframe on, or nothing when
    there is none, and then waits for one.
   */
  lemma {:induction false} TrimExactly(g: Gate)
    ensures |g.queue| <= 6 ==> Trim(g) == g
    ensures |g.queue| > 6 && (forall i | 0 <= i < |g.queue| :: !g.queue[i].keyframe) ==>
              Trim(g) == Gate([], true, g.dropped + |g.queue|)
    ensures forall k | 0 <= k < |g.queue| && |g.queue| > 6 && g.queue[k].keyframe
                       && (forall i | k < i < |g.queue| :: !g.queue[i].keyframe) ::
              Trim(g) == Gate(g.queue[k..], g.waiting, g.dropped + k)
  {
    LastKeyframeIs(g.queue, |g.queue|);
  }

  /** The packet is the last of the queue, and the gate is open. */
  predicate Queued(g: Gate, p: Packet) {
    g.queue != [] && g.queue[|g.queue| - 1] == p && !g.waiting
  }

  predicate HasKeyframe(queue: seq<Packet>) {
    exists i | 0 <= i < |queue| :: queue[i].keyframe
  }

  /**
    Which arrivals are queued: every keyframe; any other packet exactly when the gate is open and there is room,
    for six at most unless one of the packets queued is a keyframe, and then for eight.
   */
  lemma {:induction false} ArrivalQueued(g: Gate, p: Packet)
    requires |g.queue| <= MAX_QUEUED && (g.waiting ==> g.queue == [])
    ensures Queued(Trim(Enqueue(g, p)), p) <==>
            p.keyframe || (!g.waiting && (|g.queue| < 6 || (|g.queue| < 8 && HasKeyframe(g.queue))))
    ensures !p.keyframe && Queued(Trim(Enqueue(g, p)), p) && |g.queue| < 6 ==>
              Trim(Enqueue(g, p)).queue == g.queue + [p]
    ensures p.keyframe && |g.queue| < 6 ==> Trim(Enqueue(g, p)).queue == g.queue + [p]
    ensures p.keyframe && |g.queue| >= 6 ==> Trim(Enqueue(g, p)).queue == [p]
    ensures !Queued(Trim(Enqueue(g, p)), p) ==> Trim(Enqueue(g, p)).queue == [] && Trim(Enqueue(g, p)).waiting
  {
    hide Trim, HasKeyframe;
    var e := Enqueue(g, p);
    if e.queue == g.queue + [p] {
      if |e.queue| <= 6 {
        TrimExactly(e);
      } else {
        TrimOfLong(e, g.queue, p);
      }
    } else {
      TrimExactly(e);
    }
  }

  lemma {:induction false} TrimOfLong(e: Gate, queue: seq<Packet>, p: Packet)
    requires e.queue == queue + [p] && |queue| >= 6 && !e.waiting
    ensures p.keyframe ==> Trim(e).queue == [p] && !Trim(e).waiting
    ensures !p.keyframe && HasKeyframe(queue) ==> Queued(Trim(e), p)
    ensures !p.keyframe && !HasKeyframe(queue) ==> Trim(e).queue == [] && Trim(e).waiting
  {
    hide Trim;
    var n := |queue|;
    if p.keyframe {
      TrimTo(e, n);
      assert e.queue[n..] == [p];
    } else if HasKeyframe(queue) {
      var k := LastKeyframe(queue, n, n);
      LastKeyframeIs(queue, n);
      TrimTo(e, k);
      assert e.queue[k..][|e.queue| - k - 1] == p;
    } else {
      hide HasKeyframe;
      NoKeyframe(queue);
      TrimToNothing(e);
    }
  }

  lemma NoKeyframe(queue: seq<Packet>)
    requires !HasKeyframe(queue)
    ensures forall i | 0 <= i < |queue| :: !queue[i].keyframe
  {}

  lemma {:induction false} TrimTo(g: Gate, k: nat)
    requires |g.queue| > 6 && k < |g.queue| && g.queue[k].keyframe
    requires forall i | k < i < |g.queue| :: !g.queue[i].keyframe
    ensures Trim(g) == Gate(g.queue[k..], g.waiting, g.dropped + k)
  {
    hide Trim;
    TrimExactly(g);
  }

  lemma {:induction false} TrimToNothing(g: Gate)
    requires |g.queue| > 6 && forall i | 0 <= i < |g.queue| :: !g.queue[i].keyframe
    ensures Trim(g) == Gate([], true, g.dropped + |g.queue|)
  {
    hide Trim;
    TrimExactly(g);
  }

  lemma {:induction false} EnqueueKeepsInv(g: Gate, arrivals: seq<Packet>, popped: int, p: Packet)
    requires GateInv(g, arrivals, popped)
    ensures GateInv(Enqueue(g, p), arrivals + [p], popped)
    ensures Enqueue(g, p).dropped + |Enqueue(g, p).queue| == g.dropped + |g.queue|
                + if p.keyframe || (!g.waiting && |g.queue| < MAX_QUEUED) then 1 else 0
  {
    var all := arrivals + [p];
    assert all[|arrivals| - |g.queue|..] == g.queue + [p];
    assert all[|arrivals|..] == [p] && all[|all|..] == [];
  }

  lemma {:induction false} TrimKeepsInv(g: Gate, arrivals: seq<Packet>, popped: int)
    requires GateInv(g, arrivals, popped)
    ensures GateInv(Trim(g), arrivals, popped)
  {
    TrimKeepsSuffix(g);
    var n := |g.queue| - |Trim(g).queue|;
    assert arrivals[|arrivals| - |g.queue|..][n..] == arrivals[|arrivals| - |Trim(g).queue|..];
  }

  lemma {:induction false} RunsGrow(handed: seq<nat>, arrivals: seq<Packet>, outcomes: seq<bool>, p: Packet, ok: bool)
    requires InRuns(handed, arrivals, outcomes)
    ensures InRuns(handed, arrivals + [p], outcomes) && InRuns(handed, arrivals, outcomes + [ok])
  {
    forall j | 0 <= j < |handed|
      ensures InRunAt(handed, arrivals + [p], outcomes, j) && InRunAt(handed, arrivals, outcomes + [ok], j)
    {
      assert InRunAt(handed, arrivals, outcomes, j);
    }
  }

  lemma {:induction false} RunsContinue(handed: seq<nat>, arrivals: seq<Packet>, outcomes: seq<bool>, next: nat)
    requires InRuns(handed, arrivals, outcomes) && next < |arrivals| && |outcomes| == |handed|
    requires handed != [] ==> handed[|handed| - 1] < next
    requires arrivals[next].keyframe
             || (handed != [] && handed[|handed| - 1] + 1 == next && outcomes[|handed| - 1])
    ensures InRuns(handed + [next], arrivals, outcomes)
  {
    forall j | 0 <= j < |handed + [next]|
      ensures InRunAt(handed + [next], arrivals, outcomes, j)
    {
      if j < |handed| {
        assert InRunAt(handed, arrivals, outcomes, j);
      }
    }
  }

  lemma {:induction false} ArriveKeepsInv(s: Playback, p: Packet)
    requires Inv(s)
    ensures Inv(Step(s, Arrive(p)))
  {
    hide GateInv, Enqueue, Trim, InRuns;
    RunsGrow(s.handed, s.arrivals, s.outcomes, p, true);
    EnqueueKeepsInv(s.gate, s.arrivals, s.popped, p);
    TrimKeepsInv(Enqueue(s.gate, p), s.arrivals + [p], s.popped);
    TrimKeepsSuffix(Enqueue(s.gate, p));
  }

  lemma {:induction false} PopKeepsInv(s: Playback)
    requires Inv(s)
    ensures Inv(Step(s, Pop))
  {
    hide InRuns;
    if s.pc == Idle && s.gate.queue != [] {
      if s.gate.queue[0].keyframe || s.haveSync {
        RunsContinue(s.handed, s.arrivals, s.outcomes, Gone(s));
      }
      assert s.gate.queue[0] == s.arrivals[Gone(s)];
      assert s.gate.queue[1..] == s.arrivals[Gone(s) + 1..];
    }
  }

  lemma {:induction false} StepKeepsInv(s: Playback, e: Event)
    requires Inv(s)
    ensures Inv(Step(s, e))
  {
    match e
    case Arrive(p) => ArriveKeepsInv(s, p);
    case Pop => PopKeepsInv(s);
    case DecodeReturns(ok, _) =>
      hide InRuns;
      RunsGrow(s.handed, s.arrivals, s.outcomes, Packet([], false, 0), ok);
    case FailureClear =>
  }

  const START: Playback := Playback(Gate([], true, 0), false, Idle, [], -1, [], [], 0, 0, 0)

  function Run(s: Playback, events: seq<Event>): Playback
    requires Inv(s)
    decreases |events|
  {
    if events == [] then s
    else
      StepKeepsInv(s, events[0]);
      Run(Step(s, events[0]), events[1..])
  }

  /**
    Whatever the interleaving of arrivals, pops and decode failures: the decoder is given runs that start
    with a keyframe, miss nothing and end where a decoding fails, the queue never holds more than eight packets and is empty while a
    keyframe is awaited, and every arrival is accounted for.
   */
  lemma {:induction false} DecoderSeesRuns(s: Playback, events: seq<Event>)
    requires Inv(s)
    ensures var r := Run(s, events);
            && InRuns(r.handed, r.arrivals, r.outcomes)
            && |r.gate.queue| <= MAX_QUEUED && (r.gate.waiting ==> r.gate.queue == [])
            && |r.arrivals| == r.pops + |r.gate.queue| + r.gate.dropped + r.refused + r.cleared
    decreases |events|
  {
    if events != [] {
      StepKeepsInv(s, events[0]);
      DecoderSeesRuns(Step(s, events[0]), events[1..]);
    }
  }

  lemma {:induction false} StartsInvariant()
    ensures Inv(START)
  {
    assert START.handed == [] && START.outcomes == [] && START.arrivals[0..] == [];
    hide Gone, Trim, Enqueue, LastKeyframe;
  }

  /** From the start, whatever the interleaving. */
  lemma {:induction false} EveryPlayback(events: seq<Event>)
    ensures Inv(START)
    ensures var r := Run(START, events);
            && InRuns(r.handed, r.arrivals, r.outcomes)
            && |r.gate.queue| <= MAX_QUEUED && (r.gate.waiting ==> r.gate.queue == [])
            && |r.arrivals| == r.pops + |r.gate.queue| + r.gate.dropped + r.refused + r.cleared
  {
    StartsInvariant();
    DecoderSeesRuns(START, events);
  }

  // The gate opens

  /** Pops, each followed by a decode that succeeds; a flag says whether it gave a picture. */
  function Rounds(rendered: seq<bool>): seq<Event> {
    if rendered == [] then [] else [Pop, DecodeReturns(true, rendered[0])] + Rounds(rendered[1..])
  }

  lemma {:induction false} RunTwo(s: Playback, e: Event, f: Event, later: seq<Event>)
    requires Inv(s)
    ensures Inv(Step(s, e)) && Inv(Step(Step(s, e), f))
    ensures Run(s, [e, f] + later) == Run(Step(Step(s, e), f), later)
  {
    hide Step, InRuns;
    StepKeepsInv(s, e);
    StepKeepsInv(Step(s, e), f);
    assert ([e, f] + later)[1..] == [f] + later && ([f] + later)[1..] == later;
  }

  /** One round takes the front packet, and hands it over if it is a keyframe or the decoder is in sync. */
  lemma {:induction false} OneRound(s: Playback, rendered: bool)
    requires Inv(s) && s.pc == Idle && s.gate.queue != []
    ensures var s' := Step(Step(s, Pop), DecodeReturns(true, rendered));
            var p := s.gate.queue[0];
            && s'.pc == Idle && s'.gate == Popped(s.gate) && s'.arrivals == s.arrivals
            && s'.handed == s.handed + (if p.keyframe || s.haveSync then [Gone(s)] else [])
            && s'.haveSync == (s.haveSync || (p.keyframe && p.bytes != []))
  {
    hide InRuns;
  }

  /** The arrivals from n on. */
  function From(n: nat, m: nat): (r: seq<nat>)
    requires n <= m
    ensures |r| == m - n
  {
    seq(m - n, i requires 0 <= i < m - n => n + i)
  }

  /** With a decoder in sync, as many rounds as packets are queued hand over all of them, in order. */
  lemma {:induction false} InSyncDrains(s: Playback, rendered: seq<bool>)
    requires Inv(s) && s.pc == Idle && |rendered| == |s.gate.queue| && s.haveSync
    ensures var r := Run(s, Rounds(rendered));
            && r.gate.queue == [] && r.pc == Idle && r.haveSync && r.arrivals == s.arrivals
            && r.handed == s.handed + From(Gone(s), |s.arrivals|)
    decreases |rendered|
  {
    hide Step, InRuns;
    if rendered == [] {
      assert s.handed + [] == s.handed;
    } else {
      OneRound(s, rendered[0]);
      RunTwo(s, Pop, DecodeReturns(true, rendered[0]), Rounds(rendered[1..]));
      var s1 := Step(Step(s, Pop), DecodeReturns(true, rendered[0]));
      InSyncDrains(s1, rendered[1..]);
      assert From(Gone(s), |s.arrivals|) == [Gone(s)] + From(Gone(s) + 1, |s.arrivals|);
      Associative(s.handed, [Gone(s)], From(Gone(s) + 1, |s.arrivals|));
    }
  }

  /** The queue is popped to its end, and what was last in it is handed over if it is a keyframe. */
  lemma {:induction false} KeyframeAtEndIsHanded(s: Playback, rendered: seq<bool>)
    requires Inv(s) && s.pc == Idle && |rendered| == |s.gate.queue| > 0
    requires s.gate.queue[|s.gate.queue| - 1].keyframe
    ensures var r := Run(s, Rounds(rendered));
            && r.gate.queue == [] && r.pc == Idle && r.arrivals == s.arrivals
            && r.handed != [] && r.handed[|r.handed| - 1] == |s.arrivals| - 1
            && (s.gate.queue[|s.gate.queue| - 1].bytes != [] ==> r.haveSync)
    decreases |rendered|
  {
    hide Step, InRuns;
    OneRound(s, rendered[0]);
    RunTwo(s, Pop, DecodeReturns(true, rendered[0]), Rounds(rendered[1..]));
    var s1 := Step(Step(s, Pop), DecodeReturns(true, rendered[0]));
    if |rendered| == 1 {
      assert Rounds(rendered[1..]) == [];
    } else {
      KeyframeAtEndIsHanded(s1, rendered[1..]);
    }
  }

  /**
    The gate opens: from any reachable state with an idle decoder, whatever was queued or awaited, a keyframe
    that arrives is handed over by as many rounds as packets are then queued. The decoder is then in sync and
    the gate open; so the packets that follow are handed over as well.
   */
  lemma {:induction false} KeyframeReachesDecoder(s: Playback, p: Packet, rendered: seq<bool>)
    requires Inv(s) && s.pc == Idle && p.keyframe
    requires |rendered| == |Step(s, Arrive(p)).gate.queue|
    ensures var r := Run(s, [Arrive(p)] + Rounds(rendered));
            && Inv(r) && r.arrivals == s.arrivals + [p] && r.gate.queue == [] && r.pc == Idle && !r.gate.waiting
            && r.handed != [] && r.handed[|r.handed| - 1] == |s.arrivals|
            && (p.bytes != [] ==> r.haveSync)
  {
    hide Step, InRuns, Enqueue, Trim;
    ArriveQueues(s, p);
    var s1 := Step(s, Arrive(p));
    ArriveKeepsInv(s, p);
    assert ([Arrive(p)] + Rounds(rendered))[1..] == Rounds(rendered);
    KeyframeAtEndIsHanded(s1, rendered);
    RoundsKeepGate(s1, rendered);
  }

  lemma {:induction false} ArriveQueues(s: Playback, p: Packet)
    requires Inv(s)
    ensures var s1 := Step(s, Arrive(p));
            && s1.arrivals == s.arrivals + [p] && s1.pc == s.pc && s1.haveSync == s.haveSync && s1.handed == s.handed
            && (p.keyframe ==> Queued(s1.gate, p))
  {
    hide Enqueue, Trim, InRuns;
    ArrivalQueued(s.gate, p);
  }

  lemma {:induction false} RoundsKeepGate(s: Playback, rendered: seq<bool>)
    requires Inv(s) && s.pc == Idle && |rendered| == |s.gate.queue|
    ensures Inv(Run(s, Rounds(rendered))) && Run(s, Rounds(rendered)).gate.waiting == s.gate.waiting
    decreases |rendered|
  {
    hide Step, InRuns;
    if rendered != [] {
      OneRound(s, rendered[0]);
      RunTwo(s, Pop, DecodeReturns(true, rendered[0]), Rounds(rendered[1..]));
      RoundsKeepGate(Step(Step(s, Pop), DecodeReturns(true, rendered[0])), rendered[1..]);
    }
  }
}
