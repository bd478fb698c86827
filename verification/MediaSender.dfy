/**
  The encrypted sender shared by the audio and video threads (wsh264/app/wsh264.cpp).

  A call of `send_encrypted_media` is a thread going through program points; each critical section and
  each step between two of them is atomic, and any number of threads may be on their way at once.
 */
module MediaSender {
  import opened Bytes
  import CS = CryptoStream

  datatype Kind = Audio | Video

  datatype Pc =
    | Entered                      // called, priority not yet taken
    | Prioritised                  // audio has announced itself; video has seen no audio pending
    | HoldingTx                    // tx_lock taken
    | Sequenced(attempt: nat, seqNo: u32)  // crypto_lock released, crypto_init out, this number taken
    | Finishing                    // about to release tx_lock
    | Released                     // tx_lock released or never taken

  datatype Thread = Thread(kind: Kind, pc: Pc)

  /**
    What the peer receives: a media packet carries the sequence number it was encrypted under. `attempt`
    numbers the calls that took a sequence number, from 0.
   */
  datatype Message = CryptoInit | Media(kind: Kind, attempt: nat, seqNo: u32)

  datatype Sender = Sender(
    threads: map<nat, Thread>,
    txOwner: Option<nat>,
    pendingAudio: nat,             // pending_audio_packets
    mediaSeq: u32,                 // media_seq
    initSent: bool,                // crypto_init_sent
    attempts: nat,                 // history: sequence numbers taken
    failures: nat,                 // history: those whose init or packet could not be sent
    wire: seq<Message>)

  /** The number the attempt ought to get: the counter has 32 bits. */
  function SeqNo(attempt: nat): u32 {
    attempt % TWO_TO_32
  }

  datatype Event =
    | Enter(tid: nat, kind: Kind)
    | TakePriority(tid: nat)
    | NoMemory(tid: nat)
    | LockTx(tid: nat)
    | CryptoSection(tid: nat, initOk: bool)
    | SendPacket(tid: nat, ok: bool)
    | UnlockTx(tid: nat)
    | Leave(tid: nat)

  predicate At(s: Sender, tid: nat, pc: Pc) {
    tid in s.threads && s.threads[tid].pc == pc
  }

  function Move(s: Sender, tid: nat, pc: Pc): Sender
    requires tid in s.threads
  {
    s.(threads := s.threads[tid := Thread(s.threads[tid].kind, pc)])
  }

  // The critical sections, on the fields of app_t

  datatype Fields = Fields(pendingAudio: nat, mediaSeq: u32, initSent: bool)

  function BeginPriority(f: Fields): Fields {
    f.(pendingAudio := f.pendingAudio + 1)
  }

  function EndPriority(f: Fields): Fields {
    if f.pendingAudio > 0 then f.(pendingAudio := f.pendingAudio - 1) else f
  }

  /** `send_crypto_init_locked` and the sequence number: whether to go on, what went out, the number taken. */
  function InitAndSequence(f: Fields, initOk: bool): (r: (bool, seq<Message>, u32, Fields)) {
    var f' := f.(mediaSeq := (f.mediaSeq as int + 1) % TWO_TO_32);
    if f.initSent then (true, [], f.mediaSeq, f')
    else if initOk then (true, [CryptoInit], f.mediaSeq, f'.(initSent := true))
    else (false, [], f.mediaSeq, f')
  }

  function FieldsOf(s: Sender): Fields {
    Fields(s.pendingAudio, s.mediaSeq, s.initSent)
  }

  function WithFields(s: Sender, f: Fields): Sender {
    s.(pendingAudio := f.pendingAudio, mediaSeq := f.mediaSeq, initSent := f.initSent)
  }

  /** An event that is not enabled changes nothing. */
  function Step(s: Sender, e: Event): Sender {
    match e
    case Enter(tid, kind) =>
      if tid in s.threads then s else s.(threads := s.threads[tid := Thread(kind, Entered)])
    case TakePriority(tid) =>
      if !At(s, tid, Entered) then s
      else if s.threads[tid].kind == Audio then Move(WithFields(s, BeginPriority(FieldsOf(s))), tid, Prioritised)
      else if s.pendingAudio == 0 then Move(s, tid, Prioritised)
      else s
    case NoMemory(tid) =>
      if !At(s, tid, Prioritised) then s else Move(s, tid, Released)
    case LockTx(tid) =>
      if !At(s, tid, Prioritised) || s.txOwner.Some? then s
      else Move(s.(txOwner := Some(tid)), tid, HoldingTx)
    case CryptoSection(tid, initOk) =>
      if !At(s, tid, HoldingTx) then s
      else
        var (ok, sent, seqNo, f) := InitAndSequence(FieldsOf(s), initOk);
        Move(WithFields(s, f).(attempts := s.attempts + 1, failures := s.failures + (if ok then 0 else 1),
                               wire := s.wire + sent),
             tid, if ok then Sequenced(s.attempts, seqNo) else Finishing)
    case SendPacket(tid, ok) =>
      if tid !in s.threads || !s.threads[tid].pc.Sequenced? then s
      else
        var m := Media(s.threads[tid].kind, s.threads[tid].pc.attempt, s.threads[tid].pc.seqNo);
        Move(s.(wire := s.wire + (if ok then [m] else []), failures := s.failures + if ok then 0 else 1), tid, Finishing)
    case UnlockTx(tid) =>
      if !At(s, tid, Finishing) then s else Move(s.(txOwner := None), tid, Released)
    case Leave(tid) =>
      if !At(s, tid, Released) then s
      else
        var s' := if s.threads[tid].kind == Audio then WithFields(s, EndPriority(FieldsOf(s))) else s;
        s'.(threads := s'.threads - {tid})
  }

  function Run(s: Sender, events: seq<Event>): Sender
    decreases |events|
  {
    if events == [] then s else Run(Step(s, events[0]), events[1..])
  }

  const START: Sender := Sender(map[], None, 0, 0, false, 0, 0, [])

  // What holds in every reachable state

  /** The audio sends in progress: announced and not yet withdrawn. */
  function AudioInProgress(threads: map<nat, Thread>): set<nat> {
    set t | t in threads && threads[t].kind == Audio && threads[t].pc != Entered
  }

  predicate InTx(pc: Pc) {
    pc == HoldingTx || pc.Sequenced? || pc == Finishing
  }

  /** Only the owner of tx_lock is between taking and releasing it. */
  ghost predicate LockInv(s: Sender) {
    && (forall t | t in s.threads :: InTx(s.threads[t].pc) <==> s.txOwner == Some(t))
    && (s.txOwner.Some? ==> s.txOwner.value in s.threads)
  }

  /** crypto_init first and only once; then media in the order of their attempts, each with its number, all below the bound. */
  ghost predicate Ordered(wire: seq<Message>, bound: nat) {
    && (wire != [] ==> wire[0] == CryptoInit)
    && (forall i | 0 < i < |wire| ::
          wire[i].Media? && wire[i].attempt < bound && wire[i].seqNo == SeqNo(wire[i].attempt))
    && (forall i, j | 0 < i < j < |wire| :: wire[i].attempt < wire[j].attempt)
  }

  ghost predicate WireInv(s: Sender) {
    && s.mediaSeq == SeqNo(s.attempts)
    && (s.initSent <==> s.wire != [])
    && Ordered(s.wire, s.attempts)
    && (forall t | t in s.threads && s.threads[t].pc.Sequenced? ::
          && s.initSent && s.threads[t].pc.attempt < s.attempts && Ordered(s.wire, s.threads[t].pc.attempt)
          && s.threads[t].pc.seqNo == SeqNo(s.threads[t].pc.attempt))
  }

  /** A sequence number has been taken for a packet that is not out yet. */
  ghost predicate OnItsWay(s: Sender) {
    s.txOwner.Some? && s.txOwner.value in s.threads && s.threads[s.txOwner.value].pc.Sequenced?
  }

  /** Every number taken is on the wire, failed, or on its way. */
  ghost predicate Accounted(s: Sender) {
    s.attempts == (if s.wire == [] then 0 else |s.wire| - 1) + s.failures + if OnItsWay(s) then 1 else 0
  }

  ghost predicate Inv(s: Sender) {
    LockInv(s) && WireInv(s) && Accounted(s) && s.pendingAudio == |AudioInProgress(s.threads)|
  }

  lemma {:induction false} CountAdds(threads: map<nat, Thread>, tid: nat, th: Thread)
    requires th.kind == Audio && th.pc != Entered && tid !in AudioInProgress(threads)
    ensures |AudioInProgress(threads[tid := th])| == |AudioInProgress(threads)| + 1
  {
    assert AudioInProgress(threads[tid := th]) == AudioInProgress(threads) + {tid};
  }

  lemma {:induction false} CountDrops(threads: map<nat, Thread>, tid: nat)
    requires tid in threads
    ensures |AudioInProgress(threads - {tid})|
         == |AudioInProgress(threads)| - if tid in AudioInProgress(threads) then 1 else 0
  {
    assert AudioInProgress(threads - {tid}) == AudioInProgress(threads) - {tid};
  }

  lemma CountKeeps(threads: map<nat, Thread>, tid: nat, th: Thread)
    requires tid in AudioInProgress(threads) <==> th.kind == Audio && th.pc != Entered
    ensures AudioInProgress(threads[tid := th]) == AudioInProgress(threads)
  {}

  lemma {:induction false} StepCounts(s: Sender, e: Event)
    requires Inv(s)
    ensures Step(s, e).pendingAudio == |AudioInProgress(Step(s, e).threads)|
  {
    var s' := Step(s, e);
    var tid := e.tid;
    if e.Leave? {
      if At(s, tid, Released) {
        CountDrops(s.threads, tid);
      }
    } else if s' != s {
      var th := s'.threads[tid];
      if e.TakePriority? && th.kind == Audio {
        CountAdds(s.threads, tid, th);
      } else {
        CountKeeps(s.threads, tid, th);
      }
    }
  }

  lemma StepKeepsLock(s: Sender, e: Event)
    requires Inv(s)
    ensures LockInv(Step(s, e))
  {}

  lemma {:induction false} StepKeepsAccount(s: Sender, e: Event)
    requires Inv(s)
    ensures Accounted(Step(s, e))
  {
    hide Ordered, AudioInProgress, SeqNo;
    assert e.CryptoSection? && At(s, e.tid, HoldingTx) ==> s.txOwner == Some(e.tid);
    assert e.SendPacket? && e.tid in s.threads && s.threads[e.tid].pc.Sequenced? ==> s.txOwner == Some(e.tid);
  }

  lemma OrderedGrows(wire: seq<Message>, attempt: nat, bound: nat, kind: Kind)
    requires wire != [] && Ordered(wire, attempt) && attempt < bound
    ensures Ordered(wire + [Media(kind, attempt, SeqNo(attempt))], bound) && Ordered(wire, bound)
  {}

  lemma {:induction false} CryptoSectionKeepsWire(s: Sender, tid: nat, initOk: bool)
    requires Inv(s) && At(s, tid, HoldingTx)
    ensures WireInv(Step(s, CryptoSection(tid, initOk)))
  {
    hide SeqNo, Ordered, AudioInProgress, Accounted;
    assert s.txOwner == Some(tid);
    assert forall t | t in s.threads && t != tid :: !s.threads[t].pc.Sequenced?;
    NextSeqNo(s.attempts);
    var (ok, sent, seqNo, f) := InitAndSequence(FieldsOf(s), initOk);
    InitOrdered(s.wire, s.attempts, sent);
    var s' := Step(s, CryptoSection(tid, initOk));
    assert s'.threads == s.threads[tid := Thread(s.threads[tid].kind, if ok then Sequenced(s.attempts, seqNo) else Finishing)];
  }

  lemma NextSeqNo(attempt: nat)
    ensures (SeqNo(attempt) as int + 1) % TWO_TO_32 == SeqNo(attempt + 1)
  {}

  /** The section itself sends the init at most, and that into an empty wire. */
  lemma InitOrdered(wire: seq<Message>, attempts: nat, sent: seq<Message>)
    requires Ordered(wire, attempts) && (sent == [] || (sent == [CryptoInit] && wire == []))
    ensures Ordered(wire + sent, attempts) && Ordered(wire + sent, attempts + 1)
  {
    if sent == [] {
      assert wire + sent == wire;
    }
  }

  lemma {:induction false} SendKeepsWire(s: Sender, tid: nat, ok: bool)
    requires Inv(s) && tid in s.threads && s.threads[tid].pc.Sequenced?
    ensures WireInv(Step(s, SendPacket(tid, ok)))
  {
    assert s.txOwner == Some(tid);
    assert forall t | t in s.threads && t != tid :: !s.threads[t].pc.Sequenced?;
    OrderedGrows(s.wire, s.threads[tid].pc.attempt, s.attempts, s.threads[tid].kind);
  }

  lemma {:induction false} StepKeepsWire(s: Sender, e: Event)
    requires Inv(s)
    ensures WireInv(Step(s, e))
  {
    if e.CryptoSection? && At(s, e.tid, HoldingTx) {
      CryptoSectionKeepsWire(s, e.tid, e.initOk);
    } else if e.SendPacket? && e.tid in s.threads && s.threads[e.tid].pc.Sequenced? {
      SendKeepsWire(s, e.tid, e.ok);
    } else {
      hide Ordered;
      assert Step(s, e).wire == s.wire;
    }
  }

  lemma {:induction false} StepKeepsInv(s: Sender, e: Event)
    requires Inv(s)
    ensures Inv(Step(s, e))
  {
    StepKeepsLock(s, e);
    StepKeepsWire(s, e);
    StepKeepsAccount(s, e);
    StepCounts(s, e);
  }

  lemma {:induction false} RunKeepsInv(s: Sender, events: seq<Event>)
    requires Inv(s)
    ensures Inv(Run(s, events))
    decreases |events|
  {
    hide Step, Inv;
    if events != [] {
      StepKeepsInv(s, events[0]);
      RunKeepsInv(Step(s, events[0]), events[1..]);
    }
  }

  /** Two media packets share a nonce only when a multiple of 2^32 attempts lies between them. */
  ghost predicate NoncesApart(s: Sender, nonce: CS.Nonce) {
    forall i, j | 0 < i < j < |s.wire| && s.wire[i].Media? && s.wire[j].Media? ::
      CS.PacketNonce(nonce, s.wire[i].seqNo) == CS.PacketNonce(nonce, s.wire[j].seqNo)
      <==> (s.wire[j].attempt - s.wire[i].attempt) % TWO_TO_32 == 0
  }

  /** Sequence numbers strictly increase along the wire and no nonce is used twice. */
  ghost predicate Fresh(s: Sender, nonce: CS.Nonce) {
    forall i, j | 0 < i < j < |s.wire| && s.wire[i].Media? && s.wire[j].Media? ::
      && s.wire[i].seqNo < s.wire[j].seqNo
      && CS.PacketNonce(nonce, s.wire[i].seqNo) != CS.PacketNonce(nonce, s.wire[j].seqNo)
  }

  /**
    For every interleaving from the start: crypto_init goes out at most once and before any media; the
    pending counter is the number of audio sends in progress; at most one thread is inside tx_lock; nonces
    are apart; and while no more than 2^32 sequence numbers have been taken, they are fresh. Of the numbers
    taken all are on the wire, but for those whose sending failed and the one on its way.
   */
  lemma {:induction false} EveryInterleaving(events: seq<Event>, nonce: CS.Nonce)
    ensures var s := Run(START, events);
            && (forall i | 0 <= i < |s.wire| :: s.wire[i].CryptoInit? <==> i == 0)
            && s.pendingAudio == |AudioInProgress(s.threads)|
            && (forall t, u | t in s.threads && u in s.threads && InTx(s.threads[t].pc) && InTx(s.threads[u].pc) :: t == u)
            && NoncesApart(s, nonce)
            && (s.attempts <= TWO_TO_32 ==> Fresh(s, nonce))
            && Accounted(s)
  {
    hide Run, Step, Fresh, NoncesApart;
    StartInvariant();
    RunKeepsInv(START, events);
    var s := Run(START, events);
    WireNonces(s, nonce);
  }

  lemma {:induction false} StartInvariant()
    ensures Inv(START)
  {
    assert AudioInProgress(map[]) == {};
  }

  lemma {:induction false} WireNonces(s: Sender, nonce: CS.Nonce)
    requires WireInv(s)
    ensures NoncesApart(s, nonce)
    ensures s.attempts <= TWO_TO_32 ==> Fresh(s, nonce)
  {
    hide CS.PacketNonce;
    forall i, j | 0 < i < j < |s.wire|
      ensures CS.PacketNonce(nonce, s.wire[i].seqNo) == CS.PacketNonce(nonce, s.wire[j].seqNo)
         <==> (s.wire[j].attempt - s.wire[i].attempt) % TWO_TO_32 == 0
      ensures s.attempts <= TWO_TO_32 ==> s.wire[i].seqNo < s.wire[j].seqNo
    {
      CS.PacketNonceInjective(nonce, s.wire[i].seqNo, s.wire[j].seqNo);
      SameSeqNo(s.wire[i].attempt, s.wire[j].attempt);
    }
  }

  lemma SameSeqNo(a: nat, b: nat)
    requires a <= b
    ensures SeqNo(a) == SeqNo(b) <==> (b - a) % TWO_TO_32 == 0
    ensures b < TWO_TO_32 ==> SeqNo(a) == a && SeqNo(b) == b
  {}

  // What single steps do

  /** Whatever is sent in the first, the section run twice hands out two successive numbers. */
  lemma SuccessiveNumbers(f: Fields, initOk: bool, initOkAgain: bool)
    ensures InitAndSequence(InitAndSequence(f, initOk).3, initOkAgain).2
         == (InitAndSequence(f, initOk).2 as int + 1) % TWO_TO_32
  {}

  /** A send that succeeds puts the thread's packet on the wire, under the number the thread holds. */
  lemma SendReachesWire(s: Sender, tid: nat)
    requires tid in s.threads && s.threads[tid].pc.Sequenced?
    ensures var th := s.threads[tid];
            Step(s, SendPacket(tid, true)).wire == s.wire + [Media(th.kind, th.pc.attempt, th.pc.seqNo)]
  {}

  /** A video thread gets past its wait exactly when no audio send is in progress; audio never waits. */
  lemma {:induction false} VideoWaits(s: Sender, tid: nat)
    requires Inv(s) && At(s, tid, Entered)
    ensures var s' := Step(s, TakePriority(tid));
            if s.threads[tid].kind == Video
            then s' == if AudioInProgress(s.threads) == {} then Move(s, tid, Prioritised) else s
            else AudioInProgress(s'.threads) == AudioInProgress(s.threads) + {tid} && At(s', tid, Prioritised)
  {
    hide WireInv, LockInv, Accounted;
    assert |AudioInProgress(s.threads)| == 0 <==> AudioInProgress(s.threads) == {};
  }

  /** How far a thread is from leaving. */
  function Remaining(pc: Pc): nat {
    match pc
    case Entered => 6
    case Prioritised => 5
    case HoldingTx => 4
    case Sequenced(_, _) => 3
    case Finishing => 2
    case Released => 1
  }

  /** The thread has come closer to leaving, or has left, and no other has moved. */
  ghost predicate MovesOn(s: Sender, s': Sender, tid: nat) {
    && tid in s.threads
    && (tid in s'.threads ==> Remaining(s'.threads[tid].pc) < Remaining(s.threads[tid].pc))
    && s'.threads - {tid} == s.threads - {tid}
  }

  /** What a thread that is past its wait does next. */
  function NextEvent(tid: nat, pc: Pc): Event {
    match pc
    case Entered => TakePriority(tid)
    case Prioritised => LockTx(tid)
    case HoldingTx => CryptoSection(tid, true)
    case Sequenced(_, _) => SendPacket(tid, true)
    case Finishing => UnlockTx(tid)
    case Released => Leave(tid)
  }

  lemma {:induction false} EventMoves(s: Sender, tid: nat)
    requires tid in s.threads
    requires s.threads[tid].pc == Entered ==> s.threads[tid].kind == Audio || s.pendingAudio == 0
    requires s.threads[tid].pc == Prioritised ==> s.txOwner == None
    ensures MovesOn(s, Step(s, NextEvent(tid, s.threads[tid].pc)), tid)
  {
    var s' := Step(s, NextEvent(tid, s.threads[tid].pc));
    assert s'.threads - {tid} == s.threads - {tid};
  }

  /** Nobody waits for ever on the others: as long as a send is in progress, some thread can move on. */
  lemma {:induction false} SomeoneMoves(s: Sender) returns (tid: nat)
    requires Inv(s) && s.threads != map[]
    ensures tid in s.threads && MovesOn(s, Step(s, NextEvent(tid, s.threads[tid].pc)), tid)
  {
    hide WireInv, Accounted, MovesOn;
    if s.txOwner.Some? {
      tid := s.txOwner.value;
      assert InTx(s.threads[tid].pc);
    } else if t :| t in AudioInProgress(s.threads) {
      tid := t;
    } else {
      assert AudioInProgress(s.threads) == {};
      tid :| tid in s.threads.Keys;
    }
    EventMoves(s, tid);
  }

  /** How far all threads together are from leaving. */
  ghost function Work(threads: map<nat, Thread>): nat
    decreases |threads|
  {
    if threads == map[] then 0
    else
      var t :| t in threads;
      assert |threads - {t}| < |threads| by {
        OneFewer(threads, t);
      }
      Remaining(threads[t].pc) + Work(threads - {t})
  }

  lemma {:induction false} OneFewer(threads: map<nat, Thread>, t: nat)
    requires t in threads
    ensures |threads - {t}| == |threads| - 1
  {
    assert (threads - {t}).Keys == threads.Keys - {t};
    assert |threads.Keys| == |threads| && |(threads - {t}).Keys| == |threads - {t}|;
  }

  /** It does not matter which thread is counted first. */
  lemma {:induction false} WorkOf(threads: map<nat, Thread>, t: nat)
    requires t in threads
    ensures Work(threads) == Remaining(threads[t].pc) + Work(threads - {t})
    decreases |threads|
  {
    var u :| u in threads && Work(threads) == Remaining(threads[u].pc) + Work(threads - {u});
    if u != t {
      OneFewer(threads, t);
      OneFewer(threads, u);
      WorkOf(threads - {u}, t);
      WorkOf(threads - {t}, u);
      assert threads - {u} - {t} == threads - {t} - {u};
    }
  }

  lemma {:induction false} MovingOnIsLessWork(s: Sender, s': Sender, tid: nat)
    requires MovesOn(s, s', tid)
    ensures Work(s'.threads) < Work(s.threads)
  {
    hide Work;
    WorkOf(s.threads, tid);
    if tid in s'.threads {
      WorkOf(s'.threads, tid);
    } else {
      assert s'.threads - {tid} == s'.threads;
    }
  }

  /** From every reachable state all sends in progress can run to their end, with no further call. */
  lemma {:induction false} EveryoneLeaves(s: Sender) returns (events: seq<Event>)
    requires Inv(s)
    ensures Run(s, events).threads == map[] && Inv(Run(s, events))
    ensures forall e | e in events :: !e.Enter?
    decreases Work(s.threads)
  {
    hide Step, Inv, MovesOn, Work;
    if s.threads == map[] {
      events := [];
    } else {
      var tid := SomeoneMoves(s);
      var e := NextEvent(tid, s.threads[tid].pc);
      MovingOnIsLessWork(s, Step(s, e), tid);
      StepKeepsInv(s, e);
      var later := EveryoneLeaves(Step(s, e));
      events := [e] + later;
      assert events[0] == e && events[1..] == later;
    }
  }

  // The program's form: the fields of app_t and the sections that change them

  class App {
    var mediaSeq: u32
    var pendingAudioPackets: nat
    var cryptoInitSent: bool
    var sent: seq<Message>       // frames written to the connection, in order

    ghost function View(): Fields
      reads this
    {
      Fields(pendingAudioPackets, mediaSeq, cryptoInitSent)
    }

    constructor ()
      ensures View() == Fields(0, 0, false) && sent == []
    {
      mediaSeq, pendingAudioPackets, cryptoInitSent, sent := 0, 0, false, [];
    }

    method BeginAudioPriority()
      modifies this`pendingAudioPackets
      ensures View() == BeginPriority(old(View()))
    {
      pendingAudioPackets := pendingAudioPackets + 1;
    }

    method EndAudioPriority()
      modifies this`pendingAudioPackets
      ensures View() == EndPriority(old(View()))
    {
      if pendingAudioPackets > 0 {
        pendingAudioPackets := pendingAudioPackets - 1;
      }
    }

    method SendCryptoInitLocked(sendOk: bool) returns (rc: int)
      modifies this`cryptoInitSent, this`sent
      ensures rc == 0 <==> old(cryptoInitSent) || sendOk
      ensures cryptoInitSent == (old(cryptoInitSent) || sendOk)
      ensures sent == old(sent) + if !old(cryptoInitSent) && sendOk then [CryptoInit] else []
    {
      if cryptoInitSent {
        return 0;
      }
      if !sendOk {
        return -1;
      }
      sent := sent + [CryptoInit];
      cryptoInitSent := true;
      return 0;
    }

    /** The section under crypto_lock: the sequence number is taken even when the init could not be sent. */
    method CryptoSectionLocked(sendOk: bool) returns (rc: int, seqNo: u32)
      modifies this`cryptoInitSent, this`sent, this`mediaSeq
      ensures var (ok, msgs, n, f) := InitAndSequence(old(View()), sendOk);
              (rc == 0 <==> ok) && sent == old(sent) + msgs && seqNo == n && View() == f
      ensures seqNo == old(mediaSeq) && mediaSeq == (seqNo as int + 1) % TWO_TO_32
    {
      rc := SendCryptoInitLocked(sendOk);
      seqNo := mediaSeq;
      mediaSeq := (mediaSeq as int + 1) % TWO_TO_32;
    }
  }
}
