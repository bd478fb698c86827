/**
  The ways a call of `next_frame` (wsh264/src/ws.c) ends other than with a message: a CLOSE from the peer and
  its reason, and failure, with the CLOSE 1007 that answers a text that is not UTF-8.
 */
module WsClose {
  import opened Bytes
  import opened WsFrames
  import opened WsReceive
  import Utf8

  // Frames that neither end a message nor the call

  /** Data fragments of one message, none of them final. */
  predicate Begun(frameType: int, d: seq<Frame>) {
    forall i | 0 <= i < |d| ::
      IsData(d[i]) && (d[i].head.opcode == CONT <==> i > 0 || frameType != -1) && !d[i].head.fin
  }

  /** As far as a text has come, it can still become UTF-8. */
  predicate TextOpen(o: Options, m: State, d: seq<Frame>) {
    |d| > 0 && o.validate && MessageType(m.frameType, d) == TXT ==> Utf8.Scan(m.utf8, Concat(Payloads(d))) != Utf8.REJECT
  }

  /** What the reader reads over: the start of a message, with PINGs that can be answered and PONGs in it. */
  predicate Underway(o: Options, m: State, fs: seq<Frame>) {
    && AllValid(fs) && (fs != [] ==> !o.closing)
    && (forall i | 0 <= i < |fs| :: fs[i].head.rsv == 0 && (IsData(fs[i]) || IsProbe(fs[i])))
    && Begun(m.frameType, Data(fs))
    && Pings(fs) <= m.sends
    && CapKept(m.size, Data(fs))
    && TextOpen(o, m, Data(fs))
  }

  /** The state after frames that leave the reader reading. */
  function Reading(o: Options, m: State, fs: seq<Frame>): Option<State>
    requires AllValid(fs)
    decreases |fs|
  {
    if fs == [] then Some(m)
    else match OnFrame(o, m, fs[0])
    case More(m1) => Reading(o, m1, fs[1..])
    case _ => None
  }

  lemma {:induction false} ReadingRuns(o: Options, m: State, fs: seq<Frame>, rest: seq<byte>)
    requires AllValid(fs) && Reading(o, m, fs).Some?
    ensures Run(o, m, WireAll(fs) + rest) == Run(o, Reading(o, m, fs).value, rest)
    decreases |fs|
  {
    hide OnFrame, Wire, ParseFrame;
    if fs == [] {
      assert WireAll(fs) + rest == rest;
    } else {
      var tail := WireAll(fs[1..]) + rest;
      Associative(Wire(fs[0]), WireAll(fs[1..]), rest);
      WireThenParse(fs[0], tail);
      ReadingRuns(o, OnFrame(o, m, fs[0]).state, fs[1..], rest);
    }
  }

  /** Every run comes to a frame that is not read over, or to bytes that are no frame. */
  lemma {:induction false} RunsUpTo(o: Options, m: State, s: seq<byte>) returns (fs: seq<Frame>, rest: seq<byte>)
    ensures AllValid(fs) && Reading(o, m, fs).Some? && s == WireAll(fs) + rest
    ensures match ParseFrame(rest)
            case None => true
            case Some((f, _)) => ValidFrame(f) && !OnFrame(o, Reading(o, m, fs).value, f).More?
    decreases |s|
  {
    hide OnFrame, Wire, ParseFrame;
    fs, rest := [], s;
    assert WireAll([]) + s == s;
    if ParseFrame(s).Some? {
      ParseThenWire(s);
      var (f, later) := ParseFrame(s).value;
      if OnFrame(o, m, f).More? {
        var gs, end := RunsUpTo(o, OnFrame(o, m, f).state, later);
        fs, rest := [f] + gs, end;
        assert fs[0] == f && fs[1..] == gs;
        Associative(Wire(f), WireAll(gs), end);
      }
    }
  }

  // They are exactly the frames that are under way

  lemma {:induction false} BegunHead(frameType: int, d: seq<Frame>)
    requires |d| > 0
    ensures Begun(frameType, d) <==>
            && IsData(d[0]) && (d[0].head.opcode == CONT <==> frameType != -1) && !d[0].head.fin
            && Begun(MessageType(frameType, d), d[1..])
  {
    var later := d[1..];
    assert forall i | 0 <= i < |later| :: later[i] == d[i + 1];
    if IsData(d[0]) && (d[0].head.opcode == CONT <==> frameType != -1) && !d[0].head.fin
       && Begun(MessageType(frameType, d), later) {
      forall i | 0 <= i < |d|
        ensures IsData(d[i]) && (d[i].head.opcode == CONT <==> i > 0 || frameType != -1) && !d[i].head.fin
      {
        if i > 0 {
          assert d[i] == later[i - 1];
        }
      }
    }
  }

  /** A text stays open exactly when it is after its first fragment and stays so from there. */
  lemma {:induction false} ScanOpens(utf8: nat, first: seq<byte>, later: seq<byte>)
    ensures Utf8.Scan(utf8, first + later) != Utf8.REJECT <==>
            Utf8.Scan(utf8, first) != Utf8.REJECT && Utf8.Scan(Utf8.Scan(utf8, first), later) != Utf8.REJECT
  {
    Utf8.ScanAppend(utf8, first, later);
    Utf8.RejectForGood(later);
  }

  lemma {:induction false} UnderwayProbe(o: Options, m: State, fs: seq<Frame>)
    requires AllValid(fs) && fs != [] && !IsData(fs[0]) && Started(m.frameType)
    ensures Underway(o, m, fs) <==>
            OnFrame(o, m, fs[0]).More? && Underway(o, OnFrame(o, m, fs[0]).state, fs[1..])
    ensures OnFrame(o, m, fs[0]).More? ==> Started(OnFrame(o, m, fs[0]).state.frameType)
  {
    hide Begun, CapKept, Sent, PongId, Utf8.Scan;
  }

  lemma {:induction false} UnderwayData(o: Options, m: State, fs: seq<Frame>)
    requires AllValid(fs) && fs != [] && IsData(fs[0]) && Started(m.frameType)
    ensures Underway(o, m, fs) <==>
            OnFrame(o, m, fs[0]).More? && Underway(o, OnFrame(o, m, fs[0]).state, fs[1..])
    ensures OnFrame(o, m, fs[0]).More? ==> Started(OnFrame(o, m, fs[0]).state.frameType)
  {
    hide Begun, Sent, Utf8.Scan;
    var d, later := Data(fs), Data(fs[1..]);
    assert d[0] == fs[0] && d[1..] == later;
    BegunHead(m.frameType, d);
    assert Payloads(d)[1..] == Payloads(later);
    ScanOpens(m.utf8, fs[0].payload, Concat(Payloads(later)));
    NothingLater(m.utf8, fs[0].payload, later);
  }

  lemma NothingLater(utf8: nat, payload: seq<byte>, later: seq<Frame>)
    ensures later == [] ==> payload + Concat(Payloads(later)) == payload
  {}

  lemma {:induction false} UnderwayExactly(o: Options, m: State, fs: seq<Frame>)
    requires AllValid(fs) && Started(m.frameType)
    ensures Reading(o, m, fs).Some? <==> Underway(o, m, fs)
    decreases |fs|
  {
    hide OnFrame, Underway;
    if fs == [] {
      NothingUnderway(o, m);
    } else {
      if IsData(fs[0]) {
        UnderwayData(o, m, fs);
      } else {
        UnderwayProbe(o, m, fs);
      }
      if OnFrame(o, m, fs[0]).More? {
        UnderwayExactly(o, OnFrame(o, m, fs[0]).state, fs[1..]);
      }
    }
  }

  lemma NothingUnderway(o: Options, m: State)
    ensures Underway(o, m, [])
  {}

  // The state they leave

  /** The type of the message so far, -1 before its first fragment. */
  function TypeSoFar(frameType: int, d: seq<Frame>): int {
    if d == [] then frameType else MessageType(frameType, d)
  }

  predicate ReadSoFar(o: Options, m: State, fs: seq<Frame>, m': State)
    requires AllValid(fs)
  {
    var d := Data(fs);
    && m'.frameType == TypeSoFar(m.frameType, d)
    && m'.size == (m.size + Total(d)) % TWO_TO_64
    && m'.msg == m.msg + Concat(Payloads(d))
    && m'.utf8 == (if o.validate && m'.frameType == TXT then Utf8.Scan(m.utf8, Concat(Payloads(d))) else m.utf8)
    && m'.sent == m.sent + Answers(fs)
    && m'.sends == m.sends - Pings(fs)
    && m'.pong == LastPong(o, m.pong, fs)
  }

  lemma {:induction false} SoFarData(o: Options, m: State, fs: seq<Frame>, m': State)
    requires AllValid(fs) && fs != [] && IsData(fs[0]) && OnFrame(o, m, fs[0]).More? && Started(m.frameType)
    requires ReadSoFar(o, OnFrame(o, m, fs[0]).state, fs[1..], m')
    ensures ReadSoFar(o, m, fs, m')
  {
    hide Sent, Utf8.Scan, PongId, CapKept, Utf8.Fragmentwise;
    var f, later := fs[0], fs[1..];
    var d, d' := Data(fs), Data(later);
    assert d[0] == f && d[1..] == d';
    assert Payloads(d)[1..] == Payloads(d');
    assert [] + Answers(later) == Answers(later);
    hide Data, Payloads, Answers, Pings, Total, LastPong, Concat;
    Associative(m.msg, f.payload, Concat(Payloads(d')));
    SumsModulo(m.size, |f.payload|, Total(d'));
    Utf8.ScanAppend(m.utf8, f.payload, Concat(Payloads(d')));
  }

  lemma {:induction false} SoFarProbe(o: Options, m: State, fs: seq<Frame>, m': State)
    requires AllValid(fs) && fs != [] && !IsData(fs[0]) && OnFrame(o, m, fs[0]).More? && Started(m.frameType)
    requires ReadSoFar(o, OnFrame(o, m, fs[0]).state, fs[1..], m')
    ensures ReadSoFar(o, m, fs, m')
  {
    hide Sent, Utf8.Scan, PongId, Payloads, Total, Concat;
    var f, later := fs[0], fs[1..];
    assert Data(fs) == Data(later);
    Associative(m.sent, Sent0(f), Answers(later));
    assert LastPong(o, m.pong, fs) == LastPong(o, OnFrame(o, m, f).state.pong, later);
  }

  lemma {:induction false} NothingSoFar(o: Options, m: State)
    requires m.size < TWO_TO_64
    ensures ReadSoFar(o, m, [], m)
  {
    assert Utf8.Scan(m.utf8, []) == m.utf8;
    assert m.msg + [] == m.msg && m.sent + [] == m.sent;
  }

  lemma {:induction false} ReadingSoFar(o: Options, m: State, fs: seq<Frame>)
    requires AllValid(fs) && Started(m.frameType) && Reading(o, m, fs).Some?
    ensures ReadSoFar(o, m, fs, Reading(o, m, fs).value)
    ensures Started(Reading(o, m, fs).value.frameType)
    decreases |fs|
  {
    hide OnFrame, ReadSoFar, Underway, Started;
    if fs == [] {
      NothingSoFar(o, m);
    } else {
      var m1, m' := OnFrame(o, m, fs[0]).state, Reading(o, m, fs).value;
      if IsData(fs[0]) {
        UnderwayData(o, m, fs);
        ReadingSoFar(o, m1, fs[1..]);
        SoFarData(o, m, fs, m');
      } else {
        UnderwayProbe(o, m, fs);
        ReadingSoFar(o, m1, fs[1..]);
        SoFarProbe(o, m, fs, m');
      }
    }
  }

  // A CLOSE

  /** A CLOSE frame of section 5.5.1 whose reason, if texts are checked, is UTF-8. */
  ghost predicate Closing(o: Options, f: Frame) {
    && f.head.opcode == CLSE && f.head.rsv == 0 && f.head.fin && f.head.form == Short
    && (o.validate && |f.payload| > 2 ==> Utf8.WellFormed(f.payload[2..]))
  }

  lemma {:induction false} CloseFrameCloses(o: Options, m: State, f: Frame)
    requires ValidFrame(f) && Started(m.frameType)
    ensures OnFrame(o, m, f) == Close(m, f.payload) <==> Closing(o, f)
    ensures OnFrame(o, m, f).Close? ==> Closing(o, f)
  {
    hide Utf8.Scan, Utf8.WellFormed;
    if |f.payload| > 2 {
      Utf8.AcceptsExactly(f.payload[2..]);
    }
  }

  /** The stream begins with frames that are under way and then a CLOSE. */
  ghost predicate ClosesAfter(o: Options, m: State, s: seq<byte>, fs: seq<Frame>, f: Frame, rest: seq<byte>) {
    Underway(o, m, fs) && ValidFrame(f) && Closing(o, f) && s == WireAll(fs) + (Wire(f) + rest)
  }

  /** A CLOSE ends the call with its own payload as the reason, after the PONGs for the PINGs before it. */
  lemma {:induction false} ClosesWith(o: Options, m: State, s: seq<byte>, fs: seq<Frame>, f: Frame, rest: seq<byte>)
    requires Started(m.frameType) && ClosesAfter(o, m, s, fs, f, rest)
    ensures var r := Run(o, m, s);
            && r.Closed? && r.reason == f.payload && r.rest == rest
            && r.state.sent == m.sent + Answers(fs) && r.state.pong == LastPong(o, m.pong, fs)
  {
    hide OnFrame, Wire, ParseFrame, Closing, Answers, LastPong;
    UnderwayExactly(o, m, fs);
    ReadingSoFar(o, m, fs);
    ReadingRuns(o, m, fs, Wire(f) + rest);
    CloseFrameCloses(o, Reading(o, m, fs).value, f);
    WireThenParse(f, rest);
  }

  /** And nothing else does. */
  lemma {:induction false} ClosesExactly(o: Options, m: State, s: seq<byte>)
    requires Started(m.frameType)
    ensures Run(o, m, s).Closed? <==> exists fs, f, rest :: ClosesAfter(o, m, s, fs, f, rest)
  {
    hide OnFrame, ParseFrame, Wire, Closing, Underway;
    if Run(o, m, s).Closed? {
      var fs, end := RunsUpTo(o, m, s);
      ReadingRuns(o, m, fs, end);
      UnderwayExactly(o, m, fs);
      ReadingSoFar(o, m, fs);
      ParseThenWire(end);
      var (f, rest) := ParseFrame(end).value;
      CloseFrameCloses(o, Reading(o, m, fs).value, f);
      assert ClosesAfter(o, m, s, fs, f, rest);
    }
    if fs, f, rest :| ClosesAfter(o, m, s, fs, f, rest) {
      ClosesWith(o, m, s, fs, f, rest);
    }
  }

  // Failure

  /** The next fragment of a text, within the cap, after which the text is not or no longer can be UTF-8. */
  predicate BreaksText(o: Options, m: State, fs: seq<Frame>, f: Frame)
    requires AllValid(fs) && ValidFrame(f)
  {
    var d := Data(fs) + [f];
    && o.validate && !o.closing && f.head.rsv == 0 && IsData(f)
    && (f.head.opcode == CONT <==> TypeSoFar(m.frameType, Data(fs)) != -1)
    && MessageType(m.frameType, d) == TXT
    && (m.size + Total(d)) % TWO_TO_64 <= MAX_FRAME_LENGTH
    && var state := Utf8.Scan(m.utf8, Concat(Payloads(d)));
       if f.head.fin then state != Utf8.ACCEPT else state == Utf8.REJECT
  }

  /** The answer to a broken text: a CLOSE with code 1007, if it can still be sent. */
  function Rejection(sends: int): seq<byte> {
    if sends > 0 then Sent(CLSE, [0x03, 0xEF]) else []
  }

  lemma {:induction false} ListsSnoc(d: seq<Frame>, f: Frame)
    ensures Total(d + [f]) == Total(d) + |f.payload|
    ensures Concat(Payloads(d + [f])) == Concat(Payloads(d)) + f.payload
  {
    if d == [] {
      assert [] + [f] == [f] && [f][1..] == [] && Payloads([f])[1..] == [];
      assert Concat(Payloads([f])) == f.payload + [];
    } else {
      assert (d + [f])[0] == d[0] && (d + [f])[1..] == d[1..] + [f];
      ListsSnoc(d[1..], f);
      assert Payloads(d)[1..] == Payloads(d[1..]) && Payloads(d + [f])[1..] == Payloads(d[1..] + [f]);
      Associative(d[0].payload, Concat(Payloads(d[1..])), f.payload);
    }
  }

  /** What goes out when a frame makes the call fail. */
  lemma {:induction false} FailingFrame(o: Options, m: State, fs: seq<Frame>, m': State, f: Frame)
    requires AllValid(fs) && ValidFrame(f) && Started(m.frameType) && Started(m'.frameType) && ReadSoFar(o, m, fs, m')
    requires OnFrame(o, m', f).Fail?
    ensures OnFrame(o, m', f).sent == m'.sent + if BreaksText(o, m, fs, f) then Rejection(m'.sends) else []
  {
    hide Data, Total, Payloads, Concat, Utf8.Scan, Answers, LastPong, PongId, Sent, Be16;
    assert m'.sent + [] == m'.sent;
    CodeBytes();
    var d := Data(fs);
    ListsSnoc(d, f);
    SumsModulo(m.size, Total(d), |f.payload|);
    NoneYet(m.utf8);
    Utf8.ScanAppend(m.utf8, Concat(Payloads(d)), f.payload);
  }

  lemma CodeBytes()
    ensures Be16(INVALID_UTF8) == [0x03, 0xEF]
  {}

  lemma NoneYet(utf8: nat)
    ensures Concat(Payloads([])) == [] && Utf8.Scan(utf8, []) == utf8
  {}

  /**
    A call that fails has read over frames that are under way and then met no frame, or one that does not
    belong there. It has answered the PINGs before, and a text that is broken, and nothing else.
   */
  lemma {:induction false} FailsExactly(o: Options, m: State, s: seq<byte>) returns (fs: seq<Frame>, rest: seq<byte>)
    requires Started(m.frameType) && Run(o, m, s).Failed?
    ensures Underway(o, m, fs) && s == WireAll(fs) + rest
    ensures Run(o, m, s).sent ==
            m.sent + Answers(fs) +
            match ParseFrame(rest)
            case None => []
            case Some((f, _)) =>
              if ValidFrame(f) && BreaksText(o, m, fs, f) then Rejection(m.sends - Pings(fs)) else []
  {
    hide OnFrame, ParseFrame, Wire, Underway, BreaksText, Rejection, Answers, Pings;
    fs, rest := RunsUpTo(o, m, s);
    ReadingRuns(o, m, fs, rest);
    UnderwayExactly(o, m, fs);
    ReadingSoFar(o, m, fs);
    var m' := Reading(o, m, fs).value;
    assert m'.sent + [] == m'.sent;
    if ParseFrame(rest).Some? {
      ParseThenWire(rest);
      var f := ParseFrame(rest).value.0;
      RunMeets(o, m', rest);
      FailingFrame(o, m, fs, m', f);
    } else {
      RunMeets(o, m', rest);
    }
  }

  /** What a run makes of the first frame. */
  lemma {:induction false} RunMeets(o: Options, m: State, s: seq<byte>)
    ensures match ParseFrame(s)
            case None => Run(o, m, s) == Failed(m.sent)
            case Some((f, rest)) =>
              && ValidFrame(f)
              && match OnFrame(o, m, f)
                 case Fail(sent) => Run(o, m, s) == Failed(sent)
                 case Message(m') => Run(o, m, s) == Delivered(m', rest)
                 case Close(m', reason) => Run(o, m, s) == Closed(m', reason, rest)
                 case More(m') => Run(o, m, s) == Run(o, m', rest)
  {
    hide OnFrame, ParseFrame, Wire;
    if ParseFrame(s).Some? {
      ParseThenWire(s);
    }
  }

  /** A broken text is answered: the PONGs due, and a CLOSE 1007 if one more frame can be sent. */
  lemma {:induction false} BrokenTextRejected(o: Options, m: State, fs: seq<Frame>, f: Frame, rest: seq<byte>)
    requires Started(m.frameType) && Underway(o, m, fs) && ValidFrame(f) && BreaksText(o, m, fs, f)
    ensures Run(o, m, WireAll(fs) + (Wire(f) + rest))
         == Failed(m.sent + Answers(fs) + Rejection(m.sends - Pings(fs)))
  {
    hide OnFrame, ParseFrame, Wire, Rejection, Answers, Pings, BreaksText;
    UnderwayExactly(o, m, fs);
    ReadingSoFar(o, m, fs);
    var m' := Reading(o, m, fs).value;
    ReadingRuns(o, m, fs, Wire(f) + rest);
    WireThenParse(f, rest);
    RunMeets(o, m', Wire(f) + rest);
    BreakingFails(o, m, fs, m', f);
    FailingFrame(o, m, fs, m', f);
  }

  lemma {:induction false} BreakingFails(o: Options, m: State, fs: seq<Frame>, m': State, f: Frame)
    requires AllValid(fs) && ValidFrame(f) && Started(m.frameType) && Started(m'.frameType) && ReadSoFar(o, m, fs, m')
    requires BreaksText(o, m, fs, f)
    ensures OnFrame(o, m', f).Fail?
  {
    hide Data, Total, Payloads, Concat, Utf8.Scan, Answers, LastPong, Sent;
    var d := Data(fs);
    ListsSnoc(d, f);
    NoneYet(m.utf8);
    Utf8.ScanAppend(m.utf8, Concat(Payloads(d)), f.payload);
  }
}
