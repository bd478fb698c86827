/**
  What the server's frame reader (`next_frame`, wsh264/src/ws.c) makes of a byte stream: a machine over
  frames, and the messages of RFC 6455, sections 5.4 to 5.6, that it accepts.
 */
module WsReceive {
  import opened Bytes
  import opened WsFrames
  import Utf8

  const MAX_FRAME_LENGTH: nat := 16 * 1024 * 1024
  const INVALID_UTF8: u16 := 1007

  /** The build's VALIDATE_UTF8, whether the connection is closing, and the newest PING id sent. */
  datatype Options = Options(validate: bool, closing: bool, pingId: int)

  /**
    `frameType` is -1 until a data frame arrives; `size` is the 64-bit sum of lengths; `sends` counts how
    many more times the socket accepts a frame.
   */
  datatype State = State(frameType: int, size: u64, msg: seq<byte>, utf8: nat, pong: int, sent: seq<byte>, sends: nat)

  datatype Step =
    | More(state: State)
    | Message(state: State)
    | Close(state: State, reason: seq<byte>)
    | Fail(sent: seq<byte>)

  datatype Outcome =
    | Delivered(state: State, rest: seq<byte>)
    | Closed(state: State, reason: seq<byte>, rest: seq<byte>)
    | Failed(sent: seq<byte>)

  function Start(pong: int, sent: seq<byte>, sends: nat): State {
    State(-1, 0, [], Utf8.ACCEPT, pong, sent, sends)
  }

  // One frame

  /** The signed 32-bit number a PONG carries. */
  function PongId(payload: seq<byte>): int
    requires |payload| == 4
  {
    ToInt32(ReadBe32(payload))
  }

  /** The four bytes in which `ws_ping` sends an id are read as that id. */
  lemma {:induction false} PongIdOf(id: nat)
    requires id < 0x8000_0000
    ensures PongId(Be32(id)) == id
  {
    Be32ThenRead(id, []);
    assert Be32(id) + [] == Be32(id);
  }

  function OnPong(o: Options, m: State, payload: seq<byte>): State {
    if |payload| == 4 && 0 <= PongId(payload) <= o.pingId then m.(pong := PongId(payload)) else m
  }

  function OnPing(m: State, payload: seq<byte>): Step
    requires |payload| <= 125
  {
    if m.sends == 0 then Fail(m.sent)
    else More(m.(sent := m.sent + Sent(PONG, payload), sends := m.sends - 1))
  }

  function OnClose(o: Options, m: State, payload: seq<byte>): Step {
    if o.validate && |payload| > 2 && Utf8.Scan(Utf8.ACCEPT, payload[2..]) != Utf8.ACCEPT then Fail(m.sent)
    else Close(m, payload)
  }

  /** The log after the attempt to send a CLOSE with code 1007. */
  function AfterReject(m: State): seq<byte> {
    if m.sends == 0 then m.sent else m.sent + Sent(CLSE, Be16(INVALID_UTF8))
  }

  function TypeAfter(m: State, opcode: nat): int {
    if opcode == CONT then m.frameType else opcode
  }

  function SizeAfter(m: State, length: nat): u64 {
    (m.size + length) % TWO_TO_64
  }

  function OnData(o: Options, m: State, opcode: nat, fin: bool, payload: seq<byte>): Step {
    var frameType, utf8 := TypeAfter(m, opcode), Utf8.Scan(m.utf8, payload);
    var check := o.validate && frameType == TXT;
    if SizeAfter(m, |payload|) > MAX_FRAME_LENGTH then Fail(m.sent)
    else if check && (if fin then utf8 != Utf8.ACCEPT else utf8 == Utf8.REJECT) then Fail(AfterReject(m))
    else
      var m' := m.(frameType := frameType, size := SizeAfter(m, |payload|), msg := m.msg + payload,
                   utf8 := if check then utf8 else m.utf8);
      if fin then Message(m') else More(m')
  }

  predicate Known(opcode: nat) {
    opcode == CONT || opcode == TXT || opcode == BIN || Control(opcode)
  }

  /** The checks next_frame makes on the first two bytes. */
  predicate Welcome(o: Options, m: State, h: Head) {
    && h.rsv == 0 && Known(h.opcode)
    && (m.frameType == -1 ==> h.opcode != CONT)
    && (m.frameType != -1 ==> Control(h.opcode) || h.opcode == CONT)
    && (o.closing ==> h.opcode == CLSE)
    && (Control(h.opcode) ==> h.fin && h.form == Short)
  }

  function OnBody(o: Options, m: State, opcode: nat, fin: bool, payload: seq<byte>): Step
    requires Control(opcode) ==> |payload| <= 125
  {
    if opcode == PONG then More(OnPong(o, m, payload))
    else if opcode == PING then OnPing(m, payload)
    else if opcode == CLSE then OnClose(o, m, payload)
    else OnData(o, m, opcode, fin, payload)
  }

  /** Recording the type of a first fragment before its body is read changes nothing. */
  lemma {:induction false} TypeRecorded(o: Options, m: State, opcode: nat, fin: bool, payload: seq<byte>)
    requires opcode == TXT || opcode == BIN
    ensures OnBody(o, m.(frameType := opcode), opcode, fin, payload) == OnBody(o, m, opcode, fin, payload)
  {
    hide Utf8.Scan;
  }

  function OnFrame(o: Options, m: State, f: Frame): Step
    requires ValidFrame(f)
  {
    if !Welcome(o, m, f.head) then Fail(m.sent) else OnBody(o, m, f.head.opcode, f.head.fin, f.payload)
  }

  // A stream

  function Run(o: Options, m: State, s: seq<byte>): Outcome
    decreases |s|
  {
    match ParseFrame(s)
    case None => Failed(m.sent)
    case Some((f, rest)) =>
      ParseThenWire(s);
      match OnFrame(o, m, f)
      case Fail(sent) => Failed(sent)
      case Message(m') => Delivered(m', rest)
      case Close(m', reason) => Closed(m', reason, rest)
      case More(m') => Run(o, m', rest)
  }

  predicate AllValid(fs: seq<Frame>) {
    forall i | 0 <= i < |fs| :: ValidFrame(fs[i])
  }

  function WireAll(fs: seq<Frame>): seq<byte>
    requires AllValid(fs)
  {
    if fs == [] then [] else Wire(fs[0]) + WireAll(fs[1..])
  }

  /** The frames take the reader from m to the end of a message, and not one before the last does. */
  ghost predicate Follows(o: Options, m: State, fs: seq<Frame>, m': State)
    requires AllValid(fs)
    decreases |fs|
  {
    && fs != []
    && var step := OnFrame(o, m, fs[0]);
       if |fs| == 1 then step == Message(m') else step.More? && Follows(o, step.state, fs[1..], m')
  }

  lemma {:induction false} FollowedThenDelivered(o: Options, m: State, fs: seq<Frame>, m': State, rest: seq<byte>)
    requires AllValid(fs) && Follows(o, m, fs, m')
    ensures Run(o, m, WireAll(fs) + rest) == Delivered(m', rest)
    decreases |fs|
  {
    hide OnFrame, Wire, ParseFrame;
    var tail := WireAll(fs[1..]) + rest;
    Associative(Wire(fs[0]), WireAll(fs[1..]), rest);
    WireThenParse(fs[0], tail);
    if |fs| == 1 {
      assert tail == rest;
    } else {
      FollowedThenDelivered(o, OnFrame(o, m, fs[0]).state, fs[1..], m', rest);
    }
  }

  lemma {:induction false} DeliveredThenFollowed(o: Options, m: State, s: seq<byte>) returns (fs: seq<Frame>)
    requires Run(o, m, s).Delivered?
    ensures AllValid(fs) && Follows(o, m, fs, Run(o, m, s).state)
    ensures s == WireAll(fs) + Run(o, m, s).rest
    decreases |s|
  {
    hide OnFrame, Wire, ParseFrame;
    var (f, rest) := ParseFrame(s).value;
    ParseThenWire(s);
    var step := OnFrame(o, m, f);
    if step.Message? {
      fs := [f];
      assert WireAll([f]) == Wire(f) + WireAll([]) == Wire(f);
    } else {
      var later := DeliveredThenFollowed(o, step.state, rest);
      fs := [f] + later;
      assert fs[1..] == later && fs[0] == f;
      Associative(Wire(f), WireAll(later), Run(o, m, s).rest);
    }
  }

  // Messages

  predicate IsData(f: Frame) {
    f.head.opcode == CONT || f.head.opcode == TXT || f.head.opcode == BIN
  }

  predicate IsProbe(f: Frame) {
    (f.head.opcode == PING || f.head.opcode == PONG) && f.head.fin && f.head.form == Short
  }

  function Data(fs: seq<Frame>): (d: seq<Frame>)
    ensures |d| <= |fs|
    ensures AllValid(fs) ==> AllValid(d)
  {
    if fs == [] then [] else if IsData(fs[0]) then [fs[0]] + Data(fs[1..]) else Data(fs[1..])
  }

  function Payloads(fs: seq<Frame>): (p: seq<seq<byte>>)
    ensures |p| == |fs|
  {
    if fs == [] then [] else [fs[0].payload] + Payloads(fs[1..])
  }

  /** One PONG of equal payload for each PING, in order. */
  function Answers(fs: seq<Frame>): seq<byte>
    requires AllValid(fs)
  {
    if fs == [] then []
    else (if fs[0].head.opcode == PING then Sent(PONG, fs[0].payload) else []) + Answers(fs[1..])
  }

  function Pings(fs: seq<Frame>): (n: nat)
    ensures n <= |fs|
  {
    if fs == [] then 0 else (if fs[0].head.opcode == PING then 1 else 0) + Pings(fs[1..])
  }

  function LastPong(o: Options, pong: int, fs: seq<Frame>): int
    decreases |fs|
  {
    if fs == [] then pong
    else
      var p := fs[0].payload;
      LastPong(o, if fs[0].head.opcode == PONG && |p| == 4 && 0 <= PongId(p) <= o.pingId then PongId(p) else pong, fs[1..])
  }

  function Total(d: seq<Frame>): nat {
    if d == [] then 0 else |d[0].payload| + Total(d[1..])
  }

  /** The 64-bit sum of the lengths stays under the cap at every fragment. */
  predicate CapKept(size: u64, d: seq<Frame>)
    decreases |d|
  {
    d == [] ||
    var size' := (size + |d[0].payload|) % TWO_TO_64;
    size' <= MAX_FRAME_LENGTH && CapKept(size', d[1..])
  }

  /** Fragments of one message: the first names the type unless one has come before, the last is final. */
  predicate Fragments(frameType: int, d: seq<Frame>) {
    && |d| > 0
    && forall i | 0 <= i < |d| ::
         && IsData(d[i])
         && (d[i].head.opcode == CONT <==> i > 0 || frameType != -1)
         && (d[i].head.fin <==> i == |d| - 1)
  }

  /** Section 5.4: data fragments with PINGs and PONGs between them, up to the final fragment. */
  predicate Conversation(frameType: int, fs: seq<Frame>) {
    && AllValid(fs) && |fs| > 0
    && (forall i | 0 <= i < |fs| :: fs[i].head.rsv == 0 && (IsData(fs[i]) || IsProbe(fs[i])))
    && IsData(fs[|fs| - 1])
    && Fragments(frameType, Data(fs))
  }

  function MessageType(frameType: int, d: seq<Frame>): int
    requires |d| > 0
  {
    if frameType == -1 then d[0].head.opcode else frameType
  }

  predicate TextKept(o: Options, m: State, d: seq<Frame>)
    requires |d| > 0
  {
    o.validate && MessageType(m.frameType, d) == TXT ==> Utf8.Fragmentwise(m.utf8, Payloads(d))
  }

  predicate Accepted(o: Options, m: State, fs: seq<Frame>) {
    && !o.closing && Conversation(m.frameType, fs)
    && Pings(fs) <= m.sends
    && CapKept(m.size, Data(fs))
    && TextKept(o, m, Data(fs))
  }

  /** The message the reader ends with. */
  predicate Assembled(o: Options, m: State, fs: seq<Frame>, m': State)
    requires AllValid(fs) && |Data(fs)| > 0
  {
    && m'.frameType == MessageType(m.frameType, Data(fs))
    && m'.size == (m.size + Total(Data(fs))) % TWO_TO_64
    && m'.msg == m.msg + Concat(Payloads(Data(fs)))
    && m'.sent == m.sent + Answers(fs)
    && m'.sends == m.sends - Pings(fs)
    && m'.pong == LastPong(o, m.pong, fs)
  }

  // The reader accepts exactly those

  predicate Started(frameType: int) {
    frameType == -1 || frameType == TXT || frameType == BIN
  }

  lemma {:induction false} FragmentsHead(frameType: int, d: seq<Frame>)
    requires |d| > 1
    ensures Fragments(frameType, d) <==>
            && IsData(d[0]) && (d[0].head.opcode == CONT <==> frameType != -1) && !d[0].head.fin
            && Fragments(MessageType(frameType, d), d[1..])
  {
    var later := d[1..];
    if Fragments(frameType, d) {
      forall i | 0 <= i < |later|
        ensures IsData(later[i]) && later[i].head.opcode == CONT && (later[i].head.fin <==> i == |later| - 1)
      {
        assert later[i] == d[i + 1];
      }
    }
    if IsData(d[0]) && (d[0].head.opcode == CONT <==> frameType != -1) && !d[0].head.fin
       && Fragments(MessageType(frameType, d), later) {
      forall i | 0 <= i < |d|
        ensures IsData(d[i]) && (d[i].head.opcode == CONT <==> i > 0 || frameType != -1)
        ensures d[i].head.fin <==> i == |d| - 1
      {
        if i > 0 {
          assert d[i] == later[i - 1];
        }
      }
    }
  }

  lemma LastInTail(fs: seq<Frame>)
    requires |fs| > 1
    ensures fs[|fs| - 1] == fs[1..][|fs| - 2]
  {}

  /** A frame that is not the last: what the rest has to be for the whole to be accepted. */
  lemma {:induction false} AcceptedProbe(o: Options, m: State, fs: seq<Frame>)
    requires AllValid(fs) && |fs| > 1 && !IsData(fs[0]) && Started(m.frameType)
    ensures Accepted(o, m, fs) <==>
            OnFrame(o, m, fs[0]).More? && Accepted(o, OnFrame(o, m, fs[0]).state, fs[1..])
    ensures OnFrame(o, m, fs[0]).More? ==> Started(OnFrame(o, m, fs[0]).state.frameType)
  {
    hide Fragments, CapKept, Sent, PongId, Utf8.Scan, Utf8.Fragmentwise;
    LastInTail(fs);
  }

  lemma {:induction false} AcceptedData(o: Options, m: State, fs: seq<Frame>)
    requires AllValid(fs) && |fs| > 1 && IsData(fs[0]) && Started(m.frameType)
    ensures Accepted(o, m, fs) <==>
            OnFrame(o, m, fs[0]).More? && Accepted(o, OnFrame(o, m, fs[0]).state, fs[1..])
    ensures OnFrame(o, m, fs[0]).More? ==> Started(OnFrame(o, m, fs[0]).state.frameType)
  {
    hide Fragments, Sent, Utf8.Scan;
    LastInTail(fs);
    var d := Data(fs);
    var later := Data(fs[1..]);
    assert d[0] == fs[0] && d[1..] == later;
    LastIsData(fs[1..]);
    if |later| > 0 {
      FragmentsHead(m.frameType, d);
    }
  }

  lemma {:induction false} LastIsData(fs: seq<Frame>)
    ensures |fs| > 0 && IsData(fs[|fs| - 1]) ==> |Data(fs)| > 0
  {
    if |fs| > 1 {
      LastInTail(fs);
      LastIsData(fs[1..]);
    }
  }

  /** What the lists of a single data frame are. */
  lemma {:induction false} SingleData(o: Options, pong: int, size: u64, utf8: nat, f: Frame)
    requires ValidFrame(f) && IsData(f)
    ensures Data([f]) == [f] && Payloads([f]) == [f.payload] && Concat(Payloads([f])) == f.payload
    ensures Answers([f]) == [] && Pings([f]) == 0 && Total([f]) == |f.payload| && LastPong(o, pong, [f]) == pong
    ensures CapKept(size, [f]) <==> (size + |f.payload|) % TWO_TO_64 <= MAX_FRAME_LENGTH
    ensures Utf8.Fragmentwise(utf8, [f.payload]) <==> Utf8.Scan(utf8, f.payload) == Utf8.ACCEPT
  {
    hide Sent, Utf8.Scan, PongId;
    var fs := [f];
    assert fs[0] == f && fs[1..] == [];
    assert Payloads(fs)[1..] == [];
    assert Concat([f.payload]) == f.payload + Concat([f.payload][1..]) == f.payload;
    assert Answers(fs) == [] + Answers([]);
    assert CapKept((size + |f.payload|) % TWO_TO_64, []);
  }

  lemma {:induction false} AcceptedLast(o: Options, m: State, f: Frame)
    requires ValidFrame(f) && Started(m.frameType)
    ensures AllValid([f]) && (Accepted(o, m, [f]) <==> OnFrame(o, m, f).Message?)
    ensures OnFrame(o, m, f).Message? ==> Assembled(o, m, [f], OnFrame(o, m, f).state)
  {
    hide Sent, Utf8.Scan, PongId;
    assert [f][0] == f && [f][1..] == [];
    if IsData(f) {
      SingleData(o, m.pong, m.size, m.utf8, f);
      hide Data, Payloads, Answers, Pings, Total, LastPong, CapKept, Utf8.Fragmentwise, Concat;
      assert m.sent + [] == m.sent;
    } else {
      assert Data([f]) == [];
    }
  }

  /** One frame more in front of what is assembled. */
  lemma {:induction false} AssembledStep(o: Options, m: State, fs: seq<Frame>, m': State)
    requires AllValid(fs) && |fs| > 1 && OnFrame(o, m, fs[0]).More? && Started(m.frameType)
    requires |Data(fs[1..])| > 0 && Assembled(o, OnFrame(o, m, fs[0]).state, fs[1..], m')
    ensures Assembled(o, m, fs, m')
  {
    if IsData(fs[0]) {
      AssembledData(o, m, fs, m');
    } else {
      AssembledProbe(o, m, fs, m');
    }
  }

  lemma {:induction false} AssembledProbe(o: Options, m: State, fs: seq<Frame>, m': State)
    requires AllValid(fs) && |fs| > 1 && OnFrame(o, m, fs[0]).More? && Started(m.frameType) && !IsData(fs[0])
    requires |Data(fs[1..])| > 0 && Assembled(o, OnFrame(o, m, fs[0]).state, fs[1..], m')
    ensures Assembled(o, m, fs, m')
  {
    hide Sent, Utf8.Scan, PongId, Payloads, Total;
    var f, later := fs[0], fs[1..];
    assert Data(fs) == Data(later);
    Associative(m.sent, Sent0(f), Answers(later));
    assert OnFrame(o, m, f).state.sent == m.sent + Sent0(f);
    assert LastPong(o, m.pong, fs) == LastPong(o, OnFrame(o, m, f).state.pong, later);
  }

  lemma {:induction false} AssembledData(o: Options, m: State, fs: seq<Frame>, m': State)
    requires AllValid(fs) && |fs| > 1 && OnFrame(o, m, fs[0]).More? && Started(m.frameType) && IsData(fs[0])
    requires |Data(fs[1..])| > 0 && Assembled(o, OnFrame(o, m, fs[0]).state, fs[1..], m')
    ensures Assembled(o, m, fs, m')
  {
    hide Sent, Utf8.Scan, PongId, CapKept;
    var f, later := fs[0], fs[1..];
    DataInFront(o, m.pong, f, fs);
    var d, d' := Data(fs), Data(later);
    hide Data, Payloads, Answers, Pings, Total, LastPong, Concat;
    Associative(m.msg, f.payload, Concat(Payloads(d')));
    SumsModulo(m.size, |f.payload|, Total(d'));
    var m1 := OnFrame(o, m, f).state;
    assert m'.frameType == MessageType(m.frameType, d);
    assert m'.size == (m.size + Total(d)) % TWO_TO_64;
    assert m'.msg == m.msg + Concat(Payloads(d));
    assert m1.sent == m.sent && m1.sends == m.sends && m1.pong == m.pong;
  }

  lemma {:induction false} DataInFront(o: Options, pong: int, f: Frame, fs: seq<Frame>)
    requires AllValid(fs) && |fs| > 1 && f == fs[0] && IsData(f)
    ensures Data(fs) == [f] + Data(fs[1..])
    ensures Concat(Payloads(Data(fs))) == f.payload + Concat(Payloads(Data(fs[1..])))
    ensures Total(Data(fs)) == |f.payload| + Total(Data(fs[1..]))
    ensures Answers(fs) == Answers(fs[1..]) && Pings(fs) == Pings(fs[1..])
    ensures LastPong(o, pong, fs) == LastPong(o, pong, fs[1..])
  {
    hide Sent, PongId;
    var d := Data(fs);
    assert d[1..] == Data(fs[1..]);
    assert Payloads(d)[1..] == Payloads(d[1..]);
    assert [] + Answers(fs[1..]) == Answers(fs[1..]);
  }

  function Sent0(f: Frame): seq<byte>
    requires ValidFrame(f)
  {
    if f.head.opcode == PING then Sent(PONG, f.payload) else []
  }

  lemma {:induction false} SumsModulo(a: nat, b: nat, c: nat)
    ensures ((a + b) % TWO_TO_64 + c) % TWO_TO_64 == (a + (b + c)) % TWO_TO_64
  {
    var q := (a + b) / TWO_TO_64;
    assert a + b == TWO_TO_64 * q + (a + b) % TWO_TO_64;
    ModuloShift((a + b) % TWO_TO_64 + c, q);
  }

  lemma {:induction false} ModuloShift(x: nat, q: nat)
    ensures (TWO_TO_64 * q + x) % TWO_TO_64 == x % TWO_TO_64
    decreases q
  {
    if q > 0 {
      ModuloShift(x, q - 1);
      assert TWO_TO_64 * q + x == TWO_TO_64 * (q - 1) + x + TWO_TO_64;
    }
  }

  lemma {:induction false} FollowsThenAccepted(o: Options, m: State, fs: seq<Frame>, m': State)
    requires AllValid(fs) && Started(m.frameType) && Follows(o, m, fs, m')
    ensures Accepted(o, m, fs) && Assembled(o, m, fs, m')
    decreases |fs|
  {
    hide OnFrame, Accepted, Assembled;
    if |fs| == 1 {
      assert fs == [fs[0]];
      AcceptedLast(o, m, fs[0]);
    } else {
      AcceptedFirst(o, m, fs);
      FollowsThenAccepted(o, OnFrame(o, m, fs[0]).state, fs[1..], m');
      AcceptedHasData(o, OnFrame(o, m, fs[0]).state, fs[1..]);
      AssembledStep(o, m, fs, m');
    }
  }

  lemma {:induction false} AcceptedFirst(o: Options, m: State, fs: seq<Frame>)
    requires AllValid(fs) && |fs| > 1 && Started(m.frameType)
    ensures ValidFrame(fs[0]) && AllValid(fs[1..])
    ensures Accepted(o, m, fs) <==>
            OnFrame(o, m, fs[0]).More? && Accepted(o, OnFrame(o, m, fs[0]).state, fs[1..])
    ensures OnFrame(o, m, fs[0]).More? ==> Started(OnFrame(o, m, fs[0]).state.frameType)
  {
    hide OnFrame, Accepted;
    if IsData(fs[0]) {
      AcceptedData(o, m, fs);
    } else {
      AcceptedProbe(o, m, fs);
    }
  }

  lemma AcceptedHasData(o: Options, m: State, fs: seq<Frame>)
    requires Accepted(o, m, fs)
    ensures |fs| > 0 && |Data(fs)| > 0
  {}

  lemma {:induction false} AcceptedThenFollows(o: Options, m: State, fs: seq<Frame>) returns (m': State)
    requires AllValid(fs) && Started(m.frameType) && Accepted(o, m, fs)
    ensures Follows(o, m, fs, m')
    decreases |fs|
  {
    hide OnFrame, Accepted;
    AcceptedHasData(o, m, fs);
    if |fs| == 1 {
      assert fs == [fs[0]];
      AcceptedLast(o, m, fs[0]);
      m' := OnFrame(o, m, fs[0]).state;
    } else {
      AcceptedFirst(o, m, fs);
      m' := AcceptedThenFollows(o, OnFrame(o, m, fs[0]).state, fs[1..]);
    }
  }

  /** The reader delivers a message exactly when the stream starts with an acceptable conversation. */
  lemma {:induction false} DeliversExactly(o: Options, m: State, s: seq<byte>)
    requires Started(m.frameType)
    ensures Run(o, m, s).Delivered? <==>
            exists fs, rest :: AllValid(fs) && Accepted(o, m, fs) && s == WireAll(fs) + rest
  {
    hide Run, Accepted, Follows, AllValid;
    if Run(o, m, s).Delivered? {
      var fs := DeliveredThenFollowed(o, m, s);
      FollowsThenAccepted(o, m, fs, Run(o, m, s).state);
    }
    if fs, rest :| AllValid(fs) && Accepted(o, m, fs) && s == WireAll(fs) + rest {
      var m' := AcceptedThenFollows(o, m, fs);
      FollowedThenDelivered(o, m, fs, m', rest);
    }
  }

  /** And the message it delivers is the one those frames carry, each PING answered, nothing after them read. */
  lemma {:induction false} DeliversAssembled(o: Options, m: State, fs: seq<Frame>, rest: seq<byte>)
    requires AllValid(fs) && Started(m.frameType) && Accepted(o, m, fs)
    ensures |Data(fs)| > 0
    ensures var r := Run(o, m, WireAll(fs) + rest);
            r.Delivered? && r.rest == rest && Assembled(o, m, fs, r.state)
  {
    hide Run, Follows, Assembled, AllValid;
    AcceptedHasData(o, m, fs);
    var m' := AcceptedThenFollows(o, m, fs);
    FollowedThenDelivered(o, m, fs, m', rest);
    FollowsThenAccepted(o, m, fs, m');
  }

  // From the start of a message

  /** With fewer than 2^64 bytes announced in all, the cap is on the whole message. */
  lemma {:induction false} CapOnTotal(size: u64, d: seq<Frame>)
    requires size + Total(d) < TWO_TO_64 && size <= MAX_FRAME_LENGTH
    ensures CapKept(size, d) <==> size + Total(d) <= MAX_FRAME_LENGTH
    decreases |d|
  {
    if d != [] {
      var size' := size + |d[0].payload|;
      if size' <= MAX_FRAME_LENGTH {
        CapOnTotal(size', d[1..]);
      }
    }
  }

  /**
    The check is made on the length a header announces, before any of its body is read, in 64-bit
    arithmetic. It lets a message past the cap exactly when the sum wraps back under it.
   */
  lemma {:induction false} CapOnAnnounced(m: State, length: nat)
    requires m.size <= MAX_FRAME_LENGTH && length < TWO_TO_64
    ensures SizeAfter(m, length) <= MAX_FRAME_LENGTH && m.size + length > MAX_FRAME_LENGTH
       <==> m.size + length >= TWO_TO_64
    ensures m.size + length >= TWO_TO_64 ==> SizeAfter(m, length) < m.size
  {
    if m.size + length >= TWO_TO_64 {
      assert SizeAfter(m, length) == m.size + length - TWO_TO_64;
    }
  }

  /** Fourteen bytes after a fragment of one byte suffice: a header that announces 2^64 - 1 passes the check. */
  lemma {:induction false} CapWraps(m: State, fin: bool, mask: seq<byte>)
    requires m.size == 1 && |mask| == 4
    ensures var h := Head(fin, 0, CONT, true, Long, TWO_TO_64 - 1);
            && ValidHead(h) && |HeadWire(h) + mask| == 14
            && ParseHead(HeadWire(h) + mask) == Some((h, mask))
            && SizeAfter(m, h.length) == 0 && m.size + h.length > MAX_FRAME_LENGTH
  {
    hide HeadWire, ParseHead;
    var h := Head(fin, 0, CONT, true, Long, TWO_TO_64 - 1);
    HeadThenParse(h, mask);
    LongHeadSize(h);
  }

  lemma LongHeadSize(h: Head)
    requires ValidHead(h) && h.form == Long
    ensures |HeadWire(h)| == 10
  {}

  /** What read_frame asks realloc for: bytes so far, bytes to come, and a zero behind a final frame. */
  function Requested(sofar: nat, length: nat, fin: bool): u64 {
    (sofar + length + if fin then 1 else 0) % TWO_TO_64
  }

  /** The buffer holds what is then copied into it exactly when that sum does not wrap. */
  lemma RequestCovers(sofar: nat, length: nat, fin: bool)
    requires sofar <= MAX_FRAME_LENGTH && length < TWO_TO_64
    ensures sofar + length + (if fin then 1 else 0) <= Requested(sofar, length, fin)
       <==> sofar + length + (if fin then 1 else 0) < TWO_TO_64
  {}

  /** Below 2^64 announced bytes every frame that passes the check gets a buffer that holds it. */
  lemma {:induction false} PassedThenCovered(m: State, length: nat, fin: bool)
    requires |m.msg| == m.size <= MAX_FRAME_LENGTH && m.size + length < TWO_TO_64
    requires SizeAfter(m, length) <= MAX_FRAME_LENGTH
    ensures |m.msg| + length + (if fin then 1 else 0) <= Requested(|m.msg|, length, fin)
  {
    CapOnAnnounced(m, length);
    RequestCovers(|m.msg|, length, fin);
  }

  /** A message whose fragments all passed the check is within the cap exactly when no sum wrapped. */
  lemma {:induction false} CapKeptMeans(size: u64, d: seq<Frame>)
    requires size <= MAX_FRAME_LENGTH && CapKept(size, d)
    ensures size + Total(d) <= MAX_FRAME_LENGTH <==> size + Total(d) < TWO_TO_64
  {
    if size + Total(d) < TWO_TO_64 {
      CapOnTotal(size, d);
    }
  }

  lemma {:induction false} TotalIsLength(d: seq<Frame>)
    ensures Total(d) == |Concat(Payloads(d))|
  {
    if d != [] {
      TotalIsLength(d[1..]);
      assert Payloads(d)[1..] == Payloads(d[1..]);
    }
  }

  /**
    A whole message from a client: fragments in order with PINGs and PONGs between them, within the cap,
    text well-formed. It is delivered as the concatenation of its unmasked fragments, each PING answered by
    a PONG of equal payload in order, and the stream is left where the message ends.
   */
  lemma {:induction false} WholeMessage(o: Options, fs: seq<Frame>, pong: int, sent: seq<byte>, sends: nat, rest: seq<byte>)
    requires !o.closing && Conversation(-1, fs) && Pings(fs) <= sends
    requires |Concat(Payloads(Data(fs)))| <= MAX_FRAME_LENGTH
    requires o.validate && Data(fs)[0].head.opcode == TXT ==> Utf8.WellFormed(Concat(Payloads(Data(fs))))
    ensures var d := Data(fs);
            var r := Run(o, Start(pong, sent, sends), WireAll(fs) + rest);
            && r.Delivered? && r.rest == rest
            && r.state.frameType == d[0].head.opcode
            && r.state.msg == Concat(Payloads(d)) && r.state.size == |r.state.msg|
            && r.state.sent == sent + Answers(fs)
            && r.state.pong == LastPong(o, pong, fs)
  {
    hide Run, Conversation, Accepted, Answers, Utf8.WellFormed, Data, Payloads, WireAll, LastPong, Pings, Total, AllValid;
    ConversationHasData(-1, fs);
    var m, d := Start(pong, sent, sends), Data(fs);
    WholeAccepted(o, m, fs);
    DeliversAssembled(o, m, fs, rest);
    TotalIsLength(d);
    assert [] + Concat(Payloads(d)) == Concat(Payloads(d));
  }

  lemma {:induction false} WholeAccepted(o: Options, m: State, fs: seq<Frame>)
    requires !o.closing && Conversation(-1, fs) && Pings(fs) <= m.sends
    requires m.frameType == -1 && m.size == 0 && m.utf8 == Utf8.ACCEPT
    requires |Concat(Payloads(Data(fs)))| <= MAX_FRAME_LENGTH
    requires |Data(fs)| > 0
    requires o.validate && Data(fs)[0].head.opcode == TXT ==> Utf8.WellFormed(Concat(Payloads(Data(fs))))
    ensures Accepted(o, m, fs)
  {
    hide Conversation, CapKept, Utf8.Fragmentwise, Utf8.WellFormed;
    TotalIsLength(Data(fs));
    CapOnTotal(0, Data(fs));
    Utf8.FragmentwiseExactly(Payloads(Data(fs)));
  }

  lemma ConversationHasData(frameType: int, fs: seq<Frame>)
    requires Conversation(frameType, fs)
    ensures AllValid(fs) && |fs| > 0 && |Data(fs)| > 0
  {}

  /** Success means a whole message: nothing is delivered from a partial or malformed one. */
  lemma {:induction false} NothingPartial(o: Options, s: seq<byte>, pong: int, sent: seq<byte>, sends: nat)
    returns (fs: seq<Frame>)
    requires Run(o, Start(pong, sent, sends), s).Delivered?
    ensures !o.closing && Conversation(-1, fs) && Pings(fs) <= sends
    ensures var r := Run(o, Start(pong, sent, sends), s);
            && s == WireAll(fs) + r.rest
            && r.state.msg == Concat(Payloads(Data(fs)))
            && r.state.sent == sent + Answers(fs)
            && (|s| < TWO_TO_64 ==> |r.state.msg| == r.state.size <= MAX_FRAME_LENGTH)
            && (o.validate && r.state.frameType == TXT ==> Utf8.WellFormed(r.state.msg))
  {
    hide Run, Conversation, CapKept, Utf8.Fragmentwise, Utf8.WellFormed, Answers, WireAll, Follows;
    var m := Start(pong, sent, sends);
    var r := Run(o, m, s);
    fs := DeliveredThenFollowed(o, m, s);
    FollowsThenAccepted(o, m, fs, r.state);
    var d := Data(fs);
    assert |d| > 0 by {
      ConversationHasData(-1, fs);
    }
    assert [] + Concat(Payloads(d)) == Concat(Payloads(d));
    Utf8.FragmentwiseExactly(Payloads(d));
    TotalIsLength(d);
    if |s| < TWO_TO_64 {
      TotalOnWire(fs);
      CapOnTotal(0, d);
    }
  }

  lemma {:induction false} TotalOnWire(fs: seq<Frame>)
    requires AllValid(fs)
    ensures Total(Data(fs)) <= |WireAll(fs)|
  {
    if fs != [] {
      TotalOnWire(fs[1..]);
      if IsData(fs[0]) {
        assert Data(fs)[1..] == Data(fs[1..]);
      }
    }
  }

  /** A message the gateway's client sends in one masked frame, whatever the mask. */
  lemma {:induction false} MaskedMessage(
      o: Options, opcode: nat, payload: seq<byte>, mask: seq<byte>, pong: int, sent: seq<byte>, sends: nat, rest: seq<byte>)
    requires !o.closing && (opcode == TXT || opcode == BIN) && |mask| == 4
    requires |payload| <= MAX_FRAME_LENGTH && (o.validate && opcode == TXT ==> Utf8.WellFormed(payload))
    ensures var f := Frame(FinalHead(opcode, true, |payload|), mask, payload);
            var r := Run(o, Start(pong, sent, sends), Wire(f) + rest);
            && r.Delivered? && r.rest == rest
            && r.state.frameType == opcode && r.state.msg == payload && r.state.sent == sent
  {
    hide Run, Wire, Utf8.WellFormed;
    var f := Frame(FinalHead(opcode, true, |payload|), mask, payload);
    var fs := [f];
    assert fs[1..] == [] && Data(fs) == [f] && Payloads([f]) == [payload];
    assert Concat([payload]) == payload + Concat([payload][1..]) == payload;
    assert WireAll(fs) == Wire(f) + WireAll([]) == Wire(f);
    assert Answers(fs) == [] + Answers([]) == [];
    WholeMessage(o, fs, pong, sent, sends, rest);
  }

  // A whole connection

  /** The messages handed to the application, with their types: next_frame again and again. */
  function Messages(o: Options, pong: int, sent: seq<byte>, sends: nat, s: seq<byte>): seq<(int, seq<byte>)>
    decreases |s|
  {
    match Run(o, Start(pong, sent, sends), s)
    case Delivered(m, rest) =>
      Shorter(o, Start(pong, sent, sends), s);
      [(m.frameType, m.msg)] + Messages(o, m.pong, m.sent, m.sends, rest)
    case _ => []
  }

  lemma {:induction false} Shorter(o: Options, m: State, s: seq<byte>)
    requires Run(o, m, s).Delivered?
    ensures |Run(o, m, s).rest| < |s|
    decreases |s|
  {
    hide OnFrame, ParseFrame;
    var (f, rest) := ParseFrame(s).value;
    ParseThenWire(s);
    if OnFrame(o, m, f).More? {
      Shorter(o, OnFrame(o, m, f).state, rest);
    }
  }

  predicate Deliverable(fs: seq<Frame>) {
    && Conversation(-1, fs) && |Data(fs)| > 0
    && |Concat(Payloads(Data(fs)))| <= MAX_FRAME_LENGTH
  }

  ghost predicate AllDeliverable(o: Options, talks: seq<seq<Frame>>) {
    forall i | 0 <= i < |talks| ::
      && Deliverable(talks[i])
      && (o.validate && Data(talks[i])[0].head.opcode == TXT ==> Utf8.WellFormed(Concat(Payloads(Data(talks[i])))))
  }

  function StreamOf(talks: seq<seq<Frame>>): seq<byte>
    requires forall i | 0 <= i < |talks| :: Deliverable(talks[i])
  {
    if talks == [] then []
    else
      assert Deliverable(talks[0]);
      WireAll(talks[0]) + StreamOf(talks[1..])
  }

  function MessagesOf(talks: seq<seq<Frame>>): (ms: seq<(int, seq<byte>)>)
    requires forall i | 0 <= i < |talks| :: Deliverable(talks[i])
  {
    if talks == [] then []
    else
      assert Deliverable(talks[0]);
      [(Data(talks[0])[0].head.opcode, Concat(Payloads(Data(talks[0]))))] + MessagesOf(talks[1..])
  }

  function PingsOf(talks: seq<seq<Frame>>): nat {
    if talks == [] then 0 else Pings(talks[0]) + PingsOf(talks[1..])
  }

  /** Every message of a connection reaches the application, in order. */
  lemma {:induction false} EveryMessage(o: Options, talks: seq<seq<Frame>>, pong: int, sent: seq<byte>, sends: nat)
    requires !o.closing && AllDeliverable(o, talks) && PingsOf(talks) <= sends
    ensures Messages(o, pong, sent, sends, StreamOf(talks)) == MessagesOf(talks)
    decreases |talks|
  {
    hide Run, Data, Payloads, Deliverable, Answers, Conversation;
    if talks == [] {
      EmptyStream(o, Start(pong, sent, sends));
    } else {
      DeliverableTalk(o, talks);
      var r := Run(o, Start(pong, sent, sends), WireAll(talks[0]) + StreamOf(talks[1..]));
      WholeMessage(o, talks[0], pong, sent, sends, StreamOf(talks[1..]));
      SendsLeft(o, talks[0], pong, sent, sends, StreamOf(talks[1..]));
      EveryMessage(o, talks[1..], r.state.pong, r.state.sent, r.state.sends);
    }
  }

  lemma EmptyStream(o: Options, m: State)
    ensures Run(o, m, []) == Failed(m.sent)
  {}

  lemma {:induction false} DeliverableTalk(o: Options, talks: seq<seq<Frame>>)
    requires AllDeliverable(o, talks) && talks != []
    ensures Deliverable(talks[0]) && Conversation(-1, talks[0]) && |Data(talks[0])| > 0 && AllValid(talks[0])
    ensures |Concat(Payloads(Data(talks[0])))| <= MAX_FRAME_LENGTH
    ensures AllDeliverable(o, talks[1..])
  {
    hide Data, Payloads, Utf8.WellFormed, Fragments;
  }

  lemma {:induction false} SendsLeft(o: Options, fs: seq<Frame>, pong: int, sent: seq<byte>, sends: nat, rest: seq<byte>)
    requires !o.closing && Deliverable(fs) && Pings(fs) <= sends && AllValid(fs)
    requires o.validate && Data(fs)[0].head.opcode == TXT ==> Utf8.WellFormed(Concat(Payloads(Data(fs))))
    ensures var r := Run(o, Start(pong, sent, sends), WireAll(fs) + rest);
            r.Delivered? && r.state.sends == sends - Pings(fs)
  {
    hide Run, Conversation, Accepted, Answers, Utf8.WellFormed;
    WholeAccepted(o, Start(pong, sent, sends), fs);
    DeliversAssembled(o, Start(pong, sent, sends), fs, rest);
  }
}
