/**
  The server's frame reader with its buffer and socket (wsh264/src/ws.c): `next_byte`, `read_frame`,
  `next_frame`, `do_pong`, proved to be the machine of WsReceive on the bytes the socket still has to give.

  The two and eight length bytes are read left to right, an order C leaves open.
 */
module WsSession {
  import opened Bytes
  import opened WsFrames
  import opened WsReceive
  import Utf8

  const MESSAGE_LENGTH: nat := 2048

  /** The bytes the coming calls of recv give, up to the first that fails; an empty piece is a failure. */
  function Available(incoming: seq<seq<byte>>): seq<byte> {
    if incoming == [] || incoming[0] == [] then [] else incoming[0] + Available(incoming[1..])
  }

  class Client {
    var incoming: seq<seq<byte>>   // the coming calls of recv
    var sends: nat                 // how many more sends succeed
    var sent: seq<byte>
    var closing: bool              // WS_STATE_CLOSING
    var pingId: int                // current_ping_id
    var lastPong: int              // last_pong_id

    method Recv(buffer: array<byte>) returns (n: int)
      requires buffer.Length > 0
      modifies this`incoming, buffer
      ensures old(Available(incoming)) == [] ==> n <= 0
      ensures old(Available(incoming)) != [] ==> 0 < n <= buffer.Length
      ensures n > 0 ==> old(Available(incoming)) == buffer[..n] + Available(incoming)
    {
      if incoming == [] {
        return 0;
      }
      var piece := incoming[0];
      if piece == [] {
        incoming := incoming[1..];
        return -1;
      }
      n := Min(|piece|, buffer.Length);
      CopyInto(buffer, 0, piece[..n]);
      if n < |piece| {
        incoming := [piece[n..]] + incoming[1..];
        Associative(piece[..n], piece[n..], Available(incoming[1..]));
        assert piece == piece[..n] + piece[n..];
      } else {
        incoming := incoming[1..];
        assert piece[..n] == piece;
      }
    }

    method Send(bytes: seq<byte>) returns (ok: bool)
      modifies this`sends, this`sent
      ensures ok == (old(sends) > 0)
      ensures sent == if ok then old(sent) + bytes else old(sent)
      ensures sends == if ok then old(sends) - 1 else old(sends)
    {
      ok := sends > 0;
      if ok {
        sends, sent := sends - 1, sent + bytes;
      }
    }
  }

  /** What is left to parse of a frame after its first two bytes: length, mask and body. */
  function AfterHead(code: nat, s: seq<byte>): Option<(nat, seq<byte>, seq<byte>)>
    requires code < 128
  {
    match ParseLength(code, s)
    case None => None
    case Some((form, length, afterLength)) =>
      match ParseBody(length, afterLength)
      case None => None
      case Some((mask, payload, rest)) => Some((length, payload, rest))
  }

  lemma {:induction false} ParseFromHead(s: seq<byte>)
    requires |s| >= 2
    ensures match AfterHead(s[1] % 128, s[2..])
            case None => ParseFrame(s) == None
            case Some((length, payload, rest)) =>
              && ParseFrame(s).Some? && ParseFrame(s).value.1 == rest
              && var f := ParseFrame(s).value.0;
                 && ValidFrame(f) && f.payload == payload && |payload| == length
                 && f.head.fin == (s[0] >= 128) && f.head.rsv == s[0] / 16 % 8 && f.head.opcode == s[0] % 16
                 && (f.head.form == Short <==> s[1] % 128 <= 125)
  {
    hide ApplyMask, Wire;
    if ParseFrame(s).Some? {
      ParseThenWire(s);
    }
  }

  lemma TooShort(s: seq<byte>)
    requires |s| < 2
    ensures ParseFrame(s) == None
  {}

  lemma {:induction false} FirstByte(s: seq<byte>)
    requires |s| > 0
    ensures ParseFrame(s).Some? ==>
              var f := ParseFrame(s).value.0;
              ValidFrame(f) && f.head.rsv == s[0] / 16 % 8 && f.head.opcode == s[0] % 16
  {
    if |s| >= 2 {
      ParseFromHead(s);
    }
  }

  lemma AfterHeadLength(code: nat, s: seq<byte>)
    requires code < 128
    ensures AfterHead(code, s).Some? ==> |AfterHead(code, s).value.1| == AfterHead(code, s).value.0
    ensures AfterHead(code, s).Some? && code <= 125 ==> AfterHead(code, s).value.0 == code
  {}

  /** Eight length bytes shifted together. */
  function EightShifted(b0: byte, b1: byte, b2: byte, b3: byte, b4: byte, b5: byte, b6: byte, b7: byte): (n: u64)
    ensures n == ReadBe64([b0, b1, b2, b3, b4, b5, b6, b7])
  {
    0x1_0000_0000 * (0x100_0000 * b0 + 0x1_0000 * b1 + 0x100 * b2 + b3)
    + (0x100_0000 * b4 + 0x1_0000 * b5 + 0x100 * b6 + b7)
  }

  class Reader {
    const frm: array<byte>
    const client: Client
    const validate: bool           // VALIDATE_UTF8
    var curPos: nat
    var amtRead: nat
    var frameType: int
    var frameSize: u64
    var msg: seq<byte>
    var msgCtrl: seq<byte>
    var error: bool

    ghost predicate Valid()
      reads this, frm
    {
      && frm.Length == MESSAGE_LENGTH && curPos <= amtRead <= MESSAGE_LENGTH
      && (curPos == 0 ==> amtRead == 0)
    }

    /** The bytes still to be parsed: the rest of the buffer and what the socket gives. */
    ghost function Input(): seq<byte>
      requires Valid()
      reads this, frm, client
    {
      frm[curPos..amtRead] + Available(client.incoming)
    }

    ghost function Settings(): Options
      reads this, client
    {
      Options(validate, client.closing, client.pingId)
    }

    ghost function Machine(data: seq<byte>, utf8: nat): State
      reads this, client
    {
      State(frameType, frameSize, data, utf8, client.lastPong, client.sent, client.sends)
    }

    /** After the handshake: what it left in the buffer comes first. */
    constructor (client: Client, leftover: seq<byte>, validate: bool)
      requires |leftover| < MESSAGE_LENGTH
      ensures Valid() && !error && fresh(frm) && this.client == client && this.validate == validate
      ensures Input() == leftover + Available(client.incoming)
    {
      this.client := client;
      this.validate := validate;
      frm := new byte[MESSAGE_LENGTH](i => 0);
      // The request comes before the leftover; one byte of it is enough to have the position off zero.
      curPos, amtRead := 1, 1 + |leftover|;
      frameType, frameSize, msg, msgCtrl, error := -1, 0, [], [], false;
      new;
      CopyInto(frm, 1, leftover);
      assert frm[1..1 + |leftover|] == leftover;
    }

    method NextByte() returns (b: int)
      requires Valid()
      modifies this`curPos, this`amtRead, this`error, frm, client`incoming
      ensures Valid()
      ensures old(Input()) == [] ==> b == -1 && error
      ensures old(Input()) != [] ==> b == old(Input())[0] && error == old(error) && Input() == old(Input())[1..]
      ensures old(error) ==> error
      ensures b == -1 || 0 <= b < 256
    {
      if curPos == 0 || curPos == amtRead {
        var n := client.Recv(frm);
        if n <= 0 {
          error := true;
          return -1;
        }
        amtRead := n;
        curPos := 0;
      }
      b := frm[curPos];
      curPos := curPos + 1;
    }

    /** The length bytes. When one is missing the value is worthless, and the error flag says so. */
    method ReadLength(code: nat) returns (length: u64)
      requires Valid() && code < 128
      modifies this`curPos, this`amtRead, this`error, frm, client`incoming
      ensures Valid() && (old(error) ==> error)
      ensures var p := ParseLength(code, old(Input()));
              if p.None? then error
              else length == p.value.1 && Input() == p.value.2 && error == old(error)
    {
      length := code;
      if code == 126 {
        var b0 := NextByte();
        var b1 := NextByte();
        length := *;
        if !(b0 == -1 || b1 == -1) {
          length := 0x100 * b0 + b1;
        }
      } else if code == 127 {
        length := ReadLong();
      }
    }

    method ReadFour() returns (ok: bool, b0: int, b1: int, b2: int, b3: int)
      requires Valid()
      modifies this`curPos, this`amtRead, this`error, frm, client`incoming
      ensures Valid() && (old(error) ==> error) && (if ok then 0 <= b0 && 0 <= b1 && 0 <= b2 && 0 <= b3 else error)
      ensures -1 <= b0 < 256 && -1 <= b1 < 256 && -1 <= b2 < 256 && -1 <= b3 < 256
      ensures var s := old(Input());
              if |s| < 4 then error
              else ok && [b0, b1, b2, b3] == s[..4] && Input() == s[4..] && error == old(error)
    {
      b0 := NextByte();
      b1 := NextByte();
      b2 := NextByte();
      b3 := NextByte();
      ok := !(b0 == -1 || b1 == -1 || b2 == -1 || b3 == -1);
    }

    method ReadLong() returns (length: u64)
      requires Valid()
      modifies this`curPos, this`amtRead, this`error, frm, client`incoming
      ensures Valid() && (old(error) ==> error)
      ensures var s := old(Input());
              if |s| < 8 then error
              else length == ReadBe64(s) && Input() == s[8..] && error == old(error)
    {
      var high, b0, b1, b2, b3 := ReadFour();
      var low, b4, b5, b6, b7 := ReadFour();
      length := *;
      if high && low {
        length := EightShifted(b0, b1, b2, b3, b4, b5, b6, b7);
      }
    }

    /** Four mask bytes; a missing one leaves 255 in its place and the error flag set. */
    method ReadMasks() returns (masks: seq<byte>)
      requires Valid()
      modifies this`curPos, this`amtRead, this`error, frm, client`incoming
      ensures Valid() && |masks| == 4 && (old(error) ==> error)
      ensures var s := old(Input());
              if |s| < 4 then error
              else masks == s[..4] && Input() == s[4..] && error == old(error)
    {
      var ok, b0, b1, b2, b3 := ReadFour();
      masks := [b0 % 256, b1 % 256, b2 % 256, b3 % 256];
    }

    /** The copying loop of read_frame. */
    method ReadBody(buf: seq<byte>, length: u64, masks: seq<byte>) returns (ok: bool, buf': seq<byte>)
      requires Valid() && |masks| == 4 && !error
      modifies this`curPos, this`amtRead, this`error, frm, client`incoming
      ensures Valid() && (ok <==> !error) && (ok <==> length <= |old(Input())|)
      ensures ok ==> buf' == buf + ApplyMask(old(Input())[..length], masks) && Input() == old(Input())[length..]
    {
      hide Xor;
      ghost var s := Input();
      buf' := buf;
      var i := 0;
      while i < length
        invariant Valid() && !error && 0 <= i <= length && i <= |s| && Input() == s[i..]
        invariant |buf'| == |buf| + i && buf'[..|buf|] == buf
        invariant forall k | 0 <= k < i :: buf'[|buf|..][k] == Xor(s[k], masks[k % 4])
      {
        var b := NextByte();
        if b == -1 {
          return false, buf';
        }
        buf' := buf' + [Xor(b, masks[i % 4])];
        i := i + 1;
      }
      ok := true;
      assert buf'[|buf|..] == ApplyMask(s[..length], masks);
    }

    /** read_frame: a body is appended to the buffer given, its length added to the size given. */
    method ReadFrame(buf: seq<byte>, code: nat, size: u64) returns (ok: bool, buf': seq<byte>, length: u64, size': u64)
      requires Valid() && code < 128
      modifies this`curPos, this`amtRead, this`error, frm, client`incoming
      ensures Valid() && (ok <==> !error)
      ensures var p := AfterHead(code, old(Input()));
              && (ok <==> !old(error) && p.Some? && (size + p.value.0) % TWO_TO_64 <= MAX_FRAME_LENGTH)
              && (ok ==>
                    && length == p.value.0 && buf' == buf + p.value.1 && Input() == p.value.2
                    && size' == (size + length) % TWO_TO_64)
    {
      hide ParseLength, ParseBody, Available;
      buf' := buf;
      length := ReadLength(code);
      size' := (size + length) % TWO_TO_64;
      if size' > MAX_FRAME_LENGTH {
        error := true;
        return false, buf', length, size';
      }
      ok, buf' := ReadMasked(buf, length);
    }

    /** Mask and body. */
    method ReadMasked(buf: seq<byte>, length: u64) returns (ok: bool, buf': seq<byte>)
      requires Valid()
      modifies this`curPos, this`amtRead, this`error, frm, client`incoming
      ensures Valid() && (ok <==> !error)
      ensures var p := ParseBody(length, old(Input()));
              && (ok <==> !old(error) && p.Some?)
              && (ok ==> buf' == buf + p.value.1 && Input() == p.value.2)
      ensures ok ==> |buf'| == |buf| + length && |old(Input())| >= 4 + length
      ensures ok ==> forall i | 0 <= i < length ::
                       Differing(buf'[|buf| + i], old(Input())[4 + i], old(Input())[i % 4])
    {
      hide ApplyMask, Available, Differing;
      buf' := buf;
      ghost var s := Input();
      var masks := ReadMasks();
      if error {
        return false, buf';
      }
      ok, buf' := ReadBody(buf, length, masks);
      assert length <= |s[4..]| ==> s[4..][..length] == s[4..4 + length];
      if ok {
        MaskFlips(s[4..4 + length], masks);
      }
    }

    /** do_pong */
    method DoPong(size: nat) returns (ok: bool)
      requires size <= |msgCtrl| && size <= 125
      modifies this`error, client`sends, client`sent
      ensures ok == (old(client.sends) > 0) && error == (old(error) || !ok)
      ensures client.sent == if ok then old(client.sent) + Sent(PONG, msgCtrl[..size]) else old(client.sent)
      ensures client.sends == if ok then old(client.sends) - 1 else old(client.sends)
    {
      var response := SendFrame(PONG, msgCtrl[..size]);
      ok := client.Send(response);
      if !ok {
        error := true;
      }
    }

    /** do_close with a code of its own. */
    method DoClose(code: u16) returns (ok: bool)
      modifies this`msgCtrl, client`sends, client`sent
      ensures ok == (old(client.sends) > 0)
      ensures client.sent == if ok then old(client.sent) + Sent(CLSE, Be16(code)) else old(client.sent)
    {
      msgCtrl := [code / 0x100, code % 0x100];
      var response := SendFrame(CLSE, msgCtrl);
      ok := client.Send(response);
    }

    /** A data frame whose type is already recorded: its body, and the check of a text message. */
    method DataFrame(opcode: nat, fin: bool, code: nat, data: seq<byte>, utf8: nat) returns (data': seq<byte>, utf8': nat)
      requires Valid() && code < 128
      requires opcode == CONT || frameType == opcode
      modifies this`curPos, this`amtRead, this`error, this`frameSize, this`msgCtrl, frm
      modifies client`incoming, client`sends, client`sent
      ensures Valid() && (old(error) ==> error && client.sent == old(client.sent))
      ensures !old(error) ==>
              match AfterHead(code, old(Input()))
              case None => error && client.sent == old(client.sent)
              case Some((length, payload, rest)) =>
                match OnData(old(Settings()), old(Machine(data, utf8)), opcode, fin, payload)
                case Fail(sent) => error && client.sent == sent
                case More(m') => !fin && !error && Machine(data', utf8') == m' && Input() == rest
                case Message(m') => fin && !error && Machine(data', utf8') == m' && Input() == rest
                case Close(_, _) => false
    {
      hide AfterHead, Sent, Utf8.Scan;
      utf8' := utf8;
      var ok, length;
      ok, data', length, frameSize := ReadFrame(data, code, frameSize);
      if !ok {
        AfterHeadLength(code, old(Input()));
        return;
      }
      AfterHeadLength(code, old(Input()));
      if validate && frameType == TXT {
        utf8' := Utf8.IsUtf8LenState(data'[|data|..], utf8);
        if (if fin then utf8' != Utf8.ACCEPT else utf8' == Utf8.REJECT) {
          error := true;
          var ignored := DoClose(INVALID_UTF8);
        }
      }
    }

    /** The payload of a control frame, in the buffer of its own. */
    method ControlBody(code: nat) returns (ok: bool, size: nat)
      requires Valid() && !error && code <= 125
      modifies this`curPos, this`amtRead, this`error, this`msgCtrl, frm, client`incoming
      ensures Valid() && (ok <==> !error)
      ensures var p := AfterHead(code, old(Input()));
              && (ok <==> p.Some?)
              && (ok ==> msgCtrl == p.value.1 && size == |msgCtrl| <= 125 && Input() == p.value.2)
    {
      hide ApplyMask;
      var length, size';
      ok, msgCtrl, length, size' := ReadFrame([], code, 0);
      AfterHeadLength(code, old(Input()));
      size := size';
    }

    /** A PONG moves the newest acknowledged id when it carries one that was sent; any other is ignored. */
    method PongFrame(code: nat) returns (ok: bool)
      requires Valid() && !error && code <= 125
      modifies this`curPos, this`amtRead, this`error, this`msgCtrl, frm, client`incoming, client`lastPong
      ensures Valid() && (ok <==> !error)
      ensures var p := AfterHead(code, old(Input()));
              && (ok <==> p.Some?)
              && (ok ==> Input() == p.value.2 &&
                         client.lastPong == OnPong(old(Settings()), old(Machine([], 0)), p.value.1).pong)
    {
      hide AfterHead;
      var size;
      ok, size := ControlBody(code);
      if ok && size == 4 {
        var pongId := ToInt32(ReadBe32(msgCtrl));
        if !(pongId < 0 || pongId > client.pingId) {
          client.lastPong := pongId;
        }
      }
    }

    method PingFrame(code: nat) returns (ok: bool)
      requires Valid() && !error && code <= 125
      modifies this`curPos, this`amtRead, this`error, this`msgCtrl, frm, client`incoming, client`sends, client`sent
      ensures Valid() && (ok <==> !error) && (ok ==> |msgCtrl| <= 125)
      ensures var p := AfterHead(code, old(Input()));
              && (ok <==> p.Some? && old(client.sends) > 0)
              && client.sent == (if ok then old(client.sent) + Sent(PONG, msgCtrl) else old(client.sent))
              && (ok ==> msgCtrl == p.value.1 && Input() == p.value.2 && client.sends == old(client.sends) - 1)
    {
      hide AfterHead, Sent;
      var size;
      ok, size := ControlBody(code);
      if ok {
        assert msgCtrl[..size] == msgCtrl;
        ok := DoPong(size);
      }
    }

    /** A CLOSE ends the call, with its reason left for do_close. */
    method CloseFrame(code: nat) returns (ok: bool)
      requires Valid() && !error && code <= 125
      modifies this`curPos, this`amtRead, this`error, this`msgCtrl, this`frameType, this`frameSize, frm, client`incoming
      ensures Valid() && (ok <==> !error)
      ensures match AfterHead(code, old(Input()))
              case None => !ok
              case Some((length, payload, rest)) =>
                match OnClose(old(Settings()), old(Machine([], 0)), payload)
                case Close(_, reason) =>
                  ok && msgCtrl == reason && Input() == rest && frameType == CLSE && frameSize == |reason|
                case Fail(_) => !ok
                case _ => false
    {
      hide AfterHead, Utf8.Scan;
      var size;
      ok, size := ControlBody(code);
      if !ok {
        return;
      }
      if validate && size > 2 {
        var state := Utf8.IsUtf8LenState(msgCtrl[2..], Utf8.ACCEPT);
        if state != Utf8.ACCEPT {
          error := true;
          return false;
        }
      }
      frameSize := size;
      frameType := CLSE;
    }

    /** The checks on the first byte of a frame; a data frame's type is recorded. */
    method Admit(b: byte) returns (ok: bool)
      modifies this`error, this`frameType
      ensures ok <==>
              && b / 16 % 8 == 0 && Known(b % 16)
              && (old(frameType) == -1 ==> b % 16 != CONT)
              && (old(frameType) != -1 ==> Control(b % 16) || b % 16 == CONT)
              && (client.closing ==> b % 16 == CLSE)
      ensures error == (old(error) || !ok)
      ensures ok ==> frameType == if b % 16 == CONT || Control(b % 16) then old(frameType) else b % 16
    {
      var opcode: nat := b % 16;
      ok := false;
      if b / 16 % 8 != 0 {
        error := true;
        return;
      }
      if (frameType == -1 && opcode == CONT) || (frameType != -1 && !Control(opcode) && opcode != CONT) {
        error := true;
        return;
      }
      if !Known(opcode) {
        frameType := opcode;
        error := true;
        return;
      }
      if client.closing && opcode != CLSE {
        error := true;
        return;
      }
      if opcode != CONT && !Control(opcode) {
        frameType := opcode;
      }
      ok := true;
    }

    /** The body of next_frame's loop. `closed` says that it returned from within, after a CLOSE. */
    method OneFrame(data: seq<byte>, utf8: nat) returns (isFin: bool, closed: bool, data': seq<byte>, utf8': nat)
      requires Valid() && !error
      modifies this, frm, client`incoming, client`sends, client`sent, client`lastPong
      ensures Valid() && (closed ==> !error) && msg == old(msg)
      ensures match ParseFrame(old(Input()))
              case None => error && client.sent == old(client.sent)
              case Some((f, rest)) =>
                ValidFrame(f) &&
                match OnFrame(old(Settings()), old(Machine(data, utf8)), f)
                case Fail(sent) => error && client.sent == sent
                case More(m') => !error && !isFin && !closed && Machine(data', utf8') == m' && Input() == rest
                case Message(m') => !error && isFin && !closed && Machine(data', utf8') == m' && Input() == rest
                case Close(m', reason) =>
                  && closed && msgCtrl == reason && Input() == rest && frameType == CLSE && frameSize == |reason|
                  && client.sent == m'.sent && client.sends == m'.sends && client.lastPong == m'.pong
    {
      hide AfterHead, OnBody, ParseFrame, Available, Fits;
      isFin, closed, data', utf8' := false, false, data, utf8;
      ghost var s := Input();
      var b := NextByte();
      if b == -1 {
        TooShort(s);
        return;
      }
      FirstByte(s);
      assert s == [b] + Input();
      var ok := Admit(b);
      if !ok {
        return;
      }
      isFin, closed, data', utf8' := AdmittedFrame(b, old(frameType), data, utf8);
    }

    /** The rest of a frame whose first byte was welcome. */
    method AdmittedFrame(b: byte, ghost typeBefore: int, data: seq<byte>, utf8: nat)
      returns (isFin: bool, closed: bool, data': seq<byte>, utf8': nat)
      requires Valid() && !error && b / 16 % 8 == 0 && Known(b % 16)
      requires typeBefore == -1 ==> b % 16 != CONT
      requires typeBefore != -1 ==> Control(b % 16) || b % 16 == CONT
      requires client.closing ==> b % 16 == CLSE
      requires frameType == if b % 16 == CONT || Control(b % 16) then typeBefore else b % 16
      modifies this, frm, client`incoming, client`sends, client`sent, client`lastPong
      ensures Valid() && (closed ==> !error) && msg == old(msg)
      ensures match ParseFrame([b] + old(Input()))
              case None => error && client.sent == old(client.sent)
              case Some((f, rest)) =>
                ValidFrame(f) &&
                match OnFrame(old(Settings()), old(Machine(data, utf8)).(frameType := typeBefore), f)
                case Fail(sent) => error && client.sent == sent
                case More(m') => !error && !isFin && !closed && Machine(data', utf8') == m' && Input() == rest
                case Message(m') => !error && isFin && !closed && Machine(data', utf8') == m' && Input() == rest
                case Close(m', reason) =>
                  && closed && msgCtrl == reason && Input() == rest && frameType == CLSE && frameSize == |reason|
                  && client.sent == m'.sent && client.sends == m'.sends && client.lastPong == m'.pong
    {
      hide AfterHead, OnBody, ParseFrame, Available, Fits;
      closed, data', utf8' := false, data, utf8;
      isFin := b >= 128;
      var opcode: nat := b % 16;
      ghost var s := [b] + Input();
      if |s| < 2 {
        TooShort(s);
      } else {
        ParseFromHead(s);
        assert s[2..] == Input()[1..];
      }
      ghost var frame := ParseFrame(s);
      if (opcode == TXT || opcode == BIN) && frame.Some? {
        TypeRecorded(Settings(), Machine(data, utf8).(frameType := typeBefore), opcode, isFin, frame.value.0.payload);
      }
      var mask := NextByte();
      var code: nat := mask % 128;
      if Control(opcode) && (!isFin || code > 125) {
        error := true;
        return;
      }
      isFin, closed, data', utf8' := KnownFrame(opcode, isFin, code, data, utf8);
    }

    /** A frame with an opcode that is welcome, by kind. */
    method KnownFrame(opcode: nat, fin: bool, code: nat, data: seq<byte>, utf8: nat)
      returns (isFin: bool, closed: bool, data': seq<byte>, utf8': nat)
      requires Valid() && code < 128 && Known(opcode)
      requires if Control(opcode) then !error && code <= 125 else opcode == CONT || frameType == opcode
      modifies this, frm, client`incoming, client`sends, client`sent, client`lastPong
      ensures Valid() && (closed ==> !error) && msg == old(msg) && (old(error) ==> error && client.sent == old(client.sent))
      ensures !old(error) ==>
              match AfterHead(code, old(Input()))
              case None => error && client.sent == old(client.sent)
              case Some((length, payload, rest)) =>
                (Control(opcode) ==> |payload| <= 125) &&
                match OnBody(old(Settings()), old(Machine(data, utf8)), opcode, fin, payload)
                case Fail(sent) => error && client.sent == sent
                case More(m') => !error && !isFin && !closed && Machine(data', utf8') == m' && Input() == rest
                case Message(m') => !error && isFin && !closed && Machine(data', utf8') == m' && Input() == rest
                case Close(m', reason) =>
                  && closed && msgCtrl == reason && Input() == rest && frameType == CLSE && frameSize == |reason|
                  && client.sent == m'.sent && client.sends == m'.sends && client.lastPong == m'.pong
    {
      hide AfterHead, Sent, Utf8.Scan, PongId;
      isFin, closed, data', utf8' := fin, false, data, utf8;
      AfterHeadLength(code, Input());
      if !Control(opcode) {
        data', utf8' := DataFrame(opcode, isFin, code, data, utf8);
      } else if opcode == PONG {
        var ok := PongFrame(code);
        isFin := false;
      } else if opcode == PING {
        var ok := PingFrame(code);
        isFin := false;
      } else {
        closed := CloseFrame(code);
      }
    }

    /** next_frame: the next message or CLOSE. Called only while no error has occurred. */
    method NextFrame() returns (status: int)
      requires Valid() && !error
      modifies this, frm, client`incoming, client`sends, client`sent, client`lastPong
      ensures Valid() && (error <==> status != 0)
      ensures match Run(old(Settings()), Start(old(client.lastPong), old(client.sent), old(client.sends)), old(Input()))
              case Delivered(m', rest) =>
                && status == 0 && Input() == rest
                && frameType == m'.frameType && msg == m'.msg && frameSize == m'.size
                && client.sent == m'.sent && client.sends == m'.sends && client.lastPong == m'.pong
              case Closed(m', reason, rest) =>
                && status == 0 && Input() == rest
                && frameType == CLSE && msgCtrl == reason && frameSize == |reason| && msg == []
                && client.sent == m'.sent && client.sends == m'.sends && client.lastPong == m'.pong
              case Failed(sent) =>
                status == -1 && msg == [] && client.sent == sent
    {
      hide OnFrame, ParseFrame;
      ghost var o, m0, s0 := Settings(), Start(client.lastPong, client.sent, client.sends), Input();
      var data: seq<byte>, utf8, isFin, closed := [], Utf8.ACCEPT, false, false;
      frameSize, frameType, msg := 0, -1, [];
      while !isFin && !error
        invariant Valid() && msg == [] && Settings() == o
        invariant !isFin && !error ==> Run(o, m0, s0) == Run(o, Machine(data, utf8), Input())
        invariant isFin && !error ==> Run(o, m0, s0) == Delivered(Machine(data, utf8), Input())
        invariant error ==> Run(o, m0, s0) == Failed(client.sent)
        decreases if isFin || error then 0 else |Input()| + 1
      {
        isFin, closed, data, utf8 := OneFrame(data, utf8);
        if closed {
          return 0;
        }
      }
      if error {
        return -1;
      }
      msg := data;
      return 0;
    }
  }
}
