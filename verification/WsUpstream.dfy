/**
  The gateway's WebSocket client (gateway/ws_upstream_client.c): `ws_read_some` over the bytes left from the
  handshake and the socket, and `ws_upstream_recv_frame`, which reads what the server sends.
 */
module WsUpstream {
  import opened Bytes
  import opened WsFrames
  import WsReceive

  /** One call of recv: bytes (none at all when the peer has closed), an interrupted call, or an error. */
  datatype Receipt = Got(bytes: seq<byte>) | Interrupted | Broken

  /** The bytes the coming calls give, up to the end or an error. */
  function Available(receipts: seq<Receipt>): seq<byte> {
    if receipts == [] then []
    else match receipts[0]
    case Interrupted => Available(receipts[1..])
    case Broken => []
    case Got(bytes) => if bytes == [] then [] else bytes + Available(receipts[1..])
  }

  /** Opcode and payload of a frame, and what follows it. FIN and RSV are not looked at. */
  function ParsePeer(s: seq<byte>): Option<(nat, seq<byte>, seq<byte>)> {
    match ParseHead(s)
    case None => None
    case Some((h, afterHead)) =>
      if h.masked then
        match ParseBody(h.length, afterHead)
        case None => None
        case Some((mask, payload, rest)) => Some((h.opcode, payload, rest))
      else if |afterHead| < h.length then None
      else Some((h.opcode, afterHead[..h.length], afterHead[h.length..]))
  }

  /** What either side writes, the client reads. */
  lemma {:induction false} PeerWireThenParse(f: Frame, rest: seq<byte>)
    requires ValidFrame(f)
    ensures ParsePeer(PeerWire(f) + rest) == Some((f.head.opcode, f.payload, rest))
  {
    hide HeadWire, ParseHead, ApplyMask;
    var covered := ApplyMask(f.payload, f.mask);
    var body := (if f.head.masked then f.mask + covered else f.payload) + rest;
    assert PeerWire(f) + rest == HeadWire(f.head) + body;
    HeadThenParse(f.head, body);
    if f.head.masked {
      assert body[..4] == f.mask && body[4..4 + |covered|] == covered && body[4 + |covered|..] == rest;
      MaskTwice(f.payload, f.mask);
    } else {
      assert body[..|f.payload|] == f.payload && body[|f.payload|..] == rest;
    }
  }

  /** What it takes for a frame is one, in full. */
  lemma {:induction false} ParseThenPeerWire(s: seq<byte>) returns (f: Frame)
    requires ParsePeer(s).Some?
    ensures var (opcode, payload, rest) := ParsePeer(s).value;
            ValidFrame(f) && f.head.opcode == opcode && f.payload == payload && s == PeerWire(f) + rest
  {
    hide HeadWire, ParseHead, ApplyMask;
    ParseThenHead(s);
    var (h, body) := ParseHead(s).value;
    var (opcode, payload, rest) := ParsePeer(s).value;
    if h.masked {
      f := Frame(h, body[..4], payload);
      MaskTwice(body[4..4 + h.length], f.mask);
      assert body == f.mask + ApplyMask(payload, f.mask) + rest;
      Associative(HeadWire(h), f.mask + ApplyMask(payload, f.mask), rest);
    } else {
      f := Frame(h, [0, 0, 0, 0], payload);
      SplitAt(body, h.length);
      Associative(HeadWire(h), payload, rest);
    }
  }

  /** Opcodes and payloads, one frame after another. */
  function ReadAll(s: seq<byte>): seq<(nat, seq<byte>)>
    decreases |s|
  {
    match ParsePeer(s)
    case None => []
    case Some((opcode, payload, rest)) => if |rest| < |s| then [(opcode, payload)] + ReadAll(rest) else []
  }

  function SentAll(frames: seq<(nat, seq<byte>)>): seq<byte>
    requires forall i | 0 <= i < |frames| :: frames[i].0 < 16 && |frames[i].1| < TWO_TO_64
  {
    if frames == [] then [] else Sent(frames[0].0, frames[0].1) + SentAll(frames[1..])
  }

  /** Frames written with ws_sendframe are read back with the same opcodes and payloads, in order. */
  lemma {:induction false} SentThenRead(frames: seq<(nat, seq<byte>)>)
    requires forall i | 0 <= i < |frames| :: frames[i].0 < 16 && |frames[i].1| < TWO_TO_64
    ensures ReadAll(SentAll(frames)) == frames
    decreases |frames|
  {
    hide ParsePeer, HeadWire, FinalHead, Wire;
    if frames == [] {
      NothingToRead();
    } else {
      var (opcode, payload) := frames[0];
      var rest := SentAll(frames[1..]);
      var f := Frame(FinalHead(opcode, false, |payload|), [0, 0, 0, 0], payload);
      SentIsPeerWire(opcode, payload);
      PeerWireThenParse(f, rest);
      SentThenRead(frames[1..]);
      assert frames == [frames[0]] + frames[1..];
    }
  }

  lemma {:induction false} SentIsPeerWire(opcode: nat, payload: seq<byte>)
    requires opcode < 16 && |payload| < TWO_TO_64
    ensures var f := Frame(FinalHead(opcode, false, |payload|), [0, 0, 0, 0], payload);
            ValidFrame(f) && f.head.opcode == opcode && Sent(opcode, payload) == PeerWire(f)
  {
    hide HeadWire;
  }

  lemma NothingToRead()
    ensures ParsePeer([]) == None
  {}

  /** The PONGs a reader has to see: one for each PING, with its payload. */
  function Pongs(fs: seq<Frame>): (ps: seq<(nat, seq<byte>)>)
    requires WsReceive.AllValid(fs)
    ensures forall i | 0 <= i < |ps| :: ps[i].0 < 16 && |ps[i].1| < TWO_TO_64
  {
    if fs == [] then []
    else if fs[0].head.opcode == PING then [(PONG, fs[0].payload)] + Pongs(fs[1..])
    else Pongs(fs[1..])
  }

  /** The server's answers to a conversation are read back as exactly those PONGs. */
  lemma {:induction false} AnswersReadBack(fs: seq<Frame>)
    requires WsReceive.AllValid(fs)
    ensures ReadAll(WsReceive.Answers(fs)) == Pongs(fs)
  {
    AnswersAreSent(fs);
    SentThenRead(Pongs(fs));
  }

  lemma {:induction false} AnswersAreSent(fs: seq<Frame>)
    requires WsReceive.AllValid(fs)
    ensures WsReceive.Answers(fs) == SentAll(Pongs(fs))
  {
    hide Sent;
    if fs != [] {
      AnswersAreSent(fs[1..]);
      if fs[0].head.opcode == PING {
        assert Pongs(fs)[1..] == Pongs(fs[1..]);
      } else {
        assert [] + WsReceive.Answers(fs[1..]) == WsReceive.Answers(fs[1..]);
      }
    }
  }

  class Client {
    var prebuffer: seq<byte>
    var prebufferOff: nat
    var receipts: seq<Receipt>

    ghost predicate Valid()
      reads this
    {
      prebufferOff <= |prebuffer|
    }

    ghost function Input(): seq<byte>
      requires Valid()
      reads this
    {
      prebuffer[prebufferOff..] + Available(receipts)
    }

    /** The first bytes after the handshake's response may have come with it. */
    constructor (extra: seq<byte>, receipts: seq<Receipt>)
      ensures Valid() && Input() == extra + Available(receipts)
    {
      this.receipts := receipts;
      prebuffer, prebufferOff := extra, 0;
      new;
      assert extra[0..] == extra;
    }

    method FromPrebuffer(most: nat) returns (piece: seq<byte>)
      requires Valid() && prebufferOff < |prebuffer| && most > 0
      modifies this`prebuffer, this`prebufferOff
      ensures Valid() && 0 < |piece| <= most && old(Input()) == piece + Input()
    {
      var take := Min(|prebuffer| - prebufferOff, most);
      piece := prebuffer[prebufferOff..prebufferOff + take];
      assert prebuffer[prebufferOff..] == piece + prebuffer[prebufferOff + take..];
      Associative(piece, prebuffer[prebufferOff + take..], Available(receipts));
      prebufferOff := prebufferOff + take;
      if prebufferOff == |prebuffer| {
        prebuffer, prebufferOff := [], 0;
      }
    }

    /** One recv with the prebuffer used up: the bytes, or 0 or -1. */
    method FromSocket(most: nat) returns (n: int, piece: seq<byte>, again: bool)
      requires Valid() && prebufferOff == |prebuffer| && most > 0
      modifies this`receipts
      ensures Valid() && n <= most
      ensures n > 0 ==> |piece| == n && !again && old(Input()) == piece + Input()
      ensures again ==> n == -1 && Input() == old(Input()) && |receipts| < |old(receipts)|
      ensures n <= 0 && !again ==> old(Input()) == []
    {
      again, piece := false, [];
      if receipts == [] {
        return 0, [], false;
      }
      var first, later := receipts[0], receipts[1..];
      match first
      case Interrupted =>
        receipts := later;
        return -1, [], true;
      case Broken =>
        receipts := later;
        return -1, [], false;
      case Got(bytes) =>
        if bytes == [] {
          receipts := later;
          return 0, [], false;
        }
        n := Min(|bytes|, most);
        piece := bytes[..n];
        SplitAt(bytes, n);
        Associative(piece, bytes[n..], Available(later));
        receipts := if n < |bytes| then [Got(bytes[n..])] + later else later;
    }

    /** ws_read_some: all the bytes asked for, or not 1. */
    method ReadSome(len: nat) returns (rc: int, dest: seq<byte>)
      requires Valid()
      modifies this
      ensures Valid() && (rc == 1 <==> len <= |old(Input())|) && rc <= 1
      ensures rc == 1 ==> dest == old(Input())[..len] && Input() == old(Input())[len..]
    {
      hide Available;
      dest := [];
      ghost var s := Input();
      while |dest| < len
        invariant Valid() && |dest| <= len && s == dest + Input()
        decreases len - |dest|, |receipts|
      {
        ghost var before := dest;
        if prebufferOff < |prebuffer| {
          var piece := FromPrebuffer(len - |dest|);
          Associative(dest, piece, Input());
          dest := dest + piece;
          continue;
        }
        var n, piece, again := FromSocket(len - |dest|);
        if again {
          continue;
        }
        if n <= 0 {
          return n, dest;
        }
        Associative(dest, piece, Input());
        dest := dest + piece;
      }
      rc := 1;
    }

    /** The length after its seven-bit code. */
    method ReadLength(code: nat) returns (ok: bool, length: u64)
      requires Valid() && code < 128
      modifies this
      ensures Valid() && (ok <==> ParseLength(code, old(Input())).Some?)
      ensures ok ==> length == ParseLength(code, old(Input())).value.1 && Input() == ParseLength(code, old(Input())).value.2
    {
      ok, length := true, code;
      if code == 126 {
        var rc, ext := ReadSome(2);
        ok := rc > 0;
        if ok {
          length := 0x100 * ext[0] as int + ext[1] as int;
        }
      } else if code == 127 {
        var rc, ext := ReadSome(8);
        ok := rc > 0;
        if ok {
          length := Folded(ext);
        }
      }
    }

    /** ws_upstream_recv_frame: the next frame, or failure when the stream ends within it. */
    method RecvFrame() returns (rc: int, opcode: nat, payload: seq<byte>)
      requires Valid()
      modifies this
      ensures Valid() && (rc == 0 <==> ParsePeer(old(Input())).Some?) && rc <= 0
      ensures rc == 0 ==> ParsePeer(old(Input())) == Some((opcode, payload, Input()))
    {
      hide ParseLength, ApplyMask;
      opcode, payload := 0, [];
      ghost var s := Input();
      var got, header := ReadSome(2);
      if got <= 0 {
        return -1, opcode, payload;
      }
      assert header[0] == s[0] && header[1] == s[1];
      opcode := header[0] % 16;
      var ok, length := ReadLength(header[1] % 128);
      if !ok {
        return -1, opcode, payload;
      }
      ghost var body := Input();
      var masked, mask := header[1] >= 128, [0, 0, 0, 0];
      if masked {
        got, mask := ReadSome(4);
        if got <= 0 {
          return -1, opcode, payload;
        }
      }
      ghost var text := Input();
      if length > 0 {
        got, payload := ReadSome(length);
        if got <= 0 {
          return -1, opcode, payload;
        }
        if masked {
          payload := Unmask(payload, mask);
        }
      } else {
        assert ApplyMask([], mask) == [];
        assert text[..0] == [];
      }
      if masked {
        assert body[4..][..length] == body[4..4 + length];
        assert body[4..][length..] == body[4 + length..];
      }
      rc := 0;
    }
  }

  /** Eight bytes shifted in one at a time. */
  method Folded(ext: seq<byte>) returns (length: u64)
    requires |ext| == 8
    ensures length == ReadBe64(ext)
  {
    var high := ((ext[0] as int * 0x100 + ext[1] as int) * 0x100 + ext[2] as int) * 0x100 + ext[3] as int;
    var low := ((ext[4] as int * 0x100 + ext[5] as int) * 0x100 + ext[6] as int) * 0x100 + ext[7] as int;
    length := high * 0x1_0000_0000 + low;
  }

  /** The loop that takes the mask off in place. */
  method Unmask(s: seq<byte>, mask: seq<byte>) returns (r: seq<byte>)
    requires |mask| == 4
    ensures r == ApplyMask(s, mask)
  {
    hide Xor;
    r := s;
    var i := 0;
    while i < |s|
      invariant 0 <= i <= |s| == |r|
      invariant forall k | 0 <= k < i :: r[k] == Xor(s[k], mask[k % 4])
      invariant forall k | i <= k < |s| :: r[k] == s[k]
    {
      r := r[i := Xor(r[i], mask[i % 4])];
      i := i + 1;
    }
  }
}
