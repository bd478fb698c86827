/**
  Frames of RFC 6455, section 5.2, as the two sides of the relay write and read them: the server library
  (wsh264/src/ws.c) and the gateway's client (gateway/ws_upstream_client.c).
 */
module WsFrames {
  import opened Bytes

  const CONT: nat := 0
  const TXT: nat := 1
  const BIN: nat := 2
  const CLSE: nat := 8
  const PING: nat := 9
  const PONG: nat := 10

  /** How the payload length is written: in the second byte, in two more bytes or in eight more. */
  datatype Form = Short | Medium | Long

  datatype Head = Head(fin: bool, rsv: nat, opcode: nat, masked: bool, form: Form, length: nat)

  datatype Frame = Frame(head: Head, mask: seq<byte>, payload: seq<byte>)

  predicate Control(opcode: nat) {
    opcode == CLSE || opcode == PING || opcode == PONG
  }

  // The eight-byte length

  function Be64(v: u64): (b: seq<byte>)
    ensures |b| == 8
  {
    Be32(v / 0x1_0000_0000) + Be32(v % 0x1_0000_0000)
  }

  function ReadBe64(b: seq<byte>): u64
    requires |b| >= 8
  {
    0x1_0000_0000 * ReadBe32(b) as int + ReadBe32(b[4..]) as int
  }

  lemma {:induction false} Be64ThenRead(v: u64, tail: seq<byte>)
    ensures ReadBe64(Be64(v) + tail) == v
  {
    hide Be32, ReadBe32;
    var hi, lo := v / 0x1_0000_0000, v % 0x1_0000_0000;
    assert Be64(v) + tail == Be32(hi) + (Be32(lo) + tail);
    assert (Be32(hi) + (Be32(lo) + tail))[4..] == Be32(lo) + tail;
    Be32ThenRead(hi, Be32(lo) + tail);
    Be32ThenRead(lo, tail);
  }

  lemma {:induction false} ReadThenBe64(b: seq<byte>)
    requires |b| >= 8
    ensures Be64(ReadBe64(b)) == b[..8]
  {
    hide Be32, ReadBe32;
    var hi, lo := ReadBe32(b), ReadBe32(b[4..]);
    ReadThenBe32(b);
    ReadThenBe32(b[4..]);
    assert ReadBe64(b) / 0x1_0000_0000 == hi && ReadBe64(b) % 0x1_0000_0000 == lo;
    assert b[4..][..4] == b[4..8];
  }

  // Lengths

  predicate Fits(form: Form, length: nat) {
    match form
    case Short => length <= 125
    case Medium => length < 0x1_0000
    case Long => length < TWO_TO_64
  }

  function Code(form: Form, length: nat): (c: nat)
    requires Fits(form, length)
    ensures c < 128
  {
    match form
    case Short => length
    case Medium => 126
    case Long => 127
  }

  function Extension(form: Form, length: nat): seq<byte>
    requires Fits(form, length)
  {
    match form
    case Short => []
    case Medium => Be16(length)
    case Long => Be64(length)
  }

  /** The form, the length and what follows the length bytes. */
  function ParseLength(code: nat, s: seq<byte>): Option<(Form, nat, seq<byte>)>
    requires code < 128
  {
    if code == 126 then
      if |s| < 2 then None else Some((Medium, ReadBe16(s), s[2..]))
    else if code == 127 then
      if |s| < 8 then None else Some((Long, ReadBe64(s), s[8..]))
    else
      Some((Short, code, s))
  }

  lemma {:induction false} LengthThenParse(form: Form, length: nat, rest: seq<byte>)
    requires Fits(form, length)
    ensures ParseLength(Code(form, length), Extension(form, length) + rest) == Some((form, length, rest))
  {
    hide Be64, ReadBe64;
    match form
    case Short => assert Extension(form, length) + rest == rest;
    case Medium =>
      var s := Be16(length) + rest;
      assert s[0] == length / 0x100 && s[1] == length % 0x100 && s[2..] == rest;
    case Long =>
      Be64ThenRead(length, rest);
      assert (Be64(length) + rest)[8..] == rest;
  }

  lemma {:induction false} ParseThenLength(code: nat, s: seq<byte>)
    requires code < 128 && ParseLength(code, s).Some?
    ensures var (form, length, rest) := ParseLength(code, s).value;
            Fits(form, length) && Code(form, length) == code && s == Extension(form, length) + rest
  {
    hide Be64, ReadBe64;
    if code == 126 {
      assert Be16(ReadBe16(s)) == s[..2];
      SplitAt(s, 2);
    } else if code == 127 {
      ReadThenBe64(s);
      SplitAt(s, 8);
    } else {
      assert s == [] + s;
    }
  }

  // Masks

  function ApplyMask(s: seq<byte>, mask: seq<byte>): (r: seq<byte>)
    requires |mask| == 4
    ensures |r| == |s|
    ensures forall i | 0 <= i < |s| :: r[i] == Xor(s[i], mask[i % 4])
  {
    seq<byte>(|s|, i requires 0 <= i < |s| => Xor(s[i], mask[i % 4]))
  }

  lemma {:induction false} MaskTwice(s: seq<byte>, mask: seq<byte>)
    requires |mask| == 4
    ensures ApplyMask(ApplyMask(s, mask), mask) == s
  {
    hide Xor;
    forall i | 0 <= i < |s|
      ensures Xor(Xor(s[i], mask[i % 4]), mask[i % 4]) == s[i]
    {
      XorTwice(s[i], mask[i % 4]);
    }
  }

  /** Masking flips in byte i the bits of mask byte i modulo 4, as section 5.3 has it. */
  lemma {:induction false} MaskFlips(s: seq<byte>, mask: seq<byte>)
    requires |mask| == 4
    ensures forall i | 0 <= i < |s| :: Differing(ApplyMask(s, mask)[i], s[i], mask[i % 4])
  {
    hide Xor, Differing;
    forall i | 0 <= i < |s|
      ensures Differing(ApplyMask(s, mask)[i], s[i], mask[i % 4])
    {
      XorExactly(ApplyMask(s, mask)[i], s[i], mask[i % 4]);
    }
  }

  // Frames on the wire

  predicate ValidHead(h: Head) {
    h.rsv < 8 && h.opcode < 16 && Fits(h.form, h.length)
  }

  predicate ValidFrame(f: Frame) {
    ValidHead(f.head) && |f.mask| == 4 && |f.payload| == f.head.length
  }

  function First(h: Head): byte
    requires ValidHead(h)
  {
    (if h.fin then 128 else 0) + 16 * h.rsv + h.opcode
  }

  function Second(h: Head): byte
    requires ValidHead(h)
  {
    (if h.masked then 128 else 0) + Code(h.form, h.length)
  }

  function HeadWire(h: Head): (w: seq<byte>)
    requires ValidHead(h)
    ensures |w| >= 2
  {
    [First(h), Second(h)] + Extension(h.form, h.length)
  }

  /** As the server reads it: four mask bytes whatever the mask bit says. */
  function Wire(f: Frame): (w: seq<byte>)
    requires ValidFrame(f)
    ensures |w| >= 6 + |f.payload|
  {
    HeadWire(f.head) + (f.mask + ApplyMask(f.payload, f.mask))
  }

  /** As the gateway's client reads it: mask bytes exactly when the mask bit is set. */
  function PeerWire(f: Frame): seq<byte>
    requires ValidFrame(f)
  {
    if f.head.masked then Wire(f) else HeadWire(f.head) + f.payload
  }

  function ParseHead(s: seq<byte>): Option<(Head, seq<byte>)> {
    if |s| < 2 then None
    else match ParseLength(s[1] % 128, s[2..])
    case None => None
    case Some((form, length, rest)) =>
      Some((Head(s[0] >= 128, s[0] / 16 % 8, s[0] % 16, s[1] >= 128, form, length), rest))
  }

  /** Mask and body of a frame whose length is known. */
  function ParseBody(length: nat, s: seq<byte>): Option<(seq<byte>, seq<byte>, seq<byte>)> {
    if |s| < 4 + length then None
    else Some((s[..4], ApplyMask(s[4..4 + length], s[..4]), s[4 + length..]))
  }

  function ParseFrame(s: seq<byte>): (r: Option<(Frame, seq<byte>)>)
    ensures r.Some? ==> |r.value.1| < |s|
  {
    match ParseHead(s)
    case None => None
    case Some((head, afterHead)) =>
      match ParseBody(head.length, afterHead)
      case None => None
      case Some((mask, payload, rest)) => Some((Frame(head, mask, payload), rest))
  }

  lemma {:induction false} HeadThenParse(h: Head, rest: seq<byte>)
    requires ValidHead(h)
    ensures ParseHead(HeadWire(h) + rest) == Some((h, rest))
  {
    hide ParseLength, Extension;
    var s := HeadWire(h) + rest;
    assert s[0] == First(h) && s[1] == Second(h);
    assert s[2..] == Extension(h.form, h.length) + rest;
    LengthThenParse(h.form, h.length, rest);
  }

  lemma {:induction false} ParseThenHead(s: seq<byte>)
    requires ParseHead(s).Some?
    ensures var (h, rest) := ParseHead(s).value;
            ValidHead(h) && s == HeadWire(h) + rest && |rest| <= |s| - 2
  {
    hide ParseLength, Extension;
    var (h, rest) := ParseHead(s).value;
    ParseThenLength(s[1] % 128, s[2..]);
    assert First(h) == s[0] && Second(h) == s[1];
    assert s == [s[0], s[1]] + s[2..];
    Associative([s[0], s[1]], Extension(h.form, h.length), rest);
  }

  /** A frame on the wire is read back, and what follows it is left alone. */
  lemma {:induction false} WireThenParse(f: Frame, rest: seq<byte>)
    requires ValidFrame(f)
    ensures ParseFrame(Wire(f) + rest) == Some((f, rest))
  {
    hide HeadWire, ParseHead, ApplyMask;
    var covered := ApplyMask(f.payload, f.mask);
    var body := f.mask + covered + rest;
    assert Wire(f) + rest == HeadWire(f.head) + body;
    HeadThenParse(f.head, body);
    assert body[..4] == f.mask && body[4..4 + |covered|] == covered && body[4 + |covered|..] == rest;
    MaskTwice(f.payload, f.mask);
  }

  /** What the reader takes for a frame is the wire form of a valid frame. */
  lemma {:induction false} ParseThenWire(s: seq<byte>)
    requires ParseFrame(s).Some?
    ensures var (f, rest) := ParseFrame(s).value;
            ValidFrame(f) && s == Wire(f) + rest
  {
    hide HeadWire, ParseHead, ApplyMask;
    var (f, rest) := ParseFrame(s).value;
    ParseThenHead(s);
    var body := ParseHead(s).value.1;
    MaskTwice(body[4..4 + f.head.length], f.mask);
    assert body == f.mask + ApplyMask(f.payload, f.mask) + rest;
    Associative(HeadWire(f.head), f.mask + ApplyMask(f.payload, f.mask), rest);
  }

  // Writers

  /** The shortest form of a length. */
  function FormOf(length: nat): Form {
    if length <= 125 then Short else if length <= 0xFFFF then Medium else Long
  }

  /** No other form that can carry the length is as short (section 5.2). */
  lemma ShortestForm(length: nat, form: Form)
    requires Fits(form, length)
    ensures Fits(FormOf(length), length)
    ensures form != FormOf(length) ==> |Extension(FormOf(length), length)| < |Extension(form, length)|
  {}

  /** What is sent is final, and says whether it is masked. It has a head of two bytes exactly up to 125 bytes of payload, as section 5.5 asks of control frames. */
  lemma HeadOfTwo(opcode: nat, masked: bool, length: nat)
    requires opcode < 16 && length < TWO_TO_64
    ensures |HeadWire(FinalHead(opcode, masked, length))| == 2 <==> length <= 125
    ensures length <= 125 ==> HeadWire(FinalHead(opcode, masked, length))[1] % 128 == length
    ensures HeadWire(FinalHead(opcode, masked, length))[0] == 0x80 + opcode
    ensures HeadWire(FinalHead(opcode, masked, length))[1] >= 0x80 <==> masked
  {}

  function FinalHead(opcode: nat, masked: bool, length: nat): (h: Head)
    requires opcode < 16 && length < TWO_TO_64
    ensures ValidHead(h)
  {
    Head(true, 0, opcode, masked, FormOf(length), length)
  }

  /** The one-frame message `ws_sendframe` puts on the wire: final and unmasked. */
  function Sent(opcode: nat, payload: seq<byte>): seq<byte>
    requires opcode < 16 && |payload| < TWO_TO_64
  {
    HeadWire(FinalHead(opcode, false, |payload|)) + payload
  }

  /** The examples of section 5.7 of RFC 6455 as the server sends them: "Hello" as text, as a PONG, and longer heads. */
  lemma {:induction false} HelloOnWire()
    ensures Sent(TXT, [0x48, 0x65, 0x6C, 0x6C, 0x6F]) == [0x81, 0x05, 0x48, 0x65, 0x6C, 0x6C, 0x6F]
    ensures Sent(PONG, [0x48, 0x65, 0x6C, 0x6C, 0x6F]) == [0x8A, 0x05, 0x48, 0x65, 0x6C, 0x6C, 0x6F]
  {
    assert HeadWire(FinalHead(TXT, false, 5)) == [0x81, 0x05] && HeadWire(FinalHead(PONG, false, 5)) == [0x8A, 0x05];
  }

  /** And a binary message of 256 bytes and of 64 KiB. */
  lemma {:induction false} LongOnWire(payload: seq<byte>)
    ensures |payload| == 256 ==> Sent(BIN, payload) == [0x82, 0x7E, 0x01, 0x00] + payload
    ensures |payload| == 0x1_0000 ==> Sent(BIN, payload) == [0x82, 0x7F, 0, 0, 0, 0, 0, 1, 0, 0] + payload
  {
    if |payload| == 0x1_0000 {
      assert Be64(0x1_0000) == [0, 0, 0, 0, 0, 1, 0, 0];
    }
  }

  method EightBytes(length: u64) returns (b: seq<byte>)
    ensures b == Be64(length)
  {
    var b7 := length / 0x100_0000_0000_0000;
    var b6 := length / 0x1_0000_0000_0000 % 0x100;
    var b5 := length / 0x100_0000_0000 % 0x100;
    var b4 := length / 0x1_0000_0000 % 0x100;
    var b3 := length / 0x100_0000 % 0x100;
    var b2 := length / 0x1_0000 % 0x100;
    var b1 := length / 0x100 % 0x100;
    var b0 := length % 0x100;
    var hi, lo := length / 0x1_0000_0000, length % 0x1_0000_0000;
    HighDigits(length, hi);
    LowDigits(length, lo);
    b := [b7, b6, b5, b4, b3, b2, b1, b0];
    assert b == Be32(hi) + Be32(lo);
  }

  lemma HighDigits(length: u64, hi: u32)
    requires hi == length / 0x1_0000_0000
    ensures length / 0x100_0000_0000_0000 == hi / 0x100_0000
    ensures length / 0x1_0000_0000_0000 % 0x100 == hi / 0x1_0000 % 0x100
    ensures length / 0x100_0000_0000 % 0x100 == hi / 0x100 % 0x100
    ensures length / 0x1_0000_0000 % 0x100 == hi % 0x100
  {}

  lemma {:induction false} LowDigits(length: u64, lo: u32)
    requires lo == length % 0x1_0000_0000
    ensures length / 0x100_0000 % 0x100 == lo / 0x100_0000
    ensures length / 0x1_0000 % 0x100 == lo / 0x1_0000 % 0x100
    ensures length / 0x100 % 0x100 == lo / 0x100 % 0x100
    ensures length % 0x100 == lo % 0x100
  {
    var hi := length / 0x1_0000_0000;
    LowDigit3(hi, lo);
    LowDigit2(hi, lo);
    LowDigit1(hi, lo);
  }

  lemma {:induction false} LowDigit3(hi: nat, lo: u32)
    ensures (0x1_0000_0000 * hi + lo) / 0x100_0000 % 0x100 == lo / 0x100_0000
  {
    var q, r := lo / 0x100_0000, lo % 0x100_0000;
    QuotientOf24(0x100 * hi + q, r);
    DropMultiple(hi, q);
  }

  lemma {:induction false} LowDigit2(hi: nat, lo: u32)
    ensures (0x1_0000_0000 * hi + lo) / 0x1_0000 % 0x100 == lo / 0x1_0000 % 0x100
  {
    var q, r := lo / 0x1_0000, lo % 0x1_0000;
    QuotientOf16(0x1_0000 * hi + q, r);
    DropMultiple(0x100 * hi, q);
  }

  lemma {:induction false} LowDigit1(hi: nat, lo: u32)
    ensures (0x1_0000_0000 * hi + lo) / 0x100 % 0x100 == lo / 0x100 % 0x100
  {
    var q, r := lo / 0x100, lo % 0x100;
    QuotientOf8(0x100_0000 * hi + q, r);
    DropMultiple(0x1_0000 * hi, q);
  }

  lemma DropMultiple(k: nat, q: nat)
    ensures (0x100 * k + q) % 0x100 == q % 0x100
  {}

  lemma QuotientOf24(q: nat, r: nat)
    requires r < 0x100_0000
    ensures (0x100_0000 * q + r) / 0x100_0000 == q
  {}

  lemma QuotientOf16(q: nat, r: nat)
    requires r < 0x1_0000
    ensures (0x1_0000 * q + r) / 0x1_0000 == q
  {}

  lemma QuotientOf8(q: nat, r: nat)
    requires r < 0x100
    ensures (0x100 * q + r) / 0x100 == q
  {}

  /** ws_sendframe, up to the socket. */
  method SendFrame(opcode: nat, msg: seq<byte>) returns (response: seq<byte>)
    requires opcode < 16 && |msg| < TWO_TO_64
    ensures response == Sent(opcode, msg)
  {
    var length := |msg|;
    var frame: seq<byte> := [128 + opcode];
    if length <= 125 {
      frame := frame + [length];
    } else if length <= 65535 {
      frame := frame + [126, length / 0x100, length % 0x100];
    } else {
      var eight := EightBytes(length);
      frame := frame + [127] + eight;
    }
    assert frame == HeadWire(FinalHead(opcode, false, length));
    response := frame + msg;
  }

  /** The head ws_send_masked_frame writes. */
  method MaskedHead(opcode: nat, length: nat) returns (header: seq<byte>)
    requires opcode < 16 && length < TWO_TO_64
    ensures header == HeadWire(FinalHead(opcode, true, length))
  {
    header := [128 + opcode];
    if length <= 125 {
      header := header + [128 + length];
    } else if length <= 0xFFFF {
      header := header + [128 + 126, length / 0x100, length % 0x100];
    } else {
      var eight := EightBytes(length);
      header := header + [128 + 127] + eight;
    }
  }

  /** Its masking loop. */
  method CoverBody(payload: seq<byte>, mask: seq<byte>) returns (covered: seq<byte>)
    requires |mask| == 4
    ensures covered == ApplyMask(payload, mask)
  {
    hide Xor;
    covered := [];
    var i := 0;
    while i < |payload|
      invariant 0 <= i <= |payload|
      invariant |covered| == i && forall k | 0 <= k < i :: covered[k] == Xor(payload[k], mask[k % 4])
    {
      covered := covered + [Xor(payload[i], mask[i % 4])];
      i := i + 1;
    }
  }

  /** ws_send_masked_frame, for the mask the random source gave. */
  method SendMaskedFrame(opcode: nat, payload: seq<byte>, mask: seq<byte>) returns (wire: seq<byte>)
    requires opcode < 16 && |payload| < TWO_TO_64 && |mask| == 4
    ensures wire == Wire(Frame(FinalHead(opcode, true, |payload|), mask, payload))
    ensures |wire| > |payload|
    ensures forall i | 0 <= i < |payload| :: Differing(wire[|wire| - |payload| + i], payload[i], mask[i % 4])
  {
    hide ApplyMask, HeadWire, Differing;
    var header := MaskedHead(opcode, |payload|);
    var covered := CoverBody(payload, mask);
    MaskFlips(payload, mask);
    wire := header + mask + covered;
    Associative(header, mask, covered);
    assert forall k | 0 <= k < |payload| :: wire[|wire| - |payload| + k] == covered[k];
  }
}
