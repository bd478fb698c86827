/**
  Base64 with the alphabet of RFC 4648, section 4, a line feed after every 72 characters and at the end
  of a last short line (wsh264/src/base64.c).
 */
module Base64 {
  import opened Bytes

  type sextet = x: int | 0 <= x < 64

  const PAD: byte := 0x3D        // '='
  const LINE_FEED: byte := 0x0A
  const LINE: nat := 72
  const SKIP: byte := 0x80       // what the decoding table holds for bytes outside the alphabet

  /** `base64_table[i]` */
  function Letter(i: sextet): byte {
    if i < 26 then 0x41 + i as int        // 'A'..'Z'
    else if i < 52 then 0x61 + (i as int - 26) // 'a'..'z'
    else if i < 62 then 0x30 + (i as int - 52) // '0'..'9'
    else if i == 62 then 0x2B             // '+'
    else 0x2F                             // '/'
  }

  /** `dtable[c]` */
  function Value(c: byte): byte {
    if 0x41 <= c <= 0x5A then c as int - 0x41
    else if 0x61 <= c <= 0x7A then c as int - 0x61 + 26
    else if 0x30 <= c <= 0x39 then c as int - 0x30 + 52
    else if c == 0x2B then 62
    else if c == 0x2F then 63
    else if c == PAD then 0
    else SKIP
  }

  lemma ValueOfLetter(i: sextet)
    ensures Value(Letter(i)) == i && Letter(i) != PAD
  {}

  // Encoding

  function Sextets(b0: byte, b1: byte, b2: byte): (v: seq<sextet>)
    ensures |v| == 4
  {
    [b0 as int / 4, b0 as int % 4 * 16 + b1 as int / 16, b1 as int % 16 * 4 + b2 as int / 64, b2 as int % 64]
  }

  /** The four characters for one to three bytes. */
  function Quad(g: seq<byte>): (q: seq<byte>)
    requires 1 <= |g| <= 3
    ensures |q| == 4
  {
    var v := Sextets(g[0], if |g| > 1 then g[1] else 0, if |g| > 2 then g[2] else 0);
    [Letter(v[0]), Letter(v[1]), if |g| > 1 then Letter(v[2]) else PAD, if |g| > 2 then Letter(v[3]) else PAD]
  }

  /** The text for `src` when `lineLen` characters stand on the current line. */
  function Text(src: seq<byte>, lineLen: nat): seq<byte> {
    if |src| >= 3 then
      if lineLen + 4 >= LINE then Quad(src[..3]) + [LINE_FEED] + Text(src[3..], 0)
      else Quad(src[..3]) + Text(src[3..], lineLen + 4)
    else if |src| > 0 then Quad(src) + [LINE_FEED]
    else if lineLen > 0 then [LINE_FEED]
    else []
  }

  function Quads(n: nat): nat {
    (n + 2) / 3
  }

  lemma LineFeeds(lineLen: nat, quads: nat)
    requires lineLen < LINE && lineLen % 4 == 0
    ensures (lineLen + 4 * (1 + quads) + LINE - 1) / LINE
         == if lineLen + 4 >= LINE then 1 + (4 * quads + LINE - 1) / LINE else (lineLen + 4 + 4 * quads + LINE - 1) / LINE
  {}

  lemma {:induction false} TextLength(src: seq<byte>, lineLen: nat)
    requires lineLen < LINE && lineLen % 4 == 0
    ensures |Text(src, lineLen)| == 4 * Quads(|src|) + (lineLen + 4 * Quads(|src|) + LINE - 1) / LINE
    decreases |src|
  {
    hide Quad;
    if |src| >= 3 {
      var next := if lineLen + 4 >= LINE then 0 else lineLen + 4;
      TextLength(src[3..], next);
      assert Quads(|src|) == 1 + Quads(|src| - 3);
      LineFeeds(lineLen, Quads(|src| - 3));
    }
  }

  /** The buffer size the encoder computes, in 64-bit arithmetic. */
  function BufferSize(len: nat): nat {
    WithFeeds(len * 4 % TWO_TO_64 / 3 + 4)
  }

  /** Room for line feeds and the terminator. */
  function WithFeeds(olen: nat): nat {
    olen + olen / 72 + 1
  }

  lemma {:induction false} BufferFits(len: nat)
    requires len * 4 < TWO_TO_64
    ensures len <= BufferSize(len)
    ensures 4 * Quads(len) + (4 * Quads(len) + LINE - 1) / LINE + 1 <= BufferSize(len) < TWO_TO_64
  {
    hide Quads, BufferSize;
    var olen := len * 4 / 3 + 4;
    SizeIs(len);
    SizeBounds(len, olen);
    RoomForQuads(len);
    RoomForFeeds(4 * Quads(len), olen);
  }

  lemma {:induction false} SizeIs(len: nat)
    requires len * 4 < TWO_TO_64
    ensures BufferSize(len) == len * 4 / 3 + 4 + (len * 4 / 3 + 4) / 72 + 1
  {
    SmallModulo(len * 4);
    assert BufferSize(len) == WithFeeds(len * 4 % TWO_TO_64 / 3 + 4);
  }

  lemma {:induction false} SmallModulo(x: nat)
    requires x < TWO_TO_64
    ensures x % TWO_TO_64 == x
  {}

  lemma {:induction false} SizeBounds(len: nat, olen: nat)
    requires len * 4 < TWO_TO_64 && olen == len * 4 / 3 + 4
    ensures len <= olen && olen + olen / 72 + 1 < TWO_TO_64
  {}

  lemma {:induction false} RoomForQuads(len: nat)
    ensures 4 * Quads(len) + 1 <= len * 4 / 3 + 4
  {
    var m, r := len / 3, len % 3;
    assert len == 3 * m + r;
    assert len * 4 / 3 == 4 * m + 4 * r / 3;
  }

  lemma RoomForFeeds(chars: nat, olen: nat)
    requires chars + 1 <= olen
    ensures (chars + LINE - 1) / LINE <= olen / 72 + 1
  {}

  /** The comparison with the input length catches every input whose size computation wraps. */
  lemma {:induction false} WrapIsCaught(len: nat)
    requires len < TWO_TO_64
    ensures BufferSize(len) < len <==> len * 4 >= TWO_TO_64
  {
    if len * 4 < TWO_TO_64 {
      BufferFits(len);
    } else {
      var k := len * 4 / TWO_TO_64;
      var low := len * 4 % TWO_TO_64;
      assert len * 4 == k * TWO_TO_64 + low && 1 <= k <= 3;
      assert k == 1 || k == 2 || k == 3;
    }
  }

  /** Everything is written inside the buffer, the terminator included; `None` is the NULL result. */
  method Encode(src: seq<byte>) returns (r: Option<seq<byte>>, olen: nat)
    requires |src| < TWO_TO_64
    ensures r.None? <==> |src| * 4 >= TWO_TO_64
    ensures r.Some? ==> r.value == Text(src, 0) && |r.value| + 1 <= olen == BufferSize(|src|)
  {
    olen := |src| * 4 % TWO_TO_64 / 3 + 4;
    olen := olen + olen / 72;
    olen := olen + 1;
    WrapIsCaught(|src|);
    if olen < |src| {
      return None, olen;
    }
    BufferFits(|src|);
    TextLength(src, 0);
    var out := new byte[olen](_ => 0);
    var pos := EncodeInto(src, out);
    return Some(out[..pos]), olen;
  }

  method EncodeInto(src: seq<byte>, out: array<byte>) returns (pos: nat)
    requires |Text(src, 0)| + 1 <= out.Length
    modifies out
    ensures pos == |Text(src, 0)| && out[..pos] == Text(src, 0) && out[pos] == 0
  {
    hide Quad, Text;
    var i, lineLen := 0, 0;
    pos := 0;
    ghost var sofar: seq<byte> := [];
    assert src[0..] == src && [] + Text(src, 0) == Text(src, 0);
    while |src| - i >= 3
      invariant 0 <= i <= |src| && 0 <= lineLen < LINE && pos == |sofar|
      invariant pos + |Text(src[i..], lineLen)| + 1 <= out.Length
      invariant out[..pos] == sofar && sofar + Text(src[i..], lineLen) == Text(src, 0)
    {
      TextStep(src, i, lineLen);
      ghost var quad, feed := Quad(src[i..i + 3]), if lineLen + 4 >= LINE then [LINE_FEED] else [];
      PutNext(out, pos, Quad(src[i..i + 3]), sofar, out.Length);
      pos := pos + 4;
      i := i + 3;
      lineLen := lineLen + 4;
      if lineLen >= LINE {
        PutNext(out, pos, [LINE_FEED], sofar + quad, out.Length);
        pos := pos + 1;
        lineLen := 0;
      }
      assert out[..pos] == sofar + quad + feed;
      Regroup(sofar, quad, feed, Text(src[i..], lineLen));
      sofar := sofar + quad + feed;
    }
    pos := EncodeRest(src[i..], lineLen, out, pos, sofar);
  }

  /** What is left after the groups of three, the last line feed and the terminator. */
  method EncodeRest(rest: seq<byte>, lineLen: nat, out: array<byte>, at: nat, ghost sofar: seq<byte>) returns (pos: nat)
    requires |rest| < 3 && at == |sofar| && at + |Text(rest, lineLen)| + 1 <= out.Length && out[..at] == sofar
    modifies out
    ensures pos == at + |Text(rest, lineLen)| && out[..pos] == sofar + Text(rest, lineLen) && out[pos] == 0
  {
    hide Quad, Text;
    TextEnd(rest, lineLen);
    pos := at;
    ghost var quad: seq<byte> := if rest == [] then [] else Quad(rest);
    if |rest| > 0 {
      PutNext(out, pos, Quad(rest), sofar, out.Length);
      pos := pos + 4;
    }
    assert out[..pos] == sofar + quad;
    ghost var feed: seq<byte> := [];
    if |rest| > 0 || lineLen > 0 {
      feed := [LINE_FEED];
      PutNext(out, pos, [LINE_FEED], sofar + quad, out.Length);
      pos := pos + 1;
    }
    assert out[..pos] == sofar + quad + feed;
    Associative(sofar, quad, feed);
    ghost var all := out[..pos];
    out[pos] := 0;
    assert out[..pos] == all;
  }

  lemma {:induction false} TextStep(src: seq<byte>, i: nat, lineLen: nat)
    requires i + 3 <= |src|
    ensures Text(src[i..], lineLen)
         == Quad(src[i..i + 3]) + ((if lineLen + 4 >= LINE then [LINE_FEED] else [])
                                   + Text(src[i + 3..], if lineLen + 4 >= LINE then 0 else lineLen + 4))
  {
    hide Quad;
    var rest := src[i..];
    assert rest[..3] == src[i..i + 3] && rest[3..] == src[i + 3..];
    var later := Text(src[i + 3..], if lineLen + 4 >= LINE then 0 else lineLen + 4);
    Associative(Quad(rest[..3]), [LINE_FEED], later);
    assert [] + later == later;
  }

  lemma {:induction false} TextEnd(rest: seq<byte>, lineLen: nat)
    requires |rest| < 3
    ensures Text(rest, lineLen)
         == (if rest == [] then [] else Quad(rest)) + (if rest != [] || lineLen > 0 then [LINE_FEED] else [])
  {
    hide Quad;
    assert rest == [] ==> [] + [LINE_FEED] == [LINE_FEED];
  }

  lemma Regroup(a: seq<byte>, b: seq<byte>, c: seq<byte>, d: seq<byte>)
    ensures a + (b + (c + d)) == a + b + c + d
  {}

  // Decoding

  /** The bytes the decoder does not skip. */
  function Significant(text: seq<byte>): seq<byte> {
    if text == [] then []
    else (if Value(text[0]) == SKIP then [] else [text[0]]) + Significant(text[1..])
  }

  function Pads(q: seq<byte>): nat
    requires |q| == 4
  {
    (if q[0] == PAD then 1 else 0) + (if q[1] == PAD then 1 else 0)
    + (if q[2] == PAD then 1 else 0) + (if q[3] == PAD then 1 else 0)
  }

  /** Three bytes out of four values, each truncated to a byte as the stores do. */
  function Triple(v0: byte, v1: byte, v2: byte, v3: byte): (t: seq<byte>)
    ensures |t| == 3
  {
    [(v0 as int * 4 + v1 as int / 16) % 256, (v1 as int * 16 + v2 as int / 4) % 256, (v2 as int * 64 + v3 as int) % 256]
  }

  /** Groups of four, up to and including the first that holds padding; three or more pads in it are an error. */
  function Groups(chars: seq<byte>): Option<seq<byte>> {
    if |chars| < 4 then Some([])
    else
      var t := Triple(Value(chars[0]), Value(chars[1]), Value(chars[2]), Value(chars[3]));
      var pads := Pads(chars[..4]);
      if pads == 0 then
        var rest := Groups(chars[4..]);
        if rest.None? then None else Some(t + rest.value)
      else if pads == 1 then Some(t[..2])
      else if pads == 2 then Some(t[..1])
      else None
  }

  function Decoded(text: seq<byte>): Option<seq<byte>> {
    var chars := Significant(text);
    if |chars| == 0 || |chars| % 4 != 0 then None else Groups(chars)
  }

  function Prepend(a: seq<byte>, r: Option<seq<byte>>): Option<seq<byte>> {
    if r.None? then None else Some(a + r.value)
  }

  /** A complete group of four followed by more. */
  lemma {:induction false} GroupThenRest(done: seq<byte>, held: seq<byte>, rest: seq<byte>)
    requires |held| == 4
    ensures var t := Triple(Value(held[0]), Value(held[1]), Value(held[2]), Value(held[3]));
            Prepend(done, Groups(held + rest)) ==
            if Pads(held) == 0 then Prepend(done + t, Groups(rest))
            else if Pads(held) == 1 then Some(done + t[..2])
            else if Pads(held) == 2 then Some(done + t[..1])
            else None
  {
    hide Triple, Value, Pads;
    var t := Triple(Value(held[0]), Value(held[1]), Value(held[2]), Value(held[3]));
    assert (held + rest)[..4] == held && (held + rest)[4..] == rest;
    if Groups(rest).Some? {
      Associative(done, t, Groups(rest).value);
    }
  }

  method CountSignificant(text: seq<byte>) returns (count: nat)
    ensures count == |Significant(text)|
  {
    count := 0;
    var i := 0;
    assert text[0..] == text;
    while i < |text|
      invariant 0 <= i <= |text|
      invariant count + |Significant(text[i..])| == |Significant(text)|
    {
      assert text[i..][1..] == text[i + 1..];
      if Value(text[i]) != SKIP {
        count := count + 1;
      }
      i := i + 1;
    }
  }

  /** Stores the bytes of one full block; reports how many it keeps, or that the padding is invalid. */
  method StoreBlock(block: seq<byte>, pad: nat, out: array<byte>, pos: nat) returns (ok: bool, pos': nat)
    requires |block| == 4 && pos + 3 <= out.Length
    modifies out
    ensures ok <==> pad <= 2
    ensures ok ==> pos' == pos + 3 - pad
    ensures ok ==> out[..pos'] == old(out[..pos]) + Triple(block[0], block[1], block[2], block[3])[..3 - pad]
  {
    ghost var before := out[..pos];
    out[pos] := (block[0] as int * 4 + block[1] as int / 16) % 256;
    out[pos + 1] := (block[1] as int * 16 + block[2] as int / 4) % 256;
    out[pos + 2] := (block[2] as int * 64 + block[3] as int) % 256;
    pos' := pos + 3;
    assert out[..pos'] == before + Triple(block[0], block[1], block[2], block[3]);
    if pad > 0 {
      if pad == 1 {
        pos' := pos' - 1;
      } else if pad == 2 {
        pos' := pos' - 2;
      } else {
        return false, pos';
      }
    }
    assert out[..pos'] == before + Triple(block[0], block[1], block[2], block[3])[..3 - pad];
    return true, pos';
  }

  function CountPads(held: seq<byte>): nat {
    if held == [] then 0 else CountPads(held[..|held| - 1]) + if held[|held| - 1] == PAD then 1 else 0
  }

  lemma {:induction false} CountPadsSnoc(held: seq<byte>, c: byte)
    ensures CountPads(held + [c]) == CountPads(held) + if c == PAD then 1 else 0
  {
    assert (held + [c])[..|held|] == held;
  }

  lemma {:induction false} CountPadsOfFour(held: seq<byte>)
    requires |held| == 4
    ensures CountPads(held) == Pads(held)
  {
    assert held == [] + [held[0]] + [held[1]] + [held[2]] + [held[3]];
    CountPadsSnoc([], held[0]);
    CountPadsSnoc([] + [held[0]], held[1]);
    CountPadsSnoc([] + [held[0]] + [held[1]], held[2]);
    CountPadsSnoc([] + [held[0]] + [held[1]] + [held[2]], held[3]);
  }

  function Values(chars: seq<byte>): (v: seq<byte>)
    ensures |v| == |chars|
  {
    seq<byte>(|chars|, i requires 0 <= i < |chars| => Value(chars[i]))
  }

  /** Ends a group: decoding goes on, or it is over with the bytes so far, or it fails. */
  method FinishGroup(block: seq<byte>, pad: nat, out: array<byte>, pos: nat,
                     ghost held: seq<byte>, ghost rest: seq<byte>, ghost all: Option<seq<byte>>)
    returns (ok: bool, pos': nat)
    requires |held| == 4 && block == Values(held) && pad == CountPads(held) && pos + 3 <= out.Length
    requires Prepend(out[..pos], Groups(held + rest)) == all
    modifies out
    ensures !ok ==> all == None
    ensures ok ==> pos' <= pos + 3
    ensures ok && pad > 0 ==> all == Some(out[..pos'])
    ensures ok && pad == 0 ==> Prepend(out[..pos'], Groups(rest)) == all
  {
    hide Groups, Value, Triple, Pads, CountPads;
    GroupThenRest(out[..pos], held, rest);
    CountPadsOfFour(held);
    ghost var t := Triple(block[0], block[1], block[2], block[3]);
    assert t[..3] == t;
    ok, pos' := StoreBlock(block, pad, out, pos);
  }

  method Decode(text: seq<byte>) returns (r: Option<seq<byte>>)
    ensures r == Decoded(text)
  {
    hide Groups, Value, Triple, Pads, CountPads;
    var count := CountSignificant(text);
    if count == 0 || count % 4 != 0 {
      return None;
    }
    var out := new byte[count / 4 * 3](_ => 0);
    var pos, pad, i := 0, 0, 0;
    var block: seq<byte> := [];
    ghost var held: seq<byte> := [];
    ghost var all := Groups(Significant(text));
    assert text[0..] == text && out[..0] == [] && held + Significant(text) == Significant(text);
    NoPads();
    PrependNothing(all);
    while i < |text|
      invariant 0 <= i <= |text| && |held| < 4 && 0 <= pos
      invariant block == Values(held) && pad == CountPads(held)
      invariant (|held| + |Significant(text[i..])|) % 4 == 0
      invariant pos + (|held| + |Significant(text[i..])|) / 4 * 3 <= out.Length
      invariant Prepend(out[..pos], Groups(held + Significant(text[i..]))) == all
    {
      var c := text[i];
      ghost var rest := Significant(text[i + 1..]);
      assert text[i..][1..] == text[i + 1..];
      i := i + 1;
      var tmp := Value(c);
      if tmp == SKIP {
        assert Significant(text[i - 1..]) == rest;
        continue;
      }
      assert Significant(text[i - 1..]) == [c] + rest;
      Associative(held, [c], rest);
      CountPadsSnoc(held, c);
      if c == PAD {
        pad := pad + 1;
      }
      block := block + [tmp];
      held := held + [c];
      assert block == Values(held);
      if |block| == 4 {
        var ok;
        ok, pos := FinishGroup(block, pad, out, pos, held, rest, all);
        if !ok {
          return None;
        }
        if pad > 0 {
          return Some(out[..pos]);
        }
        block, held := [], [];
        assert held + rest == rest;
        NoPads();
      }
    }
    NoGroups();
    assert text[i..] == [] && held == [];
    assert [] + Significant(text[i..]) == [] && out[..pos] + [] == out[..pos];
    return Some(out[..pos]);
  }

  lemma {:induction false} PrependNothing(r: Option<seq<byte>>)
    ensures Prepend([], r) == r
  {
    if r.Some? {
      assert [] + r.value == r.value;
    }
  }

  lemma NoPads()
    ensures CountPads([]) == 0
  {}

  // Decoding undoes encoding

  lemma {:induction false} SignificantAppend(xs: seq<byte>, ys: seq<byte>)
    ensures Significant(xs + ys) == Significant(xs) + Significant(ys)
    decreases |xs|
  {
    hide Value;
    if xs == [] {
      assert xs + ys == ys;
    } else {
      assert (xs + ys)[0] == xs[0] && (xs + ys)[1..] == xs[1..] + ys;
      SignificantAppend(xs[1..], ys);
      var first: seq<byte> := if Value(xs[0]) == SKIP then [] else [xs[0]];
      assert Significant(xs) == first + Significant(xs[1..]);
      Associative(first, Significant(xs[1..]), Significant(ys));
    }
  }

  lemma {:induction false} QuadIsSignificant(g: seq<byte>)
    requires 1 <= |g| <= 3
    ensures Significant(Quad(g)) == Quad(g)
    ensures Significant(Quad(g) + [LINE_FEED]) == Quad(g)
    ensures Pads(Quad(g)) == 3 - |g|
  {
    var q := Quad(g);
    var v := Sextets(g[0], if |g| > 1 then g[1] else 0, if |g| > 2 then g[2] else 0);
    ValueOfLetter(v[0]);
    ValueOfLetter(v[1]);
    ValueOfLetter(v[2]);
    ValueOfLetter(v[3]);
    AllSignificant(q);
    SignificantAppend(q, [LINE_FEED]);
  }

  lemma {:induction false} AllSignificant(q: seq<byte>)
    requires forall c | c in q :: Value(c) != SKIP
    ensures Significant(q) == q
    decreases |q|
  {
    if q != [] {
      AllSignificant(q[1..]);
    }
  }

  lemma {:induction false} TripleOfQuad(g: seq<byte>)
    requires 1 <= |g| <= 3
    ensures var q := Quad(g);
            Triple(Value(q[0]), Value(q[1]), Value(q[2]), Value(q[3]))[..|g|] == g
  {
    var b0, b1, b2: byte := g[0], if |g| > 1 then g[1] else 0, if |g| > 2 then g[2] else 0;
    var v := Sextets(b0, b1, b2);
    ValueOfLetter(v[0]);
    ValueOfLetter(v[1]);
    ValueOfLetter(v[2]);
    ValueOfLetter(v[3]);
    SextetsBack(b0, b1, b2);
  }

  lemma {:induction false} SextetsBack(b0: byte, b1: byte, b2: byte)
    ensures var v := Sextets(b0, b1, b2);
            Triple(v[0], v[1], v[2], v[3]) == [b0, b1, b2]
  {
    hide Triple, Sextets;
    FirstBack(b0, b1, b2);
    SecondBack(b0, b1, b2);
    ThirdBack(b0, b1, b2);
  }

  lemma {:induction false} FirstBack(b0: byte, b1: byte, b2: byte)
    ensures var v := Sextets(b0, b1, b2); Triple(v[0], v[1], v[2], v[3])[0] == b0
  {
    var v := Sextets(b0, b1, b2);
    var q, r, high := b0 as int / 4, b0 as int % 4, b1 as int / 16;
    assert v[0] == q && v[1] == r * 16 + high;
    hide Sextets;
    FirstOfTriple(v[0], v[1], v[2], v[3], q, r, high);
  }

  lemma {:induction false} SecondBack(b0: byte, b1: byte, b2: byte)
    ensures var v := Sextets(b0, b1, b2); Triple(v[0], v[1], v[2], v[3])[1] == b1
  {
    var v := Sextets(b0, b1, b2);
    var r, high, low, h := b0 as int % 4, b1 as int / 16, b1 as int % 16, b2 as int / 64;
    assert v[1] == r * 16 + high && v[2] == low * 4 + h;
    hide Sextets;
    SecondOfTriple(v[0], v[1], v[2], v[3], r, high, low, h);
  }

  lemma {:induction false} ThirdBack(b0: byte, b1: byte, b2: byte)
    ensures var v := Sextets(b0, b1, b2); Triple(v[0], v[1], v[2], v[3])[2] == b2
  {
    var v := Sextets(b0, b1, b2);
    var low, h, w := b1 as int % 16, b2 as int / 64, b2 as int % 64;
    assert v[2] == low * 4 + h && v[3] == w;
    hide Sextets;
    ThirdOfTriple(v[0], v[1], v[2], v[3], low, h, w);
  }

  lemma {:induction false} FirstOfTriple(v0: byte, v1: byte, v2: byte, v3: byte, q: nat, r: nat, high: nat)
    requires v0 == q < 64 && v1 == r * 16 + high && r < 4 && high < 16
    ensures Triple(v0, v1, v2, v3)[0] == 4 * q + r
  {
    FirstByte(q, r, high);
  }

  lemma {:induction false} SecondOfTriple(v0: byte, v1: byte, v2: byte, v3: byte, r: nat, high: nat, low: nat, h: nat)
    requires v1 == r * 16 + high && r < 4 && high < 16 && v2 == low * 4 + h && low < 16 && h < 4
    ensures Triple(v0, v1, v2, v3)[1] == 16 * high + low
  {
    SecondByte(r, high, low, h);
  }

  lemma {:induction false} ThirdOfTriple(v0: byte, v1: byte, v2: byte, v3: byte, low: nat, h: nat, w: nat)
    requires v2 == low * 4 + h && low < 16 && h < 4 && v3 == w < 64
    ensures Triple(v0, v1, v2, v3)[2] == 64 * h + w
  {
    ThirdByte(low, h, w);
  }

  lemma {:induction false} FirstByte(q: nat, r: nat, high: nat)
    requires q < 64 && r < 4 && high < 16
    ensures (q * 4 + (r * 16 + high) / 16) % 256 == 4 * q + r
  {
    assert (r * 16 + high) / 16 == r;
  }

  lemma {:induction false} SecondByte(r: nat, high: nat, low: nat, h: nat)
    requires r < 4 && high < 16 && low < 16 && h < 4
    ensures ((r * 16 + high) * 16 + (low * 4 + h) / 4) % 256 == 16 * high + low
  {
    assert (low * 4 + h) / 4 == low;
    assert (r * 16 + high) * 16 + low == 256 * r + (16 * high + low);
  }

  lemma {:induction false} ThirdByte(low: nat, h: nat, w: nat)
    requires low < 16 && h < 4 && w < 64
    ensures ((low * 4 + h) * 64 + w) % 256 == 64 * h + w
  {
    assert (low * 4 + h) * 64 + w == 256 * low + (64 * h + w);
  }

  /** The characters of the text, line feeds aside. */
  function Chars(src: seq<byte>): seq<byte> {
    if |src| >= 3 then Quad(src[..3]) + Chars(src[3..])
    else if |src| > 0 then Quad(src)
    else []
  }

  lemma {:induction false} SignificantText(src: seq<byte>, lineLen: nat)
    ensures Significant(Text(src, lineLen)) == Chars(src)
    decreases |src|
  {
    hide Quad;
    if |src| >= 3 {
      var q := Quad(src[..3]);
      QuadIsSignificant(src[..3]);
      if lineLen + 4 >= LINE {
        SignificantText(src[3..], 0);
        SignificantAppend(q + [LINE_FEED], Text(src[3..], 0));
      } else {
        SignificantText(src[3..], lineLen + 4);
        SignificantAppend(q, Text(src[3..], lineLen + 4));
      }
    } else if |src| > 0 {
      QuadIsSignificant(src);
    } else if lineLen > 0 {
      assert Significant([LINE_FEED]) == Significant([]);
    }
  }

  lemma {:induction false} GroupsOfChars(src: seq<byte>)
    ensures Groups(Chars(src)) == Some(src)
    ensures |Chars(src)| == 4 * Quads(|src|)
    decreases |src|
  {
    hide Quad, Triple, Groups, Value, Pads;
    if |src| >= 3 {
      var g, rest := src[..3], Chars(src[3..]);
      var chars := Chars(src);
      assert chars[..4] == Quad(g) && chars[4..] == rest;
      QuadIsSignificant(g);
      TripleOfQuad(g);
      GroupsOfChars(src[3..]);
      FirstGroup(chars, g, src[3..]);
      SplitAt(src, 3);
    } else if |src| > 0 {
      LastGroup(src);
    } else {
      NoGroups();
    }
  }

  lemma NoGroups()
    ensures Groups([]) == Some([])
  {}

  lemma {:induction false} FirstGroup(chars: seq<byte>, g: seq<byte>, rest: seq<byte>)
    requires |g| == 3 && |chars| >= 4 && Pads(chars[..4]) == 0
    requires Triple(Value(chars[0]), Value(chars[1]), Value(chars[2]), Value(chars[3]))[..3] == g
    requires Groups(chars[4..]) == Some(rest)
    ensures Groups(chars) == Some(g + rest)
  {
    hide Triple, Value, Pads;
    var t := Triple(Value(chars[0]), Value(chars[1]), Value(chars[2]), Value(chars[3]));
    assert t[..3] == t;
  }

  lemma {:induction false} LastGroup(g: seq<byte>)
    requires 1 <= |g| <= 2
    ensures Groups(Quad(g)) == Some(g)
  {
    hide Triple, Value, Quad;
    QuadIsSignificant(g);
    TripleOfQuad(g);
    assert Quad(g)[..4] == Quad(g);
  }

  // Against RFC 4648

  /**
    The alphabet of Table 1 of RFC 4648: three runs of consecutive characters, then '+' and '/'; and what the
    decoder makes of every byte.
   */
  lemma AlphabetIs(i: sextet, c: byte)
    ensures Letter(0) == 'A' as int && Letter(26) == 'a' as int && Letter(52) == '0' as int
    ensures Letter(62) == '+' as int && Letter(63) == '/' as int
    ensures i + 1 < 62 && i != 25 && i != 51 ==> Letter(i + 1) == Letter(i) + 1
    ensures Value(c) == i <==> c == Letter(i) || (i == 0 && c == PAD)
    ensures Value(c) < 64 || Value(c) == SKIP
  {}

  /** The four sextets are the 24 bits of three bytes, first byte first; a missing byte is shown by padding. */
  lemma {:induction false} QuadSpells(g: seq<byte>)
    requires 1 <= |g| <= 3
    ensures var q := Quad(g);
            && ((Value(q[0]) as int * 64 + Value(q[1])) * 64 + Value(q[2])) * 64 + Value(q[3])
            == (g[0] as int * 256 + if |g| > 1 then g[1] else 0) * 256 + if |g| > 2 then g[2] else 0
    ensures forall i | 0 <= i < 4 :: Quad(g)[i] == PAD <==> i > |g|
  {
    var b1 := if |g| > 1 then g[1] else 0;
    var b2 := if |g| > 2 then g[2] else 0;
    var v := Sextets(g[0], b1, b2);
    SextetsAre(g[0], b1, b2);
    forall i | 0 <= i < 4 { ValueOfLetter(v[i]); }
  }

  lemma SextetsAre(b0: byte, b1: byte, b2: byte)
    ensures var v := Sextets(b0, b1, b2);
            ((v[0] as int * 64 + v[1]) * 64 + v[2]) * 64 + v[3] == (b0 as int * 256 + b1) * 256 + b2
  {}

  /** At k a group starts that holds too much padding, and none before it holds any. */
  predicate Overpadded(chars: seq<byte>, k: nat) {
    k + 4 <= |chars| && k % 4 == 0 && (forall i | 0 <= i < k :: chars[i] != PAD) && Pads(chars[k..k + 4]) > 2
  }

  /** What is refused: no significant character, or not whole groups, or a first padded group with three pads or four. */
  lemma {:induction false} RefusedExactly(text: seq<byte>)
    ensures var chars := Significant(text);
            Decoded(text) == None <==> chars == [] || |chars| % 4 != 0 || exists k :: Overpadded(chars, k)
  {
    GroupsRefused(Significant(text));
  }

  lemma {:induction false} GroupsRefused(chars: seq<byte>)
    ensures Groups(chars) == None <==> exists k :: Overpadded(chars, k)
    decreases |chars|
  {
    hide Triple, Value, Pads;
    if |chars| >= 4 {
      var rest := chars[4..];
      assert chars[0..4] == chars[..4];
      if Pads(chars[..4]) == 0 {
        GroupsRefused(rest);
        NoPad(chars);
        if k: nat :| Overpadded(rest, k) {
          assert rest[k..k + 4] == chars[k + 4..k + 8];
          assert forall i | 4 <= i < k + 4 :: chars[i] == rest[i - 4];
          assert Overpadded(chars, k + 4);
        }
        if k: nat :| Overpadded(chars, k) {
          assert rest[k - 4..k] == chars[k..k + 4];
          assert forall i | 0 <= i < k - 4 :: rest[i] == chars[i + 4];
          assert Overpadded(rest, k - 4);
        }
      } else if Pads(chars[..4]) > 2 {
        assert Overpadded(chars, 0);
      } else {
        assert !Overpadded(chars, 0);
        PadInFirst(chars);
      }
    }
  }

  lemma {:induction false} NoPad(chars: seq<byte>)
    requires |chars| >= 4 && Pads(chars[..4]) == 0
    ensures forall i | 0 <= i < 4 :: chars[i] != PAD
  {
    assert forall i | 0 <= i < 4 :: chars[..4][i] == chars[i];
  }

  lemma {:induction false} PadInFirst(chars: seq<byte>)
    requires |chars| >= 4 && Pads(chars[..4]) > 0
    ensures forall k: nat | Overpadded(chars, k) :: k == 0
  {
    assert forall i | 0 <= i < 4 :: chars[..4][i] == chars[i];
  }

  /** A line feed stands after every 72 characters and at the end, and nowhere else. */
  lemma {:induction false} FeedsAt(src: seq<byte>, lineLen: nat, k: nat)
    requires lineLen < LINE && lineLen % 4 == 0 && k < |Text(src, lineLen)|
    ensures Text(src, lineLen)[k] == LINE_FEED <==> (lineLen + k) % 73 == 72 || k == |Text(src, lineLen)| - 1
    decreases |src|
  {
    hide Quad;
    if |src| >= 3 {
      QuadHasNoFeed(src[..3]);
      var next := if lineLen + 4 >= LINE then 0 else lineLen + 4;
      var first := if lineLen + 4 >= LINE then 5 else 4;
      TextStep(src, 0, lineLen);
      assert src[0..] == src && src[0..3] == src[..3];
      var rest := Text(src[3..], next);
      assert |Text(src, lineLen)| == first + |rest|;
      if k >= first {
        assert Text(src, lineLen)[k] == rest[k - first];
        FeedsAt(src[3..], next, k - first);
        LineGoesOn(lineLen, k);
      } else {
        RestNotEmpty(src[3..], next);
      }
    } else {
      TextEnd(src, lineLen);
      if |src| > 0 {
        QuadHasNoFeed(src);
      }
    }
  }

  lemma LineGoesOn(lineLen: nat, k: nat)
    requires lineLen < LINE && lineLen % 4 == 0
    ensures lineLen + 4 >= LINE && k >= 5 ==> (lineLen + k) % 73 == (k - 5) % 73
  {}

  lemma {:induction false} RestNotEmpty(src: seq<byte>, lineLen: nat)
    ensures Text(src, lineLen) == [] <==> src == [] && lineLen == 0
  {
    hide Quad;
  }

  lemma {:induction false} QuadHasNoFeed(g: seq<byte>)
    requires 1 <= |g| <= 3
    ensures LINE_FEED !in Quad(g)
  {}

  /** For every non-empty input, decoding what was encoded gives the input back. */
  lemma {:induction false} DecodeEncode(src: seq<byte>)
    requires src != []
    ensures Decoded(Text(src, 0)) == Some(src)
  {
    hide Significant, Text, Groups, Chars;
    SignificantText(src, 0);
    GroupsOfChars(src);
  }

  /** The empty input is the one exception: its text is empty, and the decoder refuses that. */
  lemma {:induction false} DecodeEncodeExactly(src: seq<byte>)
    ensures Decoded(Text(src, 0)) == Some(src) <==> src != []
  {
    if src != [] {
      DecodeEncode(src);
    }
  }
}
