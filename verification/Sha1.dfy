/**
  SHA-1 fed piece by piece (wsh264/src/sha1.c) against its definition on whole messages: the padding of
  RFC 3174, section 4, and the computation of section 6.1.
 */
module Sha1 {
  import opened Bytes

  type Word = bv32

  const SUCCESS: int := 0
  const STATE_ERROR: int := 3
  const BLOCK: nat := 64
  const MAX_BYTES: nat := 0x2000_0000_0000_0000  // 2^61: the bit length no longer fits two words

  datatype Regs = Regs(a: Word, b: Word, c: Word, d: Word, e: Word)

  const INITIAL_HASH: Regs := Regs(0x67452301, 0xEFCDAB89, 0x98BADCFE, 0x10325476, 0xC3D2E1F0)

  // The definition

  function CircularShift(bits: Word, w: Word): Word
    requires bits <= 32
  {
    (w << bits) | (w >> (32 - bits))
  }

  function Ch(b: Word, c: Word, d: Word): Word {
    (b & c) | ((!b) & d)
  }

  function Parity(b: Word, c: Word, d: Word): Word {
    b ^ c ^ d
  }

  function Maj(b: Word, c: Word, d: Word): Word {
    (b & c) | (b & d) | (c & d)
  }

  function F(t: nat, b: Word, c: Word, d: Word): Word {
    if t < 20 then Ch(b, c, d)
    else if t < 40 then Parity(b, c, d)
    else if t < 60 then Maj(b, c, d)
    else Parity(b, c, d)
  }

  function K(t: nat): Word {
    if t < 20 then 0x5A827999
    else if t < 40 then 0x6ED9EBA1
    else if t < 60 then 0x8F1BBCDC
    else 0xCA62C1D6
  }

  function BlockWord(block: seq<byte>, t: nat): Word
    requires |block| == BLOCK && t < 16
  {
    ((block[t * 4] as bv32) << 24) | ((block[t * 4 + 1] as bv32) << 16)
    | ((block[t * 4 + 2] as bv32) << 8) | (block[t * 4 + 3] as bv32)
  }

  function Mix(a: Word, b: Word, c: Word, d: Word): Word {
    CircularShift(1, a ^ b ^ c ^ d)
  }

  /** W(t) */
  function Schedule(block: seq<byte>, t: nat): Word
    requires |block| == BLOCK
  {
    if t < 16 then BlockWord(block, t)
    else Mix(Schedule(block, t - 3), Schedule(block, t - 8), Schedule(block, t - 14), Schedule(block, t - 16))
  }

  /** One round on the five registers, for the function value f and the constant k of its twenty. */
  function Step(r: Regs, f: Word, w: Word, k: Word): Regs {
    Regs(CircularShift(5, r.a) + f + r.e + w + k, r.a, CircularShift(30, r.b), r.c, r.d)
  }

  function Round(r: Regs, t: nat, w: Word): Regs {
    Step(r, F(t, r.b, r.c, r.d), w, K(t))
  }

  function Rounds(h: Regs, block: seq<byte>, t: nat): Regs
    requires |block| == BLOCK
  {
    if t == 0 then h else Round(Rounds(h, block, t - 1), t - 1, Schedule(block, t - 1))
  }

  function AddRegs(h: Regs, r: Regs): Regs {
    Regs(h.a + r.a, h.b + r.b, h.c + r.c, h.d + r.d, h.e + r.e)
  }

  function Compress(h: Regs, block: seq<byte>): Regs
    requires |block| == BLOCK
  {
    AddRegs(h, Rounds(h, block, 80))
  }

  function Absorb(h: Regs, m: seq<byte>): Regs
    requires |m| % BLOCK == 0
    decreases |m|
  {
    if m == [] then h else Absorb(Compress(h, m[..BLOCK]), m[BLOCK..])
  }

  function Zeros(n: nat): (z: seq<byte>)
    ensures |z| == n
  {
    seq<byte>(n, _ => 0)
  }

  function Be64(n: nat): (b: seq<byte>)
    requires n < TWO_TO_64
    ensures |b| == 8
  {
    Be32(n / TWO_TO_32) + Be32(n % TWO_TO_32)
  }

  /** A one bit, zeros up to 56 bytes into a block, and the bit length. */
  function Padding(len: nat): (p: seq<byte>)
    requires len < MAX_BYTES
    ensures (len + |p|) % BLOCK == 0
  {
    PadsToBlocks(len);
    [0x80] + Zeros(PadZeros(len % BLOCK)) + Be64(8 * len)
  }

  /** The zeros after the one bit, when that leaves no room for the length in this block or does. */
  function PadZeros(index: nat): nat
    requires index < BLOCK
  {
    if index > 55 then BLOCK - index - 1 + 56 else 55 - index
  }

  lemma {:induction false} PadsToBlocks(len: nat)
    ensures (len + 1 + PadZeros(len % BLOCK) + 8) % BLOCK == 0
  {
    var q, index := len / BLOCK, len % BLOCK;
    assert len == BLOCK * q + index;
  }

  function Hash(m: seq<byte>): Regs
    requires |m| < MAX_BYTES
  {
    Absorb(INITIAL_HASH, m + Padding(|m|))
  }

  /** Byte k of a word, the most significant first: the shift the program makes, cut to eight bits. */
  function ByteOf(w: Word, k: nat): byte
    requires k < 4
  {
    ((w >> (8 * (3 - k))) & 0xFF) as int
  }

  function WordBytes(w: Word): (b: seq<byte>)
    ensures |b| == 4
  {
    [ByteOf(w, 0), ByteOf(w, 1), ByteOf(w, 2), ByteOf(w, 3)]
  }

  /** A word is spelled with its most significant byte first, in a block and in the digest. */
  lemma {:induction false} MostSignificantFirst(block: seq<byte>, t: nat)
    requires |block| == BLOCK && t < 16 && block[t * 4..t * 4 + 4] == [0x01, 0x23, 0x45, 0x67]
    ensures BlockWord(block, t) == 0x01234567
    ensures WordBytes(0x01234567) == [0x01, 0x23, 0x45, 0x67]
  {
    var b := block[t * 4..t * 4 + 4];
    WordOfBlock(block, t, b);
    hide BlockWord;
    BytesOfWord();
  }

  lemma WordOfBlock(block: seq<byte>, t: nat, b: seq<byte>)
    requires |block| == BLOCK && t < 16 && block[t * 4..t * 4 + 4] == b == [0x01, 0x23, 0x45, 0x67]
    ensures BlockWord(block, t) == 0x01234567
  {
    assert block[t * 4] == b[0] && block[t * 4 + 1] == b[1] && block[t * 4 + 2] == b[2] && block[t * 4 + 3] == b[3];
  }

  lemma BytesOfWord()
    ensures WordBytes(0x01234567) == [0x01, 0x23, 0x45, 0x67]
  {}

  function RegAt(h: Regs, i: nat): Word
    requires i < 5
  {
    if i == 0 then h.a else if i == 1 then h.b else if i == 2 then h.c else if i == 3 then h.d else h.e
  }

  function Digest(h: Regs): (d: seq<byte>)
    ensures |d| == 20
  {
    WordBytes(h.a) + WordBytes(h.b) + WordBytes(h.c) + WordBytes(h.d) + WordBytes(h.e)
  }

  // What the definition is made of, in every bit

  /** Where b is set the choice is c, elsewhere d. */
  lemma ChChooses(b: Word, c: Word, d: Word)
    ensures Ch(b, c, d) & b == c & b && Ch(b, c, d) & !b == d & !b
  {}

  /** Where c and d agree the majority is what they say, elsewhere what b says. */
  lemma MajDecides(b: Word, c: Word, d: Word)
    ensures Maj(b, c, d) & !(c ^ d) == c & !(c ^ d) && Maj(b, c, d) & (c ^ d) == b & (c ^ d)
  {}

  /** Where b and c agree the parity is d, elsewhere the opposite. */
  lemma ParityCounts(b: Word, c: Word, d: Word)
    ensures Parity(b, c, d) & !(b ^ c) == d & !(b ^ c) && Parity(b, c, d) & (b ^ c) == !d & (b ^ c)
  {}

  /** A circular shift by one moves each bit up and the top bit to the bottom. */
  lemma ShiftByOne(w: Word)
    ensures CircularShift(1, w) & 1 == w >> 31 && CircularShift(1, w) >> 1 == w & 0x7FFF_FFFF
  {}

  /** The other two are made of it: five times, and undone by two times more. */
  lemma ShiftsByMore(w: Word)
    ensures CircularShift(5, w) ==
            CircularShift(1, CircularShift(1, CircularShift(1, CircularShift(1, CircularShift(1, w)))))
    ensures CircularShift(1, CircularShift(1, CircularShift(30, w))) == w
  {}

  /** Four of the five registers of a round can be told from its result: each moves on by one, the second shifted. */
  lemma {:induction false} StepMoves(r: Regs, f: Word, w: Word, k: Word)
    ensures var s := Step(r, f, w, k);
            r.a == s.b && CircularShift(1, CircularShift(1, s.c)) == r.b && r.c == s.d && r.d == s.e
  {
    ShiftsByMore(r.b);
  }

  /** The four times twenty rounds: a choice, a parity, a majority, and a parity again. */
  lemma {:induction false} FunctionOfRound(t: nat, b: Word, c: Word, d: Word)
    requires t < 80
    ensures F(t, b, c, d) ==
            if t / 20 == 0 then Ch(b, c, d) else if t / 20 == 2 then Maj(b, c, d) else Parity(b, c, d)
  {
    hide Ch, Maj, Parity;
  }

  /** From the hash of "abc", the first example of section 7.3 of RFC 3174: one round of each twenty, and the sum at the end. */
  lemma RoundsOfAbc()
    ensures Round(INITIAL_HASH, 0, 0x61626380) == Regs(0x0116FC33, 0x67452301, 0x7BF36AE2, 0x98BADCFE, 0x10325476)
    ensures Round(Regs(0xFD9E1D7D, 0xDC64901D, 0x20AA99CA, 0xD3A49608, 0xC82F758B), 20, 0)
         == Regs(0x1A37B0CA, 0xFD9E1D7D, 0x77192407, 0x20AA99CA, 0xD3A49608)
    ensures Round(Regs(0x32DE1CBA, 0x4C986405, 0xF718E5CF, 0x03D447F6, 0xF72EEC32), 40, 0xD2E138C4)
         == Regs(0xFC87DEDF, 0x32DE1CBA, 0x53261901, 0xF718E5CF, 0x03D447F6)
    ensures Round(Regs(0x3F52DE5A, 0x09D785FD, 0x3498BFD4, 0xF211824F, 0xD79915AB), 60, 0x7BA06619)
         == Regs(0xD756C147, 0x3F52DE5A, 0x4275E17F, 0x3498BFD4, 0xF211824F)
    ensures AddRegs(INITIAL_HASH, Regs(0x42541B35, 0x5738D5E1, 0x21834873, 0x681E6DF6, 0xD8FDF6AD))
         == Regs(0xA9993E36, 0x4706816A, 0xBA3E2571, 0x7850C26C, 0x9CD0D89D)
  {}

  /** W(t) turned back by one is the parity of the words 3, 8, 14 and 16 places before it. */
  lemma {:induction false} ScheduleParity(block: seq<byte>, t: nat)
    requires |block| == BLOCK && t >= 16
    ensures CircularShift(31, Schedule(block, t)) ==
            Schedule(block, t - 3) ^ Schedule(block, t - 8) ^ Schedule(block, t - 14) ^ Schedule(block, t - 16)
  {
    var a, b, c, d := Schedule(block, t - 3), Schedule(block, t - 8), Schedule(block, t - 14), Schedule(block, t - 16);
    assert Schedule(block, t) == Mix(a, b, c, d);
    hide Schedule;
    MixBack(a, b, c, d);
  }

  lemma MixBack(a: Word, b: Word, c: Word, d: Word)
    ensures CircularShift(31, Mix(a, b, c, d)) == a ^ b ^ c ^ d
  {}

  /** Padding is a one bit, then as few zeros as complete a block, then the bit length (section 4 of RFC 3174). */
  lemma {:induction false} PaddingIs(len: nat)
    requires len < MAX_BYTES
    ensures var p := Padding(len); var n := |p| - 8;
            && p[0] == 0x80 && 1 <= n <= 64 && (forall i | 0 < i < n :: p[i] == 0)
            && ReadBe32(p[n..]) as int * TWO_TO_32 + ReadBe32(p[n + 4..]) == 8 * len
  {
    var p := Padding(len);
    var n := |p| - 8;
    var high, low := 8 * len / TWO_TO_32, 8 * len % TWO_TO_32;
    assert p[n..] == Be32(high) + Be32(low);
    assert p[n + 4..] == Be32(low) + [];
    Be32ThenRead(high, Be32(low));
    Be32ThenRead(low, []);
  }

  /** The constants of the four times twenty rounds: 2^30 times the square roots of 2, 3, 5 and 10, rounded down. */
  lemma ConstantsAreRoots(t: nat)
    requires t < 80
    ensures var k, n := K(t) as int, if t < 20 then 2 else if t < 40 then 3 else if t < 60 then 5 else 10;
            k * k <= n * 0x1000_0000_0000_0000 < (k + 1) * (k + 1)
  {}

  /** The initial registers: low byte first, 01 23 .. EF, FE DC .. 10, and F0 E1 D2 C3. */
  lemma InitialPattern()
    ensures var h := INITIAL_HASH;
            && LowFirst(h.a) == [0x01, 0x23, 0x45, 0x67] && LowFirst(h.b) == [0x89, 0xAB, 0xCD, 0xEF]
            && LowFirst(h.c) == [0xFE, 0xDC, 0xBA, 0x98] && LowFirst(h.d) == [0x76, 0x54, 0x32, 0x10]
            && LowFirst(h.e) == [0xF0, 0xE1, 0xD2, 0xC3]
  {}

  function LowFirst(w: Word): seq<Word> {
    [w & 0xFF, (w >> 8) & 0xFF, (w >> 16) & 0xFF, w >> 24]
  }

  lemma AbsorbNothing(h: Regs)
    ensures Absorb(h, []) == h
  {}

  lemma {:induction false} AbsorbAppend(h: Regs, xs: seq<byte>, ys: seq<byte>)
    requires |xs| % BLOCK == 0 && |ys| % BLOCK == 0
    ensures Absorb(h, xs + ys) == Absorb(Absorb(h, xs), ys)
    decreases |xs|
  {
    hide Compress;
    if xs == [] {
      assert xs + ys == ys;
    } else {
      assert (xs + ys)[..BLOCK] == xs[..BLOCK] && (xs + ys)[BLOCK..] == xs[BLOCK..] + ys;
      AbsorbAppend(Compress(h, xs[..BLOCK]), xs[BLOCK..], ys);
    }
  }

  lemma {:induction false} AbsorbBlock(h: Regs, xs: seq<byte>, block: seq<byte>)
    requires |xs| % BLOCK == 0 && |block| == BLOCK
    ensures Absorb(h, xs + block) == Compress(Absorb(h, xs), block)
  {
    hide Compress;
    AbsorbAppend(h, xs, block);
    assert block[..BLOCK] == block && block[BLOCK..] == [];
  }

  lemma {:induction false} WordFromBytes(h: Regs, d: seq<byte>, i: nat)
    requires |d| == 20 && i < 5
    requires forall k: nat | k < 20 :: d[k] == ByteOf(RegAt(h, k / 4), k % 4)
    ensures d[4 * i..4 * i + 4] == WordBytes(RegAt(h, i))
  {
    hide ByteOf, RegAt;
    assert d[4 * i] == ByteOf(RegAt(h, i), 0);
    assert d[4 * i + 1] == ByteOf(RegAt(h, i), 1);
    assert d[4 * i + 2] == ByteOf(RegAt(h, i), 2);
    assert d[4 * i + 3] == ByteOf(RegAt(h, i), 3);
  }

  lemma {:induction false} DigestFromBytes(h: Regs, d: seq<byte>)
    requires |d| == 20 && forall k: nat | k < 20 :: d[k] == ByteOf(RegAt(h, k / 4), k % 4)
    ensures d == Digest(h)
  {
    hide ByteOf, WordBytes;
    WordFromBytes(h, d, 0);
    WordFromBytes(h, d, 1);
    WordFromBytes(h, d, 2);
    WordFromBytes(h, d, 3);
    WordFromBytes(h, d, 4);
    FiveSlices(d);
  }

  lemma FiveSlices(d: seq<byte>)
    requires |d| == 20
    ensures d == d[0..4] + d[4..8] + d[8..12] + d[12..16] + d[16..20]
  {}

  /** Padding that fits the block in which the message ends. */
  lemma {:induction false} OneBlock(m: seq<byte>, front: seq<byte>, h: Regs)
    requires |m| < MAX_BYTES && |m| % BLOCK <= 55
    requires front == m[|m| - |m| % BLOCK..] + [0x80] + Zeros(55 - |m| % BLOCK)
    requires h == Compress(Absorb(INITIAL_HASH, m[..|m| - |m| % BLOCK]), front + Be64(8 * |m|))
    ensures h == Hash(m)
  {
    hide Absorb, Compress, Zeros, Be64;
    var start := |m| - |m| % BLOCK;
    AbsorbBlock(INITIAL_HASH, m[..start], front + Be64(8 * |m|));
    assert m[..start] + (front + Be64(8 * |m|)) == m + Padding(|m|);
  }

  /** Padding that spills into a block of its own. */
  lemma {:induction false} TwoBlocks(m: seq<byte>, first: seq<byte>, h: Regs)
    requires |m| < MAX_BYTES && |m| % BLOCK > 55
    requires first == m[|m| - |m| % BLOCK..] + [0x80] + Zeros(63 - |m| % BLOCK)
    requires h == Compress(Compress(Absorb(INITIAL_HASH, m[..|m| - |m| % BLOCK]), first), Zeros(56) + Be64(8 * |m|))
    ensures h == Hash(m)
  {
    hide Absorb, Compress, Be64;
    var start := |m| - |m| % BLOCK;
    var second := Zeros(56) + Be64(8 * |m|);
    AbsorbBlock(INITIAL_HASH, m[..start], first);
    AbsorbBlock(INITIAL_HASH, m[..start] + first, second);
    assert Zeros(119 - |m| % BLOCK) == Zeros(63 - |m| % BLOCK) + Zeros(56);
    assert m[..start] + first + second == m + Padding(|m|);
  }

  lemma FullOrNot(n: nat, index: nat)
    requires 1 <= index <= BLOCK && index <= n && (n - index) % BLOCK == 0
    ensures n % BLOCK == if index == BLOCK then 0 else index
  {}

  /** The low word is a multiple of eight, so it wraps to exactly zero; and the high word after it. */
  lemma {:induction false} BitCount(n: nat, high: u32, low: u32)
    requires n < MAX_BYTES && high as int * TWO_TO_32 + low as int == 8 * n
    ensures low + 8 <= TWO_TO_32
    ensures low + 8 == TWO_TO_32 && high + 1 == TWO_TO_32 <==> n + 1 == MAX_BYTES
  {
    assert low as int == 8 * (n - high as int * 0x2000_0000);
  }

  lemma CountWithin(n: nat, index: nat)
    requires index == n % BLOCK
    ensures (n - index) % BLOCK == 0
    ensures (n + 1) % BLOCK == if index + 1 == BLOCK then 0 else index + 1
  {}

  /** The message has just filled a block. */
  lemma {:induction false} BlockDone(m: seq<byte>, start: nat, h: Regs)
    requires start % BLOCK == 0 && |m| == start + BLOCK
    requires h == Compress(Absorb(INITIAL_HASH, m[..start]), m[start..])
    ensures |m| % BLOCK == 0 && h == Absorb(INITIAL_HASH, m[..|m|])
  {
    hide Absorb, Compress;
    AbsorbBlock(INITIAL_HASH, m[..start], m[start..]);
    SplitAt(m, start);
    assert m[..|m|] == m;
  }

  // The program's context

  class Context {
    var hash: Regs                  // Intermediate_Hash
    var lengthLow: u32
    var lengthHigh: u32
    var index: nat                  // Message_Block_Index
    const block: array<byte>        // Message_Block
    var computed: bool
    var corrupted: int
    ghost var message: seq<byte>    // what has been fed since the reset

    /** Hash, partial block and the two-word bit length agree with the message. */
    ghost predicate Absorbing()
      reads this, block
    {
      && !computed && corrupted == 0
      && |message| < MAX_BYTES
      && block.Length == BLOCK && index == |message| % BLOCK
      && hash == Absorb(INITIAL_HASH, message[..|message| - index])
      && block[..index] == message[|message| - index..]
      && lengthHigh as int * TWO_TO_32 + lengthLow as int == 8 * |message|
    }

    /** Padded and finished: the hash is that of the message. */
    ghost predicate Finished()
      reads this
    {
      computed && corrupted == 0 && |message| < MAX_BYTES && hash == Hash(message)
    }

    ghost predicate Valid()
      reads this, block
    {
      && block.Length == BLOCK && index < BLOCK
      && (corrupted != 0 || Absorbing() || Finished())
    }

    constructor ()
      ensures fresh(block) && Valid() && Absorbing() && !computed && corrupted == 0 && message == []
    {
      hide Absorb, Hash;
      block := new byte[BLOCK](_ => 0);
      hash := INITIAL_HASH;
      lengthLow, lengthHigh, index := 0, 0, 0;
      computed, corrupted := false, 0;
      message := [];
      new;
      AbsorbNothing(INITIAL_HASH);
      assert message[..0] == [] && message[0..] == [] && block[..0] == [];
    }

    /** SHA1Reset: whatever the state was. */
    method Reset()
      requires block.Length == BLOCK
      modifies this
      ensures Valid() && Absorbing() && !computed && corrupted == 0 && message == []
    {
      hide Absorb, Hash;
      AbsorbNothing(INITIAL_HASH);
      lengthLow, lengthHigh, index := 0, 0, 0;
      hash := INITIAL_HASH;
      computed, corrupted := false, 0;
      message := [];
    }

    method ProcessMessageBlock()
      requires block.Length == BLOCK
      modifies this`hash, this`index
      ensures hash == Compress(old(hash), block[..]) && index == 0
    {
      hide Schedule, Rounds, AddRegs;
      var w := new Word[80];
      LoadWords(w);
      ExpandWords(block[..], w);
      var r := RunRounds(hash, block[..], w);
      hash := AddRegs(hash, r);
      index := 0;
    }

    /** The two-word bit length of n bytes counts one byte more; the upper word wraps when that is too long. */
    method CountByte(ghost n: nat)
      requires n < MAX_BYTES && lengthHigh as int * TWO_TO_32 + lengthLow as int == 8 * n
      modifies this`lengthLow, this`lengthHigh, this`corrupted
      ensures lengthHigh as int * TWO_TO_32 + lengthLow as int == if n + 1 < MAX_BYTES then 8 * (n + 1) else 0
      ensures corrupted == if n + 1 < MAX_BYTES then old(corrupted) else 1
    {
      BitCount(n, lengthHigh, lengthLow);
      lengthLow := (lengthLow + 8) % TWO_TO_32;
      if lengthLow == 0 {
        lengthHigh := (lengthHigh + 1) % TWO_TO_32;
        if lengthHigh == 0 {
          corrupted := 1;
        }
      }
    }

    method StoreByte(x: byte)
      requires index < block.Length
      modifies this`index, block
      ensures index == old(index) + 1 && block[..index] == old(block[..index]) + [x]
    {
      block[index] := x;
      index := index + 1;
    }

    /** A byte has just been stored; the block it went into may be full. */
    ghost predicate Stored()
      reads this, block
    {
      && !computed && block.Length == BLOCK && 1 <= index <= BLOCK && index <= |message|
      && (|message| - index) % BLOCK == 0
      && hash == Absorb(INITIAL_HASH, message[..|message| - index])
      && block[..index] == message[|message| - index..]
      && (if |message| < MAX_BYTES
          then corrupted == 0 && lengthHigh as int * TWO_TO_32 + lengthLow as int == 8 * |message|
          else corrupted == 1)
    }

    method StoreAndCount(x: byte)
      requires Valid() && Absorbing()
      modifies this, block
      ensures Stored() && message == old(message) + [x]
    {
      hide Absorb, Hash;
      ghost var start := |message| - index;
      ghost var done, partial := message[..start], message[start..];
      CountWithin(|message|, index);
      StoreByte(x);
      CountByte(|message|);
      message := message + [x];
      assert message[start..] == partial + [x] && message[..start] == done;
    }

    method ProcessIfFull()
      requires Stored()
      modifies this`hash, this`index
      ensures Valid() && (corrupted == 0 ==> Absorbing())
    {
      hide Absorb, Hash, Compress;
      FullOrNot(|message|, index);
      if index == BLOCK {
        ghost var start := |message| - index;
        assert block[..] == block[..BLOCK];
        ProcessMessageBlock();
        BlockDone(message, start, hash);
      }
    }

    /** The body of SHA1Input's loop. */
    method AddByte(x: byte)
      requires Valid() && Absorbing()
      modifies this, block
      ensures Valid() && !computed && message == old(message) + [x]
      ensures corrupted == if |message| < MAX_BYTES then 0 else 1
    {
      hide Absorb, Hash;
      StoreAndCount(x);
      ProcessIfFull();
    }

    /** SHA1Input. A message that grows too long is noticed, but this call still reports success. */
    method Input(data: seq<byte>) returns (status: int)
      requires Valid()
      modifies this, block
      ensures Valid()
      ensures data == [] ==> status == SUCCESS && message == old(message) && corrupted == old(corrupted)
      ensures data != [] && old(computed) ==> status == STATE_ERROR && corrupted == STATE_ERROR
      ensures data != [] && !old(computed) && old(corrupted) != 0 ==> status == corrupted == old(corrupted)
      ensures computed == old(computed)
      ensures !old(computed) && old(corrupted) == 0 && |old(message)| + |data| < MAX_BYTES ==>
                status == SUCCESS && corrupted == 0 && message == old(message) + data
      ensures !old(computed) && old(corrupted) == 0 && |old(message)| + |data| >= MAX_BYTES ==>
                status == SUCCESS && corrupted == 1
    {
      hide Absorb, Hash;
      if data == [] {
        return SUCCESS;
      }
      if computed {
        corrupted := STATE_ERROR;
        return STATE_ERROR;
      }
      if corrupted != 0 {
        return corrupted;
      }
      var i := 0;
      while i < |data| && corrupted == 0
        invariant 0 <= i <= |data| && Valid() && !computed
        invariant message == old(message) + data[..i]
        invariant corrupted == if |message| < MAX_BYTES then 0 else 1
      {
        AddByte(data[i]);
        i := i + 1;
      }
      assert data[..|data|] == data;
      return SUCCESS;
    }

    /** Zeros up to a position of the block. */
    method FillZeros(upTo: nat)
      requires index <= upTo <= BLOCK == block.Length
      modifies this`index, block
      ensures index == upTo
      ensures block[..upTo] == old(block[..index]) + Zeros(upTo - old(index))
    {
      ghost var from := index;
      while index < upTo
        invariant from <= index <= upTo
        invariant block[..index] == old(block[..index]) + Zeros(index - from)
      {
        block[index] := 0;
        index := index + 1;
      }
    }

    method StoreLength()
      requires block.Length == BLOCK
      modifies block
      ensures block[..] == old(block[..56]) + (Be32(lengthHigh) + Be32(lengthLow))
    {
      ghost var lead := block[..56];
      PutNext(block, 56, [lengthHigh / 0x100_0000, lengthHigh / 0x1_0000 % 0x100,
                          lengthHigh / 0x100 % 0x100, lengthHigh % 0x100], lead, BLOCK);
      PutNext(block, 60, [lengthLow / 0x100_0000, lengthLow / 0x1_0000 % 0x100,
                          lengthLow / 0x100 % 0x100, lengthLow % 0x100], lead + Be32(lengthHigh), BLOCK);
      assert block[..] == block[..64];
      Associative(lead, Be32(lengthHigh), Be32(lengthLow));
    }

    /** Zeros up to the length, the length, and the block is done. */
    method LastBlock()
      requires block.Length == BLOCK && index <= 56
      modifies this`hash, this`index, block
      ensures index == 0
      ensures var lead := old(block[..index]);
              var last := lead + Zeros(56 - |lead|) + (Be32(lengthHigh) + Be32(lengthLow));
              |last| == BLOCK && hash == Compress(old(hash), last)
    {
      hide Compress, Zeros, Be32;
      FillZeros(56);
      StoreLength();
      ProcessMessageBlock();
    }

    /** The length does not fit this block: it goes into one of its own. */
    method PadTwoBlocks()
      requires Valid() && Absorbing() && index > 55
      modifies this`hash, this`index, block
      ensures hash == Hash(message) && index == 0
    {
      hide Absorb, Hash, Compress, Zeros, Be32;
      ghost var at := index;
      ghost var partial := block[..index];
      StoreByte(0x80);
      FillZeros(64);
      ghost var first := partial + [0x80] + Zeros(63 - at);
      assert block[..] == block[..64] == first;
      ProcessMessageBlock();
      assert block[..0] == [] && [] + Zeros(56) == Zeros(56);
      LastBlock();
      TwoBlocks(message, first, hash);
    }

    method PadOneBlock()
      requires Valid() && Absorbing() && index <= 55
      modifies this`hash, this`index, block
      ensures hash == Hash(message) && index == 0
    {
      hide Absorb, Hash, Compress, Zeros, Be32;
      ghost var front := block[..index] + [0x80] + Zeros(55 - index);
      StoreByte(0x80);
      LastBlock();
      OneBlock(message, front, hash);
    }

    /** SHA1PadMessage */
    method PadMessage()
      requires Valid() && Absorbing()
      modifies this`hash, this`index, block
      ensures hash == Hash(message) && index == 0
    {
      if index > 55 {
        PadTwoBlocks();
      } else {
        PadOneBlock();
      }
    }

    method ClearBlock()
      requires block.Length == BLOCK
      modifies block
      ensures block[..] == Zeros(BLOCK)
    {
      var i := 0;
      while i < 64
        invariant 0 <= i <= 64 && forall k | 0 <= k < i :: block[k] == 0
      {
        block[i] := 0;
        i := i + 1;
      }
    }

    /** The first SHA1Result: pad, and clear the block and the length. */
    method Finish()
      requires Valid() && Absorbing()
      modifies this, block
      ensures Valid() && Finished() && message == old(message)
    {
      hide Absorb, Hash;
      PadMessage();
      ClearBlock();
      lengthLow, lengthHigh := 0, 0;
      computed := true;
    }

    method WriteDigest(digest: array<byte>)
      requires digest.Length == 20
      modifies digest
      ensures digest[..] == Digest(hash)
    {
      hide Digest, ByteOf, RegAt;
      ghost var h := hash;
      var i := 0;
      while i < 20
        invariant 0 <= i <= 20
        invariant forall k: nat | k < i :: digest[k] == ByteOf(RegAt(h, k / 4), k % 4)
      {
        digest[i] := ByteOf(RegAt(hash, i / 4), i % 4);
        i := i + 1;
      }
      DigestFromBytes(h, digest[..]);
    }

    /** SHA1Result. */
    method Result(digest: array<byte>) returns (status: int)
      requires Valid() && digest.Length == 20 && digest != block
      modifies this, block, digest
      ensures Valid() && message == old(message) && corrupted == old(corrupted)
      ensures corrupted != 0 ==> status == corrupted && digest[..] == old(digest[..])
      ensures corrupted == 0 ==> status == SUCCESS && computed && |message| < MAX_BYTES
      ensures corrupted == 0 ==> digest[..] == Digest(Hash(message))
    {
      hide Absorb, Hash, Digest;
      if corrupted != 0 {
        return corrupted;
      }
      if !computed {
        Finish();
      }
      WriteDigest(digest);
      return SUCCESS;
    }

    method LoadWords(w: array<Word>)
      requires block.Length == BLOCK && w.Length == 80
      modifies w
      ensures forall k | 0 <= k < 16 :: w[k] == Schedule(block[..], k)
    {
      hide Mix, BlockWord;
      var t := 0;
      while t < 16
        invariant 0 <= t <= 16
        invariant forall k | 0 <= k < t :: w[k] == BlockWord(block[..], k)
      {
        w[t] := LoadWord(t);
        t := t + 1;
      }
    }

    /** Four bytes of the block, the most significant first. */
    method LoadWord(t: nat) returns (word: Word)
      requires block.Length == BLOCK && t < 16
      ensures word == BlockWord(block[..], t)
    {
      word := (block[t * 4] as bv32) << 24;
      word := word | ((block[t * 4 + 1] as bv32) << 16);
      word := word | ((block[t * 4 + 2] as bv32) << 8);
      word := word | (block[t * 4 + 3] as bv32);
    }
  }

  method ExpandWords(block: seq<byte>, w: array<Word>)
    requires |block| == BLOCK && w.Length == 80
    requires forall k | 0 <= k < 16 :: w[k] == Schedule(block, k)
    modifies w
    ensures forall k | 0 <= k < 80 :: w[k] == Schedule(block, k)
  {
    hide Mix, BlockWord;
    var t := 16;
    while t < 80
      invariant 16 <= t <= 80
      invariant forall k | 0 <= k < t :: w[k] == Schedule(block, k)
    {
      w[t] := Mix(w[t - 3], w[t - 8], w[t - 14], w[t - 16]);
      t := t + 1;
    }
  }

  /** The eighty rounds, in four loops of twenty. */
  method RunRounds(h: Regs, block: seq<byte>, w: array<Word>) returns (r: Regs)
    requires |block| == BLOCK && w.Length == 80 && forall k | 0 <= k < 80 :: w[k] == Schedule(block, k)
    ensures r == Rounds(h, block, 80)
  {
    hide Schedule, Step, Ch, Parity, Maj;
    r := h;
    var t := 0;
    while t < 20
      invariant 0 <= t <= 20 && r == Rounds(h, block, t)
    {
      r := Step(r, Ch(r.b, r.c, r.d), w[t], 0x5A827999);
      t := t + 1;
    }
    while t < 40
      invariant 20 <= t <= 40 && r == Rounds(h, block, t)
    {
      r := Step(r, Parity(r.b, r.c, r.d), w[t], 0x6ED9EBA1);
      t := t + 1;
    }
    while t < 60
      invariant 40 <= t <= 60 && r == Rounds(h, block, t)
    {
      r := Step(r, Maj(r.b, r.c, r.d), w[t], 0x8F1BBCDC);
      t := t + 1;
    }
    while t < 80
      invariant 60 <= t <= 80 && r == Rounds(h, block, t)
    {
      r := Step(r, Parity(r.b, r.c, r.d), w[t], 0xCA62C1D6);
      t := t + 1;
    }
  }

  /** However a message is cut into calls of SHA1Input, the digest is that of the whole message. */
  method DigestOfPieces(pieces: seq<seq<byte>>) returns (status: int, digest: array<byte>)
    ensures digest.Length == 20
    ensures |Concat(pieces)| < MAX_BYTES ==> status == SUCCESS && digest[..] == Digest(Hash(Concat(pieces)))
    ensures |Concat(pieces)| >= MAX_BYTES ==> status == 1
  {
    hide Hash, Digest, Context.Absorbing, Context.Finished;
    var context := new Context();
    digest := new byte[20];
    var i := 0;
    while i < |pieces|
      invariant 0 <= i <= |pieces| && context.Valid() && !context.computed && fresh(context) && fresh(context.block)
      invariant digest != context.block
      invariant context.corrupted == if |Concat(pieces[..i])| < MAX_BYTES then 0 else 1
      invariant context.corrupted == 0 ==> context.message == Concat(pieces[..i])
    {
      ConcatSnoc(pieces[..i], pieces[i]);
      assert pieces[..i + 1] == pieces[..i] + [pieces[i]];
      var ignored := context.Input(pieces[i]);
      i := i + 1;
    }
    assert pieces[..|pieces|] == pieces;
    status := context.Result(digest);
  }
}
