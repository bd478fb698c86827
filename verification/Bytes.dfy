/**
  Bytes, fixed-width words and the integer encodings shared by every component.

  A C `uint8_t`, `uint16_t` or `uint32_t` is the subset type of the integers it can hold, so that
  a truncating cast has to be written out where the program makes one.
 */
module Bytes {

  type byte = x: int | 0 <= x < 0x100
  type u16 = x: int | 0 <= x < 0x1_0000
  type u32 = x: int | 0 <= x < 0x1_0000_0000
  type u64 = x: int | 0 <= x < 0x1_0000_0000_0000_0000

  const TWO_TO_32: nat := 0x1_0000_0000
  const TWO_TO_64: nat := 0x1_0000_0000_0000_0000

  datatype Option<+T> = None | Some(value: T)

  /** The value of a C cast from an unsigned size to a 32-bit `int`. */
  function ToInt32(n: nat): (r: int)
    ensures -0x8000_0000 <= r < 0x8000_0000
    ensures n < 0x8000_0000 ==> r == n
  {
    var low := n % 0x1_0000_0000;
    if low < 0x8000_0000 then low else low - 0x1_0000_0000
  }

  function Min(a: nat, b: nat): nat {
    if a <= b then a else b
  }

  // Exclusive or

  function Xor(a: byte, b: byte): byte {
    XorBelow(a, b, 8);
    XorBits(a, b, 8)
  }

  /** The low n bits, the lowest first. */
  function XorBits(a: nat, b: nat, n: nat): nat {
    if n == 0 then 0 else 2 * XorBits(a / 2, b / 2, n - 1) + if a % 2 == b % 2 then 0 else 1
  }

  function PowerOfTwo(n: nat): (p: nat)
    ensures n == 8 ==> p == 0x100
  {
    if n == 0 then 1
    else if n == 8 then 0x100
    else 2 * PowerOfTwo(n - 1)
  }

  lemma {:induction false} XorBelow(a: nat, b: nat, n: nat)
    requires n <= 8
    ensures XorBits(a, b, n) < PowerOfTwo(n)
  {
    if n > 0 {
      XorBelow(a / 2, b / 2, n - 1);
      Doubles(n);
    }
  }

  lemma {:induction false} Doubles(n: nat)
    requires 0 < n <= 8
    ensures PowerOfTwo(n) == 2 * PowerOfTwo(n - 1)
  {
    if n == 8 {
      assert PowerOfTwo(3) == 8 && PowerOfTwo(5) == 4 * PowerOfTwo(3) && PowerOfTwo(7) == 4 * PowerOfTwo(5);
    }
  }

  lemma {:induction false} XorBitsTwice(a: nat, b: nat, n: nat)
    requires n <= 8 && a < PowerOfTwo(n)
    ensures XorBits(XorBits(a, b, n), b, n) == a
  {
    if n > 0 {
      var x := XorBits(a, b, n);
      Doubles(n);
      XorBitsTwice(a / 2, b / 2, n - 1);
      HalfAndBit(x, XorBits(a / 2, b / 2, n - 1), if a % 2 == b % 2 then 0 else 1);
    }
  }

  lemma HalfAndBit(x: nat, half: nat, bit: nat)
    requires x == 2 * half + bit && bit < 2
    ensures x / 2 == half && x % 2 == bit
  {}

  lemma {:induction false} XorTwice(a: byte, b: byte)
    ensures Xor(Xor(a, b), b) == a
  {
    XorBitsTwice(a, b, 8);
  }

  /** Bit k of a number, the lowest first. */
  function Bit(x: nat, k: nat): (bit: nat)
    ensures bit < 2
  {
    if k == 0 then x % 2 else Bit(x / 2, k - 1)
  }

  /** A bit of r is set exactly where a and b differ: what `a ^ b` is. */
  ghost predicate Differing(r: byte, a: byte, b: byte) {
    forall k: nat | k < 8 :: Bit(r, k) == 1 <==> Bit(a, k) != Bit(b, k)
  }

  lemma {:induction false} XorBitsAt(a: nat, b: nat, n: nat, k: nat)
    requires k < n
    ensures Bit(XorBits(a, b, n), k) == 1 <==> Bit(a, k) != Bit(b, k)
  {
    var half, bit := XorBits(a / 2, b / 2, n - 1), if a % 2 == b % 2 then 0 else 1;
    HalfAndBit(XorBits(a, b, n), half, bit);
    if k > 0 {
      XorBitsAt(a / 2, b / 2, n - 1, k - 1);
    }
  }

  lemma {:induction false} BitsDetermine(x: nat, y: nat, n: nat)
    requires n <= 8 && x < PowerOfTwo(n) && y < PowerOfTwo(n)
    requires forall k: nat | k < n :: Bit(x, k) == Bit(y, k)
    ensures x == y
  {
    if n > 0 {
      Doubles(n);
      forall k: nat | k < n - 1
        ensures Bit(x / 2, k) == Bit(y / 2, k)
      {
        assert Bit(x, k + 1) == Bit(y, k + 1);
      }
      BitsDetermine(x / 2, y / 2, n - 1);
      assert Bit(x, 0) == Bit(y, 0);
    }
  }

  /** `Xor` sets the bits in which its operands differ, and is the only byte that does. */
  lemma {:induction false} XorExactly(r: byte, a: byte, b: byte)
    ensures r == Xor(a, b) <==> Differing(r, a, b)
  {
    hide Bit, XorBits;
    forall k: nat | k < 8
      ensures Bit(Xor(a, b), k) == 1 <==> Bit(a, k) != Bit(b, k)
    {
      XorBitsAt(a, b, 8, k);
    }
    if Differing(r, a, b) {
      BitsDetermine(r, Xor(a, b), 8);
    }
  }

  // Big-endian and little-endian words

  function Be16(v: u16): (b: seq<byte>)
    ensures |b| == 2
  {
    [v / 0x100, v % 0x100]
  }

  function Be32(v: u32): (b: seq<byte>)
    ensures |b| == 4
  {
    [v / 0x100_0000, v / 0x1_0000 % 0x100, v / 0x100 % 0x100, v % 0x100]
  }

  function ReadBe16(b: seq<byte>): u16
    requires |b| >= 2
  {
    0x100 * b[0] as int + b[1] as int
  }

  function ReadBe32(b: seq<byte>): u32
    requires |b| >= 4
  {
    0x100_0000 * b[0] as int + 0x1_0000 * b[1] as int + 0x100 * b[2] as int + b[3] as int
  }

  function Le16(v: u16): (b: seq<byte>)
    ensures |b| == 2
  {
    [v % 0x100, v / 0x100]
  }

  function Le32(v: u32): (b: seq<byte>)
    ensures |b| == 4
  {
    [v % 0x100, v / 0x100 % 0x100, v / 0x1_0000 % 0x100, v / 0x100_0000]
  }

  function ReadLe16(b: seq<byte>): u16
    requires |b| >= 2
  {
    b[0] as int + 0x100 * b[1] as int
  }

  function ReadLe32(b: seq<byte>): u32
    requires |b| >= 4
  {
    b[0] as int + 0x100 * b[1] as int + 0x1_0000 * b[2] as int + 0x100_0000 * b[3] as int
  }

  lemma Quotients(v: nat)
    ensures v / 0x1_0000 == v / 0x100 / 0x100
    ensures v / 0x100_0000 == v / 0x1_0000 / 0x100
  {}

  lemma {:induction false} FourDigits(v: u32)
    ensures 0x100_0000 * (v / 0x100_0000) + 0x1_0000 * (v / 0x1_0000 % 0x100) + 0x100 * (v / 0x100 % 0x100) + v % 0x100 == v
  {
    Quotients(v);
  }

  lemma {:induction false} Be32ThenRead(v: u32, tail: seq<byte>)
    ensures ReadBe32(Be32(v) + tail) == v
  {
    FourDigits(v);
    var b := Be32(v) + tail;
    assert b[0] == Be32(v)[0] && b[1] == Be32(v)[1] && b[2] == Be32(v)[2] && b[3] == Be32(v)[3];
  }

  lemma {:induction false} ReadThenBe32(b: seq<byte>)
    requires |b| >= 4
    ensures Be32(ReadBe32(b)) == b[..4]
  {
    var v := ReadBe32(b);
    assert v / 0x100_0000 == b[0];
    assert v / 0x1_0000 == 0x100 * b[0] as int + b[1] as int;
    assert v / 0x100 == 0x1_0000 * b[0] as int + 0x100 * b[1] as int + b[2] as int;
  }

  lemma {:induction false} Le32ThenRead(v: u32, tail: seq<byte>)
    ensures ReadLe32(Le32(v) + tail) == v
  {
    FourDigits(v);
    var b := Le32(v) + tail;
    assert b[0] == Le32(v)[0] && b[1] == Le32(v)[1] && b[2] == Le32(v)[2] && b[3] == Le32(v)[3];
  }

  lemma {:induction false} ReadThenLe32(b: seq<byte>)
    requires |b| == 4
    ensures Le32(ReadLe32(b)) == b
  {
    var v := ReadLe32(b);
    assert v / 0x100_0000 == b[3];
    assert v / 0x1_0000 == 0x100 * b[3] as int + b[2] as int;
    assert v / 0x100 == 0x1_0000 * b[3] as int + 0x100 * b[2] as int + b[1] as int;
  }

  // Concatenation

  lemma Associative<T>(a: seq<T>, b: seq<T>, c: seq<T>)
    ensures a + b + c == a + (b + c)
  {}

  lemma SplitAt<T>(s: seq<T>, k: nat)
    requires k <= |s|
    ensures s[..k] + s[k..] == s
  {}

  function Concat<T>(parts: seq<seq<T>>): seq<T> {
    if parts == [] then [] else parts[0] + Concat(parts[1..])
  }

  lemma {:induction false} ConcatAppend<T>(xs: seq<seq<T>>, ys: seq<seq<T>>)
    ensures Concat(xs + ys) == Concat(xs) + Concat(ys)
  {
    if xs == [] {
      assert xs + ys == ys;
    } else {
      assert (xs + ys)[1..] == xs[1..] + ys;
      ConcatAppend(xs[1..], ys);
    }
  }

  lemma {:induction false} ConcatSnoc<T>(xs: seq<seq<T>>, y: seq<T>)
    ensures Concat(xs + [y]) == Concat(xs) + y
  {
    ConcatAppend(xs, [y]);
    assert Concat([y]) == y + Concat<T>([]);
  }

  // Buffers

  /** `memcpy(dst + at, src, n)`. */
  method CopyInto(dst: array<byte>, at: nat, src: seq<byte>)
    requires at + |src| <= dst.Length
    modifies dst
    ensures dst[..] == old(dst[..at]) + src + old(dst[at + |src|..])
    ensures forall i | 0 <= i < dst.Length && !(at <= i < at + |src|) :: dst[i] == old(dst[i])
  {
    forall i | 0 <= i < |src| {
      dst[at + i] := src[i];
    }
  }

  /** The next field of a record: what precedes it is `sofar`, and nothing from `end` on is touched. */
  method PutNext(dst: array<byte>, at: nat, src: seq<byte>, ghost sofar: seq<byte>, ghost end: nat)
    requires at + |src| <= end <= dst.Length && dst[..at] == sofar
    modifies dst
    ensures dst[..at + |src|] == sofar + src
    ensures dst[end..] == old(dst[end..])
  {
    CopyInto(dst, at, src);
  }
}
