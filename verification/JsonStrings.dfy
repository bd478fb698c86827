/**
  String literals of the JSON reader and writer (wsh264/cJSON/cJSON.c): `print_string_ptr`, `parse_string`,
  `utf16_literal_to_utf8`.
 */
module JsonStrings {
  import opened Bytes
  import Utf8

  const QUOTE: byte := 34
  const BACKSLASH: byte := 92
  const LETTER_U: byte := 117

  /** A piece of text at a position. */
  predicate At(t: seq<byte>, o: nat, x: seq<byte>) {
    o + |x| <= |t| && t[o..o + |x|] == x
  }

  lemma {:induction false} AtSplit(t: seq<byte>, o: nat, x: seq<byte>, y: seq<byte>)
    requires At(t, o, x + y)
    ensures At(t, o, x) && At(t, o + |x|, y)
  {
    assert t[o..o + |x|] == (x + y)[..|x|] == x;
    assert t[o + |x|..o + |x + y|] == (x + y)[|x|..] == y;
  }

  lemma {:induction false} AtFirst(t: seq<byte>, o: nat, x: seq<byte>)
    requires At(t, o, x) && |x| > 0
    ensures o < |t| && t[o] == x[0]
  {
    assert t[o] == t[o..o + |x|][0];
  }

  // Writing

  function HexDigit(n: nat): byte
    requires n < 16
  {
    if n < 10 then 48 + n else 87 + n
  }

  function EscapeByte(b: byte): (e: seq<byte>)
    ensures |e| >= 1 && |e| == 1 + ExtraBytes(b)
  {
    if b == QUOTE then [BACKSLASH, QUOTE]
    else if b == BACKSLASH then [BACKSLASH, BACKSLASH]
    else if b == 8 then [BACKSLASH, 98]
    else if b == 12 then [BACKSLASH, 102]
    else if b == 10 then [BACKSLASH, 110]
    else if b == 13 then [BACKSLASH, 114]
    else if b == 9 then [BACKSLASH, 116]
    else if b < 32 then [BACKSLASH, LETTER_U, 48, 48, HexDigit(b / 16), HexDigit(b % 16)]
    else [b]
  }

  /** The first pass of print_string_ptr: how many bytes more than one a byte takes. */
  function ExtraBytes(b: byte): nat {
    if b == QUOTE || b == BACKSLASH || b == 8 || b == 12 || b == 10 || b == 13 || b == 9 then 1
    else if b < 32 then 5
    else 0
  }

  function Escape(s: seq<byte>): (e: seq<byte>)
    ensures |e| >= |s|
  {
    if s == [] then [] else EscapeByte(s[0]) + Escape(s[1..])
  }

  function Extra(s: seq<byte>): nat {
    if s == [] then 0 else ExtraBytes(s[0]) + Extra(s[1..])
  }

  /** The escapes counted are the bytes written. */
  lemma {:induction false} EscapeLength(s: seq<byte>)
    ensures |Escape(s)| == |s| + Extra(s)
  {
    if s != [] {
      EscapeLength(s[1..]);
    }
  }

  /** No control character is left in what is written. */
  lemma {:induction false} NoControls(s: seq<byte>)
    ensures forall i | 0 <= i < |Escape(s)| :: Escape(s)[i] >= 32
  {
    if s != [] {
      NoControls(s[1..]);
      assert forall b | b in EscapeByte(s[0]) :: b >= 32;
    }
  }

  lemma {:induction false} EscapeSnoc(s: seq<byte>, b: byte)
    ensures Escape(s + [b]) == Escape(s) + EscapeByte(b)
    ensures Extra(s + [b]) == Extra(s) + ExtraBytes(b)
  {
    hide EscapeByte, ExtraBytes;
    if s == [] {
      assert s + [b] == [b] && [b][1..] == [];
      assert Escape([b]) == EscapeByte(b) + Escape([]) == EscapeByte(b);
    } else {
      assert (s + [b])[0] == s[0] && (s + [b])[1..] == s[1..] + [b];
      EscapeSnoc(s[1..], b);
      Associative(EscapeByte(s[0]), Escape(s[1..]), EscapeByte(b));
    }
  }

  lemma {:induction false} EscapeNothing(s: seq<byte>)
    requires Extra(s) == 0
    ensures Escape(s) == s
  {
    if s != [] {
      EscapeNothing(s[1..]);
      assert EscapeByte(s[0]) == [s[0]];
    }
  }

  predicate NulFree(s: seq<byte>) {
    forall i | 0 <= i < |s| :: s[i] != 0
  }

  lemma {:induction false} EscapeNulFree(s: seq<byte>)
    requires NulFree(s)
    ensures NulFree(Escape(s))
  {
    if s != [] {
      EscapeNulFree(s[1..]);
    }
  }

  // Reading: sixteen-bit escapes

  function HexValue(b: byte): Option<nat> {
    if 48 <= b <= 57 then Some(b - 48)
    else if 65 <= b <= 70 then Some(b - 55)
    else if 97 <= b <= 102 then Some(b - 87)
    else None
  }

  /** parse_hex4: zero when a digit is not one. */
  function ParseHex4(t: seq<byte>, o: nat): (h: nat)
    requires o + 4 <= |t|
    ensures h < 0x1_0000
  {
    match (HexValue(t[o]), HexValue(t[o + 1]), HexValue(t[o + 2]), HexValue(t[o + 3]))
    case (Some(a), Some(b), Some(c), Some(d)) =>
      assert a < 16 && b < 16 && c < 16 && d < 16;
      ((a * 16 + b) * 16 + c) * 16 + d
    case _ => 0
  }

  /** One code point in UTF-8. */
  function Encode(cp: nat): (e: seq<byte>)
    requires cp < 0x11_0000
    ensures 1 <= |e| <= 4
  {
    if cp < 0x80 then [cp]
    else if cp < 0x800 then [0xC0 + cp / 64, 0x80 + cp % 64]
    else if cp < 0x1_0000 then [0xE0 + cp / 4096, 0x80 + cp / 64 % 64, 0x80 + cp % 64]
    else [0xF0 + cp / 0x4_0000, 0x80 + cp / 4096 % 64, 0x80 + cp / 64 % 64, 0x80 + cp % 64]
  }

  /**
    utf16_literal_to_utf8 at a backslash, with the closing quote at `end`: what is written and how much is
    read. A high surrogate needs a low one after it; a low one alone is refused.
   */
  function Utf16(t: seq<byte>, o: nat, end: nat): (r: Option<(seq<byte>, nat)>)
    requires o < end < |t|
    ensures r.Some? ==> (r.value.1 == 6 && |r.value.0| <= 3) || (r.value.1 == 12 && |r.value.0| == 4)
    ensures r.Some? ==> o + r.value.1 <= end
  {
    if end - o < 6 then None
    else
      var first := ParseHex4(t, o + 2);
      if 0xDC00 <= first <= 0xDFFF then None
      else if 0xD800 <= first <= 0xDBFF then
        if end - (o + 6) < 6 then None
        else if t[o + 6] != BACKSLASH || t[o + 7] != LETTER_U then None
        else
          var second := ParseHex4(t, o + 8);
          if second < 0xDC00 || second > 0xDFFF then None
          else Some((Encode(0x1_0000 + first % 0x400 * 0x400 + second % 0x400), 12))
      else Some((Encode(first), 6))
  }

  /** Whatever the four digits, an accepted escape gives one UTF8-char of RFC 3629. */
  lemma {:induction false} Utf16WellFormed(t: seq<byte>, o: nat, end: nat)
    requires o < end < |t| && Utf16(t, o, end).Some?
    ensures Utf8.StartsChar(Utf16(t, o, end).value.0, |Utf16(t, o, end).value.0|)
  {
    hide ParseHex4;
    var first := ParseHex4(t, o + 2);
    if 0xD800 <= first <= 0xDBFF {
      EncodeWellFormed(0x1_0000 + first % 0x400 * 0x400 + ParseHex4(t, o + 8) % 0x400);
    } else {
      EncodeWellFormed(first);
    }
  }

  lemma {:induction false} EncodeWellFormed(cp: nat)
    requires cp < 0x11_0000 && !(0xD800 <= cp <= 0xDFFF)
    ensures Utf8.StartsChar(Encode(cp), |Encode(cp)|)
  {
    var e := Encode(cp);
    if cp < 0x80 {
    } else if cp < 0x800 {
    } else if cp < 0x1_0000 {
      ThreeBytes(cp);
    } else {
      FourBytes(cp);
    }
  }

  lemma {:induction false} ThreeBytes(cp: nat)
    requires 0x800 <= cp < 0x1_0000 && !(0xD800 <= cp <= 0xDFFF)
    ensures Utf8.Char3(Encode(cp))
  {
    assert cp / 64 == 64 * (cp / 4096) + cp / 64 % 64;
  }

  lemma {:induction false} FourBytes(cp: nat)
    requires 0x1_0000 <= cp < 0x11_0000
    ensures Utf8.Char4(Encode(cp))
  {
    assert cp / 4096 == 64 * (cp / 0x4_0000) + cp / 4096 % 64;
  }

  // What the escapes mean

  /** Exactly the hexadecimal digits have values, in either case. */
  lemma HexValueIs(b: byte, v: nat)
    requires v < 16
    ensures HexValue(b) == Some(v) <==>
            b == "0123456789abcdef"[v] as int || b == "0123456789ABCDEF"[v] as int
    ensures HexValue(b).Some? ==> HexValue(b).value < 16
  {}

  /** The eight short escapes of section 7 of RFC 8259, and no other. */
  lemma SimpleEscapeIs(c: byte)
    ensures SimpleEscape(c) ==
            match c as char
            case 'b' => Some(0x08)
            case 'f' => Some(0x0C)
            case 'n' => Some(0x0A)
            case 'r' => Some(0x0D)
            case 't' => Some(0x09)
            case '"' => Some(0x22)
            case '\\' => Some(0x5C)
            case '/' => Some(0x2F)
            case _ => None
  {}

  /** The number that the bits of a character spell, as section 3 of RFC 3629 lays them out. */
  function CodePoint(e: seq<byte>): nat
    requires 1 <= |e| <= 4
  {
    if |e| == 1 then e[0] as int
    else if |e| == 2 then e[0] as int % 0x20 * 0x40 + e[1] as int % 0x40
    else if |e| == 3 then e[0] as int % 0x10 * 0x1000 + e[1] as int % 0x40 * 0x40 + e[2] as int % 0x40
    else e[0] as int % 8 * 0x4_0000 + e[1] as int % 0x40 * 0x1000 + e[2] as int % 0x40 * 0x40 + e[3] as int % 0x40
  }

  /** A code point is written as the character that spells it, and no other character does. */
  lemma {:induction false} EncodeExactly(cp: nat, e: seq<byte>)
    requires cp < 0x11_0000 && !(0xD800 <= cp <= 0xDFFF)
    ensures e == Encode(cp) <==> 1 <= |e| <= 4 && Utf8.StartsChar(e, |e|) && CodePoint(e) == cp
  {
    EncodeWellFormed(cp);
    hide Utf8.StartsChar;
    EncodeSpells(cp);
    if 1 <= |e| <= 4 && Utf8.StartsChar(e, |e|) {
      SpelledOnce(e);
    }
  }

  lemma Marked(a: nat)
    ensures a < 0x40 ==> (0x80 + a) % 0x40 == a
    ensures a < 0x20 ==> (0xC0 + a) % 0x20 == a
    ensures a < 0x10 ==> (0xE0 + a) % 0x10 == a
    ensures a < 8 ==> (0xF0 + a) % 8 == a
  {}

  lemma {:induction false} Sextets(cp: nat)
    ensures cp == 0x40 * (cp / 0x40) + cp % 0x40
    ensures cp / 0x40 == 0x40 * (cp / 0x1000) + cp / 0x40 % 0x40
    ensures cp / 0x1000 == 0x40 * (cp / 0x4_0000) + cp / 0x1000 % 0x40
  {}

  lemma {:induction false} EncodeSpells(cp: nat)
    requires cp < 0x11_0000
    ensures CodePoint(Encode(cp)) == cp
  {
    Sextets(cp);
    if cp >= 0x80 {
      Marked(cp % 0x40);
      if cp < 0x800 {
        Marked(cp / 0x40);
      } else {
        EncodeSpellsMore(cp);
      }
    }
  }

  lemma {:induction false} EncodeSpellsMore(cp: nat)
    requires 0x800 <= cp < 0x11_0000
    ensures CodePoint(Encode(cp)) == cp
  {
    Sextets(cp);
    Marked(cp % 0x40);
    Marked(cp / 0x40 % 0x40);
    if cp < 0x1_0000 {
      Marked(cp / 0x1000);
    } else {
      Marked(cp / 0x1000 % 0x40);
      Marked(cp / 0x4_0000);
    }
  }

  lemma {:induction false} SpellTwo(a: nat, b: nat)
    requires 2 <= a < 0x20 && b < 0x40
    ensures Encode(0x40 * a + b) == [0xC0 + a, 0x80 + b]
  {
    assert (0x40 * a + b) / 0x40 == a && (0x40 * a + b) % 0x40 == b;
  }

  lemma {:induction false} SpellThree(a: nat, b: nat, c: nat)
    requires a < 0x10 && b < 0x40 && c < 0x40 && 0x800 <= 0x1000 * a + 0x40 * b + c
    ensures Encode(0x1000 * a + 0x40 * b + c) == [0xE0 + a, 0x80 + b, 0x80 + c]
  {
    var cp := 0x1000 * a + 0x40 * b + c;
    assert cp / 0x1000 == a && cp / 0x40 == 0x40 * a + b && cp % 0x40 == c;
  }

  lemma {:induction false} SpellFour(a: nat, b: nat, c: nat, d: nat)
    requires a < 8 && b < 0x40 && c < 0x40 && d < 0x40
    requires 0x1_0000 <= 0x4_0000 * a + 0x1000 * b + 0x40 * c + d < 0x11_0000
    ensures Encode(0x4_0000 * a + 0x1000 * b + 0x40 * c + d) == [0xF0 + a, 0x80 + b, 0x80 + c, 0x80 + d]
  {
    var cp := 0x4_0000 * a + 0x1000 * b + 0x40 * c + d;
    assert cp / 0x4_0000 == a && cp / 0x1000 == 0x40 * a + b;
    assert cp / 0x40 == 0x40 * (cp / 0x1000) + c && cp % 0x40 == d;
  }

  lemma {:induction false} SpelledOnce(e: seq<byte>)
    requires 1 <= |e| <= 4 && Utf8.StartsChar(e, |e|)
    ensures CodePoint(e) < 0x11_0000 && Encode(CodePoint(e)) == e
  {
    hide Encode;
    if |e| == 1 {
      OneByte(e);
    } else {
      var a, b := e[0] as int, e[1] as int - 0x80;
      Marked(b);
      if |e| == 2 {
        Marked(a - 0xC0);
        SpellTwo(a - 0xC0, b);
      } else {
        var c := e[2] as int - 0x80;
        Marked(c);
        if |e| == 3 {
          Marked(a - 0xE0);
          SpellThree(a - 0xE0, b, c);
        } else {
          var d := e[3] as int - 0x80;
          Marked(d);
          Marked(a - 0xF0);
          SpellFour(a - 0xF0, b, c, d);
        }
      }
    }
  }

  lemma OneByte(e: seq<byte>)
    requires |e| == 1 && Utf8.Char1(e)
    ensures Encode(CodePoint(e)) == e
  {}

  /** Four hexadecimal digits of h at o, in either case. */
  predicate HexAt(t: seq<byte>, o: nat, h: nat)
    requires o + 4 <= |t|
  {
    && HexValue(t[o]) == Some(h / 0x1000) && HexValue(t[o + 1]) == Some(h / 0x100 % 0x10)
    && HexValue(t[o + 2]) == Some(h / 0x10 % 0x10) && HexValue(t[o + 3]) == Some(h % 0x10)
  }

  lemma {:induction false} HexRead(t: seq<byte>, o: nat, h: nat)
    requires o + 4 <= |t| && h < 0x1_0000
    ensures HexAt(t, o, h) ==> ParseHex4(t, o) == h
  {
    hide HexValue;
    var a, b := h / 0x10, h / 0x100;
    assert h == 0x10 * a + h % 0x10 && a == 0x10 * b + a % 0x10 && b == 0x10 * (h / 0x1000) + b % 0x10;
  }

  /** An escape gives the character of the code point that its digits name. */
  lemma {:induction false} EscapeMeans(t: seq<byte>, o: nat, end: nat, cp: nat)
    requires o + 6 <= end < |t| && t[o + 1] == LETTER_U
    requires cp < 0x1_0000 && !(0xD800 <= cp <= 0xDFFF) && HexAt(t, o + 2, cp)
    ensures ReadEscape(t, o, end) == Some((Encode(cp), 6))
  {
    HexRead(t, o + 2, cp);
  }

  /** Two escapes give the character beyond the first plane that their halves name, as section 7 of RFC 8259 has it. */
  lemma {:induction false} PairMeans(t: seq<byte>, o: nat, end: nat, cp: nat)
    requires o + 12 <= end < |t| && t[o + 1] == LETTER_U && t[o + 6] == BACKSLASH && t[o + 7] == LETTER_U
    requires 0x1_0000 <= cp < 0x11_0000
    requires HexAt(t, o + 2, 0xD800 + (cp - 0x1_0000) / 0x400) && HexAt(t, o + 8, 0xDC00 + (cp - 0x1_0000) % 0x400)
    ensures ReadEscape(t, o, end) == Some((Encode(cp), 12))
  {
    hide HexAt, ParseHex4, Encode;
    var high, low := (cp - 0x1_0000) / 0x400, (cp - 0x1_0000) % 0x400;
    HexRead(t, o + 2, 0xD800 + high);
    HexRead(t, o + 8, 0xDC00 + low);
    Halves(cp, high, low);
  }

  lemma {:induction false} Halves(cp: nat, high: nat, low: nat)
    requires 0x1_0000 <= cp < 0x11_0000 && high == (cp - 0x1_0000) / 0x400 && low == (cp - 0x1_0000) % 0x400
    ensures high < 0x400 && (0xD800 + high) % 0x400 == high && (0xDC00 + low) % 0x400 == low
    ensures 0x1_0000 + high * 0x400 + low == cp
  {}

  // Reading: the two passes of parse_string

  /** First pass, from a position inside the quotes: the closing quote and the escapes passed over. */
  function FindEnd(t: seq<byte>, o: nat): (r: Option<(nat, nat)>)
    ensures r.Some? ==> o <= r.value.0 < |t| && t[r.value.0] == QUOTE
    decreases |t| - o
  {
    if o >= |t| then None
    else if t[o] == QUOTE then Some((o, 0))
    else if t[o] == BACKSLASH then
      if o + 1 >= |t| then None
      else match FindEnd(t, o + 2)
      case None => None
      case Some((end, skipped)) => Some((end, skipped + 1))
    else FindEnd(t, o + 1)
  }

  function SimpleEscape(c: byte): Option<byte> {
    if c == 98 then Some(8)
    else if c == 102 then Some(12)
    else if c == 110 then Some(10)
    else if c == 114 then Some(13)
    else if c == 116 then Some(9)
    else if c == QUOTE || c == BACKSLASH || c == 47 then Some(c)
    else None
  }

  /** One escape: what is written and how much is read. The byte after the backslash may be the closing quote. */
  function ReadEscape(t: seq<byte>, o: nat, end: nat): (r: Option<(seq<byte>, nat)>)
    requires o < end < |t|
    ensures r.Some? ==> r.value.1 >= 2
  {
    var c := t[o + 1];
    if c == LETTER_U then Utf16(t, o, end)
    else match SimpleEscape(c)
    case None => None
    case Some(b) => Some(([b], 2))
  }

  /** Second pass. */
  function Unescape(t: seq<byte>, o: nat, end: nat): Option<seq<byte>>
    requires end < |t|
    decreases end - o
  {
    if o >= end then Some([])
    else if t[o] != BACKSLASH then
      match Unescape(t, o + 1, end)
      case None => None
      case Some(s) => Some([t[o]] + s)
    else
      match ReadEscape(t, o, end)
      case None => None
      case Some((bytes, n)) =>
        match Unescape(t, o + n, end)
        case None => None
        case Some(s) => Some(bytes + s)
  }

  /** A whole literal at a position: its value and the position after it. */
  function Literal(t: seq<byte>, o: nat): (r: Option<(seq<byte>, nat)>)
    ensures r.Some? ==> o < r.value.1 <= |t|
  {
    if o >= |t| || t[o] != QUOTE then None
    else match FindEnd(t, o + 1)
    case None => None
    case Some((end, skipped)) =>
      match Unescape(t, o + 1, end)
      case None => None
      case Some(s) => Some((s, end + 1))
  }

  // What is written is read back

  lemma {:induction false} EscapeReadBack(t: seq<byte>, o: nat, b: byte, end: nat)
    requires At(t, o, EscapeByte(b)) && o + |EscapeByte(b)| <= end < |t|
    ensures t[o] != QUOTE
    ensures |EscapeByte(b)| == 1 <==> t[o] != BACKSLASH
    ensures |EscapeByte(b)| == 1 ==> t[o] == b
    ensures |EscapeByte(b)| > 1 ==> ReadEscape(t, o, end) == Some(([b], |EscapeByte(b)|))
  {
    var e := EscapeByte(b);
    assert forall i | 0 <= i < |e| :: t[o..o + |e|][i] == e[i];
    AtFirst(t, o, e);
    if |e| > 1 {
      assert t[o + 1] == e[1];
    }
    if |e| == 6 {
      assert t[o + 2] == 48 && t[o + 3] == 48 && t[o + 4] == e[4] && t[o + 5] == e[5];
      assert HexValue(HexDigit(b / 16)) == Some(b / 16) && HexValue(HexDigit(b % 16)) == Some(b % 16);
      assert ParseHex4(t, o + 2) == b;
    }
  }

  lemma {:induction false} FindEndOfEscaped(t: seq<byte>, o: nat, s: seq<byte>)
    requires At(t, o, Escape(s) + [QUOTE])
    ensures FindEnd(t, o).Some? && FindEnd(t, o).value.0 == o + |Escape(s)|
    decreases |s|
  {
    hide EscapeByte, ExtraBytes;
    AtSplit(t, o, Escape(s), [QUOTE]);
    if s == [] {
      AtFirst(t, o, [QUOTE]);
    } else {
      var e := EscapeByte(s[0]);
      Associative(e, Escape(s[1..]), [QUOTE]);
      AtSplit(t, o, e, Escape(s[1..]) + [QUOTE]);
      FindEndOfEscaped(t, o + |e|, s[1..]);
      PassEscape(t, o, s[0]);
    }
  }

  /** The first pass goes over the bytes of one escape. */
  lemma {:induction false} PassEscape(t: seq<byte>, o: nat, b: byte)
    requires At(t, o, EscapeByte(b)) && o + |EscapeByte(b)| < |t|
    requires FindEnd(t, o + |EscapeByte(b)|).Some?
    ensures FindEnd(t, o).Some? && FindEnd(t, o).value.0 == FindEnd(t, o + |EscapeByte(b)|).value.0
  {
    var e := EscapeByte(b);
    assert forall i | 0 <= i < |e| :: t[o..o + |e|][i] == e[i];
    AtFirst(t, o, e);
    if |e| == 6 {
      assert t[o + 2] == 48 && t[o + 3] == 48 && t[o + 4] == e[4] && t[o + 5] == e[5];
      assert FindEnd(t, o + 5).value.0 == FindEnd(t, o + 6).value.0;
      assert FindEnd(t, o + 4).value.0 == FindEnd(t, o + 5).value.0;
      assert FindEnd(t, o + 3).value.0 == FindEnd(t, o + 4).value.0;
      assert FindEnd(t, o + 2).value.0 == FindEnd(t, o + 3).value.0;
    }
  }

  lemma {:induction false} UnescapeOfEscaped(t: seq<byte>, o: nat, s: seq<byte>, end: nat)
    requires At(t, o, Escape(s)) && end == o + |Escape(s)| < |t|
    ensures Unescape(t, o, end) == Some(s)
    decreases |s|
  {
    hide EscapeByte, ExtraBytes, ReadEscape;
    if s != [] {
      var e := EscapeByte(s[0]);
      AtSplit(t, o, e, Escape(s[1..]));
      UnescapeOfEscaped(t, o + |e|, s[1..], end);
      EscapeReadBack(t, o, s[0], end);
      assert s == [s[0]] + s[1..];
    }
  }

  /** A string printed between quotes is parsed back, wherever it stands. */
  lemma {:induction false} LiteralReadBack(t: seq<byte>, o: nat, s: seq<byte>)
    requires At(t, o, [QUOTE] + Escape(s) + [QUOTE])
    ensures Literal(t, o) == Some((s, o + |Escape(s)| + 2))
  {
    hide Escape, FindEnd, Unescape;
    Associative([QUOTE], Escape(s), [QUOTE]);
    AtSplit(t, o, [QUOTE], Escape(s) + [QUOTE]);
    AtFirst(t, o, [QUOTE]);
    FindEndOfEscaped(t, o + 1, s);
    AtSplit(t, o + 1, Escape(s), [QUOTE]);
    UnescapeOfEscaped(t, o + 1, s, o + 1 + |Escape(s)|);
  }

  // The room parse_string asks for

  /**
    Escapes still ahead in the first pass, when the second pass stands at o: either where the first pass also
    stops, or (inside) on the second byte of one of its escapes.
   */
  function Ahead(t: seq<byte>, o: nat, inside: bool): Option<(nat, nat)> {
    FindEnd(t, if inside then o + 1 else o)
  }

  /** Two bytes on, at most one escape fewer is ahead. */
  lemma {:induction false} TwoBytesOn(t: seq<byte>, o: nat, inside: bool, end: nat) returns (inside': bool)
    requires Ahead(t, o, inside).Some? && Ahead(t, o, inside).value.0 == end && o + 2 <= end
    ensures Ahead(t, o + 2, inside').Some? && Ahead(t, o + 2, inside').value.0 == end
    ensures Ahead(t, o, inside).value.1 <= Ahead(t, o + 2, inside').value.1 + 1
  {
    if !inside && t[o] == BACKSLASH {
      inside' := false;
    } else {
      // One byte is done; the next may start an escape of the first pass.
      assert FindEnd(t, o + 1) == Ahead(t, o, inside);
      inside' := t[o + 1] == BACKSLASH;
    }
  }

  lemma OneByteOn(t: seq<byte>, o: nat, inside: bool, end: nat)
    requires Ahead(t, o, inside).Some? && Ahead(t, o, inside).value.0 == end && o < end && t[o] != BACKSLASH
    ensures Ahead(t, o + 1, false).Some? && Ahead(t, o + 1, false).value == Ahead(t, o, inside).value
  {}

  lemma {:induction false} PairsOn(t: seq<byte>, o: nat, inside: bool, end: nat, pairs: nat) returns (inside': bool)
    requires Ahead(t, o, inside).Some? && Ahead(t, o, inside).value.0 == end && o + 2 * pairs <= end
    ensures Ahead(t, o + 2 * pairs, inside').Some? && Ahead(t, o + 2 * pairs, inside').value.0 == end
    ensures Ahead(t, o, inside).value.1 <= Ahead(t, o + 2 * pairs, inside').value.1 + pairs
    decreases pairs
  {
    hide Ahead;
    if pairs == 0 {
      inside' := inside;
    } else {
      var next := TwoBytesOn(t, o, inside, end);
      inside' := PairsOn(t, o + 2, next, end, pairs - 1);
    }
  }

  /** What is left to write fits what is left of the estimate. */
  lemma {:induction false} RestFits(t: seq<byte>, o: nat, inside: bool, end: nat)
    requires Ahead(t, o, inside).Some? && Ahead(t, o, inside).value.0 == end && o <= end
    requires Unescape(t, o, end).Some?
    ensures |Unescape(t, o, end).value| + Ahead(t, o, inside).value.1 <= end - o + 1
    decreases end - o
  {
    hide Utf16;
    if o == end {
    } else if t[o] != BACKSLASH {
      OneByteOn(t, o, inside, end);
      RestFits(t, o + 1, false, end);
    } else {
      var (bytes, n) := ReadEscape(t, o, end).value;
      if o + n > end {
        assert n == 2 && o + 1 == end;
        LastByte(t, o, inside, end);
      } else {
        var inside' := PairsOn(t, o, inside, end, n / 2);
        RestFits(t, o + n, inside', end);
      }
    }
  }

  lemma LastByte(t: seq<byte>, o: nat, inside: bool, end: nat)
    requires Ahead(t, o, inside).Some? && Ahead(t, o, inside).value.0 == end && o + 1 == end && t[o] == BACKSLASH
    ensures Ahead(t, o, inside).value.1 == 0
  {}

  /**
    The estimate of parse_string (the raw length with its opening quote, less one for each escape) bounds
    what it writes, for every input, surrogate pairs and malformed escapes included.
   */
  lemma {:induction false} EstimateHolds(t: seq<byte>, o: nat)
    requires Literal(t, o).Some?
    ensures var (end, skipped) := FindEnd(t, o + 1).value;
            |Literal(t, o).value.0| <= end - o - skipped
  {
    RestFits(t, o + 1, false, FindEnd(t, o + 1).value.0);
  }

  /** One of the four characters at o is no hexadecimal digit. */
  predicate BadDigits(t: seq<byte>, o: nat)
    requires o + 4 <= |t|
  {
    HexValue(t[o]).None? || HexValue(t[o + 1]).None? || HexValue(t[o + 2]).None? || HexValue(t[o + 3]).None?
  }

  /**
    The digits of an escape are not checked: with one that is no digit, six bytes are read as U+0000. In the
    second half of a surrogate pair that zero is no low surrogate, so there the escape is refused.
   */
  lemma {:induction false} DigitsNotChecked(t: seq<byte>, o: nat, end: nat)
    requires o + 6 <= end < |t| && t[o + 1] == LETTER_U
    ensures BadDigits(t, o + 2) ==> ReadEscape(t, o, end) == Some(([0], 6))
    ensures 0xD800 <= ParseHex4(t, o + 2) <= 0xDBFF && o + 12 <= end && BadDigits(t, o + 8) ==>
              ReadEscape(t, o, end) == None
  {
    if BadDigits(t, o + 2) {
      assert ParseHex4(t, o + 2) == 0;
      assert Encode(0) == [0];
    }
    if o + 12 <= end && BadDigits(t, o + 8) {
      assert ParseHex4(t, o + 8) == 0;
    }
  }
}
