/**
  The parser with its buffer (wsh264/cJSON/cJSON.c): `parse_buffer` advanced in place by `parse_string`,
  `parse_array`, `parse_object` and `parse_value`, proved to compute the functions of Json.

  A text ends in a zero byte, as cJSON_Parse passes it; that zero keeps every read inside the text.
 */
module JsonReader {
  import opened Bytes
  import opened JsonStrings
  import opened Json

  // Sixteen-bit escapes

  function HexUpTo(t: seq<byte>, o: nat, n: nat): Option<nat>
    requires o + n <= |t|
  {
    if n == 0 then Some(0)
    else match (HexUpTo(t, o, n - 1), HexValue(t[o + n - 1]))
    case (Some(h), Some(digit)) => Some(h * 16 + digit)
    case _ => None
  }

  lemma {:induction false} HexUpToFour(t: seq<byte>, o: nat)
    requires o + 4 <= |t|
    ensures ParseHex4(t, o) == match HexUpTo(t, o, 4) case Some(h) => h case None => 0
    ensures forall n: nat | n < 4 :: HexUpTo(t, o, n).None? ==> HexUpTo(t, o, 4).None?
  {
    assert HexUpTo(t, o, 1) == HexValue(t[o]);
    assert HexUpTo(t, o, 2) == match (HexUpTo(t, o, 1), HexValue(t[o + 1]))
                                case (Some(h), Some(d)) => Some(h * 16 + d)
                                case _ => None;
    assert HexUpTo(t, o, 3) == match (HexUpTo(t, o, 2), HexValue(t[o + 2]))
                                case (Some(h), Some(d)) => Some(h * 16 + d)
                                case _ => None;
  }

  /** parse_hex4 */
  method ReadHex4(t: seq<byte>, o: nat) returns (h: nat)
    requires o + 4 <= |t|
    ensures h == ParseHex4(t, o)
  {
    hide HexValue;
    HexUpToFour(t, o);
    h := 0;
    var i := 0;
    while i < 4
      invariant 0 <= i <= 4
      invariant HexUpTo(t, o, i).Some?
      invariant h == if i < 4 then HexUpTo(t, o, i).value * 16 else HexUpTo(t, o, 4).value
    {
      var digit := HexValue(t[o + i]);
      if digit == None {
        assert HexUpTo(t, o, i + 1) == None;
        return 0;
      }
      h := h + digit.value;
      if i < 3 {
        h := h * 16;
      }
      i := i + 1;
    }
  }

  function Mark(length: nat): byte {
    if length == 2 then 0xC0 else if length == 3 then 0xE0 else if length == 4 then 0xF0 else 0
  }

  function Shifted(cp: nat, n: nat): nat {
    if n == 0 then cp else Shifted(cp / 64, n - 1)
  }

  function Continuation(cp: nat, n: nat): (s: seq<byte>)
    ensures |s| == n
  {
    if n == 0 then [] else Continuation(cp / 64, n - 1) + [0x80 + cp % 64]
  }

  lemma {:induction false} OneLevel(cp: nat, n: nat)
    requires n > 0
    ensures Continuation(cp, n) == Continuation(cp / 64, n - 1) + [0x80 + cp % 64]
    ensures Shifted(cp, n) == Shifted(cp / 64, n - 1)
    ensures Continuation(cp, 0) == [] && Shifted(cp, 0) == cp
  {}

  lemma {:induction false} EncodeFromTail(cp: nat)
    requires cp < 0x11_0000
    ensures var n := |Encode(cp)|;
            Mark(n) + Shifted(cp, n - 1) < 256 && Encode(cp) == [Mark(n) + Shifted(cp, n - 1)] + Continuation(cp, n - 1)
  {
    hide Shifted, Continuation;
    var c1 := cp / 64;
    var c2 := c1 / 64;
    var c3 := c2 / 64;
    Quarters(cp);
    OneLevel(c3, 1);
    OneLevel(c2, 1);
    OneLevel(c1, 1);
    OneLevel(cp, 1);
    if cp >= 0x800 {
      OneLevel(c1, 1);
      OneLevel(cp, 2);
    }
    if cp >= 0x1_0000 {
      OneLevel(c1, 2);
      OneLevel(cp, 3);
    }
  }

  lemma Quarters(cp: nat)
    ensures cp / 4096 == cp / 64 / 64 && cp / 0x4_0000 == cp / 64 / 64 / 64
  {}

  lemma EncodeLength(cp: nat)
    requires cp < 0x11_0000
    ensures |Encode(cp)| == if cp < 0x80 then 1 else if cp < 0x800 then 2 else if cp < 0x1_0000 then 3 else 4
  {}

  /** The loop that writes the bytes after the first, from the last. */
  method WriteContinuation(codepoint: nat, output: array<byte>, at: nat, length: nat) returns (cp: nat)
    requires 1 <= length && at + length <= output.Length
    modifies output
    ensures cp == Shifted(codepoint, length - 1)
    ensures output[..at] == old(output[..at]) && output[at + 1..at + length] == Continuation(codepoint, length - 1)
  {
    cp := codepoint;
    var position := length - 1;
    ghost var written: seq<byte> := [];
    while position > 0
      invariant 0 <= position < length && |written| == length - 1 - position
      invariant output[..at] == old(output[..at]) && output[at + position + 1..at + length] == written
      invariant Continuation(codepoint, length - 1) == Continuation(cp, position) + written
      invariant Shifted(codepoint, length - 1) == Shifted(cp, position)
    {
      output[at + position] := 0x80 + cp % 64;
      assert output[at + position..at + length] == [0x80 + cp % 64] + written;
      Associative(Continuation(cp / 64, position - 1), [0x80 + cp % 64], written);
      written := [0x80 + cp % 64] + written;
      cp := cp / 64;
      position := position - 1;
    }
  }

  /** The writing half of utf16_literal_to_utf8. */
  method WriteUtf8(codepoint: nat, output: array<byte>, at: nat) returns (length: nat)
    requires codepoint < 0x11_0000 && at + |Encode(codepoint)| <= output.Length
    modifies output
    ensures length == |Encode(codepoint)|
    ensures output[..at + length] == old(output[..at]) + Encode(codepoint)
  {
    hide Shifted, Continuation, Encode;
    EncodeLength(codepoint);
    length := if codepoint < 0x80 then 1 else if codepoint < 0x800 then 2 else if codepoint < 0x1_0000 then 3 else 4;
    EncodeFromTail(codepoint);
    var cp := WriteContinuation(codepoint, output, at, length);
    ghost var before, tail := output[..at], output[at + 1..at + length];
    output[at] := Mark(length) + cp;
    assert output[..at + length] == before + ([output[at]] + tail);
  }

  /** utf16_literal_to_utf8: the bytes of input used, or zero. */
  method Utf16Literal(t: seq<byte>, o: nat, end: nat, output: array<byte>, at: nat) returns (used: nat, written: nat)
    requires o < end < |t| && at <= output.Length
    requires Utf16(t, o, end).Some? ==> at + |Utf16(t, o, end).value.0| <= output.Length
    modifies output
    ensures used == 0 <==> Utf16(t, o, end).None?
    ensures used == 0 ==> output[..at] == old(output[..at])
    ensures used > 0 ==>
              && used == Utf16(t, o, end).value.1 && written == |Utf16(t, o, end).value.0|
              && output[..at + written] == old(output[..at]) + Utf16(t, o, end).value.0
  {
    hide ParseHex4, Encode;
    used, written := 0, 0;
    if end - o < 6 {
      return;
    }
    var first := ReadHex4(t, o + 2);
    if 0xDC00 <= first <= 0xDFFF {
      return;
    }
    var codepoint := first;
    var sequence := 6;
    if 0xD800 <= first <= 0xDBFF {
      sequence := 12;
      if end - (o + 6) < 6 {
        return;
      }
      if t[o + 6] != BACKSLASH || t[o + 7] != LETTER_U {
        return;
      }
      var second := ReadHex4(t, o + 8);
      if second < 0xDC00 || second > 0xDFFF {
        return;
      }
      codepoint := 0x1_0000 + first % 0x400 * 0x400 + second % 0x400;
    }
    written := WriteUtf8(codepoint, output, at);
    used := sequence;
  }

  // The second pass and the room it has

  lemma {:induction false} EscapesTakeTwo(t: seq<byte>, o: nat)
    requires FindEnd(t, o).Some?
    ensures o + 2 * FindEnd(t, o).value.1 <= FindEnd(t, o).value.0
    decreases |t| - o
  {
    if t[o] == QUOTE {
    } else if t[o] == BACKSLASH {
      EscapesTakeTwo(t, o + 2);
    } else {
      EscapesTakeTwo(t, o + 1);
    }
  }

  /**
    The second pass at position p has written w bytes: no more than it has passed, less the escapes the first
    pass counted up to there.
   */
  ghost predicate Room(t: seq<byte>, start: nat, end: nat, total: nat, p: nat, w: nat, inside: bool) {
    if p > end then p == end + 1 && w + total <= end - start + 1
    else
      && start <= p && Ahead(t, p, inside).Some? && Ahead(t, p, inside).value.0 == end
      && w + total <= p - start + Ahead(t, p, inside).value.1
  }

  lemma {:induction false} RoomLeft(t: seq<byte>, start: nat, end: nat, total: nat, p: nat, w: nat, inside: bool)
    requires Room(t, start, end, total, p, w, inside)
    ensures w + total <= end - start + 1 && (p < end ==> w + total <= end - start)
  {
    hide FindEnd;
    if p <= end {
      EscapesTakeTwo(t, if inside then p + 1 else p);
    }
  }

  lemma {:induction false} RoomAfterByte(t: seq<byte>, start: nat, end: nat, total: nat, p: nat, w: nat, inside: bool)
    requires Room(t, start, end, total, p, w, inside) && p < end && t[p] != BACKSLASH
    ensures Room(t, start, end, total, p + 1, w + 1, false)
  {
    OneByteOn(t, p, inside, end);
  }

  lemma {:induction false} RoomAfterEscape(t: seq<byte>, start: nat, end: nat, total: nat, p: nat, w: nat, inside: bool)
    returns (inside': bool)
    requires end < |t| && Room(t, start, end, total, p, w, inside) && p < end && t[p] == BACKSLASH
    requires ReadEscape(t, p, end).Some?
    ensures var (bytes, n) := ReadEscape(t, p, end).value;
            Room(t, start, end, total, p + n, w + |bytes|, inside')
  {
    hide Ahead, Utf16;
    var (bytes, n) := ReadEscape(t, p, end).value;
    if p + n > end {
      assert n == 2;
      LastByte(t, p, inside, end);
      inside' := false;
    } else {
      inside' := PairsOn(t, p, inside, end, n / 2);
    }
  }

  class ParseBuffer {
    const content: seq<byte>
    var offset: nat
    var depth: nat

    ghost predicate Valid()
      reads this
    {
      |content| > 0 && content[|content| - 1] == 0 && offset <= |content|
    }

    constructor (text: seq<byte>)
      ensures Valid() && content == text + [0] && offset == 0 && depth == 0
    {
      content, offset, depth := text + [0], 0, 0;
    }

    method SkipWhitespace()
      requires Valid()
      modifies this`offset
      ensures Valid() && offset == Json.SkipWhitespace(content, old(offset))
    {
      if offset >= |content| {
        return;
      }
      while offset < |content| && content[offset] <= 32
        invariant offset <= |content|
        invariant Json.SkipWhitespace(content, old(offset))
               == if offset < |content| then Json.SkipWhitespace(content, offset) else |content| - 1
      {
        offset := offset + 1;
      }
      if offset == |content| {
        offset := offset - 1;
      }
    }

    /** The first pass of parse_string. */
    method FindClosing() returns (ok: bool, end: nat, skipped: nat)
      requires Valid() && offset < |content|
      ensures match FindEnd(content, offset + 1)
              case None => !ok
              case Some((e, k)) => ok && end == e && skipped == k
    {
      ok, end, skipped := true, offset + 1, 0;
      while end < |content| && content[end] != QUOTE
        invariant end <= |content| && skipped >= 0
        invariant match FindEnd(content, end)
                  case None => FindEnd(content, offset + 1) == None
                  case Some((e, k)) => FindEnd(content, offset + 1) == Some((e, k + skipped))
        decreases |content| - end
      {
        if content[end] == BACKSLASH {
          if end + 1 >= |content| {
            return false, end, skipped;
          }
          skipped := skipped + 1;
          end := end + 1;
        }
        end := end + 1;
      }
      if end >= |content| || content[end] != QUOTE {
        ok := false;
      }
    }

    /** One escape of the second pass, into the output at w. */
    method WriteEscape(p: nat, end: nat, output: array<byte>, w: nat) returns (used: nat, written: nat)
      requires p < end < |content| && w <= output.Length
      requires ReadEscape(content, p, end).Some? ==> w + |ReadEscape(content, p, end).value.0| <= output.Length
      modifies output
      ensures used == 0 <==> ReadEscape(content, p, end).None?
      ensures used == 0 ==> output[..w] == old(output[..w])
      ensures used > 0 ==>
                && used == ReadEscape(content, p, end).value.1 && written == |ReadEscape(content, p, end).value.0|
                && w + written <= output.Length
                && output[..w + written] == old(output[..w]) + ReadEscape(content, p, end).value.0
    {
      hide Utf16;
      var c := content[p + 1];
      if c == LETTER_U {
        used, written := Utf16Literal(content, p, end, output, w);
        return;
      }
      used, written := 2, 1;
      match c
      case 98 => output[w] := 8;
      case 102 => output[w] := 12;
      case 110 => output[w] := 10;
      case 114 => output[w] := 13;
      case 116 => output[w] := 9;
      case _ =>
        if c == QUOTE || c == BACKSLASH || c == 47 {
          output[w] := c;
        } else {
          used := 0;
        }
    }

    /** The second pass: every write is within the room estimated, on failing inputs as well. */
    method FillOutput(end: nat, skipped: nat, output: array<byte>) returns (ok: bool, w: nat)
      requires Valid() && offset < |content| && FindEnd(content, offset + 1) == Some((end, skipped))
      requires output.Length == end - offset - skipped + 1
      modifies output
      ensures match Unescape(content, offset + 1, end)
              case None => !ok
              case Some(s) => ok && w + 1 <= output.Length && output[..w] == s
    {
      hide Ahead, Unescape, ReadEscape, FindEnd;
      ghost var start := offset + 1;
      ghost var inside := false;
      var p := offset + 1;
      ok, w := true, 0;
      StartsWithRoom(content, start, end, skipped);
      RoomLeft(content, start, end, skipped, p, w, inside);
      while p < end
        invariant start <= p && Room(content, start, end, skipped, p, w, inside) && w + skipped <= end - start + 1
        invariant Joined(content, start, end, p, output[..w])
        decreases end - p
      {
        RoomLeft(content, start, end, skipped, p, w, inside);
        ghost var sofar := output[..w];
        if content[p] != BACKSLASH {
          RoomAfterByte(content, start, end, skipped, p, w, inside);
          JoinByte(content, start, end, p, sofar);
          output[w] := content[p];
          assert output[..w + 1] == sofar + [content[p]];
          p, w, inside := p + 1, w + 1, false;
        } else {
          ghost var step := ReadEscape(content, p, end);
          if step.Some? {
            inside := RoomAfterEscape(content, start, end, skipped, p, w, inside);
            RoomLeft(content, start, end, skipped, p + step.value.1, w + |step.value.0|, inside);
          }
          JoinEscape(content, start, end, p, sofar);
          var used, written := WriteEscape(p, end, output, w);
          if used == 0 {
            return false, w;
          }
          p, w := p + used, w + written;
        }
        RoomLeft(content, start, end, skipped, p, w, inside);
      }
      JoinedAtEnd(content, start, end, p, output[..w]);
    }

    /** parse_string: two passes, and an output of the size estimated by the first. */
    method ParseString() returns (ok: bool, text: seq<byte>)
      requires Valid() && offset < |content|
      modifies this`offset
      ensures ok ==> Valid()
      ensures match Literal(content, old(offset))
              case None => !ok
              case Some((s, after)) => ok && text == s && offset == after
    {
      hide FindEnd, Unescape;
      text := [];
      if content[offset] != QUOTE {
        return false, text;
      }
      var end, skipped;
      ok, end, skipped := FindClosing();
      if !ok {
        return;
      }
      EscapesTakeTwo(content, offset + 1);
      var output := new byte[end - offset - skipped + 1];
      var w;
      ok, w := FillOutput(end, skipped, output);
      if !ok {
        return;
      }
      output[w] := 0;
      text := output[..w];
      offset := end + 1;
    }

    /** parse_value */
    method ParseValue() returns (ok: bool, item: Value)
      requires Valid()
      modifies this
      ensures ok ==> Valid() && offset > old(offset)
      ensures match Json.ParseValue(content, old(offset), old(depth))
              case None => !ok
              case Some((v, after)) => ok && item == v && offset == after && depth == old(depth)
      decreases |content| - offset, 3
    {
      hide Literal, Json.ParseBracketed;
      ok, item := true, Null;
      if offset + 4 <= |content| && content[offset..offset + 4] == NULL_TEXT {
        offset := offset + 4;
        return;
      }
      if offset + 5 <= |content| && content[offset..offset + 5] == FALSE_TEXT {
        item, offset := False, offset + 5;
        return;
      }
      if offset + 4 <= |content| && content[offset..offset + 4] == TRUE_TEXT {
        item, offset := True, offset + 4;
        return;
      }
      if offset >= |content| {
        return false, item;
      }
      if content[offset] == QUOTE {
        var text;
        ok, text := ParseString();
        return ok, Text(text);
      }
      if StartsNumber(content[offset]) {
        return false, item;
      }
      if content[offset] == OPEN_ARRAY {
        var list;
        ok, list := ParseBracketed(false);
        return ok, Array(list);
      }
      if content[offset] == OPEN_OBJECT {
        var list;
        ok, list := ParseBracketed(true);
        return ok, Object(list);
      }
      ok := false;
    }

    /** parse_array and parse_object */
    method ParseBracketed(named: bool) returns (ok: bool, list: Items)
      requires Valid() && offset < |content| && content[offset] == Opening(named)
      modifies this
      ensures ok ==> Valid() && offset > old(offset)
      ensures match Json.ParseBracketed(content, old(offset), old(depth), named)
              case None => !ok
              case Some((l, after)) => ok && list == l && offset == after && depth == old(depth)
      decreases |content| - offset, 2
    {
      hide Json.ParseItems, Json.SkipWhitespace;
      ok, list := false, End;
      if depth >= NESTING_LIMIT {
        return;
      }
      depth := depth + 1;
      offset := offset + 1;
      SkipWhitespace();
      if offset < |content| && content[offset] == Closing(named) {
        depth, offset := depth - 1, offset + 1;
        return true, End;
      }
      if offset >= |content| {
        return;
      }
      ok, list := ParseItems(named);
      if ok {
        depth := depth - 1;
      }
    }

    /** The loop over the items of an array or object, appending at the end of the list. */
    method ParseItems(named: bool) returns (ok: bool, list: Items)
      requires Valid() && offset < |content|
      modifies this
      ensures ok ==> Valid() && offset > old(offset)
      ensures match Json.ParseItems(content, old(offset), old(depth), named)
              case None => !ok
              case Some((l, after)) => ok && list == l && offset == after && depth == old(depth)
      decreases |content| - offset, 5
    {
      hide Json.ParseItem, Json.SkipWhitespace, Linked;
      ghost var start, d := offset, depth;
      var parsed: seq<(seq<byte>, Value)> := [];
      list := End;
      LinkedNothing();
      while true
        invariant Valid() && offset < |content| && start <= offset && depth == d
        invariant match Json.ParseItems(content, offset, d, named)
                  case None => Json.ParseItems(content, start, d, named) == None
                  case Some((l, after)) => Json.ParseItems(content, start, d, named) == Some((Linked(parsed, l), after))
        decreases |content| - offset
      {
        var name, value;
        ok, name, value := ParseItem(named);
        if !ok {
          return;
        }
        SkipWhitespace();
        if offset >= |content| {
          return false, list;
        }
        if content[offset] != COMMA {
          LinkedSnoc(parsed, name, value, End);
          parsed := parsed + [(name, value)];
          break;
        }
        offset := offset + 1;
        SkipWhitespace();
        ghost var later := Json.ParseItems(content, offset, d, named);
        if later.Some? {
          LinkedSnoc(parsed, name, value, later.value.0);
        }
        parsed := parsed + [(name, value)];
      }
      if content[offset] != Closing(named) {
        return false, list;
      }
      list := Linked(parsed, End);
      offset := offset + 1;
    }

    method ParseItem(named: bool) returns (ok: bool, name: seq<byte>, value: Value)
      requires Valid() && offset < |content|
      modifies this
      ensures ok ==> Valid() && offset > old(offset)
      ensures match Json.ParseItem(content, old(offset), old(depth), named)
              case None => !ok
              case Some((n, v, after)) => ok && name == n && value == v && offset == after && depth == old(depth)
      decreases |content| - offset, 4
    {
      hide Literal, Json.ParseValue, Json.SkipWhitespace;
      name, value := [], Null;
      if named {
        ok, name := ParseString();
        if !ok {
          return;
        }
        SkipWhitespace();
        if offset >= |content| || content[offset] != COLON {
          return false, name, value;
        }
        offset := offset + 1;
        SkipWhitespace();
      }
      ok, value := ParseValue();
    }
  }

  /** cJSON_Parse */
  method ParseText(text: seq<byte>) returns (ok: bool, root: Value)
    ensures match Parse(text)
            case None => !ok
            case Some(v) => ok && root == v
  {
    hide ParseValue, SkipWhitespace;
    var buffer := new ParseBuffer(text);
    if 4 < |buffer.content| && buffer.content[0..3] == BOM {
      buffer.offset := 3;
    }
    buffer.SkipWhitespace();
    ok, root := buffer.ParseValue();
  }

  /** A list built by appending, in front of another. */
  function Linked(parsed: seq<(seq<byte>, Value)>, list: Items): Items
    decreases |parsed|
  {
    if parsed == [] then list else Item(parsed[0].0, parsed[0].1, Linked(parsed[1..], list))
  }

  lemma LinkedNothing()
    ensures forall l: Items :: Linked([], l) == l
  {}

  lemma {:induction false} LinkedSnoc(parsed: seq<(seq<byte>, Value)>, name: seq<byte>, value: Value, list: Items)
    ensures Linked(parsed + [(name, value)], list) == Linked(parsed, Item(name, value, list))
    decreases |parsed|
  {
    if parsed == [] {
      assert parsed + [(name, value)] == [(name, value)];
    } else {
      assert (parsed + [(name, value)])[1..] == parsed[1..] + [(name, value)];
      LinkedSnoc(parsed[1..], name, value, list);
    }
  }


  /** What is written so far, followed by what the rest gives, is the whole. */
  ghost predicate Joined(t: seq<byte>, start: nat, end: nat, p: nat, sofar: seq<byte>)
    requires end < |t|
  {
    match Unescape(t, p, end)
    case None => Unescape(t, start, end) == None
    case Some(s) => Unescape(t, start, end) == Some(sofar + s)
  }

  lemma {:induction false} StartsWithRoom(t: seq<byte>, start: nat, end: nat, total: nat)
    requires FindEnd(t, start) == Some((end, total))
    ensures Room(t, start, end, total, start, 0, false) && Joined(t, start, end, start, []) && start <= end
  {
    if Unescape(t, start, end).Some? {
      assert [] + Unescape(t, start, end).value == Unescape(t, start, end).value;
    }
  }

  lemma {:induction false} JoinByte(t: seq<byte>, start: nat, end: nat, p: nat, sofar: seq<byte>)
    requires p < end < |t| && t[p] != BACKSLASH && Joined(t, start, end, p, sofar)
    ensures Joined(t, start, end, p + 1, sofar + [t[p]])
  {
    hide ReadEscape;
    var rest := Unescape(t, p + 1, end);
    if rest.Some? {
      Associative(sofar, [t[p]], rest.value);
    }
  }

  lemma {:induction false} JoinEscape(t: seq<byte>, start: nat, end: nat, p: nat, sofar: seq<byte>)
    requires p < end < |t| && t[p] == BACKSLASH && Joined(t, start, end, p, sofar)
    ensures match ReadEscape(t, p, end)
            case None => Unescape(t, start, end) == None
            case Some((bytes, n)) => Joined(t, start, end, p + n, sofar + bytes)
  {
    hide ReadEscape;
    var step := ReadEscape(t, p, end);
    if step.Some? {
      var rest := Unescape(t, p + step.value.1, end);
      if rest.Some? {
        Associative(sofar, step.value.0, rest.value);
      }
    }
  }

  lemma {:induction false} JoinedAtEnd(t: seq<byte>, start: nat, end: nat, p: nat, sofar: seq<byte>)
    requires end < |t| && p >= end && Joined(t, start, end, p, sofar)
    ensures Unescape(t, start, end) == Some(sofar)
  {
    assert Unescape(t, p, end) == Some([]);
    assert sofar + [] == sofar;
  }
}
