/**
  The unformatted writer with its buffer (wsh264/cJSON/cJSON.c): `ensure`, `update_offset`,
  `print_string_ptr`, `print_array`, `print_object` and `print_value`, proved to write Json.Print.

  A value is written from the offset on and closed with a zero byte; the offset may stay behind it until
  update_offset moves it past. Memory never runs out here.
 */
module JsonWriter {
  import opened Bytes
  import opened JsonStrings
  import opened Json

  const INT_MAX: nat := 0x7FFF_FFFF
  const DEFAULT_SIZE: nat := 256

  /** Strings without a zero byte, as C holds them. */
  predicate CStrings(v: Value)
    decreases v
  {
    match v
    case Text(s) => NulFree(s)
    case Array(child) => CStringItems(child)
    case Object(members) => CStringItems(members)
    case _ => true
  }

  predicate CStringItems(list: Items)
    decreases list
  {
    match list
    case End => true
    case Item(name, value, next) => NulFree(name) && CStrings(value) && CStringItems(next)
  }

  lemma {:induction false} QuotedNulFree(s: seq<byte>)
    requires NulFree(s)
    ensures NulFree(Quoted(s))
  {
    hide Escape;
    EscapeNulFree(s);
  }

  lemma {:induction false} PrintNulFree(v: Value)
    requires CStrings(v)
    ensures NulFree(Print(v))
    decreases v, 0
  {
    hide Quoted, PrintItems;
    match v
    case Text(s) => QuotedNulFree(s);
    case Array(child) => ItemsNulFree(child, false);
    case Object(members) => ItemsNulFree(members, true);
    case _ =>
  }

  lemma {:induction false} ItemsNulFree(list: Items, named: bool)
    requires CStringItems(list)
    ensures NulFree(PrintItems(list, named))
    decreases list, 0
  {
    hide Quoted, Print;
    match list
    case End =>
    case Item(name, value, next) =>
      QuotedNulFree(name);
      PrintNulFree(value);
      ItemsNulFree(next, named);
  }

  // Strings

  /** The counting pass. */
  method CountEscapes(s: seq<byte>) returns (extra: nat)
    ensures extra == Extra(s)
  {
    hide ExtraBytes;
    extra := 0;
    var i := 0;
    while i < |s|
      invariant 0 <= i <= |s| && extra == Extra(s[..i])
    {
      EscapeSnoc(s[..i], s[i]);
      assert s[..i + 1] == s[..i] + [s[i]];
      extra := extra + ExtraBytes(s[i]);
      i := i + 1;
    }
    assert s[..|s|] == s;
  }

  /** One byte of the copying pass; sprintf leaves a zero after the digits. */
  method EscapeInto(output: array<byte>, at: nat, b: byte)
    requires at + |EscapeByte(b)| < output.Length
    modifies output
    ensures output[..at + |EscapeByte(b)|] == old(output[..at]) + EscapeByte(b)
  {
    if b > 31 && b != QUOTE && b != BACKSLASH {
      output[at] := b;
      return;
    }
    output[at] := BACKSLASH;
    match b
    case 92 => output[at + 1] := 92;
    case 34 => output[at + 1] := 34;
    case 8 => output[at + 1] := 98;
    case 12 => output[at + 1] := 102;
    case 10 => output[at + 1] := 110;
    case 13 => output[at + 1] := 114;
    case 9 => output[at + 1] := 116;
    case _ =>
      CopyInto(output, at + 1, [LETTER_U, 48, 48, HexDigit(b / 16), HexDigit(b % 16), 0]);
  }

  lemma {:induction false} EscapeSplit(s: seq<byte>, i: nat)
    requires i <= |s|
    ensures Escape(s) == Escape(s[..i]) + Escape(s[i..])
    decreases |s|
  {
    hide EscapeByte;
    if i == 0 {
      assert s[..0] == [] && s[0..] == s;
    } else {
      EscapeSplit(s[1..], i - 1);
      assert s[..i][1..] == s[1..][..i - 1] && s[1..][i - 1..] == s[i..];
      Associative(EscapeByte(s[0]), Escape(s[..i][1..]), Escape(s[i..]));
    }
  }

  /** The copying pass, from just after the opening quote. */
  method CopyEscaped(output: array<byte>, at: nat, s: seq<byte>)
    requires at + |Escape(s)| < output.Length
    modifies output
    ensures output[..at + |Escape(s)|] == old(output[..at]) + Escape(s)
  {
    hide EscapeByte;
    ghost var before := output[..at];
    var p := at;
    var i := 0;
    while i < |s|
      invariant 0 <= i <= |s| && p == at + |Escape(s[..i])| && p + |Escape(s[i..])| == at + |Escape(s)|
      invariant output[..p] == before + Escape(s[..i])
    {
      EscapeSnoc(s[..i], s[i]);
      assert s[..i + 1] == s[..i] + [s[i]];
      EscapeSplit(s, i + 1);
      Associative(before, Escape(s[..i]), EscapeByte(s[i]));
      EscapeInto(output, p, s[i]);
      p := p + 1 + ExtraBytes(s[i]);
      i := i + 1;
    }
    assert s[..|s|] == s;
  }

  // The buffer

  class PrintBuffer {
    var buffer: array<byte>
    var offset: nat

    ghost predicate Valid()
      reads this, buffer
    {
      offset < buffer.Length <= INT_MAX
    }

    /** From `from` on the buffer holds a text and a zero; the offset is somewhere in it. */
    ghost predicate Holds(from: nat, text: seq<byte>)
      reads this, buffer
    {
      && from <= offset <= from + |text| < buffer.Length <= INT_MAX
      && buffer[from..from + |text|] == text && buffer[from + |text|] == 0
    }

    constructor ()
      ensures Valid() && offset == 0 && fresh(buffer)
    {
      buffer := new byte[DEFAULT_SIZE](_ => 0);
      offset := 0;
    }

    /** ensure: room for `needed` bytes from the offset on, or nothing changed. */
    method Ensure(needed: nat) returns (ok: bool)
      requires Valid()
      modifies this`buffer
      ensures Valid() && (buffer == old(buffer) || fresh(buffer))
      ensures ok == (offset + needed + 1 <= INT_MAX)
      ensures ok ==> offset + needed + 1 <= buffer.Length
      ensures buffer[..offset] == old(buffer[..offset])
    {
      if needed > INT_MAX {
        return false;
      }
      var size := needed + offset + 1;
      if size <= buffer.Length {
        return true;
      }
      var newSize := size * 2;
      if size > INT_MAX / 2 {
        if size <= INT_MAX {
          newSize := INT_MAX;
        } else {
          return false;
        }
      }
      var grown := new byte[newSize](_ => 0);
      CopyInto(grown, 0, buffer[..]);
      assert grown[..offset] == buffer[..offset];
      buffer := grown;
      ok := true;
    }

    /** update_offset: strlen from the offset on. */
    method UpdateOffset(ghost from: nat, ghost text: seq<byte>)
      requires Holds(from, text) && NulFree(text)
      modifies this`offset
      ensures Valid() && offset == from + |text|
    {
      while buffer[offset] != 0
        invariant Holds(from, text)
        decreases from + |text| - offset
      {
        assert offset == from + |text| || buffer[offset] == text[offset - from];
        offset := offset + 1;
      }
    }

    /** A few bytes and a zero after them, all written from the offset on. */
    method Put(bytes: seq<byte>)
      requires offset + |bytes| < buffer.Length <= INT_MAX
      modifies buffer
      ensures Holds(offset, bytes) && buffer[..offset] == old(buffer[..offset])
    {
      CopyInto(buffer, offset, bytes);
      buffer[offset + |bytes|] := 0;
    }

    /** A word of print_value. */
    method PrintWord(word: seq<byte>) returns (ok: bool)
      requires Valid()
      modifies this`buffer, buffer
      ensures Valid() && (buffer == old(buffer) || fresh(buffer))
      ensures ok == (offset + |word| + 2 <= INT_MAX)
      ensures buffer[..offset] == old(buffer[..offset])
      ensures ok ==> Holds(offset, word)
    {
      ok := Ensure(|word| + 1);
      if ok {
        Put(word);
      }
    }

    /** print_string_ptr */
    method PrintString(s: seq<byte>) returns (ok: bool)
      requires Valid()
      modifies this`buffer, buffer
      ensures Valid() && (buffer == old(buffer) || fresh(buffer))
      ensures ok == (offset + |Quoted(s)| + 2 <= INT_MAX)
      ensures buffer[..offset] == old(buffer[..offset])
      ensures ok ==> Holds(offset, Quoted(s))
    {
      hide Escape;
      var extra := CountEscapes(s);
      EscapeLength(s);
      var length := |s| + extra;
      ok := Ensure(length + 3);
      if !ok {
        return;
      }
      if extra == 0 {
        EscapeNothing(s);
        Put([QUOTE] + s + [QUOTE]);
        return;
      }
      PutEscaped(s, length);
    }

    /** The slow path: quote, escape, quote. */
    method PutEscaped(s: seq<byte>, length: nat)
      requires Valid() && length == |Escape(s)| && offset + length + 2 < buffer.Length
      modifies buffer
      ensures Holds(offset, Quoted(s)) && buffer[..offset] == old(buffer[..offset])
    {
      hide Escape;
      ghost var before := buffer[..offset];
      buffer[offset] := QUOTE;
      assert buffer[..offset + 1] == before + [QUOTE];
      CopyEscaped(buffer, offset + 1, s);
      Associative(before, [QUOTE], Escape(s));
      ghost var upTo := offset + 1 + length;
      assert buffer[..upTo] == before + ([QUOTE] + Escape(s));
      buffer[offset + length + 1] := QUOTE;
      buffer[offset + length + 2] := 0;
      assert buffer[..upTo] == before + ([QUOTE] + Escape(s));
      QuotedThere(buffer[..], before, s);
    }

    /** What is before the offset. */
    ghost function Text(): seq<byte>
      requires Valid()
      reads this, buffer
    {
      buffer[..offset]
    }

    /** A piece of punctuation, with the offset moved behind it, after asking for `needed` bytes. */
    method Append(bytes: seq<byte>, needed: nat, zero: bool) returns (ok: bool)
      requires Valid() && |bytes| <= needed && (zero ==> |bytes| < needed)
      modifies this, buffer
      ensures Valid() && (buffer == old(buffer) || fresh(buffer))
      ensures ok == (old(offset) + needed + 1 <= INT_MAX)
      ensures offset == if ok then old(offset) + |bytes| else old(offset)
      ensures Text() == if ok then old(Text()) + bytes else old(Text())
    {
      ghost var before := buffer[..offset];
      ok := Ensure(needed);
      if ok {
        CopyInto(buffer, offset, bytes);
        if zero {
          buffer[offset + |bytes|] := 0;
        }
        assert buffer[..offset + |bytes|] == before + bytes;
        offset := offset + |bytes|;
      }
    }

    /** After a value: the offset moves behind its text. */
    method Settle(ghost from: nat, ghost text: seq<byte>)
      requires Holds(from, text) && NulFree(text)
      modifies this`offset
      ensures Valid() && offset == from + |text| && Text() == buffer[..from] + text
    {
      UpdateOffset(from, text);
      assert buffer[..offset] == buffer[..from] + buffer[from..offset];
    }

    /** print_value, from the offset on */
    method PrintValue(v: Value) returns (ok: bool)
      requires Valid() && CStrings(v)
      modifies this, buffer
      ensures Valid() && (buffer == old(buffer) || fresh(buffer)) && offset >= old(offset)
      ensures buffer[..old(offset)] == old(Text())
      ensures ok <==> old(offset) + |Print(v)| + 2 <= INT_MAX
      ensures ok ==> Holds(old(offset), Print(v))
      decreases v, 0
    {
      hide Quoted, PrintItems;
      match v
      case Null => ok := PrintWord(NULL_TEXT);
      case False => ok := PrintWord(FALSE_TEXT);
      case True => ok := PrintWord(TRUE_TEXT);
      case Text(s) => ok := PrintString(s);
      case Array(child) => ok := PrintBracketed(child, false);
      case Object(members) => ok := PrintBracketed(members, true);
    }

    method PrintName(name: seq<byte>) returns (ok: bool)
      requires Valid() && NulFree(name)
      modifies this, buffer
      ensures Valid() && (buffer == old(buffer) || fresh(buffer))
      ensures if ok then Text() == old(Text()) + (Quoted(name) + [COLON]) else old(Text()) <= Text()
      ensures old(offset) + |Quoted(name)| + 2 <= INT_MAX ==> ok
      ensures ok ==> offset == old(offset) + |Quoted(name)| + 1
    {
      hide Quoted;
      ok := PrintString(name);
      if !ok {
        return;
      }
      QuotedNulFree(name);
      Settle(offset, Quoted(name));
      ok := Append([COLON], 1, false);
      Associative(old(Text()), Quoted(name), [COLON]);
    }

    method PrintSettled(value: Value) returns (ok: bool)
      requires Valid() && CStrings(value)
      modifies this, buffer
      ensures Valid() && (buffer == old(buffer) || fresh(buffer))
      ensures if ok then Text() == old(Text()) + Print(value) else old(Text()) <= Text()
      ensures ok <==> old(offset) + |Print(value)| + 2 <= INT_MAX
      ensures ok ==> offset == old(offset) + |Print(value)|
      decreases value, 1
    {
      hide Print;
      ghost var from := offset;
      ok := PrintValue(value);
      if ok {
        PrintNulFree(value);
        Settle(from, Print(value));
      }
    }

    /** One item, with its name and colon in an object, and the offset moved behind it. */
    method PrintOne(name: seq<byte>, value: Value, named: bool) returns (ok: bool)
      requires Valid() && NulFree(name) && CStrings(value)
      modifies this, buffer
      ensures Valid() && (buffer == old(buffer) || fresh(buffer))
      ensures if ok then Text() == old(Text()) + PrintItem(name, value, named) else old(Text()) <= Text()
      ensures old(offset) + |PrintItem(name, value, named)| + 2 <= INT_MAX ==> ok
      ensures ok ==> offset == old(offset) + |PrintItem(name, value, named)|
      decreases value, 2
    {
      hide Quoted, Print, Text;
      ok := true;
      if named {
        ok := PrintName(name);
        if !ok {
          return;
        }
        Associative(old(Text()), Quoted(name) + [COLON], Print(value));
      }
      ok := PrintSettled(value);
    }

    /** print_array and print_object: the closing bracket is left for update_offset. */
    method PrintBracketed(list: Items, named: bool) returns (ok: bool)
      requires Valid() && CStringItems(list)
      modifies this, buffer
      ensures Valid() && (buffer == old(buffer) || fresh(buffer)) && offset >= old(offset)
      ensures buffer[..old(offset)] == old(Text())
      ensures ok <==> old(offset) + |PrintItems(list, named)| + 4 <= INT_MAX
      ensures ok ==> Holds(old(offset), [Opening(named)] + PrintItems(list, named) + [Closing(named)])
      decreases list, 1
    {
      hide PrintItem, PrintItems;
      ghost var from := offset;
      ok := Append([Opening(named)], if named then 2 else 1, false);
      if !ok {
        return;
      }
      ok := PrintList(list, named);
      if !ok {
        return;
      }
      Associative(old(Text()), [Opening(named)], PrintItems(list, named));
      ok := Close(from, old(Text()), [Opening(named)] + PrintItems(list, named), Closing(named));
    }

    method Close(ghost from: nat, ghost before: seq<byte>, ghost inner: seq<byte>, bracket: byte) returns (ok: bool)
      requires Valid() && |before| == from && Text() == before + inner
      modifies this`buffer, buffer
      ensures Valid() && (buffer == old(buffer) || fresh(buffer))
      ensures buffer[..from] == before && ok == (offset + 3 <= INT_MAX)
      ensures ok ==> Holds(from, inner + [bracket])
    {
      ok := Ensure(2);
      assert buffer[..offset] == before + inner;
      if ok {
        buffer[offset] := bracket;
        buffer[offset + 1] := 0;
        assert buffer[..offset] == before + inner;
        assert buffer[from..offset + 1] == inner + [bracket];
      }
    }

    /** The comma between two items; an object asks for room after its last item as well. */
    method Separate(named: bool, last: bool) returns (ok: bool)
      requires Valid()
      modifies this, buffer
      ensures Valid() && (buffer == old(buffer) || fresh(buffer))
      ensures if ok then Text() == old(Text()) + (if last then [] else [COMMA]) else old(Text()) <= Text()
      ensures old(offset) + 3 <= INT_MAX ==> ok
      ensures ok ==> offset == old(offset) + if last then 0 else 1
    {
      ok := true;
      if named && last {
        ok := Append([], 1, true);
      } else if !last {
        ok := Append([COMMA], 2, true);
      }
    }

    /** The loop over the linked items. */
    method PrintList(list: Items, named: bool) returns (ok: bool)
      requires Valid() && CStringItems(list)
      modifies this, buffer
      ensures Valid() && (buffer == old(buffer) || fresh(buffer))
      ensures if ok then Text() == old(Text()) + PrintItems(list, named) else old(Text()) <= Text()
      ensures old(offset) + |PrintItems(list, named)| + 3 <= INT_MAX ==> ok
      decreases list, 0
    {
      hide PrintItem, PrintItems, Text;
      ghost var before := Text();
      ghost var written: seq<byte> := [];
      var current := list;
      ok := true;
      while current != End
        invariant Valid() && (buffer == old(buffer) || fresh(buffer)) && ok
        invariant Text() == before + written && offset == old(offset) + |written|
        invariant CStringItems(current) && (current == list || current < list)
        invariant PrintItems(list, named) == written + PrintItems(current, named)
        decreases current
      {
        ghost var text := PrintItem(current.name, current.value, named);
        ghost var comma: seq<byte> := if current.next == End then [] else [COMMA];
        ItemsStep(current, named);
        ok := PrintOne(current.name, current.value, named);
        if !ok {
          return;
        }
        ok := Separate(named, current.next == End);
        if !ok {
          return;
        }
        Joins(before, written, text, comma, PrintItems(current.next, named));
        written := written + text + comma;
        current := current.next;
      }
      ItemsEnd(named, written);
    }
  }

  lemma ItemsStep(list: Items, named: bool)
    requires list.Item?
    ensures PrintItems(list, named) ==
            PrintItem(list.name, list.value, named)
            + ((if list.next == End then [] else [COMMA]) + PrintItems(list.next, named))
  {}

  lemma ItemsEnd(named: bool, written: seq<byte>)
    ensures written + PrintItems(End, named) == written
  {}

  lemma Joins(before: seq<byte>, written: seq<byte>, text: seq<byte>, comma: seq<byte>, rest: seq<byte>)
    ensures before + written + text + comma == before + (written + text + comma)
    ensures written + (text + (comma + rest)) == written + text + comma + rest
  {}

  /** cJSON_PrintUnformatted */
  method PrintUnformatted(v: Value) returns (ok: bool, text: seq<byte>)
    requires CStrings(v)
    ensures ok <==> |Print(v)| + 2 <= INT_MAX
    ensures ok ==> text == Print(v)
  {
    hide Print;
    text := [];
    var printed := new PrintBuffer();
    ok := printed.PrintValue(v);
    if ok {
      PrintNulFree(v);
      printed.Settle(0, Print(v));
      text := printed.buffer[..printed.offset];
    }
  }

  lemma {:induction false} QuotedThere(b: seq<byte>, before: seq<byte>, s: seq<byte>)
    requires |before| + |Escape(s)| + 2 < |b|
    requires b[..|before| + 1 + |Escape(s)|] == before + ([QUOTE] + Escape(s))
    requires b[|before| + 1 + |Escape(s)|] == QUOTE
    ensures b[..|before|] == before && b[|before|..|before| + |Quoted(s)|] == Quoted(s)
  {
    hide Escape;
    var upTo := |before| + 1 + |Escape(s)|;
    assert b[..|before|] == b[..upTo][..|before|];
    assert b[|before|..upTo] == b[..upTo][|before|..] == [QUOTE] + Escape(s);
    assert b[|before|..upTo + 1] == b[|before|..upTo] + [b[upTo]];
  }
}
