/**
  Unformatted JSON of the relay's messages (wsh264/cJSON/cJSON.c): trees of null, booleans, strings, arrays
  and objects, their text, and what the parser makes of any text. Numbers are not part of this model.
 */
module Json {
  import opened Bytes
  import opened JsonStrings

  const NESTING_LIMIT: nat := 1000   // CJSON_NESTING_LIMIT

  const NULL_TEXT: seq<byte> := [110, 117, 108, 108]
  const FALSE_TEXT: seq<byte> := [102, 97, 108, 115, 101]
  const TRUE_TEXT: seq<byte> := [116, 114, 117, 101]

  const OPEN_ARRAY: byte := 91
  const CLOSE_ARRAY: byte := 93
  const OPEN_OBJECT: byte := 123
  const CLOSE_OBJECT: byte := 125
  const COMMA: byte := 44
  const COLON: byte := 58

  /** These bytes are the characters of this string. */
  predicate Spells(bytes: seq<byte>, text: string) {
    |bytes| == |text| && forall i | 0 <= i < |bytes| :: bytes[i] == text[i] as int
  }

  /** The words and the structural characters of RFC 8259, sections 2 and 3. */
  lemma TokensAre()
    ensures Spells(NULL_TEXT, "null") && Spells(FALSE_TEXT, "false") && Spells(TRUE_TEXT, "true")
    ensures Spells([OPEN_ARRAY, CLOSE_ARRAY, OPEN_OBJECT, CLOSE_OBJECT, COMMA, COLON, QUOTE, BACKSLASH], "[]{},:\"\\")
  {}

  /** A `cJSON` item; the children of an array or object are a list linked by `next`. */
  datatype Value =
    | Null
    | False
    | True
    | Text(text: seq<byte>)
    | Array(child: Items)
    | Object(members: Items)

  /** Array elements have no name. */
  datatype Items = End | Item(name: seq<byte>, value: Value, next: Items)

  // Text

  function Quoted(s: seq<byte>): seq<byte> {
    [QUOTE] + Escape(s) + [QUOTE]
  }

  /** print_value, without formatting */
  function Print(v: Value): (t: seq<byte>)
    ensures |t| > 0
    decreases v, 0
  {
    match v
    case Null => NULL_TEXT
    case False => FALSE_TEXT
    case True => TRUE_TEXT
    case Text(s) => Quoted(s)
    case Array(child) => [OPEN_ARRAY] + PrintItems(child, false) + [CLOSE_ARRAY]
    case Object(members) => [OPEN_OBJECT] + PrintItems(members, true) + [CLOSE_OBJECT]
  }

  function PrintItems(list: Items, named: bool): seq<byte>
    decreases list, 0
  {
    match list
    case End => []
    case Item(name, value, next) =>
      PrintItem(name, value, named) + (if next == End then [] else [COMMA] + PrintItems(next, named))
  }

  function PrintItem(name: seq<byte>, value: Value, named: bool): (t: seq<byte>)
    ensures |t| > 0
    decreases value, 1
  {
    (if named then Quoted(name) + [COLON] else []) + Print(value)
  }

  function Max(a: nat, b: nat): nat {
    if a < b then b else a
  }

  function Depth(v: Value): nat
    decreases v
  {
    match v
    case Array(child) => 1 + DepthItems(child)
    case Object(members) => 1 + DepthItems(members)
    case _ => 0
  }

  function DepthItems(list: Items): nat
    decreases list
  {
    match list
    case End => 0
    case Item(_, value, next) => Max(Depth(value), DepthItems(next))
  }

  /** Elements of arrays are nameless, as the parser leaves them. */
  predicate Tidy(v: Value)
    decreases v
  {
    match v
    case Array(child) => TidyItems(child, false)
    case Object(members) => TidyItems(members, true)
    case _ => true
  }

  predicate TidyItems(list: Items, named: bool)
    decreases list
  {
    match list
    case End => true
    case Item(name, value, next) => (named || name == []) && Tidy(value) && TidyItems(next, named)
  }

  // Parsing, at a position of a text

  /** buffer_skip_whitespace: over bytes up to 32, but never past the last byte. */
  function SkipWhitespace(t: seq<byte>, o: nat): (r: nat)
    ensures o <= r && (o < |t| ==> r < |t|) && (o >= |t| ==> r == o)
    decreases |t| - o
  {
    if o >= |t| || t[o] > 32 then o
    else if o + 1 == |t| then o
    else SkipWhitespace(t, o + 1)
  }

  predicate StartsNumber(b: byte) {
    b == 45 || 48 <= b <= 57
  }

  /** parse_value at o with `depth` arrays and objects around it: the value and the position after it. */
  function ParseValue(t: seq<byte>, o: nat, depth: nat): (r: Option<(Value, nat)>)
    ensures r.Some? ==> o < r.value.1 <= |t|
    decreases |t| - o, 3
  {
    if At(t, o, NULL_TEXT) then Some((Null, o + 4))
    else if At(t, o, FALSE_TEXT) then Some((False, o + 5))
    else if At(t, o, TRUE_TEXT) then Some((True, o + 4))
    else if o >= |t| then None
    else if t[o] == QUOTE then
      match Literal(t, o)
      case None => None
      case Some((s, after)) => Some((Text(s), after))
    else if StartsNumber(t[o]) then None
    else if t[o] == OPEN_ARRAY then
      match ParseBracketed(t, o, depth, false)
      case None => None
      case Some((list, after)) => Some((Array(list), after))
    else if t[o] == OPEN_OBJECT then
      match ParseBracketed(t, o, depth, true)
      case None => None
      case Some((list, after)) => Some((Object(list), after))
    else None
  }

  function Closing(named: bool): byte {
    if named then CLOSE_OBJECT else CLOSE_ARRAY
  }

  /** parse_array and parse_object, at the opening bracket. */
  function ParseBracketed(t: seq<byte>, o: nat, depth: nat, named: bool): (r: Option<(Items, nat)>)
    requires o < |t|
    ensures r.Some? ==> o < r.value.1 <= |t|
    decreases |t| - o, 2
  {
    if depth >= NESTING_LIMIT then None
    else
      var first := SkipWhitespace(t, o + 1);
      if first >= |t| then None
      else if t[first] == Closing(named) then Some((End, first + 1))
      else ParseItems(t, first, depth + 1, named)
  }

  /** The comma-separated items, from the first byte of one of them, and the closing bracket. */
  function ParseItems(t: seq<byte>, o: nat, depth: nat, named: bool): (r: Option<(Items, nat)>)
    ensures r.Some? ==> o < r.value.1 <= |t|
    decreases |t| - o, 5
  {
    match ParseItem(t, o, depth, named)
    case None => None
    case Some((name, value, after)) =>
      var next := SkipWhitespace(t, after);
      if next >= |t| then None
      else if t[next] == COMMA then
        match ParseItems(t, SkipWhitespace(t, next + 1), depth, named)
        case None => None
        case Some((list, end)) => Some((Item(name, value, list), end))
      else if t[next] == Closing(named) then Some((Item(name, value, End), next + 1))
      else None
  }

  function ParseItem(t: seq<byte>, o: nat, depth: nat, named: bool): (r: Option<(seq<byte>, Value, nat)>)
    ensures r.Some? ==> o < r.value.2 <= |t|
    decreases |t| - o, 4
  {
    if named then
      match Literal(t, o)
      case None => None
      case Some((name, after)) =>
        var colon := SkipWhitespace(t, after);
        if colon >= |t| || t[colon] != COLON then None
        else match ParseValue(t, SkipWhitespace(t, colon + 1), depth)
        case None => None
        case Some((value, end)) => Some((name, value, end))
    else
      match ParseValue(t, o, depth)
      case None => None
      case Some((value, end)) => Some(([], value, end))
  }

  const BOM: seq<byte> := [0xEF, 0xBB, 0xBF]

  /** cJSON_Parse: of a C string, with its terminating zero. */
  function Parse(text: seq<byte>): Option<Value> {
    var t := text + [0];
    var start := if 4 < |t| && At(t, 0, BOM) then 3 else 0;
    match ParseValue(t, SkipWhitespace(t, start), 0)
    case None => None
    case Some((value, _)) => Some(value)
  }

  // What is printed is parsed back

  lemma PrintFirst(v: Value)
    ensures Print(v)[0] > 32 && Print(v)[0] != CLOSE_ARRAY && Print(v)[0] != CLOSE_OBJECT && Print(v)[0] != 0xEF
  {}

  lemma {:induction false} ItemFirst(name: seq<byte>, value: Value, named: bool)
    ensures PrintItem(name, value, named)[0] > 32 && PrintItem(name, value, named)[0] != Closing(named)
  {
    PrintFirst(value);
    if !named {
      assert PrintItem(name, value, named) == Print(value);
    }
  }

  /** The parser on the text of a value: the value itself, unless it is nested too deeply. */
  lemma {:induction false} ValueReadBack(v: Value, t: seq<byte>, o: nat, depth: nat)
    requires Tidy(v) && At(t, o, Print(v)) && depth <= NESTING_LIMIT
    ensures ParseValue(t, o, depth) ==
            if depth + Depth(v) <= NESTING_LIMIT then Some((v, o + |Print(v)|)) else None
    decreases v, 0
  {
    hide SkipWhitespace, Escape, Literal, ParseBracketed, PrintItems;
    AtFirst(t, o, Print(v));
    match v
    case Null => assert t[o..o + 4] == NULL_TEXT;
    case False => Keyword(t, o, FALSE_TEXT);
    case True => Keyword(t, o, TRUE_TEXT);
    case Text(s) =>
      NotKeyword(t, o);
      LiteralReadBack(t, o, s);
    case Array(child) =>
      BracketAt(child, t, o, false);
      BracketReadBack(child, t, o, depth, false);
    case Object(members) =>
      BracketAt(members, t, o, true);
      BracketReadBack(members, t, o, depth, true);
  }

  function Opening(named: bool): byte {
    if named then OPEN_OBJECT else OPEN_ARRAY
  }

  lemma {:induction false} BracketAt(list: Items, t: seq<byte>, o: nat, named: bool)
    requires At(t, o, [Opening(named)] + PrintItems(list, named) + [Closing(named)])
    ensures o < |t| && t[o] == Opening(named) && At(t, o + 1, PrintItems(list, named) + [Closing(named)])
    ensures !At(t, o, NULL_TEXT) && !At(t, o, FALSE_TEXT) && !At(t, o, TRUE_TEXT)
  {
    hide PrintItems;
    Associative([Opening(named)], PrintItems(list, named), [Closing(named)]);
    AtSplit(t, o, [Opening(named)], PrintItems(list, named) + [Closing(named)]);
    AtFirst(t, o, [Opening(named)]);
    NotKeyword(t, o);
  }

  lemma {:induction false} Keyword(t: seq<byte>, o: nat, word: seq<byte>)
    requires At(t, o, word) && |word| > 0
    ensures forall other: seq<byte> | |other| > 0 && other[0] != word[0] :: !At(t, o, other)
  {
    AtFirst(t, o, word);
    forall other: seq<byte> | |other| > 0 && other[0] != word[0]
      ensures !At(t, o, other)
    {
      if At(t, o, other) {
        AtFirst(t, o, other);
      }
    }
  }

  lemma {:induction false} NotKeyword(t: seq<byte>, o: nat)
    requires o < |t| && t[o] != 110 && t[o] != 102 && t[o] != 116
    ensures !At(t, o, NULL_TEXT) && !At(t, o, FALSE_TEXT) && !At(t, o, TRUE_TEXT)
  {
    if At(t, o, NULL_TEXT) {
      AtFirst(t, o, NULL_TEXT);
    }
    if At(t, o, FALSE_TEXT) {
      AtFirst(t, o, FALSE_TEXT);
    }
    if At(t, o, TRUE_TEXT) {
      AtFirst(t, o, TRUE_TEXT);
    }
  }

  lemma NoSkip(t: seq<byte>, o: nat)
    requires o < |t| && t[o] > 32
    ensures SkipWhitespace(t, o) == o
  {}

  lemma {:induction false} BracketReadBack(list: Items, t: seq<byte>, o: nat, depth: nat, named: bool)
    requires TidyItems(list, named) && o < |t| && At(t, o + 1, PrintItems(list, named) + [Closing(named)])
    requires depth <= NESTING_LIMIT
    ensures ParseBracketed(t, o, depth, named) ==
            if depth + 1 + DepthItems(list) <= NESTING_LIMIT then Some((list, o + 2 + |PrintItems(list, named)|)) else None
    decreases list, 2
  {
    hide SkipWhitespace, PrintItem, ParseItem;
    var text := PrintItems(list, named) + [Closing(named)];
    AtFirst(t, o + 1, text);
    match list
    case End =>
      NoSkip(t, o + 1);
    case Item(name, value, next) =>
      ItemFirst(name, value, named);
      assert text[0] == PrintItem(name, value, named)[0];
      NoSkip(t, o + 1);
      if depth < NESTING_LIMIT {
        ItemsReadBack(list, t, o + 1, depth + 1, named);
      }
  }

  lemma {:induction false} ItemsReadBack(list: Items, t: seq<byte>, o: nat, depth: nat, named: bool)
    requires list.Item? && TidyItems(list, named) && At(t, o, PrintItems(list, named) + [Closing(named)])
    requires depth <= NESTING_LIMIT
    ensures ParseItems(t, o, depth, named) ==
            if depth + DepthItems(list) <= NESTING_LIMIT then Some((list, o + |PrintItems(list, named)| + 1)) else None
    decreases list, 1
  {
    hide SkipWhitespace, PrintItem, PrintItems, ParseItem, Depth, Tidy, At, Print, ParseValue;
    var first := PrintItem(list.name, list.value, named);
    var after := o + |first|;
    if list.next == End {
      LastItemAt(list, t, o, named);
      ItemReadBack(list.name, list.value, t, o, depth, named);
    } else {
      EarlierItemAt(list, t, o, named);
      ItemReadBack(list.name, list.value, t, o, depth, named);
      ItemsReadBack(list.next, t, after + 1, depth, named);
    }
  }

  lemma {:induction false} LastItemAt(list: Items, t: seq<byte>, o: nat, named: bool)
    requires list.Item? && list.next == End && At(t, o, PrintItems(list, named) + [Closing(named)])
    ensures var first := PrintItem(list.name, list.value, named);
            var after := o + |first|;
            && PrintItems(list, named) == first && At(t, o, first)
            && after < |t| && t[after] == Closing(named) && SkipWhitespace(t, after) == after
  {
    hide PrintItem;
    var first := PrintItem(list.name, list.value, named);
    assert PrintItems(list, named) == first + [] == first;
    AtSplit(t, o, first, [Closing(named)]);
    AtFirst(t, o + |first|, [Closing(named)]);
  }

  lemma {:induction false} EarlierItemAt(list: Items, t: seq<byte>, o: nat, named: bool)
    requires list.Item? && list.next != End && At(t, o, PrintItems(list, named) + [Closing(named)])
    ensures var first := PrintItem(list.name, list.value, named);
            var after := o + |first|;
            && |PrintItems(list, named)| == |first| + 1 + |PrintItems(list.next, named)| && At(t, o, first)
            && after + 1 < |t| && t[after] == COMMA && SkipWhitespace(t, after) == after
            && SkipWhitespace(t, after + 1) == after + 1 && At(t, after + 1, PrintItems(list.next, named) + [Closing(named)])
  {
    hide PrintItem;
    var first := PrintItem(list.name, list.value, named);
    var after := o + |first|;
    var more := PrintItems(list.next, named) + [Closing(named)];
    assert PrintItems(list, named) + [Closing(named)] == first + ([COMMA] + more);
    AtSplit(t, o, first, [COMMA] + more);
    AtFirst(t, after, [COMMA] + more);
    AtSplit(t, after, [COMMA], more);
    AtFirst(t, after + 1, more);
    ItemFirst(list.next.name, list.next.value, named);
    assert more[0] == PrintItem(list.next.name, list.next.value, named)[0];
  }

  lemma {:induction false} NameAt(name: seq<byte>, value: Value, t: seq<byte>, o: nat)
    requires At(t, o, PrintItem(name, value, true))
    ensures var colon := o + |Quoted(name)|;
            && Literal(t, o) == Some((name, colon))
            && colon + 1 < |t| && t[colon] == COLON && SkipWhitespace(t, colon) == colon
            && SkipWhitespace(t, colon + 1) == colon + 1 && At(t, colon + 1, Print(value))
  {
    hide Escape, Literal, Print;
    Associative(Quoted(name), [COLON], Print(value));
    AtSplit(t, o, Quoted(name), [COLON] + Print(value));
    LiteralReadBack(t, o, name);
    var colon := o + |Quoted(name)|;
    AtFirst(t, colon, [COLON] + Print(value));
    AtSplit(t, colon, [COLON], Print(value));
    AtFirst(t, colon + 1, Print(value));
    PrintFirst(value);
  }

  lemma {:induction false} ItemReadBack(name: seq<byte>, value: Value, t: seq<byte>, o: nat, depth: nat, named: bool)
    requires (named || name == []) && Tidy(value) && At(t, o, PrintItem(name, value, named)) && depth <= NESTING_LIMIT
    ensures ParseItem(t, o, depth, named) ==
            if depth + Depth(value) <= NESTING_LIMIT then Some((name, value, o + |PrintItem(name, value, named)|)) else None
    decreases value, 1
  {
    hide SkipWhitespace, Quoted, Literal, ParseValue, Print;
    if named {
      NameAt(name, value, t, o);
      ValueReadBack(value, t, o + |Quoted(name)| + 1, depth);
    } else {
      assert PrintItem(name, value, named) == Print(value);
      ValueReadBack(value, t, o, depth);
    }
  }

  /** Printing then parsing gives the tree back exactly when it is nested at most a thousand deep. */
  lemma {:induction false} PrintParse(v: Value)
    requires Tidy(v)
    ensures Parse(Print(v)) == if Depth(v) <= NESTING_LIMIT then Some(v) else None
  {
    hide Print, ParseValue, SkipWhitespace;
    var t := Print(v) + [0];
    PrintFirst(v);
    assert t[0] == Print(v)[0];
    if At(t, 0, BOM) {
      AtFirst(t, 0, BOM);
    }
    NoSkip(t, 0);
    assert t[0..0 + |Print(v)|] == Print(v);
    ValueReadBack(v, t, 0, 0);
  }
}
