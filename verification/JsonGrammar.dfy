/**
  The grammar of the texts that the parser of wsh264/cJSON/cJSON.c takes, written down without it: values with
  any whitespace around their tokens. The parser accepts exactly these, up to its nesting limit.
 */
module JsonGrammar {
  import opened Bytes
  import opened JsonStrings
  import opened Json

  /** Nothing but whitespace, which is any byte up to 32, from o to a, where something else stands. */
  predicate Gap(t: seq<byte>, o: nat, a: nat) {
    o <= a < |t| && t[a] > 32 && forall k | o <= k < a :: t[k] <= 32
  }

  /** The text from o to e is a rendering of v. */
  ghost predicate Renders(t: seq<byte>, o: nat, v: Value, e: nat)
    decreases v, 0
  {
    match v
    case Null => At(t, o, NULL_TEXT) && e == o + 4
    case False => At(t, o, FALSE_TEXT) && e == o + 5
    case True => At(t, o, TRUE_TEXT) && e == o + 4
    case Text(s) => Literal(t, o) == Some((s, e))
    case Array(child) => RendersBracketed(t, o, child, false, e)
    case Object(members) => RendersBracketed(t, o, members, true, e)
  }

  ghost predicate RendersBracketed(t: seq<byte>, o: nat, list: Items, named: bool, e: nat)
    decreases list, 4
  {
    && o < |t| && t[o] == Opening(named)
    && exists a: nat :: Gap(t, o + 1, a) && RendersList(t, a, list, named, e)
  }

  /** At the first token after the bracket: the closing one, or items. */
  ghost predicate RendersList(t: seq<byte>, a: nat, list: Items, named: bool, e: nat)
    requires a < |t|
    decreases list, 3
  {
    if list == End then t[a] == Closing(named) && e == a + 1 else RendersItems(t, a, list, named, e)
  }

  /** An item, and what follows it. */
  ghost predicate RendersItems(t: seq<byte>, o: nat, list: Items, named: bool, e: nat)
    requires list.Item?
    decreases list, 1
  {
    exists m: nat, a: nat ::
      RendersItem(t, o, list.name, list.value, named, m) && Gap(t, m, a) && RendersMore(t, a, list.next, named, e)
  }

  /** The closing bracket, or a comma and more items. */
  ghost predicate RendersMore(t: seq<byte>, a: nat, list: Items, named: bool, e: nat)
    requires a < |t|
    decreases list, 2
  {
    if list == End then t[a] == Closing(named) && e == a + 1
    else t[a] == COMMA && exists b: nat :: Gap(t, a + 1, b) && RendersItems(t, b, list, named, e)
  }

  ghost predicate RendersItem(t: seq<byte>, o: nat, name: seq<byte>, value: Value, named: bool, e: nat)
    decreases value, 2
  {
    if named then RendersMember(t, o, name, value, e) else name == [] && Renders(t, o, value, e)
  }

  /** A name, a colon, a value. */
  ghost predicate RendersMember(t: seq<byte>, o: nat, name: seq<byte>, value: Value, e: nat)
    decreases value, 1
  {
    && Literal(t, o).Some? && Literal(t, o).value.0 == name
    && exists c: nat, a: nat ::
         Gap(t, Literal(t, o).value.1, c) && Gap(t, c + 1, a) && t[c] == COLON && Renders(t, a, value, e)
  }

  // Whitespace

  lemma {:induction false} GapSkipped(t: seq<byte>, o: nat, a: nat)
    requires Gap(t, o, a)
    ensures SkipWhitespace(t, o) == a
    decreases a - o
  {
    if o < a {
      GapSkipped(t, o + 1, a);
    }
  }

  lemma {:induction false} SkippedGap(t: seq<byte>, o: nat)
    requires SkipWhitespace(t, o) < |t| && t[SkipWhitespace(t, o)] > 32
    ensures Gap(t, o, SkipWhitespace(t, o))
    decreases |t| - o
  {
    if t[o] <= 32 && o + 1 < |t| {
      SkippedGap(t, o + 1);
    }
  }

  /** A rendering starts with a byte that is neither whitespace nor a closing bracket. */
  lemma {:induction false} RenderingStarts(t: seq<byte>, o: nat, v: Value, e: nat)
    requires Renders(t, o, v, e)
    ensures o < |t| && t[o] > 32 && t[o] != CLOSE_ARRAY && t[o] != CLOSE_OBJECT
  {
    match v
    case Null => AtFirst(t, o, NULL_TEXT);
    case False => AtFirst(t, o, FALSE_TEXT);
    case True => AtFirst(t, o, TRUE_TEXT);
    case _ =>
  }

  lemma {:induction false} ItemStarts(t: seq<byte>, o: nat, name: seq<byte>, value: Value, named: bool, e: nat)
    requires RendersItem(t, o, name, value, named, e)
    ensures o < |t| && t[o] > 32 && t[o] != CLOSE_ARRAY && t[o] != CLOSE_OBJECT
  {
    if !named {
      RenderingStarts(t, o, value, e);
    }
  }

  // What is rendered is parsed

  lemma {:induction false} ValueParsed(t: seq<byte>, o: nat, depth: nat, v: Value, e: nat)
    requires Renders(t, o, v, e) && depth <= NESTING_LIMIT
    ensures ParseValue(t, o, depth) == if depth + Depth(v) <= NESTING_LIMIT then Some((v, e)) else None
    decreases v, 0
  {
    hide SkipWhitespace, Literal, ParseBracketed, RendersBracketed;
    match v
    case Null =>
    case False => Keyword(t, o, FALSE_TEXT);
    case True => Keyword(t, o, TRUE_TEXT);
    case Text(s) =>
      QuoteAt(t, o);
      NotKeyword(t, o);
    case Array(child) =>
      OpeningAt(t, o, child, false, e);
      NotKeyword(t, o);
      BracketParsed(t, o, depth, child, false, e);
    case Object(members) =>
      OpeningAt(t, o, members, true, e);
      NotKeyword(t, o);
      BracketParsed(t, o, depth, members, true, e);
  }

  lemma QuoteAt(t: seq<byte>, o: nat)
    requires Literal(t, o).Some?
    ensures o < |t| && t[o] == QUOTE
  {}

  lemma OpeningAt(t: seq<byte>, o: nat, list: Items, named: bool, e: nat)
    requires RendersBracketed(t, o, list, named, e)
    ensures o < |t| && t[o] == Opening(named)
  {}

  lemma {:induction false} BracketParsed(t: seq<byte>, o: nat, depth: nat, list: Items, named: bool, e: nat)
    requires RendersBracketed(t, o, list, named, e) && depth <= NESTING_LIMIT
    ensures ParseBracketed(t, o, depth, named) ==
            if depth + 1 + DepthItems(list) <= NESTING_LIMIT then Some((list, e)) else None
    decreases list, 2
  {
    hide SkipWhitespace, ParseItems, RendersItems;
    var a: nat :| Gap(t, o + 1, a) && RendersList(t, a, list, named, e);
    GapSkipped(t, o + 1, a);
    if list != End {
      ItemsStart(t, a, list, named, e);
      if depth < NESTING_LIMIT {
        ItemsParsed(t, a, depth + 1, list, named, e);
      }
    }
  }

  lemma {:induction false} ItemsStart(t: seq<byte>, o: nat, list: Items, named: bool, e: nat)
    requires list.Item? && RendersItems(t, o, list, named, e)
    ensures o < |t| && t[o] > 32 && t[o] != Closing(named)
  {
    hide RendersItem, RendersMore;
    var m: nat, a: nat :|
      RendersItem(t, o, list.name, list.value, named, m) && Gap(t, m, a) && RendersMore(t, a, list.next, named, e);
    ItemStarts(t, o, list.name, list.value, named, m);
  }

  lemma AfterComma(t: seq<byte>, a: nat, list: Items, named: bool, e: nat) returns (b: nat)
    requires a < |t| && list != End && RendersMore(t, a, list, named, e)
    ensures t[a] == COMMA && Gap(t, a + 1, b) && RendersItems(t, b, list, named, e)
  {
    b :| Gap(t, a + 1, b) && RendersItems(t, b, list, named, e);
  }

  lemma FirstItem(t: seq<byte>, o: nat, list: Items, named: bool, e: nat) returns (m: nat, a: nat)
    requires list.Item? && RendersItems(t, o, list, named, e)
    ensures RendersItem(t, o, list.name, list.value, named, m) && Gap(t, m, a) && RendersMore(t, a, list.next, named, e)
  {
    m, a :| RendersItem(t, o, list.name, list.value, named, m) && Gap(t, m, a) && RendersMore(t, a, list.next, named, e);
  }

  lemma {:induction false} ItemsParsed(t: seq<byte>, o: nat, depth: nat, list: Items, named: bool, e: nat)
    requires list.Item? && RendersItems(t, o, list, named, e) && depth <= NESTING_LIMIT
    ensures ParseItems(t, o, depth, named) ==
            if depth + DepthItems(list) <= NESTING_LIMIT then Some((list, e)) else None
    decreases list, 1
  {
    hide SkipWhitespace, ParseItem, RendersItem, RendersItems, Gap, Depth;
    var m, a := FirstItem(t, o, list, named, e);
    GapSkipped(t, m, a);
    ItemParsed(t, o, depth, list.name, list.value, named, m);
    if list.next != End {
      var b := AfterComma(t, a, list.next, named, e);
      GapSkipped(t, a + 1, b);
      ItemsParsed(t, b, depth, list.next, named, e);
    }
  }

  lemma MemberAt(t: seq<byte>, o: nat, name: seq<byte>, value: Value, e: nat) returns (c: nat, a: nat)
    requires RendersMember(t, o, name, value, e)
    ensures Literal(t, o).Some? && Literal(t, o).value.0 == name
    ensures Gap(t, Literal(t, o).value.1, c) && Gap(t, c + 1, a) && t[c] == COLON && Renders(t, a, value, e)
  {
    c, a :| Gap(t, Literal(t, o).value.1, c) && Gap(t, c + 1, a) && t[c] == COLON && Renders(t, a, value, e);
  }

  lemma {:induction false} ItemParsed(
      t: seq<byte>, o: nat, depth: nat, name: seq<byte>, value: Value, named: bool, e: nat)
    requires RendersItem(t, o, name, value, named, e) && depth <= NESTING_LIMIT
    ensures ParseItem(t, o, depth, named) ==
            if depth + Depth(value) <= NESTING_LIMIT then Some((name, value, e)) else None
    decreases value, 1
  {
    hide SkipWhitespace, ParseValue, Renders, RendersMember, Literal, Depth;
    if named {
      var c, a := MemberAt(t, o, name, value, e);
      GapSkipped(t, Literal(t, o).value.1, c);
      GapSkipped(t, c + 1, a);
      ValueParsed(t, a, depth, value, e);
    } else {
      ValueParsed(t, o, depth, value, e);
    }
  }

  // What is parsed is rendered

  lemma {:induction false} ValueRendered(t: seq<byte>, o: nat, depth: nat)
    requires ParseValue(t, o, depth).Some? && depth <= NESTING_LIMIT
    ensures var (v, e) := ParseValue(t, o, depth).value;
            Renders(t, o, v, e) && depth + Depth(v) <= NESTING_LIMIT
    decreases |t| - o, 3
  {
    hide SkipWhitespace, Literal, ParseBracketed, RendersBracketed;
    var v := ParseValue(t, o, depth).value.0;
    match v
    case Array(_) => BracketRendered(t, o, depth, false);
    case Object(_) => BracketRendered(t, o, depth, true);
    case _ =>
  }

  lemma {:induction false} BracketRendered(t: seq<byte>, o: nat, depth: nat, named: bool)
    requires o < |t| && t[o] == Opening(named) && ParseBracketed(t, o, depth, named).Some?
    ensures var (list, e) := ParseBracketed(t, o, depth, named).value;
            RendersBracketed(t, o, list, named, e) && depth + 1 + DepthItems(list) <= NESTING_LIMIT
    decreases |t| - o, 2
  {
    hide SkipWhitespace, ParseItems, RendersItems;
    var a := SkipWhitespace(t, o + 1);
    if t[a] != Closing(named) {
      ItemsRendered(t, a, depth + 1, named);
      var (items, end) := ParseItems(t, a, depth + 1, named).value;
      ItemsStart(t, a, items, named, end);
    }
    SkippedGap(t, o + 1);
    var (list, e) := ParseBracketed(t, o, depth, named).value;
    assert RendersList(t, a, list, named, e);
  }

  lemma {:induction false} ItemsRendered(t: seq<byte>, o: nat, depth: nat, named: bool)
    requires ParseItems(t, o, depth, named).Some? && depth <= NESTING_LIMIT
    ensures var (list, e) := ParseItems(t, o, depth, named).value;
            list.Item? && RendersItems(t, o, list, named, e) && depth + DepthItems(list) <= NESTING_LIMIT
    decreases |t| - o, 5
  {
    hide SkipWhitespace, ParseItem, RendersItem, Gap, Depth;
    ItemRendered(t, o, depth, named);
    var (name, value, after) := ParseItem(t, o, depth, named).value;
    var a := SkipWhitespace(t, after);
    SkippedGap(t, after);
    if t[a] == COMMA {
      var b := SkipWhitespace(t, a + 1);
      ItemsRendered(t, b, depth, named);
      var (list, e) := ParseItems(t, b, depth, named).value;
      ItemsStart(t, b, list, named, e);
      SkippedGap(t, a + 1);
    }
  }

  lemma {:induction false} ItemRendered(t: seq<byte>, o: nat, depth: nat, named: bool)
    requires ParseItem(t, o, depth, named).Some? && depth <= NESTING_LIMIT
    ensures var (name, value, e) := ParseItem(t, o, depth, named).value;
            RendersItem(t, o, name, value, named, e) && depth + Depth(value) <= NESTING_LIMIT
    decreases |t| - o, 4
  {
    hide SkipWhitespace, ParseValue, Renders, Literal, Depth, Gap;
    if named {
      var n := Literal(t, o).value.1;
      var c := SkipWhitespace(t, n);
      SkippedGap(t, n);
      var a := SkipWhitespace(t, c + 1);
      ValueRendered(t, a, depth);
      var (value, e) := ParseValue(t, a, depth).value;
      RenderingStarts(t, a, value, e);
      SkippedGap(t, c + 1);
    } else {
      ValueRendered(t, o, depth);
    }
  }

  /** The parser accepts at o exactly the renderings that are not nested too deeply, whatever whitespace is in them. */
  lemma {:induction false} ParsesExactly(t: seq<byte>, o: nat, depth: nat, v: Value, e: nat)
    requires depth <= NESTING_LIMIT
    ensures ParseValue(t, o, depth) == Some((v, e)) <==> Renders(t, o, v, e) && depth + Depth(v) <= NESTING_LIMIT
  {
    hide ParseValue, Renders, Depth;
    if Renders(t, o, v, e) {
      ValueParsed(t, o, depth, v, e);
    }
    if ParseValue(t, o, depth) == Some((v, e)) {
      ValueRendered(t, o, depth);
    }
  }

  /** Whitespace, and then a rendering of v. */
  ghost predicate RendersFrom(t: seq<byte>, start: nat, v: Value) {
    exists a: nat, e: nat :: Gap(t, start, a) && Renders(t, a, v, e)
  }

  /** Where cJSON_Parse starts in a text with its terminating zero: behind a byte order mark, if there is one. */
  function Start(t: seq<byte>): nat {
    if 4 < |t| && At(t, 0, BOM) then 3 else 0
  }

  /** A whole text is parsed exactly when a rendering stands at its start; what follows that is not looked at. */
  lemma {:induction false} ParseExactly(text: seq<byte>, v: Value)
    ensures Parse(text) == Some(v) <==> RendersFrom(text + [0], Start(text + [0]), v) && Depth(v) <= NESTING_LIMIT
  {
    hide ParseValue, Renders, SkipWhitespace, Depth;
    var t := text + [0];
    var start := Start(t);
    if RendersFrom(t, start, v) {
      var a: nat, e: nat :| Gap(t, start, a) && Renders(t, a, v, e);
      GapSkipped(t, start, a);
      ParsesExactly(t, a, 0, v, e);
    }
    if Parse(text) == Some(v) {
      var a := SkipWhitespace(t, start);
      var (w, e) := ParseValue(t, a, 0).value;
      ParsesExactly(t, a, 0, v, e);
      RenderingStarts(t, a, v, e);
      SkippedGap(t, start);
    }
  }
}
