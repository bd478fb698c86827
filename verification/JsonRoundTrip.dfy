/** The writer and the parser of wsh264/cJSON/cJSON.c one after the other, with the limits of both. */
module JsonRoundTrip {
  import opened Bytes
  import opened Json
  import JsonReader
  import opened JsonWriter

  /**
    cJSON_PrintUnformatted, then cJSON_Parse. The tree comes back exactly when it is nested at most a
    thousand deep, which only the parser minds, and its text leaves two bytes of an `int`, which only the
    writer minds.
   */
  method PrintThenParse(v: Value) returns (printed: bool, parsed: bool, back: Value)
    requires Tidy(v) && CStrings(v)
    ensures printed <==> |Print(v)| + 2 <= INT_MAX
    ensures parsed <==> printed && Depth(v) <= NESTING_LIMIT
    ensures parsed ==> back == v
    ensures printed && parsed && back == v <==> Depth(v) <= NESTING_LIMIT && |Print(v)| + 2 <= INT_MAX
  {
    hide Print, Parse, Tidy, CStrings, Depth;
    parsed, back := false, Null;
    var text;
    printed, text := PrintUnformatted(v);
    if printed {
      PrintParse(v);
      parsed, back := JsonReader.ParseText(text);
    }
  }

  /** Both limits bite: a tree one level too deep is printed and refused, a string as long as an `int` is not printed. */
  lemma {:induction false} BothLimitsBite(v: Value, s: seq<byte>)
    requires Tidy(v) && Depth(v) == NESTING_LIMIT + 1 && |s| == INT_MAX
    ensures Parse(Print(v)) == None
    ensures Depth(Text(s)) == 0 && Parse(Print(Text(s))) == Some(Text(s)) && |Print(Text(s))| + 2 > INT_MAX
  {
    hide ParseValue, SkipWhitespace;
    PrintParse(v);
    PrintParse(Text(s));
    assert Print(Text(s)) == Quoted(s);
  }
}
