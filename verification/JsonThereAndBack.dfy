/** The printer and the parser of json_parse/jsonlibC/cJSON.c, one after the other. */
module JsonThereAndBack {
  import opened JsonText
  import opened JsonParse
  import JsonPrinter
  import JsonParser
  import JsonRoundTrip

  /** Whatever cJSON_Print or cJSON_PrintUnformatted made of a tree, cJSON_ParseWithOpts, with or without
      the demand for an end, makes the tree of it again, unless the tree is nested too deeply for the
      parser. Printing itself fails only for lack of memory or of buffer size. */
  method PrintAndParse(v: Value, fmt: bool, requireNul: bool)
    returns (printed: bool, back: Parsed<Value>, ghost oom: bool)
    requires WellFormed(v)
    ensures !oom ==> (printed <==> |Render(v, fmt, 0)| + 2 <= JsonPrinter.INT_MAX)
    ensures printed ==> (back.Done? <==> Depth(v) <= NESTING_LIMIT)
    ensures printed && back.Done? ==> back.value == v
  {
    hide Render, Depth, Parse;
    var text;
    text, oom := JsonPrinter.Print(v, fmt);
    if text == null {
      return false, Fail, oom;
    }
    JsonRoundTrip.RoundTrip(v, fmt, requireNul);
    back := JsonParser.ParseWithOpts(text[..], requireNul);
    printed := true;
  }

  /** cJSON_Parse, which makes no such demand, undoes cJSON_Print. */
  method ParseOfPrint(v: Value) returns (printed: bool, back: Parsed<Value>, ghost oom: bool)
    requires WellFormed(v)
    ensures !oom ==> (printed <==> |Render(v, true, 0)| + 2 <= JsonPrinter.INT_MAX)
    ensures printed ==> (back.Done? <==> Depth(v) <= NESTING_LIMIT)
    ensures printed && back.Done? ==> back.value == v
  {
    printed, back, oom := PrintAndParse(v, true, false);
  }
}
