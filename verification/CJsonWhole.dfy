/** Printing and parsing again, on the buffers and the linked items. */
module CJsonWhole {
  import opened Options
  import opened CJsonText
  import opened CJsonList
  import Parser = CJsonParser
  import Printer = CJsonPrinter
  import RoundTrip = CJsonRoundTrip

  /** What cJSON_Print or cJSON_PrintUnformatted makes of a value, cJSON_Parse makes into a new tree
      exactly when the value is nested at most 1000 deep. The tree stands for the value cut at its
      NULs: for the same value exactly when it holds none. */
  method PrintAndParse<N>(codec: Codec<N>, v: Json<N>, format: bool, requireNul: bool)
    returns (printed: bool, item: Item?<Parser.Content<N>>, ghost sh: Parser.Grown<N>)
    requires Faithful(codec, v)
    ensures |Print(codec, v, format, 0)| + 8 <= Printer.INT_MAX / 2 ==> printed
    ensures printed ==> (item != null <==> Fits(v, 1000))
    ensures printed && item != null ==> fresh(All(sh)) && Parser.Stands(item, sh, Cut(v))
    ensures printed && item != null && NulFree(v) ==> Parser.Stands(item, sh, v)
  {
    hide Print, Printer.Printable, Fits, Cut, NulFree, Parser.Stands, ParseText;
    RoundTrip.FaithfulDef(codec, v);
    RoundTrip.CutIsWhole(v);
    Printer.FaithfulIsPrintable(codec, v);
    RoundTrip.ParsePrinted(codec, v, format, requireNul);
    var node := new Item(Parser.Content(None, Parser.Invalid));
    printed, item, sh := false, null, Shape(node, node.value, {}, []);
    var text := Printer.PrintText(codec, v, format);
    if text.None? { return; }
    printed := true;
    item, sh := Parser.Parse(codec, text.value, requireNul);
  }
}
