/** From a value to its text, into the slots of a document, and back to text. */
module DocumentRoundTrips {
  import opened Bytes
  import opened Document
  import opened Filters
  import opened StringBuilders
  import opened Printer
  import opened VariantPools
  import opened Forests
  import opened JsonDocuments
  import opened DocumentPaths
  import opened DocumentHistories
  import opened DocumentDeserializers
  import opened DocumentPrinters
  import J = Json
  import PrinterTheorems

  /** The text of a document, minified or indented, is parsed into slots that hold the
      document, and printed off them it is the minified text: exactly when its nesting
      is within the limit, unless there was no memory. */
  method ParseAndPrint(v: Value, style: Style, limit: nat, maxString: nat, config: Config)
    returns (status: Status, text: bytes)
    requires Plain(v) && Parsable(v, maxString) && Doubles(INITIAL_CAPACITY, maxString) && config.Good()
    ensures status == Fine ==> Nesting(v) <= limit && text == Render(v, Minified, 0)
    ensures status.Failed? ==> status.code == NoMemory || (status.code == TooDeep && Nesting(v) > limit)
  {
    hide Held, JsonDocument.Whole, JsonDocument.Valid, Plain, Parsable, Doubles, Config.Good, Render;
    PrinterTheorems.RoundTrip(v, style, limit, maxString);
    var deserializer := new DocumentDeserializer(Render(v, style, 0), maxString, config);
    status := deserializer.Parse(AllowAll, limit);
    text := [];
    if status.Fine? {
      var serializer := new DocumentSerializer(deserializer.doc);
      HeldAtRoot(deserializer.doc, serializer);
      serializer.Visit(Root, 0);
      text := serializer.formatter.out;
      assert [] + Render(v, Minified, 0) == Render(v, Minified, 0);
    }
  }

  lemma HeldAtRoot(doc: JsonDocument, serializer: DocumentSerializer)
    requires doc.Whole() && serializer.doc == doc
    ensures HasPlace(doc.forest, Root) && serializer.Held(Root) == DocumentHistories.Held(doc)
  {
    hide Forests.Valid;
  }
}
