/** Serializing a document to a string and parsing that string, as a client does. */
module JsonTransfer {
  import opened JsonValues
  import opened JsonPrinter
  import opened JsonReader
  import opened JsonRoundTrip
  import P = JsonParser

  // Main result for the running code: the document comes back exactly when its root is an array or
  // object, it is nested at most 19 deep and holds no raw control character; else parsing fails.
  method Transfer(v: Json, pretty: bool) returns (r: P.Result)
    requires WellFormed(v)
    ensures r.Parsed? <==> (v.Array? || v.Object?) && Height(v) <= P.MAX_NESTING && Printable(v)
    ensures r.Parsed? ==> r.value == v && r.next == |Printed(v, 0, pretty)|
    ensures !r.Parsed? ==> r == P.Failed
  {
    hide WellFormed, Printed, Height, Printable, P.ParseDocument;
    var buf := SerializeToString(v, pretty);
    var reader := new Reader(buf[..]);
    r := reader.ReadDocument();
    DocumentReadBack(v, pretty, [0]);
  }
}
