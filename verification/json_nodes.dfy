/**
 * The parsed JSON tree handed over by the JSON library: one constructor per
 * node kind (OBJECT, ARRAY, STRING, NUMBER, BOOLEAN, BINARY, NULL, MISSING).
 * Object members keep their document order. A scalar's `repr` is the text
 * the library prints for the node.
 */
module JsonNodes {

  datatype Json =
    | Object(members: seq<(string, Json)>)
    | Array(elements: seq<Json>)
    | Str(repr: string)
    | Number(repr: string)
    | Bool(value: bool)
    | Binary(repr: string)
    | Null
    | Missing

  /** One raw sample after the parser has run on it. */
  datatype Sample = Parsed(doc: Json) | Malformed
}
