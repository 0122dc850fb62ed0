/**
 * The older, single-sample JsonUtil (the class at the top of the
 * repository), stated on values.
 *
 * Its visitor folds a parsed document into one `Field`: a type tag and a
 * content string. Objects become RECORD fields whose content lists the
 * members, arrays take the type tag of their first element, scalars keep
 * their own text, and null or missing values are rejected. `Classify` is
 * visit with that visitor, `Trail` the record levels a failing visit leaves
 * pushed and `InferResult` the public inferSchema(String, String).
 */
module LegacySpec {
  import opened Wrappers
  import opened OrderedMap
  import opened Text
  import opened JsonNodes

  /** JsonUtil.Field: an immutable type tag and content. */
  datatype Field = Field(typ: string, content: string)

  datatype Error =
    | NullNotSupported     // the nullNode handler throws
    | MissingNotSupported  // the missing handler throws
    | EmptyArray           // the array handler reads element 0 of an empty list
    | MalformedSample      // the JSON library rejects the raw text

  /** isComplexField: arrays and records carry their content in parentheses. */
  predicate IsComplex(f: Field) {
    f.typ == "ARRAY" || f.typ == "RECORD"
  }

  /** What the object handler writes for one member. */
  function EntryText(key: string, f: Field): string {
    key + " " + f.typ + (if IsComplex(f) then " (" + f.content + ")" else "")
  }

  /** The entries of `fields`, in map order. */
  function EntryTexts(fields: seq<(string, Field)>): seq<string> {
    seq(|fields|, i requires 0 <= i < |fields| => EntryText(fields[i].0, fields[i].1))
  }

  /** The object handler: the members' entries separated by ", ". */
  function RecordField(fields: seq<(string, Field)>): Field {
    Field("RECORD", Join(EntryTexts(fields), ", "))
  }

  /** The array handler: the type tag of element 0, which an empty array does not have. */
  function ArrayField(elements: seq<Field>): Result<Field, Error> {
    if |elements| == 0 then Err(EmptyArray) else Ok(Field("ARRAY", elements[0].typ))
  }

  function BoolText(b: bool): string {
    if b then "true" else "false"
  }

  // ------------------------------------------------------------------
  // visit with JsonSchemaVisitor
  // ------------------------------------------------------------------

  function Classify(j: Json): Result<Field, Error>
    decreases j, 1
  {
    match j
    case Object(ms) =>
      (match ClassifyMembers(j, |ms|)
       case Err(e) => Err(e)
       case Ok(fields) => Ok(RecordField(fields)))
    case Array(es) =>
      (match ClassifyElements(j, |es|)
       case Err(e) => Err(e)
       case Ok(fs) => ArrayField(fs))
    case Binary(repr) => Ok(Field("BINARY", repr))
    case Str(repr) => Ok(Field("STRING", repr))
    case Number(repr) => Ok(Field("NUMBER", repr))
    case Bool(b) => Ok(Field("BOOLEAN", BoolText(b)))
    case Null => Err(NullNotSupported)
    case Missing => Err(MissingNotSupported)
  }

  /** The LinkedHashMap visit fills from the first `k` members, stopping at the first failure. */
  function ClassifyMembers(j: Json, k: nat): Result<seq<(string, Field)>, Error>
    requires j.Object? && k <= |j.members|
    decreases j, 0, k
  {
    if k == 0 then Ok([])
    else
      match ClassifyMembers(j, k - 1)
      case Err(e) => Err(e)
      case Ok(fields) =>
        assert j.members[k - 1] in j.members;
        match Classify(j.members[k - 1].1)
        case Err(e) => Err(e)
        case Ok(f) => Ok(Put(fields, j.members[k - 1].0, f))
  }

  /** The element list visit fills from the first `k` elements, stopping at the first failure. */
  function ClassifyElements(j: Json, k: nat): Result<seq<Field>, Error>
    requires j.Array? && k <= |j.elements|
    decreases j, 0, k
  {
    if k == 0 then Ok([])
    else
      match ClassifyElements(j, k - 1)
      case Err(e) => Err(e)
      case Ok(fs) =>
        match Classify(j.elements[k - 1])
        case Err(e) => Err(e)
        case Ok(f) => Ok(fs + [f])
  }

  /** The record levels a failing visit leaves pushed, innermost first. */
  function Trail(j: Json): seq<string>
    decreases j, 1
  {
    match j
    case Object(ms) => MembersTrail(j, 0)
    case Array(es) => ElementsTrail(j, 0)
    case _ => []
  }

  function MembersTrail(j: Json, k: nat): seq<string>
    requires j.Object? && k <= |j.members|
    decreases j, 0, |j.members| - k
  {
    if k == |j.members| then []
    else
      assert j.members[k] in j.members;
      if Classify(j.members[k].1).Err? then Trail(j.members[k].1) + [j.members[k].0]
      else MembersTrail(j, k + 1)
  }

  function ElementsTrail(j: Json, k: nat): seq<string>
    requires j.Array? && k <= |j.elements|
    decreases j, 0, |j.elements| - k
  {
    if k == |j.elements| then []
    else if Classify(j.elements[k]).Err? then Trail(j.elements[k])
    else ElementsTrail(j, k + 1)
  }

  // ------------------------------------------------------------------
  // inferSchema
  // ------------------------------------------------------------------

  /** inferSchema(JsonNode, String): the top-level field's content inside a CREATE TABLE statement. */
  function TreeResult(doc: Json, name: string): Result<string, Error> {
    match Classify(doc)
    case Err(e) => Err(e)
    case Ok(f) => Ok("CREATE TABLE " + name + " (" + f.content + ");")
  }

  /** inferSchema(String, String): parse, then the above. */
  function InferResult(s: Sample, name: string): Result<string, Error> {
    match s
    case Malformed => Err(MalformedSample)
    case Parsed(doc) => TreeResult(doc, name)
  }
}
