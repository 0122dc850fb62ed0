/**
 * The older JsonUtil's visit with JsonSchemaVisitor and its inferSchema
 * overloads, as imperative code proved against LegacySpec: the visitor
 * pushes and pops record levels around each member and fills a
 * LinkedHashMap, and the object handler builds its content with a
 * StringBuilder and a counter.
 */
module LegacyInference {
  import opened Wrappers
  import opened OrderedMap
  import opened Text
  import opened JsonNodes
  import opened LegacySpec
  import opened LegacyProperties

  /** The object handler's buffer after `i` entries: each entry but the last is followed by ", ". */
  function Written(ts: seq<string>, i: nat): string
    requires i <= |ts|
  {
    if i == 0 then "" else Join(ts[..i], ", ") + (if i < |ts| then ", " else "")
  }

  /** JsonSchemaVisitor.object: one entry per field, a separator while `counter` is below the size. */
  method ObjectField(fields: seq<(string, Field)>) returns (f: Field)
    ensures f == RecordField(fields)
  {
    ghost var ts := EntryTexts(fields);
    var content := "";
    var counter := 1;
    var i := 0;
    while i < |fields|
      invariant 0 <= i <= |fields| && counter == i + 1
      invariant content == Written(ts, i)
    {
      var (key, g) := fields[i];
      ghost var before := content;
      content := content + key + " " + g.typ;
      if IsComplex(g) {
        content := content + " (" + g.content + ")";
      }
      assert ts[i] == EntryText(key, g);
      EntryAppended(before, key, g);
      if i > 0 {
        JoinStep(ts, ", ", i);
      }
      if counter < |fields| {
        content := content + ", ";
      }
      counter := counter + 1;
      i := i + 1;
    }
    assert ts[..|fields|] == ts;
    f := Field("RECORD", content);
  }

  /** What one pass of the object handler's loop appends, before any separator, is the field's entry. */
  lemma EntryAppended(before: string, key: string, g: Field)
    ensures IsComplex(g) ==> before + key + " " + g.typ + " (" + g.content + ")" == before + EntryText(key, g)
    ensures !IsComplex(g) ==> before + key + " " + g.typ == before + EntryText(key, g)
  {
  }

  class SchemaVisitor {
    /** The LinkedList recordLevels: the keys of the records being visited, innermost first. */
    var recordLevels: seq<string>

    constructor()
      ensures recordLevels == []
    {
      recordLevels := [];
    }

    /**
     * visit(node, this): the field of `node`, or the error that stopped it;
     * the keys of the members being visited when it stopped stay pushed.
     */
    method Visit(node: Json) returns (r: Result<Field, Error>)
      modifies this
      ensures r == Classify(node)
      ensures recordLevels == Trail(node) + old(recordLevels)
      decreases node, 2
    {
      match node
      case Object(_) =>
        r := VisitObject(node);
      case Array(_) =>
        r := VisitArray(node);
      case Binary(repr) =>
        r := Ok(Field("BINARY", repr));
      case Str(repr) =>
        r := Ok(Field("STRING", repr));
      case Number(repr) =>
        r := Ok(Field("NUMBER", repr));
      case Bool(b) =>
        r := Ok(Field("BOOLEAN", BoolText(b)));
      case Null =>
        r := Err(NullNotSupported);
      case Missing =>
        r := Err(MissingNotSupported);
    }

    /** The OBJECT branch of visit: the members visited in order, then the object handler. */
    method VisitObject(node: Json) returns (r: Result<Field, Error>)
      requires node.Object?
      modifies this
      ensures r == Classify(node)
      ensures recordLevels == Trail(node) + old(recordLevels)
      decreases node, 1
    {
      var fields: seq<(string, Field)> := [];
      var k := 0;
      while k < |node.members|
        invariant 0 <= k <= |node.members|
        invariant recordLevels == old(recordLevels)
        invariant ClassifyMembers(node, k) == Ok(fields)
      {
        var next := VisitMember(node, k, fields);
        if next.Err? {
          MembersFirstFailure(node, k);
          return Err(next.error);
        }
        fields := next.value;
        k := k + 1;
      }
      var f := ObjectField(fields);
      assert Classify(node) == Ok(f);
      TrailEmptyOnSuccess(node);
      r := Ok(f);
    }

    /** One pass of visit's member loop: push the key, visit the value, put the field, pop the key. */
    method VisitMember(node: Json, k: nat, fields: seq<(string, Field)>) returns (r: Result<seq<(string, Field)>, Error>)
      requires node.Object? && k < |node.members| && ClassifyMembers(node, k) == Ok(fields)
      modifies this
      ensures r.Ok? <==> Classify(node.members[k].1).Ok?
      ensures r.Ok? ==> ClassifyMembers(node, k + 1) == r && recordLevels == old(recordLevels)
      ensures r.Err? ==> r.error == Classify(node.members[k].1).error
      ensures r.Err? ==> recordLevels == Trail(node.members[k].1) + [node.members[k].0] + old(recordLevels)
      decreases node, 0
    {
      assert node.members[k] in node.members;
      var key := node.members[k].0;
      recordLevels := [key] + recordLevels;
      var v := Visit(node.members[k].1);
      if v.Err? {
        return Err(v.error);
      }
      TrailEmptyOnSuccess(node.members[k].1);
      MembersStep(node, k + 1);
      r := Ok(Put(fields, key, v.value));
      assert recordLevels == [key] + old(recordLevels);
      recordLevels := recordLevels[1..];
    }

    /** The ARRAY branch of visit: every element visited in order, then the array handler. */
    method VisitArray(node: Json) returns (r: Result<Field, Error>)
      requires node.Array?
      modifies this
      ensures r == Classify(node)
      ensures recordLevels == Trail(node) + old(recordLevels)
      decreases node, 1
    {
      var es := node.elements;
      var elements: seq<Field> := [];
      var k := 0;
      while k < |es|
        invariant 0 <= k <= |es|
        invariant recordLevels == old(recordLevels)
        invariant ClassifyElements(node, k) == Ok(elements)
      {
        var v := Visit(es[k]);
        if v.Err? {
          ElementsFirstFailure(node, k);
          return Err(v.error);
        }
        TrailEmptyOnSuccess(es[k]);
        ElementsStep(node, k + 1);
        elements := elements + [v.value];
        k := k + 1;
      }
      r := ArrayField(elements);
      assert Classify(node) == r;
      if r.Ok? {
        TrailEmptyOnSuccess(node);
      } else {
        assert Trail(node) == ElementsTrail(node, 0);
      }
    }
  }

  /** inferSchema(JsonNode, String): visit with a fresh visitor, then wrap the content in CREATE TABLE. */
  method InferFromTree(doc: Json, tableName: string) returns (r: Result<string, Error>)
    ensures r == TreeResult(doc, tableName)
  {
    var visitor := new SchemaVisitor();
    var tableSchema := visitor.Visit(doc);
    if tableSchema.Err? {
      return Err(tableSchema.error);
    }
    r := Ok("CREATE TABLE " + tableName + " (" + tableSchema.value.content + ");");
  }

  /** inferSchema(String, String): parse the raw text, then infer from the tree. */
  method InferSchema(raw: Sample, tableName: string) returns (r: Result<string, Error>)
    ensures r == InferResult(raw, tableName)
  {
    match raw
    case Malformed =>
      r := Err(MalformedSample);
    case Parsed(doc) =>
      r := InferFromTree(doc, tableName);
  }
}
