/**
 * JsonUtil.visit with JsonSchemaVisitor, and inferSchema(Stream, String).
 *
 * The visitor builds a fresh tree of ModelNode objects for one parsed sample
 * and is proved to build exactly `SchemaSpec.Classify` of it; its record-level
 * stack is proved to end as `SchemaSpec.Trail` says. The driver reads samples
 * one at a time, merging while NULL types remain, and is proved to answer
 * `SchemaSpec.InferResult`.
 */
module NosqlInference {
  import opened Wrappers
  import opened OrderedMap
  import opened Text
  import opened JsonNodes
  import opened SchemaSpec
  import opened SchemaProperties
  import opened ModelNodes

  /**
   * The LinkedHashMap visit collects for an object: distinct names, valid
   * trees inside `pool` owned by nothing else (pairwise disjoint), and `vals`
   * the names with the values their trees hold.
   */
  ghost predicate FieldMap(fields: seq<(string, ModelNode)>, vals: seq<(string, Node)>, pool: set<ModelNode>)
    reads pool
  {
    && Distinct(Keys(fields)) && |fields| == |vals|
    && (forall i :: 0 <= i < |fields| ==>
          && fields[i].1 in pool && fields[i].1.Repr <= pool && fields[i].1.Valid()
          && vals[i] == (fields[i].0, fields[i].1.Value))
    && (forall i, j :: 0 <= i < j < |fields| ==> fields[i].1.Repr !! fields[j].1.Repr)
  }

  /** fields.put(key, v) for a tree `v` disjoint from the ones already collected. */
  method PutField(fields: seq<(string, ModelNode)>, ghost vals: seq<(string, Node)>, ghost pool: set<ModelNode>,
                  key: string, v: ModelNode)
    returns (fields': seq<(string, ModelNode)>, ghost vals': seq<(string, Node)>, ghost pool': set<ModelNode>)
    requires FieldMap(fields, vals, pool) && v.Valid() && v.Repr !! pool
    ensures fields' == Put(fields, key, v) && vals' == Put(vals, key, v.Value) && pool' == pool + v.Repr
    ensures FieldMap(fields', vals', pool')
  {
    assert Keys(fields) == Keys(vals);
    PutDistinct(fields, key, v);
    pool' := pool + v.Repr;
    if key in Keys(fields) {
      var p := IndexOf(Keys(fields), key);
      fields', vals' := fields[p := (key, v)], vals[p := (key, v.Value)];
      assert fields' == Put(fields, key, v);
      forall i, j | 0 <= i < j < |fields'|
        ensures fields'[i].1.Repr !! fields'[j].1.Repr
      {
        if i != p && j != p {
          assert fields'[i] == fields[i] && fields'[j] == fields[j];
        }
      }
    } else {
      fields', vals' := fields + [(key, v)], vals + [(key, v.Value)];
      forall i, j | 0 <= i < j < |fields'|
        ensures fields'[i].1.Repr !! fields'[j].1.Repr
      {
        if j < |fields| {
          assert fields'[i] == fields[i] && fields'[j] == fields[j];
        }
      }
    }
  }

  /** One more member visited successfully: its value is put into the field map. */
  lemma MemberClassified(node: Json, k: nat, vals: seq<(string, Node)>, n: Node)
    requires node.Object? && k < |node.members|
    requires ClassifyMembers(node, k) == Ok(vals) && Classify(node.members[k].1) == Ok(n)
    ensures ClassifyMembers(node, k + 1) == Ok(Put(vals, node.members[k].0, n))
  {
  }

  class SchemaVisitor {
    /** The LinkedList recordLevels: the keys of the records being visited, innermost first. */
    var recordLevels: seq<string>

    constructor()
      ensures recordLevels == []
    {
      recordLevels := [];
    }

    /**
     * visit(node, this): a fresh tree holding the classification of `node`,
     * or the error that stopped it; the keys of the members being visited when
     * it stopped stay pushed on recordLevels.
     */
    method Visit(node: Json) returns (r: Result<ModelNode, Error>)
      modifies this
      ensures r.Ok? <==> Classify(node).Ok?
      ensures r.Ok? ==> r.value.Valid() && fresh(r.value.Repr) && r.value.Value == Classify(node).value
      ensures r.Err? ==> r.error == Classify(node).error
      ensures recordLevels == Trail(node) + old(recordLevels)
      decreases node, 2
    {
      ScalarLeaves();
      match node
      case Object(_) =>
        r := VisitObject(node);
      case Array(_) =>
        r := VisitArray(node);
      case Binary(_) =>
        var m := new ModelNode("BINARY");
        r := Ok(m);
      case Str(_) =>
        var m := new ModelNode("STRING");
        r := Ok(m);
      case Number(_) =>
        var m := new ModelNode("NUMBER");
        r := Ok(m);
      case Bool(_) =>
        var m := new ModelNode("BOOLEAN");
        r := Ok(m);
      case Null =>
        var m := new ModelNode("NULL");
        r := Ok(m);
      case Missing =>
        r := Err(UnsupportedMissing);
    }

    /** The OBJECT branch of visit: the members visited in order, then the object handler. */
    method VisitObject(node: Json) returns (r: Result<ModelNode, Error>)
      requires node.Object?
      modifies this
      ensures r.Ok? <==> Classify(node).Ok?
      ensures r.Ok? ==> r.value.Valid() && fresh(r.value.Repr) && r.value.Value == Classify(node).value
      ensures r.Err? ==> r.error == Classify(node).error
      ensures recordLevels == Trail(node) + old(recordLevels)
      decreases node, 1
    {
      var fields: seq<(string, ModelNode)> := [];
      ghost var vals: seq<(string, Node)> := [];
      ghost var pool: set<ModelNode> := {};
      var k := 0;
      while k < |node.members|
        invariant 0 <= k <= |node.members|
        invariant recordLevels == old(recordLevels)
        invariant ClassifyMembers(node, k) == Ok(vals)
        invariant fresh(pool) && FieldMap(fields, vals, pool)
      {
        var next;
        next, vals, pool := VisitMember(node, k, fields, vals, pool);
        if next.Err? {
          MembersFirstFailure(node, k);
          assert recordLevels == Trail(node) + old(recordLevels);
          return Err(next.error);
        }
        fields := next.value;
        k := k + 1;
      }
      var m := RecordModel(fields, vals, pool);
      assert Classify(node) == Ok(Node("RECORD", vals, false));
      TrailEmptyOnSuccess(node);
      r := Ok(m);
    }

    /**
     * One pass of visit's member loop: push the key, visit the value, put the
     * result into the field map, pop the key. A failing visit leaves its key pushed.
     */
    method VisitMember(node: Json, k: nat, fields: seq<(string, ModelNode)>,
                       ghost vals: seq<(string, Node)>, ghost pool: set<ModelNode>)
      returns (r: Result<seq<(string, ModelNode)>, Error>, ghost vals': seq<(string, Node)>, ghost pool': set<ModelNode>)
      requires node.Object? && k < |node.members|
      requires ClassifyMembers(node, k) == Ok(vals) && FieldMap(fields, vals, pool)
      modifies this
      ensures r.Ok? <==> Classify(node.members[k].1).Ok?
      ensures r.Err? ==> r.error == Classify(node.members[k].1).error
      ensures r.Err? ==> recordLevels == Trail(node.members[k].1) + [node.members[k].0] + old(recordLevels)
      ensures r.Ok? ==> recordLevels == old(recordLevels)
      ensures r.Ok? ==> ClassifyMembers(node, k + 1) == Ok(vals') && FieldMap(r.value, vals', pool')
      ensures r.Ok? ==> fresh(pool' - pool)
      decreases node, 0
    {
      assert node.members[k] in node.members;
      var key := node.members[k].0;
      recordLevels := [key] + recordLevels;
      var v := Visit(node.members[k].1);
      assert FieldMap(fields, vals, pool);
      if v.Err? {
        return Err(v.error), vals, pool;
      }
      TrailEmptyOnSuccess(node.members[k].1);
      assert recordLevels == [key] + old(recordLevels);
      MemberClassified(node, k, vals, v.value.Value);
      var fields';
      fields', vals', pool' := PutField(fields, vals, pool, key, v.value);
      recordLevels := recordLevels[1..];
      assert recordLevels == old(recordLevels);
      r := Ok(fields');
    }

    /** The ARRAY branch of visit: every element visited in order, then the array handler. */
    method VisitArray(node: Json) returns (r: Result<ModelNode, Error>)
      requires node.Array?
      modifies this
      ensures r.Ok? <==> Classify(node).Ok?
      ensures r.Ok? ==> r.value.Valid() && fresh(r.value.Repr) && r.value.Value == Classify(node).value
      ensures r.Err? ==> r.error == Classify(node).error
      ensures recordLevels == Trail(node) + old(recordLevels)
      decreases node, 1
    {
      var es := node.elements;
      var elements: seq<ModelNode> := [];
      ghost var vals: seq<Node> := [];
      var k := 0;
      while k < |es|
        invariant 0 <= k <= |es|
        invariant recordLevels == old(recordLevels)
        invariant ClassifyElements(node, k) == Ok(vals)
        invariant |elements| == |vals|
        invariant forall i :: 0 <= i < |elements| ==> elements[i].Valid() && elements[i].Value == vals[i]
      {
        var v := Visit(es[k]);
        assert forall i :: 0 <= i < |elements| ==> elements[i].Valid() && elements[i].Value == vals[i];
        if v.Err? {
          ElementsFirstFailure(node, k);
          return Err(v.error);
        }
        TrailEmptyOnSuccess(es[k]);
        elements := elements + [v.value];
        vals := vals + [v.value.Value];
        k := k + 1;
      }
      var m := ArrayModel(elements, vals);
      assert Classify(node) == Ok(ArrayLeaf(vals));
      TrailEmptyOnSuccess(node);
      r := Ok(m);
    }

    /** parse then visit: a sample the JSON library rejects fails before the visitor runs. */
    method VisitSample(s: Sample) returns (r: Result<ModelNode, Error>)
      modifies this
      ensures r.Ok? <==> SampleNode(s).Ok?
      ensures r.Ok? ==> r.value.Valid() && fresh(r.value.Repr) && r.value.Value == SampleNode(s).value
      ensures r.Err? ==> r.error == SampleNode(s).error
    {
      match s
      case Malformed =>
        r := Err(MalformedSample);
      case Parsed(doc) =>
        r := Visit(doc);
    }
  }

  /** JsonSchemaVisitor.object: a new RECORD node given every field, in the map's order. */
  method RecordModel(fields: seq<(string, ModelNode)>, ghost vals: seq<(string, Node)>, ghost pool: set<ModelNode>)
    returns (m: ModelNode)
    requires FieldMap(fields, vals, pool)
    ensures m.Valid() && m.Value == Node("RECORD", vals, false)
    ensures fresh(m) && m.Repr <= pool + {m}
  {
    m := new ModelNode("RECORD");
    ScalarLeaves();
    var i := 0;
    while i < |fields|
      invariant 0 <= i <= |fields|
      invariant m.Valid() && fresh(m) && m.Repr <= pool + {m}
      invariant m.Value == Node("RECORD", vals[..i], false)
      invariant forall j :: i <= j < |fields| ==> m.Repr !! fields[j].1.Repr
    {
      assert Keys(fields) == Keys(vals);
      forall j | 0 <= j < i
        ensures Keys(vals[..i])[j] != fields[i].0
      {
        assert Keys(fields)[j] != Keys(fields)[i];
      }
      m.AddChild(fields[i].0, fields[i].1);
      PrefixStep(vals, i);
      i := i + 1;
    }
    assert vals[..|fields|] == vals;
  }

  /** JsonSchemaVisitor.array: typed by the first element's toString(), NULL when there is none. */
  method ArrayModel(elements: seq<ModelNode>, ghost vals: seq<Node>) returns (m: ModelNode)
    requires |elements| == |vals|
    requires forall i :: 0 <= i < |elements| ==> elements[i].Valid() && elements[i].Value == vals[i]
    ensures m.Valid() && fresh(m.Repr) && m.Value == ArrayLeaf(vals)
  {
    if |elements| > 0 {
      var first := elements[0].ToString(0);
      m := new ModelNode("ARRAY(" + first + ")");
    } else {
      m := new ModelNode("NULL");
    }
  }

  /**
   * inferSchema(in, tableName): the first sample seeds the model, renamed to the
   * table; later samples are merged while NULL types remain; running out of
   * samples with NULL types left is an error carrying the model's rendering.
   */
  method InferSchema(samples: seq<Sample>, tableName: string) returns (r: Result<string, Error>)
    ensures r == InferResult(samples, tableName)
  {
    var model: ModelNode? := null;
    var visitor := new SchemaVisitor();
    var pos := 0;
    if pos < |samples| {
      var first := visitor.VisitSample(samples[pos]);
      pos := pos + 1;
      if first.Err? {
        return Err(first.error);
      }
      model := first.value;
      model.SetTableName(tableName);
      var merged := MergeSamples(visitor, model, samples, pos);
      if merged.Err? {
        return Err(merged.error);
      }
      pos := merged.value;
    }
    if pos == |samples| && model != null {
      var unresolved := model.HasNullTypes();
      if unresolved {
        var diagnostic := model.ToString(1);
        return Err(InsufficientSamples(diagnostic));
      }
    }
    if model != null {
      var text := model.ToString(1);
      r := Ok(text);
    } else {
      r := Ok("");
    }
  }

  /**
   * The while loop of inferSchema: later samples are visited and merged into
   * the model while samples remain and the model still has NULL types. The
   * result is the position the sample iterator stopped at.
   */
  method MergeSamples(visitor: SchemaVisitor, model: ModelNode, samples: seq<Sample>, start: nat)
    returns (r: Result<nat, Error>)
    requires 1 <= start <= |samples| && model.Valid()
    modifies visitor, model.Repr
    ensures r.Ok? ==> model.Valid() && fresh(model.Repr - old(model.Repr))
    ensures Resolve(old(model.Value), samples, start) == if r.Err? then Err(r.error) else Ok((model.Value, r.value))
  {
    var pos := start;
    var unresolved := model.HasNullTypes();
    while pos < |samples| && unresolved
      invariant start <= pos <= |samples|
      invariant model.Valid() && fresh(model.Repr - old(model.Repr))
      invariant unresolved == HasNull(model.Value)
      invariant Resolve(model.Value, samples, pos) == Resolve(old(model.Value), samples, start)
      decreases |samples| - pos
    {
      var next := visitor.VisitSample(samples[pos]);
      pos := pos + 1;
      if next.Err? {
        return Err(next.error);
      }
      model.MergeTypes(next.value);
      unresolved := model.HasNullTypes();
    }
    return Ok(pos);
  }
}
