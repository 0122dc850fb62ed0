/**
 * What the older JsonUtil promises, proved about LegacySpec: which documents
 * it accepts at all, how an object's members and an array's elements end up
 * in the field, and which record levels a failing visit leaves pushed.
 */
module LegacyProperties {
  import opened Wrappers
  import opened OrderedMap
  import opened Text
  import opened JsonNodes
  import opened LegacySpec

  // ------------------------------------------------------------------
  // Which documents are accepted
  // ------------------------------------------------------------------

  /** No null, no missing value and no empty array is reachable from `j`. */
  predicate Supported(j: Json) {
    match j
    case Object(ms) => forall m :: m in ms ==> Supported(m.1)
    case Array(es) => |es| > 0 && forall e :: e in es ==> Supported(e)
    case Null => false
    case Missing => false
    case _ => true
  }

  /** Classification succeeds exactly on supported documents: any null, missing value or empty array aborts it. */
  lemma {:induction false} ClassifyOkIff(j: Json)
    ensures Classify(j).Ok? <==> Supported(j)
    decreases j, 1
  {
    if j.Object? {
      ObjectOkIff(j);
    } else if j.Array? {
      ArrayOkIff(j);
    }
  }

  lemma {:induction false} ObjectOkIff(j: Json)
    requires j.Object?
    ensures Classify(j).Ok? <==> Supported(j)
    decreases j, 0, |j.members| + 1
  {
    var ms := j.members;
    MembersOkIff(j, |ms|);
    assert Classify(j).Ok? <==> ClassifyMembers(j, |ms|).Ok?;
    if !Supported(j) {
      var m :| m in ms && !Supported(m.1);
      var i :| 0 <= i < |ms| && ms[i] == m;
    }
  }

  lemma {:induction false} ArrayOkIff(j: Json)
    requires j.Array?
    ensures Classify(j).Ok? <==> Supported(j)
    decreases j, 0, |j.elements| + 1
  {
    var es := j.elements;
    ElementsOkIff(j, |es|);
    assert Classify(j).Ok? <==> ClassifyElements(j, |es|).Ok? && |es| > 0;
    if !Supported(j) && |es| > 0 {
      var e :| e in es && !Supported(e);
      var i :| 0 <= i < |es| && es[i] == e;
    }
  }

  lemma {:induction false} MembersOkIff(j: Json, k: nat)
    requires j.Object? && k <= |j.members|
    ensures ClassifyMembers(j, k).Ok? <==> forall i :: 0 <= i < k ==> Supported(j.members[i].1)
    decreases j, 0, k
  {
    if k > 0 {
      MembersOkIff(j, k - 1);
      assert j.members[k - 1] in j.members;
      ClassifyOkIff(j.members[k - 1].1);
      MembersStep(j, k);
    }
  }

  lemma {:induction false} ElementsOkIff(j: Json, k: nat)
    requires j.Array? && k <= |j.elements|
    ensures ClassifyElements(j, k).Ok? <==> forall i :: 0 <= i < k ==> Supported(j.elements[i])
    decreases j, 0, k
  {
    if k > 0 {
      ElementsOkIff(j, k - 1);
      ClassifyOkIff(j.elements[k - 1]);
      ElementsStep(j, k);
    }
  }

  /** inferSchema(String, String) answers exactly for well-formed, supported samples. */
  lemma InferOkIff(s: Sample, name: string)
    ensures InferResult(s, name).Ok? <==> s.Parsed? && Supported(s.doc)
  {
    if s.Parsed? {
      ClassifyOkIff(s.doc);
    }
  }

  /** A null member anywhere in an object rejects the whole document. */
  lemma NullMemberRejects(ms: seq<(string, Json)>, i: nat, name: string)
    requires i < |ms| && ms[i].1 == Null
    ensures InferResult(Parsed(Object(ms)), name).Err?
  {
    var j := Object(ms);
    assert ms[i] in ms;
    InferOkIff(Parsed(j), name);
  }

  // ------------------------------------------------------------------
  // One step of the folds
  // ------------------------------------------------------------------

  lemma MembersStep(j: Json, k: nat)
    requires j.Object? && 0 < k <= |j.members|
    ensures ClassifyMembers(j, k).Ok? <==> ClassifyMembers(j, k - 1).Ok? && Classify(j.members[k - 1].1).Ok?
    ensures ClassifyMembers(j, k - 1).Err? ==> ClassifyMembers(j, k) == ClassifyMembers(j, k - 1)
    ensures ClassifyMembers(j, k - 1).Ok? && Classify(j.members[k - 1].1).Err?
            ==> ClassifyMembers(j, k) == Err(Classify(j.members[k - 1].1).error)
    ensures ClassifyMembers(j, k - 1).Ok? && Classify(j.members[k - 1].1).Ok?
            ==> ClassifyMembers(j, k)
                == Ok(Put(ClassifyMembers(j, k - 1).value, j.members[k - 1].0, Classify(j.members[k - 1].1).value))
  {
  }

  lemma ElementsStep(j: Json, k: nat)
    requires j.Array? && 0 < k <= |j.elements|
    ensures ClassifyElements(j, k).Ok? <==> ClassifyElements(j, k - 1).Ok? && Classify(j.elements[k - 1]).Ok?
    ensures ClassifyElements(j, k - 1).Err? ==> ClassifyElements(j, k) == ClassifyElements(j, k - 1)
    ensures ClassifyElements(j, k - 1).Ok? && Classify(j.elements[k - 1]).Err?
            ==> ClassifyElements(j, k) == Err(Classify(j.elements[k - 1]).error)
    ensures ClassifyElements(j, k - 1).Ok? && Classify(j.elements[k - 1]).Ok?
            ==> ClassifyElements(j, k) == Ok(ClassifyElements(j, k - 1).value + [Classify(j.elements[k - 1]).value])
  {
  }

  // ------------------------------------------------------------------
  // What an accepted object or array becomes
  // ------------------------------------------------------------------

  /**
   * An object with distinct member names becomes a RECORD whose content is
   * one entry per member, in document order, separated by ", ".
   */
  lemma ClassifyObject(ms: seq<(string, Json)>)
    requires Distinct(Keys(ms))
    requires forall i :: 0 <= i < |ms| ==> Classify(ms[i].1).Ok?
    ensures Classify(Object(ms)).Ok?
    ensures Classify(Object(ms)).value
            == Field("RECORD", Join(seq(|ms|, i requires 0 <= i < |ms| => EntryText(ms[i].0, Classify(ms[i].1).value)), ", "))
  {
    var j := Object(ms);
    MembersInOrder(j, |ms|);
    var fs := ClassifyMembers(j, |ms|).value;
    assert EntryTexts(fs) == seq(|ms|, i requires 0 <= i < |ms| => EntryText(ms[i].0, Classify(ms[i].1).value));
  }

  lemma {:induction false} MembersInOrder(j: Json, k: nat)
    requires j.Object? && k <= |j.members| && Distinct(Keys(j.members))
    requires forall i :: 0 <= i < k ==> Classify(j.members[i].1).Ok?
    ensures ClassifyMembers(j, k).Ok?
    ensures var fs := ClassifyMembers(j, k).value;
      && |fs| == k
      && forall i :: 0 <= i < k ==> fs[i] == (j.members[i].0, Classify(j.members[i].1).value)
  {
    if k > 0 {
      MembersInOrder(j, k - 1);
      var fs := ClassifyMembers(j, k - 1).value;
      var key := j.members[k - 1].0;
      NextKeyIsNew(fs, j.members);
      var f := Classify(j.members[k - 1].1).value;
      MembersStep(j, k);
      assert Put(fs, key, f) == fs + [(key, f)];
      forall i | 0 <= i < k - 1 ensures (fs + [(key, f)])[i] == fs[i] {
      }
    }
  }


  /**
   * An array whose elements are accepted takes the type tag of its first
   * element alone, so an array of records keeps no field of the records;
   * an empty array is rejected.
   */
  lemma ClassifyArray(es: seq<Json>)
    requires forall i :: 0 <= i < |es| ==> Classify(es[i]).Ok?
    ensures |es| == 0 ==> Classify(Array(es)) == Err(EmptyArray)
    ensures |es| > 0 ==> Classify(Array(es)) == Ok(Field("ARRAY", Classify(es[0]).value.typ))
  {
    ElementsInOrder(Array(es), |es|);
  }

  lemma {:induction false} ElementsInOrder(j: Json, k: nat)
    requires j.Array? && k <= |j.elements|
    requires forall i :: 0 <= i < k ==> Classify(j.elements[i]).Ok?
    ensures ClassifyElements(j, k).Ok?
    ensures var fs := ClassifyElements(j, k).value;
      && |fs| == k && forall i :: 0 <= i < k ==> fs[i] == Classify(j.elements[i]).value
  {
    if k > 0 {
      ElementsInOrder(j, k - 1);
      ElementsStep(j, k);
    }
  }

  // ------------------------------------------------------------------
  // Record levels (recordLevels)
  // ------------------------------------------------------------------

  /** A successful visit pops every record level it pushed. */
  lemma {:induction false} TrailEmptyOnSuccess(j: Json)
    requires Classify(j).Ok?
    ensures Trail(j) == []
  {
    match j
    case Object(ms) =>
      ClassifyOkIff(j);
      MembersTrailEmpty(j, 0);
    case Array(es) =>
      ClassifyOkIff(j);
      ElementsTrailEmpty(j, 0);
    case _ =>
  }

  lemma {:induction false} MembersTrailEmpty(j: Json, k: nat)
    requires j.Object? && k <= |j.members| && Supported(j)
    ensures MembersTrail(j, k) == []
    decreases |j.members| - k
  {
    if k < |j.members| {
      assert j.members[k] in j.members;
      ClassifyOkIff(j.members[k].1);
      MembersTrailEmpty(j, k + 1);
    }
  }

  lemma {:induction false} ElementsTrailEmpty(j: Json, k: nat)
    requires j.Array? && k <= |j.elements| && Supported(j)
    ensures ElementsTrail(j, k) == []
    decreases |j.elements| - k
  {
    if k < |j.elements| {
      assert j.elements[k] in j.elements;
      ClassifyOkIff(j.elements[k]);
      ElementsTrailEmpty(j, k + 1);
    }
  }

  /**
   * The first member whose visit fails decides the object's error, and the
   * record levels left pushed are that member's own trail under its key.
   */
  lemma MembersFirstFailure(j: Json, k: nat)
    requires j.Object? && k < |j.members|
    requires ClassifyMembers(j, k).Ok? && Classify(j.members[k].1).Err?
    ensures Classify(j) == Err(Classify(j.members[k].1).error)
    ensures Trail(j) == Trail(j.members[k].1) + [j.members[k].0]
  {
    MembersStep(j, k + 1);
    MembersErrStays(j, k + 1, |j.members|);
    assert Classify(j) == Err(Classify(j.members[k].1).error);
    MembersOkPrefix(j, k);
    MembersTrailAt(j, 0, k);
    assert Trail(j) == MembersTrail(j, 0);
  }

  lemma {:induction false} MembersErrStays(j: Json, k: nat, m: nat)
    requires j.Object? && k <= m <= |j.members| && ClassifyMembers(j, k).Err?
    ensures ClassifyMembers(j, m) == ClassifyMembers(j, k)
    decreases m
  {
    if m > k {
      MembersErrStays(j, k, m - 1);
      MembersStep(j, m);
    }
  }

  lemma {:induction false} MembersOkPrefix(j: Json, k: nat)
    requires j.Object? && k <= |j.members| && ClassifyMembers(j, k).Ok?
    ensures forall i :: 0 <= i < k ==> Classify(j.members[i].1).Ok?
  {
    if k > 0 {
      MembersStep(j, k);
      MembersOkPrefix(j, k - 1);
    }
  }

  lemma {:induction false} MembersTrailAt(j: Json, m: nat, k: nat)
    requires j.Object? && m <= k < |j.members|
    requires forall i :: m <= i < k ==> Classify(j.members[i].1).Ok?
    requires Classify(j.members[k].1).Err?
    ensures MembersTrail(j, m) == Trail(j.members[k].1) + [j.members[k].0]
    decreases k - m
  {
    if m < k {
      MembersTrailAt(j, m + 1, k);
    }
  }

  /** The first element whose visit fails decides the array's error and trail. */
  lemma ElementsFirstFailure(j: Json, k: nat)
    requires j.Array? && k < |j.elements|
    requires ClassifyElements(j, k).Ok? && Classify(j.elements[k]).Err?
    ensures Classify(j) == Err(Classify(j.elements[k]).error)
    ensures Trail(j) == Trail(j.elements[k])
  {
    ElementsStep(j, k + 1);
    ElementsErrStays(j, k + 1, |j.elements|);
    assert Classify(j) == Err(Classify(j.elements[k]).error);
    ElementsOkPrefix(j, k);
    ElementsTrailAt(j, 0, k);
    assert Trail(j) == ElementsTrail(j, 0);
  }

  lemma {:induction false} ElementsErrStays(j: Json, k: nat, m: nat)
    requires j.Array? && k <= m <= |j.elements| && ClassifyElements(j, k).Err?
    ensures ClassifyElements(j, m) == ClassifyElements(j, k)
    decreases m
  {
    if m > k {
      ElementsErrStays(j, k, m - 1);
      ElementsStep(j, m);
    }
  }

  lemma {:induction false} ElementsOkPrefix(j: Json, k: nat)
    requires j.Array? && k <= |j.elements| && ClassifyElements(j, k).Ok?
    ensures forall i :: 0 <= i < k ==> Classify(j.elements[i]).Ok?
  {
    if k > 0 {
      ElementsStep(j, k);
      ElementsOkPrefix(j, k - 1);
    }
  }

  lemma {:induction false} ElementsTrailAt(j: Json, m: nat, k: nat)
    requires j.Array? && m <= k < |j.elements|
    requires forall i :: m <= i < k ==> Classify(j.elements[i]).Ok?
    requires Classify(j.elements[k]).Err?
    ensures ElementsTrail(j, m) == Trail(j.elements[k])
    decreases k - m
  {
    if m < k {
      ElementsTrailAt(j, m + 1, k);
    }
  }

  // ------------------------------------------------------------------
  // Worked examples
  // ------------------------------------------------------------------

  /** A one-member object: its content is the member's entry alone. */
  lemma OneMember(k: string, v: Json, f: Field)
    requires Classify(v) == Ok(f)
    ensures Classify(Object([(k, v)])) == Ok(Field("RECORD", EntryText(k, f)))
  {
    ClassifyObject([(k, v)]);
    var texts := seq(1, i requires 0 <= i < 1 => EntryText([(k, v)][i].0, Classify([(k, v)][i].1).value));
    assert texts == [EntryText(k, f)];
  }

  /** A two-member object: the two entries joined by ", ". */
  lemma TwoMembers(k0: string, v0: Json, f0: Field, k1: string, v1: Json, f1: Field)
    requires k0 != k1 && Classify(v0) == Ok(f0) && Classify(v1) == Ok(f1)
    ensures Classify(Object([(k0, v0), (k1, v1)])) == Ok(Field("RECORD", EntryText(k0, f0) + ", " + EntryText(k1, f1)))
  {
    var ms := [(k0, v0), (k1, v1)];
    assert Keys(ms) == [k0, k1];
    ClassifyObject(ms);
    var texts := seq(2, i requires 0 <= i < 2 => EntryText(ms[i].0, Classify(ms[i].1).value));
    assert texts == [EntryText(k0, f0), EntryText(k1, f1)];
    assert texts[..1] == [EntryText(k0, f0)];
  }

  /**
   * An accepted object with distinct member names yields the statement that
   * lists its members' entries in document order, separated by ", ".
   */
  lemma ObjectStatement(ms: seq<(string, Json)>, name: string)
    requires Distinct(Keys(ms))
    requires forall i :: 0 <= i < |ms| ==> Classify(ms[i].1).Ok?
    ensures InferResult(Parsed(Object(ms)), name)
            == Ok("CREATE TABLE " + name + " ("
                  + Join(seq(|ms|, i requires 0 <= i < |ms| => EntryText(ms[i].0, Classify(ms[i].1).value)), ", ")
                  + ");")
  {
    ClassifyObject(ms);
  }

  /** A document classified as a record yields its content inside the statement. */
  lemma Statement(doc: Json, name: string, content: string, text: string)
    requires Classify(doc) == Ok(Field("RECORD", content))
    requires "CREATE TABLE " + name + " (" + content + ");" == text
    ensures InferResult(Parsed(doc), name) == Ok(text)
  {
  }

  /**
   * {"a": 1, "b": {"c": "x"}}: scalar members show their type only, the
   * nested record its own entries in parentheses.
   */
  lemma NestedRecordText()
    ensures InferResult(Parsed(Object([("a", Number("1")), ("b", Object([("c", Str("x"))]))])), "t")
            == Ok("CREATE TABLE t (a NUMBER, b RECORD (c STRING));")
  {
    OneMember("c", Str("x"), Field("STRING", "x"));
    NestedTexts();
    TwoMembers("a", Number("1"), Field("NUMBER", "1"), "b", Object([("c", Str("x"))]), Field("RECORD", "c STRING"));
    Statement(Object([("a", Number("1")), ("b", Object([("c", Str("x"))]))]), "t",
              "a NUMBER, b RECORD (c STRING)", "CREATE TABLE t (a NUMBER, b RECORD (c STRING));");
  }

  lemma NestedTexts()
    ensures EntryText("c", Field("STRING", "x")) == "c STRING"
    ensures EntryText("a", Field("NUMBER", "1")) + ", " + EntryText("b", Field("RECORD", "c STRING"))
            == "a NUMBER, b RECORD (c STRING)"
    ensures "CREATE TABLE " + "t" + " (" + "a NUMBER, b RECORD (c STRING)" + ");"
            == "CREATE TABLE t (a NUMBER, b RECORD (c STRING));"
  {
    NestedEntries();
    NestedStatement();
  }

  lemma NestedEntries()
    ensures EntryText("c", Field("STRING", "x")) == "c STRING"
    ensures EntryText("a", Field("NUMBER", "1")) + ", " + EntryText("b", Field("RECORD", "c STRING"))
            == "a NUMBER, b RECORD (c STRING)"
  {
    EntryC();
    EntryA();
    EntryB();
    NestedContent();
  }

  lemma EntryC() ensures EntryText("c", Field("STRING", "x")) == "c STRING" {}
  lemma EntryA() ensures EntryText("a", Field("NUMBER", "1")) == "a NUMBER" {}
  lemma EntryB() ensures EntryText("b", Field("RECORD", "c STRING")) == "b RECORD (c STRING)" {}
  lemma NestedContent() ensures "a NUMBER" + ", " + "b RECORD (c STRING)" == "a NUMBER, b RECORD (c STRING)" {}

  lemma NestedStatement()
    ensures "CREATE TABLE " + "t" + " (" + "a NUMBER, b RECORD (c STRING)" + ");"
            == "CREATE TABLE t (a NUMBER, b RECORD (c STRING));"
  {
  }

  /**
   * {"xs": [{"a": 1}]}: the array keeps only its first element's type tag,
   * so the record's field disappears from the statement.
   */
  lemma ArrayOfRecordsText()
    ensures InferResult(Parsed(Object([("xs", Array([Object([("a", Number("1"))])]))])), "t")
            == Ok("CREATE TABLE t (xs ARRAY (RECORD));")
  {
    OneMember("a", Number("1"), Field("NUMBER", "1"));
    ClassifyArray([Object([("a", Number("1"))])]);
    OneMember("xs", Array([Object([("a", Number("1"))])]), Field("ARRAY", "RECORD"));
    ArrayTexts();
    Statement(Object([("xs", Array([Object([("a", Number("1"))])]))]), "t",
              "xs ARRAY (RECORD)", "CREATE TABLE t (xs ARRAY (RECORD));");
  }

  lemma ArrayTexts()
    ensures EntryText("xs", Field("ARRAY", "RECORD")) == "xs ARRAY (RECORD)"
    ensures "CREATE TABLE " + "t" + " (" + "xs ARRAY (RECORD)" + ");" == "CREATE TABLE t (xs ARRAY (RECORD));"
  {
  }
}
