/**
 * What avt.nosql.JsonUtil promises, proved about the value-level model in
 * SchemaSpec: how each JSON kind is classified, what hasNullTypes detects,
 * what mergeTypes keeps, appends and never resolves, how a record renders,
 * and how many samples inferSchema reads before it answers.
 */
module SchemaProperties {
  import opened Wrappers
  import opened OrderedMap
  import opened Text
  import opened JsonNodes
  import opened SchemaSpec

  // ------------------------------------------------------------------
  // Classification
  // ------------------------------------------------------------------

  /** Some MISSING node is reachable from `j`. */
  predicate HasMissing(j: Json)
    decreases j, 1
  {
    match j
    case Missing => true
    case Object(ms) => exists i: nat :: i < |ms| && MemberHasMissing(j, i)
    case Array(es) => exists i :: 0 <= i < |es| && HasMissing(es[i])
    case _ => false
  }

  predicate MemberHasMissing(j: Json, i: nat)
    requires j.Object? && i < |j.members|
    decreases j, 0
  {
    assert j.members[i] in j.members;
    HasMissing(j.members[i].1)
  }

  /** Classification fails exactly when a MISSING node is reachable; nothing else is rejected. */
  lemma {:induction false} ClassifyOkIff(j: Json)
    ensures Classify(j).Ok? <==> !HasMissing(j)
    decreases j, 1
  {
    if j.Object? {
      ObjectOkIff(j);
    } else if j.Array? {
      ArrayOkIff(j);
    }
  }

  lemma {:induction false} ObjectOkIff(j: Json)
    requires j.Object?
    ensures Classify(j).Ok? <==> !HasMissing(j)
    decreases j, 0, |j.members| + 1
  {
    var ms := j.members;
    MembersOkIff(j, |ms|);
    assert ClassifyMembers(j, |ms|).Ok? <==> forall i: nat :: i < |ms| ==> !MemberHasMissing(j, i);
    assert Classify(j).Ok? <==> ClassifyMembers(j, |ms|).Ok?;
    if HasMissing(j) {
      assert HasMissing(j);
      var i: nat :| i < |ms| && MemberHasMissing(j, i);
      assert !(forall i: nat :: i < |ms| ==> !MemberHasMissing(j, i));
      assert !ClassifyMembers(j, |ms|).Ok?;
    }
  }

  lemma {:induction false} ArrayOkIff(j: Json)
    requires j.Array?
    ensures Classify(j).Ok? <==> !HasMissing(j)
    decreases j, 0, |j.elements| + 1
  {
    var es := j.elements;
    ElementsOkIff(j, |es|);
    assert Classify(j).Ok? <==> ClassifyElements(j, |es|).Ok?;
    if HasMissing(j) {
      assert HasMissing(j);
      var i :| 0 <= i < |es| && HasMissing(es[i]);
      assert !(forall i :: 0 <= i < |es| ==> !HasMissing(es[i]));
    }
  }

  lemma {:induction false} MembersOkIff(j: Json, k: nat)
    requires j.Object? && k <= |j.members|
    ensures ClassifyMembers(j, k).Ok? <==> forall i: nat :: i < k ==> !MemberHasMissing(j, i)
    decreases j, 0, k
  {
    if k > 0 {
      MembersOkIff(j, k - 1);
      var m := j.members[k - 1];
      assert m in j.members;
      ClassifyOkIff(m.1);
      assert MemberHasMissing(j, k - 1) == HasMissing(m.1);
      MembersStep(j, k);
      if ClassifyMembers(j, k).Ok? {
        forall i: nat | i < k ensures !MemberHasMissing(j, i) {
          if i < k - 1 {
            assert !MemberHasMissing(j, i);
          }
        }
      }
    }
  }

  /** One step of the member fold succeeds exactly when the fold so far and the new member do. */
  lemma MembersStep(j: Json, k: nat)
    requires j.Object? && 0 < k <= |j.members|
    ensures ClassifyMembers(j, k).Ok? <==> ClassifyMembers(j, k - 1).Ok? && Classify(j.members[k - 1].1).Ok?
    ensures ClassifyMembers(j, k - 1).Err? ==> ClassifyMembers(j, k) == ClassifyMembers(j, k - 1)
    ensures ClassifyMembers(j, k - 1).Ok? && Classify(j.members[k - 1].1).Err?
            ==> ClassifyMembers(j, k) == Err(Classify(j.members[k - 1].1).error)
    ensures ClassifyMembers(j, k - 1).Ok? && Classify(j.members[k - 1].1).Ok?
            ==> ClassifyMembers(j, k)
                == Ok(Put(ClassifyMembers(j, k - 1).value, j.members[k - 1].0, Classify(j.members[k - 1].1).value))
  {
  }

  lemma {:induction false} ElementsOkIff(j: Json, k: nat)
    requires j.Array? && k <= |j.elements|
    ensures ClassifyElements(j, k).Ok? <==> forall i :: 0 <= i < k ==> !HasMissing(j.elements[i])
    decreases j, 0, k
  {
    if k > 0 {
      ElementsOkIff(j, k - 1);
      ClassifyOkIff(j.elements[k - 1]);
    }
  }

  /**
   * An object with distinct member names classifies to a RECORD node whose
   * children are its members, classified, in document order.
   */
  lemma ClassifyObject(ms: seq<(string, Json)>)
    requires Distinct(Keys(ms))
    requires forall i :: 0 <= i < |ms| ==> Classify(ms[i].1).Ok?
    ensures Classify(Object(ms)).Ok?
    ensures var n := Classify(Object(ms)).value;
      && n.typ == "RECORD" && !n.isRoot && |n.children| == |ms|
      && forall i :: 0 <= i < |ms| ==> n.children[i] == (ms[i].0, Classify(ms[i].1).value)
  {
    MembersInOrder(Object(ms), |ms|);
  }

  lemma {:induction false} MembersInOrder(j: Json, k: nat)
    requires j.Object? && k <= |j.members| && Distinct(Keys(j.members))
    requires forall i :: 0 <= i < k ==> Classify(j.members[i].1).Ok?
    ensures ClassifyMembers(j, k).Ok?
    ensures var fs := ClassifyMembers(j, k).value;
      && |fs| == k
      && forall i :: 0 <= i < k ==> fs[i] == (j.members[i].0, Classify(j.members[i].1).value)
  {
    if k > 0 {
      MembersInOrder(j, k - 1);
      var fs := ClassifyMembers(j, k - 1).value;
      var key := j.members[k - 1].0;
      NextKeyIsNew(fs, j.members);
      assert j.members[k - 1] in j.members;
      var n := Classify(j.members[k - 1].1).value;
      MembersStep(j, k);
      assert Put(fs, key, n) == fs + [(key, n)];
      forall i | 0 <= i < k - 1 ensures (fs + [(key, n)])[i] == fs[i] {
      }
    }
  }


  /** A non-empty array is typed by the upper-cased rendering of its first element only. */
  lemma ClassifyArray(es: seq<Json>)
    requires forall i :: 0 <= i < |es| ==> Classify(es[i]).Ok?
    ensures Classify(Array(es)).Ok?
    ensures |es| == 0 ==> Classify(Array(es)).value == Node("NULL", [], false)
    ensures |es| > 0 ==> Classify(Array(es)).value
                         == Node(Upper("ARRAY(" + Render(Classify(es[0]).value, 0) + ")"), [], false)
  {
    ElementsInOrder(Array(es), |es|);
  }

  lemma {:induction false} ElementsInOrder(j: Json, k: nat)
    requires j.Array? && k <= |j.elements|
    requires forall i :: 0 <= i < k ==> Classify(j.elements[i]).Ok?
    ensures ClassifyElements(j, k).Ok?
    ensures var ns := ClassifyElements(j, k).value;
      && |ns| == k && forall i :: 0 <= i < k ==> ns[i] == Classify(j.elements[i]).value
  {
    if k > 0 {
      ElementsInOrder(j, k - 1);
    }
  }

  /** Elements after the first never influence an array's type (when they classify at all). */
  lemma ArrayIgnoresLaterElements(es: seq<Json>, es': seq<Json>)
    requires |es| > 0 && |es'| > 0 && es[0] == es'[0]
    requires forall i :: 0 <= i < |es| ==> Classify(es[i]).Ok?
    requires forall i :: 0 <= i < |es'| ==> Classify(es'[i]).Ok?
    ensures Classify(Array(es)) == Classify(Array(es'))
  {
    ClassifyArray(es);
    ClassifyArray(es');
  }

  /** A successful visit pops every record level it pushed. */
  lemma {:induction false} TrailEmptyOnSuccess(j: Json)
    requires Classify(j).Ok?
    ensures Trail(j) == []
  {
    match j
    case Object(ms) =>
      ClassifyOkIff(j);
      forall k | 0 <= k <= |ms| ensures MembersTrail(j, k) == [] {
        MembersTrailEmpty(j, k);
      }
    case Array(es) =>
      ClassifyOkIff(j);
      forall k | 0 <= k <= |es| ensures ElementsTrail(j, k) == [] {
        ElementsTrailEmpty(j, k);
      }
    case _ =>
  }

  lemma {:induction false} MembersTrailEmpty(j: Json, k: nat)
    requires j.Object? && k <= |j.members| && !HasMissing(j)
    ensures MembersTrail(j, k) == []
    decreases |j.members| - k
  {
    if k < |j.members| {
      assert !MemberHasMissing(j, k);
      ClassifyOkIff(j.members[k].1);
      MembersTrailEmpty(j, k + 1);
    }
  }

  lemma {:induction false} ElementsTrailEmpty(j: Json, k: nat)
    requires j.Array? && k <= |j.elements| && !HasMissing(j)
    ensures ElementsTrail(j, k) == []
    decreases |j.elements| - k
  {
    if k < |j.elements| {
      assert !HasMissing(j.elements[k]);
      ClassifyOkIff(j.elements[k]);
      ElementsTrailEmpty(j, k + 1);
    }
  }

  /**
   * The first member whose visit fails decides the object's error, and the
   * record levels left pushed are that member's own trail under its key.
   */
  lemma MembersFirstFailure(j: Json, k: nat)
    requires j.Object? && k < |j.members|
    requires ClassifyMembers(j, k).Ok? && Classify(j.members[k].1).Err?
    ensures Classify(j) == Err(Classify(j.members[k].1).error)
    ensures Trail(j) == Trail(j.members[k].1) + [j.members[k].0]
  {
    MembersStep(j, k + 1);
    MembersErrStays(j, k + 1, |j.members|);
    assert Classify(j) == Err(Classify(j.members[k].1).error);
    MembersOkPrefix(j, k);
    MembersTrailAt(j, 0, k);
    assert Trail(j) == MembersTrail(j, 0);
  }

  lemma {:induction false} MembersErrStays(j: Json, k: nat, m: nat)
    requires j.Object? && k <= m <= |j.members| && ClassifyMembers(j, k).Err?
    ensures ClassifyMembers(j, m) == ClassifyMembers(j, k)
    decreases m
  {
    if m > k {
      MembersErrStays(j, k, m - 1);
      MembersStep(j, m);
    }
  }

  lemma {:induction false} MembersOkPrefix(j: Json, k: nat)
    requires j.Object? && k <= |j.members| && ClassifyMembers(j, k).Ok?
    ensures forall i :: 0 <= i < k ==> Classify(j.members[i].1).Ok?
  {
    if k > 0 {
      MembersStep(j, k);
      MembersOkPrefix(j, k - 1);
    }
  }

  lemma {:induction false} MembersTrailAt(j: Json, m: nat, k: nat)
    requires j.Object? && m <= k < |j.members|
    requires forall i :: m <= i < k ==> Classify(j.members[i].1).Ok?
    requires Classify(j.members[k].1).Err?
    ensures MembersTrail(j, m) == Trail(j.members[k].1) + [j.members[k].0]
    decreases k - m
  {
    if m < k {
      MembersTrailAt(j, m + 1, k);
    }
  }

  /** The first element whose visit fails decides the array's error and trail. */
  lemma ElementsFirstFailure(j: Json, k: nat)
    requires j.Array? && k < |j.elements|
    requires ClassifyElements(j, k).Ok? && Classify(j.elements[k]).Err?
    ensures Classify(j) == Err(Classify(j.elements[k]).error)
    ensures Trail(j) == Trail(j.elements[k])
  {
    ElementsErrStays(j, k + 1, |j.elements|);
    ElementsOkPrefix(j, k);
    ElementsTrailAt(j, 0, k);
  }

  lemma {:induction false} ElementsErrStays(j: Json, k: nat, m: nat)
    requires j.Array? && k <= m <= |j.elements| && ClassifyElements(j, k).Err?
    ensures ClassifyElements(j, m) == ClassifyElements(j, k)
    decreases m
  {
    if m > k {
      ElementsErrStays(j, k, m - 1);
    }
  }

  lemma {:induction false} ElementsOkPrefix(j: Json, k: nat)
    requires j.Array? && k <= |j.elements| && ClassifyElements(j, k).Ok?
    ensures forall i :: 0 <= i < k ==> Classify(j.elements[i]).Ok?
  {
    if k > 0 {
      ElementsOkPrefix(j, k - 1);
    }
  }

  lemma {:induction false} ElementsTrailAt(j: Json, m: nat, k: nat)
    requires j.Array? && m <= k < |j.elements|
    requires forall i :: m <= i < k ==> Classify(j.elements[i]).Ok?
    requires Classify(j.elements[k]).Err?
    ensures ElementsTrail(j, m) == Trail(j.elements[k])
    decreases k - m
  {
    if m < k {
      ElementsTrailAt(j, m + 1, k);
    }
  }

  // ------------------------------------------------------------------
  // Unresolved types
  // ------------------------------------------------------------------

  /** The node reached from `n` by following child positions `path`. */
  function Descendant(n: Node, path: seq<nat>): Option<Node>
    decreases |path|
  {
    if path == [] then Some(n)
    else if path[0] < |n.children| then Descendant(n.children[path[0]].1, path[1..])
    else None
  }

  predicate NullAt(n: Node, path: seq<nat>) {
    Descendant(n, path).Some? && Descendant(n, path).value.typ == "NULL"
  }

  /** hasNullTypes holds exactly when the node or a node reached through children is typed NULL. */
  lemma HasNullIffNullAt(n: Node)
    ensures HasNull(n) <==> exists path :: NullAt(n, path)
  {
    if HasNull(n) {
      var path := NullPath(n);
      assert NullAt(n, path);
    }
    forall path | NullAt(n, path) ensures HasNull(n) {
      NullAtHasNull(n, path);
    }
  }

  lemma {:induction false} NullPath(n: Node) returns (path: seq<nat>)
    requires HasNull(n)
    ensures NullAt(n, path)
    decreases n
  {
    if n.typ == "NULL" {
      path := [];
    } else {
      assert HasNullBelow(n);
      var i :| 0 <= i < |n.children| && ChildHasNull(n, i);
      assert n.children[i] in n.children;
      var rest := NullPath(n.children[i].1);
      path := [i] + rest;
      assert path[1..] == rest;
    }
  }

  lemma {:induction false} NullAtHasNull(n: Node, path: seq<nat>)
    requires NullAt(n, path)
    ensures HasNull(n)
    decreases |path|
  {
    if path != [] {
      var i := path[0];
      NullAtHasNull(n.children[i].1, path[1..]);
      assert ChildHasNull(n, i);
    }
  }

  /** A NULL spelled inside an ARRAY(...) type string is not an unresolved type. */
  lemma ArrayOfNullNotDetected()
    ensures Classify(Array([Array([])])) == Ok(Node("ARRAY(NULL)", [], false))
    ensures !HasNull(Node("ARRAY(NULL)", [], false))
  {
    ClassifyArray([]);
    assert Classify(Array([])) == Ok(Node("NULL", [], false));
    ClassifyArray([Array([])]);
    assert Render(Node("NULL", [], false), 0) == "NULL";
    assert "ARRAY(" + "NULL" + ")" == "ARRAY(NULL)";
    UpperFixes("ARRAY(NULL)");
    var a := Node("ARRAY(NULL)", [], false);
    assert !HasNullBelow(a);
  }

  // ------------------------------------------------------------------
  // Merging
  // ------------------------------------------------------------------

  /** Reference: the incoming fields that are absent from `acc` and not NULL, in incoming order. */
  function NewFields(acc: seq<(string, Node)>, inc: seq<(string, Node)>): seq<(string, Node)>
    decreases |inc|
  {
    if inc == [] then []
    else
      var last := inc[|inc| - 1];
      NewFields(acc, inc[..|inc| - 1]) + (if last.0 !in Keys(acc) && last.1.typ != "NULL" then [last] else [])
  }

  lemma {:induction false} NewFieldsFrom(acc: seq<(string, Node)>, inc: seq<(string, Node)>)
    ensures forall x :: x in Keys(NewFields(acc, inc)) ==> x in Keys(inc)
    ensures forall x :: x in Keys(NewFields(acc, inc)) ==> x !in Keys(acc)
    decreases |inc|
  {
    if inc != [] {
      var init := inc[..|inc| - 1];
      NewFieldsFrom(acc, init);
      forall x | x in Keys(init) ensures x in Keys(inc) {
        var i :| 0 <= i < |init| && Keys(init)[i] == x;
        assert Keys(inc)[i] == x;
      }
      assert Keys(inc)[|inc| - 1] == inc[|inc| - 1].0;
      var extra := if inc[|inc| - 1].0 !in Keys(acc) && inc[|inc| - 1].1.typ != "NULL" then [inc[|inc| - 1]] else [];
      KeysConcat(NewFields(acc, init), extra);
    }
  }

  lemma KeysConcat<K, V>(a: seq<(K, V)>, b: seq<(K, V)>)
    ensures Keys(a + b) == Keys(a) + Keys(b)
  {
  }

  /**
   * On incoming children with distinct names, the second loop of mergeTypes
   * appends exactly the absent, non-NULL incoming children, in incoming order.
   */
  lemma {:induction false} AddMissingAppends(acc: seq<(string, Node)>, inc: seq<(string, Node)>)
    requires Distinct(Keys(inc))
    ensures AddMissing(acc, inc) == acc + NewFields(acc, inc)
    decreases |inc|
  {
    if inc != [] {
      var init := inc[..|inc| - 1];
      var (name, child) := inc[|inc| - 1];
      assert Keys(init) == Keys(inc)[..|inc| - 1];
      AddMissingAppends(acc, init);
      NewFieldsFrom(acc, init);
      assert name !in Keys(init) by {
        forall i | 0 <= i < |init| ensures Keys(init)[i] != name {
          assert Keys(inc)[i] != Keys(inc)[|inc| - 1];
        }
      }
      KeysConcat(acc, NewFields(acc, init));
    }
  }

  /** Whatever the incoming children, the accumulated children stay a prefix. */
  lemma {:induction false} AddMissingKeepsPrefix(acc: seq<(string, Node)>, inc: seq<(string, Node)>)
    ensures |AddMissing(acc, inc)| >= |acc|
    ensures AddMissing(acc, inc)[..|acc|] == acc
    decreases |inc|
  {
    if inc != [] {
      AddMissingKeepsPrefix(acc, inc[..|inc| - 1]);
    }
  }

  lemma {:induction false} MergedChildrenAt(acc: Node, inc: Node, k: nat)
    requires k <= |acc.children|
    ensures |MergedChildren(acc, inc, k)| == k
    ensures forall i :: 0 <= i < k ==> MergedChildren(acc, inc, k)[i] == MergedChild(acc.children[i], inc)
  {
    if k > 0 {
      MergedChildrenAt(acc, inc, k - 1);
    }
  }

  /**
   * mergeTypes(null) changes nothing. Otherwise: the node's own type changes
   * only from NULL to the (upper-cased) non-NULL incoming type; every existing
   * child keeps its name and position; a RECORD child is merged with the
   * same-named incoming child and every other child (NULL included) is left as
   * it was; nothing is removed; and the children after the old ones are the
   * absent, non-NULL incoming children in incoming order.
   */
  lemma MergeShape(acc: Node, inc: Option<Node>)
    ensures inc.None? ==> Merge(acc, inc) == acc
    ensures var r := Merge(acc, inc);
      && r.isRoot == acc.isRoot
      && (r.typ != acc.typ ==> acc.typ == "NULL" && inc.Some? && inc.value.typ != "NULL")
      && (acc.typ == "NULL" && inc.Some? && inc.value.typ != "NULL" ==> r.typ == Upper(inc.value.typ))
      && |r.children| >= |acc.children|
      && (forall i :: 0 <= i < |acc.children| ==> r.children[i].0 == acc.children[i].0)
      && (forall i :: 0 <= i < |acc.children| && acc.children[i].1.typ != "RECORD" ==>
            r.children[i] == acc.children[i])
      && (forall i :: 0 <= i < |acc.children| && acc.children[i].1.typ == "RECORD" && inc.Some? ==>
            r.children[i].1 == Merge(acc.children[i].1, Get(inc.value.children, acc.children[i].0)))
    ensures inc.Some? && Distinct(Keys(inc.value.children)) ==>
      Merge(acc, inc).children[|acc.children|..] == NewFields(acc.children, inc.value.children)
  {
    if inc.Some? {
      var n := inc.value;
      var mc := MergedChildren(acc, n, |acc.children|);
      MergedChildrenAt(acc, n, |acc.children|);
      AddMissingKeepsPrefix(mc, n.children);
      assert Merge(acc, inc).children[..|acc.children|] == mc;
      assert Keys(mc) == Keys(acc.children);
      if Distinct(Keys(n.children)) {
        AddMissingAppends(mc, n.children);
        NewFieldsSameKeys(acc.children, mc, n.children);
      }
    }
  }

  lemma {:induction false} NewFieldsSameKeys(a: seq<(string, Node)>, b: seq<(string, Node)>, inc: seq<(string, Node)>)
    requires Keys(a) == Keys(b)
    ensures NewFields(a, inc) == NewFields(b, inc)
    decreases |inc|
  {
    if inc != [] {
      NewFieldsSameKeys(a, b, inc[..|inc| - 1]);
    }
  }

  /** No name is ever removed by a merge: the old names are a prefix of the new ones. */
  lemma MergeKeepsNames(acc: Node, inc: Option<Node>)
    ensures Keys(acc.children) <= Keys(Merge(acc, inc).children)
  {
    MergeShape(acc, inc);
  }

  /**
   * A NULL below a node is never resolved: mergeTypes descends only into
   * RECORD children and widens only the node it was called on.
   */
  lemma {:induction false} NullBelowPersists(acc: Node, inc: Option<Node>)
    requires HasNullBelow(acc)
    ensures HasNullBelow(Merge(acc, inc))
    decreases acc
  {
    if inc.Some? {
      var n := inc.value;
      var i :| 0 <= i < |acc.children| && ChildHasNull(acc, i);
      var r := Merge(acc, inc);
      var c := acc.children[i].1;
      assert acc.children[i] in acc.children;
      MergeShape(acc, inc);
      if c.typ == "RECORD" {
        assert HasNull(c);
        NullBelowPersists(c, Get(n.children, acc.children[i].0));
      }
      assert ChildHasNull(r, i);
    }
  }

  // ------------------------------------------------------------------
  // Rendering
  // ------------------------------------------------------------------

  /** One child entry as it appears between the parentheses, without its separator. */
  function EntryText(n: Node, i: nat, tabs: int): string
    requires i < |n.children|
  {
    Indent(tabs) + n.children[i].0 + " " + Render(n.children[i].1, ChildTabs(tabs))
  }

  function EntryTexts(n: Node, tabs: int): (ts: seq<string>)
    ensures |ts| == |n.children|
  {
    seq(|n.children|, i requires 0 <= i < |n.children| => EntryText(n, i, tabs))
  }

  /**
   * A RECORD or root node renders as its type, then its children's entries in
   * order between parentheses, separated by commas with no trailing comma; a
   * childless one renders as its type followed by " )". Any other node renders
   * as its type string.
   */
  lemma RenderShape(n: Node, tabs: int)
    ensures !(n.typ == "RECORD" || n.isRoot) ==> Render(n, tabs) == n.typ
    ensures (n.typ == "RECORD" || n.isRoot) && |n.children| == 0 ==> Render(n, tabs) == n.typ + " )"
    ensures (n.typ == "RECORD" || n.isRoot) && |n.children| > 0 ==>
      Render(n, tabs) == n.typ + " (" + Join(EntryTexts(n, tabs), ",") + ")"
  {
    if (n.typ == "RECORD" || n.isRoot) && |n.children| > 0 {
      var k := |n.children|;
      EntriesJoin(n, k, tabs);
      var s := n.typ + " (" + RenderEntries(n, k, tabs);
      assert RenderEntries(n, k, tabs) == Join(EntryTexts(n, tabs)[..k], ",") + ",";
      assert EntryTexts(n, tabs)[..k] == EntryTexts(n, tabs);
      assert s[..|s| - 1] == n.typ + " (" + Join(EntryTexts(n, tabs), ",");
    }
  }

  lemma {:induction false} EntriesJoin(n: Node, k: nat, tabs: int)
    requires 0 < k <= |n.children|
    ensures RenderEntries(n, k, tabs) == Join(EntryTexts(n, tabs)[..k], ",") + ","
  {
    var ts := EntryTexts(n, tabs);
    if k > 1 {
      EntriesJoin(n, k - 1, tabs);
      assert ts[..k][..k - 1] == ts[..k - 1];
    }
  }

  /** A record or root with a single child renders as that one entry, without a trailing comma. */
  lemma RenderOneField(n: Node, tabs: int)
    requires (n.typ == "RECORD" || n.isRoot) && |n.children| == 1
    ensures Render(n, tabs) == n.typ + " (" + EntryText(n, 0, tabs) + ")"
  {
    RenderShape(n, tabs);
    assert EntryTexts(n, tabs) == [EntryText(n, 0, tabs)];
  }

  /** A record or root with two children renders as the two entries separated by a comma. */
  lemma RenderTwoFields(n: Node, tabs: int)
    requires (n.typ == "RECORD" || n.isRoot) && |n.children| == 2
    ensures Render(n, tabs) == n.typ + " (" + EntryText(n, 0, tabs) + "," + EntryText(n, 1, tabs) + ")"
  {
    RenderShape(n, tabs);
    assert EntryTexts(n, tabs) == [EntryText(n, 0, tabs), EntryText(n, 1, tabs)];
  }

  // ------------------------------------------------------------------
  // The driver
  // ------------------------------------------------------------------

  /** The loop stops at the end of the samples or as soon as no NULL type remains. */
  lemma {:induction false} ResolveStops(model: Node, samples: seq<Sample>, i: nat)
    requires i <= |samples|
    requires Resolve(model, samples, i).Ok?
    ensures var (m, k) := Resolve(model, samples, i).value;
      i <= k <= |samples| && (k == |samples| || !HasNull(m))
    decreases |samples| - i
  {
    if i < |samples| && HasNull(model) {
      ResolveStops(Merge(model, Some(SampleNode(samples[i]).value)), samples, i + 1);
    }
  }

  /** inferSchema fails with InsufficientSamples exactly when NULL types remain after the loop. */
  lemma FailsIffNullRemains(samples: seq<Sample>, name: string, seed: Node)
    requires |samples| > 0 && SampleNode(samples[0]) == Ok(seed)
    requires Resolve(Root(seed, name), samples, 1).Ok?
    ensures var m := Resolve(Root(seed, name), samples, 1).value.0;
      InferResult(samples, name) ==
        if HasNull(m) then Err(InsufficientSamples(Render(m, 1))) else Ok(Render(m, 1))
  {
    ResolveStops(Root(seed, name), samples, 1);
  }

  /** Samples after the point where the schema was resolved are never read. */
  lemma {:induction false} UnreadSamplesIgnored(model: Node, samples: seq<Sample>, i: nat, rest: seq<Sample>)
    requires i <= |samples| && Resolve(model, samples, i).Ok?
    requires !HasNull(Resolve(model, samples, i).value.0)
    ensures var k := Resolve(model, samples, i).value.1;
      i <= k <= |samples| && Resolve(model, samples[..k] + rest, i) == Resolve(model, samples, i)
    decreases |samples| - i
  {
    ResolveStops(model, samples, i);
    var k := Resolve(model, samples, i).value.1;
    var s' := samples[..k] + rest;
    if i < |samples| && HasNull(model) {
      UnreadSamplesIgnored(Merge(model, Some(SampleNode(samples[i]).value)), samples, i + 1, rest);
      assert s'[i] == samples[i];
    }
  }

  lemma RootNullIsBelow(seed: Node, name: string)
    ensures HasNull(Root(seed, name)) <==> HasNullBelow(seed)
  {
    var r := Root(seed, name);
    assert r.typ[0] == 'C';
    if HasNullBelow(seed) {
      assert HasNullBelow(seed);
      var i :| 0 <= i < |seed.children| && ChildHasNull(seed, i);
      assert ChildHasNull(r, i);
    }
    if HasNullBelow(r) {
      assert HasNullBelow(r);
      var i :| 0 <= i < |r.children| && ChildHasNull(r, i);
      assert ChildHasNull(seed, i);
    }
  }

  /** Once a NULL sits below the model, every sample is read and the answer is never a schema. */
  lemma {:induction false} ResolveKeepsNull(model: Node, samples: seq<Sample>, i: nat)
    requires i <= |samples| && HasNullBelow(model)
    ensures Resolve(model, samples, i).Ok? ==>
      Resolve(model, samples, i).value.1 == |samples| && HasNullBelow(Resolve(model, samples, i).value.0)
    ensures (forall k :: i <= k < |samples| ==> SampleNode(samples[k]).Ok?) ==> Resolve(model, samples, i).Ok?
    decreases |samples| - i
  {
    if i < |samples| {
      if SampleNode(samples[i]).Ok? {
        var next := Merge(model, Some(SampleNode(samples[i]).value));
        NullBelowPersists(model, Some(SampleNode(samples[i]).value));
        ResolveKeepsNull(next, samples, i + 1);
      }
    }
  }

  /**
   * A NULL type below the root of the first sample's model (a null or an
   * empty array reached from the root through object members only) can
   * never be resolved: inferSchema reads every sample and then fails, with
   * InsufficientSamples whenever every later sample classifies.
   */
  lemma NullInFirstSampleIsFatal(samples: seq<Sample>, name: string, seed: Node)
    requires |samples| > 0 && SampleNode(samples[0]) == Ok(seed) && HasNullBelow(seed)
    ensures InferResult(samples, name).Err?
    ensures (forall k :: 1 <= k < |samples| ==> SampleNode(samples[k]).Ok?) ==>
      InferResult(samples, name).error.InsufficientSamples?
  {
    var root := Root(seed, name);
    assert HasNullBelow(root) by {
      var i :| 0 <= i < |seed.children| && ChildHasNull(seed, i);
      assert ChildHasNull(root, i);
    }
    ResolveKeepsNull(root, samples, 1);
  }

  /** A first sample without NULL types alone determines the schema; later samples are not read. */
  lemma ResolvedFirstSampleDecides(samples: seq<Sample>, name: string, seed: Node)
    requires |samples| > 0 && SampleNode(samples[0]) == Ok(seed) && !HasNullBelow(seed)
    ensures InferResult(samples, name) == Ok(Render(Root(seed, name), 1))
  {
    RootNullIsBelow(seed, name);
  }

  // ------------------------------------------------------------------
  // Worked samples
  // ------------------------------------------------------------------

  /** The scalar leaves the visitor builds carry their type names unchanged. */
  lemma ScalarLeaves()
    ensures Leaf("STRING") == Node("STRING", [], false)
    ensures Leaf("NUMBER") == Node("NUMBER", [], false)
    ensures Leaf("BOOLEAN") == Node("BOOLEAN", [], false)
    ensures Leaf("BINARY") == Node("BINARY", [], false)
    ensures Leaf("NULL") == Node("NULL", [], false)
    ensures Leaf("RECORD") == Node("RECORD", [], false)
  {
    assert NoLower("STRING") && NoLower("NUMBER") && NoLower("BOOLEAN");
    assert NoLower("BINARY") && NoLower("NULL") && NoLower("RECORD");
    UpperFixes("STRING");
    UpperFixes("NUMBER");
    UpperFixes("BOOLEAN");
    UpperFixes("BINARY");
    UpperFixes("NULL");
    UpperFixes("RECORD");
  }

  /** The record {"a":1,"b":"x"} classifies to a RECORD with a NUMBER and a STRING field. */
  lemma FlatClassify()
    ensures Classify(Object([("a", Number("1")), ("b", Str("\"x\""))]))
            == Ok(Node("RECORD", [("a", Node("NUMBER", [], false)), ("b", Node("STRING", [], false))], false))
  {
    var ms := [("a", Number("1")), ("b", Str("\"x\""))];
    assert Keys(ms)[0] != Keys(ms)[1];
    ClassifyObject(ms);
    var n := Classify(Object(ms)).value;
    assert n.children[0] == ("a", Node("NUMBER", [], false));
    assert n.children[1] == ("b", Node("STRING", [], false));
    assert n.children == [("a", Node("NUMBER", [], false)), ("b", Node("STRING", [], false))];
  }

  lemma FlatRender(root: Node)
    requires root == Node("CREATE TABLE t", [("a", Node("NUMBER", [], false)), ("b", Node("STRING", [], false))], true)
    ensures Render(root, 1) == "CREATE TABLE t (\n\ta NUMBER,\n\tb STRING)"
  {
    RenderTwoFields(root, 1);
    FlatEntry(root, 0, "\n\ta NUMBER");
    FlatEntry(root, 1, "\n\tb STRING");
    FlatText(root.typ, "\n\ta NUMBER", "\n\tb STRING");
  }

  lemma FlatText(t: string, e0: string, e1: string)
    requires t == "CREATE TABLE t" && e0 == "\n\ta NUMBER" && e1 == "\n\tb STRING"
    ensures t + " (" + e0 + "," + e1 + ")" == "CREATE TABLE t (\n\ta NUMBER,\n\tb STRING)"
  {
  }

  lemma FlatEntry(root: Node, i: nat, text: string)
    requires root == Node("CREATE TABLE t", [("a", Node("NUMBER", [], false)), ("b", Node("STRING", [], false))], true)
    requires i < 2 && text == "\n\t" + root.children[i].0 + " " + root.children[i].1.typ
    ensures EntryText(root, i, 1) == text
  {
    assert Indent(1) == "\n\t";
  }

  /** {"a":1,"b":"x"} as table t: one sample without NULL types fixes the schema. */
  lemma FlatSample()
    ensures InferResult([Parsed(Object([("a", Number("1")), ("b", Str("\"x\""))]))], "t")
            == Ok("CREATE TABLE t (\n\ta NUMBER,\n\tb STRING)")
  {
    FlatClassify();
    var seed := Node("RECORD", [("a", Node("NUMBER", [], false)), ("b", Node("STRING", [], false))], false);
    assert !HasNullBelow(seed) by {
      assert !ChildHasNull(seed, 0) && !ChildHasNull(seed, 1);
    }
    ResolvedFirstSampleDecides([Parsed(Object([("a", Number("1")), ("b", Str("\"x\""))]))], "t", seed);
    FlatRender(Root(seed, "t"));
  }

  lemma SingleFieldClassify(name: string, value: Json, child: Node)
    requires Classify(value) == Ok(child)
    ensures Classify(Object([(name, value)])) == Ok(Node("RECORD", [(name, child)], false))
  {
    var ms := [(name, value)];
    ClassifyObject(ms);
    var n := Classify(Object(ms)).value;
    assert n.children[0] == (name, child);
    assert n.children == [(name, child)];
  }

  /** A one-field root renders on one indented line. */
  lemma SingleFieldRender(name: string, field: string, child: Node, line: string, text: string)
    requires Render(child, 2) == field && line == "\n\t" + name + " " + field
    requires text == "CREATE TABLE t (" + line + ")"
    ensures Render(Node("CREATE TABLE t", [(name, child)], true), 1) == text
  {
    var root := Node("CREATE TABLE t", [(name, child)], true);
    RenderOneField(root, 1);
    assert Indent(1) == "\n\t";
    assert "CREATE TABLE t" + " (" == "CREATE TABLE t (";
  }

  /** {"a":null} then {"a":5}: the NULL field is never resolved, so inference fails. */
  lemma NullThenNumberFails()
    ensures InferResult([Parsed(Object([("a", Null)])), Parsed(Object([("a", Number("5"))]))], "t")
            == Err(InsufficientSamples("CREATE TABLE t (\n\ta NULL)"))
  {
    SingleFieldClassify("a", Null, Node("NULL", [], false));
    SingleFieldClassify("a", Number("5"), Node("NUMBER", [], false));
    NullThenNumberSteps(Node("RECORD", [("a", Node("NULL", [], false))], false),
                        Node("RECORD", [("a", Node("NUMBER", [], false))], false),
                        [Parsed(Object([("a", Null)])), Parsed(Object([("a", Number("5"))]))]);
  }

  lemma NullThenNumberSteps(seed: Node, inc: Node, samples: seq<Sample>)
    requires seed == Node("RECORD", [("a", Node("NULL", [], false))], false)
    requires inc == Node("RECORD", [("a", Node("NUMBER", [], false))], false)
    requires |samples| == 2 && SampleNode(samples[0]) == Ok(seed) && SampleNode(samples[1]) == Ok(inc)
    ensures InferResult(samples, "t") == Err(InsufficientSamples("CREATE TABLE t (\n\ta NULL)"))
  {
    assert ChildHasNull(seed, 0);
    NullFieldNotWidened(seed, inc, "t");
    UnresolvedAfterMerge(samples, "t", seed, inc);
    NullRootRender(seed, Root(seed, "t"));
  }

  lemma NullRootRender(seed: Node, root: Node)
    requires seed == Node("RECORD", [("a", Node("NULL", [], false))], false)
    requires root == Root(seed, "t")
    ensures Render(root, 1) == "CREATE TABLE t (\n\ta NULL)"
  {
    assert root == Node("CREATE TABLE t", seed.children, true);
    SingleFieldRender("a", "NULL", Node("NULL", [], false), "\n\ta NULL", "CREATE TABLE t (\n\ta NULL)");
  }

  /** A NUMBER arriving for a field the first sample left NULL changes nothing. */
  lemma NullFieldNotWidened(seed: Node, inc: Node, name: string)
    requires seed == Node("RECORD", [("a", Node("NULL", [], false))], false)
    requires inc == Node("RECORD", [("a", Node("NUMBER", [], false))], false)
    ensures Merge(Root(seed, name), Some(inc)) == Root(seed, name)
  {
    var root := Root(seed, name);
    MergeShape(root, Some(inc));
    assert Keys(inc.children) == ["a"];
    assert NewFields(root.children, inc.children) == [];
  }

  /** Two samples whose merge leaves the root as it was and NULL below it: inference reports the root. */
  lemma UnresolvedAfterMerge(samples: seq<Sample>, name: string, seed: Node, inc: Node)
    requires |samples| == 2 && SampleNode(samples[0]) == Ok(seed) && SampleNode(samples[1]) == Ok(inc)
    requires HasNullBelow(seed) && Merge(Root(seed, name), Some(inc)) == Root(seed, name)
    ensures InferResult(samples, name) == Err(InsufficientSamples(Render(Root(seed, name), 1)))
  {
    RootNullIsBelow(seed, name);
    var root := Root(seed, name);
    assert Resolve(root, samples, 2) == Ok((root, 2));
    assert Resolve(root, samples, 1) == Ok((root, 2));
  }

  /** {"a":{"b":1}}: a nested record indents one level deeper. */
  lemma NestedRecordSample()
    ensures InferResult([Parsed(Object([("a", Object([("b", Number("1"))]))]))], "t")
            == Ok("CREATE TABLE t (\n\ta RECORD (\n\t\tb NUMBER))")
  {
    SingleFieldClassify("b", Number("1"), Node("NUMBER", [], false));
    var b := Node("RECORD", [("b", Node("NUMBER", [], false))], false);
    SingleFieldClassify("a", Object([("b", Number("1"))]), b);
    NestedRecordSteps(b, Node("RECORD", [("a", b)], false), [Parsed(Object([("a", Object([("b", Number("1"))]))]))]);
  }

  lemma NestedRecordSteps(b: Node, seed: Node, samples: seq<Sample>)
    requires b == Node("RECORD", [("b", Node("NUMBER", [], false))], false)
    requires seed == Node("RECORD", [("a", b)], false)
    requires |samples| == 1 && SampleNode(samples[0]) == Ok(seed)
    ensures InferResult(samples, "t") == Ok("CREATE TABLE t (\n\ta RECORD (\n\t\tb NUMBER))")
  {
    assert !HasNullBelow(b) by { assert !ChildHasNull(b, 0); }
    assert !HasNullBelow(seed) by { assert !ChildHasNull(seed, 0); }
    ResolvedFirstSampleDecides(samples, "t", seed);
    NestedRender(b);
    NestedTexts();
    assert Root(seed, "t") == Node("CREATE TABLE t", [("a", b)], true);
    SingleFieldRender("a", "RECORD (\n\t\tb NUMBER)", b, "\n\ta RECORD (\n\t\tb NUMBER)",
                      "CREATE TABLE t (\n\ta RECORD (\n\t\tb NUMBER))");
  }

  lemma NestedTexts()
    ensures "\n\ta RECORD (\n\t\tb NUMBER)" == "\n\t" + "a" + " " + "RECORD (\n\t\tb NUMBER)"
    ensures "CREATE TABLE t (\n\ta RECORD (\n\t\tb NUMBER))" == "CREATE TABLE t (" + "\n\ta RECORD (\n\t\tb NUMBER)" + ")"
  {
  }

  lemma NestedRender(b: Node)
    requires b == Node("RECORD", [("b", Node("NUMBER", [], false))], false)
    ensures Render(b, 2) == "RECORD (\n\t\tb NUMBER)"
  {
    RenderOneField(b, 2);
    assert Indent(2) == "\n\t\t";
  }

  /** [{"a":1}]: a record inside an array type is rendered flat and upper-cased, field names included. */
  lemma ArrayOfRecordUpperCased()
    ensures Classify(Array([Object([("a", Number("1"))])])) == Ok(Node("ARRAY(RECORD (A NUMBER))", [], false))
  {
    SingleFieldClassify("a", Number("1"), Node("NUMBER", [], false));
    var rec := Node("RECORD", [("a", Node("NUMBER", [], false))], false);
    FlatRecordRender(rec);
    UpperArrayOfRecord("ARRAY(RECORD (a NUMBER))");
    ArrayOfClassified(Object([("a", Number("1"))]), rec, "ARRAY(RECORD (a NUMBER))", "ARRAY(RECORD (A NUMBER))");
  }

  lemma ArrayOfClassified(obj: Json, rec: Node, t: string, u: string)
    requires Classify(obj) == Ok(rec) && "ARRAY(" + Render(rec, 0) + ")" == t && Upper(t) == u
    ensures Classify(Array([obj])) == Ok(Node(u, [], false))
  {
    ClassifyArray([obj]);
  }

  lemma FlatRecordRender(rec: Node)
    requires rec == Node("RECORD", [("a", Node("NUMBER", [], false))], false)
    ensures "ARRAY(" + Render(rec, 0) + ")" == "ARRAY(RECORD (a NUMBER))"
  {
    RenderOneField(rec, 0);
    assert Indent(0) == "";
  }

  lemma UpperArrayOfRecord(t: string)
    requires t == "ARRAY(RECORD (a NUMBER))"
    ensures Upper(t) == "ARRAY(RECORD (A NUMBER))"
  {
    var head, tail := "ARRAY(RECORD (", " NUMBER))";
    assert t == head + "a" + tail;
    assert NoLower(head) && NoLower(tail);
    UpperFixes(head);
    UpperFixes(tail);
    UpperConcat(head + "a", tail);
    UpperConcat(head, "a");
  }
}
