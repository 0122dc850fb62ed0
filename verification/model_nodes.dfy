/**
 * JsonUtil.modelNode: one node of the schema tree, updated in place.
 *
 * The ghost field `Value` is the node as a `SchemaSpec.Node`; every method is
 * proved to act on `Value` exactly as the corresponding SchemaSpec function
 * does, so the properties proved in SchemaProperties carry over to the
 * objects. `Repr` is the set of nodes this one owns: itself and its
 * children's trees, which are pairwise disjoint.
 */
module ModelNodes {
  import opened Wrappers
  import opened OrderedMap
  import opened Text
  import opened SchemaSpec

  class ModelNode {
    var typ: string
    var children: seq<(string, ModelNode)>   // the LinkedHashMap _childens, in insertion order
    var isRoot: bool
    ghost var Value: Node
    ghost var Repr: set<ModelNode>

    ghost predicate Valid()
      reads this, Repr
      decreases Repr, 1
    {
      && this in Repr
      && Value.typ == typ && Value.isRoot == isRoot
      && |Value.children| == |children|
      && (forall i :: 0 <= i < |children| ==>
            ChildValid(i) && Value.children[i] == (children[i].0, children[i].1.Value))
      && (forall i, j :: 0 <= i < j < |children| ==>
            children[i].1 in Repr && children[j].1 in Repr && children[i].1.Repr !! children[j].1.Repr)
    }

    /** The child at position `i` is a valid tree owned by this node. */
    ghost predicate ChildValid(i: int)
      requires 0 <= i < |children|
      reads this, Repr
      decreases Repr, 0
    {
      var c := children[i].1;
      this in Repr && c in Repr && c.Repr <= Repr && this !in c.Repr && c.Valid()
    }

    /** modelNode(type): an upper-cased type, no children, not a root. */
    constructor(t: string)
      ensures Valid() && Repr == {this}
      ensures Value == Leaf(t)
    {
      typ := Upper(t);
      children := [];
      isRoot := false;
      Value := Leaf(t);
      Repr := {this};
    }

    /** isNull: the type is exactly NULL. */
    function IsNull(): (r: bool)
      requires Valid()
      reads this, Repr
      ensures r <==> Value.typ == "NULL"
    {
      typ == "NULL"
    }

    /** _childens.containsKey. */
    function ContainsKey(k: string): (r: bool)
      requires Valid()
      reads this, Repr
      ensures r <==> k in Keys(Value.children)
    {
      assert Keys(children) == Keys(Value.children);
      k in Keys(children)
    }

    /** getChild: the child stored under `k`, or null when there is none. */
    function GetChild(k: string): (r: ModelNode?)
      requires Valid()
      reads this, Repr
      ensures r == null <==> Get(Value.children, k).None?
      ensures r != null ==> r in Repr && r.Repr <= Repr && r.Valid() && this !in r.Repr
      ensures r != null ==> r.Value == Get(Value.children, k).value
    {
      assert Keys(children) == Keys(Value.children);
      if k in Keys(children) then
        var p := IndexOf(Keys(children), k);
        assert ChildValid(p);
        children[p].1
      else null
    }

    /** addChild: LinkedHashMap.put of `child` under `name`. */
    method AddChild(name: string, child: ModelNode)
      requires Valid() && child.Valid() && Repr !! child.Repr
      modifies this
      ensures Valid()
      ensures Repr == old(Repr) + child.Repr
      ensures Value == old(Value).(children := Put(old(Value.children), name, child.Value))
    {
      assert Keys(children) == Keys(Value.children);
      ghost var oldChildren, oldRepr := children, Repr;
      children := Put(children, name, child);
      Value := Value.(children := Put(Value.children, name, child.Value));
      Repr := Repr + child.Repr;
      // the position `name` ends up at; every other position keeps its old entry
      ghost var p := if name in Keys(oldChildren) then IndexOf(Keys(oldChildren), name) else |oldChildren|;
      assert |children| == |Value.children| && p < |children|;
      assert children[p] == (name, child) && Value.children[p] == (name, child.Value);
      forall i | 0 <= i < |children| && i != p
        ensures i < |oldChildren| && children[i] == oldChildren[i]
      {
      }
      forall i | 0 <= i < |children|
        ensures ChildValid(i)
      {
      }
      forall i, j | 0 <= i < j < |children|
        ensures children[i].1.Repr !! children[j].1.Repr
      {
        if i != p && j != p {
          assert children[i] == oldChildren[i] && children[j] == oldChildren[j];
        }
      }
    }

    /** setType: the type is replaced by the upper-cased argument. */
    method SetType(t: string)
      requires Valid()
      modifies this
      ensures Valid() && Repr == old(Repr)
      ensures Value == old(Value).(typ := Upper(t))
    {
      typ := Upper(t);
      Value := Value.(typ := Upper(t));
    }

    /** setTableName: the node becomes the table root; the name is not upper-cased. */
    method SetTableName(name: string)
      requires Valid()
      modifies this
      ensures Valid() && Repr == old(Repr)
      ensures Value == Root(old(Value), name)
    {
      typ := "CREATE TABLE " + name;
      isRoot := true;
      Value := Root(Value, name);
    }

    /** toString(tabs): a StringBuilder loop over the children, then the last character becomes ')'. */
    method ToString(tabs: int) returns (s: string)
      requires Valid()
      ensures s == Render(Value, tabs)
      decreases Repr
    {
      if typ == "RECORD" || isRoot {
        var str := typ + " (";
        var i := 0;
        while i < |children|
          invariant 0 <= i <= |children|
          invariant str == typ + " (" + RenderEntries(Value, i, tabs)
        {
          ghost var before := str;
          str := AppendIndent(str, tabs);
          assert ChildValid(i);
          var (name, child) := children[i];
          assert Value.children[i] == (name, child.Value);
          var sub: string;
          if tabs > 0 {
            sub := child.ToString(tabs + 1);
          } else {
            sub := child.ToString(0);
          }
          assert sub == Render(Value.children[i].1, ChildTabs(tabs));
          str := str + name + " " + sub + ",";
          EntriesStep(Value, i, tabs, before, typ + " (");
          i := i + 1;
        }
        assert str == Value.typ + " (" + RenderEntries(Value, |Value.children|, tabs);
        s := str[..|str| - 1] + ")";
      } else {
        s := typ;
      }
    }

    /** hasNullTypes: this node or some node below it is typed NULL. */
    method HasNullTypes() returns (r: bool)
      requires Valid()
      ensures r == HasNull(Value)
      decreases Repr, 1
    {
      r := IsNull();
      if !r {
        r := ChildHasNullTypes();
      }
    }

    /** _childHasNull: the first child reporting a NULL type ends the scan. */
    method ChildHasNullTypes() returns (r: bool)
      requires Valid()
      ensures r == HasNullBelow(Value)
      decreases Repr, 0
    {
      var i := 0;
      while i < |children|
        invariant 0 <= i <= |children|
        invariant forall j :: 0 <= j < i ==> !ChildHasNull(Value, j)
      {
        var b := children[i].1.HasNullTypes();
        if b {
          assert ChildHasNull(Value, i);
          return true;
        }
        i := i + 1;
      }
      return false;
    }

    /**
     * mergeTypes(newNode): a NULL node takes the incoming type; RECORD children
     * are merged with the incoming child of the same name (null when absent);
     * incoming children under new names are added unless they are NULL.
     */
    method MergeTypes(newNode: ModelNode?)
      requires Valid()
      requires newNode != null ==> newNode.Valid() && Repr !! newNode.Repr
      modifies Repr
      ensures Valid() && fresh(Repr - old(Repr))
      ensures Value == Merge(old(Value), if newNode == null then None else Some(newNode.Value))
      decreases Repr, 3
    {
      if newNode != null {
        ghost var acc := Value;
        if IsNull() && !newNode.IsNull() {
          SetType(newNode.typ);
        }
        MergedChildrenSameChildren(acc, Value, newNode.Value, |acc.children|);
        MergeRecordChildren(newNode);
        AddNewChildren(newNode);
      }
    }

    /** The first loop of mergeTypes: each RECORD child merges the incoming child of the same name. */
    method MergeRecordChildren(newNode: ModelNode)
      requires Valid() && newNode.Valid() && Repr !! newNode.Repr
      modifies Repr
      ensures Valid() && fresh(Repr - old(Repr))
      ensures newNode.Valid() && Repr !! newNode.Repr && newNode.Value == old(newNode.Value)
      ensures Value == old(Value).(children := MergedChildren(old(Value), newNode.Value, |old(Value).children|))
      decreases Repr, 2
    {
      ghost var acc, inc := Value, newNode.Value;
      var i := 0;
      while i < |children|
        invariant 0 <= i <= |children| == |acc.children|
        invariant Valid() && fresh(Repr - old(Repr))
        invariant newNode.Valid() && Repr !! newNode.Repr && newNode.Value == inc
        invariant Value.typ == acc.typ && Value.isRoot == acc.isRoot
        invariant Value.children == MergedChildren(acc, inc, i) + acc.children[i..]
        invariant forall j :: i <= j < |children| ==> children[j].1.Repr <= old(Repr)
      {
        assert Value.children[i] == acc.children[i];
        MergedPrefixStep(acc, inc, i);
        MergeChildAt(i, newNode, old(Repr));
        i := i + 1;
      }
      assert acc.children[i..] == [];
    }

    /** One pass of the first loop of mergeTypes: the child at `i` is merged if it is a RECORD. */
    method MergeChildAt(i: nat, newNode: ModelNode, ghost bound: set<ModelNode>)
      requires Valid() && i < |children| && {this} + children[i].1.Repr <= bound
      requires newNode.Valid() && Repr !! newNode.Repr
      modifies Repr
      ensures Valid() && fresh(Repr - old(Repr))
      ensures newNode.Valid() && Repr !! newNode.Repr && newNode.Value == old(newNode.Value)
      ensures children == old(children)
      ensures Value == old(Value).(children := old(Value.children)[i := MergedChild(old(Value.children[i]), newNode.Value)])
      ensures forall j :: 0 <= j < |children| && j != i ==> children[j].1.Repr == old(children[j].1.Repr)
      decreases bound, 1
    {
      assert ChildValid(i);
      if children[i].1.typ == "RECORD" {
        MergeRecordAt(i, newNode, bound);
      } else {
        assert children[i].1.Valid() && Value.children[i].1 == children[i].1.Value;
      }
    }

    /** The RECORD case of the first loop of mergeTypes: the child merges the incoming child of the same name. */
    method MergeRecordAt(i: nat, newNode: ModelNode, ghost bound: set<ModelNode>)
      requires Valid() && i < |children| && {this} + children[i].1.Repr <= bound
      requires children[i].1.typ == "RECORD"
      requires newNode.Valid() && Repr !! newNode.Repr
      modifies Repr
      ensures Valid() && fresh(Repr - old(Repr))
      ensures newNode.Valid() && Repr !! newNode.Repr && newNode.Value == old(newNode.Value)
      ensures children == old(children)
      ensures Value == old(Value).(children := old(Value.children)[i := MergedChild(old(Value.children[i]), newNode.Value)])
      ensures forall j :: 0 <= j < |children| && j != i ==> children[j].1.Repr == old(children[j].1.Repr)
      decreases bound, 0
    {
      assert ChildValid(i);
      var (name, child) := children[i];
      // every sibling lies outside the part of the heap the recursive call may change
      forall j | 0 <= j < |children| && j != i
        ensures ChildValid(j) && children[j].1 in children[j].1.Repr && children[j].1.Repr !! child.Repr
      {
        assert ChildValid(j);
        assert children[j].1.Valid();
        if j < i {
          assert children[j].1.Repr !! children[i].1.Repr;
        } else {
          assert children[i].1.Repr !! children[j].1.Repr;
        }
      }
      var g := newNode.GetChild(name);
      assert (if g == null then None else Some(g.Value)) == Get(newNode.Value.children, name);
      assert child.Repr !! newNode.Repr && this !in newNode.Repr;
      child.MergeTypes(g);
      assert newNode.Valid() && newNode.Value == old(newNode.Value);
      Reattach(i);
    }

    /**
     * Records in `Value` and `Repr` the new state of child `i` after it was
     * changed in place; every other child is as `Valid` requires already.
     */
    ghost method Reattach(i: nat)
      requires i < |children| && this in Repr && |Value.children| == |children|
      requires Value.typ == typ && Value.isRoot == isRoot
      requires forall j :: 0 <= j < |children| && j != i ==>
                 ChildValid(j) && Value.children[j] == (children[j].0, children[j].1.Value)
      requires forall j, k :: 0 <= j < k < |children| && j != i && k != i ==>
                 children[j].1.Repr !! children[k].1.Repr
      requires children[i].1.Valid() && this !in children[i].1.Repr
      requires forall j :: 0 <= j < |children| && j != i ==> children[j].1.Repr !! children[i].1.Repr
      modifies this
      ensures Valid() && Repr == old(Repr) + children[i].1.Repr
      ensures children == old(children) && typ == old(typ) && isRoot == old(isRoot)
      ensures Value == old(Value).(children := old(Value.children)[i := (children[i].0, children[i].1.Value)])
    {
      var (name, child) := children[i];
      Value, Repr := Value.(children := Value.children[i := (name, child.Value)]), Repr + child.Repr;
      assert ChildValid(i);
      forall j | 0 <= j < |children| && j != i
        ensures ChildValid(j) && Value.children[j] == (children[j].0, children[j].1.Value)
      {
      }
    }

    /** The second loop of mergeTypes: absent, non-NULL incoming children are added, in incoming order. */
    method AddNewChildren(newNode: ModelNode)
      requires Valid() && newNode.Valid() && Repr !! newNode.Repr
      modifies this
      ensures Valid() && fresh(Repr - old(Repr))
      ensures Value == old(Value).(children := AddMissing(old(Value).children, newNode.Value.children))
    {
      ghost var mid, inc := Value, newNode.Value;
      var k := 0;
      while k < |newNode.children|
        invariant 0 <= k <= |newNode.children| == |inc.children|
        invariant Valid() && fresh(Repr - old(Repr))
        invariant Repr !! newNode.Repr
        invariant Value == mid.(children := AddMissing(mid.children, inc.children[..k]))
      {
        assert newNode.ChildValid(k);
        var (name, c) := newNode.children[k];
        assert inc.children[k] == (name, c.Value);
        if !ContainsKey(name) && !c.IsNull() {
          var copy := c.Clone();
          AddChild(name, copy);
        }
        AddMissingStep(mid.children, inc.children, k);
        k := k + 1;
      }
      assert inc.children[..|inc.children|] == inc.children;
    }

    /** A fresh copy of this tree, with the same types, names and order. */
    method Clone() returns (c: ModelNode)
      requires Valid()
      ensures c.Valid() && fresh(c.Repr) && c.Value == Value
      decreases Repr
    {
      c := new ModelNode(typ);
      c.typ, c.isRoot := typ, isRoot;
      c.Value := Node(typ, [], isRoot);
      var i := 0;
      while i < |children|
        invariant 0 <= i <= |children|
        invariant c.Valid() && fresh(c.Repr)
        invariant c.Value == Node(typ, Value.children[..i], isRoot)
      {
        assert ChildValid(i);
        var copy := children[i].1.Clone();
        c.AppendChild(children[i].0, copy);
        PrefixStep(Value.children, i);
        i := i + 1;
      }
      assert Value.children[..|children|] == Value.children;
    }

    /** Adds `child` after the existing children (used to build copies). */
    method AppendChild(name: string, child: ModelNode)
      requires Valid() && child.Valid() && Repr !! child.Repr
      modifies this
      ensures Valid()
      ensures Repr == old(Repr) + child.Repr
      ensures Value == old(Value).(children := old(Value.children) + [(name, child.Value)])
    {
      ghost var oldChildren := children;
      children := children + [(name, child)];
      Value := Value.(children := Value.children + [(name, child.Value)]);
      Repr := Repr + child.Repr;
      forall i | 0 <= i < |children|
        ensures ChildValid(i)
      {
        if i < |oldChildren| {
          assert children[i] == oldChildren[i];
        }
      }
    }
  }

  /** The head of each entry in toString: a newline when indenting, then one tab per level. */
  method AppendIndent(str: string, tabs: int) returns (r: string)
    ensures r == str + Indent(tabs)
  {
    r := str;
    if tabs > 0 {
      r := r + "\n";
    }
    var c := tabs;
    while c > 0
      invariant c <= 0 ==> r == str + Indent(tabs)
      invariant c > 0 ==> c <= tabs && r == str + "\n" + Tabs(tabs - c)
    {
      r := r + "\t";
      c := c - 1;
    }
  }

  /** Appending one entry to the rendered prefix gives the next prefix. */
  lemma EntriesStep(n: Node, i: nat, tabs: int, before: string, head: string)
    requires i < |n.children| && before == head + RenderEntries(n, i, tabs)
    ensures before + Indent(tabs) + n.children[i].0 + " " + Render(n.children[i].1, ChildTabs(tabs)) + ","
            == head + RenderEntries(n, i + 1, tabs)
  {
  }

  /** A prefix one longer is the prefix and the next element. */
  lemma PrefixStep<T>(s: seq<T>, i: nat)
    requires i < |s|
    ensures s[..i + 1] == s[..i] + [s[i]] && s[..i + 1][..i] == s[..i]
  {
  }

  /** One more incoming child through the second loop of mergeTypes. */
  lemma AddMissingStep(acc: seq<(string, Node)>, inc: seq<(string, Node)>, k: nat)
    requires k < |inc|
    ensures var fields := AddMissing(acc, inc[..k]);
      AddMissing(acc, inc[..k + 1])
      == if inc[k].0 !in Keys(fields) && inc[k].1.typ != "NULL" then Put(fields, inc[k].0, inc[k].1) else fields
  {
    PrefixStep(inc, k);
  }

  /** One more child through the first loop of mergeTypes: position `i` takes its merged value. */
  lemma MergedPrefixStep(acc: Node, inc: Node, i: nat)
    requires i < |acc.children|
    ensures (MergedChildren(acc, inc, i) + acc.children[i..])[i := MergedChild(acc.children[i], inc)]
            == MergedChildren(acc, inc, i + 1) + acc.children[i + 1..]
    ensures acc.children[i].1.typ != "RECORD" ==>
            MergedChildren(acc, inc, i) + acc.children[i..] == MergedChildren(acc, inc, i + 1) + acc.children[i + 1..]
  {
  }

  /** The first loop of mergeTypes looks only at the children, not at the type of the node. */
  lemma {:induction false} MergedChildrenSameChildren(a: Node, b: Node, inc: Node, k: nat)
    requires a.children == b.children && k <= |a.children|
    ensures MergedChildren(a, inc, k) == MergedChildren(b, inc, k)
  {
    if k > 0 {
      MergedChildrenSameChildren(a, b, inc, k - 1);
    }
  }
}
