/**
 * The schema-inference engine of avt.nosql.JsonUtil stated on values.
 *
 * A `Node` is the value held by one modelNode: its type string, its children
 * in insertion order, and whether it is the table root. `Classify` is what the
 * schema visitor computes for one parsed sample, `Render` is modelNode.toString,
 * `HasNull` is hasNullTypes, `Merge` is mergeTypes and `InferResult` is
 * inferSchema over a finite sequence of samples. The imperative code in
 * ModelNodes and NosqlInference is proved equal to these functions.
 */
module SchemaSpec {
  import opened Wrappers
  import opened OrderedMap
  import opened Text
  import opened JsonNodes

  datatype Node = Node(typ: string, children: seq<(string, Node)>, isRoot: bool)

  datatype Error =
    | UnsupportedMissing                      // the visitor met a MISSING node
    | MalformedSample                         // the JSON library rejected a sample
    | InsufficientSamples(diagnostic: string) // NULL types remain; carries toString(1) of the model

  /** A node as the modelNode constructor builds it: upper-cased type, no children, not a root. */
  function Leaf(t: string): Node {
    Node(Upper(t), [], false)
  }

  // ------------------------------------------------------------------
  // Classification of one sample (visit with JsonSchemaVisitor)
  // ------------------------------------------------------------------

  function Classify(j: Json): Result<Node, Error>
    decreases j, 1
  {
    match j
    case Object(ms) =>
      (match ClassifyMembers(j, |ms|)
       case Err(e) => Err(e)
       case Ok(fields) => Ok(Node("RECORD", fields, false)))
    case Array(es) =>
      (match ClassifyElements(j, |es|)
       case Err(e) => Err(e)
       case Ok(nodes) => Ok(ArrayLeaf(nodes)))
    // the handlers' type names are upper-case already, so they are written
    // here as the constructor leaves them (SchemaProperties.ScalarLeaves)
    case Str(_) => Ok(Node("STRING", [], false))
    case Number(_) => Ok(Node("NUMBER", [], false))
    case Bool(_) => Ok(Node("BOOLEAN", [], false))
    case Binary(_) => Ok(Node("BINARY", [], false))
    case Null => Ok(Node("NULL", [], false))
    case Missing => Err(UnsupportedMissing)
  }

  /** The field map visit builds from the first `k` members, stopping at the first failure. */
  function ClassifyMembers(j: Json, k: nat): Result<seq<(string, Node)>, Error>
    requires j.Object? && k <= |j.members|
    decreases j, 0, k
  {
    if k == 0 then Ok([])
    else
      match ClassifyMembers(j, k - 1)
      case Err(e) => Err(e)
      case Ok(fields) =>
        assert j.members[k - 1] in j.members;
        match Classify(j.members[k - 1].1)
        case Err(e) => Err(e)
        case Ok(n) => Ok(Put(fields, j.members[k - 1].0, n))
  }

  /** The element list visit builds from the first `k` elements, stopping at the first failure. */
  function ClassifyElements(j: Json, k: nat): Result<seq<Node>, Error>
    requires j.Array? && k <= |j.elements|
    decreases j, 0, k
  {
    if k == 0 then Ok([])
    else
      match ClassifyElements(j, k - 1)
      case Err(e) => Err(e)
      case Ok(nodes) =>
        match Classify(j.elements[k - 1])
        case Err(e) => Err(e)
        case Ok(n) => Ok(nodes + [n])
  }

  /** JsonSchemaVisitor.array: typed by the rendering of the first element, NULL when empty. */
  function ArrayLeaf(nodes: seq<Node>): Node {
    if |nodes| > 0 then Leaf("ARRAY(" + Render(nodes[0], 0) + ")") else Node("NULL", [], false)
  }

  /**
   * The record levels a failing visit leaves pushed (innermost first): visit
   * pops a member's key only after the member's visit returned normally.
   */
  function Trail(j: Json): seq<string>
    decreases j, 1
  {
    match j
    case Object(ms) => MembersTrail(j, 0)
    case Array(es) => ElementsTrail(j, 0)
    case _ => []
  }

  function MembersTrail(j: Json, k: nat): seq<string>
    requires j.Object? && k <= |j.members|
    decreases j, 0, |j.members| - k
  {
    if k == |j.members| then []
    else
      assert j.members[k] in j.members;
      if Classify(j.members[k].1).Err? then Trail(j.members[k].1) + [j.members[k].0]
      else MembersTrail(j, k + 1)
  }

  function ElementsTrail(j: Json, k: nat): seq<string>
    requires j.Array? && k <= |j.elements|
    decreases j, 0, |j.elements| - k
  {
    if k == |j.elements| then []
    else if Classify(j.elements[k]).Err? then Trail(j.elements[k])
    else ElementsTrail(j, k + 1)
  }

  // ------------------------------------------------------------------
  // Rendering (modelNode.toString(int))
  // ------------------------------------------------------------------

  /** The tab count children render with. */
  function ChildTabs(tabs: int): int {
    if tabs > 0 then tabs + 1 else 0
  }

  /** What precedes each child entry: a newline and `tabs` tabs when indenting. */
  function Indent(tabs: int): string {
    (if tabs > 0 then "\n" else "") + Tabs(tabs)
  }

  function Render(n: Node, tabs: int): string
    decreases n, 1
  {
    if n.typ == "RECORD" || n.isRoot then
      var s := n.typ + " (" + RenderEntries(n, |n.children|, tabs);
      s[..|s| - 1] + ")"
    else n.typ
  }

  /** The first `k` children, each followed by a comma. */
  function RenderEntries(n: Node, k: nat, tabs: int): string
    requires k <= |n.children|
    decreases n, 0, k
  {
    if k == 0 then ""
    else
      assert n.children[k - 1] in n.children;
      RenderEntries(n, k - 1, tabs) + Indent(tabs) + n.children[k - 1].0 + " "
        + Render(n.children[k - 1].1, ChildTabs(tabs)) + ","
  }

  // ------------------------------------------------------------------
  // Unresolved types (hasNullTypes)
  // ------------------------------------------------------------------

  predicate HasNull(n: Node)
    decreases n, 1
  {
    n.typ == "NULL" || HasNullBelow(n)
  }

  /** _childHasNull: some child reports a NULL type. */
  predicate HasNullBelow(n: Node)
    decreases n, 0
  {
    exists i :: 0 <= i < |n.children| && ChildHasNull(n, i)
  }

  predicate ChildHasNull(n: Node, i: nat)
    requires i < |n.children|
    decreases n, 0, 0
  {
    assert n.children[i] in n.children;
    HasNull(n.children[i].1)
  }

  // ------------------------------------------------------------------
  // Merging a later sample (mergeTypes)
  // ------------------------------------------------------------------

  /** The type mergeTypes leaves on the node it was called on. */
  function MergedType(acc: Node, inc: Node): string {
    if acc.typ == "NULL" && inc.typ != "NULL" then Upper(inc.typ) else acc.typ
  }

  /** mergeTypes(inc); `None` stands for a null argument. */
  function Merge(acc: Node, inc: Option<Node>): Node
    decreases acc, 1
  {
    match inc
    case None => acc
    case Some(n) =>
      Node(MergedType(acc, n), AddMissing(MergedChildren(acc, n, |acc.children|), n.children), acc.isRoot)
  }

  /** The first loop of mergeTypes over the first `k` children: only RECORD children are merged. */
  function MergedChildren(acc: Node, inc: Node, k: nat): (r: seq<(string, Node)>)
    requires k <= |acc.children|
    ensures |r| == k
    decreases acc, 0, k
  {
    if k == 0 then []
    else
      assert acc.children[k - 1] in acc.children;
      MergedChildren(acc, inc, k - 1) + [MergedChild(acc.children[k - 1], inc)]
  }

  function MergedChild(c: (string, Node), inc: Node): (string, Node)
    decreases c, 0
  {
    if c.1.typ == "RECORD" then (c.0, Merge(c.1, Get(inc.children, c.0))) else c
  }

  /** The second loop of mergeTypes: absent, non-NULL incoming children are added, in incoming order. */
  function AddMissing(acc: seq<(string, Node)>, inc: seq<(string, Node)>): seq<(string, Node)>
    decreases |inc|
  {
    if inc == [] then acc
    else
      var fields := AddMissing(acc, inc[..|inc| - 1]);
      var (name, child) := inc[|inc| - 1];
      if name !in Keys(fields) && child.typ != "NULL" then Put(fields, name, child) else fields
  }

  // ------------------------------------------------------------------
  // The driver (inferSchema(Stream<String>, String))
  // ------------------------------------------------------------------

  /** parse then visit one sample. */
  function SampleNode(s: Sample): Result<Node, Error> {
    match s
    case Malformed => Err(MalformedSample)
    case Parsed(doc) => Classify(doc)
  }

  /** setTableName: the seed becomes the root, typed "CREATE TABLE <name>" (not upper-cased). */
  function Root(seed: Node, name: string): Node {
    seed.(typ := "CREATE TABLE " + name, isRoot := true)
  }

  /**
   * The while loop of inferSchema started at sample `i`: the final model and
   * the position the sample iterator stopped at.
   */
  function Resolve(model: Node, samples: seq<Sample>, i: nat): Result<(Node, nat), Error>
    requires i <= |samples|
    decreases |samples| - i
  {
    if i < |samples| && HasNull(model) then
      match SampleNode(samples[i])
      case Err(e) => Err(e)
      case Ok(n) => Resolve(Merge(model, Some(n)), samples, i + 1)
    else Ok((model, i))
  }

  function InferResult(samples: seq<Sample>, name: string): Result<string, Error> {
    if |samples| == 0 then Ok("")
    else
      match SampleNode(samples[0])
      case Err(e) => Err(e)
      case Ok(seed) =>
        match Resolve(Root(seed, name), samples, 1)
        case Err(e) => Err(e)
        case Ok((m, i)) =>
          if i == |samples| && HasNull(m) then Err(InsufficientSamples(Render(m, 1)))
          else Ok(Render(m, 1))
  }
}
