# Kafka2OracleNosql schema inference, modelled in Dafny

Kafka2OracleNosql reads JSON samples and infers a table definition (a
`CREATE TABLE` statement) for Oracle NoSQL. The repository has two versions
of the inference class, `JsonUtil`, and this project models both.

**`src/avt/nosql/JsonUtil.java`** is the multi-sample engine.
- A generic `visit` walks a parsed JSON tree. It keeps a stack of record
  levels: it pushes a member's key before visiting the member and pops it
  afterwards.
- The `JsonSchemaVisitor` turns each JSON value into a `modelNode`:
  - objects become RECORD nodes whose children keep insertion order;
  - arrays become `ARRAY(<rendering of the first element>)`, or NULL when empty;
  - scalars become STRING, NUMBER, BOOLEAN or BINARY;
  - `null` becomes NULL;
  - a MISSING node is rejected.
- `inferSchema` classifies the first sample and renames its root to
  `CREATE TABLE <name>`.
- While NULL types remain and samples are left, it merges the next sample
  with `mergeTypes`.
- It fails when it runs out of samples with NULL types still present.
  Otherwise it returns `toString(1)` of the model.

**`JsonUtil.java`** (repository root) is the older single-sample version. Its
visitor folds the document into a `Field`, a type tag plus a content string:
- objects become RECORD fields listing `key TYPE` entries, with the content
  of complex fields in parentheses;
- arrays take the type tag of their first element;
- `null` and MISSING are rejected.

The model is organised as follows.

| module | role |
|---|---|
| `Wrappers` | `Option` and `Result`. Exceptions are modelled as `Err` values. |
| `OrderedMap` | `LinkedHashMap` as a sequence of pairs. `Put` replaces a present key in place and appends an absent one. |
| `Text` | ASCII `toUpperCase`, tab runs and a separator join. |
| `JsonNodes` | The eight JSON node kinds. A `Sample` is a parsed document or a malformed one. |
| `SchemaSpec` | The engine stated on values: classification, record-level trail, rendering, `hasNullTypes`, `mergeTypes` and the driver. |
| `SchemaProperties` | What the engine promises, proved on `SchemaSpec`. |
| `ModelNodes` | `class ModelNode`, with the fields the Java class updates in place. Every method is proved to act on a ghost `Value` exactly as the `SchemaSpec` function does. |
| `NosqlInference` | `class SchemaVisitor`, whose `recordLevels` stack is a field, and the `inferSchema` driver. Both are proved equal to `SchemaSpec`. |
| `LegacySpec`, `LegacyProperties`, `LegacyInference` | The same structure for the older class. |

`mergeTypes` is modelled exactly as written:
- it only widens the node it is called on;
- it descends only into RECORD children;
- it never replaces an existing child.

A NULL below the root of the first sample is therefore never resolved
(`SchemaProperties.NullBelowPersists`, `SchemaProperties.NullInFirstSampleIsFatal`).

Three behaviours of the code are easy to miss:
- A field that is NULL in the first sample stays NULL, whatever later
  samples hold (`SchemaProperties.NullThenNumberFails`).
- An array's type is `ARRAY(` + the first element's rendering + `)`,
  upper-cased as a whole, so a record element's field names are upper-cased
  too (`SchemaProperties.ArrayOfRecordUpperCased`).
- A record with no fields renders as `RECORD )`: the closing parenthesis
  overwrites the opening one (`SchemaProperties.RenderShape`).

## Model

| member | source | states |
|---|---|---|
| OrderedMap.Get | src/avt/nosql/JsonUtil.java:149 | `get` finds a value exactly when the key is present, and the value is stored under that key |
| OrderedMap.PutKeys | src/avt/nosql/JsonUtil.java:143 | `put` keeps the key order: a present key keeps its place and an absent one goes last |
| OrderedMap.Put | src/avt/nosql/JsonUtil.java:143 | defines `LinkedHashMap.put`: a present key's value is replaced in place, an absent key is appended with its value |
| OrderedMap.PutDistinct | src/avt/nosql/JsonUtil.java:143 | after `put` the keys stay distinct, `get(k)` returns the value just put, and every other key keeps its value |
| OrderedMap.PutOther | src/avt/nosql/JsonUtil.java:143 | `put(k, v)` leaves `get(k')` unchanged for every key `k'` other than `k` |
| OrderedMap.NextKeyIsNew | src/avt/nosql/JsonUtil.java:66-75 | with distinct member names, the name after the members put so far is not yet a key of the map, so `put` appends it |
| OrderedMap.GetAt | src/avt/nosql/JsonUtil.java:149 | on distinct keys, `get` of the i-th key returns the i-th value |
| Text.Upper | src/avt/nosql/JsonUtil.java:139 | upper-casing keeps the length and maps each character on its own |
| Text.UpperFixes | src/avt/nosql/JsonUtil.java:145 | upper-casing is idempotent, leaves no lower-case letter, and changes nothing in an upper-case string |
| Text.UpperConcat | src/avt/nosql/JsonUtil.java:246 | upper-casing distributes over concatenation |
| Text.Join | JsonUtil.java:200-212 | defines the parts separated by the separator, with none before the first part or after the last |
| Text.Tabs | src/avt/nosql/JsonUtil.java:175-176 | the indentation loop writes exactly `tabs` tab characters, and none when `tabs` is not positive |
| SchemaSpec.Classify | src/avt/nosql/JsonUtil.java:59-130 | defines `visit` with `JsonSchemaVisitor` (handlers at :236-278): RECORD for objects, the array type, the scalar type names, NULL for null, an error for MISSING |
| SchemaSpec.ClassifyMembers | src/avt/nosql/JsonUtil.java:66-75 | defines the member loop: members are classified in order and `put` into a LinkedHashMap, stopping at the first failure |
| SchemaSpec.ClassifyElements | src/avt/nosql/JsonUtil.java:83-87 | defines the element loop: elements are classified in order, stopping at the first failure |
| SchemaSpec.ArrayLeaf | src/avt/nosql/JsonUtil.java:245-248 | defines the `array` handler: `ARRAY(` + `toString(0)` of the first element + `)` through the upper-casing constructor, or NULL for no elements |
| SchemaSpec.Trail | src/avt/nosql/JsonUtil.java:72-74 | defines the record levels a failing visit leaves pushed: each failing member's key, innermost first, because the pop is skipped |
| SchemaSpec.Render | src/avt/nosql/JsonUtil.java:163-185 | defines `toString(tabs)`: a RECORD or root lists its children with indentation and commas and the last comma turned into `)`; other nodes are their type |
| SchemaSpec.HasNull | src/avt/nosql/JsonUtil.java:187-197 | defines `hasNullTypes`: the node is NULL or some child has NULL types |
| SchemaSpec.Merge | src/avt/nosql/JsonUtil.java:199-216 | defines `mergeTypes`: nothing for null; otherwise NULL widened to the incoming type, RECORD children merged, then absent non-NULL incoming children added |
| SchemaSpec.MergedChildren | src/avt/nosql/JsonUtil.java:205-207 | the first loop of `mergeTypes` keeps the number of children |
| SchemaSpec.AddMissing | src/avt/nosql/JsonUtil.java:209-214 | defines the second loop of `mergeTypes`: absent, non-NULL incoming children are `put` in incoming order |
| SchemaSpec.Root | src/avt/nosql/JsonUtil.java:157-160 | defines `setTableName`: the type becomes `CREATE TABLE <name>` and the node the root |
| SchemaSpec.Resolve | src/avt/nosql/JsonUtil.java:289-291 | defines the merge loop: while samples remain and NULL types remain, the next sample is visited and merged |
| SchemaSpec.InferResult | src/avt/nosql/JsonUtil.java:281-298 | defines `inferSchema`: `""` for no samples, a sample's error, insufficient samples with `toString(1)` when NULL types remain at the end, and `toString(1)` otherwise |
| SchemaProperties.ClassifyOkIff | src/avt/nosql/JsonUtil.java:59-130 | visiting a sample fails exactly when a MISSING node is reachable; nothing else is rejected |
| SchemaProperties.ObjectOkIff | src/avt/nosql/JsonUtil.java:61-77 | an object is accepted exactly when none of its members reaches a MISSING node |
| SchemaProperties.ArrayOkIff | src/avt/nosql/JsonUtil.java:79-89 | an array is accepted exactly when none of its elements reaches a MISSING node |
| SchemaProperties.MembersOkIff | src/avt/nosql/JsonUtil.java:69-75 | the member loop succeeds up to k exactly when each of the first k members is accepted |
| SchemaProperties.ElementsOkIff | src/avt/nosql/JsonUtil.java:85-87 | the element loop succeeds up to k exactly when each of the first k elements is accepted |
| SchemaProperties.ClassifyObject | src/avt/nosql/JsonUtil.java:236-242 | an object with distinct names becomes a RECORD node whose children are its classified members in document order |
| SchemaProperties.MembersInOrder | src/avt/nosql/JsonUtil.java:66-75 | the LinkedHashMap built from k accepted members holds them at positions 0..k-1 in order |
| SchemaProperties.ClassifyArray | src/avt/nosql/JsonUtil.java:245-248 | an empty array is NULL; otherwise the type is `ARRAY(` + the first element's rendering + `)`, upper-cased |
| SchemaProperties.ElementsInOrder | src/avt/nosql/JsonUtil.java:83-87 | the element list holds each element's classification in order |
| SchemaProperties.ArrayIgnoresLaterElements | src/avt/nosql/JsonUtil.java:246 | two accepted arrays with the same first element get the same type, whatever their other elements |
| SchemaProperties.TrailEmptyOnSuccess | src/avt/nosql/JsonUtil.java:72-74 | a successful visit pops every record level it pushed |
| SchemaProperties.MembersFirstFailure | src/avt/nosql/JsonUtil.java:72-74 | the first failing member decides the object's error, and its key stays pushed above that member's own levels |
| SchemaProperties.ElementsFirstFailure | src/avt/nosql/JsonUtil.java:85-87 | the first failing element decides the array's error and the levels left pushed |
| SchemaProperties.HasNullIffNullAt | src/avt/nosql/JsonUtil.java:187-197 | `hasNullTypes` holds exactly when some node reachable through children is typed NULL |
| SchemaProperties.NullPath | src/avt/nosql/JsonUtil.java:187-197 | a node with NULL types yields a child path that leads to a NULL node |
| SchemaProperties.NullAtHasNull | src/avt/nosql/JsonUtil.java:187-197 | a NULL node reachable by a path makes `hasNullTypes` true |
| SchemaProperties.ArrayOfNullNotDetected | src/avt/nosql/JsonUtil.java:155 | the type `ARRAY(NULL)` of a nested empty array is not an unresolved NULL, since `isNull` compares the whole type string |
| SchemaProperties.NewFieldsFrom | src/avt/nosql/JsonUtil.java:209-214 | every field the second merge loop may add is an incoming field and absent from the node |
| SchemaProperties.AddMissingAppends | src/avt/nosql/JsonUtil.java:209-214 | with distinct incoming names, the second loop appends exactly the absent, non-NULL incoming children in incoming order |
| SchemaProperties.AddMissingKeepsPrefix | src/avt/nosql/JsonUtil.java:209-214 | the second loop never changes or removes existing children |
| SchemaProperties.MergedChildrenAt | src/avt/nosql/JsonUtil.java:205-207 | the first loop keeps the position of every child and merges only RECORD children |
| SchemaProperties.MergeShape | src/avt/nosql/JsonUtil.java:199-216 | `mergeTypes(null)` is a no-op. Otherwise the type changes only from NULL to the non-NULL incoming type; existing children keep name and place; RECORD children are merged with the same-named incoming child; other children (NULL ones included) are left as they were; new absent non-NULL children follow |
| SchemaProperties.MergeKeepsNames | src/avt/nosql/JsonUtil.java:199-216 | a merge never removes a field name, and the old names are a prefix of the new ones |
| SchemaProperties.NullBelowPersists | src/avt/nosql/JsonUtil.java:199-216 | a NULL anywhere below a node survives any merge into that node |
| SchemaProperties.RenderShape | src/avt/nosql/JsonUtil.java:167-185 | a RECORD or root renders as its type and `(`, then its entries separated by `,` with no trailing comma, then `)`. A childless one renders as `TYPE )`; other nodes render as their type |
| SchemaProperties.EntriesJoin | src/avt/nosql/JsonUtil.java:172-181 | the loop's text after k children is the first k entries joined by `,` plus a trailing comma |
| SchemaProperties.RenderOneField | src/avt/nosql/JsonUtil.java:167-185 | a record or root with one child renders as that single entry in parentheses |
| SchemaProperties.RenderTwoFields | src/avt/nosql/JsonUtil.java:167-185 | a record or root with two children renders as both entries separated by a comma |
| SchemaProperties.ResolveStops | src/avt/nosql/JsonUtil.java:289-291 | the merge loop stops at the end of the samples or as soon as no NULL type remains |
| SchemaProperties.FailsIffNullRemains | src/avt/nosql/JsonUtil.java:293-297 | once the loop has run, inference fails exactly when every sample was read and NULL types remain |
| SchemaProperties.UnreadSamplesIgnored | src/avt/nosql/JsonUtil.java:289-291 | samples after the stopping point never change the result |
| SchemaProperties.RootNullIsBelow | src/avt/nosql/JsonUtil.java:157-160 | after `setTableName` the root's own type is never NULL, so only NULLs below it count |
| SchemaProperties.ResolveKeepsNull | src/avt/nosql/JsonUtil.java:289-291 | with a NULL below the model, the loop reads every sample (or fails on one) and NULL remains |
| SchemaProperties.NullInFirstSampleIsFatal | src/avt/nosql/JsonUtil.java:281-298 | a NULL type below the root of the first sample's model (a null or an empty array reached from the root through object members only) makes inference fail; when every later sample is accepted the failure is insufficient samples |
| SchemaProperties.ResolvedFirstSampleDecides | src/avt/nosql/JsonUtil.java:281-298 | a first sample without NULL types alone decides the schema, which is its rendering as the table |
| SchemaProperties.ScalarLeaves | src/avt/nosql/JsonUtil.java:250-273 | the scalar leaves the visitor builds keep their type names through the upper-casing constructor |
| SchemaProperties.FlatClassify | src/avt/nosql/JsonUtil.java:236-263 | `{"a":1,"b":"x"}` classifies to a RECORD with a NUMBER field a and a STRING field b |
| SchemaProperties.FlatSample | src/avt/nosql/JsonUtil.java:281-298 | `{"a":1,"b":"x"}` as table t gives `CREATE TABLE t (\n\ta NUMBER,\n\tb STRING)` |
| SchemaProperties.SingleFieldClassify | src/avt/nosql/JsonUtil.java:236-242 | a one-member object becomes a RECORD with that one child |
| SchemaProperties.NullThenNumberFails | src/avt/nosql/JsonUtil.java:199-216 | `{"a":null}` then `{"a":5}`: the NULL field is never widened, so inference fails and reports `CREATE TABLE t (\n\ta NULL)` |
| SchemaProperties.NullFieldNotWidened | src/avt/nosql/JsonUtil.java:205-214 | merging the sample `{"a":5}` into the root built from `{"a":null}` leaves the root unchanged: the NULL field `a` is not widened and no field is added |
| SchemaProperties.UnresolvedAfterMerge | src/avt/nosql/JsonUtil.java:289-296 | when a merge leaves the root unchanged with NULL below it, inference fails with the root's rendering |
| SchemaProperties.NestedRecordSample | src/avt/nosql/JsonUtil.java:167-185 | `{"a":{"b":1}}` renders the nested record one indentation level deeper |
| SchemaProperties.ArrayOfRecordUpperCased | src/avt/nosql/JsonUtil.java:246 | `[{"a":1}]` gets the type `ARRAY(RECORD (A NUMBER))`: the element is rendered flat and upper-cased, field names included |
| ModelNodes.ModelNode.constructor | src/avt/nosql/JsonUtil.java:137-141 | a new node has the upper-cased type, no children and is not a root |
| ModelNodes.ModelNode.IsNull | src/avt/nosql/JsonUtil.java:155 | true exactly when the type is `NULL` |
| ModelNodes.ModelNode.ContainsKey | src/avt/nosql/JsonUtil.java:210 | true exactly when the name is among the children's names |
| ModelNodes.ModelNode.GetChild | src/avt/nosql/JsonUtil.java:149 | null exactly when the name is absent; otherwise the child tree stored under the name, owned by this node |
| ModelNodes.ModelNode.AddChild | src/avt/nosql/JsonUtil.java:143 | the children become `put(name, child)` of the old children, and the tree stays well formed |
| ModelNodes.ModelNode.SetType | src/avt/nosql/JsonUtil.java:145 | only the type changes, to the upper-cased argument |
| ModelNodes.ModelNode.SetTableName | src/avt/nosql/JsonUtil.java:157-160 | the type becomes `CREATE TABLE <name>` (not upper-cased) and the node becomes the root |
| ModelNodes.ModelNode.ToString | src/avt/nosql/JsonUtil.java:163-185 | the StringBuilder loop yields the rendering of the node's value |
| ModelNodes.ModelNode.HasNullTypes | src/avt/nosql/JsonUtil.java:187-189 | true exactly when the node or a descendant is NULL |
| ModelNodes.ModelNode.ChildHasNullTypes | src/avt/nosql/JsonUtil.java:191-197 | the early-return loop answers whether some child has NULL types |
| ModelNodes.ModelNode.MergeTypes | src/avt/nosql/JsonUtil.java:199-216 | updates the tree in place to the value-level merge; the properties of the merge carry over |
| ModelNodes.ModelNode.MergeRecordChildren | src/avt/nosql/JsonUtil.java:205-207 | the first loop updates the children to the value-level merged children and leaves the incoming node unchanged |
| ModelNodes.ModelNode.MergeChildAt | src/avt/nosql/JsonUtil.java:206-207 | one step of the first loop: only a RECORD child is merged, with the same-named incoming child |
| ModelNodes.ModelNode.AddNewChildren | src/avt/nosql/JsonUtil.java:209-214 | the second loop adds the absent, non-NULL incoming children, as the value-level merge says |
| ModelNodes.ModelNode.Clone | src/avt/nosql/JsonUtil.java:211 | a fresh tree with the same value |
| ModelNodes.AppendIndent | src/avt/nosql/JsonUtil.java:173-176 | appends a newline when indenting and then `tabs` tabs |
| NosqlInference.PutField | src/avt/nosql/JsonUtil.java:73 | `fields.put` on the trees and on their values alike, keeping the trees disjoint |
| NosqlInference.SchemaVisitor.constructor | src/avt/nosql/JsonUtil.java:283 | a new visitor has no record levels |
| NosqlInference.SchemaVisitor.Visit | src/avt/nosql/JsonUtil.java:59-130 | fails exactly when classification fails and with its error; on success it builds a fresh tree holding the classification. The record levels end as the trail pushed onto the old ones |
| NosqlInference.SchemaVisitor.VisitObject | src/avt/nosql/JsonUtil.java:61-77 | the same for an object, built by the member loop and the `object` handler |
| NosqlInference.SchemaVisitor.VisitMember | src/avt/nosql/JsonUtil.java:70-74 | push, visit, put, pop for one member: on success the levels are unchanged and the map grows by one; on failure the key stays pushed |
| NosqlInference.SchemaVisitor.VisitArray | src/avt/nosql/JsonUtil.java:79-89 | the same for an array, built by the element loop and the `array` handler |
| NosqlInference.SchemaVisitor.VisitSample | src/avt/nosql/JsonUtil.java:286-287 | parse then visit: a malformed sample is an error, otherwise the sample's classification |
| NosqlInference.RecordModel | src/avt/nosql/JsonUtil.java:236-242 | the `object` handler builds a RECORD node holding the collected fields in order |
| NosqlInference.ArrayModel | src/avt/nosql/JsonUtil.java:245-248 | the `array` handler builds the leaf typed by the first element's rendering, or NULL |
| NosqlInference.InferSchema | src/avt/nosql/JsonUtil.java:281-298 | returns exactly the value-level inference result: an empty stream gives `""`, an error in a read sample is returned, and NULL types left after the last sample are an error carrying `toString(1)` |
| NosqlInference.MergeSamples | src/avt/nosql/JsonUtil.java:289-291 | the loop leaves the model and the iterator position that the value-level loop computes |
| LegacySpec.Classify | JsonUtil.java:106-249 | defines `visit` with the older `JsonSchemaVisitor`: RECORD and ARRAY fields, scalar fields holding their text, errors for null, MISSING and an empty array |
| LegacySpec.RecordField | JsonUtil.java:196-213 | defines the `object` handler: a RECORD field whose content is the members' entries joined by `, ` |
| LegacySpec.ArrayField | JsonUtil.java:215-219 | defines the `array` handler: ARRAY with the first element's type as content, and an error for `get(0)` on an empty list |
| LegacySpec.TreeResult | JsonUtil.java:252-255 | defines `inferSchema(JsonNode, String)`: the field's content inside `CREATE TABLE <name> (...);`, or the visit's error |
| LegacySpec.InferResult | JsonUtil.java:257-259 | defines `inferSchema(String, String)`: a parse error, or the above |
| LegacyInference.ObjectField | JsonUtil.java:200-212 | the counter loop writes the members' entries separated by `, `, with no separator after the last |
| LegacyInference.SchemaVisitor.constructor | JsonUtil.java:71 | a new visitor has no record levels |
| LegacyInference.SchemaVisitor.Visit | JsonUtil.java:106-177 | the visit's field or error is the value-level classification; the record levels end as the trail pushed onto the old ones |
| LegacyInference.SchemaVisitor.VisitObject | JsonUtil.java:108-124 | the same for an object, built by the member loop and the `object` handler |
| LegacyInference.SchemaVisitor.VisitMember | JsonUtil.java:117-121 | push, visit, put, pop for one member: on success the levels are unchanged and the map grows by one; on failure the key stays pushed |
| LegacyInference.SchemaVisitor.VisitArray | JsonUtil.java:126-136 | the same for an array, built by the element loop and the `array` handler |
| LegacyInference.InferFromTree | JsonUtil.java:252-255 | the statement is `CREATE TABLE <name> (<content>);`, or the visit's error |
| LegacyInference.InferSchema | JsonUtil.java:257-259 | parse then the above; malformed text is an error |
| LegacyProperties.ClassifyOkIff | JsonUtil.java:106-249 | a document is accepted exactly when it has no null or MISSING value and no empty array anywhere |
| LegacyProperties.ObjectOkIff | JsonUtil.java:108-124 | an object is accepted exactly when all its members are |
| LegacyProperties.ArrayOkIff | JsonUtil.java:126-136 | an array is accepted exactly when it is non-empty and all its elements are |
| LegacyProperties.MembersOkIff | JsonUtil.java:116-122 | the member loop succeeds up to k exactly when each of the first k members is accepted |
| LegacyProperties.ElementsOkIff | JsonUtil.java:132-134 | the element loop succeeds up to k exactly when each of the first k elements is accepted |
| LegacyProperties.InferOkIff | JsonUtil.java:257-259 | inference succeeds exactly when the text parses to an accepted document |
| LegacyProperties.NullMemberRejects | JsonUtil.java:241-244 | an object with a null member is rejected |
| LegacyProperties.ClassifyObject | JsonUtil.java:196-213 | an accepted object with distinct names becomes a RECORD whose content is its members' entries in document order, joined by `, ` |
| LegacyProperties.MembersInOrder | JsonUtil.java:113-122 | the map built from k accepted members holds their fields at positions 0..k-1 in order |
| LegacyProperties.ClassifyArray | JsonUtil.java:215-219 | an empty array is rejected; otherwise the field is ARRAY with the first element's type tag as content |
| LegacyProperties.ElementsInOrder | JsonUtil.java:130-134 | the element list holds each element's field in order |
| LegacyProperties.TrailEmptyOnSuccess | JsonUtil.java:119-121 | a successful visit pops every record level it pushed |
| LegacyProperties.MembersFirstFailure | JsonUtil.java:119-121 | the first failing member decides the object's error, and its key stays pushed above that member's own levels |
| LegacyProperties.ElementsFirstFailure | JsonUtil.java:132-134 | the first failing element decides the array's error and the levels left pushed |
| LegacyProperties.OneMember | JsonUtil.java:200-212 | a one-member object's content is that member's entry alone, with no separator |
| LegacyProperties.TwoMembers | JsonUtil.java:200-212 | a two-member object's content is the two entries joined by `, ` |
| LegacyProperties.ObjectStatement | JsonUtil.java:196-255 | an accepted object with distinct member names yields `CREATE TABLE <name> (` + its members' entries in document order joined by `, ` + `);` |
| LegacyProperties.NestedRecordText | JsonUtil.java:196-255 | `{"a":1,"b":{"c":"x"}}` gives `CREATE TABLE t (a NUMBER, b RECORD (c STRING));` |
| LegacyProperties.ArrayOfRecordsText | JsonUtil.java:215-219 | `{"xs":[{"a":1}]}` gives `CREATE TABLE t (xs ARRAY (RECORD));`, losing the record's fields |

## Left out

- JSON parsing (Jackson's `ObjectMapper`) is not modelled. A sample arrives already parsed, as a `Json` tree, or as `Malformed`, which stands for a parse exception.
- Number, string, binary and boolean texts are taken as given by the JSON library (`Json.Str` and the other scalar constructors carry them).
- `inferSchema(Path, String)`, the Path overload of `parse` and `parser(InputStream)` read files. File I/O is not part of this model.
- `src/Driver.java` is not part of this model.
- The `System.out.println` messages in `mergeTypes` and the `System.err.println` in `inferSchema` are output only and are left out. The text printed to standard error is the diagnostic that `InsufficientSamples` carries.
- The `Preconditions.checkArgument` calls are not modelled: each node kind maps to its one class. The `default` branch of `visit` cannot be reached with the eight node kinds.
- `JsonTreeVisitor`'s default handlers return `null`. Only the schema visitors are modelled.
- `getType`, `isRoot`, `getChildSet` and `Field.getType`/`getContent` are plain field reads. They are used inline. `toString()` is `toString(0)`, which the model renders with `Render(n, 0)`.
- `objectsToRecords`/`useMaps` in the older class, and its empty `TODO` branch in `object`, have no effect on the result and are left out. The same flag is commented out in the newer class.
- ModelNodes.ModelNode.AddNewChildren: the Java code adds the incoming child object itself, which then becomes shared between the two trees. The model adds a fresh copy (`Clone`) with the same value. Aliasing between the model and a later sample's tree is therefore not captured. Nothing in `inferSchema` reads the sample tree again after the merge, so the resulting schema is the same.
- Upper-casing (`String.toUpperCase`) is modelled for ASCII letters only. Other Unicode case mappings are not modelled.
- An exception that escapes `visit` is modelled as an `Err` result. The record-level stack it leaves behind is stated by `Trail`.
