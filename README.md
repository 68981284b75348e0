# yaml-object-parser, modelled in Dafny

`yaml-object-parser` (Go package `yop`) turns a rule expression into a tree of named nodes. The
expression comes as a JSON value, usually converted from YAML. A rule is one of three shapes:

- a bare name (`"user"`);
- a name bound to a list of sub-rules (`{"and": ["user", "service"]}`), which become the
  node's children one level further down;
- a name bound to any other value (`{"location": {"region": "uk"}}`), which is kept raw as
  the node's arguments.

Names are accepted only if they are in a process-wide registry. The registry also holds the
maximum node depth, 2 by default.

The parser picks a shape by trying three `encoding/json` decodings in order: string, map of
lists, map of raw values. An error of the parser's own (`parameter ...`: not found, max depth
exceeded) is final. Any other error, meaning a decode error, falls through to the next
shape. The next shape runs on the same node, as the failed attempt left it.

The project has these modules:

- `Wrappers` (`wrappers.dfy`): `Option` and `Result`.
- `Json` (`json.dfy`): decoded JSON values and the three decodings.
  - An object is a sequence of members in document order.
  - A Go map is its collapse to one member per key. The last occurrence of a key wins.
  - Size measures prove that the recursion terminates.
- `Objects` (`objects.dfy`):
  - the rule node `Node`, which is Go's `Object`;
  - the error kinds `ParseError`;
  - the fallback test `Step.Final`, which is `err == nil || errors.Is(err, errObject)`.
- `NameRegistry` (`registry.dfy`): the registry as a class `Registry`. It holds the fields `names`
  and `maxDepth`. Its methods are `SetMaxDepthLimit`, `AddObjectName`, `RemoveObjectName` and
  `IsSupported`.
- `RuleSpec` (`rules.dfy`): the parser as functions. Each loop of the Go code becomes a
  recursive function that threads the node under construction.
- `ObjectParser` (`parser.dfy`): the parser as imperative methods with the Go code's loops.
  - Each method is proved equal to its `RuleSpec` function.
  - The registry is only read: no method has a `modifies` clause.
- `ParseProperties` (`properties.dfy`): what the parser guarantees, proved about `RuleSpec`.
  - how each shape behaves;
  - error routing;
  - the well-formedness of every returned tree;
  - the condition under which children and arguments exclude each other.
- `Fixtures` (`fixtures.dfy`): every case of the package's table test, as a lemma. Also lemmas
  beyond the table:
  - `RuleWithinMaxDepthLimit`, the exceeded case with the nesting stopped at level 2;
  - `MixedNode`, a node with both children and arguments;
  - `ArgumentListNotReached`, a list inside arguments that is never parsed;
  - `CaseAsymmetry`, the case asymmetry of the registry;
  - `RegistryScenario`, a registry client.

Four behaviours of the code that a reader of the test cases alone might not expect:

- **Children and arguments do not always exclude each other.** If a list element fails with a decode error (a number, a boolean or a nested
  array), the list shape's error falls through to the argument shape. That shape runs on the
  node that already has its name and the children parsed so far. The node then keeps those
  children and takes the list as arguments.
  - `Fixtures.MixedNode` shows this for `{"and": ["user", 5]}`.
  - `ParseProperties.ParsedTreeExclusive` proves exclusivity when every list element the list
    shape reaches is a string, `null` or an object. Lists inside argument values are not
    parsed and are not constrained (`Fixtures.ArgumentListNotReached`).
- **Not every failing child makes the parse fail.** Only an error of the parser's own from a
  child ends the parse. A decode error from a child is absorbed as described above (`ParseProperties.ListShape`).
- **An object without keys is accepted.** It passes the list shape with no iteration and
  yields an unnamed leaf (`ParseProperties.EmptyObject`).
- **A `null` list element is a name.** It is read as the name `""`, which fails with
  `NotFound("")` unless `""` is registered.

## Model

| member | source | states |
|---|---|---|
| NameRegistry.Registry.constructor | yaml_object_parser.go:27 | The registry starts with no names and the depth limit 2 (line 10). |
| NameRegistry.Registry.SetMaxDepthLimit | yaml_object_parser.go:29-31 | The limit becomes the given integer, unvalidated; the names are unchanged. |
| NameRegistry.Registry.AddObjectName | yaml_object_parser.go:33-37 | The new names are appended in order, duplicates kept; empty input leaves the names unchanged; the limit is unchanged. |
| NameRegistry.Registry.RemoveObjectName | yaml_object_parser.go:39-47 | The loop leaves exactly `Without(old names, name)` in the registry, and the limit is unchanged. |
| NameRegistry.WithoutMembers | yaml_object_parser.go:41-45 | A name stays after removal iff it was registered and does not equal the removed name up to case. |
| NameRegistry.WithoutConcat | yaml_object_parser.go:41-45 | Removal filters entry by entry: removing from `a + b` is removing from `a`, then from `b`, concatenated, so relative order is kept. |
| NameRegistry.WithoutNoMatch | yaml_object_parser.go:39-47 | Removing a name that no entry matches up to case leaves the registry equal to what it was. |
| NameRegistry.EqualFold | yaml_object_parser.go:42 | Names equal up to case have the same length, and every name equals itself up to case. |
| NameRegistry.Without | yaml_object_parser.go:40-46 | The filtered registry is never longer than the original. |
| NameRegistry.Registry.IsSupported | yaml_object_parser.go:148-155 | The search succeeds iff the key is exactly (case-sensitively) a registered name; otherwise the error is `NotFound` carrying the key. |
| Json.Collapse | yaml_object_parser.go:108-109 | The decoded map has no more members than the object, is non-empty when the object is, and holds only members of the object. |
| Json.CollapseKeys | yaml_object_parser.go:108-109 | The decoded map has exactly the keys the object has. |
| Json.CollapseDistinct | yaml_object_parser.go:133-134 | The decoded map's keys are pairwise distinct. |
| Json.CollapseLastWins | yaml_object_parser.go:133-134 | The last occurrence of a duplicate key is the member the map keeps. |
| Json.ToListMembers | yaml_object_parser.go:108-109 | The map of lists has one entry per member, each entry being the member's key and its list (`null` as the empty list). |
| Json.DecodeShapes | yaml_object_parser.go:94-136 | A Go string decodes from a string or from `null`, which gives `""`. A map of lists decodes only from `null` (the empty map) or an object, with no more entries than members. A map of raw values decodes exactly from `null` or an object. |
| Json.DecodeListMapRejects | yaml_object_parser.go:108-111 | One member whose value is not a list or `null` makes the whole object fail as a map of lists, even if a later duplicate key overwrites it. |
| Json.SingleMemberDecodes | yaml_object_parser.go:94-136 | A one-member object is not a string, decodes as a raw map to itself, and decodes as a list map iff its value is a list or `null`. |
| Objects.ErrorFamily | yaml_object_parser.go:80-91 | The errors that wrap `errObject` are exactly `Undefined`, `NotAcceptable`, `NotFound` and `MaxDepthExceeded`. A step is final (`Step.Final`) exactly when its error is not a decode error. |
| RuleSpec.ParseFromJson | yaml_object_parser.go:49-59 | A returned tree is rooted at level 0, and only a root that passes `isObjectValid` yields one. |
| RuleSpec.IsObjectValid | yaml_object_parser.go:61-74 | The root is `Undefined` iff it is `""` or `null`, `NotAcceptable` iff it is a list, and no other error is produced. |
| RuleSpec.ParseNode | yaml_object_parser.go:76-92 | A parse step keeps the node's level and only appends children: the children before it are still its first children. |
| RuleSpec.FromString | yaml_object_parser.go:94-105 | The string shape changes nothing but, possibly, the node's name. |
| RuleSpec.WithChildren | yaml_object_parser.go:107-130 | The list shape keeps the level and appends children without changing the earlier ones. |
| RuleSpec.KeysLoop | yaml_object_parser.go:112-127 | The loop over the keys keeps the level and appends children without changing the earlier ones. |
| RuleSpec.ElemsLoop | yaml_object_parser.go:118-126 | The loop over one list appends children and changes nothing else on the node. |
| RuleSpec.WithArguments | yaml_object_parser.go:132-146 | The argument shape never changes the level or the children. |
| RuleSpec.ArgsLoop | yaml_object_parser.go:138-144 | The loop over the raw map never changes the level or the children. |
| ObjectParser.ParseObjectFromJSON | yaml_object_parser.go:49-59 | The method returns exactly `ParseFromJson` on the registry's names and limit: an error, or a whole tree. |
| ObjectParser.ParseObject | yaml_object_parser.go:76-92 | The method's final node and error are exactly `ParseNode`. |
| ObjectParser.ParseObjectFromString | yaml_object_parser.go:94-105 | The method's final node and error are exactly `FromString`. |
| ObjectParser.ParseObjectWithChildren | yaml_object_parser.go:107-130 | The nested loops' final node and error are exactly `WithChildren`: the loop invariants tie each iteration to `KeysLoop` and `ElemsLoop`. |
| ObjectParser.ParseObjectWithArguments | yaml_object_parser.go:132-146 | The loop's final node and error are exactly `WithArguments`. |
| ParseProperties.FailAt | yaml_object_parser.go:118-124 | The index of the first failing element of a list is at most its length. |
| ParseProperties.FailAtSpec | yaml_object_parser.go:118-124 | Every element before that index parses without error; the element at it fails. |
| ParseProperties.FirstUnregistered | yaml_object_parser.go:138-141 | The index of the first unregistered key: every key before it is registered, the one at it is not. |
| ParseProperties.ElemsLoopResult | yaml_object_parser.go:118-126 | The list loop appends, in list order, the nodes of the elements before the first failing one. It returns that element's error unchanged, or nil when none fails. |
| ParseProperties.ArgsLoopResult | yaml_object_parser.go:138-145 | The argument loop fails with `NotFound` on the first unregistered key. Otherwise the last key names the node and its raw value becomes the arguments. |
| ParseProperties.KeysLoopResult | yaml_object_parser.go:112-127 | With several keys all registered and all lists parsing, the children of every key accumulate key after key, and the last key names the node. |
| ParseProperties.DepthExceeded | yaml_object_parser.go:76-79 | Beyond the limit the step fails with `MaxDepthExceeded` before any decoding and leaves the node as it was. |
| ParseProperties.BareString | yaml_object_parser.go:94-105 | A registered string names a leaf at its level, with no children and no arguments. An unregistered one fails with `NotFound` naming it. `null` is read as `""`. |
| ParseProperties.EmptyObject | yaml_object_parser.go:107-130 | `{}` yields an unnamed leaf without error. |
| ParseProperties.ListShape | yaml_object_parser.go:76-130 | A key bound to a list, in four cases: unregistered key; every child parses (one child per element, in order); a child makes an error of the parser's own (it propagates); a child makes a decode error (the node keeps its name and earlier children and takes the list as arguments). |
| ParseProperties.ListOfChildren | yaml_object_parser.go:117-126 | When every element parses on its own to a node, the list node has exactly those nodes as children, in order. |
| ParseProperties.ListChildError | yaml_object_parser.go:122-124 | An error of the parser's own in the first failing child is the error of the enclosing node. |
| ParseProperties.ArgumentShape | yaml_object_parser.go:132-146 | A key bound to a non-list value keeps the value verbatim as arguments, with no children; an unregistered key is `NotFound`. |
| ParseProperties.MalformedOnlyFromScalars | yaml_object_parser.go:80-91 | A decode error escapes a step iff the node is within the limit and its value is a number, a boolean or a list. |
| ParseProperties.RootMalformed | yaml_object_parser.go:49-59 | At the root, a decode error is returned iff the limit is non-negative and the value is a number or a boolean. |
| ParseProperties.RootRejection | yaml_object_parser.go:49-52 | `""` and `null` fail with `Undefined`, a list with `NotAcceptable`, and no such root yields a tree. |
| ParseProperties.ParseNodeWellFormed | yaml_object_parser.go:76-130 | A successful step from a fresh node yields a well-formed tree: levels within the limit, each child one level down, every name registered except that of a key-less leaf. |
| ParseProperties.KeysLoopWellFormed | yaml_object_parser.go:112-127 | The key loop preserves well-formed children, leaves the arguments untouched, and names the node with a registered key. |
| ParseProperties.ElemsLoopWellFormed | yaml_object_parser.go:118-126 | The list loop preserves well-formed children. |
| ParseProperties.ParsedTreeWellFormed | yaml_object_parser.go:49-59 | Every tree the parser returns is rooted at level 0 and well formed. |
| ParseProperties.RuleValueNotMalformed | yaml_object_parser.go:80-91 | A string, `null` or object element never fails with a decode error. |
| ParseProperties.DecodedReachedRules | yaml_object_parser.go:108-118 | The elements of a decoded map of lists are elements of the object's own lists, so each is a rule value and meets the same hypothesis below it. |
| ParseProperties.ParseNodeExclusive | yaml_object_parser.go:76-130 | If every list element the list shape reaches is a rule value, no node of a successful parse has both children and arguments. Lists inside argument values are unconstrained. |
| ParseProperties.KeysLoopExclusive | yaml_object_parser.go:112-127 | Over lists whose elements are rule values, each with the same property below it, the key loop adds no arguments and never yields a decode error. |
| ParseProperties.ElemsLoopExclusive | yaml_object_parser.go:118-126 | Over a list whose elements are rule values, each with the same property below it, the list loop appends only exclusive children and never yields a decode error. |
| ParseProperties.ParsedTreeExclusive | yaml_object_parser.go:49-59 | If every list element the list shape reaches is a rule value, the returned tree has children or arguments at each node, never both. Lists inside argument values are unconstrained. |
| Fixtures.RuleStringFormat | yaml_object_parser_test.go:82-90 | `"user"` parses to the leaf `user` at level 0. |
| Fixtures.RuleObjectFormat | yaml_object_parser_test.go:92-105 | `{"location": {"region": "uk"}}` parses to `location` with that object as arguments. |
| Fixtures.RuleListFormat | yaml_object_parser_test.go:107-124 | `{"and": ["user", "service"]}` parses to `and` with the leaves `user` and `service` at level 1. |
| Fixtures.RuleNestedFormat | yaml_object_parser_test.go:126-152 | The nested `or`/`and` rule parses to the expected two-level tree. |
| Fixtures.AndWithObjectsFormat | yaml_object_parser_test.go:159-191 | The inner `and` rule keeps `opening-hours` and `relationship` with their objects as arguments. |
| Fixtures.RuleNestedFormatWithObject | yaml_object_parser_test.go:154-195 | The nested rule with object arguments parses to the expected tree. |
| Fixtures.RuleMaxDepthLimitExceeded | yaml_object_parser_test.go:209-217 | A rule at level 3 makes the whole parse fail with `MaxDepthExceeded`. |
| Fixtures.RuleWithinMaxDepthLimit | yaml_object_parser_test.go:209-217 | Not a case of the table: it is the exceeded case with the nesting stopped at level 2 (`{"and": null}` at level 2), which parses to the three-node tree `and`/`or`/`and`. |
| Fixtures.RuleErrors | yaml_object_parser_test.go:53-68 | `null` and `""` are `Undefined`, `"invalid"` is `NotFound("invalid")`, a root list is `NotAcceptable`. |
| Fixtures.MixedNode | yaml_object_parser.go:86-91 | `{"and": ["user", 5]}` yields `and` with the child `user` and the arguments `["user", 5]`. |
| Fixtures.ArgumentListNotReached | yaml_object_parser.go:132-146 | `{"location": {"ids": [1, 2]}}` meets the exclusivity hypothesis and parses to `location` with its object as arguments: the numbers in the argument list are never parsed. |
| Fixtures.CaseAsymmetry | yaml_object_parser.go:39-47 | Removing `USER` removes `user` and `User`, while the string shape rejects `USER` with `NotFound("USER")` because lookup is case-sensitive. |

## Left out

- Bytes and `encoding/json`. The parser gets a decoded JSON value, assumed to be the compact
  serialisation of that value. On that form, the textual tests of `isObjectValid` become tests
  on the value. A root with leading white space (` []`) is not distinguished, and neither is
  the `b[0]` panic on empty input. Numbers are integers, because the parser never reads them.
- Arguments are kept as the decoded JSON value, not as its serialised string. `None` stands
  for Go's empty string. The key order in the test's expected strings comes from the
  YAML-to-JSON converter.
- Go's map iteration order is randomised. The model uses one fixed order: keys in the order
  of their last occurrence. With several keys, that choice decides which key names the node
  and the order of the children. It also decides whether the parse succeeds, and with which
  error it fails. For example, with the names `a` and `b`, `{"a": [5], "b": ["nope"]}`
  succeeds: the child `5` is a decode error, so the node falls back to the argument shape.
  `{"b": ["nope"], "a": [5]}` fails with `NotFound("nope")`. Both documents decode to the
  same Go map, so Go picks either outcome at random.
- `strings.EqualFold` uses ASCII case folding only, not Unicode simple folding.
- Error messages are not modelled: only the error kinds, and the name for `NotFound`. Also
  not modelled: the max-depth message, which keeps the initial limit 2
  (`yaml_object_parser.go:17`).
- The YAML conversion and the test envelope `testYamlSection.UnmarshalJSON` are not modelled.
- Concurrent use of the registry is not modelled. A parse reads the registry it is given.
- The node is threaded as a value, not mutated through a pointer. Every node is fresh and has
  a single owner, so no aliasing is lost.
