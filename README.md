# Field Locator of vue-schema-form, in Dafny

This project models the Field Locator of vue-schema-form: the function
`findFieldInNode(node, fieldName)` that the form component uses to find the
live form control for a field inside the rendered tree, however deeply custom
render hooks have wrapped it.

The search has two phases. First it looks among the node's direct children for
one addressable by `fieldName`, and returns the first such child. Only when
there is none does it descend depth-first into each child in document order,
stopping at the first child whose own search succeeds. When nothing is found it
returns `false`, a normal value and not an error.

The model (`field_locator.dfy`, module `FieldLocator`):

- `Node` is a tagged tree. `Element(name, children)` is a DOM element with an
  optional `name` attribute and its ordered child collection. `NoChildren` is
  an object without a `children` property, the case the source tests for
  before anything else.
- `FindFieldPath` is the search. It returns the path of child indices to the
  control it found, or `None` for the source's `false`. A path says which
  occurrence was found, which structural equality of nodes cannot say.
- `FindFieldInNode` returns the control itself, obtained by following that path
  with `At`.
- `FirstNamedChild` models the direct-child lookup `fieldName in node.children`.
  `SearchChildren` models the short-circuiting scan
  `Array.from(node.children).some(...)` as an ordered first-success recursion
  over the children.
- `wrappers.dfy` holds the `Option` datatype.

The search is pure and never changes the tree. In Dafny every function is pure,
so that property needs no separate statement. Termination is proved by the
`decreases` clauses: every recursive call is on a child, or on the same node
with fewer children left to scan.

## Model

| member | source | states |
|---|---|---|
| FieldLocator.FirstNamedChild | src/findFieldInNode.js:11-12 | the result is the index of the first direct child named `fieldName` (never the empty name, which a DOM child collection does not answer to), and it is absent exactly when no direct child has that name |
| FieldLocator.FindFieldPath | src/findFieldInNode.js:9-33 | any result is a path of length at least one to a node named `fieldName`, so the root itself is never returned; a node without a child collection, or with an empty one, yields a miss |
| FieldLocator.SearchChildren | src/findFieldInNode.js:15-29 | a result comes from the lowest-index child whose own search succeeds, that child's path is the rest of the result, and every earlier child missed; the scan misses exactly when every child misses |
| FieldLocator.FindFieldInNode | src/findFieldInNode.js:9-33 | a returned control is named `fieldName` and is the node of the input tree at the path the search found, so it lies strictly below `node`; the result is the miss value exactly when no strict descendant carries that name |
| FieldLocator.DirectChildWins | src/findFieldInNode.js:11-13 | when some direct child is named `fieldName`, the result is the first such child, whatever earlier siblings' subtrees contain |
| FieldLocator.DescentTakesFirstSuccessfulChild | src/findFieldInNode.js:17-29 | with no direct child named `fieldName`, if child k's search yields a path and all earlier children miss, the result is k followed by that path |
| FieldLocator.FoundWhenPresent | src/findFieldInNode.js:17-29 | if any strict descendant is named `fieldName`, the search finds something |
| FieldLocator.NotFoundMeansAbsent | src/findFieldInNode.js:27-32 | a miss implies that no strict descendant is named `fieldName` |
| FieldLocator.MissIffAbsent | src/findFieldInNode.js:27-32 | the search misses if and only if no strict descendant is named `fieldName` |
| FieldLocator.FindsTheUniqueControl | src/findFieldInNode.js:11-29 | when exactly one strict descendant is named `fieldName`, the path to it is the result |
| FieldLocator.NestedControlFound | test/specs/findFieldInNode.spec.js:14-28 | a named control wrapped in any number (at least one) of single-child containers is found, and the path found leads to that control |
| FieldLocator.TenLevelsDeep | test/specs/findFieldInNode.spec.js:14-28 | an input named "bar" under ten nested divs is the control returned |
| FieldLocator.DirectChildFound | test/specs/findFieldInNode.spec.js:4-12 | an input named "foo" directly inside a div is the control returned |
| FieldLocator.EmptyContainerMisses | test/specs/findFieldInNode.spec.js:30-33 | searching an empty div for "baz" yields the miss value |
| FieldLocator.EmptyNameNeverFound | src/findFieldInNode.js:11-12 | searching for the empty name misses on every tree, and no node counts as carrying it |
| FieldLocator.FindFieldAsWritten | src/findFieldInNode.js:10-13 | on an element, a name the child collection inherits returns that inherited property instead of a node, and only on an element; a node without a child collection always yields `false`; for every other name a returned control is the search's match, and a miss happens exactly when no strict descendant carries the name |
| FieldLocator.ItemFieldIsShadowed | src/findFieldInNode.js:11-12 | a div whose only child is a control named "item" yields the `item` method of `HTMLCollection.prototype` as written, while the corrected search returns the control |
| FieldLocator.DirectChildBeatsEarlierDeepMatch | src/findFieldInNode.js:11-13 | in a div holding a wrapped "x" and then a bare "x", the bare direct child is returned although the wrapped one comes first in document order |

## Findings

| source | as written | input that shows it | evidently intended | confidence | as-written member | corrected member |
|---|---|---|---|---|---|---|
| src/findFieldInNode.js:11-12 | `fieldName in node.children` is also true for names the child collection inherits (`length`, `item`, `namedItem`, `toString`, `constructor`, ...), and line 12 then returns that property | a div holding one input named `item`, searched for `item`, returns the `item` method of `HTMLCollection.prototype` instead of the input | the function returns the node carrying the name, or `false`, as its doc comment at lines 2 and 7 says | high, not executed | FieldLocator.FindFieldAsWritten, FieldLocator.ItemFieldIsShadowed | FieldLocator.FindFieldInNode |

The rest of the model (`FindFieldPath`, `FindFieldInNode` and the lemmas
about them) follows the intended behaviour. An inherited name is searched for
like any other field name there.

## Left out

- Matching by `id` and by numeric index: `fieldName in node.children` on a DOM
  `HTMLCollection` also matches an element whose `id` equals `fieldName`, and a
  numeric string selects a child by position. The model matches by the `name`
  attribute only.
- Inherited property names: only `FindFieldAsWritten` models them. It does
  not model the values of those properties, such as the child count returned
  for `length`, which is falsy for an empty collection.
- Inputs that are not objects: `'children' in node` at line 10 throws a
  `TypeError` when `node` is `null` or `undefined`. The `Node` type has no such
  value, so the model has no error outcome.
- Node identity: the source returns the node object itself. The model returns
  the path to it, and `FindFieldInNode` the node value at that path.
- The `SchemaForm` component (field and schema rendering, the validation
  coordinator): `src/components/SchemaForm` is not part of this model.
- Native constraint validation (`checkValidity`, `ValidityState`) and its
  polyfill set-up in the test environment: foreign browser and library calls.
- Vue lifecycle, mounting, events and the validation promise: framework
  plumbing and asynchronous event flow.
- Cyclic object graphs: the model's trees are finite and acyclic by
  construction, as a rendered DOM tree is.
