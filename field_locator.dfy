/**
 * The Field Locator: given a rendered tree and a field name, find the form
 * control that carries that name (src/findFieldInNode.js).
 *
 * The search has two phases. First the node's direct children are asked for
 * one named `fieldName`; the first such child wins. Only when there is none
 * does the search descend, child by child in document order, stopping at the
 * first child whose own search succeeds. A miss is the value `None` (the
 * source returns `false`), never an error.
 *
 * Results are paths of child indices, so that they say WHICH occurrence was
 * found even when two subtrees are structurally equal.
 */
module FieldLocator {
  import opened Wrappers

  /** A node of the rendered tree. `NoChildren` is an object that has no
      `children` collection at all; an `Element` has a (possibly absent)
      `name` attribute and an ordered collection of child elements. */
  datatype Node =
    | Element(name: Option<string>, children: seq<Node>)
    | NoChildren

  /** A path of child indices, read from the root downwards. */
  type Path = seq<nat>

  /** True when `node` is addressable in its parent's child collection by
      `fieldName`. A DOM child collection never answers to the empty name. */
  predicate HasName(node: Node, fieldName: string)
  {
    fieldName != "" && node.Element? && node.name == Some(fieldName)
  }

  /** The node reached from `node` by following `path`, if every step exists. */
  function At(node: Node, path: Path): Option<Node>
    decreases path
  {
    if path == [] then Some(node)
    else match node
      case NoChildren => None
      case Element(_, children) =>
        if path[0] < |children| then At(children[path[0]], path[1..]) else None
  }

  /** `path` leads from `node` to a strict descendant named `fieldName`. */
  predicate IsMatch(node: Node, path: Path, fieldName: string)
  {
    |path| >= 1 && At(node, path).Some? && HasName(At(node, path).value, fieldName)
  }

  /** Some strict descendant of `node` is named `fieldName`. */
  ghost predicate HasNamedDescendant(node: Node, fieldName: string)
  {
    exists path :: IsMatch(node, path, fieldName)
  }

  lemma AtCons(node: Node, k: nat, rest: Path)
    requires node.Element? && k < |node.children|
    ensures At(node, [k] + rest) == At(node.children[k], rest)
  {
  }

  /**
   * The direct-child lookup `fieldName in node.children` followed by
   * `node.children[fieldName]`: the index of the first child, from `from` on,
   * that is named `fieldName`.
   */
  function FirstNamedChild(children: seq<Node>, fieldName: string, from: nat): (r: Option<nat>)
    requires from <= |children|
    ensures r.Some? ==> from <= r.value < |children| && HasName(children[r.value], fieldName)
    ensures r.Some? ==> forall j :: from <= j < r.value ==> !HasName(children[j], fieldName)
    ensures r.None? <==> forall j :: from <= j < |children| ==> !HasName(children[j], fieldName)
    decreases |children| - from
  {
    if from == |children| then None
    else if HasName(children[from], fieldName) then Some(from)
    else FirstNamedChild(children, fieldName, from + 1)
  }

  /**
   * `findFieldInNode(node, fieldName)`, returning the path to the control found.
   * A result is always a strict descendant of `node` named `fieldName`; a node
   * without a child collection, or with an empty one, yields `None`.
   */
  function FindFieldPath(node: Node, fieldName: string): (r: Option<Path>)
    ensures r.Some? ==> IsMatch(node, r.value, fieldName)
    ensures node.NoChildren? || node.children == [] ==> r.None?
    decreases node, 1
  {
    match node
    case NoChildren => None
    case Element(_, children) =>
      match FirstNamedChild(children, fieldName, 0)
      case Some(k) =>
        AtCons(node, k, []);
        Some([k])
      case None => SearchChildren(node, fieldName, 0)
  }

  /**
   * The ordered first-success scan `Array.from(node.children).some(...)` over
   * the children of `parent` from index `from` on: the first child whose own
   * search succeeds supplies the result, extended by that child's index.
   */
  function SearchChildren(parent: Node, fieldName: string, from: nat): (r: Option<Path>)
    requires parent.Element? && from <= |parent.children|
    ensures r.Some? ==> IsMatch(parent, r.value, fieldName)
    ensures r.Some? ==>
      from <= r.value[0] < |parent.children|
      && FindFieldPath(parent.children[r.value[0]], fieldName) == Some(r.value[1..])
      && forall j :: from <= j < r.value[0] ==> FindFieldPath(parent.children[j], fieldName).None?
    ensures r.None? <==>
      forall j :: from <= j < |parent.children| ==> FindFieldPath(parent.children[j], fieldName).None?
    decreases parent, 0, |parent.children| - from
  {
    if from == |parent.children| then None
    else match FindFieldPath(parent.children[from], fieldName)
      case Some(rest) =>
        AtCons(parent, from, rest);
        assert ([from] + rest)[1..] == rest;
        Some([from] + rest)
      case None => SearchChildren(parent, fieldName, from + 1)
  }

  /**
   * `findFieldInNode(node, fieldName)` as the source returns it: the control
   * itself, or `None` where the source returns `false`. It finds a control
   * exactly when one exists below `node`.
   */
  function FindFieldInNode(node: Node, fieldName: string): (r: Option<Node>)
    ensures r.Some? ==> HasName(r.value, fieldName)
    ensures r.Some? ==>
      FindFieldPath(node, fieldName).Some? && r == At(node, FindFieldPath(node, fieldName).value)
    ensures r.None? <==> !HasNamedDescendant(node, fieldName)
  {
    match FindFieldPath(node, fieldName)
    case Some(path) => At(node, path)
    case None =>
      NotFoundMeansAbsent(node, fieldName);
      None
  }

  // ---------------------------------------------------------------------
  // Search order

  /** A direct child named `fieldName` is returned, and it is the first such
      child, whatever the subtrees of earlier siblings contain. */
  lemma DirectChildWins(node: Node, fieldName: string, k: nat)
    requires node.Element? && k < |node.children| && HasName(node.children[k], fieldName)
    requires forall j :: 0 <= j < k ==> !HasName(node.children[j], fieldName)
    ensures FindFieldPath(node, fieldName) == Some([k])
  {
  }

  /** When no direct child is named `fieldName`, the search succeeds exactly
      through the lowest-index child whose own search succeeds. */
  lemma {:induction false} DescentTakesFirstSuccessfulChild(node: Node, fieldName: string, k: nat, rest: Path)
    requires node.Element? && k < |node.children|
    requires forall j :: 0 <= j < |node.children| ==> !HasName(node.children[j], fieldName)
    requires FindFieldPath(node.children[k], fieldName) == Some(rest)
    requires forall j :: 0 <= j < k ==> FindFieldPath(node.children[j], fieldName).None?
    ensures FindFieldPath(node, fieldName) == Some([k] + rest)
  {
    assert FirstNamedChild(node.children, fieldName, 0).None?;
    var r := SearchChildren(node, fieldName, 0);
    assert r.Some?;
    var k' := r.value[0];
    assert k' == k;
    assert r.value == [k] + rest;
  }

  // ---------------------------------------------------------------------
  // Completeness

  /** If some strict descendant is named `fieldName`, the search finds one. */
  lemma {:induction false} FoundWhenPresent(node: Node, path: Path, fieldName: string)
    requires IsMatch(node, path, fieldName)
    ensures FindFieldPath(node, fieldName).Some?
    decreases path
  {
    var k := path[0];
    assert node.Element? && k < |node.children|;
    AtCons(node, k, path[1..]);
    assert [k] + path[1..] == path;
    if FirstNamedChild(node.children, fieldName, 0).None? && |path| > 1 {
      FoundWhenPresent(node.children[k], path[1..], fieldName);
      assert SearchChildren(node, fieldName, 0).Some?;
    }
  }

  /** A miss means no strict descendant is named `fieldName`. */
  lemma NotFoundMeansAbsent(node: Node, fieldName: string)
    requires FindFieldPath(node, fieldName).None?
    ensures !HasNamedDescendant(node, fieldName)
  {
    if HasNamedDescendant(node, fieldName) {
      var path :| IsMatch(node, path, fieldName);
      FoundWhenPresent(node, path, fieldName);
    }
  }

  /** The search misses exactly when no strict descendant is named `fieldName`. */
  lemma MissIffAbsent(node: Node, fieldName: string)
    ensures FindFieldPath(node, fieldName).None? <==> !HasNamedDescendant(node, fieldName)
  {
    if FindFieldPath(node, fieldName).None? {
      NotFoundMeansAbsent(node, fieldName);
    } else {
      assert IsMatch(node, FindFieldPath(node, fieldName).value, fieldName);
    }
  }

  /** With field names unique in the tree, the one control carrying the name is found. */
  lemma FindsTheUniqueControl(node: Node, path: Path, fieldName: string)
    requires IsMatch(node, path, fieldName)
    requires forall other :: IsMatch(node, other, fieldName) ==> other == path
    ensures FindFieldPath(node, fieldName) == Some(path)
  {
    FoundWhenPresent(node, path, fieldName);
  }

  /** The empty field name is never found, whatever the tree holds. */
  lemma EmptyNameNeverFound(node: Node)
    ensures FindFieldPath(node, "") == None
    ensures !HasNamedDescendant(node, "")
  {
  }

  // ---------------------------------------------------------------------
  // Shapes exercised by the source's own tests

  /** A control: an element with a name and an empty child collection. */
  function Control(fieldName: string): Node
  {
    Element(Some(fieldName), [])
  }

  /** A container: an element without a name. */
  function Container(children: seq<Node>): Node
  {
    Element(None, children)
  }

  /** `leaf` wrapped in `depth` single-child containers. */
  function Nest(leaf: Node, depth: nat): Node
  {
    if depth == 0 then leaf else Container([Nest(leaf, depth - 1)])
  }

  /** The path of `depth` zeros, leading through `depth` single-child containers. */
  function Zeros(depth: nat): Path
  {
    if depth == 0 then [] else [0] + Zeros(depth - 1)
  }

  /** A named control wrapped in any number (at least one) of single-child
      containers is found, and the path found leads to that very control. */
  lemma {:induction false} NestedControlFound(leaf: Node, fieldName: string, depth: nat)
    requires HasName(leaf, fieldName) && depth >= 1
    ensures FindFieldPath(Nest(leaf, depth), fieldName) == Some(Zeros(depth))
    ensures At(Nest(leaf, depth), Zeros(depth)) == Some(leaf)
  {
    var node := Nest(leaf, depth);
    if depth == 1 {
      assert Nest(leaf, 0) == leaf;
      assert Zeros(depth) == [0];
      DirectChildWins(node, fieldName, 0);
      AtCons(node, 0, []);
    } else {
      NestedControlFound(leaf, fieldName, depth - 1);
      assert !HasName(node.children[0], fieldName);
      DescentTakesFirstSuccessfulChild(node, fieldName, 0, Zeros(depth - 1));
      AtCons(node, 0, Zeros(depth - 1));
    }
  }

  /** An input named "bar" under ten nested divs is found. */
  lemma TenLevelsDeep()
    ensures FindFieldInNode(Nest(Control("bar"), 10), "bar") == Some(Control("bar"))
  {
    NestedControlFound(Control("bar"), "bar", 10);
  }

  /** An input named "foo" directly inside a div is found. */
  lemma DirectChildFound()
    ensures FindFieldInNode(Container([Control("foo")]), "foo") == Some(Control("foo"))
  {
  }

  /** An empty div yields a miss, not an error. */
  lemma EmptyContainerMisses()
    ensures FindFieldInNode(Container([]), "baz") == None
  {
  }

  /** A direct child beats a deeper match sitting in an earlier sibling. */
  lemma DirectChildBeatsEarlierDeepMatch()
    ensures var tree := Container([Container([Control("x")]), Control("x")]);
      IsMatch(tree, [0, 0], "x") && FindFieldPath(tree, "x") == Some([1])
  {
  }

  // ---------------------------------------------------------------------
  // Inherited property names

  /** Names for which `fieldName in node.children` holds through the
      prototype chain of a DOM `HTMLCollection` rather than through a child:
      the properties `length`, `item` and `namedItem` of
      `HTMLCollection.prototype`, and the members of `Object.prototype`. */
  const InheritedNames: set<string> := {
    "length", "item", "namedItem",
    "constructor", "hasOwnProperty", "isPrototypeOf", "propertyIsEnumerable",
    "toLocaleString", "toString", "valueOf",
    "__defineGetter__", "__defineSetter__", "__lookupGetter__", "__lookupSetter__",
    "__proto__"
  }

  /** The value `findFieldInNode` returns as written: the control at a path,
      the inherited property named `name` (a function, an object, or the
      child count for `length`), or `false`. */
  datatype Lookup = FoundControl(path: Path) | InheritedProperty(name: string) | NotFound

  /**
   * `findFieldInNode(node, fieldName)` as written. On an element, an inherited
   * name passes the test `fieldName in node.children` and the property of
   * that name is returned in place of a node; every other name is searched
   * as `FindFieldPath` does.
   */
  function FindFieldAsWritten(node: Node, fieldName: string): (r: Lookup)
    ensures r.FoundControl? ==>
      IsMatch(node, r.path, fieldName) && FindFieldPath(node, fieldName) == Some(r.path)
    ensures r.InheritedProperty? ==>
      node.Element? && r.name == fieldName && fieldName in InheritedNames
    ensures node.NoChildren? ==> r == NotFound
    ensures node.Element? && fieldName in InheritedNames ==> r == InheritedProperty(fieldName)
    ensures fieldName !in InheritedNames ==> (r.NotFound? <==> !HasNamedDescendant(node, fieldName))
  {
    if node.Element? && fieldName in InheritedNames then InheritedProperty(fieldName)
    else match FindFieldPath(node, fieldName)
      case Some(path) => FoundControl(path)
      case None =>
        MissIffAbsent(node, fieldName);
        NotFound
  }

  /** A field named "item" is never located as written: the search returns
      the `item` method of `HTMLCollection.prototype`, although the control is a direct child
      and `FindFieldInNode` returns it. */
  lemma ItemFieldIsShadowed()
    ensures var tree := Container([Control("item")]);
      HasNamedDescendant(tree, "item")
      && FindFieldAsWritten(tree, "item") == InheritedProperty("item")
      && FindFieldInNode(tree, "item") == Some(Control("item"))
  {
    var tree := Container([Control("item")]);
    assert IsMatch(tree, [0], "item");
  }
}
