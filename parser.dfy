/** The rule parser as the package runs it: each method takes the node the Go code mutates
    through its `*Object` parameter and returns the node as it leaves it, with the error it
    returns. Every `*Object` is freshly allocated and owned by its parent alone, so threading
    the node as a value loses no sharing. The registry is only read. */
module ObjectParser {
  import opened Wrappers
  import opened Json
  import opened Objects
  import opened NameRegistry
  import opened RuleSpec

  /** `ParseObjectFromJSON`: root checks, then the recursive parse from a blank level-0 node. */
  method ParseObjectFromJSON(reg: Registry, b: Json) returns (r: Result<Node, ParseError>)
    ensures r == ParseFromJson(reg.names, reg.maxDepth, b)
  {
    var invalid := IsObjectValid(b);
    if invalid.Some? {
      return Failure(invalid.value);
    }
    var obj, err := ParseObject(reg, Blank(0), b);
    if err.Some? {
      return Failure(err.value);
    }
    return Success(obj);
  }

  /** `parseObject`: the depth check, then the three shapes in order with the fallback rule. */
  method ParseObject(reg: Registry, parent: Node, b: Json) returns (node: Node, err: Option<ParseError>)
    ensures Step(node, err) == ParseNode(reg.names, reg.maxDepth, parent, b)
    decreases Size(b), 3
  {
    if parent.level > reg.maxDepth {
      return parent, Some(MaxDepthExceeded);
    }
    node, err := ParseObjectFromString(reg, parent, b);
    if err.None? || IsObjectError(err.value) {
      return;
    }
    node, err := ParseObjectWithChildren(reg, node, b);
    if err.None? || IsObjectError(err.value) {
      return;
    }
    node, err := ParseObjectWithArguments(reg, node, b);
  }

  /** `parseObjectFromString`. */
  method ParseObjectFromString(reg: Registry, parent: Node, b: Json) returns (node: Node, err: Option<ParseError>)
    ensures Step(node, err) == FromString(reg.names, parent, b)
  {
    node := parent;
    var decoded := DecodeString(b);
    if decoded.None? {
      return node, Some(Malformed);
    }
    err := reg.IsSupported(decoded.value);
    if err.Some? {
      return;
    }
    node := node.(name := decoded.value);
  }

  /** `parseObjectWithChildren`: the loop over the keys and, inside it, over each key's list. */
  method ParseObjectWithChildren(reg: Registry, parent: Node, b: Json) returns (node: Node, err: Option<ParseError>)
    ensures Step(node, err) == WithChildren(reg.names, reg.maxDepth, parent, b)
    decreases Size(b), 2
  {
    node := parent;
    var decoded := DecodeListMap(b);
    if decoded.None? {
      return node, Some(Malformed);
    }
    var ls := decoded.value;
    var i := 0;
    while i < |ls|
      invariant 0 <= i <= |ls|
      invariant KeysLoop(reg.names, reg.maxDepth, parent, ls) == KeysLoop(reg.names, reg.maxDepth, node, ls[i..])
    {
      assert ls[i..][0] == ls[i] && ls[i..][1..] == ls[i + 1..];
      err := reg.IsSupported(ls[i].key);
      if err.Some? {
        return;
      }
      node := node.(name := ls[i].key);
      ghost var named := node;
      var items := ls[i].items;
      var j := 0;
      while j < |items|
        invariant 0 <= j <= |items|
        invariant ElemsLoop(reg.names, reg.maxDepth, named, items) == ElemsLoop(reg.names, reg.maxDepth, node, items[j..])
      {
        assert items[j..][0] == items[j] && items[j..][1..] == items[j + 1..];
        ListItemSmaller(b, ls, i, j);
        var child, childErr := ParseObject(reg, Blank(node.level + 1), items[j]);
        if childErr.Some? {
          return node, childErr;
        }
        node := node.(children := node.children + [child]);
        j := j + 1;
      }
      i := i + 1;
    }
    err := None;
  }

  /** `parseObjectWithArguments`: the loop over the keys, each value kept raw. */
  method ParseObjectWithArguments(reg: Registry, parent: Node, b: Json) returns (node: Node, err: Option<ParseError>)
    ensures Step(node, err) == WithArguments(reg.names, parent, b)
  {
    node := parent;
    var decoded := DecodeRawMap(b);
    if decoded.None? {
      return node, Some(Malformed);
    }
    var ms := decoded.value;
    var i := 0;
    while i < |ms|
      invariant 0 <= i <= |ms|
      invariant ArgsLoop(reg.names, parent, ms) == ArgsLoop(reg.names, node, ms[i..])
    {
      assert ms[i..][0] == ms[i] && ms[i..][1..] == ms[i + 1..];
      err := reg.IsSupported(ms[i].key);
      if err.Some? {
        return;
      }
      node := node.(name := ms[i].key, arguments := Some(ms[i].value));
      i := i + 1;
    }
    err := None;
  }
}
