/** The meaning of `ParseObjectFromJSON` and its helpers, as functions from the registry's names,
    the depth limit, the node built so far and the value to parse, to the node as the step leaves
    it and the error it returns. The imperative methods of module ObjectParser are proved equal
    to these functions; the lemmas of module ParseProperties are proved about them. */
module RuleSpec {
  import opened Wrappers
  import opened Json
  import opened Objects

  /** The node `n` extends `p`: same level, and `p`'s children are still its first children. */
  predicate Extends(n: Node, p: Node)
  {
    n.level == p.level && p.children <= n.children
  }

  /** `isObjectValid`: the root forms rejected before any shape is tried. On the compact
      serialisation of a value, `""` and `null` are the empty string and null, and a leading `[`
      is a list. */
  function IsObjectValid(b: Json): (r: Option<ParseError>)
    ensures r == Some(Undefined) <==> b == JString("") || b == JNull
    ensures r == Some(NotAcceptable) <==> b.JArray?
    ensures r.Some? ==> r.value == Undefined || r.value == NotAcceptable
  {
    if b == JString("") || b == JNull then Some(Undefined)
    else if b.JArray? then Some(NotAcceptable)
    else None
  }

  /** `ParseObjectFromJSON`: the finished tree, or the first error; never a partial tree. */
  function ParseFromJson(names: seq<string>, maxDepth: int, b: Json): (r: Result<Node, ParseError>)
    ensures r.Success? ==> r.value.level == 0 && IsObjectValid(b).None?
  {
    match IsObjectValid(b)
    case Some(e) => Failure(e)
    case None =>
      var s := ParseNode(names, maxDepth, Blank(0), b);
      if s.err.Some? then Failure(s.err.value) else Success(s.node)
  }

  /** `parseObject`: the depth check, then the three shapes in order; a step that succeeds or
      fails with one of the parser's own errors is final, any other error falls through to the
      next shape, on the node as the failed shape left it. */
  function ParseNode(names: seq<string>, maxDepth: int, p: Node, b: Json): (r: Step)
    ensures Extends(r.node, p)
    decreases Size(b), 3
  {
    if p.level > maxDepth then Step(p, Some(MaxDepthExceeded))
    else
      var s1 := FromString(names, p, b);
      if s1.Final() then s1
      else
        var s2 := WithChildren(names, maxDepth, s1.node, b);
        if s2.Final() then s2
        else WithArguments(names, s2.node, b)
  }

  /** `parseObjectFromString`: a string (or null, read as "") that is a registered name. */
  function FromString(names: seq<string>, p: Node, b: Json): (r: Step)
    ensures r.node == p.(name := r.node.name)
  {
    match DecodeString(b)
    case None => Step(p, Some(Malformed))
    case Some(s) => if s in names then Step(p.(name := s), None) else Step(p, Some(NotFound(s)))
  }

  /** `parseObjectWithChildren`: an object whose values are lists of child rules. */
  function WithChildren(names: seq<string>, maxDepth: int, p: Node, b: Json): (r: Step)
    ensures Extends(r.node, p)
    decreases Size(b), 2
  {
    match DecodeListMap(b)
    case None => Step(p, Some(Malformed))
    case Some(ls) =>
      DecodeListMapSmaller(b, ls);
      KeysLoop(names, maxDepth, p, ls)
  }

  /** The loop over the keys of the list map: each key must be registered; it becomes the
      node's name and its list elements are parsed as children. */
  function KeysLoop(names: seq<string>, maxDepth: int, p: Node, ls: seq<ListMember>): (r: Step)
    ensures Extends(r.node, p)
    decreases SizeLists(ls), 1
  {
    if ls == [] then Step(p, None)
    else if ls[0].key !in names then Step(p, Some(NotFound(ls[0].key)))
    else
      var s := ElemsLoop(names, maxDepth, p.(name := ls[0].key), ls[0].items);
      if s.err.Some? then s else KeysLoop(names, maxDepth, s.node, ls[1..])
  }

  /** The loop over one key's list: each element is parsed as a fresh node one level down and
      appended on success; the first failing child ends the loop with its error. */
  function ElemsLoop(names: seq<string>, maxDepth: int, p: Node, items: seq<Json>): (r: Step)
    ensures Extends(r.node, p)
    ensures r.node.(children := p.children) == p
    decreases SizeItems(items), 4
  {
    if items == [] then Step(p, None)
    else
      var c := ParseNode(names, maxDepth, Blank(p.level + 1), items[0]);
      if c.err.Some? then Step(p, c.err)
      else ElemsLoop(names, maxDepth, p.(children := p.children + [c.node]), items[1..])
  }

  /** `parseObjectWithArguments`: an object whose values are kept raw as arguments. */
  function WithArguments(names: seq<string>, p: Node, b: Json): (r: Step)
    ensures r.node.level == p.level && r.node.children == p.children
  {
    match DecodeRawMap(b)
    case None => Step(p, Some(Malformed))
    case Some(ms) => ArgsLoop(names, p, ms)
  }

  /** The loop over the keys of the raw map: each key must be registered; it becomes the
      node's name and its raw value the node's arguments. */
  function ArgsLoop(names: seq<string>, p: Node, ms: seq<Member>): (r: Step)
    ensures r.node.level == p.level && r.node.children == p.children
    decreases ms
  {
    if ms == [] then Step(p, None)
    else if ms[0].key !in names then Step(p, Some(NotFound(ms[0].key)))
    else ArgsLoop(names, p.(name := ms[0].key, arguments := Some(ms[0].value)), ms[1..])
  }
}
