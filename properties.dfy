/** What the rule parser promises, proved about the functions of module RuleSpec. */
module ParseProperties {
  import opened Wrappers
  import opened Json
  import opened Objects
  import opened RuleSpec

  // ---------------------------------------------------------------------------
  // Reference definitions: the children a list yields, and where its first failure is.

  /** Parsing one list element as a fresh child at `level`. */
  function Child(names: seq<string>, maxDepth: int, level: nat, e: Json): Step
  {
    ParseNode(names, maxDepth, Blank(level), e)
  }

  /** The index of the first list element whose parse fails, or the list's length. */
  function FailAt(names: seq<string>, maxDepth: int, level: nat, items: seq<Json>): (k: nat)
    ensures k <= |items|
  {
    if items == [] then 0
    else if Child(names, maxDepth, level, items[0]).err.Some? then 0
    else 1 + FailAt(names, maxDepth, level, items[1..])
  }

  /** `FailAt` is the first failure: every element before it parses, the one at it fails. */
  lemma {:induction false} FailAtSpec(names: seq<string>, maxDepth: int, level: nat, items: seq<Json>)
    ensures var k := FailAt(names, maxDepth, level, items);
      && (forall i :: 0 <= i < k ==> Child(names, maxDepth, level, items[i]).err.None?)
      && (k < |items| ==> Child(names, maxDepth, level, items[k]).err.Some?)
  {
    if items != [] && Child(names, maxDepth, level, items[0]).err.None? {
      FailAtSpec(names, maxDepth, level, items[1..]);
      var k := FailAt(names, maxDepth, level, items);
      forall i | 0 < i < k
        ensures Child(names, maxDepth, level, items[i]).err.None?
      {
        assert items[i] == items[1..][i - 1];
      }
      if k < |items| {
        assert items[k] == items[1..][k - 1];
      }
    }
  }

  /** The nodes the elements of a list parse to, each on its own. */
  function ChildNodes(names: seq<string>, maxDepth: int, level: nat, items: seq<Json>): seq<Node>
  {
    seq(|items|, i requires 0 <= i < |items| => Child(names, maxDepth, level, items[i]).node)
  }

  /** The index of the first member whose key is not registered, or the number of members. */
  function FirstUnregistered(names: seq<string>, ms: seq<Member>): (k: nat)
    ensures k <= |ms|
    ensures forall i :: 0 <= i < k ==> ms[i].key in names
    ensures k < |ms| ==> ms[k].key !in names
  {
    if ms == [] then 0
    else if ms[0].key !in names then 0
    else 1 + FirstUnregistered(names, ms[1..])
  }

  // ---------------------------------------------------------------------------
  // The two loops.

  lemma ChildNodesCons(names: seq<string>, maxDepth: int, level: nat, items: seq<Json>, k: nat)
    requires 1 <= k <= |items|
    ensures ChildNodes(names, maxDepth, level, items[..k])
         == [Child(names, maxDepth, level, items[0]).node] + ChildNodes(names, maxDepth, level, items[1..][..k - 1])
  {
    assert items[..k] == [items[0]] + items[1..][..k - 1];
  }

  /** The element loop appends, in list order, the nodes of the elements before the first
      failing one, and returns that element's error unchanged (nil if none fails). */
  lemma {:induction false} ElemsLoopResult(names: seq<string>, maxDepth: int, p: Node, items: seq<Json>)
    ensures var k := FailAt(names, maxDepth, p.level + 1, items);
      ElemsLoop(names, maxDepth, p, items)
      == Step(p.(children := p.children + ChildNodes(names, maxDepth, p.level + 1, items[..k])),
              if k == |items| then None else Child(names, maxDepth, p.level + 1, items[k]).err)
    decreases |items|
  {
    var level := p.level + 1;
    if items == [] {
      assert p.children + [] == p.children;
    } else {
      var c := Child(names, maxDepth, level, items[0]);
      if c.err.Some? {
        assert FailAt(names, maxDepth, level, items) == 0;
        assert ChildNodes(names, maxDepth, level, items[..0]) == [];
        assert p.children + [] == p.children;
      } else {
        var p' := p.(children := p.children + [c.node]);
        assert ElemsLoop(names, maxDepth, p, items) == ElemsLoop(names, maxDepth, p', items[1..]);
        ElemsLoopResult(names, maxDepth, p', items[1..]);
        var k' := FailAt(names, maxDepth, level, items[1..]);
        var k := k' + 1;
        assert FailAt(names, maxDepth, level, items) == k;
        ChildNodesCons(names, maxDepth, level, items, k);
        var rest := ChildNodes(names, maxDepth, level, items[1..][..k']);
        assert p'.children + rest == p.children + ([c.node] + rest);
        if k' < |items[1..]| {
          assert items[1..][k'] == items[k];
        }
      }
    }
  }

  /** The argument loop fails on the first unregistered key, naming it; otherwise the last key
      names the node and its raw value is the node's arguments. Children are never touched. */
  lemma {:induction false} ArgsLoopResult(names: seq<string>, p: Node, ms: seq<Member>)
    ensures var k := FirstUnregistered(names, ms);
      var r := ArgsLoop(names, p, ms);
      && r.err == (if k == |ms| then None else Some(NotFound(ms[k].key)))
      && (ms == [] ==> r.node == p)
      && (k == |ms| && ms != [] ==>
            r.node == p.(name := ms[|ms| - 1].key, arguments := Some(ms[|ms| - 1].value)))
    decreases ms
  {
    if ms != [] && ms[0].key in names {
      var p' := p.(name := ms[0].key, arguments := Some(ms[0].value));
      ArgsLoopResult(names, p', ms[1..]);
      if FirstUnregistered(names, ms[1..]) < |ms[1..]| {
        assert ms[1..][FirstUnregistered(names, ms[1..])] == ms[FirstUnregistered(names, ms)];
      }
    }
  }

  /** The children all the lists of a list map yield, key after key. */
  function AllChildNodes(names: seq<string>, maxDepth: int, level: nat, ls: seq<ListMember>): seq<Node>
  {
    if ls == [] then [] else ChildNodes(names, maxDepth, level, ls[0].items) + AllChildNodes(names, maxDepth, level, ls[1..])
  }

  /** When no element fails, the element loop appends every element's node, in list order. */
  lemma ElemsLoopAllParse(names: seq<string>, maxDepth: int, p: Node, items: seq<Json>)
    requires FailAt(names, maxDepth, p.level + 1, items) == |items|
    ensures ElemsLoop(names, maxDepth, p, items)
         == Step(p.(children := p.children + ChildNodes(names, maxDepth, p.level + 1, items)), None)
  {
    ElemsLoopResult(names, maxDepth, p, items);
    assert items[..|items|] == items;
  }

  /** One iteration of the key loop when the key is registered and its whole list parses. */
  lemma KeysLoopStep(names: seq<string>, maxDepth: int, p: Node, ls: seq<ListMember>)
    requires ls != [] && ls[0].key in names
    requires FailAt(names, maxDepth, p.level + 1, ls[0].items) == |ls[0].items|
    ensures KeysLoop(names, maxDepth, p, ls)
         == KeysLoop(names, maxDepth,
                     p.(name := ls[0].key,
                        children := p.children + ChildNodes(names, maxDepth, p.level + 1, ls[0].items)), ls[1..])
  {
    ElemsLoopAllParse(names, maxDepth, p.(name := ls[0].key), ls[0].items);
  }

  /** Every key of the list map is registered and every element of its list parses. */
  predicate AllKeysParse(names: seq<string>, maxDepth: int, level: nat, ls: seq<ListMember>)
  {
    ls == [] ||
    (ls[0].key in names && FailAt(names, maxDepth, level, ls[0].items) == |ls[0].items|
     && AllKeysParse(names, maxDepth, level, ls[1..]))
  }

  /** Several keys bound to lists: when every key is registered and every element parses, the
      children of all keys accumulate on the one node, key after key, and the last key names it. */
  lemma {:induction false} KeysLoopResult(names: seq<string>, maxDepth: int, p: Node, ls: seq<ListMember>)
    requires AllKeysParse(names, maxDepth, p.level + 1, ls)
    ensures KeysLoop(names, maxDepth, p, ls)
         == Step(if ls == [] then p
                 else p.(name := ls[|ls| - 1].key,
                         children := p.children + AllChildNodes(names, maxDepth, p.level + 1, ls)), None)
    decreases |ls|
  {
    if ls != [] {
      var level := p.level + 1;
      KeysLoopStep(names, maxDepth, p, ls);
      var first := ChildNodes(names, maxDepth, level, ls[0].items);
      var next := p.(name := ls[0].key, children := p.children + first);
      KeysLoopResult(names, maxDepth, next, ls[1..]);
      var rest := AllChildNodes(names, maxDepth, level, ls[1..]);
      assert AllChildNodes(names, maxDepth, level, ls) == first + rest;
      if ls[1..] == [] {
        assert first + [] == first;
      } else {
        assert ls[1..][|ls[1..]| - 1] == ls[|ls| - 1];
        assert (p.children + first) + rest == p.children + (first + rest);
      }
    }
  }

  // ---------------------------------------------------------------------------
  // The shapes, for a node at a level within the limit.

  /** Beyond the depth limit the node fails before any decoding and is left as it was. */
  lemma DepthExceeded(names: seq<string>, maxDepth: int, p: Node, b: Json)
    requires p.level > maxDepth
    ensures ParseNode(names, maxDepth, p, b) == Step(p, Some(MaxDepthExceeded))
  {
  }

  /** A bare string names a leaf if it is registered and is `NotFound`, naming it, otherwise;
      `null` is read as the name "". */
  lemma BareString(names: seq<string>, maxDepth: int, level: nat, b: Json, s: string)
    requires level <= maxDepth
    requires b == JString(s) || (b == JNull && s == "")
    ensures ParseNode(names, maxDepth, Blank(level), b)
         == if s in names then Step(Node(s, level, [], None), None)
            else Step(Blank(level), Some(NotFound(s)))
  {
  }

  /** An object without keys passes the list shape without a single iteration: an unnamed leaf. */
  lemma EmptyObject(names: seq<string>, maxDepth: int, level: nat)
    requires level <= maxDepth
    ensures ParseNode(names, maxDepth, Blank(level), JObject([])) == Step(Blank(level), None)
  {
    assert DecodeListMap(JObject([])) == Some([]);
  }

  /** A list map with a single registered key: the key names the node, then its list is parsed. */
  lemma KeysLoopSingle(names: seq<string>, maxDepth: int, p: Node, k: string, items: seq<Json>)
    requires k in names
    ensures KeysLoop(names, maxDepth, p, [ListMember(k, items)]) == ElemsLoop(names, maxDepth, p.(name := k), items)
  {
    var ls := [ListMember(k, items)];
    assert ls[1..] == [];
  }

  /** A single key bound to a list (or null). An unregistered key is `NotFound`. Otherwise the
      elements become children in list order; an error of the parser's own in a child ends the
      parse with that error; any other child error makes the node fall back to the argument
      shape, keeping its name and the children parsed so far and taking the list as arguments. */
  lemma ListShape(names: seq<string>, maxDepth: int, level: nat, k: string, v: Json)
    requires level <= maxDepth
    requires IsListValue(v)
    ensures var r := ParseNode(names, maxDepth, Blank(level), JObject([Member(k, v)]));
      var items := Items(v);
      var j := FailAt(names, maxDepth, level + 1, items);
      var kids := ChildNodes(names, maxDepth, level + 1, items[..j]);
      && (k !in names ==> r == Step(Blank(level), Some(NotFound(k))))
      && (k in names && j == |items| ==>
            r == Step(Node(k, level, kids, None), None) && |kids| == |items|)
      && (k in names && j < |items| && Child(names, maxDepth, level + 1, items[j]).err != Some(Malformed) ==>
            r.err == Child(names, maxDepth, level + 1, items[j]).err && r.err.Some?)
      && (k in names && j < |items| && Child(names, maxDepth, level + 1, items[j]).err == Some(Malformed) ==>
            r == Step(Node(k, level, kids, Some(v)), None))
  {
    var ms := [Member(k, v)];
    var b := JObject(ms);
    var p := Blank(level);
    SingleMemberDecodes(k, v);
    FailAtSpec(names, maxDepth, level + 1, Items(v));
    var s2 := WithChildren(names, maxDepth, p, b);
    assert s2 == KeysLoop(names, maxDepth, p, [ListMember(k, Items(v))]);
    if k in names {
      KeysLoopSingle(names, maxDepth, p, k, Items(v));
      ElemsLoopResult(names, maxDepth, p.(name := k), Items(v));
      ArgsLoopResult(names, s2.node, ms);
    }
  }

  /** The compositional form of the list shape: when every element parses on its own to a
      node, a registered key bound to the list yields a node with exactly those children,
      one per element and in list order. */
  lemma ListOfChildren(names: seq<string>, maxDepth: int, level: nat, k: string, items: seq<Json>, nodes: seq<Node>)
    requires level <= maxDepth && k in names
    requires |nodes| == |items|
    requires forall i :: 0 <= i < |items| ==> Child(names, maxDepth, level + 1, items[i]) == Step(nodes[i], None)
    ensures ParseNode(names, maxDepth, Blank(level), JObject([Member(k, JArray(items))]))
         == Step(Node(k, level, nodes, None), None)
  {
    ListShape(names, maxDepth, level, k, JArray(items));
    FailAtSpec(names, maxDepth, level + 1, items);
    var j := FailAt(names, maxDepth, level + 1, items);
    assert j == |items|;
    assert items[..j] == items;
    assert ChildNodes(names, maxDepth, level + 1, items) == nodes;
  }

  /** An error of the parser's own in a child propagates unchanged: the node bound to the list
      fails with exactly the first failing child's error. */
  lemma ListChildError(names: seq<string>, maxDepth: int, level: nat, k: string, items: seq<Json>, j: nat, e: ParseError)
    requires level <= maxDepth && k in names
    requires j < |items| && forall i :: 0 <= i < j ==> Child(names, maxDepth, level + 1, items[i]).err.None?
    requires Child(names, maxDepth, level + 1, items[j]).err == Some(e) && IsObjectError(e)
    ensures ParseNode(names, maxDepth, Blank(level), JObject([Member(k, JArray(items))])).err == Some(e)
  {
    ListShape(names, maxDepth, level, k, JArray(items));
    FailAtSpec(names, maxDepth, level + 1, items);
    assert FailAt(names, maxDepth, level + 1, items) == j;
  }

  /** A single key bound to any other value: the value is kept raw as arguments, with no
      recursion and no children; an unregistered key is `NotFound`. */
  lemma ArgumentShape(names: seq<string>, maxDepth: int, level: nat, k: string, v: Json)
    requires level <= maxDepth
    requires !IsListValue(v)
    ensures ParseNode(names, maxDepth, Blank(level), JObject([Member(k, v)]))
         == if k in names then Step(Node(k, level, [], Some(v)), None)
            else Step(Blank(level), Some(NotFound(k)))
  {
    var ms := [Member(k, v)];
    SingleMemberDecodes(k, v);
    var p := Blank(level);
    assert WithChildren(names, maxDepth, p, JObject(ms)) == Step(p, Some(Malformed));
    if k in names {
      assert ArgsLoop(names, p, ms) == ArgsLoop(names, p.(name := k, arguments := Some(v)), []);
    }
  }

  // ---------------------------------------------------------------------------
  // Error routing.

  /** A decode error escapes a node only when the node's value is a number, a boolean or a list:
      every error raised below an object is of the parser's own or is absorbed by the fallback. */
  lemma MalformedOnlyFromScalars(names: seq<string>, maxDepth: int, p: Node, b: Json)
    ensures ParseNode(names, maxDepth, p, b).err == Some(Malformed)
        <==> p.level <= maxDepth && (b.JNumber? || b.JBool? || b.JArray?)
  {
    if p.level <= maxDepth && b.JObject? {
      var s2 := WithChildren(names, maxDepth, p, b);
      ArgsLoopResult(names, s2.node, Collapse(b.members));
    }
  }

  /** At the root, where lists are rejected first, only a number or a boolean is `Malformed`. */
  lemma RootMalformed(names: seq<string>, maxDepth: int, b: Json)
    ensures ParseFromJson(names, maxDepth, b) == Failure(Malformed)
        <==> maxDepth >= 0 && (b.JNumber? || b.JBool?)
  {
    MalformedOnlyFromScalars(names, maxDepth, Blank(0), b);
  }

  /** Before any shape: the empty string and null are `Undefined`, a list `NotAcceptable`. */
  lemma RootRejection(names: seq<string>, maxDepth: int, b: Json)
    ensures (b == JString("") || b == JNull) ==> ParseFromJson(names, maxDepth, b) == Failure(Undefined)
    ensures b.JArray? ==> ParseFromJson(names, maxDepth, b) == Failure(NotAcceptable)
    ensures ParseFromJson(names, maxDepth, b).Success? ==> !b.JArray? && b != JNull && b != JString("")
  {
  }

  // ---------------------------------------------------------------------------
  // The shape of every tree the parser returns.

  /** Levels stay within the limit, each child is one level below its parent, and each node's
      name is registered, except for the unnamed leaf a key-less object yields. */
  ghost predicate WellFormed(n: Node, names: seq<string>, maxDepth: int)
    decreases n, 1
  {
    && n.level <= maxDepth
    && (n.name in names || (n.name == "" && n.children == [] && n.arguments.None?))
    && ChildrenWellFormed(n, names, maxDepth)
  }

  ghost predicate ChildrenWellFormed(n: Node, names: seq<string>, maxDepth: int)
    decreases n, 0
  {
    forall i :: 0 <= i < |n.children| ==>
      n.children[i].level == n.level + 1 && WellFormed(n.children[i], names, maxDepth)
  }

  lemma ParseNodeWellFormed(names: seq<string>, maxDepth: int, level: nat, b: Json)
    ensures var r := ParseNode(names, maxDepth, Blank(level), b);
      r.err.None? ==> WellFormed(r.node, names, maxDepth)
    decreases Size(b), 3
  {
    var p := Blank(level);
    if level <= maxDepth && DecodeString(b).None? {
      var s2 := WithChildren(names, maxDepth, p, b);
      match DecodeListMap(b)
      case Some(ls) =>
        DecodeListMapSmaller(b, ls);
        KeysLoopWellFormed(names, maxDepth, p, ls);
        if s2.err.Some? && !IsObjectError(s2.err.value) {
          assert ls != [];
          ArgsLoopResult(names, s2.node, Collapse(b.members));
        }
      case None =>
        if b.JObject? {
          assert b.members != [];
          ArgsLoopResult(names, p, Collapse(b.members));
        }
    }
  }

  lemma KeysLoopWellFormed(names: seq<string>, maxDepth: int, p: Node, ls: seq<ListMember>)
    requires ChildrenWellFormed(p, names, maxDepth)
    ensures var r := KeysLoop(names, maxDepth, p, ls);
      && ChildrenWellFormed(r.node, names, maxDepth)
      && r.node.arguments == p.arguments
      && (ls != [] && r.err.None? ==> r.node.name in names)
    decreases SizeLists(ls), 1
  {
    if ls != [] && ls[0].key in names {
      var named := p.(name := ls[0].key);
      ElemsLoopWellFormed(names, maxDepth, named, ls[0].items);
      var s := ElemsLoop(names, maxDepth, named, ls[0].items);
      if s.err.None? {
        KeysLoopWellFormed(names, maxDepth, s.node, ls[1..]);
      }
    }
  }

  lemma ElemsLoopWellFormed(names: seq<string>, maxDepth: int, p: Node, items: seq<Json>)
    requires ChildrenWellFormed(p, names, maxDepth)
    ensures ChildrenWellFormed(ElemsLoop(names, maxDepth, p, items).node, names, maxDepth)
    decreases SizeItems(items), 4
  {
    if items != [] {
      var c := ParseNode(names, maxDepth, Blank(p.level + 1), items[0]);
      ParseNodeWellFormed(names, maxDepth, p.level + 1, items[0]);
      if c.err.None? {
        var p' := p.(children := p.children + [c.node]);
        assert ChildrenWellFormed(p', names, maxDepth) by {
          forall i | 0 <= i < |p'.children|
            ensures p'.children[i].level == p'.level + 1 && WellFormed(p'.children[i], names, maxDepth)
          {
            if i < |p.children| { assert p'.children[i] == p.children[i]; }
          }
        }
        ElemsLoopWellFormed(names, maxDepth, p', items[1..]);
      }
    }
  }

  /** Every tree `ParseObjectFromJSON` returns is rooted at level 0 and well formed. */
  lemma ParsedTreeWellFormed(names: seq<string>, maxDepth: int, b: Json)
    ensures ParseFromJson(names, maxDepth, b).Success? ==>
      var n := ParseFromJson(names, maxDepth, b).value;
      n.level == 0 && WellFormed(n, names, maxDepth)
  {
    ParseNodeWellFormed(names, maxDepth, 0, b);
  }

  // ---------------------------------------------------------------------------
  // Children and arguments are exclusive only when no list element is a decode error.

  /** A value that is a rule in a list: a name (string, or null), or an object. */
  predicate IsRuleValue(j: Json)
  {
    j.JString? || j.JNull? || j.JObject?
  }

  /** Every list element the list shape reaches is a rule value: in an object all of whose
      values are lists or `null` (the objects that decode as a map of lists), each list element
      is a rule value, and so on below it. Lists inside argument values are not constrained. */
  ghost predicate ReachedRules(j: Json)
    decreases j
  {
    match j
    case JObject(ms) =>
      (forall i :: 0 <= i < |ms| ==> IsListValue(ms[i].value)) ==>
        forall i, k :: 0 <= i < |ms| && ms[i].value.JArray? && 0 <= k < |ms[i].value.items| ==>
          IsRuleValue(ms[i].value.items[k]) && ReachedRules(ms[i].value.items[k])
    case _ => true
  }

  /** No node of the tree has both children and arguments. */
  ghost predicate Exclusive(n: Node)
    decreases n
  {
    (n.children == [] || n.arguments.None?) && forall i :: 0 <= i < |n.children| ==> Exclusive(n.children[i])
  }

  /** A rule value never fails with a decode error. */
  lemma RuleValueNotMalformed(names: seq<string>, maxDepth: int, level: nat, e: Json)
    requires IsRuleValue(e)
    ensures Child(names, maxDepth, level, e).err != Some(Malformed)
  {
    MalformedOnlyFromScalars(names, maxDepth, Blank(level), e);
  }

  /** The lists a well-shaped object decodes to hold well-shaped rule values. */
  lemma DecodedReachedRules(b: Json, ls: seq<ListMember>, i: nat, k: nat)
    requires ReachedRules(b) && DecodeListMap(b) == Some(ls)
    requires i < |ls| && k < |ls[i].items|
    ensures IsRuleValue(ls[i].items[k]) && ReachedRules(ls[i].items[k])
  {
    var c := Collapse(b.members);
    assert ls[i] == ListMember(c[i].key, Items(c[i].value));
    assert c[i] in b.members;
    var m :| 0 <= m < |b.members| && b.members[m] == c[i];
    assert b.members[m].value.JArray? && ls[i].items == b.members[m].value.items;
  }

  lemma ParseNodeExclusive(names: seq<string>, maxDepth: int, level: nat, b: Json)
    requires ReachedRules(b)
    ensures var r := ParseNode(names, maxDepth, Blank(level), b);
      r.err.None? ==> Exclusive(r.node)
    decreases Size(b), 3
  {
    var p := Blank(level);
    if level <= maxDepth && DecodeString(b).None? {
      match DecodeListMap(b)
      case Some(ls) =>
        DecodeListMapSmaller(b, ls);
        forall i, k | 0 <= i < |ls| && 0 <= k < |ls[i].items|
          ensures IsRuleValue(ls[i].items[k]) && ReachedRules(ls[i].items[k])
        {
          DecodedReachedRules(b, ls, i, k);
        }
        KeysLoopExclusive(names, maxDepth, p, ls);
      case None =>
    }
  }

  lemma KeysLoopExclusive(names: seq<string>, maxDepth: int, p: Node, ls: seq<ListMember>)
    requires p.arguments.None? && forall i :: 0 <= i < |p.children| ==> Exclusive(p.children[i])
    requires forall i, k :: 0 <= i < |ls| && 0 <= k < |ls[i].items| ==>
      IsRuleValue(ls[i].items[k]) && ReachedRules(ls[i].items[k])
    ensures var r := KeysLoop(names, maxDepth, p, ls);
      && r.node.arguments.None?
      && (forall i :: 0 <= i < |r.node.children| ==> Exclusive(r.node.children[i]))
      && r.err != Some(Malformed)
    decreases SizeLists(ls), 1
  {
    if ls != [] && ls[0].key in names {
      var named := p.(name := ls[0].key);
      ElemsLoopExclusive(names, maxDepth, named, ls[0].items);
      var s := ElemsLoop(names, maxDepth, named, ls[0].items);
      if s.err.None? {
        KeysLoopExclusive(names, maxDepth, s.node, ls[1..]);
      }
    }
  }

  lemma ElemsLoopExclusive(names: seq<string>, maxDepth: int, p: Node, items: seq<Json>)
    requires forall i :: 0 <= i < |p.children| ==> Exclusive(p.children[i])
    requires forall k :: 0 <= k < |items| ==> IsRuleValue(items[k]) && ReachedRules(items[k])
    ensures var r := ElemsLoop(names, maxDepth, p, items);
      && (forall i :: 0 <= i < |r.node.children| ==> Exclusive(r.node.children[i]))
      && r.err != Some(Malformed)
    decreases SizeItems(items), 4
  {
    if items != [] {
      var c := Child(names, maxDepth, p.level + 1, items[0]);
      RuleValueNotMalformed(names, maxDepth, p.level + 1, items[0]);
      ParseNodeExclusive(names, maxDepth, p.level + 1, items[0]);
      if c.err.None? {
        var p' := p.(children := p.children + [c.node]);
        assert forall i :: 0 <= i < |p'.children| ==> Exclusive(p'.children[i]) by {
          forall i | 0 <= i < |p'.children| ensures Exclusive(p'.children[i]) {
            if i < |p.children| { assert p'.children[i] == p.children[i]; }
          }
        }
        ElemsLoopExclusive(names, maxDepth, p', items[1..]);
      }
    }
  }

  /** When every list element the list shape reaches is a rule value, no node of the returned
      tree carries both children and arguments. */
  lemma ParsedTreeExclusive(names: seq<string>, maxDepth: int, b: Json)
    requires ReachedRules(b)
    ensures ParseFromJson(names, maxDepth, b).Success? ==> Exclusive(ParseFromJson(names, maxDepth, b).value)
  {
    ParseNodeExclusive(names, maxDepth, 0, b);
  }
}
