/** The cases of the package's table test (yaml_object_parser_test.go), on the decoded value of
    each document's `rule` key, with the names the test registers and the default depth limit 2. */
module Fixtures {
  import opened Wrappers
  import opened Json
  import opened Objects
  import opened RuleSpec
  import opened ParseProperties
  import opened NameRegistry

  const TestNames: seq<string> :=
    ["or", "and", "user", "service", "location", "opening-hours", "relationship"]

  function Leaf(name: string, level: nat): Node
  {
    Node(name, level, [], None)
  }

  lemma RuleStringFormat()
    ensures ParseFromJson(TestNames, 2, JString("user")) == Success(Leaf("user", 0))
  {
    BareString(TestNames, 2, 0, JString("user"), "user");
  }

  lemma RuleObjectFormat()
    ensures var args := JObject([Member("region", JString("uk"))]);
      ParseFromJson(TestNames, 2, JObject([Member("location", args)]))
      == Success(Node("location", 0, [], Some(args)))
  {
    ArgumentShape(TestNames, 2, 0, "location", JObject([Member("region", JString("uk"))]));
  }

  lemma RuleListFormat()
    ensures ParseFromJson(TestNames, 2, JObject([Member("and", JArray([JString("user"), JString("service")]))]))
      == Success(Node("and", 0, [Leaf("user", 1), Leaf("service", 1)], None))
  {
    var items := [JString("user"), JString("service")];
    BareString(TestNames, 2, 1, items[0], "user");
    BareString(TestNames, 2, 1, items[1], "service");
    ListOfChildren(TestNames, 2, 0, "and", items, [Leaf("user", 1), Leaf("service", 1)]);
  }

  lemma RuleNestedFormat()
    ensures var and := JObject([Member("and", JArray([JString("service"), JString("opening-hours")]))]);
      ParseFromJson(TestNames, 2, JObject([Member("or", JArray([JString("user"), and]))]))
      == Success(Node("or", 0, [
           Leaf("user", 1),
           Node("and", 1, [Leaf("service", 2), Leaf("opening-hours", 2)], None)], None))
  {
    var inner := [JString("service"), JString("opening-hours")];
    BareString(TestNames, 2, 2, inner[0], "service");
    BareString(TestNames, 2, 2, inner[1], "opening-hours");
    var andNode := Node("and", 1, [Leaf("service", 2), Leaf("opening-hours", 2)], None);
    ListOfChildren(TestNames, 2, 1, "and", inner, andNode.children);
    var outer := [JString("user"), JObject([Member("and", JArray(inner))])];
    BareString(TestNames, 2, 1, outer[0], "user");
    ListOfChildren(TestNames, 2, 0, "or", outer, [Leaf("user", 1), andNode]);
  }

  const Hours: Json := JObject([Member("closing", JString("20:00")), Member("opening", JString("10:00"))])
  const Levels: Json := JObject([Member("levels", JArray([JString("comprehensive"), JString("parent")]))])
  const AndWithObjects: Json := JObject([Member("and", JArray([
    JString("service"), JObject([Member("opening-hours", Hours)]), JObject([Member("relationship", Levels)])]))])

  /** The inner `and` rule of the last nested case: its predicates with objects keep them as
      arguments. The parser receives the YAML converter's output, whose keys are sorted, so
      `Hours` lists `closing` before `opening`, as the test's expected arguments do. */
  lemma AndWithObjectsFormat()
    ensures Child(TestNames, 2, 1, AndWithObjects)
      == Step(Node("and", 1, [
           Leaf("service", 2), Node("opening-hours", 2, [], Some(Hours)), Node("relationship", 2, [], Some(Levels))], None), None)
  {
    var inner := [JString("service"), JObject([Member("opening-hours", Hours)]), JObject([Member("relationship", Levels)])];
    BareString(TestNames, 2, 2, inner[0], "service");
    ArgumentShape(TestNames, 2, 2, "opening-hours", Hours);
    ArgumentShape(TestNames, 2, 2, "relationship", Levels);
    ListOfChildren(TestNames, 2, 1, "and", inner, [
      Leaf("service", 2), Node("opening-hours", 2, [], Some(Hours)), Node("relationship", 2, [], Some(Levels))]);
  }

  lemma RuleNestedFormatWithObject()
    ensures ParseFromJson(TestNames, 2, JObject([Member("or", JArray([JString("user"), AndWithObjects]))]))
      == Success(Node("or", 0, [
           Leaf("user", 1),
           Node("and", 1, [
             Leaf("service", 2),
             Node("opening-hours", 2, [], Some(Hours)),
             Node("relationship", 2, [], Some(Levels))], None)], None))
  {
    AndWithObjectsFormat();
    var outer := [JString("user"), AndWithObjects];
    BareString(TestNames, 2, 1, outer[0], "user");
    ListOfChildren(TestNames, 2, 0, "or", outer, [Leaf("user", 1), Child(TestNames, 2, 1, AndWithObjects).node]);
  }

  /** `and > or > and > or`: the innermost rule sits at level 3, beyond the limit 2. */
  lemma RuleMaxDepthLimitExceeded()
    ensures var l3 := JObject([Member("or", JNull)]);
      var l2 := JObject([Member("and", JArray([l3]))]);
      var l1 := JObject([Member("or", JArray([l2]))]);
      ParseFromJson(TestNames, 2, JObject([Member("and", JArray([l1]))])) == Failure(MaxDepthExceeded)
  {
    var l3 := JObject([Member("or", JNull)]);
    var l2 := JObject([Member("and", JArray([l3]))]);
    var l1 := JObject([Member("or", JArray([l2]))]);
    DepthExceeded(TestNames, 2, Blank(3), l3);
    ListChildError(TestNames, 2, 2, "and", [l3], 0, MaxDepthExceeded);
    ListChildError(TestNames, 2, 1, "or", [l2], 0, MaxDepthExceeded);
    ListChildError(TestNames, 2, 0, "and", [l1], 0, MaxDepthExceeded);
  }

  /** The same nesting stopped at level 2 is accepted. */
  lemma RuleWithinMaxDepthLimit()
    ensures var l2 := JObject([Member("and", JNull)]);
      var l1 := JObject([Member("or", JArray([l2]))]);
      ParseFromJson(TestNames, 2, JObject([Member("and", JArray([l1]))]))
      == Success(Node("and", 0, [Node("or", 1, [Node("and", 2, [], None)], None)], None))
  {
    var l2 := JObject([Member("and", JNull)]);
    var l1 := JObject([Member("or", JArray([l2]))]);
    assert Child(TestNames, 2, 2, l2) == Step(Node("and", 2, [], None), None) by {
      ListShape(TestNames, 2, 2, "and", JNull);
      assert Items(JNull) == [] && FailAt(TestNames, 2, 3, []) == 0;
      assert ChildNodes(TestNames, 2, 3, []) == [];
    }
    ListOfChildren(TestNames, 2, 1, "or", [l2], [Node("and", 2, [], None)]);
    ListOfChildren(TestNames, 2, 0, "and", [l1], [Node("or", 1, [Node("and", 2, [], None)], None)]);
  }

  lemma RuleErrors()
    ensures ParseFromJson(TestNames, 2, JNull) == Failure(Undefined)
    ensures ParseFromJson(TestNames, 2, JString("")) == Failure(Undefined)
    ensures ParseFromJson(TestNames, 2, JString("invalid")) == Failure(NotFound("invalid"))
    ensures ParseFromJson(TestNames, 2, JArray([
      JString("user"), JObject([Member("location", JObject([Member("region", JString("uk"))]))])]))
      == Failure(NotAcceptable)
  {
    BareString(TestNames, 2, 0, JString("invalid"), "invalid");
  }

  /** A number in a rule list is a decode error; it makes the list node fall back to the argument
      shape, so the node ends with a child and with arguments. */
  lemma MixedNode()
    ensures var items := [JString("user"), JNumber(5)];
      ParseFromJson(TestNames, 2, JObject([Member("and", JArray(items))]))
      == Success(Node("and", 0, [Leaf("user", 1)], Some(JArray(items))))
  {
    var items := [JString("user"), JNumber(5)];
    BareString(TestNames, 2, 1, items[0], "user");
    MalformedOnlyFromScalars(TestNames, 2, Blank(1), items[1]);
    assert Child(TestNames, 2, 1, items[1]).err == Some(Malformed);
    assert FailAt(TestNames, 2, 1, items) == 1;
    assert items[..1] == [items[0]];
    assert ChildNodes(TestNames, 2, 1, items[..1]) == [Leaf("user", 1)];
    ListShape(TestNames, 2, 0, "and", JArray(items));
  }

  /** A list inside an argument value is never parsed, so it does not stand in the way of
      exclusivity: the rule keeps its object, numbers included, as arguments. */
  lemma ArgumentListNotReached()
    ensures var args := JObject([Member("ids", JArray([JNumber(1), JNumber(2)]))]);
      var doc := JObject([Member("location", args)]);
      && ReachedRules(doc)
      && ParseFromJson(["location"], 2, doc) == Success(Node("location", 0, [], Some(args)))
  {
    var args := JObject([Member("ids", JArray([JNumber(1), JNumber(2)]))]);
    var doc := JObject([Member("location", args)]);
    assert !IsListValue(doc.members[0].value);
    ArgumentShape(["location"], 2, 0, "location", args);
  }

  /** Removal folds case, lookup does not. */
  lemma CaseAsymmetry()
    ensures Without(["user", "User", "service"], "USER") == ["service"]
    ensures FromString(["user", "User", "service"], Blank(0), JString("USER")) == Step(Blank(0), Some(NotFound("USER")))
  {
    var names := ["user", "User", "service"];
    assert names[..2][..1] == ["user"];
    assert names[..2] == ["user", "User"];
    assert EqualFold("user", "USER") && EqualFold("User", "USER") && !EqualFold("service", "USER");
  }

  /** A client of the registry, with what its specifications let it conclude. */
  method RegistryScenario()
  {
    var reg := new Registry();
    reg.AddObjectName([]);
    assert reg.names == [];
    reg.AddObjectName(["user", "service", "user"]);
    var err := reg.IsSupported("user");
    assert err.None?;
    err := reg.IsSupported("User");
    assert err == Some(NotFound("User"));
    assert reg.names == ["user", "service", "user"];
    reg.RemoveObjectName("USER");
    assert EqualFold("user", "USER") && !EqualFold("service", "USER");
    WithoutMembers(["user", "service", "user"], "USER", "user");
    WithoutMembers(["user", "service", "user"], "USER", "service");
    err := reg.IsSupported("user");
    assert err == Some(NotFound("user"));
    err := reg.IsSupported("service");
    assert err.None?;
  }
}
