/** The rule node (Go's `Object`) and the error family of the parser. */
module Objects {
  import opened Wrappers
  import opened Json

  /** A rule node. `arguments` is the raw value of the argument shape; Go keeps it as a string
      that is empty when unset, modelled here as `None` (a raw JSON value is never empty). */
  datatype Node = Node(name: string, level: nat, children: seq<Node>, arguments: Option<Json>)

  /** The zero-valued node the parser starts from at a given level (`&Object{Level: level}`). */
  function Blank(level: nat): Node
  {
    Node("", level, [], None)
  }

  /** The parser's errors. All but `Malformed` wrap the `parameter` sentinel (`errObject`);
      `Malformed` stands for a decode error of `encoding/json`, whose text is not modelled. */
  datatype ParseError =
    | Undefined
    | NotAcceptable
    | NotFound(name: string)
    | MaxDepthExceeded
    | Malformed

  /** `errors.Is(err, errObject)`: the error is one of the parser's own. */
  predicate IsObjectError(e: ParseError)
  {
    !e.Malformed?
  }

  /** The errors wrapping `errObject` are exactly the four of the parser's own, and a step is
      final exactly when it does not end in a decode error. */
  lemma ErrorFamily(e: ParseError, s: Step)
    ensures IsObjectError(e) <==> e == Undefined || e == NotAcceptable || e.NotFound? || e == MaxDepthExceeded
    ensures s.Final() <==> s.err != Some(Malformed)
  {
  }

  /** The node as a parse step leaves it, with the error the step returns (`None` for nil). */
  datatype Step = Step(node: Node, err: Option<ParseError>)
  {
    /** `err == nil || errors.Is(err, errObject)`: the step's outcome is final and no further shape is tried. */
    predicate Final()
    {
      err.None? || IsObjectError(err.value)
    }
  }
}
