/**
  The character machine that parses Bento text, on values: eleven token
  states, an escape flag, a pending token, the pieces of a pending attribute
  and the stack of open nodes.  A node on the stack holds the attributes and
  the closed children it has so far.
 */
module BentoParsing {
  import opened Wrappers
  import opened BentoModel
  import opened BentoText
  import opened BentoTextValues

  datatype TokenState =
    | Start | InNode | InNodeName | InAttribute | InAttributeName | InAttributeType
    | PreValue | PreValueQualifier | DoubleQuoted | SingleQuoted | Unquoted

  datatype ParserState = ParserState(
    token: TokenState,
    pending: string,
    escape: bool,
    stack: seq<TextNode>,   // the open nodes, root first
    root: TextNode,         // the root node's content while no node is open
    name: string,           // pieces of the pending attribute
    typeName: string,
    qualifier: string,
    value: string)

  type Step = Result<ParserState, Fault>

  const NEW_NODE := TextNode.Node("uninitialized", [], [])

  predicate IsSkippable(c: char) { c <= ' ' || c as int == 0x7F }

  function Top(stack: seq<TextNode>): TextNode
    requires stack != []
  {
    stack[|stack| - 1]
  }

  function WithTop(stack: seq<TextNode>, top: TextNode): seq<TextNode>
    requires stack != []
  {
    stack[..|stack| - 1] + [top]
  }

  /** A closed node becomes the last child of the node below it. */
  function AddChild(parent: TextNode, child: TextNode): TextNode { parent.(children := parent.children + [child]) }

  function AddAttribute(node: TextNode, a: TextAttribute): TextNode { node.(attributes := node.attributes + [a]) }

  /** The closing brace; closing more nodes than were opened pops an empty vector. */
  function CloseNode(st: ParserState): Step
  {
    if st.stack == [] then Failure(Undefined)
    else
      var below, closed := st.stack[..|st.stack| - 1], Top(st.stack);
      if below == [] then Success(st.(stack := [], root := closed))
      else Success(st.(stack := WithTop(below, AddChild(Top(below), closed))))
  }

  /** The end of an attribute: make the value, add it to the pending node and clear the pieces. */
  function EndAttribute(st: ParserState): Step
  {
    match ReadValue(st.typeName, st.value, st.qualifier)
    case Failure(f) => Failure(f)
    case Success(v) =>
      if st.stack == [] then Failure(Undefined)
      else
        Success(st.(token := InNode, name := "", typeName := "", qualifier := "", value := "",
                    stack := WithTop(st.stack, AddAttribute(Top(st.stack), Attribute(st.name, v)))))
  }

  function Collect(st: ParserState, c: char): ParserState { st.(pending := st.pending + [c], escape := false) }

  /** A backslash: the second of a pair is text, the first makes the next character text. */
  function Backslash(st: ParserState): ParserState
  {
    if st.escape then Collect(st, '\\') else st.(escape := true)
  }

  function StepStart(st: ParserState, c: char): Step
  {
    if IsSkippable(c) then Success(st)
    else if c == '{' then Success(st.(token := InNode, stack := st.stack + [st.root]))
    else Failure(Malformed)
  }

  function StepInNode(st: ParserState, c: char): Step
  {
    if IsSkippable(c) then Success(st)
    else if c == '"' then Success(st.(token := InNodeName))
    else if c == '[' then Success(st.(token := InAttribute, name := "", typeName := "", qualifier := "", value := ""))
    else if c == '{' then
      if st.stack == [] then Failure(Undefined) else Success(st.(stack := st.stack + [NEW_NODE]))
    else if c == '}' then CloseNode(st)
    else Failure(Malformed)
  }

  function StepNodeName(st: ParserState, c: char): Step
  {
    if c == '\\' then Success(Backslash(st))
    else if c == '"' && !st.escape then
      if st.stack == [] then Failure(Undefined)
      else Success(st.(token := InNode, pending := "", stack := WithTop(st.stack, Top(st.stack).(name := st.pending))))
    else Success(Collect(st, c))
  }

  function StepInAttribute(st: ParserState, c: char): Step
  {
    if IsSkippable(c) then Success(st)
    else if c == '"' then Success(st.(token := InAttributeName))
    else if c == '(' then Success(st.(token := InAttributeType))
    else if c == '=' then Success(st.(token := PreValue))
    else if c == ']' then EndAttribute(st)
    else Failure(Malformed)
  }

  function StepAttributeName(st: ParserState, c: char): Step
  {
    if c == '\\' then Success(Backslash(st))
    else if c == '"' && !st.escape then Success(st.(token := InAttribute, name := st.pending, pending := ""))
    else Success(Collect(st, c))
  }

  function StepAttributeType(st: ParserState, c: char): Step
  {
    if c == ')' then Success(st.(token := InAttribute, typeName := st.pending, pending := ""))
    else Success(st.(pending := st.pending + [c]))
  }

  function StepPreValue(st: ParserState, c: char): Step
  {
    if c == '(' then Success(st.(token := PreValueQualifier))
    else if c == '\\' then Success(st.(escape := true, token := Unquoted))
    else if c == '"' || c == '\'' then
      if st.escape then Success(Collect(st, c))
      else Success(st.(pending := st.pending + [c], token := if c == '"' then DoubleQuoted else SingleQuoted))
    else Success(Collect(st, c).(token := Unquoted))
  }

  function StepQualifier(st: ParserState, c: char): Step
  {
    if c == ')' then Success(st.(token := PreValue, qualifier := st.pending, pending := ""))
    else Success(st.(pending := st.pending + [c]))
  }

  /** Inside a quoted value, whose quotes stay part of it. */
  function StepQuoted(st: ParserState, c: char, quote: char): Step
  {
    if c == '\\' then Success(Backslash(st))
    else if c == quote && !st.escape then Success(st.(token := InAttribute, value := st.pending + [c], pending := ""))
    else Success(Collect(st, c))
  }

  function StepUnquoted(st: ParserState, c: char): Step
  {
    if c == '\\' then Success(Backslash(st))
    else if IsSkippable(c) && !st.escape then Success(st.(token := InAttribute, value := st.pending, pending := ""))
    else if c == ']' && !st.escape then EndAttribute(st.(value := st.pending, pending := ""))
    else Success(Collect(st, c))
  }

  /** `_parseCharacter`; a failure is an exception, an undefined step or a value that is not modelled. */
  function ParseCharacter(st: ParserState, c: char): Step
  {
    match st.token
    case Start => StepStart(st, c)
    case InNode => StepInNode(st, c)
    case InNodeName => StepNodeName(st, c)
    case InAttribute => StepInAttribute(st, c)
    case InAttributeName => StepAttributeName(st, c)
    case InAttributeType => StepAttributeType(st, c)
    case PreValue => StepPreValue(st, c)
    case PreValueQualifier => StepQualifier(st, c)
    case DoubleQuoted => StepQuoted(st, c, '"')
    case SingleQuoted => StepQuoted(st, c, '\'')
    case Unquoted => StepUnquoted(st, c)
  }

  function Parse(st: ParserState, s: string): Step
    decreases |s|
  {
    if s == "" then Success(st)
    else match ParseCharacter(st, s[0]) case Failure(f) => Failure(f) case Success(next) => Parse(next, s[1..])
  }

  /** The state in which parsing into `root` begins. */
  function Initial(root: TextNode): ParserState { ParserState(Start, "", false, [], root, "", "", "", "") }

  // ----- Runs -------------------------------------------------------------

  lemma {:induction false} ParseConcat(st: ParserState, a: string, b: string)
    ensures Parse(st, a + b) == match Parse(st, a) case Failure(f) => Failure(f) case Success(next) => Parse(next, b)
    decreases |a|
  {
    hide ParseCharacter;
    if a == "" {
      assert a + b == b;
    } else {
      assert (a + b)[1..] == a[1..] + b;
      match ParseCharacter(st, a[0]) {
        case Failure(_) =>
        case Success(next) => ParseConcat(next, a[1..], b);
      }
    }
  }

  /** Text that leads from `st` to `next` can be cut off the front of what is to be parsed. */
  lemma ParsePrefix(st: ParserState, a: string, next: ParserState, b: string)
    requires Parse(st, a) == Success(next)
    ensures Parse(st, a + b) == Parse(next, b)
  {
    hide Parse;
    ParseConcat(st, a, b);
  }

  lemma ParseOne(st: ParserState, c: char)
    ensures Parse(st, [c]) == ParseCharacter(st, c)
  {
    hide ParseCharacter;
    assert [c][1..] == "";
  }
}
