/**
  The parser object.  It reads one character at a time and builds the tree out
  of node objects as it goes; the nodes that are open form a spine from the
  root down, each the last child of the one below it on the stack.
 */
module BentoTextNodeParser {
  import opened Wrappers
  import opened BentoModel
  import opened BentoText
  import opened BentoTextValues
  import opened BentoParsing
  import opened BentoNodes

  /** The node after the i-th on the spine, if any. */
  function Next(spine: seq<BentoNode>, i: nat): BentoNode?
    requires i < |spine|
  {
    if i + 1 < |spine| then spine[i + 1] else null
  }

  /**
    An open node holds the frame; its children are closed, except the last one
    if the spine goes on with `next`.
   */
  ghost predicate Holds(n: BentoNode, next: BentoNode?, frame: TextNode, closed: Trees)
    reads n, closed.Keys, (if next == null then {} else {next})`parent
  {
    && Shows(n, if next == null then |n.children| else |n.children| - 1, frame, closed)
    && (next != null ==> |n.children| > 0 && n.children[|n.children| - 1] == next && next.parent == n)
  }

  ghost predicate AllHold(spine: seq<BentoNode>, frames: seq<TextNode>, closed: Trees)
    requires |spine| == |frames|
    reads spine, closed.Keys
  {
    forall i :: 0 <= i < |spine| ==> Holds(spine[i], Next(spine, i), frames[i], closed)
  }

  /** Distinct open nodes, outside the closed trees, that hold the frames. */
  ghost predicate Stacked(spine: seq<BentoNode>, frames: seq<TextNode>, closed: Trees)
    reads spine, closed.Keys
  {
    && |spine| == |frames| > 0 && Forest(closed) && Distinct(spine)
    && (forall i :: 0 <= i < |spine| ==> spine[i] !in closed)
    && AllHold(spine, frames, closed)
  }

  method RenameOpen(n: BentoNode, name: string, ghost frame: TextNode, ghost closed: Trees)
    requires Holds(n, null, frame, closed) && n !in closed
    modifies n`name
    ensures Holds(n, null, frame.(name := name), closed)
  {
    n.name := name;
  }

  method AddToOpen(n: BentoNode, a: TextAttribute, ghost frame: TextNode, ghost closed: Trees)
    requires Holds(n, null, frame, closed) && n !in closed
    modifies n`attributes
    ensures Holds(n, null, AddAttribute(frame, a), closed)
  {
    n.AddAttribute(a);
  }

  /** A new child of an open node is open itself and holds nothing yet. */
  method GrowOpen(n: BentoNode, ghost frame: TextNode, ghost closed: Trees) returns (child: BentoNode)
    requires Holds(n, null, frame, closed) && n !in closed
    modifies n`children
    ensures fresh(child)
    ensures Holds(n, child, frame, closed) && Holds(child, null, NEW_NODE, closed)
  {
    child := new BentoNode("uninitialized");
    n.AddChildNode(child);
  }

  method RenameTop(n: BentoNode, name: string, ghost spine: seq<BentoNode>, ghost frames: seq<TextNode>,
                   ghost closed: Trees)
    requires Stacked(spine, frames, closed) && n == spine[|spine| - 1]
    modifies n`name
    ensures Stacked(spine, WithTop(frames, Top(frames).(name := name)), closed)
  {
    hide Holds, Forest;
    ghost var top := |spine| - 1;
    RenameOpen(n, name, frames[top], closed);
    forall i | 0 <= i < top
      ensures Holds(spine[i], Next(spine, i), frames[i], closed)
    {
      assert old(Holds(spine[i], Next(spine, i), frames[i], closed));
    }
  }

  method AddToTop(n: BentoNode, a: TextAttribute, ghost spine: seq<BentoNode>, ghost frames: seq<TextNode>,
                  ghost closed: Trees)
    requires Stacked(spine, frames, closed) && n == spine[|spine| - 1]
    modifies n`attributes
    ensures Stacked(spine, WithTop(frames, AddAttribute(Top(frames), a)), closed)
  {
    hide Holds, Forest;
    ghost var top := |spine| - 1;
    AddToOpen(n, a, frames[top], closed);
    forall i | 0 <= i < top
      ensures Holds(spine[i], Next(spine, i), frames[i], closed)
    {
      assert old(Holds(spine[i], Next(spine, i), frames[i], closed));
    }
  }

  method GrowTop(n: BentoNode, ghost spine: seq<BentoNode>, ghost frames: seq<TextNode>, ghost closed: Trees)
    returns (child: BentoNode)
    requires Stacked(spine, frames, closed) && n == spine[|spine| - 1]
    modifies n`children
    ensures fresh(child) && Stacked(spine + [child], frames + [NEW_NODE], closed)
  {
    hide Holds, Forest;
    ghost var top := |spine| - 1;
    child := GrowOpen(n, frames[top], closed);
    forall i | 0 <= i < top
      ensures Holds(spine[i], Next(spine, i), frames[i], closed)
    {
      assert old(Holds(spine[i], Next(spine, i), frames[i], closed));
    }
  }

  /** Closing `top` makes it a finished tree and the last child of the node below it. */
  lemma CloseOpen(below: BentoNode, top: BentoNode, belowFrame: TextNode, topFrame: TextNode, closed: Trees)
    requires Forest(closed) && top !in closed && below !in closed && below != top
    requires Holds(below, top, belowFrame, closed) && Holds(top, null, topFrame, closed)
    ensures Forest(closed[top := topFrame])
    ensures Holds(below, null, AddChild(belowFrame, topFrame), closed[top := topFrame])
  {
    ForestGrows(closed, top, topFrame);
  }

  lemma HoldsOver(n: BentoNode, next: BentoNode?, frame: TextNode, closed: Trees, top: BentoNode, topFrame: TextNode)
    requires Holds(n, next, frame, closed) && top !in closed
    ensures Holds(n, next, frame, closed[top := topFrame])
  {
  }

  /** What the frames become when the node on top of the spine is closed. */
  ghost function ClosedFrames(frames: seq<TextNode>): seq<TextNode>
    requires |frames| > 1
  {
    var below := frames[..|frames| - 1];
    WithTop(below, AddChild(Top(below), Top(frames)))
  }

  /** Closing the node on top keeps the rest of the spine and adds a tree to the forest. */
  lemma CloseSpine(spine: seq<BentoNode>, frames: seq<TextNode>, closed: Trees)
    requires Stacked(spine, frames, closed) && |spine| > 1
    ensures Stacked(spine[..|spine| - 1], ClosedFrames(frames), closed[spine[|spine| - 1] := Top(frames)])
  {
    hide Holds, Forest;
    var top := |spine| - 1;
    var node, rest, grown := spine[top], spine[..top], closed[spine[top] := frames[top]];
    CloseOpen(spine[top - 1], node, frames[top - 1], frames[top], closed);
    forall i | 0 <= i < top
      ensures Holds(rest[i], Next(rest, i), ClosedFrames(frames)[i], grown)
    {
      if i < top - 1 {
        HoldsOver(rest[i], Next(spine, i), frames[i], closed, node, frames[top]);
      }
    }
  }

  class Parser {
    var tokenState: TokenState
    var pendingToken: string
    var tokenEscapePending: bool
    var rootNode: BentoNode
    var pendingNode: BentoNode?
    var parseNodeStack: seq<BentoNode>
    var pendingAttributeName: string
    var pendingAttributeType: string
    var pendingAttributeQualifier: string
    var pendingAttributeValue: string

    ghost var closed: Trees            // the closed subtrees, which are never touched again
    ghost var frames: seq<TextNode>    // what each node of the spine holds so far
    ghost var rootBefore: TextNode     // what the root held when it was opened

    /** The open nodes, or the root alone while none is open. */
    ghost function Spine(): (s: seq<BentoNode>)
      reads this`parseNodeStack, this`rootNode
    {
      if parseNodeStack == [] then [rootNode] else parseNodeStack
    }

    /** The spine invariant. */
    ghost predicate Valid()
      reads this`parseNodeStack, this`rootNode, this`pendingNode, this`frames, this`closed, Spine(), closed.Keys
    {
      && Spine()[0] == rootNode
      && pendingNode == (if parseNodeStack == [] then null else parseNodeStack[|parseNodeStack| - 1])
      && Stacked(Spine(), frames, closed)
    }

    lemma Facts()
      requires Valid()
      ensures Spine()[0] == rootNode && |frames| == |Spine()|
      ensures pendingNode == if parseNodeStack == [] then null else parseNodeStack[|parseNodeStack| - 1]
      ensures pendingNode != null ==> pendingNode !in closed
    {
    }

    /** The state of the character machine that the object is in. */
    ghost function State(): ParserState
      requires frames != []
      reads this
    {
      ParserState(tokenState, pendingToken, tokenEscapePending,
                  if parseNodeStack == [] then [] else frames,
                  if parseNodeStack == [] then frames[0] else rootBefore,
                  pendingAttributeName, pendingAttributeType, pendingAttributeQualifier, pendingAttributeValue)
    }

    /** The tree built so far: the open nodes, and the root while none is open. */
    ghost function Built(): (seq<TextNode>, TextNode)
      requires frames != []
      reads this
    {
      (State().stack, State().root)
    }

    constructor (root: BentoNode, ghost trees: Trees)
      requires Forest(trees) && root in trees
      requires forall n :: n in trees ==> root !in n.children
      ensures Valid() && rootNode == root
      ensures State() == Initial(trees[root])
      ensures closed == trees - {root}
    {
      tokenState, pendingToken, tokenEscapePending := Start, "", false;
      rootNode, pendingNode, parseNodeStack := root, null, [];
      pendingAttributeName, pendingAttributeType, pendingAttributeQualifier, pendingAttributeValue := "", "", "", "";
      closed, frames, rootBefore := trees - {root}, [trees[root]], trees[root];
      new;
      assert forall n :: n in trees ==> Shows(n, |n.children|, trees[n], trees);
    }

    /** The root node has the name, the attributes and the closed children of the first frame. */
    lemma RootSoFar()
      requires Valid()
      ensures var t := frames[0];
              && rootNode.name == t.name && rootNode.attributes == t.attributes
              && |t.children| <= |rootNode.children| <= |t.children| + 1
              && forall i :: 0 <= i < |t.children| ==>
                   rootNode.children[i] in closed && closed[rootNode.children[i]] == t.children[i]
    {
      assert Holds(Spine()[0], Next(Spine(), 0), frames[0], closed);
    }

    // ----- The stack of open nodes ----------------------------------------

    method OpenRoot()
      requires Valid() && parseNodeStack == []
      modifies this`pendingNode, this`parseNodeStack, this`rootBefore
      ensures Valid() && parseNodeStack == [rootNode]
      ensures State() == old(State()).(stack := [old(State()).root])
    {
      hide Stacked;
      Facts();
      rootBefore := frames[0];
      pendingNode := rootNode;
      parseNodeStack := parseNodeStack + [pendingNode];
      assert parseNodeStack == [rootNode] && frames == [frames[0]];
    }

    method OpenChild()
      requires Valid() && parseNodeStack != []
      modifies this`pendingNode, this`parseNodeStack, this`frames, pendingNode`children
      ensures Valid()
      ensures State() == old(State()).(stack := old(State()).stack + [NEW_NODE])
      ensures parseNodeStack[..|parseNodeStack| - 1] == old(parseNodeStack) && fresh(pendingNode)
    {
      hide Stacked;
      var child := GrowTop(pendingNode, parseNodeStack, frames, closed);
      pendingNode := child;
      parseNodeStack := parseNodeStack + [child];
      frames := frames + [NEW_NODE];
    }

    method CloseTop()
      requires Valid() && parseNodeStack != []
      modifies this`pendingNode, this`parseNodeStack, this`frames, this`closed
      ensures Valid()
      ensures Success(State()) == CloseNode(old(State()))
      ensures parseNodeStack == old(parseNodeStack)[..|old(parseNodeStack)| - 1]
      ensures closed == if |old(parseNodeStack)| == 1 then old(closed)
                        else old(closed)[old(pendingNode) := Top(old(frames))]
    {
      hide Stacked;
      Facts();
      if |parseNodeStack| > 1 {
        CloseSpine(parseNodeStack, frames, closed);
        closed := closed[pendingNode := Top(frames)];
        frames := ClosedFrames(frames);
      } else {
        assert parseNodeStack == [rootNode];
      }
      parseNodeStack := parseNodeStack[..|parseNodeStack| - 1];
      if |parseNodeStack| == 0 {
        pendingNode := null;
      } else {
        pendingNode := parseNodeStack[|parseNodeStack| - 1];
      }
    }

    method NamePending(name: string)
      requires Valid() && parseNodeStack != []
      modifies this`frames, pendingNode`name
      ensures Valid()
      ensures State() == old(State()).(stack := WithTop(old(State()).stack, Top(old(State()).stack).(name := name)))
    {
      hide Stacked;
      Facts();
      RenameTop(pendingNode, name, parseNodeStack, frames, closed);
      frames := WithTop(frames, Top(frames).(name := name));
    }

    method AttributePending(a: TextAttribute)
      requires Valid() && parseNodeStack != []
      modifies this`frames, pendingNode`attributes
      ensures Valid()
      ensures State() == old(State()).(stack := WithTop(old(State()).stack, AddAttribute(Top(old(State()).stack), a)))
    {
      hide Stacked;
      Facts();
      AddToTop(pendingNode, a, parseNodeStack, frames, closed);
      frames := WithTop(frames, AddAttribute(Top(frames), a));
    }

    // ----- One character --------------------------------------------------

    /** Between characters; before the first brace no node is open. */
    ghost predicate Consistent()
      reads this, Spine(), closed.Keys
    {
      Valid() && (tokenState.Start? ==> parseNodeStack == [])
    }

    /** The object has done what `step` says; where that is a fault, it is still sound. */
    ghost predicate Did(step: Step, fault: Option<Fault>)
      reads this, Spine(), closed.Keys
    {
      match step
      case Failure(f) => fault == Some(f) && Valid()
      case Success(next) => fault == None && Consistent() && State() == next
    }

    /** The closed subtrees of `before` are still closed and hold the same trees. */
    ghost predicate KeepsClosed(before: Trees)
      reads this`closed
    {
      forall n :: n in before ==> n in closed && closed[n] == before[n]
    }

    method CollectCharacter(c: char)
      modifies this`pendingToken, this`tokenEscapePending
      ensures frames != [] ==> State() == Collect(old(State()), c)
    {
      pendingToken := pendingToken + [c];
      tokenEscapePending := false;
    }

    method ReadBackslash()
      modifies this`pendingToken, this`tokenEscapePending
      ensures frames != [] ==> State() == Backslash(old(State()))
    {
      if tokenEscapePending {
        CollectCharacter('\\');
      } else {
        tokenEscapePending := true;
      }
    }

    method AtStart(c: char) returns (fault: Option<Fault>)
      requires Consistent() && tokenState.Start?
      modifies this`tokenState, this`pendingNode, this`parseNodeStack, this`rootBefore
      ensures Did(StepStart(old(State()), c), fault)
      ensures fault != None ==> Built() == old(Built())
      ensures Spine() == old(Spine())
    {
      fault := None;
      if IsSkippable(c) {
      } else if c == '{' {
        OpenRoot();
        tokenState := InNode;
      } else {
        fault := Some(Malformed);
      }
    }

    method AtOpeningBrace() returns (fault: Option<Fault>)
      requires Consistent() && tokenState.InNode?
      modifies this, if pendingNode == null then {} else {pendingNode}
      ensures Did(StepInNode(old(State()), '{'), fault)
      ensures fault != None ==> Built() == old(Built())
      ensures rootNode == old(rootNode) && KeepsClosed(old(closed))
      ensures forall n :: n in Spine() ==> n in old(Spine()) || fresh(n)
    {
      hide Valid;
      Facts();
      if parseNodeStack == [] {
        return Some(Undefined);
      }
      OpenChild();
      Facts();
      fault := None;
    }

    method AtClosingBrace() returns (fault: Option<Fault>)
      requires Consistent() && tokenState.InNode?
      modifies this, if pendingNode == null then {} else {pendingNode}
      ensures Did(StepInNode(old(State()), '}'), fault)
      ensures fault != None ==> Built() == old(Built())
      ensures rootNode == old(rootNode) && KeepsClosed(old(closed))
      ensures forall n :: n in Spine() ==> n in old(Spine()) || fresh(n)
    {
      hide Valid;
      Facts();
      if parseNodeStack == [] {
        return Some(Undefined);
      }
      CloseTop();
      Facts();
      fault := None;
    }

    method AtNode(c: char) returns (fault: Option<Fault>)
      requires Consistent() && tokenState.InNode?
      modifies this, if pendingNode == null then {} else {pendingNode}
      ensures Did(StepInNode(old(State()), c), fault)
      ensures fault != None ==> Built() == old(Built())
      ensures rootNode == old(rootNode) && KeepsClosed(old(closed))
      ensures forall n :: n in Spine() ==> n in old(Spine()) || fresh(n)
    {
      hide Valid, CloseNode;
      Facts();
      fault := None;
      if IsSkippable(c) {
      } else if c == '"' {
        tokenState := InNodeName;
      } else if c == '[' {
        tokenState := InAttribute;
        pendingAttributeName, pendingAttributeType, pendingAttributeQualifier, pendingAttributeValue := "", "", "", "";
      } else if c == '{' {
        fault := AtOpeningBrace();
      } else if c == '}' {
        fault := AtClosingBrace();
      } else {
        fault := Some(Malformed);
      }
    }

    /** The closing bracket: make the attribute and hand it to the pending node. */
    method FinishAttribute() returns (fault: Option<Fault>)
      requires Valid()
      modifies this, if pendingNode == null then {} else {pendingNode}
      ensures Did(EndAttribute(old(State())), fault)
      ensures fault != None ==> Built() == old(Built())
      ensures rootNode == old(rootNode) && Spine() == old(Spine()) && closed == old(closed)
    {
      hide AllHold, Forest, Holds, ReadValue, WithTop, Top, AddAttribute, Distinct;
      var value := NewValueFromText(pendingAttributeType, pendingAttributeValue, pendingAttributeQualifier);
      if value.Failure? {
        return Some(value.error);
      }
      if pendingNode == null {
        return Some(Undefined);
      }
      AcceptAttribute(Attribute(pendingAttributeName, value.value));
      fault := None;
    }

    /** Adds the attribute to the pending node and clears its pieces. */
    method AcceptAttribute(a: TextAttribute)
      requires Valid() && pendingNode != null
      modifies this, pendingNode
      ensures Valid() && rootNode == old(rootNode) && Spine() == old(Spine()) && closed == old(closed)
      ensures State() == old(State()).(token := InNode, name := "", typeName := "", qualifier := "", value := "",
                stack := WithTop(old(State()).stack, AddAttribute(Top(old(State()).stack), a)))
    {
      hide Valid;
      Facts();
      AttributePending(a);
      tokenState := InNode;
      pendingAttributeName, pendingAttributeType, pendingAttributeQualifier, pendingAttributeValue := "", "", "", "";
    }

    method AtNodeName(c: char) returns (fault: Option<Fault>)
      requires Consistent() && tokenState.InNodeName?
      modifies this, if pendingNode == null then {} else {pendingNode}
      ensures Did(StepNodeName(old(State()), c), fault)
      ensures fault != None ==> Built() == old(Built())
      ensures rootNode == old(rootNode) && Spine() == old(Spine()) && closed == old(closed)
    {
      hide Valid;
      Facts();
      fault := None;
      if c == '\\' {
        ReadBackslash();
      } else if c == '"' {
        if tokenEscapePending {
          CollectCharacter(c);
        } else if pendingNode == null {
          fault := Some(Undefined);
        } else {
          NamePending(pendingToken);
          pendingToken := "";
          tokenState := InNode;
        }
      } else {
        CollectCharacter(c);
      }
    }

    method AtAttribute(c: char) returns (fault: Option<Fault>)
      requires Consistent() && tokenState.InAttribute?
      modifies this, if pendingNode == null then {} else {pendingNode}
      ensures Did(StepInAttribute(old(State()), c), fault)
      ensures fault != None ==> Built() == old(Built())
      ensures rootNode == old(rootNode) && Spine() == old(Spine()) && closed == old(closed)
    {
      hide Valid, EndAttribute;
      Facts();
      fault := None;
      if IsSkippable(c) {
      } else if c == '"' {
        tokenState := InAttributeName;
      } else if c == '(' {
        tokenState := InAttributeType;
      } else if c == '=' {
        tokenState := PreValue;
      } else if c == ']' {
        fault := FinishAttribute();
      } else {
        fault := Some(Malformed);
      }
    }

    method AtAttributeName(c: char)
      requires Consistent() && tokenState.InAttributeName?
      modifies this`tokenState, this`pendingToken, this`tokenEscapePending, this`pendingAttributeName
      ensures Did(StepAttributeName(old(State()), c), None)
    {
      hide Valid;
      Facts();
      if c == '\\' {
        ReadBackslash();
      } else if c == '"' && !tokenEscapePending {
        pendingAttributeName, pendingToken, tokenState := pendingToken, "", InAttribute;
      } else {
        CollectCharacter(c);
      }
    }

    /** The attribute type or the encoding, up to the closing parenthesis. */
    method AtParenthesized(c: char)
      requires Consistent() && tokenState in {InAttributeType, PreValueQualifier}
      modifies this`tokenState, this`pendingToken, this`pendingAttributeType, this`pendingAttributeQualifier
      ensures Did(BentoParsing.ParseCharacter(old(State()), c), None)
    {
      hide Valid;
      Facts();
      if c != ')' {
        pendingToken := pendingToken + [c];
      } else if tokenState.InAttributeType? {
        pendingAttributeType, pendingToken, tokenState := pendingToken, "", InAttribute;
      } else {
        pendingAttributeQualifier, pendingToken, tokenState := pendingToken, "", PreValue;
      }
    }

    method AtPreValue(c: char)
      requires Consistent() && tokenState.PreValue?
      modifies this`tokenState, this`pendingToken, this`tokenEscapePending
      ensures Did(StepPreValue(old(State()), c), None)
    {
      hide Valid;
      Facts();
      if c == '(' {
        tokenState := PreValueQualifier;
      } else if c == '\\' {
        tokenEscapePending, tokenState := true, Unquoted;
      } else if c == '"' || c == '\'' {
        if tokenEscapePending {
          CollectCharacter(c);
        } else {
          pendingToken, tokenState := pendingToken + [c], if c == '"' then DoubleQuoted else SingleQuoted;
        }
      } else {
        CollectCharacter(c);
        tokenState := Unquoted;
      }
    }

    method AtQuoted(c: char)
      requires Consistent() && tokenState in {DoubleQuoted, SingleQuoted}
      modifies this`tokenState, this`pendingToken, this`tokenEscapePending, this`pendingAttributeValue
      ensures Did(StepQuoted(old(State()), c, if old(tokenState).DoubleQuoted? then '"' else '\''), None)
    {
      hide Valid;
      Facts();
      if c == '\\' {
        ReadBackslash();
      } else if c == (if tokenState.DoubleQuoted? then '"' else '\'') && !tokenEscapePending {
        pendingToken := pendingToken + [c];
        pendingAttributeValue, pendingToken, tokenState := pendingToken, "", InAttribute;
      } else {
        CollectCharacter(c);
      }
    }

    method AtUnquoted(c: char) returns (fault: Option<Fault>)
      requires Consistent() && tokenState.Unquoted?
      modifies this, if pendingNode == null then {} else {pendingNode}
      ensures Did(StepUnquoted(old(State()), c), fault)
      ensures fault != None ==> Built() == old(Built())
      ensures rootNode == old(rootNode) && Spine() == old(Spine()) && closed == old(closed)
    {
      hide Valid, EndAttribute;
      Facts();
      fault := None;
      if c == '\\' {
        ReadBackslash();
      } else if IsSkippable(c) && !tokenEscapePending {
        pendingAttributeValue, pendingToken, tokenState := pendingToken, "", InAttribute;
      } else if c == ']' && !tokenEscapePending {
        pendingAttributeValue, pendingToken := pendingToken, "";
        fault := FinishAttribute();
      } else {
        CollectCharacter(c);
      }
    }

    /**
      One character: the object follows the character machine on values, keeps
      the spine, and leaves every closed subtree alone.
     */
    method ParseCharacter(c: char) returns (fault: Option<Fault>)
      requires Consistent()
      modifies this, if pendingNode == null then {} else {pendingNode}
      ensures Did(BentoParsing.ParseCharacter(old(State()), c), fault)
      ensures fault != None ==> Built() == old(Built())
      ensures rootNode == old(rootNode) && KeepsClosed(old(closed))
      ensures forall n :: n in Spine() ==> n in old(Spine()) || fresh(n)
    {
      hide StepStart, StepInNode, StepNodeName, StepInAttribute, StepUnquoted, StepAttributeName, StepAttributeType,
           StepQualifier, StepPreValue, StepQuoted, Valid;
      match tokenState {
        case Start => fault := AtStart(c);
        case InNode => fault := AtNode(c);
        case InNodeName => fault := AtNodeName(c);
        case InAttribute => fault := AtAttribute(c);
        case Unquoted => fault := AtUnquoted(c);
        case InAttributeName => AtAttributeName(c); fault := None;
        case InAttributeType => AtParenthesized(c); fault := None;
        case PreValueQualifier => AtParenthesized(c); fault := None;
        case PreValue => AtPreValue(c); fault := None;
        case DoubleQuoted => AtQuoted(c); fault := None;
        case SingleQuoted => AtQuoted(c); fault := None;
      }
    }

    /**
      The loop over the text, up to its end or the first fault.  A fault leaves
      the tree that the characters taken before it have built.
     */
    method ParseText(s: string) returns (fault: Option<Fault>, ghost taken: nat)
      requires Consistent()
      modifies this, Spine()
      ensures Did(Parse(old(State()), s), fault)
      ensures rootNode == old(rootNode) && KeepsClosed(old(closed))
      ensures fault != None ==>
                taken < |s| && match Parse(old(State()), s[..taken])
                               case Failure(_) => false
                               case Success(st) => Built() == (st.stack, st.root)
    {
      hide AllHold, Forest, Parse, BentoParsing.ParseCharacter;
      var i := 0;
      taken := 0;
      assert s[..0] == "";
      NothingParsed(State());
      while i < |s|
        invariant 0 <= i <= |s|
        invariant Consistent() && rootNode == old(rootNode) && KeepsClosed(old(closed))
        invariant Parse(old(State()), s[..i]) == Success(State())
        invariant forall n :: n in Spine() ==> n in old(Spine()) || fresh(n)
      {
        assert pendingNode == null || pendingNode in Spine();
        ParseNext(old(State()), s, i, State());
        taken := i;
        fault := ParseCharacter(s[i]);
        if fault != None {
          return;
        }
        i := i + 1;
      }
      assert s[..i] == s;
      fault := None;
    }
  }

  lemma NothingParsed(st: ParserState)
    ensures Parse(st, "") == Success(st)
  {
  }

  /** What the next character does decides over the longer prefix, and a fault over the whole text. */
  lemma ParseNext(start: ParserState, s: string, i: nat, st: ParserState)
    requires i < |s| && Parse(start, s[..i]) == Success(st)
    ensures Parse(start, s[..i + 1]) == BentoParsing.ParseCharacter(st, s[i])
    ensures match BentoParsing.ParseCharacter(st, s[i])
            case Failure(f) => Parse(start, s) == Failure(f)
            case Success(_) => true
  {
    hide Parse, BentoParsing.ParseCharacter;
    assert s[..i + 1] == s[..i] + [s[i]] && s == s[..i + 1] + s[i + 1..];
    ParseConcat(start, s[..i], [s[i]]);
    ParseOne(st, s[i]);
    ParseConcat(start, s[..i + 1], s[i + 1..]);
  }
}
