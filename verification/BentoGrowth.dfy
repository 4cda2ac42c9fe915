/**
  The parser only adds: whatever the open nodes hold at some point of a run is
  still there, at the same place, in the tree that the run ends with.
 */
module BentoGrowth {
  import opened Wrappers
  import opened BentoModel
  import opened BentoText
  import opened BentoParsing

  /** The open nodes are the beginnings of the nodes on a path down from `r`. */
  predicate Under(stack: seq<TextNode>, r: TextNode)
  {
    && stack != [] && stack[0].attributes <= r.attributes && stack[0].children <= r.children
    && (|stack| > 1 ==> |stack[0].children| < |r.children| && Under(stack[1..], r.children[|stack[0].children|]))
  }

  /** The node of the final tree that the pending node grows into. */
  function At(stack: seq<TextNode>, r: TextNode): TextNode
    requires Under(stack, r)
  {
    if |stack| == 1 then r else At(stack[1..], r.children[|stack[0].children|])
  }

  /** What the state holds is the beginning of `r`. */
  predicate Leaves(st: ParserState, r: TextNode)
  {
    if st.stack == [] then st.root == r else Under(st.stack, r)
  }

  lemma {:induction false} UnderTop(stack: seq<TextNode>, top: TextNode, r: TextNode)
    requires stack != [] && Under(WithTop(stack, top), r)
    requires Top(stack).attributes <= top.attributes && Top(stack).children <= top.children
    ensures Under(stack, r) && At(stack, r) == At(WithTop(stack, top), r)
    ensures top.attributes <= At(stack, r).attributes && top.children <= At(stack, r).children
    decreases |stack|
  {
    var grown := WithTop(stack, top);
    if |stack| > 1 {
      assert grown[1..] == WithTop(stack[1..], top) && Top(stack[1..]) == Top(stack);
      UnderTop(stack[1..], top, r.children[|stack[0].children|]);
    }
  }

  lemma {:induction false} UnderPush(stack: seq<TextNode>, n: TextNode, r: TextNode)
    requires stack != [] && Under(stack + [n], r)
    ensures Under(stack, r) && |Top(stack).children| < |At(stack, r).children|
    ensures At(stack + [n], r) == At(stack, r).children[|Top(stack).children|]
    decreases |stack|
  {
    var grown := stack + [n];
    assert grown[1..] == stack[1..] + [n];
    if |stack| > 1 {
      UnderPush(stack[1..], n, r.children[|stack[0].children|]);
    } else {
      assert stack[1..] + [n] == [n];
    }
  }

  /** A node below an open one can be put on the stack. */
  lemma {:induction false} UnderOpen(stack: seq<TextNode>, n: TextNode, r: TextNode)
    requires stack != [] && Under(stack, r) && |Top(stack).children| < |At(stack, r).children|
    requires n.attributes <= At(stack, r).children[|Top(stack).children|].attributes
    requires n.children <= At(stack, r).children[|Top(stack).children|].children
    ensures Under(stack + [n], r)
    decreases |stack|
  {
    var grown := stack + [n];
    assert grown[1..] == stack[1..] + [n];
    if |stack| > 1 {
      UnderOpen(stack[1..], n, r.children[|stack[0].children|]);
    } else {
      assert grown[1..] == [n];
    }
  }

  lemma EndLeaves(st: ParserState, r: TextNode)
    requires EndAttribute(st).Success? && Leaves(EndAttribute(st).value, r)
    ensures Leaves(st, r)
  {
    hide Under;
    var v := ReadValueOf(st);
    UnderTop(st.stack, AddAttribute(Top(st.stack), Attribute(st.name, v)), r);
  }

  function ReadValueOf(st: ParserState): TextValue
    requires EndAttribute(st).Success?
  {
    var next := EndAttribute(st).value;
    Top(next.stack).attributes[|Top(st.stack).attributes|].value
  }

  lemma CloseLeaves(st: ParserState, r: TextNode)
    requires CloseNode(st).Success? && Leaves(CloseNode(st).value, r)
    ensures Leaves(st, r)
  {
    var below, closed := st.stack[..|st.stack| - 1], Top(st.stack);
    assert st.stack == below + [closed];
    if below != [] {
      var parent := AddChild(Top(below), closed);
      UnderTop(below, parent, r);
      assert parent.children[|Top(below).children|] == closed;
      UnderOpen(below, closed, r);
    }
  }

  lemma NameLeaves(st: ParserState, name: string, r: TextNode)
    requires st.stack != [] && Under(WithTop(st.stack, Top(st.stack).(name := name)), r)
    ensures Under(st.stack, r)
  {
    UnderTop(st.stack, Top(st.stack).(name := name), r);
  }

  lemma InNodeLeaves(st: ParserState, c: char, r: TextNode)
    requires StepInNode(st, c).Success? && Leaves(StepInNode(st, c).value, r)
    ensures Leaves(st, r)
  {
    hide Under, CloseNode;
    if c == '{' {
      UnderPush(st.stack, NEW_NODE, r);
    } else if c == '}' {
      CloseLeaves(st, r);
    }
  }

  lemma LeavesStep(st: ParserState, c: char, r: TextNode)
    requires !st.token.Start? && ParseCharacter(st, c).Success? && Leaves(ParseCharacter(st, c).value, r)
    ensures Leaves(st, r)
  {
    hide Under, CloseNode, EndAttribute, StepInNode, WithTop;
    match st.token {
      case InNode => InNodeLeaves(st, c, r);
      case InNodeName =>
        if c == '"' && !st.escape {
          NameNext(st, r);
        }
      case InAttribute => if c == ']' { EndLeaves(st, r); }
      case Unquoted => if c == ']' && !st.escape { EndLeaves(st.(value := st.pending, pending := ""), r); }
      case _ =>
    }
  }

  lemma NameNext(st: ParserState, r: TextNode)
    requires StepNodeName(st, '"').Success? && !st.escape && Leaves(StepNodeName(st, '"').value, r)
    ensures Leaves(st, r)
  {
    hide Under;
    NameLeaves(st, st.pending, r);
  }

  /** A run that ends in a tree builds on what it starts with. */
  lemma {:induction false} LeavesRun(st: ParserState, s: string, end: ParserState, r: TextNode)
    requires !st.token.Start? && Parse(st, s) == Success(end) && Leaves(end, r)
    ensures Leaves(st, r)
    decreases |s|
  {
    hide ParseCharacter, Leaves;
    if s != "" {
      var next := ParseCharacter(st, s[0]).value;
      NotStart(st, s[0]);
      LeavesRun(next, s[1..], end, r);
      LeavesStep(st, s[0], r);
    }
  }

  lemma NotStart(st: ParserState, c: char)
    requires !st.token.Start? && ParseCharacter(st, c).Success?
    ensures !ParseCharacter(st, c).value.token.Start?
  {
    hide WithTop;
  }
}
