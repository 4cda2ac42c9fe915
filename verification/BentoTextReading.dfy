/**
  Reading Bento text into a node object, and what comes back when the text is
  one that a tree was printed as.
 */
module BentoTextReading {
  import opened Wrappers
  import opened BentoText
  import opened BentoTextValues
  import opened BentoParsing
  import opened BentoRoundTrip
  import opened BentoPrintedBrackets
  import opened BentoTextRoundTrip
  import opened BentoNodes
  import opened BentoTextNodeParser
  import opened BentoTextWriting

  /** The root of what has been parsed: the lowest open node, or the finished root. */
  ghost function Lowest(st: ParserState): TextNode { if st.stack == [] then st.root else st.stack[0] }

  /** The node has the name, the attributes and the closed children of what has been parsed. */
  ghost predicate HoldsSoFar(root: BentoNode, parsed: Step, after: Trees)
    reads root
  {
    && parsed.Success?
    && var t := Lowest(parsed.value);
       && root.name == t.name && root.attributes == t.attributes && |t.children| <= |root.children| <= |t.children| + 1
       && forall i :: 0 <= i < |t.children| ==> root.children[i] in after && after[root.children[i]] == t.children[i]
  }

  /**
    `readFromBentoTextString`: only `root` and new nodes change.  Text that
    closes every node it opens leaves a complete tree under `root`; whatever
    `root` held before is still there, untouched.  A fault leaves a forest
    too, and of what the text before it has led to `root` holds name,
    attributes and closed children.
   */
  method ReadFromBentoText(root: BentoNode, s: string, ghost trees: Trees)
    returns (fault: Option<Fault>, ghost after: Trees, ghost taken: nat)
    requires Forest(trees) && root in trees
    requires forall n :: n in trees ==> root !in n.children
    modifies root
    ensures match Parse(Initial(trees[root]), s)
            case Failure(f) =>
              && fault == Some(f) && Forest(after)
              && taken < |s| && HoldsSoFar(root, Parse(Initial(trees[root]), s[..taken]), after)
              && forall n :: n in trees && n != root ==> n in after && after[n] == trees[n]
            case Success(end) =>
              && fault == None
              && (end.stack == [] ==> Forest(after) && root in after && after[root] == end.root)
              && forall n :: n in trees && n != root ==> n in after && after[n] == trees[n]
  {
    hide Forest, Parse;
    after := trees;
    var parser := new Parser(root, trees);
    fault, taken := parser.ParseText(s);
    after := parser.closed;
    if fault != None {
      parser.RootSoFar();
    } else {
      if parser.parseNodeStack == [] {
        ForestGrows(parser.closed, root, parser.frames[0]);
        after := parser.closed[root := parser.frames[0]];
      }
    }
  }

  /** Reading what a tree was printed as merges the reread tree into the node. */
  method ReadPrintedText(root: BentoNode, s: string, ghost trees: Trees,
                         ghost t: TextNode, ghost layout: Layout, ghost depth: int, ghost tail: string)
    returns (fault: Option<Fault>, ghost after: Trees)
    requires Forest(trees) && root in trees
    requires forall n :: n in trees ==> root !in n.children
    requires ReadableTree(t) && SkippableLayout(layout) && s == NodeText(t, layout, depth) + tail
    requires forall i :: 0 <= i < |tail| ==> IsSkippable(tail[i])
    modifies root
    ensures fault == None && Forest(after) && root in after
    ensures after[root] == Merge(trees[root], RereadTree(t))
    ensures forall n :: n in trees && n != root ==> n in after && after[n] == trees[n]
  {
    hide Forest, Parse, NodeText, ReadableTree, RereadTree;
    ParsePrinted(trees[root], t, layout, depth, tail);
    ghost var taken;
    fault, after, taken := ReadFromBentoText(root, s, trees);
  }

  /**
    Writing a node and reading the text into a new node: the new node holds
    the same tree, in nodes of its own, and the original is untouched.
   */
  method WriteThenRead(n: BentoNode, layout: Layout, ghost trees: Trees)
    returns (copy: BentoNode, fault: Option<Fault>, ghost after: Trees)
    requires Forest(trees) && n in trees && PrintableTree(trees[n]) && SettledTree(trees[n]) && SkippableLayout(layout)
    ensures fault == None && fresh(copy) && Forest(after) && copy in after && after[copy] == trees[n]
    ensures forall m :: m in trees ==> m in after && after[m] == trees[m]
  {
    hide *;
    ghost var t := trees[n];
    SettledIsReadable(t);
    var stream := new TextStream();
    WriteNode(n, stream, layout, 0, trees);
    copy := new BentoNode("uninitialized");
    ghost var grown := trees[copy := NEW_NODE];
    NewNodeShown(copy, trees);
    ForestGrows(trees, copy, NEW_NODE);
    assert stream.text == NodeText(t, layout, 0) + "";
    fault, after := ReadPrintedText(copy, stream.text, grown, t, layout, 0, "");
    MergeNew(t);
  }

  lemma NewNodeShown(n: BentoNode, trees: Trees)
    requires n.name == "uninitialized" && n.attributes == [] && n.children == []
    ensures Shows(n, |n.children|, NEW_NODE, trees)
  {
  }

  lemma MergeNew(t: TextNode)
    ensures Merge(NEW_NODE, t) == t
  {
    assert [] + t.attributes == t.attributes && [] + t.children == t.children;
  }
}
