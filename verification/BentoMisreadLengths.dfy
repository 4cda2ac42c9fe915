/**
  Trees in which a length is mistaken for a longer form.  The reader then runs
  ahead of what was written, and the part is not read unless it starts over
  behind the bytes that were swallowed.  The reader can only fall back where a
  later part can be read from fewer bytes than were written for it.  A tree in
  which one of the two is impossible at the first such length does not come
  back; where both are possible it may, and one is given that does.
 */
module BentoMisreadLengths {
  import opened BinaryStreams
  import opened BentoModel
  import opened BentoBinary
  import opened BentoBinaryAttributes
  import opened BentoBinaryTrees

  // ----- What reading takes -----------------------------------------------

  function AttributesSlack(attributes: seq<BinaryAttribute>): nat
  {
    if attributes == [] then 0 else AttributeSlack(attributes[0]) + AttributesSlack(attributes[1..])
  }

  function TreesSlack(children: seq<BinaryNode>): nat
  {
    if children == [] then 0 else TreeSlack(children[0]) + TreesSlack(children[1..])
  }

  function ContentSlack(t: BinaryNode): nat
    decreases t, 0
  {
    AttributesSlack(t.attributes) + TreesSlack(t.children)
  }

  /** By how many bytes the bytes written for a tree exceed the least it could be read from. */
  function TreeSlack(t: BinaryNode): nat
    decreases t, 1
  {
    CountLength(ContentSize(t)) - 1 + ContentSlack(t)
  }

  lemma {:induction false} AttributesTaken(n: int, bs: Bytes, attributes: seq<BinaryAttribute>, left: Bytes)
    requires HoldableAttributes(attributes) && ReadAttributes(n, bs) == Ok(attributes, left)
    ensures |bs| >= |left| + |AttributesBytes(attributes)| - AttributesSlack(attributes)
    decreases |attributes|
  {
    hide HoldableAttribute, AttributeBytes, ReadAttribute, AttributeSlack;
    if n > 0 {
      var next := ReadAttribute(bs).rest;
      var others := ReadAttributes(n - 1, next).value;
      assert attributes[0] == ReadAttribute(bs).value && attributes[1..] == others;
      AttributeTaken(bs, attributes[0], next);
      AttributesTaken(n - 1, next, others, left);
    }
  }

  lemma {:induction false} ChildrenTaken(n: int, bs: Bytes, children: seq<BinaryNode>, left: Bytes)
    requires HoldableTrees(children) && ReadNodes(n, bs) == Ok(children, left)
    ensures |bs| >= |left| + |ChildrenBytes(children)| - TreesSlack(children)
    decreases children, 0
  {
    hide HoldableTree, NodeBytes, ReadNode, TreeSlack;
    if n > 0 {
      var next := ReadNode(bs).rest;
      var others := ReadNodes(n - 1, next).value;
      assert children[0] == ReadNode(bs).value && children[1..] == others;
      NodeTaken(bs, children[0], next);
      ChildrenTaken(n - 1, next, others, left);
    }
  }

  lemma {:induction false} NodeTaken(bs: Bytes, t: BinaryNode, left: Bytes)
    requires HoldableTree(t) && ReadNode(bs) == Ok(t, left)
    ensures |bs| >= |left| + |NodeBytes(t)| - TreeSlack(t)
    decreases t, 1
  {
    hide ReadCount, ReadNodeContent, NodeContent, DynamicCount, CountLength, ContentSize, ContentSlack;
    CountConsumed(bs);
    NodeContentTaken(ReadCount(bs).rest, t, left);
    DynamicCountLength(ContentSize(t));
  }

  lemma {:induction false} NodeContentTaken(bs: Bytes, t: BinaryNode, left: Bytes)
    requires HoldableTree(t) && ReadNodeContent(bs) == Ok(t, left)
    ensures |bs| >= |left| + |NodeContent(t)| - ContentSlack(t)
    decreases t, 0
  {
    hide ReadWord, ReadString, ReadAttributes, ReadNodes, NodeContent, NodeBytes, AttributesBytes, ChildrenBytes;
    hide StringBytes, HoldableAttribute, AttributesSlack, TreesSlack;
    ReadWordLeft(bs, 4, true);
    var afterFirst := ReadScalar(S32, bs).rest;
    ReadWordLeft(afterFirst, 4, true);
    var afterCounts := ReadScalar(S32, afterFirst).rest;
    StringConsumed(afterCounts);
    var afterName := ReadString(afterCounts).rest;
    var n, m := ReadScalar(S32, bs).value, ReadScalar(S32, afterFirst).value;
    AttributesTaken(n, afterName, t.attributes, ReadAttributes(n, afterName).rest);
    ChildrenTaken(m, ReadAttributes(n, afterName).rest, t.children, left);
    PartsInside(t);
  }

  // ----- Trees that are lost ----------------------------------------------

  function Count(n: int): nat { if n < 0 then 0 else n }

  /** Behind the bytes that the length swallows, the content begins with counters of the same meaning once more. */
  predicate NodeRecurs(t: BinaryNode)
    requires HoldableTree(t)
  {
    var n, content := Swallowed(ContentSize(t)), NodeContent(t);
    && n + 8 <= |content|
    && Count(Word(content[n..n + 4], true)) == |t.attributes|
    && Count(Word(content[n + 4..n + 8], true)) == |t.children|
  }

  /**
    Behind the first illegible length of the list the type code does not
    recur, or the length swallows more than can be saved later.
   */
  predicate LostAttributes(attributes: seq<BinaryAttribute>, after: nat)
    requires HoldableAttributes(attributes)
  {
    attributes != [] &&
    if Legible(AttributeContentSize(attributes[0])) then LostAttributes(attributes[1..], after)
    else
      || !AttributeRecurs(attributes[0])
      || Swallowed(AttributeContentSize(attributes[0])) > AttributesSlack(attributes[1..]) + after
  }

  predicate LostTrees(children: seq<BinaryNode>, after: nat)
    requires HoldableTrees(children)
    decreases children, 0
  {
    children != [] &&
    if LegibleTree(children[0]) then LostTrees(children[1..], after)
    else LostTree(children[0], TreesSlack(children[1..]) + after)
  }

  /** The same of a tree behind which `after` bytes can be saved. */
  predicate LostTree(t: BinaryNode, after: nat)
    requires HoldableTree(t)
    decreases t, 1
  {
    if !Legible(ContentSize(t)) then !NodeRecurs(t) || Swallowed(ContentSize(t)) > ContentSlack(t) + after
    else if !AllLegible(t.attributes) then LostAttributes(t.attributes, TreesSlack(t.children) + after)
    else LostTrees(t.children, after)
  }

  lemma {:induction false} AttributesCounted(n: int, bs: Bytes)
    ensures match ReadAttributes(n, bs) case Fail(_) => true case Ok(attributes, _) => |attributes| == Count(n)
    decreases Count(n)
  {
    hide ReadAttribute;
    if n > 0 && ReadAttribute(bs).Ok? {
      AttributesCounted(n - 1, ReadAttribute(bs).rest);
    }
  }

  lemma {:induction false} NodesCounted(n: int, bs: Bytes)
    ensures match ReadNodes(n, bs) case Fail(_) => true case Ok(children, _) => |children| == Count(n)
    decreases Count(n)
  {
    hide ReadNode;
    if n > 0 && ReadNode(bs).Ok? {
      NodesCounted(n - 1, ReadNode(bs).rest);
    }
  }

  lemma CounterRead(bs: Bytes)
    ensures ReadScalar(S32, bs) == if |bs| < 4 then Fail(EndOfStream) else Ok(Word(bs[..4], true), bs[4..])
  {
    hide Word;
  }

  /** A node is read only from counters that say how many attributes and children it has. */
  lemma CountersRead(bs: Bytes, t: BinaryNode, left: Bytes)
    requires ReadNodeContent(bs) == Ok(t, left)
    ensures |bs| >= 8 && Count(Word(bs[..4], true)) == |t.attributes| && Count(Word(bs[4..8], true)) == |t.children|
  {
    hide ReadNodeContent, Word, ReadAttributes, ReadNodes;
    var n, m, afterName, afterAttributes := ContentRead(bs, t, left);
    AttributesCounted(n, afterName);
    NodesCounted(m, afterAttributes);
  }

  /** Where the parts of a node have been read from. */
  lemma ContentRead(bs: Bytes, t: BinaryNode, left: Bytes)
    returns (n: int, m: int, afterName: Bytes, afterAttributes: Bytes)
    requires ReadNodeContent(bs) == Ok(t, left)
    ensures |bs| >= 8 && n == Word(bs[..4], true) && m == Word(bs[4..8], true)
    ensures ReadAttributes(n, afterName) == Ok(t.attributes, afterAttributes)
    ensures ReadNodes(m, afterAttributes) == Ok(t.children, left)
  {
    hide ReadScalar, Word, ReadString, ReadAttributes, ReadNodes;
    CounterRead(bs);
    CounterRead(bs[4..]);
    assert bs[4..][..4] == bs[4..8];
    n, m := Word(bs[..4], true), Word(bs[4..8], true);
    afterName := ReadString(bs[4..][4..]).rest;
    afterAttributes := ReadAttributes(n, afterName).rest;
  }

  lemma Within(content: Bytes, rest: Bytes, n: nat)
    requires n + 8 <= |content|
    ensures var bs := (content + rest)[n..]; bs[..4] == content[n..n + 4] && bs[4..8] == content[n + 4..n + 8]
  {
    var bs := (content + rest)[n..];
    assert |bs| >= 8;
    assert forall i :: 0 <= i < 8 ==> bs[i] == content[n + i];
  }

  /** A node with an illegible length is not read at all unless its counters recur, whatever follows it. */
  lemma NodeNotResumed(t: BinaryNode, rest: Bytes, left: Bytes)
    requires HoldableTree(t) && |NodeContent(t)| < MAX_SIZE && !Legible(ContentSize(t)) && !NodeRecurs(t)
    requires Swallowed(ContentSize(t)) + 8 <= |NodeContent(t)|
    ensures ReadNode(NodeBytes(t) + rest) != Ok(t, left)
  {
    hide DynamicCount, ReadCount, NodeContent, ReadNodeContent, ContentSize, Word;
    var n, content := Swallowed(ContentSize(t)), NodeContent(t);
    SizesExact(t);
    NodeForm(t, rest);
    ReadCountLeft(ContentSize(t), content + rest);
    var bs := (content + rest)[n..];
    Within(content, rest, n);
    if ReadNodeContent(bs) == Ok(t, left) {
      CountersRead(bs, t, left);
    }
  }

  /** A node with an illegible length is long: somewhere in it a polygon has overflowed. */
  lemma {:induction false} IllegibleNodeIsLong(t: BinaryNode)
    requires HoldableTree(t) && ContentSize(t) < 0
    ensures |NodeContent(t)| >= 0x7FFF_FFFC
    decreases t, 0
  {
    hide AttributeTotalSize, AttributesBytes, ChildrenBytes, StringBytes, HoldableAttribute, NodeContent;
    PartsInside(t);
    if AttributesSize(t.attributes) < 0 {
      NegativeAttributes(t.attributes);
    } else {
      NegativeChildren(t.children);
    }
  }

  lemma {:induction false} NegativeAttributes(attributes: seq<BinaryAttribute>)
    requires HoldableAttributes(attributes) && AttributesSize(attributes) < 0
    ensures |AttributesBytes(attributes)| >= 0x7FFF_FFFC
  {
    hide AttributeBytes, AttributeContent, AttributeContentSize, HoldableAttribute;
    var a := attributes[0];
    if AttributeTotalSize(a) < 0 {
      NegativeIsLong(a);
      AttributeInside(a);
    } else {
      NegativeAttributes(attributes[1..]);
    }
  }

  lemma {:induction false} NegativeChildren(children: seq<BinaryNode>)
    requires HoldableTrees(children) && ChildrenSize(children) < 0
    ensures |ChildrenBytes(children)| >= 0x7FFF_FFFC
    decreases children, 1
  {
    hide NodeBytes, NodeContent, ContentSize, HoldableTree;
    var t := children[0];
    if TotalSize(t) < 0 {
      IllegibleNodeIsLong(t);
      PartsInside(t);
    } else {
      NegativeChildren(children[1..]);
    }
  }

  /** Reading a lost list goes beyond its end by more than can be saved after it. */
  lemma {:induction false} AttributesOvershot(attributes: seq<BinaryAttribute>, after: nat, rest: Bytes, left: Bytes)
    requires HoldableAttributes(attributes) && |AttributesBytes(attributes)| < MAX_SIZE
    requires LostAttributes(attributes, after)
    requires ReadAttributes(|attributes|, AttributesBytes(attributes) + rest) == Ok(attributes, left)
    ensures |rest| - |left| > after
    decreases |attributes|
  {
    hide AttributeBytes, ReadAttribute, AttributeContent, AttributeContentSize, HoldableAttribute, AttributeSlack;
    hide Legible, Swallowed, AttributeRecurs;
    var a, others := attributes[0], attributes[1..];
    var bytes := AttributesBytes(others) + rest;
    assert AttributesBytes(attributes) + rest == AttributeBytes(a) + bytes;
    var next := ReadAttribute(AttributeBytes(a) + bytes).rest;
    assert ReadAttribute(AttributeBytes(a) + bytes) == Ok(a, next);
    assert ReadAttributes(|others|, next) == Ok(others, left);
    AttributeInside(a);
    if Legible(AttributeContentSize(a)) {
      ReadAttributeOf(a, bytes);
      AttributesOvershot(others, after, rest, left);
    } else {
      OnlyPolygons(a);
      if !AttributeRecurs(a) {
        NotResumed(a, bytes, next);
      }
      AttributeOvershot(a, bytes, next);
      AttributesTaken(|others|, next, others, left);
    }
  }

  /** Reading a list of nodes reads the first and then the others. */
  lemma FirstChildRead(children: seq<BinaryNode>, rest: Bytes, left: Bytes) returns (next: Bytes)
    requires HoldableTrees(children) && children != []
    requires ReadNodes(|children|, ChildrenBytes(children) + rest) == Ok(children, left)
    ensures ReadNode(NodeBytes(children[0]) + (ChildrenBytes(children[1..]) + rest)) == Ok(children[0], next)
    ensures ReadNodes(|children| - 1, next) == Ok(children[1..], left)
  {
    hide NodeBytes, ReadNode, HoldableTree;
    var bs := NodeBytes(children[0]) + (ChildrenBytes(children[1..]) + rest);
    assert ChildrenBytes(children) + rest == bs;
    next := ReadNode(bs).rest;
  }

  lemma {:induction false} ChildrenOvershot(children: seq<BinaryNode>, after: nat, rest: Bytes, left: Bytes)
    requires HoldableTrees(children) && |ChildrenBytes(children)| < MAX_SIZE && LostTrees(children, after)
    requires ReadNodes(|children|, ChildrenBytes(children) + rest) == Ok(children, left)
    ensures |rest| - |left| > after
    decreases children, 0
  {
    hide NodeBytes, ReadNode, ReadNodes, NodeContent, HoldableTree, LegibleTree, LostTree, TreeSlack, TreesSlack;
    var t, others := children[0], children[1..];
    var bytes := ChildrenBytes(others) + rest;
    var next := FirstChildRead(children, rest, left);
    assert |ChildrenBytes(children)| == |NodeBytes(t)| + |ChildrenBytes(others)|;
    PartsInside(t);
    if LegibleTree(t) {
      ReadNodeOf(t, bytes);
      ChildrenOvershot(others, after, rest, left);
    } else {
      NodeOvershot(t, TreesSlack(others) + after, bytes, next);
      ChildrenTaken(|others|, next, others, left);
    }
  }

  lemma {:induction false} NodeOvershot(t: BinaryNode, after: nat, rest: Bytes, left: Bytes)
    requires HoldableTree(t) && |NodeContent(t)| < MAX_SIZE && LostTree(t, after)
    requires ReadNode(NodeBytes(t) + rest) == Ok(t, left)
    ensures |rest| - |left| > after
    decreases t, 1
  {
    hide DynamicCount, ReadCount, NodeContent, ReadNodeContent, ContentSize, ContentSlack, Legible, Swallowed;
    hide AllLegible, LostAttributes, LostTrees, HoldableAttribute, NodeRecurs;
    var n := ContentSize(t);
    SizesExact(t);
    NodeForm(t, rest);
    ReadCountLeft(n, NodeContent(t) + rest);
    if Legible(n) {
      assert Swallowed(n) == 0 by { NothingSwallowed(n); }
      ContentOvershot(t, after, rest, left);
    } else {
      if !NodeRecurs(t) {
        assert n < 0 by { IllegibleIsNegative(n); }
        IllegibleNodeIsLong(t);
        SwallowedFew(n);
        NodeNotResumed(t, rest, left);
      }
      NodeContentTaken((NodeContent(t) + rest)[Swallowed(n)..], t, left);
    }
  }

  lemma IllegibleIsNegative(n: int)
    requires !Legible(n)
    ensures n < 0
  {
  }

  lemma SwallowedFew(n: int)
    ensures Swallowed(n) <= 8
  {
  }

  lemma NothingSwallowed(n: int)
    requires Legible(n)
    ensures Swallowed(n) == 0
  {
  }

  lemma {:induction false} ContentOvershot(t: BinaryNode, after: nat, rest: Bytes, left: Bytes)
    requires HoldableTree(t) && |NodeContent(t)| < MAX_SIZE && Legible(ContentSize(t)) && LostTree(t, after)
    requires ReadNodeContent(NodeContent(t) + rest) == Ok(t, left)
    ensures |rest| - |left| > after
    decreases t, 0
  {
    hide NodeContent, ReadNodeContent, ContentSize, AttributesBytes, ReadAttributes, ChildrenBytes, ReadNodes;
    hide AllLegible, LostAttributes, LostTrees, HoldableAttribute, AttributesSlack, TreesSlack, StringBytes;
    var afterAttributes := ChildrenBytes(t.children) + rest;
    PartsInside(t);
    ReadHeader(t, rest);
    var next := ReadAttributes(|t.attributes|, AttributesBytes(t.attributes) + afterAttributes).rest;
    if AllLegible(t.attributes) {
      ReadAttributesOf(t.attributes, afterAttributes);
      ChildrenOvershot(t.children, after, rest, left);
    } else {
      AttributesOvershot(t.attributes, TreesSlack(t.children) + after, afterAttributes, next);
      ChildrenTaken(|t.children|, next, t.children, left);
    }
  }

  /** A lost tree is not read back from what it was written as. */
  lemma LostIsNotRead(t: BinaryNode, rest: Bytes)
    requires HoldableTree(t) && |NodeContent(t)| < MAX_SIZE && LostTree(t, 0)
    ensures ReadNode(NodeBytes(t) + rest) != Ok(t, rest)
  {
    hide NodeBytes, ReadNode, NodeContent, LostTree;
    if ReadNode(NodeBytes(t) + rest) == Ok(t, rest) {
      NodeOvershot(t, 0, rest, rest);
    }
  }

  /**
    Of the trees that have no illegible length, or one behind which the part
    does not start over or too little can be saved, exactly those without one
    come back.
   */
  lemma ReadNodeExactly(t: BinaryNode, rest: Bytes)
    requires HoldableTree(t) && |NodeContent(t)| < MAX_SIZE && (LegibleTree(t) || LostTree(t, 0))
    ensures ReadNode(NodeBytes(t) + rest) == Ok(t, rest) <==> LegibleTree(t)
  {
    hide NodeBytes, ReadNode, NodeContent, LostTree, LegibleTree;
    if LegibleTree(t) {
      ReadNodeOf(t, rest);
    } else {
      LostIsNotRead(t, rest);
    }
  }
}
