/**
  Whole trees in the binary format: the announced lengths are exact, at every
  depth, unless a polygon overflows its own, and reading what was written gives
  the tree back and leaves exactly the bytes that follow it, if the lengths are
  legible.
 */
module BentoBinaryTrees {
  import opened Wrappers
  import opened Utf8
  import opened BinaryStreams
  import opened BentoModel
  import opened BentoBinary
  import opened BentoBinaryAttributes

  // ----- Writing ----------------------------------------------------------

  function AttributesSize(attributes: seq<BinaryAttribute>): int
  {
    if attributes == [] then 0 else AttributeTotalSize(attributes[0]) + AttributesSize(attributes[1..])
  }

  function ChildrenSize(children: seq<BinaryNode>): int
  {
    if children == [] then 0 else TotalSize(children[0]) + ChildrenSize(children[1..])
  }

  /** `_calculateContentSize` */
  function ContentSize(t: BinaryNode): int
    decreases t, 0
  {
    8 + BinaryStringLength(t.name) + AttributesSize(t.attributes) + ChildrenSize(t.children)
  }

  /** `_calculateTotalSize` */
  function TotalSize(t: BinaryNode): int
    decreases t, 1
  {
    CountLength(ContentSize(t)) + ContentSize(t)
  }

  /** Trees that can be held: no list or string is too long for its count. */
  predicate HoldableTree(t: BinaryNode)
  {
    && |t.name| < MAX_COUNT && |t.attributes| < MAX_COUNT && HoldableAttributes(t.attributes)
    && |t.children| < MAX_COUNT && forall i :: 0 <= i < |t.children| ==> HoldableTree(t.children[i])
  }

  predicate HoldableAttributes(attributes: seq<BinaryAttribute>)
  {
    forall i :: 0 <= i < |attributes| ==> HoldableAttribute(attributes[i])
  }

  predicate HoldableTrees(children: seq<BinaryNode>)
  {
    forall i :: 0 <= i < |children| ==> HoldableTree(children[i])
  }

  function AttributesBytes(attributes: seq<BinaryAttribute>): Bytes
    requires HoldableAttributes(attributes)
  {
    if attributes == [] then [] else AttributeBytes(attributes[0]) + AttributesBytes(attributes[1..])
  }

  function ChildrenBytes(children: seq<BinaryNode>): Bytes
    requires HoldableTrees(children)
  {
    if children == [] then [] else NodeBytes(children[0]) + ChildrenBytes(children[1..])
  }

  function NodeContent(t: BinaryNode): Bytes
    requires HoldableTree(t)
    decreases t, 0
  {
    ScalarBytes(S32, |t.attributes|) + (ScalarBytes(S32, |t.children|)
      + (StringBytes(t.name) + (AttributesBytes(t.attributes) + ChildrenBytes(t.children))))
  }

  /** `VBentoNode::writeToStream` */
  function NodeBytes(t: BinaryNode): Bytes
    requires HoldableTree(t)
    decreases t, 1
  {
    DynamicCount(ContentSize(t)) + NodeContent(t)
  }

  // ----- Announced lengths ------------------------------------------------

  predicate AllPolygonsFit(attributes: seq<BinaryAttribute>)
  {
    forall i :: 0 <= i < |attributes| ==> PolygonFits(attributes[i].value)
  }

  /** No polygon anywhere in the tree overflows its length. */
  predicate PolygonsFit(t: BinaryNode)
  {
    AllPolygonsFit(t.attributes) && forall i :: 0 <= i < |t.children| ==> PolygonsFit(t.children[i])
  }

  predicate TreesFit(children: seq<BinaryNode>) { forall i :: 0 <= i < |children| ==> PolygonsFit(children[i]) }

  lemma {:induction false} AttributesSizeExact(attributes: seq<BinaryAttribute>)
    requires HoldableAttributes(attributes)
    ensures AttributesSize(attributes) <= |AttributesBytes(attributes)|
    ensures AttributesSize(attributes) == |AttributesBytes(attributes)| <==> AllPolygonsFit(attributes)
  {
    hide AttributeTotalSize, AttributeBytes, HoldableAttribute, PolygonFits, AttributeContent, AttributeContentSize;
    if attributes != [] {
      var others := attributes[1..];
      AttributeSizesExact(attributes[0]);
      AttributesSizeExact(others);
      assert attributes == [attributes[0]] + others;
      assert AllPolygonsFit(attributes) <==> PolygonFits(attributes[0].value) && AllPolygonsFit(others);
    }
  }

  /**
    The lengths computed for a node never exceed the numbers of bytes written,
    and are exact if and only if no polygon in the tree overflows its own.
   */
  lemma {:induction false} SizesExact(t: BinaryNode)
    requires HoldableTree(t)
    ensures ContentSize(t) == |NodeContent(t)| <==> PolygonsFit(t)
    ensures TotalSize(t) == |NodeBytes(t)| <==> PolygonsFit(t)
    ensures ContentSize(t) <= |NodeContent(t)|
    ensures TotalSize(t) - |NodeBytes(t)| == ContentSize(t) - |NodeContent(t)|
    decreases t, 1
  {
    hide ScalarBytes, StringBytes, BinaryStringLength, DynamicCount, CountLength, AllPolygonsFit;
    hide HoldableAttribute, AttributesSize, AttributesBytes, ChildrenSize, ChildrenBytes;
    StringLength(t.name);
    CounterLength(|t.attributes|);
    CounterLength(|t.children|);
    AttributesSizeExact(t.attributes);
    ChildrenSizeExact(t.children);
    DynamicCountLength(ContentSize(t));
  }

  lemma CounterLength(n: nat)
    ensures |ScalarBytes(S32, n)| == 4
  {
  }

  lemma {:induction false} ChildrenSizeExact(children: seq<BinaryNode>)
    requires HoldableTrees(children)
    ensures ChildrenSize(children) <= |ChildrenBytes(children)|
    ensures ChildrenSize(children) == |ChildrenBytes(children)| <==> TreesFit(children)
  {
    hide TotalSize, NodeBytes, HoldableTree, PolygonsFit, ContentSize, NodeContent;
    if children != [] {
      var others := children[1..];
      SizesExact(children[0]);
      ChildrenSizeExact(others);
      assert children == [children[0]] + others;
      assert TreesFit(children) <==> PolygonsFit(children[0]) && TreesFit(others);
    }
  }

  // ----- Reading ----------------------------------------------------------

  function ReadAttributes(n: int, bs: Bytes): (r: Read<seq<BinaryAttribute>>)
    ensures r.Ok? ==> |r.rest| <= |bs|
    decreases if n < 0 then 0 else n
  {
    if n <= 0 then Ok([], bs)
    else
      match ReadAttribute(bs)
      case Fail(f) => Fail(f)
      case Ok(first, rest) =>
        match ReadAttributes(n - 1, rest)
        case Fail(f) => Fail(f)
        case Ok(others, left) => Ok([first] + others, left)
  }

  function ReadNodes(n: int, bs: Bytes): (r: Read<seq<BinaryNode>>)
    ensures r.Ok? ==> |r.rest| <= |bs|
    decreases |bs|, 1, if n < 0 then 0 else n
  {
    if n <= 0 then Ok([], bs)
    else
      match ReadNode(bs)
      case Fail(f) => Fail(f)
      case Ok(first, rest) =>
        match ReadNodes(n - 1, rest)
        case Fail(f) => Fail(f)
        case Ok(others, left) => Ok([first] + others, left)
  }

  /** `VBentoNode::readFromStream` into a new node; the announced length is read and not used. */
  function ReadNode(bs: Bytes): (r: Read<BinaryNode>)
    ensures r.Ok? ==> |r.rest| < |bs|
    decreases |bs|, 0, 0
  {
    match ReadCount(bs)
    case Fail(f) => Fail(f)
    case Ok(_, content) => ReadNodeContent(content)
  }

  function ReadNodeContent(bs: Bytes): (r: Read<BinaryNode>)
    ensures r.Ok? ==> |r.rest| <= |bs|
    decreases |bs|, 2, 0
  {
    match ReadScalar(S32, bs)
    case Fail(f) => Fail(f)
    case Ok(numAttributes, afterFirst) =>
      match ReadScalar(S32, afterFirst)
      case Fail(f) => Fail(f)
      case Ok(numChildren, afterCounts) =>
        match ReadString(afterCounts)
        case Fail(f) => Fail(f)
        case Ok(name, afterName) =>
          match ReadAttributes(numAttributes, afterName)
          case Fail(f) => Fail(f)
          case Ok(attributes, afterAttributes) =>
            match ReadNodes(numChildren, afterAttributes)
            case Fail(f) => Fail(f)
            case Ok(children, left) => Ok(Node(name, attributes, children), left)
  }

  // ----- Reading undoes writing -------------------------------------------

  predicate AllLegible(attributes: seq<BinaryAttribute>)
  {
    forall i :: 0 <= i < |attributes| ==> Legible(AttributeContentSize(attributes[i]))
  }

  /** None of the lengths announced in the tree, its own included, is mistaken for a longer form. */
  predicate LegibleTree(t: BinaryNode)
  {
    && Legible(ContentSize(t)) && AllLegible(t.attributes)
    && forall i :: 0 <= i < |t.children| ==> LegibleTree(t.children[i])
  }

  predicate LegibleTrees(children: seq<BinaryNode>) { forall i :: 0 <= i < |children| ==> LegibleTree(children[i]) }

  lemma {:induction false} ReadAttributesOf(attributes: seq<BinaryAttribute>, rest: Bytes)
    requires HoldableAttributes(attributes) && AllLegible(attributes)
    requires |AttributesBytes(attributes)| < MAX_SIZE
    ensures ReadAttributes(|attributes|, AttributesBytes(attributes) + rest) == Ok(attributes, rest)
  {
    hide AttributeBytes, ReadAttribute, AttributeContentSize, HoldableAttribute, Legible;
    if attributes == [] {
      assert [] + rest == rest;
    } else {
      var others := AttributesBytes(attributes[1..]);
      assert AttributesBytes(attributes) + rest == AttributeBytes(attributes[0]) + (others + rest);
      AttributeInside(attributes[0]);
      ReadAttributeOf(attributes[0], others + rest);
      ReadAttributesOf(attributes[1..], rest);
      assert [attributes[0]] + attributes[1..] == attributes;
    }
  }

  lemma AttributeInside(a: BinaryAttribute)
    requires HoldableAttribute(a)
    ensures |AttributeContent(a)| < |AttributeBytes(a)|
  {
    hide AttributeContent;
  }

  /**
    A tree whose lengths are legible, written and followed by any bytes, is
    read back, and exactly those bytes are left.
   */
  lemma {:induction false} ReadNodeOf(t: BinaryNode, rest: Bytes)
    requires HoldableTree(t) && LegibleTree(t) && |NodeContent(t)| < MAX_SIZE
    ensures ReadNode(NodeBytes(t) + rest) == Ok(t, rest)
    decreases t, 1
  {
    hide DynamicCount, ReadCount, NodeContent, ReadNodeContent, ContentSize;
    SizesExact(t);
    NodeForm(t, rest);
    ReadCountLeft(ContentSize(t), NodeContent(t) + rest);
    ReadNodeContentOf(t, rest);
  }

  lemma NodeForm(t: BinaryNode, rest: Bytes)
    requires HoldableTree(t)
    ensures NodeBytes(t) + rest == DynamicCount(ContentSize(t)) + (NodeContent(t) + rest)
  {
    hide DynamicCount, NodeContent, ContentSize;
  }

  lemma ContentForm(t: BinaryNode, rest: Bytes)
    requires HoldableTree(t)
    ensures NodeContent(t) + rest
         == ScalarBytes(S32, |t.attributes|) + (ScalarBytes(S32, |t.children|) + (StringBytes(t.name)
            + (AttributesBytes(t.attributes) + (ChildrenBytes(t.children) + rest))))
  {
    hide ScalarBytes, StringBytes, AttributesBytes, ChildrenBytes, HoldableAttribute;
  }

  /** The counters and the name of a node are read back, and then come the attributes. */
  lemma ReadHeader(t: BinaryNode, rest: Bytes)
    requires HoldableTree(t)
    ensures var afterName := AttributesBytes(t.attributes) + (ChildrenBytes(t.children) + rest);
            ReadNodeContent(NodeContent(t) + rest)
            == match ReadAttributes(|t.attributes|, afterName)
               case Fail(f) => Fail(f)
               case Ok(attributes, afterAttributes) =>
                 match ReadNodes(|t.children|, afterAttributes)
                 case Fail(f) => Fail(f)
                 case Ok(children, left) => Ok(Node(t.name, attributes, children), left)
  {
    hide ScalarBytes, ReadScalar, StringBytes, ReadString, AttributesBytes, ReadAttributes, ChildrenBytes, ReadNodes;
    hide HoldableAttribute, NodeContent;
    var afterName := AttributesBytes(t.attributes) + (ChildrenBytes(t.children) + rest);
    ContentForm(t, rest);
    ReadScalarOf(S32, |t.attributes|, ScalarBytes(S32, |t.children|) + (StringBytes(t.name) + afterName));
    ReadScalarOf(S32, |t.children|, StringBytes(t.name) + afterName);
    ReadStringOf(t.name, afterName);
  }

  lemma {:induction false} ReadNodeContentOf(t: BinaryNode, rest: Bytes)
    requires HoldableTree(t) && AllLegible(t.attributes) && LegibleTrees(t.children) && |NodeContent(t)| < MAX_SIZE
    ensures ReadNodeContent(NodeContent(t) + rest) == Ok(t, rest)
    decreases t, 0
  {
    hide ScalarBytes, StringBytes, AttributesBytes, ReadAttributes, ChildrenBytes, ReadNodes, ReadNodeContent;
    hide HoldableAttribute, AllLegible;
    PartsInside(t);
    ReadHeader(t, rest);
    ReadAttributesOf(t.attributes, ChildrenBytes(t.children) + rest);
    ReadNodesOf(t.children, rest);
  }

  lemma PartsInside(t: BinaryNode)
    requires HoldableTree(t)
    ensures |NodeContent(t)|
         == 8 + |StringBytes(t.name)| + |AttributesBytes(t.attributes)| + |ChildrenBytes(t.children)|
    ensures |NodeContent(t)| < |NodeBytes(t)|
  {
    hide ScalarBytes, StringBytes, AttributesBytes, ChildrenBytes, HoldableAttribute;
    CounterLength(|t.attributes|);
    CounterLength(|t.children|);
  }

  lemma {:induction false} ReadNodesOf(children: seq<BinaryNode>, rest: Bytes)
    requires HoldableTrees(children) && LegibleTrees(children) && |ChildrenBytes(children)| < MAX_SIZE
    ensures ReadNodes(|children|, ChildrenBytes(children) + rest) == Ok(children, rest)
    decreases children
  {
    hide NodeBytes, ReadNode, NodeContent, HoldableTree, LegibleTree;
    if children == [] {
      assert [] + rest == rest;
    } else {
      var others := ChildrenBytes(children[1..]);
      assert ChildrenBytes(children) + rest == NodeBytes(children[0]) + (others + rest);
      PartsInside(children[0]);
      ReadNodeOf(children[0], others + rest);
      ReadNodesOf(children[1..], rest);
      assert [children[0]] + children[1..] == children;
    }
  }

  /** Trees without overflowing polygons come back. */
  lemma {:induction false} FittingIsLegible(t: BinaryNode)
    requires HoldableTree(t) && PolygonsFit(t)
    ensures LegibleTree(t)
  {
    hide ContentSize, NodeContent, AttributeContentSize, AttributeContent, PolygonFits, HoldableAttribute;
    SizesExact(t);
    forall i | 0 <= i < |t.attributes| ensures Legible(AttributeContentSize(t.attributes[i])) {
      AttributeSizesExact(t.attributes[i]);
    }
    forall i | 0 <= i < |t.children| ensures LegibleTree(t.children[i]) {
      FittingIsLegible(t.children[i]);
    }
  }

  // ----- Skipping ---------------------------------------------------------

  /** Reads one announced length and skips that many bytes. */
  function SkipAtom(bs: Bytes): Option<Bytes>
  {
    match ReadCount(bs)
    case Fail(_) => None
    case Ok(n, rest) => if 0 <= n <= |rest| then Some(rest[n..]) else None
  }

  function SkipAtoms(bs: Bytes, k: nat): Option<Bytes>
  {
    if k == 0 then Some(bs) else
      match SkipAtom(bs)
      case None => None
      case Some(rest) => SkipAtoms(rest, k - 1)
  }

  lemma SkipNode(t: BinaryNode, rest: Bytes)
    requires HoldableTree(t) && PolygonsFit(t) && |NodeContent(t)| < MAX_SIZE
    ensures SkipAtom(NodeBytes(t) + rest) == Some(rest)
  {
    hide DynamicCount, ReadCount, NodeContent, ContentSize;
    SizesExact(t);
    ReadCountOf(ContentSize(t), NodeContent(t) + rest);
    NodeForm(t, rest);
    assert (NodeContent(t) + rest)[ContentSize(t)..] == rest;
  }

  lemma SkipExactAttribute(a: BinaryAttribute, rest: Bytes)
    requires HoldableAttribute(a) && PolygonFits(a.value) && |AttributeContent(a)| < MAX_SIZE
    ensures SkipAtom(AttributeBytes(a) + rest) == Some(rest)
  {
    hide DynamicCount, ReadCount, AttributeContent, AttributeContentSize, PolygonFits;
    AttributeSizesExact(a);
    ReadCountOf(AttributeContentSize(a), AttributeContent(a) + rest);
    AttributeForm(a, rest);
    assert (AttributeContent(a) + rest)[AttributeContentSize(a)..] == rest;
  }

  lemma {:induction false} FromBigEndianLead(bs: Bytes)
    requires bs != []
    ensures bs[0] * Pow256(|bs| - 1) <= FromBigEndian(bs) < (bs[0] + 1) * Pow256(|bs| - 1)
  {
    var front := bs[..|bs| - 1];
    if front == [] {
      assert FromBigEndian(front) == 0;
    } else {
      FromBigEndianLead(front);
      LeadStep(bs[0], Pow256(|front| - 1), FromBigEndian(front), bs[|bs| - 1]);
    }
  }

  lemma LeadStep(lead: nat, p: nat, front: nat, last: nat)
    requires lead * p <= front < (lead + 1) * p && last < 0x100
    ensures lead * (0x100 * p) <= 0x100 * front + last < (lead + 1) * (0x100 * p)
  {
    assert lead * (0x100 * p) == 0x100 * (lead * p) && (lead + 1) * (0x100 * p) == 0x100 * ((lead + 1) * p);
  }

  /** A count read from bytes that begin with the letter p. */
  lemma LetterCount(bs: Bytes)
    requires |bs| >= 8 && bs[0] == 0x70
    ensures FromBigEndian(bs[..2]) < 0x1_0000
    ensures FromBigEndian(bs[..4]) < 0x7100_0000
    ensures 0x7000_0000_0000_0000 <= FromBigEndian(bs[..8]) < 0x7100_0000_0000_0000
  {
    hide FromBigEndian, Pow256;
    WordSizes();
    assert Pow256(3) == 0x100_0000 && Pow256(7) == 0x100_0000_0000_0000 by { OddSizes(); }
    FromBigEndianBound(bs[..2]);
    FromBigEndianLead(bs[..4]);
    FromBigEndianLead(bs[..8]);
  }

  lemma OddSizes()
    ensures Pow256(3) == 0x100_0000 && Pow256(7) == 0x100_0000_0000_0000
  {
    assert Pow256(5) == 0x100_0000_0000;
  }

  lemma ReadCountForms(lead: byte, bs: Bytes)
    requires |bs| >= 8
    ensures ReadCount([lead] + bs)
         == if lead == 0xFF then Ok(FromBigEndian(bs[..2]), bs[2..])
            else if lead == 0xFE then Ok(FromBigEndian(bs[..4]), bs[4..])
            else if lead == 0xFD then Ok(Decimal.ToS64(FromBigEndian(bs[..8])), bs[8..])
            else Ok(lead, bs)
  {
    hide FromBigEndian, Decimal.ToS64;
    assert ([lead] + bs)[1..] == bs;
  }

  /** Skipping an attribute by its announced length lands behind it if and only if that length is exact. */
  lemma SkipAttribute(a: BinaryAttribute, rest: Bytes)
    requires HoldableAttribute(a) && |AttributeContent(a)| < MAX_SIZE
    ensures SkipAtom(AttributeBytes(a) + rest) == Some(rest) <==> PolygonFits(a.value)
  {
    hide DynamicCount, ReadCount, AttributeContent, AttributeContentSize, PolygonFits, SkipAtom;
    var n, bs := AttributeContentSize(a), AttributeContent(a) + rest;
    AttributeSizesExact(a);
    AttributeForm(a, rest);
    if PolygonFits(a.value) {
      SkipExactAttribute(a, rest);
    } else if n >= 0 {
      ReadCountOf(n, bs);
      SkipLeft(DynamicCount(n) + bs);
    } else {
      SkipNegative(a, rest);
    }
  }

  lemma SkipLeft(bs: Bytes)
    ensures match SkipAtom(bs)
            case None => true
            case Some(left) => ReadCount(bs).Ok? && |left| == |ReadCount(bs).rest| - ReadCount(bs).value
  {
    hide ReadCount;
  }

  lemma SkipNegative(a: BinaryAttribute, rest: Bytes)
    requires HoldableAttribute(a) && |AttributeContent(a)| < MAX_SIZE && AttributeContentSize(a) < 0
    ensures SkipAtom(AttributeBytes(a) + rest) != Some(rest)
  {
    hide ReadCount, AttributeContent, AttributeContentSize, PolygonFits, SkipAtom, FromBigEndian;
    var n, bs := AttributeContentSize(a), AttributeContent(a) + rest;
    var lead := n % 0x100;
    AttributeForm(a, rest);
    NegativeIsLong(a);
    assert DynamicCount(n) == [lead];
    TypeFirst(a);
    assert bs[0] == AttributeContent(a)[0];
    ContentBelow(a);
    ReadCountForms(lead, bs);
    LetterCount(bs);
    SkipLeft([lead] + bs);
  }

  lemma TypeFirst(a: BinaryAttribute)
    requires HoldableAttribute(a) && AttributeContentSize(a) < 0
    ensures a.value.Polygon? && AttributeContent(a)[0] == 0x70
  {
    hide AttributeContentSize, StringBytes, Data;
    assert a.value.Polygon? by { AttributeSizesExact(a); }
    TypeOf(a.value);
    PolygonCode(TypeBytes(a.value), a.value);
  }

  lemma Tails<T>(s: seq<T>, k: nat)
    requires 0 < k <= |s|
    ensures s[..k][1..] == s[1..][..k - 1] && s[1..][k - 1..] == s[k..]
  {
  }

  /** Skipping k children by their announced lengths lands on the k-th sibling. */
  lemma {:induction false} SkipChildren(children: seq<BinaryNode>, k: nat, rest: Bytes)
    requires HoldableTrees(children) && |ChildrenBytes(children)| < MAX_SIZE
    requires k <= |children| && TreesFit(children[..k])
    ensures SkipAtoms(ChildrenBytes(children) + rest, k) == Some(ChildrenBytes(children[k..]) + rest)
    decreases k
  {
    hide NodeBytes, SkipAtom, HoldableTree, NodeContent, PolygonsFit;
    if k == 0 {
      assert children[0..] == children;
    } else {
      var others := ChildrenBytes(children[1..]);
      assert ChildrenBytes(children) + rest == NodeBytes(children[0]) + (others + rest);
      Tails(children, k);
      assert TreesFit(children[1..][..k - 1]) && PolygonsFit(children[0]) by { assert children[..k][0] == children[0]; }
      PartsInside(children[0]);
      SkipNode(children[0], others + rest);
      SkipChildren(children[1..], k - 1, rest);
    }
  }

  /** Skipping k attributes by their announced lengths lands on the k-th one. */
  lemma {:induction false} SkipAttributes(attributes: seq<BinaryAttribute>, k: nat, rest: Bytes)
    requires HoldableAttributes(attributes) && |AttributesBytes(attributes)| < MAX_SIZE
    requires k <= |attributes| && AllPolygonsFit(attributes[..k])
    ensures SkipAtoms(AttributesBytes(attributes) + rest, k) == Some(AttributesBytes(attributes[k..]) + rest)
    decreases k
  {
    hide AttributeBytes, SkipAtom, HoldableAttribute, AttributeContent, PolygonFits;
    if k == 0 {
      assert attributes[0..] == attributes;
    } else {
      var others := AttributesBytes(attributes[1..]);
      assert AttributesBytes(attributes) + rest == AttributeBytes(attributes[0]) + (others + rest);
      Tails(attributes, k);
      assert PolygonFits(attributes[0].value) by { assert attributes[..k][0] == attributes[0]; }
      AttributeInside(attributes[0]);
      SkipExactAttribute(attributes[0], others + rest);
      SkipAttributes(attributes[1..], k - 1, rest);
    }
  }

  /** Two trees written the same way are the same tree, if their lengths are legible. */
  lemma NodeBytesInjective(s: BinaryNode, t: BinaryNode)
    requires HoldableTree(s) && LegibleTree(s) && |NodeContent(s)| < MAX_SIZE
    requires HoldableTree(t) && LegibleTree(t) && |NodeContent(t)| < MAX_SIZE
    requires NodeBytes(s) <= NodeBytes(t)
    ensures s == t
  {
    hide NodeBytes, ReadNode, NodeContent;
    var rest := NodeBytes(t)[|NodeBytes(s)|..];
    assert NodeBytes(t) + [] == NodeBytes(s) + rest;
    ReadNodeOf(s, rest);
    ReadNodeOf(t, []);
  }
}
