/**
  Two trees with a misread length: one that is lost, and one that comes back
  because the reader, one length ahead, finds the counters of the node again
  and falls back into step at its first attribute.
 */
module BentoMisreadExamples {
  import opened Utf8
  import opened BinaryStreams
  import opened BentoModel
  import opened BentoBinary
  import opened BentoBinaryAttributes
  import opened BentoBinaryTrees
  import opened BentoMisreadLengths

  // ----- A tree that is lost ----------------------------------------------

  /** A root with one polygon of 2^28 + 30 points does not come back. */
  lemma LostRoot(name: Bytes, rest: Bytes)
    requires |name| == 4
    ensures var t := Node([], [Attribute(name, Polygon(false, seq(0x1000_001E, i => (0, 0))))], []);
            && HoldableTree(t) && Legible(ContentSize(t)) && !LegibleTree(t)
            && ReadNode(NodeBytes(t) + rest) != Ok(t, rest)
  {
    hide AttributeContent, AttributeBytes, ReadNode, NodeBytes, NodeContent, AttributeRecurs;
    var a := Attribute(name, Polygon(false, seq(0x1000_001E, i => (0, 0))));
    var t := Node([], [a], []);
    PolygonLost(name, rest);
    OneSize(a);
    assert ContentSize(t) == 0x107 - 0x8000_0000;
    assert !Legible(AttributeContentSize(t.attributes[0]));
    OneAttribute(t, a);
    assert LostAttributes([a], 0);
    LostIsNotRead(t, rest);
  }

  lemma OneSize(a: BinaryAttribute)
    ensures AttributesSize([a]) == AttributeTotalSize(a) && AttributesSlack([a][1..]) == 0
  {
    hide AttributeTotalSize;
    assert [a][1..] == [];
  }

  lemma OneAttribute(t: BinaryNode, a: BinaryAttribute)
    requires t == Node([], [a], []) && HoldableTree(t) && a.value.Polygon?
    ensures |NodeContent(t)| < MAX_SIZE
  {
    hide AttributeContent, StringBytes, DynamicCount, CountLength, AttributeContentSize;
    PartsInside(t);
    ContentBelow(a);
    DynamicCountLength(AttributeContentSize(a));
    CountIsShort(AttributeContentSize(a));
    assert AttributesBytes([a]) == AttributeBytes(a) + AttributesBytes([a][1..]);
    EmptyString();
  }

  lemma CountIsShort(n: int)
    ensures CountLength(n) <= 9
  {
  }

  lemma EmptyString()
    ensures StringBytes([]) == [0]
  {
  }

  // ----- A tree that comes back -------------------------------------------

  const RECURRING: nat := 0x00FE_0001

  /** The list is read as well if the length of its first attribute has become another one, of one byte. */
  lemma ReadFromShorter(attributes: seq<BinaryAttribute>, b: byte, rest: Bytes)
    requires attributes != [] && HoldableAttributes(attributes) && AllLegible(attributes) && b < 0xFD
    requires |AttributesBytes(attributes)| < MAX_SIZE
    ensures ReadAttributes(|attributes|,
                           [b] + (AttributeContent(attributes[0]) + (AttributesBytes(attributes[1..]) + rest)))
         == Ok(attributes, rest)
  {
    hide AttributeContent, ReadAttributeContent, AttributeBytes, HoldableAttribute, Legible, AttributeContentSize;
    var a, others := attributes[0], attributes[1..];
    var bytes := AttributesBytes(others) + rest;
    var bs := [b] + (AttributeContent(a) + bytes);
    assert bs[1..] == AttributeContent(a) + bytes;
    ReadAttributeContentOf(a, bytes);
    ReadAttributesOf(others, rest);
    assert [a] + others == attributes;
  }

  lemma RecurringCounter()
    ensures ScalarBytes(S32, RECURRING) == [0, 0xFE, 0, 1]
    ensures DynamicCount(0x1_0002) == [0xFE, 0, 1, 0, 2]
  {
    assert BigEndian(0, 0) == [] && BigEndian(0, 1) == [0];
    assert BigEndian(0xFE, 2) == [0, 0xFE] && BigEndian(0xFE00, 3) == [0, 0xFE, 0];
    assert BigEndian(1, 2) == [0, 1] && BigEndian(0x100, 3) == [0, 1, 0];
  }

  /**
    Behind four swallowed bytes, the second counter, the name and the length of
    the first attribute read as both counters, the name and a shorter length.
   */
  lemma HeaderRecurs(x: Bytes)
    ensures var bs := ScalarBytes(S32, RECURRING) + ([0] + (DynamicCount(0x1_0002) + x));
            && ReadScalar(S32, bs) == Ok(RECURRING, bs[4..])
            && ReadScalar(S32, bs[4..]) == Ok(RECURRING, [0] + ([2] + x))
            && ReadString([0] + ([2] + x)) == Ok([], [2] + x)
  {
    hide BigEndian, ReadWord;
    RecurringCounter();
    var counter := ScalarBytes(S32, RECURRING);
    var bs := counter + ([0] + (DynamicCount(0x1_0002) + x));
    assert bs == [0, 0xFE, 0, 1] + ([0, 0xFE, 0, 1] + ([0] + ([2] + x)));
    assert bs[4..] == counter + ([0] + ([2] + x));
    ReadScalarOf(S32, RECURRING, bs[4..]);
    ReadScalarOf(S32, RECURRING, [0] + ([2] + x));
    assert ([0] + ([2] + x))[1..] == [2] + x && ([2] + x)[..0] == [] && ([2] + x)[0..] == [2] + x;
  }

  /** A node whose own length is misread as five bytes, made so that the reader falls back into step. */
  predicate Regaining(t: BinaryNode)
  {
    && t.name == [] && |t.attributes| == |t.children| == RECURRING
    && ContentSize(t) < 0 && ContentSize(t) % 0x100 == 0xFE
    && AttributeContentSize(t.attributes[0]) == 0x1_0002
    && AllLegible(t.attributes) && LegibleTrees(t.children)
  }

  lemma RegainsStep(t: BinaryNode, rest: Bytes)
    requires HoldableTree(t) && |NodeContent(t)| < MAX_SIZE && Regaining(t)
    ensures !LegibleTree(t) && ReadNode(NodeBytes(t) + rest) == Ok(t, rest)
  {
    hide AttributesBytes, ReadAttributes, ChildrenBytes, ReadNodes, AttributeContent, AttributeBytes, ScalarBytes;
    hide ReadScalar, ReadString, StringBytes, DynamicCount, AttributeContentSize, ContentSize, HoldableAttribute;
    hide LegibleTrees, AllLegible, NodeContent, ReadCount;
    var a, others := t.attributes[0], t.attributes[1..];
    var afterAttributes := ChildrenBytes(t.children) + rest;
    var x := AttributeContent(a) + (AttributesBytes(others) + afterAttributes);
    var counter := ScalarBytes(S32, RECURRING);
    var bs := counter + ([0] + (DynamicCount(0x1_0002) + x));
    PartsInside(t);
    NodeForm(t, rest);
    ContentForm(t, rest);
    EmptyString();
    FirstAttribute(t.attributes, afterAttributes);
    assert NodeContent(t) + rest == counter + bs;
    ReadCountLeft(ContentSize(t), counter + bs);
    CounterLength(RECURRING);
    assert (counter + bs)[4..] == bs;
    HeaderRecurs(x);
    ReadFromShorter(t.attributes, 2, afterAttributes);
    ReadNodesOf(t.children, rest);
    assert ReadNodeContent(bs) == Ok(t, rest);
  }

  lemma FirstAttribute(attributes: seq<BinaryAttribute>, rest: Bytes)
    requires attributes != [] && HoldableAttributes(attributes)
    ensures AttributesBytes(attributes) + rest
         == DynamicCount(AttributeContentSize(attributes[0]))
            + (AttributeContent(attributes[0]) + (AttributesBytes(attributes[1..]) + rest))
  {
    hide AttributeContent, DynamicCount, AttributeContentSize, HoldableAttribute;
    AttributeForm(attributes[0], AttributesBytes(attributes[1..]) + rest);
    assert AttributesBytes(attributes) + rest
        == AttributeBytes(attributes[0]) + (AttributesBytes(attributes[1..]) + rest);
  }

  // ----- There is such a tree ---------------------------------------------

  /** An attribute whose length takes five bytes: FE 00 01 00 02. */
  function Leading(): BinaryAttribute { Attribute([], Binary(seq(65530, i => 0))) }

  /** An attribute with a negative length that is legible all the same. */
  function Sinking(): BinaryAttribute
  {
    Attribute(seq(225, i => 0), Polygon(false, seq(0x1000_0000, i => (0, 0))))
  }

  function Filler(): BinaryAttribute { Attribute([], Bool(true)) }

  function Leaf(): BinaryNode { Node([], [], []) }

  function Fillers(n: nat): seq<BinaryAttribute> { seq(n, i => Filler()) }

  function Leaves(n: nat): seq<BinaryNode> { seq(n, i => Leaf()) }

  function RegainedAttributes(): seq<BinaryAttribute> { [Leading()] + ([Sinking()] + Fillers(RECURRING - 2)) }

  function RegainedTree(): BinaryNode
  {
    Node([], RegainedAttributes(), Leaves(RECURRING))
  }

  lemma PartSizes()
    ensures HoldableAttribute(Leading()) && AttributeContentSize(Leading()) == 0x1_0002
    ensures HoldableAttribute(Sinking()) && AttributeContentSize(Sinking()) == 234 - 0x8000_0000
    ensures HoldableAttribute(Filler()) && AttributeContentSize(Filler()) == 6
    ensures HoldableTree(Leaf()) && LegibleTree(Leaf()) && ContentSize(Leaf()) == 9 && TotalSize(Leaf()) == 10
  {
  }

  lemma {:induction false} FillersSize(n: nat)
    ensures AttributesSize(Fillers(n)) == 7 * n
  {
    if n > 0 {
      assert Fillers(n)[0] == Filler() && Fillers(n)[1..] == Fillers(n - 1);
      FillersSize(n - 1);
    }
  }

  lemma {:induction false} LeavesSize(n: nat)
    ensures ChildrenSize(Leaves(n)) == 10 * n
  {
    hide TotalSize;
    if n > 0 {
      PartSizes();
      assert Leaves(n)[0] == Leaf() && Leaves(n)[1..] == Leaves(n - 1);
      LeavesSize(n - 1);
    }
  }

  lemma FirstSize(a: BinaryAttribute, others: seq<BinaryAttribute>)
    ensures AttributesSize([a] + others) == AttributeTotalSize(a) + AttributesSize(others)
  {
    assert ([a] + others)[1..] == others;
  }

  lemma RegainedSize()
    ensures ContentSize(RegainedTree()) == 283050238 - 0x8000_0000
  {
    hide AttributesSize, ChildrenSize, AttributeContentSize, Leading, Sinking, Filler, Fillers, Leaves;
    PartSizes();
    FirstSize(Leading(), [Sinking()] + Fillers(RECURRING - 2));
    FirstSize(Sinking(), Fillers(RECURRING - 2));
    FillersSize(RECURRING - 2);
    LeavesSize(RECURRING);
  }

  /** No attribute of the tree takes more than 2^38 bytes. */
  lemma AttributeWithin(a: BinaryAttribute)
    requires a == Leading() || a == Sinking() || a == Filler()
    ensures HoldableAttribute(a) && Legible(AttributeContentSize(a)) && |AttributeBytes(a)| <= 0x40_0000_0000
  {
    hide AttributeContent, DynamicCount, AttributeContentSize, Leading, Sinking, Filler;
    PartSizes();
    DynamicCountLength(AttributeContentSize(a));
    CountIsShort(AttributeContentSize(a));
    if a == Sinking() {
      assert a.value.Polygon? by { SinkingIsPolygon(); }
      ContentBelow(a);
    } else {
      assert PolygonFits(a.value) by { OthersFit(a); }
      AttributeSizesExact(a);
    }
  }

  lemma SinkingIsPolygon()
    ensures Sinking().value.Polygon?
  {
  }

  lemma OthersFit(a: BinaryAttribute)
    requires a == Leading() || a == Filler()
    ensures PolygonFits(a.value)
  {
  }

  lemma {:induction false} AttributesWithin(attributes: seq<BinaryAttribute>)
    requires HoldableAttributes(attributes)
    requires forall i :: 0 <= i < |attributes| ==> |AttributeBytes(attributes[i])| <= 0x40_0000_0000
    ensures |AttributesBytes(attributes)| <= 0x40_0000_0000 * |attributes|
  {
    hide AttributeBytes, HoldableAttribute;
    if attributes != [] {
      AttributesWithin(attributes[1..]);
    }
  }

  lemma AttributeAt(i: nat)
    requires i < RECURRING
    ensures |RegainedAttributes()| == RECURRING
    ensures var a := RegainedAttributes()[i]; a == Leading() || a == Sinking() || a == Filler()
    ensures i == 0 ==> RegainedAttributes()[i] == Leading()
  {
    hide Leading, Sinking, Filler;
  }

  lemma RegainedAttributeParts()
    ensures var attributes := RegainedAttributes();
            && HoldableAttributes(attributes) && AllLegible(attributes)
            && |attributes| == RECURRING && attributes[0] == Leading()
            && |AttributesBytes(attributes)| <= 0x40_0000_0000 * RECURRING
  {
    hide RegainedAttributes, Leading, Sinking, Filler, HoldableAttribute, AttributeContentSize, AttributeBytes, Legible;
    var attributes := RegainedAttributes();
    AttributeAt(0);
    forall i | 0 <= i < RECURRING
      ensures HoldableAttribute(attributes[i]) && Legible(AttributeContentSize(attributes[i]))
      ensures |AttributeBytes(attributes[i])| <= 0x40_0000_0000
    {
      AttributeAt(i);
      AttributeWithin(attributes[i]);
    }
    AttributesWithin(attributes);
  }

  lemma RegainedLeafParts()
    ensures var children := Leaves(RECURRING);
            && HoldableTrees(children) && LegibleTrees(children)
            && |children| == RECURRING && |ChildrenBytes(children)| == 10 * RECURRING
  {
    hide Leaf, HoldableTree, LegibleTree, PolygonsFit, ChildrenBytes, ChildrenSize;
    PartSizes();
    LeafFits();
    LeavesSize(RECURRING);
    ChildrenSizeExact(Leaves(RECURRING));
  }

  lemma LeafFits()
    ensures PolygonsFit(Leaf())
  {
  }

  /** A tree of some 2.4 GB, one of whose lengths is misread, comes back all the same. */
  lemma MisreadButRead(rest: Bytes)
    ensures var t := RegainedTree();
            HoldableTree(t) && !LegibleTree(t) && ReadNode(NodeBytes(t) + rest) == Ok(t, rest)
  {
    hide ContentSize, NodeContent, AttributesBytes, ChildrenBytes, HoldableAttribute, AttributeContentSize;
    hide ReadNode, NodeBytes, AllLegible, LegibleTrees, Leading, RegainedAttributes, Leaves, LegibleTree;
    var t := RegainedTree();
    RegainedAttributeParts();
    RegainedLeafParts();
    RegainedSize();
    PartSizes();
    PartsInside(t);
    EmptyString();
    assert Regaining(t);
    RegainsStep(t, rest);
  }
}
