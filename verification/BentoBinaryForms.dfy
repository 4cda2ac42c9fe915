/**
  The bytes themselves: how wide each number is and in which order its bytes
  stand, what the data of each value consists of, and one small tree in full.
 */
module BentoBinaryForms {
  import opened Utf8
  import opened BinaryStreams
  import opened BentoModel
  import opened BentoBinary
  import opened BentoBinaryAttributes
  import opened BentoBinaryTrees

  // ----- Numbers ----------------------------------------------------------

  function Byte(n: int, place: nat): byte
    requires place < 8
  {
    n / (match place
         case 0 => 1
         case 1 => 0x100
         case 2 => 0x1_0000
         case 3 => 0x100_0000
         case 4 => 0x1_0000_0000
         case 5 => 0x100_0000_0000
         case 6 => 0x1_0000_0000_0000
         case 7 => 0x100_0000_0000_0000) % 0x100
  }

  lemma Bytes1(n: int)
    ensures BigEndian(n, 1) == [Byte(n, 0)]
  {
    assert BigEndian(n / 0x100, 0) == [];
  }

  lemma Bytes2(n: int)
    ensures BigEndian(n, 2) == [Byte(n, 1), Byte(n, 0)]
  {
    Bytes1(n / 0x100);
  }

  lemma Bytes4(n: int)
    ensures BigEndian(n, 4) == [Byte(n, 3), Byte(n, 2), Byte(n, 1), Byte(n, 0)]
  {
    hide BigEndian;
    Bytes2(n / 0x1_0000);
    LastTwo(n, 2);
    assert n / 0x1_0000 / 0x100 == n / 0x100_0000;
  }

  lemma LastTwo(n: int, w: nat)
    ensures BigEndian(n, w + 2) == BigEndian(n / 0x1_0000, w) + [Byte(n, 1), Byte(n, 0)]
  {
    assert BigEndian(n, w + 2) == BigEndian(n / 0x100, w + 1) + [n % 0x100];
    assert BigEndian(n / 0x100, w + 1) == BigEndian(n / 0x100 / 0x100, w) + [n / 0x100 % 0x100];
  }

  lemma Bytes8(n: int)
    ensures BigEndian(n, 8)
         == [Byte(n, 7), Byte(n, 6), Byte(n, 5), Byte(n, 4), Byte(n, 3), Byte(n, 2), Byte(n, 1), Byte(n, 0)]
  {
    hide BigEndian;
    Bytes4(n / 0x1_0000_0000);
    LastTwo(n, 6);
    LastTwo(n / 0x1_0000, 4);
    Places(n);
  }

  lemma Places(n: int)
    ensures n / 0x1_0000 / 0x1_0000 == n / 0x1_0000_0000 && n / 0x1_0000 / 0x100 == n / 0x100_0000
    ensures n / 0x1_0000_0000 / 0x100 == n / 0x100_0000_0000
    ensures n / 0x1_0000_0000 / 0x1_0000 == n / 0x1_0000_0000_0000
    ensures n / 0x1_0000_0000 / 0x100_0000 == n / 0x100_0000_0000_0000
  {
  }

  /** Every number is written in as many bytes as its type says, most significant first. */
  lemma NumberBytes(n: int)
    ensures ScalarBytes(S8, n) == ScalarBytes(U8, n) == [Byte(n, 0)]
    ensures ScalarBytes(S16, n) == ScalarBytes(U16, n) == [Byte(n, 1), Byte(n, 0)]
    ensures ScalarBytes(S32, n) == ScalarBytes(U32, n) == ScalarBytes(Float, n)
         == [Byte(n, 3), Byte(n, 2), Byte(n, 1), Byte(n, 0)]
    ensures ScalarBytes(S64, n) == ScalarBytes(U64, n) == ScalarBytes(Double, n)
         == [Byte(n, 7), Byte(n, 6), Byte(n, 5), Byte(n, 4), Byte(n, 3), Byte(n, 2), Byte(n, 1), Byte(n, 0)]
    ensures ScalarBytes(Duration, n) == ScalarBytes(Instant, n) == ScalarBytes(S64, n)
  {
    hide BigEndian;
    Bytes1(n);
    Bytes2(n);
    Bytes4(n);
    Bytes8(n);
  }

  /** A number fits its type exactly if reading its bytes gives it back. */
  lemma InRangeExactly(k: ScalarKind, n: int)
    ensures InRange(k, n) <==> ReadScalar(k, ScalarBytes(k, n)) == Ok(n, [])
  {
    hide BigEndian, Word, FromBigEndian, Pow256;
    WordSizes();
    var bs := ScalarBytes(k, n);
    assert bs[..|bs|] == bs && bs[|bs|..] == [];
    FromBigEndianBound(bs);
    WordBounds(bs, IsSigned(k));
    if InRange(k, n) {
      WordOfBigEndian(n, Width(k), IsSigned(k));
    }
  }

  lemma WordBounds(bs: Bytes, signed: bool)
    ensures FitsWord(Word(bs, signed), |bs|, signed)
  {
    hide FromBigEndian, Pow256;
    FromBigEndianBound(bs);
  }

  /** Which types have a sign. */
  lemma Signs()
    ensures InRange(S8, -0x80) && InRange(S8, 0x7F) && InRange(U8, 0xFF) && !InRange(U8, -1)
    ensures InRange(S16, -0x8000) && InRange(S16, 0x7FFF) && InRange(U16, 0xFFFF) && !InRange(U16, -1)
    ensures InRange(S32, -0x8000_0000) && InRange(S32, 0x7FFF_FFFF) && InRange(U32, 0xFFFF_FFFF) && !InRange(U32, -1)
    ensures InRange(S64, -0x8000_0000_0000_0000) && InRange(S64, 0x7FFF_FFFF_FFFF_FFFF)
    ensures InRange(U64, 0xFFFF_FFFF_FFFF_FFFF) && !InRange(U64, -1)
    ensures InRange(Float, 0xFFFF_FFFF) && InRange(Double, 0xFFFF_FFFF_FFFF_FFFF)
    ensures InRange(Duration, -0x8000_0000_0000_0000) && InRange(Duration, 0x7FFF_FFFF_FFFF_FFFF)
    ensures InRange(Instant, -0x8000_0000_0000_0000) && InRange(Instant, 0x7FFF_FFFF_FFFF_FFFF)
  {
  }

  /** The four forms of a count. */
  lemma CountForms(n: int)
    ensures 0 <= n <= 252 ==> DynamicCount(n) == [n]
    ensures 253 <= n <= 65535 ==> DynamicCount(n) == [255, Byte(n, 1), Byte(n, 0)]
    ensures 65536 <= n <= 4294967295 ==> DynamicCount(n) == [254, Byte(n, 3), Byte(n, 2), Byte(n, 1), Byte(n, 0)]
    ensures 4294967296 <= n ==>
              DynamicCount(n)
              == [253, Byte(n, 7), Byte(n, 6), Byte(n, 5), Byte(n, 4), Byte(n, 3), Byte(n, 2), Byte(n, 1), Byte(n, 0)]
    ensures n < 0 ==> DynamicCount(n) == [n % 256]
  {
    hide BigEndian;
    Bytes2(n);
    Bytes4(n);
    Bytes8(n);
  }

  /**
    Lists are limited by their 32-bit count, which would be read as negative
    beyond, and sizes by the signed 64-bit one.
   */
  lemma Limits(n: nat)
    requires n < 0x1_0000_0000_0000_0000
    ensures n < 0x1_0000_0000 ==> (n < MAX_COUNT <==> ReadScalar(S32, ScalarBytes(S32, n)) == Ok(n, []))
    ensures n < MAX_SIZE <==> ReadCount(DynamicCount(n)) == Ok(n, [])
  {
    InRangeExactly(S32, n);
    assert DynamicCount(n) + [] == DynamicCount(n);
    if n < MAX_SIZE {
      ReadCountOf(n, []);
    } else {
      ReadCountRange(DynamicCount(n));
    }
  }

  lemma ReadCountRange(bs: Bytes)
    ensures match ReadCount(bs) case Fail(_) => true case Ok(n, _) => n < 0x8000_0000_0000_0000
  {
    hide ReadWord, Pow256;
    WordSizes();
    if bs != [] {
      ReadWordBound(bs[1..], 2);
      ReadWordBound(bs[1..], 4);
    }
  }

  // ----- Data -------------------------------------------------------------

  lemma Scalars2(k: ScalarKind, a: int, b: int)
    ensures ScalarsBytes(k, [a, b]) == ScalarBytes(k, a) + ScalarBytes(k, b)
  {
    hide ScalarBytes;
    assert [a, b][1..] == [b] && [b][1..] == [];
    assert ScalarsBytes(k, []) == [];
  }

  lemma Scalars3(k: ScalarKind, a: int, b: int, c: int)
    ensures ScalarsBytes(k, [a, b, c]) == ScalarBytes(k, a) + ScalarBytes(k, b) + ScalarBytes(k, c)
  {
    hide ScalarBytes;
    assert [a, b, c][1..] == [b, c];
    Scalars2(k, b, c);
  }

  lemma Scalars4(k: ScalarKind, a: int, b: int, c: int, d: int)
    ensures ScalarsBytes(k, [a, b, c, d])
         == ScalarBytes(k, a) + ScalarBytes(k, b) + ScalarBytes(k, c) + ScalarBytes(k, d)
  {
    hide ScalarBytes;
    assert [a, b, c, d][1..] == [b, c, d];
    Scalars3(k, b, c, d);
  }

  predicate Ints(a: int, b: int, c: int, d: int)
  {
    InRange(S32, a) && InRange(S32, b) && InRange(S32, c) && InRange(S32, d)
  }

  predicate Words(a: int, b: int, c: int, d: int)
  {
    InRange(Double, a) && InRange(Double, b) && InRange(Double, c) && InRange(Double, d)
  }

  /** The coordinates of a shape, one after the other, as 32-bit integers or as doubles. */
  lemma ShapeData(a: int, b: int, c: int, d: int)
    ensures Ints(a, b, c, d) ==>
              && Data(Shape(SizeI, [a, b])) == Data(Shape(PointI, [a, b])) == ScalarBytes(S32, a) + ScalarBytes(S32, b)
              && Data(Shape(Point3DI, [a, b, c])) == ScalarBytes(S32, a) + ScalarBytes(S32, b) + ScalarBytes(S32, c)
              && Data(Shape(LineI, [a, b, c, d])) == Data(Shape(RectI, [a, b, c, d]))
              == ScalarBytes(S32, a) + ScalarBytes(S32, b) + ScalarBytes(S32, c) + ScalarBytes(S32, d)
    ensures Words(a, b, c, d) ==>
              && Data(Shape(SizeD, [a, b])) == Data(Shape(PointD, [a, b]))
              == ScalarBytes(Double, a) + ScalarBytes(Double, b)
              && Data(Shape(Point3DD, [a, b, c]))
              == ScalarBytes(Double, a) + ScalarBytes(Double, b) + ScalarBytes(Double, c)
              && Data(Shape(LineD, [a, b, c, d])) == Data(Shape(RectD, [a, b, c, d]))
              == ScalarBytes(Double, a) + ScalarBytes(Double, b) + ScalarBytes(Double, c) + ScalarBytes(Double, d)
  {
    hide ScalarBytes, ScalarsBytes;
    Scalars2(S32, a, b);
    Scalars3(S32, a, b, c);
    Scalars4(S32, a, b, c, d);
    Scalars2(Double, a, b);
    Scalars3(Double, a, b, c);
    Scalars4(Double, a, b, c, d);
  }

  /** Booleans are a byte, 1 or 0, and colours four bytes in the order red, green, blue, alpha. */
  lemma ByteData(r: byte, g: byte, b: byte, a: byte)
    ensures Data(Bool(true)) == [1] && Data(Bool(false)) == [0]
    ensures Data(Color(r, g, b, a)) == [r, g, b, a]
  {
    hide BigEndian;
    Bytes4(ColorWord(r, g, b, a));
    ColorFields(r, g, b, a);
  }

  /** A list is its 32-bit count and its elements. */
  lemma ArrayData(k: ScalarKind, n: int)
    requires HasArray(k) && InRange(k, n)
    ensures Data(Array(k, [n])) == [0, 0, 0, 1] + ScalarBytes(k, n) && Data(Array(k, [])) == [0, 0, 0, 0]
  {
    hide ScalarBytes, InRange;
    Count0To2();
    OneScalar(k, n);
  }

  lemma BoolArrayData()
    ensures Data(BoolArray([true, false])) == [0, 0, 0, 2, 1, 0]
  {
    hide ScalarBytes;
    Count0To2();
  }

  lemma StringData(s: Bytes)
    requires |s| <= 252
    ensures Data(Str([], s)) == [0] + [|s|] + s && Data(Str(s, [])) == [|s|] + s + [0]
    ensures Data(StrArray([s])) == [0, 0, 0, 1] + [|s|] + s
  {
    hide ScalarBytes;
    Count0To2();
    assert [s][1..] == [] && StringsBytes([]) == [];
    assert StringBytes(s) == [|s|] + s && StringBytes([]) == [0];
    assert StringsBytes([s]) == StringBytes(s) + [];
  }

  /** A point of a polygon is a pair. */
  lemma PolygonData(x: int, y: int)
    requires InRange(S32, x) && InRange(S32, y)
    ensures Data(Polygon(false, [(x, y)])) == [0, 0, 0, 1] + ScalarBytes(S32, x) + ScalarBytes(S32, y)
    ensures Data(Polygon(true, [(0, 0)])) == [0, 0, 0, 1] + ScalarBytes(Double, 0) + ScalarBytes(Double, 0)
  {
    hide ScalarBytes, ScalarsBytes;
    Count0To2();
    OnePoint(S32, x, y);
    OnePoint(Double, 0, 0);
  }

  lemma OnePoint(k: ScalarKind, x: int, y: int)
    ensures PointsBytes(k, [(x, y)]) == ScalarBytes(k, x) + ScalarBytes(k, y)
  {
    hide ScalarBytes, ScalarsBytes;
    Scalars2(k, x, y);
    assert [(x, y)][1..] == [];
    assert PointsBytes(k, []) == [];
  }

  lemma OneScalar(k: ScalarKind, n: int)
    ensures ScalarsBytes(k, [n]) == ScalarBytes(k, n) && ScalarsBytes(k, []) == []
  {
    hide ScalarBytes;
    assert [n][1..] == [];
  }

  lemma Count0To2()
    ensures ScalarBytes(S32, 0) == [0, 0, 0, 0] && ScalarBytes(S32, 1) == [0, 0, 0, 1]
    ensures ScalarBytes(S32, 2) == [0, 0, 0, 2]
  {
    hide BigEndian;
    Bytes4(0);
    Bytes4(1);
    Bytes4(2);
  }

  /** The characters that can be read from one byte less than they are written in, and from which. */
  lemma CharSaving(c: CodePoint)
    ensures c < 0x100 ==> Savable(Char(c)) == |Data(Char(c))| - 1
    ensures 0x80 <= c < 0xC0 ==> ReadData(CharTag, [c]) == Ok(Char(c), [])
    ensures 0xC0 <= c < 0x100 ==> ReadData(LegacyCharTag, [c]) == Ok(Char(c), [])
    ensures c >= 0x100 ==> Savable(Char(c)) == 0
  {
    if c < 0x100 {
      var bs: Bytes := [c];
      assert bs[..1] == bs && bs[1..] == [] && bs[..0] == [];
      assert FromBigEndian([]) == 0;
    }
  }

  // ----- A tree -----------------------------------------------------------

  lemma EmptyNode()
    ensures NodeBytes(Node([], [], [])) == [9, 0, 0, 0, 0, 0, 0, 0, 0, 0] && TotalSize(Node([], [], [])) == 10
  {
    hide ScalarBytes;
    Count0To2();
  }

  lemma SmallAttribute()
    ensures var a := Attribute(['a' as int], Scalar(S16, 258));
            && AttributeContentSize(a) == 8
            && AttributeBytes(a) == [8, 'v' as int, 's' as int, '1' as int, '6' as int, 1, 'a' as int, 1, 2]
  {
    hide ScalarBytes;
    NumberBytes(258);
  }

  /** A node "n" with the 16-bit attribute "a" of 258 and an empty child node. */
  lemma SmallTree()
    ensures NodeBytes(Node(['n' as int], [Attribute(['a' as int], Scalar(S16, 258))], [Node([], [], [])]))
         == [29, 0, 0, 0, 1, 0, 0, 0, 1, 1, 'n' as int]
            + [8, 'v' as int, 's' as int, '1' as int, '6' as int, 1, 'a' as int, 1, 2]
            + [9, 0, 0, 0, 0, 0, 0, 0, 0, 0]
  {
    hide ScalarBytes, AttributeBytes, AttributeContentSize, NodeContent, NodeBytes, ContentSize;
    var a, c := Attribute(['a' as int], Scalar(S16, 258)), Node<byte>.Node([], [], []);
    var t := Node<byte>.Node(['n' as int], [a], [c]);
    SmallAttribute();
    EmptyNode();
    OneOfEach(a, c);
    SmallContent(t, a, c);
    NodeForm(t, []);
    assert ContentSize(t) == 29 && DynamicCount(29) == [29];
    assert NodeContent(t) + [] == NodeContent(t) && NodeBytes(t) + [] == NodeBytes(t);
  }

  /** A one-letter name, one attribute and one child. */
  lemma SmallContent(t: BinaryNode, a: BinaryAttribute, c: BinaryNode)
    requires t == Node([110], [a], [c]) && HoldableAttribute(a) && HoldableTree(c)
    ensures NodeContent(t) == [0, 0, 0, 1, 0, 0, 0, 1, 1, 110] + AttributeBytes(a) + NodeBytes(c)
    ensures ContentSize(t) == 10 + AttributeTotalSize(a) + TotalSize(c)
  {
    hide ScalarBytes, AttributeBytes, AttributeTotalSize, TotalSize, NodeBytes, HoldableAttribute;
    Count0To2();
    OneOfEach(a, c);
    assert StringBytes([110]) == [1, 110];
    ContentForm(t, []);
    assert NodeContent(t) + [] == NodeContent(t);
  }

  lemma OneOfEach(a: BinaryAttribute, c: BinaryNode)
    requires HoldableAttribute(a) && HoldableTree(c)
    ensures AttributesBytes([a]) == AttributeBytes(a) && ChildrenBytes([c]) == NodeBytes(c)
    ensures AttributesSize([a]) == AttributeTotalSize(a) && ChildrenSize([c]) == TotalSize(c)
  {
    hide AttributeBytes, NodeBytes, HoldableAttribute, HoldableTree, AttributeTotalSize, TotalSize;
    assert [a][1..] == [] && [c][1..] == [];
    assert AttributesBytes([]) == [] && ChildrenBytes([]) == [];
  }
}
