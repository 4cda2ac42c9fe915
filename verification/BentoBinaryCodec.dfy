/**
  The loops that write, measure and read Bento trees on a binary stream, each
  proved against the functions of the binary format.
 */
module BentoBinaryCodec {
  import opened Wrappers
  import opened Utf8
  import opened BinaryStreams
  import opened BentoModel
  import opened BentoBinary
  import opened BentoBinaryAttributes
  import opened BentoBinaryTrees
  import opened BentoMisreadLengths

  // ----- Writing ----------------------------------------------------------

  method WriteScalars(stream: BinaryStream, k: ScalarKind, ns: seq<int>)
    requires stream.offset == |stream.bytes|
    modifies stream
    ensures stream.offset == |stream.bytes| && stream.bytes == old(stream.bytes) + ScalarsBytes(k, ns)
  {
    hide ScalarBytes;
    ghost var was := stream.bytes;
    assert ns[0..] == ns;
    for i := 0 to |ns|
      invariant stream.offset == |stream.bytes|
      invariant stream.bytes + ScalarsBytes(k, ns[i..]) == was + ScalarsBytes(k, ns)
    {
      ghost var before := stream.bytes;
      stream.Write(ScalarBytes(k, ns[i]));
      assert ns[i..][1..] == ns[i + 1..];
      assert before + (ScalarBytes(k, ns[i]) + ScalarsBytes(k, ns[i + 1..]))
          == stream.bytes + ScalarsBytes(k, ns[i + 1..]);
    }
    assert stream.bytes + [] == stream.bytes;
  }

  method WritePoints(stream: BinaryStream, k: ScalarKind, points: seq<(int, int)>)
    requires stream.offset == |stream.bytes|
    modifies stream
    ensures stream.offset == |stream.bytes| && stream.bytes == old(stream.bytes) + PointsBytes(k, points)
  {
    hide ScalarsBytes;
    ghost var was := stream.bytes;
    assert points[0..] == points;
    for i := 0 to |points|
      invariant stream.offset == |stream.bytes|
      invariant stream.bytes + PointsBytes(k, points[i..]) == was + PointsBytes(k, points)
    {
      ghost var before := stream.bytes;
      ghost var point := ScalarsBytes(k, [points[i].0, points[i].1]);
      WriteScalars(stream, k, [points[i].0, points[i].1]);
      assert points[i..][1..] == points[i + 1..];
      assert before + (point + PointsBytes(k, points[i + 1..])) == stream.bytes + PointsBytes(k, points[i + 1..]);
    }
    assert stream.bytes + [] == stream.bytes;
  }

  method WriteStrings(stream: BinaryStream, ss: seq<Bytes>)
    requires stream.offset == |stream.bytes|
    modifies stream
    ensures stream.offset == |stream.bytes| && stream.bytes == old(stream.bytes) + StringsBytes(ss)
  {
    hide StringBytes;
    ghost var was := stream.bytes;
    assert ss[0..] == ss;
    for i := 0 to |ss|
      invariant stream.offset == |stream.bytes|
      invariant stream.bytes + StringsBytes(ss[i..]) == was + StringsBytes(ss)
    {
      ghost var before := stream.bytes;
      stream.WriteString(ss[i]);
      assert ss[i..][1..] == ss[i + 1..];
      assert before + (StringBytes(ss[i]) + StringsBytes(ss[i + 1..])) == stream.bytes + StringsBytes(ss[i + 1..]);
    }
    assert stream.bytes + [] == stream.bytes;
  }

  method WriteBools(stream: BinaryStream, bs: seq<bool>)
    requires stream.offset == |stream.bytes|
    modifies stream
    ensures stream.offset == |stream.bytes| && stream.bytes == old(stream.bytes) + BoolsBytes(bs)
  {
    for i := 0 to |bs|
      invariant stream.offset == |stream.bytes| && stream.bytes == old(stream.bytes) + BoolsBytes(bs)[..i]
    {
      stream.Write([if bs[i] then 1 else 0]);
    }
    assert BoolsBytes(bs)[..|bs|] == BoolsBytes(bs);
  }

  /** `writeDataToBinaryStream` of each attribute class. */
  method WriteData(stream: BinaryStream, v: BinaryValue)
    requires stream.offset == |stream.bytes| && Holdable(v)
    modifies stream
    ensures stream.offset == |stream.bytes| && stream.bytes == old(stream.bytes) + Data(v)
  {
    hide ScalarBytes, ScalarsBytes, PointsBytes, StringsBytes, StringBytes, BoolsBytes, DynamicCount, Encode, ColorWord;
    hide AllInRange, PointsInRange, ShortStrings, InRange;
    ghost var was := stream.bytes;
    match v
    case Scalar(k, n) => stream.Write(ScalarBytes(k, n));
    case Bool(b) => stream.Write([if b then 1 else 0]);
    case Str(encoding, text) =>
      stream.WriteString(encoding);
      stream.WriteString(text);
      assert was + StringBytes(encoding) + StringBytes(text) == was + Data(v);
    case Char(c) => stream.Write(Encode(c));
    case Shape(k, ns) => WriteScalars(stream, CoordinateKind(IntBased(k)), ns);
    case Polygon(doubles, points) =>
      stream.Write(ScalarBytes(S32, |points|));
      WritePoints(stream, CoordinateKind(!doubles), points);
      assert was + ScalarBytes(S32, |points|) + PointsBytes(CoordinateKind(!doubles), points) == was + Data(v);
    case Color(r, g, b, a) => stream.Write(ScalarBytes(U32, ColorWord(r, g, b, a)));
    case Binary(bytes) =>
      stream.WriteDynamicCount(|bytes|);
      WriteScalars(stream, U8, bytes);
      assert was + DynamicCount(|bytes|) + ScalarsBytes(U8, bytes) == was + Data(v);
    case Array(k, ns) =>
      stream.Write(ScalarBytes(S32, |ns|));
      WriteScalars(stream, k, ns);
      assert was + ScalarBytes(S32, |ns|) + ScalarsBytes(k, ns) == was + Data(v);
    case StrArray(ss) =>
      stream.Write(ScalarBytes(S32, |ss|));
      WriteStrings(stream, ss);
      assert was + ScalarBytes(S32, |ss|) + StringsBytes(ss) == was + Data(v);
    case BoolArray(bs) =>
      stream.Write(ScalarBytes(S32, |bs|));
      WriteBools(stream, bs);
      assert was + ScalarBytes(S32, |bs|) + BoolsBytes(bs) == was + Data(v);
  }

  method WriteAttribute(stream: BinaryStream, a: BinaryAttribute)
    requires stream.offset == |stream.bytes| && HoldableAttribute(a)
    modifies stream
    ensures stream.offset == |stream.bytes| && stream.bytes == old(stream.bytes) + AttributeBytes(a)
  {
    hide DynamicCount, AttributeContentSize, TypeBytes, StringBytes, Data, Holdable;
    ghost var was := stream.bytes;
    stream.WriteDynamicCount(AttributeContentSize(a));
    stream.Write(TypeBytes(a.value));
    stream.WriteString(a.name);
    WriteData(stream, a.value);
    Regroup(was, DynamicCount(AttributeContentSize(a)), TypeBytes(a.value), StringBytes(a.name), Data(a.value));
  }

  lemma Regroup(a: Bytes, b: Bytes, c: Bytes, d: Bytes, e: Bytes)
    ensures a + b + c + d + e == a + (b + (c + (d + e)))
  {
  }

  // ----- Sizes ------------------------------------------------------------

  method CalculateContentSize(t: BinaryNode) returns (size: int)
    ensures size == ContentSize(t)
    decreases t, 0
  {
    hide BinaryStringLength, AttributeTotalSize;
    var lengthOfAttributes := 0;
    assert t.attributes[0..] == t.attributes && t.children[0..] == t.children;
    for i := 0 to |t.attributes|
      invariant lengthOfAttributes + AttributesSize(t.attributes[i..]) == AttributesSize(t.attributes)
    {
      assert t.attributes[i..][1..] == t.attributes[i + 1..];
      lengthOfAttributes := lengthOfAttributes + AttributeTotalSize(t.attributes[i]);
    }
    var lengthOfChildren := 0;
    for i := 0 to |t.children|
      invariant lengthOfChildren + ChildrenSize(t.children[i..]) == ChildrenSize(t.children)
    {
      assert t.children[i..][1..] == t.children[i + 1..];
      var child := CalculateTotalSize(t.children[i]);
      lengthOfChildren := lengthOfChildren + child;
    }
    size := 8 + BinaryStringLength(t.name) + lengthOfAttributes + lengthOfChildren;
  }

  method CalculateTotalSize(t: BinaryNode) returns (size: int)
    ensures size == TotalSize(t)
    decreases t, 1
  {
    var contentSize := CalculateContentSize(t);
    size := CountLength(contentSize) + contentSize;
  }

  // ----- Writing trees ----------------------------------------------------

  method WriteAttributes(stream: BinaryStream, attributes: seq<BinaryAttribute>)
    requires stream.offset == |stream.bytes| && HoldableAttributes(attributes)
    modifies stream
    ensures stream.offset == |stream.bytes| && stream.bytes == old(stream.bytes) + AttributesBytes(attributes)
  {
    hide AttributeBytes, HoldableAttribute;
    ghost var was := stream.bytes;
    assert attributes[0..] == attributes;
    for i := 0 to |attributes|
      invariant stream.offset == |stream.bytes|
      invariant stream.bytes + AttributesBytes(attributes[i..]) == was + AttributesBytes(attributes)
    {
      ghost var before, others := stream.bytes, AttributesBytes(attributes[i + 1..]);
      WriteAttribute(stream, attributes[i]);
      assert attributes[i..][1..] == attributes[i + 1..];
      assert before + (AttributeBytes(attributes[i]) + others) == stream.bytes + others;
    }
    assert stream.bytes + [] == stream.bytes;
  }

  method WriteNode(stream: BinaryStream, t: BinaryNode)
    requires stream.offset == |stream.bytes| && HoldableTree(t)
    modifies stream
    ensures stream.offset == |stream.bytes| && stream.bytes == old(stream.bytes) + NodeBytes(t)
    decreases t, 1
  {
    hide DynamicCount, ContentSize, ScalarBytes, StringBytes, AttributesBytes, ChildrenBytes, HoldableAttribute;
    ghost var was := stream.bytes;
    var contentSize := CalculateContentSize(t);
    stream.WriteDynamicCount(contentSize);
    stream.Write(ScalarBytes(S32, |t.attributes|));
    stream.Write(ScalarBytes(S32, |t.children|));
    stream.WriteString(t.name);
    ghost var header := stream.bytes;
    WriteAttributes(stream, t.attributes);
    WriteChildren(stream, t.children);
    Regroup(was, DynamicCount(contentSize), ScalarBytes(S32, |t.attributes|), ScalarBytes(S32, |t.children|),
            StringBytes(t.name));
    RegroupNode(was, DynamicCount(contentSize), ScalarBytes(S32, |t.attributes|), ScalarBytes(S32, |t.children|),
                StringBytes(t.name), AttributesBytes(t.attributes), ChildrenBytes(t.children));
  }

  lemma RegroupNode(a: Bytes, b: Bytes, c: Bytes, d: Bytes, e: Bytes, f: Bytes, g: Bytes)
    ensures a + b + c + d + e + f + g == a + (b + (c + (d + (e + (f + g)))))
  {
    Regroup(a, b, c, d, e);
    Regroup(a + b + c, d, e, f, g);
    Regroup(a, b, c, d + (e + (f + g)), []);
    assert d + (e + (f + g)) + [] == d + (e + (f + g));
    assert a + b + c + (d + (e + (f + g))) + [] == a + b + c + (d + (e + (f + g)));
  }

  method WriteChildren(stream: BinaryStream, children: seq<BinaryNode>)
    requires stream.offset == |stream.bytes| && HoldableTrees(children)
    modifies stream
    ensures stream.offset == |stream.bytes| && stream.bytes == old(stream.bytes) + ChildrenBytes(children)
    decreases children
  {
    hide NodeBytes, HoldableTree;
    ghost var was := stream.bytes;
    assert children[0..] == children;
    for i := 0 to |children|
      invariant stream.offset == |stream.bytes|
      invariant stream.bytes + ChildrenBytes(children[i..]) == was + ChildrenBytes(children)
    {
      ghost var before, others := stream.bytes, ChildrenBytes(children[i + 1..]);
      WriteNode(stream, children[i]);
      assert children[i..][1..] == children[i + 1..];
      assert before + (NodeBytes(children[i]) + others) == stream.bytes + others;
    }
    assert stream.bytes + [] == stream.bytes;
  }

  // ----- Reading ----------------------------------------------------------

  /** What a list reader gives when `front` has been read already. */
  ghost function Prepend<T>(front: seq<T>, r: Read<seq<T>>): Read<seq<T>>
  {
    match r
    case Ok(others, rest) => Ok(front + others, rest)
    case Fail(f) => Fail(f)
  }

  lemma NothingBefore<T>(r: Read<seq<T>>)
    ensures Prepend([], r) == r
  {
    if r.Ok? {
      assert [] + r.value == r.value;
    }
  }

  lemma OneMore<T>(front: seq<T>, x: T, r: Read<seq<T>>)
    ensures Prepend(front, Prepend([x], r)) == Prepend(front + [x], r)
  {
    if r.Ok? {
      assert front + ([x] + r.value) == front + [x] + r.value;
    }
  }

  method ReadScalarList(stream: BinaryStream, k: ScalarKind, n: int) returns (r: Result<seq<int>, Fault>)
    requires stream.Valid()
    modifies stream
    ensures stream.Valid() && stream.bytes == old(stream.bytes)
    ensures Agrees(r, stream.Ahead(), ReadScalars(k, n, old(stream.Ahead())))
    ensures r.Success? && n >= 0 ==> |r.value| == n
  {
    hide ReadWord;
    ghost var ahead := stream.Ahead();
    var found: seq<int> := [];
    NothingBefore(ReadScalars(k, n, ahead));
    var i := 0;
    while i < n
      invariant stream.Valid() && stream.bytes == old(stream.bytes) && 0 <= i == |found| && (n >= 0 ==> i <= n)
      invariant Prepend(found, ReadScalars(k, if n < 0 then n else n - i, stream.Ahead())) == ReadScalars(k, n, ahead)
    {
      ghost var before := stream.Ahead();
      var next := stream.ReadInteger(Width(k), IsSigned(k));
      if next.Failure? {
        return Failure(next.error);
      }
      OneMore(found, next.value, ReadScalars(k, n - i - 1, stream.Ahead()));
      found := found + [next.value];
      i := i + 1;
    }
    assert found + [] == found;
    return Success(found);
  }

  method ReadPointList(stream: BinaryStream, k: ScalarKind, n: int) returns (r: Result<seq<(int, int)>, Fault>)
    requires stream.Valid()
    modifies stream
    ensures stream.Valid() && stream.bytes == old(stream.bytes)
    ensures Agrees(r, stream.Ahead(), ReadPoints(k, n, old(stream.Ahead())))
  {
    hide ReadScalars;
    ghost var ahead := stream.Ahead();
    var found: seq<(int, int)> := [];
    NothingBefore(ReadPoints(k, n, ahead));
    var i := 0;
    while i < n
      invariant stream.Valid() && stream.bytes == old(stream.bytes) && 0 <= i && (n >= 0 ==> i <= n)
      invariant Prepend(found, ReadPoints(k, if n < 0 then n else n - i, stream.Ahead())) == ReadPoints(k, n, ahead)
    {
      ghost var before := stream.Ahead();
      var next := ReadScalarList(stream, k, 2);
      if next.Failure? {
        return Failure(next.error);
      }
      OneMore(found, (next.value[0], next.value[1]), ReadPoints(k, n - i - 1, stream.Ahead()));
      found := found + [(next.value[0], next.value[1])];
      i := i + 1;
    }
    assert found + [] == found;
    return Success(found);
  }

  method ReadStringList(stream: BinaryStream, n: int) returns (r: Result<seq<Bytes>, Fault>)
    requires stream.Valid()
    modifies stream
    ensures stream.Valid() && stream.bytes == old(stream.bytes)
    ensures Agrees(r, stream.Ahead(), ReadStrings(n, old(stream.Ahead())))
  {
    hide ReadString;
    ghost var ahead := stream.Ahead();
    var found: seq<Bytes> := [];
    NothingBefore(ReadStrings(n, ahead));
    var i := 0;
    while i < n
      invariant stream.Valid() && stream.bytes == old(stream.bytes) && 0 <= i && (n >= 0 ==> i <= n)
      invariant Prepend(found, ReadStrings(if n < 0 then n else n - i, stream.Ahead())) == ReadStrings(n, ahead)
    {
      ghost var before := stream.Ahead();
      var next := stream.ReadText();
      if next.Failure? {
        return Failure(next.error);
      }
      OneMore(found, next.value, ReadStrings(n - i - 1, stream.Ahead()));
      found := found + [next.value];
      i := i + 1;
    }
    assert found + [] == found;
    return Success(found);
  }

  method ReadBoolList(stream: BinaryStream, n: int) returns (r: Result<seq<bool>, Fault>)
    requires stream.Valid()
    modifies stream
    ensures stream.Valid() && stream.bytes == old(stream.bytes)
    ensures Agrees(r, stream.Ahead(), ReadBools(n, old(stream.Ahead())))
  {
    hide Word;
    ghost var ahead := stream.Ahead();
    var found: seq<bool> := [];
    NothingBefore(ReadBools(n, ahead));
    var i := 0;
    while i < n
      invariant stream.Valid() && stream.bytes == old(stream.bytes) && 0 <= i && (n >= 0 ==> i <= n)
      invariant Prepend(found, ReadBools(if n < 0 then n else n - i, stream.Ahead())) == ReadBools(n, ahead)
    {
      ghost var before := stream.Ahead();
      var next := stream.ReadInteger(1, false);
      OneByteWord(before);
      if next.Failure? {
        return Failure(next.error);
      }
      OneMore(found, next.value != 0, ReadBools(n - i - 1, stream.Ahead()));
      found := found + [next.value != 0];
      i := i + 1;
    }
    assert found + [] == found;
    return Success(found);
  }

  lemma OneByteWord(bs: Bytes)
    ensures bs != [] ==> ReadWord(bs, 1, false) == Ok(bs[0], bs[1..])
    ensures bs == [] ==> ReadWord(bs, 1, false) == Fail(EndOfStream)
  {
    if bs != [] {
      assert bs[..1] == [bs[0]] && [bs[0]][..0] == [];
      assert FromBigEndian([bs[0]]) == bs[0];
    }
  }

  method ReadCharacter(stream: BinaryStream) returns (r: Result<int, Fault>)
    requires stream.Valid()
    modifies stream
    ensures stream.Valid() && stream.bytes == old(stream.bytes)
    ensures Agrees(r, stream.Ahead(), ReadChar(old(stream.Ahead())))
  {
    hide StartByteLength, Decode;
    ghost var ahead := stream.Ahead();
    var first := stream.ReadGuaranteed(1);
    if first.Failure? {
      return Failure(first.error);
    }
    var source0 := first.value[0];
    assert source0 == ahead[0];
    var n := StartByteLength(source0);
    assert 1 <= n <= 4 by { StartByteLengths(source0); }
    var others := stream.ReadGuaranteed(n - 1);
    if others.Failure? {
      return Failure(others.error);
    }
    var bytes := first.value + others.value;
    assert bytes == ahead[..n] && stream.Ahead() == ahead[n..];
    DecodeUsed(n, bytes, ahead);
    return Success(CodePointAt(bytes, 0));
  }

  lemma StartByteLengths(b: byte)
    ensures 1 <= StartByteLength(b) <= 4
  {
  }

  /** Only the bytes the start byte calls for matter. */
  lemma DecodeUsed(n: nat, bytes: Bytes, ahead: Bytes)
    requires 1 <= n <= |ahead| && bytes == ahead[..n] && StartByteLength(ahead[0]) == n
    ensures CodePointAt(bytes, 0) == CodePointAt(ahead, 0)
  {
    hide StartByteLength;
    assert forall i :: 0 <= i < n ==> ByteAt(bytes, i) == ByteAt(ahead, i);
  }

  method ReadStrValue(stream: BinaryStream) returns (r: Result<BinaryValue, Fault>)
    requires stream.Valid()
    modifies stream
    ensures stream.Valid() && stream.bytes == old(stream.bytes)
    ensures Agrees(r, stream.Ahead(), ReadStr(old(stream.Ahead())))
  {
    hide ReadString;
    var encoding := stream.ReadText();
    if encoding.Failure? {
      return Failure(encoding.error);
    }
    var text := stream.ReadText();
    if text.Failure? {
      return Failure(text.error);
    }
    return Success(Str(encoding.value, text.value));
  }

  method ReadBinaryValue(stream: BinaryStream) returns (r: Result<BinaryValue, Fault>)
    requires stream.Valid()
    modifies stream
    ensures stream.Valid() && stream.bytes == old(stream.bytes)
    ensures Agrees(r, stream.Ahead(), ReadBinary(old(stream.Ahead())))
  {
    hide ReadCount;
    var length := stream.ReadDynamicCount();
    if length.Failure? {
      return Failure(length.error);
    }
    if length.value < 0 {
      return Failure(NegativeLength);
    }
    var left := |stream.bytes| - stream.offset;
    var bytes := stream.ReadGuaranteed(if length.value > left then left else length.value);
    return Success(Binary(bytes.value));
  }

  method ReadCountedValue(stream: BinaryStream, tag: TypeTag) returns (r: Result<BinaryValue, Fault>)
    requires stream.Valid()
    modifies stream
    ensures stream.Valid() && stream.bytes == old(stream.bytes)
    ensures Agrees(r, stream.Ahead(), ReadCounted(tag, old(stream.Ahead())))
  {
    hide ReadWord, ReadPoints, ReadScalars, ReadStrings, ReadBools;
    var n := stream.ReadInteger(4, true);
    if n.Failure? {
      return Failure(n.error);
    }
    match tag
    case PolygonTag(doubles) =>
      var points := ReadPointList(stream, CoordinateKind(!doubles), n.value);
      r := if points.Success? then Success(Polygon(doubles, points.value)) else Failure(points.error);
    case ArrayTag(k) =>
      var ns := ReadScalarList(stream, k, n.value);
      r := if ns.Success? then Success(Array(k, ns.value)) else Failure(ns.error);
    case StrArrayTag =>
      var ss := ReadStringList(stream, n.value);
      r := if ss.Success? then Success(StrArray(ss.value)) else Failure(ss.error);
    case BoolArrayTag =>
      var bools := ReadBoolList(stream, n.value);
      r := if bools.Success? then Success(BoolArray(bools.value)) else Failure(bools.error);
    case _ => r := Failure(UnknownType);
  }

  /** The stream constructor of the attribute class a type code names. */
  method ReadValue(stream: BinaryStream, tag: TypeTag) returns (r: Result<BinaryValue, Fault>)
    requires stream.Valid()
    modifies stream
    ensures stream.Valid() && stream.bytes == old(stream.bytes)
    ensures Agrees(r, stream.Ahead(), ReadData(tag, old(stream.Ahead())))
  {
    hide ReadWord, ReadScalars, ReadChar, ReadStr, ReadBinary, ReadCounted, ColorOfWord;
    match tag
    case ScalarTag(k) =>
      var n := stream.ReadInteger(Width(k), IsSigned(k));
      r := if n.Success? then Success(Scalar(k, n.value)) else Failure(n.error);
    case BoolTag =>
      var n := stream.ReadInteger(1, false);
      r := if n.Success? then Success(Bool(n.value != 0)) else Failure(n.error);
    case StrTag => r := ReadStrValue(stream);
    case CharTag =>
      var c := ReadCharacter(stream);
      r := if c.Success? then Success(Char(c.value)) else Failure(c.error);
    case LegacyCharTag =>
      var c := stream.ReadInteger(1, false);
      r := if c.Success? then Success(Char(c.value)) else Failure(c.error);
    case ShapeTag(k) =>
      var ns := ReadScalarList(stream, CoordinateKind(IntBased(k)), CoordinateCount(k));
      r := if ns.Success? then Success(Shape(k, ns.value)) else Failure(ns.error);
    case ColorTag =>
      var word := stream.ReadInteger(4, false);
      r := if word.Success? then Success(ColorOfWord(word.value)) else Failure(word.error);
    case BinaryTag => r := ReadBinaryValue(stream);
    case _ => r := ReadCountedValue(stream, tag);
  }

  /** `newObjectFromStream` */
  method NewAttribute(stream: BinaryStream) returns (r: Result<BinaryAttribute, Fault>)
    requires stream.Valid()
    modifies stream
    ensures stream.Valid() && stream.bytes == old(stream.bytes)
    ensures Agrees(r, stream.Ahead(), ReadAttribute(old(stream.Ahead())))
  {
    hide ReadCount, TagOf, CodeText, ReadString, ReadData;
    var length := stream.ReadDynamicCount();
    if length.Failure? {
      return Failure(length.error);
    }
    var code := stream.ReadGuaranteed(4);
    if code.Failure? {
      return Failure(code.error);
    }
    var tag := TagOf(CodeText(code.value));
    if tag.None? {
      return Failure(UnknownType);
    }
    var name := stream.ReadText();
    if name.Failure? {
      return Failure(name.error);
    }
    var value := ReadValue(stream, tag.value);
    if value.Failure? {
      return Failure(value.error);
    }
    return Success(Attribute(name.value, value.value));
  }

  method ReadAttributeList(stream: BinaryStream, n: int) returns (r: Result<seq<BinaryAttribute>, Fault>)
    requires stream.Valid()
    modifies stream
    ensures stream.Valid() && stream.bytes == old(stream.bytes)
    ensures Agrees(r, stream.Ahead(), ReadAttributes(n, old(stream.Ahead())))
  {
    hide ReadAttribute;
    ghost var ahead := stream.Ahead();
    var found: seq<BinaryAttribute> := [];
    NothingBefore(ReadAttributes(n, ahead));
    var i := 0;
    while i < n
      invariant stream.Valid() && stream.bytes == old(stream.bytes) && 0 <= i && (n >= 0 ==> i <= n)
      invariant Prepend(found, ReadAttributes(if n < 0 then n else n - i, stream.Ahead())) == ReadAttributes(n, ahead)
    {
      var next := NewAttribute(stream);
      if next.Failure? {
        return Failure(next.error);
      }
      OneMore(found, next.value, ReadAttributes(n - i - 1, stream.Ahead()));
      found := found + [next.value];
      i := i + 1;
    }
    assert found + [] == found;
    return Success(found);
  }

  /** The constructor from a binary stream. */
  method ReadTree(stream: BinaryStream) returns (r: Result<BinaryNode, Fault>)
    requires stream.Valid()
    modifies stream
    ensures stream.Valid() && stream.bytes == old(stream.bytes)
    ensures Agrees(r, stream.Ahead(), ReadNode(old(stream.Ahead())))
    decreases |stream.Ahead()|, 0, 0
  {
    hide ReadCount, ReadWord, ReadString, ReadAttributes, ReadNodes;
    var length := stream.ReadDynamicCount();
    if length.Failure? {
      return Failure(length.error);
    }
    var numAttributes := stream.ReadInteger(4, true);
    if numAttributes.Failure? {
      return Failure(numAttributes.error);
    }
    var numChildNodes := stream.ReadInteger(4, true);
    if numChildNodes.Failure? {
      return Failure(numChildNodes.error);
    }
    var name := stream.ReadText();
    if name.Failure? {
      return Failure(name.error);
    }
    var attributes := ReadAttributeList(stream, numAttributes.value);
    if attributes.Failure? {
      return Failure(attributes.error);
    }
    var children := ReadChildList(stream, numChildNodes.value);
    if children.Failure? {
      return Failure(children.error);
    }
    return Success(Node(name.value, attributes.value, children.value));
  }

  method ReadChildList(stream: BinaryStream, n: int) returns (r: Result<seq<BinaryNode>, Fault>)
    requires stream.Valid()
    modifies stream
    ensures stream.Valid() && stream.bytes == old(stream.bytes)
    ensures Agrees(r, stream.Ahead(), ReadNodes(n, old(stream.Ahead())))
    decreases |stream.Ahead()|, 1
  {
    hide ReadNode;
    ghost var ahead := stream.Ahead();
    var found: seq<BinaryNode> := [];
    NothingBefore(ReadNodes(n, ahead));
    var i := 0;
    while i < n
      invariant stream.Valid() && stream.bytes == old(stream.bytes) && 0 <= i && (n >= 0 ==> i <= n)
      invariant |stream.Ahead()| <= |ahead|
      invariant Prepend(found, ReadNodes(if n < 0 then n else n - i, stream.Ahead())) == ReadNodes(n, ahead)
    {
      var next := ReadTree(stream);
      if next.Failure? {
        return Failure(next.error);
      }
      OneMore(found, next.value, ReadNodes(n - i - 1, stream.Ahead()));
      found := found + [next.value];
      i := i + 1;
    }
    assert found + [] == found;
    return Success(found);
  }

  /**
    A tree written to a stream and read back from its start is the same tree,
    and what follows it is left, if its lengths are legible; not if it is lost.
   */
  method WriteThenRead(t: BinaryNode, trailing: Bytes) returns (r: Result<BinaryNode, Fault>, left: Bytes)
    requires HoldableTree(t) && |NodeContent(t)| < MAX_SIZE
    ensures LegibleTree(t) ==> r == Success(t) && left == trailing
    ensures LostTree(t, 0) ==> !(r == Success(t) && left == trailing)
  {
    hide NodeBytes, ReadNode, NodeContent, LegibleTree, LostTree;
    var output := new BinaryStream([]);
    WriteNode(output, t);
    output.Write(trailing);
    assert output.bytes == NodeBytes(t) + trailing;
    if LegibleTree(t) {
      ReadNodeOf(t, trailing);
    }
    if LostTree(t, 0) {
      LostIsNotRead(t, trailing);
    }
    var input := new BinaryStream(output.bytes);
    r := ReadTree(input);
    left := input.bytes[input.offset..];
  }
}
