/**
  Attributes in the binary format.  The length ahead of an attribute is not
  used in reading it, but a polygon too long for a 32-bit length can make it
  negative, and then its low byte can be mistaken for the lead of a longer
  count.
 */
module BentoBinaryAttributes {
  import opened Wrappers
  import opened BinaryStreams
  import opened BentoModel
  import opened BentoBinary

  function CodeBytes(code: string): Bytes
    requires forall i :: 0 <= i < |code| ==> code[i] < 256 as char
  {
    seq(|code|, i requires 0 <= i < |code| => code[i] as int)
  }

  function CodeText(bs: Bytes): string { seq(|bs|, i requires 0 <= i < |bs| => bs[i] as char) }

  lemma TagHasCode(v: BinaryValue)
    requires Holdable(v)
    ensures ValidTag(Tag(v)) && |Code(Tag(v))| == 4
    ensures forall i :: 0 <= i < 4 ==> Code(Tag(v))[i] < 256 as char
  {
  }

  function TypeBytes(v: BinaryValue): (bs: Bytes)
    requires Holdable(v)
    ensures |bs| == 4
  {
    TagHasCode(v);
    CodeBytes(Code(Tag(v)))
  }

  /** `VBentoAttribute::calculateContentSize` */
  function AttributeContentSize(a: BinaryAttribute): int { 4 + BinaryStringLength(a.name) + DataLength(a.value) }

  function AttributeTotalSize(a: BinaryAttribute): int
  {
    CountLength(AttributeContentSize(a)) + AttributeContentSize(a)
  }

  /** Attributes that can be held: neither name nor value is too long for its count. */
  predicate HoldableAttribute(a: BinaryAttribute) { |a.name| < MAX_COUNT && Holdable(a.value) }

  function AttributeContent(a: BinaryAttribute): Bytes
    requires HoldableAttribute(a)
  {
    TypeBytes(a.value) + (StringBytes(a.name) + Data(a.value))
  }

  /** `VBentoAttribute::writeToStream` */
  function AttributeBytes(a: BinaryAttribute): Bytes
    requires HoldableAttribute(a)
  {
    DynamicCount(AttributeContentSize(a)) + AttributeContent(a)
  }

  /** `newObjectFromStream`; the announced length is read and, for a known type, not used. */
  function ReadAttribute(bs: Bytes): (r: Read<BinaryAttribute>)
    ensures r.Ok? ==> |r.rest| <= |bs|
  {
    match ReadCount(bs)
    case Fail(f) => Fail(f)
    case Ok(_, content) => ReadAttributeContent(content)
  }

  function ReadAttributeContent(bs: Bytes): (r: Read<BinaryAttribute>)
    ensures r.Ok? ==> |r.rest| <= |bs|
  {
    if |bs| < 4 then Fail(EndOfStream)
    else
      match TagOf(CodeText(bs[..4]))
      case None => Fail(UnknownType)
      case Some(tag) =>
        match ReadString(bs[4..])
        case Fail(f) => Fail(f)
        case Ok(name, rest) =>
          match ReadData(tag, rest)
          case Fail(f) => Fail(f)
          case Ok(value, left) => Ok(Attribute(name, value), left)
  }

  /**
    The sizes computed for an attribute never exceed the numbers of bytes
    written, and are exact if and only if it holds no overflowing polygon.
   */
  lemma AttributeSizesExact(a: BinaryAttribute)
    requires HoldableAttribute(a)
    ensures AttributeContentSize(a) == |AttributeContent(a)| <==> PolygonFits(a.value)
    ensures AttributeTotalSize(a) == |AttributeBytes(a)| <==> PolygonFits(a.value)
    ensures AttributeContentSize(a) <= |AttributeContent(a)|
    ensures AttributeTotalSize(a) - |AttributeBytes(a)| == AttributeContentSize(a) - |AttributeContent(a)|
  {
    hide StringBytes, Data, DataLength, TypeBytes, DynamicCount, CountLength, BinaryStringLength;
    StringLength(a.name);
    DataLengthExact(a.value);
    DynamicCountLength(AttributeContentSize(a));
  }

  lemma TypeOf(v: BinaryValue)
    requires Holdable(v)
    ensures TagOf(CodeText(TypeBytes(v))) == Some(Tag(v))
  {
    hide Tag, Code, TagOf;
    TagHasCode(v);
    assert CodeText(TypeBytes(v)) == Code(Tag(v));
    TagOfCode(Tag(v));
  }

  lemma ReadAttributeContentOf(a: BinaryAttribute, rest: Bytes)
    requires HoldableAttribute(a)
    ensures ReadAttributeContent(AttributeContent(a) + rest) == Ok(a, rest)
  {
    hide StringBytes, ReadString, Data, ReadData, TypeBytes, TagOf, Tag, CodeText;
    var v := a.value;
    var afterName := Data(v) + rest;
    var afterType := StringBytes(a.name) + afterName;
    var bs := AttributeContent(a) + rest;
    assert bs == TypeBytes(v) + afterType;
    assert bs[..4] == TypeBytes(v) && bs[4..] == afterType;
    TypeOf(v);
    ReadStringOf(a.name, afterName);
    ReadDataOf(v, rest);
  }

  // ----- Lengths that are misread -----------------------------------------

  const MAX_SIZE: int := 0x8000_0000_0000_0000

  lemma ContentTaken(bs: Bytes, a: BinaryAttribute, left: Bytes)
    requires HoldableAttribute(a) && ReadAttributeContent(bs) == Ok(a, left)
    ensures |bs| >= |left| + |AttributeContent(a)| - Savable(a.value)
  {
    hide Data, StringBytes, TypeBytes, ReadString, ReadData, TagOf, Holdable;
    var tag := TagOf(CodeText(bs[..4])).value;
    StringConsumed(bs[4..]);
    DataTaken(tag, ReadString(bs[4..]).rest, a.value, left);
  }

  /** By how many bytes the bytes written for an attribute exceed the least it could be read from. */
  function AttributeSlack(a: BinaryAttribute): nat { CountLength(AttributeContentSize(a)) - 1 + Savable(a.value) }

  lemma AttributeTaken(bs: Bytes, a: BinaryAttribute, left: Bytes)
    requires HoldableAttribute(a) && ReadAttribute(bs) == Ok(a, left)
    ensures |bs| >= |left| + |AttributeBytes(a)| - AttributeSlack(a)
  {
    hide ReadCount, ReadAttributeContent, AttributeContent, DynamicCount, CountLength, AttributeContentSize;
    CountConsumed(bs);
    ContentTaken(ReadCount(bs).rest, a, left);
    DynamicCountLength(AttributeContentSize(a));
  }

  lemma AttributeForm(a: BinaryAttribute, rest: Bytes)
    requires HoldableAttribute(a)
    ensures AttributeBytes(a) + rest == DynamicCount(AttributeContentSize(a)) + (AttributeContent(a) + rest)
  {
    hide DynamicCount, AttributeContent, AttributeContentSize;
  }

  /** If the length of an attribute swallows bytes, whoever reads the attribute has read beyond it. */
  lemma AttributeOvershot(a: BinaryAttribute, rest: Bytes, left: Bytes)
    requires HoldableAttribute(a) && |AttributeContent(a)| < MAX_SIZE
    requires ReadAttribute(AttributeBytes(a) + rest) == Ok(a, left)
    ensures |rest| - |left| >= Swallowed(AttributeContentSize(a)) - Savable(a.value)
  {
    hide DynamicCount, ReadCount, AttributeContent, AttributeContentSize, ReadAttributeContent, Swallowed;
    AttributeSizesExact(a);
    AttributeForm(a, rest);
    ReadCountLeft(AttributeContentSize(a), AttributeContent(a) + rest);
    ContentTaken((AttributeContent(a) + rest)[Swallowed(AttributeContentSize(a))..], a, left);
  }

  /**
    An attribute written and followed by any bytes is read back, and exactly
    those bytes are left, if and only if its length is legible.
   */
  lemma ReadAttributeOf(a: BinaryAttribute, rest: Bytes)
    requires HoldableAttribute(a) && |AttributeContent(a)| < MAX_SIZE
    ensures ReadAttribute(AttributeBytes(a) + rest) == Ok(a, rest) <==> Legible(AttributeContentSize(a))
  {
    hide DynamicCount, ReadCount, AttributeContent, AttributeContentSize, ReadAttributeContent, PolygonFits, Legible;
    AttributeSizesExact(a);
    if Legible(AttributeContentSize(a)) {
      AttributeForm(a, rest);
      ReadCountLeft(AttributeContentSize(a), AttributeContent(a) + rest);
      ReadAttributeContentOf(a, rest);
    } else {
      OnlyPolygons(a);
      if ReadAttribute(AttributeBytes(a) + rest) == Ok(a, rest) {
        AttributeOvershot(a, rest, rest);
      }
    }
  }

  /** Only an overflowing polygon makes the announced length illegible. */
  lemma OnlyPolygons(a: BinaryAttribute)
    requires HoldableAttribute(a) && !Legible(AttributeContentSize(a))
    ensures a.value.Polygon? && !PolygonFits(a.value)
    ensures AttributeContentSize(a) < 0 < Swallowed(AttributeContentSize(a))
  {
    hide AttributeContent, AttributeContentSize, AttributeBytes, AttributeTotalSize;
    AttributeSizesExact(a);
  }

  /** Behind the bytes that the length swallows, the content begins with the type code once more. */
  predicate AttributeRecurs(a: BinaryAttribute)
    requires HoldableAttribute(a)
  {
    var n, content := Swallowed(AttributeContentSize(a)), AttributeContent(a);
    n + 4 <= |content| && TagOf(CodeText(content[n..n + 4])) == Some(Tag(a.value))
  }

  lemma PolygonRead(tag: TypeTag, bs: Bytes)
    ensures match ReadData(tag, bs) case Fail(_) => true case Ok(v, _) => v.Polygon? ==> tag == Tag(v)
  {
    hide ReadWord, ReadScalars, ReadChar, ReadString, ReadCount, ReadPoints, ReadStrings, ReadBools;
  }

  /** A negative length stands ahead of at least 2 GB. */
  lemma NegativeIsLong(a: BinaryAttribute)
    requires HoldableAttribute(a) && AttributeContentSize(a) < 0
    ensures |AttributeContent(a)| >= 0x7FFF_FFFC
  {
    hide StringBytes, PointsBytes, TypeBytes, PointsInRange, AttributeContentSize;
    assert a.value.Polygon? && !PolygonFits(a.value) by { AttributeSizesExact(a); }
    PointsLength(CoordinateKind(!a.value.doubles), a.value.points);
  }

  /** An attribute with an illegible length is not read at all unless its type code recurs, whatever follows it. */
  lemma NotResumed(a: BinaryAttribute, rest: Bytes, left: Bytes)
    requires HoldableAttribute(a) && |AttributeContent(a)| < MAX_SIZE
    requires !Legible(AttributeContentSize(a)) && !AttributeRecurs(a)
    ensures ReadAttribute(AttributeBytes(a) + rest) != Ok(a, left)
  {
    hide DynamicCount, ReadCount, AttributeContent, AttributeContentSize, ReadString, ReadData, TagOf, Legible;
    var n, content := Swallowed(AttributeContentSize(a)), AttributeContent(a);
    OnlyPolygons(a);
    NegativeIsLong(a);
    AttributeSizesExact(a);
    AttributeForm(a, rest);
    ReadCountLeft(AttributeContentSize(a), content + rest);
    var bs := (content + rest)[n..];
    assert bs[..4] == content[n..n + 4];
    if ReadAttributeContent(bs) == Ok(a, left) {
      var tag := TagOf(CodeText(bs[..4])).value;
      PolygonRead(tag, ReadString(bs[4..]).rest);
    }
  }

  /** So a length misread as three bytes loses the attribute, and one misread as five unless the name is made for it. */
  lemma RarelyRecurs(a: BinaryAttribute)
    requires HoldableAttribute(a) && !Legible(AttributeContentSize(a)) && AttributeRecurs(a)
    ensures Swallowed(AttributeContentSize(a)) == 8
         || (Swallowed(AttributeContentSize(a)) == 4 && |a.name| == 0x70
             && [0x70] + a.name[..3] == TypeBytes(a.value))
  {
    hide StringBytes, Data, AttributeContentSize, Legible;
    var n, content := Swallowed(AttributeContentSize(a)), AttributeContent(a);
    OnlyPolygons(a);
    assert content[..4] == TypeBytes(a.value);
    if n == 2 {
      ThirdByte(content, a.value);
      PolygonCode(content[2..6], a.value);
    } else if n == 4 {
      assert content[4..] == StringBytes(a.name) + Data(a.value);
      PolygonCode(content[4..8], a.value);
      NameFirst(a, content[4..]);
    }
  }

  lemma ThirdByte(content: Bytes, v: BinaryValue)
    requires Holdable(v) && |content| >= 6 && content[..4] == TypeBytes(v)
    ensures content[2..6][0] == TypeBytes(v)[2]
  {
    hide TypeBytes;
    assert content[2] == content[..4][2];
  }

  lemma PolygonCode(bs: Bytes, v: BinaryValue)
    requires v.Polygon? && Holdable(v) && TagOf(CodeText(bs)) == Some(Tag(v))
    ensures |bs| == 4 && bs == TypeBytes(v)
    ensures bs[0] == 0x70 && TypeBytes(v)[2] == 0x6C
  {
    assert CodeText(bs) == Code(Tag(v));
    forall i | 0 <= i < 4 ensures bs[i] == TypeBytes(v)[i] {
      assert CodeText(bs)[i] == Code(Tag(v))[i];
    }
  }

  lemma NameFirst(a: BinaryAttribute, bs: Bytes)
    requires HoldableAttribute(a) && bs == StringBytes(a.name) + Data(a.value) && |bs| >= 4 && bs[0] == 0x70
    ensures |a.name| == 0x70 && bs[..4] == [0x70] + a.name[..3]
  {
    hide Data, BigEndian;
  }

  /** A polygon of 2^28 + 30 integer points under a name of four bytes is announced by the lead of a longer form. */
  lemma PolygonLost(name: Bytes, rest: Bytes)
    requires |name| == 4
    ensures var a := Attribute(name, Polygon(false, seq(0x1000_001E, i => (0, 0))));
            && HoldableAttribute(a) && AttributeContentSize(a) == 0xFD - 0x8000_0000
            && ReadAttribute(AttributeBytes(a) + rest) != Ok(a, rest)
  {
    hide AttributeContent, AttributeBytes, ReadAttribute;
    var v := Polygon(false, seq(0x1000_001E, i => (0, 0)));
    var a := Attribute(name, v);
    ContentBelow(a);
    ReadAttributeOf(a, rest);
  }

  /** With an empty name, one of 2^28 points comes back although its length is negative. */
  lemma PolygonKept(rest: Bytes)
    ensures var a := Attribute([], Polygon(false, seq(0x1000_0000, i => (0, 0))));
            && HoldableAttribute(a) && AttributeContentSize(a) == 9 - 0x8000_0000
            && ReadAttribute(AttributeBytes(a) + rest) == Ok(a, rest)
  {
    hide AttributeContent, AttributeBytes, ReadAttribute;
    var v := Polygon(false, seq(0x1000_0000, i => (0, 0)));
    var a := Attribute([], v);
    ContentBelow(a);
    ReadAttributeOf(a, rest);
  }

  /** The content of a polygon attribute is far from the limit of streams. */
  lemma ContentBelow(a: BinaryAttribute)
    requires HoldableAttribute(a) && a.value.Polygon?
    ensures |AttributeContent(a)| < 0x20_0000_0000
  {
    hide StringBytes, PointsBytes, TypeBytes, PointsInRange;
    StringLength(a.name);
    PointsLength(CoordinateKind(!a.value.doubles), a.value.points);
  }
}
