/**
  The Bento binary format: what a tree is written as, the sizes announced
  ahead of it, and the readers, each a function from the bytes ahead to a value
  and the bytes left.
 */
module BentoBinary {
  import opened Decimal
  import opened Utf8
  import opened BinaryStreams
  import opened BentoModel

  type BinaryValue = Value<byte>
  type BinaryAttribute = Attribute<byte>
  type BinaryNode = Node<byte>

  const MAX_COUNT: int := 0x8000_0000

  // ----- Words and lists of words -----------------------------------------

  function Width(k: ScalarKind): nat
  {
    match k
    case S8 => 1
    case U8 => 1
    case S16 => 2
    case U16 => 2
    case S32 => 4
    case U32 => 4
    case Float => 4
    case _ => 8
  }

  predicate IsSigned(k: ScalarKind) { !k.U8? && !k.U16? && !k.U32? && !k.U64? && !k.Float? && !k.Double? }

  function ScalarBytes(k: ScalarKind, n: int): Bytes { BigEndian(n, Width(k)) }

  function ReadScalar(k: ScalarKind, bs: Bytes): (r: Read<int>)
    ensures r.Ok? ==> |r.rest| <= |bs|
  {
    ReadWord(bs, Width(k), IsSigned(k))
  }

  predicate AllInRange(k: ScalarKind, ns: seq<int>) { forall i :: 0 <= i < |ns| ==> InRange(k, ns[i]) }

  function ScalarsBytes(k: ScalarKind, ns: seq<int>): Bytes
  {
    if ns == [] then [] else ScalarBytes(k, ns[0]) + ScalarsBytes(k, ns[1..])
  }

  function ReadScalars(k: ScalarKind, n: int, bs: Bytes): (r: Read<seq<int>>)
    ensures r.Ok? ==> |r.rest| <= |bs|
    decreases if n < 0 then 0 else n
  {
    if n <= 0 then Ok([], bs)
    else
      match ReadScalar(k, bs)
      case Fail(f) => Fail(f)
      case Ok(first, rest) =>
        match ReadScalars(k, n - 1, rest)
        case Fail(f) => Fail(f)
        case Ok(others, left) => Ok([first] + others, left)
  }

  lemma ReadScalarOf(k: ScalarKind, n: int, rest: Bytes)
    requires InRange(k, n)
    ensures ReadScalar(k, ScalarBytes(k, n) + rest) == Ok(n, rest)
  {
    hide BigEndian, ReadWord, Pow256;
    WordSizes();
    ReadWordOf(n, Width(k), IsSigned(k), rest);
  }

  lemma {:induction false} ReadScalarsOf(k: ScalarKind, ns: seq<int>, rest: Bytes)
    requires AllInRange(k, ns)
    ensures ReadScalars(k, |ns|, ScalarsBytes(k, ns) + rest) == Ok(ns, rest)
  {
    hide ScalarBytes, ReadScalar, InRange;
    if ns == [] {
      assert [] + rest == rest;
    } else {
      var others := ScalarsBytes(k, ns[1..]);
      assert ScalarsBytes(k, ns) + rest == ScalarBytes(k, ns[0]) + (others + rest);
      ReadScalarOf(k, ns[0], others + rest);
      ReadScalarsOf(k, ns[1..], rest);
      assert [ns[0]] + ns[1..] == ns;
    }
  }

  lemma {:induction false} ScalarsLength(k: ScalarKind, ns: seq<int>)
    ensures |ScalarsBytes(k, ns)| == Width(k) * |ns|
  {
    if ns != [] {
      ScalarsLength(k, ns[1..]);
    }
  }

  // ----- Shapes, points and colors ----------------------------------------

  function CoordinateKind(intBased: bool): ScalarKind { if intBased then S32 else Double }

  /** How many coordinates the stream operators of each shape write. */
  function CoordinateCount(k: ShapeKind): nat
  {
    match k
    case Point3DI => 3
    case Point3DD => 3
    case LineI => 4
    case LineD => 4
    case RectI => 4
    case RectD => 4
    case _ => 2
  }

  /** What `getDataLength` says of each shape. */
  function ShapeLength(k: ShapeKind): nat
  {
    match k
    case SizeI => 8
    case SizeD => 16
    case PointI => 8
    case PointD => 16
    case Point3DI => 12
    case Point3DD => 24
    case LineI => 16
    case LineD => 32
    case RectI => 16
    case RectD => 32
  }

  function PointsBytes(k: ScalarKind, points: seq<(int, int)>): Bytes
  {
    if points == [] then [] else ScalarsBytes(k, [points[0].0, points[0].1]) + PointsBytes(k, points[1..])
  }

  predicate PointsInRange(k: ScalarKind, points: seq<(int, int)>)
  {
    forall i :: 0 <= i < |points| ==> AllInRange(k, [points[i].0, points[i].1])
  }

  function ReadPoints(k: ScalarKind, n: int, bs: Bytes): (r: Read<seq<(int, int)>>)
    ensures r.Ok? ==> |r.rest| <= |bs|
    decreases if n < 0 then 0 else n
  {
    if n <= 0 then Ok([], bs)
    else
      match ReadScalars(k, 2, bs)
      case Fail(f) => Fail(f)
      case Ok(p, rest) =>
        match ReadPoints(k, n - 1, rest)
        case Fail(f) => Fail(f)
        case Ok(others, left) => Ok([(p[0], p[1])] + others, left)
  }

  function ColorWord(r: int, g: int, b: int, a: int): int { r * 0x100_0000 + g * 0x1_0000 + b * 0x100 + a }

  function ColorOfWord(word: int): BinaryValue
  {
    Color(word / 0x100_0000 % 0x100, word / 0x1_0000 % 0x100, word / 0x100 % 0x100, word % 0x100)
  }

  lemma {:induction false} ReadPointsOf(k: ScalarKind, points: seq<(int, int)>, rest: Bytes)
    requires PointsInRange(k, points)
    ensures ReadPoints(k, |points|, PointsBytes(k, points) + rest) == Ok(points, rest)
  {
    hide ScalarsBytes, ReadScalars, AllInRange;
    if points == [] {
      assert [] + rest == rest;
    } else {
      var first, others := [points[0].0, points[0].1], PointsBytes(k, points[1..]);
      assert PointsBytes(k, points) + rest == ScalarsBytes(k, first) + (others + rest);
      ReadScalarsOf(k, first, others + rest);
      ReadPointsOf(k, points[1..], rest);
      assert [points[0]] + points[1..] == points;
    }
  }

  lemma {:induction false} PointsLength(k: ScalarKind, points: seq<(int, int)>)
    ensures |PointsBytes(k, points)| == 2 * Width(k) * |points|
  {
    hide ScalarsBytes, Width;
    if points != [] {
      ScalarsLength(k, [points[0].0, points[0].1]);
      PointsLength(k, points[1..]);
    }
  }

  lemma ColorFields(r: int, g: int, b: int, a: int)
    requires 0 <= r < 0x100 && 0 <= g < 0x100 && 0 <= b < 0x100 && 0 <= a < 0x100
    ensures InRange(U32, ColorWord(r, g, b, a)) && ColorOfWord(ColorWord(r, g, b, a)) == Color(r, g, b, a)
  {
    var word := ColorWord(r, g, b, a);
    assert word / 0x100 == r * 0x1_0000 + g * 0x100 + b;
    assert word / 0x1_0000 == r * 0x100 + g;
  }

  // ----- Characters, booleans and strings ---------------------------------

  /** The bytes the start byte calls for, put together. */
  function ReadChar(bs: Bytes): (r: Read<int>)
    ensures r.Ok? ==> |r.rest| <= |bs|
  {
    if bs == [] then Fail(EndOfStream)
    else
      var n := StartByteLength(bs[0]);
      if n > |bs| then Fail(EndOfStream) else Ok(CodePointAt(bs, 0), bs[n..])
  }

  lemma ReadCharOf(c: CodePoint, rest: Bytes)
    ensures ReadChar(Encode(c) + rest) == Ok(c, rest)
  {
    hide Encode, CodePointAt, StartByteLength;
    EncodeDecode(c, rest);
    EncodeLength(c);
    assert LengthAt(Encode(c) + rest, 0) == StartByteLength((Encode(c) + rest)[0]);
    assert (Encode(c) + rest)[|Encode(c)|..] == rest;
  }

  function BoolsBytes(bs: seq<bool>): (r: Bytes)
    ensures |r| == |bs|
  {
    seq(|bs|, i requires 0 <= i < |bs| => if bs[i] then 1 else 0)
  }

  function ReadBools(n: int, bs: Bytes): (r: Read<seq<bool>>)
    ensures r.Ok? ==> |r.rest| <= |bs|
    decreases if n < 0 then 0 else n
  {
    if n <= 0 then Ok([], bs)
    else if bs == [] then Fail(EndOfStream)
    else
      match ReadBools(n - 1, bs[1..])
      case Fail(f) => Fail(f)
      case Ok(others, left) => Ok([bs[0] != 0] + others, left)
  }

  lemma {:induction false} ReadBoolsOf(bools: seq<bool>, rest: Bytes)
    ensures ReadBools(|bools|, BoolsBytes(bools) + rest) == Ok(bools, rest)
  {
    if bools == [] {
      assert BoolsBytes(bools) + rest == rest;
    } else {
      var bytes := BoolsBytes(bools) + rest;
      assert bytes[1..] == BoolsBytes(bools[1..]) + rest;
      ReadBoolsOf(bools[1..], rest);
      assert [bytes[0] != 0] + bools[1..] == bools;
    }
  }

  function StringsBytes(ss: seq<Bytes>): Bytes
  {
    if ss == [] then [] else StringBytes(ss[0]) + StringsBytes(ss[1..])
  }

  /** `_getBinaryStringLength` */
  function BinaryStringLength(s: Bytes): nat { CountLength(|s|) + |s| }

  function StringsLength(ss: seq<Bytes>): nat
  {
    if ss == [] then 0 else BinaryStringLength(ss[0]) + StringsLength(ss[1..])
  }

  function ReadStrings(n: int, bs: Bytes): (r: Read<seq<Bytes>>)
    ensures r.Ok? ==> |r.rest| <= |bs|
    decreases if n < 0 then 0 else n
  {
    if n <= 0 then Ok([], bs)
    else
      match ReadString(bs)
      case Fail(f) => Fail(f)
      case Ok(first, rest) =>
        match ReadStrings(n - 1, rest)
        case Fail(f) => Fail(f)
        case Ok(others, left) => Ok([first] + others, left)
  }

  predicate ShortStrings(ss: seq<Bytes>) { forall i :: 0 <= i < |ss| ==> |ss[i]| < MAX_COUNT }

  lemma {:induction false} ReadStringsOf(ss: seq<Bytes>, rest: Bytes)
    requires ShortStrings(ss)
    ensures ReadStrings(|ss|, StringsBytes(ss) + rest) == Ok(ss, rest)
  {
    hide StringBytes, ReadString;
    if ss == [] {
      assert [] + rest == rest;
    } else {
      var others := StringsBytes(ss[1..]);
      assert StringsBytes(ss) + rest == StringBytes(ss[0]) + (others + rest);
      ReadStringOf(ss[0], others + rest);
      ReadStringsOf(ss[1..], rest);
      assert [ss[0]] + ss[1..] == ss;
    }
  }

  lemma StringLength(s: Bytes)
    ensures |StringBytes(s)| == BinaryStringLength(s)
  {
    DynamicCountLength(|s|);
  }

  lemma {:induction false} StringsLengthExact(ss: seq<Bytes>)
    ensures |StringsBytes(ss)| == StringsLength(ss)
  {
    hide StringBytes, BinaryStringLength;
    if ss != [] {
      StringLength(ss[0]);
      StringsLengthExact(ss[1..]);
    }
  }

  // ----- Attribute data ---------------------------------------------------

  /** The values the attribute objects can hold, with lists that their 32-bit counts can count. */
  predicate Holdable(v: BinaryValue)
  {
    match v
    case Scalar(k, n) => InRange(k, n)
    case Bool(_) => true
    case Str(encoding, text) => |encoding| < MAX_COUNT && |text| < MAX_COUNT
    case Char(c) => 0 <= c < 0x11_0000
    case Shape(k, ns) => |ns| == CoordinateCount(k) && AllInRange(CoordinateKind(IntBased(k)), ns)
    case Polygon(doubles, points) => |points| < MAX_COUNT && PointsInRange(CoordinateKind(!doubles), points)
    case Color(r, g, b, a) => 0 <= r < 0x100 && 0 <= g < 0x100 && 0 <= b < 0x100 && 0 <= a < 0x100
    case Binary(bytes) => |bytes| < 0x8000_0000_0000_0000 && AllInRange(U8, bytes)
    case Array(k, ns) => HasArray(k) && |ns| < MAX_COUNT && AllInRange(k, ns)
    case StrArray(ss) => |ss| < MAX_COUNT && ShortStrings(ss)
    case BoolArray(bs) => |bs| < MAX_COUNT
  }

  /** `writeDataToBinaryStream` */
  function Data(v: BinaryValue): Bytes
    requires Holdable(v)
  {
    match v
    case Scalar(k, n) => ScalarBytes(k, n)
    case Bool(b) => [if b then 1 else 0]
    case Str(encoding, text) => StringBytes(encoding) + StringBytes(text)
    case Char(c) => Encode(c)
    case Shape(k, ns) => ScalarsBytes(CoordinateKind(IntBased(k)), ns)
    case Polygon(doubles, points) => ScalarBytes(S32, |points|) + PointsBytes(CoordinateKind(!doubles), points)
    case Color(r, g, b, a) => ScalarBytes(U32, ColorWord(r, g, b, a))
    case Binary(bytes) => DynamicCount(|bytes|) + ScalarsBytes(U8, bytes)
    case Array(k, ns) => ScalarBytes(S32, |ns|) + ScalarsBytes(k, ns)
    case StrArray(ss) => ScalarBytes(S32, |ss|) + StringsBytes(ss)
    case BoolArray(bs) => ScalarBytes(S32, |bs|) + BoolsBytes(bs)
  }

  /** `getDataLength`: the length announced; a polygon's is computed in a 32-bit `int`. */
  function DataLength(v: BinaryValue): int
  {
    match v
    case Scalar(k, _) => Width(k)
    case Bool(_) => 1
    case Str(encoding, text) => BinaryStringLength(encoding) + BinaryStringLength(text)
    case Char(c) => if 0 <= c < 0x11_0000 then Length(c) else 0
    case Shape(k, _) => ShapeLength(k)
    case Polygon(doubles, points) => ToS32(4 + ToS32((if doubles then 16 else 8) * |points|))
    case Color(_, _, _, _) => 4
    case Binary(bytes) => CountLength(|bytes|) + |bytes|
    case Array(k, ns) => 4 + Width(k) * |ns|
    case StrArray(ss) => 4 + StringsLength(ss)
    case BoolArray(bs) => 4 + |bs|
  }

  /** A polygon whose length in bytes fits a 32-bit `int`. */
  predicate PolygonFits(v: BinaryValue)
  {
    v.Polygon? ==> 4 + (if v.doubles then 16 else 8) * |v.points| < 0x8000_0000
  }

  /**
    The announced length of every value is the number of bytes written for it,
    except for a polygon of so many points that the computation overflows.
   */
  lemma DataLengthExact(v: BinaryValue)
    requires Holdable(v)
    ensures DataLength(v) == |Data(v)| <==> PolygonFits(v)
    ensures DataLength(v) <= |Data(v)|
  {
    hide ScalarsBytes, PointsBytes, StringsBytes, StringBytes, DynamicCount, BigEndian, BinaryStringLength, Encode;
    match v {
      case Str(encoding, text) =>
        StringLength(encoding);
        StringLength(text);
      case Shape(k, ns) => ScalarsLength(CoordinateKind(IntBased(k)), ns);
      case Polygon(doubles, points) => PointsLength(CoordinateKind(!doubles), points);
      case Binary(bytes) =>
        DynamicCountLength(|bytes|);
        ScalarsLength(U8, bytes);
      case Array(k, ns) => ScalarsLength(k, ns);
      case StrArray(ss) => StringsLengthExact(ss);
      case _ =>
    }
  }

  /** A polygon of 2^28 integer points is announced with a negative length. */
  lemma PolygonTooLong()
    ensures var v := Polygon(false, seq(0x1000_0000, i => (0, 0)));
            Holdable(v) && DataLength(v) == -0x7FFF_FFFC && DataLength(v) != |Data(v)|
  {
    hide Data;
    var v := Polygon(false, seq(0x1000_0000, i => (0, 0)));
    DataLengthExact(v);
  }

  /** The stream constructor of each attribute class, after the name. */
  function ReadData(tag: TypeTag, bs: Bytes): (r: Read<BinaryValue>)
    ensures r.Ok? ==> |r.rest| <= |bs|
  {
    match tag
    case ScalarTag(k) => (match ReadScalar(k, bs) case Ok(n, rest) => Ok(Scalar(k, n), rest) case Fail(f) => Fail(f))
    case BoolTag => (match ReadScalar(U8, bs) case Ok(n, rest) => Ok(Bool(n != 0), rest) case Fail(f) => Fail(f))
    case StrTag => ReadStr(bs)
    case CharTag => (match ReadChar(bs) case Ok(c, rest) => Ok(Char(c), rest) case Fail(f) => Fail(f))
    case LegacyCharTag => (match ReadScalar(U8, bs) case Ok(n, rest) => Ok(Char(n), rest) case Fail(f) => Fail(f))
    case ShapeTag(k) =>
      (match ReadScalars(CoordinateKind(IntBased(k)), CoordinateCount(k), bs)
       case Ok(ns, rest) => Ok(Shape(k, ns), rest)
       case Fail(f) => Fail(f))
    case ColorTag =>
      (match ReadScalar(U32, bs) case Ok(word, rest) => Ok(ColorOfWord(word), rest) case Fail(f) => Fail(f))
    case BinaryTag => ReadBinary(bs)
    case _ => ReadCounted(tag, bs)
  }

  function ReadStr(bs: Bytes): (r: Read<BinaryValue>)
    ensures r.Ok? ==> |r.rest| <= |bs|
  {
    match ReadString(bs)
    case Fail(f) => Fail(f)
    case Ok(encoding, rest) =>
      match ReadString(rest)
      case Fail(f) => Fail(f)
      case Ok(text, left) => Ok(Str(encoding, text), left)
  }

  /** `streamCopy` into the value: a stream that ends early gives a shorter value. */
  function ReadBinary(bs: Bytes): (r: Read<BinaryValue>)
    ensures r.Ok? ==> |r.rest| <= |bs|
  {
    match ReadCount(bs)
    case Fail(f) => Fail(f)
    case Ok(n, rest) =>
      if n < 0 then Fail(NegativeLength)
      else
        var copied := if n > |rest| then |rest| else n;
        Ok(Binary(rest[..copied]), rest[copied..])
  }

  /** The types whose data starts with a 32-bit count; a negative count reads nothing more. */
  function ReadCounted(tag: TypeTag, bs: Bytes): (r: Read<BinaryValue>)
    ensures r.Ok? ==> |r.rest| <= |bs|
  {
    match ReadScalar(S32, bs)
    case Fail(f) => Fail(f)
    case Ok(n, rest) =>
      match tag
      case PolygonTag(doubles) =>
        (match ReadPoints(CoordinateKind(!doubles), n, rest)
         case Ok(points, left) => Ok(Polygon(doubles, points), left)
         case Fail(f) => Fail(f))
      case ArrayTag(k) =>
        (match ReadScalars(k, n, rest) case Ok(ns, left) => Ok(Array(k, ns), left) case Fail(f) => Fail(f))
      case StrArrayTag =>
        (match ReadStrings(n, rest) case Ok(ss, left) => Ok(StrArray(ss), left) case Fail(f) => Fail(f))
      case BoolArrayTag =>
        (match ReadBools(n, rest) case Ok(bools, left) => Ok(BoolArray(bools), left) case Fail(f) => Fail(f))
      case _ => Fail(UnknownType)
  }

  // ----- Reading undoes writing, value by value ---------------------------

  lemma OneByte(n: byte)
    ensures ScalarBytes(U8, n) == [n]
  {
    assert BigEndian(n / 0x100, 0) == [];
  }

  lemma {:induction false} RawBytes(bytes: seq<int>)
    requires AllInRange(U8, bytes)
    ensures ScalarsBytes(U8, bytes) == bytes
  {
    if bytes != [] {
      RawBytes(bytes[1..]);
      OneByte(bytes[0]);
    }
  }

  lemma ReadBinaryOf(bytes: seq<int>, rest: Bytes)
    requires |bytes| < 0x8000_0000_0000_0000 && AllInRange(U8, bytes)
    ensures ReadBinary(DynamicCount(|bytes|) + ScalarsBytes(U8, bytes) + rest) == Ok(Binary(bytes), rest)
  {
    hide DynamicCount, ReadCount, ScalarsBytes;
    var data := ScalarsBytes(U8, bytes);
    RawBytes(bytes);
    ReadCountOf(|bytes|, data + rest);
    assert DynamicCount(|bytes|) + data + rest == DynamicCount(|bytes|) + (data + rest);
    assert (data + rest)[..|bytes|] == data && (data + rest)[|bytes|..] == rest;
  }

  lemma ReadStrOf(encoding: Bytes, text: Bytes, rest: Bytes)
    requires |encoding| < MAX_COUNT && |text| < MAX_COUNT
    ensures ReadStr(StringBytes(encoding) + StringBytes(text) + rest) == Ok(Str(encoding, text), rest)
  {
    hide StringBytes, ReadString;
    assert StringBytes(encoding) + StringBytes(text) + rest == StringBytes(encoding) + (StringBytes(text) + rest);
    ReadStringOf(encoding, StringBytes(text) + rest);
    ReadStringOf(text, rest);
  }

  predicate IsCounted(v: BinaryValue) { v.Polygon? || v.Array? || v.StrArray? || v.BoolArray? }

  lemma ReadCountedOf(v: BinaryValue, rest: Bytes)
    requires Holdable(v) && IsCounted(v)
    ensures ReadCounted(Tag(v), Data(v) + rest) == Ok(v, rest)
  {
    hide ScalarBytes, ReadScalar, ScalarsBytes, ReadScalars, PointsBytes, ReadPoints, StringsBytes, ReadStrings;
    hide BoolsBytes, ReadBools, AllInRange, PointsInRange, ShortStrings;
    match v {
      case Polygon(doubles, points) =>
        var list := PointsBytes(CoordinateKind(!doubles), points);
        CountAhead(|points|, list, rest);
        ReadPointsOf(CoordinateKind(!doubles), points, rest);
      case Array(k, ns) =>
        CountAhead(|ns|, ScalarsBytes(k, ns), rest);
        ReadScalarsOf(k, ns, rest);
      case StrArray(ss) =>
        CountAhead(|ss|, StringsBytes(ss), rest);
        ReadStringsOf(ss, rest);
      case BoolArray(bs) =>
        CountAhead(|bs|, BoolsBytes(bs), rest);
        ReadBoolsOf(bs, rest);
    }
  }

  lemma CountAhead(n: nat, list: Bytes, rest: Bytes)
    requires n < MAX_COUNT
    ensures ReadScalar(S32, ScalarBytes(S32, n) + list + rest) == Ok(n, list + rest)
  {
    hide ScalarBytes, ReadScalar;
    assert ScalarBytes(S32, n) + list + rest == ScalarBytes(S32, n) + (list + rest);
    ReadScalarOf(S32, n, list + rest);
  }

  /** What is written for a value is read back, and nothing after it is touched. */
  lemma ReadDataOf(v: BinaryValue, rest: Bytes)
    requires Holdable(v)
    ensures ReadData(Tag(v), Data(v) + rest) == Ok(v, rest)
  {
    hide ScalarBytes, ReadScalar, ScalarsBytes, ReadScalars, StringBytes, DynamicCount, Encode, ReadChar;
    hide ReadStr, ReadBinary, ReadCounted, AllInRange, ColorWord, ColorOfWord;
    match v {
      case Scalar(k, n) => ReadScalarOf(k, n, rest);
      case Bool(b) =>
        var n := if b then 1 else 0;
        assert ScalarBytes(U8, n) == [n] by { OneByte(n); }
        ReadScalarOf(U8, n, rest);
      case Str(encoding, text) => ReadStrOf(encoding, text, rest);
      case Char(c) => ReadCharOf(c, rest);
      case Shape(k, ns) => ReadScalarsOf(CoordinateKind(IntBased(k)), ns, rest);
      case Color(r, g, b, a) =>
        ColorFields(r, g, b, a);
        ReadScalarOf(U32, ColorWord(r, g, b, a), rest);
      case Binary(bytes) => ReadBinaryOf(bytes, rest);
      case _ => ReadCountedOf(v, rest);
    }
  }

  // ----- What reading takes -----------------------------------------------

  lemma OneMore(w: nat, m: nat)
    ensures w * (1 + m) == w + w * m
  {
  }

  lemma {:induction false} ScalarsTaken(k: ScalarKind, n: int, bs: Bytes)
    ensures match ReadScalars(k, n, bs)
            case Fail(_) => true
            case Ok(ns, rest) => |bs| == |rest| + Width(k) * |ns| && |ns| == if n < 0 then 0 else n
    decreases if n < 0 then 0 else n
  {
    hide ReadWord, Width;
    if n > 0 {
      ReadWordLeft(bs, Width(k), IsSigned(k));
      match ReadScalar(k, bs) {
        case Ok(_, rest) =>
          ScalarsTaken(k, n - 1, rest);
          OneMore(Width(k), if n < 1 then 0 else n - 1);
        case Fail(_) =>
      }
    }
  }

  lemma {:induction false} PointsTaken(k: ScalarKind, n: int, bs: Bytes)
    ensures match ReadPoints(k, n, bs)
            case Fail(_) => true
            case Ok(points, rest) => |bs| == |rest| + 2 * Width(k) * |points|
    decreases if n < 0 then 0 else n
  {
    hide ReadScalars, Width;
    if n > 0 {
      ScalarsTaken(k, 2, bs);
      match ReadScalars(k, 2, bs) {
        case Ok(_, rest) =>
          PointsTaken(k, n - 1, rest);
          if ReadPoints(k, n - 1, rest).Ok? {
            OneMore(2 * Width(k), |ReadPoints(k, n - 1, rest).value|);
          }
        case Fail(_) =>
      }
    }
  }

  lemma {:induction false} BoolsTaken(n: int, bs: Bytes)
    ensures match ReadBools(n, bs) case Fail(_) => true case Ok(bools, rest) => |bs| == |rest| + |bools|
    decreases if n < 0 then 0 else n
  {
    if n > 0 && bs != [] {
      BoolsTaken(n - 1, bs[1..]);
    }
  }

  lemma {:induction false} StringsTaken(n: int, bs: Bytes)
    ensures match ReadStrings(n, bs) case Fail(_) => true case Ok(ss, rest) => |bs| >= |rest| + |StringsBytes(ss)|
    decreases if n < 0 then 0 else n
  {
    hide ReadString, StringBytes;
    if n > 0 {
      StringConsumed(bs);
      match ReadString(bs) {
        case Ok(_, rest) => StringsTaken(n - 1, rest);
        case Fail(_) =>
      }
    }
  }

  /** A character from U+0080 to U+00FF is written in two bytes, but other bytes are read as it one by one. */
  function Savable(v: BinaryValue): nat { if v.Char? && 0x80 <= v.codePoint < 0x100 then 1 else 0 }

  lemma CharTaken(c: CodePoint, bs: Bytes, left: Bytes)
    requires ReadChar(bs) == Ok(c, left)
    ensures |bs| >= |left| + Length(c) - Savable(Char(c))
  {
    var n := StartByteLength(bs[0]);
    if n == 1 {
      assert bs[0] < 0xC0;
    }
  }

  lemma CountedTaken(tag: TypeTag, bs: Bytes, v: BinaryValue, left: Bytes)
    requires Holdable(v) && ReadCounted(tag, bs) == Ok(v, left)
    ensures |bs| >= |left| + |Data(v)|
  {
    hide ReadWord, ReadScalars, ReadPoints, ReadStrings, ReadBools, ScalarsBytes, PointsBytes, StringsBytes;
    hide AllInRange, PointsInRange, ShortStrings;
    ReadWordLeft(bs, 4, true);
    var n, rest := ReadScalar(S32, bs).value, ReadScalar(S32, bs).rest;
    match v {
      case Polygon(doubles, points) =>
        PointsTaken(CoordinateKind(!doubles), n, rest);
        PointsLength(CoordinateKind(!doubles), points);
      case Array(k, ns) =>
        ScalarsTaken(k, n, rest);
        ScalarsLength(k, ns);
      case StrArray(_) => StringsTaken(n, rest);
      case BoolArray(_) => BoolsTaken(n, rest);
    }
  }

  lemma StrTaken(bs: Bytes, v: BinaryValue, left: Bytes)
    requires Holdable(v) && ReadStr(bs) == Ok(v, left)
    ensures |bs| >= |left| + |Data(v)|
  {
    hide ReadString, StringBytes;
    StringConsumed(bs);
    StringConsumed(ReadString(bs).rest);
  }

  lemma BinaryTaken(bs: Bytes, v: BinaryValue, left: Bytes)
    requires Holdable(v) && ReadBinary(bs) == Ok(v, left)
    ensures |bs| >= |left| + |Data(v)|
  {
    hide ReadCount, DynamicCount, ScalarsBytes, AllInRange;
    CountConsumed(bs);
    DynamicCountLength(|v.bytes|);
    ScalarsLength(U8, v.bytes);
  }

  /** Whatever bytes a value is read from, they are no fewer than those written for it, less what it can save. */
  lemma DataTaken(tag: TypeTag, bs: Bytes, v: BinaryValue, left: Bytes)
    requires Holdable(v) && ReadData(tag, bs) == Ok(v, left)
    ensures |bs| >= |left| + |Data(v)| - Savable(v)
  {
    hide ReadWord, ReadScalars, ScalarsBytes, ReadChar, Encode, ReadStr, ReadBinary, ReadCounted;
    hide AllInRange, ColorWord, StringBytes, DynamicCount, PointsBytes, StringsBytes, BigEndian;
    match tag {
      case ScalarTag(k) => ReadWordLeft(bs, Width(k), IsSigned(k));
      case BoolTag => ReadWordLeft(bs, 1, false);
      case StrTag => StrTaken(bs, v, left);
      case CharTag => CharTaken(v.codePoint, bs, left);
      case LegacyCharTag =>
        ReadWordLeft(bs, 1, false);
        ReadWordBound(bs, 1);
        WordSizes();
      case ShapeTag(k) =>
        ScalarsTaken(CoordinateKind(IntBased(k)), CoordinateCount(k), bs);
        ScalarsLength(CoordinateKind(IntBased(k)), v.coordinates);
      case ColorTag => ReadWordLeft(bs, 4, false);
      case BinaryTag => BinaryTaken(bs, v, left);
      case _ => CountedTaken(tag, bs, v, left);
    }
  }
}
