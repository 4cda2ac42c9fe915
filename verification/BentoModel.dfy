/**
  The Bento data hierarchy: named nodes that hold typed, named attributes and
  child nodes.  The element type `T` of names and strings is the byte in the
  binary format and the Unicode character in the text format.
 */
module BentoModel {
  import opened Wrappers

  /** Numeric attribute types; a float, double or instant is its raw fixed-width word. */
  datatype ScalarKind = S8 | U8 | S16 | U16 | S32 | U32 | S64 | U64 | Float | Double | Duration | Instant

  /** Geometry of a fixed number of coordinates, int-based or double-based. */
  datatype ShapeKind = SizeI | PointI | Point3DI | LineI | RectI | SizeD | PointD | Point3DD | LineD | RectD

  predicate IntBased(k: ShapeKind) { k.SizeI? || k.PointI? || k.Point3DI? || k.LineI? || k.RectI? }

  datatype Value<T> =
    | Scalar(kind: ScalarKind, n: int)
    | Bool(b: bool)
    | Str(encoding: seq<T>, text: seq<T>)
    | Char(codePoint: int)
    | Shape(shape: ShapeKind, coordinates: seq<int>)
    | Polygon(doubles: bool, points: seq<(int, int)>)
    | Color(red: int, green: int, blue: int, alpha: int)
    | Binary(bytes: seq<int>)
    | Array(elementKind: ScalarKind, elements: seq<int>)
    | StrArray(strings: seq<seq<T>>)
    | BoolArray(bools: seq<bool>)

  /** The values of the machine word behind a scalar kind; floating-point words count as unsigned. */
  predicate InRange(k: ScalarKind, n: int)
  {
    match k
    case S8 => -0x80 <= n < 0x80
    case U8 => 0 <= n < 0x100
    case S16 => -0x8000 <= n < 0x8000
    case U16 => 0 <= n < 0x1_0000
    case S32 => -0x8000_0000 <= n < 0x8000_0000
    case U32 => 0 <= n < 0x1_0000_0000
    case Float => 0 <= n < 0x1_0000_0000
    case U64 => 0 <= n < 0x1_0000_0000_0000_0000
    case Double => 0 <= n < 0x1_0000_0000_0000_0000
    case _ => -0x8000_0000_0000_0000 <= n < 0x8000_0000_0000_0000
  }

  datatype Attribute<T> = Attribute(name: seq<T>, value: Value<T>)

  datatype Node<T> = Node(name: seq<T>, attributes: seq<Attribute<T>>, children: seq<Node<T>>)

  // ----- Type codes -------------------------------------------------------

  function ScalarCode(k: ScalarKind): string
  {
    match k
    case S8 => "vs_8"
    case U8 => "vu_8"
    case S16 => "vs16"
    case U16 => "vu16"
    case S32 => "vs32"
    case U32 => "vu32"
    case S64 => "vs64"
    case U64 => "vu64"
    case Float => "flot"
    case Double => "doub"
    case Duration => "dura"
    case Instant => "inst"
  }

  function ShapeCode(k: ShapeKind): string
  {
    match k
    case SizeI => "sizi"
    case PointI => "pt_i"
    case Point3DI => "pt3i"
    case LineI => "lini"
    case RectI => "reci"
    case SizeD => "sizd"
    case PointD => "pt_d"
    case Point3DD => "pt3d"
    case LineD => "line"
    case RectD => "recd"
  }

  /** The scalar kinds that have an array type. */
  predicate HasArray(k: ScalarKind) { k.S8? || k.S16? || k.S32? || k.S64? || k.Double? || k.Duration? || k.Instant? }

  function ArrayCode(k: ScalarKind): string
    requires HasArray(k)
  {
    match k
    case S8 => "s8_a"
    case S16 => "s16a"
    case S32 => "s32a"
    case S64 => "s64a"
    case Double => "duba"
    case Duration => "draa"
    case Instant => "insa"
  }

  /** The kind of type a code selects, in the order the readers test them. */
  datatype TypeTag =
    | ScalarTag(kind: ScalarKind) | BoolTag | StrTag | CharTag | LegacyCharTag | ShapeTag(shape: ShapeKind)
    | PolygonTag(doubles: bool) | ColorTag | BinaryTag | ArrayTag(elementKind: ScalarKind) | StrArrayTag | BoolArrayTag

  predicate ValidTag(t: TypeTag) { t.ArrayTag? ==> HasArray(t.elementKind) }

  function Code(t: TypeTag): string
    requires ValidTag(t)
  {
    match t
    case ScalarTag(k) => ScalarCode(k)
    case BoolTag => "bool"
    case StrTag => "vstr"
    case CharTag => "u8ch"
    case LegacyCharTag => "char"
    case ShapeTag(k) => ShapeCode(k)
    case PolygonTag(d) => if d then "pold" else "poli"
    case ColorTag => "rgba"
    case BinaryTag => "bina"
    case ArrayTag(k) => ArrayCode(k)
    case StrArrayTag => "vsta"
    case BoolArrayTag => "booa"
  }

  /** `code` is the four-character code `abcd`. */
  predicate Is(code: string, a: char, b: char, c: char, d: char)
  {
    |code| == 4 && code[0] == a && code[1] == b && code[2] == c && code[3] == d
  }

  function TagOf(code: string): Option<TypeTag>
  {
    if Is(code, 'v', 's', '3', '2') then Some(ScalarTag(S32))
    else if Is(code, 'v', 's', 't', 'r') then Some(StrTag)
    else if Is(code, 'b', 'o', 'o', 'l') then Some(BoolTag)
    else if Is(code, 'u', '8', 'c', 'h') then Some(CharTag)
    else if Is(code, 'c', 'h', 'a', 'r') then Some(LegacyCharTag)
    else if Is(code, 'v', 's', '6', '4') then Some(ScalarTag(S64))
    else if Is(code, 'd', 'o', 'u', 'b') then Some(ScalarTag(Double))
    else if Is(code, 'd', 'u', 'r', 'a') then Some(ScalarTag(Duration))
    else if Is(code, 'i', 'n', 's', 't') then Some(ScalarTag(Instant))
    else if Is(code, 'v', 's', '_', '8') then Some(ScalarTag(S8))
    else if Is(code, 'v', 'u', '_', '8') then Some(ScalarTag(U8))
    else if Is(code, 'v', 's', '1', '6') then Some(ScalarTag(S16))
    else if Is(code, 'v', 'u', '1', '6') then Some(ScalarTag(U16))
    else if Is(code, 'v', 'u', '3', '2') then Some(ScalarTag(U32))
    else if Is(code, 'v', 'u', '6', '4') then Some(ScalarTag(U64))
    else if Is(code, 'f', 'l', 'o', 't') then Some(ScalarTag(Float))
    else if Is(code, 's', 'i', 'z', 'd') then Some(ShapeTag(SizeD))
    else if Is(code, 's', 'i', 'z', 'i') then Some(ShapeTag(SizeI))
    else if Is(code, 'p', 't', '_', 'd') then Some(ShapeTag(PointD))
    else if Is(code, 'p', 't', '_', 'i') then Some(ShapeTag(PointI))
    else if Is(code, 'p', 't', '3', 'd') then Some(ShapeTag(Point3DD))
    else if Is(code, 'p', 't', '3', 'i') then Some(ShapeTag(Point3DI))
    else if Is(code, 'l', 'i', 'n', 'e') then Some(ShapeTag(LineD))
    else if Is(code, 'l', 'i', 'n', 'i') then Some(ShapeTag(LineI))
    else if Is(code, 'r', 'e', 'c', 'd') then Some(ShapeTag(RectD))
    else if Is(code, 'r', 'e', 'c', 'i') then Some(ShapeTag(RectI))
    else if Is(code, 'p', 'o', 'l', 'd') then Some(PolygonTag(true))
    else if Is(code, 'p', 'o', 'l', 'i') then Some(PolygonTag(false))
    else if Is(code, 'r', 'g', 'b', 'a') then Some(ColorTag)
    else if Is(code, 'b', 'i', 'n', 'a') then Some(BinaryTag)
    else if Is(code, 's', '8', '_', 'a') then Some(ArrayTag(S8))
    else if Is(code, 's', '1', '6', 'a') then Some(ArrayTag(S16))
    else if Is(code, 's', '3', '2', 'a') then Some(ArrayTag(S32))
    else if Is(code, 's', '6', '4', 'a') then Some(ArrayTag(S64))
    else if Is(code, 'v', 's', 't', 'a') then Some(StrArrayTag)
    else if Is(code, 'b', 'o', 'o', 'a') then Some(BoolArrayTag)
    else if Is(code, 'd', 'u', 'b', 'a') then Some(ArrayTag(Double))
    else if Is(code, 'd', 'r', 'a', 'a') then Some(ArrayTag(Duration))
    else if Is(code, 'i', 'n', 's', 'a') then Some(ArrayTag(Instant))
    else None
  }

  lemma TagOfScalarCode(k: ScalarKind)
    ensures TagOf(ScalarCode(k)) == Some(ScalarTag(k))
  {
    match k { case S8 => case U8 => case S16 => case U16 => case S32 => case U32 =>
      case S64 => case U64 => case Float => case Double => case Duration => case Instant => }
  }

  lemma TagOfShapeCode(k: ShapeKind)
    ensures TagOf(ShapeCode(k)) == Some(ShapeTag(k))
  {
    match k { case SizeI => case PointI => case Point3DI => case LineI => case RectI =>
      case SizeD => case PointD => case Point3DD => case LineD => case RectD => }
  }

  /** The dispatch on type codes is unambiguous. */
  lemma TagOfCode(t: TypeTag)
    requires ValidTag(t)
    ensures TagOf(Code(t)) == Some(t)
  {
    match t {
      case ScalarTag(k) => TagOfScalarCode(k);
      case ShapeTag(k) => TagOfShapeCode(k);
      case ArrayTag(k) =>
      case PolygonTag(d) =>
      case _ =>
    }
  }

  function Tag<T>(v: Value<T>): TypeTag
  {
    match v
    case Scalar(k, _) => ScalarTag(k)
    case Bool(_) => BoolTag
    case Str(_, _) => StrTag
    case Char(_) => CharTag
    case Shape(k, _) => ShapeTag(k)
    case Polygon(d, _) => PolygonTag(d)
    case Color(_, _, _, _) => ColorTag
    case Binary(_) => BinaryTag
    case Array(k, _) => ArrayTag(k)
    case StrArray(_) => StrArrayTag
    case BoolArray(_) => BoolArrayTag
  }
}
