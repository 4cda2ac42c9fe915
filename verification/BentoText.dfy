/**
  The Bento text format: how attribute values and whole trees are printed, and
  how the text of one value is read back.  Names and strings are sequences of
  Unicode characters.
 */
module BentoText {
  import opened CStrings
  import opened Decimal
  import opened BentoModel
  import opened BentoEscape

  type TextValue = Value<char>
  type TextAttribute = Attribute<char>
  type TextNode = Node<char>

  // ----- Values as text ---------------------------------------------------

  function ScalarText(k: ScalarKind, n: int): string { if k.Duration? then Print(n) + "ms" else Print(n) }

  /** The characters between the coordinates of an int-based shape. */
  function Separators(k: ShapeKind): string
  {
    match k
    case Point3DI => ",,"
    case LineI => ",:,"
    case RectI => ",:*"
    case _ => ","
  }

  function FormatInts(ns: seq<int>, separators: string): string
    requires |ns| == |separators| + 1
  {
    if separators == "" then Print(ns[0]) else Print(ns[0]) + ([separators[0]] + FormatInts(ns[1..], separators[1..]))
  }

  function PolygonText(points: seq<(int, int)>): string
  {
    if points == [] then "" else "(" + FormatInts([points[0].0, points[0].1], ",") + ")" + PolygonText(points[1..])
  }

  /** Elements separated by commas. */
  function Join(parts: seq<string>): string
  {
    if parts == [] then "" else if |parts| == 1 then parts[0] else parts[0] + "," + Join(parts[1..])
  }

  function ElementTexts(k: ScalarKind, ns: seq<int>): seq<string> { seq(|ns|,
                        i requires 0 <= i < |ns| => ScalarText(k, ns[i])) }

  function BoolText(b: bool): string { if b then "true" else "false" }

  function BoolTexts(bs: seq<bool>): seq<string> { seq(|bs|, i requires 0 <= i < |bs| => BoolText(bs[i])) }

  /** An element of a string array: quoted, with each inner quote preceded by two backslashes. */
  function QuotedText(s: string): string { "\"" + ReplaceFrom(s, "\"", "\\\\\"", 0) + "\"" }

  function QuotedTexts(ss: seq<string>): seq<string> { seq(|ss|, i requires 0 <= i < |ss| => QuotedText(ss[i])) }

  /** The values whose text form is modelled: no floating-point numbers, instants or binary data. */
  predicate Textual(v: TextValue)
  {
    match v
    case Scalar(k, _) => !k.Float? && !k.Double? && !k.Instant?
    case Char(c) => 0 <= c < 0xD800 || 0xE000 <= c < 0x11_0000
    case Shape(k, ns) => IntBased(k) && |ns| == |Separators(k)| + 1
    case Polygon(doubles, _) => !doubles
    case Binary(_) => false
    case Array(k, _) => k.S8? || k.S16? || k.S32? || k.S64? || k.Duration?
    case _ => true
  }

  /** `getValueAsBentoTextString` of each attribute class. */
  function ValueText(v: TextValue): string
    requires Textual(v)
  {
    match v
    case Scalar(k, n) => ScalarText(k, n)
    case Bool(b) => BoolText(b)
    case Str(_, text) => text
    case Char(c) => [c as char]
    case Shape(k, ns) => FormatInts(ns, Separators(k))
    case Polygon(_, points) => PolygonText(points)
    case Color(r, g, b, a) => FormatInts([r, g, b, a], ",,,")
    case Array(k, ns) => Join(ElementTexts(k, ns))
    case StrArray(ss) => Join(QuotedTexts(ss))
    case BoolArray(bs) => Join(BoolTexts(bs))
  }

  // ----- Attributes and nodes as text -------------------------------------

  /** String, character, 32-bit integer and boolean attributes are printed without their type. */
  predicate TypeIsInferred(v: TextValue)
  {
    match v
    case Str(_, _) => true
    case Char(_) => true
    case Bool(_) => true
    case Scalar(k, _) => k.S32?
    case _ => false
  }

  function TypeText(v: TextValue): string
    requires Textual(v)
  {
    if TypeIsInferred(v) then "" else "(" + CStr(Escape(Code(Tag(v)))) + ")"
  }

  /** The value between `=` and `]`, with its quotes and, for a string, its encoding. */
  function QuotedValueText(v: TextValue): string
    requires Textual(v)
  {
    var text := ValueText(v);
    match v
    case Str(encoding, _) =>
      (if encoding == "" then "" else "(" + CStr(encoding) + ")") + "\"" + CStr(Escape(text)) + "\""
    case Char(_) => "'" + CStr(Escape(text)) + "'"
    case StrArray(_) => "'" + CStr(text) + "'"
    case _ => if TypeIsInferred(v) then CStr(text) else "\"" + CStr(Escape(text)) + "\""
  }

  function AttributeText(a: TextAttribute): string
    requires Textual(a.value)
  {
    "[" + ("\"" + (CStr(Escape(a.name)) + ("\"" + (TypeText(a.value) + ("=" + (QuotedValueText(a.value) + "]"))))))
  }

  /** Every attribute of the tree has a modelled text form. */
  predicate TextualTree(t: TextNode)
  {
    && (forall i :: 0 <= i < |t.attributes| ==> Textual(t.attributes[i].value))
    && (forall i :: 0 <= i < |t.children| ==> TextualTree(t.children[i]))
  }

  function Spaces(depth: int): string
    decreases if depth < 0 then 0 else depth
  {
    if depth <= 0 then "" else " " + Spaces(depth - 1)
  }

  /** How a tree is laid out: on one line, or over several lines that end in `lineEnd`. */
  datatype Layout = Layout(lineWrap: bool, lineEnd: string)
  {
    function Line(): string { if lineWrap then lineEnd else "" }
    function Indent(depth: int): string { if lineWrap then Spaces(depth) else "" }
  }

  function AttributesText(attributes: seq<TextAttribute>): string
    requires forall i :: 0 <= i < |attributes| ==> Textual(attributes[i].value)
  {
    if attributes == [] then "" else AttributeText(attributes[0]) + (" " + AttributesText(attributes[1..]))
  }

  function ChildrenText(children: seq<TextNode>, layout: Layout, depth: int): string
    requires forall i :: 0 <= i < |children| ==> TextualTree(children[i])
  {
    if children == [] then ""
    else NodeText(children[0], layout, depth) + (" " + ChildrenText(children[1..], layout, depth))
  }

  /** What follows the opening brace of a node. */
  function BodyText(t: TextNode, layout: Layout, depth: int): string
    requires TextualTree(t)
    decreases t, 0
  {
    " \"" + (CStr(Escape(t.name)) + ("\" "
      + (AttributesText(t.attributes) + (ChildrenText(t.children, layout, depth + 1)
      + ((if t.children == [] then "" else layout.Line() + layout.Indent(depth)) + "}")))))
  }

  function NodeText(t: TextNode, layout: Layout, depth: int): string
    requires TextualTree(t)
    decreases t, 1
  {
    layout.Line() + (layout.Indent(depth) + ("{" + BodyText(t, layout, depth)))
  }
}
