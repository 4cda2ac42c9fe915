/**
  The texts themselves: what each value and each attribute is printed as,
  spelled out, and which texts `sscanf` reads as numbers between given
  separators.
 */
module BentoTextForms {
  import opened Wrappers
  import opened CStrings
  import opened Decimal
  import opened BentoModel
  import opened BentoEscape
  import opened BentoText
  import opened BentoTextValues
  import opened BentoValueLaws
  import opened BentoRoundTrip

  // ----- Values -----------------------------------------------------------

  lemma ScalarForm(k: ScalarKind, n: int)
    requires !k.Float? && !k.Double? && !k.Instant?
    ensures ValueText(Scalar(k, n)) == if k == Duration then Print(n) + "ms" else Print(n)
  {
  }

  lemma BoolForm()
    ensures ValueText(Bool(true)) == "true" && ValueText(Bool(false)) == "false"
  {
  }

  /** Every character but the surrogates is printed as itself. */
  lemma CharForm(c: int)
    ensures 0 <= c <= 0xD7FF || 0xE000 <= c <= 0x10_FFFF ==> ValueText(Char(c)) == [c as char]
    ensures 0xD800 <= c <= 0xDFFF ==> !Textual(Char(c))
  {
  }

  lemma Ints2(a: int, b: int, s: char)
    ensures FormatInts([a, b], [s]) == Print(a) + [s] + Print(b)
  {
    hide Print;
    assert FormatInts([b], "") == Print(b);
    assert [a, b][1..] == [b] && [s][1..] == "";
  }

  lemma Ints3(a: int, b: int, c: int, s: char, t: char)
    ensures FormatInts([a, b, c], [s, t]) == Print(a) + [s] + Print(b) + [t] + Print(c)
  {
    hide Print, FormatInts;
    Ints2(b, c, t);
    assert [a, b, c] == [a] + [b, c] && [s, t] == [s] + [t];
    IntsStep(a, [b, c], s, [t]);
    assert Print(a) + ([s] + (Print(b) + [t] + Print(c))) == Print(a) + [s] + Print(b) + [t] + Print(c);
  }

  lemma Ints4(a: int, b: int, c: int, d: int, s: char, t: char, u: char)
    ensures FormatInts([a, b, c, d], [s, t, u]) == Print(a) + [s] + Print(b) + [t] + Print(c) + [u] + Print(d)
  {
    hide Print, FormatInts;
    Ints3(b, c, d, t, u);
    assert [a, b, c, d] == [a] + [b, c, d] && [s, t, u] == [s] + [t, u];
    IntsStep(a, [b, c, d], s, [t, u]);
    Regroup(Print(a), [s], Print(b), [t], Print(c), [u], Print(d));
  }

  lemma IntsStep(a: int, ns: seq<int>, s: char, separators: string)
    requires |ns| == |separators| + 1
    ensures FormatInts([a] + ns, [s] + separators) == Print(a) + ([s] + FormatInts(ns, separators))
  {
    hide Print;
    assert ([a] + ns)[1..] == ns && ([s] + separators)[1..] == separators;
  }

  lemma Regroup(a: string, b: string, c: string, d: string, e: string, f: string, g: string)
    ensures a + (b + (c + d + e + f + g)) == a + b + c + d + e + f + g
  {
  }

  /** Sizes and points are pairs with a comma; lines and rectangles have a colon between their two halves. */
  lemma ShapeForm(x: int, y: int, z: int, w: int)
    ensures ValueText(Shape(SizeI, [x, y])) == Print(x) + "," + Print(y)
    ensures ValueText(Shape(PointI, [x, y])) == Print(x) + "," + Print(y)
    ensures ValueText(Shape(Point3DI, [x, y, z])) == Print(x) + "," + Print(y) + "," + Print(z)
    ensures ValueText(Shape(LineI, [x, y, z, w])) == Print(x) + "," + Print(y) + ":" + Print(z) + "," + Print(w)
    ensures ValueText(Shape(RectI, [x, y, z, w])) == Print(x) + "," + Print(y) + ":" + Print(z) + "*" + Print(w)
  {
    hide Print, FormatInts;
    Ints2(x, y, ',');
    Ints3(x, y, z, ',', ',');
    Ints4(x, y, z, w, ',', ':', ',');
    Ints4(x, y, z, w, ',', ':', '*');
  }

  lemma ColorForm(r: int, g: int, b: int, a: int)
    ensures ValueText(Color(r, g, b, a)) == Print(r) + "," + Print(g) + "," + Print(b) + "," + Print(a)
  {
    hide Print, FormatInts;
    Ints4(r, g, b, a, ',', ',', ',');
  }

  lemma PolygonForm(x: int, y: int, points: seq<(int, int)>)
    ensures ValueText(Polygon(false, [])) == ""
    ensures ValueText(Polygon(false, [(x, y)] + points))
         == "(" + Print(x) + "," + Print(y) + ")" + ValueText(Polygon(false, points))
  {
    hide Print, FormatInts;
    Ints2(x, y, ',');
    assert ([(x, y)] + points)[1..] == points;
    assert "(" + (Print(x) + "," + Print(y)) + ")" == "(" + Print(x) + "," + Print(y) + ")";
  }

  /** Arrays: the elements with a comma between them. */
  lemma ArrayForm(k: ScalarKind, n: int, ns: seq<int>)
    requires k in {S8, S16, S32, S64, Duration}
    ensures ValueText(Array(k, [])) == "" && ValueText(Array(k, [n])) == ValueText(Scalar(k, n))
    ensures ns != [] ==> ValueText(Array(k, [n] + ns)) == ValueText(Scalar(k, n)) + "," + ValueText(Array(k, ns))
  {
    hide Print;
    assert ElementTexts(k, [n] + ns)[1..] == ElementTexts(k, ns);
  }

  lemma BoolArrayForm(b: bool, bs: seq<bool>)
    ensures ValueText(BoolArray([])) == "" && ValueText(BoolArray([b])) == (if b then "true" else "false")
    ensures bs != [] ==>
              ValueText(BoolArray([b] + bs)) == (if b then "true" else "false") + "," + ValueText(BoolArray(bs))
  {
    assert BoolTexts([b] + bs)[1..] == BoolTexts(bs);
  }

  /** Elements of a string array stand in double quotes, each of their own with two backslashes in front. */
  lemma StringArrayForm(s: string, ss: seq<string>)
    ensures ValueText(StrArray([])) == ""
    ensures NulFree(s) ==> ValueText(StrArray([s])) == "\"" + ReplaceAll(s, "\"", "\\\\\"") + "\""
    ensures ss != [] ==> ValueText(StrArray([s] + ss)) == ValueText(StrArray([s])) + "," + ValueText(StrArray(ss))
  {
    hide ReplaceFrom, ReplaceAll;
    assert QuotedTexts([s] + ss)[1..] == QuotedTexts(ss);
    if NulFree(s) {
      ReplaceFromStart(s, "\"", "\\\\\"");
    }
  }

  // ----- Attributes -------------------------------------------------------

  function ScalarType(k: ScalarKind): string
  {
    match k
    case S8 => "(vs_8)"
    case U8 => "(vu_8)"
    case S16 => "(vs16)"
    case U16 => "(vu16)"
    case U32 => "(vu32)"
    case S64 => "(vs64)"
    case U64 => "(vu64)"
    case Duration => "(dura)"
    case _ => ""
  }

  function ShapeType(k: ShapeKind): string
  {
    match k
    case SizeI => "(sizi)"
    case PointI => "(pt_i)"
    case Point3DI => "(pt3i)"
    case LineI => "(lini)"
    case _ => "(reci)"
  }

  function ArrayType(k: ScalarKind): string
  {
    match k
    case S8 => "(s8_a)"
    case S16 => "(s16a)"
    case S32 => "(s32a)"
    case S64 => "(s64a)"
    case _ => "(draa)"
  }

  /** The type in front of the equals sign: none for strings, characters, 32-bit integers and booleans. */
  function TypeForm(v: TextValue): string
    requires Textual(v)
  {
    match v
    case Scalar(k, _) => ScalarType(k)
    case Shape(k, _) => ShapeType(k)
    case Polygon(_, _) => "(poli)"
    case Color(_, _, _, _) => "(rgba)"
    case Array(k, _) => ArrayType(k)
    case StrArray(_) => "(vsta)"
    case BoolArray(_) => "(booa)"
    case _ => ""
  }

  lemma ScalarSpelled(k: ScalarKind)
    requires !k.Float? && !k.Double? && !k.Instant?
    ensures ScalarType(k) == if k.S32? then "" else "(" + ScalarCode(k) + ")"
  {
  }

  lemma ShapeSpelled(k: ShapeKind)
    requires IntBased(k)
    ensures ShapeType(k) == "(" + ShapeCode(k) + ")"
  {
  }

  lemma ArraySpelled(k: ScalarKind)
    requires k in {S8, S16, S32, S64, Duration}
    ensures ArrayType(k) == "(" + ArrayCode(k) + ")"
  {
  }

  lemma TypeSpelled(v: TextValue)
    requires Textual(v) && ValidTag(Tag(v))
    ensures TypeText(v) == TypeForm(v)
  {
    hide Escape, CStr, TypeForm, Code, Tag;
    CodeSpelled(v);
    if !TypeIsInferred(v) {
      CodePlain(Tag(v));
      PlainSurvives(Code(Tag(v)));
    }
  }

  lemma CodeSpelled(v: TextValue)
    requires Textual(v) && ValidTag(Tag(v))
    ensures TypeForm(v) == if TypeIsInferred(v) then "" else "(" + Code(Tag(v)) + ")"
  {
    hide ScalarCode, ShapeCode, ArrayCode, ScalarType, ShapeType, ArrayType;
    match v {
      case Scalar(k, _) => ScalarSpelled(k);
      case Shape(k, _) => ShapeSpelled(k);
      case Array(k, _) => ArraySpelled(k);
      case _ =>
    }
  }

  /** What stands between the equals sign and the closing bracket. */
  lemma ValueSpelled(v: TextValue)
    requires Textual(v)
    ensures v.Bool? || (v.Scalar? && v.kind == S32) ==> QuotedValueText(v) == ValueText(v)
    ensures v.Scalar? && v.kind != S32 ==> QuotedValueText(v) == "\"" + ValueText(v) + "\""
    ensures v.Shape? || v.Polygon? || v.Color? || v.Array? || v.BoolArray? ==>
              QuotedValueText(v) == "\"" + ValueText(v) + "\""
    ensures v.Str? && NulFree(v.encoding) && NulFree(v.text) ==>
              QuotedValueText(v)
              == (if v.encoding == "" then "" else "(" + v.encoding + ")") + "\"" + Escape(v.text) + "\""
    ensures v.Char? && v.codePoint != 0 ==> QuotedValueText(v) == "'" + Escape([v.codePoint as char]) + "'"
    ensures v == Char(0) ==> QuotedValueText(v) == "''"
    ensures v.StrArray? ==> QuotedValueText(v) == "'" + CStr(ValueText(v)) + "'"
  {
    hide Escape, CStr, ScalarText, FormatInts, PolygonText, Join;
    if IsPlainValue(v) {
      ValuePlain(v);
      PlainIsPlain(ValueText(v));
    } else if v.Str? && NulFree(v.text) {
      EscapeNulFree(v.text);
    } else if v == Char(0) {
      EscapePlain("\0");
      CutAtNul();
      assert [0 as char] == "\0";
    } else if v.Char? {
      EscapeNulFree([v.codePoint as char]);
    }
  }

  lemma CutAtNul()
    ensures CStr("\0") == ""
  {
  }

  lemma PlainIsPlain(s: string)
    requires PlainText(s)
    ensures Escape(s) == s && CStr(s) == s
  {
    EscapePlain(s);
  }

  /** An attribute: bracket, quoted name, type, equals sign, value, bracket. */
  lemma AttributeForm(a: TextAttribute)
    requires Textual(a.value) && ValidTag(Tag(a.value)) && NulFree(a.name)
    ensures AttributeText(a)
         == "[\"" + Escape(a.name) + "\"" + TypeForm(a.value) + "=" + QuotedValueText(a.value) + "]"
  {
    hide Escape, CStr, TypeText, TypeForm, QuotedValueText;
    TypeSpelled(a.value);
    EscapeNulFree(a.name);
    RegroupAttribute(Escape(a.name), TypeForm(a.value), QuotedValueText(a.value));
  }

  lemma RegroupAttribute(name: string, t: string, value: string)
    ensures "[" + ("\"" + (name + ("\"" + (t + ("=" + (value + "]")))))) == "[\"" + name + "\"" + t + "=" + value + "]"
  {
    assert "[" + ("\"" + (name + ("\"" + (t + ("=" + (value + "]"))))))
        == "[\"" + (name + ("\"" + (t + ("=" + (value + "]")))));
  }

  // ----- Which texts are read ---------------------------------------------

  /**
    Numbers, each as `%d` takes it, with the separators between them and the
    rest behind; the values wrap to 32 bits.
   */
  ghost predicate Spells(s: string, ns: seq<int>, separators: string)
    decreases |separators|
  {
    exists i, n ::
      && 0 <= i <= |s| && NumberTo(s, i, n) && ns != [] && ns[0] == ToS32(n)
      && if separators == "" then |ns| == 1
         else i < |s| && s[i] == separators[0] && Spells(s[i + 1..], ns[1..], separators[1..])
  }

  /** The first number ends at `i` and is `n`. */
  predicate NumberTo(s: string, i: int, n: int) { 0 <= i <= |s| && IntToken(s[..i], n) && NoDigitAhead(s[i..]) }

  lemma NumberExactly(s: string, i: int, n: int)
    requires 0 <= i <= |s|
    ensures NumberTo(s, i, n) <==> ScanInt(s) == Some((n, s[i..]))
  {
    hide ScanInt, IntToken, NoDigitAhead;
    ScanIntExactly(s, n, s[i..]);
    assert Before(s, s[i..]) == s[..i] && s[|s| - |s[i..]|..] == s[i..];
  }

  lemma ScannedFrom(s: string)
    requires ScanInt(s).Some?
    ensures var n, rest := ScanInt(s).value.0, ScanInt(s).value.1;
            |rest| <= |s| && rest == s[|s| - |rest|..] && NumberTo(s, |s| - |rest|, n)
  {
    hide ScanInt, IntToken, NoDigitAhead;
    var n, rest := ScanInt(s).value.0, ScanInt(s).value.1;
    ScanIntExactly(s, n, rest);
    NumberExactly(s, |s| - |rest|, n);
  }

  /** `sscanf` with `%d` and separators reads exactly such texts. */
  lemma {:induction false} ScanExactly(s: string, ns: seq<int>, separators: string)
    ensures ScanInts(s, separators) == Some(ns) <==> Spells(s, ns, separators)
    decreases |separators|, 2
  {
    hide ScanInts, Spells;
    if ScanInts(s, separators) == Some(ns) {
      ScannedSpells(s, ns, separators);
    }
    if Spells(s, ns, separators) {
      SpelledScans(s, ns, separators);
    }
  }

  lemma {:induction false} ScannedSpells(s: string, ns: seq<int>, separators: string)
    requires ScanInts(s, separators) == Some(ns)
    ensures Spells(s, ns, separators)
    decreases |separators|, 1
  {
    hide ScanInt, NumberTo, ToS32;
    ScannedFrom(s);
    var n, rest := ScanInt(s).value.0, ScanInt(s).value.1;
    var i := |s| - |rest|;
    if separators == "" {
      assert NumberTo(s, i, n);
    } else {
      ScannedSpells(rest[1..], ns[1..], separators[1..]);
      assert s[i] == rest[0] && s[i + 1..] == rest[1..];
      assert NumberTo(s, i, n);
    }
  }

  lemma {:induction false} SpelledScans(s: string, ns: seq<int>, separators: string)
    requires Spells(s, ns, separators)
    ensures ScanInts(s, separators) == Some(ns)
    decreases |separators|, 1
  {
    hide ScanInt, NumberTo, ToS32;
    var i, n :|
      && 0 <= i <= |s| && NumberTo(s, i, n) && ns != [] && ns[0] == ToS32(n)
      && if separators == "" then |ns| == 1
         else i < |s| && s[i] == separators[0] && Spells(s[i + 1..], ns[1..], separators[1..]);
    NumberExactly(s, i, n);
    if separators == "" {
      assert ns == [ToS32(n)];
    } else {
      SpelledScans(s[i + 1..], ns[1..], separators[1..]);
      assert s[i..][0] == s[i] && s[i..][1..] == s[i + 1..] && ns == [ns[0]] + ns[1..];
    }
  }

  /** Which texts the reader accepts for each int-based shape, and what it makes of them. */
  lemma ShapeReadExactly(s: string, ns: seq<int>, q: string)
    ensures ReadTagged(ShapeTag(SizeI), s, q) == Success(Shape(SizeI, ns)) <==> Spells(s, ns, ",")
    ensures ReadTagged(ShapeTag(PointI), s, q) == Success(Shape(PointI, ns)) <==> Spells(s, ns, ",")
    ensures ReadTagged(ShapeTag(Point3DI), s, q) == Success(Shape(Point3DI, ns)) <==> Spells(s, ns, ",,")
    ensures ReadTagged(ShapeTag(LineI), s, q) == Success(Shape(LineI, ns)) <==> Spells(s, ns, ",:,")
    ensures ReadTagged(ShapeTag(RectI), s, q) == Success(Shape(RectI, ns)) <==> Spells(s, ns, ",:*")
  {
    hide ScanInts, Spells;
    ScanExactly(s, ns, ",");
    ScanExactly(s, ns, ",,");
    ScanExactly(s, ns, ",:,");
    ScanExactly(s, ns, ",:*");
  }

  /** A colour is read from four numbers with commas, each brought into the range of a byte. */
  lemma ColorReadExactly(s: string, v: TextValue, q: string)
    ensures ReadTagged(ColorTag, s, q) == Success(v)
       <==> exists ns :: |ns| == 4 && Spells(s, ns, ",,,")
                      && v == Color(ByteOf(ns[0]), ByteOf(ns[1]), ByteOf(ns[2]), ByteOf(ns[3]))
  {
    hide ScanInts, Spells;
    if ReadTagged(ColorTag, s, q) == Success(v) {
      ScanExactly(s, ScanInts(s, ",,,").value, ",,,");
    }
    forall ns | |ns| == 4 && Spells(s, ns, ",,,")
      ensures ScanInts(s, ",,,") == Some(ns)
    {
      ScanExactly(s, ns, ",,,");
    }
  }

  function ByteOf(n: int): int { if n <= 0 then 0 else if n >= 255 then 255 else n }

  /** A rectangle at (1, 2) of size 3 by 4, as it is printed and read. */
  lemma Rectangle()
    ensures ValueText(Shape(RectI, [1, 2, 3, 4])) == "1,2:3*4"
    ensures ReadTagged(ShapeTag(RectI), "1,2:3*4", "") == Success(Shape(RectI, [1, 2, 3, 4]))
  {
    hide ReadTagged, FormatInts;
    ShapeForm(1, 2, 3, 4);
    assert Print(1) == "1" && Print(2) == "2" && Print(3) == "3" && Print(4) == "4";
    ReadPlainValue(Shape(RectI, [1, 2, 3, 4]), "");
  }

  // ----- Booleans and durations -------------------------------------------

  predicate Letter(c: char, lower: char, upper: char) { c == lower || c == upper }

  /** An element of a boolean array is true exactly if it is `true` in letters of either case. */
  lemma BoolReadExactly(s: string)
    requires NulFree(s)
    ensures ReadBools([s])
         == [|s| == 4 && Letter(s[0], 't', 'T') && Letter(s[1], 'r', 'R') && Letter(s[2], 'u', 'U')
             && Letter(s[3], 'e', 'E')]
  {
    hide Durations.EqualsIgnoreCase, CStr;
    assert ReadBools([s][1..]) == [];
    Durations.IgnoreCaseExactly(s, "true");
    if |s| == 4 {
      FourLetters(s);
    }
  }

  lemma FourLetters(s: string)
    requires |s| == 4
    ensures Durations.EqualsIgnoreCase(s, "true")
       <==> Letter(s[0], 't', 'T') && Letter(s[1], 'r', 'R') && Letter(s[2], 'u', 'U') && Letter(s[3], 'e', 'E')
  {
    var t := "true";
    assert t[0] == 't' && t[1] == 'r' && t[2] == 'u' && t[3] == 'e';
  }

  /** Boolean arrays are read element by element, what stands between commas. */
  lemma BoolArrayReadExactly(s: string, t: string, q: string)
    requires forall i :: 0 <= i < |s| ==> s[i] != ','
    ensures ReadTagged(BoolArrayTag, s, q) == Success(BoolArray(ReadBools([s])))
    ensures match ReadTagged(BoolArrayTag, t, q)
            case Success(v) =>
              v.BoolArray? && ReadTagged(BoolArrayTag, s + "," + t, q) == Success(BoolArray(ReadBools([s]) + v.bools))
            case Failure(_) => false
  {
    hide Durations.EqualsIgnoreCase, CStr, SplitCommas;
    SplitStep(s, t);
    FirstBool(s, SplitCommas(t));
  }

  lemma FirstBool(s: string, rest: seq<string>)
    ensures ReadBools([s] + rest) == ReadBools([s]) + ReadBools(rest)
  {
    hide Durations.EqualsIgnoreCase, CStr;
    assert ([s] + rest)[1..] == rest && [s][1..] == [];
  }

  lemma SplitStep(s: string, t: string)
    requires forall i :: 0 <= i < |s| ==> s[i] != ','
    ensures SplitCommas(s) == [s] && SplitCommas(s + "," + t) == [s] + SplitCommas(t)
  {
    hide Find;
    FindNone(s, ',');
    FindIs(s + "," + t, ',', |s|);
    assert (s + "," + t)[..|s|] == s && (s + "," + t)[|s| + 1..] == t;
  }

  /** Without a type, the words in lower case are booleans. */
  lemma InferredBool(q: string)
    ensures ReadValue("", "true", q) == Success(Bool(true)) && ReadValue("", "false", q) == Success(Bool(false))
  {
    hide ReadScalar, Unescape, CStr;
    assert NulFree("true") && NulFree("false");
  }

  /**
    Every other text without a quote or a parenthesis in front, and not the name
    of an instant, is a 32-bit integer, or throws.
   */
  lemma InferredNumber(s: string, q: string)
    requires NulFree(s) && s !in {"true", "false", "NOW", "NEVER", "PAST", "FUTURE"}
    requires s == "" || s[0] !in {'"', '(', '\''}
    ensures ReadValue("", s, q)
         == match ParseSigned(s) case None => Failure(Malformed) case Some(n) => Success(Scalar(S32, ToS32(n)))
  {
    hide ParseSigned, Unescape, CStr, ToS32;
  }

  /** A text in quotes is a string or a character, and loses one level of escapes. */
  lemma InferredQuoted(s: string, q: string)
    requires NulFree(s)
    ensures ReadValue("", "\"" + s + "\"", q) == Success(Str(q, Unescape(s)))
    ensures ReadValue("", "'" + s + "'", q)
         == Success(Char(if Unescape(s) == "" then 0 else Unescape(s)[0] as int))
  {
    hide ReadScalar, Unescape, CStr;
    assert ("\"" + s + "\"")[1..|s| + 1] == s && ("'" + s + "'")[1..|s| + 1] == s;
    assert NulFree("\"" + s + "\"") && NulFree("'" + s + "'");
  }

  // ----- Ranges -----------------------------------------------------------

  /** The casts take a number to the one of its type that differs by a multiple of the type's size. */
  lemma CastExactly(n: int, j: int)
    ensures -0x80 <= n < 0x80 ==> Cast(S8, n + j * 0x100) == n
    ensures 0 <= n < 0x100 ==> Cast(U8, n + j * 0x100) == n
    ensures -0x8000 <= n < 0x8000 ==> Cast(S16, n + j * 0x1_0000) == n
    ensures 0 <= n < 0x1_0000 ==> Cast(U16, n + j * 0x1_0000) == n
    ensures 0 <= n < 0x1_0000_0000 ==> Cast(U32, n + j * 0x1_0000_0000) == n
    ensures -0x8000_0000 <= n < 0x8000_0000 ==> Cast(S32, n + j * 0x1_0000_0000) == n
    ensures -0x8000_0000_0000_0000 <= n < 0x8000_0000_0000_0000 ==> Cast(S64, n + j * 0x1_0000_0000_0000_0000) == n
    ensures 0 <= n < 0x1_0000_0000_0000_0000 ==> Cast(U64, n + j * 0x1_0000_0000_0000_0000) == n
  {
    hide ToS32, ToS64, ToU64;
    WordsExactly(n, j);
    Multiple8(n + 0x80, j);
    Multiple8(n, j);
    Multiple16(n + 0x8000, j);
    Multiple16(n, j);
    Multiple32(n, j);
  }

  lemma Multiple8(n: int, j: int)
    ensures (n + j * 0x100) % 0x100 == n % 0x100
  {
  }

  lemma Multiple16(n: int, j: int)
    ensures (n + j * 0x1_0000) % 0x1_0000 == n % 0x1_0000
  {
  }

  lemma Multiple32(n: int, j: int)
    ensures (n + j * 0x1_0000_0000) % 0x1_0000_0000 == n % 0x1_0000_0000
  {
  }

  /** The values whose numbers fit are those that no conversion to the type of the number changes. */
  lemma FittingExactly(v: TextValue)
    requires Textual(v)
    ensures Fitting(v)
       <==> match v
            case Scalar(k, n) => Cast(k, n) == n
            case Array(k, ns) => forall i :: 0 <= i < |ns| ==> Cast(k, ns[i]) == ns[i]
            case Shape(_, ns) => forall i :: 0 <= i < |ns| ==> ToS32(ns[i]) == ns[i]
            case Polygon(_, ps) => forall i :: 0 <= i < |ps| ==> ToS32(ps[i].0) == ps[i].0 && ToS32(ps[i].1) == ps[i].1
            case Color(r, g, b, a) => ByteOf(r) == r && ByteOf(g) == g && ByteOf(b) == b && ByteOf(a) == a
            case _ => true
  {
    hide ToS32, Cast, InRange;
    forall k: ScalarKind, n: int | !k.Float? && !k.Double? && !k.Instant?
      ensures InRange(k, n) <==> Cast(k, n) == n
    {
      InRangeIsCast(k, n);
    }
    forall n ensures IsS32(n) <==> ToS32(n) == n { Bounds(n); }
  }

  lemma InRangeIsCast(k: ScalarKind, n: int)
    requires !k.Float? && !k.Double? && !k.Instant?
    ensures InRange(k, n) <==> Cast(k, n) == n
  {
    hide ToS32, ToS64, ToU64;
    Bounds(n);
  }

  // ----- Blanks in string arrays ------------------------------------------

  /** Behind an element exactly the characters up to U+0020 and U+007F are passed over; others but `,` and `"` throw. */
  lemma ElementBlank(r: Strings, c: char)
    requires r.state in {ElementEnded, Done} && (r.state == ElementEnded ==> c != ',' && c != '"')
    ensures StringsStep(r, c) == if c as int <= 0x20 || c as int == 0x7F then Some(r) else None
  {
  }

  // ----- Typed texts ------------------------------------------------------

  /** With their type given, strings are the text, characters its first one or NUL, booleans true for `true` alone. */
  lemma TypedText(s: string, q: string)
    ensures ReadTagged(StrTag, s, q) == Success(Str(q, s))
    ensures ReadTagged(CharTag, "", q) == Success(Char(0))
    ensures s != "" ==> ReadTagged(CharTag, s, q) == Success(Char(s[0] as int))
    ensures NulFree(s) ==> ReadTagged(BoolTag, s, q) == Success(Bool(s == "true"))
  {
    hide CStr;
  }

  /** Numbers with a type are parsed as 64-bit numbers, signed or unsigned, and cast. */
  lemma TypedNumber(k: ScalarKind, s: string, q: string)
    ensures k in {S8, S16, S32, S64} ==>
              ReadTagged(ScalarTag(k), s, q)
              == match ParseSigned(s) case None => Failure(Malformed) case Some(n) => Success(Scalar(k, Cast(k, n)))
    ensures k in {U8, U16, U32, U64} ==>
              ReadTagged(ScalarTag(k), s, q)
              == match ParseUnsigned(s) case None => Failure(Malformed) case Some(n) => Success(Scalar(k, Cast(k, n)))
  {
    hide ParseSigned, ParseUnsigned, Cast;
  }

  // ----- Polygons ---------------------------------------------------------

  lemma {:induction false} ScanCount(s: string, separators: string)
    ensures match ScanInts(s, separators) case None => true case Some(ns) => |ns| == |separators| + 1
    decreases |separators|
  {
    hide ScanInt, ToS32;
    if separators != "" && ScanInt(s).Some? && ScanInt(s).value.1 != "" {
      ScanCount(ScanInt(s).value.1[1..], separators[1..]);
    }
  }

  /**
    A polygon is read from what stands in parentheses, each time two numbers with
    a comma between them.
   */
  lemma PolygonReadExactly(inner: string, rest: string)
    requires forall i :: 0 <= i < |inner| ==> inner[i] != '(' && inner[i] != ')'
    ensures ReadPoints("(" + inner + ")" + rest)
         == match ScanInts(inner, ",")
            case None => None
            case Some(xy) =>
              match ReadPoints(rest) case None => None case Some(more) => Some([(xy[0], xy[1])] + more)
    ensures (forall i :: 0 <= i < |rest| ==> rest[i] != '(') ==> ReadPoints(rest) == Some([])
  {
    hide ScanInts, Find;
    ScanCount(inner, ",");
    PointParts(inner, rest);
    ReadPointsSkip(')', rest);
    if forall i :: 0 <= i < |rest| ==> rest[i] != '(' {
      FindNone(rest, '(');
    }
  }
}
