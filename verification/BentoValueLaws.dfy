/**
  Printing and reading one attribute value: the numeric, boolean, geometry and
  array texts contain nothing that needs escaping, and reading them gives the
  value back.
 */
module BentoValueLaws {
  import opened Wrappers
  import opened CStrings
  import opened Decimal
  import opened BentoModel
  import opened BentoEscape
  import opened BentoText
  import opened BentoTextValues

  /** Characters that mean nothing to the escapes, to C strings or to the parser inside an unquoted value. */
  predicate Plain(c: char) { !IsSpecial(c) && c != ']' && ' ' < c && c as int != 0x7F }

  predicate PlainText(s: string) { forall i :: 0 <= i < |s| ==> Plain(s[i]) }

  lemma PlainSurvives(s: string)
    requires PlainText(s)
    ensures CStr(s) == s && Escape(s) == s && Unescape(s) == s
  {
    hide CStr, Unescape;
    assert NulFree(s) && Settled(s);
    EscapePlain(s);
    UnescapeFixes(s);
  }

  lemma PrintPlain(n: int)
    ensures PlainText(Print(n))
  {
    hide Print;
    PrintShape(n);
  }

  lemma {:induction false} FormatPlain(ns: seq<int>, separators: string)
    requires |ns| == |separators| + 1 && PlainText(separators)
    ensures PlainText(FormatInts(ns, separators))
  {
    hide Print;
    PrintPlain(ns[0]);
    if separators != "" {
      FormatPlain(ns[1..], separators[1..]);
    }
  }

  lemma {:induction false} PolygonPlain(points: seq<(int, int)>)
    ensures PlainText(PolygonText(points))
  {
    hide FormatInts;
    if points != [] {
      FormatPlain([points[0].0, points[0].1], ",");
      PolygonPlain(points[1..]);
    }
  }

  lemma {:induction false} JoinPlain(parts: seq<string>)
    requires forall i :: 0 <= i < |parts| ==> PlainText(parts[i])
    ensures PlainText(Join(parts))
  {
    if |parts| > 1 {
      JoinPlain(parts[1..]);
    }
  }

  /** The values whose text needs no escaping. */
  predicate IsPlainValue(v: TextValue) { !v.Str? && !v.Char? && !v.StrArray? }

  lemma ValuePlain(v: TextValue)
    requires Textual(v) && IsPlainValue(v)
    ensures PlainText(ValueText(v))
  {
    hide Print, FormatInts, PolygonText, Join;
    match v {
      case Scalar(k, n) => PrintPlain(n);
      case Shape(k, ns) => FormatPlain(ns, Separators(k));
      case Polygon(_, points) => PolygonPlain(points);
      case Color(r, g, b, a) => FormatPlain([r, g, b, a], ",,,");
      case Array(k, ns) =>
        forall i | 0 <= i < |ns| ensures PlainText(ScalarText(k, ns[i])) { PrintPlain(ns[i]); }
        JoinPlain(ElementTexts(k, ns));
      case BoolArray(bs) => JoinPlain(BoolTexts(bs));
      case Bool(_) =>
    }
  }

  // ----- Reading back -----------------------------------------------------

  /** Values with a modelled text form whose numbers are in the range of the type that holds them. */
  predicate Fitting(v: TextValue)
  {
    && Textual(v)
    && match v
       case Scalar(k, n) => InRange(k, n)
       case Shape(_, ns) => forall i :: 0 <= i < |ns| ==> IsS32(ns[i])
       case Polygon(_, points) => forall i :: 0 <= i < |points| ==> IsS32(points[i].0) && IsS32(points[i].1)
       case Color(r, g, b, a) => 0 <= r < 256 && 0 <= g < 256 && 0 <= b < 256 && 0 <= a < 256
       case Array(k, ns) => forall i :: 0 <= i < |ns| ==> InRange(k, ns[i])
       case _ => true
  }

  /** No closing parenthesis, which would end the encoding of a string early. */
  predicate NoParenthesis(s: string) { forall i :: 0 <= i < |s| ==> s[i] != ')' }

  /** Values that text can carry: NUL-free strings, encodings without parentheses, no empty array but of strings. */
  predicate Carried(v: TextValue)
  {
    match v
    case Str(encoding, text) => NulFree(encoding) && NulFree(text) && NoParenthesis(encoding)
    case Array(_, ns) => ns != []
    case BoolArray(bs) => bs != []
    case StrArray(ss) => forall i :: 0 <= i < |ss| ==> NulFree(ss[i])
    case _ => true
  }

  predicate Printable(v: TextValue) { Fitting(v) && Carried(v) }

  /** The values that come back from their text, strings unescaped once more. */
  predicate Readable(v: TextValue) { Printable(v) && (v.StrArray? ==> AllUnquotable(v.strings)) }

  /** Elements of string arrays that keep their content: no NUL, backslash or apostrophe. */
  predicate Unquotable(s: string) { forall i :: 0 <= i < |s| ==> s[i] != '\0' && s[i] != '\\' && s[i] != '\'' }

  predicate AllUnquotable(ss: seq<string>) { forall i :: 0 <= i < |ss| ==> Unquotable(ss[i]) }

  lemma CastInRange(k: ScalarKind, n: int)
    requires InRange(k, n) && !k.Float? && !k.Double?
    ensures Cast(k, n) == n
  {
  }

  lemma ReadScalarText(k: ScalarKind, n: int)
    requires InRange(k, n) && !k.Float? && !k.Double? && !k.Instant?
    ensures ReadScalar(k, ScalarText(k, n)) == Success(Scalar(k, n))
  {
    hide Print, ParseSigned, ParseUnsigned, Cast, Durations.ReadDuration, ToS64;
    CastInRange(k, n);
    ParseSignedPrint(n);
    if k.Duration? {
      Durations.ReadCount(n, 1);
    }
  }

  lemma FindSkip(c: char, s: string, target: char)
    requires c != target
    ensures Find([c] + s, target) == if Find(s, target) < 0 then -1 else Find(s, target) + 1
  {
    assert ([c] + s)[1..] == s;
  }

  lemma {:induction false} ReadPointsSkip(c: char, s: string)
    requires c != '('
    ensures ReadPoints([c] + s) == ReadPoints(s)
  {
    hide ScanInts, Find;
    FindSkip(c, s, '(');
    var open := Find(s, '(');
    if open >= 0 {
      assert ([c] + s)[open + 1..] == s[open..];
      var close := Find(s[open..], ')');
      if close >= 0 {
        assert ([c] + s)[open + 2..open + 1 + close] == s[open + 1..open + close];
        assert ([c] + s)[open + 1 + close..] == s[open + close..];
      }
    }
  }

  lemma {:induction false} ReadPolygonText(points: seq<(int, int)>)
    requires forall i :: 0 <= i < |points| ==> IsS32(points[i].0) && IsS32(points[i].1)
    ensures ReadPoints(PolygonText(points)) == Some(points)
  {
    if points != [] {
      var ns := [points[0].0, points[0].1];
      ReadPolygonText(points[1..]);
      ReadFirstPoint(ns, PolygonText(points[1..]));
      assert [points[0]] + points[1..] == points;
    }
  }

  lemma ReadFirstPoint(ns: seq<int>, rest: string)
    requires |ns| == 2 && IsS32(ns[0]) && IsS32(ns[1])
    ensures ReadPoints("(" + FormatInts(ns, ",") + ")" + rest)
         == match ReadPoints(rest) case None => None case Some(more) => Some([(ns[0], ns[1])] + more)
  {
    hide ScanInts, FormatInts, Find;
    var inner := FormatInts(ns, ",");
    PointChars(ns);
    ScanFormat(ns, ",");
    PointParts(inner, rest);
    ReadPointsSkip(')', rest);
  }

  lemma PointParts(inner: string, rest: string)
    requires forall i :: 0 <= i < |inner| ==> inner[i] != '(' && inner[i] != ')'
    ensures var s := "(" + inner + ")" + rest;
            && Find(s, '(') == 0 && s[0..] == s && Find(s, ')') == |inner| + 1
            && s[1..|inner| + 1] == inner && s[|inner| + 1..] == [')'] + rest
  {
    hide Find;
    var s := "(" + inner + ")" + rest;
    FindIs(s, '(', 0);
    FindIs(s, ')', |inner| + 1);
  }

  lemma PointChars(ns: seq<int>)
    requires |ns| == 2
    ensures var t := FormatInts(ns, ","); forall i :: 0 <= i < |t| ==> t[i] != '(' && t[i] != ')'
  {
    hide Print;
    PrintShape(ns[0]);
    PrintShape(ns[1]);
    assert FormatInts(ns[1..], "") == Print(ns[1]);
    assert ","[1..] == "";
  }

  /** Splitting at commas undoes joining with commas. */
  lemma {:induction false} SplitJoin(parts: seq<string>)
    requires parts != []
    requires forall i :: 0 <= i < |parts| ==> forall j :: 0 <= j < |parts[i]| ==> parts[i][j] != ','
    ensures SplitCommas(Join(parts)) == parts
  {
    hide Find;
    if |parts| == 1 {
      FindNone(parts[0], ',');
    } else {
      var s, rest := Join(parts), Join(parts[1..]);
      SplitJoin(parts[1..]);
      FindIs(s, ',', |parts[0]|);
      assert s[..|parts[0]|] == parts[0] && s[|parts[0]| + 1..] == rest;
      assert [parts[0]] + parts[1..] == parts;
    }
  }

  lemma {:induction false} ReadElementTexts(k: ScalarKind, ns: seq<int>)
    requires !k.Float? && !k.Double? && forall i :: 0 <= i < |ns| ==> InRange(k, ns[i])
    ensures ReadElements(k, ElementTexts(k, ns)) == Some(ns)
  {
    hide ScanInt, Print, Cast;
    if ns != [] {
      ScanPrint(ns[0], if k.Duration? then "ms" else "");
      assert ScalarText(k, ns[0]) == Print(ns[0]) + (if k.Duration? then "ms" else "");
      CastInRange(k, ns[0]);
      assert ElementTexts(k, ns)[1..] == ElementTexts(k, ns[1..]);
      ReadElementTexts(k, ns[1..]);
      assert [ns[0]] + ns[1..] == ns;
    }
  }

  lemma ReadBoolText(b: bool)
    ensures Durations.EqualsIgnoreCase(CStr(BoolText(b)), "true") == b
  {
    assert NulFree("true") && NulFree("false");
  }

  lemma {:induction false} ReadBoolTexts(bs: seq<bool>)
    ensures ReadBools(BoolTexts(bs)) == bs
  {
    hide Durations.EqualsIgnoreCase, CStr, BoolText;
    if bs != [] {
      assert BoolTexts(bs)[1..] == BoolTexts(bs[1..]);
      ReadBoolTexts(bs[1..]);
      ReadBoolText(bs[0]);
      assert [bs[0]] + bs[1..] == bs;
    }
  }

  /** Reading the text of a value that needs no escaping gives the value back. */
  lemma ReadPlainValue(v: TextValue, qualifier: string)
    requires Readable(v) && IsPlainValue(v)
    ensures ReadTagged(Tag(v), ValueText(v), qualifier) == Success(v)
  {
    hide ReadScalar, ScalarText, ScanInts, FormatInts, ReadPoints, PolygonText;
    hide SplitCommas, Join, ReadElements, ReadBools, CStr;
    match v {
      case Scalar(k, n) => ReadScalarText(k, n);
      case Shape(k, ns) => ScanFormat(ns, Separators(k));
      case Polygon(_, points) => ReadPolygonText(points);
      case Color(r, g, b, a) => ScanFormat([r, g, b, a], ",,,");
      case Array(k, ns) =>
        ElementsCommaFree(k, ns);
        SplitJoin(ElementTexts(k, ns));
        ReadElementTexts(k, ns);
      case BoolArray(bs) =>
        SplitJoin(BoolTexts(bs));
        ReadBoolTexts(bs);
      case Bool(b) => assert NulFree(BoolText(b));
    }
  }

  lemma ElementsCommaFree(k: ScalarKind, ns: seq<int>)
    ensures var parts := ElementTexts(k, ns);
            forall i :: 0 <= i < |parts| ==> forall j :: 0 <= j < |parts[i]| ==> parts[i][j] != ','
  {
    hide Print;
    forall i | 0 <= i < |ns|
      ensures var t := ScalarText(k, ns[i]); forall j :: 0 <= j < |t| ==> t[j] != ','
    {
      PrintShape(ns[i]);
    }
  }

  // ----- String arrays ----------------------------------------------------

  /** An element after the parser has taken out one level of escapes: one backslash before each inner quote. */
  function OnceQuoted(s: string): string { "\"" + (ReplaceAll(s, "\"", "\\\"") + "\"") }

  function OnceQuotedTexts(ss: seq<string>): seq<string> { seq(|ss|, i requires 0 <= i < |ss| => OnceQuoted(ss[i])) }

  /** Replacing a one-character text works character by character. */
  lemma ReplaceCharacter(s: string, replacement: string)
    requires s != ""
    ensures ReplaceAll(s, "\"", replacement)
         == (if s[0] == '"' then replacement else [s[0]]) + ReplaceAll(s[1..], "\"", replacement)
  {
    hide ReplaceAll, Occurrences;
    ReplaceHead(s, "\"", replacement);
    assert "\"" <= s <==> s[0] == '"';
  }

  lemma RunStringsStep(r: Strings, c: char, rest: string)
    requires StringsStep(r, c).Some?
    ensures RunStrings(r, [c] + rest) == RunStrings(StringsStep(r, c).value, rest)
  {
    assert ([c] + rest)[1..] == rest;
  }

  /** Inside an element, its escaped text is collected as the element itself. */
  predicate NoBackslash(s: string) { forall i :: 0 <= i < |s| ==> s[i] != '\\' }

  lemma {:induction false} RunElementText(r: Strings, s: string, rest: string)
    requires r.state == InElement && NoBackslash(s)
    ensures RunStrings(r, ReplaceAll(s, "\"", "\\\"") + rest) == RunStrings(r.(pending := r.pending + s), rest)
    decreases |s|
  {
    hide ReplaceAll, RunStrings;
    if s == "" {
      assert r.pending + s == r.pending;
      assert ReplaceAll("", "\"", "\\\"") + rest == rest by { EmptyReplaced("\\\""); }
    } else {
      var next := r.(pending := r.pending + [s[0]]);
      var tail := ReplaceAll(s[1..], "\"", "\\\"") + rest;
      ReplaceCharacter(s, "\\\"");
      RunElementText(next, s[1..], rest);
      assert next.pending + s[1..] == r.pending + s;
      if s[0] == '"' {
        RunStringsStep(r, '\\', ['"'] + tail);
        RunStringsStep(r.(state := EscapePending), '"', tail);
        assert ReplaceAll(s, "\"", "\\\"") + rest == ['\\'] + (['"'] + tail);
      } else {
        RunStringsStep(r, s[0], tail);
        assert ReplaceAll(s, "\"", "\\\"") + rest == [s[0]] + tail;
      }
    }
  }

  lemma EmptyReplaced(replacement: string)
    ensures ReplaceAll("", "\"", replacement) == ""
  {
  }

  lemma RunQuoted(acc: seq<string>, s: string, rest: string)
    requires NoBackslash(s)
    ensures RunStrings(Strings(InArray, "", acc), OnceQuoted(s) + rest)
         == RunStrings(Strings(ElementEnded, "", acc + [s]), rest)
  {
    hide ReplaceAll, RunStrings;
    var inner := ReplaceAll(s, "\"", "\\\"");
    assert OnceQuoted(s) + rest == ['"'] + (inner + (['"'] + rest));
    RunStringsStep(Strings(InArray, "", acc), '"', inner + (['"'] + rest));
    RunElementText(Strings(InElement, "", acc), s, ['"'] + rest);
    assert "" + s == s;
    RunStringsStep(Strings(InElement, s, acc), '"', rest);
  }

  lemma {:induction false} RunJoined(acc: seq<string>, ss: seq<string>)
    requires ss != [] && forall i :: 0 <= i < |ss| ==> NoBackslash(ss[i])
    ensures RunStrings(Strings(InArray, "", acc), Join(OnceQuotedTexts(ss)))
         == Some(Strings(ElementEnded, "", acc + ss))
    decreases |ss|
  {
    hide RunStrings, OnceQuoted, NoBackslash;
    var parts := OnceQuotedTexts(ss);
    if |ss| == 1 {
      RunQuoted(acc, ss[0], "");
      RunStringsNothing(Strings(ElementEnded, "", acc + [ss[0]]));
      assert parts[0] + "" == parts[0] && [ss[0]] == ss;
    } else {
      var rest := Join(parts[1..]);
      assert parts[1..] == OnceQuotedTexts(ss[1..]);
      assert Join(parts) == parts[0] + ([','] + rest);
      RunQuoted(acc, ss[0], [','] + rest);
      RunStringsStep(Strings(ElementEnded, "", acc + [ss[0]]), ',', rest);
      RunJoined(acc + [ss[0]], ss[1..]);
      assert (acc + [ss[0]]) + ss[1..] == acc + ss;
    }
  }

  lemma RunStringsNothing(r: Strings)
    ensures RunStrings(r, "") == Some(r)
  {
  }

  /** The reader of string arrays undoes element quoting with one backslash per inner quote. */
  lemma ReadQuotedStrings(ss: seq<string>)
    requires forall i :: 0 <= i < |ss| ==> NoBackslash(ss[i])
    ensures ReadStrings(Join(OnceQuotedTexts(ss))) == Some(ss)
  {
    hide RunStrings, OnceQuoted, NoBackslash;
    if ss == [] {
      RunStringsNothing(Strings(InArray, "", []));
    } else {
      RunJoined([], ss);
      assert [] + ss == ss;
    }
  }
}
