/**
  The printed text of a tree holds exactly the closing brackets of its names
  and values and one for each attribute.
 */
module BentoPrintedBrackets {
  import opened CStrings
  import opened Counting
  import opened BentoModel
  import opened BentoEscape
  import opened BentoText
  import opened BentoValueLaws
  import opened BentoRoundTrip
  import opened BentoBrackets

  predicate PrintableAttribute(a: TextAttribute)
    ensures PrintableAttribute(a) ==> Textual(a.value)
  {
    NulFree(a.name) && Printable(a.value)
  }

  /** Trees whose names and strings are NUL-free and whose values are worth reading back. */
  predicate PrintableTree(t: TextNode)
    ensures PrintableTree(t) ==> TextualTree(t)
  {
    && NulFree(t.name)
    && (forall i :: 0 <= i < |t.attributes| ==> PrintableAttribute(t.attributes[i]))
    && (forall i :: 0 <= i < |t.children| ==> PrintableTree(t.children[i]))
  }

  lemma {:induction false} EscapedBrackets(s: string)
    ensures Brackets(Escape(s)) == Brackets(s)
  {
    hide Occurs;
    if s != "" {
      EscapedBrackets(s[1..]);
      var front := if IsSpecial(s[0]) then ['\\', s[0]] else [s[0]];
      OccursConcat(front, Escape(s[1..]), ']');
      OccursConcat([s[0]], s[1..], ']');
      assert s == [s[0]] + s[1..];
      OccursAppend("", s[0], ']');
      OccursAppend("", '\\', ']');
      OccursAppend(['\\'], s[0], ']');
      assert "" + [s[0]] == [s[0]] && "" + ['\\'] == ['\\'] && ['\\'] + [s[0]] == ['\\', s[0]];
    }
  }

  lemma PlainBrackets(s: string)
    requires PlainText(s)
    ensures Brackets(s) == 0
  {
    OccursIff(s, ']');
  }

  lemma {:induction false} ReplacedBrackets(s: string)
    ensures Brackets(ReplaceAll(s, "\"", "\\\\\"")) == Brackets(s)
  {
    hide ReplaceAll, Occurs;
    if s == "" {
      EmptyReplaced("\\\\\"");
    } else {
      ReplaceCharacter(s, "\\\\\"");
      ReplacedBrackets(s[1..]);
      OccursConcat(if s[0] == '"' then "\\\\\"" else [s[0]], ReplaceAll(s[1..], "\"", "\\\\\""), ']');
      OccursConcat([s[0]], s[1..], ']');
      assert s == [s[0]] + s[1..];
      OccursIff("\\\\\"", ']');
      OccursIff("\"", ']');
    }
  }

  lemma QuotedBrackets(s: string)
    requires NulFree(s)
    ensures Brackets(QuotedText(s)) == Brackets(s)
  {
    hide Occurs, ReplaceAll, ReplaceFrom;
    var inner := ReplaceAll(s, "\"", "\\\\\"");
    ReplaceFromStart(s, "\"", "\\\\\"");
    ReplacedBrackets(s);
    OccursConcat("\"" + inner, "\"", ']');
    OccursConcat("\"", inner, ']');
    OccursIff("\"", ']');
  }

  lemma {:induction false} JoinedBrackets(ss: seq<string>)
    requires forall i :: 0 <= i < |ss| ==> NulFree(ss[i])
    ensures Brackets(Join(QuotedTexts(ss))) == OccursAll(ss, ']')
  {
    hide Occurs, QuotedText;
    var parts := QuotedTexts(ss);
    OccursIff("", ']');
    if ss != [] {
      QuotedBrackets(ss[0]);
      assert parts[1..] == QuotedTexts(ss[1..]);
      JoinedBrackets(ss[1..]);
      if |ss| > 1 {
        var rest := Join(parts[1..]);
        assert Join(parts) == parts[0] + ([','] + rest);
        OccursConcat(parts[0], [','] + rest, ']');
        OccursConcat([','], rest, ']');
        OccursIff([','], ']');
      }
    }
  }

  /** Text between two delimiters that are no brackets. */
  lemma Enclosed(open: string, s: string, close: string)
    requires Brackets(open) == 0 && Brackets(close) == 0
    ensures Brackets(open + s + close) == Brackets(s)
  {
    hide Occurs;
    OccursConcat(open + s, close, ']');
    OccursConcat(open, s, ']');
  }

  lemma Delimiters()
    ensures Brackets("\"") == 0 && Brackets("'") == 0 && Brackets("(") == 0 && Brackets(")") == 0 && Brackets("") == 0
    ensures Brackets("=") == 0 && Brackets("[") == 0 && Brackets(" ") == 0 && Brackets("{") == 0 && Brackets("}") == 0
    ensures Brackets("]") == 1
  {
    assert "]"[1..] == "";
    hide Occurs;
    OccursIff("\"", ']');
    OccursIff("'", ']');
    OccursIff("(", ']');
    OccursIff(")", ']');
    OccursIff("", ']');
    OccursIff("=", ']');
    OccursIff("[", ']');
    OccursIff(" ", ']');
    OccursIff("{", ']');
    OccursIff("}", ']');
  }

  lemma StringForm(encoding: string, text: string)
    requires NulFree(encoding) && NulFree(text)
    ensures QuotedValueText(Str(encoding, text))
         == (if encoding == "" then "" else "(" + encoding + ")") + ("\"" + Escape(text) + "\"")
  {
    hide Escape, CStr, NulFree, Textual;
    EscapeNulFree(text);
    var qualifier, quoted := if encoding == "" then "" else "(" + encoding + ")", "\"" + Escape(text) + "\"";
    assert qualifier + "\"" + Escape(text) + "\"" == qualifier + quoted;
  }

  lemma StringTextBrackets(encoding: string, text: string)
    requires NulFree(encoding) && NulFree(text)
    ensures Brackets(QuotedValueText(Str(encoding, text))) == Brackets(encoding) + Brackets(text)
  {
    hide Occurs, Escape, CStr, QuotedValueText, NulFree;
    Delimiters();
    StringForm(encoding, text);
    EscapedBrackets(text);
    Enclosed("(", encoding, ")");
    Enclosed("\"", Escape(text), "\"");
    OccursConcat(if encoding == "" then "" else "(" + encoding + ")", "\"" + Escape(text) + "\"", ']');
  }

  lemma CharTextBrackets(v: TextValue)
    requires Textual(v) && v.Char?
    ensures Brackets(QuotedValueText(v)) == ValueBrackets(v)
  {
    hide Occurs, Escape, CStr;
    var s := [v.codePoint as char];
    Delimiters();
    EscapedBrackets(s);
    OccursAppend("", s[0], ']');
    assert "" + [s[0]] == s;
    Enclosed("'", CStr(Escape(s)), "'");
    if v.codePoint == 0 {
      CStrBrackets(Escape(s));
    } else {
      EscapeNulFree(s);
    }
  }

  lemma ValueTextBrackets(v: TextValue)
    requires Printable(v)
    ensures Brackets(QuotedValueText(v)) == ValueBrackets(v)
  {
    hide Occurs, OccursAll, Escape, CStr, ValueText, Join, QuotedText;
    Delimiters();
    if v.Str? {
      StringTextBrackets(v.encoding, v.text);
    } else if v.Char? {
      CharTextBrackets(v);
    } else if v.StrArray? {
      var text := Join(QuotedTexts(v.strings));
      assert ValueText(v) == text by { ArrayText(v); }
      forall i | 0 <= i < |v.strings| ensures NulFree(QuotedText(v.strings[i])) { QuotedNulFree(v.strings[i]); }
      JoinedNulFree(QuotedTexts(v.strings));
      JoinedBrackets(v.strings);
      Enclosed("'", text, "'");
    } else {
      ValuePlain(v);
      PlainSurvives(ValueText(v));
      PlainBrackets(ValueText(v));
      Enclosed("\"", ValueText(v), "\"");
    }
  }

  lemma ArrayText(v: TextValue)
    requires Textual(v) && v.StrArray?
    ensures ValueText(v) == Join(QuotedTexts(v.strings))
  {
  }

  lemma TypeTextBrackets(v: TextValue)
    requires Printable(v)
    ensures Brackets(TypeText(v)) == 0
  {
    hide Occurs, Escape, CStr, Code;
    Delimiters();
    if !TypeIsInferred(v) {
      assert ValidTag(Tag(v)) by { PrintableTag(v); }
      CodePlain(Tag(v));
      PlainSurvives(Code(Tag(v)));
      PlainBrackets(Code(Tag(v)));
      Enclosed("(", Code(Tag(v)), ")");
    }
  }

  lemma PrintableTag(v: TextValue)
    requires Printable(v)
    ensures ValidTag(Tag(v))
  {
  }

  lemma AttributeTextBrackets(a: TextAttribute)
    requires PrintableAttribute(a)
    ensures Brackets(AttributeText(a)) == AttributeBrackets(a)
  {
    assert Textual(a.value);
    hide Occurs, Escape, CStr, TypeText, QuotedValueText, ValueBrackets;
    var name, t, v := Escape(a.name), TypeText(a.value), QuotedValueText(a.value);
    Delimiters();
    EscapeNulFree(a.name);
    EscapedBrackets(a.name);
    TypeTextBrackets(a.value);
    ValueTextBrackets(a.value);
    OccursConcat("[", "\"" + (name + ("\"" + (t + ("=" + (v + "]"))))), ']');
    OccursConcat("\"", name + ("\"" + (t + ("=" + (v + "]")))), ']');
    OccursConcat(name, "\"" + (t + ("=" + (v + "]"))), ']');
    OccursConcat("\"", t + ("=" + (v + "]")), ']');
    OccursConcat(t, "=" + (v + "]"), ']');
    OccursConcat("=", v + "]", ']');
    OccursConcat(v, "]", ']');
  }

  lemma {:induction false} AttributesTextBrackets(attributes: seq<TextAttribute>)
    requires forall i :: 0 <= i < |attributes| ==> PrintableAttribute(attributes[i])
    ensures forall i :: 0 <= i < |attributes| ==> Textual(attributes[i].value)
    ensures Brackets(AttributesText(attributes)) == AttributesBrackets(attributes)
  {
    forall i | 0 <= i < |attributes| ensures Textual(attributes[i].value) { assert PrintableAttribute(attributes[i]); }
    hide Occurs, AttributeText, AttributeBrackets, Printable;
    Delimiters();
    if attributes != [] {
      AttributeTextBrackets(attributes[0]);
      AttributesTextBrackets(attributes[1..]);
      OccursConcat(AttributeText(attributes[0]), " " + AttributesText(attributes[1..]), ']');
      OccursConcat(" ", AttributesText(attributes[1..]), ']');
    }
  }

  lemma LayoutBrackets(layout: Layout, depth: int)
    requires SkippableLayout(layout)
    ensures Brackets(layout.Line()) == 0 && Brackets(layout.Indent(depth)) == 0
  {
    hide Occurs;
    OccursIff(layout.lineEnd, ']');
    OccursIff("", ']');
    SpacesSkippable(depth);
    OccursIff(Spaces(depth), ']');
  }

  lemma {:induction false} NodeTextBrackets(t: TextNode, layout: Layout, depth: int)
    requires PrintableTree(t) && SkippableLayout(layout)
    ensures Brackets(BodyText(t, layout, depth)) == NodeBrackets(t)
    ensures Brackets(NodeText(t, layout, depth)) == NodeBrackets(t)
    decreases t, 1
  {
    hide Occurs, Escape, CStr, AttributesText, AttributesBrackets, ChildrenText, NodesBrackets, Printable, Spaces;
    var name, attributes := Escape(t.name), AttributesText(t.attributes);
    var children := ChildrenText(t.children, layout, depth + 1);
    var gap := if t.children == [] then "" else layout.Line() + layout.Indent(depth);
    Delimiters();
    LayoutBrackets(layout, depth);
    EscapeNulFree(t.name);
    EscapedBrackets(t.name);
    AttributesTextBrackets(t.attributes);
    ChildrenTextBrackets(t.children, layout, depth + 1);
    OccursConcat(layout.Line(), layout.Indent(depth), ']');
    OccursConcat(gap, "}", ']');
    OccursConcat(children, gap + "}", ']');
    OccursConcat(attributes, children + (gap + "}"), ']');
    var afterName := attributes + (children + (gap + "}"));
    OccursConcat("\" ", afterName, ']');
    OccursConcat(name, "\" " + afterName, ']');
    OccursConcat(" \"", name + ("\" " + afterName), ']');
    OccursIff("\" ", ']');
    OccursIff(" \"", ']');
    var body := BodyText(t, layout, depth);
    assert body == " \"" + (name + ("\" " + afterName));
    OccursConcat("{", body, ']');
    OccursConcat(layout.Indent(depth), "{" + body, ']');
    OccursConcat(layout.Line(), layout.Indent(depth) + ("{" + body), ']');
  }

  lemma {:induction false} ChildrenTextBrackets(ts: seq<TextNode>, layout: Layout, depth: int)
    requires SkippableLayout(layout) && forall i :: 0 <= i < |ts| ==> PrintableTree(ts[i])
    ensures forall i :: 0 <= i < |ts| ==> TextualTree(ts[i])
    ensures Brackets(ChildrenText(ts, layout, depth)) == NodesBrackets(ts)
    decreases ts, 0
  {
    forall i | 0 <= i < |ts| ensures TextualTree(ts[i]) { assert PrintableTree(ts[i]); }
    hide Occurs, NodeText, NodeBrackets, PrintableTree;
    Delimiters();
    if ts != [] {
      NodeTextBrackets(ts[0], layout, depth);
      ChildrenTextBrackets(ts[1..], layout, depth);
      OccursConcat(NodeText(ts[0], layout, depth), " " + ChildrenText(ts[1..], layout, depth), ']');
      OccursConcat(" ", ChildrenText(ts[1..], layout, depth), ']');
    }
  }
}
