/**
  What no text leads to: NULs, a parenthesis in an encoding, an empty array of
  numbers or booleans.  The parser keeps all that it holds free of them, so
  that the condition for the round trip extends to every tree whose numbers
  fit their types.
 */
module BentoSurvival {
  import opened Wrappers
  import opened CStrings
  import opened BentoModel
  import opened BentoEscape
  import opened BentoText
  import opened BentoTextValues
  import opened BentoValueLaws
  import opened BentoParsing
  import opened BentoRoundTrip
  import opened BentoPrintedBrackets
  import opened BentoTextRoundTrip

  predicate CarriedAttribute(a: TextAttribute) { NulFree(a.name) && Carried(a.value) }

  predicate CarriedTree(t: TextNode)
  {
    && NulFree(t.name)
    && (forall i :: 0 <= i < |t.attributes| ==> CarriedAttribute(t.attributes[i]))
    && (forall i :: 0 <= i < |t.children| ==> CarriedTree(t.children[i]))
  }

  predicate FittingTree(t: TextNode)
    ensures FittingTree(t) ==> TextualTree(t)
  {
    && (forall i :: 0 <= i < |t.attributes| ==> Fitting(t.attributes[i].value))
    && (forall i :: 0 <= i < |t.children| ==> FittingTree(t.children[i]))
  }

  lemma {:induction false} FittingAndCarried(t: TextNode)
    requires FittingTree(t)
    ensures PrintableTree(t) <==> CarriedTree(t)
  {
    hide Fitting, Carried, NulFree;
    forall i | 0 <= i < |t.children|
      ensures PrintableTree(t.children[i]) <==> CarriedTree(t.children[i])
    {
      FittingAndCarried(t.children[i]);
    }
    assert forall i :: 0 <= i < |t.attributes| ==>
             (PrintableAttribute(t.attributes[i]) <==> CarriedAttribute(t.attributes[i]));
  }

  // ----- Values -----------------------------------------------------------

  lemma InnerNulFree(s: string)
    requires NulFree(s)
    ensures NulFree(Inner(s)) && NulFree(Unescape(s)) && NulFree(Unescape(Inner(s)))
  {
    hide Unescape;
    UnescapedNulFree(s);
    UnescapedNulFree(Inner(s));
  }

  lemma {:induction false} ElementCount(k: ScalarKind, parts: seq<string>)
    requires ReadElements(k, parts) != None
    ensures |ReadElements(k, parts).value| == |parts|
  {
    hide Cast;
    if parts != [] {
      ElementCount(k, parts[1..]);
    }
  }

  predicate StringsNulFree(r: Strings)
  {
    NulFree(r.pending) && forall i :: 0 <= i < |r.result| ==> NulFree(r.result[i])
  }

  lemma {:induction false} RunStringsNulFree(r: Strings, s: string)
    requires StringsNulFree(r) && NulFree(s) && RunStrings(r, s) != None
    ensures StringsNulFree(RunStrings(r, s).value)
    decreases |s|
  {
    if s != "" {
      var next := StringsStep(r, s[0]).value;
      StringsStepNulFree(r, s[0]);
      RunStringsNulFree(next, s[1..]);
    }
  }

  lemma StringsStepNulFree(r: Strings, c: char)
    requires StringsNulFree(r) && c != '\0' && StringsStep(r, c) != None
    ensures StringsNulFree(StringsStep(r, c).value)
  {
  }

  lemma TaggedCarried(tag: TypeTag, s: string, qualifier: string)
    requires NulFree(s) && NulFree(qualifier) && NoParenthesis(qualifier)
    requires ReadTagged(tag, s, qualifier).Success?
    ensures Carried(ReadTagged(tag, s, qualifier).value)
  {
    hide ReadScalar, ScanInts, ReadPoints, ReadElements, SplitCommas, RunStrings, ReadBools;
    hide CStr, NulFree, NoParenthesis;
    match tag {
      case ScalarTag(k) => ScalarCarried(k, s);
      case ArrayTag(k) =>
        if ReadElements(k, SplitCommas(s)) != None {
          ElementCount(k, SplitCommas(s));
        }
      case StrArrayTag =>
        if RunStrings(Strings(InArray, "", []), s) != None {
          NothingNulFree();
          RunStringsNulFree(Strings(InArray, "", []), s);
        }
      case BoolArrayTag => BoolsNotEmpty(SplitCommas(s));
      case _ =>
    }
  }

  lemma NothingNulFree()
    ensures NulFree("") && NoParenthesis("")
  {
  }

  lemma BoolsNotEmpty(parts: seq<string>)
    requires parts != []
    ensures ReadBools(parts) != []
  {
  }

  lemma ScalarCarried(k: ScalarKind, s: string)
    requires ReadScalar(k, s).Success?
    ensures Carried(ReadScalar(k, s).value)
  {
  }

  /** Every value that is read can be carried by text. */
  lemma ReadCarried(typeName: string, value: string, qualifier: string)
    requires NulFree(value) && NulFree(qualifier) && NoParenthesis(qualifier)
    requires ReadValue(typeName, value, qualifier).Success?
    ensures Carried(ReadValue(typeName, value, qualifier).value)
  {
    hide ReadTagged, ReadScalar, CStr, NulFree, NoParenthesis, Inner, Unescape, TagOf;
    InnerNulFree(value);
    var tag := TagOf(CStr(typeName));
    if typeName == "" {
      if ReadScalar(S32, value).Success? {
        ScalarCarried(S32, value);
      }
    } else if tag != None {
      var quoted := StartsWith(value, '"') || StartsWith(value, '\'');
      var s := if !quoted then value else if tag == Some(StrArrayTag) then Inner(value) else Unescape(Inner(value));
      TaggedCarried(tag.value, s, qualifier);
    }
  }

  // ----- The parser -------------------------------------------------------

  predicate CarriedNodes(stack: seq<TextNode>) { forall i :: 0 <= i < |stack| ==> CarriedTree(stack[i]) }

  /** All that the parser has collected and built can be carried by text. */
  predicate CarriedState(st: ParserState)
  {
    && CarriedTree(st.root) && CarriedNodes(st.stack)
    && NulFree(st.pending) && NulFree(st.name) && NulFree(st.value)
    && NulFree(st.qualifier) && NoParenthesis(st.qualifier)
    && (st.token in {Start, InNode, InAttribute, PreValue} ==> st.pending == "" && !st.escape)
    && (st.token.PreValueQualifier? ==> NoParenthesis(st.pending) && !st.escape)
    && (st.token.InAttributeType? ==> !st.escape)
  }

  lemma CarriedTop(stack: seq<TextNode>, top: TextNode)
    requires stack != [] && CarriedNodes(stack)
    ensures CarriedTree(Top(stack)) && (CarriedTree(top) ==> CarriedNodes(WithTop(stack, top)))
    ensures CarriedNodes(stack[..|stack| - 1])
  {
    hide CarriedTree;
  }

  lemma CarriedGrows(t: TextNode, a: TextAttribute, child: TextNode, name: string)
    requires CarriedTree(t)
    ensures CarriedAttribute(a) ==> CarriedTree(AddAttribute(t, a))
    ensures CarriedTree(child) ==> CarriedTree(AddChild(t, child))
    ensures NulFree(name) ==> CarriedTree(t.(name := name))
  {
    hide CarriedAttribute, NulFree;
  }

  lemma EndCarried(st: ParserState)
    requires CarriedState(st.(token := InAttribute)) && EndAttribute(st).Success?
    ensures CarriedState(EndAttribute(st).value)
  {
    hide ReadValue, CarriedTree, CarriedNodes, Carried, NulFree, NoParenthesis, WithTop, Top, AddAttribute;
    NothingNulFree();
    ReadCarried(st.typeName, st.value, st.qualifier);
    var a := Attribute(st.name, ReadValue(st.typeName, st.value, st.qualifier).value);
    CarriedTop(st.stack, AddAttribute(Top(st.stack), a));
    CarriedGrows(Top(st.stack), a, NEW_NODE, "");
  }

  lemma CloseCarried(st: ParserState)
    requires CarriedState(st) && CloseNode(st).Success?
    ensures CarriedState(CloseNode(st).value)
  {
    hide CarriedTree, CarriedNodes, NulFree, NoParenthesis, WithTop, Top, AddChild;
    var below, closed := st.stack[..|st.stack| - 1], Top(st.stack);
    CarriedTop(st.stack, closed);
    if below == [] {
      assert CarriedNodes([]) by { NoNodes(); }
    } else {
      CarriedTop(below, AddChild(Top(below), closed));
      CarriedGrows(Top(below), Attribute("", Bool(true)), closed, "");
    }
  }

  lemma NoNodes()
    ensures CarriedNodes([])
  {
  }

  lemma PushCarried(stack: seq<TextNode>, n: TextNode)
    requires CarriedNodes(stack) && CarriedTree(n)
    ensures CarriedNodes(stack + [n])
  {
    hide CarriedTree;
  }

  lemma NewCarried()
    ensures CarriedTree(NEW_NODE) && CarriedState(Initial(NEW_NODE))
  {
  }

  lemma OneMore(s: string, c: char)
    requires NulFree(s) && c != '\0'
    ensures NulFree(s + [c])
    ensures NoParenthesis(s) && c != ')' ==> NoParenthesis(s + [c])
  {
  }

  lemma NodeStepCarried(st: ParserState, c: char)
    requires CarriedState(st) && (st.token.Start? || st.token.InNode? || st.token.InNodeName?)
    requires c != '\0' && ParseCharacter(st, c).Success?
    ensures CarriedState(ParseCharacter(st, c).value)
  {
    hide CarriedTree, CarriedNodes, NulFree, NoParenthesis, WithTop, Top, CloseNode;
    NothingNulFree();
    NewCarried();
    OneMore(st.pending, c);
    match st.token {
      case Start => PushCarried(st.stack, st.root);
      case InNode =>
        PushCarried(st.stack, NEW_NODE);
        if c == '}' {
          CloseCarried(st);
        }
      case InNodeName =>
        if st.stack != [] {
          var named := Top(st.stack).(name := st.pending);
          CarriedTop(st.stack, named);
          CarriedGrows(Top(st.stack), Attribute("", Bool(true)), NEW_NODE, st.pending);
        }
    }
  }

  lemma AttributeStepCarried(st: ParserState, c: char)
    requires CarriedState(st) && !(st.token.Start? || st.token.InNode? || st.token.InNodeName?)
    requires c != '\0' && ParseCharacter(st, c).Success?
    ensures CarriedState(ParseCharacter(st, c).value)
  {
    hide CarriedTree, CarriedNodes, NulFree, NoParenthesis, EndAttribute;
    NothingNulFree();
    OneMore(st.pending, c);
    if st.token.InAttribute? && c == ']' {
      EndCarried(st);
    } else if st.token.Unquoted? && c == ']' && !st.escape {
      EndCarried(st.(value := st.pending, pending := ""));
    }
  }

  /** Parsing NUL-free text builds only trees that text can carry. */
  lemma {:induction false} RunCarried(st: ParserState, s: string)
    requires CarriedState(st) && NulFree(s) && Parse(st, s).Success?
    ensures CarriedState(Parse(st, s).value)
    decreases |s|
  {
    hide ParseCharacter, CarriedState;
    if s != "" {
      if st.token.Start? || st.token.InNode? || st.token.InNodeName? {
        NodeStepCarried(st, s[0]);
      } else {
        AttributeStepCarried(st, s[0]);
      }
      RunCarried(ParseCharacter(st, s[0]).value, s[1..]);
    }
  }

  // ----- Printed text -----------------------------------------------------

  lemma ConcatNulFree(a: string, b: string)
    requires NulFree(a) && NulFree(b)
    ensures NulFree(a + b)
  {
  }

  lemma TypeTextNulFree(v: TextValue)
    requires Textual(v)
    ensures NulFree(TypeText(v)) && NulFree(QuotedValueText(v))
  {
    hide CStr, Escape, ValueText, Code;
  }

  lemma AttributeTextNulFree(a: TextAttribute)
    requires Textual(a.value)
    ensures NulFree(AttributeText(a))
  {
    hide CStr, Escape, TypeText, QuotedValueText, NulFree;
    TypeTextNulFree(a.value);
    Delimited();
    var value := QuotedValueText(a.value);
    ConcatNulFree(value, "]");
    ConcatNulFree("=", value + "]");
    ConcatNulFree(TypeText(a.value), "=" + (value + "]"));
    ConcatNulFree("\"", TypeText(a.value) + ("=" + (value + "]")));
    ConcatNulFree(CStr(Escape(a.name)), "\"" + (TypeText(a.value) + ("=" + (value + "]"))));
    ConcatNulFree("\"", CStr(Escape(a.name)) + ("\"" + (TypeText(a.value) + ("=" + (value + "]")))));
    ConcatNulFree("[", "\"" + (CStr(Escape(a.name)) + ("\"" + (TypeText(a.value) + ("=" + (value + "]"))))));
  }

  lemma Delimited()
    ensures NulFree("") && NulFree(" ") && NulFree("[") && NulFree("]") && NulFree("=") && NulFree("\"")
    ensures NulFree("{") && NulFree("}") && NulFree(" \"") && NulFree("\" ")
  {
  }

  lemma {:induction false} AttributesTextNulFree(attributes: seq<TextAttribute>)
    requires forall i :: 0 <= i < |attributes| ==> Textual(attributes[i].value)
    ensures NulFree(AttributesText(attributes))
  {
    hide AttributeText, NulFree, Textual;
    Delimited();
    if attributes != [] {
      AttributeTextNulFree(attributes[0]);
      AttributesTextNulFree(attributes[1..]);
      ConcatNulFree(" ", AttributesText(attributes[1..]));
      ConcatNulFree(AttributeText(attributes[0]), " " + AttributesText(attributes[1..]));
    }
  }

  lemma {:induction false} SpacesNulFree(depth: int)
    ensures NulFree(Spaces(depth))
    decreases if depth < 0 then 0 else depth
  {
    if depth > 0 {
      SpacesNulFree(depth - 1);
    }
  }

  lemma LayoutNulFree(layout: Layout, depth: int)
    requires NulFree(layout.lineEnd)
    ensures NulFree(layout.Line()) && NulFree(layout.Indent(depth)) && NulFree(layout.Line() + layout.Indent(depth))
  {
    SpacesNulFree(depth);
    Delimited();
  }

  lemma {:induction false} NodeTextNulFree(t: TextNode, layout: Layout, depth: int)
    requires TextualTree(t) && NulFree(layout.lineEnd)
    ensures NulFree(NodeText(t, layout, depth))
    decreases t, 1
  {
    hide CStr, Escape, AttributesText, ChildrenText, NulFree, Textual, Layout.Line, Layout.Indent;
    Delimited();
    LayoutNulFree(layout, depth);
    AttributesTextNulFree(t.attributes);
    ChildrenTextNulFree(t.children, layout, depth + 1);
    var gap := if t.children == [] then "" else layout.Line() + layout.Indent(depth);
    var children := ChildrenText(t.children, layout, depth + 1);
    var attributes, name := AttributesText(t.attributes), CStr(Escape(t.name));
    ConcatNulFree(gap, "}");
    ConcatNulFree(children, gap + "}");
    ConcatNulFree(attributes, children + (gap + "}"));
    ConcatNulFree("\" ", attributes + (children + (gap + "}")));
    ConcatNulFree(name, "\" " + (attributes + (children + (gap + "}"))));
    ConcatNulFree(" \"", name + ("\" " + (attributes + (children + (gap + "}")))));
    ConcatNulFree("{", BodyText(t, layout, depth));
    ConcatNulFree(layout.Indent(depth), "{" + BodyText(t, layout, depth));
    ConcatNulFree(layout.Line(), layout.Indent(depth) + ("{" + BodyText(t, layout, depth)));
  }

  lemma {:induction false} ChildrenTextNulFree(ts: seq<TextNode>, layout: Layout, depth: int)
    requires forall i :: 0 <= i < |ts| ==> TextualTree(ts[i])
    requires NulFree(layout.lineEnd)
    ensures NulFree(ChildrenText(ts, layout, depth))
    decreases ts, 0
  {
    hide NodeText, NulFree, TextualTree;
    Delimited();
    if ts != [] {
      NodeTextNulFree(ts[0], layout, depth);
      ChildrenTextNulFree(ts[1..], layout, depth);
      ConcatNulFree(" ", ChildrenText(ts[1..], layout, depth));
      ConcatNulFree(NodeText(ts[0], layout, depth), " " + ChildrenText(ts[1..], layout, depth));
    }
  }

  // ----- The round trip of every tree -------------------------------------

  /**
    Of the trees whose numbers fit their types, exactly those come back from
    their text that hold nothing text cannot carry and whose strings and
    string arrays are settled.
   */
  lemma Survives(t: TextNode, layout: Layout, depth: int, after: string)
    requires FittingTree(t) && SkippableLayout(layout) && NulFree(layout.lineEnd)
    requires NulFree(after) && forall i :: 0 <= i < |after| ==> IsSkippable(after[i])
    ensures Parse(Initial(NEW_NODE), NodeText(t, layout, depth) + after) == Success(Ready(t, []))
       <==> CarriedTree(t) && SettledTree(t)
  {
    hide Parse, NodeText, CarriedTree, SettledTree, FittingTree, PrintableTree, NulFree;
    FittingAndCarried(t);
    if CarriedTree(t) {
      TextRoundTrip(t, layout, depth, after);
    } else if Parse(Initial(NEW_NODE), NodeText(t, layout, depth) + after) == Success(Ready(t, [])) {
      NewCarried();
      NodeTextNulFree(t, layout, depth);
      ConcatNulFree(NodeText(t, layout, depth), after);
      RunCarried(Initial(NEW_NODE), NodeText(t, layout, depth) + after);
    }
  }

  /** An empty array of numbers or booleans, and an encoding with a parenthesis, do not come back. */
  lemma LostForms(v: TextValue, layout: Layout, depth: int)
    requires v == Array(S32, []) || v == BoolArray([]) || v == Str("a)", "")
    requires SkippableLayout(layout) && NulFree(layout.lineEnd)
    ensures FittingTree(OneValue(v))
    ensures Parse(Initial(NEW_NODE), NodeText(OneValue(v), layout, depth) + "") != Success(Ready(OneValue(v), []))
  {
    hide Parse, NodeText, SettledTree;
    assert v.Str? ==> v.encoding[1] == ')';
    assert !CarriedAttribute(OneValue(v).attributes[0]);
    Survives(OneValue(v), layout, depth, "");
  }
}
