/**
  When a tree comes back from its text: if and only if none of its strings has
  a backslash in front of an escaped character and none of its string arrays
  has an element with a backslash or an apostrophe.  In the other direction a
  misread value could swallow text of later attributes; counting closing
  brackets shows that it cannot and still leave the same tree.
 */
module BentoTextRoundTrip {
  import opened Wrappers
  import opened CStrings
  import opened Counting
  import opened BentoModel
  import opened BentoEscape
  import opened BentoText
  import opened BentoTextValues
  import opened BentoValueLaws
  import opened BentoParsing
  import opened BentoRoundTrip
  import opened BentoStringArrays
  import opened BentoAttributeEnds
  import opened BentoBrackets
  import opened BentoPrintedBrackets
  import opened BentoGrowth

  /** The values that come back as they are. */
  predicate SettledValue(v: TextValue)
  {
    (v.Str? ==> Settled(v.text)) && (v.StrArray? ==> AllUnquotable(v.strings))
  }

  predicate SettledTree(t: TextNode)
  {
    && (forall i :: 0 <= i < |t.attributes| ==> SettledValue(t.attributes[i].value))
    && (forall i :: 0 <= i < |t.children| ==> SettledTree(t.children[i]))
  }

  lemma {:induction false} SettledIsReadable(t: TextNode)
    requires PrintableTree(t) && SettledTree(t)
    ensures ReadableTree(t) && SettledStrings(t) && RereadTree(t) == t
  {
    hide Printable, Settled, AllUnquotable, RereadTree;
    forall i | 0 <= i < |t.attributes|
      ensures ReadableAttribute(t.attributes[i]) && (t.attributes[i].value.Str? ==> Settled(t.attributes[i].value.text))
    {
      assert PrintableAttribute(t.attributes[i]) && SettledValue(t.attributes[i].value);
    }
    forall i | 0 <= i < |t.children|
      ensures ReadableTree(t.children[i]) && SettledStrings(t.children[i])
    {
      SettledIsReadable(t.children[i]);
    }
    RereadFixes(t);
  }

  // ----- Runs that must end in a given tree -------------------------------

  /** The text leads to the tree, and holds no more brackets than the tree still needs. */
  predicate Forced(st: ParserState, text: string, r: TextNode)
  {
    && !st.token.Start? && Parse(st, text) == Success(Ready(r, []))
    && Held(st) + Brackets(text) <= NodeBrackets(r)
  }

  lemma HeldReady(r: TextNode)
    ensures Held(Ready(r, [])) == NodeBrackets(r) && Leaves(Ready(r, []), r)
  {
    hide NodeBrackets;
  }

  lemma Advance(st: ParserState, text: string, next: ParserState, rest: string, r: TextNode)
    requires Leads(st, text, next) && Forced(st, text + rest, r)
    ensures Forced(next, rest, r)
  {
    hide Held, Occurs, NodeBrackets, Parse;
    LeadsIsParse(st, text, next);
    ParsePrefix(st, text, next, rest);
    HeldRun(st, text, next);
    OccursConcat(text, rest, ']');
  }

  lemma ForcedLeaves(st: ParserState, text: string, r: TextNode)
    requires Forced(st, text, r)
    ensures Leaves(st, r)
  {
    hide Leaves, Parse;
    HeldReady(r);
    LeavesRun(st, text, Ready(r, []), r);
  }

  /** The next attribute that the pending node gets on its way to `r`. */
  predicate NextIs(stack: seq<TextNode>, r: TextNode, a: TextAttribute)
    requires stack != []
  {
    && Under(stack, r) && |Top(stack).attributes| < |At(stack, r).attributes|
    && At(stack, r).attributes[|Top(stack).attributes|] == a
  }

  /** An attribute added in a run to `r` is the one that `r` has there. */
  lemma Added(root: TextNode, stack: seq<TextNode>, a: TextAttribute, added: TextAttribute, rest: string, r: TextNode)
    requires stack != [] && NextIs(stack, r, a)
    requires Parse(Ready(root, WithAttribute(stack, added)), rest) == Success(Ready(r, []))
    ensures added == a && Under(WithAttribute(stack, a), r) && At(WithAttribute(stack, a), r) == At(stack, r)
  {
    hide Parse, Under, At;
    HeldReady(r);
    LeavesRun(Ready(root, WithAttribute(stack, added)), rest, Ready(r, []), r);
    UnderTop(stack, AddAttribute(Top(stack), added), r);
  }

  // ----- String arrays ----------------------------------------------------

  lemma ArrayHead(root: TextNode, stack: seq<TextNode>, a: TextAttribute, rest: string, r: TextNode)
    requires stack != [] && PrintableAttribute(a) && a.value.StrArray? && ValidTag(Tag(a.value))
    requires Parse(Ready(root, stack), AttributeText(a) + rest) == Success(Ready(r, []))
    ensures var st := BeforeValueOf(root, stack, a).(token := SingleQuoted, pending := "'");
            Parse(st, Join(QuotedTexts(a.value.strings)) + ("'" + ("]" + rest))) == Success(Ready(r, []))
  {
    hide Leads, Parse, Escape, CStr, TypeText, Join, QuotedText, Code, AttributeText, ParseCharacter;
    var st := BeforeValueOf(root, stack, a);
    var open := st.(token := SingleQuoted, pending := "'");
    var text := Join(QuotedTexts(a.value.strings));
    var head := "[" + ("\"" + (CStr(Escape(a.name)) + ("\"" + (TypeText(a.value) + ("=" + "'")))));
    OpenQuote(root, stack, a);
    AttributeHead(root, stack, a, "'", open);
    assert AttributeText(a) == head + (text + ("'" + "]")) by { ArrayForm(a); }
    assert AttributeText(a) + rest == head + (text + ("'" + ("]" + rest))) by { Regroup(head, text, rest); }
    LeadsIsParse(Ready(root, stack), head, open);
    ParsePrefix(Ready(root, stack), head, open, text + ("'" + ("]" + rest)));
  }

  lemma OpenQuote(root: TextNode, stack: seq<TextNode>, a: TextAttribute)
    requires stack != [] && ValidTag(Tag(a.value))
    ensures var st := BeforeValueOf(root, stack, a); Leads(st, "'", st.(token := SingleQuoted, pending := "'"))
  {
    hide Leads, TypeText, Code;
    var st := BeforeValueOf(root, stack, a);
    assert "" + ['\''] == "'";
    Char1(st, '\'', st.(token := SingleQuoted, pending := "'"));
  }

  lemma Regroup(head: string, text: string, rest: string)
    ensures head + (text + ("'" + "]")) + rest == head + (text + ("'" + ("]" + rest)))
  {
  }

  lemma ArrayForm(a: TextAttribute)
    requires PrintableAttribute(a) && a.value.StrArray?
    ensures AttributeText(a)
         == "[" + ("\"" + (CStr(Escape(a.name)) + ("\"" + (TypeText(a.value) + ("=" + "'")))))
            + (Join(QuotedTexts(a.value.strings)) + ("'" + "]"))
  {
    hide Escape, CStr, TypeText, Join, QuotedText;
    ArrayTextForm(a.value);
    var text := Join(QuotedTexts(a.value.strings));
    RegroupHead(CStr(Escape(a.name)), TypeText(a.value), text);
  }

  lemma ArrayTextForm(v: TextValue)
    requires Printable(v) && v.StrArray?
    ensures QuotedValueText(v) == "'" + Join(QuotedTexts(v.strings)) + "'"
  {
    hide CStr, Join, QuotedText;
    ArrayText(v);
    forall i | 0 <= i < |v.strings| ensures NulFree(QuotedText(v.strings[i])) { QuotedNulFree(v.strings[i]); }
    JoinedNulFree(QuotedTexts(v.strings));
  }

  lemma RegroupHead(name: string, t: string, text: string)
    ensures "[" + ("\"" + (name + ("\"" + (t + ("=" + (("'" + text + "'") + "]"))))))
         == "[" + ("\"" + (name + ("\"" + (t + ("=" + "'"))))) + (text + ("'" + "]"))
  {
    assert ("'" + text + "'") + "]" == "'" + (text + ("'" + "]"));
    Regroup2("=", "'", text + ("'" + "]"));
    Regroup2(t, "=" + "'", text + ("'" + "]"));
    Regroup2("\"", t + ("=" + "'"), text + ("'" + "]"));
    Regroup2(name, "\"" + (t + ("=" + "'")), text + ("'" + "]"));
    Regroup2("\"", name + ("\"" + (t + ("=" + "'"))), text + ("'" + "]"));
    Regroup2("[", "\"" + (name + ("\"" + (t + ("=" + "'")))), text + ("'" + "]"));
  }

  lemma Regroup2(a: string, b: string, c: string)
    ensures a + (b + c) == (a + b) + c
  {
  }

  /** A printed string array that leaves the tree it was printed from has neither backslashes nor apostrophes. */
  lemma ArrayForced(root: TextNode, stack: seq<TextNode>, a: TextAttribute, rest: string, r: TextNode)
    requires stack != [] && PrintableAttribute(a) && a.value.StrArray?
    requires Forced(Ready(root, stack), AttributeText(a) + rest, r) && NextIs(stack, r, a)
    ensures AllUnquotable(a.value.strings)
  {
    hide Parse, AttributeText, Join, QuotedText, Cost, Occurs, NodeBrackets, NodesBrackets, ValueBrackets, Code;
    hide Budgeted, CanEnd, ReadValue, FinalValue, Under, At, Printable, Held;
    var ss := a.value.strings;
    if ss != [] {
      PrintableTag(a.value);
      ArrayHead(root, stack, a, rest, r);
      var st := BeforeValueOf(root, stack, a).(token := SingleQuoted, pending := "'");
      var text := Join(QuotedTexts(ss));
      var s := text + ("'" + ("]" + rest));
      assert Budgeted(st, 0) by { BudgetStart(st); }
      var i, p, v := AttributeEnds(st, 0, s, Ready(r, []));
      var added := Attribute(p.name, v);
      assert Ended(p, v) == Ready(root, WithAttribute(stack, added)) by { EndedReady(p, Cost(s[..i]), v); }
      Added(root, stack, a, added, s[i + 1..], r);
      BracketsLeft(root, stack, a, rest, s[i + 1..], r);
      EndsInside(text, rest, s, i);
      OnlyUnquotable(p, Cost(s[..i]), ss) by { ArrayNulFree(a); }
    }
  }

  lemma ArrayNulFree(a: TextAttribute)
    requires PrintableAttribute(a) && a.value.StrArray?
    ensures forall i :: 0 <= i < |a.value.strings| ==> NulFree(a.value.strings[i])
  {
  }

  lemma BudgetStart(st: ParserState)
    requires st.token.SingleQuoted? && st.pending == "'" && !st.escape && st.stack != []
    ensures Budgeted(st, 0)
  {
    assert st.pending[1..] == "";
  }

  lemma EndedReady(p: ParserState, budget: int, v: TextValue)
    requires Budgeted(p, budget) && CanEnd(p)
    ensures Ended(p, v) == Ready(p.root, WithAttribute(p.stack, Attribute(p.name, v)))
  {
    hide Stripped;
  }

  /** After the attribute there are as many brackets left as after its printed text. */
  lemma BracketsLeft(root: TextNode, stack: seq<TextNode>, a: TextAttribute, rest: string, left: string, r: TextNode)
    requires stack != [] && PrintableAttribute(a) && Forced(Ready(root, stack), AttributeText(a) + rest, r)
    requires Parse(Ready(root, WithAttribute(stack, a)), left) == Success(Ready(r, []))
    ensures Brackets(rest) <= Brackets(left)
  {
    hide Parse, AttributeText, Occurs, NodeBrackets, NodesBrackets, AttributeBrackets, Printable;
    HeldReady(r);
    HeldRun(Ready(root, WithAttribute(stack, a)), left, Ready(r, []));
    AttributeTextBrackets(a);
    OccursConcat(AttributeText(a), rest, ']');
    TopBrackets(stack, AddAttribute(Top(stack), a));
    GrownBrackets(Top(stack), a);
    assert WithAttribute(stack, a) == WithTop(stack, AddAttribute(Top(stack), a));
  }

  lemma FewerBrackets(s: string, i: nat)
    requires i < |s| && s[i] == ']'
    ensures Brackets(s[i + 1..]) < Brackets(s)
  {
    hide Occurs;
    OccursConcat(s[..i] + [']'], s[i + 1..], ']');
    OccursAppend(s[..i], ']', ']');
    assert s == s[..i] + [']'] + s[i + 1..];
  }

  /** So the attribute has ended inside its own text. */
  lemma EndsInside(text: string, rest: string, s: string, i: nat)
    requires s == text + ("'" + ("]" + rest)) && i < |s| && s[i] == ']'
    requires Brackets(rest) <= Brackets(s[i + 1..])
    ensures Cost(s[..i]) <= Cost(text) + 2
  {
    hide Occurs, Cost;
    var own := text + "'";
    if i > |own| {
      var j := i - |own| - 1;
      assert s[i + 1..] == rest[j + 1..] && rest[j] == ']';
      FewerBrackets(rest, j);
    } else {
      assert own == s[..i] + own[i..];
      CostConcat(s[..i], own[i..]);
      CostConcat(text, "'");
      CharacterCost('\'');
    }
  }

  // ----- Attributes, nodes and trees --------------------------------------

  /** A printed attribute that leaves the tree it was printed from survives. */
  lemma AttributeForced(root: TextNode, stack: seq<TextNode>, a: TextAttribute, rest: string, r: TextNode)
    requires stack != [] && PrintableAttribute(a)
    requires Forced(Ready(root, stack), AttributeText(a) + rest, r) && NextIs(stack, r, a)
    ensures SettledValue(a.value) && Forced(Ready(root, WithAttribute(stack, a)), rest, r)
    ensures Under(WithAttribute(stack, a), r) && At(WithAttribute(stack, a), r) == At(stack, r)
  {
    hide Parse, AttributeText, Held, NodeBrackets, Under, At, Settled, Unescape, Leads, AllUnquotable, NextIs;
    if a.value.StrArray? {
      ArrayForced(root, stack, a, rest, r);
    }
    AttributeRun(root, stack, a);
    var read := RereadAttribute(a);
    Advance(Ready(root, stack), AttributeText(a), Ready(root, WithAttribute(stack, read)), rest, r);
    Added(root, stack, a, read, rest, r);
    if a.value.Str? {
      UnescapeFixes(a.value.text);
    }
  }

  lemma {:induction false} AttributesForced(root: TextNode, stack: seq<TextNode>, attributes: seq<TextAttribute>,
                                            rest: string, r: TextNode)
    requires stack != [] && forall i :: 0 <= i < |attributes| ==> PrintableAttribute(attributes[i])
    requires forall i :: 0 <= i < |attributes| ==> Textual(attributes[i].value)
    requires Forced(Ready(root, stack), AttributesText(attributes) + rest, r)
    requires Under(stack, r) && Top(stack).attributes + attributes == At(stack, r).attributes
    ensures forall i :: 0 <= i < |attributes| ==> SettledValue(attributes[i].value)
    decreases |attributes|
  {
    hide Forced, AttributeText, PrintableAttribute, SettledValue, Under, At, Textual;
    if attributes != [] {
      var a, others := attributes[0], attributes[1..];
      var next, afterSpace := WithAttribute(stack, a), AttributesText(others) + rest;
      assert AttributesText(attributes) + rest == AttributeText(a) + (" " + afterSpace);
      assert At(stack, r).attributes[|Top(stack).attributes|] == a;
      AttributeForced(root, stack, a, " " + afterSpace, r);
      SkipSpace(root, next, afterSpace, r);
      assert Top(next).attributes + others == Top(stack).attributes + attributes;
      AttributesForced(root, next, others, rest, r);
    }
  }

  lemma SkipSpace(root: TextNode, stack: seq<TextNode>, rest: string, r: TextNode)
    requires Forced(Ready(root, stack), " " + rest, r)
    ensures Forced(Ready(root, stack), rest, r)
  {
    hide Forced, Leads;
    Char1(Ready(root, stack), ' ', Ready(root, stack));
    Advance(Ready(root, stack), " ", Ready(root, stack), rest, r);
  }

  lemma AllSettled(attributes: seq<TextAttribute>)
    requires forall i :: 0 <= i < |attributes| ==>
               PrintableAttribute(attributes[i]) && SettledValue(attributes[i].value)
    ensures forall i :: 0 <= i < |attributes| ==> ReadableAttribute(attributes[i])
    ensures RereadAttributes(attributes) == attributes
  {
    hide Printable, Unescape, Settled, AllUnquotable;
    forall i | 0 <= i < |attributes|
      ensures ReadableAttribute(attributes[i]) && RereadAttribute(attributes[i]) == attributes[i]
    {
      assert PrintableAttribute(attributes[i]) && SettledValue(attributes[i].value);
      if attributes[i].value.Str? {
        UnescapeFixes(attributes[i].value.text);
      }
    }
  }

  /** After a piece of text that changes the pending node, the node still grows into the same one. */
  lemma Onward(root: TextNode, stack: seq<TextNode>, text: string, top: TextNode, rest: string, r: TextNode)
    requires stack != [] && Leads(Ready(root, stack), text, Ready(root, WithTop(stack, top)))
    requires Forced(Ready(root, stack), text + rest, r)
    requires Top(stack).attributes <= top.attributes && Top(stack).children <= top.children
    ensures Forced(Ready(root, WithTop(stack, top)), rest, r)
    ensures Under(stack, r) && Under(WithTop(stack, top), r) && At(WithTop(stack, top), r) == At(stack, r)
  {
    hide Leads, Forced, Under, At;
    Advance(Ready(root, stack), text, Ready(root, WithTop(stack, top)), rest, r);
    ForcedLeaves(Ready(root, WithTop(stack, top)), rest, r);
    UnderTop(stack, top, r);
  }

  lemma NameHead(root: TextNode, stack: seq<TextNode>, name: string)
    requires stack != [] && NulFree(name)
    ensures Leads(Ready(root, stack), " \"" + (CStr(Escape(name)) + "\" "),
                  Ready(root, WithTop(stack, Top(stack).(name := name))))
  {
    hide Leads, Escape, CStr;
    var named := Ready(root, WithTop(stack, Top(stack).(name := name)));
    Nothing(named);
    NameRun(root, stack, name, "", named);
    assert "\" " + "" == "\" ";
  }

  lemma BodyForm(t: TextNode, layout: Layout, depth: int, rest: string)
    requires TextualTree(t)
    ensures BodyText(t, layout, depth) + rest
         == (" \"" + (CStr(Escape(t.name)) + "\" "))
            + (AttributesText(t.attributes) + (ChildrenText(t.children, layout, depth + 1)
               + ((if t.children == [] then "" else layout.Line() + layout.Indent(depth)) + "}" + rest)))
  {
    hide Escape, CStr, AttributesText, ChildrenText;
  }

  lemma NodeForm(t: TextNode, layout: Layout, depth: int, rest: string)
    requires TextualTree(t)
    ensures NodeText(t, layout, depth) + rest
         == layout.Line() + (layout.Indent(depth) + ("{" + (BodyText(t, layout, depth) + rest)))
  {
    hide BodyText, TextualTree;
    var line, indent, body := layout.Line(), layout.Indent(depth), BodyText(t, layout, depth);
    assert line + (indent + ("{" + body)) + rest == line + (indent + ("{" + (body + rest)));
  }

  /** A printed tree, met where the final tree has it, survives. */
  lemma {:induction false} BodyForced(root: TextNode, stack: seq<TextNode>, t: TextNode, layout: Layout, depth: int,
                                      rest: string, r: TextNode)
    requires stack != [] && PrintableTree(t) && SkippableLayout(layout)
    requires Forced(Ready(root, stack), BodyText(t, layout, depth) + rest, r)
    requires Under(stack, r) && Top(stack).attributes == [] && Top(stack).children == [] && At(stack, r) == t
    ensures SettledTree(t)
    decreases t, 1
  {
    hide Forced, Under, At, Leads, PrintableAttribute, SettledValue;
    hide BodyText, AttributesText, ChildrenText, Escape, CStr, Textual;
    var top := Top(stack);
    var gap := (if t.children == [] then "" else layout.Line() + layout.Indent(depth)) + "}" + rest;
    var named := top.(name := t.name);
    var attributed := named.(attributes := t.attributes);
    var stack1 := WithTop(stack, named);
    var children := ChildrenText(t.children, layout, depth + 1) + gap;
    BodyForm(t, layout, depth, rest);
    NameHead(root, stack, t.name);
    Onward(root, stack, " \"" + (CStr(Escape(t.name)) + "\" "), named, AttributesText(t.attributes) + children, r);
    AttributesForced(root, stack1, t.attributes, children, r);
    AllSettled(t.attributes);
    AttributesRun(root, stack1, t.attributes);
    assert [] + t.attributes == t.attributes;
    Onward(root, stack1, AttributesText(t.attributes), attributed, children, r);
    assert WithTop(stack1, attributed) == WithTop(stack, attributed);
    ChildrenForced(root, WithTop(stack, attributed), t.children, layout, depth + 1, gap, r);
  }

  lemma {:induction false} ChildrenForced(root: TextNode, stack: seq<TextNode>, ts: seq<TextNode>, layout: Layout,
                                          depth: int, rest: string, r: TextNode)
    requires stack != [] && SkippableLayout(layout) && forall i :: 0 <= i < |ts| ==> PrintableTree(ts[i])
    requires forall i :: 0 <= i < |ts| ==> TextualTree(ts[i])
    requires Forced(Ready(root, stack), ChildrenText(ts, layout, depth) + rest, r)
    requires Under(stack, r) && Top(stack).children + ts == At(stack, r).children
    ensures forall i :: 0 <= i < |ts| ==> SettledTree(ts[i])
    decreases ts, 0
  {
    hide Forced, Under, At, Leads, NodeText, PrintableTree, SettledTree, Textual;
    if ts != [] {
      var t, others := ts[0], ts[1..];
      var afterSpace := ChildrenText(others, layout, depth) + rest;
      var grown := AddChild(Top(stack), t);
      assert ChildrenText(ts, layout, depth) + rest == NodeText(t, layout, depth) + (" " + afterSpace);
      NodeForced(root, stack, t, layout, depth, " " + afterSpace, r);
      SettledIsReadable(t);
      NodeRun(root, stack, t, layout, depth);
      Onward(root, stack, NodeText(t, layout, depth), grown, " " + afterSpace, r);
      SkipSpace(root, WithTop(stack, grown), afterSpace, r);
      assert grown.children + others == Top(stack).children + ts;
      ChildrenForced(root, WithTop(stack, grown), others, layout, depth, rest, r);
    }
  }

  lemma {:induction false} NodeForced(root: TextNode, stack: seq<TextNode>, t: TextNode, layout: Layout, depth: int,
                                      rest: string, r: TextNode)
    requires stack != [] && PrintableTree(t) && SkippableLayout(layout)
    requires Forced(Ready(root, stack), NodeText(t, layout, depth) + rest, r)
    requires Under(stack, r) && |Top(stack).children| < |At(stack, r).children|
    requires At(stack, r).children[|Top(stack).children|] == t
    ensures SettledTree(t)
    decreases t, 2
  {
    hide Forced, Under, At, Leads, BodyText, NodeText, PrintableTree, SettledTree;
    var st, body := Ready(root, stack), BodyText(t, layout, depth);
    var grown := stack + [NEW_NODE];
    NodeForm(t, layout, depth, rest);
    LayoutRun(st, layout, depth);
    Advance(st, layout.Line(), st, layout.Indent(depth) + ("{" + (body + rest)), r);
    Advance(st, layout.Indent(depth), st, "{" + (body + rest), r);
    Char1(st, '{', Ready(root, grown));
    Advance(st, "{", Ready(root, grown), body + rest, r);
    ForcedLeaves(Ready(root, grown), body + rest, r);
    UnderPush(stack, NEW_NODE, r);
    BodyForced(root, grown, t, layout, depth, rest, r);
  }

  lemma SkippableBrackets(s: string)
    requires forall i :: 0 <= i < |s| ==> IsSkippable(s[i])
    ensures Brackets(s) == 0
  {
    OccursIff(s, ']');
  }

  /** Opening the root leads from the text of a tree to its body. */
  lemma RootHead(t: TextNode, layout: Layout, depth: int, rest: string)
    requires TextualTree(t) && SkippableLayout(layout)
    ensures Parse(Initial(NEW_NODE), NodeText(t, layout, depth) + rest)
         == Parse(Ready(NEW_NODE, [NEW_NODE]), BodyText(t, layout, depth) + rest)
  {
    hide Leads, Parse, BodyText, ParseCharacter, TextualTree;
    var st, body := Initial(NEW_NODE), BodyText(t, layout, depth);
    var inside := Ready(NEW_NODE, [NEW_NODE]);
    RootOpens(NEW_NODE);
    Char1(st, '{', inside);
    LayoutRun(st, layout, depth);
    Then(st, layout.Indent(depth), st, "{", inside);
    Then(st, layout.Line(), st, layout.Indent(depth) + "{", inside);
    var head := layout.Line() + (layout.Indent(depth) + "{");
    LeadsIsParse(st, head, inside);
    ParsePrefix(st, head, inside, body + rest);
    HeadForm(layout.Line(), layout.Indent(depth), body, rest);
  }

  lemma HeadForm(line: string, indent: string, body: string, rest: string)
    ensures line + (indent + ("{" + body)) + rest == line + (indent + "{") + (body + rest)
  {
  }

  lemma RootForced(t: TextNode, layout: Layout, depth: int, after: string)
    requires PrintableTree(t) && SkippableLayout(layout)
    requires forall i :: 0 <= i < |after| ==> IsSkippable(after[i])
    requires Parse(Initial(NEW_NODE), NodeText(t, layout, depth) + after) == Success(Ready(t, []))
    ensures Forced(Ready(NEW_NODE, [NEW_NODE]), BodyText(t, layout, depth) + after, t)
  {
    hide Leads, Parse, BodyText, NodeText, PrintableTree, NodeBrackets, NodesBrackets, Occurs;
    var body := BodyText(t, layout, depth);
    RootHead(t, layout, depth, after);
    NodeTextBrackets(t, layout, depth);
    SkippableBrackets(after);
    OccursConcat(body, after, ']');
    NoBrackets();
    NodesAppend([], NEW_NODE);
    assert [] + [NEW_NODE] == [NEW_NODE];
  }

  /**
    The text round trip: a new node filled from the text of a tree equals the
    tree if and only if every string and every string array in it is settled.
   */
  lemma TextRoundTrip(t: TextNode, layout: Layout, depth: int, after: string)
    requires PrintableTree(t) && SkippableLayout(layout)
    requires forall i :: 0 <= i < |after| ==> IsSkippable(after[i])
    ensures Parse(Initial(NEW_NODE), NodeText(t, layout, depth) + after) == Success(Ready(t, [])) <==> SettledTree(t)
  {
    hide RereadTree, SettledTree, PrintableTree, NodeText, BodyText, Parse, Forced;
    if SettledTree(t) {
      SettledIsReadable(t);
      ParsePrinted(NEW_NODE, t, layout, depth, after);
      assert [] + t.attributes == t.attributes && [] + t.children == t.children;
    } else if Parse(Initial(NEW_NODE), NodeText(t, layout, depth) + after) == Success(Ready(t, [])) {
      RootForced(t, layout, depth, after);
      BodyForced(NEW_NODE, [NEW_NODE], t, layout, depth, after, t);
    }
  }

  // ----- One attribute ----------------------------------------------------

  /** Closing all open nodes. */
  lemma {:induction false} CloseAll(root: TextNode, stack: seq<TextNode>) returns (s: string, r: TextNode)
    requires stack != []
    ensures Parse(Ready(root, stack), s) == Success(Ready(r, []))
    ensures Brackets(s) == 0 && NodeBrackets(r) == NodesBrackets(stack)
    decreases |stack|
  {
    hide Occurs, NodeBrackets, NodesBrackets, AddChild;
    var st := Ready(root, stack);
    var next := CloseNode(st).value;
    assert ParseCharacter(st, '}') == Success(next);
    CloseHeld(st);
    OccursIff("", ']');
    OccursIff("}", ']');
    if |stack| == 1 {
      ParseOne(st, '}');
      s, r := "}", next.root;
    } else {
      var rest;
      rest, r := CloseAll(root, next.stack);
      s := "}" + rest;
      assert s[1..] == rest;
      OccursConcat("}", rest, ']');
    }
  }

  /** A printed attribute of any kind is parsed to itself if and only if it is settled. */
  lemma AttributeRoundTrip(root: TextNode, stack: seq<TextNode>, a: TextAttribute)
    requires PrintableAttribute(a) && stack != []
    ensures Leads(Ready(root, stack), AttributeText(a), Ready(root, WithAttribute(stack, a))) <==> SettledValue(a.value)
  {
    hide Leads, Parse, AttributeText, Under, At, Occurs, NodeBrackets, NodesBrackets, AttributeBrackets, Printable;
    hide Settled, AllUnquotable, Unescape;
    var st, next := Ready(root, stack), Ready(root, WithAttribute(stack, a));
    if SettledValue(a.value) {
      AllSettled([a]);
      assert ReadableAttribute([a][0]) && RereadAttributes([a])[0] == a;
      AttributeRun(root, stack, a);
    } else if Leads(st, AttributeText(a), next) {
      var rest, r := CloseAll(root, WithAttribute(stack, a));
      LeadsIsParse(st, AttributeText(a), next);
      ParsePrefix(st, AttributeText(a), next, rest);
      AttributeTextBrackets(a);
      OccursConcat(AttributeText(a), rest, ']');
      TopBrackets(stack, AddAttribute(Top(stack), a));
      GrownBrackets(Top(stack), a);
      HeldReady(r);
      LeavesRun(next, rest, Ready(r, []), r);
      UnderTop(stack, AddAttribute(Top(stack), a), r);
      AttributeForced(root, stack, a, rest, r);
    }
  }

  // ----- Trees that do not come back --------------------------------------

  function OneValue(v: TextValue): TextNode { TextNode.Node("node", [Attribute("value", v)], []) }

  /** A backslash before a brace, a backslash in an array and an apostrophe in an array are each lost. */
  lemma LostValues(v: TextValue, layout: Layout, depth: int)
    requires v == Str("", "\\{") || v == StrArray(["\\"]) || v == StrArray(["'"])
    requires SkippableLayout(layout)
    ensures PrintableTree(OneValue(v))
    ensures Parse(Initial(NEW_NODE), NodeText(OneValue(v), layout, depth) + "") != Success(Ready(OneValue(v), []))
  {
    hide Parse, NodeText;
    assert NulFree("node") && NulFree("value") && Printable(v);
    assert PrintableAttribute(OneValue(v).attributes[0]);
    assert !SettledValue(OneValue(v).attributes[0].value) by {
      if v.Str? {
        assert v.text[0] == '\\' && IsSpecial(v.text[1]);
      } else {
        assert !Unquotable(v.strings[0]) by { assert v.strings[0][0] == '\\' || v.strings[0][0] == '\''; }
      }
    }
    TextRoundTrip(OneValue(v), layout, depth, "");
  }
}
