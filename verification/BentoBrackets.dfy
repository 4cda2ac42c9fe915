/**
  Closing brackets are never made up: a tree under construction holds at most
  as many, counting one for each attribute's end, as have been read, and its
  printed text holds exactly as many as the tree.
 */
module BentoBrackets {
  import opened Wrappers
  import opened CStrings
  import opened Counting
  import opened BentoModel
  import opened BentoEscape
  import opened BentoText
  import opened BentoTextValues
  import opened BentoParsing
  import opened BentoStringArrays

  function Brackets(s: string): nat { Occurs(s, ']') }

  function ValueBrackets(v: TextValue): nat
  {
    match v
    case Str(encoding, text) => Brackets(encoding) + Brackets(text)
    case Char(c) => if c == ']' as int then 1 else 0
    case StrArray(ss) => OccursAll(ss, ']')
    case _ => 0
  }

  function AttributeBrackets(a: TextAttribute): nat { Brackets(a.name) + ValueBrackets(a.value) + 1 }

  function AttributesBrackets(attributes: seq<TextAttribute>): nat
  {
    if attributes == [] then 0 else AttributeBrackets(attributes[0]) + AttributesBrackets(attributes[1..])
  }

  function NodesBrackets(ts: seq<TextNode>): nat
  {
    if ts == [] then 0 else NodeBrackets(ts[0]) + NodesBrackets(ts[1..])
  }

  function NodeBrackets(t: TextNode): nat
  {
    Brackets(t.name) + AttributesBrackets(t.attributes) + NodesBrackets(t.children)
  }

  lemma {:induction false} AttributesAppend(attributes: seq<TextAttribute>, a: TextAttribute)
    ensures AttributesBrackets(attributes + [a]) == AttributesBrackets(attributes) + AttributeBrackets(a)
  {
    hide AttributeBrackets;
    if attributes == [] {
      assert [] + [a] == [a] && [a][1..] == [];
    } else {
      assert (attributes + [a])[1..] == attributes[1..] + [a];
      AttributesAppend(attributes[1..], a);
    }
  }

  lemma {:induction false} NodesAppend(ts: seq<TextNode>, t: TextNode)
    ensures NodesBrackets(ts + [t]) == NodesBrackets(ts) + NodeBrackets(t)
  {
    hide NodeBrackets;
    if ts == [] {
      assert [] + [t] == [t] && [t][1..] == [];
    } else {
      assert (ts + [t])[1..] == ts[1..] + [t];
      NodesAppend(ts[1..], t);
    }
  }

  // ----- What the parser holds --------------------------------------------

  function Held(st: ParserState): nat
  {
    (if st.stack == [] then NodeBrackets(st.root) else NodesBrackets(st.stack))
      + Brackets(st.pending) + Brackets(st.name) + Brackets(st.qualifier) + Brackets(st.value)
  }

  lemma TopBrackets(stack: seq<TextNode>, top: TextNode)
    requires stack != []
    ensures NodesBrackets(stack) == NodesBrackets(stack[..|stack| - 1]) + NodeBrackets(Top(stack))
    ensures NodesBrackets(WithTop(stack, top)) == NodesBrackets(stack[..|stack| - 1]) + NodeBrackets(top)
  {
    hide NodeBrackets, NodesBrackets;
    NodesAppend(stack[..|stack| - 1], Top(stack));
    NodesAppend(stack[..|stack| - 1], top);
    assert stack == stack[..|stack| - 1] + [Top(stack)];
  }

  lemma AppendBrackets(s: string, c: char)
    ensures Brackets(s + [c]) == Brackets(s) + (if c == ']' then 1 else 0)
  {
    OccursAppend(s, c, ']');
  }

  lemma NoBrackets()
    ensures Brackets("") == 0 && NodeBrackets(NEW_NODE) == 0 && NodesBrackets([]) == 0 && AttributesBrackets([]) == 0
  {
    NameBrackets();
    hide Occurs;
    assert Occurs("", ']') == 0 by { OccursIff("", ']'); }
  }

  lemma NameBrackets()
    ensures Brackets("uninitialized") == 0
  {
    hide Occurs;
    OccursIff("uninitialized", ']');
  }

  // ----- Values hold no more than their text ------------------------------

  lemma InnerBrackets(s: string)
    ensures Brackets(Inner(s)) <= Brackets(s)
  {
    if |s| >= 2 {
      OccursSlice(s, 1, |s| - 1, ']');
    }
  }

  lemma CStrBrackets(s: string)
    ensures Brackets(CStr(s)) <= Brackets(s)
  {
    assert CStr(s) == s[..|CStr(s)|];
    OccursSlice(s, |CStr(s)|, |s|, ']');
  }

  lemma {:induction false} UnescapedBrackets(s: string, c: char, from: nat)
    requires c != ']'
    ensures Brackets(ReplaceFrom(s, ['\\', c], [c], from)) <= Brackets(s)
    decreases |s| - from
  {
    hide *;
    var at := FirstMatch(s, ['\\', c], from);
    ReplaceFromStep(s, ['\\', c], [c], from);
    if at >= 0 {
      var r := Reformatted(s, ['\\', c], [c], at);
      ReformattedBrackets(s, c, at);
      UnescapedBrackets(r, c, at + 1);
    }
  }

  lemma ReformattedBrackets(s: string, c: char, at: nat)
    requires c != ']' && at + 2 <= |s|
    ensures Brackets(Reformatted(s, ['\\', c], [c], at)) <= Brackets(s)
  {
    hide CStr, Occurs;
    CStrBrackets(s[..at]);
    CStrBrackets(s[at + 2..]);
    CStrBrackets([c]);
    OccursConcat(CStr(s[..at]) + CStr([c]), CStr(s[at + 2..]), ']');
    OccursConcat(CStr(s[..at]), CStr([c]), ']');
    OccursSlice(s, at, |s|, ']');
    assert s[at..][2..] == s[at + 2..];
    OccursSlice(s[at..], 2, |s| - at, ']');
    OccursIff([c], ']');
  }

  lemma UnescapeBrackets(s: string)
    ensures Brackets(Unescape(s)) <= Brackets(s)
  {
    hide ReplaceFrom, Occurs;
    var s1 := Unescaped(s, '\'');
    var s2 := Unescaped(s1, '"');
    var s3 := Unescaped(s2, '}');
    var s4 := Unescaped(s3, '{');
    UnescapedBrackets(s, '\'', 0);
    UnescapedBrackets(s1, '"', 0);
    UnescapedBrackets(s2, '}', 0);
    UnescapedBrackets(s3, '{', 0);
    UnescapedBrackets(s4, '\\', 0);
  }

  lemma OneBracket(s: string)
    ensures s != "" ==> (if s[0] == ']' then 1 else 0) <= Brackets(s)
  {
  }

  lemma StringsBrackets(s: string)
    requires ReadStrings(s).Some?
    ensures OccursAll(ReadStrings(s).value, ']') <= Brackets(s)
  {
    ReaderKeeps(s, ']');
  }

  lemma TaggedBrackets(tag: TypeTag, s: string, qualifier: string)
    requires ReadTagged(tag, s, qualifier).Success?
    ensures ValueBrackets(ReadTagged(tag, s, qualifier).value) <= Brackets(s) + Brackets(qualifier)
  {
    hide ReadStrings, ScanInts, ReadPoints, ReadElements, SplitCommas, ReadBools, CStr, Occurs, OccursAll, ReadScalar;
    OneBracket(s);
    if tag.ScalarTag? {
      ScalarBrackets(tag.kind, s);
    } else if tag.StrArrayTag? {
      StringsBrackets(s);
    }
  }

  lemma ScalarBrackets(k: ScalarKind, s: string)
    requires ReadScalar(k, s).Success?
    ensures ValueBrackets(ReadScalar(k, s).value) == 0
  {
    hide Occurs, OccursAll;
  }

  /** The value made of collected text holds no more brackets than the text. */
  lemma ReadBrackets(typeName: string, value: string, qualifier: string)
    requires ReadValue(typeName, value, qualifier).Success?
    ensures ValueBrackets(ReadValue(typeName, value, qualifier).value) <= Brackets(value) + Brackets(qualifier)
  {
    hide ReadTagged, ReadScalar, TagOf, Unescape, CStr, Inner, Occurs, OccursAll;
    var inner := Inner(value);
    InnerBrackets(value);
    UnescapeBrackets(inner);
    OneBracket(Unescape(inner));
    if typeName != "" {
      var tag := TagOf(CStr(typeName));
      if tag.Some? {
        var quoted := StartsWith(value, '"') || StartsWith(value, '\'');
        var s := if !quoted then value else if tag == Some(StrArrayTag) then inner else Unescape(inner);
        if ReadTagged(tag.value, s, qualifier).Success? {
          TaggedBrackets(tag.value, s, qualifier);
        }
      }
    } else if ReadScalar(S32, value).Success? {
      ScalarBrackets(S32, value);
    }
  }

  // ----- One character, and runs ------------------------------------------

  lemma EndHeld(st: ParserState)
    requires EndAttribute(st).Success?
    ensures Held(EndAttribute(st).value) <= Held(st) + 1
  {
    hide ReadValue, NodeBrackets, NodesBrackets, ValueBrackets, Occurs;
    var v := ReadValue(st.typeName, st.value, st.qualifier).value;
    ReadBrackets(st.typeName, st.value, st.qualifier);
    var a := Attribute(st.name, v);
    TopBrackets(st.stack, AddAttribute(Top(st.stack), a));
    GrownBrackets(Top(st.stack), a);
    NoBrackets();
  }

  lemma GrownBrackets(t: TextNode, a: TextAttribute)
    ensures NodeBrackets(AddAttribute(t, a)) == NodeBrackets(t) + AttributeBrackets(a)
  {
    hide AttributesBrackets, AttributeBrackets, NodesBrackets, Occurs;
    AttributesAppend(t.attributes, a);
  }

  lemma CloseHeld(st: ParserState)
    requires CloseNode(st).Success?
    ensures Held(CloseNode(st).value) == Held(st)
  {
    hide NodesBrackets, NodeBrackets, Occurs, AddChild;
    var below, closed := st.stack[..|st.stack| - 1], Top(st.stack);
    TopBrackets(st.stack, closed);
    NoBrackets();
    if below != [] {
      TopBrackets(below, AddChild(Top(below), closed));
      ChildBrackets(Top(below), closed);
    }
  }

  lemma ChildBrackets(t: TextNode, child: TextNode)
    ensures NodeBrackets(AddChild(t, child)) == NodeBrackets(t) + NodeBrackets(child)
  {
    hide AttributesBrackets, NodesBrackets, Occurs;
    NodesAppend(t.children, child);
  }

  lemma NameHeld(st: ParserState)
    requires st.stack != []
    ensures Held(st.(pending := "", stack := WithTop(st.stack, Top(st.stack).(name := st.pending)))) <= Held(st)
  {
    hide AttributesBrackets, NodesBrackets, Occurs;
    TopBrackets(st.stack, Top(st.stack).(name := st.pending));
    NoBrackets();
  }

  lemma StepInNodeHeld(st: ParserState, c: char)
    requires StepInNode(st, c).Success?
    ensures Held(StepInNode(st, c).value) <= Held(st)
  {
    hide NodesBrackets, NodeBrackets, Occurs, CloseNode;
    NoBrackets();
    if c == '{' && st.stack != [] {
      NodesAppend(st.stack, NEW_NODE);
    } else if c == '}' {
      CloseHeld(st);
    }
  }

  /** Reading a character adds at most that character. */
  lemma HeldStep(st: ParserState, c: char)
    requires !st.token.Start? && ParseCharacter(st, c).Success?
    ensures var next := ParseCharacter(st, c).value;
            !next.token.Start? && Held(next) <= Held(st) + (if c == ']' then 1 else 0)
  {
    hide NodesBrackets, NodeBrackets, Occurs, EndAttribute, CloseNode, StepInNode, WithTop;
    NoBrackets();
    AppendBrackets(st.pending, c);
    AppendBrackets(st.pending, '\\');
    match st.token {
      case InNode => StepInNodeHeld(st, c); InNodeToken(st, c);
      case InNodeName => if st.stack != [] { NameHeld(st); }
      case InAttribute => if c == ']' { EndHeld(st); EndToken(st); }
      case Unquoted =>
        var closed := st.(value := st.pending, pending := "");
        if c == ']' && !st.escape { EndHeld(closed); EndToken(closed); }
      case _ =>
    }
  }

  lemma InNodeToken(st: ParserState, c: char)
    requires st.token.InNode? && StepInNode(st, c).Success?
    ensures !StepInNode(st, c).value.token.Start?
  {
  }

  lemma EndToken(st: ParserState)
    requires EndAttribute(st).Success?
    ensures !EndAttribute(st).value.token.Start?
  {
  }

  lemma {:induction false} HeldRun(st: ParserState, s: string, end: ParserState)
    requires !st.token.Start? && Parse(st, s) == Success(end)
    ensures !end.token.Start? && Held(end) <= Held(st) + Brackets(s)
    decreases |s|
  {
    hide ParseCharacter, Held;
    if s != "" {
      HeldStep(st, s[0]);
      HeldRun(ParseCharacter(st, s[0]).value, s[1..], end);
    }
  }
}
