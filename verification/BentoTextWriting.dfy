/**
  Writing nodes to a text stream, piece by piece, as `writeToBentoTextStream`
  does for attributes and nodes.
 */
module BentoTextWriting {
  import opened CStrings
  import opened BentoModel
  import opened BentoEscape
  import opened BentoText
  import opened BentoNodes

  /** The characters written so far. */
  class TextStream {
    var text: string

    constructor ()
      ensures text == ""
    {
      text := "";
    }

    method WriteString(s: string)
      modifies this
      ensures text == old(text) + s
    {
      text := text + s;
    }
  }

  method WriteLineEnd(stream: TextStream, layout: Layout)
    modifies stream
    ensures stream.text == old(stream.text) + layout.Line()
  {
    if layout.lineWrap {
      stream.WriteString(layout.lineEnd);
    } else {
      assert stream.text + "" == stream.text;
    }
  }

  /** `_indent`: a string of spaces, built one by one. */
  method IndentText(depth: int) returns (spaces: string)
    ensures spaces == Spaces(depth)
  {
    spaces := "";
    assert "" + Spaces(depth) == Spaces(depth);
    var i := 0;
    while i < depth
      invariant 0 <= i && (depth >= 0 ==> i <= depth)
      invariant Spaces(depth) == spaces + Spaces(depth - i)
    {
      assert Spaces(depth - i) == " " + Spaces(depth - i - 1);
      spaces := spaces + " ";
      i := i + 1;
    }
  }

  method WriteIndent(stream: TextStream, layout: Layout, depth: int)
    modifies stream
    ensures stream.text == old(stream.text) + layout.Indent(depth)
  {
    if layout.lineWrap && depth > 0 {
      var spaces := IndentText(depth);
      stream.WriteString(spaces);
    } else {
      assert stream.text + "" == stream.text;
    }
  }

  /** `["name"type=value]` */
  function Bracketed(name: string, typeText: string, value: string): string
  {
    "[\"" + name + "\"" + typeText + "=" + value + "]"
  }

  lemma AttributeTextForm(a: TextAttribute)
    requires Textual(a.value)
    ensures AttributeText(a) == Bracketed(CStr(Escape(a.name)), TypeText(a.value), QuotedValueText(a.value))
  {
    hide Escape, CStr, TypeText, QuotedValueText;
  }

  method WriteAttribute(a: TextAttribute, stream: TextStream)
    requires Textual(a.value)
    modifies stream
    ensures stream.text == old(stream.text) + AttributeText(a)
  {
    hide Escape, CStr, Code, ValueText, AttributeText, Bracketed;
    AttributeTextForm(a);
    var name := EscapeString(a.name);
    var valueString := ValueText(a.value);
    if a.value.Str? {
      valueString := EscapeString(valueString);
      if a.value.encoding == "" {
        assert "" + "\"" + CStr(valueString) + "\"" == "\"" + CStr(valueString) + "\"";
        stream.WriteString(Bracketed(CStr(name), "", "\"" + CStr(valueString) + "\""));
      } else {
        stream.WriteString(Bracketed(CStr(name), "",
                                     "(" + CStr(a.value.encoding) + ")" + "\"" + CStr(valueString) + "\""));
      }
    } else if a.value.Char? {
      valueString := EscapeString(valueString);
      stream.WriteString(Bracketed(CStr(name), "", "'" + CStr(valueString) + "'"));
    } else if TypeIsInferred(a.value) {
      stream.WriteString(Bracketed(CStr(name), "", CStr(valueString)));
    } else {
      var dataType := EscapeString(Code(Tag(a.value)));
      if a.value.StrArray? {
        stream.WriteString(Bracketed(CStr(name), "(" + CStr(dataType) + ")", "'" + CStr(valueString) + "'"));
      } else {
        valueString := EscapeString(valueString);
        stream.WriteString(Bracketed(CStr(name), "(" + CStr(dataType) + ")", "\"" + CStr(valueString) + "\""));
      }
    }
  }

  method WriteAttributes(n: BentoNode, stream: TextStream)
    requires forall i :: 0 <= i < |n.attributes| ==> Textual(n.attributes[i].value)
    modifies stream
    ensures stream.text == old(stream.text) + AttributesText(n.attributes)
  {
    hide AttributeText, Textual;
    var i := 0;
    assert n.attributes[0..] == n.attributes;
    while i < |n.attributes|
      invariant 0 <= i <= |n.attributes|
      invariant old(stream.text) + AttributesText(n.attributes) == stream.text + AttributesText(n.attributes[i..])
    {
      assert n.attributes[i..][1..] == n.attributes[i + 1..];
      WriteAttribute(n.attributes[i], stream);
      stream.WriteString(" ");
      i := i + 1;
    }
  }

  method WriteChildren(n: BentoNode, stream: TextStream, layout: Layout, depth: int, ghost trees: Trees)
    requires Forest(trees) && n in trees
    requires forall i :: 0 <= i < |trees[n].children| ==> TextualTree(trees[n].children[i])
    modifies stream
    ensures stream.text == old(stream.text) + ChildrenText(trees[n].children, layout, depth)
    decreases trees[n], 0
  {
    hide NodeText, TextualTree, Forest, Shows;
    ghost var ts := trees[n].children;
    var i := 0;
    assert ts[0..] == ts;
    ChildrenShown(n, trees);
    while i < |n.children|
      invariant 0 <= i <= |n.children| == |ts|
      invariant old(stream.text) + ChildrenText(ts, layout, depth) == stream.text + ChildrenText(ts[i..], layout, depth)
    {
      assert ts[i..][1..] == ts[i + 1..];
      WriteNode(n.children[i], stream, layout, depth, trees);
      stream.WriteString(" ");
      i := i + 1;
    }
  }

  lemma ChildrenShown(n: BentoNode, trees: Trees)
    requires Forest(trees) && n in trees
    ensures n.name == trees[n].name && n.attributes == trees[n].attributes && |n.children| == |trees[n].children|
    ensures forall i :: 0 <= i < |n.children| ==> n.children[i] in trees && trees[n.children[i]] == trees[n].children[i]
  {
    assert Shows(n, |n.children|, trees[n], trees);
  }

  method WriteNode(n: BentoNode, stream: TextStream, layout: Layout, depth: int, ghost trees: Trees)
    requires Forest(trees) && n in trees && TextualTree(trees[n])
    modifies stream
    ensures stream.text == old(stream.text) + NodeText(trees[n], layout, depth)
    decreases trees[n], 1
  {
    hide *;
    ghost var before := stream.text;
    ChildrenShown(n, trees);
    PartsTextual(trees[n]);
    WriteLineEnd(stream, layout);
    WriteIndent(stream, layout, depth);
    var name := EscapeString(n.name);
    stream.WriteString("{ \"" + CStr(name) + "\" ");
    WriteAttributes(n, stream);
    WriteChildren(n, stream, layout, depth + 1, trees);
    if |n.children| != 0 {
      WriteLineEnd(stream, layout);
      WriteIndent(stream, layout, depth);
    }
    stream.WriteString("}");
    NodeTextParts(trees[n], layout, depth, before);
  }

  lemma PartsTextual(t: TextNode)
    requires TextualTree(t)
    ensures forall i :: 0 <= i < |t.attributes| ==> Textual(t.attributes[i].value)
    ensures forall i :: 0 <= i < |t.children| ==> TextualTree(t.children[i])
  {
  }

  /** Writes in sequence group to the left, the text of a node to the right. */
  lemma Regroup(before: string, line: string, indent: string, name: string, attributes: string, children: string,
                close: string)
    ensures before + (line + (indent + ("{" + (" \"" + (name + ("\" " + (attributes + (children + close))))))))
         == before + line + indent + ("{ \"" + name + "\" ") + attributes + children + close
  {
    var tail := attributes + (children + close);
    assert tail == attributes + children + close;
    assert "{" + (" \"" + (name + ("\" " + tail))) == ("{ \"" + name + "\" ") + tail;
  }

  lemma NodeTextForm(t: TextNode, layout: Layout, depth: int)
    requires TextualTree(t)
    ensures NodeText(t, layout, depth)
         == layout.Line() + (layout.Indent(depth) + ("{" + (" \"" + (CStr(Escape(t.name)) + ("\" "
            + (AttributesText(t.attributes) + (ChildrenText(t.children, layout, depth + 1)
            + ((if t.children == [] then "" else layout.Line() + layout.Indent(depth)) + "}"))))))))
  {
    hide Escape, CStr, AttributesText, ChildrenText, Textual;
  }

  /** The layout of a node, as the sequence of writes produces it. */
  lemma NodeTextParts(t: TextNode, layout: Layout, depth: int, before: string)
    requires TextualTree(t)
    ensures var inside := before + layout.Line() + layout.Indent(depth) + ("{ \"" + CStr(Escape(t.name)) + "\" ")
                          + AttributesText(t.attributes) + ChildrenText(t.children, layout, depth + 1);
            before + NodeText(t, layout, depth)
            == if t.children == [] then inside + "}" else inside + layout.Line() + layout.Indent(depth) + "}"
  {
    hide *;
    PartsTextual(t);
    var line, indent, name := layout.Line(), layout.Indent(depth), CStr(Escape(t.name));
    var attributes, children := AttributesText(t.attributes), ChildrenText(t.children, layout, depth + 1);
    NodeTextForm(t, layout, depth);
    if t.children == [] {
      assert "" + "}" == "}";
      Regroup(before, line, indent, name, attributes, children, "}");
    } else {
      Regroup(before, line, indent, name, attributes, children, line + indent + "}");
      assert line + indent + "}" == line + (indent + "}");
    }
  }
}
