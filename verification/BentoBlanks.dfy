/**
  The characters the parser skips, stated by their codes: between tokens they
  are as good as absent, they end an unquoted value, and no other character
  does either.  So text printed with line ends is read like text on one line.
 */
module BentoBlanks {
  import opened Wrappers
  import opened BentoText
  import opened BentoParsing
  import opened BentoRoundTrip
  import opened BentoTextRoundTrip
  import opened BentoSurvival

  /** Between tokens, exactly the characters up to U+0020 and U+007F leave the parser as it is. */
  lemma BlankStep(st: ParserState, c: char)
    requires st.token in {Start, InNode, InAttribute}
    ensures ParseCharacter(st, c) == Success(st) <==> c as int <= 0x20 || c as int == 0x7F
  {
  }

  /** Without a pending escape, exactly these end an unquoted value and leave the attribute open. */
  lemma BlankEndsValue(st: ParserState, c: char)
    requires st.token.Unquoted? && !st.escape
    ensures ParseCharacter(st, c) == Success(st.(token := InAttribute, value := st.pending, pending := ""))
       <==> c as int <= 0x20 || c as int == 0x7F
  {
  }

  /** With one, and in quotes, names, types and encodings, they are text like any other. */
  lemma BlankIsText(st: ParserState, c: char)
    requires c as int <= 0x20 || c as int == 0x7F
    requires st.token in {InNodeName, InAttributeName, InAttributeType, PreValueQualifier, DoubleQuoted, SingleQuoted}
          || (st.token.Unquoted? && st.escape)
    ensures ParseCharacter(st, c).Success? && ParseCharacter(st, c).value.pending == st.pending + [c]
    ensures ParseCharacter(st, c).value.token == st.token
  {
  }

  /** Any number of blanks at any point between tokens changes nothing. */
  lemma {:induction false} BlanksIgnored(st: ParserState, a: string, blanks: string, b: string)
    requires match Parse(st, a) case Failure(_) => false case Success(at) => at.token in {Start, InNode, InAttribute}
    requires forall i :: 0 <= i < |blanks| ==> blanks[i] as int <= 0x20 || blanks[i] as int == 0x7F
    ensures Parse(st, a + blanks + b) == Parse(st, a + b)
  {
    hide Parse, ParseCharacter;
    var at := Parse(st, a).value;
    BlankRun(at, blanks);
    ParseConcat(st, a + blanks, b);
    ParseConcat(st, a, blanks);
    ParseConcat(st, a, b);
  }

  lemma {:induction false} BlankRun(st: ParserState, blanks: string)
    requires st.token in {Start, InNode, InAttribute}
    requires forall i :: 0 <= i < |blanks| ==> blanks[i] as int <= 0x20 || blanks[i] as int == 0x7F
    ensures Parse(st, blanks) == Success(st)
  {
    hide ParseCharacter;
    if blanks != "" {
      BlankStep(st, blanks[0]);
      BlankRun(st, blanks[1..]);
    }
  }

  // ----- Line ends --------------------------------------------------------

  /** The line ends that printed text comes with. */
  predicate IsLineEnd(s: string) { s == "\n" || s == "\r" || s == "\r\n" }

  /** The round trip of every tree on one line or wrapped, with any of the usual line ends, one of them at the end. */
  lemma PrintedSurvives(t: TextNode, lineWrap: bool, lineEnd: string, depth: int)
    requires FittingTree(t) && IsLineEnd(lineEnd)
    ensures var text := NodeText(t, Layout(lineWrap, lineEnd), depth);
            && (Parse(Initial(NEW_NODE), text) == Success(Ready(t, [])) <==> CarriedTree(t) && SettledTree(t))
            && (Parse(Initial(NEW_NODE), text + lineEnd) == Success(Ready(t, [])) <==> CarriedTree(t) && SettledTree(t))
  {
    hide Parse, NodeText, CarriedTree, SettledTree, FittingTree;
    var text := NodeText(t, Layout(lineWrap, lineEnd), depth);
    Survives(t, Layout(lineWrap, lineEnd), depth, "");
    Survives(t, Layout(lineWrap, lineEnd), depth, lineEnd);
    assert text + "" == text;
  }

  /** A smallest tree, over several lines. */
  lemma WrappedText()
    ensures NodeText(TextNode.Node("a", [], [TextNode.Node("b", [], [])]), Layout(true, "\n"), 0)
         == "\n{ \"a\" \n { \"b\" } \n}"
  {
  }
}
