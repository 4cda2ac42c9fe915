/**
  Parsing what was printed.  The text of a tree, fed to the parser character by
  character, rebuilds the tree in the root node, with every string value
  unescaped once more than it was escaped.
 */
module BentoRoundTrip {
  import opened Wrappers
  import opened CStrings
  import opened Decimal
  import opened BentoModel
  import opened BentoEscape
  import opened BentoText
  import opened BentoTextValues
  import opened BentoValueLaws
  import opened BentoParsing

  /** Parsing `s` in state `from` ends in state `to`. */
  predicate Leads(from: ParserState, s: string, to: ParserState) { Parse(from, s) == Success(to) }

  lemma Then(from: ParserState, a: string, mid: ParserState, b: string, to: ParserState)
    requires Leads(from, a, mid) && Leads(mid, b, to)
    ensures Leads(from, a + b, to)
  {
    hide Parse;
    ParsePrefix(from, a, mid, b);
  }

  lemma Char1(from: ParserState, c: char, to: ParserState)
    requires ParseCharacter(from, c) == Success(to)
    ensures Leads(from, [c], to)
  {
    hide ParseCharacter, Parse;
    ParseOne(from, c);
  }

  lemma Nothing(st: ParserState)
    ensures Leads(st, "", st)
  {
  }

  /** Parsing one character and then `s`. */
  lemma CharThen(from: ParserState, c: char, mid: ParserState, s: string, to: ParserState)
    requires ParseCharacter(from, c) == Success(mid) && Leads(mid, s, to)
    ensures Leads(from, [c] + s, to)
  {
    hide *;
    Char1(from, c, mid);
    Then(from, [c], mid, s, to);
  }

  // ----- Pieces of text ---------------------------------------------------

  predicate ReadsEscapes(t: TokenState) { t.InNodeName? || t.InAttributeName? || t.DoubleQuoted? || t.SingleQuoted? }

  /** Two steps collect an escaped special character, one step any other. */
  lemma EscapedCharacter(st: ParserState, c: char)
    requires ReadsEscapes(st.token) && !st.escape
    ensures var to := st.(pending := st.pending + [c]);
            Leads(st, if IsSpecial(c) then ['\\', c] else [c], to)
  {
    hide Parse;
    var to := st.(pending := st.pending + [c]);
    if IsSpecial(c) {
      Char1(st.(escape := true), c, to);
      assert ['\\', c] == ['\\'] + [c];
      CharThen(st, '\\', st.(escape := true), [c], to);
    } else {
      Char1(st, c, to);
    }
  }

  /** In names and quoted values, escaped text is collected as the text itself. */
  lemma {:induction false} EscapedText(st: ParserState, s: string)
    requires ReadsEscapes(st.token) && !st.escape
    ensures Leads(st, Escape(s), st.(pending := st.pending + s))
    decreases |s|
  {
    hide Leads;
    if s == "" {
      assert st.pending + s == st.pending;
      Nothing(st);
    } else {
      var next := st.(pending := st.pending + [s[0]]);
      EscapedCharacter(st, s[0]);
      EscapedText(next, s[1..]);
      assert next.pending + s[1..] == st.pending + s;
      Then(st, if IsSpecial(s[0]) then ['\\', s[0]] else [s[0]], next, Escape(s[1..]), st.(pending := st.pending + s));
    }
  }

  /** In types and encodings, text without a closing parenthesis is collected as it is. */
  lemma {:induction false} ParenthesizedText(st: ParserState, s: string)
    requires st.token.InAttributeType? || st.token.PreValueQualifier?
    requires forall i :: 0 <= i < |s| ==> s[i] != ')'
    ensures Leads(st, s, st.(pending := st.pending + s))
    decreases |s|
  {
    hide Leads;
    if s == "" {
      assert st.pending + s == st.pending;
      Nothing(st);
    } else {
      var next := st.(pending := st.pending + [s[0]]);
      ParenthesizedText(next, s[1..]);
      assert next.pending + s[1..] == st.pending + s && [s[0]] + s[1..] == s;
      CharThen(st, s[0], next, s[1..], st.(pending := st.pending + s));
    }
  }

  /** In an unquoted value, plain text is collected as it is. */
  lemma {:induction false} PlainUnquoted(st: ParserState, s: string)
    requires st.token.Unquoted? && !st.escape && PlainText(s)
    ensures Leads(st, s, st.(pending := st.pending + s))
    decreases |s|
  {
    hide Leads;
    if s == "" {
      assert st.pending + s == st.pending;
      Nothing(st);
    } else {
      var next := st.(pending := st.pending + [s[0]]);
      PlainUnquoted(next, s[1..]);
      assert next.pending + s[1..] == st.pending + s && [s[0]] + s[1..] == s;
      CharThen(st, s[0], next, s[1..], st.(pending := st.pending + s));
    }
  }

  /** Skippable characters between tokens change nothing. */
  lemma {:induction false} SkipText(st: ParserState, s: string)
    requires st.token.Start? || st.token.InNode?
    requires forall i :: 0 <= i < |s| ==> IsSkippable(s[i])
    ensures Leads(st, s, st)
    decreases |s|
  {
    hide Leads;
    if s == "" {
      Nothing(st);
    } else {
      SkipText(st, s[1..]);
      assert [s[0]] + s[1..] == s;
      CharThen(st, s[0], st, s[1..], st);
    }
  }

  // ----- Attributes -------------------------------------------------------

  /** Between the tokens of an open node. */
  function Ready(root: TextNode, stack: seq<TextNode>): ParserState
  {
    ParserState(InNode, "", false, stack, root, "", "", "", "")
  }

  /** What a value becomes on the way through the text: strings are unescaped a second time. */
  function Reread(v: TextValue): TextValue { if v.Str? then v.(text := Unescape(v.text)) else v }

  function RereadAttribute(a: TextAttribute): TextAttribute { a.(value := Reread(a.value)) }

  function WithAttribute(stack: seq<TextNode>, a: TextAttribute): seq<TextNode>
    requires stack != []
  {
    WithTop(stack, AddAttribute(Top(stack), a))
  }

  /** After `=`, the quoted or unquoted value and the closing bracket add the attribute. */
  predicate ValueLeads(st: ParserState, v: TextValue)
    requires Textual(v) && st.stack != []
  {
    Leads(st, QuotedValueText(v) + "]", Ready(st.root, WithAttribute(st.stack, Attribute(st.name, Reread(v)))))
  }

  predicate BeforeValue(st: ParserState)
  {
    st.token.PreValue? && !st.escape && st.pending == "" && st.value == "" && st.stack != []
  }

  /** A value between matching quotes, followed by the closing bracket. */
  lemma QuotedRun(st: ParserState, quote: char, text: string, collected: string, v: TextValue)
    requires BeforeValue(st) && quote in {'"', '\''}
    requires var open := st.(token := if quote == '"' then DoubleQuoted else SingleQuoted, pending := [quote]);
             Leads(open, text, open.(pending := [quote] + collected))
    requires ReadValue(st.typeName, [quote] + collected + [quote], st.qualifier) == Success(v)
    ensures Leads(st, [quote] + (text + ([quote] + "]")),
                  Ready(st.root, WithAttribute(st.stack, Attribute(st.name, v))))
  {
    hide Leads, ReadValue;
    var open := st.(token := if quote == '"' then DoubleQuoted else SingleQuoted, pending := [quote]);
    var full := open.(pending := [quote] + collected);
    var closed := full.(token := InAttribute, value := [quote] + collected + [quote], pending := "");
    var done := Ready(st.root, WithAttribute(st.stack, Attribute(st.name, v)));
    Char1(closed, ']', done);
    CharThen(full, quote, closed, "]", done);
    Then(open, text, full, [quote] + "]", done);
    assert [] + [quote] == [quote];
    CharThen(st, quote, open, text + ([quote] + "]"), done);
  }

  lemma InnerQuoted(quote: char, s: string)
    ensures Inner([quote] + s + [quote]) == s
  {
  }

  /** The encoding in parentheses in front of a quoted value. */
  lemma QualifierRun(st: ParserState, e: string, rest: string, done: ParserState)
    requires BeforeValue(st) && forall i :: 0 <= i < |e| ==> e[i] != ')'
    requires Leads(st.(qualifier := e), rest, done)
    ensures Leads(st, "(" + (e + (")" + rest)), done)
  {
    hide Leads;
    var inside := st.(token := PreValueQualifier);
    var full := inside.(pending := e);
    ParenthesizedText(inside, e);
    assert "" + e == e;
    CharThen(full, ')', st.(qualifier := e), rest, done);
    Then(inside, e, full, ")" + rest, done);
    CharThen(st, '(', inside, e + (")" + rest), done);
  }

  /** An escaped text between double quotes is a string value. */
  lemma StringRun(st: ParserState, text: string)
    requires BeforeValue(st) && st.typeName == ""
    ensures Leads(st, "\"" + (Escape(text) + ("\"" + "]")),
                  Ready(st.root, WithAttribute(st.stack, Attribute(st.name, Str(st.qualifier, Unescape(text))))))
  {
    hide Leads, Unescape, Escape, WithAttribute;
    EscapedText(st.(token := DoubleQuoted, pending := "\""), text);
    InnerQuoted('"', text);
    StringRead("\"" + text + "\"", st.qualifier);
    QuotedRun(st, '"', Escape(text), text, Str(st.qualifier, Unescape(text)));
  }

  lemma StringValue(st: ParserState, v: TextValue)
    requires BeforeValue(st) && st.typeName == "" && st.qualifier == "" && v.Str? && Readable(v)
    ensures ValueLeads(st, v)
  {
    hide Leads, Unescape, Escape, CStr, WithAttribute;
    var e, text := v.encoding, v.text;
    var rest := "\"" + (Escape(text) + ("\"" + "]"));
    var done := Ready(st.root, WithAttribute(st.stack, Attribute(st.name, Reread(v))));
    EscapeNulFree(text);
    StringRun(st.(qualifier := e), text);
    if e == "" {
      assert st == st.(qualifier := e);
      assert QuotedValueText(v) + "]" == rest;
    } else {
      QualifierRun(st, e, rest, done);
      assert QuotedValueText(v) + "]" == "(" + (e + (")" + rest));
    }
  }

  /** A double-quoted value without a type is a string. */
  lemma StringRead(value: string, qualifier: string)
    requires |value| >= 2 && value[0] == '"'
    ensures ReadValue("", value, qualifier) == Success(Str(qualifier, Unescape(Inner(value))))
  {
    hide Unescape;
    assert CStr(value) != "" ==> CStr(value)[0] == '"';
  }

  lemma CharValue(st: ParserState, v: TextValue)
    requires BeforeValue(st) && st.typeName == "" && v.Char? && Textual(v)
    ensures ValueLeads(st, v)
  {
    if v.codePoint == 0 {
      NulValue(st, v);
    } else {
      OtherCharValue(st, v);
    }
  }

  /** NUL is printed as nothing between the quotes. */
  lemma NulValue(st: ParserState, v: TextValue)
    requires BeforeValue(st) && st.typeName == "" && v == Char(0)
    ensures ValueLeads(st, v)
  {
    hide Leads, Unescape, Escape, WithAttribute, ReadValue;
    var open := st.(token := SingleQuoted, pending := "'");
    EscapePlain("\0");
    InnerQuoted('\'', "");
    assert Settled("");
    UnescapeFixes("");
    CharRead("''");
    Nothing(open);
    assert ['\''] + "" == "'" && ['\''] + "" + ['\''] == "''";
    QuotedRun(st, '\'', "", "", v);
    assert QuotedValueText(v) + "]" == "'" + ("" + ("'" + "]"));
  }

  lemma OtherCharValue(st: ParserState, v: TextValue)
    requires BeforeValue(st) && st.typeName == "" && v.Char? && Textual(v) && v.codePoint != 0
    ensures ValueLeads(st, v)
  {
    hide Leads, Unescape, Escape, WithAttribute, ReadValue, CStr;
    var s := [v.codePoint as char];
    assert Settled(s) && NulFree(s);
    UnescapeFixes(s);
    EscapeNulFree(s);
    EscapedText(st.(token := SingleQuoted, pending := "'"), s);
    InnerQuoted('\'', s);
    CharRead("'" + s + "'");
    QuotedRun(st, '\'', Escape(s), s, v);
    assert QuotedValueText(v) + "]" == "'" + (Escape(s) + ("'" + "]"));
  }

  lemma CharRead(value: string)
    requires |value| >= 2 && value[0] == '\''
    ensures var s := Unescape(Inner(value));
            forall q :: ReadValue("", value, q) == Success(Char(if s == "" then 0 else s[0] as int))
  {
    hide Unescape;
    assert CStr(value) != "" ==> CStr(value)[0] == '\'';
  }

  /** Integers and booleans stand unquoted; the closing bracket ends them. */
  lemma UnquotedValue(st: ParserState, v: TextValue)
    requires BeforeValue(st) && st.typeName == "" && Readable(v) && TypeIsInferred(v) && IsPlainValue(v)
    ensures ValueLeads(st, v)
  {
    hide Leads, ValueText, ReadInferred, ReadValue, CStr, WithAttribute, WithTop, ParseCharacter, Ready;
    var s := ValueText(v);
    ValuePlain(v);
    PlainSurvives(s);
    UnquotedRead(v, st.qualifier);
    var first := st.(token := Unquoted, pending := [s[0]]);
    var full := st.(token := Unquoted, pending := s);
    var done := Ready(st.root, WithAttribute(st.stack, Attribute(st.name, v)));
    assert [s[0]] + s[1..] == s;
    PlainUnquoted(first, s[1..]);
    ReadWithoutType(s, st.qualifier);
    EndUnquoted(full, v);
    Char1(full, ']', done);
    Then(first, s[1..], full, "]", done);
    BeginUnquoted(st, s[0]);
    CharThen(st, s[0], first, s[1..] + "]", done);
    assert QuotedValueText(v) + "]" == [s[0]] + (s[1..] + "]");
  }

  lemma ReadWithoutType(s: string, qualifier: string)
    ensures ReadValue("", s, qualifier) == ReadInferred(s, qualifier)
  {
    hide ReadInferred;
  }

  lemma BeginUnquoted(st: ParserState, c: char)
    requires BeforeValue(st) && c != '(' && c != '\\' && c != '"' && c != '\''
    ensures ParseCharacter(st, c) == Success(st.(token := Unquoted, pending := [c]))
  {
    assert "" + [c] == [c];
  }

  lemma EndUnquoted(st: ParserState, v: TextValue)
    requires st.token.Unquoted? && !st.escape && st.stack != []
    requires ReadValue(st.typeName, st.pending, st.qualifier) == Success(v)
    ensures ParseCharacter(st, ']') == Success(Ready(st.root, WithAttribute(st.stack, Attribute(st.name, v))))
  {
    hide ReadValue;
  }

  lemma UnquotedRead(v: TextValue, qualifier: string)
    requires Readable(v) && TypeIsInferred(v) && IsPlainValue(v)
    ensures var s := ValueText(v);
            && s != "" && s[0] != '(' && s[0] != '\\' && s[0] != '"' && s[0] != '\''
            && ReadInferred(s, qualifier) == Success(v)
  {
    hide Print, ReadScalar, CStr, Unescape;
    var s := ValueText(v);
    ValuePlain(v);
    PlainSurvives(s);
    if v.Scalar? {
      PrintShape(v.n);
      ReadScalarText(S32, v.n);
      assert s[0] == '-' || IsDigit(s[0]);
      assert s != "true" && s != "false" && s != "NOW" && s != "NEVER" && s != "PAST" && s != "FUTURE";
    }
  }

  /** Four plain characters, none of them a closing parenthesis. */
  predicate PlainCode(code: string)
  {
    && |code| == 4
    && Plain(code[0]) && Plain(code[1]) && Plain(code[2]) && Plain(code[3])
    && code[0] != ')' && code[1] != ')' && code[2] != ')' && code[3] != ')'
  }

  lemma ScalarCodePlain(k: ScalarKind)
    ensures PlainCode(ScalarCode(k))
  {
  }

  lemma ShapeCodePlain(k: ShapeKind)
    ensures PlainCode(ShapeCode(k))
  {
  }

  lemma CodePlain(t: TypeTag)
    requires ValidTag(t)
    ensures PlainCode(Code(t))
  {
    hide PlainCode, ScalarCode, ShapeCode;
    match t {
      case ScalarTag(k) => ScalarCodePlain(k);
      case ShapeTag(k) => ShapeCodePlain(k);
      case _ => OtherCodePlain(t);
    }
  }

  lemma OtherCodePlain(t: TypeTag)
    requires ValidTag(t) && !t.ScalarTag? && !t.ShapeTag?
    ensures PlainCode(Code(t))
  {
  }

  /** With a type, a double-quoted plain text is read as the type says. */
  lemma TypedPlainValue(st: ParserState, v: TextValue)
    requires BeforeValue(st) && Readable(v) && IsPlainValue(v) && !TypeIsInferred(v)
    requires ValidTag(Tag(v)) && st.typeName == Code(Tag(v))
    ensures ValueLeads(st, v)
  {
    hide Leads, ValueText, ReadTagged, Unescape, Escape, CStr, TagOf, Code, WithAttribute;
    var s := ValueText(v);
    ValuePlain(v);
    PlainSurvives(s);
    CodePlain(Tag(v));
    assert PlainText(st.typeName);
    PlainSurvives(st.typeName);
    TagOfCode(Tag(v));
    ReadPlainValue(v, st.qualifier);
    InnerQuoted('"', s);
    EscapedText(st.(token := DoubleQuoted, pending := "\""), s);
    QuotedRun(st, '"', s, s, v);
    assert QuotedValueText(v) + "]" == "\"" + (s + ("\"" + "]"));
  }

  // ----- String arrays ----------------------------------------------------

  /** Two backslashes and a quote inside single quotes leave one backslash and the quote. */
  lemma RawQuote(st: ParserState)
    requires st.token.SingleQuoted? && !st.escape
    ensures Leads(st, "\\\\\"", st.(pending := st.pending + "\\\""))
  {
    hide Leads;
    var one := st.(escape := true);
    var two := st.(pending := st.pending + ['\\']);
    var done := two.(pending := two.pending + ['"']);
    assert done.pending == st.pending + "\\\"";
    assert ['\\'] + "\\\"" == "\\\\\"" && ['\\'] + "\"" == "\\\"";
    Char1(two, '"', done);
    CharThen(one, '\\', two, "\"", done);
    CharThen(st, '\\', one, "\\\"", done);
  }

  lemma {:induction false} RawInner(st: ParserState, s: string)
    requires st.token.SingleQuoted? && !st.escape && Unquotable(s)
    ensures Leads(st, ReplaceAll(s, "\"", "\\\\\""), st.(pending := st.pending + ReplaceAll(s, "\"", "\\\"")))
    decreases |s|
  {
    hide Leads, ReplaceAll;
    if s == "" {
      EmptyReplaced("\\\\\"");
      EmptyReplaced("\\\"");
      assert st.pending + "" == st.pending;
      Nothing(st);
    } else {
      var next := st.(pending := st.pending + (if s[0] == '"' then "\\\"" else [s[0]]));
      var tail := ReplaceAll(s[1..], "\"", "\\\"");
      RawInner(next, s[1..]);
      ReplaceCharacter(s, "\\\\\"");
      ReplaceCharacter(s, "\\\"");
      if s[0] == '"' {
        RawQuote(st);
      } else {
        Char1(st, s[0], next);
      }
      assert next.pending + tail == st.pending + ((if s[0] == '"' then "\\\"" else [s[0]]) + tail);
      Then(st, if s[0] == '"' then "\\\\\"" else [s[0]], next,
           ReplaceAll(s[1..], "\"", "\\\\\""), next.(pending := next.pending + tail));
    }
  }

  lemma RawElement(st: ParserState, s: string)
    requires st.token.SingleQuoted? && !st.escape && Unquotable(s)
    ensures Leads(st, QuotedText(s), st.(pending := st.pending + OnceQuoted(s)))
  {
    hide Leads, ReplaceAll, ReplaceFrom;
    var open := st.(pending := st.pending + ['"']);
    ReplaceFromStart(s, "\"", "\\\\\"");
    var inner, outer := ReplaceAll(s, "\"", "\\\""), ReplaceAll(s, "\"", "\\\\\"");
    var full := open.(pending := open.pending + inner);
    var done := full.(pending := full.pending + ['"']);
    RawInner(open, s);
    Char1(full, '"', done);
    Then(open, outer, full, "\"", done);
    CharThen(st, '"', open, outer + "\"", done);
    assert ['"'] + (outer + "\"") == QuotedText(s);
    assert done.pending == st.pending + OnceQuoted(s);
  }

  /** Inside single quotes the elements lose one backslash before each inner quote. */
  lemma {:induction false} RawJoined(st: ParserState, ss: seq<string>)
    requires st.token.SingleQuoted? && !st.escape && AllUnquotable(ss)
    ensures Leads(st, Join(QuotedTexts(ss)), st.(pending := st.pending + Join(OnceQuotedTexts(ss))))
    decreases |ss|
  {
    hide Leads, QuotedText, OnceQuoted, Unquotable;
    if ss == [] {
      assert st.pending + "" == st.pending;
      Nothing(st);
    } else {
      var first := st.(pending := st.pending + OnceQuoted(ss[0]));
      RawElement(st, ss[0]);
      assert QuotedTexts(ss)[1..] == QuotedTexts(ss[1..]) && OnceQuotedTexts(ss)[1..] == OnceQuotedTexts(ss[1..]);
      if |ss| > 1 {
        var comma := first.(pending := first.pending + [',']);
        var rest := Join(OnceQuotedTexts(ss[1..]));
        var done := comma.(pending := comma.pending + rest);
        RawJoined(comma, ss[1..]);
        CharThen(first, ',', comma, Join(QuotedTexts(ss[1..])), done);
        Then(st, QuotedText(ss[0]), first, "," + Join(QuotedTexts(ss[1..])), done);
        assert Join(QuotedTexts(ss)) == QuotedText(ss[0]) + ("," + Join(QuotedTexts(ss[1..])));
        assert done.pending == st.pending + Join(OnceQuotedTexts(ss));
      }
    }
  }

  lemma {:induction false} JoinedNulFree(parts: seq<string>)
    requires forall i :: 0 <= i < |parts| ==> NulFree(parts[i])
    ensures NulFree(Join(parts))
  {
    if |parts| > 1 {
      JoinedNulFree(parts[1..]);
    }
  }

  lemma StringArrayValue(st: ParserState, v: TextValue)
    requires BeforeValue(st) && v.StrArray? && Readable(v) && st.typeName == "vsta"
    ensures ValueLeads(st, v)
  {
    hide Leads, ReadStrings, CStr, TagOf, WithAttribute, Join, QuotedText, OnceQuoted, Unquotable;
    var ss := v.strings;
    var s, inner := Join(QuotedTexts(ss)), Join(OnceQuotedTexts(ss));
    forall i | 0 <= i < |ss| ensures NulFree(QuotedText(ss[i])) { QuotedNulFree(ss[i]); }
    JoinedNulFree(QuotedTexts(ss));
    TagOfCode(StrArrayTag);
    assert NulFree("vsta");
    RawJoined(st.(token := SingleQuoted, pending := "'"), ss);
    assert forall i :: 0 <= i < |ss| ==> NoBackslash(ss[i]) by { NoneUnquotable(ss); }
    ReadQuotedStrings(ss);
    InnerQuoted('\'', inner);
    QuotedRun(st, '\'', s, inner, v);
    assert QuotedValueText(v) + "]" == "'" + (s + ("'" + "]"));
  }

  lemma NoneUnquotable(ss: seq<string>)
    requires AllUnquotable(ss)
    ensures forall i :: 0 <= i < |ss| ==> NoBackslash(ss[i])
  {
    assert forall i :: 0 <= i < |ss| ==> Unquotable(ss[i]);
  }

  lemma QuotedNulFree(s: string)
    requires NulFree(s)
    ensures NulFree(QuotedText(s))
  {
    hide ReplaceAll, ReplaceFrom;
    ReplaceFromStart(s, "\"", "\\\\\"");
    ReplacedNulFree(s);
  }

  lemma {:induction false} ReplacedNulFree(s: string)
    requires NulFree(s)
    ensures NulFree(ReplaceAll(s, "\"", "\\\\\""))
  {
    hide ReplaceAll;
    if s == "" {
      EmptyReplaced("\\\\\"");
    } else {
      ReplaceCharacter(s, "\\\\\"");
      ReplacedNulFree(s[1..]);
    }
  }

  // ----- Whole attributes -------------------------------------------------

  predicate ReadableAttribute(a: TextAttribute) { NulFree(a.name) && Readable(a.value) }

  /** A value in any of its printed forms. */
  lemma ValueRun(st: ParserState, v: TextValue)
    requires BeforeValue(st) && st.qualifier == "" && Readable(v) && ValidTag(Tag(v))
    requires st.typeName == if TypeIsInferred(v) then "" else Code(Tag(v))
    ensures ValueLeads(st, v)
  {
    hide ValueLeads, Code;
    if v.Str? {
      StringValue(st, v);
    } else if v.Char? {
      CharValue(st, v);
    } else if v.StrArray? {
      assert Code(Tag(v)) == "vsta" by { StrArrayCode(); }
      StringArrayValue(st, v);
    } else if TypeIsInferred(v) {
      UnquotedValue(st, v);
    } else {
      TypedPlainValue(st, v);
    }
  }

  lemma StrArrayCode()
    ensures Code(StrArrayTag) == "vsta"
  {
  }

  lemma TypeRun(st: ParserState, v: TextValue)
    requires st.token.InAttribute? && !st.escape && st.pending == "" && st.typeName == ""
    requires Textual(v) && ValidTag(Tag(v))
    ensures Leads(st, TypeText(v), st.(typeName := if TypeIsInferred(v) then "" else Code(Tag(v))))
  {
    hide Leads, Code, CStr, Escape;
    if TypeIsInferred(v) {
      Nothing(st);
    } else {
      var code := Code(Tag(v));
      CodePlain(Tag(v));
      assert PlainText(code);
      PlainSurvives(code);
      var inside := st.(token := InAttributeType);
      assert "" + code == code;
      ParenthesizedText(inside, code);
      Char1(inside.(pending := code), ')', st.(typeName := code));
      Then(inside, code, inside.(pending := code), ")", st.(typeName := code));
      CharThen(st, '(', inside, code + ")", st.(typeName := code));
      assert TypeText(v) == "(" + (code + ")");
    }
  }

  /** The state before the value of an attribute. */
  function BeforeValueOf(root: TextNode, stack: seq<TextNode>, a: TextAttribute): ParserState
    requires ValidTag(Tag(a.value))
  {
    Ready(root, stack).(token := PreValue, name := a.name,
                        typeName := if TypeIsInferred(a.value) then "" else Code(Tag(a.value)))
  }

  /** What stands before the value of an attribute. */
  lemma AttributeHead(root: TextNode, stack: seq<TextNode>, a: TextAttribute, rest: string, done: ParserState)
    requires stack != [] && NulFree(a.name) && Textual(a.value) && ValidTag(Tag(a.value))
    requires Leads(BeforeValueOf(root, stack, a), rest, done)
    ensures Leads(Ready(root, stack),
                  "[" + ("\"" + (CStr(Escape(a.name)) + ("\"" + (TypeText(a.value) + ("=" + rest))))), done)
  {
    hide Leads, Escape, CStr, Code, TypeText, Textual, TypeIsInferred, ValidTag, Tag;
    var v := a.value;
    var inside := Ready(root, stack).(token := InAttribute);
    var inName := inside.(token := InAttributeName);
    var named := inside.(name := a.name);
    var typed := named.(typeName := if TypeIsInferred(v) then "" else Code(Tag(v)));
    CharThen(typed, '=', typed.(token := PreValue), rest, done);
    TypeRun(named, v);
    Then(named, TypeText(v), typed, "=" + rest, done);
    var afterName := TypeText(v) + ("=" + rest);
    CharThen(inName.(pending := a.name), '"', named, afterName, done);
    EscapeNulFree(a.name);
    EscapedText(inName, a.name);
    assert "" + a.name == a.name;
    Then(inName, Escape(a.name), inName.(pending := a.name), "\"" + afterName, done);
    CharThen(inside, '"', inName, Escape(a.name) + ("\"" + afterName), done);
    CharThen(Ready(root, stack), '[', inside, "\"" + (Escape(a.name) + ("\"" + afterName)), done);
  }

  /** From the opening bracket to the closing one. */
  lemma AttributeRun(root: TextNode, stack: seq<TextNode>, a: TextAttribute)
    requires ReadableAttribute(a) && stack != []
    ensures Leads(Ready(root, stack), AttributeText(a), Ready(root, WithAttribute(stack, RereadAttribute(a))))
  {
    hide Leads, Escape, CStr, Code, TypeText, QuotedValueText, WithAttribute;
    hide Readable, Textual, TypeIsInferred, ValueText;
    var v, done := a.value, Ready(root, WithAttribute(stack, RereadAttribute(a)));
    assert Textual(v) && ValidTag(Tag(v)) by { ReadableIsTextual(v); }
    ValueRun(BeforeValueOf(root, stack, a), v);
    AttributeHead(root, stack, a, QuotedValueText(v) + "]", done);
  }

  lemma ReadableIsTextual(v: TextValue)
    requires Readable(v)
    ensures Textual(v) && ValidTag(Tag(v))
  {
  }

  // ----- Whole trees ------------------------------------------------------

  function RereadAttributes(attributes: seq<TextAttribute>): seq<TextAttribute>
  {
    seq(|attributes|, i requires 0 <= i < |attributes| => RereadAttribute(attributes[i]))
  }

  /** The tree as it comes back from its text. */
  function RereadTree(t: TextNode): TextNode
  {
    TextNode.Node(t.name, RereadAttributes(t.attributes), RereadTrees(t.children))
  }

  function RereadTrees(ts: seq<TextNode>): seq<TextNode>
  {
    seq(|ts|, i requires 0 <= i < |ts| => RereadTree(ts[i]))
  }

  /** Trees whose names are NUL-free and whose values are readable. */
  predicate ReadableTree(t: TextNode)
    ensures ReadableTree(t) ==> TextualTree(t)
  {
    && NulFree(t.name)
    && (forall i :: 0 <= i < |t.attributes| ==> ReadableAttribute(t.attributes[i]))
    && (forall i :: 0 <= i < |t.children| ==> ReadableTree(t.children[i]))
  }

  lemma {:induction false} AttributesRun(root: TextNode, stack: seq<TextNode>, attributes: seq<TextAttribute>)
    requires stack != [] && forall i :: 0 <= i < |attributes| ==> ReadableAttribute(attributes[i])
    ensures forall i :: 0 <= i < |attributes| ==> Textual(attributes[i].value)
    ensures var top := Top(stack);
            Leads(Ready(root, stack), AttributesText(attributes),
                  Ready(root, WithTop(stack, top.(attributes := top.attributes + RereadAttributes(attributes)))))
    decreases |attributes|
  {
    hide Leads, AttributeText, RereadAttribute, Readable;
    forall i | 0 <= i < |attributes| ensures Textual(attributes[i].value) { ReadableIsTextual(attributes[i].value); }
    var top := Top(stack);
    if attributes == [] {
      assert top.attributes + RereadAttributes(attributes) == top.attributes;
      assert WithTop(stack, top) == stack;
      Nothing(Ready(root, stack));
    } else {
      var a, rest := attributes[0], attributes[1..];
      var next := WithAttribute(stack, RereadAttribute(a));
      var done := Ready(root, WithTop(stack, top.(attributes := top.attributes + RereadAttributes(attributes))));
      AttributeRun(root, stack, a);
      AttributesRun(root, next, rest);
      assert RereadAttributes(attributes) == [RereadAttribute(a)] + RereadAttributes(rest);
      assert (top.attributes + [RereadAttribute(a)]) + RereadAttributes(rest)
          == top.attributes + RereadAttributes(attributes);
      assert next[..|next| - 1] == stack[..|stack| - 1];
      CharThen(Ready(root, next), ' ', Ready(root, next), AttributesText(rest), done);
      Then(Ready(root, stack), AttributeText(a), Ready(root, next), " " + AttributesText(rest), done);
    }
  }

  /** A tree parsed into a node that already has content renames it and adds to it. */
  function Merge(node: TextNode, t: TextNode): TextNode
  {
    TextNode.Node(t.name, node.attributes + t.attributes, node.children + t.children)
  }

  predicate SkippableLayout(layout: Layout)
  {
    forall i :: 0 <= i < |layout.lineEnd| ==> IsSkippable(layout.lineEnd[i])
  }

  lemma {:induction false} SpacesSkippable(depth: int)
    ensures forall i :: 0 <= i < |Spaces(depth)| ==> IsSkippable(Spaces(depth)[i])
    decreases if depth < 0 then 0 else depth
  {
    if depth > 0 {
      SpacesSkippable(depth - 1);
    }
  }

  /** Line ends and indentation change nothing. */
  lemma LayoutRun(st: ParserState, layout: Layout, depth: int)
    requires SkippableLayout(layout) && (st.token.Start? || st.token.InNode?)
    ensures Leads(st, layout.Line(), st) && Leads(st, layout.Indent(depth), st)
  {
    hide Leads;
    SpacesSkippable(depth);
    SkipText(st, layout.Line());
    SkipText(st, layout.Indent(depth));
  }

  /** A node name, from the space after the brace to the space after the closing quote. */
  lemma NameRun(root: TextNode, stack: seq<TextNode>, name: string, rest: string, done: ParserState)
    requires stack != [] && NulFree(name)
    requires Leads(Ready(root, WithTop(stack, Top(stack).(name := name))), rest, done)
    ensures Leads(Ready(root, stack), " \"" + (CStr(Escape(name)) + ("\" " + rest)), done)
  {
    hide Leads, Escape, CStr;
    var inName := Ready(root, stack).(token := InNodeName);
    var full := inName.(pending := name);
    var named := Ready(root, WithTop(stack, Top(stack).(name := name)));
    EscapeNulFree(name);
    EscapedText(inName, name);
    assert "" + name == name;
    CharThen(named, ' ', named, rest, done);
    CharThen(full, '"', named, " " + rest, done);
    assert ['"'] + (" " + rest) == "\" " + rest;
    Then(inName, Escape(name), full, "\" " + rest, done);
    var quoted := Escape(name) + ("\" " + rest);
    CharThen(Ready(root, stack), '"', inName, quoted, done);
    CharThen(Ready(root, stack), ' ', Ready(root, stack), ['"'] + quoted, done);
    assert [' '] + (['"'] + quoted) == " \"" + quoted;
  }

  /** The state once the node on top of the stack is closed. */
  function Closed(root: TextNode, stack: seq<TextNode>): ParserState
    requires stack != []
  {
    CloseNode(Ready(root, stack)).value
  }

  /** From the opening brace's right to the closing brace: the open node takes the tree in and is closed. */
  lemma {:induction false} BodyRun(root: TextNode, stack: seq<TextNode>, t: TextNode, layout: Layout, depth: int)
    requires stack != [] && ReadableTree(t) && SkippableLayout(layout)
    ensures Leads(Ready(root, stack), BodyText(t, layout, depth),
                  Closed(root, WithTop(stack, Merge(Top(stack), RereadTree(t)))))
    decreases t, 0
  {
    hide Leads, Escape, CStr, ReadableAttribute, CloseNode, Textual;
    hide AttributesText, ChildrenText, RereadTrees, RereadAttributes;
    var node := Top(stack);
    var named := WithTop(stack, node.(name := t.name));
    var attributed := WithTop(named, Top(named).(attributes := node.attributes + RereadAttributes(t.attributes)));
    var full := WithTop(attributed, Top(attributed).(children := node.children + RereadTrees(t.children)));
    assert full == WithTop(stack, Merge(node, RereadTree(t)));
    var closing := (if t.children == [] then "" else layout.Line() + layout.Indent(depth)) + "}";
    ClosingRun(root, full, if t.children == [] then "" else layout.Line() + layout.Indent(depth), layout, depth);
    var done := Closed(root, full);
    ChildrenRun(root, attributed, t.children, layout, depth + 1);
    Then(Ready(root, attributed), ChildrenText(t.children, layout, depth + 1), Ready(root, full), closing, done);
    AttributesRun(root, named, t.attributes);
    var afterAttributes := ChildrenText(t.children, layout, depth + 1) + closing;
    Then(Ready(root, named), AttributesText(t.attributes), Ready(root, attributed), afterAttributes, done);
    NameRun(root, stack, t.name, AttributesText(t.attributes) + afterAttributes, done);
  }

  lemma ClosingRun(root: TextNode, stack: seq<TextNode>, gap: string, layout: Layout, depth: int)
    requires stack != [] && SkippableLayout(layout)
    requires gap == "" || gap == layout.Line() + layout.Indent(depth)
    ensures Leads(Ready(root, stack), gap + "}", Closed(root, stack))
  {
    hide Leads;
    var st := Ready(root, stack);
    LayoutRun(st, layout, depth);
    if gap == "" {
      Nothing(st);
    } else {
      Then(st, layout.Line(), st, layout.Indent(depth), st);
    }
    Char1(st, '}', Closed(root, stack));
    Then(st, gap, st, "}", Closed(root, stack));
  }

  lemma {:induction false} ChildrenRun(root: TextNode, stack: seq<TextNode>, ts: seq<TextNode>, layout: Layout,
                                       depth: int)
    requires stack != [] && SkippableLayout(layout)
    requires forall i :: 0 <= i < |ts| ==> ReadableTree(ts[i])
    ensures forall i :: 0 <= i < |ts| ==> TextualTree(ts[i])
    ensures var top := Top(stack);
            Leads(Ready(root, stack), ChildrenText(ts, layout, depth),
                  Ready(root, WithTop(stack, top.(children := top.children + RereadTrees(ts)))))
    decreases ts, 0
  {
    hide Leads, ReadableTree, NodeText, RereadTree, Textual;
    var top := Top(stack);
    if ts == [] {
      assert top.children + RereadTrees(ts) == top.children;
      assert WithTop(stack, top) == stack;
      Nothing(Ready(root, stack));
    } else {
      var t, rest := ts[0], ts[1..];
      var next := WithTop(stack, AddChild(top, RereadTree(t)));
      var done := Ready(root, WithTop(stack, top.(children := top.children + RereadTrees(ts))));
      NodeRun(root, stack, t, layout, depth);
      ChildrenRun(root, next, rest, layout, depth);
      assert RereadTrees(ts) == [RereadTree(t)] + RereadTrees(rest);
      assert (top.children + [RereadTree(t)]) + RereadTrees(rest) == top.children + RereadTrees(ts);
      assert next[..|next| - 1] == stack[..|stack| - 1];
      CharThen(Ready(root, next), ' ', Ready(root, next), ChildrenText(rest, layout, depth), done);
      Then(Ready(root, stack), NodeText(t, layout, depth), Ready(root, next),
           " " + ChildrenText(rest, layout, depth), done);
    }
  }

  /** A printed tree inside an open node becomes its last child. */
  lemma {:induction false} NodeRun(root: TextNode, stack: seq<TextNode>, t: TextNode, layout: Layout, depth: int)
    requires stack != [] && ReadableTree(t) && SkippableLayout(layout)
    ensures Leads(Ready(root, stack), NodeText(t, layout, depth),
                  Ready(root, WithTop(stack, AddChild(Top(stack), RereadTree(t)))))
    decreases t, 1
  {
    hide Leads, BodyText, ReadableTree;
    var st := Ready(root, stack);
    var grown := stack + [NEW_NODE];
    var closing := WithTop(grown, Merge(Top(grown), RereadTree(t)));
    var done := Ready(root, WithTop(stack, AddChild(Top(stack), RereadTree(t))));
    BodyRun(root, grown, t, layout, depth);
    assert Closed(root, closing) == done by {
      assert closing[..|closing| - 1] == stack;
      assert Top(closing) == RereadTree(t);
    }
    CharThen(st, '{', Ready(root, grown), BodyText(t, layout, depth), done);
    LayoutRun(st, layout, depth);
    Then(st, layout.Indent(depth), st, "{" + BodyText(t, layout, depth), done);
    Then(st, layout.Line(), st, layout.Indent(depth) + ("{" + BodyText(t, layout, depth)), done);
  }

  // ----- The round trip ---------------------------------------------------

  /** Every backslash in every string value is followed by an ordinary character or by nothing. */
  predicate SettledStrings(t: TextNode)
  {
    && (forall i :: 0 <= i < |t.attributes| ==> t.attributes[i].value.Str? ==> Settled(t.attributes[i].value.text))
    && (forall i :: 0 <= i < |t.children| ==> SettledStrings(t.children[i]))
  }

  lemma RootOpens(root: TextNode)
    ensures ParseCharacter(Initial(root), '{') == Success(Ready(root, [root]))
  {
    assert [] + [root] == [root];
  }

  lemma RootCloses(root: TextNode, merged: TextNode)
    ensures Closed(root, WithTop([root], merged)) == Ready(merged, [])
  {
  }

  lemma TreeRun(root: TextNode, t: TextNode, layout: Layout, depth: int)
    requires ReadableTree(t) && SkippableLayout(layout)
    ensures Leads(Initial(root), NodeText(t, layout, depth), Ready(Merge(root, RereadTree(t)), []))
  {
    hide Leads, BodyText, ReadableTree, ParseCharacter, Closed, WithTop, Ready, Merge, RereadTree;
    var st, grown, merged := Initial(root), Ready(root, [root]), Merge(root, RereadTree(t));
    BodyRun(root, [root], t, layout, depth);
    RootOpens(root);
    RootCloses(root, merged);
    var body, done := BodyText(t, layout, depth), Ready(merged, []);
    CharThen(st, '{', grown, body, done);
    LayoutRun(st, layout, depth);
    Then(st, layout.Indent(depth), st, "{" + body, done);
    Then(st, layout.Line(), st, layout.Indent(depth) + ("{" + body), done);
  }

  /**
    Parsing the text of a tree, in any layout, into any root node merges the
    reread tree into it and leaves no node open; text after the tree that is
    skippable changes nothing.
   */
  lemma ParsePrinted(root: TextNode, t: TextNode, layout: Layout, depth: int, after: string)
    requires ReadableTree(t) && SkippableLayout(layout)
    requires forall i :: 0 <= i < |after| ==> IsSkippable(after[i])
    ensures Parse(Initial(root), NodeText(t, layout, depth) + after) == Success(Ready(Merge(root, RereadTree(t)), []))
  {
    hide Leads, Parse, NodeText, ReadableTree, RereadTree, Merge;
    var st, done := Initial(root), Ready(Merge(root, RereadTree(t)), []);
    TreeRun(root, t, layout, depth);
    SkipText(done, after);
    Then(st, NodeText(t, layout, depth), done, after, done);
    LeadsIsParse(st, NodeText(t, layout, depth) + after, done);
  }

  lemma LeadsIsParse(from: ParserState, s: string, to: ParserState)
    requires Leads(from, s, to)
    ensures Parse(from, s) == Success(to)
  {
  }

  /** A tree is its own reread form if and only if all its string values are settled. */
  lemma {:induction false} RereadFixes(t: TextNode)
    ensures RereadTree(t) == t <==> SettledStrings(t)
  {
    hide Unescape;
    forall i | 0 <= i < |t.attributes|
      ensures RereadAttribute(t.attributes[i]) == t.attributes[i]
         <==> (t.attributes[i].value.Str? ==> Settled(t.attributes[i].value.text))
    {
      if t.attributes[i].value.Str? {
        UnescapeFixes(t.attributes[i].value.text);
      }
    }
    forall i | 0 <= i < |t.children|
      ensures RereadTree(t.children[i]) == t.children[i] <==> SettledStrings(t.children[i])
    {
      RereadFixes(t.children[i]);
    }
    assert RereadAttributes(t.attributes) == t.attributes
       <==> forall i :: 0 <= i < |t.attributes| ==> RereadAttribute(t.attributes[i]) == t.attributes[i];
    assert RereadTrees(t.children) == t.children
       <==> forall i :: 0 <= i < |t.children| ==> RereadTree(t.children[i]) == t.children[i];
  }
}
