/**
  What the parser can have collected by the time an attribute ends, when the
  attribute's value opened with a single quote: a budget on the text consumed
  bounds the value, however early the quoted state is left.
 */
module BentoAttributeEnds {
  import opened Wrappers
  import opened CStrings
  import opened Counting
  import opened BentoModel
  import opened BentoEscape
  import opened BentoText
  import opened BentoTextValues
  import opened BentoValueLaws
  import opened BentoParsing
  import opened BentoStringArrays

  // ----- Up to the end of the attribute -----------------------------------

  /** The states between the brackets of an attribute. */
  predicate InBrackets(st: ParserState)
  {
    !st.token.Start? && !st.token.InNode? && !st.token.InNodeName? && st.stack != []
  }

  /** The closing bracket ends the attribute here. */
  predicate CanEnd(st: ParserState) { st.token.InAttribute? || (st.token.Unquoted? && !st.escape) }

  /** The text that is read as the value if the attribute ends here. */
  function FinalValue(st: ParserState): string { if st.token.Unquoted? then st.pending else st.value }

  /** The state after an attribute has ended. */
  function Ended(st: ParserState, v: TextValue): ParserState
    requires st.stack != []
  {
    st.(token := InNode, pending := if st.token.Unquoted? then "" else st.pending, name := "", typeName := "",
        qualifier := "", value := "", stack := WithTop(st.stack, AddAttribute(Top(st.stack), Attribute(st.name, v))))
  }

  lemma BracketsStep(st: ParserState, c: char)
    requires InBrackets(st) && ParseCharacter(st, c).Success?
    ensures var next := ParseCharacter(st, c).value;
            if c == ']' && CanEnd(st) then
              var v := ReadValue(st.typeName, FinalValue(st), st.qualifier);
              v.Success? && next == Ended(st, v.value)
            else
              InBrackets(next) && next.stack == st.stack && next.root == st.root
  {
    hide ReadValue, WithTop, AddAttribute;
  }

  // ----- The budget of a single-quoted value ------------------------------

  /** What is left of a value once its quotes are stripped. */
  function Stripped(v: string): string { if StartsWith(v, '"') || StartsWith(v, '\'') then Inner(v) else v }

  function One(b: bool): nat { if b then 1 else 0 }

  predicate HasApostrophe(s: string) { Occurs(s, '\'') > 0 }

  /** The first value is still open; an apostrophe in it has cost an escape. */
  predicate Open(st: ParserState, budget: int)
  {
    && st.token.SingleQuoted? && st.pending != "" && st.pending[0] == '\''
    && 2 * (|st.pending| - 1) + One(st.escape) + One(HasApostrophe(st.pending[1..])) <= budget
  }

  /** The first value has just been closed. */
  predicate Fresh(st: ParserState, budget: int)
  {
    && st.token.InAttribute? && st.pending == "" && !st.escape
    && 2 * |Stripped(st.value)| + One(HasApostrophe(Stripped(st.value))) <= budget - 2
  }

  /** The first value was closed a while ago; text has been lost for good. */
  predicate Late(st: ParserState, budget: int)
  {
    && InBrackets(st) && 2 * |Stripped(st.value)| <= budget - 3 && budget >= 3
    && match st.token
       case InAttribute => st.pending == "" && !st.escape
       case InAttributeType => !st.escape
       case PreValueQualifier => !st.escape && budget >= 4
       case PreValue => st.pending == "" && !st.escape && budget >= 4
       case InAttributeName => true
       case _ => 2 * |st.pending| + One(st.escape) <= budget - 4
  }

  lemma StrippedLength(v: string)
    ensures |Stripped(v)| <= |v|
  {
  }

  lemma ApostropheAppend(s: string, c: char)
    ensures HasApostrophe(s + [c]) <==> HasApostrophe(s) || c == '\''
  {
    OccursAppend(s, c, '\'');
  }

  lemma OpenStep(st: ParserState, budget: int, c: char)
    requires Open(st, budget) && InBrackets(st)
    ensures var next := ParseCharacter(st, c);
            next.Success? && (Open(next.value, budget + Weight(c)) || Fresh(next.value, budget + Weight(c)))
  {
    hide HasApostrophe;
    var p := st.pending;
    assert (p + [c])[1..] == p[1..] + [c];
    ApostropheAppend(p[1..], c);
    if c == '\'' && !st.escape {
      assert Stripped(p + [c]) == p[1..] by { StrippedQuotes(p); }
    }
  }

  lemma StrippedQuotes(p: string)
    requires p != "" && p[0] == '\''
    ensures Stripped(p + ['\'']) == p[1..]
  {
    assert (p + ['\''])[1..|p|] == p[1..];
  }

  lemma LateStep(st: ParserState, budget: int, c: char)
    requires Late(st, budget) || (Fresh(st, budget) && InBrackets(st) && budget >= 2)
    requires ParseCharacter(st, c).Success? && !(c == ']' && CanEnd(st))
    ensures Late(ParseCharacter(st, c).value, budget + Weight(c))
  {
    hide ReadValue, Stripped;
    StrippedLength(st.pending);
    StrippedLength(st.pending + [c]);
  }

  predicate Budgeted(st: ParserState, budget: int)
  {
    budget >= 0 && InBrackets(st) && (Open(st, budget) || (Fresh(st, budget) && budget >= 2) || Late(st, budget))
  }

  lemma BudgetStep(st: ParserState, budget: int, c: char)
    requires Budgeted(st, budget) && ParseCharacter(st, c).Success? && !(c == ']' && CanEnd(st))
    ensures Budgeted(ParseCharacter(st, c).value, budget + Weight(c))
  {
    hide ParseCharacter, Open, Late;
    BracketsStep(st, c);
    if Open(st, budget) {
      OpenStep(st, budget, c);
    } else {
      LateStep(st, budget, c);
    }
    assert Late(ParseCharacter(st, c).value, budget + Weight(c)) ==> InBrackets(ParseCharacter(st, c).value);
  }

  /**
    A run from inside an attribute to a state outside it passes the attribute's
    closing bracket; the budget there is the cost of the text consumed.
   */
  lemma {:induction false} AttributeEnds(st: ParserState, budget: int, s: string, end: ParserState)
    returns (i: nat, p: ParserState, v: TextValue)
    requires Budgeted(st, budget) && Parse(st, s) == Success(end) && !InBrackets(end)
    ensures i < |s| && s[i] == ']' && Parse(st, s[..i]) == Success(p)
    ensures Budgeted(p, budget + Cost(s[..i])) && p.stack == st.stack && p.root == st.root && CanEnd(p)
    ensures ReadValue(p.typeName, FinalValue(p), p.qualifier) == Success(v)
    ensures p.stack != [] && Parse(Ended(p, v), s[i + 1..]) == Success(end)
    decreases |s|
  {
    hide ParseCharacter, CanEnd, ReadValue, FinalValue, Ended, Open, Fresh, Late, Weight;
    BracketsStep(st, s[0]);
    if s[0] == ']' && CanEnd(st) {
      i, p := 0, st;
      v := ReadValue(st.typeName, FinalValue(st), st.qualifier).value;
      assert s[..0] == "";
    } else {
      var next := ParseCharacter(st, s[0]).value;
      BudgetStep(st, budget, s[0]);
      i, p, v := AttributeEnds(next, budget + Weight(s[0]), s[1..], end);
      assert s[..i + 1][0] == s[0] && s[..i + 1][1..] == s[1..][..i] && s[1..][i + 1..] == s[i + 2..];
      i := i + 1;
    }
  }

  // ----- What ends the attribute ------------------------------------------

  /** A string array can only be read from the stripped value by the reader of string arrays. */
  lemma StringsRead(typeName: string, value: string, qualifier: string, ss: seq<string>)
    requires ReadValue(typeName, value, qualifier) == Success(StrArray(ss))
    ensures ReadStrings(Stripped(value)) == Some(ss)
  {
    hide ReadStrings, TagOf, Unescape, ReadScalar, ScanInts, ReadPoints, ReadElements, SplitCommas, ReadBools, CStr;
    forall k, s ensures !(ReadScalar(k, s).Success? && ReadScalar(k, s).value.StrArray?) { ScalarsOnly(k, s); }
  }

  lemma ScalarsOnly(k: ScalarKind, s: string)
    ensures !(ReadScalar(k, s).Success? && ReadScalar(k, s).value.StrArray?)
  {
  }

  /**
    Ending an attribute within the cost of a printed list gives that list only
    if it needs no backslash or apostrophe.
   */
  lemma OnlyUnquotable(p: ParserState, budget: int, ss: seq<string>)
    requires Budgeted(p, budget) && CanEnd(p) && ss != [] && forall i :: 0 <= i < |ss| ==> NulFree(ss[i])
    requires budget <= Cost(Join(QuotedTexts(ss))) + 2
    requires ReadValue(p.typeName, FinalValue(p), p.qualifier) == Success(StrArray(ss))
    ensures AllUnquotable(ss)
  {
    hide ReadValue, ReadStrings, Join, Cost, Need, Stripped, Occurs, OccursAll;
    var v := FinalValue(p);
    StringsRead(p.typeName, v, p.qualifier, ss);
    ReaderNeeds(Stripped(v));
    ReaderKeeps(Stripped(v), '\'');
    PrintedCost(ss);
    StrippedLength(v);
    assert OccursAll(ss, '\\') == 0 && OccursAll(ss, '\'') == 0;
    OccursAllIff(ss, '\\');
    OccursAllIff(ss, '\'');
    forall i | 0 <= i < |ss|
      ensures Unquotable(ss[i])
    {
      OccursIff(ss[i], '\\');
      OccursIff(ss[i], '\'');
    }
  }
}
