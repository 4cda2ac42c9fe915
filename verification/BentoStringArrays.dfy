/**
  When a string array survives its text: a count of what the reader needs, of
  what the printer writes, and of what the quoted state of the parser can make
  of it.  A backslash escapes one character and is lost itself, so it counts
  half of any other character.
 */
module BentoStringArrays {
  import opened Wrappers
  import opened CStrings
  import opened Counting
  import opened BentoText
  import opened BentoTextValues
  import opened BentoValueLaws

  // ----- What the reader needs --------------------------------------------

  /** The least number of characters inside the quotes of an element. */
  function ElementNeed(s: string): nat { |s| + Occurs(s, '"') + Occurs(s, '\\') }

  /** The elements with their quotes and a comma each. */
  function Need(ss: seq<string>): nat
  {
    if ss == [] then 0 else ElementNeed(ss[0]) + 3 + Need(ss[1..])
  }

  lemma {:induction false} NeedAppend(ss: seq<string>, s: string)
    ensures Need(ss + [s]) == Need(ss) + ElementNeed(s) + 3
  {
    if ss == [] {
      assert [] + [s] == [s] && [s][1..] == [];
    } else {
      assert (ss + [s])[1..] == ss[1..] + [s];
      NeedAppend(ss[1..], s);
    }
  }

  /** How many characters a state of the reader has taken at least. */
  function Taken(r: Strings): int
  {
    Need(r.result) +
      match r.state
      case InArray => 0
      case InElement => 1 + ElementNeed(r.pending)
      case EscapePending => 2 + ElementNeed(r.pending)
      case ElementEnded => -1
      case Done => -1
  }

  /** Between elements nothing is pending. */
  predicate Tidy(r: Strings) { r.state.InElement? || r.state.EscapePending? || r.pending == "" }

  lemma TakenStep(r: Strings, c: char)
    requires Tidy(r) && StringsStep(r, c).Some?
    ensures Tidy(StringsStep(r, c).value) && Taken(StringsStep(r, c).value) <= Taken(r) + 1
  {
    hide Occurs, Need;
    NeedAppend(r.result, r.pending);
    OccursAppend(r.pending, c, '"');
    OccursAppend(r.pending, c, '\\');
    assert Occurs("", '"') == 0 && Occurs("", '\\') == 0 by { NothingOccurs(); }
  }

  lemma NothingOccurs()
    ensures forall c :: Occurs("", c) == 0
  {
  }

  lemma {:induction false} TakenRun(r: Strings, s: string)
    requires Tidy(r) && RunStrings(r, s).Some?
    ensures Tidy(RunStrings(r, s).value) && Taken(RunStrings(r, s).value) <= Taken(r) + |s|
    decreases |s|
  {
    hide StringsStep, Taken, Tidy;
    if s != "" {
      TakenStep(r, s[0]);
      TakenRun(StringsStep(r, s[0]).value, s[1..]);
    }
  }

  /** A text that reads as the list is at least as long as the list needs. */
  lemma ReaderNeeds(s: string)
    requires ReadStrings(s).Some?
    ensures Need(ReadStrings(s).value) - 1 <= |s|
  {
    hide RunStrings, Need;
    var start := Strings(InArray, "", []);
    assert Need([]) == 0 by { NothingNeeded(); }
    TakenRun(start, s);
  }

  lemma NothingNeeded()
    ensures Need([]) == 0
  {
  }

  /** How often a character stands in what has been read. */
  function Kept(r: Strings, c: char): nat { OccursAll(r.result, c) + Occurs(r.pending, c) }

  lemma KeptStep(r: Strings, d: char, c: char)
    requires StringsStep(r, d).Some?
    ensures Kept(StringsStep(r, d).value, c) <= Kept(r, c) + (if d == c then 1 else 0)
  {
    hide Occurs, OccursAll;
    OccursAllAppend(r.result, r.pending, c);
    OccursAppend(r.pending, d, c);
    NothingOccurs();
  }

  lemma {:induction false} KeptRun(r: Strings, s: string, c: char)
    requires RunStrings(r, s).Some?
    ensures Kept(RunStrings(r, s).value, c) <= Kept(r, c) + Occurs(s, c)
    decreases |s|
  {
    hide StringsStep, Kept;
    if s != "" {
      KeptStep(r, s[0], c);
      KeptRun(StringsStep(r, s[0]).value, s[1..], c);
    }
  }

  /** The elements hold no more of any character than the text they are read from. */
  lemma ReaderKeeps(s: string, c: char)
    requires ReadStrings(s).Some?
    ensures OccursAll(ReadStrings(s).value, c) <= Occurs(s, c)
  {
    hide RunStrings;
    KeptRun(Strings(InArray, "", []), s, c);
  }

  // ----- What the printer writes ------------------------------------------

  function Weight(c: char): nat { if c == '\\' then 1 else 2 }

  function Cost(s: string): nat
  {
    if s == "" then 0 else Weight(s[0]) + Cost(s[1..])
  }

  lemma {:induction false} CostConcat(a: string, b: string)
    ensures Cost(a + b) == Cost(a) + Cost(b)
  {
    if a == "" {
      assert a + b == b;
    } else {
      assert (a + b)[1..] == a[1..] + b;
      CostConcat(a[1..], b);
    }
  }

  lemma {:induction false} ReplacedCost(s: string)
    ensures Cost(ReplaceAll(s, "\"", "\\\\\"")) == 2 * ElementNeed(s) - 3 * Occurs(s, '\\')
  {
    hide ReplaceAll;
    if s == "" {
      EmptyReplaced("\\\\\"");
    } else {
      ReplaceCharacter(s, "\\\\\"");
      ReplacedCost(s[1..]);
      CostConcat(if s[0] == '"' then "\\\\\"" else [s[0]], ReplaceAll(s[1..], "\"", "\\\\\""));
      QuoteCost();
      CharacterCost(s[0]);
    }
  }

  lemma QuoteCost()
    ensures Cost("\\\\\"") == 4
  {
    assert "\\\\\""[1..] == "\\\"" && "\\\""[1..] == "\"" && "\""[1..] == "";
  }

  lemma CharacterCost(c: char)
    ensures Cost([c]) == Weight(c)
  {
    assert [c][1..] == "";
  }

  lemma QuotedCost(s: string)
    requires NulFree(s)
    ensures Cost(QuotedText(s)) == 2 * ElementNeed(s) - 3 * Occurs(s, '\\') + 4
  {
    hide Cost, ReplaceAll, ReplaceFrom, ElementNeed;
    var inner := ReplaceAll(s, "\"", "\\\\\"");
    ReplaceFromStart(s, "\"", "\\\\\"");
    ReplacedCost(s);
    CostConcat("\"" + inner, "\"");
    CostConcat("\"", inner);
    CharacterCost('"');
  }

  /** The printed list costs twice what the list needs, less three for each backslash. */
  lemma {:induction false} PrintedCost(ss: seq<string>)
    requires ss != [] && forall i :: 0 <= i < |ss| ==> NulFree(ss[i])
    ensures Cost(Join(QuotedTexts(ss))) == 2 * (Need(ss) - 1) - 3 * OccursAll(ss, '\\')
  {
    hide Cost, QuotedText, ElementNeed, Occurs;
    var parts := QuotedTexts(ss);
    QuotedCost(ss[0]);
    if |ss| == 1 {
      assert ss[1..] == [] && parts[0] == QuotedText(ss[0]);
      NothingNeeded();
    } else {
      assert parts[1..] == QuotedTexts(ss[1..]);
      PrintedCost(ss[1..]);
      var rest := Join(parts[1..]);
      assert Join(parts) == parts[0] + ([','] + rest);
      CostConcat(parts[0], [','] + rest);
      CostConcat([','], rest);
      CharacterCost(',');
    }
  }

  // ----- The reader and element quoting -----------------------------------

  lemma {:induction false} OnceReplacedLength(s: string)
    ensures |ReplaceAll(s, "\"", "\\\"")| == |s| + Occurs(s, '"')
  {
    hide ReplaceAll;
    if s == "" {
      EmptyReplaced("\\\"");
    } else {
      ReplaceCharacter(s, "\\\"");
      OnceReplacedLength(s[1..]);
    }
  }

  lemma {:induction false} OnceQuotedLength(ss: seq<string>)
    requires ss != []
    ensures |Join(OnceQuotedTexts(ss))| == Need(ss) - 1 - OccursAll(ss, '\\')
  {
    hide ReplaceAll, Occurs;
    var parts := OnceQuotedTexts(ss);
    OnceReplacedLength(ss[0]);
    if |ss| == 1 {
      assert ss[1..] == [];
    } else {
      assert parts[1..] == OnceQuotedTexts(ss[1..]);
      OnceQuotedLength(ss[1..]);
    }
  }

  /** The reader undoes element quoting, one backslash per inner quote, if and only if no element has a backslash. */
  lemma OnceQuotedExactly(ss: seq<string>)
    ensures ReadStrings(Join(OnceQuotedTexts(ss))) == Some(ss) <==> forall i :: 0 <= i < |ss| ==> NoBackslash(ss[i])
  {
    hide RunStrings, Join, OnceQuoted, NoBackslash, Occurs, OccursAll, Need;
    var text := Join(OnceQuotedTexts(ss));
    if forall i :: 0 <= i < |ss| ==> NoBackslash(ss[i]) {
      ReadQuotedStrings(ss);
    } else if ReadStrings(text) == Some(ss) {
      ReaderNeeds(text);
      OnceQuotedLength(ss);
      NoneOccurs(ss);
    }
  }

  lemma NoneOccurs(ss: seq<string>)
    requires OccursAll(ss, '\\') == 0
    ensures forall i :: 0 <= i < |ss| ==> NoBackslash(ss[i])
  {
    hide Occurs, OccursAll;
    OccursAllIff(ss, '\\');
    forall i | 0 <= i < |ss| ensures NoBackslash(ss[i]) { OccursIff(ss[i], '\\'); }
  }
}
