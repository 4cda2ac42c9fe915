/**
  A string object holds bytes, and escaping, unescaping and replacing work on
  those.  Since a byte below 0x80 never stands inside a longer UTF-8 sequence,
  each of them does to the bytes what it does to the characters.
 */
module BentoUtf8 {
  import opened Utf8
  import opened CStrings
  import opened BentoEscape
  import opened BentoText

  function CodePoints(s: string): seq<CodePoint> { seq(|s|, i requires 0 <= i < |s| => s[i] as int) }

  /** Bytes as the C functions see them, one `char` each. */
  function AsChars(bs: seq<byte>): string { seq(|bs|, i requires 0 <= i < |bs| => bs[i] as char) }

  /** The UTF-8 form of a string, byte by byte. */
  function Raw(s: string): string { AsChars(EncodeAll(CodePoints(s))) }

  function RawCharacter(c: char): string { AsChars(Encode(c as int)) }

  predicate Ascii(s: string) { forall i :: 0 <= i < |s| ==> s[i] < 0x80 as char }

  predicate AllHigh(s: string) { forall i :: 0 <= i < |s| ==> s[i] >= 0x80 as char }

  // ----- One character after the other ------------------------------------

  /** A character below 0x80 is its own form; that of any other is made of high bytes. */
  lemma RawOne(c: char)
    ensures RawCharacter(c) != "" && if c < 0x80 as char then RawCharacter(c) == [c] else AllHigh(RawCharacter(c))
  {
  }

  lemma RawStep(c: char, s: string)
    ensures Raw([c] + s) == RawCharacter(c) + Raw(s)
  {
    hide Encode;
    assert CodePoints([c] + s) == [c as int] + CodePoints(s);
    assert CodePoints([c] + s)[1..] == CodePoints(s);
    JoinChars(Encode(c as int), EncodeAll(CodePoints(s)));
  }

  lemma JoinChars(a: seq<byte>, b: seq<byte>)
    ensures AsChars(a + b) == AsChars(a) + AsChars(b)
  {
  }

  lemma RawNothing()
    ensures Raw("") == ""
  {
  }

  lemma {:induction false} RawConcat(a: string, b: string)
    ensures Raw(a + b) == Raw(a) + Raw(b)
  {
    hide Raw, RawCharacter;
    RawNothing();
    if a == "" {
      assert a + b == b && Raw("") + Raw(b) == Raw(b);
    } else {
      assert a + b == [a[0]] + (a[1..] + b) && a == [a[0]] + a[1..];
      RawStep(a[0], a[1..] + b);
      RawStep(a[0], a[1..]);
      RawConcat(a[1..], b);
    }
  }

  lemma {:induction false} RawAscii(s: string)
    requires Ascii(s)
    ensures Raw(s) == s
  {
    hide Raw, RawCharacter;
    RawNothing();
    if s != "" {
      assert s == [s[0]] + s[1..];
      RawStep(s[0], s[1..]);
      RawOne(s[0]);
      RawAscii(s[1..]);
    }
  }

  lemma {:induction false} RawNulFree(s: string)
    requires NulFree(s)
    ensures NulFree(Raw(s))
  {
    hide Raw, RawCharacter;
    RawNothing();
    if s != "" {
      assert s == [s[0]] + s[1..];
      RawStep(s[0], s[1..]);
      RawOne(s[0]);
      RawNulFree(s[1..]);
    }
  }

  // ----- Escaping ---------------------------------------------------------

  lemma {:induction false} EscapeConcat(a: string, b: string)
    ensures Escape(a + b) == Escape(a) + Escape(b)
  {
    if a == "" {
      assert a + b == b;
    } else {
      assert (a + b)[1..] == a[1..] + b;
      EscapeConcat(a[1..], b);
    }
  }

  /** One character: only a single byte can be special. */
  lemma EscapeOne(c: char)
    ensures Escape(RawCharacter(c)) == Raw(if IsSpecial(c) then ['\\', c] else [c])
  {
    hide Raw, RawCharacter;
    RawOne(c);
    RawNothing();
    RawStep(c, "");
    assert [c] + "" == [c] && RawCharacter(c) + "" == RawCharacter(c);
    if c < 0x80 as char {
      assert [c][1..] == "";
      RawAscii(['\\', c]);
    } else {
      EscapePlain(RawCharacter(c));
    }
  }

  /** Escaping the bytes of a text gives the bytes of the escaped text. */
  lemma {:induction false} EscapeCommutes(s: string)
    ensures Escape(Raw(s)) == Raw(Escape(s))
  {
    hide Raw, RawCharacter;
    RawNothing();
    if s != "" {
      assert s == [s[0]] + s[1..];
      RawStep(s[0], s[1..]);
      EscapeConcat(RawCharacter(s[0]), Raw(s[1..]));
      EscapeOne(s[0]);
      RawConcat(if IsSpecial(s[0]) then ['\\', s[0]] else [s[0]], Escape(s[1..]));
      EscapeCommutes(s[1..]);
    }
  }

  // ----- Replacing --------------------------------------------------------

  /** An ASCII text stands at the start of the characters if and only if it stands at the start of the bytes. */
  lemma {:induction false} RawPrefix(s: string, p: string)
    requires Ascii(p)
    ensures p <= s <==> p <= Raw(s)
  {
    hide Raw, RawCharacter;
    RawNothing();
    if p != "" && s != "" {
      assert s == [s[0]] + s[1..] && p == [p[0]] + p[1..];
      RawStep(s[0], s[1..]);
      RawOne(s[0]);
      if s[0] < 0x80 as char {
        RawPrefix(s[1..], p[1..]);
        PrefixStep(s, p);
        PrefixStep(Raw(s), p);
        assert Raw(s)[1..] == Raw(s[1..]);
      } else {
        assert Raw(s)[0] == RawCharacter(s[0])[0];
      }
    }
  }

  lemma PrefixStep(s: string, p: string)
    requires s != "" && p != ""
    ensures p <= s <==> p[0] == s[0] && p[1..] <= s[1..]
  {
    assert s == [s[0]] + s[1..] && p == [p[0]] + p[1..];
  }

  /** Bytes inside a longer sequence are passed over. */
  lemma {:induction false} ReplaceHigh(high: string, rest: string, search: string, replacement: string)
    requires AllHigh(high) && search != "" && Ascii(search)
    ensures ReplaceAll(high + rest, search, replacement) == high + ReplaceAll(rest, search, replacement)
  {
    hide ReplaceAll;
    if high == "" {
      assert high + rest == rest;
    } else {
      var s := high + rest;
      assert s[1..] == high[1..] + rest && s[0] == high[0];
      assert !(search <= s) by { PrefixStep(s, search); }
      ReplaceHead(s, search, replacement);
      ReplaceHigh(high[1..], rest, search, replacement);
    }
  }

  /** Replacing an ASCII text in the bytes replaces it in the characters. */
  lemma {:induction false} ReplaceCommutes(s: string, search: string, replacement: string)
    requires search != "" && Ascii(search)
    ensures ReplaceAll(Raw(s), search, Raw(replacement)) == Raw(ReplaceAll(s, search, replacement))
    decreases |s|
  {
    hide Raw, RawCharacter, ReplaceAll;
    RawNothing();
    if s == "" {
      NothingReplaced(search, replacement);
      NothingReplaced(search, Raw(replacement));
    } else {
      RawPrefix(s, search);
      ReplaceHead(s, search, replacement);
      if search <= s {
        ReplaceMatch(s, search, replacement);
      } else {
        ReplaceMiss(s, search, replacement);
      }
    }
  }

  lemma NothingReplaced(search: string, replacement: string)
    requires search != ""
    ensures ReplaceAll("", search, replacement) == ""
  {
  }

  lemma {:induction false} ReplaceMatch(s: string, search: string, replacement: string)
    requires search != "" && Ascii(search) && search <= s
    ensures ReplaceAll(Raw(s), search, Raw(replacement)) == Raw(ReplaceAll(s, search, replacement))
    decreases |s|, 0
  {
    hide Raw, ReplaceAll;
    var t := s[|search|..];
    assert s == search + t;
    RawConcat(search, t);
    RawAscii(search);
    assert (search + Raw(t))[|search|..] == Raw(t);
    ReplaceHead(s, search, replacement);
    ReplaceHead(Raw(s), search, Raw(replacement));
    ReplaceCommutes(t, search, replacement);
    RawConcat(replacement, ReplaceAll(t, search, replacement));
  }

  lemma {:induction false} ReplaceMiss(s: string, search: string, replacement: string)
    requires s != "" && search != "" && Ascii(search) && !(search <= s) && !(search <= Raw(s))
    ensures ReplaceAll(Raw(s), search, Raw(replacement)) == Raw(ReplaceAll(s, search, replacement))
    decreases |s|, 0
  {
    hide Raw, RawCharacter, ReplaceAll;
    var t := s[1..];
    assert s == [s[0]] + t;
    RawStep(s[0], t);
    RawOne(s[0]);
    ReplaceHead(s, search, replacement);
    ReplaceCommutes(t, search, replacement);
    RawStep(s[0], ReplaceAll(t, search, replacement));
    if s[0] < 0x80 as char {
      assert Raw(s)[1..] == Raw(t) && Raw(s)[0] == s[0];
      ReplaceHead(Raw(s), search, Raw(replacement));
    } else {
      ReplaceHigh(RawCharacter(s[0]), Raw(t), search, Raw(replacement));
    }
  }

  // ----- Unescaping and quoting -------------------------------------------

  lemma UnescapedCommutes(s: string, c: char)
    requires NulFree(s) && '\0' < c < 0x80 as char
    ensures Unescaped(Raw(s), c) == Raw(Unescaped(s, c)) && NulFree(Unescaped(s, c))
  {
    hide Raw, ReplaceAll, ReplaceFrom;
    RawNulFree(s);
    ReplaceFromStart(s, ['\\', c], [c]);
    ReplaceFromStart(Raw(s), ['\\', c], [c]);
    RawAscii([c]);
    ReplaceCommutes(s, ['\\', c], [c]);
    ReplacedNulFree(s, c, 0);
  }

  /** Unescaping the bytes of a NUL-free text gives the bytes of the unescaped text. */
  lemma UnescapeCommutes(s: string)
    requires NulFree(s)
    ensures Unescape(Raw(s)) == Raw(Unescape(s))
  {
    hide Raw, Unescaped, NulFree;
    var s1 := Unescaped(s, '\'');
    var s2 := Unescaped(s1, '"');
    var s3 := Unescaped(s2, '}');
    var s4 := Unescaped(s3, '{');
    UnescapedCommutes(s, '\'');
    UnescapedCommutes(s1, '"');
    UnescapedCommutes(s2, '}');
    UnescapedCommutes(s3, '{');
    UnescapedCommutes(s4, '\\');
  }

  /** Quoting the bytes of an element of a string array gives the bytes of the quoted element. */
  lemma QuoteCommutes(s: string)
    requires NulFree(s)
    ensures QuotedText(Raw(s)) == Raw(QuotedText(s))
  {
    hide Raw, ReplaceAll, ReplaceFrom;
    RawNulFree(s);
    ReplaceFromStart(s, "\"", "\\\\\"");
    ReplaceFromStart(Raw(s), "\"", "\\\\\"");
    RawAscii("\\\\\"");
    RawAscii("\"");
    ReplaceCommutes(s, "\"", "\\\\\"");
    var inner := ReplaceAll(s, "\"", "\\\\\"");
    RawConcat("\"" + inner, "\"");
    RawConcat("\"", inner);
  }

  // ----- A text with a NUL ------------------------------------------------

  lemma FirstPair(s: string, c: char, from: nat, at: nat)
    requires from <= at < |s| - 1 && s[at] == '\\' && s[at + 1] == c && c != '\0'
    requires forall k :: from <= k < at ==> s[k] != '\\'
    ensures FirstMatch(s, ['\\', c], from) == at
  {
    hide FirstMatch, Matches;
    var m := FirstMatch(s, ['\\', c], from);
    PairAt(s, c, at);
    if m < 0 || at < m {
      FirstMatchSkips(s, ['\\', c], from, at);
    } else {
      PairAt(s, c, m);
    }
  }

  lemma NoMorePairs(s: string, c: char, from: nat)
    requires c != '\0' && forall k :: from <= k < |s| - 1 ==> s[k] != '\\'
    ensures FirstMatch(s, ['\\', c], from) == -1
  {
    hide FirstMatch, Matches;
    if FirstMatch(s, ['\\', c], from) >= 0 {
      PairAt(s, c, FirstMatch(s, ['\\', c], from));
    }
  }

  /** Without a pair for any of the other characters, only the fourth replacement changes the text. */
  lemma OnlyBraces(s: string)
    requires NoPair(s, '\'') && NoPair(s, '"') && NoPair(s, '}') && NoPair(Unescaped(s, '{'), '\\')
    ensures Unescape(s) == Unescaped(s, '{')
  {
    hide Unescaped, NoPair;
    PairUnescaped(s, '\'');
    PairUnescaped(s, '"');
    PairUnescaped(s, '}');
    PairUnescaped(Unescaped(s, '{'), '\\');
  }

  /** In characters, both pairs are replaced. */
  lemma NulInCharacters()
    ensures Unescape(['\0', 233 as char] + "\\{aa\\{") == "{aa{"
  {
    hide ReplaceFrom, FirstMatch;
    var s := ['\0', 233 as char] + "\\{aa\\{";
    FirstPair(s, '{', 0, 2);
    ReplaceFromStep(s, "\\{", "{", 0);
    After(['\0', 233 as char]);
    FirstPair("{aa\\{", '{', 3, 3);
    ReplaceFromStep("{aa\\{", "\\{", "{", 3);
    AfterSecond();
    NoMorePairs("{aa{", '{', 4);
    ReplaceFromStep("{aa{", "\\{", "{", 4);
    OnlyBraces(s);
  }

  /** In bytes, the second pair is passed over. */
  lemma NulInBytes()
    ensures Unescape(['\0', 195 as char, 169 as char] + "\\{aa\\{") == "{aa\\{"
  {
    hide ReplaceFrom, FirstMatch;
    var raw := ['\0', 195 as char, 169 as char] + "\\{aa\\{";
    FirstPair(raw, '{', 0, 3);
    ReplaceFromStep(raw, "\\{", "{", 0);
    After(['\0', 195 as char, 169 as char]);
    NoMorePairs("{aa\\{", '{', 4);
    ReplaceFromStep("{aa\\{", "\\{", "{", 4);
    OnlyBraces(raw);
  }

  /**
    Behind a NUL the search resumes at an offset into the text as it was, which
    in bytes is another place than in characters.
   */
  lemma NulMisplaces()
    ensures var s := ['\0', 233 as char] + "\\{aa\\{"; Unescape(s) == "{aa{" && Unescape(Raw(s)) == "{aa\\{"
  {
    hide Unescape, Raw;
    NulInCharacters();
    RawWithNul();
    NulInBytes();
  }

  lemma RawWithNul()
    ensures Raw(['\0', 233 as char] + "\\{aa\\{") == ['\0', 195 as char, 169 as char] + "\\{aa\\{"
  {
    hide Raw;
    RawConcat(['\0', 233 as char], "\\{aa\\{");
    RawAscii("\\{aa\\{");
    RawConcat(['\0'], [233 as char]);
    RawAscii(['\0']);
    RawStep(233 as char, "");
    RawNothing();
    assert ['\0', 233 as char] == ['\0'] + [233 as char] && [233 as char] == [233 as char] + "";
    assert RawCharacter(233 as char) == [195 as char, 169 as char];
  }

  lemma Cut(front: string)
    requires front != "" && front[0] == '\0'
    ensures CStr(front) == ""
  {
  }

  lemma After(front: string)
    requires front != "" && front[0] == '\0'
    ensures Reformatted(front + "\\{aa\\{", "\\{", "{", |front|) == "{aa\\{"
  {
    hide CStr;
    var s := front + "\\{aa\\{";
    assert s[..|front|] == front && s[|front| + 2..] == "aa\\{";
    Cut(front);
  }

  lemma AfterSecond()
    ensures Reformatted("{aa\\{", "\\{", "{", 3) == "{aa{"
  {
    hide CStr;
    assert "{aa\\{"[..3] == "{aa" && "{aa\\{"[5..] == "";
  }
}
