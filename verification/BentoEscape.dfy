/**
  Backslash escaping in the Bento text format: the in-place loop that inserts
  backslashes, and the five replacements that take them out again.
 */
module BentoEscape {
  import opened CStrings

  predicate IsSpecial(c: char) { c == '\\' || c == '{' || c == '}' || c == '"' || c == '\'' }

  /** A backslash in front of every special character. */
  function Escape(s: string): string
  {
    if s == [] then []
    else if IsSpecial(s[0]) then ['\\', s[0]] + Escape(s[1..])
    else [s[0]] + Escape(s[1..])
  }

  /** Text without special characters is its own escaped form. */
  lemma {:induction false} EscapePlain(s: string)
    requires forall i :: 0 <= i < |s| ==> !IsSpecial(s[i])
    ensures Escape(s) == s
  {
    if s != [] {
      EscapePlain(s[1..]);
    }
  }

  lemma {:induction false} EscapeNulFree(s: string)
    requires NulFree(s)
    ensures NulFree(Escape(s))
  {
    if s != [] {
      EscapeNulFree(s[1..]);
    }
  }

  /** One turn of the loop, seen on the text behind position `i`. */
  lemma EscapeStep(s: string, i: nat)
    requires i < |s|
    ensures IsSpecial(s[i]) ==> Escape(s[i..]) == ['\\', s[i]] + Escape(s[i + 1..])
    ensures !IsSpecial(s[i]) ==> Escape(s[i..]) == [s[i]] + Escape(s[i + 1..])
  {
    assert s[i..][1..] == s[i + 1..];
  }

  /** The in-place loop: insert a backslash at each special character and step over both. */
  method EscapeString(original: string) returns (s: string)
    ensures s == Escape(original)
  {
    hide Escape;
    s := original;
    var i := 0;
    assert s[..0] + Escape(s[0..]) == Escape(original) by { assert s[0..] == s && s[..0] == ""; }
    while i < |s|
      invariant 0 <= i <= |s|
      invariant s[..i] + Escape(s[i..]) == Escape(original)
      decreases |s| - i
    {
      var c := s[i];
      EscapeStep(s, i);
      ghost var done, rest := s[..i], s[i + 1..];
      if c == '\\' || c == '{' || c == '}' || c == '"' || c == '\'' {
        s := s[..i] + ['\\'] + s[i..];
        i := i + 1;
        assert s[..i + 1] == done + ['\\', c];
      } else {
        assert s[..i + 1] == done + [c];
      }
      i := i + 1;
      assert s[i..] == rest;
    }
    assert s[|s|..] == "" && s[..|s|] == s;
    assert Escape("") == "" by { EscapePlain(""); }
  }

  // ----- Unescaping -------------------------------------------------------

  /** One replacement of `_unescapeString`: drop the backslash in front of each `c`. */
  function Unescaped(s: string, c: char): string { ReplaceFrom(s, ['\\', c], [c], 0) }

  /** The five replacements of `_unescapeString`, in its order. */
  function Unescape(s: string): string
  {
    Unescaped(Unescaped(Unescaped(Unescaped(Unescaped(s, '\''), '"'), '}'), '{'), '\\')
  }

  method UnescapeString(original: string) returns (s: string)
    ensures s == Unescape(original)
  {
    hide ReplaceFrom, ReplaceCount;
    var n;
    s, n := Replace(original, "\\'", "'");
    s, n := Replace(s, "\\\"", "\"");
    s, n := Replace(s, "\\}", "}");
    s, n := Replace(s, "\\{", "{");
    s, n := Replace(s, "\\\\", "\\");
  }

  /** No backslash stands directly before a special character. */
  predicate Settled(s: string)
  {
    forall i :: 0 <= i < |s| - 1 && s[i] == '\\' ==> !IsSpecial(s[i + 1])
  }

  predicate NoPair(s: string, c: char) { forall k :: 0 <= k < |s| - 1 && s[k] == '\\' ==> s[k + 1] != c }

  lemma PairAt(s: string, c: char, k: nat)
    requires k < |s| && c != '\0'
    ensures Matches(s, ['\\', c], k) <==> k < |s| - 1 && s[k] == '\\' && s[k + 1] == c
  {
    hide Matches;
    MatchIsPrefix(s, ['\\', c], k);
    if k < |s| - 1 {
      assert s[k..][..2] == [s[k], s[k + 1]];
    }
  }

  /** Each replacement of a pair by one character shortens the text. */
  lemma {:induction false} PairShrinks(s: string, c: char, from: nat)
    ensures var pair := ['\\', c];
            && |ReplaceFrom(s, pair, [c], from)| <= |s|
            && (FirstMatch(s, pair, from) < 0 ==> ReplaceFrom(s, pair, [c], from) == s)
            && (FirstMatch(s, pair, from) >= 0 ==> |ReplaceFrom(s, pair, [c], from)| < |s|)
    decreases |s| - from
  {
    hide *;
    var at := FirstMatch(s, ['\\', c], from);
    ReplaceFromStep(s, ['\\', c], [c], from);
    if at >= 0 {
      PairShrinks(Reformatted(s, ['\\', c], [c], at), c, at + 1);
    }
  }

  /** A replacement changes the text, and then shortens it, exactly if the pair occurs in it. */
  lemma PairUnescaped(s: string, c: char)
    requires c != '\0'
    ensures |Unescaped(s, c)| <= |s|
    ensures NoPair(s, c) ==> Unescaped(s, c) == s
    ensures !NoPair(s, c) ==> |Unescaped(s, c)| < |s|
  {
    hide Matches, FirstMatch, ReplaceFrom;
    var at := FirstMatch(s, ['\\', c], 0);
    PairShrinks(s, c, 0);
    if at >= 0 {
      PairAt(s, c, at);
    } else {
      forall k | 0 <= k < |s| - 1 && s[k] == '\\'
        ensures s[k + 1] != c
      {
        FirstMatchSkips(s, ['\\', c], 0, k);
        PairAt(s, c, k);
      }
    }
  }

  /** Unescaping leaves a text as it is if and only if no backslash in it precedes a special character. */
  lemma UnescapeFixes(s: string)
    ensures Unescape(s) == s <==> Settled(s)
  {
    hide Unescaped;
    var s1 := Unescaped(s, '\'');
    var s2 := Unescaped(s1, '"');
    var s3 := Unescaped(s2, '}');
    var s4 := Unescaped(s3, '{');
    PairUnescaped(s, '\'');
    PairUnescaped(s1, '"');
    PairUnescaped(s2, '}');
    PairUnescaped(s3, '{');
    PairUnescaped(s4, '\\');
  }

  // ----- Unescaping undoes escaping -----------------------------------------

  /** A backslash in front of every character of a set. */
  function EscapeSet(s: string, chars: set<char>): string
  {
    if s == [] then []
    else (if s[0] in chars then ['\\', s[0]] else [s[0]]) + EscapeSet(s[1..], chars)
  }

  lemma {:induction false} EscapeIsEscapeSet(s: string)
    ensures Escape(s) == EscapeSet(s, {'\\', '{', '}', '"', '\''})
  {
    if s != [] {
      EscapeIsEscapeSet(s[1..]);
    }
  }

  lemma EscapeSetStep(x: char, rest: string, chars: set<char>)
    ensures EscapeSet([x] + rest, chars) == (if x in chars then ['\\', x] else [x]) + EscapeSet(rest, chars)
  {
    assert ([x] + rest)[1..] == rest;
  }

  lemma {:induction false} EmptySet(s: string)
    ensures EscapeSet(s, {}) == s
  {
    if s != [] {
      EmptySet(s[1..]);
    }
  }

  lemma {:induction false} EscapeSetNulFree(s: string, chars: set<char>)
    requires NulFree(s)
    ensures NulFree(EscapeSet(s, chars))
  {
    if s != [] {
      EscapeSetNulFree(s[1..], chars);
    }
  }

  /** An escaped text never starts with a character that is escaped, the backslash aside. */
  lemma EscapedHead(s: string, chars: set<char>, c: char)
    requires c in chars && c != '\\'
    ensures EscapeSet(s, chars) != [] ==> EscapeSet(s, chars)[0] != c
  {
  }

  /** A character at which no pair starts is kept. */
  lemma KeepOne(x: char, rest: string, c: char)
    requires x != '\\' || rest == [] || rest[0] != c
    ensures ReplaceAll([x] + rest, ['\\', c], [c]) == [x] + ReplaceAll(rest, ['\\', c], [c])
  {
    var s, pair := [x] + rest, ['\\', c];
    assert s[1..] == rest && (rest != [] ==> s[1] == rest[0]) && pair[0] == '\\' && pair[1] == c;
    assert !(pair <= s);
    ReplaceHead(s, pair, [c]);
  }

  /** A pair gives way to its second character. */
  lemma DropOne(rest: string, c: char)
    ensures ReplaceAll(['\\', c] + rest, ['\\', c], [c]) == [c] + ReplaceAll(rest, ['\\', c], [c])
  {
    assert (['\\', c] + rest)[2..] == rest;
    ReplaceHead(['\\', c] + rest, ['\\', c], [c]);
  }

  /** One replacement takes one character out of the set of those that are escaped; the backslash goes last. */
  lemma {:induction false} OneLess(s: string, chars: set<char>, c: char)
    requires '\\' in chars && c in chars && (c == '\\' ==> chars == {'\\'})
    ensures ReplaceAll(EscapeSet(s, chars), ['\\', c], [c]) == EscapeSet(s, chars - {c})
  {
    hide ReplaceAll, EscapeSet, NoneBefore;
    if s == [] {
      NothingEscaped(chars);
      NothingEscaped(chars - {c});
      assert NoneBefore("", ['\\', c], 0) by { NoneYet(['\\', c]); }
      ReplaceNone("", ['\\', c], [c]);
    } else {
      var x, rest := s[0], EscapeSet(s[1..], chars);
      assert s == [x] + s[1..];
      EscapeSetStep(x, s[1..], chars);
      EscapeSetStep(x, s[1..], chars - {c});
      OneLess(s[1..], chars, c);
      if x == c {
        DropOne(rest, c);
      } else {
        if c != '\\' {
          EscapedHead(s[1..], chars, c);
        }
        KeepOne(x, rest, c);
        if x in chars {
          KeepBoth(x, rest, c);
        }
      }
    }
  }

  lemma NothingEscaped(chars: set<char>)
    ensures EscapeSet("", chars) == ""
  {
  }

  lemma NoneYet(search: string)
    ensures NoneBefore("", search, 0)
  {
  }

  lemma KeepBoth(x: char, rest: string, c: char)
    requires x != c
    requires ReplaceAll([x] + rest, ['\\', c], [c]) == [x] + ReplaceAll(rest, ['\\', c], [c])
    ensures ReplaceAll(['\\', x] + rest, ['\\', c], [c]) == ['\\', x] + ReplaceAll(rest, ['\\', c], [c])
  {
    hide ReplaceAll;
    assert ['\\', x] + rest == ['\\'] + ([x] + rest);
    KeepOne('\\', [x] + rest, c);
  }

  lemma OneStage(s: string, chars: set<char>, c: char)
    requires NulFree(s) && '\\' in chars && c in chars && c != '\0' && (c == '\\' ==> chars == {'\\'})
    ensures Unescaped(EscapeSet(s, chars), c) == EscapeSet(s, chars - {c})
  {
    hide ReplaceAll, EscapeSet, ReplaceFrom;
    EscapeSetNulFree(s, chars);
    ReplaceFromStart(EscapeSet(s, chars), ['\\', c], [c]);
    OneLess(s, chars, c);
  }

  lemma UnescapeEscapeNulFree(s: string)
    requires NulFree(s)
    ensures Unescape(Escape(s)) == s
  {
    hide Escape, EscapeSet, Unescaped, NulFree;
    EscapeIsEscapeSet(s);
    OneStage(s, {'\\', '{', '}', '"', '\''}, '\'');
    assert {'\\', '{', '}', '"', '\''} - {'\''} == {'\\', '{', '}', '"'};
    OneStage(s, {'\\', '{', '}', '"'}, '"');
    assert {'\\', '{', '}', '"'} - {'"'} == {'\\', '{', '}'};
    OneStage(s, {'\\', '{', '}'}, '}');
    assert {'\\', '{', '}'} - {'}'} == {'\\', '{'};
    OneStage(s, {'\\', '{'}, '{');
    assert {'\\', '{'} - {'{'} == {'\\'};
    OneStage(s, {'\\'}, '\\');
    assert {'\\'} - {'\\'} == {};
    EmptySet(s);
  }

  /** A replacement drops what stands behind a NUL, so that none is left. */
  lemma {:induction false} ReplacedNulFree(s: string, c: char, from: nat)
    requires c != '\0'
    ensures var r := ReplaceFrom(s, ['\\', c], [c], from); r == s || NulFree(r)
    ensures NulFree(s) ==> NulFree(ReplaceFrom(s, ['\\', c], [c], from))
    decreases |s| - from
  {
    hide ReplaceFrom, FirstMatch, Matches;
    var at := FirstMatch(s, ['\\', c], from);
    ReplaceFromStep(s, ['\\', c], [c], from);
    if at >= 0 {
      ReplacedNulFree(Reformatted(s, ['\\', c], [c], at), c, at + 1);
    }
  }

  lemma UnescapedNulFree(s: string)
    ensures Unescape(s) == s || NulFree(Unescape(s))
  {
    hide ReplaceFrom, NulFree;
    var s1 := Unescaped(s, '\'');
    var s2 := Unescaped(s1, '"');
    var s3 := Unescaped(s2, '}');
    var s4 := Unescaped(s3, '{');
    ReplacedNulFree(s, '\'', 0);
    ReplacedNulFree(s1, '"', 0);
    ReplacedNulFree(s2, '}', 0);
    ReplacedNulFree(s3, '{', 0);
    ReplacedNulFree(s4, '\\', 0);
  }

  lemma {:induction false} EscapedUnsettled(s: string, k: nat)
    requires k < |s| && IsSpecial(s[k])
    ensures !Settled(Escape(s))
  {
    var t := Escape(s);
    if IsSpecial(s[0]) {
      assert t[0] == '\\' && IsSpecial(t[1]);
    } else {
      EscapedUnsettled(s[1..], k - 1);
      var rest := Escape(s[1..]);
      var i :| 0 <= i < |rest| - 1 && rest[i] == '\\' && IsSpecial(rest[i + 1]);
      assert t[i + 1] == rest[i] && t[i + 2] == rest[i + 1];
    }
  }

  /** A NUL in front of a brace is lost. */
  lemma NulLost()
    ensures Unescape(Escape("\0{")) != "\0{"
  {
    assert "\0{"[0] == '\0' && IsSpecial("\0{"[1]);
    UnescapeEscape("\0{");
  }

  /** Unescaping undoes escaping if and only if the text has no NUL or nothing in it needs an escape. */
  lemma UnescapeEscape(s: string)
    ensures Unescape(Escape(s)) == s <==> NulFree(s) || forall i :: 0 <= i < |s| ==> !IsSpecial(s[i])
  {
    hide Escape, Unescape;
    if NulFree(s) {
      UnescapeEscapeNulFree(s);
    } else if k :| 0 <= k < |s| && IsSpecial(s[k]) {
      EscapedUnsettled(s, k);
      UnescapeFixes(Escape(s));
      UnescapedNulFree(Escape(s));
    } else {
      EscapePlain(s);
      UnescapeFixes(s);
    }
  }
}
