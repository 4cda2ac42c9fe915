/**
  Escaping of attribute values for XML.  One pass over the string overwrites
  each special character and inserts the rest of its escape in front of the
  next one; it replaces a series of calls to `VString::replace`.
 */
module XmlEscape {
  import opened CStrings

  /** Characters are bytes; whether those from 0x80 on count as negative depends on the platform's `char`. */
  predicate AllBytes(s: string) { forall i :: 0 <= i < |s| ==> s[i] < 256 as char }

  predicate Unprintable(c: char, signedChar: bool)
  {
    c < 32 as char || c == 127 as char || (signedChar && c >= 128 as char)
  }

  predicate Special(c: char, signedChar: bool)
  {
    c == '&' || c == '\'' || c == '"' || c == '<' || c == '>' || Unprintable(c, signedChar)
  }

  function HexDigit(n: nat): char
    requires n < 16
  {
    if n < 10 then '0' + n as char else 'A' + (n - 10) as char
  }

  /** What takes the place of a special character. */
  function Entity(c: char): string
    requires c < 256 as char
  {
    if c == '&' then "&amp;"
    else if c == '\'' then "&apos;"
    else if c == '"' then "&quot;"
    else if c == '<' then "&lt;"
    else if c == '>' then "&gt;"
    else ['&', '#', 'x', HexDigit(c as int / 16), HexDigit(c as int % 16), ';']
  }

  /** Every special character replaced where it stands. */
  function Escaped(s: string, signedChar: bool): string
    requires AllBytes(s)
  {
    if s == "" then "" else (if Special(s[0], signedChar) then Entity(s[0]) else [s[0]]) + Escaped(s[1..], signedChar)
  }

  /** `_replaceCharWithString` */
  method ReplaceCharWithString(target: string, atIndex: nat, replacement: string) returns (result: string, growth: int)
    requires atIndex < |target| && replacement != ""
    ensures result == target[..atIndex] + replacement + target[atIndex + 1..] && growth == |replacement| - 1
  {
    result := target[atIndex := replacement[0]];
    result := result[..atIndex + 1] + replacement[1..] + result[atIndex + 1..];
    growth := |replacement| - 1;
  }

  /** `_escapeXMLValue` */
  method EscapeXmlValue(original: string, signedChar: bool) returns (text: string)
    requires AllBytes(original)
    ensures text == Escaped(original, signedChar)
  {
    hide *;
    text := original;
    var i := 0;
    ghost var done, rest := "", original;
    assert "" + original == original && "" + Escaped(original, signedChar) == Escaped(original, signedChar);
    while i < |text|
      invariant i == |done| && text == done + rest && AllBytes(rest)
      invariant Escaped(original, signedChar) == done + Escaped(rest, signedChar)
      decreases |rest|
    {
      var c := text[i];
      Cut(done, rest);
      EscapeStep(done, rest, signedChar);
      if Special(c, signedChar) {
        EntityNotEmpty(c);
        done := done + Entity(c);
        var growth;
        text, growth := ReplaceCharWithString(text, i, Entity(c));
        i := i + growth;
      } else {
        done := done + [c];
      }
      rest := rest[1..];
      i := i + 1;
    }
    EscapedNothing(signedChar);
  }

  lemma Cut(done: string, rest: string)
    requires rest != ""
    ensures var text, i := done + rest, |done|;
            && text[..i] == done && text[i] == rest[0] && text[i + 1..] == rest[1..]
            && text == done + [rest[0]] + rest[1..]
  {
  }

  lemma EscapedNothing(signedChar: bool)
    ensures AllBytes("") && Escaped("", signedChar) == ""
  {
  }

  /** One round of the loop moves a character, or its escape, to the part that is done. */
  lemma EscapeStep(done: string, rest: string, signedChar: bool)
    requires rest != "" && AllBytes(rest)
    ensures rest[0] < 256 as char && AllBytes(rest[1..])
    ensures done + Escaped(rest, signedChar)
         == (done + (if Special(rest[0], signedChar) then Entity(rest[0]) else [rest[0]]))
            + Escaped(rest[1..], signedChar)
  {
    hide Special, Entity;
  }

  lemma EntityNotEmpty(c: char)
    requires c < 256 as char
    ensures |Entity(c)| > 0
  {
  }

  // ----- Nothing special is left ------------------------------------------

  lemma EntityCharacters(c: char, i: nat, signedChar: bool)
    requires c < 256 as char && i < |Entity(c)|
    ensures Special(Entity(c)[i], signedChar) ==> i == 0 && Entity(c)[i] == '&'
  {
    var high, low := c as int / 16, c as int % 16;
    assert '0' <= HexDigit(high) <= '9' || 'A' <= HexDigit(high) <= 'F';
    assert '0' <= HexDigit(low) <= '9' || 'A' <= HexDigit(low) <= 'F';
  }

  /** No quote, apostrophe, angle bracket or unprintable character is left: only ampersands, which start the escapes. */
  lemma {:induction false} NothingRaw(s: string, signedChar: bool, i: nat)
    requires AllBytes(s) && i < |Escaped(s, signedChar)|
    ensures Special(Escaped(s, signedChar)[i], signedChar) ==> Escaped(s, signedChar)[i] == '&'
  {
    hide Special, Entity;
    var front := if Special(s[0], signedChar) then Entity(s[0]) else [s[0]];
    if i < |front| {
      if Special(s[0], signedChar) {
        EntityCharacters(s[0], i, signedChar);
      }
    } else {
      NothingRaw(s[1..], signedChar, i - |front|);
    }
  }

  // ----- Character by character -------------------------------------------

  lemma {:induction false} EscapedConcat(a: string, b: string, signedChar: bool)
    requires AllBytes(a) && AllBytes(b)
    ensures AllBytes(a + b) && Escaped(a + b, signedChar) == Escaped(a, signedChar) + Escaped(b, signedChar)
  {
    hide Special, Entity, Escaped;
    if a == "" {
      assert a + b == b && "" + Escaped(b, signedChar) == Escaped(b, signedChar);
      EscapedNothing(signedChar);
    } else {
      EscapedConcat(a[1..], b, signedChar);
      assert a == [a[0]] + a[1..] && a + b == [a[0]] + (a[1..] + b);
      EscapedHead(a[0], a[1..], signedChar);
      EscapedHead(a[0], a[1..] + b, signedChar);
    }
  }

  lemma EscapedHead(c: char, rest: string, signedChar: bool)
    requires c as int < 0x100 && AllBytes(rest)
    ensures AllBytes([c] + rest)
    ensures Escaped([c] + rest, signedChar)
         == (if Special(c, signedChar) then Entity(c) else [c]) + Escaped(rest, signedChar)
  {
    hide Special, Entity;
    assert ([c] + rest)[1..] == rest;
  }

  lemma HexSpelled(n: nat)
    requires n < 16
    ensures HexDigit(n) == "0123456789ABCDEF"[n]
  {
  }

  /** What each character gives way to: the five with a name, the unprintable ones, and all others, which stand. */
  lemma EscapedOne(c: char, signedChar: bool)
    requires c as int < 0x100
    ensures Escaped("&", signedChar) == "&amp;" && Escaped("'", signedChar) == "&apos;"
    ensures Escaped("\"", signedChar) == "&quot;" && Escaped("<", signedChar) == "&lt;"
    ensures Escaped(">", signedChar) == "&gt;"
    ensures c as int < 0x20 || c as int == 0x7F || (c as int >= 0x80 && signedChar) ==>
              Escaped([c], signedChar)
              == "&#x" + ["0123456789ABCDEF"[c as int / 16], "0123456789ABCDEF"[c as int % 16]] + ";"
    ensures (0x20 <= c as int < 0x7F && c !in "&'\"<>") || (c as int >= 0x80 && !signedChar) ==>
              Escaped([c], signedChar) == [c]
  {
    HexSpelled(c as int / 16);
    HexSpelled(c as int % 16);
    OneStep(c, signedChar);
    OneStep('&', signedChar);
    OneStep('\'', signedChar);
    OneStep('"', signedChar);
    OneStep('<', signedChar);
    OneStep('>', signedChar);
  }

  lemma OneStep(c: char, signedChar: bool)
    requires c as int < 0x100
    ensures AllBytes([c]) && Escaped([c], signedChar) == if Special(c, signedChar) then Entity(c) else [c]
  {
    hide Special, Entity;
    assert [c][1..] == "";
  }

  /** The forms that an ampersand may start. */
  predicate StartsEscape(s: string)
  {
    || "&amp;" <= s || "&apos;" <= s || "&quot;" <= s || "&lt;" <= s || "&gt;" <= s
    || (|s| >= 6 && s[..3] == "&#x" && s[3] in "0123456789ABCDEF" && s[4] in "0123456789ABCDEF" && s[5] == ';')
  }

  /**
    No quote, apostrophe, angle bracket or control character is left at any
    place, and every ampersand starts one of the five names or a two-digit
    hexadecimal reference.
   */
  lemma {:induction false} NothingLeft(s: string, signedChar: bool, i: nat)
    requires AllBytes(s) && i < |Escaped(s, signedChar)|
    ensures var t := Escaped(s, signedChar);
            && t[i] != '<' && t[i] != '>' && t[i] != '"' && t[i] != '\'' && t[i] as int >= 0x20 && t[i] as int != 0x7F
            && (signedChar ==> t[i] as int < 0x80)
            && (t[i] == '&' ==> StartsEscape(t[i..]))
  {
    hide StartsEscape, Escaped;
    EscapedSplit(s, signedChar);
    var c, rest := s[0], s[1..];
    var front := Escaped([c], signedChar);
    var t := front + Escaped(rest, signedChar);
    if i < |front| {
      OneLeft(c, signedChar, i, Escaped(rest, signedChar));
    } else {
      NothingLeft(rest, signedChar, i - |front|);
      assert t[i..] == Escaped(rest, signedChar)[i - |front|..];
    }
  }

  lemma EscapedSplit(s: string, signedChar: bool)
    requires AllBytes(s) && Escaped(s, signedChar) != ""
    ensures s != "" && AllBytes([s[0]]) && AllBytes(s[1..])
    ensures Escaped(s, signedChar) == Escaped([s[0]], signedChar) + Escaped(s[1..], signedChar)
  {
    assert s == [s[0]] + s[1..];
    EscapedConcat([s[0]], s[1..], signedChar);
  }

  lemma OneLeft(c: char, signedChar: bool, i: nat, rest: string)
    requires AllBytes([c]) && i < |Escaped([c], signedChar)|
    ensures var t := Escaped([c], signedChar);
            && t[i] != '<' && t[i] != '>' && t[i] != '"' && t[i] != '\'' && t[i] as int >= 0x20 && t[i] as int != 0x7F
            && (signedChar ==> t[i] as int < 0x80)
            && (t[i] == '&' ==> StartsEscape((t + rest)[i..]))
  {
    hide Escaped, StartsEscape;
    var t := Escaped([c], signedChar);
    assert [c][0] == c;
    EscapedOne(c, signedChar);
    var high, low := "0123456789ABCDEF"[c as int / 16], "0123456789ABCDEF"[c as int % 16];
    if t[i] == '&' {
      assert i == 0 && (t + rest)[0..] == t + rest;
      Started(t, rest);
    }
  }

  lemma Started(t: string, rest: string)
    requires t in {"&amp;", "&apos;", "&quot;", "&lt;", "&gt;"}
          || (|t| == 6 && t[..3] == "&#x" && t[3] in "0123456789ABCDEF" && t[4] in "0123456789ABCDEF" && t[5] == ';')
    ensures StartsEscape(t + rest)
  {
    assert t <= t + rest;
    var all := t + rest;
    assert |t| == 6 ==> all[..3] == t[..3] && all[3] == t[3] && all[4] == t[4] && all[5] == t[5];
  }

  // ----- Escaping loses nothing -------------------------------------------

  function HexValue(c: char): int
  {
    if '0' <= c <= '9' then c as int - '0' as int else if 'A' <= c <= 'F' then c as int - 'A' as int + 10 else -1
  }

  /** How an XML reader sees the text: predefined entities (section 4.6 of XML 1.0) and hexadecimal references. */
  function Unescaped(s: string): string
  {
    if s == "" then ""
    else if s[0] != '&' then [s[0]] + Unescaped(s[1..])
    else if "&amp;" <= s then "&" + Unescaped(s[5..])
    else if "&apos;" <= s then "'" + Unescaped(s[6..])
    else if "&quot;" <= s then "\"" + Unescaped(s[6..])
    else if "&lt;" <= s then "<" + Unescaped(s[4..])
    else if "&gt;" <= s then ">" + Unescaped(s[4..])
    else if IsReference(s) then [(HexValue(s[3]) * 16 + HexValue(s[4])) as char] + Unescaped(s[6..])
    else [s[0]] + Unescaped(s[1..])
  }

  predicate IsReference(s: string)
  {
    && |s| >= 6 && s[0] == '&' && s[1] == '#' && s[2] == 'x'
    && HexValue(s[3]) >= 0 && HexValue(s[4]) >= 0 && s[5] == ';'
  }

  lemma HexOf(n: nat)
    requires n < 16
    ensures HexValue(HexDigit(n)) == n
  {
  }

  lemma UnescapedEntity(c: char, rest: string)
    requires c < 256 as char
    ensures Unescaped(Entity(c) + rest) == [c] + Unescaped(rest)
  {
    var s := Entity(c) + rest;
    assert s[|Entity(c)|..] == rest;
    assert forall i :: 0 <= i < |Entity(c)| ==> s[i] == Entity(c)[i];
    var high, low := c as int / 16, c as int % 16;
    HexOf(high);
    HexOf(low);
    assert (high * 16 + low) as char == c;
    if c == '&' {
      assert "&amp;" <= s;
    } else if c == '\'' {
      NotPrefix("&amp;", s, 2);
      assert "&apos;" <= s;
    } else {
      NotPrefix("&amp;", s, 1);
      NotPrefix("&apos;", s, 1);
      if c == '"' {
        assert "&quot;" <= s;
      } else {
        NotPrefix("&quot;", s, 1);
        if c == '<' {
          assert "&lt;" <= s;
        } else {
          NotPrefix("&lt;", s, 1);
          if c == '>' {
            assert "&gt;" <= s;
          } else {
            NotPrefix("&gt;", s, 1);
          }
        }
      }
    }
  }

  lemma NotPrefix(p: string, s: string, i: nat)
    requires i < |p| && i < |s| && p[i] != s[i]
    ensures !(p <= s)
  {
  }

  lemma UnescapedPlain(c: char, rest: string)
    requires c != '&'
    ensures Unescaped([c] + rest) == [c] + Unescaped(rest)
  {
    assert ([c] + rest)[1..] == rest;
  }

  /** Reading escaped text gives the original back, so no two texts are escaped alike. */
  lemma {:induction false} UnescapedEscaped(s: string, signedChar: bool)
    requires AllBytes(s)
    ensures Unescaped(Escaped(s, signedChar)) == s
  {
    hide Entity, Unescaped;
    if s == "" {
      assert Unescaped("") == "" by { UnescapedNothing(); }
    } else {
      UnescapedEscaped(s[1..], signedChar);
      var rest := Escaped(s[1..], signedChar);
      assert s == [s[0]] + s[1..];
      if Special(s[0], signedChar) {
        UnescapedEntity(s[0], rest);
      } else {
        UnescapedPlain(s[0], rest);
      }
    }
  }

  lemma UnescapedNothing()
    ensures Unescaped("") == ""
  {
  }

  // ----- The series of replacements ---------------------------------------

  lemma {:induction false} ReplaceConcat(a: string, b: string, c: char, r: string)
    ensures ReplaceAll(a + b, [c], r) == ReplaceAll(a, [c], r) + ReplaceAll(b, [c], r)
  {
    hide ReplaceAll;
    if a == "" {
      assert a + b == b && ReplaceAll("", [c], r) == "" by { ReplaceNothing(c, r); }
    } else {
      ReplaceConcat(a[1..], b, c, r);
      assert (a + b)[1..] == a[1..] + b && (a + b)[0] == a[0];
      ReplaceOne(a, c, r);
      ReplaceOne(a + b, c, r);
    }
  }

  lemma ReplaceNothing(c: char, r: string)
    ensures ReplaceAll("", [c], r) == ""
  {
  }

  lemma ReplaceOne(s: string, c: char, r: string)
    requires s != ""
    ensures ReplaceAll(s, [c], r) == (if s[0] == c then r else [s[0]]) + ReplaceAll(s[1..], [c], r)
  {
    ReplaceHead(s, [c], r);
    assert [c] <= s <==> s[..1] == [c];
  }

  lemma {:induction false} ReplaceAbsent(s: string, c: char, r: string)
    requires forall i :: 0 <= i < |s| ==> s[i] != c
    ensures ReplaceAll(s, [c], r) == s
  {
    if s != "" {
      ReplaceOne(s, c, r);
      ReplaceAbsent(s[1..], c, r);
    }
  }

  /** The text after the characters of `done` have been replaced. */
  function EscapedSoFar(s: string, done: set<char>): string
    requires AllBytes(s)
  {
    if s == "" then "" else (if s[0] in done then Entity(s[0]) else [s[0]]) + EscapedSoFar(s[1..], done)
  }

  /** Once the ampersand is done, replacing another special character touches no escape. */
  lemma {:induction false} ReplaceNext(s: string, done: set<char>, c: char, signedChar: bool)
    requires AllBytes(s) && c < 256 as char && Special(c, signedChar)
    requires if c == '&' then done == {} else c !in done
    ensures ReplaceAll(EscapedSoFar(s, done), [c], Entity(c)) == EscapedSoFar(s, done + {c})
  {
    hide Special, Entity, ReplaceAll;
    if s == "" {
      ReplaceNothing(c, Entity(c));
    } else {
      var front := if s[0] in done then Entity(s[0]) else [s[0]];
      ReplaceNext(s[1..], done, c, signedChar);
      ReplaceConcat(front, EscapedSoFar(s[1..], done), c, Entity(c));
      if s[0] in done {
        NotInEntity(s[0], c, signedChar);
        ReplaceAbsent(front, c, Entity(c));
      } else {
        ReplaceOne(front, c, Entity(c));
        ReplaceNothing(c, Entity(c));
        assert front[1..] == "" && [s[0]] + "" == [s[0]] && Entity(c) + "" == Entity(c);
      }
    }
  }

  /** An escape holds no special character but the ampersand it starts with. */
  lemma NotInEntity(of: char, c: char, signedChar: bool)
    requires of < 256 as char && Special(c, signedChar) && c != '&'
    ensures forall i :: 0 <= i < |Entity(of)| ==> Entity(of)[i] != c
  {
    hide Special, Entity;
    forall i | 0 <= i < |Entity(of)|
      ensures Entity(of)[i] != c
    {
      EntityCharacters(of, i, signedChar);
    }
  }

  lemma {:induction false} AllDone(s: string, done: set<char>, signedChar: bool)
    requires AllBytes(s) && NulFree(s)
    requires forall c :: '\0' < c < 256 as char ==> (c in done <==> Special(c, signedChar))
    ensures EscapedSoFar(s, done) == Escaped(s, signedChar)
  {
    hide Special, Entity;
    if s != "" {
      AllDone(s[1..], done, signedChar);
    }
  }

  lemma NothingDone(s: string)
    requires AllBytes(s)
    ensures EscapedSoFar(s, {}) == s
  {
  }

  lemma EscapedSoFarNulFree(s: string, done: set<char>)
    requires AllBytes(s) && NulFree(s)
    ensures NulFree(EscapedSoFar(s, done))
  {
    hide Entity;
    if s != "" {
      EscapedSoFarNulFree(s[1..], done);
      EntityNulFree(s[0]);
    }
  }

  lemma EntityNulFree(c: char)
    requires c < 256 as char
    ensures NulFree(Entity(c))
  {
    assert HexDigit(c as int / 16) != '\0' && HexDigit(c as int % 16) != '\0';
  }

  /** The order of the naive form: the ampersand first, then the other special characters but NUL, each once. */
  predicate NaiveOrder(order: seq<char>, signedChar: bool)
  {
    && order != [] && order[0] == '&'
    && (forall i :: 0 <= i < |order| ==> '\0' < order[i] < 256 as char && Special(order[i], signedChar))
    && (forall i, j :: 0 <= i < j < |order| ==> order[i] != order[j])
    && (forall c :: '\0' < c < 256 as char && Special(c, signedChar) ==> c in order)
  }

  /** The naive form gives the same text as the one pass, in whatever order the other characters are replaced. */
  method NaiveEscape(original: string, order: seq<char>, signedChar: bool) returns (text: string)
    requires AllBytes(original) && NulFree(original) && NaiveOrder(order, signedChar)
    ensures text == Escaped(original, signedChar)
  {
    hide Special, Entity, ReplaceAll, ReplaceFrom, Occurrences, Escaped, EscapedSoFar;
    text := original;
    ghost var done: set<char> := {};
    NothingDone(original);
    for i := 0 to |order|
      invariant done == set k | 0 <= k < i :: order[k]
      invariant text == EscapedSoFar(original, done)
    {
      assert order[i] !in done;
      assert i == 0 ==> done == {};
      EscapedSoFarNulFree(original, done);
      EntityNulFree(order[i]);
      ReplaceNext(original, done, order[i], signedChar);
      var count;
      text, count := Replace(text, [order[i]], Entity(order[i]));
      done := done + {order[i]};
    }
    AllDone(original, done, signedChar);
  }
}
