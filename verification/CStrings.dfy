/**
  Searching and replacing in `VString`s, seen as the characters before the
  terminator.  `VString` keeps its length apart from the terminator, so a NUL
  may stand inside one; the C functions it calls stop there.
 */
module CStrings {

  /** `tolower` */
  function Lower(c: char): char { if 'A' <= c <= 'Z' then c + 32 as char else c }

  predicate NulFree(s: string) { forall i :: 0 <= i < |s| ==> s[i] != '\0' }

  /** What `%s` copies: everything before the first NUL. */
  function CStr(s: string): (r: string)
    ensures r <= s && NulFree(r)
    ensures NulFree(s) ==> r == s
  {
    if s == [] || s[0] == '\0' then [] else [s[0]] + CStr(s[1..])
  }

  /** `strncmp(a, b, n) == 0`, where both reach at least `n` characters or a terminator. */
  predicate SameRegion(a: string, b: string, n: nat)
    requires n <= |a| && n <= |b|
  {
    n == 0 || (a[0] == b[0] && (a[0] == '\0' || SameRegion(a[1..], b[1..], n - 1)))
  }

  lemma {:induction false} SameRegionIsEquality(a: string, b: string, n: nat)
    requires n <= |a| && n <= |b| && NulFree(b[..n])
    ensures SameRegion(a, b, n) <==> a[..n] == b[..n]
  {
    if n > 0 {
      assert b[..n][0] == b[0];
      assert b[1..][..n - 1] == b[..n][1..];
      SameRegionIsEquality(a[1..], b[1..], n - 1);
      assert a[..n] == [a[0]] + a[1..][..n - 1] && b[..n] == [b[0]] + b[1..][..n - 1];
    }
  }

  /** Two regions compare equal exactly if they are the same up to their first NUL. */
  lemma {:induction false} SameRegionExactly(a: string, b: string, n: nat)
    requires n <= |a| && n <= |b|
    ensures SameRegion(a, b, n) <==> CStr(a[..n]) == CStr(b[..n])
  {
    hide CStr;
    if n > 0 {
      Front(a, n);
      Front(b, n);
      SameRegionExactly(a[1..], b[1..], n - 1);
      CStrStep(a[0], a[1..][..n - 1]);
      CStrStep(b[0], b[1..][..n - 1]);
    }
  }

  lemma Front(s: string, n: nat)
    requires 0 < n <= |s|
    ensures s[..n] == [s[0]] + s[1..][..n - 1]
  {
  }

  /** What is copied ends at the first NUL, or with the text. */
  lemma {:induction false} CStrExactly(s: string)
    ensures |CStr(s)| < |s| ==> s[|CStr(s)|] == '\0'
    ensures forall i :: 0 <= i < |CStr(s)| ==> CStr(s)[i] == s[i] != '\0'
  {
    if s != "" && s[0] != '\0' {
      CStrExactly(s[1..]);
    }
  }

  lemma CStrStep(c: char, s: string)
    ensures CStr([c] + s) == if c == '\0' then "" else [c] + CStr(s)
  {
    assert ([c] + s)[1..] == s;
  }

  predicate RegionMatches(s: string, thisOffset: int, other: string, otherOffset: int, regionLength: nat)
  {
    && 0 <= thisOffset < |s| && thisOffset + regionLength <= |s|
    && 0 <= otherOffset < |other| && otherOffset + regionLength <= |other|
    && SameRegion(s[thisOffset..], other[otherOffset..], regionLength)
  }

  predicate Matches(s: string, search: string, at: int) { RegionMatches(s, at, search, 0, |search|) }

  /** The first index at or after `from` where `search` matches, or -1. */
  function FirstMatch(s: string, search: string, from: int): (index: int)
    ensures -1 <= index < |s|
    ensures index >= 0 ==> 0 <= from <= index && index + |search| <= |s| && Matches(s, search, index)
    decreases |s| - from
  {
    if from < 0 || from >= |s| then -1
    else if Matches(s, search, from) then from
    else FirstMatch(s, search, from + 1)
  }

  lemma FirstMatchSkips(s: string, search: string, from: nat, k: nat)
    requires from <= k < |s| && (FirstMatch(s, search, from) < 0 || k < FirstMatch(s, search, from))
    ensures !Matches(s, search, k)
    decreases |s| - from
  {
    if from < k {
      FirstMatchSkips(s, search, from + 1, k);
    }
  }

  /** An empty text is found nowhere, and no region starts at the end of a text. */
  lemma NothingToFind(s: string, other: string, from: int)
    ensures FirstMatch(s, "", from) == -1
    ensures !RegionMatches(s, |s|, other, 0, 0) && !RegionMatches(s, 0, other, |other|, 0)
    decreases |s| - from
  {
    if 0 <= from < |s| {
      NothingToFind(s, other, from + 1);
    }
  }

  method IndexOf(s: string, search: string, fromIndex: int) returns (index: int)
    ensures index == FirstMatch(s, search, fromIndex)
  {
    if fromIndex < 0 {
      return -1;
    }
    var i := fromIndex;
    while i < |s|
      invariant fromIndex <= i
      invariant FirstMatch(s, search, fromIndex) == FirstMatch(s, search, i)
    {
      if Matches(s, search, i) {
        return i;
      }
      i := i + 1;
    }
    return -1;
  }

  // ----- Replacing --------------------------------------------------------

  /** Leftmost, non-overlapping replacement. */
  function ReplaceAll(s: string, search: string, replacement: string): string
    requires search != ""
  {
    if |s| < |search| then s
    else if search <= s then replacement + ReplaceAll(s[|search|..], search, replacement)
    else [s[0]] + ReplaceAll(s[1..], search, replacement)
  }

  /** The number of leftmost, non-overlapping occurrences. */
  function Occurrences(s: string, search: string): nat
    requires search != ""
  {
    if |s| < |search| then 0
    else if search <= s then 1 + Occurrences(s[|search|..], search)
    else Occurrences(s[1..], search)
  }

  lemma ReplaceHead(s: string, search: string, replacement: string)
    requires search != "" && s != ""
    ensures search <= s ==>
              && ReplaceAll(s, search, replacement) == replacement + ReplaceAll(s[|search|..], search, replacement)
              && Occurrences(s, search) == 1 + Occurrences(s[|search|..], search)
    ensures !(search <= s) ==>
              && ReplaceAll(s, search, replacement) == [s[0]] + ReplaceAll(s[1..], search, replacement)
              && Occurrences(s, search) == Occurrences(s[1..], search)
  {
    if |s| < |search| {
      assert s == [s[0]] + s[1..];
    }
  }

  ghost predicate NoneBefore(s: string, search: string, at: nat)
    requires at <= |s|
  {
    forall k :: 0 <= k < at ==> !(search <= s[k..])
  }

  lemma NoneBeforeTail(s: string, search: string, at: nat)
    requires 0 < at <= |s| && NoneBefore(s, search, at)
    ensures NoneBefore(s[1..], search, at - 1) && !(search <= s)
  {
    assert s[0..] == s;
    assert forall k :: 0 <= k < at - 1 ==> s[1..][k..] == s[k + 1..];
  }

  /** Where nothing matches before `at`, replacement starts at `at`. */
  lemma {:induction false} ReplaceSkips(s: string, search: string, replacement: string, at: nat)
    requires search != "" && at <= |s| && NoneBefore(s, search, at)
    ensures ReplaceAll(s, search, replacement) == s[..at] + ReplaceAll(s[at..], search, replacement)
    ensures Occurrences(s, search) == Occurrences(s[at..], search)
  {
    hide NoneBefore, ReplaceAll, Occurrences;
    if at == 0 {
      assert s[..0] + ReplaceAll(s, search, replacement) == ReplaceAll(s, search, replacement);
      assert s[0..] == s;
    } else {
      NoneBeforeTail(s, search, at);
      ReplaceHead(s, search, replacement);
      ReplaceSkips(s[1..], search, replacement, at - 1);
      assert s[1..][at - 1..] == s[at..];
      assert s[..at] == [s[0]] + s[1..][..at - 1];
    }
  }

  /** A string in which nothing matches is left alone. */
  lemma ReplaceNone(s: string, search: string, replacement: string)
    requires search != "" && NoneBefore(s, search, |s|)
    ensures ReplaceAll(s, search, replacement) == s && Occurrences(s, search) == 0
  {
    hide NoneBefore;
    ReplaceSkips(s, search, replacement, |s|);
    assert s[|s|..] == "" && s[..|s|] + "" == s;
  }

  lemma MatchIsPrefix(s: string, search: string, k: nat)
    requires k < |s| && search != "" && NulFree(search)
    ensures Matches(s, search, k) <==> search <= s[k..]
  {
    if k + |search| <= |s| {
      assert search[0..] == search && search[..|search|] == search;
      SameRegionIsEquality(s[k..], search, |search|);
    }
  }

  /** What formatting the text before a match, the replacement and the text after it yields. */
  function Reformatted(s: string, search: string, replacement: string, at: nat): (r: string)
    requires at + |search| <= |s|
    ensures |r| - |replacement| <= |s| - |search|
  {
    CStr(s[..at]) + CStr(replacement) + CStr(s[at + |search|..])
  }

  /** `VString::replace` from `from` on: replace the first match, then look again past the replacement. */
  function ReplaceFrom(s: string, search: string, replacement: string, from: nat): string
    requires search != ""
    decreases |s| - from
  {
    var at := FirstMatch(s, search, from);
    if at < 0 then s
    else ReplaceFrom(Reformatted(s, search, replacement, at), search, replacement, at + |replacement|)
  }

  function ReplaceCount(s: string, search: string, replacement: string, from: nat): nat
    requires search != ""
    decreases |s| - from
  {
    var at := FirstMatch(s, search, from);
    if at < 0 then 0
    else 1 + ReplaceCount(Reformatted(s, search, replacement, at), search, replacement, at + |replacement|)
  }

  method Replace(original: string, search: string, replacement: string) returns (s: string, numReplacements: nat)
    ensures search == "" ==> s == original && numReplacements == 0
    ensures search != "" ==>
              && s == ReplaceFrom(original, search, replacement, 0)
              && numReplacements == ReplaceCount(original, search, replacement, 0)
    ensures search != "" && NulFree(original) && NulFree(search) && NulFree(replacement) ==>
              s == ReplaceAll(original, search, replacement) && numReplacements == Occurrences(original, search)
  {
    hide Matches, FirstMatch, ReplaceAll, Occurrences, CStr;
    s, numReplacements := original, 0;
    if |search| == 0 {
      return;
    }
    if NulFree(original) && NulFree(search) && NulFree(replacement) {
      ReplaceFromStart(original, search, replacement);
    }
    ghost var from: nat := 0;
    var currentOffset := IndexOf(s, search, 0);
    while currentOffset != -1 && |s| != 0
      invariant currentOffset == FirstMatch(s, search, from)
      invariant ReplaceFrom(original, search, replacement, 0) == ReplaceFrom(s, search, replacement, from)
      invariant ReplaceCount(original, search, replacement, 0)
             == numReplacements + ReplaceCount(s, search, replacement, from)
      decreases |s| - from
    {
      var beforePart := s[..currentOffset];
      var afterPart := s[currentOffset + |search|..];
      s := CStr(beforePart) + CStr(replacement) + CStr(afterPart);
      currentOffset := currentOffset + |replacement|;
      from := currentOffset;
      numReplacements := numReplacements + 1;
      currentOffset := IndexOf(s, search, currentOffset);
    }
  }

  lemma FirstMatchIsFirst(s: string, search: string, from: nat)
    requires search != "" && NulFree(search) && from <= |s|
    ensures var at, rest := FirstMatch(s, search, from), s[from..];
            && NoneBefore(rest, search, if at < 0 then |rest| else at - from)
            && (at >= 0 ==> search <= s[at..])
  {
    hide Matches;
    var at, rest := FirstMatch(s, search, from), s[from..];
    forall k | 0 <= k < (if at < 0 then |rest| else at - from)
      ensures !(search <= rest[k..])
    {
      FirstMatchSkips(s, search, from, from + k);
      MatchIsPrefix(s, search, from + k);
      assert rest[k..] == s[from + k..];
    }
    if at >= 0 {
      MatchIsPrefix(s, search, at);
    }
  }

  lemma Slices(s: string, from: nat, at: nat, n: nat)
    requires from <= at && at + n <= |s|
    ensures s[from..][at - from..] == s[at..] && s[from..][..at - from] == s[from..at] && s[at..][n..] == s[at + n..]
    ensures s[..at] == s[..from] + s[from..at]
  {
  }

  /** The first match is where leftmost replacement of the rest begins. */
  lemma ReplaceAtMatch(s: string, search: string, replacement: string, from: nat, at: nat)
    requires search != "" && from <= at && at + |search| <= |s|
    requires NoneBefore(s[from..], search, at - from) && search <= s[at..]
    ensures ReplaceAll(s[from..], search, replacement)
         == s[from..at] + (replacement + ReplaceAll(s[at + |search|..], search, replacement))
    ensures Occurrences(s[from..], search) == 1 + Occurrences(s[at + |search|..], search)
  {
    hide *;
    Slices(s, from, at, |search|);
    ReplaceSkips(s[from..], search, replacement, at - from);
    ReplaceHead(s[at..], search, replacement);
    assert ReplaceAll(s[at..], search, replacement)
        == replacement + ReplaceAll(s[at + |search|..], search, replacement);
    assert ReplaceAll(s[from..], search, replacement) == s[from..at] + ReplaceAll(s[at..], search, replacement);
  }

  lemma ReplaceFromStep(s: string, search: string, replacement: string, from: nat)
    requires search != ""
    ensures var at := FirstMatch(s, search, from);
            if at < 0 then
              ReplaceFrom(s, search, replacement, from) == s && ReplaceCount(s, search, replacement, from) == 0
            else
              var r, next := Reformatted(s, search, replacement, at), at + |replacement|;
              && ReplaceFrom(s, search, replacement, from) == ReplaceFrom(r, search, replacement, next)
              && ReplaceCount(s, search, replacement, from) == 1 + ReplaceCount(r, search, replacement, next)
  {
  }

  /** On NUL-free text the loop computes leftmost, non-overlapping replacement of what lies past `from`. */
  lemma {:induction false} ReplaceFromIsReplaceAll(s: string, search: string, replacement: string, from: nat)
    requires search != "" && NulFree(s) && NulFree(search) && NulFree(replacement) && from <= |s|
    ensures ReplaceFrom(s, search, replacement, from) == s[..from] + ReplaceAll(s[from..], search, replacement)
    ensures ReplaceCount(s, search, replacement, from) == Occurrences(s[from..], search)
    decreases |s| - from
  {
    hide *;
    ReplaceFromStep(s, search, replacement, from);
    FirstMatchIsFirst(s, search, from);
    var at := FirstMatch(s, search, from);
    if at < 0 {
      ReplaceNone(s[from..], search, replacement);
      assert s == s[..from] + s[from..];
    } else {
      var r, next := Reformatted(s, search, replacement, at), at + |replacement|;
      ReformattedNulFree(s, search, replacement, at);
      ReplaceFromIsReplaceAll(r, search, replacement, next);
      ReplaceAtMatch(s, search, replacement, from, at);
      Slices(s, from, at, |search|);
      Regroup(s[..from], s[from..at], replacement, ReplaceAll(s[at + |search|..], search, replacement));
    }
  }

  lemma ReformattedNulFree(s: string, search: string, replacement: string, at: nat)
    requires at + |search| <= |s| && NulFree(s) && NulFree(replacement)
    ensures var r, next := Reformatted(s, search, replacement, at), at + |replacement|;
            NulFree(r) && next <= |r| && r[..next] == s[..at] + replacement && r[next..] == s[at + |search|..]
  {
  }

  lemma ReplaceFromStart(s: string, search: string, replacement: string)
    requires search != "" && NulFree(s) && NulFree(search) && NulFree(replacement)
    ensures ReplaceFrom(s, search, replacement, 0) == ReplaceAll(s, search, replacement)
    ensures ReplaceCount(s, search, replacement, 0) == Occurrences(s, search)
  {
    ReplaceFromIsReplaceAll(s, search, replacement, 0);
    assert s[0..] == s && s[..0] + ReplaceAll(s, search, replacement) == ReplaceAll(s, search, replacement);
  }

  lemma Regroup(a: string, b: string, c: string, d: string)
    ensures a + (b + (c + d)) == ((a + b) + c) + d
  {
  }
}
