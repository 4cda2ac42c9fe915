/**
  Counting the occurrences of a character.
 */
module Counting {

  function Occurs(s: string, c: char): nat
  {
    if s == "" then 0 else (if s[0] == c then 1 else 0) + Occurs(s[1..], c)
  }

  lemma {:induction false} OccursConcat(a: string, b: string, c: char)
    ensures Occurs(a + b, c) == Occurs(a, c) + Occurs(b, c)
  {
    if a == "" {
      assert a + b == b;
    } else {
      assert (a + b)[1..] == a[1..] + b;
      OccursConcat(a[1..], b, c);
    }
  }

  lemma OccursAppend(s: string, d: char, c: char)
    ensures Occurs(s + [d], c) == Occurs(s, c) + (if d == c then 1 else 0)
  {
    OccursConcat(s, [d], c);
    assert [d][1..] == "";
  }

  lemma OccursSlice(s: string, i: nat, j: nat, c: char)
    requires i <= j <= |s|
    ensures Occurs(s[i..j], c) <= Occurs(s, c)
    ensures Occurs(s[..i], c) + Occurs(s[i..], c) == Occurs(s, c)
  {
    OccursConcat(s[..i], s[i..], c);
    assert s == s[..i] + s[i..];
    OccursConcat(s[i..j], s[j..], c);
    assert s[i..] == s[i..j] + s[j..];
  }

  lemma {:induction false} OccursIff(s: string, c: char)
    ensures Occurs(s, c) == 0 <==> forall i :: 0 <= i < |s| ==> s[i] != c
  {
    if s != "" {
      OccursIff(s[1..], c);
      assert forall i :: 1 <= i < |s| ==> s[i] == s[1..][i - 1];
    }
  }

  function OccursAll(ss: seq<string>, c: char): nat
  {
    if ss == [] then 0 else Occurs(ss[0], c) + OccursAll(ss[1..], c)
  }

  lemma {:induction false} OccursAllAppend(ss: seq<string>, s: string, c: char)
    ensures OccursAll(ss + [s], c) == OccursAll(ss, c) + Occurs(s, c)
  {
    if ss == [] {
      assert [] + [s] == [s] && [s][1..] == [];
    } else {
      assert (ss + [s])[1..] == ss[1..] + [s];
      OccursAllAppend(ss[1..], s, c);
    }
  }

  lemma {:induction false} OccursAllIff(ss: seq<string>, c: char)
    ensures OccursAll(ss, c) == 0 <==> forall i :: 0 <= i < |ss| ==> Occurs(ss[i], c) == 0
  {
    if ss != [] {
      OccursAllIff(ss[1..], c);
      assert forall i :: 1 <= i < |ss| ==> ss[i] == ss[1..][i - 1];
    }
  }
}
