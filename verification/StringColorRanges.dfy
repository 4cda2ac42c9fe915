/**
  The string range mapper.  In prefix mode every key also gets an element that
  ends its range: the key followed by `~`, with a marker for "no colours".
  Strings are compared as `strcmp` compares strings without NULs.
 */
module StringColorRanges {
  import opened Wrappers
  import opened CStrings
  import opened ColorRanges

  // ----- The order of strings ---------------------------------------------

  function Less(a: string, b: string): bool
  {
    b != "" && (a == "" || (if a[0] == b[0] then Less(a[1..], b[1..]) else a[0] < b[0]))
  }

  lemma {:induction false} LessIsStrict(a: string)
    ensures !Less(a, a)
  {
    if a != "" {
      LessIsStrict(a[1..]);
    }
  }

  lemma {:induction false} LessIsTransitive(a: string, b: string, c: string)
    requires Less(a, b) && Less(b, c)
    ensures Less(a, c)
  {
    if a != "" && a[0] == b[0] == c[0] {
      LessIsTransitive(a[1..], b[1..], c[1..]);
    }
  }

  lemma {:induction false} LessIsTotal(a: string, b: string)
    ensures Less(a, b) || Less(b, a) || a == b
  {
    if a != "" && b != "" && a[0] == b[0] {
      LessIsTotal(a[1..], b[1..]);
      assert a == [a[0]] + a[1..] && b == [b[0]] + b[1..];
    }
  }

  lemma LessIsTotalOrder()
    ensures TotalOrder(Less)
  {
    forall a, b, c | Less(a, b) && Less(b, c) ensures Less(a, c) { LessIsTransitive(a, b, c); }
    forall a ensures !Less(a, a) { LessIsStrict(a); }
    forall a, b ensures Less(a, b) || Less(b, a) || a == b { LessIsTotal(a, b); }
  }

  // ----- The mapper -------------------------------------------------------

  const EMPTY_MAP_COLOR_VALUE := ColorPair(Color(1, 1, 1, 255), Color(2, 2, 2, 255))

  /** `toLowerCase`, for ASCII letters. */
  function LowerCase(s: string): string { seq(|s|, i requires 0 <= i < |s| => Lower(s[i])) }

  function CaseAdjusted(s: string, caseSensitive: bool): string { if caseSensitive then s else LowerCase(s) }

  /** The lower-case form of a text: its letters from A to Z moved by 32, everything else in place. */
  predicate LowerForm(lower: string, s: string)
  {
    |lower| == |s| && forall i :: 0 <= i < |s| ==>
                        if 'A' <= s[i] <= 'Z' then lower[i] as int == s[i] as int + 32 else lower[i] == s[i]
  }

  /** Two texts that differ in the case of ASCII letters only. */
  predicate SameButCase(s: string, t: string)
  {
    |s| == |t| && forall i :: 0 <= i < |s| ==>
                    || s[i] == t[i]
                    || ('A' <= s[i] <= 'Z' && t[i] as int == s[i] as int + 32)
                    || ('a' <= s[i] <= 'z' && t[i] as int == s[i] as int - 32)
  }

  /** With case a text stands for itself, without it for its lower-case form, which it shares with its other cases. */
  lemma CaseAdjustedExactly(s: string, caseSensitive: bool)
    ensures caseSensitive ==> CaseAdjusted(s, caseSensitive) == s
    ensures !caseSensitive ==> LowerForm(CaseAdjusted(s, caseSensitive), s)
    ensures !caseSensitive ==> forall t :: SameButCase(s, t) <==> CaseAdjusted(t, false) == CaseAdjusted(s, false)
  {
    if !caseSensitive {
      forall t
        ensures SameButCase(s, t) <==> LowerCase(t) == LowerCase(s)
      {
        if LowerCase(t) == LowerCase(s) {
          assert forall i :: 0 <= i < |s| ==> Lower(t[i]) == LowerCase(t)[i] == LowerCase(s)[i] == Lower(s[i]);
        }
      }
    }
  }

  /** The elements that adding a key makes. */
  function Elements(key: Range<string>, prefixMode: bool): seq<Range<string>>
  {
    if prefixMode then [key, Range(key.min + "~", EMPTY_MAP_COLOR_VALUE)] else [key]
  }

  function AllElements(keys: seq<Range<string>>, prefixMode: bool): seq<Range<string>>
  {
    if keys == [] then [] else AllElements(keys[..|keys| - 1], prefixMode) + Elements(keys[|keys| - 1], prefixMode)
  }

  /** Adding a key adds its element and, in prefix mode, the one that ends its range. */
  lemma AllElementsGrow(keys: seq<Range<string>>, e: Range<string>, prefixMode: bool)
    ensures var before, after := multiset(AllElements(keys, prefixMode)), multiset(AllElements(keys + [e], prefixMode));
            after == if prefixMode then before + multiset{e} + multiset{Range(e.min + "~", EMPTY_MAP_COLOR_VALUE)}
                     else before + multiset{e}
    ensures AllInserted(AllElements(keys + [e], prefixMode), Less)
         == var one := Inserted(AllInserted(AllElements(keys, prefixMode), Less), Less, e);
            if prefixMode then Inserted(one, Less, Range(e.min + "~", EMPTY_MAP_COLOR_VALUE)) else one
  {
    assert (keys + [e])[..|keys|] == keys;
    var before := AllElements(keys, prefixMode);
    OneInserted(before, e);
    if prefixMode {
      OneInserted(before + [e], Range(e.min + "~", EMPTY_MAP_COLOR_VALUE));
      assert before + [e] + [Range(e.min + "~", EMPTY_MAP_COLOR_VALUE)] == AllElements(keys + [e], prefixMode);
    }
  }

  lemma OneInserted(added: seq<Range<string>>, e: Range<string>)
    ensures AllInserted(added + [e], Less) == Inserted(AllInserted(added, Less), Less, e)
  {
    hide Inserted;
    assert (added + [e])[..|added|] == added;
  }

  class StringRangeColorMapper {
    var colorRanges: seq<Range<string>>
    var caseSensitive: bool
    const usesPrefixMode: bool
    const defaultColors: ColorPair
    ghost var keys: seq<Range<string>>

    /** The vector is sorted and holds what the added keys call for. */
    ghost predicate Valid()
      reads this
    {
      && Sorted(colorRanges, Less) && multiset(colorRanges) == multiset(AllElements(keys, usesPrefixMode))
      && colorRanges == AllInserted(AllElements(keys, usesPrefixMode), Less)
    }

    constructor (usesPrefixMode: bool, caseSensitive: bool, defaultColors: ColorPair)
      ensures Valid() && keys == [] && this.usesPrefixMode == usesPrefixMode
      ensures this.caseSensitive == caseSensitive && this.defaultColors == defaultColors
    {
      this.usesPrefixMode, this.caseSensitive, this.defaultColors := usesPrefixMode, caseSensitive, defaultColors;
      colorRanges, keys := [], [];
    }

    method AddColors(rangeMin: string, rangeColors: ColorPair)
      requires Valid()
      modifies this
      ensures Valid() && keys == old(keys) + [Range(CaseAdjusted(rangeMin, caseSensitive), rangeColors)]
      ensures caseSensitive == old(caseSensitive)
      ensures caseSensitive ==> keys == old(keys) + [Range(rangeMin, rangeColors)]
      ensures !caseSensitive ==> LowerForm(keys[|keys| - 1].min, rangeMin)
    {
      hide TotalOrder, Sorted, Less, CaseAdjusted, AllElements, AllInserted, Inserted;
      LessIsTotalOrder();
      var element := Range(CaseAdjusted(rangeMin, caseSensitive), rangeColors);
      colorRanges := InsertSorted(colorRanges, Less, element);
      if usesPrefixMode {
        colorRanges := InsertSorted(colorRanges, Less, Range(element.min + "~", EMPTY_MAP_COLOR_VALUE));
      }
      AllElementsGrow(keys, element, usesPrefixMode);
      CaseAdjustedExactly(rangeMin, caseSensitive);
      keys := keys + [element];
    }

    /** The colours of the greatest minimum not above the value, unless they are the marker that ends a range. */
    method GetColors(value: string) returns (colors: ColorPair)
      requires Valid()
      ensures colors == defaultColors || exists e :: e in AllElements(keys, usesPrefixMode) && e.colors == colors
      ensures colors == Checked(Answer(AllElements(keys, usesPrefixMode), Less, CaseAdjusted(value, caseSensitive)))
      ensures DistinctMins(AllElements(keys, usesPrefixMode)) ==>
                colors == Checked(Scan(AllElements(keys, usesPrefixMode), Less, CaseAdjusted(value, caseSensitive)))
    {
      hide TotalOrder, Sorted, DistinctMins, Scan, Less, AllElements, AllInserted, Hit, Answer;
      LessIsTotalOrder();
      var v := CaseAdjusted(value, caseSensitive);
      var found := Find(colorRanges, Less, v);
      ghost var all := AllElements(keys, usesPrefixMode);
      SameElements(colorRanges, all);
      HitIsAnswer(all, Less, v);
      if DistinctMins(all) {
        DistinctKept(all, colorRanges);
        ScanIgnoresOrder(all, colorRanges, Less, v);
      }
      colors := if found.Some? then found.value.colors else defaultColors;
      if usesPrefixMode && colors == EMPTY_MAP_COLOR_VALUE {
        colors := defaultColors;
      }
    }

    /** `_getColorsWithPrefixModeCheck` on what was found, if anything. */
    function Checked(found: Option<Range<string>>): ColorPair
    {
      if found.None? || (usesPrefixMode && found.value.colors == EMPTY_MAP_COLOR_VALUE) then defaultColors
      else found.value.colors
    }

    /** In prefix mode: the colours of the one key that is a prefix of the value, or the default colours. */
    method GetPrefixColors(value: string) returns (colors: ColorPair)
      requires Valid() && usesPrefixMode && PrefixKeys(keys) && BelowTilde(CaseAdjusted(value, caseSensitive))
      ensures forall k :: 0 <= k < |keys| && keys[k].min <= CaseAdjusted(value, caseSensitive) ==>
                colors == keys[k].colors
      ensures (forall k :: 0 <= k < |keys| ==> !(keys[k].min <= CaseAdjusted(value, caseSensitive))) ==>
                colors == defaultColors
    {
      hide TotalOrder, DistinctMins, Scan, Less, AllElements, PrefixKeys, BelowTilde, CaseAdjusted;
      var v := CaseAdjusted(value, caseSensitive);
      AllDistinct(keys);
      colors := GetColors(value);
      ghost var found := Scan(AllElements(keys, true), Less, v);
      forall k | 0 <= k < |keys| && keys[k].min <= v
        ensures colors == keys[k].colors
      {
        PrefixWins(keys, v, k);
        NoMarkers(keys, k);
      }
      if forall k :: 0 <= k < |keys| ==> !(keys[k].min <= v) {
        NoPrefix(keys, v);
      }
    }
  }

  // ----- Prefix mode ------------------------------------------------------

  /** Characters a range end compares above; no NUL, where `strcmp` would stop. */
  predicate BelowTilde(s: string) { forall i :: 0 <= i < |s| ==> '\0' < s[i] < '~' }

  /** Keys of which none is a prefix of another, below the tilde, with colours that are not the marker. */
  ghost predicate PrefixKeys(keys: seq<Range<string>>)
  {
    && (forall i :: 0 <= i < |keys| ==> BelowTilde(keys[i].min) && keys[i].colors != EMPTY_MAP_COLOR_VALUE)
    && (forall i, j :: 0 <= i < |keys| && 0 <= j < |keys| && i != j ==> !(keys[i].min <= keys[j].min))
  }

  lemma NoMarkers(keys: seq<Range<string>>, k: nat)
    requires PrefixKeys(keys) && k < |keys|
    ensures keys[k].colors != EMPTY_MAP_COLOR_VALUE
  {
  }

  lemma {:induction false} AllElementsAre(keys: seq<Range<string>>, e: Range<string>)
    ensures e in AllElements(keys, true) <==>
            exists k :: 0 <= k < |keys| && (e == keys[k] || e == Range(keys[k].min + "~", EMPTY_MAP_COLOR_VALUE))
  {
    if keys != [] {
      AllElementsAre(keys[..|keys| - 1], e);
    }
  }

  /** A string between a key and the end of its range starts with the key. */
  lemma {:induction false} BetweenIsPrefix(k: string, s: string)
    requires s == k || Less(k, s)
    requires Less(s, k + "~")
    ensures k <= s
  {
    if k != "" && s != k {
      assert (k + "~")[1..] == k[1..] + "~" && (k + "~")[0] == k[0];
      if s[0] == k[0] {
        BetweenIsPrefix(k[1..], s[1..]);
        assert s == [s[0]] + s[1..] && k == [k[0]] + k[1..];
      }
    }
  }

  /** A string that starts with a key lies in the key's range. */
  lemma {:induction false} PrefixIsBetween(k: string, s: string)
    requires k <= s && BelowTilde(s)
    ensures (s == k || Less(k, s)) && Less(s, k + "~")
  {
    if k == "" {
      assert s != "" ==> s[0] < '~';
    } else {
      assert (k + "~")[1..] == k[1..] + "~" && (k + "~")[0] == k[0];
      assert k[1..] <= s[1..];
      PrefixIsBetween(k[1..], s[1..]);
      assert s == [s[0]] + s[1..] && k == [k[0]] + k[1..];
    }
  }

  /** A key not above a value, and not a prefix of it, has the end of its range below it too. */
  lemma PastTheEnd(k: string, v: string)
    requires BelowTilde(v) && !(k <= v) && Less(k, v)
    ensures Less(k + "~", v)
  {
    LessIsTotal(k + "~", v);
    if Less(v, k + "~") {
      BetweenIsPrefix(k, v);
    }
    NotTilde(v, k);
  }

  lemma KeyBeforeEnd(k: string)
    ensures Less(k, k + "~")
  {
    if k != "" {
      assert (k + "~")[1..] == k[1..] + "~" && (k + "~")[0] == k[0];
      KeyBeforeEnd(k[1..]);
    }
  }

  /** The key that is a prefix of the value is the greatest minimum not above it. */
  lemma PrefixIsGreatest(keys: seq<Range<string>>, v: string, k: nat)
    requires PrefixKeys(keys) && BelowTilde(v) && k < |keys| && keys[k].min <= v
    ensures Greatest(AllElements(keys, true), Less, v, keys[k])
  {
    hide Less;
    var key := keys[k].min;
    PrefixIsBetween(key, v);
    AllElementsAre(keys, keys[k]);
    assert !Less(v, key) by {
      LessIsStrict(v);
      if v != key && Less(v, key) {
        LessIsTransitive(v, key, v);
      }
    }
    forall f | f in AllElements(keys, true) && !Less(v, f.min)
      ensures !Less(key, f.min)
    {
      AllElementsAre(keys, f);
      var j :| 0 <= j < |keys| && (f == keys[j] || f == Range(keys[j].min + "~", EMPTY_MAP_COLOR_VALUE));
      if Less(key, f.min) {
        LessIsTotal(v, f.min);
        if v != f.min {
          LessIsTransitive(f.min, v, key + "~");
        }
        BetweenIsPrefix(key, f.min);
        if f == keys[j] {
          LessIsStrict(key);
        } else if j == k {
          LessIsStrict(key + "~");
        } else {
          OnlyTildeAdded(key, keys[j].min);
        }
      }
    }
  }

  lemma NotTilde(s: string, k: string)
    requires BelowTilde(s)
    ensures s != k + "~"
  {
    assert (k + "~")[|k|] == '~';
  }

  lemma OnlyTildeAdded(k: string, other: string)
    requires BelowTilde(k) && k <= other + "~"
    ensures k <= other
  {
    NotTilde(k, other);
  }

  lemma MinsApart(keys: seq<Range<string>>, k: nat, j: nat)
    requires PrefixKeys(keys) && k < |keys| && j < |keys|
    ensures keys[k].min != keys[j].min + "~"
    ensures k != j ==> keys[k].min != keys[j].min && keys[k].min + "~" != keys[j].min + "~"
  {
    NotTilde(keys[k].min, keys[j].min);
    if keys[k].min + "~" == keys[j].min + "~" {
      assert keys[k].min == (keys[k].min + "~")[..|keys[k].min|] && |keys[k].min| == |keys[j].min|;
    }
  }

  lemma FewerKeys(keys: seq<Range<string>>)
    requires PrefixKeys(keys) && keys != []
    ensures PrefixKeys(keys[..|keys| - 1])
  {
    var fewer := keys[..|keys| - 1];
    assert forall i :: 0 <= i < |fewer| ==> fewer[i] == keys[i];
  }

  /** All minimums, of keys and of range ends, are distinct. */
  lemma {:induction false} AllDistinct(keys: seq<Range<string>>)
    requires PrefixKeys(keys)
    ensures DistinctMins(AllElements(keys, true))
  {
    hide PrefixKeys;
    if keys != [] {
      var fewer, last := keys[..|keys| - 1], |keys| - 1;
      FewerKeys(keys);
      AllDistinct(fewer);
      var before := AllElements(fewer, true);
      forall i | 0 <= i < |before|
        ensures before[i].min != keys[last].min && before[i].min != keys[last].min + "~"
      {
        AllElementsAre(fewer, before[i]);
        var j :| 0 <= j < |fewer|
              && (before[i] == fewer[j] || before[i] == Range(fewer[j].min + "~", EMPTY_MAP_COLOR_VALUE));
        MinsApart(keys, j, last);
        MinsApart(keys, last, j);
      }
      MinsApart(keys, last, last);
    }
  }

  /** A scan finds the key that is a prefix of the value. */
  lemma PrefixWins(keys: seq<Range<string>>, v: string, k: nat)
    requires PrefixKeys(keys) && BelowTilde(v) && k < |keys| && keys[k].min <= v
    ensures Scan(AllElements(keys, true), Less, v) == Some(keys[k])
  {
    hide PrefixKeys, BelowTilde, Less, TotalOrder, DistinctMins, Scan, AllElements;
    var all := AllElements(keys, true);
    LessIsTotalOrder();
    ScanIsGreatest(all, Less, v);
    PrefixIsGreatest(keys, v, k);
    AllDistinct(keys);
    if Scan(all, Less, v).Some? {
      GreatestIsUnique(all, Less, v, Scan(all, Less, v).value, keys[k]);
    }
  }

  /** Where no key is a prefix of the value, a scan finds the end of a range or nothing. */
  lemma NoPrefix(keys: seq<Range<string>>, v: string)
    requires PrefixKeys(keys) && BelowTilde(v) && forall k :: 0 <= k < |keys| ==> !(keys[k].min <= v)
    ensures var found := Scan(AllElements(keys, true), Less, v);
            found.Some? ==> found.value.colors == EMPTY_MAP_COLOR_VALUE
  {
    hide Less, TotalOrder, DistinctMins, Scan, AllElements;
    var all := AllElements(keys, true);
    LessIsTotalOrder();
    ScanIsGreatest(all, Less, v);
    var found := Scan(all, Less, v);
    if found.Some? {
      var e := found.value;
      AllElementsAre(keys, e);
      var k :| 0 <= k < |keys| && (e == keys[k] || e == Range(keys[k].min + "~", EMPTY_MAP_COLOR_VALUE));
      if e == keys[k] {
        LessIsTotal(e.min, v);
        PastTheEnd(e.min, v);
        KeyBeforeEnd(e.min);
        AllElementsAre(keys, Range(e.min + "~", EMPTY_MAP_COLOR_VALUE));
        if Less(v, e.min + "~") {
          LessIsTransitive(v, e.min + "~", v);
          LessIsStrict(v);
        }
      }
    }
  }

  // ----- Case -------------------------------------------------------------

  /** A mapper without case gives two values that differ in case only the same colours. */
  method LookUpBoth(mapper: StringRangeColorMapper, value: string, other: string) returns (a: ColorPair, b: ColorPair)
    requires mapper.Valid()
    ensures !mapper.caseSensitive && SameButCase(value, other) ==> a == b
    ensures mapper.caseSensitive ==>
              a == mapper.Checked(Answer(AllElements(mapper.keys, mapper.usesPrefixMode), Less, value))
  {
    hide Answer, Less, AllElements, CaseAdjusted, SameButCase;
    CaseAdjustedExactly(value, mapper.caseSensitive);
    a := mapper.GetColors(value);
    b := mapper.GetColors(other);
  }

  /** In prefix mode: colours added for a key in one case are found for a value that starts with it in another. */
  method AddAndLookUp(key: string, value: string, colors: ColorPair, defaultColors: ColorPair)
    returns (found: ColorPair)
    requires forall i :: 0 <= i < |key| ==> 1 <= key[i] as int <= 125
    requires forall i :: 0 <= i < |value| ==> 1 <= value[i] as int <= 125
    requires colors != ColorPair(Color(1, 1, 1, 255), Color(2, 2, 2, 255))
    ensures (|key| <= |value| && SameButCase(key, value[..|key|])) ==> found == colors
    ensures !(|key| <= |value| && SameButCase(key, value[..|key|])) ==> found == defaultColors
  {
    hide Answer, Less, AllElements;
    var mapper := new StringRangeColorMapper(true, false, defaultColors);
    mapper.AddColors(key, colors);
    FoldedBelowTilde(key);
    FoldedBelowTilde(value);
    FoldedPrefix(key, value);
    assert PrefixKeys(mapper.keys);
    found := mapper.GetPrefixColors(value);
    assert mapper.keys[0].min == CaseAdjusted(key, false);
  }

  lemma FoldedBelowTilde(s: string)
    requires BelowTilde(s)
    ensures BelowTilde(CaseAdjusted(s, false))
  {
  }

  lemma FoldedPrefix(key: string, value: string)
    ensures CaseAdjusted(key, false) <= CaseAdjusted(value, false)
       <==> |key| <= |value| && SameButCase(key, value[..|key|])
  {
    hide SameButCase;
    if |key| <= |value| {
      var front := value[..|key|];
      CaseAdjustedExactly(key, false);
      assert CaseAdjusted(value, false)[..|key|] == CaseAdjusted(front, false);
    }
  }

  /** Colours that are the marker mean the default colours in prefix mode, and themselves without it. */
  method AddMarker(key: string, prefixMode: bool, defaultColors: ColorPair) returns (found: ColorPair)
    ensures found == if prefixMode then defaultColors else ColorPair(Color(1, 1, 1, 255), Color(2, 2, 2, 255))
  {
    var mapper := new StringRangeColorMapper(prefixMode, true, defaultColors);
    var marker := ColorPair(Color(1, 1, 1, 255), Color(2, 2, 2, 255));
    mapper.AddColors(key, marker);
    KeyBeforeEnd(key);
    LessIsStrict(key);
    assert mapper.keys == [Range(key, marker)];
    OneKey(Range(key, marker), prefixMode);
    found := mapper.GetColors(key);
  }

  lemma OneKey(e: Range<string>, prefixMode: bool)
    requires Less(e.min, e.min + "~") && !Less(e.min, e.min)
    ensures Answer(AllElements([e], prefixMode), Less, e.min) == Some(e)
  {
    hide Less;
    var all := AllElements([e], prefixMode);
    assert all == Elements(e, prefixMode) by {
      assert [e][..0] == [] && AllElements([], prefixMode) == [];
      assert [] + Elements(e, prefixMode) == Elements(e, prefixMode);
    }
    if prefixMode {
      assert all == [e, Range(e.min + "~", EMPTY_MAP_COLOR_VALUE)] && all[..1] == [e];
    } else {
      assert all == [e];
    }
  }
}
