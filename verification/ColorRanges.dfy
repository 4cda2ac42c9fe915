/**
  The range colour mappers: vectors of range minimums with colours, kept sorted
  by inserting each element where a binary search says it belongs.  Looking a
  value up agrees with a scan over the elements in the order they were added.
 */
module ColorRanges {
  import opened Wrappers

  datatype Color = Color(red: int, green: int, blue: int, alpha: int)

  datatype ColorPair = ColorPair(bg: Color, fg: Color)

  datatype Range<K> = Range(min: K, colors: ColorPair)

  ghost predicate TotalOrder<K(!new)>(less: (K, K) -> bool)
  {
    && (forall a :: !less(a, a))
    && (forall a, b, c :: less(a, b) && less(b, c) ==> less(a, c))
    && (forall a, b :: less(a, b) || less(b, a) || a == b)
  }

  ghost predicate Sorted<K(!new)>(ranges: seq<Range<K>>, less: (K, K) -> bool)
  {
    forall i, j :: 0 <= i < j < |ranges| ==> !less(ranges[j].min, ranges[i].min)
  }

  ghost predicate DistinctMins<K(!new)>(ranges: seq<Range<K>>)
  {
    forall i, j :: 0 <= i < j < |ranges| ==> ranges[i].min != ranges[j].min
  }

  // ----- Looking up by scanning -------------------------------------------

  /** The element with the greatest minimum that is not above `v`, found by a scan. */
  function Scan<K>(ranges: seq<Range<K>>, less: (K, K) -> bool, v: K): Option<Range<K>>
  {
    if ranges == [] then None
    else
      var rest := Scan(ranges[1..], less, v);
      if less(v, ranges[0].min) then rest
      else if rest.None? || less(rest.value.min, ranges[0].min) then Some(ranges[0]) else rest
  }

  /** `e` is an element with the greatest minimum not above `v`. */
  ghost predicate Greatest<K(!new)>(ranges: seq<Range<K>>, less: (K, K) -> bool, v: K, e: Range<K>)
  {
    && e in ranges && !less(v, e.min)
    && forall f :: f in ranges && !less(v, f.min) ==> !less(e.min, f.min)
  }

  lemma {:induction false} ScanIsGreatest<K(!new)>(ranges: seq<Range<K>>, less: (K, K) -> bool, v: K)
    requires TotalOrder(less)
    ensures match Scan(ranges, less, v)
            case None => forall f :: f in ranges ==> less(v, f.min)
            case Some(e) => Greatest(ranges, less, v, e)
  {
    if ranges != [] {
      ScanIsGreatest(ranges[1..], less, v);
      assert ranges == [ranges[0]] + ranges[1..];
    }
  }

  lemma GreatestIsUnique<K(!new)>(ranges: seq<Range<K>>, less: (K, K) -> bool, v: K, e: Range<K>, f: Range<K>)
    requires TotalOrder(less) && DistinctMins(ranges) && Greatest(ranges, less, v, e) && Greatest(ranges, less, v, f)
    ensures e == f
  {
    assert e.min == f.min;
    var i, j :| 0 <= i < |ranges| && 0 <= j < |ranges| && ranges[i] == e && ranges[j] == f;
  }

  lemma SameElements<T>(a: seq<T>, b: seq<T>)
    requires multiset(a) == multiset(b)
    ensures forall x :: x in a <==> x in b
  {
    forall x
      ensures x in a <==> x in b
    {
      assert x in a <==> x in multiset(a);
    }
  }

  /** Where minimums are distinct, the order of the elements does not matter. */
  lemma ScanIgnoresOrder<K(!new)>(a: seq<Range<K>>, b: seq<Range<K>>, less: (K, K) -> bool, v: K)
    requires TotalOrder(less) && DistinctMins(a) && multiset(a) == multiset(b)
    ensures Scan(a, less, v) == Scan(b, less, v)
  {
    hide TotalOrder, DistinctMins, Scan;
    ScanIsGreatest(a, less, v);
    ScanIsGreatest(b, less, v);
    SameElements(a, b);
    if Scan(a, less, v).Some? && Scan(b, less, v).Some? {
      GreatestIsUnique(a, less, v, Scan(a, less, v).value, Scan(b, less, v).value);
    }
  }

  lemma {:induction false} DistinctKept<K(!new)>(a: seq<Range<K>>, b: seq<Range<K>>)
    requires multiset(a) == multiset(b) && DistinctMins(a)
    ensures DistinctMins(b)
  {
    forall i, j | 0 <= i < j < |b|
      ensures b[i].min != b[j].min
    {
      SameElements(a, b);
      if b[i].min == b[j].min {
        assert b[i] in a && b[j] in a;
        var k :| 0 <= k < |a| && a[k] == b[i];
        var l :| 0 <= l < |a| && a[l] == b[j];
        assert k == l && b[i] == b[j];
        TwoCopies(b, i, j);
        OneCopy(a, k);
      }
    }
  }

  lemma TwoCopies<T>(s: seq<T>, i: nat, j: nat)
    requires i < j < |s| && s[i] == s[j]
    ensures multiset(s)[s[i]] >= 2
  {
    assert s == s[..i] + [s[i]] + s[i + 1..j] + [s[j]] + s[j + 1..];
  }

  lemma OneCopy<K(!new)>(s: seq<Range<K>>, k: nat)
    requires k < |s| && DistinctMins(s)
    ensures multiset(s)[s[k]] == 1
  {
    assert s == s[..k] + [s[k]] + s[k + 1..];
    assert s[k] !in s[..k] && s[k] !in s[k + 1..];
  }

  // ----- Where a value belongs --------------------------------------------

  /** How many minimums at the front are below `v`. */
  function Position<K>(ranges: seq<Range<K>>, less: (K, K) -> bool, v: K): (p: nat)
    ensures p <= |ranges| && forall i :: 0 <= i < p ==> less(ranges[i].min, v)
    ensures p < |ranges| ==> !less(ranges[p].min, v)
  {
    if ranges == [] || !less(ranges[0].min, v) then 0 else 1 + Position(ranges[1..], less, v)
  }

  lemma {:induction false} PositionIs<K>(ranges: seq<Range<K>>, less: (K, K) -> bool, v: K, p: nat)
    requires p <= |ranges| && forall i :: 0 <= i < p ==> less(ranges[i].min, v)
    requires p < |ranges| ==> !less(ranges[p].min, v)
    ensures Position(ranges, less, v) == p
  {
    if p > 0 {
      PositionIs(ranges[1..], less, v, p - 1);
    }
  }

  /** The element at that position if it is an exact hit, else the one before it, if any. */
  function Hit<K>(ranges: seq<Range<K>>, less: (K, K) -> bool, v: K): Option<Range<K>>
  {
    var p := Position(ranges, less, v);
    if p < |ranges| && !less(v, ranges[p].min) then Some(ranges[p]) else if p == 0 then None else Some(ranges[p - 1])
  }

  function Inserted<K>(ranges: seq<Range<K>>, less: (K, K) -> bool, e: Range<K>): seq<Range<K>>
  {
    var p := Position(ranges, less, e.min);
    ranges[..p] + [e] + ranges[p..]
  }

  /** The vector after all elements have been inserted one after the other. */
  function AllInserted<K>(added: seq<Range<K>>, less: (K, K) -> bool): seq<Range<K>>
  {
    if added == [] then [] else Inserted(AllInserted(added[..|added| - 1], less), less, added[|added| - 1])
  }

  // ----- Binary search and insertion --------------------------------------

  /** `std::lower_bound`: the first position whose minimum is not below `v`. */
  method LowerBound<K(!new)>(ranges: seq<Range<K>>, less: (K, K) -> bool, v: K) returns (position: nat)
    requires TotalOrder(less) && Sorted(ranges, less)
    ensures position <= |ranges|
    ensures forall i :: 0 <= i < position ==> less(ranges[i].min, v)
    ensures forall i :: position <= i < |ranges| ==> !less(ranges[i].min, v)
  {
    var first, count := 0, |ranges|;
    while count > 0
      invariant 0 <= first && 0 <= count && first + count <= |ranges|
      invariant forall i :: 0 <= i < first ==> less(ranges[i].min, v)
      invariant forall i :: first + count <= i < |ranges| ==> !less(ranges[i].min, v)
    {
      var step := count / 2;
      var middle := first + step;
      if less(ranges[middle].min, v) {
        assert forall i :: 0 <= i < middle ==> !less(ranges[middle].min, ranges[i].min);
        first, count := middle + 1, count - step - 1;
      } else {
        assert forall i :: middle < i < |ranges| ==> !less(ranges[i].min, ranges[middle].min);
        count := step;
      }
    }
    position := first;
  }

  /** Inserting an element where the binary search says keeps the vector sorted. */
  method InsertSorted<K(!new)>(ranges: seq<Range<K>>, less: (K, K) -> bool, e: Range<K>) returns (grown: seq<Range<K>>)
    requires TotalOrder(less) && Sorted(ranges, less)
    ensures Sorted(grown, less) && multiset(grown) == multiset(ranges) + multiset{e}
    ensures grown == Inserted(ranges, less, e)
  {
    hide Position, TotalOrder, Sorted;
    var position := LowerBound(ranges, less, e.min);
    grown := ranges[..position] + [e] + ranges[position..];
    PositionIs(ranges, less, e.min, position);
    InsertedShape(ranges, less, e);
    assert ranges == ranges[..position] + ranges[position..];
  }

  /**
    The lookup that the mappers share: an exact hit, or else the element before
    the position found; nothing where every minimum is above the value.
   */
  method Find<K(!new, ==)>(ranges: seq<Range<K>>, less: (K, K) -> bool, v: K) returns (found: Option<Range<K>>)
    requires TotalOrder(less) && Sorted(ranges, less)
    ensures found.None? ==> forall f :: f in ranges ==> less(v, f.min)
    ensures found.Some? ==> Greatest(ranges, less, v, found.value)
    ensures DistinctMins(ranges) ==> found == Scan(ranges, less, v)
    ensures found == Hit(ranges, less, v)
  {
    hide Scan, Position;
    found := None;
    if |ranges| != 0 {
      var position := LowerBound(ranges, less, v);
      PositionIs(ranges, less, v, position);
      if position == |ranges| {
        found := Some(ranges[position - 1]);
      } else if position == 0 && less(v, ranges[position].min) {
        found := None;
      } else {
        if less(v, ranges[position].min) {
          position := position - 1;
        }
        found := Some(ranges[position]);
      }
    }
    ScanIsGreatest(ranges, less, v);
    if DistinctMins(ranges) && found.Some? && Scan(ranges, less, v).Some? {
      GreatestIsUnique(ranges, less, v, found.value, Scan(ranges, less, v).value);
    }
  }

  // ----- Repeated minimums ------------------------------------------------

  /** What a newer element does to the answer: it wins if it is closer to `v` from below, or as close and exact. */
  function Newer<K(==)>(older: Option<Range<K>>, less: (K, K) -> bool, v: K, e: Range<K>): Option<Range<K>>
  {
    if less(v, e.min) then older
    else if older.None? || less(older.value.min, e.min) || e.min == v then Some(e)
    else older
  }

  /** The answer by a scan in the order of addition. */
  function Answer<K(==)>(added: seq<Range<K>>, less: (K, K) -> bool, v: K): Option<Range<K>>
  {
    if added == [] then None else Newer(Answer(added[..|added| - 1], less, v), less, v, added[|added| - 1])
  }

  lemma InsertedShape<K(!new)>(ranges: seq<Range<K>>, less: (K, K) -> bool, e: Range<K>)
    requires TotalOrder(less) && Sorted(ranges, less)
    ensures var p, grown := Position(ranges, less, e.min), Inserted(ranges, less, e);
            && |grown| == |ranges| + 1 && grown[p] == e && Sorted(grown, less)
            && (forall i :: 0 <= i < p ==> grown[i] == ranges[i])
            && (forall i :: p <= i < |ranges| ==> grown[i + 1] == ranges[i])
  {
    hide Position;
  }

  lemma HitAbove<K(!new)>(ranges: seq<Range<K>>, less: (K, K) -> bool, v: K, e: Range<K>)
    requires TotalOrder(less) && Sorted(ranges, less) && less(v, e.min)
    ensures Hit(Inserted(ranges, less, e), less, v) == Hit(ranges, less, v)
  {
    hide Position, Inserted;
    InsertedShape(ranges, less, e);
    var p, q := Position(ranges, less, e.min), Position(ranges, less, v);
    assert q <= p;
    PositionIs(Inserted(ranges, less, e), less, v, q);
  }

  lemma HitExact<K(!new)>(ranges: seq<Range<K>>, less: (K, K) -> bool, v: K, e: Range<K>)
    requires TotalOrder(less) && Sorted(ranges, less) && e.min == v
    ensures Hit(Inserted(ranges, less, e), less, v) == Some(e)
  {
    hide Position, Inserted;
    InsertedShape(ranges, less, e);
    PositionIs(Inserted(ranges, less, e), less, v, Position(ranges, less, v));
  }

  lemma HitBelow<K(!new)>(ranges: seq<Range<K>>, less: (K, K) -> bool, v: K, e: Range<K>)
    requires TotalOrder(less) && Sorted(ranges, less) && less(e.min, v)
    ensures Hit(Inserted(ranges, less, e), less, v) == Newer(Hit(ranges, less, v), less, v, e)
  {
    hide Position, Inserted;
    InsertedShape(ranges, less, e);
    var p, q := Position(ranges, less, e.min), Position(ranges, less, v);
    var grown := Inserted(ranges, less, e);
    assert p <= q;
    forall i | 0 <= i < q + 1 ensures less(grown[i].min, v) {
      if i > p { assert grown[i] == ranges[i - 1]; }
    }
    assert q < |ranges| ==> grown[q + 1] == ranges[q];
    PositionIs(grown, less, v, q + 1);
    if p < q {
      assert grown[q] == ranges[q - 1];
    }
  }

  /** The binary search in the vector answers as the scan does, repeated minimums included. */
  lemma {:induction false} HitIsAnswer<K(!new)>(added: seq<Range<K>>, less: (K, K) -> bool, v: K)
    requires TotalOrder(less)
    ensures Sorted(AllInserted(added, less), less)
    ensures Hit(AllInserted(added, less), less, v) == Answer(added, less, v)
  {
    hide TotalOrder, Sorted, Hit, Inserted, Newer;
    if added == [] {
      EmptyAnswer(less, v);
    } else {
      var older, e := added[..|added| - 1], added[|added| - 1];
      HitIsAnswer(older, less, v);
      var ranges := AllInserted(older, less);
      InsertedShape(ranges, less, e);
      OneOfThree(less, v, e.min);
      if less(v, e.min) {
        HitAbove(ranges, less, v, e);
      } else if e.min == v {
        HitExact(ranges, less, v, e);
      } else {
        HitBelow(ranges, less, v, e);
      }
      NewerCases(Answer(older, less, v), less, v, e);
    }
  }

  lemma EmptyAnswer<K(!new)>(less: (K, K) -> bool, v: K)
    ensures Sorted([], less) && Hit([], less, v) == None
  {
  }

  lemma OneOfThree<K(!new)>(less: (K, K) -> bool, a: K, b: K)
    requires TotalOrder(less)
    ensures less(a, b) || less(b, a) || a == b
  {
  }

  lemma NewerCases<K>(older: Option<Range<K>>, less: (K, K) -> bool, v: K, e: Range<K>)
    ensures less(v, e.min) ==> Newer(older, less, v, e) == older
    ensures !less(v, e.min) && e.min == v ==> Newer(older, less, v, e) == Some(e)
  {
  }

  // ----- Mappers over numbers ---------------------------------------------

  /** The integer and the floating-point range mapper, over the order of their minimums. */
  class RangeColorMapper<K(!new, ==)> {
    const less: (K, K) -> bool
    const defaultColors: ColorPair
    var colorRanges: seq<Range<K>>
    ghost var added: seq<Range<K>>

    ghost predicate Valid()
      reads this
    {
      && TotalOrder(less) && Sorted(colorRanges, less) && multiset(colorRanges) == multiset(added)
      && colorRanges == AllInserted(added, less)
    }

    constructor (less: (K, K) -> bool, defaultColors: ColorPair)
      requires TotalOrder(less)
      ensures Valid() && this.less == less && this.defaultColors == defaultColors && added == []
    {
      this.less, this.defaultColors := less, defaultColors;
      colorRanges, added := [], [];
    }

    method AddColors(rangeMin: K, colors: ColorPair)
      requires Valid()
      modifies this
      ensures Valid() && added == old(added) + [Range(rangeMin, colors)]
    {
      hide TotalOrder, Sorted, Inserted;
      colorRanges := InsertSorted(colorRanges, less, Range(rangeMin, colors));
      assert (added + [Range(rangeMin, colors)])[..|added|] == added;
      added := added + [Range(rangeMin, colors)];
    }

    method GetColors(v: K) returns (colors: ColorPair)
      requires Valid()
      ensures colors == match Answer(added, less, v) case Some(e) => e.colors case None => defaultColors
      ensures DistinctMins(added) ==>
                colors == match Scan(added, less, v) case Some(e) => e.colors case None => defaultColors
    {
      hide TotalOrder, Sorted, DistinctMins, Scan, Hit, Answer, AllInserted;
      var found := Find(colorRanges, less, v);
      HitIsAnswer(added, less, v);
      if DistinctMins(added) {
        DistinctKept(added, colorRanges);
        ScanIgnoresOrder(added, colorRanges, less, v);
      }
      colors := if found.Some? then found.value.colors else defaultColors;
    }
  }

  method NewIntegerRangeColorMapper(defaultColors: ColorPair) returns (mapper: RangeColorMapper<int>)
    ensures mapper.Valid() && mapper.added == [] && fresh(mapper)
    ensures mapper.defaultColors == defaultColors && forall a, b :: mapper.less(a, b) <==> a < b
  {
    mapper := new RangeColorMapper((a: int, b: int) => a < b, defaultColors);
  }

  method NewDoubleRangeColorMapper(defaultColors: ColorPair) returns (mapper: RangeColorMapper<real>)
    ensures mapper.Valid() && mapper.added == [] && fresh(mapper)
    ensures mapper.defaultColors == defaultColors && forall a, b :: mapper.less(a, b) <==> a < b
  {
    mapper := new RangeColorMapper((a: real, b: real) => a < b, defaultColors);
  }
}
