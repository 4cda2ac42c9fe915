/**
  The bidirectional iterator over the code points of a string.  It holds a
  byte offset; on the UTF-8 bytes of a sequence of code points it behaves as
  an index into that sequence.
 */
module StringIterator {
  import opened Utf8

  class Iterator {
    const source: seq<byte>
    const isForward: bool
    const sourceLength: nat
    var offset: nat

    ghost const points: seq<CodePoint>
    ghost var index: nat

    /** The offset is where the code point with the ghost index starts. */
    ghost predicate Valid()
      reads this
    {
      && source == EncodeAll(points) && sourceLength == |source|
      && index <= |points| && offset == Offset(points, index)
    }

    /** Forward iteration starts at the front, reverse iteration at the back; `goToEnd` swaps them. */
    constructor (source: seq<byte>, isForward: bool, goToEnd: bool, ghost points: seq<CodePoint>)
      requires source == EncodeAll(points)
      ensures Valid() && this.source == source && this.isForward == isForward && this.points == points
      ensures index == if goToEnd == isForward then |points| else 0
    {
      this.source, this.isForward, this.sourceLength := source, isForward, |source|;
      this.points := points;
      this.offset := if goToEnd == isForward then |source| else 0;
      this.index := if goToEnd == isForward then |points| else 0;
      new;
      OffsetEnds(points);
    }

    /** The code point at the position, or before it when iterating backwards. */
    method Get() returns (c: int)
      requires Valid()
      requires if isForward then index < |points| else index > 0
      ensures c == if isForward then points[index] else points[index - 1]
    {
      hide Offset, EncodeAll, CodePointAt, IsContinuation;
      if isForward {
        AtOffset(points, index);
        c := CodePointAt(source, offset);
      } else {
        AtOffset(points, index - 1);
        OffsetEnds(points);
        OffsetsGrow(points, 0, index);
        var previous := PreviousOffset(source, offset);
        PreviousStart(points, index, previous);
        c := CodePointAt(source, previous);
      }
    }

    /** Moves up by n code points; false where the source throws, having reached the end. */
    method MoveForward(n: int) returns (ok: bool)
      requires Valid()
      modifies this
      ensures Valid()
      ensures ok <==> old(index) + n <= |points|
      ensures index == if n <= 0 then old(index) else if ok then old(index) + n else |points|
    {
      hide Offset, EncodeAll, LengthAt;
      var i := 0;
      OffsetEnds(points);
      while i < n
        invariant Valid() && 0 <= i && (if n >= 0 then i <= n else i == 0) && index == old(index) + i
      {
        if index < |points| {
          OffsetsGrow(points, index, |points|);
          AtOffset(points, index);
        }
        if offset == sourceLength {
          return false;
        }
        offset := offset + LengthAt(source, offset);
        index := index + 1;
        i := i + 1;
      }
      return true;
    }

    /** Moves down by n code points; false where the source throws, having reached the start. */
    method MoveBackward(n: int) returns (ok: bool)
      requires Valid()
      modifies this
      ensures Valid()
      ensures ok <==> old(index) - n >= 0
      ensures index == if n <= 0 then old(index) else if ok then old(index) - n else 0
    {
      hide Offset, EncodeAll, IsContinuation;
      var i := 0;
      OffsetEnds(points);
      while i < n
        invariant Valid() && 0 <= i && (if n >= 0 then i <= n else i == 0) && index == old(index) - i
      {
        if index > 0 {
          OffsetsGrow(points, 0, index);
          AtOffset(points, index - 1);
        }
        if offset == 0 {
          return false;
        }
        offset := offset - 1;
        while IsContinuation(source[offset])
          invariant Offset(points, index - 1) <= offset < Offset(points, index)
          decreases offset
          modifies this`offset
        {
          offset := offset - 1;
        }
        index := index - 1;
        i := i + 1;
      }
      return true;
    }

    /** `+=`: up when forward, down when reverse. */
    method Increment(n: int) returns (ok: bool)
      requires Valid()
      modifies this
      ensures Valid()
      ensures ok <==> if isForward then old(index) + n <= |points| else old(index) - n >= 0
      ensures ok && n >= 0 ==> index == if isForward then old(index) + n else old(index) - n
    {
      if isForward {
        ok := MoveForward(n);
      } else {
        ok := MoveBackward(n);
      }
    }

    /** `-=` */
    method Decrement(n: int) returns (ok: bool)
      requires Valid()
      modifies this
      ensures Valid()
      ensures ok <==> if isForward then old(index) - n >= 0 else old(index) + n <= |points|
      ensures ok && n >= 0 ==> index == if isForward then old(index) - n else old(index) + n
    {
      if isForward {
        ok := MoveBackward(n);
      } else {
        ok := MoveForward(n);
      }
    }

    /** Moving by n and back again returns to the same offset, wherever the first move does not throw. */
    method ThereAndBack(n: nat) returns (ok: bool)
      requires Valid()
      modifies this
      ensures Valid()
      ensures ok <==> if isForward then old(index) + n <= |points| else old(index) >= n
      ensures ok ==> offset == old(offset)
    {
      ok := Increment(n);
      if ok {
        var back := Decrement(n);
      }
    }
  }

  function Reversed(s: seq<int>): seq<int> { if s == [] then [] else Reversed(s[1..]) + [s[0]] }

  lemma {:induction false} ReversedPrefix(s: seq<int>, k: nat)
    requires k < |s|
    ensures Reversed(s[k..]) == Reversed(s[k + 1..]) + [s[k]]
  {
    assert s[k..][1..] == s[k + 1..];
  }

  /** A loop from `begin` to `end`: the code points in order; from `rbegin` to `rend`: in reverse order. */
  method Collect(source: seq<byte>, isForward: bool, ghost points: seq<CodePoint>) returns (found: seq<int>)
    requires source == EncodeAll(points)
    ensures found == if isForward then points else Reversed(points)
  {
    hide Reversed, EncodeAll;
    found := [];
    var i := new Iterator(source, isForward, false, points);
    var end := new Iterator(source, isForward, true, points);
    ghost var done := 0;
    NothingReversed(points);
    while i.offset != end.offset
      invariant i.Valid() && end.Valid() && i.points == points && end.points == points && i.isForward == isForward
      invariant end.index == (if isForward then |points| else 0) && i != end && fresh(i) && fresh(end)
      invariant isForward ==> found == points[..i.index]
      invariant !isForward ==> found == Reversed(points[i.index..])
      decreases if isForward then |points| - i.index else i.index
    {
      IndexMoves(i, end);
      var c := i.Get();
      found := found + [c];
      if !isForward {
        ReversedPrefix(points, i.index - 1);
      }
      var ok := i.Increment(1);
    }
    IndexMoves(i, end);
    assert points[..|points|] == points && points[0..] == points;
  }

  lemma NothingReversed(points: seq<CodePoint>)
    ensures Reversed(points[|points|..]) == []
  {
  }

  /** Equal offsets mean equal indices. */
  lemma IndexMoves(a: Iterator, b: Iterator)
    requires a.Valid() && b.Valid() && a.points == b.points
    ensures a.offset == b.offset <==> a.index == b.index
  {
    if a.index < b.index {
      OffsetsGrow(a.points, a.index, b.index);
    } else if b.index < a.index {
      OffsetsGrow(a.points, b.index, a.index);
    }
  }
}
