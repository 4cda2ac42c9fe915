/**
  `VString` storage: short strings live in a small buffer inside the object,
  longer ones in a heap buffer that grows in chunks.  Every operation keeps a
  terminator after the last byte and drops or keeps correct the cached number
  of code points.
 */
module VStrings {
  import opened Utf8
  import StringIterator

  const CHUNK := 32

  function Max(a: int, b: int): int { if a < b then b else a }

  function Min(a: int, b: int): int { if a < b then a else b }

  /** `memcpy`: the two ranges must not overlap. */
  method CopyBytes(target: array<byte>, at: nat, source: array<byte>, from: nat, n: nat)
    requires at + n <= target.Length && from + n <= source.Length
    requires target != source || at + n <= from || from + n <= at
    modifies target
    ensures target[..at] == old(target[..at]) && target[at + n..] == old(target[at + n..])
    ensures target[at..at + n] == old(source[from..from + n])
  {
    forall i | 0 <= i < n {
      target[at + i] := source[from + i];
    }
  }

  /** `memmove`: the ranges may overlap. */
  method MoveBytes(target: array<byte>, at: nat, source: array<byte>, from: nat, n: nat)
    requires at + n <= target.Length && from + n <= source.Length
    modifies target
    ensures target[..at] == old(target[..at]) && target[at + n..] == old(target[at + n..])
    ensures target[at..at + n] == old(source[from..from + n])
  {
    forall i | 0 <= i < n {
      target[at + i] := source[from + i];
    }
  }

  class VString {
    var stringLength: int
    var numCodePoints: int
    var usingInternalBuffer: bool
    const internalBuffer: array<byte>
    var heapBuffer: array?<byte>
    var heapBufferLength: int

    function Repr(): set<object>
      reads this
    {
      {this, internalBuffer} + (if heapBuffer == null then {} else {heapBuffer})
    }

    /** The buffer in use. */
    function Buffer(): array<byte>
      requires !usingInternalBuffer ==> heapBuffer != null
      reads this
    {
      if usingInternalBuffer then internalBuffer else heapBuffer
    }

    function BufferLength(): int
      reads this
    {
      if usingInternalBuffer then internalBuffer.Length else heapBufferLength
    }

    /** The buffer in use is the one the flag names; a heap buffer comes in whole chunks. */
    ghost predicate Stored()
      reads this, heapBuffer
    {
      && (internalBuffer.Length == 7 || internalBuffer.Length == 15)
      && (usingInternalBuffer <==> heapBuffer == null)
      && (!usingInternalBuffer ==>
            heapBuffer != internalBuffer && heapBuffer.Length == heapBufferLength && heapBufferLength % CHUNK == 0)
    }

    /** The terminator stands after the last byte, and the cached count says nothing or the truth. */
    ghost predicate Valid()
      reads this, internalBuffer, heapBuffer
    {
      && Stored()
      && 0 <= stringLength < BufferLength()
      && Buffer()[stringLength] == 0
      && (numCodePoints == -1 || numCodePoints == Count(Contents(), 0))
    }

    /** The string: the bytes before the terminator. */
    ghost function Contents(): seq<byte>
      requires (usingInternalBuffer <==> heapBuffer == null) && 0 <= stringLength <= Buffer().Length
      reads this, internalBuffer, heapBuffer
    {
      Buffer()[..stringLength]
    }

    constructor (is64Bit: bool)
      ensures Valid() && fresh(Repr()) && Contents() == [] && usingInternalBuffer
    {
      internalBuffer := new byte[if is64Bit then 15 else 7](_ => 0);
      heapBuffer, heapBufferLength := null, 0;
      stringLength, numCodePoints, usingInternalBuffer := 0, 0, true;
    }

    // ----- Storage --------------------------------------------------------

    /** Makes room for `length` bytes and a terminator; false where the source throws. */
    method Preflight(length: int) returns (ok: bool)
      requires Valid()
      modifies this
      ensures Valid() && Contents() == old(Contents())
      ensures numCodePoints == old(numCodePoints) && stringLength == old(stringLength)
      ensures ok <==> length >= 0
      ensures length < BufferLength() && fresh(Repr() - old(Repr()))
      ensures heapBuffer == old(heapBuffer)
           || (fresh(heapBuffer) && length >= 0 && heapBufferLength == Capacity(length, CHUNK)
               && heapBufferLength % CHUNK == 0 && length + 2 <= heapBufferLength <= length + 33)
    {
      if length < 0 {
        return false;
      }
      if usingInternalBuffer && length < internalBuffer.Length {
        return true;
      }
      if !usingInternalBuffer && length < heapBufferLength {
        return true;
      }
      var newBufferLength := length + 1;
      var remainder := newBufferLength % CHUNK;
      newBufferLength := newBufferLength + (CHUNK - remainder);
      var newBuffer := new byte[newBufferLength](_ => 0);
      if stringLength != 0 {
        CopyBytes(newBuffer, 0, Buffer(), 0, stringLength + 1);
        assert newBuffer[..stringLength] == newBuffer[0..stringLength + 1][..stringLength];
        assert newBuffer[stringLength] == newBuffer[0..stringLength + 1][stringLength];
      }
      usingInternalBuffer := false;
      heapBuffer, heapBufferLength := newBuffer, newBufferLength;
      return true;
    }

    /**
      Ends the string after `length` bytes of the buffer, which the caller has
      filled; false where the source throws.
     */
    method SetLength(length: int) returns (ok: bool)
      requires Stored()
      modifies this, internalBuffer, heapBuffer
      ensures ok <==> 0 <= length < old(BufferLength())
      ensures !ok ==> unchanged(this, internalBuffer) && (heapBuffer != null ==> unchanged(heapBuffer))
      ensures ok ==> Valid() && Contents() == old(Buffer()[..length]) && numCodePoints == -1
      ensures ok ==> stringLength == length && Repr() <= old(Repr())
      ensures ok && length == 0 ==> usingInternalBuffer
      ensures ok && length != 0 ==> heapBuffer == old(heapBuffer)
    {
      if length < 0 || length >= BufferLength() {
        return false;
      }
      if length == 0 && !usingInternalBuffer {
        heapBuffer, heapBufferLength := null, 0;
        usingInternalBuffer := true;
        internalBuffer[0] := 0;
      } else {
        Buffer()[length] := 0;
      }
      stringLength := length;
      numCodePoints := -1;
      return true;
    }

    /** On the heap the length has a clear lowest bit, which is where a little-endian layout puts the flag. */
    lemma FlagClear()
      requires Valid() && !usingInternalBuffer
      ensures FlagBit(heapBufferLength) == 0
    {
    }

    // ----- Assignment and appending ---------------------------------------

    /** Two strings are the same object or share no storage. */
    ghost predicate Apart(s: VString)
      reads this, s
    {
      s == this || Repr() !! s.Repr()
    }

    method Assign(s: VString)
      requires Valid() && s.Valid() && Apart(s)
      modifies this, internalBuffer, heapBuffer
      ensures Valid() && Contents() == old(s.Contents()) && fresh(Repr() - old(Repr()))
    {
      if s != this {
        var theLength := s.stringLength;
        if theLength != 0 {
          var _ := Preflight(theLength);
          CopyBytes(Buffer(), 0, s.Buffer(), 0, theLength + 1);
          assert Buffer()[..theLength] == Buffer()[0..theLength + 1][..theLength];
        }
        var _ := SetLength(theLength);
      }
    }

    /** The bytes `[start, end)` of a buffer that is not this string's own; false where the source throws. */
    method CopyFromBuffer(from: array<byte>, start: int, end: int) returns (ok: bool)
      requires Valid() && from !in Repr() && end <= from.Length && start <= from.Length
      modifies this, internalBuffer, heapBuffer
      ensures Valid() && fresh(Repr() - old(Repr())) && (ok <==> start >= 0)
      ensures Contents() == if !ok then old(Contents()) else old(from[start..Max(start, end)])
    {
      if start < 0 {
        return false;
      }
      var endIndex := if end < start then start else end;
      var _ := Preflight(endIndex - start);
      CopyBytes(Buffer(), 0, from, start, endIndex - start);
      var _ := SetLength(endIndex - start);
      return true;
    }

    /** Copies bytes to the end of the string; the source may be the start of the same buffer. */
    method CopyToEnd(source: array<byte>, n: nat)
      requires Valid() && n <= source.Length && stringLength + n < BufferLength()
      requires source == Buffer() ==> n <= stringLength
      modifies Buffer()
      ensures Stored() && Buffer()[..stringLength + n] == old(Contents()) + old(source[..n])
    {
      var at := stringLength;
      CopyBytes(Buffer(), at, source, 0, n);
      assert Buffer()[..at + n] == Buffer()[..at] + Buffer()[at..at + n];
    }

    /** Appending a string, which may be this one. */
    method Append(s: VString)
      requires Valid() && s.Valid() && Apart(s)
      modifies this, internalBuffer, heapBuffer
      ensures Valid() && Contents() == old(Contents()) + old(s.Contents()) && fresh(Repr() - old(Repr()))
    {
      var theLength := s.stringLength;
      var _ := Preflight(theLength + stringLength);
      CopyToEnd(s.Buffer(), theLength);
      var _ := SetLength(theLength + stringLength);
    }

    method AppendByte(c: byte)
      requires Valid()
      modifies this, internalBuffer, heapBuffer
      ensures Valid() && Contents() == old(Contents()) + [c] && fresh(Repr() - old(Repr()))
    {
      var _ := Preflight(1 + stringLength);
      Buffer()[stringLength] := c;
      var _ := SetLength(1 + stringLength);
    }

    // ----- Insertion ------------------------------------------------------

    /** Moves everything from `offset` on up by `gap` bytes, inside a buffer that has been made large enough. */
    method OpenGap(offset: nat, gap: nat)
      requires Valid() && offset <= stringLength && stringLength + gap < BufferLength()
      modifies Buffer()
      ensures Stored()
      ensures Buffer()[..offset] == old(Contents()[..offset])
      ensures Buffer()[offset + gap..stringLength + gap] == old(Contents()[offset..])
    {
      var moved := stringLength - offset;
      MoveBytes(Buffer(), offset + gap, Buffer(), offset, moved);
      assert Buffer()[..offset] == Buffer()[..offset + gap][..offset];
      assert old(Contents()[..offset]) == old(Buffer()[..offset + gap])[..offset];
    }

    /** Opens a gap and fills it with bytes from another buffer. */
    method FillGap(offset: nat, source: array<byte>, n: nat)
      requires Valid() && offset <= stringLength && stringLength + n < BufferLength()
      requires source != Buffer() && n <= source.Length
      modifies Buffer()
      ensures Stored()
      ensures Buffer()[..stringLength + n] == old(Contents()[..offset]) + old(source[..n]) + old(Contents()[offset..])
    {
      ghost var front, added, back := Contents()[..offset], source[..n], Contents()[offset..];
      OpenGap(offset, n);
      ghost var before := Buffer()[..];
      CopyBytes(Buffer(), offset, source, 0, n);
      JoinParts(before, Buffer()[..], front, added, back);
    }

    /** Inserting a string, which may be this one; the offset is brought into range. */
    method Insert(s: VString, offset: int)
      requires Valid() && s.Valid() && Apart(s)
      modifies this, internalBuffer, heapBuffer
      ensures Valid() && fresh(Repr() - old(Repr()))
      ensures Contents() == Inserted(old(Contents()), old(s.Contents()), offset)
    {
      if s.stringLength == 0 {
        NothingInserted(Contents(), s.Contents(), offset);
        return;
      }
      var source := s.Buffer();
      if s == this {
        var tempCopy := new VString(internalBuffer.Length == 15);
        tempCopy.Assign(s);
        source := tempCopy.Buffer();
      }
      InsertBytes(source, s.stringLength, offset);
    }

    /** Makes room for bytes of another buffer and puts them in. */
    method InsertBytes(source: array<byte>, addedLength: nat, offset: int)
      requires Valid() && source !in Repr()
      requires addedLength <= source.Length
      modifies this, internalBuffer, heapBuffer
      ensures Valid() && fresh(Repr() - old(Repr()))
      ensures Contents() == Inserted(old(Contents()), old(source[..addedLength]), offset)
    {
      ghost var was, added := Contents(), source[..addedLength];
      var oldLength := stringLength;
      var newLength := oldLength + addedLength;
      var actualOffset := Min(oldLength, Max(0, offset));
      var _ := Preflight(newLength);
      FillGap(actualOffset, source, addedLength);
      assert Buffer()[..newLength] == was[..actualOffset] + added + was[actualOffset..];
      var _ := SetLength(newLength);
    }

    method InsertByte(c: byte, offset: int)
      requires Valid()
      modifies this, internalBuffer, heapBuffer
      ensures Valid() && fresh(Repr() - old(Repr()))
      ensures Contents() == Inserted(old(Contents()), [c], offset)
    {
      var oldLength := stringLength;
      var actualOffset := Min(oldLength, Max(0, offset));
      var _ := Preflight(oldLength + 1);
      ghost var was := Contents();
      OpenGap(actualOffset, 1);
      ghost var before := Buffer()[..];
      Buffer()[actualOffset] := c;
      JoinParts(before, Buffer()[..], was[..actualOffset], [c], was[actualOffset..]);
      assert Buffer()[..oldLength + 1] == was[..actualOffset] + [c] + was[actualOffset..];
      var _ := SetLength(oldLength + 1);
    }

    // ----- Shortening -----------------------------------------------------

    method MoveToFront(from: nat, n: nat)
      requires Valid() && from + n <= stringLength
      modifies Buffer()
      ensures Stored() && Buffer()[..n] == old(Contents()[from..from + n])
    {
      ghost var before := Buffer()[..];
      MoveBytes(Buffer(), 0, Buffer(), from, n);
      SliceOfPrefix(before, stringLength, from, from + n);
    }

    /** Keeps the bytes from `start` to `end`, both brought into range; -1 stands for the end of the string. */
    method SubstringInPlace(start: int, end: int)
      requires Valid()
      modifies this, internalBuffer, heapBuffer
      ensures Valid() && Repr() <= old(Repr())
      ensures Contents() == Substring(old(Contents()), start, end)
    {
      var theLength := stringLength;
      var startIndex := Min(theLength, Max(0, start));
      var endIndex := if end == -1 then theLength else end;
      endIndex := Max(startIndex, Min(theLength, endIndex));
      var newLength := endIndex - startIndex;
      ghost var was := Contents();
      if newLength != theLength {
        MoveToFront(startIndex, newLength);
        var _ := SetLength(newLength);
      } else {
        assert was[startIndex..endIndex] == was;
      }
    }

    method TruncateLength(maxLength: int)
      requires Valid()
      modifies this, internalBuffer, heapBuffer
      ensures Valid() && Repr() <= old(Repr())
      ensures Contents() == if 0 <= maxLength < old(stringLength) then old(Contents())[..maxLength] else old(Contents())
    {
      if maxLength >= 0 && stringLength > maxLength {
        ghost var was := Contents();
        var _ := SetLength(maxLength);
      }
    }

    /** The cached number of code points, counted at the first call after a change. */
    method GetNumCodePoints() returns (n: int)
      requires Valid()
      modifies this`numCodePoints
      ensures Valid() && Contents() == old(Contents()) && n == Count(Contents(), 0) == numCodePoints
    {
      if numCodePoints == -1 {
        if stringLength == 0 {
          numCodePoints := 0;
        } else {
          numCodePoints := CountUtf8CodePoints(Buffer()[..stringLength]);
        }
      }
      n := numCodePoints;
    }

    /** Keeps at most the first `maxCodePoints` code points. */
    method TruncateCodePoints(maxCodePoints: int, ghost points: seq<CodePoint>)
      requires Valid() && Contents() == EncodeAll(points)
      modifies this, internalBuffer, heapBuffer
      ensures Valid() && Repr() <= old(Repr())
      ensures Contents()
           == if 0 <= maxCodePoints < |points| then EncodeAll(points[..maxCodePoints]) else EncodeAll(points)
    {
      if maxCodePoints >= 0 {
        var n := GetNumCodePoints();
        CountEncoded(points);
        if n > maxCodePoints {
          var pos := new StringIterator.Iterator(Buffer()[..stringLength], true, false, points);
          var _ := pos.Increment(maxCodePoints);
          PrefixAt(points, maxCodePoints);
          ghost var was := Contents();
          var _ := SetLength(pos.offset);
          assert Contents() == was[..pos.offset];
        }
      }
    }

    /** Hands the bytes and their terminator to the caller and leaves the string empty. */
    method OrphanDataBuffer() returns (orphan: array<byte>)
      requires Valid()
      modifies this, internalBuffer
      ensures Valid() && Contents() == [] && numCodePoints == 0 && usingInternalBuffer && Repr() <= old(Repr())
      ensures orphan !in Repr() && (orphan in old(Repr()) || fresh(orphan))
      ensures old(stringLength) < orphan.Length
      ensures orphan[..old(stringLength)] == old(Contents()) && orphan[old(stringLength)] == 0
    {
      if usingInternalBuffer {
        orphan := new byte[1 + stringLength](_ => 0);
        CopyBytes(orphan, 0, internalBuffer, 0, 1 + stringLength);
        assert orphan[..stringLength] == orphan[0..1 + stringLength][..stringLength];
        assert orphan[stringLength] == orphan[0..1 + stringLength][stringLength];
      } else {
        orphan := heapBuffer;
        heapBuffer, heapBufferLength := null, 0;
        usingInternalBuffer := true;
      }
      internalBuffer[0] := 0;
      stringLength, numCodePoints := 0, 0;
    }
  }

  // ----- What the operations do to the sequence of bytes --------------------

  function Inserted(c: seq<byte>, added: seq<byte>, offset: int): seq<byte>
  {
    var at := Min(|c|, Max(0, offset));
    c[..at] + added + c[at..]
  }

  function Substring(c: seq<byte>, start: int, end: int): seq<byte>
  {
    var from := Min(|c|, Max(0, start));
    var to := Max(from, Min(|c|, if end == -1 then |c| else end));
    c[from..to]
  }

  /** Offsets below zero mean the start, offsets past the end the end. */
  lemma InsertedExactly(front: seq<byte>, back: seq<byte>, added: seq<byte>, offset: int)
    ensures Inserted(front + back, added, |front|) == front + added + back
    ensures offset <= 0 ==> Inserted(back, added, offset) == added + back
    ensures offset >= |front| ==> Inserted(front, added, offset) == front + added
  {
  }

  /** Starts below zero mean the start, ends past the end or -1 the end; bounds the wrong way round give nothing. */
  lemma SubstringExactly(a: seq<byte>, b: seq<byte>, c: seq<byte>, start: int, end: int)
    ensures Substring(a + b + c, |a|, |a| + |b|) == b
    ensures start <= 0 && (end == -1 || end >= |b|) ==> Substring(b, start, end) == b
    ensures start <= 0 ==> Substring(b + c, start, |b|) == b && Substring(a + b, |a|, -1) == b
    ensures (end != -1 && end <= start) || start >= |b| ==> Substring(b, start, end) == []
  {
  }

  lemma NothingInserted(c: seq<byte>, added: seq<byte>, offset: int)
    requires added == []
    ensures Inserted(c, added, offset) == c
  {
  }

  lemma SliceOfPrefix(s: seq<byte>, n: nat, from: nat, to: nat)
    requires from <= to <= n <= |s|
    ensures s[..n][from..to] == s[from..to]
  {
  }

  // ----- The storage shared by the flag and the heap length -----------------

  /** The bit of the heap length that a little-endian layout also uses as the flag. */
  function FlagBit(heapBufferLength: int): int { heapBufferLength % 2 }

  /** The buffer length chosen for `length` bytes and a terminator. */
  function Capacity(length: nat, chunk: nat): int
    requires chunk > 0
  {
    length + 1 + (chunk - (length + 1) % chunk)
  }

  lemma CapacityIsMultiple(length: nat, chunk: nat) returns (k: int)
    requires chunk > 0
    ensures Capacity(length, chunk) == k * chunk
  {
    k := (length + 1) / chunk + 1;
  }

  lemma EvenMultiple(k: int, chunk: nat)
    requires chunk % 2 == 0
    ensures k * chunk % 2 == 0
  {
    assert k * chunk == 2 * (k * (chunk / 2));
  }

  /** No capacity sets the shared flag bit exactly if the chunks are of even length. */
  lemma ChunksKeepFlag(chunk: nat)
    requires chunk > 0
    ensures (forall length: nat :: FlagBit(Capacity(length, chunk)) == 0) <==> chunk % 2 == 0
  {
    if chunk % 2 == 0 {
      forall length: nat
        ensures FlagBit(Capacity(length, chunk)) == 0
      {
        var k := CapacityIsMultiple(length, chunk);
        EvenMultiple(k, chunk);
      }
    } else if chunk == 1 {
      assert FlagBit(Capacity(1, 1)) == 1;
    } else {
      assert Capacity(0, chunk) == chunk;
    }
  }

  /** The bytes put into a gap stand between those before and those after it. */
  lemma JoinParts(before: seq<byte>, after: seq<byte>, front: seq<byte>, added: seq<byte>, back: seq<byte>)
    requires |front| + |added| + |back| <= |before| == |after|
    requires before[..|front|] == front && before[|front| + |added|..|front| + |added| + |back|] == back
    requires after[..|front|] == before[..|front|] && after[|front| + |added|..] == before[|front| + |added|..]
    requires after[|front|..|front| + |added|] == added
    ensures after[..|front| + |added| + |back|] == front + added + back
  {
    var n := |front| + |added|;
    assert after[n..n + |back|] == after[n..][..|back|] == before[n..][..|back|] == back;
  }

  /** The first code points end where the next one starts. */
  lemma PrefixAt(points: seq<CodePoint>, k: nat)
    requires k <= |points|
    ensures Offset(points, k) <= |EncodeAll(points)|
    ensures EncodeAll(points)[..Offset(points, k)] == EncodeAll(points[..k])
  {
    assert points == points[..k] + points[k..];
    EncodeConcat(points[..k], points[k..]);
  }
}
