/**
  Code points and their UTF-8 bytes (section 3 of RFC 3629).  Bit masks and
  shifts on bytes are written as the divisions and remainders they compute.
 */
module Utf8 {
  type byte = b: int | 0 <= b < 0x100

  type CodePoint = c: int | 0 <= c < 0x11_0000

  // ----- One code point ---------------------------------------------------

  /** `getUTF8LengthFromCodePointValue` */
  function Length(c: CodePoint): nat
  {
    if c < 0x80 then 1 else if c < 0x800 then 2 else if c < 0x1_0000 then 3 else 4
  }

  /** The bytes `toString` and `writeToBinaryStream` produce. */
  function Encode(c: CodePoint): (bs: seq<byte>)
    ensures |bs| == Length(c)
  {
    if c < 0x80 then [c]
    else if c < 0x800 then [0xC0 + c / 0x40, 0x80 + c % 0x40]
    else if c < 0x1_0000 then [0xE0 + c / 0x1000, 0x80 + c / 0x40 % 0x40, 0x80 + c % 0x40]
    else [0xF0 + c / 0x4_0000, 0x80 + c / 0x1000 % 0x40, 0x80 + c / 0x40 % 0x40, 0x80 + c % 0x40]
  }

  /** `getUTF8LengthFromUTF8StartByte`: the number of leading 1 bits tells how many bytes follow. */
  function StartByteLength(b: byte): nat
  {
    if b / 0x40 < 3 then 1 else if b / 0x20 % 2 == 0 then 2 else if b / 0x10 % 2 == 0 then 3 else 4
  }

  predicate IsContinuation(b: byte) { b / 0x40 == 2 }

  /** `_initFromUTF8Bytes` */
  function Decode(n: nat, b0: byte, b1: byte, b2: byte, b3: byte): int
  {
    if n == 1 then b0
    else if n == 2 then b0 % 0x20 * 0x40 + b1 % 0x40
    else if n == 3 then b0 % 0x10 * 0x1000 + b1 % 0x40 * 0x40 + b2 % 0x40
    else b0 % 0x08 * 0x4_0000 + b1 % 0x40 * 0x1000 + b2 % 0x40 * 0x40 + b3 % 0x40
  }

  function ByteAt(buffer: seq<byte>, i: int): byte { if 0 <= i < |buffer| then buffer[i] else 0 }

  /** The code point that starts at `offset`; the bytes past the end of the buffer count as terminators. */
  function CodePointAt(buffer: seq<byte>, offset: nat): int
  {
    Decode(StartByteLength(ByteAt(buffer, offset)), ByteAt(buffer, offset),
           ByteAt(buffer, offset + 1), ByteAt(buffer, offset + 2), ByteAt(buffer, offset + 3))
  }

  /** Past the end of a buffer stand terminators. */
  lemma Terminated(buffer: seq<byte>, offset: nat)
    requires offset >= |buffer|
    ensures CodePointAt(buffer, offset) == 0 && CodePointAt([0xC2], 0) == 0x80
  {
  }

  function LengthAt(buffer: seq<byte>, offset: nat): nat { StartByteLength(ByteAt(buffer, offset)) }

  /** What each byte says when it stands first, and which bytes continue a sequence. */
  lemma ByteKinds(b: byte)
    ensures b <= 0xBF ==> StartByteLength(b) == 1
    ensures 0xC0 <= b <= 0xDF ==> StartByteLength(b) == 2
    ensures 0xE0 <= b <= 0xEF ==> StartByteLength(b) == 3
    ensures 0xF0 <= b ==> StartByteLength(b) == 4
    ensures IsContinuation(b) <==> 0x80 <= b <= 0xBF
  {
  }

  /** The first and the last code point of each length. */
  lemma FirstAndLast()
    ensures Encode(0) == [0] && Encode(0x7F) == [0x7F]
    ensures Encode(0x80) == [0xC2, 0x80] && Encode(0x7FF) == [0xDF, 0xBF]
    ensures Encode(0x800) == [0xE0, 0xA0, 0x80] && Encode(0xFFFF) == [0xEF, 0xBF, 0xBF]
    ensures Encode(0x1_0000) == [0xF0, 0x90, 0x80, 0x80] && Encode(0x10_FFFF) == [0xF4, 0x8F, 0xBF, 0xBF]
  {
  }

  /** The shapes of the bytes of one code point. */
  lemma EncodeShape(c: CodePoint)
    ensures var bs := Encode(c);
            && StartByteLength(bs[0]) == |bs| && !IsContinuation(bs[0])
            && forall i :: 1 <= i < |bs| ==> IsContinuation(bs[i])
  {
  }

  lemma SixBits(x: nat)
    ensures (0x80 + x % 0x40) % 0x40 == x % 0x40 && x == x / 0x40 * 0x40 + x % 0x40
    ensures x / 0x1000 == x / 0x40 / 0x40
  {
  }

  lemma StartBits(q: nat)
    ensures q < 0x20 ==> (0xC0 + q) % 0x20 == q
    ensures q < 0x10 ==> (0xE0 + q) % 0x10 == q
    ensures q < 0x08 ==> (0xF0 + q) % 0x08 == q
  {
  }

  /** The six-bit groups of the bytes put together give the code point. */
  lemma DecodeEncode(c: CodePoint)
    ensures var bs := Encode(c);
            Decode(|bs|, bs[0], ByteAt(bs, 1), ByteAt(bs, 2), ByteAt(bs, 3)) == c
  {
    var q1 := c / 0x40;
    var q2 := q1 / 0x40;
    SixBits(c);
    SixBits(q1);
    SixBits(q2);
    assert c / 0x4_0000 == q2 / 0x40;
    if c < 0x80 {
    } else if c < 0x800 {
      StartBits(q1);
    } else if c < 0x1_0000 {
      StartBits(q2);
    } else {
      StartBits(q2 / 0x40);
    }
  }

  /** The first byte says how many follow, the others are continuations, and together they give the code point. */
  lemma EncodeDecode(c: CodePoint, rest: seq<byte>)
    ensures var bs := Encode(c);
            && CodePointAt(bs + rest, 0) == c && LengthAt(bs + rest, 0) == |bs|
            && !IsContinuation(bs[0])
            && forall i :: 1 <= i < |bs| ==> IsContinuation(bs[i])
  {
    hide Encode, StartByteLength, IsContinuation;
    EncodeShape(c);
    DecodeEncode(c);
    var bs := Encode(c);
    assert forall i :: 0 <= i < |bs| ==> (bs + rest)[i] == bs[i];
  }

  // ----- Sequences of code points -----------------------------------------

  function EncodeAll(cs: seq<CodePoint>): seq<byte>
  {
    if cs == [] then [] else Encode(cs[0]) + EncodeAll(cs[1..])
  }

  lemma {:induction false} EncodeConcat(a: seq<CodePoint>, b: seq<CodePoint>)
    ensures EncodeAll(a + b) == EncodeAll(a) + EncodeAll(b)
  {
    hide Encode;
    if a == [] {
      assert a + b == b;
    } else {
      assert (a + b)[1..] == a[1..] + b;
      EncodeConcat(a[1..], b);
    }
  }

  /** Where the k-th code point starts. */
  function Offset(cs: seq<CodePoint>, k: nat): nat
    requires k <= |cs|
  {
    |EncodeAll(cs[..k])|
  }

  /** What stands at the start of the k-th code point, and how far the next one is. */
  lemma AtOffset(cs: seq<CodePoint>, k: nat)
    requires k < |cs|
    ensures var bs, o := EncodeAll(cs), Offset(cs, k);
            && o + Length(cs[k]) == Offset(cs, k + 1) <= |bs|
            && CodePointAt(bs, o) == cs[k] && LengthAt(bs, o) == Length(cs[k])
            && !IsContinuation(bs[o])
            && forall i :: o < i < Offset(cs, k + 1) ==> IsContinuation(bs[i])
  {
    hide Encode, Length, CodePointAt, LengthAt, IsContinuation;
    var front, c, back := cs[..k], cs[k], cs[k + 1..];
    assert cs == front + ([c] + back) && ([c] + back)[1..] == back;
    EncodeConcat(front, [c] + back);
    EncodeConcat(front, [c]);
    assert cs[..k + 1] == front + [c];
    assert EncodeAll([c]) == Encode(c) by { assert EncodeAll([]) == [] && [c][1..] == []; }
    EncodeDecode(c, EncodeAll(back));
    ShiftAt(EncodeAll(front), Encode(c) + EncodeAll(back));
    var bs := EncodeAll(cs);
    assert bs == EncodeAll(front) + (Encode(c) + EncodeAll(back));
    var o := |EncodeAll(front)|;
    assert forall i :: 0 <= i < |Encode(c)| ==> bs[o + i] == Encode(c)[i];
    assert |Encode(c)| >= 1 by { EncodeLength(c); }
    assert bs[o] == Encode(c)[0];
    forall i | o < i < o + |Encode(c)|
      ensures IsContinuation(bs[i])
    {
      assert bs[i] == Encode(c)[i - o];
    }
  }

  lemma EncodeLength(c: CodePoint)
    ensures 1 <= |Encode(c)| <= 4
  {
  }

  lemma ShiftAt(front: seq<byte>, back: seq<byte>)
    ensures CodePointAt(front + back, |front|) == CodePointAt(back, 0)
    ensures LengthAt(front + back, |front|) == LengthAt(back, 0)
  {
  }

  lemma OffsetsGrow(cs: seq<CodePoint>, j: nat, k: nat)
    requires j < k <= |cs|
    ensures Offset(cs, j) < Offset(cs, k) <= |EncodeAll(cs)|
    decreases k - j
  {
    hide Encode, Offset;
    AtOffset(cs, k - 1);
    assert Length(cs[k - 1]) >= 1;
    if j < k - 1 {
      OffsetsGrow(cs, j, k - 1);
    }
  }

  lemma OffsetEnds(cs: seq<CodePoint>)
    ensures Offset(cs, 0) == 0 && Offset(cs, |cs|) == |EncodeAll(cs)|
  {
    assert cs[..|cs|] == cs;
  }

  /** No two sequences of code points have the same bytes. */
  lemma {:induction false} EncodeAllInjective(a: seq<CodePoint>, b: seq<CodePoint>)
    requires EncodeAll(a) == EncodeAll(b)
    ensures a == b
  {
    hide Encode, Length, CodePointAt, LengthAt, IsContinuation;
    if a == [] || b == [] {
      if a != [] { EncodeLength(a[0]); }
      if b != [] { EncodeLength(b[0]); }
    } else {
      AtOffset(a, 0);
      AtOffset(b, 0);
      var n := |Encode(a[0])|;
      assert EncodeAll(a)[n..] == EncodeAll(a[1..]) && EncodeAll(b)[n..] == EncodeAll(b[1..]);
      EncodeAllInjective(a[1..], b[1..]);
      assert a == [a[0]] + a[1..] && b == [b[0]] + b[1..];
    }
  }

  // ----- Counting and stepping back ---------------------------------------

  /** The number of code points, going by the start bytes alone. */
  function Count(buffer: seq<byte>, offset: nat): nat
    decreases |buffer| - offset
  {
    if offset >= |buffer| then 0 else 1 + Count(buffer, offset + LengthAt(buffer, offset))
  }

  method CountUtf8CodePoints(buffer: seq<byte>) returns (n: nat)
    ensures n == Count(buffer, 0)
  {
    n := 0;
    var offset := 0;
    while offset < |buffer|
      invariant Count(buffer, 0) == n + Count(buffer, offset)
    {
      n := n + 1;
      offset := offset + LengthAt(buffer, offset);
    }
  }

  lemma {:induction false} CountFrom(cs: seq<CodePoint>, k: nat)
    requires k <= |cs|
    ensures Count(EncodeAll(cs), Offset(cs, k)) == |cs| - k
    decreases |cs| - k
  {
    hide Offset, LengthAt;
    OffsetEnds(cs);
    if k < |cs| {
      AtOffset(cs, k);
      OffsetsGrow(cs, k, |cs|);
      CountFrom(cs, k + 1);
    }
  }

  /** Counting the code points of an encoded sequence gives its length. */
  lemma CountEncoded(cs: seq<CodePoint>)
    ensures Count(EncodeAll(cs), 0) == |cs|
  {
    OffsetEnds(cs);
    CountFrom(cs, 0);
  }

  /** `getPreviousUTF8CodePointOffset` */
  method PreviousOffset(buffer: seq<byte>, offset: nat) returns (previous: int)
    requires offset <= |buffer|
    ensures -1 <= previous < offset
    ensures offset > 0 ==> 0 <= previous && (previous == 0 || !IsContinuation(buffer[previous]))
    ensures forall i :: previous < i < offset ==> IsContinuation(buffer[i])
  {
    previous := offset - 1;
    while previous > 0 && IsContinuation(buffer[previous])
      invariant -1 <= previous < offset && (offset > 0 ==> previous >= 0)
      invariant forall i :: previous < i < offset ==> IsContinuation(buffer[i])
    {
      previous := previous - 1;
    }
  }

  /** The last byte before the k-th code point that is no continuation starts the one before it. */
  lemma PreviousStart(cs: seq<CodePoint>, k: nat, at: int)
    requires 0 < k <= |cs| && 0 <= at < Offset(cs, k) <= |EncodeAll(cs)|
    requires at == 0 || !IsContinuation(EncodeAll(cs)[at])
    requires forall i :: at < i < Offset(cs, k) ==> IsContinuation(EncodeAll(cs)[i])
    ensures at == Offset(cs, k - 1)
  {
    hide Encode, IsContinuation, Offset;
    AtOffset(cs, k - 1);
    OffsetEnds(cs);
    if k > 1 {
      OffsetsGrow(cs, 0, k - 1);
    }
  }
}
