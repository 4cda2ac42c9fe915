/**
  `VBinaryIOStream` over bytes in memory: big-endian integers, dynamic counts
  and strings.  The readers as functions take the bytes still ahead and say
  what is read and what is left; the stream methods are proved against them.
 */
module BinaryStreams {
  import opened Wrappers
  import opened Decimal
  import opened Utf8

  type Bytes = seq<byte>

  /** Why reading stops: the source throws, or what it does is not modelled. */
  datatype Fault = EndOfStream | StringTooLong | NegativeLength | UnknownType

  datatype Read<+T> = Ok(value: T, rest: Bytes) | Fail(fault: Fault)

  // ----- Big-endian integers ----------------------------------------------

  function Pow256(w: nat): (p: int)
    ensures p >= 1
  {
    if w == 0 then 1 else 0x100 * Pow256(w - 1)
  }

  /** The low `w` bytes of the two's complement representation, most significant first. */
  function BigEndian(n: int, w: nat): (bs: Bytes)
    ensures |bs| == w
    decreases w
  {
    if w == 0 then [] else BigEndian(n / 0x100, w - 1) + [n % 0x100]
  }

  function FromBigEndian(bs: Bytes): nat
  {
    if bs == [] then 0 else 0x100 * FromBigEndian(bs[..|bs| - 1]) + bs[|bs| - 1]
  }

  function Word(bs: Bytes, signed: bool): int
  {
    var u := FromBigEndian(bs);
    if signed && 2 * u >= Pow256(|bs|) then u - Pow256(|bs|) else u
  }

  lemma {:induction false} FromBigEndianOfBigEndian(n: int, w: nat)
    requires -Pow256(w) <= n < Pow256(w)
    ensures FromBigEndian(BigEndian(n, w)) == if n < 0 then n + Pow256(w) else n
    decreases w
  {
    if w > 0 {
      FromBigEndianOfBigEndian(n / 0x100, w - 1);
      assert BigEndian(n, w)[..w - 1] == BigEndian(n / 0x100, w - 1);
    }
  }

  predicate FitsWord(n: int, w: nat, signed: bool)
  {
    if signed then -Pow256(w) <= 2 * n < Pow256(w) else 0 <= n < Pow256(w)
  }

  lemma WordOfBigEndian(n: int, w: nat, signed: bool)
    requires FitsWord(n, w, signed)
    ensures Word(BigEndian(n, w), signed) == n
  {
    hide BigEndian, FromBigEndian;
    FromBigEndianOfBigEndian(n, w);
  }

  lemma WordSizes()
    ensures Pow256(1) == 0x100 && Pow256(2) == 0x1_0000 && Pow256(4) == 0x1_0000_0000
    ensures Pow256(8) == 0x1_0000_0000_0000_0000
  {
    assert Pow256(3) == 0x100_0000 && Pow256(5) == 0x100_0000_0000 && Pow256(6) == 0x1_0000_0000_0000;
    assert Pow256(7) == 0x100_0000_0000_0000;
  }

  // ----- Reading ----------------------------------------------------------

  function Take(bs: Bytes, n: nat): (r: Read<Bytes>)
    ensures r.Ok? ==> |r.rest| <= |bs|
  {
    if n > |bs| then Fail(EndOfStream) else Ok(bs[..n], bs[n..])
  }

  function ReadWord(bs: Bytes, w: nat, signed: bool): (r: Read<int>)
    ensures r.Ok? ==> |r.rest| <= |bs|
  {
    match Take(bs, w)
    case Ok(word, rest) => Ok(Word(word, signed), rest)
    case Fail(f) => Fail(f)
  }

  lemma TakeFront(front: Bytes, rest: Bytes)
    ensures Take(front + rest, |front|) == Ok(front, rest)
  {
  }

  lemma ReadWordOf(n: int, w: nat, signed: bool, rest: Bytes)
    requires FitsWord(n, w, signed)
    ensures ReadWord(BigEndian(n, w) + rest, w, signed) == Ok(n, rest)
  {
    hide Word, BigEndian, FitsWord, Take;
    WordOfBigEndian(n, w, signed);
    TakeFront(BigEndian(n, w), rest);
  }

  // ----- Dynamic counts ---------------------------------------------------

  /** `writeDynamicCount`; a negative count, like any up to 252, becomes its low byte. */
  function DynamicCount(n: int): Bytes
  {
    if n <= 0xFC then [n % 0x100]
    else if n <= 0xFFFF then [0xFF] + BigEndian(n, 2)
    else if n <= 0xFFFF_FFFF then [0xFE] + BigEndian(n, 4)
    else [0xFD] + BigEndian(n, 8)
  }

  /** `getDynamicCountLength` */
  function CountLength(n: int): nat
  {
    if n <= 0xFC then 1 else if n <= 0xFFFF then 3 else if n <= 0xFFFF_FFFF then 5 else 9
  }

  lemma DynamicCountLength(n: int)
    ensures |DynamicCount(n)| == CountLength(n)
  {
  }

  /** `readDynamicCount` */
  function ReadCount(bs: Bytes): (r: Read<int>)
    ensures r.Ok? ==> |r.rest| < |bs|
  {
    if bs == [] then Fail(EndOfStream)
    else if bs[0] == 0xFF then ReadWord(bs[1..], 2, false)
    else if bs[0] == 0xFE then ReadWord(bs[1..], 4, false)
    else if bs[0] == 0xFD then
      match ReadWord(bs[1..], 8, false) {
        case Ok(n, rest) => Ok(ToS64(n), rest)
        case Fail(f) => Fail(f)
      }
    else Ok(bs[0], bs[1..])
  }

  lemma LeadingByte(b: byte, word: Bytes, rest: Bytes)
    ensures ([b] + word + rest)[0] == b && ([b] + word + rest)[1..] == word + rest
  {
  }

  /** Every count that a signed 64-bit word holds is read back from the bytes that announce it. */
  lemma ReadCountOf(n: nat, rest: Bytes)
    requires n < 0x8000_0000_0000_0000
    ensures ReadCount(DynamicCount(n) + rest) == Ok(n, rest)
  {
    hide BigEndian, ReadWord, Pow256;
    WordSizes();
    if n <= 0xFC {
      assert ([n % 0x100] + rest)[1..] == rest;
    } else if n <= 0xFFFF {
      LeadingByte(0xFF, BigEndian(n, 2), rest);
      ReadWordOf(n, 2, false, rest);
    } else if n <= 0xFFFF_FFFF {
      LeadingByte(0xFE, BigEndian(n, 4), rest);
      ReadWordOf(n, 4, false, rest);
    } else {
      LeadingByte(0xFD, BigEndian(n, 8), rest);
      ReadWordOf(n, 8, false, rest);
    }
  }

  /** A count below zero is written as its low byte, which must not be taken for the lead of a longer form. */
  predicate Legible(n: int) { n >= 0 || n % 0x100 < 0xFD }

  /** How many of the bytes that follow a count are read as part of it. */
  function Swallowed(n: int): nat
  {
    if Legible(n) then 0 else if n % 0x100 == 0xFD then 8 else if n % 0x100 == 0xFE then 4 else 2
  }

  lemma ReadWordLeft(bs: Bytes, w: nat, signed: bool)
    ensures match ReadWord(bs, w, signed) case Fail(_) => |bs| < w case Ok(_, rest) => w <= |bs| && rest == bs[w..]
  {
    hide Word;
  }

  /** What follows a written count is left in place, but for the bytes that a negative one swallows. */
  lemma ReadCountLeft(n: int, rest: Bytes)
    requires n < 0x8000_0000_0000_0000
    ensures match ReadCount(DynamicCount(n) + rest)
            case Fail(_) => |rest| < Swallowed(n)
            case Ok(_, left) => Swallowed(n) <= |rest| && left == rest[Swallowed(n)..]
  {
    hide ReadWord, ToS64, BigEndian;
    if n >= 0 {
      ReadCountOf(n, rest);
    } else {
      assert ([n % 0x100] + rest)[1..] == rest;
      ReadWordLeft(rest, 2, false);
      ReadWordLeft(rest, 4, false);
      ReadWordLeft(rest, 8, false);
    }
  }

  lemma {:induction false} FromBigEndianBound(bs: Bytes)
    ensures FromBigEndian(bs) < Pow256(|bs|)
  {
    if bs != [] {
      FromBigEndianBound(bs[..|bs| - 1]);
    }
  }

  lemma ReadWordBound(bs: Bytes, w: nat)
    ensures match ReadWord(bs, w, false)
            case Fail(_) => true
            case Ok(n, rest) => 0 <= n < Pow256(w) && |bs| == |rest| + w
  {
    if w <= |bs| {
      FromBigEndianBound(bs[..w]);
    }
  }

  /** No form of a count is shorter than the one that is written. */
  lemma CountConsumed(bs: Bytes)
    ensures match ReadCount(bs)
            case Fail(_) => true
            case Ok(n, rest) => |bs| >= |rest| + 1 && (n >= 0 ==> |bs| >= |rest| + CountLength(n))
  {
    hide ReadWord, Pow256, ToS64;
    WordSizes();
    if bs != [] {
      ReadWordBound(bs[1..], 2);
      ReadWordBound(bs[1..], 4);
      ReadWordBound(bs[1..], 8);
    }
  }

  // ----- Strings ----------------------------------------------------------

  function StringBytes(s: Bytes): Bytes { DynamicCount(|s|) + s }

  /** `readString` */
  function ReadString(bs: Bytes): (r: Read<Bytes>)
    ensures r.Ok? ==> |r.rest| < |bs|
  {
    match ReadCount(bs)
    case Fail(f) => Fail(f)
    case Ok(n, rest) =>
      if n > 0x7FFF_FFFF then Fail(StringTooLong) else if n < 0 then Fail(NegativeLength) else Take(rest, n)
  }

  lemma ReadStringOf(s: Bytes, rest: Bytes)
    requires |s| < 0x8000_0000
    ensures ReadString(StringBytes(s) + rest) == Ok(s, rest)
  {
    hide DynamicCount, ReadCount, Take;
    ReadCountOf(|s|, s + rest);
    assert StringBytes(s) + rest == DynamicCount(|s|) + (s + rest);
    TakeFront(s, rest);
  }

  lemma StringConsumed(bs: Bytes)
    ensures match ReadString(bs) case Fail(_) => true case Ok(s, rest) => |bs| >= |rest| + |StringBytes(s)|
  {
    hide ReadCount, DynamicCount, CountLength;
    CountConsumed(bs);
    match ReadCount(bs) {
      case Ok(n, rest) => DynamicCountLength(n);
      case Fail(_) =>
    }
  }

  // ----- The stream object ------------------------------------------------

  /** What a method returned and what it left agree with what a reader function says. */
  predicate Agrees<T(==)>(r: Result<T, Fault>, ahead: Bytes, spec: Read<T>)
  {
    match spec
    case Ok(value, rest) => r == Success(value) && ahead == rest
    case Fail(f) => r == Failure(f)
  }

  class BinaryStream {
    var bytes: Bytes
    var offset: nat

    ghost predicate Valid() reads this { offset <= |bytes| }

    /** The bytes still to be read. */
    ghost function Ahead(): Bytes
      requires Valid()
      reads this
    {
      bytes[offset..]
    }

    constructor (bytes: Bytes)
      ensures Valid() && this.bytes == bytes && Ahead() == bytes
    {
      this.bytes, offset := bytes, 0;
    }

    /** `write`, for a stream positioned at its end. */
    method Write(data: Bytes)
      requires offset == |bytes|
      modifies this
      ensures offset == |bytes| && bytes == old(bytes) + data
    {
      bytes := bytes + data;
      offset := offset + |data|;
    }

    method WriteDynamicCount(count: int)
      requires offset == |bytes|
      modifies this
      ensures offset == |bytes| && bytes == old(bytes) + DynamicCount(count)
    {
      hide BigEndian;
      if count <= 0xFC {
        Write([count % 0x100]);
      } else if count <= 0xFFFF {
        WriteLead(0xFF, BigEndian(count, 2));
      } else if count <= 0xFFFF_FFFF {
        WriteLead(0xFE, BigEndian(count, 4));
      } else {
        WriteLead(0xFD, BigEndian(count, 8));
      }
    }

    /** An indicator byte and the word it announces. */
    method WriteLead(indicator: byte, word: Bytes)
      requires offset == |bytes|
      modifies this
      ensures offset == |bytes| && bytes == old(bytes) + ([indicator] + word)
    {
      ghost var was := bytes;
      Write([indicator]);
      Write(word);
      assert was + [indicator] + word == was + ([indicator] + word);
    }

    method WriteString(s: Bytes)
      requires offset == |bytes|
      modifies this
      ensures offset == |bytes| && bytes == old(bytes) + StringBytes(s)
    {
      hide DynamicCount;
      ghost var was := bytes;
      WriteDynamicCount(|s|);
      Write(s);
      assert was + DynamicCount(|s|) + s == was + (DynamicCount(|s|) + s);
    }

    method ReadGuaranteed(n: nat) returns (r: Result<Bytes, Fault>)
      requires Valid()
      modifies this
      ensures Valid() && bytes == old(bytes) && Agrees(r, Ahead(), Take(old(Ahead()), n))
    {
      if offset + n > |bytes| {
        offset := |bytes|;
        return Failure(EndOfStream);
      }
      ghost var ahead := Ahead();
      r := Success(bytes[offset..offset + n]);
      offset := offset + n;
      assert r.value == ahead[..n] && Ahead() == ahead[n..];
    }

    method ReadInteger(w: nat, signed: bool) returns (r: Result<int, Fault>)
      requires Valid()
      modifies this
      ensures Valid() && bytes == old(bytes) && Agrees(r, Ahead(), ReadWord(old(Ahead()), w, signed))
    {
      var word := ReadGuaranteed(w);
      if word.Failure? {
        return Failure(word.error);
      }
      r := Success(Word(word.value, signed));
    }

    method ReadDynamicCount() returns (r: Result<int, Fault>)
      requires Valid()
      modifies this
      ensures Valid() && bytes == old(bytes) && Agrees(r, Ahead(), ReadCount(old(Ahead())))
    {
      hide ReadWord;
      ghost var ahead := Ahead();
      if offset == |bytes| {
        return Failure(EndOfStream);
      }
      var lengthKind := bytes[offset];
      assert lengthKind == ahead[0];
      offset := offset + 1;
      assert Ahead() == ahead[1..];
      if lengthKind == 0xFF {
        r := ReadInteger(2, false);
      } else if lengthKind == 0xFE {
        r := ReadInteger(4, false);
      } else if lengthKind == 0xFD {
        r := ReadInteger(8, false);
        if r.Success? {
          r := Success(ToS64(r.value));
        }
      } else {
        r := Success(lengthKind);
      }
    }

    method ReadText() returns (r: Result<Bytes, Fault>)
      requires Valid()
      modifies this
      ensures Valid() && bytes == old(bytes) && Agrees(r, Ahead(), ReadString(old(Ahead())))
    {
      hide ReadCount;
      var length := ReadDynamicCount();
      if length.Failure? {
        return Failure(length.error);
      }
      if length.value > 0x7FFF_FFFF {
        return Failure(StringTooLong);
      }
      if length.value < 0 {
        return Failure(NegativeLength);
      }
      r := ReadGuaranteed(length.value);
    }
  }
}
