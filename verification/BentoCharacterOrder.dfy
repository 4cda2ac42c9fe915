/**
  A character is read from a stream by up to three reads inside the arguments
  of one call, whose order the language leaves open.  The reader is modelled
  with that order as a parameter: `BentoBinary.ReadChar` is the left-to-right
  one, and a character survives exactly where the order does not matter to
  its bytes.
 */
module BentoCharacterOrder {
  import opened Utf8
  import opened BinaryStreams
  import opened BentoBinary

  /** When each of the three arguments is evaluated: the one of the lowest rank first. */
  datatype Order = Order(first: int, second: int, third: int)
  {
    predicate Strict() { first != second && second != third && third != first }

    function Rank(i: nat): int { if i == 1 then first else if i == 2 then second else third }

    /** Whether argument `j` reads a byte of a sequence of `n`, and does so before argument `i`. */
    predicate Earlier(n: nat, j: nat, i: nat) { j < n && Rank(j) < Rank(i) }

    /** Which byte of a sequence of `n` argument `i` gets. */
    function Turn(n: nat, i: nat): nat
    {
      1 + (if Earlier(n, 1, i) then 1 else 0)
        + (if Earlier(n, 2, i) then 1 else 0)
        + (if Earlier(n, 3, i) then 1 else 0)
    }

    /** The value of argument `i`: no byte is read where the sequence is too short. */
    function Argument(n: nat, i: nat, bs: Bytes): byte
    {
      if i < n then ByteAt(bs, Turn(n, i)) else 0
    }
  }

  const LEFT_TO_RIGHT := Order(1, 2, 3)
  const RIGHT_TO_LEFT := Order(3, 2, 1)

  /** The stream constructor of `VCodePoint`, its arguments evaluated in some order. */
  function ReadCharInOrder(order: Order, bs: Bytes): Read<int>
  {
    if bs == [] then Fail(EndOfStream)
    else
      var n := StartByteLength(bs[0]);
      if n > |bs| then Fail(EndOfStream)
      else Ok(Decode(n, bs[0], order.Argument(n, 1, bs), order.Argument(n, 2, bs), order.Argument(n, 3, bs)), bs[n..])
  }

  lemma LeftToRight(bs: Bytes)
    ensures ReadCharInOrder(LEFT_TO_RIGHT, bs) == ReadChar(bs)
  {
  }

  /** In any order each of the bytes is read by one of the arguments. */
  lemma TurnInRange(order: Order, n: nat, i: nat)
    requires order.Strict() && 1 <= i < n <= 4
    ensures 1 <= order.Turn(n, i) < n
  {
  }

  /** Continuation bytes that decode to the same code point are the same. */
  lemma SameContinuations(n: nat, b0: byte, b1: byte, b2: byte, b3: byte, c1: byte, c2: byte, c3: byte)
    requires 1 <= n <= 4 && IsContinuation(b1) && IsContinuation(b2) && IsContinuation(b3)
    requires IsContinuation(c1) && IsContinuation(c2) && IsContinuation(c3)
    requires Decode(n, b0, b1, b2, b3) == Decode(n, b0, c1, c2, c3)
    ensures (n > 1 ==> b1 == c1) && (n > 2 ==> b2 == c2) && (n > 3 ==> b3 == c3)
  {
    SixBitsOf(b1);
    SixBitsOf(b2);
    SixBitsOf(b3);
    SixBitsOf(c1);
    SixBitsOf(c2);
    SixBitsOf(c3);
  }

  lemma SixBitsOf(b: byte)
    requires IsContinuation(b)
    ensures b % 0x40 == b - 0x80
  {
  }

  /** Arguments past the ones used do not matter. */
  lemma UsedArguments(n: nat, b0: byte, b1: byte, b2: byte, b3: byte, c1: byte, c2: byte, c3: byte)
    requires 1 <= n <= 4 && (n > 1 ==> b1 == c1) && (n > 2 ==> b2 == c2) && (n > 3 ==> b3 == c3)
    ensures Decode(n, b0, b1, b2, b3) == Decode(n, b0, c1, c2, c3)
  {
  }

  /** A written character is read back exactly if every argument gets the byte that belongs there. */
  lemma ReadInOrder(order: Order, c: CodePoint, rest: Bytes)
    requires order.Strict()
    ensures ReadCharInOrder(order, Encode(c) + rest) == Ok(c, rest)
       <==> forall i :: 1 <= i < Length(c) ==> Encode(c)[order.Turn(Length(c), i)] == Encode(c)[i]
  {
    hide Encode, Decode, StartByteLength, IsContinuation, Order.Turn;
    var n, own := Length(c), Encode(c);
    var bs := own + rest;
    EncodeShape(c);
    DecodeEncode(c);
    assert bs[0] == own[0] && bs[n..] == rest;
    forall i | 1 <= i < n
      ensures 1 <= order.Turn(n, i) < n && order.Argument(n, i, bs) == own[order.Turn(n, i)]
    {
      TurnInRange(order, n, i);
    }
    Exactly(order, c, bs);
  }

  lemma Exactly(order: Order, c: CodePoint, bs: Bytes)
    requires Encode(c) <= bs
    requires forall i :: 1 <= i < Length(c) ==> 1 <= order.Turn(Length(c), i) < Length(c)
    ensures var n, own := Length(c), Encode(c);
            (Decode(n, bs[0], order.Argument(n, 1, bs), order.Argument(n, 2, bs), order.Argument(n, 3, bs)) == c
             <==> forall i :: 1 <= i < n ==> own[order.Turn(n, i)] == own[i])
  {
    hide Encode, Decode, StartByteLength, IsContinuation, Order.Turn;
    var n, own := Length(c), Encode(c);
    EncodeShape(c);
    DecodeEncode(c);
    var x1, x2, x3 := order.Argument(n, 1, bs), order.Argument(n, 2, bs), order.Argument(n, 3, bs);
    var f1, f2, f3 := if n > 1 then x1 else 0x80, if n > 2 then x2 else 0x80, if n > 3 then x3 else 0x80;
    var g1, g2, g3 := if n > 1 then own[1] else 0x80, if n > 2 then own[2] else 0x80, if n > 3 then own[3] else 0x80;
    assert forall i :: 1 <= i < n ==> order.Argument(n, i, bs) == own[order.Turn(n, i)];
    assert IsContinuation(0x80) by { Padding(); }
    UsedArguments(n, own[0], x1, x2, x3, f1, f2, f3);
    UsedArguments(n, own[0], ByteAt(own, 1), ByteAt(own, 2), ByteAt(own, 3), g1, g2, g3);
    if Decode(n, own[0], f1, f2, f3) == c {
      SameContinuations(n, own[0], f1, f2, f3, g1, g2, g3);
    }
    if forall i :: 1 <= i < n ==> own[order.Turn(n, i)] == own[i] {
      UsedArguments(n, own[0], f1, f2, f3, g1, g2, g3);
    }
  }

  lemma Padding()
    ensures IsContinuation(0x80)
  {
  }

  /** From right to left, the first and the last continuation byte change places. */
  lemma RightToLeft(c: CodePoint, rest: Bytes)
    ensures ReadCharInOrder(RIGHT_TO_LEFT, Encode(c) + rest) == Ok(c, rest)
       <==> Length(c) <= 2 || Encode(c)[1] == Encode(c)[Length(c) - 1]
  {
    hide Encode;
    var n := Length(c);
    ReadInOrder(RIGHT_TO_LEFT, c, rest);
    assert forall i :: 1 <= i < n ==> RIGHT_TO_LEFT.Turn(n, i) == n - i;
  }

  /** A character survives whatever the order if and only if its continuation bytes are all the same. */
  lemma AnyOrder(c: CodePoint, rest: Bytes)
    ensures (forall order: Order :: order.Strict() ==> ReadCharInOrder(order, Encode(c) + rest) == Ok(c, rest))
       <==> forall i :: 1 <= i < Length(c) ==> Encode(c)[i] == Encode(c)[1]
  {
    hide Encode, ReadCharInOrder;
    var n, own := Length(c), Encode(c);
    if forall i :: 1 <= i < n ==> own[i] == own[1] {
      forall order: Order | order.Strict()
        ensures ReadCharInOrder(order, own + rest) == Ok(c, rest)
      {
        ReadInOrder(order, c, rest);
        forall i | 1 <= i < n ensures own[order.Turn(n, i)] == own[i] { TurnInRange(order, n, i); }
      }
    } else {
      var swapped := Order(2, 1, 3);
      ReadInOrder(RIGHT_TO_LEFT, c, rest);
      ReadInOrder(swapped, c, rest);
      assert forall i :: 1 <= i < n ==> RIGHT_TO_LEFT.Turn(n, i) == n - i;
      assert n > 2 ==> swapped.Turn(n, 1) == 2;
      assert swapped.Strict() && RIGHT_TO_LEFT.Strict();
      assert n > 2 && (own[swapped.Turn(n, 1)] != own[1] || own[RIGHT_TO_LEFT.Turn(n, 1)] != own[1]);
    }
  }

  /** The euro sign, written E2 82 AC, is read as U+2B02 from right to left. */
  lemma EuroSign()
    ensures Encode(0x20AC) == [0xE2, 0x82, 0xAC]
    ensures ReadCharInOrder(RIGHT_TO_LEFT, Encode(0x20AC)) == Ok(0x2B02, [])
  {
  }
}
