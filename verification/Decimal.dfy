/**
  Decimal text of integers: printing with the `%d` family of formats, the
  right-to-left parsers behind `VString::parseS64` and `parseU64`, and the
  `%d` conversion of `sscanf`.  Machine arithmetic wraps at 64 bits.
 */
module Decimal {
  import opened Wrappers

  const TWO_31: int := 0x8000_0000
  const TWO_63: int := 0x8000_0000_0000_0000
  const TWO_64: int := 0x1_0000_0000_0000_0000

  /** The two's complement value of `n` in a signed 64-bit word. */
  function ToS64(n: int): (r: int)
    ensures -0x8000_0000_0000_0000 <= r < 0x8000_0000_0000_0000
    ensures -0x8000_0000_0000_0000 <= n < 0x8000_0000_0000_0000 ==> r == n
  {
    (n + 0x8000_0000_0000_0000) % 0x1_0000_0000_0000_0000 - 0x8000_0000_0000_0000
  }

  function ToU64(n: int): (r: int)
    ensures 0 <= n < 0x1_0000_0000_0000_0000 ==> r == n
  {
    n % 0x1_0000_0000_0000_0000
  }

  function ToS32(n: int): (r: int)
    ensures -0x8000_0000 <= r < 0x8000_0000
    ensures -0x8000_0000 <= n < 0x8000_0000 ==> r == n
  {
    (n + 0x8000_0000) % 0x1_0000_0000 - 0x8000_0000
  }

  /** Values that differ by a multiple of the word size have the same representation. */
  lemma SameWord(x: int, y: int, k: int)
    requires x == y + k * 0x1_0000_0000_0000_0000
    ensures ToU64(x) == ToU64(y) && ToS64(x) == ToS64(y)
  {
  }

  /** A representation differs from its value by a multiple of the word size. */
  lemma WordOffset(x: int) returns (k: int, l: int)
    ensures ToS64(x) == x + k * 0x1_0000_0000_0000_0000
    ensures ToU64(x) == x + l * 0x1_0000_0000_0000_0000
  {
    k := -((x + 0x8000_0000_0000_0000) / 0x1_0000_0000_0000_0000);
    l := -(x / 0x1_0000_0000_0000_0000);
  }

  /** One step of a wrapping accumulation equals the wrapped exact sum. */
  lemma WrapStep(a: int, b: int, d: int)
    ensures ToS64(ToS64(a) + ToS64(ToS64(b) * d)) == ToS64(a + b * d)
    ensures ToU64(ToU64(a) + ToS64(ToS64(b) * d)) == ToU64(a + b * d)
    ensures ToS64(ToS64(b) * d) == ToS64(b * d)
  {
    var ka, la := WordOffset(a);
    var kb, _ := WordOffset(b);
    var kp, _ := WordOffset(ToS64(b) * d);
    ProductOffset(b, kb, d);
    SameWord(ToS64(b) * d, b * d, kb * d);
    SameWord(ToS64(a) + ToS64(ToS64(b) * d), a + b * d, ka + kp + kb * d);
    SameWord(ToU64(a) + ToS64(ToS64(b) * d), a + b * d, la + kp + kb * d);
  }

  lemma ProductOffset(b: int, k: int, d: int)
    ensures (b + k * 0x1_0000_0000_0000_0000) * d == b * d + (k * d) * 0x1_0000_0000_0000_0000
  {
  }

  // ----- Printing ---------------------------------------------------------

  function DigitChar(d: nat): char
    requires d < 10
  {
    '0' + d as char
  }

  predicate IsDigit(c: char) { '0' <= c <= '9' }

  function DigitValue(c: char): nat
    requires IsDigit(c)
  {
    c as int - '0' as int
  }

  predicate AllDigits(s: string) { forall i :: 0 <= i < |s| ==> IsDigit(s[i]) }

  function Digits(n: nat): (s: string)
    ensures s != [] && AllDigits(s)
  {
    if n < 10 then [DigitChar(n)] else Digits(n / 10) + [DigitChar(n % 10)]
  }

  /** What `%d`, `%u` and their wider forms print. */
  function Print(n: int): (s: string)
    ensures s != []
  {
    if n < 0 then "-" + Digits(-n) else Digits(n)
  }

  /** Printed numbers are made of digits, after an optional minus sign. */
  lemma PrintShape(n: int)
    ensures var s := Print(n); forall i :: 0 <= i < |s| ==> IsDigit(s[i]) || (i == 0 < |s| - 1 && s[i] == '-')
  {
  }

  // ----- The number a digit string denotes --------------------------------

  function Pow10(k: nat): nat { if k == 0 then 1 else 10 * Pow10(k - 1) }

  function Value(s: string): nat
    requires AllDigits(s)
  {
    if s == [] then 0 else 10 * Value(s[..|s| - 1]) + DigitValue(s[|s| - 1])
  }

  lemma {:induction false} ValueOfDigits(n: nat)
    ensures Value(Digits(n)) == n
  {
    if n >= 10 {
      ValueOfDigits(n / 10);
      assert Digits(n)[..|Digits(n)| - 1] == Digits(n / 10);
    }
  }

  /** Reading one more digit on the left adds it at the weight of its place. */
  lemma {:induction false} ValuePrepend(c: char, s: string)
    requires IsDigit(c) && AllDigits(s)
    ensures AllDigits([c] + s)
    ensures Value([c] + s) == Value(s) + Pow10(|s|) * DigitValue(c)
  {
    if s == [] {
      assert ([c] + s)[..0] == [];
    } else {
      var t := s[..|s| - 1];
      ValuePrepend(c, t);
      assert ([c] + s)[..|s|] == [c] + t;
      assert ([c] + s)[|s|] == s[|s| - 1];
    }
  }

  // ----- Parsing ----------------------------------------------------------

  /** What `parseS64` returns, or None where it throws a VRangeException. */
  function ParseSigned(s: string): Option<int>
  {
    if s == [] then Some(0)
    else if s[0] == '-' && AllDigits(s[1..]) then Some(ToS64(-ToS64(Value(s[1..]))))
    else if s[0] == '+' && AllDigits(s[1..]) then Some(ToS64(Value(s[1..])))
    else if AllDigits(s) then Some(ToS64(Value(s)))
    else None
  }

  /** What `parseU64` returns, or None where it throws a VRangeException. */
  function ParseUnsigned(s: string): Option<int>
  {
    if s == [] then Some(0)
    else if s[0] == '+' && AllDigits(s[1..]) then Some(ToU64(Value(s[1..])))
    else if AllDigits(s) then Some(ToU64(Value(s)))
    else None
  }

  /** One more digit, taken from the right, keeps the accumulators in step with the suffix read. */
  lemma DigitStep(s: string, i: nat)
    requires i < |s| && IsDigit(s[i]) && AllDigits(s[i + 1..])
    ensures AllDigits(s[i..])
    ensures var v, p, d := Value(s[i + 1..]), Pow10(|s| - 1 - i), DigitValue(s[i]);
            && ToS64(ToS64(v) + ToS64(ToS64(p) * d)) == ToS64(Value(s[i..]))
            && ToU64(ToU64(v) + ToS64(ToS64(p) * d)) == ToU64(Value(s[i..]))
            && ToS64(ToS64(p) * 10) == ToS64(Pow10(|s| - i))
  {
    assert s[i..] == [s[i]] + s[i + 1..];
    ValuePrepend(s[i], s[i + 1..]);
    Accumulate(Value(s[i + 1..]), Pow10(|s| - 1 - i), DigitValue(s[i]), Value(s[i..]), Pow10(|s| - i));
  }

  lemma Accumulate(v: int, p: int, d: int, v': int, p': int)
    requires v' == v + p * d && p' == 10 * p
    ensures ToS64(ToS64(v) + ToS64(ToS64(p) * d)) == ToS64(v')
    ensures ToU64(ToU64(v) + ToS64(ToS64(p) * d)) == ToU64(v')
    ensures ToS64(ToS64(p) * 10) == ToS64(p')
  {
    WrapStep(v, p, d);
    WrapStep(v, p, 10);
  }

  lemma NotANumber(s: string, i: nat)
    requires i < |s| && !IsDigit(s[i])
    requires i == 0 ==> s[0] != '+'
    ensures ParseUnsigned(s) == None
    ensures (i == 0 ==> s[0] != '-') ==> ParseSigned(s) == None
  {
    assert s[i] in s && (i > 0 ==> s[i] == s[1..][i - 1]);
  }

  /** Before the loop nothing is read and the next digit has weight one. */
  lemma NothingRead(s: string)
    ensures Value(s[|s|..]) == 0 && Pow10(0) == 1
    ensures ToS64(0) == 0 && ToU64(0) == 0 && ToS64(1) == 1
  {
  }

  /** The exits of the loop that return a number. */
  lemma Finished(s: string)
    ensures AllDigits(s) ==> ParseSigned(s) == Some(ToS64(Value(s))) && ParseUnsigned(s) == Some(ToU64(Value(s)))
    ensures s != [] && s[0] == '-' && AllDigits(s[1..]) ==> ParseSigned(s) == Some(ToS64(-ToS64(Value(s[1..]))))
    ensures s != [] && s[0] == '+' && AllDigits(s[1..]) ==> ParseSigned(s) == Some(ToS64(Value(s[1..])))
    ensures s != [] && s[0] == '+' && AllDigits(s[1..]) ==> ParseUnsigned(s) == Some(ToU64(Value(s[1..])))
  {
    hide ToS64, ToU64;
    assert s == [] ==> Value(s) == 0;
  }

  method ParseSignedInteger(s: string) returns (r: Option<int>)
    ensures r == ParseSigned(s)
  {
    hide ToS64, ToU64, Value, Pow10, ParseSigned, ParseUnsigned;
    NothingRead(s);
    Finished(s);
    var result, multiplier := 0, 1;
    var i := |s| - 1;
    while i >= 0
      invariant -1 <= i < |s|
      invariant AllDigits(s[i + 1..])
      invariant result == ToS64(Value(s[i + 1..]))
      invariant multiplier == ToS64(Pow10(|s| - 1 - i))
    {
      var c := s[i];
      if c == '-' {
        if i != 0 {
          NotANumber(s, i);
          return None;
        }
        return Some(ToS64(-result));
      } else if c == '+' {
        if i != 0 {
          NotANumber(s, i);
          return None;
        }
        return Some(result);
      } else if IsDigit(c) {
        DigitStep(s, i);
        result := ToS64(result + ToS64(multiplier * DigitValue(c)));
      } else {
        NotANumber(s, i);
        return None;
      }
      multiplier := ToS64(multiplier * 10);
      i := i - 1;
    }
    assert s[0..] == s;
    return Some(result);
  }

  method ParseUnsignedInteger(s: string) returns (r: Option<int>)
    ensures r == ParseUnsigned(s)
  {
    hide ToS64, ToU64, Value, Pow10, ParseSigned, ParseUnsigned;
    NothingRead(s);
    Finished(s);
    var result, multiplier := 0, 1;
    var i := |s| - 1;
    while i >= 0
      invariant -1 <= i < |s|
      invariant AllDigits(s[i + 1..])
      invariant result == ToU64(Value(s[i + 1..]))
      invariant multiplier == ToS64(Pow10(|s| - 1 - i))
    {
      var c := s[i];
      if c == '+' {
        if i != 0 {
          NotANumber(s, i);
          return None;
        }
        return Some(result);
      } else if IsDigit(c) {
        DigitStep(s, i);
        result := ToU64(result + ToS64(multiplier * DigitValue(c)));
      } else {
        NotANumber(s, i);
        return None;
      }
      multiplier := ToS64(multiplier * 10);
      i := i - 1;
    }
    assert s[0..] == s;
    return Some(result);
  }

  /** Printing and parsing are inverse on the whole range of each 64-bit type. */
  lemma ParseSignedPrint(n: int)
    ensures -TWO_63 <= n < TWO_63 ==> ParseSigned(Print(n)) == Some(n)
    ensures 0 <= n < TWO_64 ==> ParseUnsigned(Print(n)) == Some(n)
  {
    hide ToS64, ToU64, Value, Digits;
    var m := if n < 0 then -n else n;
    ValueOfDigits(m);
    if -TWO_63 <= n < 0 {
      assert Print(n)[1..] == Digits(m);
      NegateWord(m);
    } else if n >= 0 {
      assert Digits(m)[0] != '-' && Digits(m)[0] != '+';
    }
  }

  lemma NegateWord(m: int)
    requires 0 <= m <= TWO_63
    ensures ToS64(-ToS64(m)) == -m
  {
  }

  // ----- What the loops compute stays in a word -----------------------------

  lemma NotNegative(a: nat, b: nat)
    ensures a * b >= 0
  {
  }

  lemma {:induction false} SuffixSmaller(s: string, i: nat)
    requires i <= |s| && AllDigits(s)
    ensures Value(s[i..]) <= Value(s)
  {
    hide Value, Pow10;
    if i == 0 {
      assert s[0..] == s;
    } else {
      var t := s[1..];
      assert s == [s[0]] + t && t[i - 1..] == s[i..];
      ValuePrepend(s[0], t);
      NotNegative(Pow10(|t|), DigitValue(s[0]));
      SuffixSmaller(t, i - 1);
    }
  }

  /** No partial sum exceeds the final magnitude, and none of its digits' shares does. */
  lemma PartialSums(s: string, i: nat)
    requires i < |s| && AllDigits(s)
    ensures AllDigits(s[i..])
    ensures Pow10(|s| - 1 - i) * DigitValue(s[i]) <= Value(s[i..]) <= Value(s)
  {
    hide Value, Pow10;
    assert s[i..] == [s[i]] + s[i + 1..];
    ValuePrepend(s[i], s[i + 1..]);
    SuffixSmaller(s, i);
  }

  /** The partial sums fit a signed word exactly if the final magnitude does. */
  lemma SumsFit(s: string)
    requires AllDigits(s)
    ensures (forall i: nat :: i <= |s| ==> Value(s[i..]) < TWO_63) <==> Value(s) < TWO_63
  {
    forall i: nat | i <= |s|
      ensures Value(s[i..]) <= Value(s)
    {
      SuffixSmaller(s, i);
    }
    assert s[0..] == s;
  }

  lemma {:induction false} Pow10Grows(j: nat, k: nat)
    requires j <= k
    ensures 0 < Pow10(j) <= Pow10(k)
  {
    if j < k {
      Pow10Grows(j, k - 1);
    } else if j > 0 {
      Pow10Grows(j - 1, j - 1);
    }
  }

  /** The first digit, if it is not zero, and the number of digits bound the value. */
  lemma {:induction false} ValueBounds(s: string)
    requires s != [] && AllDigits(s)
    ensures Value(s) < Pow10(|s|)
    ensures s[0] != '0' ==> Pow10(|s| - 1) <= Value(s)
  {
    var front := s[..|s| - 1];
    if front == [] {
      assert Value(front) == 0 && Pow10(0) == 1;
    } else {
      ValueBounds(front);
    }
  }

  lemma PowersOfTen()
    ensures Pow10(18) == 1_000_000_000_000_000_000 && Pow10(19) == 10_000_000_000_000_000_000
  {
    assert Pow10(6) == 1_000_000;
    assert Pow10(12) == 1_000_000_000_000;
  }

  /**
    The multipliers that the loops use for a number without leading zeros fit
    a signed word exactly below 10^19, which takes in all magnitudes below
    2^63; the multiplier computed after the last digit is not used.
   */
  lemma MultipliersFit(s: string)
    requires s != [] && AllDigits(s) && s[0] != '0'
    ensures (forall k: nat :: k < |s| ==> Pow10(k) < TWO_63) <==> Value(s) < 10_000_000_000_000_000_000
  {
    hide Value, Pow10;
    PowersOfTen();
    ValueBounds(s);
    if |s| <= 19 {
      Pow10Grows(|s|, 19);
      forall k: nat | k < |s|
        ensures Pow10(k) < TWO_63
      {
        Pow10Grows(k, 18);
      }
    } else {
      Pow10Grows(19, |s| - 1);
    }
  }

  // ----- The %d conversion of sscanf --------------------------------------

  predicate IsSpace(c: char) { c == ' ' || 9 <= c as int <= 13 }

  function SkipSpaces(s: string): string
  {
    if s != [] && IsSpace(s[0]) then SkipSpaces(s[1..]) else s
  }

  /** The longest prefix made of digits. */
  function DigitRun(s: string): (d: string)
    ensures d <= s && AllDigits(d)
    ensures |d| < |s| ==> !IsDigit(s[|d|])
  {
    if s != [] && IsDigit(s[0]) then [s[0]] + DigitRun(s[1..]) else []
  }

  /** The integer at the front of `s` and what follows it, or None where `sscanf` assigns nothing. */
  function ScanInt(s: string): Option<(int, string)>
  {
    var t := SkipSpaces(s);
    if t != [] && t[0] == '-' then ScanMagnitude(t[1..], -1)
    else if t != [] && t[0] == '+' then ScanMagnitude(t[1..], 1)
    else ScanMagnitude(t, 1)
  }

  function ScanMagnitude(s: string, sign: int): Option<(int, string)>
  {
    var d := DigitRun(s);
    if d == [] then None else Some((sign * Value(d), s[|d|..]))
  }

  lemma {:induction false} DigitRunPrefix(d: string, rest: string)
    requires AllDigits(d) && (rest == [] || !IsDigit(rest[0]))
    ensures DigitRun(d + rest) == d
  {
    if d == [] {
      assert d + rest == rest;
    } else {
      assert d[0] in d && (d + rest)[1..] == d[1..] + rest;
      DigitRunPrefix(d[1..], rest);
    }
  }

  /** `%d` reads back what `%d` printed, up to the first character that is no digit. */
  lemma ScanPrint(n: int, rest: string)
    requires rest == [] || !IsDigit(rest[0])
    ensures ScanInt(Print(n) + rest) == Some((n, rest))
  {
    hide ScanMagnitude;
    var t := Print(n) + rest;
    PrintShape(n);
    assert t[0] == Print(n)[0];
    assert SkipSpaces(t) == t;
    if n < 0 {
      assert t[1..] == Digits(-n) + rest;
      ScanDigits(-n, -1, rest);
    } else {
      assert t[0] == Digits(n)[0] && t[0] != '-' && t[0] != '+';
      ScanDigits(n, 1, rest);
    }
  }

  lemma ScanDigits(n: nat, sign: int, rest: string)
    requires rest == [] || !IsDigit(rest[0])
    ensures ScanMagnitude(Digits(n) + rest, sign) == Some((sign * n, rest))
  {
    DigitRunPrefix(Digits(n), rest);
    ValueOfDigits(n);
    assert (Digits(n) + rest)[|Digits(n)|..] == rest;
  }

  // ----- Machine words and printed numbers --------------------------------

  /** Each conversion yields the one value of its word that differs by a multiple of the word's size. */
  lemma WordsExactly(n: int, k: int)
    ensures -0x8000_0000 <= n < 0x8000_0000 ==> ToS32(n + k * 0x1_0000_0000) == n
    ensures -0x8000_0000_0000_0000 <= n < 0x8000_0000_0000_0000 ==> ToS64(n + k * 0x1_0000_0000_0000_0000) == n
    ensures 0 <= n < 0x1_0000_0000_0000_0000 ==> ToU64(n + k * 0x1_0000_0000_0000_0000) == n
  {
    Word32(n, k);
    Word64(n + 0x8000_0000_0000_0000, k);
    Word64(n, k);
  }

  lemma Word32(n: int, k: int)
    ensures (n + 0x8000_0000 + k * 0x1_0000_0000) % 0x1_0000_0000 == (n + 0x8000_0000) % 0x1_0000_0000
  {
  }

  lemma Word64(n: int, k: int)
    ensures (n + k * 0x1_0000_0000_0000_0000) % 0x1_0000_0000_0000_0000 == n % 0x1_0000_0000_0000_0000
  {
  }

  /** The bounds of 32- and 64-bit numbers. */
  lemma Bounds(n: int)
    ensures -TWO_31 <= n < TWO_31 <==> ToS32(n) == n
    ensures -TWO_63 <= n < TWO_63 <==> ToS64(n) == n
    ensures 0 <= n < TWO_64 <==> ToU64(n) == n
  {
  }

  /** The decimal form of a number is the only one without a needless zero in front. */
  lemma {:induction false} DigitsExactly(s: string, n: nat)
    ensures s == Digits(n) <==> Magnitude(s, n) && (|s| > 1 ==> s[0] != '0')
  {
    if s != "" {
      var front, last := s[..|s| - 1], s[|s| - 1];
      assert s == front + [last];
      if front != "" && n >= 10 {
        DigitsExactly(front, n / 10);
        assert front[0] == s[0];
      } else if front != "" && Magnitude(s, n) {
        NoneBelowTen(front, n);
      }
      if s == Digits(n) && n >= 10 {
        assert front == Digits(n / 10) && last == DigitChar(n % 10);
        DigitsExactly(front, n / 10);
      }
    }
  }

  lemma {:induction false} NoneBelowTen(front: string, n: nat)
    requires front != "" && n < 10 && Magnitude(front, n / 10)
    ensures front[0] == '0'
  {
    if |front| > 1 {
      NoneBelowTen(front[..|front| - 1], 0);
    }
  }

  /** What is printed: the decimal form, with a minus sign for numbers below zero. */
  lemma PrintExactly(s: string, n: int)
    ensures n >= 0 ==> (s == Print(n) <==> Magnitude(s, n) && (|s| > 1 ==> s[0] != '0'))
    ensures n < 0 ==> (s == Print(n) <==> s != "" && s[0] == '-' && Magnitude(s[1..], -n) && s[1] != '0')
  {
    hide Magnitude, Digits;
    if n >= 0 {
      DigitsExactly(s, n);
    } else if s != "" {
      DigitsExactly(s[1..], -n);
      assert s == [s[0]] + s[1..];
      if |s| == 2 && Magnitude(s[1..], -n) {
        ZeroIsZero(s[1..], -n);
      }
    }
    NoMagnitude(-n);
  }

  lemma ZeroIsZero(s: string, n: int)
    requires n > 0 && Magnitude(s, n) && |s| == 1
    ensures s[0] != '0'
  {
  }

  // ----- Which texts %d takes ---------------------------------------------

  /** A number as `%d` takes it: white space, a sign or none, and at least one digit. */
  predicate IntToken(p: string, n: int)
  {
    p != "" &&
    if p[0] == ' ' || 9 <= p[0] as int <= 13 then IntToken(p[1..], n)
    else if p[0] == '-' then Magnitude(p[1..], -n)
    else if p[0] == '+' then Magnitude(p[1..], n)
    else Magnitude(p, n)
  }

  /** One or more decimal digits of the value `n`. */
  predicate Magnitude(p: string, n: int)
  {
    && p != "" && '0' <= p[|p| - 1] <= '9'
    && var d := p[|p| - 1] as int - '0' as int;
       if |p| == 1 then n == d else n % 10 == d && Magnitude(p[..|p| - 1], n / 10)
  }

  predicate NoDigitAhead(rest: string) { rest == "" || !('0' <= rest[0] <= '9') }

  lemma {:induction false} MagnitudeIsValue(p: string, n: int)
    ensures Magnitude(p, n) <==> p != "" && AllDigits(p) && Value(p) == n
  {
    if p != "" {
      var front := p[..|p| - 1];
      assert p == front + [p[|p| - 1]];
      if front == "" {
        assert Value(front) == 0;
      } else {
        MagnitudeIsValue(front, n / 10);
      }
    }
  }

  lemma MagnitudeExactly(s: string, n: int, rest: string)
    ensures (DigitRun(s) != "" && Value(DigitRun(s)) == n && s[|DigitRun(s)|..] == rest)
       <==> |rest| <= |s| && s[|s| - |rest|..] == rest && NoDigitAhead(rest) && Magnitude(s[..|s| - |rest|], n)
  {
    hide Value, Magnitude;
    var d := DigitRun(s);
    assert s[..|d|] == d;
    if |rest| <= |s| {
      var p := s[..|s| - |rest|];
      MagnitudeIsValue(p, n);
      if s[|s| - |rest|..] == rest && NoDigitAhead(rest) && AllDigits(p) {
        assert s == p + rest;
        DigitRunPrefix(p, rest);
      }
    }
  }

  /** The front of `s` that ends where `rest` begins. */
  function Before(s: string, rest: string): string
    requires |rest| <= |s|
  {
    s[..|s| - |rest|]
  }

  lemma SignedExactly(s: string, sign: int, n: int, rest: string)
    requires sign == 1 || sign == -1
    ensures ScanMagnitude(s, sign) == Some((n, rest))
       <==> |rest| <= |s| && s[|s| - |rest|..] == rest && NoDigitAhead(rest) && Magnitude(Before(s, rest), sign * n)
  {
    hide Value, Magnitude;
    MagnitudeExactly(s, sign * n, rest);
  }

  lemma NoMagnitude(n: int)
    ensures !Magnitude("", n)
  {
  }

  lemma {:induction false} ScanIntExactly(s: string, n: int, rest: string)
    ensures ScanInt(s) == Some((n, rest))
       <==> |rest| <= |s| && s[|s| - |rest|..] == rest && NoDigitAhead(rest) && IntToken(Before(s, rest), n)
  {
    hide ScanMagnitude, Magnitude;
    SignedExactly(s, 1, n, rest);
    NoMagnitude(n);
    if s != "" {
      if |rest| <= |s[1..]| {
        assert Before(s, rest) == [s[0]] + Before(s[1..], rest) && s[1..][|s[1..]| - |rest|..] == s[|s| - |rest|..];
      }
      if IsSpace(s[0]) {
        ScanIntExactly(s[1..], n, rest);
        assert SkipSpaces(s) == SkipSpaces(s[1..]);
      } else if s[0] == '-' {
        SignedExactly(s[1..], -1, n, rest);
      } else if s[0] == '+' {
        SignedExactly(s[1..], 1, n, rest);
      }
    }
  }
}
