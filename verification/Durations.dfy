/**
  `VDuration` and its text form.  A duration is a signed 64-bit count of
  milliseconds of which three values are special.
 */
module Durations {
  import opened Wrappers
  import opened CStrings
  import opened Decimal

  const UNSPECIFIED := 0x7FFF_FFFF_FFFF_FFFF
  const POSITIVE_INFINITY := 0x7FFF_FFFF_FFFF_FFFE
  const NEGATIVE_INFINITY := -0x8000_0000_0000_0000

  const SECOND := 1000
  const MINUTE := 60_000
  const HOUR := 3_600_000
  const DAY := 86_400_000

  predicate IsSpecial(d: int) { d == UNSPECIFIED || d == POSITIVE_INFINITY || d == NEGATIVE_INFINITY }

  /** The largest unit that divides `d`; milliseconds for counts below one second. */
  function Unit(d: int): int
  {
    if 0 <= d < SECOND then 1
    else if d % DAY == 0 then DAY
    else if d % HOUR == 0 then HOUR
    else if d % MINUTE == 0 then MINUTE
    else if d % SECOND == 0 then SECOND
    else 1
  }

  function UnitSuffix(unit: int): string
  {
    if unit == DAY then "d"
    else if unit == HOUR then "h"
    else if unit == MINUTE then "m"
    else if unit == SECOND then "s"
    else "ms"
  }

  /** `getDurationString`: the count of every unit above the millisecond is cast to an int. */
  function DurationString(d: int): string
  {
    if 0 <= d < SECOND then Print(d) + "ms"
    else if d == UNSPECIFIED then "UNSPECIFIED"
    else if d == POSITIVE_INFINITY then "INFINITY"
    else if d == NEGATIVE_INFINITY then "-INFINITY"
    else if d % DAY == 0 then Print(ToS32(d / DAY)) + "d"
    else if d % HOUR == 0 then Print(ToS32(d / HOUR)) + "h"
    else if d % MINUTE == 0 then Print(ToS32(d / MINUTE)) + "m"
    else if d % SECOND == 0 then Print(ToS32(d / SECOND)) + "s"
    else Print(d) + "ms"
  }

  predicate EqualsIgnoreCase(s: string, t: string)
  {
    |s| == |t| && forall i :: 0 <= i < |s| ==> Lower(s[i]) == Lower(t[i])
  }

  /** Equality but for the case of ASCII letters. */
  lemma IgnoreCaseExactly(s: string, t: string)
    ensures EqualsIgnoreCase(s, t)
       <==> |s| == |t| && forall i :: 0 <= i < |s| ==>
                            || s[i] == t[i]
                            || ('A' <= s[i] <= 'Z' && t[i] as int == s[i] as int + 0x20)
                            || ('a' <= s[i] <= 'z' && t[i] as int == s[i] as int - 0x20)
  {
  }

  predicate EndsWith(s: string, c: char) { s != [] && s[|s| - 1] == c }

  /** The outcome of reading a duration; the fallback to a floating-point count of seconds is not modelled. */
  datatype Reading = Milliseconds(ms: int) | OutOfRange | FloatingSeconds

  function Scaled(s: string, suffixLength: nat, unit: int): Reading
    requires suffixLength <= |s|
  {
    match ParseSigned(s[..|s| - suffixLength])
    case None => OutOfRange
    case Some(n) => Milliseconds(ToS64(unit * n))
  }

  function ReadDuration(s: string): Reading
  {
    if |s| >= 2 && s[|s| - 2] == 'm' && s[|s| - 1] == 's' then Scaled(s, 2, 1)
    else if EndsWith(s, 's') then Scaled(s, 1, SECOND)
    else if EndsWith(s, 'm') then Scaled(s, 1, MINUTE)
    else if EndsWith(s, 'h') then Scaled(s, 1, HOUR)
    else if EqualsIgnoreCase(CStr(s), "UNSPECIFIED") then Milliseconds(UNSPECIFIED)
    else if EqualsIgnoreCase(CStr(s), "INFINITY") then Milliseconds(POSITIVE_INFINITY)
    else if EqualsIgnoreCase(CStr(s), "-INFINITY") then Milliseconds(NEGATIVE_INFINITY)
    else if EndsWith(s, 'd') then Scaled(s, 1, DAY)
    else FloatingSeconds
  }

  /** The text is the upper-case word, or the word with some of its letters in lower case. */
  predicate Spelled(s: string, word: string)
  {
    |s| == |word| && forall i :: 0 <= i < |s| ==>
                       s[i] == word[i] || ('A' <= word[i] <= 'Z' && s[i] as int == word[i] as int + 0x20)
  }

  /** The special values are read from their names, in letters of either case. */
  lemma SpecialNames(s: string)
    ensures Spelled(s, "UNSPECIFIED") ==> ReadDuration(s) == Milliseconds(0x7FFF_FFFF_FFFF_FFFF)
    ensures Spelled(s, "INFINITY") ==> ReadDuration(s) == Milliseconds(0x7FFF_FFFF_FFFF_FFFE)
    ensures Spelled(s, "-INFINITY") ==> ReadDuration(s) == Milliseconds(-0x8000_0000_0000_0000)
  {
    hide Scaled;
    if Spelled(s, "UNSPECIFIED") {
      SpelledIsEqual(s, "UNSPECIFIED");
    } else if Spelled(s, "INFINITY") {
      SpelledIsEqual(s, "INFINITY");
    } else if Spelled(s, "-INFINITY") {
      SpelledIsEqual(s, "-INFINITY");
    }
  }

  lemma SpelledIsEqual(s: string, word: string)
    requires Spelled(s, word) && forall i :: 0 <= i < |word| ==> 'A' <= word[i] <= 'Z' || word[i] == '-'
    ensures CStr(s) == s && EqualsIgnoreCase(s, word)
  {
    assert NulFree(s);
  }

  /** What is read in front of a suffix, times the unit; the product wraps to 64 bits. */
  function Times(s: string, unit: int): Reading
  {
    match ParseSigned(s) case None => OutOfRange case Some(n) => Milliseconds(ToS64(unit * n))
  }

  /** The units of the suffixes, in milliseconds. */
  lemma SuffixUnits(s: string)
    ensures ReadDuration(s + "ms") == Times(s, 1)
    ensures s == "" || s[|s| - 1] != 'm' ==> ReadDuration(s + "s") == Times(s, 1000)
    ensures ReadDuration(s + "m") == Times(s, 60_000)
    ensures ReadDuration(s + "h") == Times(s, 3_600_000)
    ensures AllDigits(s) ==> ReadDuration(s + "d") == Times(s, 86_400_000)
  {
    hide ReadDuration;
    MillisecondSuffix(s);
    LetterSuffix(s, 's');
    LetterSuffix(s, 'm');
    LetterSuffix(s, 'h');
    if AllDigits(s) {
      DaySuffix(s);
    }
  }

  lemma MillisecondSuffix(s: string)
    ensures ReadDuration(s + "ms") == Times(s, 1)
  {
    hide ParseSigned, ToS64, CStr, EqualsIgnoreCase;
    assert (s + "ms")[..|s|] == s;
  }

  lemma LetterSuffix(s: string, c: char)
    requires c == 's' || c == 'm' || c == 'h'
    ensures c != 's' || s == "" || s[|s| - 1] != 'm' ==>
              ReadDuration(s + [c]) == Times(s, if c == 's' then 1000 else if c == 'm' then 60_000 else 3_600_000)
  {
    hide ParseSigned, ToS64, CStr, EqualsIgnoreCase;
    var t := s + [c];
    assert t[..|s|] == s && t[|s|] == c;
  }

  lemma DaySuffix(s: string)
    requires AllDigits(s)
    ensures ReadDuration(s + "d") == Times(s, 86_400_000)
  {
    hide ParseSigned, ToS64, CStr, EqualsIgnoreCase, AllDigits;
    var t := s + "d";
    DigitsAreNoName(s);
    assert t[..|s|] == s && t[|s|] == 'd';
  }

  lemma DigitsAreNoName(s: string)
    requires AllDigits(s)
    ensures CStr(s + "d") == s + "d"
    ensures !EqualsIgnoreCase(s + "d", "UNSPECIFIED") && !EqualsIgnoreCase(s + "d", "INFINITY")
    ensures !EqualsIgnoreCase(s + "d", "-INFINITY")
  {
    assert NulFree(s + "d");
    assert s != "" ==> IsDigit((s + "d")[0]);
    if s != "" {
      assert Lower((s + "d")[0]) == s[0];
    }
  }

  class VDuration {
    var milliseconds: int

    constructor (ms: int)
      ensures milliseconds == ms
    {
      milliseconds := ms;
    }

    /** Assigns the duration that `s` denotes; leaves it alone where the source throws. */
    method SetDurationString(s: string) returns (outcome: Reading)
      modifies this
      ensures outcome == ReadDuration(s)
      ensures milliseconds == if outcome.Milliseconds? then outcome.ms else old(milliseconds)
    {
      var value: Option<int>;
      outcome := FloatingSeconds;
      if |s| >= 2 && s[|s| - 2] == 'm' && s[|s| - 1] == 's' {
        value := ParseSignedInteger(s[..|s| - 2]);
        outcome := if value == None then OutOfRange else Milliseconds(ToS64(value.value));
      } else if EndsWith(s, 's') {
        value := ParseSignedInteger(s[..|s| - 1]);
        outcome := if value == None then OutOfRange else Milliseconds(ToS64(SECOND * value.value));
      } else if EndsWith(s, 'm') {
        value := ParseSignedInteger(s[..|s| - 1]);
        outcome := if value == None then OutOfRange else Milliseconds(ToS64(MINUTE * value.value));
      } else if EndsWith(s, 'h') {
        value := ParseSignedInteger(s[..|s| - 1]);
        outcome := if value == None then OutOfRange else Milliseconds(ToS64(HOUR * value.value));
      } else if EqualsIgnoreCase(CStr(s), "UNSPECIFIED") {
        outcome := Milliseconds(UNSPECIFIED);
      } else if EqualsIgnoreCase(CStr(s), "INFINITY") {
        outcome := Milliseconds(POSITIVE_INFINITY);
      } else if EqualsIgnoreCase(CStr(s), "-INFINITY") {
        outcome := Milliseconds(NEGATIVE_INFINITY);
      } else if EndsWith(s, 'd') {
        value := ParseSignedInteger(s[..|s| - 1]);
        outcome := if value == None then OutOfRange else Milliseconds(ToS64(DAY * value.value));
      }
      if outcome.Milliseconds? {
        milliseconds := outcome.ms;
      }
    }
  }

  /** Reading a printed count with its unit gives the count times the unit. */
  lemma ReadCount(n: int, unit: int)
    requires -TWO_63 <= n < TWO_63 && unit in {1, SECOND, MINUTE, HOUR, DAY}
    ensures ReadDuration(Print(n) + UnitSuffix(unit)) == Milliseconds(ToS64(unit * n))
  {
    hide Print, ParseSigned, ToS64;
    var p := Print(n);
    var s := p + UnitSuffix(unit);
    PrintShape(n);
    ParseSignedPrint(n);
    assert s[..|p|] == p;
    assert s[|p| - 1] == p[|p| - 1] && IsDigit(p[|p| - 1]);
    assert NulFree(s);
    if unit == DAY {
      assert !EqualsIgnoreCase(s, "UNSPECIFIED") by { assert Lower(s[|p| - 1]) == s[|p| - 1]; }
      assert !EqualsIgnoreCase(s, "INFINITY") && !EqualsIgnoreCase(s, "-INFINITY");
    }
  }

  /** The chosen unit's count survives the cast to int. */
  predicate UnitCountFits(d: int)
  {
    Unit(d) == 1 || -TWO_31 <= d / Unit(d) < TWO_31
  }

  /** Reading what was printed gives the duration back if and only if it is special or its unit count fits an int. */
  lemma DurationRoundTrip(d: int)
    requires -TWO_63 <= d < TWO_63
    ensures ReadDuration(DurationString(d)) == Milliseconds(d) <==> IsSpecial(d) || UnitCountFits(d)
  {
    hide ToS32, ToS64, ParseSigned, Print, CStr;
    if IsSpecial(d) {
      assert NulFree(DurationString(d));
    } else {
      var u := Unit(d);
      UnitDivides(d);
      var n := if u == 1 then d else ToS32(d / u);
      ReadCount(n, u);
      S64Product(u, n);
    }
  }

  /** A duration of 2^31 minutes is printed with a negative count, and read back as its negation. */
  lemma MinutesTooMany()
    ensures var d := 0x8000_0000 * MINUTE;
            DurationString(d) == Print(-0x8000_0000) + "m" && ReadDuration(DurationString(d)) == Milliseconds(-d)
  {
    hide Print, ParseSigned, ReadDuration;
    ReadCount(-0x8000_0000, MINUTE);
  }

  lemma UnitDivides(d: int)
    requires !IsSpecial(d)
    ensures Unit(d) in {1, SECOND, MINUTE, HOUR, DAY} && d == Unit(d) * (d / Unit(d))
    ensures DurationString(d) == Print(if Unit(d) == 1 then d else ToS32(d / Unit(d))) + UnitSuffix(Unit(d))
  {
  }

  /** An int count of any unit stays within 64 bits. */
  lemma S64Product(unit: int, n: int)
    requires unit in {1, SECOND, MINUTE, HOUR, DAY}
    requires if unit == 1 then -TWO_63 <= n < TWO_63 else -TWO_31 <= n < TWO_31
    ensures ToS64(unit * n) == unit * n
  {
  }

  lemma Divided(d: int)
    ensures d % 60_000 != 0 ==> d % 3_600_000 != 0 && d % 86_400_000 != 0
    ensures d % 3_600_000 != 0 ==> d % 86_400_000 != 0
    ensures d % 1000 != 0 ==> d % 60_000 != 0
  {
    if d % 3_600_000 == 0 { assert d == 60_000 * (60 * (d / 3_600_000)); }
    if d % 86_400_000 == 0 { assert d == 3_600_000 * (24 * (d / 86_400_000)) == 60_000 * (1440 * (d / 86_400_000)); }
    if d % 60_000 == 0 { assert d == 1000 * (60 * (d / 60_000)); }
  }

  /** What is printed: milliseconds below a second and where nothing larger divides, else the largest unit. */
  lemma Printed(d: int)
    requires -0x8000_0000_0000_0000 < d < 0x7FFF_FFFF_FFFF_FFFE
    ensures 0 <= d < 1000 || d % 1000 != 0 ==> DurationString(d) == Print(d) + "ms"
    ensures (d < 0 || d >= 1000) && d % 1000 == 0 && d % 60_000 != 0 ==>
              DurationString(d) == Print(ToS32(d / 1000)) + "s"
    ensures d != 0 && d % 60_000 == 0 && d % 3_600_000 != 0 ==>
              DurationString(d) == Print(ToS32(d / 60_000)) + "m"
    ensures d != 0 && d % 3_600_000 == 0 && d % 86_400_000 != 0 ==>
              DurationString(d) == Print(ToS32(d / 3_600_000)) + "h"
    ensures d != 0 && d % 86_400_000 == 0 ==> DurationString(d) == Print(ToS32(d / 86_400_000)) + "d"
  {
    hide Print, ToS32;
    Divided(d);
  }

  lemma NamesPrinted()
    ensures DurationString(0x7FFF_FFFF_FFFF_FFFF) == "UNSPECIFIED"
    ensures DurationString(0x7FFF_FFFF_FFFF_FFFE) == "INFINITY"
    ensures DurationString(-0x8000_0000_0000_0000) == "-INFINITY"
  {
  }
}
