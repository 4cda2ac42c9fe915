/**
  Reading the text of one Bento attribute value back: the loops over
  polygons, arrays and quoted string arrays, the `sscanf` formats, and
  `newObjectFromBentoTextValues`, which selects among them by the type.
 */
module BentoTextValues {
  import opened Wrappers
  import opened CStrings
  import opened Decimal
  import opened BentoModel
  import opened BentoEscape
  import opened BentoText
  import Durations

  /**
    Why no value results: the source throws; it goes on with a variable that
    `sscanf` left unassigned or with a null pointer; or the type is not
    modelled in text form.
   */
  datatype Fault = Malformed | Undefined | NotModelled

  // ----- Searching for one character --------------------------------------

  /** The index of the first `c`, or -1. */
  function Find(s: string, c: char): (i: int)
    ensures -1 <= i < |s| && (i >= 0 ==> s[i] == c)
  {
    if s == [] then -1
    else if s[0] == c then 0
    else
      var i := Find(s[1..], c);
      if i < 0 then -1 else i + 1
  }

  lemma FindIs(s: string, c: char, at: nat)
    requires at < |s| && s[at] == c && forall k :: 0 <= k < at ==> s[k] != c
    ensures Find(s, c) == at
  {
    if at > 0 {
      FindIs(s[1..], c, at - 1);
    }
  }

  lemma FindNone(s: string, c: char)
    requires forall k :: 0 <= k < |s| ==> s[k] != c
    ensures Find(s, c) == -1
  {
  }

  /** `VString::indexOf` for one character: nothing is found from a start outside the string. */
  method IndexOfChar(s: string, c: char, fromIndex: int) returns (index: int)
    ensures 0 <= fromIndex <= |s| ==> index == (var i := Find(s[fromIndex..], c); if i < 0 then -1 else fromIndex + i)
    ensures !(0 <= fromIndex < |s|) ==> index == -1
  {
    if 0 <= fromIndex < |s| {
      var i := fromIndex;
      while i < |s|
        invariant fromIndex <= i <= |s|
        invariant forall k :: fromIndex <= k < i ==> s[k] != c
      {
        if s[i] == c {
          FindIs(s[fromIndex..], c, i - fromIndex);
          return i;
        }
        i := i + 1;
      }
      FindNone(s[fromIndex..], c);
    }
    return -1;
  }

  // ----- Shapes, colours and polygons -------------------------------------

  predicate IsS32(n: int) { -TWO_31 <= n < TWO_31 }

  /** `sscanf` with one `%d` per coordinate and `separators` between them. */
  function ScanInts(s: string, separators: string): Option<seq<int>>
    decreases |separators|
  {
    match ScanInt(s)
    case None => None
    case Some((n, rest)) =>
      if separators == "" then Some([ToS32(n)])
      else if rest == "" || rest[0] != separators[0] then None
      else
        match ScanInts(rest[1..], separators[1..])
        case None => None
        case Some(ns) => Some([ToS32(n)] + ns)
  }

  lemma {:induction false} ScanFormat(ns: seq<int>, separators: string)
    requires |ns| == |separators| + 1
    requires forall i :: 0 <= i < |ns| ==> IsS32(ns[i])
    requires forall i :: 0 <= i < |separators| ==> !IsDigit(separators[i])
    ensures ScanInts(FormatInts(ns, separators), separators) == Some(ns)
  {
    hide Print, ScanInt;
    if separators == "" {
      ScanPrint(ns[0], "");
      assert Print(ns[0]) + "" == Print(ns[0]);
      assert [ns[0]] == ns;
    } else {
      var tail := FormatInts(ns[1..], separators[1..]);
      var rest := [separators[0]] + tail;
      ScanFormat(ns[1..], separators[1..]);
      ScanPrint(ns[0], rest);
      assert FormatInts(ns, separators) == Print(ns[0]) + rest;
      assert rest[1..] == tail;
      assert [ns[0]] + ns[1..] == ns;
    }
  }

  /** The points between successive pairs of parentheses; None once a pair of coordinates does not scan. */
  function ReadPoints(s: string): Option<seq<(int, int)>>
    decreases |s|
  {
    var open := Find(s, '(');
    if open < 0 then Some([])
    else
      var close := Find(s[open..], ')');
      if close < 0 then Some([])
      else
        match (ScanInts(s[open + 1..open + close], ","), ReadPoints(s[open + close..]))
        case (Some(xy), Some(points)) => if |xy| == 2 then Some([(xy[0], xy[1])] + points) else None
        case _ => None
  }

  /** The points read so far followed by those still in `rest`. */
  function AfterPoints(points: seq<(int, int)>, rest: string): Option<seq<(int, int)>>
  {
    match ReadPoints(rest)
    case None => None
    case Some(more) => Some(points + more)
  }

  /** The next pair of parentheses after `at` gives the next point. */
  lemma PointsNext(points: seq<(int, int)>, s: string, at: nat, open: nat, close: nat)
    requires at <= open < close < |s|
    requires Find(s[at..], '(') == open - at && Find(s[open..], ')') == close - open
    ensures var xy := ScanInts(s[open + 1..close], ",");
            AfterPoints(points, s[at..])
            == if xy == None || |xy.value| != 2 then None
               else AfterPoints(points + [(xy.value[0], xy.value[1])], s[close..])
  {
    hide ScanInts, Find;
    var t := s[at..];
    assert t[open - at..] == s[open..];
    assert t[open - at + 1..close - at] == s[open + 1..close] && t[close - at..] == s[close..];
    var xy := ScanInts(s[open + 1..close], ",");
    if xy != None && |xy.value| == 2 && ReadPoints(s[close..]) != None {
      var more := ReadPoints(s[close..]).value;
      var p := (xy.value[0], xy.value[1]);
      assert points + ([p] + more) == (points + [p]) + more;
    }
  }

  lemma PointsStart(s: string)
    ensures AfterPoints([], s) == ReadPoints(s)
  {
    hide ReadPoints;
    if ReadPoints(s).Some? {
      assert [] + ReadPoints(s).value == ReadPoints(s).value;
    }
  }

  /** Without another pair of parentheses there are no more points. */
  lemma PointsDone(points: seq<(int, int)>, rest: string)
    requires var open := Find(rest, '('); open < 0 || Find(rest[open..], ')') < 0
    ensures AfterPoints(points, rest) == Some(points)
  {
    hide Find;
    assert points + [] == points;
  }

  /** `readPolygonFromBentoTextString`; None where it goes on with unassigned coordinates. */
  method ReadPolygon(s: string) returns (result: Option<seq<(int, int)>>)
    ensures result == ReadPoints(s)
  {
    hide ScanInts, Find, ReadPoints, AfterPoints;
    var points := [];
    var open := IndexOfChar(s, '(', 0);
    var close := IndexOfChar(s, ')', open);
    ghost var at := 0;
    PointsStart(s);
    assert s[0..] == s;
    while open != -1 && close != -1
      invariant 0 <= at <= |s|
      invariant open == -1 <==> Find(s[at..], '(') < 0
      invariant open != -1 ==> open == at + Find(s[at..], '(')
      invariant open != -1 ==> at <= open < |s| && s[open] == '('
      invariant open != -1 ==> (close == -1 <==> Find(s[open..], ')') < 0)
      invariant open != -1 && close != -1 ==> close == open + Find(s[open..], ')') && open < close < |s|
      invariant ReadPoints(s) == AfterPoints(points, s[at..])
      decreases |s| - at
    {
      var xy := ScanInts(s[open + 1..close], ",");
      PointsNext(points, s, at, open, close);
      if xy == None || |xy.value| != 2 {
        return None;
      }
      points := points + [(xy.value[0], xy.value[1])];
      at := close;
      open := IndexOfChar(s, '(', close);
      close := IndexOfChar(s, ')', open);
    }
    assert open != -1 ==> s[at..][open - at..] == s[open..];
    PointsDone(points, s[at..]);
    return Some(points);
  }

  // ----- Comma-separated arrays -------------------------------------------

  /** The stretches between commas; there is always at least one. */
  function SplitCommas(s: string): (parts: seq<string>)
    ensures |parts| >= 1
    decreases |s|
  {
    var i := Find(s, ',');
    if i < 0 then [s] else [s[..i]] + SplitCommas(s[i + 1..])
  }

  /** The value of an integer after the cast to the attribute's type. */
  function Cast(k: ScalarKind, n: int): int
  {
    match k
    case S8 => (n + 0x80) % 0x100 - 0x80
    case U8 => n % 0x100
    case S16 => (n + 0x8000) % 0x1_0000 - 0x8000
    case U16 => n % 0x1_0000
    case S32 => ToS32(n)
    case U32 => n % 0x1_0000_0000
    case U64 => ToU64(n)
    case _ => ToS64(n)
  }

  function ReadElements(k: ScalarKind, parts: seq<string>): Option<seq<int>>
  {
    if parts == [] then Some([])
    else
      match (ScanInt(parts[0]), ReadElements(k, parts[1..]))
      case (Some((n, _)), Some(rest)) => Some([Cast(k, n)] + rest)
      case _ => None
  }

  function ReadBools(parts: seq<string>): seq<bool>
  {
    if parts == [] then [] else [Durations.EqualsIgnoreCase(CStr(parts[0]), "true")] + ReadBools(parts[1..])
  }

  /** `next` is the first separator at or after `at`, or -1. */
  predicate NextSeparator(s: string, at: nat, next: int)
    requires at <= |s|
  {
    next == var i := Find(s[at..], ','); if i < 0 then -1 else at + i
  }

  lemma SeparatorFound(s: string, at: nat, next: int)
    requires at <= |s| && next == var i := Find(s[at..], ','); if i < 0 then -1 else at + i
    ensures NextSeparator(s, at, next)
  {
  }

  function Appended<T>(front: seq<T>, rest: Option<seq<T>>): Option<seq<T>>
  {
    match rest
    case None => None
    case Some(more) => Some(front + more)
  }

  lemma AppendedNothing<T>(rest: Option<seq<T>>)
    ensures Appended([], rest) == rest
  {
    if rest.Some? {
      assert [] + rest.value == rest.value;
    }
  }

  /** The part between `at` and the next separator comes first. */
  lemma SplitNext(s: string, at: nat, next: int)
    requires at <= |s| && NextSeparator(s, at, next)
    ensures -1 <= next < |s| && (next >= 0 ==> at <= next)
    ensures next < 0 ==> SplitCommas(s[at..]) == [s[at..]]
    ensures next >= 0 ==> SplitCommas(s[at..]) == [s[at..next]] + SplitCommas(s[next + 1..])
  {
    hide Find;
    if next >= 0 {
      assert s[at..][..next - at] == s[at..next] && s[at..][next - at + 1..] == s[next + 1..];
    }
  }

  /** What one round of the numeric loop adds, and what it leaves to read. */
  lemma NumericNext(k: ScalarKind, s: string, at: nat, next: int, front: seq<int>)
    requires at <= |s| && NextSeparator(s, at, next)
    ensures -1 <= next < |s| && (next >= 0 ==> at <= next)
    ensures var value := ScanInt(s[at..if next < 0 then |s| else next]);
            Appended(front, ReadElements(k, SplitCommas(s[at..])))
            == if value == None then None
               else if next < 0 then Some(front + [Cast(k, value.value.0)])
               else Appended(front + [Cast(k, value.value.0)], ReadElements(k, SplitCommas(s[next + 1..])))
  {
    hide *;
    SplitNext(s, at, next);
    if next < 0 {
      assert s[at..|s|] == s[at..];
      LastElement(k, s[at..], front);
    } else {
      ElementsHead(k, s[at..next], SplitCommas(s[next + 1..]), front);
    }
  }

  /** The first element, and what follows it. */
  lemma ElementsHead(k: ScalarKind, part: string, rest: seq<string>, front: seq<int>)
    ensures var value := ScanInt(part);
            Appended(front, ReadElements(k, [part] + rest))
            == if value == None then None else Appended(front + [Cast(k, value.value.0)], ReadElements(k, rest))
  {
    hide ScanInt, Cast;
    assert ([part] + rest)[1..] == rest;
    if ScanInt(part).Some? && ReadElements(k, rest).Some? {
      var n, more := ScanInt(part).value.0, ReadElements(k, rest).value;
      assert front + ([Cast(k, n)] + more) == (front + [Cast(k, n)]) + more;
    }
  }

  lemma LastElement(k: ScalarKind, part: string, front: seq<int>)
    ensures var value := ScanInt(part);
            Appended(front, ReadElements(k, [part]))
            == if value == None then None else Some(front + [Cast(k, value.value.0)])
  {
    hide ScanInt, Cast;
    ElementsHead(k, part, [], front);
    assert [part] + [] == [part];
    if ScanInt(part).Some? {
      var values := front + [Cast(k, ScanInt(part).value.0)];
      assert values + [] == values;
    }
  }

  lemma BoolNext(s: string, at: nat, next: int, front: seq<bool>)
    requires at <= |s| && NextSeparator(s, at, next)
    ensures -1 <= next < |s| && (next >= 0 ==> at <= next)
    ensures var b := Durations.EqualsIgnoreCase(CStr(s[at..if next < 0 then |s| else next]), "true");
            front + ReadBools(SplitCommas(s[at..]))
            == if next < 0 then front + [b] else (front + [b]) + ReadBools(SplitCommas(s[next + 1..]))
  {
    hide *;
    SplitNext(s, at, next);
    if next < 0 {
      assert s[at..|s|] == s[at..] && [s[at..]] + [] == [s[at..]];
      BoolsHead(s[at..], [], front);
    } else {
      BoolsHead(s[at..next], SplitCommas(s[next + 1..]), front);
    }
  }

  lemma BoolsHead(part: string, rest: seq<string>, front: seq<bool>)
    ensures var b := Durations.EqualsIgnoreCase(CStr(part), "true");
            front + ReadBools([part] + rest) == if rest == [] then front + [b] else (front + [b]) + ReadBools(rest)
  {
    hide Durations.EqualsIgnoreCase, CStr;
    assert ([part] + rest)[1..] == rest;
  }

  lemma NothingBefore(bools: seq<bool>)
    ensures [] + bools == bools
  {
  }

  /** The loop of each numeric array class; None where it appends an unassigned element. */
  method ReadNumericArray(k: ScalarKind, s: string) returns (result: Option<seq<int>>)
    ensures result == ReadElements(k, SplitCommas(s))
  {
    hide NextSeparator, ScanInt, Cast, Find, SplitCommas, ReadElements, Appended;
    var values := [];
    var previousSeparator := -1;
    var nextSeparator := IndexOfChar(s, ',', 0);
    assert s[0..] == s;
    SeparatorFound(s, 0, nextSeparator);
    var more := true;
    AppendedNothing(ReadElements(k, SplitCommas(s)));
    while more
      invariant -1 <= previousSeparator < |s|
      invariant more ==> NextSeparator(s, previousSeparator + 1, nextSeparator)
      invariant more ==>
                  ReadElements(k, SplitCommas(s))
                  == Appended(values, ReadElements(k, SplitCommas(s[previousSeparator + 1..])))
      invariant !more ==> ReadElements(k, SplitCommas(s)) == Some(values)
      decreases more, |s| - previousSeparator
    {
      NumericNext(k, s, previousSeparator + 1, nextSeparator, values);
      var value := ScanInt(s[previousSeparator + 1..if nextSeparator == -1 then |s| else nextSeparator]);
      if value == None {
        return None;
      }
      values := values + [Cast(k, value.value.0)];
      previousSeparator := nextSeparator;
      nextSeparator := IndexOfChar(s, ',', previousSeparator + 1);
      SeparatorFound(s, previousSeparator + 1, nextSeparator);
      more := previousSeparator != -1;
    }
    return Some(values);
  }

  method ReadBoolArray(s: string) returns (values: seq<bool>)
    ensures values == ReadBools(SplitCommas(s))
  {
    hide NextSeparator, Find, SplitCommas, ReadBools, Durations.EqualsIgnoreCase, CStr;
    values := [];
    var previousSeparator := -1;
    var nextSeparator := IndexOfChar(s, ',', 0);
    assert s[0..] == s;
    SeparatorFound(s, 0, nextSeparator);
    NothingBefore(ReadBools(SplitCommas(s)));
    var more := true;
    while more
      invariant -1 <= previousSeparator < |s|
      invariant more ==> NextSeparator(s, previousSeparator + 1, nextSeparator)
      invariant more ==> ReadBools(SplitCommas(s)) == values + ReadBools(SplitCommas(s[previousSeparator + 1..]))
      invariant !more ==> ReadBools(SplitCommas(s)) == values
      decreases more, |s| - previousSeparator
    {
      BoolNext(s, previousSeparator + 1, nextSeparator, values);
      var part := s[previousSeparator + 1..if nextSeparator == -1 then |s| else nextSeparator];
      values := values + [Durations.EqualsIgnoreCase(CStr(part), "true")];
      previousSeparator := nextSeparator;
      nextSeparator := IndexOfChar(s, ',', previousSeparator + 1);
      SeparatorFound(s, previousSeparator + 1, nextSeparator);
      more := previousSeparator != -1;
    }
  }

  // ----- String arrays ----------------------------------------------------

  /** Where the reader of a string array stands; it starts inside the array. */
  datatype ArrayState = InArray | InElement | ElementEnded | EscapePending | Done

  datatype Strings = Strings(state: ArrayState, pending: string, result: seq<string>)

  predicate IsWhitespace(c: char) { c <= ' ' || c as int == 0x7F }

  /** One character of the state machine; None where it throws. */
  function StringsStep(r: Strings, c: char): Option<Strings>
  {
    match r.state
    case InArray => if c == '"' then Some(r.(state := InElement)) else None
    case InElement =>
      if c == '"' then Some(Strings(ElementEnded, "", r.result + [r.pending]))
      else if c == '\\' then Some(r.(state := EscapePending))
      else Some(r.(pending := r.pending + [c]))
    case ElementEnded =>
      if c == ',' then Some(r.(state := InArray))
      else if c == '"' then Some(r.(state := Done))
      else if IsWhitespace(c) then Some(r)
      else None
    case EscapePending => Some(r.(pending := r.pending + [c], state := InElement))
    case Done => if IsWhitespace(c) then Some(r) else None
  }

  function RunStrings(r: Strings, s: string): Option<Strings>
    decreases |s|
  {
    if s == "" then Some(r)
    else match StringsStep(r, s[0]) case None => None case Some(next) => RunStrings(next, s[1..])
  }

  function ReadStrings(s: string): Option<seq<string>>
  {
    match RunStrings(Strings(InArray, "", []), s) case None => None case Some(r) => Some(r.result)
  }

  method ReadStringArray(s: string) returns (result: Option<seq<string>>)
    ensures result == ReadStrings(s)
  {
    var elements: seq<string>, pending, state := [], "", InArray;
    var i := 0;
    assert s[0..] == s;
    while i < |s|
      invariant 0 <= i <= |s|
      invariant RunStrings(Strings(InArray, "", []), s) == RunStrings(Strings(state, pending, elements), s[i..])
    {
      var c := s[i];
      assert s[i..][0] == c && s[i..][1..] == s[i + 1..];
      match state {
        case InArray =>
          if c == '"' { state := InElement; } else { return None; }
        case InElement =>
          if c == '"' {
            elements := elements + [pending];
            pending := "";
            state := ElementEnded;
          } else if c == '\\' {
            state := EscapePending;
          } else {
            pending := pending + [c];
          }
        case ElementEnded =>
          if c == ',' { state := InArray; }
          else if c == '"' { state := Done; }
          else if !IsWhitespace(c) { return None; }
        case EscapePending =>
          pending := pending + [c];
          state := InElement;
        case Done =>
          if !IsWhitespace(c) { return None; }
      }
      i := i + 1;
    }
    return Some(elements);
  }

  // ----- One attribute value ----------------------------------------------

  /** `substringInPlace(1, length - 1)`: the text inside the quotes. */
  function Inner(s: string): string
  {
    if |s| >= 2 then s[1..|s| - 1] else ""
  }

  predicate StartsWith(s: string, c: char) { s != "" && s[0] == c }

  function Constrain(n: int): int { if n < 0 then 0 else if n > 255 then 255 else n }

  function OrFault<T, U>(o: Option<T>, fault: Fault, f: T -> U): Result<U, Fault>
  {
    match o case None => Failure(fault) case Some(x) => Success(f(x))
  }

  function ReadScalar(k: ScalarKind, s: string): Result<TextValue, Fault>
  {
    match k
    case Float => Failure(NotModelled)
    case Double => Failure(NotModelled)
    case Instant => Failure(NotModelled)
    case Duration =>
      (match Durations.ReadDuration(s)
       case Milliseconds(ms) => Success(Scalar(k, ms))
       case OutOfRange => Failure(Malformed)
       case FloatingSeconds => Failure(NotModelled))
    case _ =>
      var n := if k.U8? || k.U16? || k.U32? || k.U64? then ParseUnsigned(s) else ParseSigned(s);
      if n == None then Failure(Malformed) else Success(Scalar(k, Cast(k, n.value)))
  }

  /** The value of an attribute whose type is `tag`. */
  function ReadTagged(tag: TypeTag, s: string, qualifier: string): Result<TextValue, Fault>
  {
    match tag
    case ScalarTag(k) => ReadScalar(k, s)
    case BoolTag => Success(Bool(CStr(s) == "true"))
    case StrTag => Success(Str(qualifier, s))
    case CharTag => Success(Char(if s == "" then 0 else s[0] as int))
    case LegacyCharTag => Failure(NotModelled)
    case ShapeTag(k) =>
      if IntBased(k) then OrFault(ScanInts(s, Separators(k)), Undefined, ns => Shape(k, ns)) else Failure(NotModelled)
    case PolygonTag(doubles) =>
      if doubles then Failure(NotModelled) else OrFault(ReadPoints(s), Undefined, ps => Polygon(false, ps))
    case ColorTag =>
      (match ScanInts(s, ",,,")
       case None => Failure(Undefined)
       case Some(ns) =>
         if |ns| == 4 then Success(Color(Constrain(ns[0]), Constrain(ns[1]), Constrain(ns[2]), Constrain(ns[3])))
         else Failure(Undefined))
    case BinaryTag => Failure(NotModelled)
    case ArrayTag(k) =>
      if k.Double? || k.Instant? then Failure(NotModelled)
      else OrFault(ReadElements(k, SplitCommas(s)), Undefined, ns => Array(k, ns))
    case StrArrayTag => OrFault(ReadStrings(s), Malformed, ss => StrArray(ss))
    case BoolArrayTag => Success(BoolArray(ReadBools(SplitCommas(s))))
  }

  /** With a type: strip the quotes, take out one level of escapes and read what the type says. */
  function ReadTyped(typeName: string, value: string, qualifier: string): Result<TextValue, Fault>
  {
    var quoted := StartsWith(value, '"') || StartsWith(value, '\'');
    var tag := TagOf(CStr(typeName));
    var s := if !quoted then value else if tag == Some(StrArrayTag) then Inner(value) else Unescape(Inner(value));
    if tag == None then Failure(Malformed) else ReadTagged(tag.value, s, qualifier)
  }

  /** Without a type: infer it from the form of the value. */
  function ReadInferred(value: string, qualifier: string): Result<TextValue, Fault>
  {
    var v := CStr(value);
    if v == "true" || v == "false" then Success(Bool(v == "true"))
    else if v == "NOW" || v == "NEVER" || v == "PAST" || v == "FUTURE" then Failure(NotModelled)
    else if StartsWith(value, '"') || StartsWith(value, '(') then Success(Str(qualifier, Unescape(Inner(value))))
    else if StartsWith(value, '\'') then
      var s := Unescape(Inner(value));
      Success(Char(if s == "" then 0 else s[0] as int))
    else ReadScalar(S32, value)
  }

  /** The value that `newObjectFromBentoTextValues` makes of the pieces the parser collected. */
  function ReadValue(typeName: string, value: string, qualifier: string): Result<TextValue, Fault>
  {
    if typeName != "" then ReadTyped(typeName, value, qualifier) else ReadInferred(value, qualifier)
  }

  method ReadNumber(k: ScalarKind, s: string) returns (r: Result<TextValue, Fault>)
    ensures r == ReadScalar(k, s)
  {
    hide ParseSigned, ParseUnsigned, Cast;
    var n: Option<int>;
    match k {
      case Float | Double | Instant => return Failure(NotModelled);
      case Duration =>
        var d := new Durations.VDuration(0);
        var outcome := d.SetDurationString(s);
        match outcome {
          case Milliseconds(ms) => return Success(Scalar(k, d.milliseconds));
          case OutOfRange => return Failure(Malformed);
          case FloatingSeconds => return Failure(NotModelled);
        }
      case U8 | U16 | U32 | U64 => n := ParseUnsignedInteger(s);
      case _ => n := ParseSignedInteger(s);
    }
    return if n == None then Failure(Malformed) else Success(Scalar(k, Cast(k, n.value)));
  }

  method NewTagged(tag: TypeTag, s: string, qualifier: string) returns (r: Result<TextValue, Fault>)
    ensures r == ReadTagged(tag, s, qualifier)
  {
    hide ScanInts, ReadPoints, ReadElements, SplitCommas, ReadStrings, ReadBools, ReadScalar;
    match tag {
      case ScalarTag(k) => r := ReadNumber(k, s);
      case PolygonTag(doubles) =>
        if doubles { return Failure(NotModelled); }
        var points := ReadPolygon(s);
        r := OrFault(points, Undefined, ps => Polygon(false, ps));
      case ArrayTag(k) =>
        if k.Double? || k.Instant? { return Failure(NotModelled); }
        var elements := ReadNumericArray(k, s);
        r := OrFault(elements, Undefined, ns => Array(k, ns));
      case StrArrayTag =>
        var strings := ReadStringArray(s);
        r := OrFault(strings, Malformed, ss => StrArray(ss));
      case BoolArrayTag =>
        var bools := ReadBoolArray(s);
        r := Success(BoolArray(bools));
      case _ => r := ReadTagged(tag, s, qualifier);
    }
  }

  method NewValueFromText(typeName: string, value: string, qualifier: string) returns (r: Result<TextValue, Fault>)
    ensures r == ReadValue(typeName, value, qualifier)
  {
    hide ReadTagged, ReadScalar, TagOf, Unescape, CStr;
    var actualValue := value;
    if typeName != "" {
      var tag := TagOf(CStr(typeName));
      if StartsWith(value, '"') || StartsWith(value, '\'') {
        actualValue := Inner(actualValue);
        if tag != Some(StrArrayTag) {
          actualValue := UnescapeString(actualValue);
        }
      }
      if tag == None { return Failure(Malformed); }
      r := NewTagged(tag.value, actualValue, qualifier);
    } else if CStr(value) == "true" || CStr(value) == "false" {
      r := Success(Bool(CStr(value) == "true"));
    } else if CStr(value) == "NOW" || CStr(value) == "NEVER" || CStr(value) == "PAST" || CStr(value) == "FUTURE" {
      r := Failure(NotModelled);
    } else if StartsWith(value, '"') || StartsWith(value, '(') {
      actualValue := UnescapeString(Inner(actualValue));
      r := Success(Str(qualifier, actualValue));
    } else if StartsWith(value, '\'') {
      actualValue := UnescapeString(Inner(actualValue));
      r := Success(Char(if actualValue == "" then 0 else actualValue[0] as int));
    } else {
      r := ReadNumber(S32, actualValue);
    }
  }
}
