/**
 Focus and metering areas (camera/CameraHalUtilClasses.cpp:143-350): checking one, parsing a list of
 "(left,top,right,bottom,weight)" texts, and comparing two lists.
 */
module CameraAreas {
  import opened Wrappers

  datatype CameraArea = CameraArea(top: int, left: int, bottom: int, right: int, weight: int) {
    /** The all-zero area, or one inside the sensor's coordinates with a positive extent and weight. */
    predicate Valid() {
      || (top == 0 && left == 0 && bottom == 0 && right == 0 && weight == 0)
      || (-1000 <= top < bottom <= 1000 && -1000 <= left < right <= 1000 && 1 <= weight <= 1000)
    }
  }

  datatype Status = NoError | Einval

  /** The tests in the order in which they are made; some are implied by others. */
  function CheckArea(top: int, left: int, bottom: int, right: int, weight: int): (s: Status)
    ensures s.NoError? <==> CameraArea(top, left, bottom, right, weight).Valid()
  {
    if top == 0 && left == 0 && bottom == 0 && right == 0 && weight == 0 then NoError
    else if 1 > weight || 1000 < weight then Einval
    else if -1000 > top || 1000 < top then Einval
    else if -1000 > bottom || 1000 < bottom then Einval
    else if -1000 > left || 1000 < left then Einval
    else if -1000 > right || 1000 < right then Einval
    else if left >= right then Einval
    else if top >= bottom then Einval
    else NoError
  }

  // --- Numbers ---

  predicate IsSpace(c: char) {
    c == ' ' || c == '\t' || c == '\n' || c == '\r' || c == 11 as char || c == 12 as char
  }

  predicate IsDigit(c: char) {
    '0' <= c <= '9'
  }

  /** The length of the leading white space. */
  function Spaces(s: string): (n: nat)
    ensures n <= |s| && (n < |s| ==> !IsSpace(s[n]))
  {
    if s != [] && IsSpace(s[0]) then 1 + Spaces(s[1..]) else 0
  }

  /** The length of the leading digits. */
  function DigitsIn(s: string): (n: nat)
    ensures n <= |s| && (n < |s| ==> !IsDigit(s[n]))
    ensures forall i :: 0 <= i < n ==> IsDigit(s[i])
  {
    if s != [] && IsDigit(s[0]) then 1 + DigitsIn(s[1..]) else 0
  }

  function DigitValue(c: char): nat
    requires IsDigit(c)
  {
    c as int - '0' as int
  }

  function Value(digits: string): nat
    requires forall i :: 0 <= i < |digits| ==> IsDigit(digits[i])
  {
    if digits == [] then 0
    else 10 * Value(digits[..|digits| - 1]) + DigitValue(digits[|digits| - 1])
  }

  /** The value and the length of the leading digits. */
  function Magnitude(s: string): (r: (int, nat))
    ensures r.1 <= |s|
  {
    (Value(s[..DigitsIn(s)]), DigitsIn(s))
  }

  const LONG_MAX := 0x7FFF_FFFF

  function Clamped(n: int): int {
    if n > LONG_MAX then LONG_MAX else if n < -LONG_MAX - 1 then -LONG_MAX - 1 else n
  }

  /**
   `strtol` in base ten: white space, an optional sign, digits; the value saturates. Without digits nothing is
   consumed, not even the white space.
   */
  function Strtol(s: string): (r: (int, nat))
    ensures r.1 <= |s|
  {
    var start := Spaces(s);
    var signed := start < |s| && (s[start] == '-' || s[start] == '+');
    var first := if signed then start + 1 else start;
    var (value, count) := Magnitude(s[first..]);
    if count == 0 then (0, 0)
    else (Clamped(if s[start] == '-' then -value else value), first + count)
  }

  // --- Tokens ---

  /** `strtok_r` with the delimiter "(": the next non-empty piece and the text after its delimiter. */
  function NextToken(s: string): (r: Option<(string, string)>)
    ensures r.Some? ==> r.value.0 != [] && '(' !in r.value.0 && |r.value.0| + |r.value.1| <= |s|
    decreases |s|
  {
    if s == [] then None
    else if s[0] == '(' then NextToken(s[1..])
    else
      var n := UntilBracket(s);
      Some((s[..n], if n < |s| then s[n + 1..] else []))
  }

  function UntilBracket(s: string): (n: nat)
    ensures n <= |s| && '(' !in s[..n] && (n < |s| ==> s[n] == '(')
    ensures s != [] && s[0] != '(' ==> n > 0
  {
    if s == [] || s[0] == '(' then 0
    else
      var n := UntilBracket(s[1..]);
      assert s[..n + 1] == [s[0]] + s[1..][..n];
      n + 1
  }

  function Tokens(s: string): seq<string>
    decreases |s|
  {
    match NextToken(s)
    case None => []
    case Some((token, rest)) => [token] + Tokens(rest)
  }

  /** A number directly followed by a character, and the text behind it. */
  function NumberThen(s: string, c: char): (r: Option<(int, string)>)
    ensures r.Some? ==> |r.value.1| < |s|
  {
    var (value, end) := Strtol(s);
    if end < |s| && s[end] == c then Some((value, s[end + 1..])) else None
  }

  /** One token: five numbers with their separators; what follows the closing bracket is ignored. */
  function ParseToken(token: string): Option<CameraArea> {
    match NumberThen(token, ',')
    case None => None
    case Some((left, s1)) =>
    match NumberThen(s1, ',')
    case None => None
    case Some((top, s2)) =>
    match NumberThen(s2, ',')
    case None => None
    case Some((right, s3)) =>
    match NumberThen(s3, ',')
    case None => None
    case Some((bottom, s4)) =>
    match NumberThen(s4, ')')
    case None => None
    case Some((weight, s5)) =>
      if CheckArea(top, left, bottom, right, weight) == NoError then Some(CameraArea(top, left, bottom, right, weight))
      else None
  }

  // --- Parsing a list ---

  /** Reads items up to the first one that cannot be read. */
  function Collect<T, A>(items: seq<T>, read: T -> Option<A>): (Status, seq<A>) {
    if items == [] then (NoError, [])
    else
      match read(items[0])
      case None => (Einval, [])
      case Some(a) =>
        var rest := Collect(items[1..], read);
        (rest.0, [a] + rest.1)
  }

  /** The longest run of readable items is read, and a list of readable items alone is accepted. */
  lemma {:induction false} LongestGoodPrefix<T, A>(items: seq<T>, read: T -> Option<A>)
    ensures var (status, results) := Collect(items, read);
            && |results| <= |items|
            && (forall i :: 0 <= i < |results| ==> read(items[i]) == Some(results[i]))
            && (status == NoError <==> |results| == |items|)
            && (|results| < |items| ==> read(items[|results|]) == None)
  {
    if items != [] && read(items[0]).Some? {
      var rest := Collect(items[1..], read);
      LongestGoodPrefix(items[1..], read);
      assert Collect(items, read) == (rest.0, [read(items[0]).value] + rest.1);
    }
  }

  lemma AllGood<T, A>(items: seq<T>, read: T -> Option<A>, results: seq<A>)
    requires |results| == |items| && forall i :: 0 <= i < |items| ==> read(items[i]) == Some(results[i])
    ensures Collect(items, read) == (NoError, results)
  {
    LongestGoodPrefix(items, read);
    var (status, got) := Collect(items, read);
    forall i | 0 <= i < |got| ensures got[i] == results[i] {
      assert read(items[i]) == Some(got[i]);
    }
    assert got == results;
  }

  /** A list is accepted if every token is an area; otherwise it is cut before the first bad one. */
  function ParseTokens(tokens: seq<string>): (Status, seq<CameraArea>) {
    Collect(tokens, ParseToken)
  }

  function Parse(s: string): (Status, seq<CameraArea>) {
    if Tokens(s) == [] then (Einval, []) else ParseTokens(Tokens(s))
  }

  /** The text up to the terminator. */
  function CString(s: string): (t: string)
    ensures t <= s && 0 as char !in t
  {
    if s == [] || s[0] == 0 as char then [] else [s[0]] + CString(s[1..])
  }

  /** The five steps of the loop body. */
  method ParseOne(token: string) returns (area: Option<CameraArea>)
    ensures area == ParseToken(token)
  {
    var left := ReadNumber(token, ',');
    if left.None? {
      return None;
    }
    var top := ReadNumber(left.value.1, ',');
    if top.None? {
      return None;
    }
    var right := ReadNumber(top.value.1, ',');
    if right.None? {
      return None;
    }
    var bottom := ReadNumber(right.value.1, ',');
    if bottom.None? {
      return None;
    }
    var weight := ReadNumber(bottom.value.1, ')');
    if weight.None? {
      return None;
    }
    if CheckArea(top.value.0, left.value.0, bottom.value.0, right.value.0, weight.value.0) != NoError {
      return None;
    }
    return Some(CameraArea(top.value.0, left.value.0, bottom.value.0, right.value.0, weight.value.0));
  }

  method ReadNumber(pStart: string, separator: char) returns (r: Option<(int, string)>)
    ensures r == NumberThen(pStart, separator)
  {
    var (value, pEnd) := Strtol(pStart);
    if pEnd == |pStart| || separator != pStart[pEnd] {
      return None;
    }
    return Some((value, pStart[pEnd + 1..]));
  }

  function Remaining(pArea: Option<(string, string)>): seq<string> {
    match pArea
    case None => []
    case Some((token, rest)) => [token] + Tokens(rest)
  }

  /** The loop, from its first token on. */
  method ParseFrom(start: Option<(string, string)>, areas: seq<CameraArea>) returns (ret: Status, result: seq<CameraArea>)
    ensures ret == ParseTokens(Remaining(start)).0 && result == areas + ParseTokens(Remaining(start)).1
  {
    ret, result := NoError, areas;
    var pArea := start;
    ghost var goal := ParseTokens(Remaining(start));
    while pArea.Some?
      invariant ret == NoError && goal.0 == ParseTokens(Remaining(pArea)).0
      invariant areas + goal.1 == result + ParseTokens(Remaining(pArea)).1
      decreases if pArea.None? then 0 else 1 + |pArea.value.1|
    {
      var (token, ctx) := pArea.value;
      assert Remaining(pArea)[1..] == Tokens(ctx);
      var currentArea := ParseOne(token);
      if currentArea.None? {
        return Einval, result;
      }
      result := result + [currentArea.value];
      pArea := NextToken(ctx);
      assert Tokens(ctx) == Remaining(pArea);
    }
  }

  /**
   Appends the parsed areas to the caller's list, which keeps the areas before the first bad one. The text must end
   with a terminator.
   */
  method ParseAreas(area: Option<string>, areaLength: nat, areas: seq<CameraArea>)
    returns (ret: Status, result: seq<CameraArea>)
    requires area.Some? && 0 < areaLength ==> areaLength <= |area.value| && 0 as char in area.value[..areaLength]
    ensures area.None? || areaLength == 0 ==> ret == Einval && result == areas
    ensures area.Some? && 0 < areaLength ==>
              var parsed := Parse(CString(area.value[..areaLength])); ret == parsed.0 && result == areas + parsed.1
  {
    if area.None? || areaLength == 0 {
      return Einval, areas;
    }
    var tmpBuffer := CString(area.value[..areaLength]);
    var pArea := NextToken(tmpBuffer);
    if pArea.None? {
      return Einval, areas;
    }
    assert Tokens(tmpBuffer) == Remaining(pArea);
    ret, result := ParseFrom(pArea, areas);
  }

  // --- What a text says ---

  /** White space, at most one sign, and digits. */
  predicate IsNumeral(spaces: string, sign: string, digits: string) {
    && (forall i :: 0 <= i < |spaces| ==> spaces[i] == ' ' || 9 as char <= spaces[i] <= 13 as char)
    && (sign == [] || sign == ['-'] || sign == ['+'])
    && digits != [] && forall i :: 0 <= i < |digits| ==> '0' <= digits[i] <= '9'
  }

  /** The number that is meant, or the nearest one that 32 bits can hold. */
  function Meant(sign: string, digits: string): int
    requires forall i :: 0 <= i < |digits| ==> '0' <= digits[i] <= '9'
  {
    var n := if sign == ['-'] then -(Value(digits) as int) else Value(digits);
    if n >= 0x8000_0000 then 0x7FFF_FFFF else if n < -0x8000_0000 then -0x8000_0000 else n
  }

  lemma {:induction false} SpacesIn(spaces: string, rest: string)
    requires (forall i :: 0 <= i < |spaces| ==> IsSpace(spaces[i])) && (rest == [] || !IsSpace(rest[0]))
    ensures Spaces(spaces + rest) == |spaces|
  {
    if spaces == [] {
      assert spaces + rest == rest;
    } else {
      assert (spaces + rest)[1..] == spaces[1..] + rest;
      SpacesIn(spaces[1..], rest);
    }
  }

  lemma {:induction false} SpacesAreSpace(s: string)
    ensures var spaces := s[..Spaces(s)]; forall i :: 0 <= i < |spaces| ==> IsSpace(spaces[i])
  {
    if s != [] && IsSpace(s[0]) {
      SpacesAreSpace(s[1..]);
      assert s[..Spaces(s)] == [s[0]] + s[1..][..Spaces(s[1..])];
    }
  }

  lemma {:induction false} DigitsInText(digits: string, rest: string)
    requires (forall i :: 0 <= i < |digits| ==> IsDigit(digits[i])) && (rest == [] || !IsDigit(rest[0]))
    ensures DigitsIn(digits + rest) == |digits|
  {
    if digits == [] {
      assert digits + rest == rest;
    } else {
      assert (digits + rest)[1..] == digits[1..] + rest;
      DigitsInText(digits[1..], rest);
    }
  }

  lemma MagnitudeIn(digits: string, rest: string)
    requires (forall i :: 0 <= i < |digits| ==> IsDigit(digits[i])) && (rest == [] || !IsDigit(rest[0]))
    ensures Magnitude(digits + rest) == (Value(digits), |digits|)
  {
    DigitsInText(digits, rest);
    assert (digits + rest)[..|digits|] == digits;
  }

  /** Where the digits start. */
  function SignEnd(s: string): (first: nat)
    ensures Spaces(s) <= first <= |s|
  {
    var start := Spaces(s);
    if start < |s| && (s[start] == '-' || s[start] == '+') then start + 1 else start
  }

  lemma StrtolByParts(s: string)
    ensures var first := SignEnd(s);
            var (value, count) := Magnitude(s[first..]);
            Strtol(s) == if count == 0 then (0, 0)
                         else (Clamped(if s[Spaces(s)] == '-' then -value else value), first + count)
  {
  }

  lemma SignEndOf(spaces: string, sign: string, behind: string)
    requires (forall i :: 0 <= i < |spaces| ==> IsSpace(spaces[i])) && (sign == [] || sign == ['-'] || sign == ['+'])
    requires behind != [] && IsDigit(behind[0])
    ensures var s := spaces + (sign + behind);
            && Spaces(s) == |spaces| && SignEnd(s) == |spaces| + |sign| && s[SignEnd(s)..] == behind
            && (s[Spaces(s)] == '-' <==> sign == ['-'])
  {
    var s := spaces + (sign + behind);
    SpacesIn(spaces, sign + behind);
    assert s[|spaces|] == (sign + behind)[0];
  }

  /** A numeral is read as far as it goes. */
  lemma NumeralIsRead(spaces: string, sign: string, digits: string, rest: string)
    requires IsNumeral(spaces, sign, digits) && (rest == [] || !IsDigit(rest[0]))
    ensures Strtol(spaces + (sign + (digits + rest))) == (Meant(sign, digits), |spaces| + |sign| + |digits|)
  {
    var behind := digits + rest;
    assert behind[0] == digits[0];
    SignEndOf(spaces, sign, behind);
    MagnitudeIn(digits, rest);
    StrtolByParts(spaces + (sign + behind));
  }

  /** Conversely, what is read is a numeral; without one, nothing is read. */
  lemma ReadIsNumeral(s: string) returns (spaces: string, sign: string, digits: string, rest: string)
    ensures Strtol(s).1 == 0 ==> Strtol(s).0 == 0
    ensures Strtol(s).1 != 0 ==>
              && IsNumeral(spaces, sign, digits) && (rest == [] || !IsDigit(rest[0]))
              && s == spaces + (sign + (digits + rest))
  {
    var start, first := Spaces(s), SignEnd(s);
    var count := DigitsIn(s[first..]);
    StrtolByParts(s);
    spaces, sign, digits, rest := s[..start], s[start..first], s[first..][..count], s[first..][count..];
    SpacesAreSpace(s);
    SignIsShort(s);
    assert Strtol(s).1 != 0 ==> IsNumeral(spaces, sign, digits);
    assert s[first..] == digits + rest;
    ThreeParts(s, start, first);
  }

  lemma SignIsShort(s: string)
    ensures var sign := s[Spaces(s)..SignEnd(s)]; sign == [] || sign == ['-'] || sign == ['+']
  {
  }

  lemma ThreeParts(s: string, i: nat, j: nat)
    requires i <= j <= |s|
    ensures s == s[..i] + (s[i..j] + s[j..])
  {
  }

  /** How a number of an area may be written; a number that is missing is zero. */
  ghost predicate Writes(text: string, n: int) {
    || (text == [] && n == 0)
    || exists spaces, sign, digits :: IsNumeral(spaces, sign, digits) && WritesNumeral(text, n, spaces, sign, digits)
  }

  predicate WritesNumeral(text: string, n: int, spaces: string, sign: string, digits: string)
    requires IsNumeral(spaces, sign, digits)
  {
    text == spaces + (sign + digits) && n == Meant(sign, digits)
  }

  /** A number and its separator are read exactly if the text starts with a way to write that number and the separator. */
  lemma NumberThenExactlyIf(s: string, c: char, n: int, rest: string)
    requires c == ',' || c == ')'
    ensures NumberThen(s, c) == Some((n, rest)) <==> exists text :: Writes(text, n) && s == text + [c] + rest
  {
    if NumberThen(s, c) == Some((n, rest)) {
      ReadNumberIsWritten(s, c, n, rest);
    }
    if text :| Writes(text, n) && s == text + [c] + rest {
      WrittenNumberIsRead(text, c, n, rest);
    }
  }

  lemma ReadNumberIsWritten(s: string, c: char, n: int, rest: string)
    requires NumberThen(s, c) == Some((n, rest))
    ensures exists text :: Writes(text, n) && s == text + [c] + rest
  {
    var end := Strtol(s).1;
    if end == 0 {
      NothingReadIsZero(s);
    } else {
      ReadPartIsWritten(s);
    }
    assert s == s[..end] + [c] + rest;
  }

  lemma NothingReadIsZero(s: string)
    ensures Strtol(s).1 == 0 ==> Writes(s[..0], Strtol(s).0)
  {
    StrtolByParts(s);
  }

  lemma ReadPartIsWritten(s: string)
    requires Strtol(s).1 != 0
    ensures Writes(s[..Strtol(s).1], Strtol(s).0)
  {
    var spaces, sign, digits, behind := ReadIsNumeral(s);
    NumeralIsRead(spaces, sign, digits, behind);
    FirstParts(spaces, sign, digits, behind);
    assert WritesNumeral(s[..Strtol(s).1], Strtol(s).0, spaces, sign, digits);
  }

  lemma FirstParts(a: string, b: string, c: string, d: string)
    ensures (a + (b + (c + d)))[..|a| + |b| + |c|] == a + (b + c)
  {
  }

  lemma WrittenNumberIsRead(text: string, c: char, n: int, rest: string)
    requires Writes(text, n) && (c == ',' || c == ')')
    ensures NumberThen(text + [c] + rest, c) == Some((n, rest))
  {
    if text == [] && n == 0 {
      MissingNumberIsRead(c, rest);
      assert text + [c] + rest == [c] + rest;
    } else {
      var spaces, sign, digits :| IsNumeral(spaces, sign, digits) && WritesNumeral(text, n, spaces, sign, digits);
      NumeralThenIsRead(spaces, sign, digits, c, rest);
    }
  }

  lemma MissingNumberIsRead(c: char, rest: string)
    requires c == ',' || c == ')'
    ensures NumberThen([c] + rest, c) == Some((0, rest))
  {
    var s := [c] + rest;
    assert Spaces(s) == 0 && s[0..] == s && DigitsIn(s) == 0;
    StrtolByParts(s);
  }

  lemma Regrouped(a: string, b: string, c: string, d: string, e: string)
    ensures a + (b + c) + d + e == a + (b + (c + (d + e)))
  {
    assert b + c + (d + e) == b + (c + (d + e));
    assert a + (b + c) + d + e == a + (b + c + (d + e));
  }

  lemma NumeralThenIsRead(spaces: string, sign: string, digits: string, c: char, rest: string)
    requires IsNumeral(spaces, sign, digits) && !IsDigit(c)
    ensures NumberThen(spaces + (sign + digits) + [c] + rest, c) == Some((Meant(sign, digits), rest))
  {
    var text := spaces + (sign + digits);
    var s := text + [c] + rest;
    NumeralIsRead(spaces, sign, digits, [c] + rest);
    Regrouped(spaces, sign, digits, [c], rest);
    assert s[|text|] == c && s[|text| + 1..] == rest;
  }

  datatype Texts = Texts(left: string, top: string, right: string, bottom: string, weight: string)

  /** Left, top, right, bottom and weight, in this order, and anything behind the closing bracket. */
  ghost predicate Spells(token: string, a: CameraArea, t: Texts, tail: string) {
    && Writes(t.left, a.left) && Writes(t.top, a.top) && Writes(t.right, a.right) && Writes(t.bottom, a.bottom)
    && Writes(t.weight, a.weight)
    && token == t.left + [','] + (t.top + [','] + (t.right + [','] + (t.bottom + [','] + (t.weight + [')'] + tail))))
  }

  /** A token is an area exactly if it spells the area's numbers and these are all zero or within their bounds. */
  lemma TokenIsAreaExactlyIf(token: string, a: CameraArea)
    ensures ParseToken(token) == Some(a) <==>
              && (a == CameraArea(0, 0, 0, 0, 0)
                  || (-1000 <= a.top < a.bottom <= 1000 && -1000 <= a.left < a.right <= 1000 && 1 <= a.weight <= 1000))
              && exists texts, tail :: Spells(token, a, texts, tail)
  {
    if ParseToken(token) == Some(a) {
      AreaIsSpelled(token, a);
    }
    if a.Valid() {
      if texts, tail :| Spells(token, a, texts, tail) {
        SpelledIsArea(token, a, texts, tail);
      }
    }
  }

  lemma AreaIsSpelled(token: string, a: CameraArea)
    ensures ParseToken(token) == Some(a) ==> exists texts, tail :: Spells(token, a, texts, tail)
  {
    if ParseToken(token) == Some(a) {
      var s1, s2, s3, s4, tail := RestsOf(token, a);
      var left := TextOf(token, ',', a.left, s1);
      var top := TextOf(s1, ',', a.top, s2);
      var right := TextOf(s2, ',', a.right, s3);
      var bottom := TextOf(s3, ',', a.bottom, s4);
      var weight := TextOf(s4, ')', a.weight, tail);
      assert Spells(token, a, Texts(left, top, right, bottom, weight), tail);
    }
  }

  lemma RestsOf(token: string, a: CameraArea) returns (s1: string, s2: string, s3: string, s4: string, tail: string)
    requires ParseToken(token) == Some(a)
    ensures NumberThen(token, ',') == Some((a.left, s1)) && NumberThen(s1, ',') == Some((a.top, s2))
    ensures NumberThen(s2, ',') == Some((a.right, s3)) && NumberThen(s3, ',') == Some((a.bottom, s4))
    ensures NumberThen(s4, ')') == Some((a.weight, tail))
  {
    s1 := NumberThen(token, ',').value.1;
    s2 := NumberThen(s1, ',').value.1;
    s3 := NumberThen(s2, ',').value.1;
    s4 := NumberThen(s3, ',').value.1;
    tail := NumberThen(s4, ')').value.1;
  }

  lemma TextOf(s: string, c: char, n: int, rest: string) returns (text: string)
    requires NumberThen(s, c) == Some((n, rest)) && (c == ',' || c == ')')
    ensures Writes(text, n) && s == text + [c] + rest
  {
    NumberThenExactlyIf(s, c, n, rest);
    text :| Writes(text, n) && s == text + [c] + rest;
  }

  lemma SpelledIsArea(token: string, a: CameraArea, t: Texts, tail: string)
    requires a.Valid() && Spells(token, a, t, tail)
    ensures ParseToken(token) == Some(a)
  {
    var s4 := t.weight + [')'] + tail;
    var s3 := t.bottom + [','] + s4;
    var s2 := t.right + [','] + s3;
    var s1 := t.top + [','] + s2;
    WrittenNumberIsRead(t.left, ',', a.left, s1);
    WrittenNumberIsRead(t.top, ',', a.top, s2);
    WrittenNumberIsRead(t.right, ',', a.right, s3);
    WrittenNumberIsRead(t.bottom, ',', a.bottom, s4);
    WrittenNumberIsRead(t.weight, ')', a.weight, tail);
  }

  // --- What is added ---

  lemma ParsedAreaIsValid(token: string)
    ensures ParseToken(token).Some? ==> ParseToken(token).value.Valid()
  {
  }

  /** For any text, every area that is added is valid. */
  lemma AddedAreasAreValid(s: string)
    ensures forall area :: area in Parse(s).1 ==> area.Valid()
  {
    var tokens, areas := Tokens(s), Parse(s).1;
    LongestGoodPrefix(tokens, ParseToken);
    forall i | 0 <= i < |areas| ensures areas[i].Valid() {
      assert ParseToken(tokens[i]) == Some(areas[i]);
      ParsedAreaIsValid(tokens[i]);
    }
  }

  /** A text is accepted exactly if it has a token and each of its tokens is an area; then those areas are added. */
  lemma AcceptedExactlyIfAllTokensAre(s: string)
    ensures Parse(s).0 == NoError <==> Tokens(s) != [] && forall i :: 0 <= i < |Tokens(s)| ==> ParseToken(Tokens(s)[i]).Some?
    ensures Parse(s).0 == NoError ==> |Parse(s).1| == |Tokens(s)|
  {
    LongestGoodPrefix(Tokens(s), ParseToken);
  }

  // --- Round trip ---

  function DigitOf(d: nat): (c: char)
    requires d < 10
    ensures IsDigit(c) && DigitValue(c) == d
  {
    ('0' as int + d) as char
  }

  function Digits(n: nat): (s: string)
    ensures s != [] && forall i :: 0 <= i < |s| ==> IsDigit(s[i])
  {
    if n < 10 then [DigitOf(n)] else Digits(n / 10) + [DigitOf(n % 10)]
  }

  function Decimal(n: int): string {
    if n < 0 then ['-'] + Digits(-n) else Digits(n)
  }

  lemma {:induction false} ValueOfDigits(n: nat)
    ensures Value(Digits(n)) == n
  {
    if 10 <= n {
      ValueOfDigits(n / 10);
      assert Digits(n)[..|Digits(n)| - 1] == Digits(n / 10);
    } else {
      assert Digits(n)[..0] == [];
    }
  }

  lemma {:induction false} DigitsInDigits(d: string, c: char, rest: string)
    requires (forall i :: 0 <= i < |d| ==> IsDigit(d[i])) && !IsDigit(c)
    ensures DigitsIn(d + [c] + rest) == |d|
  {
    var s := d + [c] + rest;
    if d != [] {
      DigitsInDigits(d[1..], c, rest);
      assert s[1..] == d[1..] + [c] + rest;
    }
  }

  /** A printed number is read back and nothing behind it is touched. */
  lemma StrtolOfDecimal(n: int, c: char, rest: string)
    requires -LONG_MAX <= n <= LONG_MAX && !IsDigit(c)
    ensures Strtol(Decimal(n) + [c] + rest) == (n, |Decimal(n)|)
  {
    if n < 0 {
      SignInFront(Digits(-n), c, rest);
      ValueOfDigits(-n);
      StrtolOfSigned(Digits(-n), c, rest, Decimal(n) + [c] + rest);
    } else {
      ValueOfDigits(n);
      StrtolOfUnsigned(Digits(n), c, rest, Decimal(n) + [c] + rest);
    }
  }

  lemma SignInFront(digits: string, c: char, rest: string)
    ensures ['-'] + digits + [c] + rest == ['-'] + (digits + [c] + rest)
  {
  }

  lemma StrtolOfUnsigned(digits: string, c: char, rest: string, s: string)
    requires digits != [] && (forall i :: 0 <= i < |digits| ==> IsDigit(digits[i])) && !IsDigit(c)
    requires s == digits + [c] + rest
    ensures Strtol(s) == (Clamped(Value(digits)), |digits|)
  {
    assert s[0] == digits[0] && Spaces(s) == 0;
    MagnitudeOf(digits, c, rest);
    assert s[0..] == s;
  }

  lemma StrtolOfSigned(digits: string, c: char, rest: string, s: string)
    requires digits != [] && (forall i :: 0 <= i < |digits| ==> IsDigit(digits[i])) && !IsDigit(c)
    requires s == ['-'] + (digits + [c] + rest)
    ensures Strtol(s) == (Clamped(-(Value(digits) as int)), 1 + |digits|)
  {
    MagnitudeOf(digits, c, rest);
    StrtolAfterMinus(s);
    assert s[1..] == digits + [c] + rest;
  }

  lemma StrtolAfterMinus(s: string)
    requires s != [] && s[0] == '-' && Magnitude(s[1..]).1 != 0
    ensures Strtol(s) == (Clamped(-Magnitude(s[1..]).0), 1 + Magnitude(s[1..]).1)
  {
    assert Spaces(s) == 0;
  }

  lemma MagnitudeOf(digits: string, c: char, rest: string)
    requires (forall i :: 0 <= i < |digits| ==> IsDigit(digits[i])) && !IsDigit(c)
    ensures Magnitude(digits + [c] + rest) == (Value(digits), |digits|)
  {
    DigitsInDigits(digits, c, rest);
    assert (digits + [c] + rest)[..|digits|] == digits;
  }

  lemma NumberThenOfDecimal(n: int, c: char, rest: string)
    requires -LONG_MAX <= n <= LONG_MAX && !IsDigit(c)
    ensures NumberThen(Decimal(n) + [c] + rest, c) == Some((n, rest))
  {
    var s, end := Decimal(n) + [c] + rest, |Decimal(n)|;
    StrtolOfDecimal(n, c, rest);
    assert s[end] == c && s[end + 1..] == rest;
  }

  /** An area's numbers in the order of the text, its closing bracket, and what follows it. */
  function BodyThen(a: CameraArea, tail: string): string {
    Decimal(a.left) + [','] + (Decimal(a.top) + [','] + (Decimal(a.right) + [',']
    + (Decimal(a.bottom) + [','] + (Decimal(a.weight) + [')'] + tail))))
  }

  lemma ParseTokenOfBody(a: CameraArea, tail: string)
    requires a.Valid()
    ensures ParseToken(BodyThen(a, tail)) == Some(a)
  {
    var s4 := Decimal(a.weight) + [')'] + tail;
    var s3 := Decimal(a.bottom) + [','] + s4;
    var s2 := Decimal(a.right) + [','] + s3;
    var s1 := Decimal(a.top) + [','] + s2;
    NumberThenOfDecimal(a.left, ',', s1);
    NumberThenOfDecimal(a.top, ',', s2);
    NumberThenOfDecimal(a.right, ',', s3);
    NumberThenOfDecimal(a.bottom, ',', s4);
    NumberThenOfDecimal(a.weight, ')', tail);
  }

  // --- A printed list ---

  lemma {:induction false} OnlyDigits(n: nat, c: char)
    requires !IsDigit(c)
    ensures c !in Digits(n)
  {
    if 10 <= n {
      OnlyDigits(n / 10, c);
    }
  }

  lemma OnlyDigitsAndSign(n: int, c: char)
    requires !IsDigit(c) && c != '-'
    ensures c !in Decimal(n)
  {
    OnlyDigits(if n < 0 then -n else n, c);
  }

  /** Opening brackets and terminators do not occur in an area's own text. */
  lemma NotInBody(c: char, a: CameraArea, tail: string)
    requires !IsDigit(c) && c !in {'-', ',', ')'} && c !in tail
    ensures c !in BodyThen(a, tail) && BodyThen(a, tail) != []
  {
    OnlyDigitsAndSign(a.left, c);
    OnlyDigitsAndSign(a.top, c);
    OnlyDigitsAndSign(a.right, c);
    OnlyDigitsAndSign(a.bottom, c);
    OnlyDigitsAndSign(a.weight, c);
  }

  lemma {:induction false} UntilBracketOf(piece: string, rest: string)
    requires '(' !in piece && (rest == [] || rest[0] == '(')
    ensures UntilBracket(piece + rest) == |piece|
  {
    if piece == [] {
      assert piece + rest == rest;
    } else {
      assert piece[0] in piece && (piece + rest)[1..] == piece[1..] + rest;
      UntilBracketOf(piece[1..], rest);
    }
  }

  /** An opening bracket in front makes no difference: delimiters are skipped. */
  lemma TokensSkipBracket(s: string)
    requires s != [] && s[0] == '('
    ensures Tokens(s) == Tokens(s[1..])
  {
  }

  lemma TokensOfPiece(piece: string, rest: string)
    requires piece != [] && '(' !in piece && (rest == [] || rest[0] == '(')
    ensures Tokens(piece + rest) == [piece] + Tokens(rest)
  {
    var s := piece + rest;
    UntilBracketOf(piece, rest);
    assert s[0] == piece[0] && piece[0] in piece && s[..|piece|] == piece;
    if rest == [] {
      assert s == piece;
      assert NextToken(s) == Some((piece, []));
    } else {
      assert s[|piece| + 1..] == rest[1..];
      assert NextToken(s) == Some((piece, rest[1..]));
      TokensSkipBracket(rest);
    }
  }

  /** Pieces, each with an opening bracket in front. */
  function Bracketed(pieces: seq<string>): string {
    if pieces == [] then [] else ['('] + pieces[0] + Bracketed(pieces[1..])
  }

  lemma {:induction false} TokensOfBracketed(pieces: seq<string>)
    requires forall i :: 0 <= i < |pieces| ==> pieces[i] != [] && '(' !in pieces[i]
    ensures Tokens(Bracketed(pieces)) == pieces
  {
    if pieces != [] {
      var rest := Bracketed(pieces[1..]);
      TokensOfBracketed(pieces[1..]);
      assert Bracketed(pieces)[1..] == pieces[0] + rest;
      TokensSkipBracket(Bracketed(pieces));
      TokensOfPiece(pieces[0], rest);
    }
  }

  function Bodies(areas: seq<CameraArea>, tails: seq<string>): seq<string>
    requires |tails| == |areas|
  {
    seq(|areas|, i requires 0 <= i < |areas| => BodyThen(areas[i], tails[i]))
  }

  /** Areas in brackets, each followed by a text of its own. */
  function Print(areas: seq<CameraArea>, tails: seq<string>): string
    requires |tails| == |areas|
  {
    Bracketed(Bodies(areas, tails))
  }

  lemma {:induction false} NotInBracketed(c: char, pieces: seq<string>)
    requires c != '(' && forall i :: 0 <= i < |pieces| ==> c !in pieces[i]
    ensures c !in Bracketed(pieces)
  {
    if pieces != [] {
      NotInBracketed(c, pieces[1..]);
    }
  }

  lemma {:induction false} CStringOfTerminated(text: string, after: string)
    requires 0 as char !in text
    ensures CString(text + [0 as char] + after) == text
  {
    if text != [] {
      assert text[0] in text && (text + [0 as char] + after)[1..] == text[1..] + [0 as char] + after;
      CStringOfTerminated(text[1..], after);
    }
  }

  /**
   Parsing a buffer with the terminated text of any non-empty list of valid areas gives the list back, whatever
   stands between an area and the next opening bracket and behind the terminator.
   */
  lemma RoundTrip(areas: seq<CameraArea>, tails: seq<string>, after: string)
    requires areas != [] && |tails| == |areas|
    requires forall i :: 0 <= i < |areas| ==> areas[i].Valid()
    requires forall i :: 0 <= i < |tails| ==> '(' !in tails[i] && 0 as char !in tails[i]
    ensures Parse(CString(Print(areas, tails) + [0 as char] + after)) == (NoError, areas)
  {
    var bodies := Bodies(areas, tails);
    forall i | 0 <= i < |bodies|
      ensures bodies[i] != [] && '(' !in bodies[i] && 0 as char !in bodies[i] && ParseToken(bodies[i]) == Some(areas[i])
    {
      NotInBody('(', areas[i], tails[i]);
      NotInBody(0 as char, areas[i], tails[i]);
      ParseTokenOfBody(areas[i], tails[i]);
    }
    NotInBracketed(0 as char, bodies);
    CStringOfTerminated(Print(areas, tails), after);
    TokensOfBracketed(bodies);
    AllGood(bodies, ParseToken, areas);
  }

  // --- Comparing lists ---

  function Compare(a: CameraArea, b: CameraArea): bool {
    a.top == b.top && a.left == b.left && a.bottom == b.bottom && a.right == b.right && a.weight == b.weight
  }

  /** Order matters: two lists are the same only if they are equal. */
  method AreAreasDifferent(area1: seq<CameraArea>, area2: seq<CameraArea>) returns (different: bool)
    ensures different <==> area1 != area2
  {
    if |area1| != |area2| {
      return true;
    }
    var i := 0;
    while i < |area1|
      invariant 0 <= i <= |area1|
      invariant area1[..i] == area2[..i]
    {
      if !Compare(area1[i], area2[i]) {
        return true;
      }
      i := i + 1;
    }
    assert area1 == area1[..i] && area2 == area2[..i];
    return false;
  }
}
